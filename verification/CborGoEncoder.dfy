/**
 The independent Go writer of canonical CBOR (`cbor.go`): maps are insertion-sorted in
 place by encoded key before anything is written. It produces the bytes the Rust writer does.
 */
module CborGoEncoder {
  import opened Bytes
  import opened Cbor
  import opened CborWire
  import opened CborOrder
  import CborGo
  import opened Sorting

  /** An entry beside its encoded key, as the sort holds it. */
  datatype Sortable = Sortable(key: seq<byte>, entry: Entry)

  predicate Keyed(ss: seq<Sortable>) {
    forall i :: 0 <= i < |ss| ==> ss[i].key == Enc(ss[i].entry.key)
  }

  function Entries(ss: seq<Sortable>): (es: seq<Entry>)
    ensures |es| == |ss|
    ensures forall i :: 0 <= i < |ss| ==> es[i] == ss[i].entry
  {
    seq(|ss|, i requires 0 <= i < |ss| => ss[i].entry)
  }

  // ----- the order of the in-place sort -----

  predicate KeyLeq(a: Sortable, b: Sortable) {
    !Less(b.key, a.key)
  }

  predicate KeysDiffer(a: Sortable, b: Sortable) {
    a.key != b.key
  }

  lemma InOrderIsTotal()
    ensures Total(KeyLeq)
  {
    forall a: Sortable, b: Sortable
      ensures KeyLeq(a, b) || KeyLeq(b, a)
    {
      if Less(b.key, a.key) {
        LessAsymmetric(b.key, a.key);
      }
    }
  }

  // ----- what the sort gives -----

  lemma EntriesDistinct(ss: seq<Sortable>)
    requires Keyed(ss)
    ensures AllPairs(KeysDiffer, ss) <==> DistinctKeys(Entries(ss))
  {
  }

  lemma SameEntriesOf(s: seq<Sortable>, t: seq<Sortable>)
    requires forall x :: x in s ==> x in t
    ensures forall e :: e in Entries(s) ==> e in Entries(t)
  {
    forall e | e in Entries(s)
      ensures e in Entries(t)
    {
      var i :| 0 <= i < |s| && s[i].entry == e;
      assert s[i] in s;
      var j :| 0 <= j < |t| && t[j] == s[i];
      assert Entries(t)[j] == e;
    }
  }

  lemma NeighboursOf(t: seq<Sortable>)
    requires Keyed(t) && SortedBy(KeyLeq, t)
    ensures NonDecreasing(Entries(t))
    ensures NeighboursDiffer(Entries(t)) <==> forall i :: 0 < i < |t| ==> t[i - 1].key != t[i].key
  {
    forall i | 0 < i < |t|
      ensures !Less(t[i].key, t[i - 1].key)
    {
      assert KeyLeq(t[i - 1], t[i]);
    }
  }

  /** Sorted, with no two neighbours equal: that is the canonical order of the entries. */
  lemma SortedIsSort(s: seq<Sortable>, t: seq<Sortable>)
    requires Keyed(s) && Keyed(t) && Rearranged(KeysDiffer, s, t) && SortedBy(KeyLeq, t)
    ensures (forall i :: 0 < i < |t| ==> t[i - 1].key != t[i].key) <==> DistinctKeys(Entries(s))
    ensures DistinctKeys(Entries(s)) ==> Entries(t) == Sort(Entries(s))
  {
    var (a, b) := (Entries(s), Entries(t));
    EntriesDistinct(s);
    EntriesDistinct(t);
    NeighboursOf(t);
    if NeighboursDiffer(b) {
      DifferIncreasing([], b);
      IncreasingDistinct([], b);
    }
    if DistinctKeys(a) {
      RearrangedMembers(KeysDiffer, s, t);
      SameEntriesOf(s, t);
      SameEntriesOf(t, s);
      DistinctNeighbours(b);
      SortIncreasing(a);
      SortEntries(a);
      IncreasingUnique([], b, Sort(a));
    }
  }

  lemma DistinctNeighbours(es: seq<Entry>)
    requires NonDecreasing(es) && DistinctKeys(es)
    ensures NeighboursDiffer(es) && Increasing([], es)
  {
    DifferIncreasing([], es);
  }

  lemma KeyedAgain(s: seq<Sortable>, t: seq<Sortable>)
    requires Keyed(s) && forall x :: x in t ==> x in s
    ensures Keyed(t)
  {
    forall i | 0 <= i < |t|
      ensures t[i].key == Enc(t[i].entry.key)
    {
      assert t[i] in t;
      var j :| 0 <= j < |s| && s[j] == t[i];
    }
  }

  // ----- canonicalize -----

  /** No map key, at any level, is too deep to encode by itself. */
  predicate KeysEncode(v: Value)
    decreases v, 0
  {
    match v
    case Array(items) => forall x :: x in items ==> KeysEncode(x)
    case Map(entries) => forall e :: e in entries ==> KeysEncodeEntry(e)
    case _ => true
  }

  predicate KeysEncodeEntry(e: Entry)
    decreases e, 1
  {
    Fits(e.key, 0) && KeysEncode(e.key) && KeysEncode(e.val)
  }

  /** What can be put in canonical form; whether it is too deep as a whole is not looked at. */
  predicate Sorts(v: Value) {
    NoDuplicates(v) && KeysEncode(v)
  }

  predicate SortsEntry(e: Entry) {
    NoDuplicatesEntry(e) && KeysEncodeEntry(e)
  }

  /** The keys of a value that fits all encode. */
  lemma {:induction false} KeysOfFitting(v: Value, depth: nat)
    requires Fits(v, depth)
    ensures KeysEncode(v)
    decreases v, 0
  {
    var next := depth + 1;
    match v
    case Array(items) =>
      forall x | x in items
        ensures KeysEncode(x)
      {
        KeysOfFitting(x, next);
      }
    case Map(entries) =>
      forall e | e in entries
        ensures KeysEncodeEntry(e)
      {
        KeysOfFittingEntry(e, next);
      }
    case _ =>
  }

  lemma {:induction false} KeysOfFittingEntry(e: Entry, depth: nat)
    requires FitsEntry(e, depth)
    ensures KeysEncodeEntry(e)
    decreases e, 1
  {
    FitsAbove(e.key, depth, 0);
    KeysOfFitting(e.key, depth);
    KeysOfFitting(e.val, depth);
  }

  /** `canonicalize`: sorts every map, and refuses duplicate keys or a key that does not encode. */
  method Canonicalize(v: Value) returns (r: Result<Value>)
    requires WellFormed(v)
    ensures r == if Sorts(v) then Ok(Canon(v)) else Err
    decreases v, 3
  {
    match v {
      case Array(items) =>
        var out := CanonicalizeItems(v);
        if out.Err? {
          return Err;
        }
        return Ok(Array(out.value));
      case Map(entries) =>
        r := CanonicalizeMap(v);
      case _ =>
        return Ok(v);
    }
  }

  method CanonicalizeItems(v: Value) returns (r: Result<seq<Value>>)
    requires v.Array? && WellFormed(v)
    ensures r == if Sorts(v) then Ok(CanonItems(v.items)) else Err
    decreases v, 1
  {
    var out: seq<Value> := [];
    var items := v.items;
    for i := 0 to |items|
      invariant forall k :: 0 <= k < i ==> Sorts(items[k])
      invariant |out| == i && forall k :: 0 <= k < i ==> out[k] == Canon(items[k])
    {
      var c := Canonicalize(items[i]);
      if c.Err? {
        assert items[i] in items;
        return Err;
      }
      out := out + [c.value];
    }
    assert out == CanonItems(items);
    return Ok(out);
  }

  /** The sort, the duplicate check on neighbours, and the copy out of the array. */
  method SortPairs(ss: array<Sortable>) returns (r: Result<Value>)
    requires Keyed(ss[..])
    modifies ss
    ensures r.Ok? <==> DistinctKeys(Entries(old(ss[..])))
    ensures r.Ok? ==> r.value == Map(Sort(Entries(old(ss[..]))))
  {
    ghost var before := ss[..];
    InOrderIsTotal();
    InsertionSort(ss, KeyLeq, KeysDiffer);
    ghost var after := ss[..];
    RearrangedMembers(KeysDiffer, before, after);
    KeyedAgain(before, after);
    SortedIsSort(before, after);
    var clean := NoNeighbours(ss);
    if !clean {
      return Err;
    }
    return Ok(Map(Entries(ss[..])));
  }

  /** The duplicate check on neighbours. */
  method NoNeighbours(ss: array<Sortable>) returns (clean: bool)
    ensures clean <==> forall k :: 0 < k < ss.Length ==> ss[k - 1].key != ss[k].key
  {
    var i := 1;
    while i < ss.Length
      invariant 1 <= i && forall k :: 0 < k < i && k < ss.Length ==> ss[k - 1].key != ss[k].key
    {
      if ss[i - 1].key == ss[i].key {
        return false;
      }
      i := i + 1;
    }
    return true;
  }

  /** The map case of `canonicalize`. */
  method CanonicalizeMap(v: Value) returns (r: Result<Value>)
    requires v.Map? && WellFormed(v)
    ensures r == if Sorts(v) then Ok(Canon(v)) else Err
    decreases v, 2
  {
    var ss := CanonicalizePairs(v);
    if ss.Err? {
      return Err;
    }
    r := SortPairs(ss.value);
  }

  /** The loop that fills the array to sort. */
  method CanonicalizePairs(v: Value) returns (r: Result<array<Sortable>>)
    requires v.Map? && WellFormed(v)
    ensures r.Ok? ==> fresh(r.value) && Keyed(r.value[..]) && Entries(r.value[..]) == CanonEntries(v.entries)
    ensures r.Ok? <==> forall e :: e in v.entries ==> SortsEntry(e)
    decreases v, 1
  {
    var entries := v.entries;
    var ss := new Sortable[|entries|](_ => Sortable([], Entry(Null, Null)));
    for i := 0 to |entries|
      invariant forall k :: 0 <= k < i ==> SortsEntry(entries[k])
      invariant forall k :: 0 <= k < i ==> ss[k] == Sortable(Enc(CanonEntry(entries[k]).key), CanonEntry(entries[k]))
    {
      var e := entries[i];
      assert e in entries && WellFormedEntry(e);
      var s := CanonicalizePair(e);
      if s.Err? {
        return Err;
      }
      ss[i] := s.value;
    }
    return Ok(ss);
  }

  method CanonicalizePair(e: Entry) returns (r: Result<Sortable>)
    requires WellFormedEntry(e)
    ensures r == if SortsEntry(e) then Ok(Sortable(Enc(CanonEntry(e).key), CanonEntry(e))) else Err
    decreases e, 4
  {
    var k := Canonicalize(e.key);
    if k.Err? {
      return Err;
    }
    var val := Canonicalize(e.val);
    if val.Err? {
      return Err;
    }
    CanonWellFormed(e.key);
    FitsOfCanon(e.key);
    var kb := CborGo.EncodeValue(k.value);
    if kb.Err? {
      return Err;
    }
    return Ok(Sortable(kb.value, Entry(k.value, val.value)));
  }

  /** Putting a value in canonical form changes neither its depth nor its well-formedness. */
  lemma {:induction false} CanonWellFormed(v: Value)
    requires WellFormed(v)
    ensures WellFormed(Canon(v))
    decreases v, 0
  {
    match v
    case Array(items) =>
      forall i | 0 <= i < |items|
        ensures WellFormed(Canon(items[i]))
      {
        CanonWellFormed(items[i]);
      }
    case Map(entries) =>
      var es := CanonEntries(entries);
      forall i | 0 <= i < |entries|
        ensures WellFormedEntry(es[i])
      {
        assert WellFormedEntry(entries[i]);
        CanonWellFormed(entries[i].key);
        CanonWellFormed(entries[i].val);
      }
      SortEntries(es);
    case _ =>
  }

  lemma {:induction false} FitsBack(v: Value, depth: nat)
    requires Fits(Canon(v), depth)
    ensures Fits(v, depth)
    decreases v, 0
  {
    var next := depth + 1;
    match v
    case Array(items) =>
      forall i | 0 <= i < |items|
        ensures Fits(items[i], next)
      {
        assert CanonItems(items)[i] in CanonItems(items);
        FitsBack(items[i], next);
      }
    case Map(entries) =>
      var es := CanonEntries(entries);
      SortEntries(es);
      forall i | 0 <= i < |entries|
        ensures FitsEntry(entries[i], next)
      {
        assert es[i] in es && es[i] in Sort(es);
        FitsEntryBack(entries[i], next);
      }
    case _ =>
  }

  lemma {:induction false} FitsEntryBack(e: Entry, depth: nat)
    requires FitsEntry(CanonEntry(e), depth)
    ensures FitsEntry(e, depth)
    decreases e, 1
  {
    FitsBack(e.key, depth);
    FitsBack(e.val, depth);
  }

  lemma FitsOfCanon(v: Value)
    requires WellFormed(v) && NoDuplicates(v)
    ensures Fits(Canon(v), 0) <==> Fits(v, 0)
  {
    if Fits(v, 0) {
      CanonAdmissible(v, 0);
    }
    if Fits(Canon(v), 0) {
      FitsBack(v, 0);
    }
  }

  /** What a Go writer emits for a value it built, duplicates and depth checked late. */
  method EncodeCanonical(v: Value) returns (r: Result<seq<byte>>)
    requires WellFormed(v)
    ensures r == Encode(v)
    ensures forall b :: r == Ok(b) <==> Nesting(v) <= 16 && Orders(v, b)
  {
    EncodeMeans(v);
    if Fits(v, 0) {
      KeysOfFitting(v, 0);
    }
    var c := Canonicalize(v);
    if c.Err? {
      return Err;
    }
    CanonWellFormed(v);
    FitsOfCanon(v);
    r := CborGo.EncodeValue(c.value);
  }
}
