/**
 The canonical form of a value and `Value::encode`: map entries in any order, at any level,
 encode to the one canonical spelling, and decode back to the sorted value.
 */
module CborOrder {
  import opened Bytes
  import opened Cbor
  import opened CborBijection
  import opened Sorting

  // ----- the order on encoded keys -----

  lemma {:induction false} LessTotal(a: seq<byte>, b: seq<byte>)
    ensures Less(a, b) || a == b || Less(b, a)
  {
    if a != [] && b != [] && a[0] == b[0] {
      LessTotal(a[1..], b[1..]);
      assert a == [a[0]] + a[1..] && b == [b[0]] + b[1..];
    }
  }

  lemma {:induction false} LessAsymmetric(a: seq<byte>, b: seq<byte>)
    requires Less(a, b)
    ensures !Less(b, a) && a != b
  {
    if a != [] && a[0] == b[0] {
      LessAsymmetric(a[1..], b[1..]);
    }
  }

  lemma {:induction false} LessTransitive(a: seq<byte>, b: seq<byte>, c: seq<byte>)
    requires Less(a, b) && Less(b, c)
    ensures Less(a, c)
  {
    if a != [] && a[0] == b[0] == c[0] {
      LessTransitive(a[1..], b[1..], c[1..]);
    }
  }

  lemma {:induction false} IncreasingAbove(prev: seq<byte>, es: seq<Entry>, i: nat)
    requires Increasing(prev, es) && i < |es|
    ensures Less(prev, Enc(es[i].key))
    decreases |es|
  {
    if i > 0 {
      IncreasingAbove(Enc(es[0].key), es[1..], i - 1);
      LessTransitive(prev, Enc(es[0].key), Enc(es[i].key));
    }
  }

  lemma {:induction false} IncreasingPairs(prev: seq<byte>, es: seq<Entry>, i: nat, j: nat)
    requires Increasing(prev, es) && i < j < |es|
    ensures Less(Enc(es[i].key), Enc(es[j].key))
    decreases |es|
  {
    if i == 0 {
      IncreasingAbove(Enc(es[0].key), es[1..], j - 1);
    } else {
      IncreasingPairs(Enc(es[0].key), es[1..], i - 1, j - 1);
    }
  }

  ghost predicate SameEntries(a: seq<Entry>, b: seq<Entry>) {
    forall e :: e in a <==> e in b
  }

  /** Strictly increasing lists of the same entries are equal. */
  lemma {:induction false} IncreasingUnique(prev: seq<byte>, a: seq<Entry>, b: seq<Entry>)
    requires Increasing(prev, a) && Increasing(prev, b) && SameEntries(a, b)
    ensures a == b
    decreases |a|
  {
    assert b != [] ==> b[0] in b;
    if a != [] {
      assert a[0] in a;
      var i :| 0 <= i < |b| && b[i] == a[0];
      assert b[0] in b;
      var j :| 0 <= j < |a| && a[j] == b[0];
      if i > 0 && j > 0 {
        IncreasingPairs(prev, b, 0, i);
        IncreasingPairs(prev, a, 0, j);
        LessAsymmetric(Enc(a[0].key), Enc(b[0].key));
      }
      TailEntries(prev, a);
      TailEntries(prev, b);
      assert SameEntries(a[1..], b[1..]);
      IncreasingUnique(Enc(a[0].key), a[1..], b[1..]);
      assert a == [a[0]] + a[1..] && b == [b[0]] + b[1..];
    }
  }

  lemma TailEntries(prev: seq<byte>, a: seq<Entry>)
    requires Increasing(prev, a) && a != []
    ensures forall e :: e in a[1..] <==> e in a && e != a[0]
  {
    forall k: nat | 0 < k < |a|
      ensures a[k] != a[0]
    {
      IncreasingPairs(prev, a, 0, k);
      LessAsymmetric(Enc(a[0].key), Enc(a[k].key));
    }
    forall e | e in a && e != a[0]
      ensures e in a[1..]
    {
      var k :| 0 <= k < |a| && a[k] == e;
      assert a[1..][k - 1] == e;
    }
  }

  // ----- sorting by encoded key -----

  predicate EntryLeq(a: Entry, b: Entry) {
    !Less(Enc(b.key), Enc(a.key))
  }

  predicate EntriesDiffer(a: Entry, b: Entry) {
    Enc(a.key) != Enc(b.key)
  }

  function Sort(es: seq<Entry>): seq<Entry> {
    SortBy(EntryLeq, es)
  }

  lemma SortEntries(es: seq<Entry>)
    ensures |Sort(es)| == |es| && SameEntries(Sort(es), es)
  {
    SortMembers(EntryLeq, es);
  }

  predicate DistinctKeys(es: seq<Entry>) {
    forall i, j :: 0 <= i < j < |es| ==> Enc(es[i].key) != Enc(es[j].key)
  }

  lemma DistinctIsPairs(es: seq<Entry>)
    ensures DistinctKeys(es) <==> AllPairs(EntriesDiffer, es)
  {
  }

  lemma EntryLeqIsTotal()
    ensures Total(EntryLeq)
  {
    forall a: Entry, b: Entry
      ensures EntryLeq(a, b) || EntryLeq(b, a)
    {
      if Less(Enc(b.key), Enc(a.key)) {
        LessAsymmetric(Enc(b.key), Enc(a.key));
      }
    }
  }

  /** Sorting neither makes nor removes a duplicate. */
  lemma SortDistinct(es: seq<Entry>)
    ensures DistinctKeys(Sort(es)) <==> DistinctKeys(es)
  {
    DistinctIsPairs(es);
    DistinctIsPairs(Sort(es));
    SortPairs(EntryLeq, EntriesDiffer, es);
  }

  lemma IncreasingDistinct(prev: seq<byte>, es: seq<Entry>)
    requires Increasing(prev, es)
    ensures DistinctKeys(es)
  {
    forall i, j | 0 <= i < j < |es|
      ensures Enc(es[i].key) != Enc(es[j].key)
    {
      IncreasingPairs(prev, es, i, j);
      LessAsymmetric(Enc(es[i].key), Enc(es[j].key));
    }
  }

  predicate NonDecreasing(es: seq<Entry>) {
    forall i :: 0 < i < |es| ==> !Less(Enc(es[i].key), Enc(es[i - 1].key))
  }

  predicate NeighboursDiffer(es: seq<Entry>) {
    forall i :: 0 < i < |es| ==> Enc(es[i - 1].key) != Enc(es[i].key)
  }

  lemma SortNonDecreasing(es: seq<Entry>)
    ensures NonDecreasing(Sort(es))
  {
    EntryLeqIsTotal();
    SortSorts(EntryLeq, es);
    var s := Sort(es);
    forall i | 0 < i < |s|
      ensures !Less(Enc(s[i].key), Enc(s[i - 1].key))
    {
      assert EntryLeq(s[i - 1], s[i]);
    }
  }

  /** A sorted list whose neighbours differ is strictly increasing. */
  lemma {:induction false} DifferIncreasing(prev: seq<byte>, es: seq<Entry>)
    requires NonDecreasing(es) && NeighboursDiffer(es)
    requires es != [] ==> Less(prev, Enc(es[0].key))
    ensures Increasing(prev, es)
    decreases |es|
  {
    if es != [] {
      var rest := es[1..];
      if rest != [] {
        LessTotal(Enc(es[0].key), Enc(es[1].key));
      }
      DifferIncreasing(Enc(es[0].key), rest);
    }
  }

  /** Sorting entries with distinct keys puts them in canonical order. */
  lemma SortIncreasing(es: seq<Entry>)
    requires DistinctKeys(es)
    ensures Increasing([], Sort(es))
  {
    SortNonDecreasing(es);
    SortDistinct(es);
    DifferIncreasing([], Sort(es));
  }

  /** The duplicate check made on neighbours after sorting finds exactly the duplicates. */
  lemma NeighboursAfterSort(es: seq<Entry>)
    ensures NeighboursDiffer(Sort(es)) <==> DistinctKeys(es)
  {
    SortNonDecreasing(es);
    SortDistinct(es);
    if NeighboursDiffer(Sort(es)) {
      DifferIncreasing([], Sort(es));
      IncreasingDistinct([], Sort(es));
    }
  }

  // ----- canonical form and encoding -----

  function Canon(v: Value): Value
    decreases v, 0
  {
    match v
    case Array(items) => Array(CanonItems(items))
    case Map(entries) => Map(Sort(CanonEntries(entries)))
    case _ => v
  }

  function CanonItems(items: seq<Value>): (r: seq<Value>)
    ensures |r| == |items|
    ensures forall i :: 0 <= i < |items| ==> r[i] == Canon(items[i])
    decreases items, 1
  {
    if items == [] then [] else [Canon(items[0])] + CanonItems(items[1..])
  }

  function CanonEntry(e: Entry): Entry
    decreases e, 1
  {
    Entry(Canon(e.key), Canon(e.val))
  }

  function CanonEntries(entries: seq<Entry>): (r: seq<Entry>)
    ensures |r| == |entries|
    ensures forall i :: 0 <= i < |entries| ==> r[i] == CanonEntry(entries[i])
    decreases entries, 2
  {
    if entries == [] then [] else [CanonEntry(entries[0])] + CanonEntries(entries[1..])
  }

  /** No map, at any level, has two keys with one encoding. */
  predicate NoDuplicates(v: Value)
    decreases v, 0
  {
    match v
    case Array(items) => forall x :: x in items ==> NoDuplicates(x)
    case Map(entries) => (forall e :: e in entries ==> NoDuplicatesEntry(e)) && DistinctKeys(CanonEntries(entries))
    case _ => true
  }

  predicate NoDuplicatesEntry(e: Entry)
    decreases e, 1
  {
    NoDuplicates(e.key) && NoDuplicates(e.val)
  }

  /** `Value::encode`. */
  function Encode(v: Value): Result<seq<byte>> {
    if Fits(v, 0) && NoDuplicates(v) then Ok(Enc(Canon(v))) else Err
  }

  /** The canonical form of a value that encodes is admissible. */
  lemma {:induction false} CanonAdmissible(v: Value, depth: nat)
    requires WellFormed(v) && Fits(v, depth) && NoDuplicates(v)
    ensures WellFormed(Canon(v)) && Fits(Canon(v), depth) && Canonical(Canon(v))
    decreases v, 0
  {
    var next := depth + 1;
    match v
    case Array(items) =>
      forall i | 0 <= i < |items|
        ensures WellFormed(Canon(items[i])) && Fits(Canon(items[i]), next) && Canonical(Canon(items[i]))
      {
        assert items[i] in items && Fits(items[i], next);
        CanonAdmissible(items[i], next);
      }
    case Map(entries) =>
      var es := CanonEntries(entries);
      forall i | 0 <= i < |entries|
        ensures WellFormedEntry(es[i]) && FitsEntry(es[i], next) && CanonicalEntry(es[i])
      {
        assert entries[i] in entries && FitsEntry(entries[i], next);
        CanonEntryAdmissible(entries[i], next);
      }
      SortIncreasing(es);
      SortEntries(es);
    case _ =>
  }

  lemma {:induction false} CanonEntryAdmissible(e: Entry, depth: nat)
    requires WellFormedEntry(e) && FitsEntry(e, depth) && NoDuplicatesEntry(e)
    ensures WellFormedEntry(CanonEntry(e)) && FitsEntry(CanonEntry(e), depth) && CanonicalEntry(CanonEntry(e))
    decreases e, 1
  {
    CanonAdmissible(e.key, depth);
    CanonAdmissible(e.val, depth);
  }

  /** What fits at some depth fits above it. */
  lemma {:induction false} FitsAbove(v: Value, depth: nat, above: nat)
    requires Fits(v, depth) && above <= depth
    ensures Fits(v, above)
    decreases v, 0
  {
    var (next, next') := (depth + 1, above + 1);
    match v
    case Array(items) =>
      forall x | x in items
        ensures Fits(x, next')
      {
        FitsAbove(x, next, next');
      }
    case Map(entries) =>
      forall e | e in entries
        ensures FitsEntry(e, next')
      {
        FitsEntryAbove(e, next, next');
      }
    case _ =>
  }

  lemma {:induction false} FitsEntryAbove(e: Entry, depth: nat, above: nat)
    requires FitsEntry(e, depth) && above <= depth
    ensures FitsEntry(e, above)
    decreases e, 1
  {
    FitsAbove(e.key, depth, above);
    FitsAbove(e.val, depth, above);
  }

  /** A canonical value is its own canonical form. */
  lemma {:induction false} CanonOfCanonical(v: Value)
    requires Canonical(v)
    ensures Canon(v) == v && NoDuplicates(v)
    decreases v, 0
  {
    match v
    case Array(items) =>
      forall i | 0 <= i < |items|
        ensures Canon(items[i]) == items[i] && NoDuplicates(items[i])
      {
        CanonOfCanonical(items[i]);
      }
      assert CanonItems(items) == items;
    case Map(entries) =>
      forall i | 0 <= i < |entries|
        ensures CanonEntry(entries[i]) == entries[i] && NoDuplicatesEntry(entries[i])
      {
        CanonEntryOfCanonical(entries[i]);
      }
      assert CanonEntries(entries) == entries;
      IncreasingDistinct([], entries);
      SortIncreasing(entries);
      SortEntries(entries);
      IncreasingUnique([], Sort(entries), entries);
    case _ =>
  }

  lemma {:induction false} CanonEntryOfCanonical(e: Entry)
    requires CanonicalEntry(e)
    ensures CanonEntry(e) == e && NoDuplicatesEntry(e)
    decreases e, 1
  {
    CanonOfCanonical(e.key);
    CanonOfCanonical(e.val);
  }

  // ----- the theorems -----

  /** Every accepted string is reproduced exactly by encoding what it decoded to. */
  lemma EncodeOfDecode(b: seq<byte>)
    requires |b| < U64_RANGE && Decode(b).Ok?
    ensures Encode(Decode(b).value) == Ok(b)
  {
    DecodeIff(b, Decode(b).value);
    CanonOfCanonical(Decode(b).value);
  }

  /** Whatever encodes decodes back to its canonical form. */
  lemma DecodeOfEncode(v: Value)
    requires WellFormed(v) && Encode(v).Ok? && |Encode(v).value| < U64_RANGE
    ensures Decode(Encode(v).value) == Ok(Canon(v))
  {
    CanonAdmissible(v, 0);
    DecodeIff(Encode(v).value, Canon(v));
  }

  /** Equal bytes mean equal canonical forms. */
  lemma EncodeInjective(v: Value, w: Value)
    requires WellFormed(v) && WellFormed(w) && Encode(v).Ok? && Encode(v) == Encode(w)
    ensures Canon(v) == Canon(w)
  {
    CanonAdmissible(v, 0);
    CanonAdmissible(w, 0);
    PrefixFree(Canon(v), Canon(w));
  }

  /** `p` permutes `0..n`, and `q` undoes it. */
  ghost predicate Permutes(p: seq<nat>, q: seq<nat>, n: nat) {
    && |p| == |q| == n
    && (forall i :: 0 <= i < n ==> p[i] < n && q[p[i]] == i)
    && (forall i :: 0 <= i < n ==> q[i] < n && p[q[i]] == i)
  }

  /** `w` is `v` with the entries of any of its maps, at any level, in another order. */
  ghost predicate Reordered(v: Value, w: Value)
    decreases v, 0
  {
    match (v, w)
    case (Array(a), Array(b)) => |a| == |b| && forall i :: 0 <= i < |a| ==> Reordered(a[i], b[i])
    case (Map(a), Map(b)) => |a| == |b| && exists p, q ::
      Permutes(p, q, |a|) && forall i :: 0 <= i < |a| ==> ReorderedEntry(a[p[i]], b[i])
    case _ => v == w
  }

  ghost predicate ReorderedEntry(e: Entry, f: Entry)
    decreases e, 1
  {
    Reordered(e.key, f.key) && Reordered(e.val, f.val)
  }

  /** Reordering map entries anywhere changes neither success nor a byte of the encoding. */
  lemma ReorderedEncode(v: Value, w: Value)
    requires Reordered(v, w)
    ensures Encode(v) == Encode(w)
  {
    ReorderedSame(v, w, 0);
  }

  lemma {:induction false} ReorderedSame(v: Value, w: Value, depth: nat)
    requires Reordered(v, w)
    ensures Fits(v, depth) <==> Fits(w, depth)
    ensures NoDuplicates(v) <==> NoDuplicates(w)
    ensures NoDuplicates(v) ==> Canon(v) == Canon(w)
    decreases v, 0
  {
    var next := depth + 1;
    match (v, w)
    case (Array(a), Array(b)) =>
      forall i | 0 <= i < |a|
        ensures SameItem(a[i], b[i], next)
      {
        ReorderedSame(a[i], b[i], next);
      }
      ReorderedItems(a, b, next);
    case (Map(a), Map(b)) =>
      var p, q :| Permutes(p, q, |a|) && forall i :: 0 <= i < |a| ==> ReorderedEntry(a[p[i]], b[i]);
      forall i | 0 <= i < |a|
        ensures SameEntry(a[p[i]], b[i], next)
      {
        ReorderedEntrySame(a[p[i]], b[i], next);
      }
      ReorderedMap(a, b, p, q, next);
    case _ =>
  }

  ghost predicate SameItem(v: Value, w: Value, depth: nat) {
    && (Fits(v, depth) <==> Fits(w, depth))
    && (NoDuplicates(v) <==> NoDuplicates(w))
    && (NoDuplicates(v) ==> Canon(v) == Canon(w))
  }

  lemma ReorderedItems(a: seq<Value>, b: seq<Value>, next: nat)
    requires |a| == |b| && forall i :: 0 <= i < |a| ==> SameItem(a[i], b[i], next)
    ensures (forall x :: x in a ==> Fits(x, next)) <==> (forall x :: x in b ==> Fits(x, next))
    ensures (forall x :: x in a ==> NoDuplicates(x)) <==> (forall x :: x in b ==> NoDuplicates(x))
    ensures (forall x :: x in a ==> NoDuplicates(x)) ==> CanonItems(a) == CanonItems(b)
  {
    forall i | 0 <= i < |a|
      ensures a[i] in a && b[i] in b && SameItem(a[i], b[i], next)
    {
    }
    if forall x :: x in a ==> NoDuplicates(x) {
      assert CanonItems(a) == CanonItems(b);
    }
  }

  ghost predicate SameEntry(e: Entry, f: Entry, depth: nat) {
    && (FitsEntry(e, depth) <==> FitsEntry(f, depth))
    && (NoDuplicatesEntry(e) <==> NoDuplicatesEntry(f))
    && (NoDuplicatesEntry(e) ==> CanonEntry(e) == CanonEntry(f))
  }

  lemma {:induction false} ReorderedEntrySame(e: Entry, f: Entry, depth: nat)
    requires ReorderedEntry(e, f)
    ensures SameEntry(e, f, depth)
    decreases e, 1
  {
    ReorderedSame(e.key, f.key, depth);
    ReorderedSame(e.val, f.val, depth);
  }

  lemma EveryEntry(a: seq<Entry>, b: seq<Entry>, q: seq<nat>, depth: nat)
    requires |q| == |a|
    requires forall i :: 0 <= i < |a| ==> q[i] < |b| && SameEntry(b[q[i]], a[i], depth)
    ensures (forall e :: e in b ==> FitsEntry(e, depth)) ==> (forall e :: e in a ==> FitsEntry(e, depth))
    ensures (forall e :: e in b ==> NoDuplicatesEntry(e)) ==> (forall e :: e in a ==> NoDuplicatesEntry(e))
  {
    forall i | 0 <= i < |a|
      ensures b[q[i]] in b && SameEntry(b[q[i]], a[i], depth)
    {
    }
  }

  lemma ReorderedMap(a: seq<Entry>, b: seq<Entry>, p: seq<nat>, q: seq<nat>, depth: nat)
    requires |a| == |b| && Permutes(p, q, |a|)
    requires forall i :: 0 <= i < |a| ==> SameEntry(a[p[i]], b[i], depth)
    ensures (forall e :: e in a ==> FitsEntry(e, depth)) <==> (forall e :: e in b ==> FitsEntry(e, depth))
    ensures NoDuplicates(Map(a)) <==> NoDuplicates(Map(b))
    ensures NoDuplicates(Map(a)) ==> Canon(Map(a)) == Canon(Map(b))
  {
    forall i | 0 <= i < |a|
      ensures SameEntry(b[q[i]], a[i], depth)
    {
      assert SameEntry(a[p[q[i]]], b[q[i]], depth);
    }
    EveryEntry(a, b, q, depth);
    EveryEntry(b, a, p, depth);
    if forall e :: e in a ==> NoDuplicatesEntry(e) {
      ReorderedCanon(a, b, p, q, depth);
    }
  }

  lemma ReorderedCanon(a: seq<Entry>, b: seq<Entry>, p: seq<nat>, q: seq<nat>, depth: nat)
    requires |a| == |b| && Permutes(p, q, |a|)
    requires forall i :: 0 <= i < |a| ==> SameEntry(a[p[i]], b[i], depth)
    requires forall e :: e in a ==> NoDuplicatesEntry(e)
    ensures DistinctKeys(CanonEntries(a)) <==> DistinctKeys(CanonEntries(b))
    ensures DistinctKeys(CanonEntries(a)) ==> Sort(CanonEntries(a)) == Sort(CanonEntries(b))
  {
    var (ca, cb) := (CanonEntries(a), CanonEntries(b));
    forall i | 0 <= i < |a|
      ensures ca[p[i]] == cb[i]
    {
      assert a[p[i]] in a && SameEntry(a[p[i]], b[i], depth);
    }
    PermutedSort(ca, cb, p, q);
  }

  lemma PermutedSort(a: seq<Entry>, b: seq<Entry>, p: seq<nat>, q: seq<nat>)
    requires |a| == |b| && Permutes(p, q, |a|)
    requires forall i :: 0 <= i < |a| ==> a[p[i]] == b[i]
    ensures DistinctKeys(a) <==> DistinctKeys(b)
    ensures DistinctKeys(a) ==> Sort(a) == Sort(b)
  {
    forall i | 0 <= i < |a|
      ensures a[i] == b[q[i]]
    {
      assert a[p[q[i]]] == a[i];
    }
    assert SameEntries(a, b);
    PermutedDistinct(a, b, p, q);
    PermutedDistinct(b, a, q, p);
    if DistinctKeys(a) {
      SortEntries(a);
      SortEntries(b);
      SortIncreasing(a);
      SortIncreasing(b);
      IncreasingUnique([], Sort(a), Sort(b));
    }
  }

  lemma PermutedDistinct(a: seq<Entry>, b: seq<Entry>, p: seq<nat>, q: seq<nat>)
    requires |a| == |b| && Permutes(p, q, |a|)
    requires forall i :: 0 <= i < |a| ==> a[p[i]] == b[i]
    ensures DistinctKeys(a) ==> DistinctKeys(b)
  {
    if DistinctKeys(a) {
      forall i, j | 0 <= i < j < |b|
        ensures Enc(b[i].key) != Enc(b[j].key)
      {
        assert q[p[i]] == i && q[p[j]] == j;
      }
    }
  }
}
