/**
 The Rust writer of canonical CBOR (`cbor.rs`): an output buffer, and maps whose keys are
 encoded, sorted and checked for duplicates before anything of the map is written.
 */
module CborRustEncoder {
  import opened Bytes
  import opened Cbor
  import opened CborWire
  import opened CborOrder
  import opened Sorting

  /** A map entry on its way out: the key already encoded, the value not yet. */
  datatype Keyed = Keyed(kb: seq<byte>, val: Value)

  predicate KeyedLeq(a: Keyed, b: Keyed) {
    !Less(b.kb, a.kb)
  }

  /** The standard library's stable sort, by encoded key. */
  function SortKeyed(ks: seq<Keyed>): seq<Keyed> {
    SortBy(KeyedLeq, ks)
  }

  /** `k` stands for the canonical entry `e`. */
  predicate Stands(k: Keyed, e: Entry) {
    k.kb == Enc(e.key) && Canon(k.val) == e.val
  }

  ghost predicate Match(ks: seq<Keyed>, es: seq<Entry>) {
    |ks| == |es| && forall i :: 0 <= i < |ks| ==> Stands(ks[i], es[i])
  }

  lemma MatchCons(k: Keyed, ks: seq<Keyed>, e: Entry, es: seq<Entry>)
    requires Match(ks, es) && Stands(k, e)
    ensures Match([k] + ks, [e] + es)
  {
  }

  lemma {:induction false} InsertMatch(k: Keyed, ks: seq<Keyed>, e: Entry, es: seq<Entry>)
    requires Match(ks, es) && Stands(k, e)
    ensures Match(InsertBy(KeyedLeq, k, ks), InsertBy(EntryLeq, e, es))
    decreases |ks|
  {
    if ks == [] {
      MatchCons(k, ks, e, es);
    } else {
      assert Stands(ks[0], es[0]);
      assert KeyedLeq(k, ks[0]) <==> EntryLeq(e, es[0]);
      if KeyedLeq(k, ks[0]) {
        MatchCons(k, ks, e, es);
      } else {
        InsertMatch(k, ks[1..], e, es[1..]);
        MatchCons(ks[0], InsertBy(KeyedLeq, k, ks[1..]), es[0], InsertBy(EntryLeq, e, es[1..]));
      }
    }
  }

  /** Sorting what stands for the entries is sorting the entries. */
  lemma {:induction false} SortMatch(ks: seq<Keyed>, es: seq<Entry>)
    requires Match(ks, es)
    ensures Match(SortKeyed(ks), Sort(es))
  {
    if ks != [] {
      SortMatch(ks[1..], es[1..]);
      InsertMatch(ks[0], SortKeyed(ks[1..]), es[0], Sort(es[1..]));
    }
  }

  lemma {:induction false} EncItemsAppend(items: seq<Value>, x: Value)
    ensures EncItems(items + [x]) == EncItems(items) + Enc(x)
  {
    if items == [] {
      assert EncItems([x]) == Enc(x) + EncItems([]);
    } else {
      assert (items + [x])[1..] == items[1..] + [x];
      EncItemsAppend(items[1..], x);
    }
  }

  lemma {:induction false} EncEntriesAppend(es: seq<Entry>, e: Entry)
    ensures EncEntries(es + [e]) == EncEntries(es) + EncEntry(e)
  {
    if es == [] {
      assert EncEntries([e]) == EncEntry(e) + EncEntries([]);
    } else {
      assert (es + [e])[1..] == es[1..] + [e];
      EncEntriesAppend(es[1..], e);
    }
  }

  lemma EncItemsNext(items: seq<Value>, i: nat, next: nat)
    requires i < |items| && next == i + 1
    ensures EncItems(items[..next]) == EncItems(items[..i]) + Enc(items[i])
  {
    assert items[..next] == items[..i] + [items[i]];
    EncItemsAppend(items[..i], items[i]);
  }

  lemma EncEntriesNext(es: seq<Entry>, i: nat, next: nat)
    requires i < |es| && next == i + 1
    ensures EncEntries(es[..next]) == EncEntries(es[..i]) + EncEntry(es[i])
  {
    assert es[..next] == es[..i] + [es[i]];
    EncEntriesAppend(es[..i], es[i]);
  }

  // ----- when a value is refused -----

  /** The value is not refused at this depth. */
  predicate Encodes(v: Value, depth: nat) {
    Fits(v, depth) && NoDuplicates(v)
  }

  predicate EncodesEntry(e: Entry, depth: nat) {
    Encodes(e.key, depth) && Encodes(e.val, depth)
  }

  /** The first `n` items encode. */
  predicate ItemsEncode(items: seq<Value>, n: nat, depth: nat)
    requires n <= |items|
  {
    forall i :: 0 <= i < n ==> Encodes(items[i], depth)
  }

  lemma ItemsEncodeNext(items: seq<Value>, n: nat, next: nat, depth: nat)
    requires n < |items| && next == n + 1
    ensures ItemsEncode(items, next, depth) <==> ItemsEncode(items, n, depth) && Encodes(items[n], depth)
  {
  }

  lemma ArrayEncodes(items: seq<Value>, depth: nat, next: nat)
    requires depth <= MAX_DEPTH && next == depth + 1
    ensures Encodes(Array(items), depth) <==> forall i :: 0 <= i < |items| ==> Encodes(items[i], next)
  {
    if forall i :: 0 <= i < |items| ==> Encodes(items[i], next) {
      forall x | x in items
        ensures Fits(x, next) && NoDuplicates(x)
      {
        var i :| 0 <= i < |items| && items[i] == x;
      }
    } else {
      var i :| 0 <= i < |items| && !Encodes(items[i], next);
      assert items[i] in items;
    }
  }

  lemma EntriesEncode(entries: seq<Entry>, next: nat)
    ensures (forall i :: 0 <= i < |entries| ==> EncodesEntry(entries[i], next))
      <==> (forall e :: e in entries ==> FitsEntry(e, next)) && (forall e :: e in entries ==> NoDuplicatesEntry(e))
  {
    if forall i :: 0 <= i < |entries| ==> EncodesEntry(entries[i], next) {
      forall e | e in entries
        ensures FitsEntry(e, next) && NoDuplicatesEntry(e)
      {
        var i :| 0 <= i < |entries| && entries[i] == e;
        assert EncodesEntry(entries[i], next);
      }
    } else {
      var i :| 0 <= i < |entries| && !EncodesEntry(entries[i], next);
      assert entries[i] in entries;
    }
  }

  ghost function Vals(entries: seq<Entry>): set<Value> {
    set e | e in entries :: e.val
  }

  ghost function KeyedVals(ks: seq<Keyed>): set<Value> {
    set k | k in ks :: k.val
  }

  lemma EntryVals(entries: seq<Entry>, depth: nat)
    ensures (forall i :: 0 <= i < |entries| ==> Encodes(entries[i].val, depth)) <==> ValsEncode(entries, depth)
  {
    forall i | 0 <= i < |entries|
      ensures entries[i].val in Vals(entries)
    {
      assert entries[i] in entries;
    }
  }

  predicate KeysEncode(entries: seq<Entry>, depth: nat) {
    && DistinctKeys(CanonEntries(entries))
    && forall i :: 0 <= i < |entries| ==> Encodes(entries[i].key, depth)
  }

  ghost predicate ValsEncode(entries: seq<Entry>, depth: nat) {
    forall x :: x in Vals(entries) ==> Encodes(x, depth)
  }

  lemma MapEncodes(entries: seq<Entry>, depth: nat, next: nat)
    requires depth <= MAX_DEPTH && next == depth + 1
    ensures Encodes(Map(entries), depth) <==> KeysEncode(entries, next) && ValsEncode(entries, next)
  {
    EntriesEncode(entries, next);
    EntryVals(entries, next);
  }

  lemma KeyedValsEncode(ks: seq<Keyed>, depth: nat)
    ensures (forall i :: 0 <= i < |ks| ==> Encodes(ks[i].val, depth))
      <==> forall x :: x in KeyedVals(ks) ==> Encodes(x, depth)
  {
    forall i | 0 <= i < |ks|
      ensures ks[i].val in KeyedVals(ks)
    {
      assert ks[i] in ks;
    }
  }

  /** The keyed entries `ks`, in order, are `entries` with their keys encoded. */
  ghost predicate KeyedFrom(ks: seq<Keyed>, entries: seq<Entry>) {
    |ks| == |entries|
    && forall i :: 0 <= i < |ks| ==> ks[i] == Keyed(Enc(Canon(entries[i].key)), entries[i].val)
  }

  lemma KeyedFromVals(ks: seq<Keyed>, entries: seq<Entry>)
    requires KeyedFrom(ks, entries)
    ensures KeyedVals(ks) == Vals(entries)
  {
    forall i | 0 <= i < |ks|
      ensures ks[i].val in Vals(entries) && entries[i].val in KeyedVals(ks)
    {
      assert ks[i] in ks && entries[i] in entries;
    }
  }

  lemma KeyedMatch(ks: seq<Keyed>, entries: seq<Entry>)
    requires KeyedFrom(ks, entries)
    ensures Match(ks, CanonEntries(entries))
  {
    forall i | 0 <= i < |ks|
      ensures Stands(ks[i], CanonEntries(entries)[i])
    {
    }
  }

  /** Facts about the sorted list that the map arm writes out. */
  lemma SortedKeyed(ks: seq<Keyed>, entries: seq<Entry>, sorted: seq<Keyed>)
    requires KeyedFrom(ks, entries) && sorted == SortKeyed(ks)
    ensures Match(sorted, Sort(CanonEntries(entries)))
    ensures KeyedVals(sorted) == Vals(entries)
  {
    KeyedMatch(ks, entries);
    SortMatch(ks, CanonEntries(entries));
    SortMembers(KeyedLeq, ks);
    KeyedFromVals(ks, entries);
  }

  predicate AdjacentDuplicate(ks: seq<Keyed>) {
    exists i :: 0 < i < |ks| && ks[i - 1].kb == ks[i].kb
  }

  lemma AdjacentIsDuplicate(ks: seq<Keyed>, es: seq<Entry>)
    requires Match(ks, Sort(es))
    ensures AdjacentDuplicate(ks) <==> !DistinctKeys(es)
  {
    NeighboursAfterSort(es);
    var s := Sort(es);
    forall i | 0 <= i < |s|
      ensures ks[i].kb == Enc(s[i].key)
    {
      assert Stands(ks[i], s[i]);
    }
  }

  lemma EncOfMap(v: Value, sorted: seq<Entry>)
    requires v.Map? && sorted == Sort(CanonEntries(v.entries))
    ensures Enc(Canon(v)) == Head(5, |v.entries|) + EncEntries(sorted)
  {
    SortEntries(CanonEntries(v.entries));
  }

  class Encoder {
    var out: seq<byte>

    constructor ()
      ensures out == []
    {
      out := [];
    }

    /** `put_head`: one arm per width, big-endian. */
    method PutHead(major: nat, arg: u64)
      requires major < 8
      modifies this
      ensures out == old(out) + Head(major, arg)
    {
      var m := major * 32;
      if arg <= 23 {
        out := out + [m + arg];
      } else if arg <= 0xff {
        out := out + [m + 24];
        out := out + BE(arg, 1);
      } else if arg <= 0xffff {
        out := out + [m + 25];
        out := out + BE(arg, 2);
      } else if arg <= 0xffff_ffff {
        out := out + [m + 26];
        out := out + BE(arg, 4);
      } else {
        out := out + [m + 27];
        out := out + BE(arg, 8);
      }
    }

    /** `encode_into`. What it leaves in `out` after a refusal is never used. */
    method EncodeInto(v: Value, depth: nat) returns (ok: bool)
      requires WellFormed(v)
      modifies this
      ensures ok <==> Encodes(v, depth)
      ensures ok ==> out == old(out) + Enc(Canon(v))
      decreases v, 3
    {
      if depth > MAX_DEPTH {
        return false;
      }
      ok := true;
      match v {
        case Uint(n) => PutHead(0, n);
        case Nint(n) => PutHead(1, n);
        case Bytes(b) =>
          PutHead(2, |b|);
          out := out + b;
        case Text(t) =>
          PutHead(3, |t|);
          out := out + t;
        case Array(items) =>
          ok := PutArray(v, depth);
        case Map(entries) =>
          ok := PutMap(v, depth);
        case Bool(b) =>
          if b {
            out := out + [0xf5];
          } else {
            out := out + [0xf4];
          }
        case Null => out := out + [0xf6];
      }
    }

    /** The array arm of `encode_into`. */
    method PutArray(v: Value, depth: nat) returns (ok: bool)
      requires v.Array? && WellFormed(v) && depth <= MAX_DEPTH
      modifies this
      ensures ok <==> Encodes(v, depth)
      ensures ok ==> out == old(out) + Enc(Canon(v))
      decreases v, 2, 1
    {
      PutHead(4, |v.items|);
      var next := depth + 1;
      ok := PutItems(v, next);
      ArrayEncodes(v.items, depth, next);
    }

    /** Its loop. */
    method PutItems(v: Value, depth: nat) returns (ok: bool)
      requires v.Array? && WellFormed(v)
      modifies this
      ensures ok <==> ItemsEncode(v.items, |v.items|, depth)
      ensures ok ==> out == old(out) + EncItems(CanonItems(v.items))
      decreases v, 1
    {
      ghost var (base, canon) := (out, CanonItems(v.items));
      ghost var done: seq<byte> := [];
      var i := 0;
      while i < |v.items|
        invariant i <= |v.items| && ItemsEncode(v.items, i, depth)
        invariant done == EncItems(canon[..i]) && out == base + done
      {
        ghost var next := i + 1;
        var put := PutItem(v, v.items[i], depth);
        if !put {
          return false;
        }
        ItemsEncodeNext(v.items, i, next, depth);
        Associate(base, done, Enc(canon[i]));
        EncItemsNext(canon, i, next);
        done := done + Enc(canon[i]);
        i := i + 1;
      }
      assert canon[..i] == canon;
      return true;
    }

    method PutItem(ghost v: Value, x: Value, depth: nat) returns (ok: bool)
      requires v.Array? && x in v.items && WellFormed(v)
      modifies this
      ensures ok <==> Encodes(x, depth)
      ensures ok ==> out == old(out) + Enc(Canon(x))
      decreases v, 0
    {
      ok := EncodeInto(x, depth);
    }

    /** The map arm: encode the keys, sort, refuse duplicates, write. */
    method PutMap(v: Value, depth: nat) returns (ok: bool)
      requires v.Map? && WellFormed(v) && depth <= MAX_DEPTH
      modifies this
      ensures ok <==> Encodes(v, depth)
      ensures ok ==> out == old(out) + Enc(Canon(v))
      decreases v, 2, 1
    {
      var next := depth + 1;
      MapEncodes(v.entries, depth, next);
      var encoded := SortedKeys(v, next);
      if encoded.Err? {
        return false;
      }
      ok := PutSorted(v, encoded.value, next);
    }

    /** The head and the entries. */
    method PutSorted(v: Value, encoded: seq<Keyed>, depth: nat) returns (ok: bool)
      requires v.Map? && WellFormed(v)
      requires Match(encoded, Sort(CanonEntries(v.entries))) && KeyedVals(encoded) == Vals(v.entries)
      modifies this
      ensures ok <==> ValsEncode(v.entries, depth)
      ensures ok ==> out == old(out) + Enc(Canon(v))
      decreases v, 2, 0
    {
      ghost var sorted := Sort(CanonEntries(v.entries));
      EncOfMap(v, sorted);
      KeyedValsEncode(encoded, depth);
      PutHead(5, |v.entries|);
      ok := PutEntries(v, encoded, sorted, depth);
      Associate(old(out), Head(5, |v.entries|), EncEntries(sorted));
    }

    /** Its keys, encoded and sorted, unless two are equal. */
    method SortedKeys(v: Value, depth: nat) returns (r: Result<seq<Keyed>>)
      requires v.Map? && WellFormed(v)
      ensures r.Ok? <==> KeysEncode(v.entries, depth)
      ensures r.Ok? ==> Match(r.value, Sort(CanonEntries(v.entries))) && KeyedVals(r.value) == Vals(v.entries)
      decreases v, 2, 0
    {
      var keys := EncodeKeys(v, depth);
      if keys.Err? {
        return Err;
      }
      var encoded := SortKeyed(keys.value);
      SortedKeyed(keys.value, v.entries, encoded);
      AdjacentIsDuplicate(encoded, CanonEntries(v.entries));
      if AdjacentDuplicate(encoded) {
        return Err;
      }
      return Ok(encoded);
    }

    /** The first loop of the map arm: each key into a buffer of its own. */
    method EncodeKeys(v: Value, depth: nat) returns (r: Result<seq<Keyed>>)
      requires v.Map? && WellFormed(v)
      ensures r.Ok? <==> forall i :: 0 <= i < |v.entries| ==> Encodes(v.entries[i].key, depth)
      ensures r.Ok? ==> KeyedFrom(r.value, v.entries)
      decreases v, 1
    {
      var encoded: seq<Keyed> := [];
      var entries := v.entries;
      for i := 0 to |entries|
        invariant |encoded| == i
        invariant forall j :: 0 <= j < i ==> Encodes(entries[j].key, depth)
        invariant forall j :: 0 <= j < i ==> encoded[j] == Keyed(Enc(Canon(entries[j].key)), entries[j].val)
      {
        var e := entries[i];
        assert e in entries;
        var kb := new Encoder();
        var put := kb.EncodeInto(e.key, depth);
        if !put {
          return Err;
        }
        assert kb.out == Enc(Canon(e.key));
        encoded := encoded + [Keyed(kb.out, e.val)];
      }
      return Ok(encoded);
    }

    /** The last loop of the map arm. */
    method PutEntries(v: Value, encoded: seq<Keyed>, ghost sorted: seq<Entry>, depth: nat) returns (ok: bool)
      requires v.Map? && WellFormed(v) && Match(encoded, sorted)
      requires KeyedVals(encoded) <= Vals(v.entries)
      modifies this
      ensures ok <==> forall i :: 0 <= i < |encoded| ==> Encodes(encoded[i].val, depth)
      ensures ok ==> out == old(out) + EncEntries(sorted)
      decreases v, 1
    {
      ghost var base := out;
      ghost var done: seq<byte> := [];
      var i := 0;
      while i < |encoded|
        invariant i <= |encoded|
        invariant forall j :: 0 <= j < i ==> Encodes(encoded[j].val, depth)
        invariant done == EncEntries(sorted[..i]) && out == base + done
      {
        Inside(v, encoded, i);
        assert Stands(encoded[i], sorted[i]);
        var put := PutEntry(v, encoded[i], sorted[i], depth);
        if !put {
          return false;
        }
        Associate(base, done, EncEntry(sorted[i]));
        done := done + EncEntry(sorted[i]);
        EncEntriesNext(sorted, i, i + 1);
        i := i + 1;
      }
      assert sorted[..i] == sorted;
      return true;
    }

    method PutEntry(ghost v: Value, k: Keyed, ghost e: Entry, depth: nat) returns (ok: bool)
      requires Stands(k, e) && WellFormed(k.val) && (v decreases to k.val)
      modifies this
      ensures ok <==> Encodes(k.val, depth)
      ensures ok ==> out == old(out) + EncEntry(e)
      decreases v, 0
    {
      out := out + k.kb;
      ok := EncodeInto(k.val, depth);
    }
  }

  lemma Inside(v: Value, encoded: seq<Keyed>, i: nat)
    requires v.Map? && WellFormed(v) && i < |encoded|
    requires KeyedVals(encoded) <= Vals(v.entries)
    ensures WellFormed(encoded[i].val)
    ensures v decreases to encoded[i].val
  {
    assert encoded[i] in encoded && encoded[i].val in Vals(v.entries);
    var e :| e in v.entries && e.val == encoded[i].val;
    assert WellFormedEntry(e);
  }

  /** `Value::encode`. */
  method EncodeValue(v: Value) returns (r: Result<seq<byte>>)
    requires WellFormed(v)
    ensures r == Encode(v)
    ensures forall b :: r == Ok(b) <==> Nesting(v) <= 16 && Orders(v, b)
  {
    EncodeMeans(v);
    var e := new Encoder();
    var ok := e.EncodeInto(v, 0);
    if !ok {
      return Err;
    }
    assert e.out == Enc(Canon(v));
    return Ok(e.out);
  }
}
