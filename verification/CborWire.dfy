/**
 What the bytes of a value are, read off RFC 8949: heads of a major type and a shortest
 argument, content after them, map keys in bytewise order. Decoding gives the one value whose
 bytes these are; encoding gives the bytes of the value's canonical order.
 */
module CborWire {
  import opened Bytes
  import opened Cbor
  import opened CborBijection
  import opened CborOrder
  import opened Sorting
  import opened Utf8Text

  // ----- the definitions -----

  /** A head: three bits of major type, then the argument in the fewest of 0, 1, 2, 4 and 8 bytes, big-endian. */
  ghost predicate HeadBytes(h: seq<byte>, major: nat, n: nat) {
    || (n < 24 && |h| == 1 && h[0] == 32 * major + n)
    || (24 <= n < 0x100 && |h| == 2 && h[0] == 32 * major + 24 && h[1] == n)
    || (0x100 <= n < 0x1_0000 && |h| == 3 && h[0] == 32 * major + 25 && 0x100 * h[1] as int + h[2] as int == n)
    || (0x1_0000 <= n < 0x1_0000_0000 && |h| == 5 && h[0] == 32 * major + 26
        && 0x100_0000 * h[1] as int + 0x1_0000 * h[2] as int + 0x100 * h[3] as int + h[4] as int == n)
    || (0x1_0000_0000 <= n && |h| == 9 && h[0] == 32 * major + 27
        && 0x100_0000_0000_0000 * h[1] as int + 0x1_0000_0000_0000 * h[2] as int + 0x100_0000_0000 * h[3] as int
           + 0x1_0000_0000 * h[4] as int + 0x100_0000 * h[5] as int + 0x1_0000 * h[6] as int + 0x100 * h[7] as int + h[8] as int == n)
  }

  /** Bytewise order: the first difference decides, and a prefix comes first. */
  ghost predicate Precedes(a: seq<byte>, b: seq<byte>) {
    exists i :: 0 <= i <= |a| && i < |b| && a[..i] == b[..i] && (i == |a| || a[i] < b[i])
  }

  ghost predicate Headed(b: seq<byte>, major: nat, n: nat, content: seq<byte>, h: seq<byte>) {
    HeadBytes(h, major, n) && b == h + content
  }

  /** Keys and values side by side. */
  function Side(keys: seq<seq<byte>>, vals: seq<seq<byte>>): (parts: seq<seq<byte>>)
    requires |keys| == |vals|
    ensures |parts| == |keys| && forall i :: 0 <= i < |keys| ==> parts[i] == keys[i] + vals[i]
  {
    seq(|keys|, i requires 0 <= i < |keys| => keys[i] + vals[i])
  }

  /** `b` is the bytes of `v`. */
  ghost predicate Means(b: seq<byte>, v: Value)
    decreases v, 0
  {
    match v
    case Uint(n) => HeadBytes(b, 0, n)
    case Nint(n) => HeadBytes(b, 1, n)
    case Bytes(c) => exists h :: Headed(b, 2, |c|, c, h)
    case Text(t) => IsText(t) && exists h :: Headed(b, 3, |t|, t, h)
    case Array(items) => exists h, parts :: Headed(b, 4, |items|, Concat(parts), h) && ItemsMean(parts, items)
    case Map(entries) => exists h, keys, vals ::
      |keys| == |vals| && Headed(b, 5, |entries|, Concat(Side(keys, vals)), h) && EntriesMean(keys, vals, entries)
    case Bool(false) => b == [0xf4]
    case Bool(true) => b == [0xf5]
    case Null => b == [0xf6]
  }

  ghost predicate ItemsMean(parts: seq<seq<byte>>, items: seq<Value>)
    decreases items, 1
  {
    |parts| == |items| && forall i :: 0 <= i < |items| ==> Means(parts[i], items[i])
  }

  ghost predicate EntryMeans(key: seq<byte>, val: seq<byte>, e: Entry)
    decreases e, 1
  {
    Means(key, e.key) && Means(val, e.val)
  }

  ghost predicate EntriesMean(keys: seq<seq<byte>>, vals: seq<seq<byte>>, entries: seq<Entry>)
    decreases entries, 2
  {
    && |keys| == |vals| == |entries| && (forall i :: 0 <= i < |entries| ==> EntryMeans(keys[i], vals[i], entries[i]))
    && forall i, j :: 0 <= i < j < |keys| ==> Precedes(keys[i], keys[j])
  }

  /** How deep arrays and maps are nested: the number around the innermost value. */
  function Nesting(v: Value): nat
    decreases v, 0
  {
    match v
    case Array(items) => NestingOfItems(items)
    case Map(entries) => NestingOfEntries(entries)
    case _ => 0
  }

  function NestingOfItems(items: seq<Value>): nat
    decreases items, 1
  {
    if items == [] then 0
    else
      var (a, b) := (1 + Nesting(items[0]), NestingOfItems(items[1..]));
      if a > b then a else b
  }

  function NestingOfEntry(e: Entry): nat
    decreases e, 1
  {
    if Nesting(e.key) > Nesting(e.val) then Nesting(e.key) else Nesting(e.val)
  }

  function NestingOfEntries(entries: seq<Entry>): nat
    decreases entries, 2
  {
    if entries == [] then 0
    else
      var (a, b) := (1 + NestingOfEntry(entries[0]), NestingOfEntries(entries[1..]));
      if a > b then a else b
  }

  // ----- heads and order -----

  lemma LongHead(h: seq<byte>, m: byte, n: nat, w: nat)
    requires n < Pow256(w)
    ensures h == [m] + BE(n, w) <==> |h| == 1 + w && h[0] == m && FromBE(h[1..]) == n
  {
    FromBEOfBE(n, w);
    if |h| == 1 + w {
      BEOfFromBE(h[1..]);
      assert h == [h[0]] + h[1..];
    }
    assert ([m] + BE(n, w))[1..] == BE(n, w);
  }

  lemma HeadIff(h: seq<byte>, major: nat, n: nat)
    requires major < 8
    ensures HeadBytes(h, major, n) <==> n < U64_RANGE && h == Head(major, n)
  {
    var m := 32 * major;
    Widths();
    if |h| > 1 {
      BigEndian(h[1..]);
    }
    if n < 24 {
    } else if n < 0x100 {
      LongHead(h, m + 24, n, 1);
    } else if n < 0x1_0000 {
      LongHead(h, m + 25, n, 2);
    } else if n < 0x1_0000_0000 {
      LongHead(h, m + 26, n, 4);
    } else if n < U64_RANGE {
      LongHead(h, m + 27, n, 8);
    }
  }

  lemma {:induction false} LessIff(a: seq<byte>, b: seq<byte>)
    ensures Less(a, b) <==> Precedes(a, b)
  {
    if a != [] && b != [] && a[0] == b[0] {
      LessIff(a[1..], b[1..]);
      if Precedes(a[1..], b[1..]) {
        var i :| 0 <= i <= |a[1..]| && i < |b[1..]| && a[1..][..i] == b[1..][..i] && (i == |a[1..]| || a[1..][i] < b[1..][i]);
        FirstMore(a, i, i + 1);
        FirstMore(b, i, i + 1);
      }
      if Precedes(a, b) {
        var i :| 0 <= i <= |a| && i < |b| && a[..i] == b[..i] && (i == |a| || a[i] < b[i]);
        assert i > 0;
        FirstMore(a, i - 1, i);
        FirstMore(b, i - 1, i);
      }
    } else if Less(a, b) {
      assert a[..0] == b[..0];
    } else if Precedes(a, b) {
      FirstBytes(a, b);
    }
  }

  lemma FirstMore(a: seq<byte>, i: nat, next: nat)
    requires next == i + 1 <= |a|
    ensures a[..next] == [a[0]] + a[1..][..i] && a[1..][..i] == a[..next][1..]
  {
  }

  lemma FirstBytes(a: seq<byte>, b: seq<byte>)
    requires Precedes(a, b)
    ensures b != [] && (a == [] || a[0] <= b[0])
  {
    var i :| 0 <= i <= |a| && i < |b| && a[..i] == b[..i] && (i == |a| || a[i] < b[i]);
    if i > 0 {
      assert a[0] == a[..i][0] == b[..i][0];
    }
  }

  // ----- the bytes of a value are its encoding -----

  /** Admissible but for its depth, and encoded as `b`. */
  ghost predicate EncodedAs(v: Value, b: seq<byte>) {
    WellFormed(v) && Canonical(v) && Enc(v) == b
  }

  ghost predicate EntryEncodedAs(e: Entry, key: seq<byte>, val: seq<byte>) {
    EncodedAs(e.key, key) && EncodedAs(e.val, val)
  }

  lemma HeadedIff(b: seq<byte>, major: nat, n: nat, content: seq<byte>)
    requires major < 8
    ensures (exists h :: Headed(b, major, n, content, h)) <==> n < U64_RANGE && b == Head(major, n) + content
  {
    HeadIff(Head(major, n), major, n);
    if n < U64_RANGE && b == Head(major, n) + content {
      assert Headed(b, major, n, content, Head(major, n));
    }
    if h :| Headed(b, major, n, content, h) {
      HeadIff(h, major, n);
    }
  }

  lemma {:induction false} ItemsConcat(parts: seq<seq<byte>>, items: seq<Value>)
    requires |parts| == |items| && forall i :: 0 <= i < |items| ==> parts[i] == Enc(items[i])
    ensures Concat(parts) == EncItems(items)
  {
    if items != [] {
      ItemsConcat(parts[1..], items[1..]);
      ConcatFirst(parts);
    }
  }

  lemma {:induction false} EntriesConcat(parts: seq<seq<byte>>, entries: seq<Entry>)
    requires |parts| == |entries| && forall i :: 0 <= i < |entries| ==> parts[i] == EncEntry(entries[i])
    ensures Concat(parts) == EncEntries(entries)
  {
    if entries != [] {
      EntriesConcat(parts[1..], entries[1..]);
      ConcatFirst(parts);
    }
  }

  function EncEach(items: seq<Value>): (parts: seq<seq<byte>>)
    ensures |parts| == |items| && forall i :: 0 <= i < |items| ==> parts[i] == Enc(items[i])
  {
    seq(|items|, i requires 0 <= i < |items| => Enc(items[i]))
  }

  function KeysOf(entries: seq<Entry>): (vs: seq<Value>)
    ensures |vs| == |entries| && forall i :: 0 <= i < |entries| ==> vs[i] == entries[i].key
  {
    seq(|entries|, i requires 0 <= i < |entries| => entries[i].key)
  }

  function ValsOf(entries: seq<Entry>): (vs: seq<Value>)
    ensures |vs| == |entries| && forall i :: 0 <= i < |entries| ==> vs[i] == entries[i].val
  {
    seq(|entries|, i requires 0 <= i < |entries| => entries[i].val)
  }

  /** Parts that spell the items one by one. */
  ghost predicate ItemsEncodedAs(parts: seq<seq<byte>>, items: seq<Value>) {
    |parts| == |items| && forall i :: 0 <= i < |items| ==> EncodedAs(items[i], parts[i])
  }

  lemma ArrayIff(b: seq<byte>, items: seq<Value>)
    requires forall parts :: ItemsMean(parts, items) <==> ItemsEncodedAs(parts, items)
    ensures Means(b, Array(items)) <==> EncodedAs(Array(items), b)
  {
    var v := Array(items);
    if Means(b, v) {
      var h, parts :| Headed(b, 4, |items|, Concat(parts), h) && ItemsMean(parts, items);
      assert ItemsEncodedAs(parts, items);
      ItemsConcat(parts, items);
      HeadedIff(b, 4, |items|, Concat(parts));
    }
    if EncodedAs(v, b) {
      var parts := EncEach(items);
      assert ItemsEncodedAs(parts, items) by {
        assert forall i :: 0 <= i < |items| ==> items[i] in items;
      }
      ItemsConcat(parts, items);
      HeadedIff(b, 4, |items|, Concat(parts));
      var h :| Headed(b, 4, |items|, Concat(parts), h);
      assert ItemsMean(parts, items);
    }
  }

  /** Keys and values that spell the entries one by one, the keys in order. */
  ghost predicate EntriesEncodedAs(keys: seq<seq<byte>>, vals: seq<seq<byte>>, entries: seq<Entry>) {
    && |keys| == |vals| == |entries| && (forall i :: 0 <= i < |entries| ==> EntryEncodedAs(entries[i], keys[i], vals[i]))
    && forall i, j :: 0 <= i < j < |keys| ==> Less(keys[i], keys[j])
  }

  lemma {:induction false} PairsIncreasing(prev: seq<byte>, entries: seq<Entry>)
    requires entries != [] ==> Less(prev, Enc(entries[0].key))
    requires forall i, j :: 0 <= i < j < |entries| ==> Less(Enc(entries[i].key), Enc(entries[j].key))
    ensures Increasing(prev, entries)
    decreases |entries|
  {
    if entries != [] {
      var rest := entries[1..];
      assert rest != [] ==> rest[0] == entries[1];
      PairsIncreasing(Enc(entries[0].key), rest);
    }
  }

  lemma SpelledKeysIncrease(keys: seq<seq<byte>>, vals: seq<seq<byte>>, entries: seq<Entry>)
    requires EntriesEncodedAs(keys, vals, entries)
    ensures Increasing([], entries) && forall e :: e in entries ==> WellFormedEntry(e) && CanonicalEntry(e)
    ensures Concat(Side(keys, vals)) == EncEntries(entries)
  {
    forall i, j | 0 <= i < j < |entries|
      ensures Less(Enc(entries[i].key), Enc(entries[j].key))
    {
      assert EntryEncodedAs(entries[i], keys[i], vals[i]) && EntryEncodedAs(entries[j], keys[j], vals[j]);
      assert Less(keys[i], keys[j]);
    }
    PairsIncreasing([], entries);
    forall i | 0 <= i < |entries|
      ensures Side(keys, vals)[i] == EncEntry(entries[i])
    {
      assert EntryEncodedAs(entries[i], keys[i], vals[i]);
    }
    EntriesConcat(Side(keys, vals), entries);
  }

  lemma CanonicalSpelled(entries: seq<Entry>)
    requires WellFormed(Map(entries)) && Canonical(Map(entries))
    ensures EntriesEncodedAs(EncEach(KeysOf(entries)), EncEach(ValsOf(entries)), entries)
  {
    var (keys, vals) := (EncEach(KeysOf(entries)), EncEach(ValsOf(entries)));
    forall i | 0 <= i < |entries|
      ensures EntryEncodedAs(entries[i], keys[i], vals[i])
    {
      assert entries[i] in entries && WellFormedEntry(entries[i]) && CanonicalEntry(entries[i]);
    }
    forall i, j | 0 <= i < j < |keys|
      ensures Less(keys[i], keys[j])
    {
      IncreasingPairs([], entries, i, j);
    }
  }

  lemma MapIff(b: seq<byte>, entries: seq<Entry>)
    requires forall keys, vals :: EntriesMean(keys, vals, entries) <==> EntriesEncodedAs(keys, vals, entries)
    ensures Means(b, Map(entries)) <==> EncodedAs(Map(entries), b)
  {
    if Means(b, Map(entries)) {
      var h, keys, vals :|
        |keys| == |vals| && Headed(b, 5, |entries|, Concat(Side(keys, vals)), h) && EntriesMean(keys, vals, entries);
      assert EntriesEncodedAs(keys, vals, entries);
      SpelledMap(b, entries, keys, vals, h);
    }
    if EncodedAs(Map(entries), b) {
      var h, keys, vals := MapParts(b, entries);
      assert EntriesMean(keys, vals, entries);
    }
  }

  lemma SpelledMap(b: seq<byte>, entries: seq<Entry>, keys: seq<seq<byte>>, vals: seq<seq<byte>>, h: seq<byte>)
    requires EntriesEncodedAs(keys, vals, entries) && Headed(b, 5, |entries|, Concat(Side(keys, vals)), h)
    ensures EncodedAs(Map(entries), b)
  {
    SpelledKeysIncrease(keys, vals, entries);
    HeadedIff(b, 5, |entries|, Concat(Side(keys, vals)));
  }

  lemma MapParts(b: seq<byte>, entries: seq<Entry>) returns (h: seq<byte>, keys: seq<seq<byte>>, vals: seq<seq<byte>>)
    requires EncodedAs(Map(entries), b)
    ensures EntriesEncodedAs(keys, vals, entries) && Headed(b, 5, |entries|, Concat(Side(keys, vals)), h)
  {
    keys, vals := EncEach(KeysOf(entries)), EncEach(ValsOf(entries));
    CanonicalSpelled(entries);
    SpelledKeysIncrease(keys, vals, entries);
    HeadedIff(b, 5, |entries|, Concat(Side(keys, vals)));
    h :| Headed(b, 5, |entries|, Concat(Side(keys, vals)), h);
  }

  lemma ScalarIff(b: seq<byte>, v: Value)
    requires !v.Array? && !v.Map?
    ensures Means(b, v) <==> EncodedAs(v, b)
  {
    match v
    case Uint(n) => HeadIff(b, 0, n);
    case Nint(n) => HeadIff(b, 1, n);
    case Bytes(c) => HeadedIff(b, 2, |c|, c);
    case Text(t) =>
      HeadedIff(b, 3, |t|, t);
      Utf8Iff(t);
    case Bool(_) =>
    case Null =>
  }

  /** The bytes of a value are its encoding, and only canonical values have bytes. */
  lemma {:induction false} MeansIff(v: Value)
    ensures forall b :: Means(b, v) <==> EncodedAs(v, b)
    decreases v, 0
  {
    match v
    case Array(items) =>
      forall i | 0 <= i < |items|
        ensures forall b :: Means(b, items[i]) <==> EncodedAs(items[i], b)
      {
        MeansIff(items[i]);
      }
      ItemsMeanIff(items);
      forall b
        ensures Means(b, v) <==> EncodedAs(v, b)
      {
        ArrayIff(b, items);
      }
    case Map(entries) =>
      forall i | 0 <= i < |entries|
        ensures forall key, val :: EntryMeans(key, val, entries[i]) <==> EntryEncodedAs(entries[i], key, val)
      {
        EntryMeansIff(entries[i]);
      }
      EntriesMeanIff(entries);
      forall b
        ensures Means(b, v) <==> EncodedAs(v, b)
      {
        MapIff(b, entries);
      }
    case _ =>
      forall b
        ensures Means(b, v) <==> EncodedAs(v, b)
      {
        ScalarIff(b, v);
      }
  }

  lemma {:induction false} EntryMeansIff(e: Entry)
    ensures forall key, val :: EntryMeans(key, val, e) <==> EntryEncodedAs(e, key, val)
    decreases e, 1
  {
    MeansIff(e.key);
    MeansIff(e.val);
  }

  lemma ItemsMeanIff(items: seq<Value>)
    requires forall i :: 0 <= i < |items| ==> forall b :: Means(b, items[i]) <==> EncodedAs(items[i], b)
    ensures forall parts :: ItemsMean(parts, items) <==> ItemsEncodedAs(parts, items)
  {
  }

  lemma EntriesMeanIff(entries: seq<Entry>)
    requires forall i :: 0 <= i < |entries| ==>
      forall key, val :: EntryMeans(key, val, entries[i]) <==> EntryEncodedAs(entries[i], key, val)
    ensures forall keys, vals :: EntriesMean(keys, vals, entries) <==> EntriesEncodedAs(keys, vals, entries)
  {
    forall keys, vals
      ensures EntriesMean(keys, vals, entries) <==> EntriesEncodedAs(keys, vals, entries)
    {
      KeysInOrder(keys);
    }
  }

  lemma KeysInOrder(keys: seq<seq<byte>>)
    ensures (forall i, j :: 0 <= i < j < |keys| ==> Precedes(keys[i], keys[j]))
      <==> (forall i, j :: 0 <= i < j < |keys| ==> Less(keys[i], keys[j]))
  {
    forall i, j | 0 <= i < j < |keys|
      ensures Precedes(keys[i], keys[j]) <==> Less(keys[i], keys[j])
    {
      LessIff(keys[i], keys[j]);
    }
  }

  // ----- depth -----

  /** The cap admits up to sixteen containers around a value. */
  lemma {:induction false} FitsIff(v: Value, depth: nat)
    ensures Fits(v, depth) <==> depth + Nesting(v) <= 16
    decreases v, 0
  {
    var next := depth + 1;
    match v
    case Array(items) => ItemsFit(items, depth, next);
    case Map(entries) => EntriesFit(entries, depth, next);
    case _ =>
  }

  lemma {:induction false} ItemsFit(items: seq<Value>, depth: nat, next: nat)
    requires next == depth + 1
    ensures depth <= 16 && (forall x :: x in items ==> Fits(x, next)) <==> depth + NestingOfItems(items) <= 16
    decreases items, 1
  {
    if items != [] {
      FitsIff(items[0], next);
      ItemsFit(items[1..], depth, next);
      assert items == [items[0]] + items[1..];
    }
  }

  lemma {:induction false} EntryFits(e: Entry, depth: nat)
    ensures FitsEntry(e, depth) <==> depth + NestingOfEntry(e) <= 16
    decreases e, 1
  {
    FitsIff(e.key, depth);
    FitsIff(e.val, depth);
  }

  lemma {:induction false} EntriesFit(entries: seq<Entry>, depth: nat, next: nat)
    requires next == depth + 1
    ensures depth <= 16 && (forall e :: e in entries ==> FitsEntry(e, next)) <==> depth + NestingOfEntries(entries) <= 16
    decreases entries, 2
  {
    if entries != [] {
      EntryFits(entries[0], next);
      EntriesFit(entries[1..], depth, next);
      assert entries == [entries[0]] + entries[1..];
    }
  }

  // ----- the canonical form reorders -----

  lemma {:induction false} InsertAt<T>(leq: (T, T) -> bool, x: T, ys: seq<T>) returns (k: nat)
    ensures k <= |ys| && InsertBy(leq, x, ys) == ys[..k] + [x] + ys[k..]
  {
    k := 0;
    if ys != [] && !leq(x, ys[0]) {
      var j := InsertAt(leq, x, ys[1..]);
      k := j + 1;
      assert ys[..k] == [ys[0]] + ys[1..][..j] && ys[k..] == ys[1..][j..];
    }
  }

  /** Where an element goes when another is inserted at `k`, or is put in front. */
  function Shift(k: nat, i: nat): nat {
    if i < k then i else i + 1
  }

  /** A permutation of the rest of a list, as one of the list whose first element goes to `k`. */
  function Placing(k: nat, p: seq<nat>): (r: seq<nat>)
    requires k <= |p|
    ensures |r| == |p| + 1 && r[k] == 0 && forall i :: 0 <= i < |p| ==> r[Shift(k, i)] == p[i] + 1
  {
    var r := seq(|p| + 1, i requires 0 <= i <= |p| => if i == k then 0 else if i < k then p[i] + 1 else p[i - 1] + 1);
    assert forall i :: 0 <= i < |p| ==> r[Shift(k, i)] == p[i] + 1;
    r
  }

  function Unplacing(k: nat, q: seq<nat>): (r: seq<nat>)
    ensures |r| == |q| + 1 && r[0] == k && forall j :: 0 <= j < |q| ==> r[j + 1] == Shift(k, q[j])
  {
    seq(|q| + 1, j requires 0 <= j <= |q| => if j == 0 then k else Shift(k, q[j - 1]))
  }

  /** Sorting is a permutation. */
  lemma {:induction false} SortPermutes<T>(leq: (T, T) -> bool, xs: seq<T>) returns (p: seq<nat>, q: seq<nat>)
    ensures |SortBy(leq, xs)| == |xs| && Permutes(p, q, |xs|)
    ensures forall i :: 0 <= i < |xs| ==> SortBy(leq, xs)[i] == xs[p[i]]
  {
    if xs == [] {
      return [], [];
    }
    var rest := xs[1..];
    var p', q' := SortPermutes(leq, rest);
    var sorted := SortBy(leq, rest);
    var k := InsertAt(leq, xs[0], sorted);
    p, q := Placing(k, p'), Unplacing(k, q');
    PermutedInsert(p', q', |rest|, k);
    ValuesInsert(xs, sorted, p', k, SortBy(leq, xs));
  }

  /** Every position but `k` is one of the others, moved. */
  lemma Unshift(k: nat, i: nat) returns (j: nat)
    requires i != k
    ensures i == Shift(k, j) && (j == i || j == i - 1)
  {
    j := if i < k then i else i - 1;
  }

  lemma PermutedInsert(p: seq<nat>, q: seq<nat>, n: nat, k: nat)
    requires Permutes(p, q, n) && k <= n
    ensures Permutes(Placing(k, p), Unplacing(k, q), n + 1)
  {
    var (p', q') := (Placing(k, p), Unplacing(k, q));
    forall i | 0 <= i <= n
      ensures p'[i] <= n && q'[p'[i]] == i
    {
      if i != k {
        var j := Unshift(k, i);
        assert p[j] < n && q[p[j]] == j;
      }
    }
    forall j | 0 <= j <= n
      ensures q'[j] <= n && p'[q'[j]] == j
    {
      if j > 0 {
        var i := j - 1;
        assert q[i] < n && p[q[i]] == i;
        assert q'[i + 1] == Shift(k, q[i]);
      }
    }
  }

  lemma ValuesInsert<T>(xs: seq<T>, sorted: seq<T>, p: seq<nat>, k: nat, all: seq<T>)
    requires |sorted| + 1 == |xs| == |p| + 1 && k < |xs| && all == sorted[..k] + [xs[0]] + sorted[k..]
    requires forall i :: 0 <= i < |p| ==> p[i] + 1 < |xs| && sorted[i] == xs[p[i] + 1]
    ensures forall i :: 0 <= i < |xs| ==> Placing(k, p)[i] < |xs| && all[i] == xs[Placing(k, p)[i]]
  {
    forall i | 0 <= i < |xs|
      ensures Placing(k, p)[i] < |xs| && all[i] == xs[Placing(k, p)[i]]
    {
      if i != k {
        var j := Unshift(k, i);
        assert all[i] == sorted[j];
      }
    }
  }

  /** The canonical form is the value with the entries of its maps in another order. */
  lemma {:induction false} CanonReorders(v: Value)
    ensures Reordered(v, Canon(v))
    decreases v, 0
  {
    match v
    case Array(items) =>
      forall i | 0 <= i < |items|
        ensures Reordered(items[i], Canon(items[i]))
      {
        CanonReorders(items[i]);
      }
    case Map(entries) =>
      forall i | 0 <= i < |entries|
        ensures ReorderedEntry(entries[i], CanonEntry(entries[i]))
      {
        CanonEntryReorders(entries[i]);
      }
      var canon := CanonEntries(entries);
      var p, q := SortPermutes(EntryLeq, canon);
      MapReorders(entries, canon, Sort(canon), p, q);
    case _ =>
  }

  lemma {:induction false} CanonEntryReorders(e: Entry)
    ensures ReorderedEntry(e, CanonEntry(e))
    decreases e, 1
  {
    CanonReorders(e.key);
    CanonReorders(e.val);
  }

  lemma MapReorders(entries: seq<Entry>, canon: seq<Entry>, sorted: seq<Entry>, p: seq<nat>, q: seq<nat>)
    requires |canon| == |sorted| == |entries| && Permutes(p, q, |entries|)
    requires forall i :: 0 <= i < |entries| ==> sorted[i] == canon[p[i]]
    requires forall i :: 0 <= i < |entries| ==> ReorderedEntry(entries[i], canon[i])
    ensures Reordered(Map(entries), Map(sorted))
  {
    forall i | 0 <= i < |entries|
      ensures ReorderedEntry(entries[p[i]], sorted[i])
    {
      assert p[i] < |entries|;
    }
    PermutedIsReordered(entries, sorted, p, q);
  }

  lemma PermutedIsReordered(a: seq<Entry>, b: seq<Entry>, p: seq<nat>, q: seq<nat>)
    requires |a| == |b| && Permutes(p, q, |a|) && forall i :: 0 <= i < |a| ==> ReorderedEntry(a[p[i]], b[i])
    ensures Reordered(Map(a), Map(b))
  {
  }

  // ----- the wire meaning -----

  /** Decoding gives the value whose bytes these are, if it is not too deep. */
  lemma DecodeMeans(b: seq<byte>)
    requires |b| < U64_RANGE
    ensures forall v :: Decode(b) == Ok(v) <==> Means(b, v) && Nesting(v) <= 16
  {
    forall v
      ensures Decode(b) == Ok(v) <==> Means(b, v) && Nesting(v) <= 16
    {
      DecodeIff(b, v);
      MeansIff(v);
      FitsIff(v, 0);
    }
  }

  lemma ParsedMeans(s: seq<byte>, depth: nat, v: Value, n: nat)
    requires |s| < U64_RANGE && Parse(s, depth) == Got(v, n)
    ensures n <= |s| && Means(s[..n], v) && depth + Nesting(v) <= 16
  {
    MeansIff(v);
    FitsIff(v, depth);
    ParseSound(s, depth);
    assert EncodedAs(v, s[..n]);
  }

  lemma MeansParsed(s: seq<byte>, depth: nat, v: Value, n: nat, front: seq<byte>)
    requires n <= |s| && front == s[..n] && Means(front, v) && depth + Nesting(v) <= 16
    ensures Parse(s, depth) == Got(v, n)
  {
    MeansIff(v);
    FitsIff(v, depth);
    assert EncodedAs(v, front);
    ParseComplete(v, depth, s[n..]);
    assert s == front + s[n..];
  }

  /** Reading from the front of a string: the value whose bytes come first, whatever follows them. */
  lemma ParseMeans(s: seq<byte>, depth: nat, v: Value, n: nat)
    requires |s| < U64_RANGE
    ensures Parse(s, depth) == Got(v, n) <==> n <= |s| && Means(s[..n], v) && depth + Nesting(v) <= 16
  {
    if Parse(s, depth) == Got(v, n) {
      ParsedMeans(s, depth, v, n);
    }
    if n <= |s| && Means(s[..n], v) && depth + Nesting(v) <= 16 {
      MeansParsed(s, depth, v, n, s[..n]);
    }
  }

  /** `b` is the bytes of `v` with the entries of its maps in some order. */
  ghost predicate Orders(v: Value, b: seq<byte>) {
    exists w :: Reordered(v, w) && Means(b, w)
  }

  /** Encoding gives the bytes of the value in the one order that has any, and fails if it is too deep or none has. */
  lemma EncodeMeans(v: Value)
    requires WellFormed(v)
    ensures forall b :: Encode(v) == Ok(b) <==> Nesting(v) <= 16 && Orders(v, b)
  {
    forall b
      ensures Encode(v) == Ok(b) <==> Nesting(v) <= 16 && Orders(v, b)
    {
      if Encode(v) == Ok(b) {
        EncodedMeans(v, b);
      }
      if Orders(v, b) {
        OrderedEncodes(v, b);
      }
    }
  }

  lemma EncodedMeans(v: Value, b: seq<byte>)
    requires WellFormed(v) && Encode(v) == Ok(b)
    ensures Nesting(v) <= 16 && Orders(v, b)
  {
    FitsIff(v, 0);
    CanonAdmissible(v, 0);
    CanonReorders(v);
    MeansIff(Canon(v));
    assert EncodedAs(Canon(v), b);
    assert Means(b, Canon(v));
  }

  lemma OrderedEncodes(v: Value, b: seq<byte>)
    requires Orders(v, b)
    ensures Nesting(v) <= 16 ==> Encode(v) == Ok(b)
  {
    var w :| Reordered(v, w) && Means(b, w);
    MeansIff(w);
    CanonOfCanonical(w);
    ReorderedSame(v, w, 0);
    FitsIff(v, 0);
    ReorderedEncode(v, w);
    assert EncodedAs(w, b);
  }

  /** Entries held in canonical order are encoded in it. */
  lemma EncMeans(v: Value)
    requires WellFormed(v) && Canonical(v)
    ensures forall b :: Means(b, v) <==> b == Enc(v)
    ensures Fits(v, 0) <==> Nesting(v) <= 16
  {
    MeansIff(v);
    FitsIff(v, 0);
  }

  /** The first three bits say what kind of value follows. */
  lemma FirstByteIsMajor(b: seq<byte>, v: Value)
    requires Means(b, v)
    ensures b != [] && b[0] / 32 ==
      match v
      case Uint(_) => 0
      case Nint(_) => 1
      case Bytes(_) => 2
      case Text(_) => 3
      case Array(_) => 4
      case Map(_) => 5
      case Bool(_) => 7
      case Null => 7
  {
  }

  lemma DecodesTo(b: seq<byte>, v: Value)
    requires |b| < U64_RANGE && Means(b, v) && Nesting(v) <= 16
    ensures Decode(b) == Ok(v)
  {
    DecodeMeans(b);
  }

  /** In bytes: small integers, the three simple values. */
  lemma SmallStrings(n: byte)
    requires n < 24
    ensures Decode([n]) == Ok(Uint(n)) && Decode([0x20 + n]) == Ok(Nint(n))
    ensures Decode([0xf4]) == Ok(Bool(false)) && Decode([0xf5]) == Ok(Bool(true)) && Decode([0xf6]) == Ok(Null)
  {
    DecodesTo([n], Uint(n));
    DecodesTo([0x20 + n], Nint(n));
    DecodesTo([0xf4], Bool(false));
    DecodesTo([0xf5], Bool(true));
    DecodesTo([0xf6], Null);
  }

  /** Integers of one and of two more bytes. */
  lemma WiderIntegers(n: byte, hi: byte, lo: byte)
    requires n >= 24 && hi > 0
    ensures Decode([0x18, n]) == Ok(Uint(n)) && Decode([0x38, n]) == Ok(Nint(n))
    ensures Decode([0x19, hi, lo]) == Ok(Uint(0x100 * hi as int + lo as int))
    ensures Decode([0x39, hi, lo]) == Ok(Nint(0x100 * hi as int + lo as int))
  {
    DecodesTo([0x18, n], Uint(n));
    DecodesTo([0x38, n], Nint(n));
    DecodesTo([0x19, hi, lo], Uint(0x100 * hi as int + lo as int));
    DecodesTo([0x39, hi, lo], Nint(0x100 * hi as int + lo as int));
  }

  /** A short string follows its head verbatim. */
  lemma ShortStrings(c: seq<byte>)
    requires |c| < 24
    ensures Decode([0x40 + |c|] + c) == Ok(Bytes(c))
    ensures IsText(c) ==> Decode([0x60 + |c|] + c) == Ok(Text(c))
  {
    assert Headed([0x40 + |c|] + c, 2, |c|, c, [0x40 + |c|]);
    DecodesTo([0x40 + |c|] + c, Bytes(c));
    if IsText(c) {
      assert Headed([0x60 + |c|] + c, 3, |c|, c, [0x60 + |c|]);
      DecodesTo([0x60 + |c|] + c, Text(c));
    }
  }
}
