/** Accepted byte strings and canonical values are in bijection; no encoding extends another. */
module CborBijection {
  import opened Bytes
  import opened Cbor

  // ----- heads -----

  lemma ArgSound(s: seq<byte>, w: nat, least: nat, m: byte)
    requires |s| >= 1 && w <= 8 && ParseArg(s, w, least).Got? && m == s[0]
    ensures ParseArg(s, w, least).value.arg < Pow256(w)
    ensures s[..1 + w] == [m] + BE(ParseArg(s, w, least).value.arg, w)
  {
    BEOfFromBE(s[1..1 + w]);
    assert s[..1 + w] == [m] + s[1..1 + w];
  }

  /** An accepted head is the shortest one for what it says. */
  lemma HeadSound(s: seq<byte>)
    requires ParseHead(s).Got?
    ensures var Got(h, n) := ParseHead(s); s[..n] == Head(h.major, h.arg)
  {
    var ai := s[0] % 32;
    var m := s[0];
    assert m == m / 32 * 32 + ai;
    Widths();
    if ai < 24 {
      assert s[..1] == [m];
    } else if ai == 24 {
      ArgSound(s, 1, 24, m);
    } else if ai == 25 {
      ArgSound(s, 2, 0x100, m);
    } else if ai == 26 {
      ArgSound(s, 4, 0x1_0000, m);
    } else {
      ArgSound(s, 8, 0x1_0000_0000, m);
    }
  }

  lemma ArgComplete(s: seq<byte>, w: nat, least: nat, m: byte, arg: u64, rest: seq<byte>)
    requires w <= 8 && least <= arg < Pow256(w) && s == [m] + BE(arg, w) + rest
    ensures ParseArg(s, w, least) == Got(HeadValue(m / 32, arg), 1 + w)
  {
    assert s[1..1 + w] == BE(arg, w);
    FromBEOfBE(arg, w);
  }

  lemma InitialByte(major: nat, ai: nat)
    requires major < 8 && ai < 32
    ensures (major * 32 + ai) / 32 == major && (major * 32 + ai) % 32 == ai && major * 32 + ai < 256
  {
  }

  /** A head whose argument follows in `w` bytes. */
  lemma LongHeadComplete(major: nat, ai: nat, arg: u64, w: nat, least: nat, rest: seq<byte>, m: byte)
    requires major < 8
    requires (ai == 24 && w == 1 && least == 24) || (ai == 25 && w == 2 && least == 0x100)
          || (ai == 26 && w == 4 && least == 0x1_0000) || (ai == 27 && w == 8 && least == 0x1_0000_0000)
    requires least <= arg < Pow256(w) && m == major * 32 + ai
    ensures ParseHead([m] + BE(arg, w) + rest) == Got(HeadValue(major, arg), 1 + w)
  {
    InitialByte(major, ai);
    ArgComplete([m] + BE(arg, w) + rest, w, least, m, arg, rest);
  }

  lemma HeadComplete(major: nat, arg: u64, rest: seq<byte>)
    requires major < 8
    ensures ParseHead(Head(major, arg) + rest) == Got(HeadValue(major, arg), |Head(major, arg)|)
  {
    var m := major * 32;
    Widths();
    if arg < 24 {
      InitialByte(major, arg);
      assert (Head(major, arg) + rest)[0] == m + arg;
    } else if arg <= 0xff {
      LongHeadComplete(major, 24, arg, 1, 24, rest, m + 24);
    } else if arg <= 0xffff {
      LongHeadComplete(major, 25, arg, 2, 0x100, rest, m + 25);
    } else if arg <= 0xffff_ffff {
      LongHeadComplete(major, 26, arg, 4, 0x1_0000, rest, m + 26);
    } else {
      LongHeadComplete(major, 27, arg, 8, 0x1_0000_0000, rest, m + 27);
    }
  }

  lemma Cat<T>(s: seq<T>, i: nat, j: nat, a: seq<T>, b: seq<T>)
    requires i <= |s| && j <= |s| - i && s[..i] == a && s[i..][..j] == b
    ensures s[..i + j] == a + b
  {
  }

  // ----- what is accepted is canonical, and is its own encoding -----

  /** `v` is an admissible value whose encoding is `b`. */
  ghost predicate Spells(v: Value, depth: nat, b: seq<byte>) {
    WellFormed(v) && Canonical(v) && Fits(v, depth) && Enc(v) == b
  }

  /** The items are admissible and `b` is their encoding. */
  ghost predicate SpellsItems(vs: seq<Value>, depth: nat, b: seq<byte>) {
    EncItems(vs) == b && forall v :: v in vs ==> WellFormed(v) && Canonical(v) && Fits(v, depth)
  }

  /** The entries `es`, read behind the key `prev`, are admissible and `b` is their encoding. */
  ghost predicate SpellsEntries(es: seq<Entry>, depth: nat, prev: seq<byte>, b: seq<byte>) {
    && EncEntries(es) == b && Increasing(prev, es)
    && forall e :: e in es ==> WellFormedEntry(e) && CanonicalEntry(e) && FitsEntry(e, depth)
  }

  lemma ArraySound(s: seq<byte>, n: nat, depth: nat, next: nat, vs: seq<Value>, m: nat)
    requires n <= |s| && m <= |s| - n && |vs| < U64_RANGE && depth <= MAX_DEPTH && next == depth + 1
    requires s[..n] == Head(4, |vs|) && SpellsItems(vs, next, s[n..][..m])
    ensures Spells(Array(vs), depth, s[..n + m])
  {
    Cat(s, n, m, Head(4, |vs|), EncItems(vs));
  }

  lemma MapSound(s: seq<byte>, n: nat, depth: nat, next: nat, es: seq<Entry>, m: nat)
    requires n <= |s| && m <= |s| - n && |es| < U64_RANGE && depth <= MAX_DEPTH && next == depth + 1
    requires s[..n] == Head(5, |es|) && SpellsEntries(es, next, [], s[n..][..m])
    ensures Spells(Map(es), depth, s[..n + m])
  {
    Cat(s, n, m, Head(5, |es|), EncEntries(es));
  }

  lemma ItemsCons(v: Value, rest: seq<Value>, depth: nat, s: seq<byte>, used: nat, n: nat)
    requires used <= |s| && n <= |s| - used && Spells(v, depth, s[..used]) && SpellsItems(rest, depth, s[used..][..n])
    ensures SpellsItems([v] + rest, depth, s[..used + n])
  {
    assert ([v] + rest)[1..] == rest;
    Cat(s, used, n, Enc(v), EncItems(rest));
  }

  lemma {:induction false} ParseSound(s: seq<byte>, depth: nat)
    requires |s| < U64_RANGE && Parse(s, depth).Got?
    ensures var Got(v, n) := Parse(s, depth); Spells(v, depth, s[..n])
    decreases |s|, 0
  {
    var Got(h, n) := ParseHead(s);
    var rest := s[n..];
    HeadSound(s);
    var next := depth + 1;
    match h.major
    case 2 =>
      Cat(s, n, h.arg, Head(2, h.arg), rest[..h.arg]);
    case 3 =>
      Cat(s, n, h.arg, Head(3, h.arg), rest[..h.arg]);
    case 4 =>
      ParseItemsSound(rest, h.arg, next);
      var items := ParseItems(rest, h.arg, next);
      ArraySound(s, n, depth, next, items.value, items.len);
    case 5 =>
      ParseEntriesSound(rest, h.arg, next, []);
      var entries := ParseEntries(rest, h.arg, next, []);
      MapSound(s, n, depth, next, entries.value, entries.len);
    case _ =>
  }

  lemma {:induction false} ParseItemsSound(s: seq<byte>, count: nat, depth: nat)
    requires |s| < U64_RANGE && ParseItems(s, count, depth).Got?
    ensures var Got(vs, n) := ParseItems(s, count, depth); SpellsItems(vs, depth, s[..n])
    decreases |s|, 1 + count
  {
    if count > 0 {
      var first := Parse(s, depth);
      var s' := s[first.len..];
      ParseSound(s, depth);
      ParseItemsSound(s', count - 1, depth);
      var rest := ParseItems(s', count - 1, depth);
      ItemsCons(first.value, rest.value, depth, s, first.len, rest.len);
    }
  }

  lemma {:induction false} ParseEntrySound(s: seq<byte>, depth: nat, prev: seq<byte>)
    requires |s| < U64_RANGE && ParseEntry(s, depth, prev).Got?
    ensures var Got(RawEntry(e, k), n) := ParseEntry(s, depth, prev);
      && s[..n] == EncEntry(e) && s[..k] == Enc(e.key) && Less(prev, Enc(e.key))
      && WellFormedEntry(e) && CanonicalEntry(e) && FitsEntry(e, depth)
    decreases |s|, 1
  {
    var key := Parse(s, depth);
    var s' := s[key.len..];
    var val := Parse(s', depth);
    ParseSound(s, depth);
    ParseSound(s', depth);
    Cat(s, key.len, val.len, Enc(key.value), Enc(val.value));
  }

  lemma {:induction false} ParseEntriesSound(s: seq<byte>, count: nat, depth: nat, prev: seq<byte>)
    requires |s| < U64_RANGE && ParseEntries(s, count, depth, prev).Got?
    ensures var Got(es, n) := ParseEntries(s, count, depth, prev); SpellsEntries(es, depth, prev, s[..n])
    decreases |s|, 2 + count
  {
    if count > 0 {
      var first, used, rest, left := EntriesParts(s, count, depth, prev);
      var (s', raw) := (s[used..], s[..first.keyLen]);
      ParseEntrySound(s, depth, prev);
      ParseEntriesSound(s', left, depth, raw);
      EntriesCons(first.entry, rest.value, depth, prev, s, used, rest.len);
    }
  }

  /** The first of the entries read, and the others. */
  lemma EntriesParts(s: seq<byte>, count: nat, depth: nat, prev: seq<byte>)
    returns (first: RawEntry, used: nat, rest: Parsed<seq<Entry>>, left: nat)
    requires count > 0 && ParseEntries(s, count, depth, prev).Got?
    ensures ParseEntry(s, depth, prev) == Got(first, used) && 0 < used <= |s| && first.keyLen <= |s| && left == count - 1
    ensures rest == ParseEntries(s[used..], left, depth, s[..first.keyLen]) && rest.Got?
    ensures ParseEntries(s, count, depth, prev) == Got([first.entry] + rest.value, used + rest.len)
  {
    var e := ParseEntry(s, depth, prev);
    first, used, left := e.value, e.len, count - 1;
    rest := ParseEntries(s[used..], left, depth, s[..first.keyLen]);
  }

  lemma EntriesCons(e: Entry, rest: seq<Entry>, depth: nat, prev: seq<byte>, s: seq<byte>, used: nat, n: nat)
    requires used <= |s| && n <= |s| - used && s[..used] == EncEntry(e) && SpellsEntries(rest, depth, Enc(e.key), s[used..][..n])
    requires WellFormedEntry(e) && CanonicalEntry(e) && FitsEntry(e, depth) && Less(prev, Enc(e.key))
    ensures SpellsEntries([e] + rest, depth, prev, s[..used + n])
  {
    assert ([e] + rest)[1..] == rest;
    Cat(s, used, n, EncEntry(e), EncEntries(rest));
  }

  // ----- every canonical value is accepted back -----

  lemma Front<T>(a: seq<T>, b: seq<T>, rest: seq<T>)
    ensures (a + b) + rest == a + (b + rest)
    ensures (a + (b + rest))[|a|..] == b + rest
    ensures (b + rest)[..|b|] == b
  {
  }

  /** What is left to read after the head of an encoding. */
  lemma HeadThenBody(major: nat, arg: u64, body: seq<byte>, rest: seq<byte>, s: seq<byte>)
    requires major < 8 && s == Head(major, arg) + body + rest
    ensures ParseHead(s) == Got(HeadValue(major, arg), |Head(major, arg)|)
    ensures s[|Head(major, arg)|..] == body + rest && (body + rest)[..|body|] == body
  {
    HeadComplete(major, arg, body + rest);
    Front(Head(major, arg), body, rest);
  }

  lemma ScalarComplete(v: Value, depth: nat, rest: seq<byte>)
    requires Fits(v, depth) && (v.Uint? || v.Nint? || v.Bool? || v.Null?)
    ensures Parse(Enc(v) + rest, depth) == Got(v, |Enc(v)|)
  {
    match v
    case Uint(n) => HeadComplete(0, n, rest);
    case Nint(n) => HeadComplete(1, n, rest);
    case Bool(b) => HeadComplete(7, if b then 21 else 20, rest);
    case Null => HeadComplete(7, 22, rest);
  }

  lemma BytesComplete(b: seq<byte>, depth: nat, rest: seq<byte>)
    requires |b| < U64_RANGE && depth <= MAX_DEPTH
    ensures Parse(Enc(Bytes(b)) + rest, depth) == Got(Bytes(b), |Enc(Bytes(b))|)
  {
    HeadThenBody(2, |b|, b, rest, Enc(Bytes(b)) + rest);
  }

  lemma TextComplete(t: seq<byte>, depth: nat, rest: seq<byte>)
    requires |t| < U64_RANGE && Utf8(t) && depth <= MAX_DEPTH
    ensures Parse(Enc(Text(t)) + rest, depth) == Got(Text(t), |Enc(Text(t))|)
  {
    HeadThenBody(3, |t|, t, rest, Enc(Text(t)) + rest);
  }

  lemma ArrayComplete(items: seq<Value>, depth: nat, next: nat, rest: seq<byte>)
    requires |items| < U64_RANGE && depth <= MAX_DEPTH && next == depth + 1
    requires ParseItems(EncItems(items) + rest, |items|, next) == Got(items, |EncItems(items)|)
    ensures Parse(Enc(Array(items)) + rest, depth) == Got(Array(items), |Enc(Array(items))|)
  {
    HeadThenBody(4, |items|, EncItems(items), rest, Enc(Array(items)) + rest);
  }

  lemma MapComplete(entries: seq<Entry>, depth: nat, next: nat, rest: seq<byte>)
    requires |entries| < U64_RANGE && depth <= MAX_DEPTH && next == depth + 1
    requires ParseEntries(EncEntries(entries) + rest, |entries|, next, []) == Got(entries, |EncEntries(entries)|)
    ensures Parse(Enc(Map(entries)) + rest, depth) == Got(Map(entries), |Enc(Map(entries))|)
  {
    HeadThenBody(5, |entries|, EncEntries(entries), rest, Enc(Map(entries)) + rest);
  }

  lemma {:induction false} ParseComplete(v: Value, depth: nat, rest: seq<byte>)
    requires WellFormed(v) && Canonical(v) && Fits(v, depth)
    ensures Parse(Enc(v) + rest, depth) == Got(v, |Enc(v)|)
    decreases v, 0
  {
    var next := depth + 1;
    match v
    case Bytes(b) => BytesComplete(b, depth, rest);
    case Text(t) => TextComplete(t, depth, rest);
    case Array(items) =>
      ParseItemsComplete(items, next, rest);
      ArrayComplete(items, depth, next, rest);
    case Map(entries) =>
      ParseEntriesComplete(entries, next, [], rest);
      MapComplete(entries, depth, next, rest);
    case _ => ScalarComplete(v, depth, rest);
  }

  lemma {:induction false} ParseItemsComplete(items: seq<Value>, depth: nat, rest: seq<byte>)
    requires forall v :: v in items ==> WellFormed(v) && Canonical(v) && Fits(v, depth)
    ensures ParseItems(EncItems(items) + rest, |items|, depth) == Got(items, |EncItems(items)|)
    decreases items, 1
  {
    if items != [] {
      var (first, others) := (items[0], items[1..]);
      ParseComplete(first, depth, EncItems(others) + rest);
      ParseItemsComplete(others, depth, rest);
      Front(Enc(first), EncItems(others), rest);
      assert items == [first] + others;
    }
  }

  lemma {:induction false} ParseEntriesComplete(entries: seq<Entry>, depth: nat, prev: seq<byte>, rest: seq<byte>)
    requires forall e :: e in entries ==> WellFormedEntry(e) && CanonicalEntry(e) && FitsEntry(e, depth)
    requires Increasing(prev, entries)
    ensures ParseEntries(EncEntries(entries) + rest, |entries|, depth, prev) == Got(entries, |EncEntries(entries)|)
    decreases entries, 2
  {
    if entries != [] {
      var (e, others) := (entries[0], entries[1..]);
      ParseEntryComplete(e, depth, prev, EncEntries(others) + rest);
      ParseEntriesComplete(others, depth, Enc(e.key), rest);
      EntriesFront(e, others, depth, prev, rest, |entries|);
      assert entries == [e] + others;
    }
  }

  /** An entry read, and the others behind it. */
  lemma EntriesFront(e: Entry, others: seq<Entry>, depth: nat, prev: seq<byte>, rest: seq<byte>, count: nat)
    requires count == |others| + 1
    requires var s := EncEntry(e) + (EncEntries(others) + rest);
      ParseEntry(s, depth, prev) == Got(RawEntry(e, |Enc(e.key)|), |EncEntry(e)|) && s[..|Enc(e.key)|] == Enc(e.key)
    requires ParseEntries(EncEntries(others) + rest, |others|, depth, Enc(e.key)) == Got(others, |EncEntries(others)|)
    ensures EncEntries([e] + others) == EncEntry(e) + EncEntries(others)
    ensures ParseEntries(EncEntries([e] + others) + rest, count, depth, prev) == Got([e] + others, |EncEntries([e] + others)|)
  {
    assert ([e] + others)[1..] == others;
    Front(EncEntry(e), EncEntries(others), rest);
  }

  lemma {:induction false} ParseEntryComplete(e: Entry, depth: nat, prev: seq<byte>, tail: seq<byte>)
    requires WellFormedEntry(e) && CanonicalEntry(e) && FitsEntry(e, depth) && Less(prev, Enc(e.key))
    ensures var s := EncEntry(e) + tail;
      && ParseEntry(s, depth, prev) == Got(RawEntry(e, |Enc(e.key)|), |EncEntry(e)|)
      && s[..|Enc(e.key)|] == Enc(e.key)
    decreases e, 1
  {
    Front(Enc(e.key), Enc(e.val), tail);
    ParseComplete(e.key, depth, Enc(e.val) + tail);
    ParseComplete(e.val, depth, tail);
  }

  // ----- the theorems -----

  /** Accepting `b` as `v` is `b` being the encoding of the canonical value `v`. */
  lemma DecodeIff(b: seq<byte>, v: Value)
    requires |b| < U64_RANGE
    ensures Decode(b) == Ok(v) <==> Spells(v, 0, b)
  {
    if Decode(b) == Ok(v) {
      ParseSound(b, 0);
      assert b[..|b|] == b;
    }
    if Spells(v, 0, b) {
      ParseComplete(v, 0, []);
      assert Enc(v) + [] == b;
    }
  }

  /** No canonical encoding is a proper prefix of another. */
  lemma PrefixFree(v: Value, w: Value)
    requires WellFormed(v) && Canonical(v) && Fits(v, 0)
    requires WellFormed(w) && Canonical(w) && Fits(w, 0)
    requires Enc(v) <= Enc(w)
    ensures v == w
  {
    var rest := Enc(w)[|Enc(v)|..];
    assert Enc(v) + rest == Enc(w) + [];
    ParseComplete(v, 0, rest);
    ParseComplete(w, 0, []);
  }
}
