/**
 Canonical CBOR (section 4.2.1 of RFC 8949, restricted): values, their encoding, and the
 grammar both decoders accept, with the theorem that accepted strings and canonical values
 are in bijection.
 */
module Cbor {
  import opened Bytes

  const MAX_DEPTH: nat := 16

  /** `Nint(n)` is the integer -1 - n; `Text` holds UTF-8. */
  datatype Value =
    | Uint(n: u64)
    | Nint(n: u64)
    | Bytes(b: seq<byte>)
    | Text(t: seq<byte>)
    | Array(items: seq<Value>)
    | Map(entries: seq<Entry>)
    | Bool(v: bool)
    | Null

  datatype Entry = Entry(key: Value, val: Value)

  // ----- UTF-8 (table 3-7 of the Unicode Standard) -----

  predicate Tail(x: byte) {
    0x80 <= x <= 0xbf
  }

  /** The length of the well-formed character that `s` starts with, or 0. */
  function CharLen(s: seq<byte>): (n: nat)
    ensures n <= |s| && n <= 4
  {
    if |s| >= 1 && s[0] <= 0x7f then 1
    else if |s| >= 2 && 0xc2 <= s[0] <= 0xdf && Tail(s[1]) then 2
    else if |s| >= 3 && Tail(s[1]) && Tail(s[2])
      && (0xe1 <= s[0] <= 0xec || 0xee <= s[0] <= 0xef
          || (s[0] == 0xe0 && 0xa0 <= s[1]) || (s[0] == 0xed && s[1] <= 0x9f)) then 3
    else if |s| >= 4 && Tail(s[1]) && Tail(s[2]) && Tail(s[3])
      && (0xf1 <= s[0] <= 0xf3 || (s[0] == 0xf0 && 0x90 <= s[1]) || (s[0] == 0xf4 && s[1] <= 0x8f)) then 4
    else 0
  }

  predicate Utf8(s: seq<byte>)
    decreases |s|
  {
    s == [] || (CharLen(s) > 0 && Utf8(s[CharLen(s)..]))
  }

  lemma {:induction false} AsciiIsUtf8(s: seq<byte>)
    requires forall i :: 0 <= i < |s| ==> s[i] <= 0x7f
    ensures Utf8(s)
  {
    if s != [] {
      AsciiIsUtf8(s[1..]);
    }
  }

  // ----- values -----

  /** What the types of the implementations guarantee: UTF-8 text, 64-bit lengths. */
  predicate WellFormed(v: Value)
    decreases v, 0
  {
    match v
    case Bytes(b) => |b| < U64_RANGE
    case Text(t) => |t| < U64_RANGE && Utf8(t)
    case Array(items) => |items| < U64_RANGE && forall x :: x in items ==> WellFormed(x)
    case Map(entries) => |entries| < U64_RANGE && forall e :: e in entries ==> WellFormedEntry(e)
    case _ => true
  }

  predicate WellFormedEntry(e: Entry)
    decreases e, 1
  {
    WellFormed(e.key) && WellFormed(e.val)
  }

  /** The nesting cap, counted from `depth` at the outermost value. */
  predicate Fits(v: Value, depth: nat)
    decreases v, 0
  {
    depth <= MAX_DEPTH
    && match v
       case Array(items) => forall x :: x in items ==> Fits(x, depth + 1)
       case Map(entries) => forall e :: e in entries ==> FitsEntry(e, depth + 1)
       case _ => true
  }

  predicate FitsEntry(e: Entry, depth: nat)
    decreases e, 1
  {
    Fits(e.key, depth) && Fits(e.val, depth)
  }

  // ----- encoding, entries in the order held -----

  /** Major type in the top three bits, shortest-form argument. */
  function Head(major: nat, arg: nat): (h: seq<byte>)
    requires major < 8
    ensures 1 <= |h| <= 9
  {
    var m := major * 32;
    if arg < 24 then [m + arg]
    else if arg <= 0xff then [m + 24] + BE(arg, 1)
    else if arg <= 0xffff then [m + 25] + BE(arg, 2)
    else if arg <= 0xffff_ffff then [m + 26] + BE(arg, 4)
    else [m + 27] + BE(arg, 8)
  }

  function Enc(v: Value): (b: seq<byte>)
    ensures |b| >= 1
    decreases v, 0
  {
    match v
    case Uint(n) => Head(0, n)
    case Nint(n) => Head(1, n)
    case Bytes(b) => Head(2, |b|) + b
    case Text(t) => Head(3, |t|) + t
    case Array(items) => Head(4, |items|) + EncItems(items)
    case Map(entries) => Head(5, |entries|) + EncEntries(entries)
    case Bool(v) => Head(7, if v then 21 else 20)
    case Null => Head(7, 22)
  }

  function EncItems(items: seq<Value>): seq<byte>
    decreases items, 1
  {
    if items == [] then [] else Enc(items[0]) + EncItems(items[1..])
  }

  function EncEntry(e: Entry): seq<byte>
    decreases e, 1
  {
    Enc(e.key) + Enc(e.val)
  }

  function EncEntries(entries: seq<Entry>): seq<byte>
    decreases entries, 1
  {
    if entries == [] then [] else EncEntry(entries[0]) + EncEntries(entries[1..])
  }

  // ----- canonical order -----

  /** Bytewise lexicographic order. */
  predicate Less(a: seq<byte>, b: seq<byte>) {
    b != [] && (a == [] || a[0] < b[0] || (a[0] == b[0] && Less(a[1..], b[1..])))
  }

  /** Every map's keys strictly increase, at every level. */
  predicate Canonical(v: Value)
    decreases v, 0
  {
    match v
    case Array(items) => forall x :: x in items ==> Canonical(x)
    case Map(entries) => (forall e :: e in entries ==> CanonicalEntry(e)) && Increasing([], entries)
    case _ => true
  }

  predicate CanonicalEntry(e: Entry)
    decreases e, 1
  {
    Canonical(e.key) && Canonical(e.val)
  }

  /** The encoded keys strictly increase, from above `prev`. */
  predicate Increasing(prev: seq<byte>, entries: seq<Entry>)
    decreases |entries|
  {
    entries != [] ==> Less(prev, Enc(entries[0].key)) && Increasing(Enc(entries[0].key), entries[1..])
  }

  // ----- the grammar -----

  /** What reading a prefix of some bytes gives: a value and how many bytes it took. */
  datatype Parsed<+T> = Fail | Got(value: T, len: nat)

  datatype HeadValue = HeadValue(major: nat, arg: u64)

  function BEu64(s: seq<byte>): u64
    requires |s| <= 8
  {
    BEOfFromBE(s);
    Pow256Mono(|s|, 8);
    Widths();
    FromBE(s)
  }

  lemma {:induction false} Pow256Mono(a: nat, b: nat)
    requires a <= b
    ensures Pow256(a) <= Pow256(b)
  {
    if a < b {
      Pow256Mono(a, b - 1);
    }
  }

  /** An argument of `w` bytes after the initial byte; anything below `least` is not shortest. */
  function ParseArg(s: seq<byte>, w: nat, least: nat): Parsed<HeadValue>
    requires |s| >= 1 && w <= 8
  {
    if |s| < 1 + w || BEu64(s[1..1 + w]) < least then Fail
    else Got(HeadValue(s[0] / 32, BEu64(s[1..1 + w])), 1 + w)
  }

  function ParseHead(s: seq<byte>): (r: Parsed<HeadValue>)
    ensures r.Got? ==> r.value.major < 8 && 1 <= r.len <= |s|
  {
    if s == [] then Fail
    else
      var ai := s[0] % 32;
      if ai < 24 then Got(HeadValue(s[0] / 32, ai), 1)
      else if ai == 24 then ParseArg(s, 1, 24)
      else if ai == 25 then ParseArg(s, 2, 0x100)
      else if ai == 26 then ParseArg(s, 4, 0x1_0000)
      else if ai == 27 then ParseArg(s, 8, 0x1_0000_0000)
      else Fail
  }

  /** One value from the front of `s`. */
  function Parse(s: seq<byte>, depth: nat): (r: Parsed<Value>)
    ensures r.Got? ==> 1 <= r.len <= |s|
    decreases |s|, 0
  {
    if depth > MAX_DEPTH || ParseHead(s).Fail? then Fail
    else
      var Got(h, n) := ParseHead(s);
      var rest := s[n..];
      match h.major
      case 0 => Got(Uint(h.arg), n)
      case 1 => Got(Nint(h.arg), n)
      case 2 => if h.arg > |rest| then Fail else Got(Bytes(rest[..h.arg]), n + h.arg)
      case 3 => if h.arg > |rest| || !Utf8(rest[..h.arg]) then Fail else Got(Text(rest[..h.arg]), n + h.arg)
      case 4 =>
        var items := ParseItems(rest, h.arg, depth + 1);
        if items.Fail? then Fail else Got(Array(items.value), n + items.len)
      case 5 =>
        var entries := ParseEntries(rest, h.arg, depth + 1, []);
        if entries.Fail? then Fail else Got(Map(entries.value), n + entries.len)
      case 7 =>
        if h.arg == 20 then Got(Bool(false), n)
        else if h.arg == 21 then Got(Bool(true), n)
        else if h.arg == 22 then Got(Null, n)
        else Fail
      case _ => Fail
  }

  function ParseItems(s: seq<byte>, count: nat, depth: nat): (r: Parsed<seq<Value>>)
    ensures r.Got? ==> count <= r.len <= |s| && |r.value| == count
    decreases |s|, 1 + count
  {
    if count == 0 then Got([], 0)
    else
      var first := Parse(s, depth);
      if first.Fail? then Fail
      else
        var rest := ParseItems(s[first.len..], count - 1, depth);
        if rest.Fail? then Fail else Got([first.value] + rest.value, first.len + rest.len)
  }

  /** A map entry with the length of its key's encoding. */
  datatype RawEntry = RawEntry(entry: Entry, keyLen: nat)

  /** A key above the raw previous key, then a value. */
  function ParseEntry(s: seq<byte>, depth: nat, prev: seq<byte>): (r: Parsed<RawEntry>)
    ensures r.Got? ==> 2 <= r.len <= |s| && r.value.keyLen < r.len
    decreases |s|, 1
  {
    var key := Parse(s, depth);
    if key.Fail? || !Less(prev, s[..key.len]) then Fail
    else
      var val := Parse(s[key.len..], depth);
      if val.Fail? then Fail
      else Got(RawEntry(Entry(key.value, val.value), key.len), key.len + val.len)
  }

  /** `prev` is the empty string, below every key, before the first. */
  function ParseEntries(s: seq<byte>, count: nat, depth: nat, prev: seq<byte>): (r: Parsed<seq<Entry>>)
    ensures r.Got? ==> 2 * count <= r.len <= |s| && |r.value| == count
    decreases |s|, 2 + count
  {
    if count == 0 then Got([], 0)
    else
      var first := ParseEntry(s, depth, prev);
      if first.Fail? then Fail
      else
        var rest := ParseEntries(s[first.len..], count - 1, depth, s[..first.value.keyLen]);
        if rest.Fail? then Fail else Got([first.value.entry] + rest.value, first.len + rest.len)
  }

  /** `Value::decode`: one value and nothing after it. */
  function Decode(b: seq<byte>): Result<Value> {
    var r := Parse(b, 0);
    if r.Got? && r.len == |b| then Ok(r.value) else Err
  }
}
