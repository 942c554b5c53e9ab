/**
 The independent Go reader of canonical CBOR (`cbor.go`). It reads heads inline, bounds
 counts by the bytes left before reading anything, and compares keys by encoding them
 again; it accepts the same strings as the Rust reader, with the same values.
 */
module CborGo {
  import opened Bytes
  import opened Cbor
  import opened CborWire
  import opened CborBijection
  import opened CborOrder
  import opened CborSteps

  // ----- writing, entries in the order held -----

  /** `appendHead`. */
  method AppendHead(dst: seq<byte>, major: nat, arg: u64) returns (out: seq<byte>)
    requires major < 8
    ensures out == dst + Head(major, arg)
  {
    if arg < 24 {
      out := dst + [major * 32 + arg];
    } else if arg <= 0xff {
      out := dst + ([major * 32 + 24] + BE(arg, 1));
    } else if arg <= 0xffff {
      out := dst + ([major * 32 + 25] + BE(arg, 2));
    } else if arg <= 0xffff_ffff {
      out := dst + ([major * 32 + 26] + BE(arg, 4));
    } else {
      out := dst + ([major * 32 + 27] + BE(arg, 8));
    }
  }

  /** `appendValue`: the depth cap is its only check. */
  method AppendValue(dst: seq<byte>, v: Value, depth: nat) returns (r: Result<seq<byte>>)
    requires WellFormed(v)
    ensures r == if Fits(v, depth) then Ok(dst + Enc(v)) else Err
    decreases v, 2
  {
    if depth > MAX_DEPTH {
      return Err;
    }
    var next := depth + 1;
    match v {
      case Uint(n) =>
        var out := AppendHead(dst, 0, n);
        return Ok(out);
      case Nint(n) =>
        var out := AppendHead(dst, 1, n);
        return Ok(out);
      case Bytes(b) =>
        var out := AppendHead(dst, 2, |b|);
        Associate(dst, Head(2, |b|), b);
        return Ok(out + b);
      case Text(t) =>
        var out := AppendHead(dst, 3, |t|);
        Associate(dst, Head(3, |t|), t);
        return Ok(out + t);
      case Array(items) =>
        var out := AppendHead(dst, 4, |items|);
        r := AppendItems(out, v, next);
        Associate(dst, Head(4, |items|), EncItems(items));
      case Map(entries) =>
        var out := AppendHead(dst, 5, |entries|);
        r := AppendPairs(out, v, next);
        Associate(dst, Head(5, |entries|), EncEntries(entries));
      case Bool(b) =>
        return Ok(dst + [if b then 0xf5 else 0xf4]);
      case Null =>
        return Ok(dst + [0xf6]);
    }
  }

  /** `dst` and the items from `i` on are `start` and all of them. */
  ghost predicate ItemsBehind(start: seq<byte>, dst: seq<byte>, items: seq<Value>, i: nat) {
    i <= |items| && dst + EncItems(items[i..]) == start + EncItems(items)
  }

  lemma ItemsBehindNext(start: seq<byte>, dst: seq<byte>, items: seq<Value>, i: nat, next: nat)
    requires ItemsBehind(start, dst, items, i) && i < |items| && next == i + 1
    ensures ItemsBehind(start, dst + Enc(items[i]), items, next)
  {
    assert items[i..][1..] == items[next..];
    Associate(dst, Enc(items[i]), EncItems(items[next..]));
  }

  ghost predicate EntriesBehind(start: seq<byte>, dst: seq<byte>, entries: seq<Entry>, i: nat) {
    i <= |entries| && dst + EncEntries(entries[i..]) == start + EncEntries(entries)
  }

  lemma EntriesBehindNext(start: seq<byte>, dst: seq<byte>, entries: seq<Entry>, i: nat, next: nat)
    requires EntriesBehind(start, dst, entries, i) && i < |entries| && next == i + 1
    ensures EntriesBehind(start, dst + EncEntry(entries[i]), entries, next)
  {
    assert entries[i..][1..] == entries[next..];
    Associate(dst, EncEntry(entries[i]), EncEntries(entries[next..]));
  }

  /** Its loop over array items. */
  method AppendItems(start: seq<byte>, v: Value, depth: nat) returns (r: Result<seq<byte>>)
    requires v.Array? && WellFormed(v)
    ensures r == if forall x :: x in v.items ==> Fits(x, depth) then Ok(start + EncItems(v.items)) else Err
    decreases v, 1
  {
    var dst := start;
    var items := v.items;
    var i := 0;
    while i < |items|
      invariant ItemsBehind(start, dst, items, i)
      invariant forall x :: x in items[..i] ==> Fits(x, depth)
    {
      var x := items[i];
      var out := AppendValue(dst, x, depth);
      if out.Err? {
        return Err;
      }
      ItemsBehindNext(start, dst, items, i, i + 1);
      assert items[..i + 1] == items[..i] + [x];
      dst := out.value;
      i := i + 1;
    }
    assert items[..i] == items && dst + [] == dst;
    return Ok(dst);
  }

  /** Its loop over map entries. */
  method AppendPairs(start: seq<byte>, v: Value, depth: nat) returns (r: Result<seq<byte>>)
    requires v.Map? && WellFormed(v)
    ensures r == if forall e :: e in v.entries ==> FitsEntry(e, depth) then Ok(start + EncEntries(v.entries)) else Err
    decreases v, 1
  {
    var dst := start;
    var entries := v.entries;
    var i := 0;
    while i < |entries|
      invariant EntriesBehind(start, dst, entries, i)
      invariant forall e :: e in entries[..i] ==> FitsEntry(e, depth)
    {
      var e := entries[i];
      assert WellFormedEntry(e);
      var out := AppendPair(dst, e, depth);
      if out.Err? {
        return Err;
      }
      EntriesBehindNext(start, dst, entries, i, i + 1);
      assert entries[..i + 1] == entries[..i] + [e];
      dst := out.value;
      i := i + 1;
    }
    assert entries[..i] == entries && dst + [] == dst;
    return Ok(dst);
  }

  method AppendPair(dst: seq<byte>, e: Entry, depth: nat) returns (r: Result<seq<byte>>)
    requires WellFormedEntry(e)
    ensures r == if FitsEntry(e, depth) then Ok(dst + EncEntry(e)) else Err
    decreases e, 3
  {
    var k := AppendValue(dst, e.key, depth);
    if k.Err? {
      return Err;
    }
    r := AppendValue(k.value, e.val, depth);
    Associate(dst, Enc(e.key), Enc(e.val));
  }

  /** `encodeValue`. */
  method EncodeValue(v: Value) returns (r: Result<seq<byte>>)
    requires WellFormed(v)
    ensures r == if Fits(v, 0) then Ok(Enc(v)) else Err
    ensures Canonical(v) ==> forall b :: r == Ok(b) <==> Means(b, v) && Nesting(v) <= 16
  {
    if Canonical(v) {
      EncMeans(v);
    }
    r := AppendValue([], v, 0);
    assert [] + Enc(v) == Enc(v);
  }

  // ----- reading -----

  lemma OneByte(x: byte)
    ensures FromBE([x]) == x
  {
  }

  lemma TwoBytes(x: nat, y: nat)
    requires x < 0x100 && y < 0x100
    ensures FromBE([x, y]) == x * 0x100 + y
  {
    assert [x, y][..1] == [x];
    OneByte(x);
  }

  lemma FourBytes(x: nat, y: nat, z: nat, w: nat)
    requires x < 0x100 && y < 0x100 && z < 0x100 && w < 0x100
    ensures FromBE([x, y, z, w]) == x * 0x100_0000 + y * 0x1_0000 + z * 0x100 + w
  {
    TwoBytes(x, y);
    assert [x, y, z, w][..3] == [x, y, z] && [x, y, z][..2] == [x, y];
  }

  /** Major type 7: the three simple values, in their one-byte form. */
  function Simple(ai: nat): Result<Value> {
    match ai
    case 20 => Ok(Bool(false))
    case 21 => Ok(Bool(true))
    case 22 => Ok(Null)
    case _ => Err
  }

  class Decoder {
    const b: seq<byte>
    var pos: nat

    ghost predicate Valid()
      reads this
    {
      pos <= |b| < U64_RANGE
    }

    constructor (b: seq<byte>)
      requires |b| < U64_RANGE
      ensures Valid() && this.b == b && pos == 0
    {
      this.b := b;
      pos := 0;
    }

    /** The argument switch of `value`, after the initial byte. */
    method Argument(major: nat, ai: nat) returns (r: Result<u64>)
      requires Valid() && 1 <= pos && major == b[pos - 1] / 32 && ai == b[pos - 1] % 32
      modifies this`pos
      ensures Valid()
      ensures Agrees(if r.Ok? then Ok(HeadValue(major, r.value)) else Err, ParseHead(b[old(pos) - 1..]), old(pos) - 1, pos)
    {
      ghost var s := b[pos - 1..];
      if ai < 24 {
        return Ok(ai);
      } else if ai == 24 {
        if pos + 1 > |b| {
          return Err;
        }
        var arg := b[pos];
        assert s[1..2] == [arg];
        OneByte(arg);
        pos := pos + 1;
        if arg < 24 {
          return Err;
        }
        return Ok(arg);
      } else if ai == 25 {
        if pos + 2 > |b| {
          return Err;
        }
        var x: nat, y: nat := b[pos], b[pos + 1];
        var arg := x * 0x100 + y;
        assert s[1..3] == [x, y];
        TwoBytes(x, y);
        pos := pos + 2;
        if arg <= 0xff {
          return Err;
        }
        return Ok(arg);
      } else if ai == 26 {
        r := Argument4(s);
      } else if ai == 27 {
        r := Argument8(s);
      } else {
        return Err;
      }
    }

    method Argument4(ghost s: seq<byte>) returns (r: Result<u64>)
      requires Valid() && 1 <= pos && s == b[pos - 1..]
      modifies this`pos
      ensures Valid()
      ensures Agrees(if r.Ok? then Ok(HeadValue(s[0] / 32, r.value)) else Err, ParseArg(s, 4, 0x1_0000), old(pos) - 1, pos)
    {
      if pos + 4 > |b| {
        return Err;
      }
      var x: nat, y: nat, z: nat, w: nat := b[pos], b[pos + 1], b[pos + 2], b[pos + 3];
      var arg := x * 0x100_0000 + y * 0x1_0000 + z * 0x100 + w;
      assert s[1..5] == [x, y, z, w];
      FourBytes(x, y, z, w);
      pos := pos + 4;
      if arg <= 0xffff {
        return Err;
      }
      return Ok(arg);
    }

    method Argument8(ghost s: seq<byte>) returns (r: Result<u64>)
      requires Valid() && 1 <= pos && s == b[pos - 1..]
      modifies this`pos
      ensures Valid()
      ensures Agrees(if r.Ok? then Ok(HeadValue(s[0] / 32, r.value)) else Err, ParseArg(s, 8, 0x1_0000_0000), old(pos) - 1, pos)
    {
      if pos + 8 > |b| {
        return Err;
      }
      var arg: nat := 0;
      for i := 0 to 8
        invariant arg == FromBE(b[pos..pos + i])
      {
        assert b[pos..pos + (i + 1)][..i] == b[pos..pos + i];
        arg := arg * 0x100 + b[pos + i];
      }
      assert s[1..9] == b[pos..pos + 8];
      assert arg == BEu64(s[1..9]);
      pos := pos + 8;
      if arg <= 0xffff_ffff {
        return Err;
      }
      return Ok(arg);
    }

    /** The head of `value`; `ai` is what major type 7 is told apart by. */
    method ReadHead() returns (r: Result<HeadValue>, ai: nat)
      requires Valid()
      modifies this`pos
      ensures Valid()
      ensures Agrees(r, ParseHead(b[old(pos)..]), old(pos), pos)
      ensures r.Ok? ==> if ai < 24 then r.value.arg == ai else r.value.arg >= 24
    {
      if pos >= |b| {
        return Err, 0;
      }
      var first := b[pos];
      pos := pos + 1;
      var major := first / 32;
      ai := first % 32;
      var arg := Argument(major, ai);
      r := if arg.Ok? then Ok(HeadValue(major, arg.value)) else Err;
    }

    /** What both string cases of `value` do. */
    method ReadString(arg: u64) returns (r: Result<seq<byte>>)
      requires Valid()
      modifies this`pos
      ensures Valid()
      ensures r.Ok? <==> arg <= |b| - old(pos)
      ensures r.Ok? ==> r.value == b[old(pos)..][..arg] && pos == old(pos) + arg
    {
      if arg > |b| - pos {
        return Err;
      }
      var s := b[pos..pos + arg];
      assert b[pos..][..arg] == s;
      pos := pos + arg;
      return Ok(s);
    }

    /** `value`. */
    method ReadValue(depth: nat) returns (r: Result<Value>)
      requires Valid()
      modifies this`pos
      ensures Valid()
      ensures Agrees(r, Parse(b[old(pos)..], depth), old(pos), pos)
      decreases if depth > MAX_DEPTH then 0 else MAX_DEPTH + 1 - depth, 1
    {
      if depth > MAX_DEPTH {
        return Err;
      }
      var h, ai := ReadHead();
      if h.Err? {
        return Err;
      }
      ghost var n := pos - old(pos);
      r := ReadBody(h.value, ai, depth, b[old(pos)..], n);
    }

    /** The arms of `value`, behind the head. */
    method ReadBody(h: HeadValue, ai: nat, depth: nat, ghost s: seq<byte>, ghost n: nat) returns (r: Result<Value>)
      requires Valid() && depth <= MAX_DEPTH && n <= pos && s == b[pos - n..] && ParseHead(s) == Got(h, n)
      requires if ai < 24 then h.arg == ai else h.arg >= 24
      modifies this`pos
      ensures Valid()
      ensures Agrees(r, Parse(s, depth), old(pos) - n, pos)
      decreases MAX_DEPTH + 1 - depth, 0
    {
      var HeadValue(major, arg) := h;
      var next := depth + 1;
      ghost var rest := b[pos..];
      assert s[n..] == rest;
      match major {
        case 0 => r := Ok(Uint(arg));
        case 1 => r := Ok(Nint(arg));
        case 2 =>
          var s := ReadString(arg);
          r := if s.Ok? then Ok(Bytes(s.value)) else Err;
        case 3 =>
          var s := ReadString(arg);
          r := if s.Ok? && Utf8(s.value) then Ok(Text(s.value)) else Err;
        case 4 =>
          var items := ReadArray(arg, next);
          r := if items.Ok? then Ok(Array(items.value)) else Err;
        case 5 =>
          var entries := ReadMap(arg, next);
          r := if entries.Ok? then Ok(Map(entries.value)) else Err;
        case 7 => r := Simple(ai);
        case _ => r := Err;
      }
    }

    /** An array's count cannot exceed the bytes left. */
    method ReadArray(arg: u64, depth: nat) returns (r: Result<seq<Value>>)
      requires Valid()
      modifies this`pos
      ensures Valid()
      ensures Agrees(r, ParseItems(b[old(pos)..], arg, depth), old(pos), pos)
      decreases if depth > MAX_DEPTH then 0 else MAX_DEPTH + 1 - depth, 4
    {
      if arg > |b| - pos {
        return Err;
      }
      r := ReadItems(arg, depth);
    }

    /** Nor a map's count half of them. */
    method ReadMap(arg: u64, depth: nat) returns (r: Result<seq<Entry>>)
      requires Valid()
      modifies this`pos
      ensures Valid()
      ensures Agrees(r, ParseEntries(b[old(pos)..], arg, depth, []), old(pos), pos)
      decreases if depth > MAX_DEPTH then 0 else MAX_DEPTH + 1 - depth, 4
    {
      if arg > (|b| - pos) / 2 {
        return Err;
      }
      r := ReadPairs(arg, depth);
    }

    /** The array loop of `value`. */
    method ReadItems(n: nat, depth: nat) returns (r: Result<seq<Value>>)
      requires Valid()
      modifies this`pos
      ensures Valid()
      ensures Agrees(r, ParseItems(b[old(pos)..], n, depth), old(pos), pos)
      decreases if depth > MAX_DEPTH then 0 else MAX_DEPTH + 1 - depth, 3
    {
      var vals: seq<Value> := [];
      ghost var start := pos;
      ItemsStart(b, start, n, depth);
      var i := 0;
      ghost var left := n;
      while i < n
        invariant Valid() && i + left == n && ItemsRead(b, start, n, depth, vals, pos, left)
      {
        ghost var (from, more) := (pos, left);
        left := left - 1;
        var v := ReadValue(depth);
        if v.Err? {
          ItemsStop(b, start, n, depth, vals, from, more);
          return Err;
        }
        ItemsNext(b, start, n, depth, vals, from, more, v.value, pos, left);
        vals := vals + [v.value];
        i := i + 1;
      }
      ItemsDone(b, start, n, depth, vals, pos);
      return Ok(vals);
    }

    /** The map loop of `value`. */
    method ReadPairs(n: nat, depth: nat) returns (r: Result<seq<Entry>>)
      requires Valid()
      modifies this`pos
      ensures Valid()
      ensures Agrees(r, ParseEntries(b[old(pos)..], n, depth, []), old(pos), pos)
      decreases if depth > MAX_DEPTH then 0 else MAX_DEPTH + 1 - depth, 3
    {
      var pairs: seq<Entry> := [];
      var prev: Option<seq<byte>> := None;
      ghost var start := pos;
      EntriesStart(b, start, n, depth);
      var i := 0;
      ghost var left := n;
      while i < n
        invariant Valid() && i + left == n && EntriesRead(b, start, n, depth, pairs, pos, left, Previous(prev))
      {
        ghost var (more, from, above) := (left, pos, Previous(prev));
        left := left - 1;
        var e, keyBytes, raw := ReadPair(depth, prev);
        if e.Err? {
          EntriesStop(b, start, n, depth, pairs, from, more, above);
          return Err;
        }
        prev := Some(keyBytes);
        EntriesNext(b, start, n, depth, pairs, from, more, above, raw, pos, left, keyBytes);
        pairs := pairs + [e.value];
        i := i + 1;
      }
      EntriesDone(b, start, n, depth, pairs, pos, Previous(prev));
      return Ok(pairs);
    }

    /** One turn of that loop: the key is encoded again, and that is compared to the last. */
    method ReadPair(depth: nat, prev: Option<seq<byte>>) returns (r: Result<Entry>, keyBytes: seq<byte>, ghost raw: RawEntry)
      requires Valid()
      modifies this`pos
      ensures Valid()
      ensures r.Err? ==> ParseEntry(b[old(pos)..], depth, Previous(prev)) == Fail
      ensures r.Ok? ==> old(pos) + raw.keyLen <= pos && keyBytes == b[old(pos)..old(pos) + raw.keyLen]
      ensures r.Ok? ==> r.value == raw.entry && ParseEntry(b[old(pos)..], depth, Previous(prev)) == Got(raw, pos - old(pos))
      decreases if depth > MAX_DEPTH then 0 else MAX_DEPTH + 1 - depth, 2
    {
      ghost var s := b[pos..];
      raw := RawEntry(Entry(Null, Null), 0);
      var k := ReadValue(depth);
      if k.Err? {
        return Err, [], raw;
      }
      KeyAgain(s, depth);
      var kb := EncodeValue(k.value);
      if kb.Err? {
        return Err, [], raw;
      }
      keyBytes := kb.value;
      assert keyBytes == s[..pos - old(pos)] && s[|keyBytes|..] == b[pos..];
      if prev.Some? && !Less(prev.value, keyBytes) {
        return Err, [], raw;
      }
      var v := ReadValue(depth);
      if v.Err? {
        return Err, [], raw;
      }
      var e := Entry(k.value, v.value);
      return Ok(e), keyBytes, RawEntry(e, |keyBytes|);
    }
  }

  /** Encoding a key again gives the bytes it was read from. */
  lemma KeyAgain(s: seq<byte>, depth: nat)
    requires |s| < U64_RANGE && Parse(s, depth).Got?
    ensures var Got(k, n) := Parse(s, depth); WellFormed(k) && Fits(k, 0) && Enc(k) == s[..n]
  {
    ParseSound(s, depth);
    FitsAbove(Parse(s, depth).value, depth, 0);
  }

  /** `decodeCBOR`: the Rust decoder's contract, word for word. */
  method DecodeCbor(b: seq<byte>) returns (r: Result<Value>)
    requires |b| < U64_RANGE
    ensures r == Decode(b)
    ensures forall v :: r == Ok(v) <==> Means(b, v) && Nesting(v) <= 16
  {
    DecodeMeans(b);
    var d := new Decoder(b);
    assert b[0..] == b;
    var v := d.ReadValue(0);
    if v.Err? {
      return Err;
    }
    if d.pos != |b| {
      return Err;
    }
    return v;
  }
}
