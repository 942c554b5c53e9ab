/** The Rust reader of canonical CBOR (`cbor.rs`): a cursor over the input, which follows the grammar. */
module CborRust {
  import opened Bytes
  import opened Cbor
  import opened CborWire
  import opened CborSteps

  class Decoder {
    const b: seq<byte>
    var pos: nat

    ghost predicate Valid()
      reads this
    {
      pos <= |b| < U64_RANGE
    }

    constructor (b: seq<byte>)
      requires |b| < U64_RANGE
      ensures Valid() && this.b == b && pos == 0
    {
      this.b := b;
      pos := 0;
    }

    method Byte() returns (r: Result<byte>)
      requires Valid()
      modifies this`pos
      ensures Valid()
      ensures r == if old(pos) < |b| then Ok(b[old(pos)]) else Err
      ensures r.Ok? ==> pos == old(pos) + 1
    {
      if pos >= |b| {
        return Err;
      }
      r := Ok(b[pos]);
      pos := pos + 1;
    }

    method Take(n: u64) returns (r: Result<seq<byte>>)
      requires Valid()
      modifies this`pos
      ensures Valid()
      ensures r == if old(pos) + n <= |b| then Ok(b[old(pos)..old(pos) + n]) else Err
      ensures r.Ok? ==> pos == old(pos) + n
    {
      var end := pos + n;
      if end >= U64_RANGE || end > |b| {
        return Err;
      }
      r := Ok(b[pos..end]);
      pos := end;
    }

    /** The `w`-byte argument of `head`, rejected unless shortest. */
    method Arg(major: nat, w: nat, least: nat) returns (r: Result<HeadValue>)
      requires Valid() && 1 <= w <= 8 && pos >= 1 && major == b[pos - 1] / 32
      modifies this`pos
      ensures Valid()
      ensures Agrees(r, ParseArg(b[old(pos) - 1..], w, least), old(pos) - 1, pos)
    {
      var s := Take(w);
      if s.Err? {
        return Err;
      }
      assert b[old(pos) - 1..][1..1 + w] == s.value;
      var v := BEu64(s.value);
      if v < least {
        return Err;
      }
      return Ok(HeadValue(major, v));
    }

    /** `head`. */
    method ReadHead() returns (r: Result<HeadValue>)
      requires Valid()
      modifies this`pos
      ensures Valid()
      ensures Agrees(r, ParseHead(b[old(pos)..]), old(pos), pos)
    {
      var ib := Byte();
      if ib.Err? {
        return Err;
      }
      var major := ib.value / 32;
      var ai := ib.value % 32;
      if ai <= 23 {
        return Ok(HeadValue(major, ai));
      } else if ai == 24 {
        r := Arg(major, 1, 24);
      } else if ai == 25 {
        r := Arg(major, 2, 0x100);
      } else if ai == 26 {
        r := Arg(major, 4, 0x1_0000);
      } else if ai == 27 {
        r := Arg(major, 8, 0x1_0000_0000);
      } else {
        return Err;
      }
    }

    /** `value`. */
    method ReadValue(depth: nat) returns (r: Result<Value>)
      requires Valid()
      modifies this`pos
      ensures Valid()
      ensures Agrees(r, Parse(b[old(pos)..], depth), old(pos), pos)
      decreases if depth > MAX_DEPTH then 0 else MAX_DEPTH + 1 - depth, 1
    {
      if depth > MAX_DEPTH {
        return Err;
      }
      var h := ReadHead();
      if h.Err? {
        return Err;
      }
      ghost var n := pos - old(pos);
      r := ReadBody(h.value, depth, b[old(pos)..], n);
    }

    /** The arms of `value`, behind the head. */
    method ReadBody(h: HeadValue, depth: nat, ghost s: seq<byte>, ghost n: nat) returns (r: Result<Value>)
      requires Valid() && depth <= MAX_DEPTH && n <= pos && s == b[pos - n..] && ParseHead(s) == Got(h, n)
      modifies this`pos
      ensures Valid()
      ensures Agrees(r, Parse(s, depth), old(pos) - n, pos)
      decreases MAX_DEPTH + 1 - depth, 0
    {
      var HeadValue(major, arg) := h;
      var next := depth + 1;
      ghost var rest := b[pos..];
      assert s[n..] == rest;
      match major {
        case 0 => r := Ok(Uint(arg));
        case 1 => r := Ok(Nint(arg));
        case 2 =>
          var s := Take(arg);
          assert s.Ok? ==> rest[..arg] == s.value;
          r := if s.Ok? then Ok(Bytes(s.value)) else Err;
        case 3 =>
          var s := Take(arg);
          assert s.Ok? ==> rest[..arg] == s.value;
          r := if s.Ok? && Utf8(s.value) then Ok(Text(s.value)) else Err;
        case 4 =>
          var items := ReadItems(arg, next);
          r := if items.Ok? then Ok(Array(items.value)) else Err;
        case 5 =>
          var entries := ReadEntries(arg, next);
          r := if entries.Ok? then Ok(Map(entries.value)) else Err;
        case 7 =>
          r := if arg == 20 || arg == 21 then Ok(Bool(arg == 21)) else if arg == 22 then Ok(Null) else Err;
        case _ => r := Err;
      }
    }

    /** The loop of `value` over array items. */
    method ReadItems(count: u64, depth: nat) returns (r: Result<seq<Value>>)
      requires Valid()
      modifies this`pos
      ensures Valid()
      ensures Agrees(r, ParseItems(b[old(pos)..], count, depth), old(pos), pos)
      decreases if depth > MAX_DEPTH then 0 else MAX_DEPTH + 1 - depth, 3
    {
      var items: seq<Value> := [];
      var left: nat := count;
      ghost var start := pos;
      ItemsStart(b, start, count, depth);
      while left > 0
        invariant Valid() && ItemsRead(b, start, count, depth, items, pos, left)
      {
        ghost var (from, more) := (pos, left);
        left := left - 1;
        var v := ReadValue(depth);
        if v.Err? {
          ItemsStop(b, start, count, depth, items, from, more);
          return Err;
        }
        ItemsNext(b, start, count, depth, items, from, more, v.value, pos, left);
        items := items + [v.value];
      }
      ItemsDone(b, start, count, depth, items, pos);
      return Ok(items);
    }

    /** The loop of `value` over map entries. */
    method ReadEntries(count: u64, depth: nat) returns (r: Result<seq<Entry>>)
      requires Valid()
      modifies this`pos
      ensures Valid()
      ensures Agrees(r, ParseEntries(b[old(pos)..], count, depth, []), old(pos), pos)
      decreases if depth > MAX_DEPTH then 0 else MAX_DEPTH + 1 - depth, 3
    {
      var entries: seq<Entry> := [];
      var prevKey: Option<seq<byte>> := None;
      var left: nat := count;
      ghost var start := pos;
      EntriesStart(b, start, count, depth);
      while left > 0
        invariant Valid() && EntriesRead(b, start, count, depth, entries, pos, left, Previous(prevKey))
      {
        ghost var (more, prev) := (left, Previous(prevKey));
        left := left - 1;
        var keyStart := pos;
        var e := ReadEntry(depth, prevKey);
        if e.Err? {
          EntriesStop(b, start, count, depth, entries, keyStart, more, prev);
          return Err;
        }
        var raw := e.value;
        prevKey := Some(b[keyStart..keyStart + raw.keyLen]);
        EntriesNext(b, start, count, depth, entries, keyStart, more, prev, raw, pos, left, prevKey.value);
        entries := entries + [raw.entry];
      }
      EntriesDone(b, start, count, depth, entries, pos, Previous(prevKey));
      return Ok(entries);
    }

    /** One turn of that loop: a key, compared to the last one as raw bytes, and its value. */
    method ReadEntry(depth: nat, prevKey: Option<seq<byte>>) returns (r: Result<RawEntry>)
      requires Valid()
      modifies this`pos
      ensures Valid()
      ensures Agrees(r, ParseEntry(b[old(pos)..], depth, Previous(prevKey)), old(pos), pos)
      decreases if depth > MAX_DEPTH then 0 else MAX_DEPTH + 1 - depth, 2
    {
      var keyStart := pos;
      var k := ReadValue(depth);
      if k.Err? {
        return Err;
      }
      var keyLen := pos - keyStart;
      var keyBytes := b[keyStart..pos];
      assert keyBytes == b[keyStart..][..keyLen] && b[keyStart..][keyLen..] == b[pos..];
      if prevKey.Some? && !Less(prevKey.value, keyBytes) {
        return Err;
      }
      var v := ReadValue(depth);
      if v.Err? {
        return Err;
      }
      return Ok(RawEntry(Entry(k.value, v.value), keyLen));
    }
  }

  /** `Value::decode`. */
  method DecodeValue(b: seq<byte>) returns (r: Result<Value>)
    requires |b| < U64_RANGE
    ensures r == Decode(b)
    ensures forall v :: r == Ok(v) <==> Means(b, v) && Nesting(v) <= 16
  {
    DecodeMeans(b);
    var d := new Decoder(b);
    assert b[0..] == b;
    var v := d.ReadValue(0);
    if v.Err? {
      return Err;
    }
    if d.pos != |b| {
      return Err;
    }
    return v;
  }
}
