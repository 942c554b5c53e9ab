/** Fixed-offset fields in a byte string: writing them into a buffer and reading them back. */
module Fields {
  import opened Bytes

  /** A zeroed buffer of `n` bytes whose front has been written. */
  function Filled(front: seq<byte>, n: nat): (b: seq<byte>)
    requires |front| <= n
    ensures |b| == n
  {
    front + Zeros(n - |front|)
  }

  /** The writers' `put`: copies the next field into a zeroed buffer. */
  method Put(b: array<byte>, off: nat, src: seq<byte>, ghost front: seq<byte>) returns (ghost next: seq<byte>)
    requires off + |src| <= b.Length && |front| == off && b[..] == Filled(front, b.Length)
    modifies b
    ensures next == front + src && b[..] == Filled(next, b.Length)
  {
    for i := 0 to |src|
      invariant b[..off] == front && b[off..off + i] == src[..i]
      invariant forall k :: off + i <= k < b.Length ==> b[k] == 0
    {
      b[off + i] := src[i];
    }
    next := front + src;
  }

  /** Reserved bytes are skipped: they are zero already. */
  lemma Skip(front: seq<byte>, gap: nat, n: nat)
    requires |front| + gap <= n
    ensures Filled(front + Zeros(gap), n) == Filled(front, n)
  {
  }

  /** The bytes at `off` are `src`. */
  predicate At(b: seq<byte>, off: nat, src: seq<byte>) {
    off + |src| <= |b| && b[off..off + |src|] == src
  }

  /** Reading a little-endian field is having its bytes there. */
  lemma U16Field(b: seq<byte>, off: nat, v: u16)
    requires off + 2 <= |b|
    ensures U16At(b, off) == v <==> At(b, off, LE(v, 2))
  {
    LEOfFromLE(b[off..off + 2]);
    Widths();
    FromLEOfLE(v, 2);
  }

  lemma U32Field(b: seq<byte>, off: nat, v: u32)
    requires off + 4 <= |b|
    ensures U32At(b, off) == v <==> At(b, off, LE(v, 4))
  {
    LEOfFromLE(b[off..off + 4]);
    Widths();
    FromLEOfLE(v, 4);
  }

  lemma U64Field(b: seq<byte>, off: nat, v: u64)
    requires off + 8 <= |b|
    ensures U64At(b, off) == v <==> At(b, off, LE(v, 8))
  {
    LEOfFromLE(b[off..off + 8]);
    Widths();
    FromLEOfLE(v, 8);
  }

  lemma ZeroField(b: seq<byte>, off: nat, n: nat)
    requires off + n <= |b|
    ensures AllZero(b[off..off + n]) <==> At(b, off, Zeros(n))
  {
  }

  lemma BytesField(b: seq<byte>, off: nat, end: nat, field: seq<byte>)
    requires off <= end <= |b| && |field| == end - off
    ensures b[off..end] == field <==> At(b, off, field)
  {
  }

  /** Holding a concatenation is holding its parts, side by side. */
  lemma AtCat(b: seq<byte>, front: seq<byte>, off: nat, field: seq<byte>)
    requires off == |front|
    ensures At(b, 0, front + field) <==> At(b, 0, front) && At(b, off, field)
  {
    var n := |front + field|;
    if At(b, 0, front + field) {
      assert b[0..off] == b[0..n][..off] == front;
      assert b[off..n] == b[0..n][off..] == field;
    }
    if At(b, 0, front) && At(b, off, field) {
      assert b[0..n] == b[0..off] + b[off..n];
    }
  }
}
