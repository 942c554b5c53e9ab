/** Bytes, fixed-width unsigned integers, and their little- and big-endian codings. */
module Bytes {

  type byte = x: int | 0 <= x < 0x100
  type u16 = x: int | 0 <= x < 0x1_0000
  type u32 = x: int | 0 <= x < 0x1_0000_0000
  type u64 = x: int | 0 <= x < 0x1_0000_0000_0000_0000

  const U32_RANGE: nat := 0x1_0000_0000
  const U64_RANGE: nat := 0x1_0000_0000_0000_0000

  const DIGEST_LEN: nat := 32

  /** A 32-byte digest: a chaining value, a section root, a record id. */
  type Digest = d: seq<byte> | |d| == DIGEST_LEN witness seq(DIGEST_LEN, _ => 0)

  datatype Option<+T> = None | Some(value: T)

  /** What a fallible operation returns; the reason for a rejection is not modelled. */
  datatype Result<+T> = Ok(value: T) | Err

  function Min(a: int, b: int): int {
    if a <= b then a else b
  }

  function Zeros(n: nat): (z: seq<byte>)
    ensures |z| == n && forall i :: 0 <= i < n ==> z[i] == 0
  {
    seq(n, _ => 0)
  }

  predicate AllZero(b: seq<byte>) {
    forall i :: 0 <= i < |b| ==> b[i] == 0
  }

  lemma Associate(a: seq<byte>, b: seq<byte>, c: seq<byte>)
    ensures (a + b) + c == a + (b + c)
  {
  }

  lemma SliceOfSlice(b: seq<byte>, start: nat, end: nat, from: nat, to: nat, lo: nat, hi: nat)
    requires from <= to && start <= end <= |b| && start + to <= end && lo == start + from && hi == start + to
    ensures b[start..end][from..to] == b[lo..hi]
  {
  }

  /** The pieces end to end. */
  function Concat(pieces: seq<seq<byte>>): seq<byte> {
    if pieces == [] then [] else Concat(pieces[..|pieces| - 1]) + pieces[|pieces| - 1]
  }

  lemma ConcatNext(pieces: seq<seq<byte>>, x: seq<byte>)
    ensures Concat(pieces + [x]) == Concat(pieces) + x
  {
    assert (pieces + [x])[..|pieces|] == pieces;
  }

  lemma {:induction false} ConcatBoth(a: seq<seq<byte>>, b: seq<seq<byte>>)
    ensures Concat(a + b) == Concat(a) + Concat(b)
  {
    if b == [] {
      assert a + b == a;
    } else {
      var n := |b| - 1;
      var (front, last) := (b[..n], b[n]);
      ConcatBoth(a, front);
      ConcatNext(a + front, last);
      assert a + b == a + front + [last];
      Associate(Concat(a), Concat(front), last);
    }
  }

  lemma ConcatFirst(pieces: seq<seq<byte>>)
    requires pieces != []
    ensures Concat(pieces) == pieces[0] + Concat(pieces[1..])
  {
    assert pieces == [pieces[0]] + pieces[1..];
    ConcatBoth([pieces[0]], pieces[1..]);
    ConcatNext([], pieces[0]);
    assert [] + [pieces[0]] == [pieces[0]];
  }

  /** The bytes of an ASCII literal, such as a map key or a domain label. */
  function Ascii(s: string): (b: seq<byte>)
    ensures |b| == |s|
    ensures forall i :: 0 <= i < |s| ==> b[i] == s[i] as int % 0x100
  {
    seq(|s|, i requires 0 <= i < |s| => s[i] as int % 0x100)
  }

  function Pow256(w: nat): (p: nat)
    ensures p >= 1
  {
    if w == 0 then 1 else 0x100 * Pow256(w - 1)
  }

  lemma Widths()
    ensures Pow256(1) == 0x100
    ensures Pow256(2) == 0x1_0000
    ensures Pow256(4) == U32_RANGE
    ensures Pow256(8) == U64_RANGE
  {
    assert Pow256(3) == 0x100_0000;
    assert Pow256(5) == 0x100_0000_0000;
    assert Pow256(6) == 0x1_0000_0000_0000;
    assert Pow256(7) == 0x100_0000_0000_0000;
  }

  /** The `w` low bytes of `n`, least significant first. */
  function LE(n: nat, w: nat): (b: seq<byte>)
    ensures |b| == w
  {
    if w == 0 then [] else [n % 0x100] + LE(n / 0x100, w - 1)
  }

  function FromLE(b: seq<byte>): nat {
    if b == [] then 0 else b[0] + 0x100 * FromLE(b[1..])
  }

  lemma {:induction false} FromLEOfLE(n: nat, w: nat)
    requires n < Pow256(w)
    ensures FromLE(LE(n, w)) == n
  {
    if w > 0 {
      FromLEOfLE(n / 0x100, w - 1);
      assert LE(n, w)[1..] == LE(n / 0x100, w - 1);
    }
  }

  lemma {:induction false} LEOfFromLE(b: seq<byte>)
    ensures FromLE(b) < Pow256(|b|)
    ensures LE(FromLE(b), |b|) == b
  {
    if b != [] {
      LEOfFromLE(b[1..]);
      assert FromLE(b) / 0x100 == FromLE(b[1..]) && FromLE(b) % 0x100 == b[0];
      assert b == [b[0]] + b[1..];
    }
  }

  /** The `w` low bytes of `n`, most significant first. */
  function BE(n: nat, w: nat): (b: seq<byte>)
    ensures |b| == w
  {
    if w == 0 then [] else BE(n / 0x100, w - 1) + [n % 0x100]
  }

  function FromBE(b: seq<byte>): nat {
    if b == [] then 0 else 0x100 * FromBE(b[..|b| - 1]) + b[|b| - 1]
  }

  lemma {:induction false} FromBEOfBE(n: nat, w: nat)
    requires n < Pow256(w)
    ensures FromBE(BE(n, w)) == n
  {
    if w > 0 {
      FromBEOfBE(n / 0x100, w - 1);
      assert BE(n, w)[..w - 1] == BE(n / 0x100, w - 1);
    }
  }

  lemma {:induction false} BEOfFromBE(b: seq<byte>)
    ensures FromBE(b) < Pow256(|b|)
    ensures BE(FromBE(b), |b|) == b
  {
    if b != [] {
      var k := |b| - 1;
      BEOfFromBE(b[..k]);
      assert FromBE(b) / 0x100 == FromBE(b[..k]) && FromBE(b) % 0x100 == b[k];
      assert b == b[..k] + [b[k]];
    }
  }

  /** Little-endian field readers; the widths make the results fit their types. */
  function U16At(b: seq<byte>, off: nat): u16
    requires off + 2 <= |b|
  {
    LEOfFromLE(b[off..off + 2]);
    Widths();
    FromLE(b[off..off + 2])
  }

  function U32At(b: seq<byte>, off: nat): u32
    requires off + 4 <= |b|
  {
    LEOfFromLE(b[off..off + 4]);
    Widths();
    FromLE(b[off..off + 4])
  }

  function U64At(b: seq<byte>, off: nat): u64
    requires off + 8 <= |b|
  {
    LEOfFromLE(b[off..off + 8]);
    Widths();
    FromLE(b[off..off + 8])
  }

  // ----- what the codings are, digit by digit -----

  lemma LowestDigit(b: seq<byte>, i: nat, next: nat)
    requires i < |b| && next == i + 1
    ensures FromLE(b[i..]) == b[i] + 0x100 * FromLE(b[next..])
  {
    assert b[i..][1..] == b[next..];
  }

  lemma HighestDigit(b: seq<byte>, i: nat, next: nat)
    requires i < |b| && next == i + 1
    ensures FromBE(b[..next]) == 0x100 * FromBE(b[..i]) + b[i]
  {
    assert b[..next][..i] == b[..i];
  }

  /** Little-endian: the first byte counts ones, each later one 256 times more. */
  lemma LittleEndian(b: seq<byte>)
    ensures |b| == 2 ==> FromLE(b) == b[0] as int + 0x100 * b[1] as int
    ensures |b| == 4 ==> FromLE(b) == b[0] as int + 0x100 * b[1] as int + 0x1_0000 * b[2] as int + 0x100_0000 * b[3] as int
    ensures |b| == 8 ==>
      FromLE(b) == b[0] as int + 0x100 * b[1] as int + 0x1_0000 * b[2] as int + 0x100_0000 * b[3] as int + 0x1_0000_0000 * b[4] as int
                   + 0x100_0000_0000 * b[5] as int + 0x1_0000_0000_0000 * b[6] as int + 0x100_0000_0000_0000 * b[7] as int
  {
    assert b[0..] == b && b[|b|..] == [];
    if |b| == 2 || |b| == 4 || |b| == 8 {
      LowestDigit(b, 0, 1);
      LowestDigit(b, 1, 2);
      if |b| > 2 {
        LowestDigit(b, 2, 3);
        LowestDigit(b, 3, 4);
        if |b| > 4 {
          LowestDigit(b, 4, 5);
          LowestDigit(b, 5, 6);
          LowestDigit(b, 6, 7);
          LowestDigit(b, 7, 8);
        }
      }
    }
  }

  /** Big-endian: the last byte counts ones, each earlier one 256 times more. */
  lemma BigEndian(b: seq<byte>)
    ensures |b| == 1 ==> FromBE(b) == b[0] as int
    ensures |b| == 2 ==> FromBE(b) == 0x100 * b[0] as int + b[1] as int
    ensures |b| == 4 ==> FromBE(b) == 0x100_0000 * b[0] as int + 0x1_0000 * b[1] as int + 0x100 * b[2] as int + b[3] as int
    ensures |b| == 8 ==>
      FromBE(b) == 0x100_0000_0000_0000 * b[0] as int + 0x1_0000_0000_0000 * b[1] as int + 0x100_0000_0000 * b[2] as int
                   + 0x1_0000_0000 * b[3] as int + 0x100_0000 * b[4] as int + 0x1_0000 * b[5] as int + 0x100 * b[6] as int + b[7] as int
  {
    assert b[..0] == [] && b[..|b|] == b;
    if |b| == 1 || |b| == 2 || |b| == 4 || |b| == 8 {
      HighestDigit(b, 0, 1);
      if |b| > 1 {
        HighestDigit(b, 1, 2);
        if |b| > 2 {
          HighestDigit(b, 2, 3);
          HighestDigit(b, 3, 4);
          if |b| > 4 {
            HighestDigit(b, 4, 5);
            HighestDigit(b, 5, 6);
            HighestDigit(b, 6, 7);
            HighestDigit(b, 7, 8);
          }
        }
      }
    }
  }

  /** The field readers are little-endian. */
  lemma ReadersAreLittleEndian(b: seq<byte>, off: nat)
    ensures off + 2 <= |b| ==> U16At(b, off) == b[off] as int + 0x100 * b[off + 1] as int
    ensures off + 4 <= |b| ==>
      U32At(b, off) == b[off] as int + 0x100 * b[off + 1] as int + 0x1_0000 * b[off + 2] as int + 0x100_0000 * b[off + 3] as int
    ensures off + 8 <= |b| ==> U64At(b, off) == U32At(b, off) + 0x1_0000_0000 * U32At(b, off + 4)
  {
    if off + 2 <= |b| {
      LittleEndian(b[off..off + 2]);
    }
    if off + 4 <= |b| {
      LittleEndian(b[off..off + 4]);
    }
    if off + 8 <= |b| {
      LittleEndian(b[off..off + 8]);
      LittleEndian(b[off + 4..off + 8]);
    }
  }
}
