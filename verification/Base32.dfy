/**
 Lowercase unpadded base32 (section 6 of RFC 4648), as `derive.rs` and `flags.go` compute
 it: one masks its accumulator after every byte, the other lets a 64-bit one wrap. Both
 emit the same text, whose symbols are the five-bit groups of the zero-extended input.
 */
module Base32 {
  import opened Arithmetic
  import opened Bytes
  import opened Blake3Tree

  const ALPHABET: string := "abcdefghijklmnopqrstuvwxyz234567"

  function Letter(i: nat): char
    requires i < 32
  {
    ALPHABET[i]
  }

  /** The letters from `a`, then the digits from `2` to `7`. */
  lemma LetterIs(i: nat)
    requires i < 32
    ensures Letter(i) as int == if i < 26 then 'a' as int + i else '2' as int + (i - 26)
  {
  }

  // ----- dividing by powers of two -----

  lemma Distribute(x: nat, q: nat, p: nat, r: nat, m: nat)
    requires x == q * p + r
    ensures x * m == q * (p * m) + r * m
  {
    assert x * m == q * p * m + r * m;
  }

  lemma Below(r: nat, p: nat, c: nat, m: nat)
    requires r < p && c < m
    ensures r * m + c < p * m
  {
    var s := r + 1;
    MulMono(s, p, m);
  }

  /** A digit added below does not reach what is divided off above it. */
  lemma DivStep(x: nat, p: nat, c: nat, m: nat)
    requires p > 0 && m > 0 && c < m
    ensures (x * m + c) / (p * m) == x / p
    ensures (x * m + c) % (p * m) == x % p * m + c
  {
    var (q, r) := (x / p, x % p);
    DivMod(x, p);
    Distribute(x, q, p, r, m);
    Below(r, p, c, m);
    ModUnique(x * m + c, p * m, q, r * m + c);
  }

  /** What `n` is in base `a`, its last two digits apart. */
  lemma TwoDigits(n: nat, a: nat, b: nat, q: nat, r: nat, r': nat)
    requires a > 0 && b > 0 && n == (q * b + r') * a + r && r < a && r' < b
    ensures n / (b * a) == q && n % (b * a) == r' * a + r
  {
    Distribute(q * b + r', q, b, r', a);
    Below(r', b, r, a);
    ModUnique(n, b * a, q, r' * a + r);
  }

  /** Dividing twice is dividing by the product. */
  lemma DivDiv(x: nat, p: nat, m: nat)
    requires p > 0 && m > 0
    ensures x / p / m == x / (m * p)
  {
    DivMod(x, p);
    DivMod(x / p, m);
    TwoDigits(x, p, m, x / p / m, x % p, x / p % m);
  }

  lemma {:induction false} Pow2Add(a: nat, b: nat)
    ensures Pow2(a + b) == Pow2(a) * Pow2(b)
  {
    if b > 0 {
      Pow2Add(a, b - 1);
      assert Pow2(a + b) == 2 * Pow2(a + b - 1);
    }
  }

  lemma Pow2Values()
    ensures Pow2(0) == 1 && Pow2(1) == 2 && Pow2(2) == 4 && Pow2(3) == 8 && Pow2(4) == 16 && Pow2(5) == 32
    ensures Pow2(8) == 256
  {
    assert Pow2(6) == 64 && Pow2(7) == 128;
  }

  // ----- the text -----

  /** `ceil(8n / 5)`. */
  function SymbolCount(n: nat): nat {
    (8 * n + 4) / 5
  }

  /** The input as a number, shifted left until its bits fill the last symbol. */
  function Extended(b: seq<byte>): nat {
    FromBE(b) * Pow2(5 * SymbolCount(|b|) - 8 * |b|)
  }

  /** Bits `5k` to `5k + 4` of the zero-extended input. */
  function Symbol(b: seq<byte>, k: nat): (s: nat)
    requires k < SymbolCount(|b|)
    ensures s < 32
  {
    Extended(b) / Pow2(5 * (SymbolCount(|b|) - 1 - k)) % 32
  }

  function Base32Text(b: seq<byte>): (t: string)
    ensures |t| == SymbolCount(|b|)
  {
    seq(SymbolCount(|b|), k requires 0 <= k < SymbolCount(|b|) => Letter(Symbol(b, k)))
  }

  /** Section 10 of RFC 4648, in lower case: one byte, "f", is "my". */
  lemma FirstVector()
    ensures Base32Text([0x66]) == "my"
  {
    var b: seq<byte> := [0x66];
    BigEndian(b);
    Pow2Values();
    assert SymbolCount(1) == 2 && Extended(b) == 408;
    assert Symbol(b, 0) == 12 && Symbol(b, 1) == 24;
    LetterIs(12);
    LetterIs(24);
  }

  // ----- the text determines the input -----

  function FromSymbols(s: seq<nat>): nat {
    if s == [] then 0 else 32 * FromSymbols(s[..|s| - 1]) + s[|s| - 1]
  }

  function Symbols(b: seq<byte>): (s: seq<nat>)
    ensures |s| == SymbolCount(|b|)
  {
    seq(SymbolCount(|b|), k requires 0 <= k < SymbolCount(|b|) => Symbol(b, k))
  }

  lemma SymbolAt(b: seq<byte>, k: nat, e: nat)
    requires k < SymbolCount(|b|) && e == 5 * (SymbolCount(|b|) - 1 - k)
    ensures Symbol(b, k) == Extended(b) / Pow2(e) % 32
  {
  }

  lemma FiveMore(e: nat, next: nat)
    requires next == e + 5
    ensures Pow2(next) == 32 * Pow2(e)
  {
    Pow2Add(e, 5);
    Pow2Values();
  }

  lemma DigitCore(v: nat, p: nat, w: nat)
    requires p > 0 && w == 32 * p
    ensures v / p == 32 * (v / w) + v / p % 32
  {
    var u := v / p;
    DivDiv(v, p, 32);
    DivMod(u, 32);
  }

  /** One more digit. */
  lemma DigitStep(v: nat, e: nat, next: nat)
    requires next == e + 5
    ensures v / Pow2(e) == 32 * (v / Pow2(next)) + v / Pow2(e) % 32
  {
    FiveMore(e, next);
    DigitCore(v, Pow2(e), Pow2(next));
  }

  lemma {:induction false} SymbolsPrefix(b: seq<byte>, m: nat, e: nat)
    requires m <= SymbolCount(|b|) && e == 5 * (SymbolCount(|b|) - m)
    ensures FromSymbols(Symbols(b)[..m]) == Extended(b) / Pow2(e)
    decreases m
  {
    if m == 0 {
      ExtendedFits(b, e, 8 * |b|, e - 8 * |b|);
    } else {
      var (k, next) := (m - 1, e + 5);
      SymbolsPrefix(b, k, next);
      assert Symbols(b)[..m][..k] == Symbols(b)[..k];
      SymbolAt(b, k, e);
      DigitStep(Extended(b), e, next);
    }
  }

  lemma ExtendedFits(b: seq<byte>, l: nat, t: nat, pad: nat)
    requires l == 5 * SymbolCount(|b|) && t == 8 * |b| && pad == l - t
    ensures Extended(b) / Pow2(l) == 0
  {
    var n := FromBE(b);
    BEOfFromBE(b);
    Pow256IsPow2(|b|);
    Pow2Add(t, pad);
    ShiftedBelow(n, Pow2(t), Pow2(pad));
  }

  lemma ShiftedBelow(n: nat, p: nat, q: nat)
    requires n < p && q > 0
    ensures n * q / (p * q) == 0
  {
    var m := n + 1;
    MulMono(m, p, q);
    DivUnique(n * q, p * q, 0, n * q);
  }

  lemma {:induction false} Pow256IsPow2(w: nat)
    ensures Pow256(w) == Pow2(8 * w)
  {
    if w > 0 {
      Pow256IsPow2(w - 1);
      Pow2Add(8 * (w - 1), 8);
      Pow2Values();
    }
  }

  /** Read as base 32, the text is the zero-extended input. */
  lemma TextValue(b: seq<byte>)
    ensures FromSymbols(Symbols(b)) == Extended(b)
  {
    var n := SymbolCount(|b|);
    SymbolsPrefix(b, n, 0);
    assert Symbols(b)[..n] == Symbols(b);
  }

  lemma LettersDiffer(i: nat, j: nat)
    requires i < 32 && j < 32 && Letter(i) == Letter(j)
    ensures i == j
  {
    LetterCode(i);
    LetterCode(j);
  }

  lemma LetterCode(i: nat)
    requires i < 32
    ensures Letter(i) as int == if i < 26 then 'a' as int + i else '2' as int + (i - 26)
  {
    assert ALPHABET[..26] == "abcdefghijklmnopqrstuvwxyz" && ALPHABET[26..] == "234567";
  }

  /** Different inputs have different texts. */
  lemma Base32Injective(a: seq<byte>, b: seq<byte>)
    requires Base32Text(a) == Base32Text(b)
    ensures a == b
  {
    assert |a| == |b| by { assert SymbolCount(|a|) == SymbolCount(|b|); }
    forall k | 0 <= k < SymbolCount(|a|)
      ensures Symbols(a)[k] == Symbols(b)[k]
    {
      assert Base32Text(a)[k] == Base32Text(b)[k];
      LettersDiffer(Symbol(a, k), Symbol(b, k));
    }
    assert Symbols(a) == Symbols(b);
    TextValue(a);
    TextValue(b);
    var p := Pow2(5 * SymbolCount(|a|) - 8 * |a|);
    CancelFactor(FromBE(a), FromBE(b), p);
    BEOfFromBE(a);
    BEOfFromBE(b);
  }

  lemma CancelFactor(x: nat, y: nat, p: nat)
    requires p > 0 && x * p == y * p
    ensures x == y
  {
    DivUnique(x * p, p, x, 0);
    DivUnique(y * p, p, y, 0);
  }

  // ----- the loops -----

  /** The five bits of `n` above its lowest `e`. */
  function Five(n: nat, e: nat): (s: nat)
    ensures s < 32
  {
    n / Pow2(e) % 32
  }

  /** `out` has the letters of the first full groups of `n`, a number of `t` bits. */
  ghost predicate Emitted(out: string, n: nat, t: nat) {
    5 * |out| <= t && forall k :: 0 <= k < |out| ==> out[k] == Letter(Five(n, t - 5 * k - 5))
  }

  lemma FiveNext(n: nat, e: nat, c: nat, next: nat)
    requires c < 256 && next == e + 8
    ensures Five(n * 256 + c, next) == Five(n, e)
  {
    Pow2Add(e, 8);
    Pow2Values();
    DivStep(n, Pow2(e), c, 256);
  }

  /** Another byte below leaves the groups already emitted alone. */
  lemma EmittedNext(out: string, n: nat, t: nat, c: nat, n': nat, t': nat)
    requires Emitted(out, n, t) && c < 256 && n' == n * 256 + c && t' == t + 8
    ensures Emitted(out, n', t')
  {
    forall k | 0 <= k < |out|
      ensures out[k] == Letter(Five(n', t' - 5 * k - 5))
    {
      FiveNext(n, t - 5 * k - 5, c, t' - 5 * k - 5);
    }
  }

  lemma ModProduct(n: nat, a: nat, b: nat)
    requires a > 0 && b > 0
    ensures n % (b * a) / a == n / a % b
    ensures n % (b * a) % a == n % a
  {
    var (r, r') := (n % a, n / a % b);
    DivMod(n, a);
    DivMod(n / a, b);
    TwoDigits(n, a, b, n / a / b, r, r');
    ModUnique(r' * a + r, a, r', r);
  }

  lemma WindowCore(n: nat, p: nat, m: nat, rest: nat, w: nat)
    requires p > 0 && rest > 0 && m == 32 * rest && w == p * m
    ensures n % w / p % 32 == n / p % 32
  {
    var q := n / p;
    ModProduct(n, p, m);
    assert m * p == w && rest * 32 == m;
    ModProduct(q, 32, rest);
  }

  /** A group inside the low `w` bits can be read off those bits alone. */
  lemma FiveOfWindow(n: nat, w: nat, e: nat)
    requires e + 5 <= w
    ensures Five(n % Pow2(w), e) == Five(n, e)
  {
    var (above, rest) := (w - e, w - e - 5);
    Pow2Add(e, above);
    FiveMore(rest, above);
    WindowCore(n, Pow2(e), Pow2(above), Pow2(rest), Pow2(w));
  }

  lemma ShrinkCore(n: nat, p: nat, m: nat, w: nat)
    requires p > 0 && m > 0 && w == p * m
    ensures n % w % p == n % p
  {
    ModProduct(n, p, m);
    assert m * p == w;
  }

  lemma WindowShrinks(n: nat, w: nat, e: nat)
    requires e <= w
    ensures n % Pow2(w) % Pow2(e) == n % Pow2(e)
  {
    var above := w - e;
    Pow2Add(e, above);
    ShrinkCore(n, Pow2(e), Pow2(above), Pow2(w));
  }

  /** The inner loop of both: while five bits are held, emit the highest five. */
  method Drain(acc: nat, held: nat, text: string, ghost n: nat, ghost t: nat, ghost w: nat)
    returns (bits: nat, out: string)
    requires acc == n % Pow2(w) && held <= w && held == t - 5 * |text| && Emitted(text, n, t)
    ensures bits < 5 && bits == t - 5 * |out| && Emitted(out, n, t)
  {
    bits, out := held, text;
    while bits >= 5
      invariant bits <= held && bits == t - 5 * |out| && Emitted(out, n, t)
    {
      bits := bits - 5;
      FiveOfWindow(n, w, bits);
      var index := acc / Pow2(bits) % 32;
      out := out + [Letter(index)];
    }
  }

  /** The groups emitted, and the partial one, are the text. */
  lemma EmittedIsText(b: seq<byte>, out: string, n: nat, t: nat, bits: nat, text: string)
    requires n == FromBE(b) && t == 8 * |b| && bits == t - 5 * |out| && bits < 5 && Emitted(out, n, t)
    requires text == if bits > 0 then out + [Letter(n * Pow2(5 - bits) % 32)] else out
    ensures text == Base32Text(b)
  {
    var (l, m) := (SymbolCount(|b|), |out|);
    WholeGroups(b, out, n, t, l);
    GroupCount(|b|, m, bits);
    if bits > 0 {
      PartialGroup(b, m, n, 5 - bits);
    }
    TextOf(b, text);
  }

  /** A group for the bits left over, if there are any. */
  lemma GroupCount(len: nat, m: nat, bits: nat)
    requires bits == 8 * len - 5 * m && bits < 5
    ensures SymbolCount(len) == if bits > 0 then m + 1 else m
  {
  }

  lemma TextOf(b: seq<byte>, text: string)
    requires |text| == SymbolCount(|b|) && forall k :: 0 <= k < |text| ==> text[k] == Letter(Symbol(b, k))
    ensures text == Base32Text(b)
  {
  }

  /** A group emitted whole is a symbol. */
  lemma WholeGroup(b: seq<byte>, out: string, n: nat, t: nat, l: nat, k: nat)
    requires n == FromBE(b) && t == 8 * |b| && Emitted(out, n, t) && l == SymbolCount(|b|) && k < |out| <= l
    ensures out[k] == Letter(Symbol(b, k))
  {
    var pad := 5 * l - t;
    var (e, shifted) := (t - 5 * k - 5, 5 * (l - 1 - k));
    FullGroup(b, k, e, pad, shifted);
  }

  /** So they are the first symbols. */
  lemma WholeGroups(b: seq<byte>, out: string, n: nat, t: nat, l: nat)
    requires n == FromBE(b) && t == 8 * |b| && Emitted(out, n, t) && l == SymbolCount(|b|)
    ensures |out| <= l && forall k :: 0 <= k < |out| ==> out[k] == Letter(Symbol(b, k))
  {
    forall k | 0 <= k < |out|
      ensures out[k] == Letter(Symbol(b, k))
    {
      WholeGroup(b, out, n, t, l, k);
    }
  }

  lemma PartialGroup(b: seq<byte>, k: nat, n: nat, pad: nat)
    requires k < SymbolCount(|b|) && k == SymbolCount(|b|) - 1 && n == FromBE(b) && pad == 5 * SymbolCount(|b|) - 8 * |b|
    ensures Symbol(b, k) == n * Pow2(pad) % 32
  {
    SymbolAt(b, k, 0);
  }

  lemma FullGroup(b: seq<byte>, k: nat, e: nat, pad: nat, shifted: nat)
    requires k < SymbolCount(|b|) && 5 * k + 5 <= 8 * |b| && e == 8 * |b| - 5 * k - 5
    requires pad == 5 * SymbolCount(|b|) - 8 * |b| && shifted == 5 * (SymbolCount(|b|) - 1 - k) && shifted == e + pad
    ensures Symbol(b, k) == Five(FromBE(b), e)
  {
    SymbolAt(b, k, shifted);
    Pow2Add(e, pad);
    ShiftOut(FromBE(b), Pow2(e), Pow2(pad), Extended(b), Pow2(shifted));
  }

  lemma ShiftOut(n: nat, p: nat, m: nat, x: nat, w: nat)
    requires p > 0 && m > 0 && x == n * m && w == p * m
    ensures x / w == n / p
  {
    DivStep(n, p, 0, m);
  }

  lemma NextByte(b: seq<byte>, i: nat)
    requires i < |b|
    ensures FromBE(b[..i + 1]) == FromBE(b[..i]) * 256 + b[i]
  {
    assert b[..i + 1][..i] == b[..i];
  }

  /** What the masking loop holds between bytes: the bits of `n` not yet emitted, and no others. */
  ghost predicate Masked(buffer: nat, bits: nat, out: string, n: nat, t: nat) {
    bits < 5 && bits == t - 5 * |out| && Emitted(out, n, t) && buffer == n % Pow2(bits)
  }

  /** One byte of `base32_lower`. */
  method PushMasked(buffer: u32, bits: nat, text: string, c: byte, ghost n: nat, ghost t: nat, ghost n': nat, ghost t': nat)
    returns (buffer': u32, bits': nat, out: string)
    requires Masked(buffer, bits, text, n, t) && n' == n * 256 + c && t' == t + 8
    ensures Masked(buffer', bits', out, n', t')
  {
    var w := bits + 8;
    ShiftIn(n, bits, c, w, buffer);
    EmittedNext(text, n, t, c, n', t');
    SmallWindow(n, bits, buffer);
    var wide: u32 := buffer * 0x100 + c;
    bits', out := Drain(wide, w, text, n', t', w);
    WindowShrinks(n', w, bits');
    SmallWindow(n', bits', wide % Pow2(bits'));
    buffer' := wide % Pow2(bits');
  }

  /** `base32_lower`: the accumulator keeps only what has not been emitted. */
  method Base32Lower(bytes: seq<byte>) returns (out: string)
    ensures out == Base32Text(bytes)
  {
    out := "";
    var buffer: u32 := 0;
    var bits := 0;
    ghost var n, t := 0, 0;
    for i := 0 to |bytes|
      invariant n == FromBE(bytes[..i]) && t == 8 * i && Masked(buffer, bits, out, n, t)
    {
      NextByte(bytes, i);
      ghost var n': nat := n * 256 + bytes[i];
      ghost var t' := t + 8;
      buffer, bits, out := PushMasked(buffer, bits, out, bytes[i], n, t, n', t');
      n, t := n', t';
    }
    assert bytes[..|bytes|] == bytes;
    ghost var emitted := out;
    if bits > 0 {
      LastGroup(n, bits, bits, buffer);
      var index := buffer * Pow2(5 - bits) % 32;
      out := out + [Letter(index)];
    }
    EmittedIsText(bytes, emitted, n, t, bits, out);
  }

  lemma SmallWindow(n: nat, bits: nat, buffer: nat)
    requires bits < 5 && buffer == n % Pow2(bits)
    ensures buffer < 16
  {
    Pow2Values();
  }

  /** Shifting a byte into a window of `w` bits widens it by eight. */
  lemma ShiftIn(n: nat, bits: nat, c: nat, w: nat, buffer: nat)
    requires c < 256 && w == bits + 8 && buffer == n % Pow2(bits)
    ensures buffer * 256 + c == (n * 256 + c) % Pow2(w)
  {
    EightMore(bits, w);
    DivStep(n, Pow2(bits), c, 256);
  }

  lemma EightMore(bits: nat, w: nat)
    requires w == bits + 8
    ensures Pow2(w) == Pow2(bits) * 256
  {
    Pow2Add(bits, 8);
    Pow2Values();
  }

  /** The partial group, from any window that holds it. */
  lemma LastGroup(n: nat, w: nat, bits: nat, acc: nat)
    requires 0 < bits < 5 && bits <= w && acc == n % Pow2(w)
    ensures acc * Pow2(5 - bits) % 32 == n * Pow2(5 - bits) % 32
  {
    var (a, m) := (Pow2(bits), Pow2(5 - bits));
    Pow2Add(bits, 5 - bits);
    Pow2Values();
    WindowShrinks(n, w, bits);
    ShiftedMod(acc, a, m);
    ShiftedMod(n, a, m);
  }

  lemma ShiftedMod(x: nat, a: nat, m: nat)
    requires a > 0 && m > 0
    ensures x * m % (a * m) == x % a * m
  {
    DivStep(x, a, 0, m);
  }

  /** What the wrapping loop holds between bytes: the low 64 bits of everything so far. */
  ghost predicate Wrapped(acc: nat, bits: nat, out: string, n: nat, t: nat) {
    bits < 5 && bits == t - 5 * |out| && Emitted(out, n, t) && acc == n % Pow2(64)
  }

  /** One byte of `base32LowerNoPad`. */
  method PushWrapping(acc: u64, bits: nat, text: string, c: byte, ghost n: nat, ghost t: nat, ghost n': nat, ghost t': nat)
    returns (acc': u64, bits': nat, out: string)
    requires Wrapped(acc, bits, text, n, t) && n' == n * 256 + c && t' == t + 8
    ensures Wrapped(acc', bits', out, n', t')
  {
    WideWindow();
    WrappingShift(n, c, acc);
    EmittedNext(text, n, t, c, n', t');
    acc' := acc * 0x100 % U64_RANGE + c;
    bits', out := Drain(acc', bits + 8, text, n', t', 64);
  }

  /** `base32LowerNoPad`: the 64-bit accumulator is never masked and simply wraps. */
  method Base32LowerNoPad(b: seq<byte>) returns (out: string)
    ensures out == Base32Text(b)
  {
    out := "";
    var acc: u64 := 0;
    var bits := 0;
    ghost var n, t := 0, 0;
    WideWindow();
    for i := 0 to |b|
      invariant n == FromBE(b[..i]) && t == 8 * i && Wrapped(acc, bits, out, n, t)
    {
      NextByte(b, i);
      ghost var n': nat := n * 256 + b[i];
      ghost var t' := t + 8;
      acc, bits, out := PushWrapping(acc, bits, out, b[i], n, t, n', t');
      n, t := n', t';
    }
    assert b[..|b|] == b;
    ghost var emitted := out;
    if bits > 0 {
      LastGroup(n, 64, bits, acc);
      WrapThenMask(acc, bits);
      var index := acc * Pow2(5 - bits) % U64_RANGE % 32;
      out := out + [Letter(index)];
    }
    EmittedIsText(b, emitted, n, t, bits, out);
  }

  lemma WideWindow()
    ensures Pow2(64) == U64_RANGE
  {
    Widths();
    Pow256IsPow2(8);
  }

  /** The shift drops the top byte, so the freed low byte can be filled in. */
  lemma WrappingShift(n: nat, c: nat, acc: nat)
    requires c < 256 && acc == n % Pow2(64)
    ensures acc * 256 % U64_RANGE + c == (n * 256 + c) % Pow2(64)
  {
    WideWindow();
    ShrinkCore(n, 0x100_0000_0000_0000, 256, U64_RANGE);
    ShiftedMod(acc, 0x100_0000_0000_0000, 256);
    DivStep(n, 0x100_0000_0000_0000, c, 256);
  }

  lemma WrapThenMask(acc: nat, bits: nat)
    ensures bits < 5 ==> acc * Pow2(5 - bits) % U64_RANGE % 32 == acc * Pow2(5 - bits) % 32
  {
    if bits < 5 {
      ModProduct(acc * Pow2(5 - bits), 32, U64_RANGE / 32);
    }
  }
}
