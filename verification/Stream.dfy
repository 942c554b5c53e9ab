/**
 Chunked encryption (`SealStream`, `OpenStream`, `stream.rs`): a framing over a
 deterministic AEAD. The framing, the nonces and their relation are here; the two
 implementations' loops are in GoStream and RustStream.
 */
module Stream {
  import opened Arithmetic
  import opened Bytes
  import opened Fields
  import opened ChunkIndex

  const TAG_LEN: nat := 16
  const KEY_LEN: nat := 32
  const STREAM_LABEL: string := "ctf/stream/v1"

  /** An AEAD under one key; nonce and associated data choose the keystream and the tag. */
  datatype Aead = Aead(
    seal: (seq<byte>, seq<byte>, seq<byte>) -> seq<byte>,
    open: (seq<byte>, seq<byte>, seq<byte>) -> Option<seq<byte>>)

  /**
   What is asked of it: the tag adds 16 bytes, and a ciphertext opens to a plaintext exactly
   when it is that plaintext sealed under the same nonce and data.
   */
  ghost predicate Ideal(a: Aead) {
    && (forall n, p, d :: |a.seal(n, p, d)| == |p| + TAG_LEN)
    && forall n, ct, d, p :: a.open(n, ct, d) == Some(p) <==> ct == a.seal(n, p, d)
  }

  /** One section's encryption: the suite, its nonce length, and the record's fields. */
  datatype Config = Config(a: Aead, suite: u16, nonceLen: nat, section: u16, lenPlain: u64)

  ghost predicate Sound(k: Config) {
    Ideal(k.a) && k.nonceLen >= 7
  }

  function NonceLen(suite: u16): nat {
    if suite == 2 then 24 else 12
  }

  // ----- nonces and associated data -----

  /** The section id, zeros, the chunk index big-endian, and the final flag. */
  function Nonce(len: nat, section: u16, index: u32, final: bool): (n: seq<byte>)
    requires len >= 7
    ensures |n| == len
  {
    LE(section, 2) + Zeros(len - 7) + BE(index, 4) + [if final then 1 else 0]
  }

  /** `streamNonce`. */
  method StreamNonce(len: nat, section: u16, index: u32, final: bool) returns (nonce: seq<byte>)
    requires len >= 7
    ensures nonce == Nonce(len, section, index, final)
  {
    var b := new byte[len](_ => 0);
    ghost var front: seq<byte> := [];
    assert b[..] == Filled(front, len);
    front := Put(b, 0, LE(section, 2), front);
    assert front == LE(section, 2);
    Skip(front, len - 7, len);
    front := front + Zeros(len - 7);
    front := Put(b, len - 5, BE(index, 4), front);
    front := Put(b, len - 1, [if final then 1 else 0], front);
    nonce := b[..];
    assert Zeros(0) == [] && front + [] == front;
  }

  function Aad(section: u16, index: u32, lenPlain: u64, suite: u16): seq<byte> {
    Ascii(STREAM_LABEL) + LE(section, 2) + LE(index, 4) + LE(lenPlain, 8) + LE(suite, 2)
  }

  /** The associated data, byte for byte: the label, then section, index, declared length and suite, little-endian. */
  ghost predicate IsAad(d: seq<byte>, section: u16, index: u32, lenPlain: u64, suite: u16) {
    && |d| == 29 && d[..13] == Ascii("ctf/stream/v1") && U16At(d, 13) == section && U32At(d, 15) == index
    && U64At(d, 19) == lenPlain && U16At(d, 27) == suite
  }

  /** The nonce: section little-endian, zeros, index big-endian, and 1 in the last byte of a final chunk's. */
  ghost predicate IsNonce(n: seq<byte>, len: nat, section: u16, index: u32, final: bool) {
    && |n| == len >= 7 && U16At(n, 0) == section && (forall i :: 2 <= i < len - 5 ==> n[i] == 0)
    && 0x100_0000 * n[len - 5] as int + 0x1_0000 * n[len - 4] as int + 0x100 * n[len - 3] as int + n[len - 2] as int == index
    && n[len - 1] == if final then 1 else 0
  }

  lemma AadAt(section: u16, index: u32, lenPlain: u64, suite: u16)
    ensures IsAad(Aad(section, index, lenPlain, suite), section, index, lenPlain, suite)
  {
    var d := Aad(section, index, lenPlain, suite);
    var p1 := Ascii(STREAM_LABEL);
    var p2 := p1 + LE(section, 2);
    var p3 := p2 + LE(index, 4);
    var p4 := p3 + LE(lenPlain, 8);
    assert |p1| == 13 && d[0..29] == d;
    AtCat(d, p1, 13, LE(section, 2));
    AtCat(d, p2, 15, LE(index, 4));
    AtCat(d, p3, 19, LE(lenPlain, 8));
    AtCat(d, p4, 27, LE(suite, 2));
    assert d[..13] == p1;
    AadRead(d, section, index, lenPlain, suite);
  }

  lemma AadRead(d: seq<byte>, section: u16, index: u32, lenPlain: u64, suite: u16)
    requires |d| == 29 && At(d, 13, LE(section, 2)) && At(d, 15, LE(index, 4)) && At(d, 19, LE(lenPlain, 8)) && At(d, 27, LE(suite, 2))
    ensures U16At(d, 13) == section && U32At(d, 15) == index && U64At(d, 19) == lenPlain && U16At(d, 27) == suite
  {
    U16Field(d, 13, section);
    U32Field(d, 15, index);
    U64Field(d, 19, lenPlain);
    U16Field(d, 27, suite);
  }

  /** So it says which section, which chunk, how long the section is, and under which suite. */
  lemma AadInjective(s: u16, i: u32, len: u64, suite: u16, s': u16, i': u32, len': u64, suite': u16)
    requires Aad(s, i, len, suite) == Aad(s', i', len', suite')
    ensures s == s' && i == i' && len == len' && suite == suite'
  {
    AadAt(s, i, len, suite);
    AadAt(s', i', len', suite');
  }

  lemma NonceAt(len: nat, section: u16, index: u32, final: bool)
    requires len >= 7
    ensures IsNonce(Nonce(len, section, index, final), len, section, index, final)
  {
    var n := Nonce(len, section, index, final);
    var be := n[len - 5..len - 1];
    assert n[0..2] == LE(section, 2) && be == BE(index, 4);
    Widths();
    FromLEOfLE(section, 2);
    FromBEOfBE(index, 4);
    BigEndian(be);
  }

  /** A nonce says which section, which chunk, and whether it is the last. */
  lemma NonceInjective(len: nat, s: u16, i: u32, f: bool, s': u16, i': u32, f': bool)
    requires len >= 7 && Nonce(len, s, i, f) == Nonce(len, s', i', f')
    ensures s == s' && i == i' && f == f'
  {
    var (n, n') := (Nonce(len, s, i, f), Nonce(len, s', i', f'));
    assert n[..2] == LE(s, 2) && n'[..2] == LE(s', 2);
    assert n[len - 5..len - 1] == BE(i, 4) && n'[len - 5..len - 1] == BE(i', 4);
    assert n[len - 1] == (if f then 1 else 0) && n'[len - 1] == (if f' then 1 else 0);
    Widths();
    FromLEOfLE(s, 2);
    FromLEOfLE(s', 2);
    FromBEOfBE(i, 4);
    FromBEOfBE(i', 4);
  }

  /** The index as the `uint32` loop counter holds it. */
  function Index32(i: nat): u32 {
    i % U32_RANGE
  }

  /** The nonce of chunk `i`. */
  function ChunkNonce(k: Config, i: nat, final: bool): seq<byte>
    requires k.nonceLen >= 7
  {
    Nonce(k.nonceLen, k.section, Index32(i), final)
  }

  /**
   Under one key, two chunks share a nonce exactly when they are in one section, both or
   neither the last, and their indices agree modulo 2^32.
   */
  lemma NonceReuse(k: Config, k': Config, i: nat, final: bool, i': nat, final': bool)
    requires k.nonceLen == k'.nonceLen >= 7
    ensures ChunkNonce(k, i, final) == ChunkNonce(k', i', final')
      <==> k.section == k'.section && i % U32_RANGE == i' % U32_RANGE && final == final'
  {
    if ChunkNonce(k, i, final) == ChunkNonce(k', i', final') {
      NonceInjective(k.nonceLen, k.section, Index32(i), final, k'.section, Index32(i'), final');
    }
  }

  /** So no nonce repeats within a key while no section exceeds 2^32 chunks. */
  lemma NoncesDistinct(k: Config, k': Config, i: nat, final: bool, i': nat, final': bool)
    requires k.nonceLen == k'.nonceLen >= 7 && i < U32_RANGE && i' < U32_RANGE
    requires (k.section, i, final) != (k'.section, i', final')
    ensures ChunkNonce(k, i, final) != ChunkNonce(k', i', final')
  {
    NonceReuse(k, k', i, final, i', final');
  }

  // ----- frames -----

  /** Chunk `i` sealed, behind its length. */
  function Frame(k: Config, i: nat, final: bool, chunk: seq<byte>): seq<byte>
    requires k.nonceLen >= 7
  {
    var ct := k.a.seal(ChunkNonce(k, i, final), chunk, Aad(k.section, Index32(i), k.lenPlain, k.suite));
    LE(|ct|, 4) + ct
  }

  /** A list of chunks, the first of which has index `i`; the last carries the flag. */
  function Frames(k: Config, i: nat, chunks: seq<seq<byte>>): seq<byte>
    requires k.nonceLen >= 7
    decreases |chunks|
  {
    if chunks == [] then []
    else Frame(k, i, |chunks| == 1, chunks[0]) + Frames(k, i + 1, chunks[1..])
  }

  datatype Opened = Opened(chunk: seq<byte>, len: nat)

  /** One chunk from the front of a body: what both readers do before they look at its length. */
  function OpenFrame(k: Config, i: nat, body: seq<byte>): (r: Option<Opened>)
    requires k.nonceLen >= 7
    ensures r.Some? ==> 4 + TAG_LEN <= r.value.len <= |body|
  {
    if |body| < 4 then None
    else
      var ctLen := U32At(body, 0);
      if ctLen < TAG_LEN || 4 + ctLen > |body| then None
      else
        var final := 4 + ctLen == |body|;
        match k.a.open(ChunkNonce(k, i, final), body[4..4 + ctLen], Aad(k.section, Index32(i), k.lenPlain, k.suite))
        case Some(chunk) => Some(Opened(chunk, 4 + ctLen))
        case None => None
  }

  /** Every chunk of a body that is not empty. */
  function OpenFrames(k: Config, i: nat, body: seq<byte>): Option<seq<seq<byte>>>
    requires k.nonceLen >= 7
    decreases |body|
  {
    match OpenFrame(k, i, body)
    case None => None
    case Some(Opened(chunk, n)) =>
      if n == |body| then Some([chunk])
      else
        match OpenFrames(k, i + 1, body[n..])
        case None => None
        case Some(rest) => Some([chunk] + rest)
  }

  /** Chunks already opened, in front of what the rest of a body opens to. */
  function After(chunks: seq<seq<byte>>, rest: Option<seq<seq<byte>>>): Option<seq<seq<byte>>> {
    match rest
    case None => None
    case Some(more) => Some(chunks + more)
  }

  /** The first frame, in front of the rest. */
  lemma OpenStep(k: Config, i: nat, s: seq<byte>, next: nat, chunk: seq<byte>, n: nat, tail: seq<byte>)
    requires k.nonceLen >= 7 && next == i + 1 && OpenFrame(k, i, s) == Some(Opened(chunk, n)) && tail == s[n..]
    ensures OpenFrames(k, i, s) == if n == |s| then Some([chunk]) else After([chunk], OpenFrames(k, next, tail))
  {
  }

  /** A chunk small enough for its length prefix. */
  predicate Framable(chunk: seq<byte>) {
    |chunk| + TAG_LEN < U32_RANGE
  }

  /** A frame opens to the chunk it seals, if the flag is right for where it ends. */
  lemma OpenOfFrame(k: Config, i: nat, final: bool, chunk: seq<byte>, rest: seq<byte>)
    requires Sound(k) && Framable(chunk) && (final <==> rest == [])
    ensures OpenFrame(k, i, Frame(k, i, final, chunk) + rest) == Some(Opened(chunk, |Frame(k, i, final, chunk)|))
    ensures |Frame(k, i, final, chunk)| == |chunk| + 20
  {
    var (n, d) := (ChunkNonce(k, i, final), Aad(k.section, Index32(i), k.lenPlain, k.suite));
    var ct := k.a.seal(n, chunk, d);
    var body := Frame(k, i, final, chunk) + rest;
    assert |ct| == |chunk| + TAG_LEN;
    assert body[0..4] == LE(|ct|, 4) && body[4..4 + |ct|] == ct;
    Widths();
    FromLEOfLE(|ct|, 4);
    assert k.a.open(n, ct, d) == Some(chunk);
  }

  /** What opens is that frame. */
  lemma FrameOfOpen(k: Config, i: nat, body: seq<byte>)
    requires Sound(k) && OpenFrame(k, i, body).Some?
    ensures var Opened(chunk, n) := OpenFrame(k, i, body).value;
      && Framable(chunk) && body[..n] == Frame(k, i, n == |body|, chunk) && n == |chunk| + 20
  {
    var Opened(chunk, n) := OpenFrame(k, i, body).value;
    var ct := body[4..n];
    assert ct == k.a.seal(ChunkNonce(k, i, n == |body|), chunk, Aad(k.section, Index32(i), k.lenPlain, k.suite));
    LEOfFromLE(body[0..4]);
    assert body[..n] == body[0..4] + ct;
  }

  lemma {:induction false} OpenSound(k: Config, i: nat, body: seq<byte>)
    requires Sound(k) && OpenFrames(k, i, body).Some?
    ensures var chunks := OpenFrames(k, i, body).value;
      chunks != [] && (forall x :: x in chunks ==> Framable(x)) && body == Frames(k, i, chunks)
    decreases |body|
  {
    FrameOfOpen(k, i, body);
    var Opened(chunk, n) := OpenFrame(k, i, body).value;
    var (next, tail) := (i + 1, body[n..]);
    OpenStep(k, i, body, next, chunk, n, tail);
    if n < |body| {
      OpenSound(k, next, tail);
      OpenedBehind(k, i, body, next, chunk, n, OpenFrames(k, next, tail).value);
    } else {
      FramesOne(k, i, chunk);
    }
  }

  lemma OpenedBehind(k: Config, i: nat, body: seq<byte>, next: nat, chunk: seq<byte>, n: nat, rest: seq<seq<byte>>)
    requires k.nonceLen >= 7 && next == i + 1 && n < |body| && body[..n] == Frame(k, i, false, chunk)
    requires rest != [] && body[n..] == Frames(k, next, rest)
    ensures body == Frames(k, i, [chunk] + rest)
  {
    assert body == body[..n] + body[n..];
    FramesNext(k, i, chunk, rest, next);
  }

  lemma FramesOne(k: Config, i: nat, chunk: seq<byte>)
    requires k.nonceLen >= 7
    ensures Frames(k, i, [chunk]) == Frame(k, i, true, chunk)
  {
    assert [chunk][1..] == [];
  }

  lemma FramesNext(k: Config, i: nat, chunk: seq<byte>, rest: seq<seq<byte>>, next: nat)
    requires k.nonceLen >= 7 && rest != [] && next == i + 1
    ensures Frames(k, i, [chunk] + rest) == Frame(k, i, false, chunk) + Frames(k, next, rest)
  {
    assert ([chunk] + rest)[1..] == rest;
  }

  lemma {:induction false} OpenComplete(k: Config, i: nat, chunks: seq<seq<byte>>)
    requires Sound(k) && chunks != [] && forall x :: x in chunks ==> Framable(x)
    ensures OpenFrames(k, i, Frames(k, i, chunks)) == Some(chunks)
    decreases |chunks|
  {
    var (chunk, rest, next) := (chunks[0], chunks[1..], i + 1);
    assert chunks == [chunk] + rest && chunk in chunks;
    if rest == [] {
      assert chunks == [chunk];
      FramesOne(k, i, chunk);
      OpenOfFrame(k, i, true, chunk, []);
      assert Frame(k, i, true, chunk) + [] == Frame(k, i, true, chunk) == Frames(k, i, chunks);
    } else {
      var (frame, tail) := (Frame(k, i, false, chunk), Frames(k, next, rest));
      FramesNext(k, i, chunk, rest, next);
      NonEmptyFrames(k, next, rest);
      OpenOfFrame(k, i, false, chunk, tail);
      OpenComplete(k, next, rest);
      var body := frame + tail;
      assert body[|frame|..] == tail && |frame| < |body|;
      assert OpenFrames(k, next, body[|frame|..]) == Some(rest);
    }
  }

  /** A body opens to a list of chunks exactly when it is their frames: one body per list. */
  lemma OpenIff(k: Config, i: nat, body: seq<byte>, chunks: seq<seq<byte>>)
    requires Sound(k)
    ensures OpenFrames(k, i, body) == Some(chunks) <==>
      chunks != [] && (forall x :: x in chunks ==> Framable(x)) && body == Frames(k, i, chunks)
  {
    if OpenFrames(k, i, body) == Some(chunks) {
      OpenSound(k, i, body);
    }
    if chunks != [] && (forall x :: x in chunks ==> Framable(x)) && body == Frames(k, i, chunks) {
      OpenComplete(k, i, chunks);
    }
  }

  lemma NonEmptyFrames(k: Config, i: nat, chunks: seq<seq<byte>>)
    requires Sound(k)
    ensures Frames(k, i, chunks) == [] <==> chunks == []
  {
  }

  // ----- the chunks of a plaintext -----

  function ChunksOf(p: seq<byte>, cs: nat): (chunks: seq<seq<byte>>)
    requires cs > 0
    ensures |chunks| == ChunkCount(|p|, cs)
    ensures forall i :: 0 <= i < |chunks| ==> chunks[i] == Chunk(p, cs, i)
  {
    seq(ChunkCount(|p|, cs), i requires 0 <= i < ChunkCount(|p|, cs) => Chunk(p, cs, i))
  }

  /** The body of a plaintext: its chunks, framed from index 0. */
  function SealedBody(k: Config, cs: nat, p: seq<byte>): seq<byte>
    requires k.nonceLen >= 7 && cs > 0
  {
    Frames(k, 0, ChunksOf(p, cs))
  }

  /** The length chunk `i` of `len` bytes has. */
  function ChunkLen(len: nat, cs: nat, i: nat): nat {
    if i * cs >= len then 0 else Min(cs, len - i * cs)
  }

  lemma CountBounds(len: nat, cs: nat)
    requires cs > 0
    ensures var n := ChunkCount(len, cs);
      && len <= n * cs && (n > 0 ==> (n - 1) * cs < len)
  {
    var n := ChunkCount(len, cs);
    var r := (len + cs - 1) % cs;
    assert len + cs - 1 == n * cs + r;
    if n > 0 {
      assert (n - 1) * cs == n * cs - cs;
    }
  }

  lemma FullChunk(len: nat, cs: nat, i: nat)
    requires cs > 0 && i + 1 < ChunkCount(len, cs)
    ensures ChunkLen(len, cs, i) == cs && i * cs + cs < len
  {
    var n := ChunkCount(len, cs);
    CountBounds(len, cs);
    MulMono(i + 1, n - 1, cs);
    assert (i + 1) * cs == i * cs + cs;
  }

  /** Chunks of the right lengths join to a prefix of the right length. */
  lemma {:induction false} JoinedPrefix(chunks: seq<seq<byte>>, len: nat, cs: nat, j: nat, at: nat)
    requires cs > 0 && j <= |chunks| == ChunkCount(len, cs) && at == j * cs
    requires forall i :: 0 <= i < |chunks| ==> |chunks[i]| == ChunkLen(len, cs, i)
    ensures |Concat(chunks[..j])| == Min(at, len)
    decreases j
  {
    if j > 0 {
      var i := j - 1;
      Before(j, cs, at, i);
      JoinedPrefix(chunks, len, cs, i, at - cs);
      assert chunks[..j][..i] == chunks[..i];
      CountBounds(len, cs);
      MulMono(i, |chunks| - 1, cs);
    }
  }

  lemma Before(j: nat, cs: nat, at: nat, i: nat)
    requires j > 0 && at == j * cs && i == j - 1
    ensures at >= cs && at - cs == i * cs
  {
  }

  lemma {:induction false} ConcatAt(chunks: seq<seq<byte>>, i: nat)
    requires i < |chunks|
    ensures var start := |Concat(chunks[..i])|;
      start + |chunks[i]| <= |Concat(chunks)| && Concat(chunks)[start..start + |chunks[i]|] == chunks[i]
    decreases |chunks|
  {
    var n := |chunks| - 1;
    if i < n {
      ConcatAt(chunks[..n], i);
      assert chunks[..n][..i] == chunks[..i];
      var start := |Concat(chunks[..i])|;
      PrefixSlice(Concat(chunks[..n]), chunks[n], start, start + |chunks[i]|);
    }
  }

  lemma PrefixSlice(front: seq<byte>, last: seq<byte>, from: nat, to: nat)
    requires from <= to <= |front|
    ensures (front + last)[from..to] == front[from..to]
  {
  }

  /** Chunk `i` of what they join to is the one that was joined there. */
  lemma JoinedAt(chunks: seq<seq<byte>>, len: nat, cs: nat, i: nat, at: nat)
    requires cs > 0 && i < |chunks| == ChunkCount(len, cs) && at == i * cs && |Concat(chunks)| == len
    requires forall i :: 0 <= i < |chunks| ==> |chunks[i]| == ChunkLen(len, cs, i)
    ensures Chunk(Concat(chunks), cs, i) == chunks[i]
  {
    var last := |chunks| - 1;
    JoinedPrefix(chunks, len, cs, i, at);
    ConcatAt(chunks, i);
    CountBounds(len, cs);
    MulMono(i, last, cs);
  }

  /** Chunks of the right number and lengths are the chunks of what they join to. */
  lemma ChunksOfJoined(chunks: seq<seq<byte>>, len: nat, cs: nat)
    requires cs > 0 && |chunks| == ChunkCount(len, cs)
    requires forall i :: 0 <= i < |chunks| ==> |chunks[i]| == ChunkLen(len, cs, i)
    ensures |Concat(chunks)| == len && ChunksOf(Concat(chunks), cs) == chunks
  {
    var n := |chunks|;
    var all := n * cs;
    JoinedPrefix(chunks, len, cs, n, all);
    assert chunks[..n] == chunks;
    CountBounds(len, cs);
    forall i | 0 <= i < n
      ensures Chunk(Concat(chunks), cs, i) == chunks[i]
    {
      var at := i * cs;
      JoinedAt(chunks, len, cs, i, at);
    }
  }

  /** And the chunks of a plaintext have them. */
  lemma LengthsOfChunks(p: seq<byte>, cs: nat)
    requires cs > 0
    ensures forall i :: 0 <= i < ChunkCount(|p|, cs) ==> |ChunksOf(p, cs)[i]| == ChunkLen(|p|, cs, i)
    ensures Concat(ChunksOf(p, cs)) == p
  {
    var chunks := ChunksOf(p, cs);
    CountBounds(|p|, cs);
    forall i | 0 <= i < |chunks|
      ensures |chunks[i]| == ChunkLen(|p|, cs, i)
    {
      MulMono(i, |chunks| - 1, cs);
    }
    ChunksOfJoined(chunks, |p|, cs);
    var q := Concat(chunks);
    forall o | 0 <= o < |p|
      ensures q[o] == p[o]
    {
      SameByteOfChunks(p, q, cs, o);
    }
  }

  /** Every offset lies in one chunk. */
  lemma ChunkOfByte(len: nat, cs: nat, o: nat) returns (i: nat, start: nat)
    requires cs > 0 && o < len
    ensures i < ChunkCount(len, cs) && start == i * cs && start <= o < start + cs
  {
    i := o / cs;
    start := i * cs;
    assert o == start + o % cs;
    CountBounds(len, cs);
    var n := ChunkCount(len, cs);
    if i >= n {
      MulMono(n, i, cs);
    }
  }

  lemma SameByteOfChunks(p: seq<byte>, q: seq<byte>, cs: nat, o: nat)
    requires cs > 0 && |p| == |q| && o < |p| && ChunksOf(p, cs) == ChunksOf(q, cs)
    ensures p[o] == q[o]
  {
    var i, start := ChunkOfByte(|p|, cs, o);
    assert ChunksOf(p, cs)[i] == ChunksOf(q, cs)[i];
    assert p[o] == Chunk(p, cs, i)[o - start] && q[o] == Chunk(q, cs, i)[o - start];
  }

  // ----- reading chunk by chunk -----

  lemma AfterNext(chunks: seq<seq<byte>>, chunk: seq<byte>, rest: Option<seq<seq<byte>>>)
    ensures After(chunks, After([chunk], rest)) == After(chunks + [chunk], rest)
  {
    if rest.Some? {
      assert chunks + ([chunk] + rest.value) == chunks + [chunk] + rest.value;
    }
  }

  lemma AfterHolds(chunks: seq<seq<byte>>, chunk: seq<byte>, rest: Option<seq<seq<byte>>>)
    requires After(chunks + [chunk], rest).Some?
    ensures var whole := After(chunks + [chunk], rest).value; |whole| > |chunks| && whole[|chunks|] == chunk
  {
  }

  /** The reader stands at `pos` with `chunks` read: the whole body gives them and what is left. */
  ghost predicate Standing(k: Config, body: seq<byte>, chunks: seq<seq<byte>>, i: nat, pos: nat)
    requires k.nonceLen >= 7
  {
    pos < |body| && OpenFrames(k, 0, body) == After(chunks, OpenFrames(k, i, body[pos..]))
  }

  /** A frame that does not open is the end of it. */
  lemma OpenStop(k: Config, body: seq<byte>, i: nat, pos: nat, chunks: seq<seq<byte>>)
    requires k.nonceLen >= 7 && Standing(k, body, chunks, i, pos) && OpenFrame(k, i, body[pos..]).None?
    ensures OpenFrames(k, 0, body).None?
  {
  }

  /** One that does is the next chunk, and the last if nothing is behind it. */
  lemma OpenTurn(k: Config, body: seq<byte>, i: nat, pos: nat, chunks: seq<seq<byte>>, next: nat, o: Opened, to: nat)
    requires k.nonceLen >= 7 && Standing(k, body, chunks, i, pos) && next == i + 1
    requires OpenFrame(k, i, body[pos..]) == Some(o) && to == pos + o.len
    ensures to <= |body|
    ensures to == |body| ==> OpenFrames(k, 0, body) == Some(chunks + [o.chunk])
    ensures to < |body| ==> Standing(k, body, chunks + [o.chunk], next, to)
    ensures OpenFrames(k, 0, body).Some? ==>
      var whole := OpenFrames(k, 0, body).value; |whole| > |chunks| && whole[|chunks|] == o.chunk
  {
    var (s, tail) := (body[pos..], body[to..]);
    assert s[o.len..] == tail;
    OpenStep(k, i, s, next, o.chunk, o.len, tail);
    var rest := if to == |body| then Some([]) else OpenFrames(k, next, tail);
    assert chunks + [o.chunk] + [] == chunks + [o.chunk];
    AfterNext(chunks, o.chunk, rest);
    assert OpenFrames(k, 0, body) == After(chunks + [o.chunk], rest);
    if rest.Some? {
      AfterHolds(chunks, o.chunk, rest);
    }
  }
}
