/**
 What the nonces and the associated data bind. Chunks sealed under one key, cut from any of
 its bodies and put together in any order, open only as one whole body, in order, under the
 section, length and suite it was sealed for.
 */
module StreamBinding {
  import opened Bytes
  import opened ChunkIndex
  import opened Stream

  // ----- where each frame of a body is -----

  /** `frame` is chunk `j` of `n`, sealed with the nonce and the data of its place, behind its length. */
  ghost predicate IsFrame(k: Config, j: nat, final: bool, chunk: seq<byte>, frame: seq<byte>) {
    && |frame| == |chunk| + 20 && U32At(frame, 0) == |chunk| + 16
    && exists nonce, aad ::
         && IsNonce(nonce, k.nonceLen, k.section, j % U32_RANGE, final)
         && IsAad(aad, k.section, j % U32_RANGE, k.lenPlain, k.suite)
         && frame[4..] == k.a.seal(nonce, chunk, aad)
  }

  lemma FrameIs(k: Config, j: nat, final: bool, chunk: seq<byte>)
    requires Sound(k) && Framable(chunk)
    ensures IsFrame(k, j, final, chunk, Frame(k, j, final, chunk))
  {
    var (nonce, aad) := (ChunkNonce(k, j, final), Aad(k.section, Index32(j), k.lenPlain, k.suite));
    var (ct, frame) := (k.a.seal(nonce, chunk, aad), Frame(k, j, final, chunk));
    NonceAt(k.nonceLen, k.section, Index32(j), final);
    AadAt(k.section, Index32(j), k.lenPlain, k.suite);
    assert frame[0..4] == LE(|ct|, 4) && frame[4..] == ct;
    Widths();
    FromLEOfLE(|ct|, 4);
  }

  /** The frames of any chunks, whatever their lengths. */
  function FrameList(k: Config, i: nat, chunks: seq<seq<byte>>): (frames: seq<seq<byte>>)
    requires k.nonceLen >= 7
    ensures |frames| == |chunks|
    decreases |chunks|
  {
    if chunks == [] then [] else [Frame(k, i, |chunks| == 1, chunks[0])] + FrameList(k, i + 1, chunks[1..])
  }

  lemma {:induction false} FramesJoin(k: Config, i: nat, chunks: seq<seq<byte>>)
    requires k.nonceLen >= 7
    ensures Concat(FrameList(k, i, chunks)) == Frames(k, i, chunks)
    decreases |chunks|
  {
    if chunks != [] {
      FramesJoin(k, i + 1, chunks[1..]);
      ConcatFirst(FrameList(k, i, chunks));
    }
  }

  lemma {:induction false} FrameListAt(k: Config, i: nat, chunks: seq<seq<byte>>, j: nat, pos: nat, final: bool)
    requires k.nonceLen >= 7 && j < |chunks| && pos == i + j && (final <==> j == |chunks| - 1)
    ensures FrameList(k, i, chunks)[j] == Frame(k, pos, final, chunks[j])
    decreases j
  {
    if j > 0 {
      FrameListAt(k, i + 1, chunks[1..], j - 1, pos, final);
    }
  }

  /** A body is one frame after the other, each sealed for its place. */
  lemma FramesAre(k: Config, chunks: seq<seq<byte>>)
    requires Sound(k) && forall j :: 0 <= j < |chunks| ==> Framable(chunks[j])
    ensures var frames := FrameList(k, 0, chunks);
      && Frames(k, 0, chunks) == Concat(frames)
      && forall j :: 0 <= j < |chunks| ==> IsFrame(k, j, j == |chunks| - 1, chunks[j], frames[j])
  {
    FramesJoin(k, 0, chunks);
    forall j | 0 <= j < |chunks|
      ensures IsFrame(k, j, j == |chunks| - 1, chunks[j], FrameList(k, 0, chunks)[j])
    {
      FrameListAt(k, 0, chunks, j, j, j == |chunks| - 1);
      FrameIs(k, j, j == |chunks| - 1, chunks[j]);
    }
  }

  /** What comes before chunk `j`: as many full frames. */
  lemma {:induction false} FramesBefore(k: Config, chunks: seq<seq<byte>>, cs: nat, j: nat, at: nat) returns (front: seq<byte>)
    requires Sound(k) && j < |chunks| && at == j * (cs + 20)
    requires forall i :: 0 <= i < |chunks| - 1 ==> |chunks[i]| == cs
    ensures Frames(k, 0, chunks) == front + Frames(k, j, chunks[j..]) && |front| == at
    decreases j
  {
    if j == 0 {
      front := [];
      assert chunks[0..] == chunks && [] + Frames(k, 0, chunks) == Frames(k, 0, chunks);
    } else {
      var (i, before) := (j - 1, at - (cs + 20));
      BeforeIt(j, cs, at, i, before);
      var front' := FramesBefore(k, chunks, cs, i, before);
      var frame := FirstFrame(k, chunks, i, j);
      front := front' + frame;
      Associate(front', frame, Frames(k, j, chunks[j..]));
    }
  }

  lemma BeforeIt(j: nat, cs: nat, at: nat, i: nat, before: int)
    requires j == i + 1 && at == j * (cs + 20) && before == at - (cs + 20)
    ensures before >= 0 && before == i * (cs + 20)
  {
  }

  /** The first of the frames from chunk `i` on. */
  lemma FirstFrame(k: Config, chunks: seq<seq<byte>>, i: nat, next: nat) returns (frame: seq<byte>)
    requires Sound(k) && i < |chunks| && next == i + 1
    ensures frame == Frame(k, i, next == |chunks|, chunks[i]) && |frame| == |chunks[i]| + 20
    ensures Frames(k, i, chunks[i..]) == frame + Frames(k, next, chunks[next..])
  {
    frame := Frame(k, i, next == |chunks|, chunks[i]);
    assert chunks[i..][1..] == chunks[next..];
  }

  lemma FullChunks(p: seq<byte>, cs: nat)
    requires cs > 0
    ensures forall i :: 0 <= i < ChunkCount(|p|, cs) - 1 ==> |ChunksOf(p, cs)[i]| == cs
  {
    LengthsOfChunks(p, cs);
    forall i | 0 <= i < ChunkCount(|p|, cs) - 1
      ensures |ChunksOf(p, cs)[i]| == cs
    {
      FullChunk(|p|, cs, i);
    }
  }

  /** Chunk `j` of a body is at `j * (cs + 20)`: length, ciphertext, tag. */
  lemma FrameInBody(k: Config, cs: nat, p: seq<byte>, j: nat, at: nat, to: nat)
    requires Sound(k) && LegalChunkSize(cs) && j < ChunkCount(|p|, cs) && at == j * (cs + 20)
    requires to == at + 20 + |Chunk(p, cs, j)|
    ensures to <= |SealedBody(k, cs, p)| && (j == ChunkCount(|p|, cs) - 1 ==> to == |SealedBody(k, cs, p)|)
    ensures IsFrame(k, j, j == ChunkCount(|p|, cs) - 1, Chunk(p, cs, j), SealedBody(k, cs, p)[at..to])
  {
    FullChunks(p, cs);
    LengthsOfChunks(p, cs);
    FrameAmong(k, ChunksOf(p, cs), cs, j, j + 1, at, to);
  }

  lemma FrameAmong(k: Config, chunks: seq<seq<byte>>, cs: nat, j: nat, next: nat, at: nat, to: nat)
    requires Sound(k) && j < |chunks| && next == j + 1 && at == j * (cs + 20) && to == at + 20 + |chunks[j]|
    requires (forall i :: 0 <= i < |chunks| - 1 ==> |chunks[i]| == cs) && Framable(chunks[j])
    ensures to <= |Frames(k, 0, chunks)| && (next == |chunks| ==> to == |Frames(k, 0, chunks)|)
    ensures IsFrame(k, j, next == |chunks|, chunks[j], Frames(k, 0, chunks)[at..to])
  {
    var front := FramesBefore(k, chunks, cs, j, at);
    var frame := FirstFrame(k, chunks, j, next);
    var (tail, body) := (Frames(k, next, chunks[next..]), Frames(k, 0, chunks));
    assert next == |chunks| ==> tail == [] by {
      assert next == |chunks| ==> chunks[next..] == [];
    }
    Between(body, front, frame, tail, at, to);
    FrameIs(k, j, next == |chunks|, chunks[j]);
  }

  lemma Between(body: seq<byte>, front: seq<byte>, middle: seq<byte>, tail: seq<byte>, at: nat, to: nat)
    requires body == front + (middle + tail) && at == |front| && to == at + |middle|
    ensures to <= |body| && body[at..to] == middle && (tail == [] ==> to == |body|)
  {
  }

  // ----- pieces -----

  /** One chunk as it was sealed, with the stream it was sealed in. */
  datatype Piece = Piece(k: Config, i: u32, final: bool, chunk: seq<byte>)

  function PieceNonce(x: Piece): seq<byte>
    requires x.k.nonceLen >= 7
  {
    ChunkNonce(x.k, x.i, x.final)
  }

  function PieceAad(x: Piece): seq<byte> {
    Aad(x.k.section, Index32(x.i), x.k.lenPlain, x.k.suite)
  }

  /**
   The AEAD binds what was sealed to its nonce and its associated data: this ciphertext opens
   under no others. Asked of the ciphertexts at hand, as no function keeps all of them apart.
   */
  ghost predicate Bound(x: Piece)
    requires x.k.nonceLen >= 7
  {
    forall n, d :: x.k.a.open(n, x.k.a.seal(PieceNonce(x), x.chunk, PieceAad(x)), d).Some? ==> n == PieceNonce(x) && d == PieceAad(x)
  }

  /** Sealed under this AEAD, and bound. */
  ghost predicate Genuine(a: Aead, x: Piece) {
    x.k.a == a && Sound(x.k) && Framable(x.chunk) && Bound(x)
  }

  ghost predicate AllGenuine(a: Aead, xs: seq<Piece>) {
    forall t :: 0 <= t < |xs| ==> Genuine(a, xs[t])
  }

  /** The frames of the pieces, end to end. */
  function Spliced(xs: seq<Piece>): seq<byte>
    requires forall t :: 0 <= t < |xs| ==> xs[t].k.nonceLen >= 7
  {
    if xs == [] then [] else Frame(xs[0].k, xs[0].i, xs[0].final, xs[0].chunk) + Spliced(xs[1..])
  }

  /** The piece belongs at position `i` of this stream, and says rightly whether it ends it. */
  predicate InPlace(k: Config, x: Piece, i: nat, last: bool) {
    && x.k.section == k.section && x.k.lenPlain == k.lenPlain && x.k.suite == k.suite
    && x.i == i % U32_RANGE && x.final == last
  }

  lemma OpensInPlace(k: Config, i: nat, x: Piece, rest: seq<byte>)
    requires Sound(k) && Genuine(k.a, x)
    requires OpenFrame(k, i, Frame(x.k, x.i, x.final, x.chunk) + rest).Some?
    ensures InPlace(k, x, i, rest == [])
    ensures OpenFrame(k, i, Frame(x.k, x.i, x.final, x.chunk) + rest).value.len == |Frame(x.k, x.i, x.final, x.chunk)|
  {
    var ct := k.a.seal(PieceNonce(x), x.chunk, PieceAad(x));
    var body := Frame(x.k, x.i, x.final, x.chunk) + rest;
    assert body[0..4] == LE(|ct|, 4) && body[4..4 + |ct|] == ct;
    Widths();
    FromLEOfLE(|ct|, 4);
    var final := rest == [];
    assert k.a.open(ChunkNonce(k, i, final), ct, Aad(k.section, Index32(i), k.lenPlain, k.suite)).Some?;
    NonceInjective(k.nonceLen, k.section, Index32(i), final, x.k.section, Index32(x.i), x.final);
    AadInjective(k.section, Index32(i), k.lenPlain, k.suite, x.k.section, Index32(x.i), x.k.lenPlain, x.k.suite);
  }

  lemma SplicedEmpty(a: Aead, xs: seq<Piece>)
    requires AllGenuine(a, xs)
    ensures Spliced(xs) == [] <==> xs == []
  {
  }

  /** The first piece of some that open is in place, and the rest open behind it. */
  lemma FirstInPlace(k: Config, i: nat, x: Piece, rest: seq<Piece>, next: nat, last: bool, only: bool)
    requires only ==> last == (rest == [])
    requires Sound(k) && Genuine(k.a, x) && AllGenuine(k.a, rest) && next == i + 1
    requires OpenFrames(k, i, Frame(x.k, x.i, x.final, x.chunk) + Spliced(rest)).Some?
    ensures only ==> InPlace(k, x, i, last)
    ensures rest != [] ==> OpenFrames(k, next, Spliced(rest)).Some?
  {
    var (frame, tail) := (Frame(x.k, x.i, x.final, x.chunk), Spliced(rest));
    SplicedEmpty(k.a, rest);
    OpensInPlace(k, i, x, tail);
    assert (frame + tail)[|frame|..] == tail;
  }

  /** Pieces open only where each was sealed to stand, the last and no other with the final flag. */
  lemma {:induction false} OnlyInPlace(k: Config, i: nat, xs: seq<Piece>, t: nat, pos: nat, x: Piece, last: bool)
    requires Sound(k) && t < |xs| && AllGenuine(k.a, xs) && pos == i + t && x == xs[t] && (last <==> t == |xs| - 1)
    requires OpenFrames(k, i, Spliced(xs)).Some?
    ensures InPlace(k, x, pos, last)
    decreases |xs|
  {
    var (first, rest, next) := (xs[0], xs[1..], i + 1);
    assert Genuine(k.a, first) && AllGenuine(k.a, rest);
    FirstInPlace(k, i, first, rest, next, last, t == 0);
    if t > 0 {
      OnlyInPlace(k, next, rest, t - 1, pos, x, last);
    }
  }

  // ----- what was sealed opens nowhere else, and only whole -----

  /** Piece `j` of the body of `p`. */
  function PieceOf(k: Config, cs: nat, p: seq<byte>, j: nat): Piece
    requires cs > 0 && j < ChunkCount(|p|, cs)
  {
    Piece(k, Index32(j), j == ChunkCount(|p|, cs) - 1, ChunksOf(p, cs)[j])
  }

  /** The chunks of a sealed body are bound. */
  ghost predicate BoundBody(k: Config, cs: nat, p: seq<byte>) {
    && Sound(k) && LegalChunkSize(cs) && |p| == k.lenPlain && ChunkCount(|p|, cs) <= U32_RANGE
    && forall j :: 0 <= j < ChunkCount(|p|, cs) ==> Bound(PieceOf(k, cs, p, j))
  }

  lemma PieceGenuine(k: Config, cs: nat, p: seq<byte>, j: nat)
    requires BoundBody(k, cs, p) && j < ChunkCount(|p|, cs)
    ensures Genuine(k.a, PieceOf(k, cs, p, j))
  {
    LengthsOfChunks(p, cs);
  }

  /** The pieces of a body at these positions: in any order, some left out, some repeated. */
  function Picked(k: Config, cs: nat, p: seq<byte>, order: seq<nat>): (xs: seq<Piece>)
    requires cs > 0 && forall t :: 0 <= t < |order| ==> order[t] < ChunkCount(|p|, cs)
    ensures |xs| == |order| && forall t :: 0 <= t < |order| ==> xs[t] == PieceOf(k, cs, p, order[t])
  {
    seq(|order|, t requires 0 <= t < |order| => PieceOf(k, cs, p, order[t]))
  }

  lemma {:induction false} SplicedWhole(k: Config, chunks: seq<seq<byte>>, i: nat, xs: seq<Piece>)
    requires k.nonceLen >= 7 && i + |xs| == |chunks| <= U32_RANGE
    requires forall t :: 0 <= t < |xs| ==> xs[t] == Piece(k, i + t, i + t == |chunks| - 1, chunks[i + t])
    ensures Spliced(xs) == Frames(k, i, chunks[i..])
    decreases |xs|
  {
    if xs != [] {
      var next := i + 1;
      assert chunks[i..][1..] == chunks[next..];
      assert forall t :: 0 <= t < |xs[1..]| ==> xs[1..][t] == xs[t + 1];
      SplicedWhole(k, chunks, next, xs[1..]);
    }
  }

  /**
   Frames of a sealed body put together in any order open only if they are all of them, in
   order, and only under the section, length and suite they were sealed for.
   */
  lemma OnlyWhole(k: Config, cs: nat, p: seq<byte>, order: seq<nat>, k': Config)
    requires BoundBody(k, cs, p) && Sound(k') && k'.a == k.a && order != []
    requires forall t :: 0 <= t < |order| ==> order[t] < ChunkCount(|p|, cs)
    requires OpenFrames(k', 0, Spliced(Picked(k, cs, p, order))).Some?
    ensures k'.section == k.section && k'.lenPlain == k.lenPlain && k'.suite == k.suite
    ensures |order| == ChunkCount(|p|, cs) && forall t :: 0 <= t < |order| ==> order[t] == t
    ensures Spliced(Picked(k, cs, p, order)) == SealedBody(k, cs, p)
  {
    var xs := Picked(k, cs, p, order);
    PickedGenuine(k, cs, p, order);
    forall t | 0 <= t < |xs|
      ensures InPlace(k', xs[t], t, t == |xs| - 1)
    {
      OnlyInPlace(k', 0, xs, t, t, xs[t], t == |xs| - 1);
    }
    InOrder(k, cs, p, order, k', ChunkCount(|p|, cs));
    assert InPlace(k', xs[0], 0, 0 == |xs| - 1);
    PickedInOrder(k, cs, p, order);
  }

  lemma PickedInOrder(k: Config, cs: nat, p: seq<byte>, order: seq<nat>)
    requires cs > 0 && k.nonceLen >= 7 && |order| == ChunkCount(|p|, cs) <= U32_RANGE
    requires forall t :: 0 <= t < |order| ==> order[t] == t
    ensures Spliced(Picked(k, cs, p, order)) == SealedBody(k, cs, p)
  {
    var chunks := ChunksOf(p, cs);
    SplicedWhole(k, chunks, 0, Picked(k, cs, p, order));
    assert chunks[0..] == chunks;
  }

  lemma PickedGenuine(k: Config, cs: nat, p: seq<byte>, order: seq<nat>)
    requires BoundBody(k, cs, p) && forall t :: 0 <= t < |order| ==> order[t] < ChunkCount(|p|, cs)
    ensures AllGenuine(k.a, Picked(k, cs, p, order))
  {
    forall t | 0 <= t < |order|
      ensures Genuine(k.a, Picked(k, cs, p, order)[t])
    {
      PieceGenuine(k, cs, p, order[t]);
    }
  }

  lemma InOrder(k: Config, cs: nat, p: seq<byte>, order: seq<nat>, k': Config, n: nat)
    requires cs > 0 && n == ChunkCount(|p|, cs) <= U32_RANGE && order != []
    requires forall t :: 0 <= t < |order| ==> order[t] < n
    requires forall t :: 0 <= t < |order| ==> InPlace(k', Picked(k, cs, p, order)[t], t, t == |order| - 1)
    ensures |order| == n && forall t :: 0 <= t < |order| ==> order[t] == t
  {
    var xs := Picked(k, cs, p, order);
    forall t | 0 <= t < |order|
      ensures order[t] == t % U32_RANGE && (order[t] == n - 1 <==> t == |order| - 1)
    {
      PieceIs(k, cs, p, order[t], n);
      assert xs[t] == PieceOf(k, cs, p, order[t]) && InPlace(k', xs[t], t, t == |order| - 1);
    }
    Consecutive(order, n);
  }

  lemma PieceIs(k: Config, cs: nat, p: seq<byte>, j: nat, n: nat)
    requires cs > 0 && n == ChunkCount(|p|, cs) <= U32_RANGE && j < n
    ensures PieceOf(k, cs, p, j).i == j && (PieceOf(k, cs, p, j).final <==> j == n - 1)
  {
  }

  lemma Consecutive(order: seq<nat>, n: nat)
    requires order != [] && n <= U32_RANGE && forall t :: 0 <= t < |order| ==> order[t] < n
    requires forall t :: 0 <= t < |order| ==> order[t] == t % U32_RANGE && (order[t] == n - 1 <==> t == |order| - 1)
    ensures |order| == n && forall t :: 0 <= t < |order| ==> order[t] == t
  {
    var last := |order| - 1;
    assert order[0] < n;
    var least := Min(last, n - 1);
    assert order[least] == least % U32_RANGE == least && order[last] == n - 1;
  }

  /** `body` is put together from pieces of the body of `p`, of which it takes these. */
  ghost predicate Takes(k: Config, cs: nat, p: seq<byte>, order: seq<nat>, body: seq<byte>) {
    && BoundBody(k, cs, p) && order != [] && (forall t :: 0 <= t < |order| ==> order[t] < ChunkCount(|p|, cs))
    && body == Spliced(Picked(k, cs, p, order))
  }

  /**
   Made of frames sealed under this AEAD, but for another section, length or suite, or not all
   the frames of their body in order.
   */
  ghost predicate Misplaced(k': Config, body: seq<byte>) {
    exists k, cs, p, order ::
      && Takes(k, cs, p, order, body) && k.a == k'.a
      && ((k.section, k.lenPlain, k.suite) != (k'.section, k'.lenPlain, k'.suite) || body != SealedBody(k, cs, p))
  }

  lemma MisplacedRefused(k': Config, body: seq<byte>)
    requires Sound(k') && Misplaced(k', body)
    ensures body != [] && OpenFrames(k', 0, body).None?
  {
    var k, cs, p, order :|
      && Takes(k, cs, p, order, body) && k.a == k'.a
      && ((k.section, k.lenPlain, k.suite) != (k'.section, k'.lenPlain, k'.suite) || body != SealedBody(k, cs, p));
    PickedGenuine(k, cs, p, order);
    SplicedEmpty(k.a, Picked(k, cs, p, order));
    if OpenFrames(k', 0, body).Some? {
      OnlyWhole(k, cs, p, order, k');
    }
  }

  /** A whole body sealed for another section, length or suite is one such. */
  lemma SealedElsewhere(k: Config, cs: nat, p: seq<byte>, k': Config)
    requires BoundBody(k, cs, p) && p != [] && k'.a == k.a
    requires (k'.section, k'.lenPlain, k'.suite) != (k.section, k.lenPlain, k.suite)
    ensures Misplaced(k', SealedBody(k, cs, p))
  {
    var n := ChunkCount(|p|, cs);
    var order := seq(n, i => i);
    CountBounds(|p|, cs);
    PickedInOrder(k, cs, p, order);
    assert Takes(k, cs, p, order, SealedBody(k, cs, p));
  }
}
