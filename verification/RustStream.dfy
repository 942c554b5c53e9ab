/**
 The Rust loops (`stream.rs`). They open every frame before looking at any length, and
 their chunk index is a checked `u32`: it seals up to 2^32 chunks, and opens one fewer.
 */
module RustStream {
  import opened Bytes
  import opened ChunkIndex
  import opened Stream
  import opened StreamBinding
  import opened GoStream

  /** `seal_chunked`, the split into frames. */
  method Split(cs: nat, plaintext: seq<byte>) returns (frames: seq<seq<byte>>)
    requires cs > 0
    ensures frames == ChunksOf(plaintext, cs)
  {
    frames := [];
    for i := 0 to ChunkCount(|plaintext|, cs)
      invariant frames == ChunksOf(plaintext, cs)[..i]
    {
      var start, end := ChunkRange(|plaintext|, cs, i);
      frames := frames + [plaintext[start..end]];
    }
  }

  /** Every frame short enough for its prefix. */
  predicate AllFramable(frames: seq<seq<byte>>) {
    forall x :: x in frames ==> Framable(x)
  }

  /** `out` and the frames from `i` on are the whole body. */
  ghost predicate FramesBehind(k: Config, frames: seq<seq<byte>>, out: seq<byte>, i: nat) {
    k.nonceLen >= 7 && i <= |frames| && Frames(k, 0, frames) == out + Frames(k, i, frames[i..])
  }

  lemma FramesBehindNext(k: Config, frames: seq<seq<byte>>, out: seq<byte>, i: nat, next: nat, final: bool)
    requires FramesBehind(k, frames, out, i) && i < |frames| && next == i + 1 && (final <==> next == |frames|)
    ensures FramesBehind(k, frames, out + Frame(k, Index32(i), final, frames[i]), next)
  {
    FrameTurn(k, frames, i, next, final);
    Associate(out, Frame(k, Index32(i), final, frames[i]), Frames(k, next, frames[next..]));
  }

  lemma FramesDone(k: Config, frames: seq<seq<byte>>, out: seq<byte>)
    requires FramesBehind(k, frames, out, |frames|)
    ensures out == Frames(k, 0, frames)
  {
    assert frames[|frames|..] == [] && out + [] == out;
  }

  /** One chunk, if its ciphertext's length fits the prefix. */
  method SealFrame(aead: Keyed, suite: u16, section: u16, key: seq<byte>, i: u32, final: bool, chunk: seq<byte>, lenPlain: u64)
    returns (r: Option<seq<byte>>)
    requires Ideal(aead(key))
    ensures r == if Framable(chunk) then Some(Frame(ConfigOf(aead, key, suite, section, lenPlain), i, final, chunk)) else None
  {
    var frame := SealChunk(aead, suite, section, key, i, final, chunk, lenPlain);
    assert |frame| == 4 + |chunk| + TAG_LEN;
    if |frame| - 4 >= U32_RANGE {
      return None;
    }
    return Some(frame);
  }

  /** The frames before `i` are short enough. */
  predicate FramableTo(frames: seq<seq<byte>>, i: nat) {
    i <= |frames| && forall j :: 0 <= j < i ==> Framable(frames[j])
  }

  lemma FramableNext(frames: seq<seq<byte>>, i: nat, next: nat)
    requires FramableTo(frames, i) && i < |frames| && next == i + 1
    ensures Framable(frames[i]) ==> FramableTo(frames, next)
    ensures !Framable(frames[i]) ==> !AllFramable(frames)
  {
    assert frames[i] in frames;
  }

  /** Where the loop stands before frame `i`. */
  ghost predicate Sealing(k: Config, frames: seq<seq<byte>>, out: seq<byte>, i: nat) {
    i <= U32_RANGE && FramesBehind(k, frames, out, i) && FramableTo(frames, i)
  }

  lemma SealingStart(k: Config, frames: seq<seq<byte>>)
    requires k.nonceLen >= 7
    ensures Sealing(k, frames, [], 0)
  {
    assert frames[0..] == frames && [] + Frames(k, 0, frames) == Frames(k, 0, frames);
  }

  lemma SealingDone(k: Config, frames: seq<seq<byte>>, out: seq<byte>)
    requires Sealing(k, frames, out, |frames|)
    ensures |frames| <= U32_RANGE && AllFramable(frames) && out == Frames(k, 0, frames)
  {
    FramesDone(k, frames, out);
  }

  /** One turn of the loop. */
  method SealTurn(aead: Keyed, suite: u16, section: u16, key: seq<byte>, lenPlain: u64, frames: seq<seq<byte>>, out: seq<byte>, i: nat)
    returns (r: Option<seq<byte>>)
    requires Ideal(aead(key)) && i < |frames| && Sealing(ConfigOf(aead, key, suite, section, lenPlain), frames, out, i)
    ensures r.None? ==> |frames| > U32_RANGE || !AllFramable(frames)
    ensures r.Some? ==> Sealing(ConfigOf(aead, key, suite, section, lenPlain), frames, r.value, i + 1)
  {
    if i >= U32_RANGE {
      return None;
    }
    ghost var next := i + 1;
    var final := i + 1 == |frames|;
    FramesBehindNext(ConfigOf(aead, key, suite, section, lenPlain), frames, out, i, next, final);
    FramableNext(frames, i, next);
    var frame := SealFrame(aead, suite, section, key, i, final, frames[i], lenPlain);
    if frame.None? {
      return None;
    }
    return Some(out + frame.value);
  }

  /** `seal_chunked_frames`. */
  method SealFrames(aead: Keyed, suite: u16, section: u16, key: seq<byte>, lenPlain: u64, frames: seq<seq<byte>>)
    returns (r: Result<seq<byte>>)
    requires Ideal(aead(key))
    ensures r == if |key| == KEY_LEN && |frames| <= U32_RANGE && AllFramable(frames)
                 then Ok(Frames(ConfigOf(aead, key, suite, section, lenPlain), 0, frames)) else Err
  {
    if |key| != KEY_LEN {
      return Err;
    }
    ghost var k := ConfigOf(aead, key, suite, section, lenPlain);
    var out: seq<byte> := [];
    SealingStart(k, frames);
    for i := 0 to |frames|
      invariant Sealing(k, frames, out, i)
    {
      var more := SealTurn(aead, suite, section, key, lenPlain, frames, out, i);
      if more.None? {
        return Err;
      }
      out := more.value;
    }
    SealingDone(k, frames, out);
    return Ok(out);
  }

  /** A plaintext this writer seals. */
  predicate Seals(key: seq<byte>, cs: nat, len: nat) {
    LegalChunkSize(cs) && |key| == KEY_LEN && ChunkCount(len, cs) <= U32_RANGE
  }

  /** `seal_chunked`. */
  method SealChunked(aead: Keyed, suite: u16, section: u16, cs: u32, key: seq<byte>, plaintext: seq<byte>)
    returns (r: Result<seq<byte>>)
    requires Ideal(aead(key)) && |plaintext| < U64_RANGE
    ensures r == if Seals(key, cs, |plaintext|)
                 then Ok(SealedBody(ConfigOf(aead, key, suite, section, |plaintext|), cs, plaintext)) else Err
  {
    if !LegalChunkSize(cs) {
      return Err;
    }
    var frames := Split(cs, plaintext);
    ChunksFramable(plaintext, cs);
    r := SealFrames(aead, suite, section, key, |plaintext|, frames);
  }

  lemma ChunksFramable(plaintext: seq<byte>, cs: nat)
    requires LegalChunkSize(cs)
    ensures AllFramable(ChunksOf(plaintext, cs))
  {
    LengthsOfChunks(plaintext, cs);
  }

  // ----- reading -----

  /** What `open_chunked_frames` returns, as one statement. */
  function OpenAll(k: Config, body: seq<byte>): Option<seq<seq<byte>>>
    requires k.nonceLen >= 7
  {
    if body == [] then Some([])
    else
      match OpenFrames(k, 0, body)
      case None => None
      case Some(chunks) => if |chunks| < U32_RANGE then Some(chunks) else None
  }

  /** What the loop knows between frames. */
  ghost predicate Between(k: Config, body: seq<byte>, frames: seq<seq<byte>>, at: nat, offset: nat)
    requires k.nonceLen >= 7
  {
    && offset <= |body| && at == |frames| < U32_RANGE
    && (offset < |body| ==> Standing(k, body, frames, at, offset))
    && (offset == |body| ==> OpenAll(k, body) == Some(frames))
  }

  lemma BetweenStop(k: Config, body: seq<byte>, frames: seq<seq<byte>>, at: nat, offset: nat)
    requires k.nonceLen >= 7 && Between(k, body, frames, at, offset) && offset < |body|
    requires OpenFrame(k, at, body[offset..]).None?
    ensures OpenAll(k, body).None?
  {
    OpenStop(k, body, at, offset, frames);
  }

  lemma BetweenNext(k: Config, body: seq<byte>, frames: seq<seq<byte>>, at: nat, offset: nat, next: nat, o: Opened, to: nat)
    requires k.nonceLen >= 7 && Between(k, body, frames, at, offset) && offset < |body| && next == at + 1
    requires OpenFrame(k, at, body[offset..]) == Some(o) && to == offset + o.len
    ensures next >= U32_RANGE ==> OpenAll(k, body).None?
    ensures next < U32_RANGE ==> Between(k, body, frames + [o.chunk], next, to)
  {
    OpenTurn(k, body, at, offset, frames, next, o, to);
  }

  /** `open_chunked_frames`: the index is advanced after the last chunk too, and must still fit. */
  method OpenChunkedFrames(k: Config, key: seq<byte>, body: seq<byte>) returns (r: Option<seq<seq<byte>>>)
    requires k.nonceLen >= 7
    ensures r == if |key| == KEY_LEN then OpenAll(k, body) else None
  {
    if |key| != KEY_LEN {
      return None;
    }
    var frames: seq<seq<byte>> := [];
    var offset := 0;
    var index: u32 := 0;
    assert body[0..] == body;
    AfterNone(OpenFrames(k, 0, body));
    while offset < |body|
      invariant Between(k, body, frames, index, offset)
      decreases |body| - offset
    {
      var o := ReadFrame(k, key, body, offset, index, index);
      if o.None? {
        BetweenStop(k, body, frames, index, offset);
        return None;
      }
      var to := offset + o.value.len;
      BetweenNext(k, body, frames, index, offset, index + 1, o.value, to);
      frames := frames + [o.value.chunk];
      offset := to;
      if index + 1 >= U32_RANGE {
        return None;
      }
      index := index + 1;
    }
    return Some(frames);
  }

  /** `open_chunked`: count, then every length, then the plaintext. */
  method OpenChunked(aead: Keyed, suite: u16, section: u16, cs: u32, lenPlain: u64, key: seq<byte>, body: seq<byte>)
    returns (r: Result<seq<byte>>)
    requires Ideal(aead(key))
    ensures r.Ok? ==> LegalChunkSize(cs) && |key| == KEY_LEN
    ensures LegalChunkSize(cs) && |key| == KEY_LEN ==>
      forall p :: r == Ok(p) <==> Opens(ConfigOf(aead, key, suite, section, lenPlain), cs, body, p)
    ensures Misplaced(ConfigOf(aead, key, suite, section, lenPlain), body) ==> r.Err?
  {
    if !LegalChunkSize(cs) {
      return Err;
    }
    var k := ConfigOf(aead, key, suite, section, lenPlain);
    var frames := OpenChunkedFrames(k, key, body);
    if Misplaced(k, body) {
      MisplacedRefused(k, body);
    }
    if |key| == KEY_LEN {
      forall p
        ensures Opens(k, cs, body, p) <==> OpenAll(k, body).Some? && Matches(OpenAll(k, body).value, lenPlain, cs)
                                           && Concat(OpenAll(k, body).value) == p
      {
        OpensIff(k, cs, body, p);
      }
    }
    if frames.None? {
      return Err;
    }
    if |frames.value| != ChunkCount(lenPlain, cs) {
      return Err;
    }
    var joined := JoinFrames(frames.value, lenPlain, cs);
    if joined.None? {
      return Err;
    }
    return Ok(joined.value);
  }

  /** The right number of chunks, each of its own length. */
  predicate Matches(chunks: seq<seq<byte>>, len: nat, cs: nat)
    requires cs > 0
  {
    |chunks| == ChunkCount(len, cs) && forall j :: 0 <= j < |chunks| ==> |chunks[j]| == ChunkLen(len, cs, j)
  }

  method JoinFrames(frames: seq<seq<byte>>, len: nat, cs: nat) returns (r: Option<seq<byte>>)
    requires cs > 0 && |frames| == ChunkCount(len, cs)
    ensures r == if Matches(frames, len, cs) then Some(Concat(frames)) else None
  {
    var plaintext: seq<byte> := [];
    for i := 0 to |frames|
      invariant forall j :: 0 <= j < i ==> |frames[j]| == ChunkLen(len, cs, j)
      invariant plaintext == Concat(frames[..i])
    {
      ChunkInside(len, cs, i);
      var start := i * cs;
      var thisLen := Min(len - start, cs);
      if |frames[i]| != thisLen {
        return None;
      }
      assert frames[..i + 1][..i] == frames[..i];
      plaintext := plaintext + frames[i];
    }
    assert frames[..|frames|] == frames;
    return Some(plaintext);
  }

  /** A body opens to `p` exactly when it is `p` sealed, in fewer than 2^32 chunks. */
  ghost predicate Opens(k: Config, cs: nat, body: seq<byte>, p: seq<byte>)
    requires k.nonceLen >= 7 && cs > 0
  {
    |p| == k.lenPlain && body == SealedBody(k, cs, p) && ChunkCount(|p|, cs) < U32_RANGE
  }

  lemma OpensIff(k: Config, cs: nat, body: seq<byte>, p: seq<byte>)
    requires Sound(k) && LegalChunkSize(cs)
    ensures Opens(k, cs, body, p) <==> OpenAll(k, body).Some? && Matches(OpenAll(k, body).value, k.lenPlain, cs)
                                       && Concat(OpenAll(k, body).value) == p
  {
    if Opens(k, cs, body, p) {
      SealedOpens(k, cs, p);
    }
    if OpenAll(k, body).Some? && Matches(OpenAll(k, body).value, k.lenPlain, cs) {
      OpenedSeals(k, cs, body);
    }
  }

  lemma SealedOpens(k: Config, cs: nat, p: seq<byte>)
    requires Sound(k) && LegalChunkSize(cs) && Opens(k, cs, SealedBody(k, cs, p), p)
    ensures OpenAll(k, SealedBody(k, cs, p)) == Some(ChunksOf(p, cs))
    ensures Matches(ChunksOf(p, cs), k.lenPlain, cs) && Concat(ChunksOf(p, cs)) == p
  {
    var chunks := ChunksOf(p, cs);
    LengthsOfChunks(p, cs);
    EmptyBody(k, cs, p);
    NoChunks(|p|, cs);
    if chunks != [] {
      OpenComplete(k, 0, chunks);
    }
  }

  lemma OpenedSeals(k: Config, cs: nat, body: seq<byte>)
    requires Sound(k) && LegalChunkSize(cs)
    requires OpenAll(k, body).Some? && Matches(OpenAll(k, body).value, k.lenPlain, cs)
    ensures Opens(k, cs, body, Concat(OpenAll(k, body).value))
  {
    var chunks := OpenAll(k, body).value;
    ChunksOfJoined(chunks, k.lenPlain, cs);
    if body != [] {
      OpenSound(k, 0, body);
    }
  }

  /**
   The gap: at exactly 2^32 chunks this implementation seals what it then refuses to open;
   everywhere below, opening inverts sealing.
   */
  lemma SealedButNotOpened(k: Config, key: seq<byte>, cs: nat, p: seq<byte>)
    requires Sound(k) && |p| == k.lenPlain && Seals(key, cs, |p|)
    ensures !Opens(k, cs, SealedBody(k, cs, p), p) <==> ChunkCount(|p|, cs) == U32_RANGE
    ensures ChunkCount(|p|, cs) == U32_RANGE ==> OpenAll(k, SealedBody(k, cs, p)).None?
  {
    if ChunkCount(|p|, cs) == U32_RANGE {
      var chunks := ChunksOf(p, cs);
      LengthsOfChunks(p, cs);
      EmptyBody(k, cs, p);
      NoChunks(|p|, cs);
      OpenComplete(k, 0, chunks);
    }
  }

  /** A length this happens to: 2^32 chunks of 4096 are sealed, and nothing opens the body. */
  lemma GapExample(k: Config, key: seq<byte>, p: seq<byte>)
    requires Sound(k) && |key| == KEY_LEN && |p| == k.lenPlain == U32_RANGE * 4096
    ensures Seals(key, 4096, |p|)
    ensures OpenAll(k, SealedBody(k, 4096, p)).None?
    ensures forall q :: !Opens(k, 4096, SealedBody(k, 4096, p), q)
  {
    var len := U32_RANGE * 4096;
    CountUniqueOf(U32_RANGE, 4096, len);
    SealedButNotOpened(k, key, 4096, p);
    var body := SealedBody(k, 4096, p);
    forall q
      ensures !Opens(k, 4096, body, q)
    {
      OpensIff(k, 4096, body, q);
    }
  }
}
