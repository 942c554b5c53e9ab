/** The Go loops (`SealStream`, `OpenStream`), whose chunk index is a wrapping `uint32`. */
module GoStream {
  import opened Arithmetic
  import opened Bytes
  import opened ChunkIndex
  import opened Bundle
  import opened Stream
  import opened StreamBinding

  /** An AEAD for every key. */
  type Keyed = seq<byte> -> Aead

  function ConfigOf(aead: Keyed, key: seq<byte>, suite: u16, section: u16, lenPlain: u64): Config {
    Config(aead(key), suite, NonceLen(suite), section, lenPlain)
  }

  /** `SealStream`. The key is looked at only when there is a chunk to seal. */
  method SealStream(aead: Keyed, suite: u16, section: u16, cs: u32, key: seq<byte>, plaintext: seq<byte>)
    returns (r: Result<seq<byte>>)
    requires Ideal(aead(key)) && |plaintext| < U64_RANGE
    ensures r == if KnownSuite(suite) && LegalChunkSize(cs) && (|key| == KEY_LEN || plaintext == [])
                 then Ok(SealedBody(ConfigOf(aead, key, suite, section, |plaintext|), cs, plaintext)) else Err
  {
    if !KnownSuite(suite) {
      return Err;
    }
    if cs < MIN_CHUNK_SIZE || cs > MAX_CHUNK_SIZE || !LegalChunkSize(cs) {
      return Err;
    }
    NoChunks(|plaintext|, cs);
    r := SealChunks(aead, suite, section, cs, key, plaintext);
  }

  lemma NoChunks(len: nat, cs: nat)
    requires cs > 0
    ensures ChunkCount(len, cs) == 0 <==> len == 0
  {
    CountBounds(len, cs);
  }

  /**
   Chunk `j` of what is sealed lies at `j * (cs + 20)`: its length plus 16, then the chunk sealed
   under the nonce and the associated data of its place.
   */
  lemma SealedStreamAt(aead: Keyed, suite: u16, section: u16, cs: u32, key: seq<byte>, p: seq<byte>, j: nat, at: nat, to: nat)
    requires Ideal(aead(key)) && |p| < U64_RANGE && LegalChunkSize(cs) && j < ChunkCount(|p|, cs)
    requires at == j * (cs + 20) && to == at + 20 + |Chunk(p, cs, j)|
    ensures var body := SealedBody(ConfigOf(aead, key, suite, section, |p|), cs, p);
      && to <= |body| && (j == ChunkCount(|p|, cs) - 1 ==> to == |body|) && U32At(body[at..to], 0) == |Chunk(p, cs, j)| + 16
      && exists nonce, aad ::
           && IsNonce(nonce, if suite == 2 then 24 else 12, section, j % U32_RANGE, j == ChunkCount(|p|, cs) - 1)
           && IsAad(aad, section, j % U32_RANGE, |p|, suite)
           && body[at..to][4..] == aead(key).seal(nonce, Chunk(p, cs, j), aad)
  {
    FrameInBody(ConfigOf(aead, key, suite, section, |p|), cs, p, j, at, to);
  }

  /** Its loop. */
  method SealChunks(aead: Keyed, suite: u16, section: u16, cs: u32, key: seq<byte>, plaintext: seq<byte>)
    returns (r: Result<seq<byte>>)
    requires cs > 0 && |plaintext| < U64_RANGE
    ensures r == if |key| == KEY_LEN || ChunkCount(|plaintext|, cs) == 0
                 then Ok(SealedBody(ConfigOf(aead, key, suite, section, |plaintext|), cs, plaintext)) else Err
  {
    ghost var k := ConfigOf(aead, key, suite, section, |plaintext|);
    ghost var chunks := ChunksOf(plaintext, cs);
    var count := ChunkCount(|plaintext|, cs);
    var body: seq<byte> := [];
    for i := 0 to count
      invariant i > 0 ==> |key| == KEY_LEN
      invariant SealedBody(k, cs, plaintext) == body + Frames(k, i, chunks[i..])
    {
      var start, end := ChunkRange(|plaintext|, cs, i);
      if |key| != KEY_LEN {
        return Err;
      }
      var final := i == count - 1;
      ghost var next := i + 1;
      assert chunks[i] == plaintext[start..end];
      FrameTurn(k, chunks, i, next, final);
      var frame := SealChunk(aead, suite, section, key, i % U32_RANGE, final, plaintext[start..end], |plaintext|);
      Associate(body, frame, Frames(k, next, chunks[next..]));
      body := body + frame;
    }
    assert chunks[count..] == [] && body + [] == body;
    return Ok(body);
  }

  /** Where chunk `i` starts and ends. */
  method ChunkRange(len: nat, cs: nat, i: nat) returns (start: nat, end: nat)
    requires cs > 0 && i < ChunkCount(len, cs)
    ensures start == Min(i * cs, len) && end == Min(i * cs + cs, len) && start <= end
  {
    ChunkInside(len, cs, i);
    start := i * cs;
    end := start + cs;
    if end > len {
      end := len;
    }
  }

  /** One chunk: nonce, associated data, ciphertext behind its length. */
  method SealChunk(aead: Keyed, suite: u16, section: u16, key: seq<byte>, i: u32, final: bool, chunk: seq<byte>, lenPlain: u64)
    returns (frame: seq<byte>)
    ensures frame == Frame(ConfigOf(aead, key, suite, section, lenPlain), i, final, chunk)
  {
    var nonce := StreamNonce(NonceLen(suite), section, i, final);
    var aad := Aad(section, i, lenPlain, suite);
    var ct := aead(key).seal(nonce, chunk, aad);
    frame := LE(|ct|, 4) + ct;
  }

  /** The first of the frames left to write; its index only matters modulo 2^32. */
  lemma FrameTurn(k: Config, chunks: seq<seq<byte>>, i: nat, next: nat, final: bool)
    requires k.nonceLen >= 7 && i < |chunks| && next == i + 1 && (final <==> next == |chunks|)
    ensures Frames(k, i, chunks[i..]) == Frame(k, Index32(i), final, chunks[i]) + Frames(k, next, chunks[next..])
  {
    var (j, s) := (Index32(i), chunks[i..]);
    FrameAtIndex32(k, i, j, final, chunks[i]);
    assert s[1..] == chunks[next..] && s[0] == chunks[i];
  }

  lemma FrameAtIndex32(k: Config, i: nat, j: u32, final: bool, chunk: seq<byte>)
    requires k.nonceLen >= 7 && j == Index32(i)
    ensures Frame(k, j, final, chunk) == Frame(k, i, final, chunk)
  {
    assert Index32(j) == j;
  }

  // ----- reading -----

  /** Every chunk has the length the loop expects at its wrapped index. */
  predicate WrappedLens(chunks: seq<seq<byte>>, len: nat, cs: nat) {
    forall j :: 0 <= j < |chunks| ==> |chunks[j]| == ChunkLen(len, cs, Index32(j))
  }

  /** What the loop and the two checks after it accept. */
  predicate Accepts(k: Config, cs: nat, body: seq<byte>, chunks: seq<seq<byte>>)
    requires k.nonceLen >= 7 && cs > 0
  {
    && OpenFrames(k, 0, body) == Some(chunks) && WrappedLens(chunks, k.lenPlain, cs)
    && |chunks| == ChunkCount(k.lenPlain, cs) && |Concat(chunks)| == k.lenPlain
  }

  /** The chunk index does not wrap, or wrapping changes no length. */
  predicate Straight(len: nat, cs: nat)
    requires cs > 0
  {
    ChunkCount(len, cs) <= U32_RANGE || len % cs == 0
  }

  /** Past 2^32 chunks the loop expects every chunk to be full. */
  lemma WrappedIsFull(len: nat, cs: nat, j: nat)
    requires cs > 0 && ChunkCount(len, cs) > U32_RANGE
    ensures ChunkLen(len, cs, Index32(j)) == cs
  {
    FullChunk(len, cs, Index32(j));
  }

  lemma FullLast(len: nat, cs: nat, j: nat)
    requires cs > 0 && len % cs == 0 && j < ChunkCount(len, cs)
    ensures ChunkLen(len, cs, j) == cs
  {
    var n := ChunkCount(len, cs);
    var q := len / cs;
    assert len == q * cs;
    CountUniqueOf(q, cs, len);
    if j + 1 < n {
      FullChunk(len, cs, j);
    } else {
      Before(n, cs, len, j);
    }
  }

  lemma CountUniqueOf(q: nat, cs: nat, len: nat)
    requires cs > 0 && len == q * cs
    ensures ChunkCount(len, cs) == q
  {
    if q == 0 {
      DivUnique(cs - 1, cs, 0, cs - 1);
    } else {
      Before(q, cs, len, q - 1);
      CountUnique(len, cs, q, len - cs, len);
    }
  }

  /** When the index stays straight, the lengths it expects are the plaintext's. */
  lemma StraightLens(len: nat, cs: nat, j: nat)
    requires cs > 0 && Straight(len, cs) && j < ChunkCount(len, cs)
    ensures ChunkLen(len, cs, Index32(j)) == ChunkLen(len, cs, j)
  {
    if ChunkCount(len, cs) > U32_RANGE {
      WrappedIsFull(len, cs, j);
      FullLast(len, cs, j);
    }
  }

  /** Full chunks only: their total is a multiple of the chunk size. */
  lemma {:induction false} FullTotal(chunks: seq<seq<byte>>, cs: nat, total: nat)
    requires (forall j :: 0 <= j < |chunks| ==> |chunks[j]| == cs) && total == |chunks| * cs
    ensures |Concat(chunks)| == total
  {
    if chunks != [] {
      var n := |chunks| - 1;
      Before(|chunks|, cs, total, n);
      FullTotal(chunks[..n], cs, total - cs);
    }
  }

  lemma AcceptedIsStraight(k: Config, cs: nat, body: seq<byte>, chunks: seq<seq<byte>>)
    requires k.nonceLen >= 7 && cs > 0 && Accepts(k, cs, body, chunks)
    ensures Straight(k.lenPlain, cs)
  {
    if |chunks| > U32_RANGE {
      forall j | 0 <= j < |chunks|
        ensures |chunks[j]| == cs
      {
        WrappedIsFull(k.lenPlain, cs, j);
      }
      var total := |chunks| * cs;
      FullTotal(chunks, cs, total);
      MultipleOf(|chunks|, cs, total);
    }
  }

  /** A length this happens to, one byte past 2^32 chunks of 4096: what was sealed is refused. */
  lemma WrapExample(k: Config, p: seq<byte>)
    requires k.nonceLen >= 7 && |p| == k.lenPlain == U32_RANGE * 4096 + 1
    ensures LegalChunkSize(4096) && !Straight(k.lenPlain, 4096)
    ensures forall chunks :: !Accepts(k, 4096, SealedBody(k, 4096, p), chunks)
  {
    var (full, len) := (U32_RANGE * 4096, U32_RANGE * 4096 + 1);
    CountUnique(len, 4096, U32_RANGE + 1, full, full + 4096);
    forall chunks
      ensures !Accepts(k, 4096, SealedBody(k, 4096, p), chunks)
    {
      if Accepts(k, 4096, SealedBody(k, 4096, p), chunks) {
        AcceptedIsStraight(k, 4096, SealedBody(k, 4096, p), chunks);
      }
    }
  }

  /** What is accepted is the sealed body of what it gives. */
  lemma AcceptsSound(k: Config, cs: nat, body: seq<byte>, chunks: seq<seq<byte>>)
    requires Sound(k) && LegalChunkSize(cs) && Accepts(k, cs, body, chunks)
    ensures Straight(k.lenPlain, cs) && chunks == ChunksOf(Concat(chunks), cs)
    ensures body == SealedBody(k, cs, Concat(chunks))
  {
    OpenSound(k, 0, body);
    AcceptedIsStraight(k, cs, body, chunks);
    forall j | 0 <= j < |chunks|
      ensures |chunks[j]| == ChunkLen(k.lenPlain, cs, j)
    {
      StraightLens(k.lenPlain, cs, j);
    }
    ChunksOfJoined(chunks, k.lenPlain, cs);
  }

  /** A sealed body is accepted where the index stays straight. */
  lemma AcceptsComplete(k: Config, cs: nat, p: seq<byte>)
    requires Sound(k) && LegalChunkSize(cs) && Straight(k.lenPlain, cs) && k.lenPlain == |p| > 0
    ensures Accepts(k, cs, SealedBody(k, cs, p), ChunksOf(p, cs)) && Concat(ChunksOf(p, cs)) == p
  {
    var chunks := ChunksOf(p, cs);
    CountBounds(|p|, cs);
    LengthsOfChunks(p, cs);
    OpenComplete(k, 0, chunks);
    forall j | 0 <= j < |chunks|
      ensures |chunks[j]| == ChunkLen(k.lenPlain, cs, Index32(j))
    {
      StraightLens(k.lenPlain, cs, j);
    }
  }

  /** The plaintexts a body opens to: at most one. */
  ghost predicate OpensTo(k: Config, cs: nat, body: seq<byte>, p: seq<byte>)
    requires k.nonceLen >= 7 && cs > 0
  {
    |p| == k.lenPlain && Straight(k.lenPlain, cs) && body == SealedBody(k, cs, p)
  }

  ghost predicate Yields(k: Config, cs: nat, body: seq<byte>, chunks: seq<seq<byte>>, p: seq<byte>)
    requires k.nonceLen >= 7 && cs > 0
  {
    Accepts(k, cs, body, chunks) && Concat(chunks) == p
  }

  lemma OpensToIff(k: Config, cs: nat, body: seq<byte>, p: seq<byte>)
    requires Sound(k) && LegalChunkSize(cs) && body != []
    ensures OpensTo(k, cs, body, p) <==> exists chunks :: Yields(k, cs, body, chunks, p)
  {
    if OpensTo(k, cs, body, p) {
      EmptyBody(k, cs, p);
      AcceptsComplete(k, cs, p);
      assert Yields(k, cs, body, ChunksOf(p, cs), p);
    }
    forall chunks | Yields(k, cs, body, chunks, p)
      ensures OpensTo(k, cs, body, p)
    {
      AcceptsSound(k, cs, body, chunks);
    }
  }

  /** The length the loop expects of the chunk at this index. */
  method ThisLen(lenPlain: u64, cs: u32, i: u32) returns (n: nat)
    ensures n == ChunkLen(lenPlain, cs, i)
  {
    var start := i * cs;
    n := 0;
    if start < lenPlain {
      n := lenPlain - start;
      if n > cs {
        n := cs;
      }
    }
  }

  /** What the loop knows between chunks. */
  ghost predicate Midway(k: Config, cs: nat, key: seq<byte>, body: seq<byte>, chunks: seq<seq<byte>>, at: nat, pos: nat)
    requires k.nonceLen >= 7
  {
    && at == |chunks| && (chunks != [] ==> |key| == KEY_LEN) && WrappedLens(chunks, k.lenPlain, cs)
    && Standing(k, body, chunks, at, pos)
  }

  /** One turn of the loop: the frame opened, and its length is not what the index expects. */
  lemma MidwayWrong(k: Config, cs: nat, key: seq<byte>, body: seq<byte>, chunks: seq<seq<byte>>, pos: nat,
                    at: nat, next: nat, o: Opened, to: nat, want: nat)
    requires k.nonceLen >= 7 && Midway(k, cs, key, body, chunks, at, pos)
    requires next == at + 1 && to == pos + o.len && want == ChunkLen(k.lenPlain, cs, Index32(at))
    requires OpenFrame(k, at, body[pos..]) == Some(o) && |o.chunk| != want
    ensures Refused(k, cs, body)
  {
    OpenTurn(k, body, at, pos, chunks, next, o, to);
    var whole := OpenFrames(k, 0, body);
    if whole.Some? {
      WrongLen(whole.value, k.lenPlain, cs, o.chunk, at);
    }
  }

  /** Or it is, and the loop stands behind it. */
  lemma MidwayNext(k: Config, cs: nat, key: seq<byte>, body: seq<byte>, chunks: seq<seq<byte>>, pos: nat,
                   at: nat, next: nat, o: Opened, to: nat)
    requires k.nonceLen >= 7 && Midway(k, cs, key, body, chunks, at, pos) && |key| == KEY_LEN
    requires next == at + 1 && to == pos + o.len
    requires OpenFrame(k, at, body[pos..]) == Some(o) && |o.chunk| == ChunkLen(k.lenPlain, cs, Index32(at))
    ensures to <= |body| && WrappedLens(chunks + [o.chunk], k.lenPlain, cs)
    ensures to == |body| ==> OpenFrames(k, 0, body) == Some(chunks + [o.chunk])
    ensures to < |body| ==> Midway(k, cs, key, body, chunks + [o.chunk], next, to)
  {
    OpenTurn(k, body, at, pos, chunks, next, o, to);
    LensNext(chunks, k.lenPlain, cs, o.chunk, at);
  }

  lemma LensNext(chunks: seq<seq<byte>>, len: nat, cs: nat, pt: seq<byte>, at: nat)
    requires WrappedLens(chunks, len, cs) && at == |chunks| && |pt| == ChunkLen(len, cs, Index32(at))
    ensures WrappedLens(chunks + [pt], len, cs)
  {
  }

  lemma WrongLen(whole: seq<seq<byte>>, len: nat, cs: nat, pt: seq<byte>, at: nat)
    requires at < |whole| && whole[at] == pt && |pt| != ChunkLen(len, cs, Index32(at))
    ensures !WrappedLens(whole, len, cs)
  {
  }

  lemma IndexNext(count: nat, next: nat)
    requires next == count + 1
    ensures Index32(next) == (Index32(count) + 1) % U32_RANGE
  {
  }

  /** The rest of the body does not open as the loop requires. */
  ghost predicate Refused(k: Config, cs: nat, body: seq<byte>)
    requires k.nonceLen >= 7
  {
    OpenFrames(k, 0, body).None? || !WrappedLens(OpenFrames(k, 0, body).value, k.lenPlain, cs)
  }

  /** One turn: a chunk opened, and of the length its index calls for. */
  method ReadChunk(k: Config, cs: u32, key: seq<byte>, body: seq<byte>, pos: nat, i: u32, ghost chunks: seq<seq<byte>>)
    returns (r: Option<seq<byte>>, to: nat)
    requires k.nonceLen >= 7 && Midway(k, cs, key, body, chunks, |chunks|, pos) && i == Index32(|chunks|)
    ensures r.None? ==> |key| != KEY_LEN || Refused(k, cs, body)
    ensures r.Some? ==> |key| == KEY_LEN && pos < to <= |body| && WrappedLens(chunks + [r.value], k.lenPlain, cs)
    ensures r.Some? && to == |body| ==> OpenFrames(k, 0, body) == Some(chunks + [r.value])
    ensures r.Some? && to < |body| ==> Midway(k, cs, key, body, chunks + [r.value], |chunks| + 1, to)
  {
    ghost var (at, next) := (|chunks|, |chunks| + 1);
    to := pos;
    var o := ReadFrame(k, key, body, pos, i, at);
    if o.None? {
      if |key| == KEY_LEN {
        OpenStop(k, body, at, pos, chunks);
      }
      return None, to;
    }
    var Opened(pt, n) := o.value;
    to := pos + n;
    var thisLen := ThisLen(k.lenPlain, cs, i);
    if |pt| != thisLen {
      MidwayWrong(k, cs, key, body, chunks, pos, at, next, o.value, to, thisLen);
      return None, to;
    }
    MidwayNext(k, cs, key, body, chunks, pos, at, next, o.value, to);
    return Some(pt), to;
  }

  /** The plaintext so far, and the wrapped index of the next chunk. */
  ghost predicate Gathered(chunks: seq<seq<byte>>, count: nat, i: u32, out: seq<byte>) {
    count == |chunks| && i == Index32(count) && out == Concat(chunks)
  }

  lemma GatheredNext(chunks: seq<seq<byte>>, count: nat, i: u32, out: seq<byte>, pt: seq<byte>, next: nat)
    requires Gathered(chunks, count, i, out) && next == count + 1
    ensures Gathered(chunks + [pt], next, (i + 1) % U32_RANGE, out + pt)
  {
    ConcatNext(chunks, pt);
    IndexNext(count, next);
  }

  /** `OpenStream`: the loop, on a body that is not empty. */
  method OpenLoop(k: Config, cs: u32, key: seq<byte>, body: seq<byte>)
    returns (ok: bool, out: seq<byte>, count: nat, ghost chunks: seq<seq<byte>>)
    requires k.nonceLen >= 7 && cs > 0 && body != []
    ensures ok ==> |key| == KEY_LEN && OpenFrames(k, 0, body) == Some(chunks) && WrappedLens(chunks, k.lenPlain, cs)
    ensures ok ==> out == Concat(chunks) && count == |chunks|
    ensures !ok ==> |key| != KEY_LEN || Refused(k, cs, body)
  {
    out, count, chunks := [], 0, [];
    var i: u32 := 0;
    var pos := 0;
    assert body[0..] == body;
    AfterNone(OpenFrames(k, 0, body));
    while true
      invariant Midway(k, cs, key, body, chunks, count, pos) && Gathered(chunks, count, i, out)
      decreases |body| - pos
    {
      var pt, to := ReadChunk(k, cs, key, body, pos, i, chunks);
      if pt.None? {
        return false, out, count, chunks;
      }
      GatheredNext(chunks, count, i, out, pt.value, count + 1);
      out := out + pt.value;
      count := count + 1;
      chunks := chunks + [pt.value];
      pos := to;
      if pos == |body| {
        return true, out, count, chunks;
      }
      i := (i + 1) % U32_RANGE;
    }
  }

  /** One chunk: its prefix, its bounds, its tag. */
  method ReadFrame(k: Config, key: seq<byte>, body: seq<byte>, pos: nat, i: u32, ghost at: nat) returns (r: Option<Opened>)
    requires k.nonceLen >= 7 && pos < |body| && i == Index32(at)
    ensures r == if |key| == KEY_LEN then OpenFrame(k, at, body[pos..]) else None
  {
    ghost var s := body[pos..];
    if pos + 4 > |body| {
      return None;
    }
    assert s[0..4] == body[pos..pos + 4];
    var ctLen := U32At(body, pos);
    var from := pos + 4;
    if ctLen < TAG_LEN {
      return None;
    }
    if from + ctLen > |body| {
      return None;
    }
    var ct := body[from..from + ctLen];
    assert s[4..4 + ctLen] == ct;
    var final := from + ctLen == |body|;
    var nonce := StreamNonce(k.nonceLen, k.section, i, final);
    var aad := Aad(k.section, i, k.lenPlain, k.suite);
    if |key| != KEY_LEN {
      return None;
    }
    var pt := k.a.open(nonce, ct, aad);
    if pt.None? {
      return None;
    }
    return Some(Opened(pt.value, 4 + ctLen));
  }

  lemma AfterNone(rest: Option<seq<seq<byte>>>)
    ensures After([], rest) == rest
  {
    if rest.Some? {
      assert [] + rest.value == rest.value;
    }
  }

  lemma EmptyBody(k: Config, cs: nat, p: seq<byte>)
    requires Sound(k) && LegalChunkSize(cs)
    ensures SealedBody(k, cs, p) == [] <==> p == []
  {
    var n := |p|;
    NoChunks(n, cs);
    NonEmptyFrames(k, 0, ChunksOf(p, cs));
  }

  /**
   `OpenStream` returns `p` exactly when `p` has the declared length, the body is `p` sealed,
   and the chunk index does not wrap over a short last chunk.
   */
  method OpenStream(aead: Keyed, suite: u16, section: u16, cs: u32, lenPlain: u64, key: seq<byte>, body: seq<byte>)
    returns (r: Result<seq<byte>>)
    requires Ideal(aead(key))
    ensures r.Ok? ==> KnownSuite(suite) && LegalChunkSize(cs) && (|key| == KEY_LEN || body == [])
    ensures KnownSuite(suite) && LegalChunkSize(cs) && (|key| == KEY_LEN || body == []) ==>
      forall p :: r == Ok(p) <==> OpensTo(ConfigOf(aead, key, suite, section, lenPlain), cs, body, p)
    ensures Misplaced(ConfigOf(aead, key, suite, section, lenPlain), body) ==> r.Err?
  {
    if cs < MIN_CHUNK_SIZE || cs > MAX_CHUNK_SIZE || !LegalChunkSize(cs) {
      return Err;
    }
    if !KnownSuite(suite) {
      return Err;
    }
    var k := ConfigOf(aead, key, suite, section, lenPlain);
    var want := ChunkCount(lenPlain, cs);
    CountBounds(lenPlain, cs);
    if Misplaced(k, body) {
      MisplacedRefused(k, body);
    }
    if body == [] {
      forall p
        ensures OpensTo(k, cs, body, p) <==> want == 0 && p == []
      {
        EmptyBody(k, cs, p);
      }
      if want != 0 {
        return Err;
      }
      return Ok([]);
    }
    forall p
      ensures OpensTo(k, cs, body, p) <==> exists chunks :: Yields(k, cs, body, chunks, p)
    {
      OpensToIff(k, cs, body, p);
    }
    var ok, out, count, chunks := OpenLoop(k, cs, key, body);
    if !ok {
      return Err;
    }
    if count != want {
      return Err;
    }
    if |out| != lenPlain {
      return Err;
    }
    assert Yields(k, cs, body, chunks, out);
    return Ok(out);
  }
}
