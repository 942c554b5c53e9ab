/**
 Encrypted sections: the writer compresses and then seals a section frame by frame, one
 STREAM chunk each (`encrypt_section`), and the reader undoes both (`decrypt_section_bytes`).
 What the writer put into a file comes back out, up to the one chunk count the two differ on.
 */
module SealedSections {
  import opened Bytes
  import opened Blake3Tree
  import opened ChunkIndex
  import opened Container
  import opened Bundle
  import opened Commitment
  import opened Stream
  import opened GoStream
  import opened RustStream

  /** The zstd calls on one frame. */
  datatype Zstd = Zstd(
    compress: seq<byte> -> Option<seq<byte>>,
    decompress: (seq<byte>, nat) -> Option<seq<byte>>)

  /** What is asked of them: a frame expands, under the right length, to what it was made from. */
  ghost predicate Lossless(z: Zstd) {
    forall p, f :: z.compress(p) == Some(f) ==> z.decompress(f, |p|) == Some(p)
  }

  /** `decompress_exact`. */
  function DecompressExact(z: Zstd, frame: seq<byte>, want: nat): Option<seq<byte>> {
    match z.decompress(frame, want)
    case None => None
    case Some(p) => if |p| == want then Some(p) else None
  }

  // ----- compressing in frames -----

  /** What each frame covers: one chunk, or everything when there are no chunks to cut. */
  function Parts(plain: seq<byte>, cs: nat): seq<seq<byte>> {
    if cs == 0 || plain == [] then [plain] else ChunksOf(plain, cs)
  }

  predicate Compressible(z: Zstd, parts: seq<seq<byte>>) {
    forall i :: 0 <= i < |parts| ==> z.compress(parts[i]).Some?
  }

  function Compressed(z: Zstd, parts: seq<seq<byte>>): (frames: seq<seq<byte>>)
    requires Compressible(z, parts)
    ensures |frames| == |parts| && forall i :: 0 <= i < |parts| ==> z.compress(parts[i]) == Some(frames[i])
  {
    seq(|parts|, i requires 0 <= i < |parts| => z.compress(parts[i]).value)
  }

  /** `compress_frames`. */
  method CompressFrames(z: Zstd, plain: seq<byte>, cs: nat) returns (r: Option<seq<seq<byte>>>)
    ensures r == if Compressible(z, Parts(plain, cs)) then Some(Compressed(z, Parts(plain, cs))) else None
  {
    if cs == 0 || plain == [] {
      var frame := z.compress(plain);
      assert Parts(plain, cs)[0] == plain;
      if frame.None? {
        return None;
      }
      assert Compressed(z, Parts(plain, cs)) == [frame.value];
      return Some([frame.value]);
    }
    var chunks := Split(cs, plain);
    r := CompressEach(z, chunks);
  }

  method CompressEach(z: Zstd, chunks: seq<seq<byte>>) returns (r: Option<seq<seq<byte>>>)
    ensures r == if Compressible(z, chunks) then Some(Compressed(z, chunks)) else None
  {
    var out: seq<seq<byte>> := [];
    for i := 0 to |chunks|
      invariant |out| == i && forall j :: 0 <= j < i ==> z.compress(chunks[j]) == Some(out[j])
    {
      var frame := z.compress(chunks[i]);
      if frame.None? {
        return None;
      }
      out := out + [frame.value];
    }
    assert out == Compressed(z, chunks);
    return Some(out);
  }

  // ----- sealing a section -----

  /** What `encrypt_section` makes of a plaintext: compress, then seal. */
  function SealedOf(aead: Keyed, z: Zstd, suite: u16, nameId: u16, cs: u32, comp: byte, key: Digest, plain: seq<byte>): Option<seq<byte>>
    requires |plain| < U64_RANGE
  {
    var k := ConfigOf(aead, key, suite, nameId, |plain|);
    if cs == 0 then None
    else if comp == 0 then
      if LegalChunkSize(cs) && ChunkCount(|plain|, cs) <= U32_RANGE then Some(SealedBody(k, cs, plain)) else None
    else if !Compressible(z, Parts(plain, cs)) then None
    else
      var frames := Compressed(z, Parts(plain, cs));
      if |frames| <= U32_RANGE && AllFramable(frames) then Some(Frames(k, 0, frames)) else None
  }

  /** `encrypt_section`, without the envelopes. */
  method EncryptSection(aead: Keyed, z: Zstd, suite: u16, nameId: u16, cs: u32, comp: byte, key: Digest, plain: seq<byte>)
    returns (r: Option<seq<byte>>)
    requires |plain| < U64_RANGE && Ideal(aead(key))
    ensures r == SealedOf(aead, z, suite, nameId, cs, comp, key, plain)
  {
    if cs == 0 {
      return None;
    }
    if comp == 0 {
      var body := SealChunked(aead, suite, nameId, cs, key, plain);
      return if body.Ok? then Some(body.value) else None;
    }
    var frames := CompressFrames(z, plain, cs);
    if frames.None? {
      return None;
    }
    var body := SealFrames(aead, suite, nameId, key, |plain|, frames.value);
    return if body.Ok? then Some(body.value) else None;
  }

  // ----- opening a section -----

  /** The chunks a section must have: its frames, so one even for an empty compressed plaintext. */
  function ExpectedChunks(r: Record): nat
    requires r.chunkSize > 0
  {
    if r.comp == 1 && r.lenPlain == 0 then 1 else ChunkCount(r.lenPlain, r.chunkSize)
  }

  /** The right number of chunks; an empty compressed body is also taken. */
  predicate RightCount(r: Record, frames: seq<seq<byte>>)
    requires r.chunkSize > 0
  {
    |frames| == ExpectedChunks(r) || (r.comp == 1 && r.lenPlain == 0 && frames == [])
  }

  /** One chunk's plaintext, of exactly its share of the section. */
  function ReadPart(z: Zstd, comp: byte, frame: seq<byte>, want: nat): Option<seq<byte>> {
    if comp == 0 then if |frame| == want then Some(frame) else None
    else DecompressExact(z, frame, want)
  }

  function Unpack(z: Zstd, comp: byte, frames: seq<seq<byte>>, len: nat, cs: nat): Option<seq<byte>> {
    if frames == [] then Some([])
    else
      var n := |frames| - 1;
      match Unpack(z, comp, frames[..n], len, cs)
      case None => None
      case Some(front) =>
        match ReadPart(z, comp, frames[n], ChunkLen(len, cs, n))
        case None => None
        case Some(part) => Some(front + part)
  }

  /** What a body decrypts to: the plaintext of its record's root, or nothing. */
  function DecryptBody(c: Compression, z: Zstd, k: Config, r: Record, body: seq<byte>): Option<seq<byte>>
    requires k.nonceLen >= 7 && r.chunkSize > 0
  {
    match OpenAll(k, body)
    case None => None
    case Some(frames) =>
      if !RightCount(r, frames) then None
      else
        match Unpack(z, r.comp, frames, r.lenPlain, r.chunkSize)
        case None => None
        case Some(plain) => if Blake3(c, plain) == r.root then Some(plain) else None
  }

  /** The sections that can be decrypted at all. */
  predicate Decryptable(r: Record) {
    && r.kind <= MAX_KNOWN_KIND && !External(r.flags) && r.enc == 1
    && (r.comp == 1 ==> WithinCaps(r.lenPlain, r.lenStored))
  }

  /** What the stored bytes of a section decrypt to under a key. */
  function Decrypted(c: Compression, aead: Keyed, z: Zstd, suite: u16, r: Record, key: seq<byte>, stored: seq<byte>): Option<seq<byte>> {
    if !Decryptable(r) || |key| != KEY_LEN || r.chunkSize == 0 then None
    else DecryptBody(c, z, ConfigOf(aead, key, suite, r.nameId, r.lenPlain), r, stored)
  }

  lemma UnpackNext(z: Zstd, comp: byte, frames: seq<seq<byte>>, len: nat, cs: nat, i: nat, next: nat)
    requires i < |frames| && next == i + 1
    ensures Unpack(z, comp, frames[..next], len, cs) ==
      match Unpack(z, comp, frames[..i], len, cs)
      case None => None
      case Some(front) =>
        match ReadPart(z, comp, frames[i], ChunkLen(len, cs, i))
        case None => None
        case Some(part) => Some(front + part)
  {
    assert frames[..next][..i] == frames[..i];
  }

  lemma {:induction false} UnpackFails(z: Zstd, comp: byte, frames: seq<seq<byte>>, len: nat, cs: nat, i: nat)
    requires i <= |frames| && Unpack(z, comp, frames[..i], len, cs).None?
    ensures Unpack(z, comp, frames, len, cs).None?
    decreases |frames| - i
  {
    if i == |frames| {
      assert frames[..i] == frames;
    } else {
      var next := i + 1;
      UnpackNext(z, comp, frames, len, cs, i, next);
      UnpackFails(z, comp, frames, len, cs, next);
    }
  }

  /** A chunk of a section starts inside it, but for the one chunk of an empty one. */
  lemma ChunkStarts(r: Record, i: nat, start: nat)
    requires r.chunkSize > 0 && i < ExpectedChunks(r) && start == i * r.chunkSize
    ensures start <= r.lenPlain && ChunkLen(r.lenPlain, r.chunkSize, i) == Min(r.lenPlain - start, r.chunkSize)
  {
    if r.comp == 1 && r.lenPlain == 0 {
      assert i == 0;
    } else {
      ChunkInside(r.lenPlain, r.chunkSize, i);
    }
  }

  /** The loop over the frames. Its subtraction never goes below zero. */
  method UnpackFrames(z: Zstd, r: Record, frames: seq<seq<byte>>) returns (plain: Option<seq<byte>>)
    requires r.chunkSize > 0 && |frames| <= ExpectedChunks(r)
    ensures plain == Unpack(z, r.comp, frames, r.lenPlain, r.chunkSize)
  {
    var out: seq<byte> := [];
    for i := 0 to |frames|
      invariant Unpack(z, r.comp, frames[..i], r.lenPlain, r.chunkSize) == Some(out)
    {
      var start := i * r.chunkSize;
      ChunkStarts(r, i, start);
      ghost var next := i + 1;
      UnpackNext(z, r.comp, frames, r.lenPlain, r.chunkSize, i, next);
      var left: nat := r.lenPlain - start;
      var want := Min(left, r.chunkSize);
      if r.comp == 0 {
        if |frames[i]| != want {
          UnpackFails(z, r.comp, frames, r.lenPlain, r.chunkSize, next);
          return None;
        }
        out := out + frames[i];
      } else {
        var part := DecompressExact(z, frames[i], want);
        if part.None? {
          UnpackFails(z, r.comp, frames, r.lenPlain, r.chunkSize, next);
          return None;
        }
        out := out + part.value;
      }
    }
    assert frames[..|frames|] == frames;
    return Some(out);
  }

  /** `decrypt_section_bytes`. */
  method DecryptSection(c: Compression, aead: Keyed, z: Zstd, ghost ok: ManifestCheck, file: seq<byte>, b: Parsed,
                        record: Record, key: seq<byte>)
    returns (r: Result<seq<byte>>)
    requires IsBundle(c, ok, file, b)
    ensures r.Ok? <==> record in b.sections && Decrypted(c, aead, z, b.header.suite, record, key, Stored(file, record)).Some?
    ensures r.Ok? ==> Decrypted(c, aead, z, b.header.suite, record, key, Stored(file, record)) == Some(r.value)
    ensures r.Ok? <==>
      && record in b.sections && record.kind <= 8 && record.flags / 4 % 2 == 0 && record.enc == 1 && |key| == 32
      && (record.comp == 1 ==> record.lenPlain <= 0x10_0000_0000 && record.lenPlain <= 0x1_0000 * record.lenStored)
      && record.chunkSize > 0
      && DecryptBody(c, z, ConfigOf(aead, key, b.header.suite, record.nameId, record.lenPlain), record, Stored(file, record)).Some?
  {
    var owned := Owned(b.sections, record);
    if !owned {
      return Err;
    }
    if record.kind > MAX_KNOWN_KIND || External(record.flags) || record.enc != 1 {
      return Err;
    }
    if record.comp == 1 && !WithinCaps(record.lenPlain, record.lenStored) {
      return Err;
    }
    assert RecordRules(record);
    var k := ConfigOf(aead, key, b.header.suite, record.nameId, record.lenPlain);
    var frames := OpenChunkedFrames(k, key, Stored(file, record));
    if frames.None? {
      return Err;
    }
    var expected := if record.comp == 1 && record.lenPlain == 0 then 1 else ChunkCount(record.lenPlain, record.chunkSize);
    var emptyZstdBody := record.comp == 1 && record.lenPlain == 0 && frames.value == [];
    if |frames.value| != expected && !emptyZstdBody {
      return Err;
    }
    var plain := UnpackFrames(z, record, frames.value);
    if plain.None? {
      return Err;
    }
    if Blake3(c, plain.value) != record.root {
      return Err;
    }
    return Ok(plain.value);
  }

  // ----- what the frames of a section unpack to -----

  /** The parts, one for each frame. */
  ghost predicate PartsRead(z: Zstd, comp: byte, frames: seq<seq<byte>>, parts: seq<seq<byte>>, len: nat, cs: nat) {
    |parts| == |frames| && forall i :: 0 <= i < |frames| ==> ReadPart(z, comp, frames[i], ChunkLen(len, cs, i)) == Some(parts[i])
  }

  lemma {:induction false} PartsUnpack(z: Zstd, comp: byte, frames: seq<seq<byte>>, parts: seq<seq<byte>>, len: nat, cs: nat)
    requires PartsRead(z, comp, frames, parts, len, cs)
    ensures Unpack(z, comp, frames, len, cs) == Some(Concat(parts))
    decreases |frames|
  {
    if frames != [] {
      var n := |frames| - 1;
      PartsUnpack(z, comp, frames[..n], parts[..n], len, cs);
    }
  }

  lemma {:induction false} UnpackedParts(z: Zstd, comp: byte, frames: seq<seq<byte>>, len: nat, cs: nat) returns (parts: seq<seq<byte>>)
    requires Unpack(z, comp, frames, len, cs).Some?
    ensures PartsRead(z, comp, frames, parts, len, cs)
    decreases |frames|
  {
    parts := [];
    if frames != [] {
      var n := |frames| - 1;
      parts := UnpackedParts(z, comp, frames[..n], len, cs);
      parts := parts + [ReadPart(z, comp, frames[n], ChunkLen(len, cs, n)).value];
    }
  }

  lemma PartLengths(z: Zstd, comp: byte, frames: seq<seq<byte>>, parts: seq<seq<byte>>, len: nat, cs: nat)
    requires PartsRead(z, comp, frames, parts, len, cs)
    ensures forall i :: 0 <= i < |parts| ==> |parts[i]| == ChunkLen(len, cs, i)
  {
  }

  lemma JoinOfOne(part: seq<byte>)
    ensures Concat([part]) == part
  {
    assert [part][..0] == [];
  }

  /** The frames of a body, as the parts of `p`, one for one. */
  ghost predicate FramesOf(z: Zstd, comp: byte, cs: nat, p: seq<byte>, frames: seq<seq<byte>>)
    requires cs > 0
  {
    var parts := if comp == 0 then ChunksOf(p, cs) else Parts(p, cs);
    |frames| == |parts| && forall i :: 0 <= i < |parts| ==> ReadPart(z, comp, frames[i], |parts[i]|) == Some(parts[i])
  }

  /** A count that fits, and frames that unpack, are the parts of what they unpack to. */
  lemma UnpackedIsFramed(z: Zstd, r: Record, frames: seq<seq<byte>>, p: seq<byte>)
    requires r.chunkSize > 0 && |frames| == ExpectedChunks(r) && (r.comp == 0 || r.comp == 1)
    requires Unpack(z, r.comp, frames, r.lenPlain, r.chunkSize) == Some(p)
    ensures |p| == r.lenPlain && FramesOf(z, r.comp, r.chunkSize, p, frames)
  {
    var (len, cs) := (r.lenPlain, r.chunkSize);
    var parts := UnpackedParts(z, r.comp, frames, len, cs);
    PartsUnpack(z, r.comp, frames, parts, len, cs);
    PartLengths(z, r.comp, frames, parts, len, cs);
    if r.comp == 1 && len == 0 {
      assert parts == [parts[0]] && |parts[0]| == 0;
      JoinOfOne(parts[0]);
      assert p == [] && Parts(p, cs) == [p] == parts;
    } else {
      ChunksOfJoined(parts, len, cs);
      assert r.comp == 1 ==> Parts(p, cs) == ChunksOf(p, cs);
    }
  }

  lemma FramedUnpacks(z: Zstd, r: Record, frames: seq<seq<byte>>, p: seq<byte>)
    requires r.chunkSize > 0 && (r.comp == 0 || r.comp == 1)
    requires |p| == r.lenPlain && FramesOf(z, r.comp, r.chunkSize, p, frames)
    ensures |frames| == ExpectedChunks(r) && Unpack(z, r.comp, frames, r.lenPlain, r.chunkSize) == Some(p)
  {
    var (len, cs) := (r.lenPlain, r.chunkSize);
    var parts := if r.comp == 0 then ChunksOf(p, cs) else Parts(p, cs);
    LengthsOfChunks(p, cs);
    NoChunks(len, cs);
    if r.comp == 1 && p == [] {
      JoinOfOne(p);
      assert parts == [p] && ChunkLen(len, cs, 0) == 0;
    }
    assert PartsRead(z, r.comp, frames, parts, len, cs);
    PartsUnpack(z, r.comp, frames, parts, len, cs);
  }

  /** A body that is the frames of `p`, sealed in order; an empty compressed one may have none. */
  ghost predicate SealedAs(z: Zstd, k: Config, r: Record, body: seq<byte>, p: seq<byte>, frames: seq<seq<byte>>)
    requires k.nonceLen >= 7 && r.chunkSize > 0
  {
    && |p| == r.lenPlain && |frames| < U32_RANGE && AllFramable(frames) && body == Frames(k, 0, frames)
    && (FramesOf(z, r.comp, r.chunkSize, p, frames) || (r.comp == 1 && p == [] && frames == []))
  }

  lemma OpenAllIff(k: Config, body: seq<byte>, frames: seq<seq<byte>>)
    requires Sound(k)
    ensures OpenAll(k, body) == Some(frames) <==> |frames| < U32_RANGE && AllFramable(frames) && body == Frames(k, 0, frames)
  {
    NonEmptyFrames(k, 0, frames);
    if body != [] {
      OpenIff(k, 0, body, frames);
    }
  }

  /**
   What decrypts is what was sealed: a body gives `p` exactly when it is the frames of `p`,
   sealed in order under this key, and `p` has the root of the record.
   */
  lemma DecryptIff(c: Compression, z: Zstd, k: Config, r: Record, body: seq<byte>, p: seq<byte>)
    requires Sound(k) && r.chunkSize > 0 && (r.comp == 0 || r.comp == 1)
    ensures DecryptBody(c, z, k, r, body) == Some(p)
      <==> Blake3(c, p) == r.root && exists frames :: SealedAs(z, k, r, body, p, frames)
  {
    forall frames | SealedAs(z, k, r, body, p, frames) && Blake3(c, p) == r.root
      ensures DecryptBody(c, z, k, r, body) == Some(p)
    {
      OpenAllIff(k, body, frames);
      if FramesOf(z, r.comp, r.chunkSize, p, frames) {
        FramedUnpacks(z, r, frames, p);
      }
    }
    if DecryptBody(c, z, k, r, body) == Some(p) {
      var frames := OpenAll(k, body).value;
      OpenAllIff(k, body, frames);
      if |frames| == ExpectedChunks(r) {
        UnpackedIsFramed(z, r, frames, p);
      }
      assert SealedAs(z, k, r, body, p, frames);
    }
  }
}
