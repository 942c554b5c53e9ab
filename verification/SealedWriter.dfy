/**
 Writing encrypted sections: the pre-pass of `write_bundle` seals them and collects the key
 envelopes, and what a file then holds decrypts, under each section's key, to its plaintext.
 */
module SealedWriter {
  import opened Bytes
  import opened Blake3Tree
  import opened ChunkIndex
  import Cbor
  import CborOrder
  import CborRustEncoder
  import opened Container
  import opened Bundle
  import opened Commitment
  import opened Stream
  import opened StreamBinding
  import opened GoStream
  import opened RustStream
  import opened SealedSections
  import opened WriterPlan
  import opened WriterFile
  import opened WrittenSections
  import opened Writer

  /** The content key of each section, fresh or derived, by name. */
  type ContentKeys = u16 -> Digest

  /** The key envelopes of a section for its recipients, as CBOR. */
  type Wrapper = Spec -> Option<seq<Cbor.Value>>

  function SealSpec(aead: Keyed, z: Zstd, keys: ContentKeys, suite: u16, s: Spec): Option<seq<byte>> {
    if !s.payload.Inline? || |s.payload.bytes| >= U64_RANGE then None
    else SealedOf(aead, z, suite, s.nameId, s.chunkSize, s.comp, keys(s.nameId), s.payload.bytes)
  }

  function CompressBytes(z: Zstd, bytes: seq<byte>, cs: nat): Option<seq<byte>> {
    if Compressible(z, Parts(bytes, cs)) then Some(Concat(Compressed(z, Parts(bytes, cs)))) else None
  }

  /** The transforms of `write_bundle`, once the envelopes are known. */
  function TransformsOf(aead: Keyed, z: Zstd, keys: ContentKeys, suite: u16, envelopes: seq<byte>): Transforms {
    Transforms((bytes, cs) => CompressBytes(z, bytes, cs), s => SealSpec(aead, z, keys, suite, s), envelopes)
  }

  // ----- the pre-pass -----

  /** The envelopes of the encrypted sections, in order, if every one can be sealed. */
  function EnvelopesOf(aead: Keyed, z: Zstd, keys: ContentKeys, wrap: Wrapper, suite: u16, specs: seq<Spec>): Option<seq<Cbor.Value>> {
    if specs == [] then Some([])
    else
      var s := specs[|specs| - 1];
      var front := EnvelopesOf(aead, z, keys, wrap, suite, specs[..|specs| - 1]);
      if front.None? || !s.encrypt then front
      else if SealSpec(aead, z, keys, suite, s).None? || wrap(s).None? then None
      else Some(front.value + wrap(s).value)
  }

  predicate HasKeysPayload(specs: seq<Spec>) {
    exists s :: s in specs && s.payload.Envelopes?
  }

  /** Envelopes go into a keys section; without one there must be none. */
  function RenderedEnvelopes(specs: seq<Spec>, values: seq<Cbor.Value>): Option<seq<byte>> {
    if HasKeysPayload(specs) then
      match CborOrder.Encode(Cbor.Array(values))
      case Ok(bytes) => Some(bytes)
      case Err => None
    else if values == [] then Some([]) else None
  }

  function Prepared(aead: Keyed, z: Zstd, keys: ContentKeys, wrap: Wrapper, suite: u16, specs: seq<Spec>): Option<Transforms> {
    match EnvelopesOf(aead, z, keys, wrap, suite, specs)
    case None => None
    case Some(values) =>
      match RenderedEnvelopes(specs, values)
      case None => None
      case Some(bytes) => Some(TransformsOf(aead, z, keys, suite, bytes))
  }

  lemma EnvelopesNext(aead: Keyed, z: Zstd, keys: ContentKeys, wrap: Wrapper, suite: u16, specs: seq<Spec>, i: nat, next: nat)
    requires i < |specs| && next == i + 1
    ensures var (front, all) :=
      (EnvelopesOf(aead, z, keys, wrap, suite, specs[..i]), EnvelopesOf(aead, z, keys, wrap, suite, specs[..next]));
      all == if front.None? || !specs[i].encrypt then front
             else if SealSpec(aead, z, keys, suite, specs[i]).None? || wrap(specs[i]).None? then None
             else Some(front.value + wrap(specs[i]).value)
  {
    assert specs[..next][..i] == specs[..i];
  }

  lemma {:induction false} EnvelopesFail(aead: Keyed, z: Zstd, keys: ContentKeys, wrap: Wrapper, suite: u16, specs: seq<Spec>, i: nat)
    requires i <= |specs| && EnvelopesOf(aead, z, keys, wrap, suite, specs[..i]).None?
    ensures EnvelopesOf(aead, z, keys, wrap, suite, specs).None?
    decreases |specs| - i
  {
    if i == |specs| {
      assert specs[..i] == specs;
    } else {
      var next := i + 1;
      EnvelopesNext(aead, z, keys, wrap, suite, specs, i, next);
      EnvelopesFail(aead, z, keys, wrap, suite, specs, next);
    }
  }

  /** Every AEAD a section's content key selects is ideal. */
  ghost predicate IdealKeys(aead: Keyed, keys: ContentKeys) {
    forall nameId: u16 :: Ideal(aead(keys(nameId)))
  }

  /** The sealing loop of the pre-pass. */
  method SealAll(aead: Keyed, z: Zstd, keys: ContentKeys, wrap: Wrapper, suite: u16, specs: seq<Spec>)
    returns (r: Option<seq<Cbor.Value>>)
    requires IdealKeys(aead, keys) && forall s :: s in specs && s.payload.Inline? ==> |s.payload.bytes| < U64_RANGE
    ensures r == EnvelopesOf(aead, z, keys, wrap, suite, specs)
  {
    var envelopes: seq<Cbor.Value> := [];
    for i := 0 to |specs|
      invariant EnvelopesOf(aead, z, keys, wrap, suite, specs[..i]) == Some(envelopes)
    {
      ghost var next := i + 1;
      EnvelopesNext(aead, z, keys, wrap, suite, specs, i, next);
      var s := specs[i];
      assert s in specs;
      if s.encrypt {
        if !s.payload.Inline? {
          EnvelopesFail(aead, z, keys, wrap, suite, specs, next);
          return None;
        }
        var body := EncryptSection(aead, z, suite, s.nameId, s.chunkSize, s.comp, keys(s.nameId), s.payload.bytes);
        var wrapped := wrap(s);
        if body.None? || wrapped.None? {
          EnvelopesFail(aead, z, keys, wrap, suite, specs, next);
          return None;
        }
        envelopes := envelopes + wrapped.value;
      }
    }
    assert specs[..|specs|] == specs;
    return Some(envelopes);
  }

  method AnyKeysPayload(specs: seq<Spec>) returns (hasKeys: bool)
    ensures hasKeys <==> HasKeysPayload(specs)
  {
    for i := 0 to |specs|
      invariant forall j :: 0 <= j < i ==> !specs[j].payload.Envelopes?
    {
      if specs[i].payload.Envelopes? {
        return true;
      }
    }
    return false;
  }

  /** The pre-pass: an envelope needs a keys section to carry it. */
  method PrePass(aead: Keyed, z: Zstd, keys: ContentKeys, wrap: Wrapper, suite: u16, specs: seq<Spec>)
    returns (r: Option<Transforms>)
    requires IdealKeys(aead, keys) && forall s :: s in specs && s.payload.Inline? ==> |s.payload.bytes| < U64_RANGE
    requires EnvelopesOf(aead, z, keys, wrap, suite, specs).Some? ==>
      Cbor.WellFormed(Cbor.Array(EnvelopesOf(aead, z, keys, wrap, suite, specs).value))
    ensures r == Prepared(aead, z, keys, wrap, suite, specs)
  {
    var envelopes := SealAll(aead, z, keys, wrap, suite, specs);
    if envelopes.None? {
      return None;
    }
    var hasKeys := AnyKeysPayload(specs);
    if hasKeys {
      var bytes := CborRustEncoder.EncodeValue(Cbor.Array(envelopes.value));
      return if bytes.Ok? then Some(TransformsOf(aead, z, keys, suite, bytes.value)) else None;
    }
    if envelopes.value != [] {
      return None;
    }
    return Some(TransformsOf(aead, z, keys, suite, []));
  }

  // ----- what was sealed comes back -----

  lemma FramesSealed(aead: Keyed, z: Zstd, suite: u16, nameId: u16, cs: u32, comp: byte, key: Digest, plain: seq<byte>, body: seq<byte>)
    returns (frames: seq<seq<byte>>)
    requires |plain| < U64_RANGE && SealedOf(aead, z, suite, nameId, cs, comp, key, plain) == Some(body)
    requires (comp == 0 || comp == 1) && (comp == 1 ==> Lossless(z))
    ensures cs > 0 && AllFramable(frames) && FramesOf(z, comp, cs, plain, frames)
    ensures body == Frames(ConfigOf(aead, key, suite, nameId, |plain|), 0, frames)
  {
    if comp == 0 {
      frames := ChunksOf(plain, cs);
      ChunksFramable(plain, cs);
    } else {
      frames := Compressed(z, Parts(plain, cs));
    }
  }

  /** Past 2^32 chunks nothing opens. */
  lemma TooManyChunks(k: Config, body: seq<byte>, frames: seq<seq<byte>>)
    requires Sound(k) && AllFramable(frames) && body == Frames(k, 0, frames) && |frames| >= U32_RANGE
    ensures OpenAll(k, body).None?
  {
    NonEmptyFrames(k, 0, frames);
    OpenIff(k, 0, body, frames);
  }

  /** A sealed section decrypts to its plaintext, but for one with exactly 2^32 chunks. */
  lemma SealedComesBack(c: Compression, aead: Keyed, z: Zstd, suite: u16, r: Record, key: Digest, plain: seq<byte>, body: seq<byte>)
    requires Ideal(aead(key)) && |plain| == r.lenPlain && r.root == Blake3(c, plain)
    requires SealedOf(aead, z, suite, r.nameId, r.chunkSize, r.comp, key, plain) == Some(body)
    requires (r.comp == 0 || r.comp == 1) && (r.comp == 1 ==> Lossless(z))
    ensures r.chunkSize > 0
    ensures DecryptBody(c, z, ConfigOf(aead, key, suite, r.nameId, r.lenPlain), r, body)
      == if ExpectedChunks(r) < U32_RANGE then Some(plain) else None
  {
    var k := ConfigOf(aead, key, suite, r.nameId, r.lenPlain);
    var frames := FramesSealed(aead, z, suite, r.nameId, r.chunkSize, r.comp, key, plain, body);
    FramedUnpacks(z, r, frames, plain);
    if |frames| < U32_RANGE {
      assert SealedAs(z, k, r, body, plain, frames);
      DecryptIff(c, z, k, r, body, plain);
    } else {
      TooManyChunks(k, body, frames);
    }
  }

  /**
   Every encrypted section of a written file decrypts, under its content key, to exactly the
   bytes it was given, if it is within the decompression caps and has fewer than 2^32 chunks.
   */
  lemma EncryptedIsBack(c: Compression, aead: Keyed, z: Zstd, keys: ContentKeys, envelopes: seq<byte>, suite: u16,
                        specs: seq<Spec>, file: seq<byte>, b: Parsed, i: nat)
    requires Emitted(c, TransformsOf(aead, z, keys, suite, envelopes), suite, specs, file, b)
    requires i < |specs| && specs[i].encrypt && specs[i].kind <= MAX_KNOWN_KIND && SpecRules(specs[i])
    requires Ideal(aead(keys(specs[i].nameId))) && (specs[i].comp == 1 ==> Lossless(z))
    ensures specs[i].payload.Inline? && b.sections[i].chunkSize > 0
    ensures var r := b.sections[i];
      Decrypted(c, aead, z, suite, r, keys(r.nameId), Stored(file, r))
      == if (r.comp == 1 ==> WithinCaps(r.lenPlain, r.lenStored)) && ExpectedChunks(r) < U32_RANGE
         then Some(specs[i].payload.bytes) else None
  {
    var t := TransformsOf(aead, z, keys, suite, envelopes);
    var (s, r, p) := (specs[i], b.sections[i], Plans(c, t, specs)[i]);
    assert PlanOf(c, t, s) == Some(p) && Written(s, p, r, file);
    PlanShape(c, t, s);
    SealedPlan(c, aead, z, keys, envelopes, suite, s, p);
    SealedComesBack(c, aead, z, suite, r, keys(s.nameId), s.payload.bytes, p.stored);
  }

  lemma SealedPlan(c: Compression, aead: Keyed, z: Zstd, keys: ContentKeys, envelopes: seq<byte>, suite: u16, s: Spec, p: Plan)
    requires PlanOf(c, TransformsOf(aead, z, keys, suite, envelopes), s) == Some(p) && s.encrypt
    ensures s.payload.Inline? && |s.payload.bytes| < U64_RANGE
    ensures SealedOf(aead, z, suite, s.nameId, s.chunkSize, s.comp, keys(s.nameId), s.payload.bytes) == Some(p.stored)
    ensures p.lenPlain == |s.payload.bytes| && p.root == Blake3(c, s.payload.bytes) && p.enc == 1
  {
  }

  // ----- the envelopes and the compressed sections come back -----

  /** The frames, expanded one by one, are the shares of the plaintext, in order. */
  ghost predicate Expands(z: Zstd, cs: nat, plain: seq<byte>, parts: seq<seq<byte>>, frames: seq<seq<byte>>) {
    && |frames| == |parts| && plain == Concat(parts)
    && (forall k :: 0 <= k < |parts| ==> z.decompress(frames[k], |parts[k]|) == Some(parts[k]))
    && if cs == 0 || plain == [] then parts == [plain]
       else |parts| == ChunkCount(|plain|, cs) && forall k :: 0 <= k < |parts| ==> parts[k] == Chunk(plain, cs, k)
  }

  ghost predicate ExpandsTo(z: Zstd, cs: nat, stored: seq<byte>, plain: seq<byte>) {
    exists parts, frames :: Expands(z, cs, plain, parts, frames) && stored == Concat(frames)
  }

  /** The record describes `plain`, unencrypted, and the bytes it points to are it, or expand to it. */
  ghost predicate Back(c: Compression, z: Zstd, plain: seq<byte>, r: Record, file: seq<byte>) {
    && r.enc == 0 && r.lenPlain == |plain| && r.root == Blake3(c, plain) && StoredBytes(file, r).Some?
    && if r.comp == 0 then StoredBytes(file, r).value == plain else ExpandsTo(z, r.chunkSize, StoredBytes(file, r).value, plain)
  }

  lemma CompressedExpands(z: Zstd, plain: seq<byte>, cs: nat, stored: seq<byte>)
    requires Lossless(z) && CompressBytes(z, plain, cs) == Some(stored)
    ensures ExpandsTo(z, cs, stored, plain)
  {
    var parts := Parts(plain, cs);
    var frames := Compressed(z, parts);
    if cs == 0 || plain == [] {
      JoinOfOne(plain);
    } else {
      LengthsOfChunks(plain, cs);
    }
    assert Expands(z, cs, plain, parts, frames);
  }

  lemma HeldIsBack(c: Compression, z: Zstd, s: Spec, plain: seq<byte>, r: Record, file: seq<byte>)
    requires Holds(c, (bytes, cs) => CompressBytes(z, bytes, cs), s, plain, r, file) && Copied(s, r)
    requires s.comp == 0 || Lossless(z)
    ensures Back(c, z, plain, r, file)
  {
    if s.comp != 0 {
      CompressedExpands(z, plain, s.chunkSize, StoredBytes(file, r).value);
    }
  }

  function WrappedOne(wrap: Wrapper, s: Spec): seq<Cbor.Value> {
    if s.encrypt && wrap(s).Some? then wrap(s).value else []
  }

  /** What wrapping gave for every encrypted section, in the order of the list. */
  function Wrapped(wrap: Wrapper, specs: seq<Spec>): seq<Cbor.Value> {
    if specs == [] then [] else WrappedOne(wrap, specs[0]) + Wrapped(wrap, specs[1..])
  }

  lemma WrappedFirst(wrap: Wrapper, first: Spec, rest: seq<Spec>, all: seq<Spec>)
    requires all == [first] + rest
    ensures Wrapped(wrap, all) == WrappedOne(wrap, first) + Wrapped(wrap, rest)
  {
    assert all[1..] == rest;
  }

  lemma {:induction false} WrappedNext(wrap: Wrapper, front: seq<Spec>, s: Spec, all: seq<Spec>)
    requires all == front + [s]
    ensures Wrapped(wrap, all) == Wrapped(wrap, front) + WrappedOne(wrap, s)
    decreases |front|
  {
    if front == [] {
      assert all == [s] + [];
      WrappedFirst(wrap, s, [], all);
    } else {
      var (first, rest, after) := (front[0], front[1..], all[1..]);
      assert after == rest + [s] && front == [first] + rest && all == [first] + after;
      WrappedNext(wrap, rest, s, after);
      WrappedFirst(wrap, first, rest, front);
      WrappedFirst(wrap, first, after, all);
    }
  }

  lemma {:induction false} EnvelopesAreWrapped(aead: Keyed, z: Zstd, keys: ContentKeys, wrap: Wrapper, suite: u16, specs: seq<Spec>)
    requires EnvelopesOf(aead, z, keys, wrap, suite, specs).Some?
    ensures EnvelopesOf(aead, z, keys, wrap, suite, specs).value == Wrapped(wrap, specs)
    ensures forall i :: 0 <= i < |specs| && specs[i].encrypt ==> wrap(specs[i]).Some?
  {
    if specs != [] {
      var (front, s) := (specs[..|specs| - 1], specs[|specs| - 1]);
      assert specs == front + [s];
      EnvelopesAreWrapped(aead, z, keys, wrap, suite, front);
      WrappedNext(wrap, front, s, specs);
    }
  }

  /** An encrypted section the pre-pass can seal: inline, chunked, in at most 2^32 chunks, and wrapped for its recipients. */
  ghost predicate CanSeal(z: Zstd, wrap: Wrapper, s: Spec) {
    && s.payload.Inline? && |s.payload.bytes| < 0x1_0000_0000_0000_0000 && s.chunkSize > 0 && wrap(s).Some?
    && if s.comp == 0 then LegalChunkSize(s.chunkSize) && ChunkCount(|s.payload.bytes|, s.chunkSize) <= 0x1_0000_0000
       else exists frames :: CompressedTo(z, Parts(s.payload.bytes, s.chunkSize), frames) && Numberable(frames)
  }

  /** Each chunk's index and length fits the 32 bits it has. */
  predicate Numberable(frames: seq<seq<byte>>) {
    |frames| <= 0x1_0000_0000 && forall k :: 0 <= k < |frames| ==> |frames[k]| + 16 < 0x1_0000_0000
  }

  ghost predicate CompressedTo(z: Zstd, parts: seq<seq<byte>>, frames: seq<seq<byte>>) {
    |frames| == |parts| && forall k :: 0 <= k < |parts| ==> z.compress(parts[k]) == Some(frames[k])
  }

  lemma NumberableIff(frames: seq<seq<byte>>)
    ensures Numberable(frames) <==> |frames| <= U32_RANGE && AllFramable(frames)
  {
    if AllFramable(frames) {
      forall k | 0 <= k < |frames|
        ensures Framable(frames[k])
      {
        assert frames[k] in frames;
      }
    }
  }

  /** There is one list of frames for a list of parts, if any. */
  lemma CompressedIff(z: Zstd, parts: seq<seq<byte>>)
    ensures (exists frames :: CompressedTo(z, parts, frames) && Numberable(frames))
      <==> Compressible(z, parts) && |parts| <= U32_RANGE && AllFramable(Compressed(z, parts))
  {
    if Compressible(z, parts) {
      NumberableIff(Compressed(z, parts));
      assert CompressedTo(z, parts, Compressed(z, parts));
    }
    forall frames | CompressedTo(z, parts, frames)
      ensures Compressible(z, parts) && frames == Compressed(z, parts)
    {
    }
  }

  lemma SealsIff(aead: Keyed, z: Zstd, keys: ContentKeys, wrap: Wrapper, suite: u16, s: Spec)
    ensures SealSpec(aead, z, keys, suite, s).Some? && wrap(s).Some? <==> CanSeal(z, wrap, s)
  {
    if s.payload.Inline? {
      CompressedIff(z, Parts(s.payload.bytes, s.chunkSize));
    }
  }

  lemma {:induction false} EnvelopesIff(aead: Keyed, z: Zstd, keys: ContentKeys, wrap: Wrapper, suite: u16, specs: seq<Spec>)
    ensures EnvelopesOf(aead, z, keys, wrap, suite, specs).Some?
      <==> forall i :: 0 <= i < |specs| && specs[i].encrypt ==> CanSeal(z, wrap, specs[i])
  {
    if specs != [] {
      var n := |specs| - 1;
      EnvelopesIff(aead, z, keys, wrap, suite, specs[..n]);
      SealsIff(aead, z, keys, wrap, suite, specs[n]);
      assert forall i :: 0 <= i < n ==> specs[..n][i] == specs[i];
    }
  }

  /** When the pre-pass succeeds: it can seal what it is to seal, and a keys section takes the envelopes. */
  lemma PreparedIff(aead: Keyed, z: Zstd, keys: ContentKeys, wrap: Wrapper, suite: u16, specs: seq<Spec>)
    ensures Prepared(aead, z, keys, wrap, suite, specs).Some? <==>
      && (forall i :: 0 <= i < |specs| && specs[i].encrypt ==> CanSeal(z, wrap, specs[i]))
      && if exists s :: s in specs && s.payload.Envelopes? then CborOrder.Encode(Cbor.Array(Wrapped(wrap, specs))).Ok?
         else Wrapped(wrap, specs) == []
  {
    EnvelopesIff(aead, z, keys, wrap, suite, specs);
    if EnvelopesOf(aead, z, keys, wrap, suite, specs).Some? {
      EnvelopesAreWrapped(aead, z, keys, wrap, suite, specs);
    }
  }

  /** Envelopes are never dropped: without a keys section there are none. */
  lemma PreparedWrapped(aead: Keyed, z: Zstd, keys: ContentKeys, wrap: Wrapper, suite: u16, specs: seq<Spec>)
    requires Prepared(aead, z, keys, wrap, suite, specs).Some?
    ensures EnvelopesOf(aead, z, keys, wrap, suite, specs) == Some(Wrapped(wrap, specs))
    ensures HasKeysPayload(specs) || Wrapped(wrap, specs) == []
  {
    EnvelopesAreWrapped(aead, z, keys, wrap, suite, specs);
  }

  /** What a section that is not encrypted gives back: its bytes, or the envelopes. */
  ghost predicate ComesBack(c: Compression, z: Zstd, wrap: Wrapper, specs: seq<Spec>, s: Spec, r: Record, file: seq<byte>) {
    match s.payload
    case Inline(bytes) => !s.encrypt ==> Back(c, z, bytes, r, file)
    case Envelopes =>
      exists plain :: Back(c, z, plain, r, file) && Cbor.Decode(plain) == Ok(CborOrder.Canon(Cbor.Array(Wrapped(wrap, specs))))
    case External(_, _) => true
  }

  /**
   Uncompressed, or compressed without loss, every plain section of a written file gives its
   bytes back, and a keys section the envelopes of all the encrypted ones.
   */
  lemma SectionComesBack(c: Compression, aead: Keyed, z: Zstd, keys: ContentKeys, wrap: Wrapper, suite: u16,
                       specs: seq<Spec>, records: seq<Record>, file: seq<byte>, i: nat)
    requires Prepared(aead, z, keys, wrap, suite, specs).Some? && i < |specs| && (specs[i].comp == 0 || Lossless(z))
    requires AllAsAsked(c, Prepared(aead, z, keys, wrap, suite, specs).value, specs, records, file)
    requires Cbor.WellFormed(Cbor.Array(Wrapped(wrap, specs)))
    ensures ComesBack(c, z, wrap, specs, specs[i], records[i], file)
  {
    var (t, s, r) := (Prepared(aead, z, keys, wrap, suite, specs).value, specs[i], records[i]);
    assert AsAsked(c, t, s, r, file);
    match s.payload
    case Inline(bytes) =>
      if !s.encrypt {
        HeldIsBack(c, z, s, bytes, r, file);
      }
    case Envelopes =>
      assert s in specs && HasKeysPayload(specs);
      EnvelopesAreWrapped(aead, z, keys, wrap, suite, specs);
      CborOrder.DecodeOfEncode(Cbor.Array(Wrapped(wrap, specs)));
      HeldIsBack(c, z, s, t.envelopes, r, file);
    case External(_, _) =>
  }

  /** The chunks an encrypted section is sealed in: those of its bytes, or what each compressed to. */
  ghost predicate ChunksSealed(z: Zstd, s: Spec, bytes: seq<byte>, chunks: seq<seq<byte>>) {
    s.chunkSize > 0 && if s.comp == 0 then chunks == ChunksOf(bytes, s.chunkSize) else CompressedTo(z, Parts(bytes, s.chunkSize), chunks)
  }

  /** The body is one frame for each chunk, each sealed for its place. */
  ghost predicate FramesHeld(k: Config, chunks: seq<seq<byte>>, body: seq<byte>) {
    exists frames :: AllFrames(k, chunks, frames) && body == Concat(frames)
  }

  ghost predicate AllFrames(k: Config, chunks: seq<seq<byte>>, frames: seq<seq<byte>>) {
    |frames| == |chunks| && forall j :: 0 <= j < |chunks| ==> IsFrame(k, j, j == |chunks| - 1, chunks[j], frames[j])
  }

  /** What an encrypted section stores, frame by frame. */
  lemma EncryptedIsFrames(c: Compression, aead: Keyed, z: Zstd, keys: ContentKeys, envelopes: seq<byte>, suite: u16, s: Spec,
                          r: Record, file: seq<byte>, bytes: seq<byte>)
    requires AsAsked(c, TransformsOf(aead, z, keys, suite, envelopes), s, r, file) && s.encrypt && s.payload == Inline(bytes)
    requires Ideal(aead(keys(s.nameId)))
    ensures |bytes| < U64_RANGE && StoredBytes(file, r).Some?
    ensures exists chunks :: ChunksSealed(z, s, bytes, chunks) && FramesHeld(
      Config(aead(keys(s.nameId)), suite, if suite == 2 then 24 else 12, s.nameId, |bytes|), chunks, StoredBytes(file, r).value)
  {
    var k := ConfigOf(aead, keys(s.nameId), suite, s.nameId, |bytes|);
    var chunks := if s.comp == 0 then ChunksOf(bytes, s.chunkSize) else Compressed(z, Parts(bytes, s.chunkSize));
    if s.comp == 0 {
      ChunksFramable(bytes, s.chunkSize);
    }
    assert forall j :: 0 <= j < |chunks| ==> chunks[j] in chunks;
    FramesAre(k, chunks);
    assert AllFrames(k, chunks, FrameList(k, 0, chunks));
    assert ChunksSealed(z, s, bytes, chunks);
  }

  /** The file carries what was asked, and gives back what can be had without a content key. */
  ghost predicate Delivers(c: Compression, t: Transforms, z: Zstd, wrap: Wrapper, suite: u16, specs: seq<Spec>, file: seq<byte>,
                           b: Parsed) {
    && Emitted(c, t, suite, specs, file, b) && AllAsAsked(c, t, specs, b.sections, file)
    && forall i :: 0 <= i < |specs| && (specs[i].comp == 0 || Lossless(z)) ==>
         ComesBack(c, z, wrap, specs, specs[i], b.sections[i], file)
  }

  lemma AllComesBack(c: Compression, aead: Keyed, z: Zstd, keys: ContentKeys, wrap: Wrapper, suite: u16, specs: seq<Spec>,
                     file: seq<byte>, b: Parsed)
    requires Prepared(aead, z, keys, wrap, suite, specs).Some? && Cbor.WellFormed(Cbor.Array(Wrapped(wrap, specs)))
    requires Emitted(c, Prepared(aead, z, keys, wrap, suite, specs).value, suite, specs, file, b)
    requires AllAsAsked(c, Prepared(aead, z, keys, wrap, suite, specs).value, specs, b.sections, file)
    ensures Delivers(c, Prepared(aead, z, keys, wrap, suite, specs).value, z, wrap, suite, specs, file, b)
  {
    forall i | 0 <= i < |specs| && (specs[i].comp == 0 || Lossless(z))
      ensures ComesBack(c, z, wrap, specs, specs[i], b.sections[i], file)
    {
      SectionComesBack(c, aead, z, keys, wrap, suite, specs, b.sections, file, i);
    }
  }

  ghost predicate Delivered(c: Compression, t: Transforms, z: Zstd, wrap: Wrapper, ok: ManifestCheck, suite: u16, specs: seq<Spec>,
                            file: seq<byte>) {
    exists b :: IsBundle(c, ok, file, b) && Delivers(c, t, z, wrap, suite, specs, file, b)
  }

  lemma WrittenDelivers(c: Compression, aead: Keyed, z: Zstd, keys: ContentKeys, wrap: Wrapper, ok: ManifestCheck, suite: u16,
                        specs: seq<Spec>, file: seq<byte>, t: Transforms)
    requires Prepared(aead, z, keys, wrap, suite, specs) == Some(t) && Cbor.WellFormed(Cbor.Array(Wrapped(wrap, specs)))
    requires exists b :: Emitted(c, t, suite, specs, file, b) && IsBundle(c, ok, file, b) && AllAsAsked(c, t, specs, b.sections, file)
    ensures Delivered(c, t, z, wrap, ok, suite, specs, file)
  {
    var b :| Emitted(c, t, suite, specs, file, b) && IsBundle(c, ok, file, b) && AllAsAsked(c, t, specs, b.sections, file);
    AllComesBack(c, aead, z, keys, wrap, suite, specs, file, b);
  }

  /** All that a reader checks holds of the file, but for the contents of its manifest. */
  ghost predicate OnlyManifestRefused(c: Compression, t: Transforms, ok: ManifestCheck, suite: u16, specs: seq<Spec>) {
    exists file, b :: Emitted(c, t, suite, specs, file, b) && !ok(b.manifest, b.sections)
  }

  /** The passes after the pre-pass. */
  method WritePrepared(c: Compression, ghost aead: Keyed, ghost z: Zstd, ghost keys: ContentKeys, ghost wrap: Wrapper, ok: ManifestCheck,
                       suite: u16, specs: seq<Spec>, t: Transforms)
    returns (r: Result<seq<byte>>)
    requires Prepared(aead, z, keys, wrap, suite, specs) == Some(t) && Cbor.WellFormed(Cbor.Array(Wrapped(wrap, specs)))
    ensures r.Ok? ==> KnownSuite(suite) && GoodSpecs(specs) && Delivered(c, t, z, wrap, ok, suite, specs, r.value)
    ensures KnownSuite(suite) && Writable(c, t, specs) && r.Err? ==> OnlyManifestRefused(c, t, ok, suite, specs)
  {
    r := WriteBundle(c, t, ok, suite, specs);
    if r.Ok? {
      WrittenDelivers(c, aead, z, keys, wrap, ok, suite, specs, r.value, t);
    }
  }

  /**
   All of `write_bundle`, pre-pass included. When the pre-pass seals what it is given and the
   result keeps the rules and fits, only the manifest's contents can be refused.
   */
  method WriteSealed(c: Compression, aead: Keyed, z: Zstd, keys: ContentKeys, wrap: Wrapper, ok: ManifestCheck,
                     suite: u16, specs: seq<Spec>)
    returns (r: Result<seq<byte>>)
    requires IdealKeys(aead, keys) && forall s :: s in specs && s.payload.Inline? ==> |s.payload.bytes| < U64_RANGE
    requires EnvelopesOf(aead, z, keys, wrap, suite, specs).Some? ==>
      Cbor.WellFormed(Cbor.Array(EnvelopesOf(aead, z, keys, wrap, suite, specs).value))
    ensures r.Ok? ==> KnownSuite(suite) && Prepared(aead, z, keys, wrap, suite, specs).Some? && GoodSpecs(specs)
    ensures r.Ok? ==> Delivered(c, Prepared(aead, z, keys, wrap, suite, specs).value, z, wrap, ok, suite, specs, r.value)
    ensures r.Ok? ==> HasKeysPayload(specs) || Wrapped(wrap, specs) == []
    ensures KnownSuite(suite) && r.Err? && Prepared(aead, z, keys, wrap, suite, specs).Some? ==>
      var t := Prepared(aead, z, keys, wrap, suite, specs).value;
      Writable(c, t, specs) ==> OnlyManifestRefused(c, t, ok, suite, specs)
  {
    if !KnownSuite(suite) || |specs| > MAX_SECTIONS {
      return Err;
    }
    var t := PrePass(aead, z, keys, wrap, suite, specs);
    if t.None? {
      return Err;
    }
    PreparedWrapped(aead, z, keys, wrap, suite, specs);
    r := WritePrepared(c, aead, z, keys, wrap, ok, suite, specs, t.value);
  }
}
