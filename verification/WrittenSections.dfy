/**
 What a written file holds for each section, byte range by byte range: the record copies what
 was asked for, and the bytes it points to are the payload and the chunk index.
 */
module WrittenSections {
  import opened Bytes
  import opened Fields
  import opened Blake3Tree
  import opened ChunkIndex
  import opened Container
  import opened Layout
  import opened Bundle
  import opened Commitment
  import opened WriterPlan
  import opened WriterFile

  predicate Copied(s: Spec, r: Record) {
    r.kind == s.kind && r.nameId == s.nameId && r.flags == s.flags && r.comp == s.comp && r.chunkSize == s.chunkSize
  }

  /** The bytes a record points to. */
  function StoredBytes(file: seq<byte>, r: Record): Option<seq<byte>> {
    if r.offset + r.lenStored <= |file| then Some(file[r.offset..r.offset + r.lenStored]) else None
  }

  /** The record describes `bytes`, and points to them, or to what compressing them gave. */
  ghost predicate Holds(c: Compression, z: Compressor, s: Spec, bytes: seq<byte>, r: Record, file: seq<byte>) {
    && r.enc == 0 && r.lenPlain == |bytes| && r.root == Blake3(c, bytes)
    && StoredBytes(file, r).Some? && StoredBytes(file, r) == if s.comp == 0 then Some(bytes) else z(bytes, s.chunkSize)
  }

  /** The chaining value of every chunk of `bytes`, in order, at the index offset; none of a single chunk. */
  ghost predicate IndexHeld(c: Compression, s: Spec, bytes: seq<byte>, r: Record, file: seq<byte>) {
    && (r.indexOff != 0 <==> s.chunkSize != 0 && |bytes| > s.chunkSize)
    && (r.indexOff != 0 ==> LegalChunkSize(s.chunkSize) && EntriesHeld(ChunkCvs(c, bytes, s.chunkSize), r, file))
  }

  ghost predicate EntriesHeld(cvs: seq<Digest>, r: Record, file: seq<byte>) {
    forall i :: 0 <= i < |cvs| ==> At(file, r.indexOff + 32 * i, cvs[i])
  }

  /** The section came out as it was asked for. */
  ghost predicate AsAsked(c: Compression, t: Transforms, s: Spec, r: Record, file: seq<byte>) {
    && Copied(s, r)
    && match s.payload
       case External(lenPlain, root) =>
         && r.enc == 0 && r.offset == 0 && r.lenStored == 0 && r.lenPlain == lenPlain && r.root == root
         && (r.indexOff != 0 <==> s.chunkIndex.Some?) && (s.chunkIndex.Some? ==> At(file, r.indexOff, s.chunkIndex.value))
       case Envelopes => r.indexOff == 0 && Holds(c, t.compress, s, t.envelopes, r, file)
       case Inline(bytes) =>
         if s.encrypt then
           && r.enc == 1 && r.indexOff == 0 && r.lenPlain == |bytes| && r.root == Blake3(c, bytes)
           && StoredBytes(file, r).Some? && StoredBytes(file, r) == t.seal(s)
         else Holds(c, t.compress, s, bytes, r, file) && IndexHeld(c, s, bytes, r, file)
  }

  ghost predicate AllAsAsked(c: Compression, t: Transforms, specs: seq<Spec>, records: seq<Record>, file: seq<byte>) {
    |records| == |specs| && forall i :: 0 <= i < |specs| ==> AsAsked(c, t, specs[i], records[i], file)
  }

  // ----- a plan carried out -----

  lemma StoredInFile(file: seq<byte>, r: Record, n: nat)
    requires RecordRules(r) && EndsBy(r, n) && n <= |file| && !Container.External(r.flags)
    ensures StoredBytes(file, r) == Some(Stored(file, r))
  {
  }

  /** Entries read from a range of the file are where the range is. */
  lemma EntriesInFile(file: seq<byte>, r: Record, n: nat)
    requires RecordRules(r) && EndsBy(r, n) && n <= |file| && HasIndex(r)
    ensures EntriesHeld(IndexEntries(file, r), r, file)
  {
    IndexIsEntries(file, r, n);
    var (g, cvs) := (IndexRange(r), IndexEntries(file, r));
    forall i | 0 <= i < |cvs|
      ensures At(file, r.indexOff + 32 * i, cvs[i])
    {
      var (from, to) := (32 * i, 32 * i + 32);
      assert cvs[i] == Slice(file, g)[from..to];
      SliceOfSlice(file, g.start, g.end, from, to, g.start + from, g.start + to);
    }
  }

  /** The bytes of an index are its entries' range. */
  lemma IndexBytesInFile(file: seq<byte>, r: Record, bytes: seq<byte>, n: nat)
    requires RecordRules(r) && EndsBy(r, n) && n <= |file| && HasIndex(r)
    requires |bytes| == 32 * ChunkCount(r.lenPlain, r.chunkSize) && IndexEntries(file, r) == Entries(bytes)
    ensures At(file, r.indexOff, bytes)
  {
    IndexIsEntries(file, r, n);
    var slice := Slice(file, IndexRange(r));
    forall o | 0 <= o < |bytes|
      ensures slice[o] == bytes[o]
    {
      var k := o / 32;
      assert Entries(slice)[k] == Entries(bytes)[k];
      assert slice[o] == slice[32 * k..32 * k + 32][o - 32 * k] && bytes[o] == bytes[32 * k..32 * k + 32][o - 32 * k];
    }
    assert slice == bytes;
  }

  lemma ExternalAsPlanned(c: Compression, t: Transforms, s: Spec, p: Plan, r: Record, file: seq<byte>, n: nat)
    requires PlanOf(c, t, s) == Some(p) && Written(s, p, r, file) && SpecRules(s) && s.payload.External?
    requires RecordRules(r) && EndsBy(r, n) && n <= |file|
    ensures AsAsked(c, t, s, r, file)
  {
    if s.chunkIndex.Some? {
      IndexBytesInFile(file, r, s.chunkIndex.value, n);
    }
  }

  lemma InlineAsPlanned(c: Compression, t: Transforms, s: Spec, p: Plan, r: Record, file: seq<byte>, n: nat)
    requires PlanOf(c, t, s) == Some(p) && Written(s, p, r, file) && SpecRules(s) && s.payload.Inline?
    requires RecordRules(r) && EndsBy(r, n) && n <= |file|
    ensures AsAsked(c, t, s, r, file)
  {
    StoredInFile(file, r, n);
    if s.chunkSize != 0 {
      TwoChunks(|s.payload.bytes|, s.chunkSize);
    }
    if p.index.Some? {
      EntriesInFile(file, r, n);
    }
  }

  lemma EnvelopesAsPlanned(c: Compression, t: Transforms, s: Spec, p: Plan, r: Record, file: seq<byte>, n: nat)
    requires PlanOf(c, t, s) == Some(p) && Written(s, p, r, file) && SpecRules(s) && s.payload.Envelopes?
    requires RecordRules(r) && EndsBy(r, n) && n <= |file|
    ensures AsAsked(c, t, s, r, file)
  {
    StoredInFile(file, r, n);
  }

  lemma AsPlanned(c: Compression, t: Transforms, s: Spec, p: Plan, r: Record, file: seq<byte>, n: nat)
    requires PlanOf(c, t, s) == Some(p) && Written(s, p, r, file) && SpecRules(s)
    requires RecordRules(r) && EndsBy(r, n) && n <= |file|
    ensures AsAsked(c, t, s, r, file)
  {
    match s.payload
    case External(_, _) => ExternalAsPlanned(c, t, s, p, r, file, n);
    case Envelopes => EnvelopesAsPlanned(c, t, s, p, r, file, n);
    case Inline(_) => InlineAsPlanned(c, t, s, p, r, file, n);
  }

  lemma CarriedAsAsked(c: Compression, t: Transforms, suite: u16, specs: seq<Spec>, plans: seq<Plan>, file: seq<byte>, b: Parsed)
    requires Carries(c, suite, specs, plans, file, b) && forall i :: 0 <= i < |specs| ==> SpecRules(specs[i])
    requires forall i :: 0 <= i < |specs| ==> PlanOf(c, t, specs[i]) == Some(plans[i])
    ensures AllAsAsked(c, t, specs, b.sections, file)
  {
    forall i | 0 <= i < |specs|
      ensures AsAsked(c, t, specs[i], b.sections[i], file)
    {
      assert b.sections[i] in b.sections && Written(specs[i], plans[i], b.sections[i], file);
      AsPlanned(c, t, specs[i], plans[i], b.sections[i], file, b.header.footerOff);
    }
  }

  // ----- when there is a plan -----

  /** What the transforms and the chunking have to allow. */
  ghost predicate CanStore(z: Compressor, s: Spec, bytes: seq<byte>) {
    |bytes| < 0x1_0000_0000_0000_0000 && (s.comp != 0 ==> z(bytes, s.chunkSize).Some?)
  }

  ghost predicate Storable(c: Compression, t: Transforms, s: Spec) {
    match s.payload
    case External(lenPlain, root) =>
      && !s.encrypt
      && (s.chunkIndex.Some? ==>
            && s.chunkSize != 0 && lenPlain > s.chunkSize && |s.chunkIndex.value| == 32 * ChunkCount(lenPlain, s.chunkSize)
            && VerifyRoot(c, Entries(s.chunkIndex.value), root, s.chunkSize))
    case Envelopes => !s.encrypt && s.chunkIndex.None? && CanStore(t.compress, s, t.envelopes)
    case Inline(bytes) =>
      && s.chunkIndex.None?
      && if s.encrypt then |bytes| < 0x1_0000_0000_0000_0000 && t.seal(s).Some?
         else CanStore(t.compress, s, bytes) && (s.chunkSize != 0 && |bytes| > s.chunkSize ==> LegalChunkSize(s.chunkSize))
  }

  /** Pass 1 succeeds on a section exactly when this holds of it. */
  lemma PlannedIff(c: Compression, t: Transforms, s: Spec)
    ensures PlanOf(c, t, s).Some? <==> Storable(c, t, s)
  {
    match s.payload
    case External(lenPlain, _) =>
      if s.chunkSize != 0 {
        TwoChunks(lenPlain, s.chunkSize);
      }
    case Envelopes =>
    case Inline(bytes) =>
      if s.chunkSize != 0 {
        TwoChunks(|bytes|, s.chunkSize);
      }
  }
}
