/**
 `write_bundle`: payloads, then chunk indices, then the table and the footer. Whatever the
 list of sections, if it keeps the format's rules the output lays out, commits and parses
 back to exactly the records built, over exactly the bytes given.
 */
module Writer {
  import opened Bytes
  import opened Blake3Tree
  import opened ChunkIndex
  import opened ChunkAcceptance
  import opened Container
  import opened FooterFormat
  import opened Layout
  import opened RegionClasses
  import opened Bundle
  import opened Commitment
  import opened WriterPlan
  import opened WriterIndices
  import opened WriterFile
  import opened WrittenSections

  /** Every section's transforms succeed. */
  predicate Plannable(c: Compression, t: Transforms, specs: seq<Spec>) {
    forall i :: 0 <= i < |specs| ==> PlanOf(c, t, specs[i]).Some?
  }

  function Plans(c: Compression, t: Transforms, specs: seq<Spec>): (plans: seq<Plan>)
    requires Plannable(c, t, specs)
    ensures |plans| == |specs|
    ensures forall i :: 0 <= i < |specs| ==> PlanOf(c, t, specs[i]) == Some(plans[i])
  {
    seq(|specs|, i requires 0 <= i < |specs| => PlanOf(c, t, specs[i]).value)
  }

  /** A bound on the file, which has to fit a `u64`. */
  function FileBound(plans: seq<Plan>): nat {
    64 + PayloadWeights(plans) + JobWeights(Jobs(plans)) + 8 + 128 * |plans| + 56
  }

  ghost predicate Writable(c: Compression, t: Transforms, specs: seq<Spec>) {
    GoodSpecs(specs) && Plannable(c, t, specs) && FileBound(Plans(c, t, specs)) < U64_RANGE
  }

  lemma {:induction false} WeightsOfPrefix(plans: seq<Plan>, i: nat)
    requires i < |plans|
    ensures PayloadWeights(plans[..i]) + 4096 + |plans[i].stored| <= PayloadWeights(plans)
    decreases |plans| - i
  {
    var front := plans[..|plans| - 1];
    if i < |plans| - 1 {
      WeightsOfPrefix(front, i);
      assert front[..i] == plans[..i];
    }
  }

  /** A list that can be written never fails in pass 1. */
  lemma FirstPassFits(c: Compression, t: Transforms, specs: seq<Spec>, plans: seq<Plan>)
    requires Writable(c, t, specs) && |plans| < |specs|
    requires forall i :: 0 <= i < |plans| ==> PlanOf(c, t, specs[i]) == Some(plans[i])
    ensures PlanOf(c, t, specs[|plans|]).Some?
    ensures 64 + PayloadWeights(plans) + 4096 + |PlanOf(c, t, specs[|plans|]).value.stored| < U64_RANGE
  {
    var all := Plans(c, t, specs);
    assert all[..|plans|] == plans;
    WeightsOfPrefix(all, |plans|);
  }

  /** Everything a reader checks but the manifest's own contents, and every section as asked. */
  ghost predicate Emitted(c: Compression, t: Transforms, suite: u16, specs: seq<Spec>, file: seq<byte>, b: Parsed) {
    Plannable(c, t, specs) && Carries(c, suite, specs, Plans(c, t, specs), file, b)
  }

  /** The original bytes of every plain inline section come back, and hash to its root. */
  lemma PlainIsBack(c: Compression, t: Transforms, suite: u16, specs: seq<Spec>, file: seq<byte>, b: Parsed, i: nat)
    requires Emitted(c, t, suite, specs, file, b) && i < |specs|
    requires specs[i].payload.Inline? && specs[i].comp == 0 && !specs[i].encrypt
    ensures Stored(file, b.sections[i]) == specs[i].payload.bytes
    ensures Blake3(c, Stored(file, b.sections[i])) == b.sections[i].root
  {
    var plans := Plans(c, t, specs);
    assert PlanOf(c, t, specs[i]) == Some(plans[i]);
    PlainComesBack(c, suite, specs, plans, file, b, i);
  }

  /** A section kept elsewhere, declared twice as long as what its root hashes, with an index to match. */
  predicate LyingSpec(c: Compression, s: Spec, plain: seq<byte>, half: nat)
    requires LegalChunkSize(half)
  {
    && |plain| < U64_RANGE / 2 && s.payload == Payload.External(2 * |plain|, Blake3(c, plain)) && !s.encrypt
    && s.chunkSize == 2 * half && s.chunkIndex == Some(IndexBytes(ChunkCvs(c, plain, half)))
  }

  /** The writer adopts that index: it reduces to the declared root, and the declared count is right. */
  lemma LyingIsPlanned(c: Compression, t: Transforms, s: Spec, plain: seq<byte>, half: nat)
    requires LegalChunkSize(half) && LegalChunkSize(2 * half) && 2 * half < |plain| && LyingSpec(c, s, plain, half)
    ensures PlanOf(c, t, s).Some? && PlanOf(c, t, s).value.index == Some(ChunkCvs(c, plain, half))
  {
    var finer := ChunkCvs(c, plain, half);
    ManyChunks(|plain|, half);
    LyingLength(c, plain, half, 2 * |plain|);
    EntriesOfBytes(finer);
  }

  /** So files exist whose verified index accepts what is not a chunk of the plaintext. */
  lemma LyingIsWritten(c: Compression, t: Transforms, ok: ManifestCheck, suite: u16, specs: seq<Spec>, file: seq<byte>,
                       b: Parsed, i: nat, plain: seq<byte>, half: nat)
    requires Emitted(c, t, suite, specs, file, b) && IsBundle(c, ok, file, b) && i < |specs|
    requires LegalChunkSize(half) && LegalChunkSize(2 * half) && 2 * half < |plain| && LyingSpec(c, specs[i], plain, half)
    ensures HasIndex(b.sections[i]) && IndexVerified(c, file, b.sections[i]) && b.sections[i].chunkSize == 2 * half
    ensures VerifyChunk(c, IndexEntries(file, b.sections[i]), 2 * half, 0, plain[..half])
    ensures plain[..half] != Chunk(plain, 2 * half, 0)
  {
    var p := Plans(c, t, specs)[i];
    LyingIsPlanned(c, t, specs[i], plain, half);
    LyingIsRecorded(c, t, specs[i], p, file, b.sections[i], plain, half);
    LyingRecord(c, ok, file, b, b.sections[i], plain, half);
  }

  lemma LyingIsRecorded(c: Compression, t: Transforms, s: Spec, p: Plan, file: seq<byte>, r: Record, plain: seq<byte>, half: nat)
    requires LegalChunkSize(half) && LyingSpec(c, s, plain, half) && PlanOf(c, t, s) == Some(p)
    requires p.index == Some(ChunkCvs(c, plain, half)) && Written(s, p, r, file)
    ensures Lies(c, file, r, plain, half)
  {
  }

  /** Every section of an emitted file came out as it was asked for. */
  lemma EmittedAsAsked(c: Compression, t: Transforms, suite: u16, specs: seq<Spec>, file: seq<byte>, b: Parsed)
    requires Emitted(c, t, suite, specs, file, b) && GoodSpecs(specs)
    ensures AllAsAsked(c, t, specs, b.sections, file)
  {
    assert forall i :: 0 <= i < |specs| ==> specs[i] in specs;
    CarriedAsAsked(c, t, suite, specs, Plans(c, t, specs), file, b);
  }

  // ----- passes 1 and 2 -----

  /** The first two passes together finish every record. */
  lemma BothPasses(c: Compression, t: Transforms, specs: seq<Spec>, plans: seq<Plan>, first: seq<Record>,
                   start: seq<byte>, records: seq<Record>, body: seq<byte>)
    requires |plans| == |specs| && Placed(c, t, specs, plans, first, start) && start <= body
    requires Patched(plans, first, records, body, |plans|)
    ensures AllFinished(c, specs, plans, records, body)
  {
    assert body == start + body[|start|..];
    PlacedLater(c, t, specs, plans, first, start, body[|start|..]);
    forall i | 0 <= i < |records|
      ensures Shaped(c, specs[i], plans[i]) && Finished(specs[i], plans[i], records[i], body)
    {
      assert PatchedAt(plans[i], first[i], records[i], body, true);
      PlanShape(c, t, specs[i]);
    }
  }

  lemma FirstPassIndexable(c: Compression, t: Transforms, specs: seq<Spec>, plans: seq<Plan>, records: seq<Record>,
                           body: seq<byte>)
    requires Placed(c, t, specs, plans, records, body)
    ensures IndexableJobs(plans, records)
  {
    forall j | 0 <= j < |plans| && plans[j].index.Some?
      ensures records[j].chunkSize != 0
        && |plans[j].index.value| == ChunkCount(records[j].lenPlain, records[j].chunkSize) >= 2
    {
      assert Describes(specs[j], plans[j], records[j]);
      PlanShape(c, t, specs[j]);
    }
  }

  /** After pass 2 every record is finished. */
  lemma SecondPassFinishes(agreed: bool, c: Compression, t: Transforms, specs: seq<Spec>, plans: seq<Plan>,
                           first: seq<Record>, start: seq<byte>, jobs: seq<Job>, records: seq<Record>, body: seq<byte>)
    requires |plans| == |specs| && Placed(c, t, specs, plans, first, start) && jobs == Jobs(plans)
    requires SecondPass(agreed, plans, first, jobs, |jobs|, records, body, start)
    ensures AllFinished(c, specs, plans, records, body)
  {
    JobsInOrder(plans);
    PatchedFurther(plans, first, records, body, Frontier(jobs, |jobs|), |plans|);
    BothPasses(c, t, specs, plans, first, start, records, body);
  }

  /** `r.to_bytes()` of every record, in order. */
  method TableToBytes(records: seq<Record>) returns (b: seq<byte>)
    ensures b == TableBytes(records)
  {
    b := [];
    for i := 0 to |records|
      invariant b == TableBytes(records[..i])
    {
      assert records[..i + 1][..i] == records[..i];
      var bytes := RecordToBytes(records[i]);
      b := b + bytes;
    }
    assert records[..|records|] == records;
  }

  // ----- pass 3: the table, the header and the footer -----

  /** A tiling listed by class is a tiling by the regions of the table. */
  lemma TiledByClass(body: seq<byte>, records: seq<Record>, h: Header)
    requires Tiled(body, Payloads(records) + Indices(records) + [Table(h)])
    ensures Tiled(body, Regions(records, h))
  {
    var (listed, gs) := (Payloads(records) + Indices(records) + [Table(h)], Regions(records, h));
    SameRegions(records, h);
    forall i | 0 <= i < |gs|
      ensures gs[i].start < gs[i].end
    {
      assert gs[i] in listed;
    }
    forall o
      ensures Unclaimed(gs, o) <==> Unclaimed(listed, o)
    {
    }
  }

  /** The last steps: everything that only depends on the finished records and the body. */
  method Assemble(c: Compression, suite: u16, records: seq<Record>, start: seq<byte>, ghost gs: seq<Region>)
    returns (r: Result<(seq<byte>, Header, Footer)>, ghost body: seq<byte>)
    requires |records| <= MAX_SECTIONS
    ensures r.Err? ==> 64 + |start| + 8 + 128 * |records| + 56 >= U64_RANGE
    ensures r.Ok? ==> start <= body && Assembled(c, suite, records, r.value.0, r.value.1, r.value.2, body)
    ensures r.Ok? && Tiled(start, gs) && records != [] ==> Tiled(body, gs + [Table(r.value.1)])
    ensures r.Ok? ==> r.value.1.minor == 3
  {
    var padded := PadTo(start, 8);
    var tableOff := 64 + |padded|;
    var table := TableToBytes(records);
    body := padded + table;
    var out := padded + table;
    var footerOff := 64 + |out|;
    if footerOff + MIN_FOOTER_LEN >= U64_RANGE {
      return Err, body;
    }
    var h := Header(0, 3, suite, 0, |records|, tableOff, footerOff, 0, 1);
    if Tiled(start, gs) && records != [] {
      TileTable(start, gs, h, table, |padded| - |start|);
    }
    var header := HeaderToBytes(h);
    var footer := Footer(CommitmentRoot(c, header, table), [], [], footerOff + MIN_FOOTER_LEN);
    var footerBytes := FooterToBytes(footer);
    if footerBytes.Err? {
      return Err, body;
    }
    var file := FileOf(header, out, footerBytes.value);
    AssembledAround(c, suite, records, file, h, footer, start, padded, table, body);
    return Ok((file, h, footer)), body;
  }

  /** Passes 1 to 3, before the writer reads its own output back. */
  method Compose(c: Compression, t: Transforms, suite: u16, specs: seq<Spec>)
    returns (r: Result<Composed>, ghost plans: seq<Plan>, ghost start: seq<byte>, ghost body: seq<byte>)
    requires |specs| <= MAX_SECTIONS
    ensures Writable(c, t, specs) ==> r.Ok?
    ensures r.Ok? ==> Plannable(c, t, specs) && plans == Plans(c, t, specs)
    ensures r.Ok? ==> Composes(c, suite, specs, plans, r.value, start, body) && r.value.header.minor == 3
  {
    var first, payloads, jobs, planned := PlaceSections(c, t, specs);
    plans, start, body := planned, [], [];
    if first.Err? {
      if Writable(c, t, specs) {
        FirstPassFits(c, t, specs, plans);
      }
      return Err, plans, start, body;
    }
    assert Plannable(c, t, specs) && Plans(c, t, specs) == plans;
    FirstPassIndexable(c, t, specs, plans, first.value, payloads);
    var second, indexed := PlaceIndices(Agreed(specs), plans, first.value, jobs, payloads);
    if second.Err? {
      return Err, plans, start, body;
    }
    var records := second.value;
    assert jobs[..|jobs|] == jobs;
    SecondPassFinishes(Agreed(specs), c, t, specs, plans, first.value, payloads, jobs, records, indexed);
    var out, whole := Assemble(c, suite, records, indexed, Payloads(records) + Indices(records));
    if out.Err? {
      return Err, plans, start, body;
    }
    start, body := indexed, whole;
    var (file, h, f) := out.value;
    if Agreed(specs) && specs != [] {
      TiledByClass(body, records, h);
    }
    return Ok(Composed(file, h, f, records)), plans, start, body;
  }

  /**
   `write_bundle`. It succeeds only on sections that keep the rules, and the file carries them
   as asked; on sections that keep them and fit, only the manifest's contents can be refused.
   */
  method WriteBundle(c: Compression, t: Transforms, ok: ManifestCheck, suite: u16, specs: seq<Spec>)
    returns (r: Result<seq<byte>>)
    ensures r.Ok? ==> KnownSuite(suite) && GoodSpecs(specs)
    ensures r.Ok? ==>
      exists b :: Emitted(c, t, suite, specs, r.value, b) && IsBundle(c, ok, r.value, b) && AllAsAsked(c, t, specs, b.sections, r.value)
    ensures r.Ok? ==> |r.value| >= 64 && U16At(r.value, 10) == 3 && U16At(r.value, 16) == suite
    ensures KnownSuite(suite) && Writable(c, t, specs) && r.Err? ==>
      exists file, b :: Emitted(c, t, suite, specs, file, b) && !ok(b.manifest, b.sections)
  {
    if !KnownSuite(suite) {
      return Err;
    }
    if |specs| > MAX_SECTIONS {
      return Err;
    }
    var composed, plans, start, body := Compose(c, t, suite, specs);
    if composed.Err? {
      return Err;
    }
    var x := composed.value;
    var parsed := ParseBundle(c, ok, x.file);
    var b := ReadBack(c, ok, suite, specs, plans, x, start, body, parsed);
    if Carries(c, suite, specs, plans, x.file, b) {
      assert Emitted(c, t, suite, specs, x.file, b);
      if GoodSpecs(specs) {
        EmittedAsAsked(c, t, suite, specs, x.file, b);
      }
    }
    VersionAndSuite(c, suite, x, body);
    if parsed.Err? {
      return Err;
    }
    return Ok(x.file);
  }
}
