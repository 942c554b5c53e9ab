/**
 The Go writer (`WriteBundle`): the sections laid out by GoWriterLayout are copied into one
 zeroed buffer, the table and the footer are written behind them, and the file is parsed
 back. Another layout than the Rust writer's, with the same contents.
 */
module GoWriter {
  import opened Arithmetic
  import opened Bytes
  import opened Fields
  import opened Blake3Tree
  import opened Container
  import opened FooterFormat
  import opened Layout
  import opened Bundle
  import opened GoBundle
  import opened Commitment
  import opened WriterPlan
  import opened WriterFile
  import opened Writer
  import opened GoWriterLayout
  import opened GoWrittenSections

  // ----- filling the buffer -----

  /** `copy(out[off:], src)`, where the buffer is still zero behind what has been written. */
  method CopyAt(out: array<byte>, off: nat, src: seq<byte>, ghost front: seq<byte>)
    requires |front| <= off && off + |src| <= out.Length && out[..] == Filled(front, out.Length)
    modifies out
    ensures out[..] == Filled(front + Zeros(off - |front|) + src, out.Length)
  {
    ghost var gap := off - |front|;
    Skip(front, gap, out.Length);
    ghost var next := Put(out, off, src, front + Zeros(gap));
  }

  lemma ExtendBehind(header: seq<byte>, body: seq<byte>, off: nat, x: seq<byte>)
    requires |header| == 64 && 64 + |body| <= off
    ensures header + Extend(body, off, x) == header + body + Zeros(off - |header + body|) + x
  {
  }

  /** One section: its payload, and its index where it has one. */
  method CopySection(out: array<byte>, w: WriteSection, ghost header: seq<byte>, ghost body: seq<byte>)
    requires |header| == 64 && InOrder(body, w) && 64 + |Grow(body, w)| <= out.Length
    requires out[..] == Filled(header + body, out.Length)
    modifies out
    ensures out[..] == Filled(header + Grow(body, w), out.Length)
  {
    if Container.External(w.rec.flags) {
      return;
    }
    ghost var mid := WithPayload(body, w);
    ExtendHolds(body, w.rec.offset, PayloadOf(w));
    ExtendBehind(header, body, w.rec.offset, PayloadOf(w));
    if w.rec.indexOff != 0 {
      ExtendHolds(mid, w.rec.indexOff, EncodedOf(w));
      ExtendBehind(header, mid, w.rec.indexOff, EncodedOf(w));
    }
    CopyAt(out, w.rec.offset, w.data[..w.rec.lenStored], header + body);
    if w.rec.indexOff != 0 {
      CopyAt(out, w.rec.indexOff, w.data[w.rec.lenStored..], header + mid);
    }
  }

  lemma {:induction false} LaidGrows(all: seq<WriteSection>, i: nat)
    requires i <= |all|
    ensures |Laid(all[..i])| <= |Laid(all)|
    decreases |all|
  {
    if i == |all| {
      assert all[..i] == all;
    } else {
      var front := all[..|all| - 1];
      LaidGrows(front, i);
      assert front[..i] == all[..i];
    }
  }

  lemma LaidStep(all: seq<WriteSection>, i: nat, next: nat)
    requires i < |all| && next == i + 1
    ensures Laid(all[..next]) == Grow(Laid(all[..i]), all[i]) && |Laid(all[..next])| <= |Laid(all)|
  {
    assert all[..next][..i] == all[..i];
    LaidGrows(all, next);
  }

  method CopySections(out: array<byte>, all: seq<WriteSection>, ghost header: seq<byte>)
    requires |header| == 64 && AllInOrder(all) && 64 + |Laid(all)| <= out.Length
    requires out[..] == Filled(header, out.Length)
    modifies out
    ensures out[..] == Filled(header + Laid(all), out.Length)
  {
    assert header + Laid(all[..0]) == header;
    for i := 0 to |all|
      invariant 64 + |Laid(all[..i])| <= out.Length && out[..] == Filled(header + Laid(all[..i]), out.Length)
    {
      ghost var next := i + 1;
      LaidStep(all, i, next);
      CopySection(out, all[i], header, Laid(all[..i]));
    }
    assert all[..|all|] == all;
  }

  /** A field of a structure that starts behind `front`. */
  method PutField(out: array<byte>, off: nat, src: seq<byte>, ghost front: seq<byte>, ghost fields: seq<byte>)
    returns (ghost more: seq<byte>)
    requires off == |front| + |fields| && off + |src| <= out.Length && out[..] == Filled(front + fields, out.Length)
    modifies out
    ensures more == fields + src && out[..] == Filled(front + more, out.Length)
  {
    ghost var next := Put(out, off, src, front + fields);
    more := fields + src;
    assert front + fields + src == front + more;
  }

  lemma SkipField(front: seq<byte>, fields: seq<byte>, gap: nat, n: nat)
    requires |front| + |fields| + gap <= n
    ensures Filled(front + (fields + Zeros(gap)), n) == Filled(front + fields, n)
  {
    Skip(front + fields, gap, n);
    assert front + fields + Zeros(gap) == front + (fields + Zeros(gap));
  }

  /** `writeHeader`. */
  method WriteHeader(out: array<byte>, h: Header)
    requires out.Length >= 64 && out[..] == Filled([], out.Length)
    modifies out
    ensures out[..] == Filled(HeaderBytes(h), out.Length)
  {
    ghost var front: seq<byte> := [];
    front := Put(out, 0, MAGIC, front);
    assert front == MAGIC;
    front := Put(out, 8, LE(h.major, 2), front);
    front := Put(out, 10, LE(h.minor, 2), front);
    front := Put(out, 12, LE(HEADER_LEN, 4), front);
    front := Put(out, 16, LE(h.suite, 2), front);
    front := Put(out, 18, LE(h.flags, 2), front);
    front := Put(out, 20, LE(h.count, 4), front);
    front := Put(out, 24, LE(h.tableOff, 8), front);
    front := Put(out, 32, LE(h.footerOff, 8), front);
    front := Put(out, 40, LE(h.incompat, 4), front);
    front := Put(out, 44, LE(h.roCompat, 4), front);
    Skip(front, 16, out.Length);
  }

  /** The first lines of `writeRecord` clear the rest of the buffer. */
  method ClearFrom(out: array<byte>, off: nat, ghost front: seq<byte>)
    requires off == |front| <= out.Length && out[..off] == front
    modifies out
    ensures out[..] == Filled(front, out.Length)
  {
    for i := off to out.Length
      invariant out[..off] == front && forall k :: off <= k < i ==> out[k] == 0
    {
      out[i] := 0;
    }
  }

  /** `writeRecord`. */
  method WriteRecord(out: array<byte>, off: nat, r: Record, ghost front: seq<byte>)
    requires off == |front| && off + 128 <= out.Length && out[..off] == front
    modifies out
    ensures out[..] == Filled(front + RecordBytes(r), out.Length)
  {
    ClearFrom(out, off, front);
    ghost var fields: seq<byte> := [];
    assert front + fields == front;
    fields := PutField(out, off, LE(r.kind, 2), front, fields);
    assert fields == LE(r.kind, 2);
    fields := PutField(out, off + 2, LE(r.nameId, 2), front, fields);
    fields := PutField(out, off + 4, LE(r.flags, 2), front, fields);
    fields := PutField(out, off + 6, [r.enc], front, fields);
    fields := PutField(out, off + 7, [r.comp], front, fields);
    fields := PutField(out, off + 8, LE(r.offset, 8), front, fields);
    fields := PutField(out, off + 16, LE(r.lenStored, 8), front, fields);
    fields := PutField(out, off + 24, LE(r.lenPlain, 8), front, fields);
    fields := PutField(out, off + 32, LE(r.chunkSize, 4), front, fields);
    SkipField(front, fields, 4, out.Length);
    fields := fields + Zeros(4);
    fields := PutField(out, off + 40, LE(r.indexOff, 8), front, fields);
    fields := PutField(out, off + 48, r.root, front, fields);
    SkipField(front, fields, 48, out.Length);
  }

  lemma TableStepBytes(records: seq<Record>, i: nat, next: nat)
    requires i < |records| && next == i + 1
    ensures TableBytes(records[..next]) == TableBytes(records[..i]) + RecordBytes(records[i])
  {
    assert records[..next][..i] == records[..i];
  }

  method WriteTable(out: array<byte>, tableOff: nat, all: seq<WriteSection>, ghost front: seq<byte>)
    requires tableOff == |front| && tableOff + 128 * |all| <= out.Length && out[..] == Filled(front, out.Length)
    modifies out
    ensures out[..] == Filled(front + TableBytes(Recs(all)), out.Length)
  {
    ghost var records := Recs(all);
    assert front + TableBytes(records[..0]) == front;
    for i := 0 to |all|
      invariant out[..] == Filled(front + TableBytes(records[..i]), out.Length)
    {
      ghost var (before, next) := (front + TableBytes(records[..i]), i + 1);
      TableStepBytes(records, i, next);
      var off := tableOff + 128 * i;
      WriteRecord(out, off, all[i].rec, before);
      assert before + RecordBytes(records[i]) == front + TableBytes(records[..next]);
    }
    assert records[..|all|] == records;
  }

  lemma ZeroLength()
    ensures LE(0, 4) == Zeros(4)
  {
    assert LE(0, 4) == [0] + ([0] + ([0] + ([0] + LE(0, 0))));
  }

  /** The last lines: an unsigned footer, its slot lengths left zero. */
  method WriteFooter(out: array<byte>, footerOff: nat, root: Digest, ghost front: seq<byte>) returns (f: Footer)
    requires footerOff == |front| && footerOff + MIN_FOOTER_LEN == out.Length < U64_RANGE && out[..] == Filled(front, out.Length)
    modifies out
    ensures f == Footer(root, [], [], out.Length) && out[..] == front + FooterBytes(f)
  {
    var totalLen: u64 := out.Length;
    f := Footer(root, [], [], totalLen);
    ghost var fields: seq<byte> := [];
    assert front + fields == front;
    fields := PutField(out, footerOff, root, front, fields);
    assert fields == root;
    SkipField(front, fields, 8, out.Length);
    fields := fields + Zeros(8);
    fields := PutField(out, totalLen - 16, LE(totalLen, 8), front, fields);
    fields := PutField(out, totalLen - 8, MAGIC, front, fields);
    ZeroLength();
    assert Zeros(8) == Zeros(4) + Zeros(4);
    assert root + Zeros(8) == root + LE(0, 4) + LE(0, 4) + [] + [];
    assert fields == FooterBytes(f);
  }

  // ----- the file -----

  lemma AlreadyAligned(pos: nat, n: nat, align: nat)
    requires align > 0 && pos % align == 0 && n % align == 0
    ensures AlignTo(pos + n, align) == pos + n
  {
    var (q, k) := (pos / align, n / align);
    var sum := pos + n;
    assert sum == (q + k) * align;
    MultipleOf(q + k, align, sum);
  }

  lemma FrontOf(header: seq<byte>, start: seq<byte>, gap: nat, table: seq<byte>, n: nat)
    requires |header| == 64 && 64 + |start| + gap + |table| <= n
    ensures header + start + Zeros(gap) + table == header + (start + Zeros(gap) + table)
    ensures Filled(header + start + Zeros(gap), n) == Filled(header + start, n)
  {
    Skip(header + start, gap, n);
  }

  /** The buffer of a given shape, filled from the front. */
  method Fill(c: Compression, h: Header, all: seq<WriteSection>, pos: nat, ghost start: seq<byte>)
    returns (file: seq<byte>, f: Footer, ghost body: seq<byte>)
    requires start == Laid(all) && AllInOrder(all) && pos == 64 + |start| <= h.tableOff
    requires h.count == |all| && h.footerOff == h.tableOff + 128 * |all| && h.footerOff + MIN_FOOTER_LEN < U64_RANGE
    ensures body == start + Zeros(h.tableOff - pos) + TableBytes(Recs(all))
    ensures f == Footer(CommitmentRoot(c, HeaderBytes(h), TableBytes(Recs(all))), [], [], h.footerOff + MIN_FOOTER_LEN)
    ensures file == FileOf(HeaderBytes(h), body, FooterBytes(f))
  {
    var totalLen := h.footerOff + MIN_FOOTER_LEN;
    ghost var (header, table, gap) := (HeaderBytes(h), TableBytes(Recs(all)), h.tableOff - pos);
    var out := new byte[totalLen](_ => 0);
    assert out[..] == Filled([], totalLen);
    WriteHeader(out, h);
    CopySections(out, all, header);
    body := start + Zeros(gap) + table;
    FrontOf(header, start, gap, table, totalLen);
    WriteTable(out, h.tableOff, all, header + start + Zeros(gap));
    assert out[..] == Filled(header + body, totalLen);
    FrontSlices(header, start, gap, table, out[..], totalLen);
    var root := CommitmentRoot(c, out[..HEADER_LEN], out[h.tableOff..h.footerOff]);
    f := WriteFooter(out, h.footerOff, root, header + body);
    file := out[..];
  }

  lemma FrontSlices(header: seq<byte>, start: seq<byte>, gap: nat, table: seq<byte>, out: seq<byte>, n: nat)
    requires |header| == 64 && 64 + |start| + gap + |table| <= n
    requires out == Filled(header + (start + Zeros(gap) + table), n)
    ensures out[..64] == header
    ensures out[64 + |start| + gap..64 + |start| + gap + |table|] == table
  {
  }

  // ----- the whole writer -----

  function SuiteOf(o: Options): u16 {
    if o.suiteId == 0 then 1 else o.suiteId
  }

  function MinorOf(o: Options): u16 {
    if o.versionMinor == 0 then 3 else o.versionMinor
  }

  predicate GoPlannable(c: Compression, z: Compressor, sections: seq<GoSection>, specs: seq<Spec>) {
    forall i :: 0 <= i < |specs| ==> GoPlanOf(c, z, sections, specs[i]).Some?
  }

  function AllGoPlans(c: Compression, z: Compressor, sections: seq<GoSection>, specs: seq<Spec>): (plans: seq<Plan>)
    requires GoPlannable(c, z, sections, specs)
    ensures |plans| == |specs| && GoPlans(c, z, sections, specs, plans)
  {
    seq(|specs|, i requires 0 <= i < |specs| => GoPlanOf(c, z, sections, specs[i]).value)
  }

  /** Everything a reader checks but the manifest's own contents, and every section as asked. */
  ghost predicate GoEmitted(c: Compression, z: Compressor, o: Options, manifest: seq<byte>, sections: seq<GoSection>,
                            file: seq<byte>, b: Parsed) {
    var specs := SpecsOf(o, manifest, sections);
    GoPlannable(c, z, sections, specs) && Carries(c, SuiteOf(o), specs, AllGoPlans(c, z, sections, specs), file, b)
  }

  /** What this writer can write: sections it takes, within the rules, in a file that fits a `u64`. */
  ghost predicate GoWritable(c: Compression, z: Compressor, o: Options, manifest: seq<byte>, sections: seq<GoSection>) {
    var specs := SpecsOf(o, manifest, sections);
    && Startable(z, sections) && GoodSpecs(specs) && GoPlannable(c, z, sections, specs)
    && 64 + Weights(AllGoPlans(c, z, sections, specs)) + 8 + 128 * |specs| + 56 < U64_RANGE
  }

  lemma {:induction false} WeightsOfFront(plans: seq<Plan>, i: nat)
    requires i < |plans|
    ensures Weights(plans[..i]) + Weight(plans[i]) <= Weights(plans)
    decreases |plans|
  {
    var n := |plans| - 1;
    if i < n {
      WeightsOfFront(plans[..n], i);
      assert plans[..n][..i] == plans[..i];
    }
  }

  lemma WritableHasRoom(c: Compression, z: Compressor, o: Options, manifest: seq<byte>, sections: seq<GoSection>,
                        specs: seq<Spec>, plans: seq<Plan>, body: seq<byte>)
    requires GoWritable(c, z, o, manifest, sections) && specs == SpecsOf(o, manifest, sections)
    requires |plans| < |specs| && GoPlans(c, z, sections, specs, plans) && |body| <= Weights(plans)
    ensures !NoRoom(c, z, sections, specs[|plans|], body)
  {
    var (all, n) := (AllGoPlans(c, z, sections, specs), |plans|);
    SamePlans(c, z, sections, specs, plans, all, n);
    WeightsOfFront(all, n);
  }

  /** There is one list of plans, so a shorter one is its front. */
  lemma SamePlans(c: Compression, z: Compressor, sections: seq<GoSection>, specs: seq<Spec>, plans: seq<Plan>,
                  all: seq<Plan>, n: nat)
    requires GoPlans(c, z, sections, specs, plans) && GoPlans(c, z, sections, specs, all) && n == |plans| < |all|
    ensures all[..n] == plans && GoPlanOf(c, z, sections, specs[n]) == Some(all[n])
  {
    forall i | 0 <= i < n
      ensures all[i] == plans[i]
    {
      assert GoPlanOf(c, z, sections, specs[i]) == Some(plans[i]);
    }
  }

  lemma SpecsPlaceable(o: Options, manifest: seq<byte>, sections: seq<GoSection>)
    ensures Placeable(SpecsOf(o, manifest, sections))
  {
  }

  /** The records of a finished layout. */
  lemma LaidOutFinished(c: Compression, z: Compressor, sections: seq<GoSection>, specs: seq<Spec>, plans: seq<Plan>,
                        all: seq<WriteSection>, body: seq<byte>)
    requires LaidOut(c, z, sections, specs, plans, all, body) && |all| == |specs| && Placeable(specs)
    ensures AllFinished(c, specs, plans, Recs(all), body)
  {
    forall i | 0 <= i < |specs|
      ensures Shaped(c, specs[i], plans[i]) && Finished(specs[i], plans[i], Recs(all)[i], body)
    {
      GoPlanShape(c, z, sections, specs[i]);
    }
  }

  /** Where the table and the footer go: whole records keep the alignment. */
  method Ends(pos: nat, count: nat) returns (tableOff: nat, footerOff: nat)
    ensures pos <= tableOff < pos + 8 && tableOff % TABLE_ALIGN == 0 && footerOff == tableOff + 128 * count
  {
    tableOff := AlignTo(pos, TABLE_ALIGN);
    Aligned(pos, TABLE_ALIGN);
    var tableLen := count * 128;
    ghost var eighths := 16 * count;
    MultipleOf(eighths, 8, tableLen);
    AlreadyAligned(tableOff, tableLen, TABLE_ALIGN);
    footerOff := AlignTo(tableOff + tableLen, TABLE_ALIGN);
  }

  /** The header of these options. */
  method HeaderOf(o: Options, count: nat, tableOff: nat, footerOff: nat) returns (h: Header)
    requires count < U32_RANGE && 64 <= tableOff && tableOff % TABLE_ALIGN == 0
    requires footerOff == tableOff + 128 * count && footerOff + MIN_FOOTER_LEN < U64_RANGE
    ensures HeaderFor(h, SuiteOf(o), count, tableOff) && h.minor == MinorOf(o)
  {
    h := Header(0, MinorOf(o), SuiteOf(o), 0, count, tableOff, footerOff, 0, 1);
  }

  /** What stands around a layout: `gap` zeros, the table, and header and footer to match. */
  ghost predicate Around(c: Compression, suite: u16, x: Composed, start: seq<byte>, gap: nat, body: seq<byte>) {
    && body == start + Zeros(gap) + TableBytes(x.records) && x.header.tableOff == 64 + |start| + gap
    && Assembled(c, suite, x.records, x.file, x.header, x.footer, body)
  }

  lemma FillIsAround(c: Compression, suite: u16, x: Composed, start: seq<byte>, gap: nat, body: seq<byte>)
    requires HeaderFor(x.header, suite, |x.records|, 64 + |start| + gap)
    requires body == start + Zeros(gap) + TableBytes(x.records)
    requires x.footer == Footer(CommitmentRoot(c, HeaderBytes(x.header), TableBytes(x.records)), [], [],
                                x.header.footerOff + MIN_FOOTER_LEN)
    requires x.file == FileOf(HeaderBytes(x.header), body, FooterBytes(x.footer))
    ensures Around(c, suite, x, start, gap, body)
  {
    var padded := start + Zeros(gap);
    AssembledAround(c, suite, x.records, x.file, x.header, x.footer, start, padded, TableBytes(x.records), body);
  }

  /** Header, table and footer around a layout. */
  method Assemble(c: Compression, o: Options, all: seq<WriteSection>, pos: nat, ghost start: seq<byte>)
    returns (r: Result<Composed>, ghost gap: nat, ghost body: seq<byte>)
    requires |all| < U32_RANGE && pos == 64 + |start| && start == Laid(all) && AllInOrder(all)
    ensures r.Err? ==> 64 + |start| + 8 + 128 * |all| + 56 >= U64_RANGE
    ensures r.Ok? ==> r.value.records == Recs(all) && Around(c, SuiteOf(o), r.value, start, gap, body)
    ensures r.Ok? ==> r.value.header.minor == MinorOf(o)
  {
    body := start;
    var tableOff, footerOff := Ends(pos, |all|);
    gap := tableOff - pos;
    if footerOff + MIN_FOOTER_LEN >= U64_RANGE {
      return Err, gap, body;
    }
    var h := HeaderOf(o, |all|, tableOff, footerOff);
    var file, f, whole := Fill(c, h, all, pos, start);
    var x := Composed(file, h, f, Recs(all));
    FillIsAround(c, SuiteOf(o), x, start, gap, whole);
    return Ok(x), gap, whole;
  }

  lemma ComposedAround(c: Compression, suite: u16, specs: seq<Spec>, plans: seq<Plan>, x: Composed,
                       start: seq<byte>, gap: nat, body: seq<byte>)
    requires AllFinished(c, specs, plans, x.records, start) && Tiled(start, Claims(x.records))
    requires Around(c, suite, x, start, gap, body)
    ensures Composes(c, suite, specs, plans, x, start, body)
  {
    if x.records != [] {
      TileTable(start, Claims(x.records), x.header, TableBytes(x.records), gap);
    }
  }

  /** The steps before the writer reads its own output back. */
  method Compose(c: Compression, z: Compressor, o: Options, manifest: seq<byte>, sections: seq<GoSection>)
    returns (r: Result<Composed>, ghost plans: seq<Plan>, ghost start: seq<byte>, ghost body: seq<byte>)
    requires |sections| + 1 < U32_RANGE && |manifest| < U64_RANGE
    requires forall s :: s in sections ==> |s.plaintext| < U64_RANGE
    ensures GoWritable(c, z, o, manifest, sections) ==> r.Ok?
    ensures r.Ok? ==> Startable(z, sections) && GoPlannable(c, z, sections, SpecsOf(o, manifest, sections))
    ensures r.Ok? ==> plans == AllGoPlans(c, z, sections, SpecsOf(o, manifest, sections))
    ensures r.Ok? ==> Composes(c, SuiteOf(o), SpecsOf(o, manifest, sections), plans, r.value, start, body)
    ensures r.Ok? ==> r.value.header.minor == MinorOf(o)
  {
    ghost var specs := SpecsOf(o, manifest, sections);
    plans, start, body := [], [], [];
    var begun := BeginAll(z, o, manifest, sections);
    if begun.Err? {
      return Err, plans, start, body;
    }
    SpecsPlaceable(o, manifest, sections);
    BegunFits(z, o, manifest, sections, begun.value);
    var all, pos, planned, laid := LayOut(c, z, sections, specs, begun.value);
    plans, start := planned, laid;
    if all.Err? {
      if GoWritable(c, z, o, manifest, sections) {
        WritableHasRoom(c, z, o, manifest, sections, specs, plans, laid);
      }
      return Err, plans, start, body;
    }
    assert GoPlannable(c, z, sections, specs) && plans == AllGoPlans(c, z, sections, specs);
    LaidOutFinished(c, z, sections, specs, plans, all.value, start);
    var composed, gap, whole := Assemble(c, o, all.value, pos, start);
    if composed.Ok? {
      ComposedAround(c, SuiteOf(o), specs, plans, composed.value, start, gap, whole);
    }
    return composed, plans, start, whole;
  }

  lemma BegunFits(z: Compressor, o: Options, manifest: seq<byte>, sections: seq<GoSection>, begun: seq<WriteSection>)
    requires |begun| == |sections| + 1 && AllBegun(z, SpecsOf(o, manifest, sections), begun)
    requires |manifest| < U64_RANGE && forall s :: s in sections ==> |s.plaintext| < U64_RANGE
    ensures forall i :: 0 <= i < |begun| ==> |begun[i].plain| < U64_RANGE
  {
    var specs := SpecsOf(o, manifest, sections);
    forall i | 0 <= i < |begun|
      ensures |begun[i].plain| < U64_RANGE
    {
      assert Begun(z, specs[i]) == Some(begun[i]);
      if i > 0 {
        assert specs[i] == SpecOf(sections[i - 1]) && sections[i - 1] in sections;
      }
    }
  }

  /**
   `WriteBundle`, given the encoded manifest if it validates. It succeeds only on sections it
   takes that keep the rules, and the file carries them as asked; on those that also fit, only
   the manifest's contents can be refused.
   */
  method WriteGoBundle(c: Compression, z: Compressor, ok: ManifestCheck, o: Options, manifest: Option<seq<byte>>,
                       sections: seq<GoSection>)
    returns (r: Result<seq<byte>>)
    requires |sections| + 1 < U32_RANGE && (manifest.Some? ==> |manifest.value| < U64_RANGE)
    requires forall s :: s in sections ==> |s.plaintext| < U64_RANGE
    ensures r.Ok? ==> manifest.Some? && GoodSpecs(SpecsOf(o, manifest.value, sections)) && Startable(z, sections)
    ensures r.Ok? ==>
      exists b :: GoEmitted(c, z, o, manifest.value, sections, r.value, b) && IsBundle(c, ok, r.value, b)
                  && AllGoAsAsked(c, z, o, manifest.value, sections, b.sections, r.value)
    ensures r.Ok? ==> |r.value| >= 64 && U16At(r.value, 10) == (if o.versionMinor == 0 then 3 else o.versionMinor)
    ensures r.Ok? ==> U16At(r.value, 16) == if o.suiteId == 0 then 1 else o.suiteId
    ensures manifest.Some? && KnownSuite(SuiteOf(o)) && GoWritable(c, z, o, manifest.value, sections) && r.Err? ==>
      exists file, b :: GoEmitted(c, z, o, manifest.value, sections, file, b) && !ok(b.manifest, b.sections)
  {
    if manifest.None? {
      return Err;
    }
    ghost var (specs, suite) := (SpecsOf(o, manifest.value, sections), SuiteOf(o));
    var composed, plans, start, body := Compose(c, z, o, manifest.value, sections);
    if composed.Err? {
      return Err;
    }
    var x := composed.value;
    var parsed := GoParse(c, ok, x.file);
    var b := ReadBack(c, ok, suite, specs, plans, x, start, body, parsed);
    if Carries(c, suite, specs, plans, x.file, b) {
      assert GoEmitted(c, z, o, manifest.value, sections, x.file, b);
      if GoodSpecs(specs) {
        GoCarriedAsAsked(c, z, suite, o, manifest.value, sections, plans, x.file, b);
      }
    }
    VersionAndSuite(c, suite, x, body);
    if parsed.Err? {
      return Err;
    }
    return Ok(x.file);
  }

  /** The original bytes of every plain inline section come back, and hash to its root. */
  lemma GoPlainIsBack(c: Compression, z: Compressor, o: Options, manifest: seq<byte>, sections: seq<GoSection>,
                      file: seq<byte>, b: Parsed, i: nat)
    requires GoEmitted(c, z, o, manifest, sections, file, b) && i < |sections|
    requires !Container.External(sections[i].flags) && sections[i].comp == 0
    ensures i + 1 < |b.sections| && Stored(file, b.sections[i + 1]) == sections[i].plaintext
    ensures Blake3(c, sections[i].plaintext) == b.sections[i + 1].root
  {
    var (specs, next) := (SpecsOf(o, manifest, sections), i + 1);
    var plans := AllGoPlans(c, z, sections, specs);
    assert specs[next] == SpecOf(sections[i]);
    GoPlainPlan(c, z, sections, specs[next], plans[next], sections[i].plaintext);
    PlainComesBack(c, SuiteOf(o), specs, plans, file, b, next);
    assert Written(specs[next], plans[next], b.sections[next], file);
  }

  lemma GoPlainPlan(c: Compression, z: Compressor, sections: seq<GoSection>, s: Spec, p: Plan, plain: seq<byte>)
    requires GoPlanOf(c, z, sections, s) == Some(p) && s.payload == Inline(plain) && s.comp == 0
    ensures p.stored == plain && p.enc == 0 && p.root == Blake3(c, plain)
  {
  }

  // ----- two layouts, one content -----

  predicate NoOverrides(sections: seq<GoSection>) {
    forall s :: s in sections ==> s.emit.None?
  }

  lemma {:induction false} NamedHasNoOverride(sections: seq<GoSection>, nameId: u16)
    requires NoOverrides(sections) && Named(sections, nameId).Some?
    ensures Named(sections, nameId).value.emit.None?
  {
    assert sections[0] in sections;
    if sections[0].nameId != nameId {
      NamedHasNoOverride(sections[1..], nameId);
    }
  }

  /** The two records of a section agree but for where things are, and so does what they point at. */
  ghost predicate SameContents(file: seq<byte>, r: Record, file': seq<byte>, r': Record) {
    && r == r'.(offset := r.offset, indexOff := r.indexOff)
    && (!Container.External(r.flags) ==> Stored(file, r) == Stored(file', r'))
    && (HasIndex(r) <==> HasIndex(r')) && (HasIndex(r) ==> IndexEntries(file, r) == IndexEntries(file', r'))
  }

  /** Without overrides, the two writers' files hold the same sections, differently laid out. */
  lemma WritersAgree(c: Compression, t: Transforms, o: Options, manifest: seq<byte>, sections: seq<GoSection>,
                     file: seq<byte>, b: Parsed, file': seq<byte>, b': Parsed)
    requires Emitted(c, t, SuiteOf(o), SpecsOf(o, manifest, sections), file, b)
    requires GoEmitted(c, t.compress, o, manifest, sections, file', b') && NoOverrides(sections)
    requires GoodSpecs(SpecsOf(o, manifest, sections))
    ensures |b.sections| == |b'.sections| && b.manifest == b'.manifest
    ensures forall i :: 0 <= i < |b.sections| ==> SameContents(file, b.sections[i], file', b'.sections[i])
  {
    var specs := SpecsOf(o, manifest, sections);
    var (plans, plans') := (Plans(c, t, specs), AllGoPlans(c, t.compress, sections, specs));
    forall i | 0 <= i < |specs|
      ensures plans[i] == plans'[i]
    {
      SamePlan(c, t, o, manifest, sections, specs[i], i);
    }
    assert plans == plans';
    forall i | 0 <= i < |specs|
      ensures SameContents(file, b.sections[i], file', b'.sections[i])
    {
      assert specs[i] in specs && Placeable(specs) by { SpecsPlaceable(o, manifest, sections); }
      SameWritten(specs[i], plans[i], b.sections[i], file, b'.sections[i], file');
    }
    OneManifestStored(specs, plans, b, b');
  }

  lemma SamePlan(c: Compression, t: Transforms, o: Options, manifest: seq<byte>, sections: seq<GoSection>, s: Spec, i: nat)
    requires NoOverrides(sections) && GoodSpecs(SpecsOf(o, manifest, sections))
    requires i <= |sections| && s == SpecsOf(o, manifest, sections)[i]
    ensures GoPlanOf(c, t.compress, sections, s) == PlanOf(c, t, s)
  {
    assert s in SpecsOf(o, manifest, sections);
    if Named(sections, s.nameId).Some? {
      NamedHasNoOverride(sections, s.nameId);
    }
    GoPlanAgrees(c, t, sections, s);
  }

  lemma SameWritten(s: Spec, p: Plan, r: Record, file: seq<byte>, r': Record, file': seq<byte>)
    requires PayloadAgrees(s) && Written(s, p, r, file) && Written(s, p, r', file')
    ensures SameContents(file, r, file', r')
  {
  }

  /** There is one manifest, so both files name the same. */
  lemma OneManifestStored(specs: seq<Spec>, plans: seq<Plan>, b: Parsed, b': Parsed)
    requires OneManifestSpec(specs) && |specs| == |plans| == |b.sections| == |b'.sections|
    requires forall i :: 0 <= i < |specs| ==> b.sections[i].kind == specs[i].kind == b'.sections[i].kind
    requires exists i :: IsManifest(b.sections, i) && b.manifest == plans[i].stored
    requires exists i :: IsManifest(b'.sections, i) && b'.manifest == plans[i].stored
    ensures b.manifest == b'.manifest
  {
    var i :| IsManifest(b.sections, i) && b.manifest == plans[i].stored;
    var j :| IsManifest(b'.sections, j) && b'.manifest == plans[j].stored;
    assert specs[i].kind == MANIFEST && specs[j].kind == MANIFEST;
  }
}
