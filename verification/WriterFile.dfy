/**
 A written file, whoever laid it out: finished records over a body, and the table, header
 and footer around it. If the sections keep the format's rules the file parses back to
 exactly those records over exactly those bytes; and if it parses back, they did.
 */
module WriterFile {
  import opened Bytes
  import opened Blake3Tree
  import opened ChunkIndex
  import opened Container
  import opened FooterFormat
  import opened Layout
  import opened Bundle
  import opened Commitment
  import opened WriterPlan
  import opened WriterIndices

  // ----- what a list of sections has to satisfy -----

  /** The rules of kinds, flags, transforms and chunking, as a caller can check them. */
  predicate SpecRules(s: Spec) {
    && KindRules(s.kind, s.flags) && PayloadAgrees(s)
    && s.comp <= 1 && (s.kind == MANIFEST || s.payload.External? ==> s.comp == 0)
    && (s.kind == MANIFEST ==> !s.encrypt)
    && (Sealed(s.flags) ==> s.encrypt)
    && (s.chunkSize != 0 ==> LegalChunkSize(s.chunkSize)) && (s.encrypt ==> s.chunkSize != 0)
  }

  ghost predicate OneManifestSpec(specs: seq<Spec>) {
    exists i :: 0 <= i < |specs| && specs[i].kind == MANIFEST
      && forall j :: 0 <= j < |specs| && specs[j].kind == MANIFEST ==> j == i
  }

  predicate DistinctSpecs(specs: seq<Spec>) {
    forall i, j :: 0 <= i < j < |specs| ==> specs[i].nameId != specs[j].nameId
  }

  ghost predicate GoodSpecs(specs: seq<Spec>) {
    && |specs| <= MAX_SECTIONS && (forall s :: s in specs ==> SpecRules(s))
    && OneManifestSpec(specs) && DistinctSpecs(specs)
  }

  // ----- what the output is -----

  /** `r` is the record of section `s`, and the file holds what it says. */
  ghost predicate Written(s: Spec, p: Plan, r: Record, file: seq<byte>) {
    && Describes(s, p, r)
    && (!s.payload.External? ==> Stored(file, r) == p.stored)
    && (HasIndex(r) <==> p.index.Some?)
    && (p.index.Some? ==> IndexEntries(file, r) == p.index.value)
  }

  /** Everything a reader checks but the manifest's own contents, and every section as planned. */
  ghost predicate Carries(c: Compression, suite: u16, specs: seq<Spec>, plans: seq<Plan>, file: seq<byte>, b: Parsed) {
    && HeaderStep(file, b.header) && TableStep(file, b.header, b.sections) && FooterStep(c, file, b.header, b.footer)
    && b.header.suite == suite && Unsigned(b.footer) && |b.sections| == |specs| == |plans|
    && (forall i :: 0 <= i < |specs| ==> Shaped(c, specs[i], plans[i]) && Written(specs[i], plans[i], b.sections[i], file))
    && exists i :: IsManifest(b.sections, i) && b.manifest == plans[i].stored
  }

  /** What is carried is a bundle as soon as its manifest passes. */
  lemma CarriedIsBundle(c: Compression, ok: ManifestCheck, suite: u16, specs: seq<Spec>, plans: seq<Plan>,
                        file: seq<byte>, b: Parsed)
    requires Carries(c, suite, specs, plans, file, b) && ok(b.manifest, b.sections)
    requires forall s :: s in specs ==> SpecRules(s)
    ensures IsBundle(c, ok, file, b)
  {
    var i :| IsManifest(b.sections, i) && b.manifest == plans[i].stored;
    assert specs[i] in specs && Written(specs[i], plans[i], b.sections[i], file);
  }

  /** What is read back is what was built. */
  lemma CarriedIsRead(c: Compression, ok: ManifestCheck, suite: u16, specs: seq<Spec>, plans: seq<Plan>,
                      file: seq<byte>, b: Parsed, parsed: Parsed)
    requires Carries(c, suite, specs, plans, file, b) && IsBundle(c, ok, file, parsed)
    requires forall s :: s in specs ==> SpecRules(s)
    ensures parsed == b
  {
    var anyManifest: ManifestCheck := (m, sections) => true;
    CarriedIsBundle(c, anyManifest, suite, specs, plans, file, b);
    assert IsBundle(c, anyManifest, file, parsed);
    BundleUnique(c, anyManifest, file, parsed, b);
  }

  /** What a plain section stores comes back, and hashes to its root. */
  lemma PlainComesBack(c: Compression, suite: u16, specs: seq<Spec>, plans: seq<Plan>, file: seq<byte>, b: Parsed, i: nat)
    requires Carries(c, suite, specs, plans, file, b) && i < |specs|
    requires !specs[i].payload.External? && specs[i].comp == 0 && plans[i].enc == 0
    ensures Stored(file, b.sections[i]) == plans[i].stored
    ensures Blake3(c, Stored(file, b.sections[i])) == b.sections[i].root
  {
    assert Written(specs[i], plans[i], b.sections[i], file);
  }

  // ----- the finished records keep the rules -----

  /** The record of a section, wherever its bytes and its index went. */
  ghost predicate Finished(s: Spec, p: Plan, r: Record, body: seq<byte>) {
    && Describes(s, p, r) && Stores(s, p, r, body)
    && if p.index.Some? then IndexPlaced(p.index.value, r, body) else r.indexOff == 0
  }

  lemma FinishedRules(c: Compression, s: Spec, p: Plan, r: Record, body: seq<byte>)
    requires SpecRules(s) && Shaped(c, s, p) && Finished(s, p, r, body) && 64 + |body| < U64_RANGE
    ensures RecordRules(r) && EndsBy(r, 64 + |body|)
    ensures HasIndex(r) <==> p.index.Some?
    ensures HasIndex(r) ==> IndexRange(r) == Region(r.indexOff, r.indexOff + 32 * |p.index.value|)
  {
    if p.index.Some? {
      var n := ChunkCount(r.lenPlain, r.chunkSize);
      assert IndexLen(r) == 32 * n;
    }
  }

  /** All of them. */
  ghost predicate AllFinished(c: Compression, specs: seq<Spec>, plans: seq<Plan>, records: seq<Record>, body: seq<byte>) {
    && |records| == |specs| == |plans|
    && forall i :: 0 <= i < |records| ==> Shaped(c, specs[i], plans[i]) && Finished(specs[i], plans[i], records[i], body)
  }

  lemma FinishedTable(c: Compression, specs: seq<Spec>, plans: seq<Plan>, records: seq<Record>,
                      body: seq<byte>, end: nat)
    requires AllFinished(c, specs, plans, records, body) && GoodSpecs(specs) && 64 + |body| <= end < U64_RANGE
    ensures forall r :: r in records ==> RecordRules(r) && EndsBy(r, end)
    ensures OneManifest(records) && DistinctNames(records)
  {
    forall i | 0 <= i < |records|
      ensures RecordRules(records[i]) && EndsBy(records[i], end)
      ensures records[i].kind == specs[i].kind && records[i].nameId == specs[i].nameId
    {
      assert Finished(specs[i], plans[i], records[i], body);
      FinishedRules(c, specs[i], plans[i], records[i], body);
    }
  }

  // ----- the table, the header and the footer -----

  /** The file around a body. */
  function FileOf(header: seq<byte>, body: seq<byte>, footer: seq<byte>): seq<byte> {
    header + body + footer
  }

  lemma FileEnds(header: seq<byte>, body: seq<byte>, footer: seq<byte>, end: nat)
    requires |header| == 64 && end == 64 + |body|
    ensures var file := FileOf(header, body, footer);
      |file| == end + |footer| && file[..64] == header && file[end..] == footer
  {
  }

  lemma FileSlice(header: seq<byte>, body: seq<byte>, footer: seq<byte>, g: Region)
    requires |header| == 64 && 64 <= g.start <= g.end <= 64 + |body|
    ensures Slice(FileOf(header, body, footer), g) == BodyAt(body, g)
  {
  }

  /** `file` holds `body` right after its header. */
  ghost predicate Around(file: seq<byte>, body: seq<byte>, end: nat) {
    end == 64 + |body| <= |file| && forall o :: 64 <= o < end ==> file[o] == body[o - 64]
  }

  lemma FileAround(header: seq<byte>, body: seq<byte>, footer: seq<byte>)
    requires |header| == 64
    ensures Around(FileOf(header, body, footer), body, 64 + |body|)
  {
  }

  /** The gaps of a tiled body are the gaps of the file. */
  lemma TiledGaps(body: seq<byte>, gs: seq<Region>, file: seq<byte>, end: nat)
    requires Tiled(body, gs) && Around(file, body, end)
    ensures GapsZero(file, gs, end)
  {
  }

  /** A tiled body with its table last is laid out as the reader requires. */
  lemma TiledIsLaidOut(records: seq<Record>, h: Header, body: seq<byte>, file: seq<byte>)
    requires Around(file, body, h.footerOff) && |records| == h.count && TableEnd(h) == h.footerOff && records != []
    requires forall r :: r in records ==> RecordRules(r) && EndsBy(r, h.footerOff)
    requires OneManifest(records) && DistinctNames(records)
    requires Tiled(body, Regions(records, h))
    ensures LayoutOk(records, h, file)
  {
    TiledGaps(body, Regions(records, h), file, h.footerOff);
    RegionsNonEmpty(records, h);
    ApartIsOneOwner(Regions(records, h));
  }

  /** How header, body and footer fit together. */
  ghost predicate Assembled(c: Compression, suite: u16, records: seq<Record>,
                            file: seq<byte>, h: Header, f: Footer, body: seq<byte>) {
    && h.major == 0 && h.suite == suite && h.flags == 0 && h.incompat == 0 && h.roCompat == 1
    && h.count == |records| && h.tableOff >= 64 && h.tableOff % TABLE_ALIGN == 0
    && TableEnd(h) == h.footerOff == 64 + |body|
    && SlotRules(f) && Unsigned(f) && f.totalLen == h.footerOff + MIN_FOOTER_LEN
    && file == FileOf(HeaderBytes(h), body, FooterBytes(f))
    && BodyAt(body, Table(h)) == TableBytes(records)
    && f.root == CommitmentRoot(c, HeaderBytes(h), TableBytes(records))
  }

  /** A header for this table, behind a body of this length. */
  predicate HeaderFor(h: Header, suite: u16, count: nat, tableOff: nat) {
    && h.major == 0 && h.suite == suite && h.flags == 0 && h.incompat == 0 && h.roCompat == 1
    && h.count == count && h.tableOff == tableOff >= 64 && h.tableOff % TABLE_ALIGN == 0
    && TableEnd(h) == h.footerOff && h.footerOff + MIN_FOOTER_LEN < U64_RANGE
  }

  lemma AssembledAround(c: Compression, suite: u16, records: seq<Record>, file: seq<byte>, h: Header, f: Footer,
                        start: seq<byte>, padded: seq<byte>, table: seq<byte>, body: seq<byte>)
    requires start <= padded && HeaderFor(h, suite, |records|, 64 + |padded|)
    requires table == TableBytes(records) && body == padded + table
    requires f == Footer(CommitmentRoot(c, HeaderBytes(h), table), [], [], h.footerOff + MIN_FOOTER_LEN)
    requires file == FileOf(HeaderBytes(h), body, FooterBytes(f))
    ensures start <= body && Assembled(c, suite, records, file, h, f, body)
  {
    BodyTail(padded, table, Table(h));
  }

  lemma BodyTail(padded: seq<byte>, table: seq<byte>, g: Region)
    requires g.start == 64 + |padded| && g.end == g.start + |table|
    ensures BodyAt(padded + table, g) == table
  {
  }

  lemma TileTable(start: seq<byte>, gs: seq<Region>, h: Header, table: seq<byte>, gap: nat)
    requires Tiled(start, gs) && h.tableOff == 64 + |start| + gap && |table| == 128 * h.count > 0
    ensures Tiled(start + Zeros(gap) + table, gs + [Table(h)])
  {
    TileZeros(start, gs, gap);
    TileNext(start + Zeros(gap), gs, table, Table(h));
  }

  lemma AssembledSteps(c: Compression, suite: u16, records: seq<Record>,
                       file: seq<byte>, h: Header, f: Footer, body: seq<byte>)
    requires Assembled(c, suite, records, file, h, f, body) && |records| <= MAX_SECTIONS && KnownSuite(suite)
    ensures HeaderStep(file, h) && FooterStep(c, file, h, f)
    ensures Slice(file, Table(h)) == TableBytes(records)
  {
    FileSlice(HeaderBytes(h), body, FooterBytes(f), Table(h));
    FileEnds(HeaderBytes(h), body, FooterBytes(f), h.footerOff);
  }

  lemma AssembledTable(c: Compression, suite: u16, records: seq<Record>, file: seq<byte>, h: Header, f: Footer,
                       body: seq<byte>)
    requires Assembled(c, suite, records, file, h, f, body) && 0 < |records| <= MAX_SECTIONS && KnownSuite(suite)
    requires forall r :: r in records ==> RecordRules(r) && EndsBy(r, h.footerOff)
    requires OneManifest(records) && DistinctNames(records)
    requires Tiled(body, Regions(records, h))
    ensures HeaderStep(file, h) && FooterStep(c, file, h, f) && TableStep(file, h, records)
  {
    AssembledSteps(c, suite, records, file, h, f, body);
    FileAround(HeaderBytes(h), body, FooterBytes(f));
    TiledIsLaidOut(records, h, body, file);
    WholeTable(Slice(file, Table(h)), records);
  }

  lemma WholeTable(table: seq<byte>, records: seq<Record>)
    requires |table| == 128 * |records|
    ensures TableAt(table, records) <==> table == TableBytes(records) && forall r :: r in records ==> RecordRules(r)
  {
    assert table[..128 * |records|] == table;
  }

  /** What a body held before it grew is in the file. */
  lemma HeldInFile(start: seq<byte>, body: seq<byte>, file: seq<byte>, end: nat, g: Region)
    requires start <= body && Around(file, body, end) && 64 <= g.start <= g.end <= 64 + |start|
    ensures Slice(file, g) == BodyAt(start, g)
  {
    assert |Slice(file, g)| == |BodyAt(start, g)|;
    forall k | 0 <= k < g.end - g.start
      ensures Slice(file, g)[k] == BodyAt(start, g)[k]
    {
      assert file[g.start + k] == body[g.start + k - 64] == start[g.start + k - 64];
    }
  }

  /** A finished record's bytes are in the file. */
  lemma FinishedWritten(c: Compression, s: Spec, p: Plan, r: Record, start: seq<byte>,
                        body: seq<byte>, file: seq<byte>, end: nat)
    requires start <= body && Around(file, body, end) && 64 + |start| < U64_RANGE
    requires SpecRules(s) && Shaped(c, s, p) && Finished(s, p, r, start)
    ensures Written(s, p, r, file)
  {
    FinishedRules(c, s, p, r, start);
    if !s.payload.External? {
      HeldInFile(start, body, file, end, StoredRange(r));
    }
    if p.index.Some? {
      IndexWritten(p.index.value, r, start, body, file, end);
    }
  }

  lemma IndexWritten(index: seq<Digest>, r: Record, start: seq<byte>, body: seq<byte>, file: seq<byte>, end: nat)
    requires start <= body && Around(file, body, end) && IndexPlaced(index, r, start)
    requires HasIndex(r) && IndexRange(r) == Region(r.indexOff, r.indexOff + 32 * |index|)
    ensures IndexEntries(file, r) == index
  {
    HeldInFile(start, body, file, end, IndexRange(r));
    EntriesOfBytes(index);
  }

  /** The sections and the bytes they were given, in the finished file. */
  lemma AllWritten(c: Compression, specs: seq<Spec>, plans: seq<Plan>, records: seq<Record>, start: seq<byte>,
                   body: seq<byte>, file: seq<byte>, end: nat)
    requires GoodSpecs(specs) && AllFinished(c, specs, plans, records, start) && start <= body
    requires Around(file, body, end) && end < U64_RANGE
    ensures forall i :: 0 <= i < |specs| ==> Written(specs[i], plans[i], records[i], file)
  {
    forall i | 0 <= i < |specs|
      ensures Written(specs[i], plans[i], records[i], file)
    {
      assert Finished(specs[i], plans[i], records[i], start) && specs[i] in specs;
      FinishedWritten(c, specs[i], plans[i], records[i], start, body, file, end);
    }
  }

  /** The manifest among the sections, as given. */
  lemma ManifestOf(c: Compression, specs: seq<Spec>, plans: seq<Plan>, records: seq<Record>, body: seq<byte>)
    returns (i: nat)
    requires GoodSpecs(specs) && AllFinished(c, specs, plans, records, body)
    ensures IsManifest(records, i) && i < |specs|
  {
    i :| 0 <= i < |specs| && specs[i].kind == MANIFEST;
    assert Finished(specs[i], plans[i], records[i], body);
  }

  /** What a writer has before it reads its own output back: the records, and the file around them. */
  datatype Composed = Composed(file: seq<byte>, header: Header, footer: Footer, records: seq<Record>)

  /** The records were finished when the body was `start`; the table has been added since. */
  ghost predicate Composes(c: Compression, suite: u16, specs: seq<Spec>, plans: seq<Plan>, x: Composed,
                           start: seq<byte>, body: seq<byte>) {
    && AllFinished(c, specs, plans, x.records, start) && start <= body
    && Assembled(c, suite, x.records, x.file, x.header, x.footer, body)
    && (Agreed(specs) && specs != [] ==> Tiled(body, Regions(x.records, x.header)))
  }

  lemma GoodAgrees(specs: seq<Spec>)
    requires GoodSpecs(specs)
    ensures Agreed(specs) && specs != []
  {
    forall i | 0 <= i < |specs|
      ensures PayloadAgrees(specs[i])
    {
      assert specs[i] in specs && SpecRules(specs[i]);
    }
  }

  lemma GoodSteps(c: Compression, suite: u16, specs: seq<Spec>, plans: seq<Plan>, x: Composed,
                  start: seq<byte>, body: seq<byte>)
    requires KnownSuite(suite) && GoodSpecs(specs) && Composes(c, suite, specs, plans, x, start, body)
    ensures HeaderStep(x.file, x.header) && FooterStep(c, x.file, x.header, x.footer)
    ensures TableStep(x.file, x.header, x.records)
  {
    GoodAgrees(specs);
    FinishedTable(c, specs, plans, x.records, start, x.header.footerOff);
    AssembledTable(c, suite, x.records, x.file, x.header, x.footer, body);
  }

  /** A good list of sections comes out as planned. */
  lemma GoodIsCarried(c: Compression, suite: u16, specs: seq<Spec>, plans: seq<Plan>, x: Composed,
                      start: seq<byte>, body: seq<byte>) returns (b: Parsed)
    requires KnownSuite(suite) && GoodSpecs(specs) && Composes(c, suite, specs, plans, x, start, body)
    ensures Carries(c, suite, specs, plans, x.file, b)
  {
    var i := ManifestOf(c, specs, plans, x.records, start);
    b := Parsed(x.header, x.records, x.footer, plans[i].stored);
    GoodSteps(c, suite, specs, plans, x, start, body);
    FileAround(HeaderBytes(x.header), body, FooterBytes(x.footer));
    AllWritten(c, specs, plans, x.records, start, body, x.file, 64 + |body|);
  }

  // ----- what does not keep the rules is refused -----

  /** Record bytes determine the record, rules or not. */
  lemma RecordBytesInjective(a: Record, b: Record)
    requires RecordBytes(a) == RecordBytes(b)
    ensures a == b
  {
    var bytes := RecordBytes(a);
    assert bytes[0..128] == bytes;
    RecordFields(bytes, a);
    RecordFields(bytes, b);
    ReadRecordAt(bytes, a);
    ReadRecordAt(bytes, b);
  }

  lemma {:induction false} TableBytesInjective(a: seq<Record>, b: seq<Record>)
    requires TableBytes(a) == TableBytes(b)
    ensures a == b
  {
    if a != [] && b != [] {
      var k := |a| - 1;
      var (front, front') := (a[..k], b[..k]);
      SplitEqual(TableBytes(front), RecordBytes(a[k]), TableBytes(front'), RecordBytes(b[k]));
      TableBytesInjective(front, front');
      RecordBytesInjective(a[k], b[k]);
      assert a == front + [a[k]] && b == front' + [b[k]];
    }
  }

  lemma SplitEqual<T>(a: seq<T>, x: seq<T>, b: seq<T>, y: seq<T>)
    requires |a| == |b| && a + x == b + y
    ensures a == b && x == y
  {
    assert a == (a + x)[..|a|] && b == (b + y)[..|a|];
    assert x == (a + x)[|a|..] && y == (b + y)[|a|..];
  }

  /** A finished record keeps the rules only if its section did. */
  lemma RulesBack(c: Compression, s: Spec, p: Plan, r: Record, body: seq<byte>)
    requires Shaped(c, s, p) && Finished(s, p, r, body) && RecordRules(r)
    ensures SpecRules(s)
  {
  }

  /** If a reader accepts the output, the sections kept every rule. */
  lemma ReadBackIsGood(c: Compression, ok: ManifestCheck, suite: u16, specs: seq<Spec>, plans: seq<Plan>, x: Composed,
                       start: seq<byte>, body: seq<byte>, parsed: Parsed)
    requires |specs| <= MAX_SECTIONS && Composes(c, suite, specs, plans, x, start, body)
    requires IsBundle(c, ok, x.file, parsed)
    ensures GoodSpecs(specs)
  {
    var records := x.records;
    FileEnds(HeaderBytes(x.header), body, FooterBytes(x.footer), x.header.footerOff);
    HeaderIff(x.file, x.header);
    HeaderIff(x.file, parsed.header);
    FileSlice(HeaderBytes(x.header), body, FooterBytes(x.footer), Table(x.header));
    WholeTable(Slice(x.file, Table(x.header)), parsed.sections);
    TableBytesInjective(parsed.sections, records);
    GoodFromRecords(c, specs, plans, records, start);
  }

  lemma GoodFromRecords(c: Compression, specs: seq<Spec>, plans: seq<Plan>, records: seq<Record>, body: seq<byte>)
    requires |specs| <= MAX_SECTIONS && AllFinished(c, specs, plans, records, body)
    requires (forall r :: r in records ==> RecordRules(r)) && OneManifest(records) && DistinctNames(records)
    ensures GoodSpecs(specs)
  {
    forall i | 0 <= i < |specs|
      ensures SpecRules(specs[i]) && specs[i].kind == records[i].kind && specs[i].nameId == records[i].nameId
    {
      assert Finished(specs[i], plans[i], records[i], body) && records[i] in records;
      RulesBack(c, specs[i], plans[i], records[i], body);
    }
    var i :| 0 <= i < |records| && records[i].kind == MANIFEST
      && forall j :: 0 <= j < |records| && records[j].kind == MANIFEST ==> j == i;
    assert specs[i].kind == MANIFEST;
  }

  lemma HeaderBytesInjective(a: Header, b: Header)
    requires HeaderBytes(a) == HeaderBytes(b)
    ensures a == b
  {
    var bytes := HeaderBytes(a);
    assert bytes[0..64] == bytes;
    HeaderFields(bytes, a);
    HeaderFields(bytes, b);
    ReadHeaderAt(bytes, a);
    ReadHeaderAt(bytes, b);
  }

  /** Where a reader finds the minor version and the suite. */
  lemma VersionAndSuite(c: Compression, suite: u16, x: Composed, body: seq<byte>)
    requires Assembled(c, suite, x.records, x.file, x.header, x.footer, body)
    ensures |x.file| >= 64 && U16At(x.file, 10) == x.header.minor && U16At(x.file, 16) == suite
  {
    var bytes := HeaderBytes(x.header);
    FileEnds(bytes, body, FooterBytes(x.footer), x.header.footerOff);
    assert bytes[0..64] == bytes;
    HeaderFields(bytes, x.header);
    ReadHeaderAt(bytes, x.header);
    assert x.file[10..12] == bytes[10..12] && x.file[16..18] == bytes[16..18];
  }

  /** A reader accepts no more sections than the format allows. */
  lemma CountAccepted(c: Compression, ok: ManifestCheck, suite: u16, x: Composed, body: seq<byte>, parsed: Parsed)
    requires Assembled(c, suite, x.records, x.file, x.header, x.footer, body) && IsBundle(c, ok, x.file, parsed)
    ensures |x.records| <= MAX_SECTIONS && KnownSuite(suite)
  {
    FileEnds(HeaderBytes(x.header), body, FooterBytes(x.footer), x.header.footerOff);
    HeaderBytesInjective(x.header, parsed.header);
  }

  /** What reading the output back tells: all the rules kept, or only the manifest to blame. */
  lemma ReadBack(c: Compression, ok: ManifestCheck, suite: u16, specs: seq<Spec>, plans: seq<Plan>, x: Composed,
                 start: seq<byte>, body: seq<byte>, parsed: Result<Parsed>) returns (b: Parsed)
    requires Composes(c, suite, specs, plans, x, start, body)
    requires parsed.Ok? ==> IsBundle(c, ok, x.file, parsed.value)
    requires parsed.Err? ==> forall b :: !IsBundle(c, ok, x.file, b)
    ensures parsed.Ok? ==> KnownSuite(suite) && GoodSpecs(specs) && IsBundle(c, ok, x.file, b)
    ensures KnownSuite(suite) && GoodSpecs(specs) ==> Carries(c, suite, specs, plans, x.file, b)
    ensures KnownSuite(suite) && GoodSpecs(specs) && parsed.Err? ==> !ok(b.manifest, b.sections)
  {
    if parsed.Ok? {
      CountAccepted(c, ok, suite, x, body, parsed.value);
      ReadBackIsGood(c, ok, suite, specs, plans, x, start, body, parsed.value);
    }
    b := Parsed(x.header, x.records, x.footer, []);
    if GoodSpecs(specs) && KnownSuite(suite) {
      b := GoodIsCarried(c, suite, specs, plans, x, start, body);
      if parsed.Ok? {
        CarriedIsRead(c, ok, suite, specs, plans, x.file, b, parsed.value);
      } else if ok(b.manifest, b.sections) {
        CarriedIsBundle(c, ok, suite, specs, plans, x.file, b);
      }
    }
  }
}
