/**
 Reading a whole file (`Bundle::parse`), verifying its inline sections and chunk indices,
 and what its commitment root fixes: with every section plain and verified, one root has
 exactly one byte string before its footer.
 */
module Bundle {
  import opened Bytes
  import opened Blake3Tree
  import opened Container
  import opened FooterFormat
  import opened Layout

  /** Whether a manifest's plaintext decodes and agrees with the table. */
  type ManifestCheck = (seq<byte>, seq<Record>) -> bool

  /** The section decompressor: a declared length, or a failure. */
  type Decompressor = (seq<byte>, nat) -> Option<seq<byte>>

  datatype Parsed = Parsed(header: Header, sections: seq<Record>, footer: Footer, manifest: seq<byte>)

  // ----- suites -----

  predicate KnownSuite(suite: u16) {
    1 <= suite <= 3
  }

  /** F10: the slot lengths are the suite's; an unsigned footer has no slots. */
  predicate SlotLengths(suite: u16, f: Footer) {
    Unsigned(f) || !KnownSuite(suite)
    || (|f.sigClassical| == 64 && |f.sigPq| == if suite == 3 then 11165 else 3309)
  }

  // ----- what a parsed file is -----

  function Slice(file: seq<byte>, g: Region): seq<byte> {
    if g.start <= g.end <= |file| then file[g.start..g.end] else []
  }

  function Stored(file: seq<byte>, r: Record): seq<byte> {
    Slice(file, StoredRange(r))
  }

  predicate IsManifest(records: seq<Record>, i: int) {
    0 <= i < |records| && records[i].kind == MANIFEST
  }

  // What the parsing steps establish in turn, each from values the one before validated.

  ghost predicate HeaderStep(file: seq<byte>, h: Header) {
    && |file| >= 64 && file[..64] == HeaderBytes(h) && HeaderRules(h)
    && CheckFileLen(h, |file|) && ContainerV1(h)
  }

  ghost predicate TableStep(file: seq<byte>, h: Header, sections: seq<Record>) {
    |sections| == h.count && TableAt(Slice(file, Table(h)), sections) && LayoutOk(sections, h, file)
  }

  ghost predicate FooterStep(c: Compression, file: seq<byte>, h: Header, f: Footer) {
    && HEADER_LEN <= h.footerOff <= |file|
    && SlotRules(f) && f.totalLen == |file| && file[h.footerOff..] == FooterBytes(f)
    && KnownSuite(h.suite) && SlotLengths(h.suite, f)
    && |file| >= 64 && CommitmentRoot(c, file[..64], Slice(file, Table(h))) == f.root
  }

  ghost predicate ManifestStep(c: Compression, ok: ManifestCheck, file: seq<byte>, sections: seq<Record>, m: seq<byte>) {
    && (exists i :: IsManifest(sections, i) && m == Stored(file, sections[i]) && Blake3(c, m) == sections[i].root)
    && ok(m, sections)
  }

  /** Everything `Bundle::parse` establishes about a file. */
  ghost predicate IsBundle(c: Compression, ok: ManifestCheck, file: seq<byte>, b: Parsed) {
    && HeaderStep(file, b.header)
    && TableStep(file, b.header, b.sections)
    && FooterStep(c, file, b.header, b.footer)
    && ManifestStep(c, ok, file, b.sections, b.manifest)
  }

  /** A file is at most one bundle. */
  lemma BundleUnique(c: Compression, ok: ManifestCheck, file: seq<byte>, a: Parsed, b: Parsed)
    requires IsBundle(c, ok, file, a) && IsBundle(c, ok, file, b)
    ensures a == b
  {
    HeaderIff(file, a.header);
    HeaderIff(file, b.header);
    TableUnique(Slice(file, Table(a.header)), a.sections, b.sections);
    FooterIff(file, a.header.footerOff, a.footer);
    FooterIff(file, b.header.footerOff, b.footer);
  }

  method FindManifest(records: seq<Record>) returns (i: nat)
    requires OneManifest(records)
    ensures IsManifest(records, i)
  {
    i := 0;
    while records[i].kind != MANIFEST
      invariant i < |records| && forall j :: 0 <= j < i ==> records[j].kind != MANIFEST
      decreases |records| - i
    {
      i := i + 1;
    }
  }

  method ReadTable(file: seq<byte>, h: Header) returns (r: Result<seq<Record>>)
    requires HeaderStep(file, h)
    ensures r.Ok? ==> TableStep(file, h, r.value)
    ensures r.Err? ==> forall sections :: !TableStep(file, h, sections)
  {
    var table := Slice(file, Table(h));
    r := ParseTable(table, h.count);
    if r.Err? {
      return Err;
    }
    var laidOut := ValidateLayout(r.value, h, file);
    if !laidOut {
      forall sections | TableStep(file, h, sections)
        ensures false
      {
        TableUnique(table, sections, r.value);
      }
      return Err;
    }
  }

  method ReadFooter(c: Compression, file: seq<byte>, h: Header) returns (r: Result<Footer>)
    requires HeaderStep(file, h)
    ensures r.Ok? ==> FooterStep(c, file, h, r.value)
    ensures r.Err? ==> forall f :: !FooterStep(c, file, h, f)
  {
    r := ParseFooter(file, h.footerOff);
    forall f
      ensures FooterStep(c, file, h, f) ==> r == Ok(f)
    {
      FooterIff(file, h.footerOff, f);
    }
    if r.Err? {
      return Err;
    }
    FooterIff(file, h.footerOff, r.value);
    if !Unsigned(r.value) && KnownSuite(h.suite)
      && (|r.value.sigClassical| != 64 || |r.value.sigPq| != if h.suite == 3 then 11165 else 3309) {
      return Err;
    }
    if !KnownSuite(h.suite) {
      return Err;
    }
    if CommitmentRoot(c, file[0..64], Slice(file, Table(h))) != r.value.root {
      assert file[0..64] == file[..64];
      return Err;
    }
    assert file[0..64] == file[..64];
  }

  method ReadManifest(c: Compression, ok: ManifestCheck, file: seq<byte>, h: Header, sections: seq<Record>)
    returns (r: Result<seq<byte>>)
    requires TableStep(file, h, sections)
    ensures r.Ok? ==> ManifestStep(c, ok, file, sections, r.value)
    ensures r.Err? ==> forall m :: !ManifestStep(c, ok, file, sections, m)
  {
    var i := FindManifest(sections);
    var bytes := Stored(file, sections[i]);
    if Blake3(c, bytes) != sections[i].root {
      return Err;
    }
    if !ok(bytes, sections) {
      return Err;
    }
    return Ok(bytes);
  }

  method ReadHeaderOf(file: seq<byte>) returns (r: Result<Header>)
    ensures r.Ok? ==> HeaderStep(file, r.value)
    ensures r.Err? ==> forall h :: !HeaderStep(file, h)
  {
    r := ParseHeader(file);
    forall h
      ensures HeaderStep(file, h) ==> r == Ok(h)
    {
      HeaderIff(file, h);
    }
    if r.Err? || !CheckFileLen(r.value, |file|) || !ContainerV1(r.value) {
      return Err;
    }
    HeaderIff(file, r.value);
  }

  /** The steps before a failing one leave no choice, so no bundle is missed. */
  lemma SameSteps(c: Compression, ok: ManifestCheck, file: seq<byte>, b: Parsed, h: Header, sections: seq<Record>)
    requires IsBundle(c, ok, file, b) && HeaderStep(file, h)
    ensures b.header == h
    ensures TableStep(file, h, sections) ==> b.sections == sections
  {
    HeaderIff(file, b.header);
    HeaderIff(file, h);
    if TableStep(file, h, sections) {
      TableUnique(Slice(file, Table(h)), b.sections, sections);
    }
  }

  /** `Bundle::parse`: succeeds exactly on the files that are bundles. */
  method ParseBundle(c: Compression, ok: ManifestCheck, file: seq<byte>) returns (r: Result<Parsed>)
    ensures r.Ok? ==> IsBundle(c, ok, file, r.value)
    ensures r.Err? ==> forall b :: !IsBundle(c, ok, file, b)
  {
    var header := ReadHeaderOf(file);
    if header.Err? {
      return Err;
    }
    var h := header.value;
    var table := ReadTable(file, h);
    var sections := if table.Ok? then table.value else [];
    forall b | IsBundle(c, ok, file, b)
      ensures b.header == h && (table.Ok? ==> b.sections == sections)
    {
      SameSteps(c, ok, file, b, h, sections);
    }
    if table.Err? {
      return Err;
    }
    var footer := ReadFooter(c, file, h);
    if footer.Err? {
      return Err;
    }
    var manifest := ReadManifest(c, ok, file, h, sections);
    if manifest.Err? {
      return Err;
    }
    return Ok(Parsed(h, sections, footer.value, manifest.value));
  }
}
