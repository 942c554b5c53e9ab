/**
 The independent Go reader (`bundle.go`): another order of checks, another layout
 algorithm, and exactly the same files, parsed to the same thing.
 */
module GoBundle {
  import opened Bytes
  import opened Blake3Tree
  import opened Container
  import opened FooterFormat
  import opened Layout
  import opened GoLayout
  import opened Bundle

  /** `parseFooter`, after the header has been checked against the file's length. */
  function GoParseFooter(file: seq<byte>, footerOff: nat, suite: u16): Result<Footer>
    requires footerOff <= |file|
  {
    if |file| - footerOff < MIN_FOOTER_LEN then Err
    else if footerOff < HEADER_LEN then Err
    else
      var fo := file[footerOff..];
      var (sc, sp) := (U32At(fo, 32), U32At(fo, 36));
      if sc > MAX_SIG_LEN || sp > MAX_SIG_LEN then Err
      else if (sc == 0) != (sp == 0) then Err
      else if |fo| != MIN_FOOTER_LEN + sc + sp then Err
      else if fo[|fo| - 8..] != MAGIC then Err
      else if U64At(fo, |fo| - 16) != |file| then Err
      else if sc != 0 && KnownSuite(suite) && (sc != 64 || sp != if suite == 3 then 11165 else 3309) then Err
      else Ok(Footer(fo[0..32], fo[40..40 + sc], fo[40 + sc..40 + sc + sp], U64At(fo, |fo| - 16)))
  }

  /** The slot lengths of F10 included, it reads the same footers. */
  lemma GoFooterAgrees(file: seq<byte>, footerOff: nat, suite: u16)
    requires footerOff <= |file|
    ensures GoParseFooter(file, footerOff, suite) == match ParseFooter(file, footerOff)
            case Ok(f) => if SlotLengths(suite, f) then Ok(f) else Err
            case Err => Err
  {
    if footerOff >= HEADER_LEN && |file| - footerOff >= MIN_FOOTER_LEN {
      var fo := file[footerOff..];
      assert fo[|fo| - 8..] == fo[|fo| - 16 + 8..|fo| - 16 + 16];
    }
  }

  /** The record loop of `Parse`. */
  method GoParseTable(table: seq<byte>, count: nat) returns (r: Result<seq<Record>>)
    requires |table| == 128 * count
    ensures r.Ok? ==> |r.value| == count && TableAt(table, r.value)
    ensures r.Err? ==> forall records :: |records| == count ==> !TableAt(table, records)
  {
    var sections: seq<Record> := [];
    for i := 0 to count
      invariant |sections| == i && TableAt(table, sections)
    {
      var (start, end) := (128 * i, 128 * i + 128);
      GoRecordAgrees(table[start..end]);
      var rec := GoParseRecord(table[start..end]);
      if rec.Err? {
        forall records | |records| == count && TableAt(table, records)
          ensures false
        {
          RecordInTable(table, records, i);
        }
        return Err;
      }
      TableNext(table, sections, rec.value, start, end);
      sections := sections + [rec.value];
    }
    return Ok(sections);
  }

  method GoReadTable(file: seq<byte>, h: Header) returns (r: Result<seq<Record>>)
    requires HeaderStep(file, h)
    ensures r.Ok? ==> TableStep(file, h, r.value)
    ensures r.Err? ==> forall sections :: !TableStep(file, h, sections)
  {
    var table := Slice(file, Table(h));
    r := GoParseTable(table, h.count);
    if r.Err? {
      return Err;
    }
    var valid := GoValidateTable(r.value, h, file);
    if !valid {
      forall sections | TableStep(file, h, sections)
        ensures false
      {
        TableUnique(table, sections, r.value);
      }
      return Err;
    }
  }

  method GoReadFooter(c: Compression, file: seq<byte>, h: Header) returns (r: Result<Footer>)
    requires HeaderStep(file, h)
    ensures r.Ok? ==> FooterStep(c, file, h, r.value)
    ensures r.Err? ==> forall f :: !FooterStep(c, file, h, f)
  {
    GoFooterAgrees(file, h.footerOff, h.suite);
    r := GoParseFooter(file, h.footerOff, h.suite);
    forall f
      ensures FooterStep(c, file, h, f) ==> r == Ok(f)
    {
      FooterIff(file, h.footerOff, f);
    }
    if r.Err? {
      return Err;
    }
    FooterIff(file, h.footerOff, r.value);
    if !KnownSuite(h.suite) {
      return Err;
    }
    if CommitmentRoot(c, file[..64], Slice(file, Table(h))) != r.value.root {
      return Err;
    }
  }

  /** `Parse`: the contract of the Rust reader, word for word. */
  method GoParse(c: Compression, ok: ManifestCheck, file: seq<byte>) returns (r: Result<Parsed>)
    ensures r.Ok? ==> IsBundle(c, ok, file, r.value)
    ensures r.Err? ==> forall b :: !IsBundle(c, ok, file, b)
  {
    var header := GoReadHeader(file);
    if header.Err? {
      return Err;
    }
    var h := header.value;
    var table := GoReadTable(file, h);
    var sections := if table.Ok? then table.value else [];
    forall b | IsBundle(c, ok, file, b)
      ensures b.header == h && (table.Ok? ==> b.sections == sections)
    {
      SameSteps(c, ok, file, b, h, sections);
    }
    if table.Err? {
      return Err;
    }
    var footer := GoReadFooter(c, file, h);
    if footer.Err? {
      return Err;
    }
    var manifest := ReadManifest(c, ok, file, h, sections);
    if manifest.Err? {
      return Err;
    }
    return Ok(Parsed(h, sections, footer.value, manifest.value));
  }

  method GoReadHeader(file: seq<byte>) returns (r: Result<Header>)
    ensures r.Ok? ==> HeaderStep(file, r.value)
    ensures r.Err? ==> forall h :: !HeaderStep(file, h)
  {
    r := GoParseHeader(file);
    forall h
      ensures HeaderStep(file, h) ==> r == Ok(h)
    {
      HeaderIff(file, h);
      GoHeaderAgrees(file, h);
    }
    if r.Err? {
      return Err;
    }
    GoHeaderAgrees(file, r.value);
    HeaderIff(file, r.value);
    if !ContainerV1(r.value) {
      return Err;
    }
  }
}
