/**
 What a file of the Go writer holds for each section it was given, the manifest first: the
 counterpart of WrittenSections, with the index override of a section.
 */
module GoWrittenSections {
  import opened Bytes
  import opened Blake3Tree
  import opened ChunkIndex
  import opened GoChunkIndex
  import opened Container
  import opened Layout
  import opened Bundle
  import opened WriterPlan
  import opened WriterFile
  import opened WrittenSections
  import opened GoWriterLayout

  /** The section came out as it was asked for; bit 2 of its flags says that it is kept elsewhere. */
  ghost predicate GoAsAsked(c: Compression, z: Compressor, s: GoSection, r: Record, file: seq<byte>) {
    && r.kind == s.kind && r.nameId == s.nameId && r.flags == s.flags && r.comp == s.comp && r.chunkSize == s.chunkSize && r.enc == 0
    && if s.flags / 4 % 2 == 1 then
         r.offset == 0 && r.lenStored == 0 && r.lenPlain == s.externalSize && r.root == s.externalRoot && r.indexOff == 0
       else
         && r.lenPlain == |s.plaintext| && r.root == Blake3(c, s.plaintext)
         && StoredBytes(file, r).Some?
         && StoredBytes(file, r) == (if s.comp == 0 then Some(s.plaintext) else z(s.plaintext, s.chunkSize))
         && (r.indexOff != 0 <==> if s.emit.Some? then s.emit.value else s.chunkSize != 0 && |s.plaintext| > s.chunkSize)
         && (r.indexOff != 0 ==> LegalChunkSize(s.chunkSize) && EntriesHeld(ChunkCvs(c, s.plaintext, s.chunkSize), r, file))
  }

  /** The manifest section: kind 1, stored as it is, without flags, chunks or an index. */
  ghost predicate ManifestAsAsked(c: Compression, o: Options, manifest: seq<byte>, r: Record, file: seq<byte>) {
    && r.kind == 1 && r.nameId == o.manifestNameId && r.flags == 0 && r.comp == 0 && r.enc == 0 && r.chunkSize == 0 && r.indexOff == 0
    && r.lenPlain == |manifest| && r.root == Blake3(c, manifest) && StoredBytes(file, r) == Some(manifest)
  }

  ghost predicate AllGoAsAsked(c: Compression, z: Compressor, o: Options, manifest: seq<byte>, sections: seq<GoSection>,
                               records: seq<Record>, file: seq<byte>) {
    && |records| == |sections| + 1 && ManifestAsAsked(c, o, manifest, records[0], file)
    && forall i :: 0 <= i < |sections| ==> GoAsAsked(c, z, sections[i], records[i + 1], file)
  }

  /** The section found under a name is one that has it. */
  lemma {:induction false} NamedIs(sections: seq<GoSection>, nameId: u16) returns (i: nat)
    requires Named(sections, nameId).Some?
    ensures i < |sections| && sections[i] == Named(sections, nameId).value && sections[i].nameId == nameId
  {
    i := 0;
    if sections[0].nameId != nameId {
      var j := NamedIs(sections[1..], nameId);
      i := j + 1;
    }
  }

  lemma {:induction false} NamedFinds(sections: seq<GoSection>, nameId: u16, i: nat)
    requires i < |sections| && sections[i].nameId == nameId
    ensures Named(sections, nameId).Some?
  {
    if i > 0 {
      NamedFinds(sections[1..], nameId, i - 1);
    }
  }

  lemma NamesApart(o: Options, manifest: seq<byte>, sections: seq<GoSection>, i: nat, j: nat)
    requires DistinctSpecs(SpecsOf(o, manifest, sections)) && i < |sections| && j < |sections|
    ensures sections[i].nameId != o.manifestNameId
    ensures sections[j].nameId == sections[i].nameId ==> j == i
  {
    var specs := SpecsOf(o, manifest, sections);
    assert specs[0].nameId == o.manifestNameId;
    assert specs[i + 1].nameId == sections[i].nameId && specs[j + 1].nameId == sections[j].nameId;
  }

  /** With distinct names it is the only one. */
  lemma NamedSelf(o: Options, manifest: seq<byte>, sections: seq<GoSection>, i: nat)
    requires DistinctSpecs(SpecsOf(o, manifest, sections)) && i < |sections|
    ensures Named(sections, sections[i].nameId) == Some(sections[i])
  {
    NamedFinds(sections, sections[i].nameId, i);
    var j := NamedIs(sections, sections[i].nameId);
    NamesApart(o, manifest, sections, i, j);
  }

  lemma ManifestUnnamed(o: Options, manifest: seq<byte>, sections: seq<GoSection>)
    requires DistinctSpecs(SpecsOf(o, manifest, sections))
    ensures Named(sections, o.manifestNameId).None?
  {
    if Named(sections, o.manifestNameId).Some? {
      var i := NamedIs(sections, o.manifestNameId);
      NamesApart(o, manifest, sections, i, i);
    }
  }

  lemma ManifestIsAsked(c: Compression, z: Compressor, o: Options, manifest: seq<byte>, sections: seq<GoSection>,
                        p: Plan, r: Record, file: seq<byte>, n: nat)
    requires DistinctSpecs(SpecsOf(o, manifest, sections)) && RecordRules(r) && EndsBy(r, n) && n <= |file|
    requires GoPlanOf(c, z, sections, ManifestSpec(o, manifest)) == Some(p) && Written(ManifestSpec(o, manifest), p, r, file)
    ensures ManifestAsAsked(c, o, manifest, r, file)
  {
    ManifestUnnamed(o, manifest, sections);
    StoredInFile(file, r, n);
  }

  lemma ExternalIsAsked(c: Compression, z: Compressor, sections: seq<GoSection>, s: GoSection, p: Plan, r: Record, file: seq<byte>)
    requires Takes(s) && Container.External(s.flags) && RecordRules(r)
    requires GoPlanOf(c, z, sections, SpecOf(s)) == Some(p) && Written(SpecOf(s), p, r, file)
    ensures GoAsAsked(c, z, s, r, file)
  {
  }

  lemma InlineIsAsked(c: Compression, z: Compressor, sections: seq<GoSection>, s: GoSection, p: Plan, r: Record, file: seq<byte>, n: nat)
    requires Takes(s) && !Container.External(s.flags) && RecordRules(r) && EndsBy(r, n) && n <= |file|
    requires Named(sections, s.nameId) == Some(s)
    requires GoPlanOf(c, z, sections, SpecOf(s)) == Some(p) && Written(SpecOf(s), p, r, file)
    ensures GoAsAsked(c, z, s, r, file)
  {
    StoredInFile(file, r, n);
    if s.chunkSize != 0 {
      TwoChunks(|s.plaintext|, s.chunkSize);
    }
    if p.index.Some? {
      EntriesInFile(file, r, n);
      GoEntriesAgree(c, s.plaintext, s.chunkSize);
    }
  }

  /** Every section of a carried file came out as it was asked for. */
  lemma GoCarriedAsAsked(c: Compression, z: Compressor, suite: u16, o: Options, manifest: seq<byte>, sections: seq<GoSection>,
                         plans: seq<Plan>, file: seq<byte>, b: Parsed)
    requires Carries(c, suite, SpecsOf(o, manifest, sections), plans, file, b)
    requires DistinctSpecs(SpecsOf(o, manifest, sections)) && forall s :: s in sections ==> Takes(s)
    requires GoPlans(c, z, sections, SpecsOf(o, manifest, sections), plans)
    ensures AllGoAsAsked(c, z, o, manifest, sections, b.sections, file)
  {
    var (specs, n) := (SpecsOf(o, manifest, sections), b.header.footerOff);
    CarriedAt(c, z, suite, specs, sections, plans, file, b, 0);
    ManifestIsAsked(c, z, o, manifest, sections, plans[0], b.sections[0], file, n);
    forall i | 0 <= i < |sections|
      ensures GoAsAsked(c, z, sections[i], b.sections[i + 1], file)
    {
      var next := i + 1;
      assert sections[i] in sections && specs[next] == SpecOf(sections[i]);
      CarriedAt(c, z, suite, specs, sections, plans, file, b, next);
      SectionIsAsked(c, z, o, manifest, sections, i, plans[next], b.sections[next], file, n);
    }
  }

  lemma CarriedAt(c: Compression, z: Compressor, suite: u16, specs: seq<Spec>, sections: seq<GoSection>, plans: seq<Plan>,
                  file: seq<byte>, b: Parsed, k: nat)
    requires Carries(c, suite, specs, plans, file, b) && GoPlans(c, z, sections, specs, plans) && k < |specs|
    ensures k < |b.sections| && k < |plans| && b.header.footerOff <= |file|
    ensures RecordRules(b.sections[k]) && EndsBy(b.sections[k], b.header.footerOff)
    ensures GoPlanOf(c, z, sections, specs[k]) == Some(plans[k]) && Written(specs[k], plans[k], b.sections[k], file)
  {
    assert b.sections[k] in b.sections;
  }

  lemma SectionIsAsked(c: Compression, z: Compressor, o: Options, manifest: seq<byte>, sections: seq<GoSection>, i: nat,
                       p: Plan, r: Record, file: seq<byte>, n: nat)
    requires DistinctSpecs(SpecsOf(o, manifest, sections)) && i < |sections| && Takes(sections[i])
    requires RecordRules(r) && EndsBy(r, n) && n <= |file|
    requires GoPlanOf(c, z, sections, SpecOf(sections[i])) == Some(p) && Written(SpecOf(sections[i]), p, r, file)
    ensures GoAsAsked(c, z, sections[i], r, file)
  {
    if Container.External(sections[i].flags) {
      ExternalIsAsked(c, z, sections, sections[i], p, r, file);
    } else {
      NamedSelf(o, manifest, sections, i);
      InlineIsAsked(c, z, sections, sections[i], p, r, file, n);
    }
  }
}
