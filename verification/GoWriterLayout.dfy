/**
 What the Go writer (`writer.go`) is asked for, and where it puts it: every payload is
 directly followed by its chunk index, so the body grows section by section.
 */
module GoWriterLayout {
  import opened Bytes
  import opened Blake3Tree
  import opened ChunkIndex
  import opened GoChunkIndex
  import opened Container
  import opened Layout
  import opened WriterPlan
  import opened WriterIndices
  import opened WriterFile

  // ----- what is asked -----

  datatype GoSection = GoSection(
    kind: u16, nameId: u16, flags: u16, enc: byte, comp: byte, plaintext: seq<byte>, chunkSize: u32,
    externalSize: u64, externalRoot: Digest, emit: Option<bool>)

  datatype Options = Options(suiteId: u16, versionMinor: u16, manifestNameId: u16)

  /** A section in the terms of the format; an external one's plaintext is unused. */
  function SpecOf(s: GoSection): Spec {
    Spec(s.kind, s.nameId, s.flags, s.chunkSize, s.comp,
         if Container.External(s.flags) then Payload.External(s.externalSize, s.externalRoot) else Inline(s.plaintext),
         None, false)
  }

  function ManifestSpec(o: Options, manifest: seq<byte>): Spec {
    Spec(MANIFEST, o.manifestNameId, 0, 0, 0, Inline(manifest), None, false)
  }

  /** The writer emits the manifest itself, first. */
  function SpecsOf(o: Options, manifest: seq<byte>, sections: seq<GoSection>): (specs: seq<Spec>)
    ensures |specs| == |sections| + 1
  {
    [ManifestSpec(o, manifest)] + seq(|sections|, i requires 0 <= i < |sections| => SpecOf(sections[i]))
  }

  /** The sections this writer takes at all. */
  predicate Takes(s: GoSection) {
    s.kind != MANIFEST && s.enc == 0 && s.comp <= 1 && (Container.External(s.flags) ==> s.comp == 0)
  }

  /** The first section of a name. */
  function Named(sections: seq<GoSection>, nameId: u16): Option<GoSection> {
    if sections == [] then None
    else if sections[0].nameId == nameId then Some(sections[0])
    else Named(sections[1..], nameId)
  }

  /** `findSection`. */
  method FindSection(sections: seq<GoSection>, nameId: u16) returns (r: Option<GoSection>)
    ensures r == Named(sections, nameId)
  {
    for i := 0 to |sections|
      invariant Named(sections, nameId) == Named(sections[i..], nameId)
    {
      if sections[i].nameId == nameId {
        return Some(sections[i]);
      }
      assert sections[i..][1..] == sections[i + 1..];
    }
    return None;
  }

  /** An index is written from two chunks on, unless the section says otherwise. */
  function Emits(sections: seq<GoSection>, s: Spec, len: nat): bool {
    match Named(sections, s.nameId)
    case Some(x) => if x.emit.Some? then x.emit.value else Indexed(s, len)
    case None => Indexed(s, len)
  }

  /** What the writer does with a section: the counterpart of `PlanOf`. */
  function GoPlanOf(c: Compression, z: Compressor, sections: seq<GoSection>, s: Spec): Option<Plan> {
    match s.payload
    case External(lenPlain, root) => Some(Plan([], lenPlain, root, 0, None))
    case Envelopes => None
    case Inline(bytes) =>
      if |bytes| >= U64_RANGE || Transformed(z, s, bytes).None? then None
      else if !Emits(sections, s, |bytes|) then Some(Plan(Transformed(z, s, bytes).value, |bytes|, Blake3(c, bytes), 0, None))
      else if !Indexed(s, |bytes|) then None
      else Some(Plan(Transformed(z, s, bytes).value, |bytes|, Blake3(c, bytes), 0, Some(GoEntries(c, bytes, s.chunkSize))))
  }

  lemma GoPlanShape(c: Compression, z: Compressor, sections: seq<GoSection>, s: Spec)
    requires GoPlanOf(c, z, sections, s).Some? && !s.encrypt
    ensures Shaped(c, s, GoPlanOf(c, z, sections, s).value)
  {
  }

  /** With no override, both writers store the same bytes and list the same index entries. */
  lemma GoPlanAgrees(c: Compression, t: Transforms, sections: seq<GoSection>, s: Spec)
    requires s.chunkIndex.None? && !s.encrypt && !s.payload.Envelopes?
    requires s.chunkSize == 0 || LegalChunkSize(s.chunkSize)
    requires Named(sections, s.nameId).Some? ==> Named(sections, s.nameId).value.emit.None?
    ensures GoPlanOf(c, t.compress, sections, s) == PlanOf(c, t, s)
  {
    if s.payload.Inline? && s.chunkSize != 0 {
      GoEntriesAgree(c, s.payload.bytes, s.chunkSize);
    }
  }

  // ----- the sections before they are placed -----

  /** A record, the plaintext, and what is to be copied: the payload, later followed by its index. */
  datatype WriteSection = WriteSection(rec: Record, plain: seq<byte>, data: seq<byte>)

  function Unplaced(s: Spec): Record {
    if s.payload.External? then
      Record(s.kind, s.nameId, s.flags, 0, s.comp, 0, 0, s.payload.lenPlain, s.chunkSize, 0, s.payload.root)
    else
      Record(s.kind, s.nameId, s.flags, 0, s.comp, 0, 0, 0, s.chunkSize, 0, Zeros(32))
  }

  function Begun(z: Compressor, s: Spec): Option<WriteSection> {
    match s.payload
    case External(_, _) => Some(WriteSection(Unplaced(s), [], []))
    case Envelopes => None
    case Inline(bytes) =>
      if Transformed(z, s, bytes).None? then None else Some(WriteSection(Unplaced(s), bytes, Transformed(z, s, bytes).value))
  }

  predicate AllBegun(z: Compressor, specs: seq<Spec>, all: seq<WriteSection>) {
    |all| <= |specs| && forall i :: 0 <= i < |all| ==> Begun(z, specs[i]) == Some(all[i])
  }

  /** The first loop of `WriteBundle`: one section. */
  method Begin(z: Compressor, s: GoSection) returns (r: Option<WriteSection>)
    ensures r == if Takes(s) then Begun(z, SpecOf(s)) else None
  {
    if s.kind == MANIFEST {
      return None;
    }
    if s.enc != 0 {
      return None;
    }
    if s.comp != 0 && s.comp != 1 {
      return None;
    }
    if Container.External(s.flags) && s.comp != 0 {
      return None;
    }
    var stored := s.plaintext;
    if s.comp == 1 {
      var compressed := z(s.plaintext, s.chunkSize);
      if compressed.None? {
        return None;
      }
      stored := compressed.value;
    }
    var ws := WriteSection(Record(s.kind, s.nameId, s.flags, s.enc, s.comp, 0, 0, 0, s.chunkSize, 0, Zeros(32)),
                           s.plaintext, stored);
    if Container.External(s.flags) {
      ws := WriteSection(ws.rec.(lenPlain := s.externalSize, root := s.externalRoot), [], []);
    }
    return Some(ws);
  }

  predicate Startable(z: Compressor, sections: seq<GoSection>) {
    forall s :: s in sections ==> Takes(s) && Begun(z, SpecOf(s)).Some?
  }

  /** The first loop. */
  method BeginAll(z: Compressor, o: Options, manifest: seq<byte>, sections: seq<GoSection>)
    returns (r: Result<seq<WriteSection>>)
    ensures r.Ok? <==> Startable(z, sections)
    ensures r.Ok? ==> |r.value| == |sections| + 1 && AllBegun(z, SpecsOf(o, manifest, sections), r.value)
  {
    ghost var specs := SpecsOf(o, manifest, sections);
    var all := [WriteSection(Record(MANIFEST, o.manifestNameId, 0, 0, 0, 0, 0, 0, 0, 0, Zeros(32)), manifest, manifest)];
    for i := 0 to |sections|
      invariant |all| == i + 1 && AllBegun(z, specs, all)
      invariant forall k :: 0 <= k < i ==> Takes(sections[k]) && Begun(z, SpecOf(sections[k])).Some?
    {
      assert specs[i + 1] == SpecOf(sections[i]) && sections[i] in sections;
      var ws := Begin(z, sections[i]);
      if ws.None? {
        return Err;
      }
      all := all + [ws.value];
    }
    return Ok(all);
  }

  // ----- placing one section -----

  /** `alignUp` without its overflow check. */
  function AlignTo(pos: nat, align: nat): (up: nat)
    requires align > 0
    ensures pos <= up < pos + align
  {
    if pos % align == 0 then pos else pos + (align - pos % align)
  }

  lemma Aligned(pos: nat, align: nat)
    requires align > 0
    ensures AlignTo(pos, align) % align == 0
  {
    AlignUp(pos, align);
  }

  /** The body with `x` at an offset of the file, zeros before it. */
  function Extend(body: seq<byte>, off: nat, x: seq<byte>): seq<byte> {
    if 64 + |body| <= off then body + Zeros(off - 64 - |body|) + x else body
  }

  lemma ExtendHolds(body: seq<byte>, off: nat, x: seq<byte>)
    requires 64 + |body| <= off
    ensures var out := Extend(body, off, x);
      64 + |out| == off + |x| && body <= out && BodyAt(out, Region(off, off + |x|)) == x
  {
  }

  lemma ExtendTiles(body: seq<byte>, gs: seq<Region>, off: nat, x: seq<byte>, claim: seq<Region>)
    requires Tiled(body, gs) && 64 + |body| <= off && claim == if x == [] then [] else [Region(off, off + |x|)]
    ensures Tiled(Extend(body, off, x), gs + claim)
  {
    var padded := body + Zeros(off - 64 - |body|);
    TileZeros(body, gs, off - 64 - |body|);
    if x == [] {
      assert padded + x == padded && gs + claim == gs;
    } else {
      TileNext(padded, gs, x, Region(off, off + |x|));
    }
  }

  function PayloadOf(w: WriteSection): seq<byte> {
    if w.rec.lenStored <= |w.data| then w.data[..w.rec.lenStored] else []
  }

  function EncodedOf(w: WriteSection): seq<byte> {
    if w.rec.lenStored <= |w.data| then w.data[w.rec.lenStored..] else []
  }

  /** The body after the payload of a section, and after its index. */
  function WithPayload(body: seq<byte>, w: WriteSection): seq<byte> {
    if Container.External(w.rec.flags) then body else Extend(body, w.rec.offset, PayloadOf(w))
  }

  function Grow(body: seq<byte>, w: WriteSection): seq<byte> {
    if w.rec.indexOff == 0 then WithPayload(body, w) else Extend(WithPayload(body, w), w.rec.indexOff, EncodedOf(w))
  }

  /** The offsets do not run backwards. */
  predicate InOrder(body: seq<byte>, w: WriteSection) {
    && (!Container.External(w.rec.flags) ==> w.rec.lenStored <= |w.data| && 64 + |body| <= w.rec.offset)
    && (w.rec.indexOff != 0 ==> !Container.External(w.rec.flags) && 64 + |WithPayload(body, w)| <= w.rec.indexOff)
  }

  /** What a section can add to the file at most. */
  function Weight(p: Plan): nat {
    4096 + |p.stored| + 8 + if p.index.Some? then 32 * |p.index.value| else 0
  }

  /** The payload of a section placed. */
  ghost predicate PayloadDone(c: Compression, z: Compressor, s: Spec, w: WriteSection, body: seq<byte>) {
    && s.payload.Inline? && PayloadAgrees(s) && Transformed(z, s, s.payload.bytes) == Some(w.data)
    && w.rec == Unplaced(s).(offset := w.rec.offset, lenStored := w.rec.lenStored, lenPlain := w.rec.lenPlain,
                             root := Blake3(c, s.payload.bytes))
    && w.rec.offset == AlignTo(64 + |body|, 4096) && w.rec.lenStored == |w.data| && w.rec.lenPlain == |s.payload.bytes|
    && w.plain == s.payload.bytes
  }

  method PlacePayload(c: Compression, ghost z: Compressor, ghost s: Spec, w: WriteSection, pos: nat, ghost body: seq<byte>)
    returns (r: Option<WriteSection>, next: nat)
    requires s.payload.Inline? && PayloadAgrees(s) && Begun(z, s) == Some(w) && pos == 64 + |body|
    requires |w.plain| < U64_RANGE
    ensures r.None? ==> 64 + |body| + 4096 + |w.data| >= U64_RANGE
    ensures r.Some? ==> PayloadDone(c, z, s, r.value, body) && r.value.data == w.data
    ensures r.Some? ==> next == 64 + |WithPayload(body, r.value)| < U64_RANGE
  {
    next := pos;
    var off := AlignTo(pos, PAYLOAD_ALIGN);
    if off + |w.data| >= U64_RANGE {
      return None, next;
    }
    var rec := w.rec.(offset := off, lenStored := |w.data|, lenPlain := |w.plain|, root := Blake3(c, w.plain));
    next := off + |w.data|;
    ghost var placed := w.(rec := rec);
    assert PayloadOf(placed) == w.data;
    ExtendHolds(body, off, w.data);
    return Some(w.(rec := rec)), next;
  }

  lemma PayloadFinished(c: Compression, z: Compressor, s: Spec, w: WriteSection, body: seq<byte>, out: seq<byte>, gs: seq<Region>)
    requires PayloadDone(c, z, s, w, body) && out == WithPayload(body, w) && Tiled(body, gs)
    ensures InOrder(body, w) && body <= out && 64 + |out| == w.rec.offset + |w.data|
    ensures w.rec.offset >= 64 && w.rec.offset % PAYLOAD_ALIGN == 0
    ensures BodyAt(out, StoredRange(w.rec)) == w.data && Tiled(out, gs + PayloadClaim(w.rec))
  {
    assert PayloadOf(w) == w.data;
    Aligned(64 + |body|, 4096);
    ExtendHolds(body, w.rec.offset, w.data);
    ExtendTiles(body, gs, w.rec.offset, w.data, PayloadClaim(w.rec));
  }

  /** The section finished: its plan stored, its index, if any, right behind. */
  ghost predicate SectionDone(c: Compression, z: Compressor, sections: seq<GoSection>, s: Spec, p: Plan, w: WriteSection,
                              body: seq<byte>, out: seq<byte>, gs: seq<Region>) {
    && GoPlanOf(c, z, sections, s) == Some(p) && out == Grow(body, w) && InOrder(body, w) && body <= out
    && Finished(s, p, w.rec, out) && Tiled(out, gs + (PayloadClaim(w.rec) + IndexClaim(w.rec)))
  }

  /** A section kept elsewhere adds nothing. */
  lemma ExternalDone(c: Compression, z: Compressor, sections: seq<GoSection>, s: Spec, w: WriteSection, body: seq<byte>, gs: seq<Region>)
    requires s.payload.External? && PayloadAgrees(s) && !s.encrypt && Begun(z, s) == Some(w) && Tiled(body, gs)
    ensures SectionDone(c, z, sections, s, GoPlanOf(c, z, sections, s).value, w, body, body, gs)
  {
    assert gs + (PayloadClaim(w.rec) + IndexClaim(w.rec)) == gs;
  }

  /** A section without an index is finished with its payload. */
  lemma PlainDone(c: Compression, z: Compressor, sections: seq<GoSection>, s: Spec, p: Plan, w: WriteSection,
                  body: seq<byte>, out: seq<byte>, gs: seq<Region>)
    requires PayloadDone(c, z, s, w, body) && !s.encrypt && out == WithPayload(body, w) && Tiled(body, gs)
    requires GoPlanOf(c, z, sections, s) == Some(p) && p.index.None?
    ensures SectionDone(c, z, sections, s, p, w, body, out, gs)
  {
    PayloadFinished(c, z, s, w, body, out, gs);
    assert PayloadClaim(w.rec) + IndexClaim(w.rec) == PayloadClaim(w.rec);
  }

  /** What a plan says of a payload that is here. */
  lemma PlanParts(c: Compression, z: Compressor, sections: seq<GoSection>, s: Spec, p: Plan)
    requires GoPlanOf(c, z, sections, s) == Some(p) && s.payload.Inline?
    ensures Transformed(z, s, s.payload.bytes) == Some(p.stored) && p.enc == 0
    ensures p.lenPlain == |s.payload.bytes| && p.root == Blake3(c, s.payload.bytes)
    ensures p.index.Some? ==> s.chunkSize != 0 && |p.index.value| == ChunkCount(p.lenPlain, s.chunkSize) >= 2
  {
  }

  lemma DoneDescribes(c: Compression, z: Compressor, s: Spec, p: Plan, w: WriteSection, body: seq<byte>, r: Record, out: seq<byte>)
    requires PayloadDone(c, z, s, w, body) && r == w.rec.(indexOff := r.indexOff)
    requires Transformed(z, s, s.payload.bytes) == Some(p.stored) && p.enc == 0
    requires p.lenPlain == |s.payload.bytes| && p.root == Blake3(c, s.payload.bytes)
    requires BodyAt(out, StoredRange(r)) == w.data && 64 <= r.offset && r.offset % PAYLOAD_ALIGN == 0
    requires r.offset + |w.data| <= 64 + |out|
    ensures Describes(s, p, r) && Stores(s, p, r, out)
  {
  }

  /** The index of a section, behind its payload. */
  lemma IndexedDone(c: Compression, z: Compressor, sections: seq<GoSection>, s: Spec, p: Plan, w: WriteSection,
                    body: seq<byte>, mid: seq<byte>, w': WriteSection, off: u64, index: seq<Digest>, gs: seq<Region>)
    requires PayloadDone(c, z, s, w, body) && !s.encrypt && mid == WithPayload(body, w) && Tiled(body, gs)
    requires GoPlanOf(c, z, sections, s) == Some(p) && p.index == Some(index)
    requires off == AlignTo(64 + |mid|, 8) && w' == w.(rec := w.rec.(indexOff := off), data := w.data + IndexBytes(index))
    ensures SectionDone(c, z, sections, s, p, w', body, Extend(mid, off, IndexBytes(index)), gs)
  {
    var (bytes, gs') := (IndexBytes(index), gs + PayloadClaim(w.rec));
    var (out, r) := (Extend(mid, off, bytes), w'.rec);
    var at := 64 + |mid|;
    PayloadFinished(c, z, s, w, body, mid, gs);
    PlanParts(c, z, sections, s, p);
    IndexedParts(w, w', bytes);
    Aligned(at, 8);
    assert WithPayload(body, w') == mid;
    IndexBehind(s, index, r, mid, bytes, out, gs');
    DoneDescribes(c, z, s, p, w, body, r, out);
    TwoClaims(gs, PayloadClaim(r), IndexClaim(r));
  }

  lemma IndexedParts(w: WriteSection, w': WriteSection, bytes: seq<byte>)
    requires w.rec.lenStored == |w.data| && w'.rec == w.rec.(indexOff := w'.rec.indexOff) && w'.data == w.data + bytes
    ensures PayloadOf(w') == w.data == PayloadOf(w) && EncodedOf(w') == bytes
  {
  }

  /** An index laid behind a body: where it is, and that nothing before it moved. */
  lemma IndexBehind(s: Spec, index: seq<Digest>, r: Record, mid: seq<byte>, bytes: seq<byte>, out: seq<byte>, gs: seq<Region>)
    requires bytes == IndexBytes(index) && r.chunkSize != 0 && |index| == ChunkCount(r.lenPlain, r.chunkSize) >= 2
    requires Tiled(mid, gs) && r.indexOff >= 64 + |mid| && r.indexOff % TABLE_ALIGN == 0 && out == Extend(mid, r.indexOff, bytes)
    requires StoredRange(r).end <= 64 + |mid|
    ensures mid <= out && IndexPlaced(index, r, out) && Tiled(out, gs + IndexClaim(r))
    ensures BodyAt(out, StoredRange(r)) == BodyAt(mid, StoredRange(r))
  {
    var off := r.indexOff;
    var n := ChunkCount(r.lenPlain, r.chunkSize);
    assert IndexLen(r) == 32 * n;
    ExtendHolds(mid, off, bytes);
    ExtendTiles(mid, gs, off, bytes, IndexClaim(r));
    KeptBehind(mid, out, StoredRange(r));
  }

  lemma KeptBehind(mid: seq<byte>, out: seq<byte>, g: Region)
    requires mid <= out && g.end <= 64 + |mid|
    ensures BodyAt(out, g) == BodyAt(mid, g)
  {
    assert out == mid + out[|mid|..];
    BodyKeeps(mid, out[|mid|..], g);
  }

  lemma TwoClaims(gs: seq<Region>, a: seq<Region>, b: seq<Region>)
    ensures gs + a + b == gs + (a + b)
  {
  }

  /** The plan, if there is one, and the room it would need, whatever went wrong. */
  ghost predicate NoRoom(c: Compression, z: Compressor, sections: seq<GoSection>, s: Spec, body: seq<byte>) {
    GoPlanOf(c, z, sections, s).Some? ==> 64 + |body| + Weight(GoPlanOf(c, z, sections, s).value) >= U64_RANGE
  }

  /** What the writer decides about an index. */
  method WantsIndex(sections: seq<GoSection>, nameId: u16, lenPlain: u64, cs: u32) returns (emit: bool)
    ensures forall s: Spec :: s.nameId == nameId && s.chunkSize == cs ==> emit == Emits(sections, s, lenPlain)
  {
    emit := false;
    if cs != 0 {
      var count := GoChunkCount(lenPlain, cs);
      emit := count >= 2;
    }
    var named := FindSection(sections, nameId);
    if named.Some? && named.value.emit.Some? {
      emit := named.value.emit.value;
    }
  }

  /** The index step: its offset, its entries, its bytes behind the payload. */
  method PlaceIndexBehind(c: Compression, ghost z: Compressor, ghost sections: seq<GoSection>, ghost s: Spec, w: WriteSection,
                          pos: nat, ghost body: seq<byte>, ghost gs: seq<Region>)
    returns (r: Option<WriteSection>, next: nat, ghost out: seq<byte>)
    requires PayloadDone(c, z, s, w, body) && !s.encrypt && Tiled(body, gs) && Emits(sections, s, |w.plain|)
    requires pos == 64 + |WithPayload(body, w)|
    ensures r.None? ==> NoRoom(c, z, sections, s, body)
    ensures r.Some? ==> GoPlanOf(c, z, sections, s).Some?
    ensures r.Some? ==> SectionDone(c, z, sections, s, GoPlanOf(c, z, sections, s).value, r.value, body, out, gs)
    ensures r.Some? ==> next == 64 + |out| && |out| <= |body| + Weight(GoPlanOf(c, z, sections, s).value)
  {
    ghost var mid := WithPayload(body, w);
    out, next := mid, pos;
    var (cs, off) := (w.rec.chunkSize, AlignTo(pos, TABLE_ALIGN));
    var entries := BuildChunkIndex(c, w.plain, cs);
    if entries.Err? {
      return None, next, out;
    }
    var index := entries.value;
    if |index| < 2 {
      return None, next, out;
    }
    PayloadFinished(c, z, s, w, body, mid, gs);
    if off + 32 * |index| >= U64_RANGE {
      return None, next, out;
    }
    ghost var p := GoPlanOf(c, z, sections, s).value;
    var bytes := ToBytes(index);
    var done := w.(rec := w.rec.(indexOff := off), data := w.data + bytes);
    IndexedDone(c, z, sections, s, p, w, body, mid, done, off, index, gs);
    out := Extend(mid, off, bytes);
    ExtendHolds(mid, off, bytes);
    return Some(done), off + 32 * |index|, out;
  }

  /** One turn of the layout loop. */
  method PlaceOne(c: Compression, ghost z: Compressor, sections: seq<GoSection>, ghost s: Spec, w: WriteSection,
                  pos: nat, ghost body: seq<byte>, ghost gs: seq<Region>)
    returns (r: Option<WriteSection>, next: nat, ghost out: seq<byte>)
    requires PayloadAgrees(s) && !s.encrypt && Begun(z, s) == Some(w) && |w.plain| < U64_RANGE
    requires pos == 64 + |body| && Tiled(body, gs)
    ensures r.None? ==> NoRoom(c, z, sections, s, body)
    ensures r.Some? ==> GoPlanOf(c, z, sections, s).Some?
    ensures r.Some? ==> SectionDone(c, z, sections, s, GoPlanOf(c, z, sections, s).value, r.value, body, out, gs)
    ensures r.Some? ==> next == 64 + |out| && |out| <= |body| + Weight(GoPlanOf(c, z, sections, s).value)
  {
    out, next := body, pos;
    if Container.External(w.rec.flags) {
      ExternalDone(c, z, sections, s, w, body, gs);
      return Some(w), next, out;
    }
    var placed, mid := PlacePayload(c, z, s, w, pos, body);
    if placed.None? {
      return None, next, out;
    }
    var rec := placed.value.rec;
    var emit := WantsIndex(sections, rec.nameId, rec.lenPlain, rec.chunkSize);
    assert emit == Emits(sections, s, |w.plain|);
    if emit {
      r, next, out := PlaceIndexBehind(c, z, sections, s, placed.value, mid, body, gs);
    } else {
      out := WithPayload(body, placed.value);
      PlainDone(c, z, sections, s, GoPlanOf(c, z, sections, s).value, placed.value, body, out, gs);
      PayloadFinished(c, z, s, placed.value, body, out, gs);
      return placed, mid, out;
    }
  }

  // ----- placing all of them -----

  /** The body after all of these sections. */
  function Laid(all: seq<WriteSection>): seq<byte> {
    if all == [] then [] else Grow(Laid(all[..|all| - 1]), all[|all| - 1])
  }

  function Recs(all: seq<WriteSection>): (records: seq<Record>)
    ensures |records| == |all| && forall i :: 0 <= i < |all| ==> records[i] == all[i].rec
  {
    seq(|all|, i requires 0 <= i < |all| => all[i].rec)
  }

  function Weights(plans: seq<Plan>): nat {
    if plans == [] then 0 else Weights(plans[..|plans| - 1]) + Weight(plans[|plans| - 1])
  }

  ghost predicate AllInOrder(all: seq<WriteSection>) {
    forall i :: 0 <= i < |all| ==> InOrder(Laid(all[..i]), all[i])
  }

  /** The sections laid out so far. */
  ghost predicate LaidOut(c: Compression, z: Compressor, sections: seq<GoSection>, specs: seq<Spec>, plans: seq<Plan>,
                          done: seq<WriteSection>, body: seq<byte>) {
    && |plans| == |done| <= |specs| && body == Laid(done) && Tiled(body, Claims(Recs(done))) && |body| <= Weights(plans)
    && AllInOrder(done)
    && GoPlans(c, z, sections, specs, plans) && FinishedSoFar(specs, plans, done, body)
  }

  ghost predicate GoPlans(c: Compression, z: Compressor, sections: seq<GoSection>, specs: seq<Spec>, plans: seq<Plan>) {
    |plans| <= |specs| && forall i :: 0 <= i < |plans| ==> GoPlanOf(c, z, sections, specs[i]) == Some(plans[i])
  }

  ghost predicate FinishedSoFar(specs: seq<Spec>, plans: seq<Plan>, done: seq<WriteSection>, body: seq<byte>) {
    |plans| == |done| <= |specs| && forall i :: 0 <= i < |done| ==> Finished(specs[i], plans[i], done[i].rec, body)
  }

  lemma FinishedLater(s: Spec, p: Plan, r: Record, body: seq<byte>, out: seq<byte>)
    requires Finished(s, p, r, body) && body <= out
    ensures Finished(s, p, r, out)
  {
    assert out == body + out[|body|..];
    StoresLater(s, p, r, body, out[|body|..]);
    if p.index.Some? {
      BodyKeeps(body, out[|body|..], Region(r.indexOff, r.indexOff + 32 * |p.index.value|));
    }
  }

  lemma LaidNext(done: seq<WriteSection>, w: WriteSection)
    ensures Laid(done + [w]) == Grow(Laid(done), w)
    ensures Claims(Recs(done + [w])) == Claims(Recs(done)) + (PayloadClaim(w.rec) + IndexClaim(w.rec))
    ensures AllInOrder(done) && InOrder(Laid(done), w) ==> AllInOrder(done + [w])
  {
    var all := done + [w];
    assert all[..|done|] == done && Recs(all)[..|done|] == Recs(done);
    forall i | 0 <= i < |done|
      ensures all[..i] == done[..i]
    {
    }
  }

  lemma WeightsNext(plans: seq<Plan>, p: Plan)
    ensures Weights(plans + [p]) == Weights(plans) + Weight(p)
  {
    assert (plans + [p])[..|plans|] == plans;
  }

  lemma LaidOutNext(c: Compression, z: Compressor, sections: seq<GoSection>, specs: seq<Spec>, plans: seq<Plan>,
                    done: seq<WriteSection>, body: seq<byte>, p: Plan, w: WriteSection, out: seq<byte>)
    requires LaidOut(c, z, sections, specs, plans, done, body) && |done| < |specs|
    requires SectionDone(c, z, sections, specs[|done|], p, w, body, out, Claims(Recs(done)))
    requires |out| <= |body| + Weight(p)
    ensures LaidOut(c, z, sections, specs, plans + [p], done + [w], out)
  {
    LaidNext(done, w);
    WeightsNext(plans, p);
    FinishedNext(specs, plans, done, body, p, w, out);
  }

  lemma FinishedNext(specs: seq<Spec>, plans: seq<Plan>, done: seq<WriteSection>, body: seq<byte>,
                     p: Plan, w: WriteSection, out: seq<byte>)
    requires FinishedSoFar(specs, plans, done, body) && |done| < |specs| && body <= out
    requires Finished(specs[|done|], p, w.rec, out)
    ensures FinishedSoFar(specs, plans + [p], done + [w], out)
  {
    forall i | 0 <= i < |done|
      ensures Finished(specs[i], plans[i], done[i].rec, out)
    {
      FinishedLater(specs[i], plans[i], done[i].rec, body, out);
    }
  }

  /** What every list of sections given to the layout loop satisfies. */
  predicate Placeable(specs: seq<Spec>) {
    forall i :: 0 <= i < |specs| ==> PayloadAgrees(specs[i]) && !specs[i].encrypt && specs[i].chunkIndex.None?
  }

  /** A turn of the layout loop, and what has been laid out after it. */
  method PlaceNext(c: Compression, ghost z: Compressor, sections: seq<GoSection>, ghost specs: seq<Spec>, ghost plans: seq<Plan>,
                   ghost done: seq<WriteSection>, w: WriteSection, pos: nat, ghost body: seq<byte>)
    returns (r: Option<WriteSection>, next: nat, ghost p: Plan, ghost out: seq<byte>)
    requires LaidOut(c, z, sections, specs, plans, done, body) && |done| < |specs| && Placeable(specs)
    requires Begun(z, specs[|done|]) == Some(w) && |w.plain| < U64_RANGE && pos == 64 + |body|
    ensures r.None? ==> NoRoom(c, z, sections, specs[|done|], body)
    ensures r.Some? ==> LaidOut(c, z, sections, specs, plans + [p], done + [r.value], out) && next == 64 + |out|
  {
    ghost var (s, gs) := (specs[|done|], Claims(Recs(done)));
    p := Plan([], 0, Zeros(32), 0, None);
    r, next, out := PlaceOne(c, z, sections, s, w, pos, body, gs);
    if r.Some? {
      p := GoPlanOf(c, z, sections, s).value;
      LaidOutNext(c, z, sections, specs, plans, done, body, p, r.value, out);
    }
  }

  /** The layout loop: the list is updated in place, one section at a time. */
  method LayOut(c: Compression, ghost z: Compressor, sections: seq<GoSection>, ghost specs: seq<Spec>, begun: seq<WriteSection>)
    returns (r: Result<seq<WriteSection>>, pos: nat, ghost plans: seq<Plan>, ghost body: seq<byte>)
    requires |begun| == |specs| && AllBegun(z, specs, begun) && Placeable(specs)
    requires forall i :: 0 <= i < |begun| ==> |begun[i].plain| < U64_RANGE
    ensures r.Err? ==> |plans| < |specs| && NoRoom(c, z, sections, specs[|plans|], body)
    ensures |body| <= Weights(plans) && GoPlans(c, z, sections, specs, plans)
    ensures r.Ok? ==> |r.value| == |specs| && LaidOut(c, z, sections, specs, plans, r.value, body) && pos == 64 + |body|
  {
    var all := begun;
    pos, plans, body := HEADER_LEN, [], [];
    ghost var done: seq<WriteSection> := [];
    for i := 0 to |begun|
      invariant Replaced(all, done, begun) && pos == 64 + |body| && |done| == i
      invariant LaidOut(c, z, sections, specs, plans, done, body)
    {
      NextBegun(z, specs, begun, all, done, i);
      var w, next, p, out := PlaceNext(c, z, sections, specs, plans, done, all[i], pos, body);
      if w.None? {
        return Err, pos, plans, body;
      }
      all := UpdateAt(all, i, w.value, done, begun);
      pos, plans, body, done := next, plans + [p], out, done + [w.value];
    }
    assert all[..|all|] == all;
    return Ok(all), pos, plans, body;
  }

  /** The list with its front replaced so far. */
  predicate Replaced<T(==)>(all: seq<T>, done: seq<T>, begun: seq<T>) {
    |all| == |begun| && |done| <= |all| && all[..|done|] == done && all[|done|..] == begun[|done|..]
  }

  /** The next section to place has not been touched. */
  lemma NextBegun(z: Compressor, specs: seq<Spec>, begun: seq<WriteSection>, all: seq<WriteSection>, done: seq<WriteSection>, i: nat)
    requires |begun| == |specs| && AllBegun(z, specs, begun) && Replaced(all, done, begun) && i == |done| < |all|
    ensures all[i] == begun[i] && Begun(z, specs[i]) == Some(all[i])
  {
    assert all[i] == all[i..][0] && begun[i] == begun[i..][0];
  }

  /** `all[i] = x`. */
  method UpdateAt<T(==)>(all: seq<T>, i: nat, x: T, ghost done: seq<T>, ghost begun: seq<T>) returns (updated: seq<T>)
    requires Replaced(all, done, begun) && i == |done| < |all|
    ensures Replaced(updated, done + [x], begun)
  {
    updated := all[i := x];
  }
}
