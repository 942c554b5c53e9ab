/**
 The first pass of `write_bundle`: what each section stores, where its bytes go, and the
 record that describes them. The body grows as a tiling: what no region claims is zero.
 */
module WriterPlan {
  import opened Arithmetic
  import opened Bytes
  import opened Blake3Tree
  import opened ChunkTree
  import opened ChunkIndex
  import opened Container
  import opened Layout
  import opened RegionClasses
  import opened Sorting
  import opened Commitment

  // ----- what is asked of the writer -----

  datatype Payload =
    | Inline(bytes: seq<byte>)
    | Envelopes
    | External(lenPlain: u64, root: Digest)

  datatype Spec = Spec(
    kind: u16, nameId: u16, flags: u16, chunkSize: u32, comp: byte,
    payload: Payload, chunkIndex: Option<seq<byte>>, encrypt: bool)

  /** Compression of a plaintext at a chunk size. */
  type Compressor = (seq<byte>, nat) -> Option<seq<byte>>

  /**
   The transforms the writer calls: zstd framing, sealing one section under its content
   key, and the key envelopes of the whole list as canonical CBOR.
   */
  datatype Transforms = Transforms(
    compress: Compressor,
    seal: Spec -> Option<seq<byte>>,
    envelopes: seq<byte>)

  /** What one section stores and what its record says of the plaintext. */
  datatype Plan = Plan(stored: seq<byte>, lenPlain: u64, root: Digest, enc: byte, index: Option<seq<Digest>>)

  function Transformed(z: Compressor, s: Spec, bytes: seq<byte>): Option<seq<byte>> {
    if s.comp == 0 then Some(bytes) else z(bytes, s.chunkSize)
  }

  /** The index supplied for a payload the writer never sees, if a reader would accept it. */
  function Adopted(c: Compression, s: Spec, bytes: seq<byte>, lenPlain: u64, root: Digest): Option<seq<Digest>> {
    if s.chunkSize == 0 then None
    else
      var count := ChunkCount(lenPlain, s.chunkSize);
      if count < 2 || |bytes| != 32 * count || !VerifyRoot(c, Entries(bytes), root, s.chunkSize) then None
      else Some(Entries(bytes))
  }

  function Indexed(s: Spec, len: nat): bool {
    s.chunkSize != 0 && ChunkCount(len, s.chunkSize) >= 2
  }

  /** What pass 1 does with a section, as a function: the roots are hashes of the plaintext. */
  function PlanOf(c: Compression, t: Transforms, s: Spec): Option<Plan> {
    if s.chunkIndex.Some? && !s.payload.External? then None
    else if s.encrypt && !s.payload.Inline? then None
    else
      match s.payload
      case External(lenPlain, root) =>
        if s.chunkIndex.None? then Some(Plan([], lenPlain, root, 0, None))
        else if Adopted(c, s, s.chunkIndex.value, lenPlain, root).None? then None
        else Some(Plan([], lenPlain, root, 0, Adopted(c, s, s.chunkIndex.value, lenPlain, root)))
      case Envelopes =>
        if |t.envelopes| >= U64_RANGE || Transformed(t.compress, s, t.envelopes).None? then None
        else Some(Plan(Transformed(t.compress, s, t.envelopes).value, |t.envelopes|, Blake3(c, t.envelopes), 0, None))
      case Inline(bytes) =>
        if |bytes| >= U64_RANGE then None
        else if s.encrypt then
          if t.seal(s).None? then None else Some(Plan(t.seal(s).value, |bytes|, Blake3(c, bytes), 1, None))
        else if Transformed(t.compress, s, bytes).None? then None
        else if Indexed(s, |bytes|) && !LegalChunkSize(s.chunkSize) then None
        else
          var index := if Indexed(s, |bytes|) then Some(ChunkCvs(c, bytes, s.chunkSize)) else None;
          Some(Plan(Transformed(t.compress, s, bytes).value, |bytes|, Blake3(c, bytes), 0, index))
  }

  /** What a section stores, its length and its root, arm by arm; the transforms apply to the stored bytes alone. */
  ghost predicate PlanSays(c: Compression, t: Transforms, s: Spec, p: Plan) {
    match s.payload
    case External(lenPlain, root) =>
      p.stored == [] && p.lenPlain == lenPlain && p.root == root && p.enc == 0 && (p.index.Some? <==> s.chunkIndex.Some?)
    case Envelopes =>
      && p.lenPlain == |t.envelopes| && p.root == Blake3(c, t.envelopes) && p.enc == 0 && p.index.None?
      && Some(p.stored) == if s.comp == 0 then Some(t.envelopes) else t.compress(t.envelopes, s.chunkSize)
    case Inline(bytes) =>
      && p.lenPlain == |bytes| && p.root == Blake3(c, bytes)
      && if s.encrypt then p.enc == 1 && p.index.None? && t.seal(s) == Some(p.stored)
         else
           && p.enc == 0 && Some(p.stored) == (if s.comp == 0 then Some(bytes) else t.compress(bytes, s.chunkSize))
           && (p.index.Some? <==> s.chunkSize != 0 && |bytes| > s.chunkSize)
  }

  lemma PlanIs(c: Compression, t: Transforms, s: Spec)
    requires PlanOf(c, t, s).Some?
    ensures PlanSays(c, t, s, PlanOf(c, t, s).value)
  {
    if s.payload.Inline? && s.chunkSize != 0 {
      TwoChunks(|s.payload.bytes|, s.chunkSize);
    }
  }

  /** The plaintext arm: the root is read off the index when there is one, not hashed again. */
  method PlanPlain(c: Compression, t: Transforms, s: Spec, bytes: seq<byte>) returns (r: Option<Plan>)
    requires s.payload == Inline(bytes) && !s.encrypt && s.chunkIndex.None? && |bytes| < U64_RANGE
    ensures r == PlanOf(c, t, s)
  {
    var stored := Transformed(t.compress, s, bytes);
    if stored.None? {
      return None;
    }
    if s.chunkSize != 0 && ChunkCount(|bytes|, s.chunkSize) >= 2 {
      var index := Build(c, bytes, s.chunkSize);
      if index.Err? {
        return None;
      }
      var root := RootFromCvs(c, index.value);
      RootOfChunks(c, bytes, s.chunkSize);
      if root.None? {
        return None;
      }
      return Some(Plan(stored.value, |bytes|, root.value, 0, Some(index.value)));
    }
    return Some(Plan(stored.value, |bytes|, Blake3(c, bytes), 0, None));
  }

  /** The external arm: an index is adopted only if it reduces to the declared root. */
  method PlanExternal(c: Compression, t: Transforms, s: Spec, lenPlain: u64, root: Digest) returns (r: Option<Plan>)
    requires s.payload == External(lenPlain, root) && !s.encrypt
    ensures r == PlanOf(c, t, s)
  {
    if s.chunkIndex.None? {
      return Some(Plan([], lenPlain, root, 0, None));
    }
    var bytes := s.chunkIndex.value;
    if s.chunkSize == 0 {
      return None;
    }
    var parsed := Parse(bytes, ChunkCount(lenPlain, s.chunkSize));
    if parsed.Err? {
      return None;
    }
    EntriesOfBytes(parsed.value);
    if !VerifyRoot(c, parsed.value, root, s.chunkSize) {
      return None;
    }
    return Some(Plan([], lenPlain, root, 0, Some(parsed.value)));
  }

  /** The match of pass 1, arm by arm. */
  method PlanSection(c: Compression, t: Transforms, s: Spec) returns (r: Option<Plan>)
    ensures r == PlanOf(c, t, s)
    ensures r.Some? ==> PlanSays(c, t, s, r.value)
  {
    if PlanOf(c, t, s).Some? {
      PlanIs(c, t, s);
    }
    if s.chunkIndex.Some? && !s.payload.External? {
      return None;
    }
    if s.encrypt && !s.payload.Inline? {
      return None;
    }
    match s.payload {
      case External(lenPlain, root) =>
        r := PlanExternal(c, t, s, lenPlain, root);
      case Envelopes =>
        var stored := Transformed(t.compress, s, t.envelopes);
        if |t.envelopes| >= U64_RANGE || stored.None? {
          return None;
        }
        return Some(Plan(stored.value, |t.envelopes|, Blake3(c, t.envelopes), 0, None));
      case Inline(bytes) =>
        if |bytes| >= U64_RANGE {
          return None;
        }
        if s.encrypt {
          var sealed := t.seal(s);
          if sealed.None? {
            return None;
          }
          return Some(Plan(sealed.value, |bytes|, Blake3(c, bytes), 1, None));
        }
        r := PlanPlain(c, t, s, bytes);
    }
  }

  // ----- the body as a tiling -----

  /** The regions lie in the body, apart, and the rest of the body is zero. */
  ghost predicate Tiled(body: seq<byte>, gs: seq<Region>) {
    && NonEmpty(gs) && AllPairs(Apart, gs)
    && (forall g :: g in gs ==> 64 <= g.start && g.end <= 64 + |body|)
    && forall o :: 64 <= o < 64 + |body| && Unclaimed(gs, o) ==> body[o - 64] == 0
  }

  /** The bytes of the body at an offset of the file. */
  function BodyAt(body: seq<byte>, g: Region): seq<byte> {
    if 64 <= g.start <= g.end <= 64 + |body| then body[g.start - 64..g.end - 64] else []
  }

  lemma TileZeros(body: seq<byte>, gs: seq<Region>, n: nat)
    requires Tiled(body, gs)
    ensures Tiled(body + Zeros(n), gs)
  {
  }

  lemma TileNext(body: seq<byte>, gs: seq<Region>, x: seq<byte>, g: Region)
    requires Tiled(body, gs) && x != [] && g == Region(64 + |body|, 64 + |body| + |x|)
    ensures Tiled(body + x, gs + [g])
  {
    var all := gs + [g];
    forall i, j | 0 <= i < j < |all|
      ensures Apart(all[i], all[j])
    {
      if j < |gs| {
        assert Apart(gs[i], gs[j]);
      } else {
        assert gs[i] in gs;
      }
    }
    forall o | 64 <= o < 64 + |body + x| && Unclaimed(all, o)
      ensures (body + x)[o - 64] == 0
    {
      assert g in all && !Within(o, g);
      assert Unclaimed(gs, o) by {
        forall y | y in gs
          ensures !Within(o, y)
        {
          assert y in all;
        }
      }
    }
  }

  /** What was in the body stays where it was. */
  lemma BodyKeeps(body: seq<byte>, x: seq<byte>, g: Region)
    requires g.end <= 64 + |body|
    ensures BodyAt(body + x, g) == BodyAt(body, g)
  {
  }

  /** `pad_to`: zeros up to the alignment, counted from the start of the file. */
  method PadTo(body: seq<byte>, align: nat) returns (out: seq<byte>)
    requires align > 0
    ensures (64 + |out|) % align == 0 && |body| <= |out| < |body| + align
    ensures out == body + Zeros(|out| - |body|)
  {
    var pos := 64 + |body|;
    var rem := pos % align;
    if rem != 0 {
      AlignUp(pos, align);
      return body + Zeros(align - rem);
    }
    return body;
  }

  lemma AlignUp(pos: nat, align: nat)
    requires align > 0
    ensures (pos + (align - pos % align)) % align == 0
  {
    var (q, next) := (pos / align, pos + (align - pos % align));
    assert next == (q + 1) * align;
    MultipleOf(q + 1, align, next);
  }

  // ----- one section placed -----

  /** `r` describes the section `s` under plan `p`, with no index placed yet. */
  predicate Describes(s: Spec, p: Plan, r: Record) {
    && r.kind == s.kind && r.nameId == s.nameId && r.flags == s.flags && r.comp == s.comp
    && r.chunkSize == s.chunkSize && r.enc == p.enc && r.root == p.root && r.lenPlain == p.lenPlain
    && r.lenStored == |p.stored|
  }

  /** The stored bytes are in the body, at an aligned offset; an external section has none. */
  ghost predicate Stores(s: Spec, p: Plan, r: Record, body: seq<byte>) {
    if s.payload.External? then r.offset == 0 && p.stored == []
    else
      && 64 <= r.offset && r.offset % PAYLOAD_ALIGN == 0 && r.offset + |p.stored| <= 64 + |body|
      && BodyAt(body, Region(r.offset, r.offset + |p.stored|)) == p.stored
  }

  lemma StoresLater(s: Spec, p: Plan, r: Record, body: seq<byte>, x: seq<byte>)
    requires Stores(s, p, r, body)
    ensures Stores(s, p, r, body + x)
  {
    if !s.payload.External? {
      BodyKeeps(body, x, Region(r.offset, r.offset + |p.stored|));
    }
  }

  /** An external payload is one whose section says so. */
  predicate PayloadAgrees(s: Spec) {
    s.payload.External? <==> Container.External(s.flags)
  }

  /** Placing one section: pad, append, record. Fails when the file would not fit a `u64`. */
  method PlaceSection(s: Spec, p: Plan, body: seq<byte>, ghost gs: seq<Region>)
    returns (r: Result<Record>, out: seq<byte>)
    requires (s.payload.External? ==> p.stored == []) && p.enc <= 1
    ensures r.Err? ==> 64 + |body| + 4096 + |p.stored| >= U64_RANGE
    ensures r.Ok? ==> body <= out && |out| <= |body| + 4096 + |p.stored|
    ensures r.Ok? ==> Describes(s, p, r.value) && r.value.indexOff == 0 && Stores(s, p, r.value, out)
    ensures r.Ok? && PayloadAgrees(s) && Tiled(body, gs) ==> Tiled(out, gs + PayloadClaim(r.value))
  {
    out := body;
    if s.payload.External? {
      r := Ok(Record(s.kind, s.nameId, s.flags, p.enc, s.comp, 0, 0, p.lenPlain, s.chunkSize, 0, p.root));
      assert gs + PayloadClaim(r.value) == gs;
      return;
    }
    out := PadTo(body, 4096);
    ghost var padded := out;
    var offset := 64 + |out|;
    out := out + p.stored;
    if 64 + |out| >= U64_RANGE {
      return Err, out;
    }
    var record := Record(s.kind, s.nameId, s.flags, p.enc, s.comp, offset, |p.stored|, p.lenPlain, s.chunkSize, 0, p.root);
    if PayloadAgrees(s) && Tiled(body, gs) {
      TilePlaced(body, gs, padded, p.stored, record, out);
    }
    return Ok(record), out;
  }

  lemma TilePlaced(body: seq<byte>, gs: seq<Region>, padded: seq<byte>, stored: seq<byte>, r: Record, out: seq<byte>)
    requires Tiled(body, gs) && |body| <= |padded| && padded == body + Zeros(|padded| - |body|) && out == padded + stored
    requires !Container.External(r.flags) && r.offset == 64 + |padded| && r.lenStored == |stored|
    ensures Tiled(out, gs + PayloadClaim(r))
  {
    TileZeros(body, gs, |padded| - |body|);
    if stored == [] {
      assert gs + PayloadClaim(r) == gs && out == padded;
    } else {
      TileNext(padded, gs, stored, StoredRange(r));
    }
  }

  // ----- pass 1 -----

  /** The sections placed so far: their plans, records and bytes. */
  ghost predicate Placed(c: Compression, t: Transforms, specs: seq<Spec>, plans: seq<Plan>,
                         records: seq<Record>, body: seq<byte>) {
    && |plans| == |records| <= |specs|
    && forall i :: 0 <= i < |records| ==>
         && PlanOf(c, t, specs[i]) == Some(plans[i])
         && Describes(specs[i], plans[i], records[i])
         && Stores(specs[i], plans[i], records[i], body)
  }

  lemma PlacedLater(c: Compression, t: Transforms, specs: seq<Spec>, plans: seq<Plan>,
                    records: seq<Record>, body: seq<byte>, x: seq<byte>)
    requires Placed(c, t, specs, plans, records, body)
    ensures Placed(c, t, specs, plans, records, body + x)
  {
    forall i | 0 <= i < |records|
      ensures Stores(specs[i], plans[i], records[i], body + x)
    {
      StoresLater(specs[i], plans[i], records[i], body, x);
    }
  }

  /** A bound on what each pass adds to the body. */
  function PayloadWeights(plans: seq<Plan>): nat {
    if plans == [] then 0
    else
      var k := |plans| - 1;
      PayloadWeights(plans[..k]) + 4096 + |plans[k].stored|
  }

  /** What every plan of a section keeps: nothing is stored for a payload kept elsewhere, and so on. */
  predicate Shaped(c: Compression, s: Spec, p: Plan) {
    && p.enc <= 1 && (s.payload.External? ==> p.stored == [])
    && (p.enc == 1 <==> s.encrypt) && (s.encrypt ==> s.payload.Inline?)
    && (p.index.Some? ==> s.chunkSize != 0 && |p.index.value| == ChunkCount(p.lenPlain, s.chunkSize) >= 2)
    && (p.enc == 0 && s.comp == 0 && !s.payload.External? ==> |p.stored| == p.lenPlain && p.root == Blake3(c, p.stored))
  }

  lemma PlanShape(c: Compression, t: Transforms, s: Spec)
    requires PlanOf(c, t, s).Some?
    ensures Shaped(c, s, PlanOf(c, t, s).value)
  {
  }

  /** An index left for pass 2, and the record it belongs to. */
  datatype Job = Job(at: nat, index: seq<Digest>)

  function JobOf(at: nat, p: Plan): seq<Job> {
    if p.index.Some? then [Job(at, p.index.value)] else []
  }

  function Jobs(plans: seq<Plan>): seq<Job> {
    if plans == [] then []
    else
      var k := |plans| - 1;
      Jobs(plans[..k]) + JobOf(k, plans[k])
  }

  predicate Unindexed(records: seq<Record>) {
    forall i :: 0 <= i < |records| ==> records[i].indexOff == 0
  }

  predicate Agreed(specs: seq<Spec>) {
    forall i :: 0 <= i < |specs| ==> PayloadAgrees(specs[i])
  }

  /** What pass 1 has done so far; the tiling is right where payloads are what flags say. */
  ghost predicate FirstPass(c: Compression, t: Transforms, specs: seq<Spec>, plans: seq<Plan>,
                            records: seq<Record>, body: seq<byte>, indices: seq<Job>) {
    && Placed(c, t, specs, plans, records, body)
    && indices == Jobs(plans) && Unindexed(records)
    && (Agreed(specs) ==> Tiled(body, Payloads(records)))
    && |body| <= PayloadWeights(plans)
  }

  lemma PlacedNext(c: Compression, t: Transforms, specs: seq<Spec>, plans: seq<Plan>, records: seq<Record>,
                   body: seq<byte>, s: Spec, p: Plan, r: Record, out: seq<byte>)
    requires Placed(c, t, specs, plans, records, body) && |records| < |specs| && s == specs[|records|]
    requires PlanOf(c, t, s) == Some(p) && Describes(s, p, r) && body <= out && Stores(s, p, r, out)
    ensures Placed(c, t, specs, plans + [p], records + [r], out)
  {
    assert out == body + out[|body|..];
    PlacedLater(c, t, specs, plans, records, body, out[|body|..]);
  }

  lemma FirstPassNext(c: Compression, t: Transforms, specs: seq<Spec>, plans: seq<Plan>, records: seq<Record>,
                      body: seq<byte>, indices: seq<Job>, s: Spec, p: Plan, r: Record, out: seq<byte>)
    requires FirstPass(c, t, specs, plans, records, body, indices) && |records| < |specs| && s == specs[|records|]
    requires PlanOf(c, t, s) == Some(p) && Describes(s, p, r) && body <= out && Stores(s, p, r, out)
    requires (Agreed(specs) ==> Tiled(out, Payloads(records) + PayloadClaim(r))) && r.indexOff == 0
    requires |out| <= |body| + 4096 + |p.stored|
    ensures FirstPass(c, t, specs, plans + [p], records + [r], out, indices + JobOf(|records|, p))
  {
    PlacedNext(c, t, specs, plans, records, body, s, p, r, out);
    PlansNext(plans, p);
    assert (records + [r])[..|records|] == records;
    assert Unindexed(records + [r]);
  }

  lemma PlansNext(plans: seq<Plan>, p: Plan)
    ensures Jobs(plans + [p]) == Jobs(plans) + JobOf(|plans|, p)
    ensures PayloadWeights(plans + [p]) == PayloadWeights(plans) + 4096 + |p.stored|
  {
    assert (plans + [p])[..|plans|] == plans;
  }

  /** Pass 1. */
  method PlaceSections(c: Compression, t: Transforms, specs: seq<Spec>)
    returns (r: Result<seq<Record>>, body: seq<byte>, indices: seq<Job>, ghost plans: seq<Plan>)
    ensures |plans| <= |specs| && forall i :: 0 <= i < |plans| ==> PlanOf(c, t, specs[i]) == Some(plans[i])
    ensures r.Err? ==> |plans| < |specs|
    ensures r.Err? ==> (PlanOf(c, t, specs[|plans|]).None?
                        || 64 + PayloadWeights(plans) + 4096 + |PlanOf(c, t, specs[|plans|]).value.stored| >= U64_RANGE)
    ensures r.Ok? ==> |r.value| == |specs| && FirstPass(c, t, specs, plans, r.value, body, indices)
  {
    body, indices, plans := [], [], [];
    var records: seq<Record> := [];
    for i := 0 to |specs|
      invariant |plans| == |records| == i
      invariant FirstPass(c, t, specs, plans, records, body, indices)
    {
      var s := specs[i];
      var plan := PlanSection(c, t, s);
      if plan.None? {
        return Err, body, indices, plans;
      }
      var p := plan.value;
      PlanShape(c, t, s);
      var record, out := PlaceSection(s, p, body, Payloads(records));
      if record.Err? {
        return Err, body, indices, plans;
      }
      FirstPassNext(c, t, specs, plans, records, body, indices, s, p, record.value, out);
      if p.index.Some? {
        indices := indices + [Job(|records|, p.index.value)];
      } else {
        assert indices + JobOf(|records|, p) == indices;
      }
      plans := plans + [p];
      records := records + [record.value];
      body := out;
    }
    return Ok(records), body, indices, plans;
  }
}
