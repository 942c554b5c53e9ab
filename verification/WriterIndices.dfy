/**
 The second pass of `write_bundle`: the chunk indices follow the payloads, and each record
 that has one is patched with where it went.
 */
module WriterIndices {
  import opened Bytes
  import opened ChunkIndex
  import opened Container
  import opened Layout
  import opened RegionClasses
  import opened WriterPlan

  // ----- pass 2: the chunk indices -----

  function JobWeights(jobs: seq<Job>): nat {
    if jobs == [] then 0
    else
      var k := |jobs| - 1;
      JobWeights(jobs[..k]) + 8 + 32 * |jobs[k].index|
  }

  /** The records from here on have no index placed after the first `k` jobs. */
  function Frontier(jobs: seq<Job>, k: nat): nat
    requires k <= |jobs|
  {
    if k == 0 then 0 else jobs[k - 1].at + 1
  }

  predicate NoIndexBetween(plans: seq<Plan>, from: nat, to: nat) {
    from <= to <= |plans| && forall j :: from <= j < to ==> plans[j].index.None?
  }

  predicate JobFits(plans: seq<Plan>, jobs: seq<Job>, k: nat)
    requires k < |jobs|
  {
    && NoIndexBetween(plans, Frontier(jobs, k), jobs[k].at)
    && jobs[k].at < |plans| && plans[jobs[k].at].index == Some(jobs[k].index)
  }

  /** The jobs name exactly the sections that have an index, in order. */
  lemma {:induction false} JobsInOrder(plans: seq<Plan>)
    ensures var jobs := Jobs(plans);
      && NoIndexBetween(plans, Frontier(jobs, |jobs|), |plans|)
      && forall k :: 0 <= k < |jobs| ==> JobFits(plans, jobs, k)
  {
    if plans != [] {
      var n := |plans| - 1;
      var (front, jobs) := (plans[..n], Jobs(plans[..n]));
      JobsInOrder(front);
      var all := Jobs(plans);
      forall k | 0 <= k < |all|
        ensures JobFits(plans, all, k)
      {
        if k < |jobs| {
          FrontJobFits(plans, front, all, jobs, k);
        } else {
          assert Frontier(all, k) == Frontier(jobs, k);
        }
      }
      assert NoIndexBetween(front, Frontier(jobs, |jobs|), n);
    }
  }

  lemma FrontJobFits(plans: seq<Plan>, front: seq<Plan>, all: seq<Job>, jobs: seq<Job>, k: nat)
    requires k < |jobs| && JobFits(front, jobs, k)
    requires jobs <= all && front <= plans
    ensures JobFits(plans, all, k)
  {
    assert Frontier(all, k) == Frontier(jobs, k) && all[k] == jobs[k];
  }

  predicate SameButIndex(a: Record, b: Record) {
    a == b.(indexOff := a.indexOff)
  }

  /** The index lies in the body at the record's offset. */
  ghost predicate IndexPlaced(index: seq<Digest>, r: Record, body: seq<byte>) {
    && r.indexOff >= 64 && r.indexOff % TABLE_ALIGN == 0 && r.indexOff + 32 * |index| <= 64 + |body|
    && BodyAt(body, Region(r.indexOff, r.indexOff + 32 * |index|)) == IndexBytes(index)
  }

  /** The records after the indices of the first `upto` sections have been placed. */
  ghost predicate Patched(plans: seq<Plan>, first: seq<Record>, records: seq<Record>, body: seq<byte>, upto: nat) {
    && |plans| == |first| == |records|
    && forall j :: 0 <= j < |records| ==> PatchedAt(plans[j], first[j], records[j], body, j < upto)
  }

  ghost predicate PatchedAt(p: Plan, first: Record, r: Record, body: seq<byte>, done: bool) {
    && SameButIndex(r, first)
    && if done && p.index.Some? then IndexPlaced(p.index.value, r, body) else r.indexOff == 0
  }

  lemma PatchedLater(plans: seq<Plan>, first: seq<Record>, records: seq<Record>, body: seq<byte>, x: seq<byte>, upto: nat)
    requires Patched(plans, first, records, body, upto)
    ensures Patched(plans, first, records, body + x, upto)
  {
    forall j | 0 <= j < |records|
      ensures PatchedAt(plans[j], first[j], records[j], body + x, j < upto)
    {
      assert PatchedAt(plans[j], first[j], records[j], body, j < upto);
      if j < upto && plans[j].index.Some? {
        BodyKeeps(body, x, Region(records[j].indexOff, records[j].indexOff + 32 * |plans[j].index.value|));
      }
    }
  }

  /** Moving the frontier over sections that have no index. */
  lemma PatchedFurther(plans: seq<Plan>, first: seq<Record>, records: seq<Record>, body: seq<byte>, upto: nat, to: nat)
    requires Patched(plans, first, records, body, upto) && upto <= to <= |plans|
    requires forall j :: upto <= j < to ==> plans[j].index.None?
    ensures Patched(plans, first, records, body, to)
  {
    forall j | 0 <= j < |records|
      ensures PatchedAt(plans[j], first[j], records[j], body, j < to)
    {
      assert PatchedAt(plans[j], first[j], records[j], body, j < upto);
    }
  }

  /** Giving one record its index offset adds one region, at the end. */
  lemma {:induction false} IndicesPatched(records: seq<Record>, at: nat, r: Record)
    requires at < |records| && SameButIndex(r, records[at]) && HasIndex(r)
    requires forall j :: at <= j < |records| ==> records[j].indexOff == 0
    ensures Indices(records[at := r]) == Indices(records) + [IndexRange(r)]
    ensures Payloads(records[at := r]) == Payloads(records)
  {
    var n := |records| - 1;
    var patched := records[at := r];
    if at == n {
      assert patched[..n] == records[..n];
    } else {
      assert patched[..n] == records[..n][at := r];
      IndicesPatched(records[..n], at, r);
    }
  }

  /** Where the body stands between the jobs of pass 2. */
  ghost predicate SecondPass(agreed: bool, plans: seq<Plan>, first: seq<Record>, jobs: seq<Job>, k: nat,
                             records: seq<Record>, body: seq<byte>, start: seq<byte>) {
    && k <= |jobs| && Patched(plans, first, records, body, Frontier(jobs, k))
    && (agreed ==> Tiled(body, Payloads(records) + Indices(records)))
    && start <= body && |body| <= |start| + JobWeights(jobs[..k])
  }

  /** One job of pass 2. */
  method PlaceIndex(job: Job, body: seq<byte>, ghost gs: seq<Region>)
    returns (off: Option<u64>, out: seq<byte>, ghost g: Region)
    requires |job.index| >= 1
    ensures off.None? ==> 64 + |body| + 8 + 32 * |job.index| >= U64_RANGE
    ensures off.Some? ==> body <= out && |out| <= |body| + 8 + 32 * |job.index|
    ensures off.Some? ==> g.start == off.value && g.end == g.start + 32 * |job.index| == 64 + |out|
    ensures off.Some? ==> g.start >= 64 && g.start % TABLE_ALIGN == 0
    ensures off.Some? ==> BodyAt(out, g) == IndexBytes(job.index)
    ensures off.Some? && Tiled(body, gs) ==> Tiled(out, gs + [g])
  {
    out := PadTo(body, 8);
    var start := 64 + |out|;
    ghost var padded := out;
    var bytes := ToBytes(job.index);
    out := out + bytes;
    g := Region(start, 64 + |out|);
    if 64 + |out| >= U64_RANGE {
      return None, out, g;
    }
    if Tiled(body, gs) {
      TileZeros(body, gs, |padded| - |body|);
      TileNext(padded, gs, bytes, g);
    }
    assert out[start - 64..] == bytes;
    return Some(start), out, g;
  }

  /** What a job of pass 2 may rely on. */
  lemma JobReady(plans: seq<Plan>, first: seq<Record>, records: seq<Record>, body: seq<byte>, jobs: seq<Job>, k: nat)
    requires jobs == Jobs(plans) && k < |jobs| && Patched(plans, first, records, body, Frontier(jobs, k))
    ensures jobs[k].at < |records| && plans[jobs[k].at].index == Some(jobs[k].index)
    ensures Patched(plans, first, records, body, jobs[k].at)
    ensures forall j :: jobs[k].at <= j < |records| ==> records[j].indexOff == 0
  {
    JobsInOrder(plans);
    assert JobFits(plans, jobs, k);
    PatchedFurther(plans, first, records, body, Frontier(jobs, k), jobs[k].at);
    forall j | jobs[k].at <= j < |records|
      ensures records[j].indexOff == 0
    {
      assert PatchedAt(plans[j], first[j], records[j], body, j < jobs[k].at);
    }
  }

  lemma PatchedNext(plans: seq<Plan>, first: seq<Record>, records: seq<Record>, body: seq<byte>, out: seq<byte>,
                    at: nat, next: nat, r: Record)
    requires Patched(plans, first, records, body, at) && at < |records| && next == at + 1 && body <= out
    requires plans[at].index.Some? && SameButIndex(r, records[at]) && IndexPlaced(plans[at].index.value, r, out)
    ensures Patched(plans, first, records[at := r], out, next)
  {
    assert out == body + out[|body|..];
    PatchedLater(plans, first, records, body, out[|body|..], at);
    forall j | 0 <= j < |records|
      ensures PatchedAt(plans[j], first[j], records[at := r][j], out, j < next)
    {
      assert PatchedAt(plans[j], first[j], records[j], out, j < at);
    }
  }

  lemma JobWeightsNext(jobs: seq<Job>, k: nat, next: nat)
    requires k < |jobs| && next == k + 1
    ensures JobWeights(jobs[..next]) == JobWeights(jobs[..k]) + 8 + 32 * |jobs[k].index|
  {
    assert jobs[..next][..k] == jobs[..k];
  }

  lemma {:induction false} JobWeightsMono(jobs: seq<Job>, k: nat)
    requires k <= |jobs|
    ensures JobWeights(jobs[..k]) <= JobWeights(jobs)
    decreases |jobs| - k
  {
    if k < |jobs| {
      JobWeightsNext(jobs, k, k + 1);
      JobWeightsMono(jobs, k + 1);
    } else {
      assert jobs[..k] == jobs;
    }
  }

  /** Every index has entries and belongs to a chunked section. */
  ghost predicate IndexableJobs(plans: seq<Plan>, first: seq<Record>) {
    && |plans| == |first|
    && forall j :: 0 <= j < |plans| && plans[j].index.Some? ==>
         first[j].chunkSize != 0 && |plans[j].index.value| == ChunkCount(first[j].lenPlain, first[j].chunkSize) >= 2
  }

  /** One job done: its record points at its index, and the list has one more region. */
  lemma JobDone(plans: seq<Plan>, first: seq<Record>, jobs: seq<Job>, k: nat, next: nat, records: seq<Record>,
                body: seq<byte>, at: nat, r: Record, patched: seq<Record>, g: Region, out: seq<byte>)
    requires jobs == Jobs(plans) && IndexableJobs(plans, first)
    requires k < |jobs| && next == k + 1 && Patched(plans, first, records, body, Frontier(jobs, k)) && body <= out
    requires at == jobs[k].at && at < |records| && SameButIndex(r, records[at]) && patched == records[at := r]
    requires IndexPlaced(jobs[k].index, r, out)
    requires g.start == r.indexOff >= 64 && g.end == g.start + 32 * |jobs[k].index|
    ensures Patched(plans, first, patched, out, Frontier(jobs, next))
    ensures Payloads(patched) == Payloads(records) && Indices(patched) == Indices(records) + [g]
  {
    JobReady(plans, first, records, body, jobs, k);
    RangeOfIndex(plans, first, records, body, at, r, g, jobs[k].index);
    IndicesPatched(records, at, r);
    PatchedNext(plans, first, records, body, out, at, Frontier(jobs, next), r);
  }

  lemma SecondPassNext(agreed: bool, plans: seq<Plan>, first: seq<Record>, jobs: seq<Job>, k: nat, next: nat,
                       records: seq<Record>, body: seq<byte>, start: seq<byte>, patched: seq<Record>,
                       gs: seq<Region>, g: Region, out: seq<byte>)
    requires k < |jobs| && next == k + 1 && SecondPass(agreed, plans, first, jobs, k, records, body, start)
    requires Patched(plans, first, patched, out, Frontier(jobs, next))
    requires Payloads(patched) == Payloads(records) && Indices(patched) == Indices(records) + [g]
    requires body <= out && |out| <= |body| + 8 + 32 * |jobs[k].index|
    requires gs == Payloads(records) + Indices(records) && (agreed ==> Tiled(out, gs + [g]))
    ensures SecondPass(agreed, plans, first, jobs, next, patched, out, start)
  {
    JobWeightsNext(jobs, k, next);
    assert gs + [g] == Payloads(patched) + Indices(patched);
  }

  /** Pass 2. */
  method PlaceIndices(ghost agreed: bool, ghost plans: seq<Plan>, first: seq<Record>, jobs: seq<Job>, start: seq<byte>)
    returns (r: Result<seq<Record>>, body: seq<byte>)
    requires jobs == Jobs(plans) && IndexableJobs(plans, first) && Unindexed(first)
    requires (agreed ==> Tiled(start, Payloads(first))) && |plans| == |first|
    ensures r.Err? ==> 64 + |start| + JobWeights(jobs) >= U64_RANGE
    ensures r.Ok? ==> SecondPass(agreed, plans, first, jobs, |jobs|, r.value, body, start)
  {
    body := start;
    var records := first;
    NoIndices(first);
    assert Payloads(first) + [] == Payloads(first);
    for k := 0 to |jobs|
      invariant SecondPass(agreed, plans, first, jobs, k, records, body, start)
    {
      JobReady(plans, first, records, body, jobs, k);
      JobHasEntries(plans, first, jobs, k);
      ghost var gs := Payloads(records) + Indices(records);
      var off, out, g := PlaceIndex(jobs[k], body, gs);
      if off.None? {
        JobWeightsNext(jobs, k, k + 1);
        JobWeightsMono(jobs, k + 1);
        return Err, out;
      }
      var at := jobs[k].at;
      var patched := records[at].(indexOff := off.value);
      var records' := records[at := patched];
      assert IndexPlaced(jobs[k].index, patched, out) by {
        assert g == Region(patched.indexOff, patched.indexOff + 32 * |jobs[k].index|);
      }
      JobDone(plans, first, jobs, k, k + 1, records, body, at, patched, records', g, out);
      SecondPassNext(agreed, plans, first, jobs, k, k + 1, records, body, start, records', gs, g, out);
      records, body := records', out;
    }
    return Ok(records), body;
  }

  lemma JobHasEntries(plans: seq<Plan>, first: seq<Record>, jobs: seq<Job>, k: nat)
    requires jobs == Jobs(plans) && IndexableJobs(plans, first) && k < |jobs|
    ensures |jobs[k].index| >= 1
  {
    JobsInOrder(plans);
    assert JobFits(plans, jobs, k);
  }

  lemma RangeOfIndex(plans: seq<Plan>, first: seq<Record>, records: seq<Record>, body: seq<byte>, at: nat,
                     r: Record, g: Region, index: seq<Digest>)
    requires IndexableJobs(plans, first) && Patched(plans, first, records, body, at) && at < |records|
    requires plans[at].index == Some(index) && SameButIndex(r, records[at])
    requires g.start == r.indexOff >= 64 && g.end == g.start + 32 * |index|
    ensures HasIndex(r) && IndexRange(r) == g
  {
    assert PatchedAt(plans[at], first[at], records[at], body, false);
    var n := ChunkCount(r.lenPlain, r.chunkSize);
    assert IndexLen(r) == 32 * n;
  }

  lemma {:induction false} NoIndices(records: seq<Record>)
    requires Unindexed(records)
    ensures Indices(records) == []
  {
    if records != [] {
      NoIndices(records[..|records| - 1]);
    }
  }
}
