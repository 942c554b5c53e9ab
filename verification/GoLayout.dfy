/**
 The independent Go layout check (`validateTable`): regions are compared pair by pair, by
 class, and only then sorted in place for the padding sweep. It accepts the same files.
 */
module GoLayout {
  import opened Bytes
  import opened Container
  import opened Sorting
  import opened Layout
  import opened RegionClasses

  // ----- the pairwise checks -----

  predicate Overlaps(a: Region, b: Region) {
    a.start < b.end && b.start < a.end
  }

  /** One region against a list: the inner loops of the pairwise checks. */
  method ApartFromAll(g: Region, others: seq<Region>, from: nat) returns (ok: bool)
    requires from <= |others|
    ensures ok <==> forall j :: from <= j < |others| ==> Apart(g, others[j])
  {
    for j := from to |others|
      invariant forall k :: from <= k < j ==> Apart(g, others[k])
    {
      if Overlaps(g, others[j]) {
        return false;
      }
    }
    return true;
  }

  /** T4: payloads against later payloads. */
  method PayloadsApart(payloads: seq<Region>) returns (ok: bool)
    ensures ok <==> AllPairs(Apart, payloads)
  {
    for i := 0 to |payloads|
      invariant forall k, j :: 0 <= k < i && k < j < |payloads| ==> Apart(payloads[k], payloads[j])
    {
      ok := ApartFromAll(payloads[i], payloads, i + 1);
      if !ok {
        return false;
      }
    }
    return true;
  }

  /** T5: payloads against the table. */
  method ApartFromTable(payloads: seq<Region>, table: Region) returns (ok: bool)
    ensures ok <==> forall i :: 0 <= i < |payloads| ==> Apart(payloads[i], table)
  {
    for i := 0 to |payloads|
      invariant forall k :: 0 <= k < i ==> Apart(payloads[k], table)
    {
      if Overlaps(payloads[i], table) {
        return false;
      }
    }
    return true;
  }

  /** T7: each index against the table, the payloads and the later indices. */
  method IndicesApart(indices: seq<Region>, payloads: seq<Region>, table: Region) returns (ok: bool)
    ensures ok <==> AllPairs(Apart, indices) && Across(indices, payloads)
                    && forall i :: 0 <= i < |indices| ==> Apart(indices[i], table)
  {
    for i := 0 to |indices|
      invariant forall k :: 0 <= k < i ==> Apart(indices[k], table)
      invariant forall k, j :: 0 <= k < i && 0 <= j < |payloads| ==> Apart(indices[k], payloads[j])
      invariant forall k, j :: 0 <= k < i && k < j < |indices| ==> Apart(indices[k], indices[j])
    {
      if Overlaps(indices[i], table) {
        return false;
      }
      var fromPayloads := ApartFromAll(indices[i], payloads, 0);
      if !fromPayloads {
        return false;
      }
      var fromIndices := ApartFromAll(indices[i], indices, i + 1);
      if !fromIndices {
        return false;
      }
    }
    return true;
  }

  lemma ThreeClasses(payloads: seq<Region>, indices: seq<Region>, table: Region)
    ensures AllPairs(Apart, payloads + indices + [table]) <==>
      && AllPairs(Apart, payloads) && AllPairs(Apart, indices) && Across(indices, payloads)
      && (forall i :: 0 <= i < |payloads| ==> Apart(payloads[i], table))
      && (forall i :: 0 <= i < |indices| ==> Apart(indices[i], table))
  {
    PairsOfBoth(payloads, indices);
    PairsOfBoth(payloads + indices, [table]);
    AcrossBoth(payloads, indices, [table]);
    AcrossBoth(payloads, payloads, indices);
    AcrossOne(payloads, table);
    AcrossOne(indices, table);
  }

  /** Together they compare every pair of regions. */
  method NoOverlap(payloads: seq<Region>, indices: seq<Region>, table: Region) returns (ok: bool)
    ensures ok <==> AllPairs(Apart, payloads + indices + [table])
  {
    ThreeClasses(payloads, indices, table);
    var t4 := PayloadsApart(payloads);
    if !t4 {
      return false;
    }
    var t5 := ApartFromTable(payloads, table);
    if !t5 {
      return false;
    }
    ok := IndicesApart(indices, payloads, table);
  }

  // ----- the sweep -----

  predicate StartLeq(a: Region, b: Region) {
    a.start <= b.start
  }

  lemma SortedStarts(gs: seq<Region>)
    requires SortedBy(StartLeq, gs)
    ensures StartsInOrder(gs)
  {
    forall i, j | 0 <= i < j < |gs|
      ensures gs[i].start <= gs[j].start
    {
      SortedPairs(StartLeq, gs, i, j);
    }
  }

  /** T8: sort all regions by start, in place, and check the gaps between them. */
  method PaddingZero(file: seq<byte>, footerOff: nat, gs: seq<Region>) returns (ok: bool)
    requires HEADER_LEN <= footerOff <= |file|
    requires forall g :: g in gs ==> g.start <= g.end <= footerOff
    ensures ok <==> GapsZero(file, gs, footerOff)
  {
    var all := new Region[|gs|](i requires 0 <= i < |gs| => gs[i]);
    assert all[..] == gs;
    InsertionSort(all, StartLeq, Apart);
    SortedStarts(all[..]);
    ghost var sorted := all[..];
    RearrangedMembers(Apart, gs, sorted);
    forall i | 0 <= i < |sorted|
      ensures sorted[i].start <= sorted[i].end <= footerOff
    {
      assert sorted[i] in sorted;
    }
    ok := CheckPadding(file, footerOff, all[..]);
  }

  // ----- validateTable -----

  /** T2, with the set of names seen so far. */
  method GoNamesUnique(records: seq<Record>) returns (ok: bool)
    ensures ok <==> DistinctNames(records)
  {
    var seen: set<u16> := {};
    for i := 0 to |records|
      invariant forall j, k :: 0 <= j < k < i ==> records[j].nameId != records[k].nameId
      invariant forall x :: x in seen <==> exists j :: 0 <= j < i && records[j].nameId == x
    {
      if records[i].nameId in seen {
        return false;
      }
      seen := seen + {records[i].nameId};
    }
    return true;
  }

  /** The loop that fills the two lists, refusing a region that ends past the footer. */
  method GoCollect(records: seq<Record>, footerOff: nat) returns (ok: bool, payloads: seq<Region>, indices: seq<Region>)
    requires forall x :: x in records ==> RecordRules(x)
    ensures ok <==> forall x :: x in records ==> EndsBy(x, footerOff)
    ensures ok ==> payloads == Payloads(records) && indices == Indices(records)
  {
    payloads, indices := [], [];
    for i := 0 to |records|
      invariant forall j :: 0 <= j < i ==> EndsBy(records[j], footerOff)
      invariant payloads == Payloads(records[..i]) && indices == Indices(records[..i])
    {
      var x := records[i];
      assert x in records;
      var bounded, payload, index := GoCollectRecord(x, footerOff);
      if !bounded {
        return false, [], [];
      }
      payloads, indices := payloads + payload, indices + index;
      assert records[..i + 1][..i] == records[..i];
    }
    assert records[..|records|] == records;
    return true, payloads, indices;
  }

  /** One turn of that loop. */
  method GoCollectRecord(x: Record, footerOff: nat) returns (ok: bool, payload: seq<Region>, index: seq<Region>)
    requires RecordRules(x)
    ensures ok <==> EndsBy(x, footerOff)
    ensures ok ==> payload == PayloadClaim(x) && index == IndexClaim(x)
  {
    payload, index := [], [];
    if !External(x.flags) {
      var Region(start, end) := StoredRange(x);
      if end > footerOff {
        return false, [], [];
      }
      if x.lenStored > 0 {
        payload := [Region(start, end)];
      }
    }
    if x.indexOff != 0 {
      var Region(start, end) := IndexRange(x);
      if end > footerOff {
        return false, [], [];
      }
      index := [Region(start, end)];
    }
    return true, payload, index;
  }

  lemma RegionsBounded(records: seq<Record>, h: Header)
    requires HeaderRules(h) && (forall r :: r in records ==> RecordRules(r) && EndsBy(r, h.footerOff))
    requires |records| == h.count && records != []
    ensures forall g :: g in Regions(records, h) ==> g.start <= g.end <= h.footerOff
  {
    RegionsNonEmpty(records, h);
    ClaimsEnd(records, h.footerOff);
  }

  /** `validateTable`, after the header has been checked against the file's length. */
  method GoValidateTable(records: seq<Record>, h: Header, file: seq<byte>) returns (ok: bool)
    requires HeaderRules(h) && CheckFileLen(h, |file|) && |records| == h.count
    requires forall r :: r in records ==> RecordRules(r)
    ensures ok <==> LayoutOk(records, h, file)
  {
    var manifests := CountManifests(records);
    CountsOneManifest(records);
    if manifests != 1 {
      return false;
    }
    var unique := GoNamesUnique(records);
    if !unique {
      return false;
    }
    var bounded, payloads, indices := GoCollect(records, h.footerOff);
    if !bounded {
      return false;
    }
    var all := payloads + indices + [Table(h)];
    SameRegions(records, h);
    RegionsBounded(records, h);
    RegionsNonEmpty(records, h);
    ApartIsOneOwner(Regions(records, h));
    SameGaps(file, Regions(records, h), all, h.footerOff);
    var apart := NoOverlap(payloads, indices, Table(h));
    if !apart {
      return false;
    }
    ok := PaddingZero(file, h.footerOff, all);
  }
}
