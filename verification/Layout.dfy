/**
 Whole-table layout (`validate_layout`): every offset before the footer belongs to at most
 one region, and is zero if it belongs to none. The reader sorts regions, compares
 neighbours and sweeps a cursor over the gaps.
 */
module Layout {
  import opened Bytes
  import opened ChunkIndex
  import opened Container
  import opened Sorting

  /** The bytes `[start, end)` of a file. */
  datatype Region = Region(start: nat, end: nat)

  predicate Within(o: int, g: Region) {
    g.start <= o < g.end
  }

  // ----- what a table claims -----

  function StoredRange(r: Record): Region {
    Region(r.offset, r.offset + r.lenStored)
  }

  /** The length of an index is derived from the record, never read. */
  function IndexLen(r: Record): nat
    requires r.chunkSize != 0
  {
    ChunkCount(r.lenPlain, r.chunkSize) * 32
  }

  function IndexRange(r: Record): Region
    requires r.chunkSize != 0
  {
    Region(r.indexOff, r.indexOff + IndexLen(r))
  }

  predicate HasIndex(r: Record) {
    r.indexOff != 0 && r.chunkSize != 0
  }

  /** The non-empty regions of one record, wherever its payload lives. */
  function PayloadClaim(r: Record): seq<Region> {
    if !External(r.flags) && r.lenStored > 0 then [StoredRange(r)] else []
  }

  function IndexClaim(r: Record): seq<Region> {
    if HasIndex(r) then [IndexRange(r)] else []
  }

  function Claims(records: seq<Record>): seq<Region> {
    if records == [] then []
    else
      var (front, r) := (records[..|records| - 1], records[|records| - 1]);
      Claims(front) + (PayloadClaim(r) + IndexClaim(r))
  }

  function Table(h: Header): Region {
    Region(h.tableOff, TableEnd(h))
  }

  /** Everything that owns bytes before the footer, except the header. */
  function Regions(records: seq<Record>, h: Header): seq<Region> {
    Claims(records) + [Table(h)]
  }

  // ----- the rules, point by point -----

  ghost predicate OneManifest(records: seq<Record>) {
    exists i :: 0 <= i < |records| && records[i].kind == MANIFEST
      && forall j :: 0 <= j < |records| && records[j].kind == MANIFEST ==> j == i
  }

  predicate DistinctNames(records: seq<Record>) {
    forall i, j :: 0 <= i < j < |records| ==> records[i].nameId != records[j].nameId
  }

  /** Everything a record places ends by the footer, an empty payload included. */
  predicate EndsBy(r: Record, footerOff: nat) {
    && (!External(r.flags) ==> StoredRange(r).end <= footerOff)
    && (HasIndex(r) ==> IndexRange(r).end <= footerOff)
  }

  /** No offset lies in two regions. */
  ghost predicate OneOwner(gs: seq<Region>) {
    forall i, j, o :: 0 <= i < j < |gs| && Within(o, gs[i]) ==> !Within(o, gs[j])
  }

  ghost predicate Unclaimed(gs: seq<Region>, o: int) {
    forall g :: g in gs ==> !Within(o, g)
  }

  /** The offsets in `[64, upto)` that no region claims are zero. */
  ghost predicate GapsZero(file: seq<byte>, gs: seq<Region>, upto: nat)
    requires upto <= |file|
  {
    forall o :: HEADER_LEN <= o < upto && Unclaimed(gs, o) ==> file[o] == 0
  }

  ghost predicate LayoutOk(records: seq<Record>, h: Header, file: seq<byte>) {
    && CheckFileLen(h, |file|)
    && OneManifest(records)
    && DistinctNames(records)
    && (forall r :: r in records ==> EndsBy(r, h.footerOff))
    && OneOwner(Regions(records, h))
    && GapsZero(file, Regions(records, h), h.footerOff)
  }

  // ----- regions apart -----

  predicate Apart(a: Region, b: Region) {
    a.end <= b.start || b.end <= a.start
  }

  predicate NonEmpty(gs: seq<Region>) {
    forall i :: 0 <= i < |gs| ==> gs[i].start < gs[i].end
  }

  /** For non-empty regions, sharing no offset is lying apart. */
  lemma ApartIsOneOwner(gs: seq<Region>)
    requires NonEmpty(gs)
    ensures AllPairs(Apart, gs) <==> OneOwner(gs)
  {
    if OneOwner(gs) {
      forall i, j | 0 <= i < j < |gs|
        ensures Apart(gs[i], gs[j])
      {
        assert Within(gs[i].start, gs[i]) && Within(gs[j].start, gs[j]);
        assert !Within(gs[i].start, gs[j]) && !Within(gs[j].start, gs[i]);
      }
    }
    if AllPairs(Apart, gs) {
      forall i, j, o | 0 <= i < j < |gs| && Within(o, gs[i])
        ensures !Within(o, gs[j])
      {
        assert Apart(gs[i], gs[j]);
      }
    }
  }

  lemma IndexNonEmpty(r: Record)
    requires RecordRules(r) && HasIndex(r)
    ensures IndexRange(r).start < IndexRange(r).end
  {
  }

  lemma {:induction false} ClaimsNonEmpty(records: seq<Record>)
    requires forall r :: r in records ==> RecordRules(r)
    ensures NonEmpty(Claims(records))
  {
    if records != [] {
      var (front, r) := (records[..|records| - 1], records[|records| - 1]);
      assert r in records;
      ClaimsNonEmpty(front);
      if HasIndex(r) {
        IndexNonEmpty(r);
      }
    }
  }

  lemma RegionsNonEmpty(records: seq<Record>, h: Header)
    requires (forall r :: r in records ==> RecordRules(r)) && |records| == h.count && records != []
    ensures NonEmpty(Regions(records, h))
  {
    ClaimsNonEmpty(records);
  }

  // ----- counting and naming -----

  function ManifestCount(records: seq<Record>): nat {
    if records == [] then 0
    else
      var k := |records| - 1;
      ManifestCount(records[..k]) + if records[k].kind == MANIFEST then 1 else 0
  }

  lemma {:induction false} NoManifest(records: seq<Record>)
    ensures ManifestCount(records) == 0 <==> forall i :: 0 <= i < |records| ==> records[i].kind != MANIFEST
  {
    if records != [] {
      var k := |records| - 1;
      NoManifest(records[..k]);
      assert forall i :: 0 <= i < k ==> records[..k][i] == records[i];
    }
  }

  lemma {:induction false} CountsOneManifest(records: seq<Record>)
    ensures ManifestCount(records) == 1 <==> OneManifest(records)
  {
    if records != [] {
      var k := |records| - 1;
      var front := records[..k];
      assert forall i :: 0 <= i < k ==> front[i] == records[i];
      NoManifest(front);
      CountsOneManifest(front);
      if records[k].kind != MANIFEST && OneManifest(records) {
        var i :| 0 <= i < |records| && records[i].kind == MANIFEST;
        assert front[i].kind == MANIFEST;
      }
    }
  }

  predicate NumLeq(a: nat, b: nat) { a <= b }
  predicate NumDiffer(a: nat, b: nat) { a != b }

  function Names(records: seq<Record>): (names: seq<nat>)
    ensures |names| == |records| && forall i :: 0 <= i < |records| ==> names[i] == records[i].nameId
  {
    seq(|records|, i requires 0 <= i < |records| => records[i].nameId)
  }

  lemma NamesDistinct(records: seq<Record>)
    ensures AllPairs(NumDiffer, Names(records)) <==> DistinctNames(records)
  {
    if AllPairs(NumDiffer, Names(records)) {
      forall i, j | 0 <= i < j < |records|
        ensures records[i].nameId != records[j].nameId
      {
        assert NumDiffer(Names(records)[i], Names(records)[j]);
      }
    }
  }

  // ----- sorted regions -----

  predicate RegionLeq(a: Region, b: Region) {
    a.start < b.start || (a.start == b.start && a.end <= b.end)
  }

  /** Comparing neighbours of a sorted list finds every overlap. */
  lemma {:induction false} NeighboursApart(gs: seq<Region>)
    requires SortedBy(RegionLeq, gs) && NonEmpty(gs)
    ensures (forall i :: 0 < i < |gs| ==> gs[i - 1].end <= gs[i].start) <==> AllPairs(Apart, gs)
  {
    if forall i :: 0 < i < |gs| ==> gs[i - 1].end <= gs[i].start {
      forall i, j | 0 <= i < j < |gs|
        ensures Apart(gs[i], gs[j])
      {
        EndsInOrder(gs, i, j);
      }
    }
    if AllPairs(Apart, gs) {
      forall i | 0 < i < |gs|
        ensures gs[i - 1].end <= gs[i].start
      {
        assert RegionLeq(gs[i - 1], gs[i]) && Apart(gs[i - 1], gs[i]);
      }
    }
  }

  lemma {:induction false} EndsInOrder(gs: seq<Region>, i: nat, j: nat)
    requires NonEmpty(gs) && i < j < |gs|
    requires forall k :: 0 < k < |gs| ==> gs[k - 1].end <= gs[k].start
    ensures gs[i].end <= gs[j].start
    decreases j
  {
    if i < j - 1 {
      EndsInOrder(gs, i, j - 1);
    }
  }

  // ----- the sweep -----

  /** Sorted by start, ends in any order. */
  predicate StartsInOrder(gs: seq<Region>) {
    forall i, j :: 0 <= i < j < |gs| ==> gs[i].start <= gs[j].start
  }

  /** Between the last end seen and the next start, nothing is claimed. */
  lemma GapUnclaimed(gs: seq<Region>, k: nat, cursor: nat, o: nat)
    requires StartsInOrder(gs) && k <= |gs|
    requires forall i :: 0 <= i < k ==> gs[i].end <= cursor
    requires cursor <= o && (k < |gs| ==> o < gs[k].start)
    ensures Unclaimed(gs, o)
  {
    forall g | g in gs
      ensures !Within(o, g)
    {
      var i :| 0 <= i < |gs| && gs[i] == g;
    }
  }

  /** `check_zero`. */
  method CheckZero(file: seq<byte>, start: nat, end: nat) returns (ok: bool)
    requires start <= end <= |file|
    ensures ok <==> forall o :: start <= o < end ==> file[o] == 0
  {
    for i := start to end
      invariant forall o :: start <= o < i ==> file[o] == 0
    {
      if file[i] != 0 {
        return false;
      }
    }
    return true;
  }

  /** `check_padding`: moves a cursor over sorted regions and checks what lies between. */
  method CheckPadding(file: seq<byte>, footerOff: nat, gs: seq<Region>) returns (ok: bool)
    requires HEADER_LEN <= footerOff <= |file| && StartsInOrder(gs)
    requires forall i :: 0 <= i < |gs| ==> gs[i].start <= gs[i].end <= footerOff
    ensures ok <==> GapsZero(file, gs, footerOff)
  {
    var cursor := HEADER_LEN;
    for k := 0 to |gs|
      invariant HEADER_LEN <= cursor <= footerOff
      invariant forall i :: 0 <= i < k ==> gs[i].end <= cursor
      invariant GapsZero(file, gs, cursor)
    {
      var Region(start, end) := gs[k];
      if start > cursor {
        var zero := CheckZero(file, cursor, start);
        forall o | cursor <= o < start
          ensures Unclaimed(gs, o)
        {
          GapUnclaimed(gs, k, cursor, o);
        }
        if !zero {
          return false;
        }
      }
      Advance(file, gs, k, cursor);
      cursor := if end > cursor then end else cursor;
    }
    if footerOff > cursor {
      ok := CheckZero(file, cursor, footerOff);
      forall o | cursor <= o < footerOff
        ensures Unclaimed(gs, o)
      {
        GapUnclaimed(gs, |gs|, cursor, o);
      }
      return;
    }
    return true;
  }

  /** Past a region, everything up to its end is accounted for. */
  lemma Advance(file: seq<byte>, gs: seq<Region>, k: nat, cursor: nat)
    requires k < |gs| && cursor <= |file| && gs[k].end <= |file| && GapsZero(file, gs, cursor)
    requires forall o :: cursor <= o < gs[k].start && o < |file| ==> file[o] == 0
    ensures gs[k].end > cursor ==> GapsZero(file, gs, gs[k].end)
  {
    forall o | HEADER_LEN <= o < gs[k].end && Unclaimed(gs, o)
      ensures file[o] == 0
    {
      assert gs[k] in gs && !Within(o, gs[k]);
    }
  }

  // ----- the Rust reader -----

  method CountManifests(records: seq<Record>) returns (n: nat)
    ensures n == ManifestCount(records)
  {
    n := 0;
    for i := 0 to |records|
      invariant n == ManifestCount(records[..i])
    {
      assert records[..i + 1][..i] == records[..i];
      if records[i].kind == MANIFEST {
        n := n + 1;
      }
    }
    assert records[..|records|] == records;
  }

  /** The names, sorted, with no two neighbours equal. */
  method NamesUnique(records: seq<Record>) returns (ok: bool)
    ensures ok <==> DistinctNames(records)
  {
    var names := SortBy(NumLeq, Names(records));
    NeighboursDistinct(NumLeq, NumDiffer, Names(records), names);
    NamesDistinct(records);
    ok := !exists i :: 0 < i < |names| && names[i - 1] == names[i];
  }

  /** The loop that collects the regions, refusing one that ends past the footer. */
  method CollectRegions(records: seq<Record>, footerOff: nat) returns (r: Result<seq<Region>>)
    requires forall x :: x in records ==> RecordRules(x)
    ensures r.Ok? <==> forall x :: x in records ==> EndsBy(x, footerOff)
    ensures r.Ok? ==> r.value == Claims(records)
  {
    var ranges: seq<Region> := [];
    for i := 0 to |records|
      invariant forall j :: 0 <= j < i ==> EndsBy(records[j], footerOff)
      invariant ranges == Claims(records[..i])
    {
      var x := records[i];
      assert x in records;
      var claims := CollectRecord(x, footerOff);
      if claims.Err? {
        return Err;
      }
      ranges := ranges + claims.value;
      assert records[..i + 1][..i] == records[..i];
    }
    assert records[..|records|] == records;
    return Ok(ranges);
  }

  /** One turn of that loop. */
  method CollectRecord(x: Record, footerOff: nat) returns (r: Result<seq<Region>>)
    requires RecordRules(x)
    ensures r.Ok? <==> EndsBy(x, footerOff)
    ensures r.Ok? ==> r.value == PayloadClaim(x) + IndexClaim(x)
  {
    var ranges: seq<Region> := [];
    if !External(x.flags) {
      var Region(start, end) := StoredRange(x);
      if end > footerOff {
        return Err;
      }
      if end > start {
        ranges := ranges + [Region(start, end)];
      }
    }
    if x.indexOff != 0 {
      var Region(start, end) := IndexRange(x);
      if end > footerOff {
        return Err;
      }
      ranges := ranges + [Region(start, end)];
    }
    return Ok(ranges);
  }

  lemma {:induction false} ClaimsEnd(records: seq<Record>, footerOff: nat)
    requires forall r :: r in records ==> EndsBy(r, footerOff)
    ensures forall g :: g in Claims(records) ==> g.end <= footerOff
  {
    if records != [] {
      var (front, r) := (records[..|records| - 1], records[|records| - 1]);
      assert r in records;
      ClaimsEnd(front, footerOff);
    }
  }

  /** Sorting the regions keeps which offsets they claim. */
  lemma SortedRegions(gs: seq<Region>, sorted: seq<Region>, footerOff: nat)
    requires sorted == SortBy(RegionLeq, gs) && NonEmpty(gs) && forall g :: g in gs ==> g.end <= footerOff
    ensures SortedBy(RegionLeq, sorted) && NonEmpty(sorted) && StartsInOrder(sorted)
    ensures AllPairs(Apart, sorted) <==> AllPairs(Apart, gs)
    ensures forall o :: Unclaimed(sorted, o) <==> Unclaimed(gs, o)
    ensures forall i :: 0 <= i < |sorted| ==> sorted[i].end <= footerOff
  {
    SortSorts(RegionLeq, gs);
    SortMembers(RegionLeq, gs);
    SortPairs(RegionLeq, Apart, gs);
    forall i | 0 <= i < |sorted|
      ensures sorted[i].start < sorted[i].end <= footerOff
    {
      assert sorted[i] in sorted;
      var j :| 0 <= j < |gs| && gs[j] == sorted[i];
    }
    forall i, j | 0 <= i < j < |sorted|
      ensures sorted[i].start <= sorted[j].start
    {
      SortedPairs(RegionLeq, sorted, i, j);
    }
  }

  /** The last part of `validate_layout`: sort, compare neighbours, sweep the gaps. */
  method SortAndSweep(file: seq<byte>, footerOff: nat, gs: seq<Region>) returns (ok: bool)
    requires HEADER_LEN <= footerOff <= |file| && NonEmpty(gs)
    requires forall g :: g in gs ==> g.end <= footerOff
    ensures ok <==> OneOwner(gs) && GapsZero(file, gs, footerOff)
  {
    var ranges := SortBy(RegionLeq, gs);
    SortedRegions(gs, ranges, footerOff);
    NeighboursApart(ranges);
    ApartIsOneOwner(gs);
    if exists i :: 0 < i < |ranges| && ranges[i].start < ranges[i - 1].end {
      return false;
    }
    ok := CheckPadding(file, footerOff, ranges);
  }

  /** `validate_layout`. */
  method ValidateLayout(records: seq<Record>, h: Header, file: seq<byte>) returns (ok: bool)
    requires HeaderRules(h) && |records| == h.count
    requires forall r :: r in records ==> RecordRules(r)
    ensures ok <==> LayoutOk(records, h, file)
  {
    if !CheckFileLen(h, |file|) {
      return false;
    }
    var manifests := CountManifests(records);
    CountsOneManifest(records);
    if manifests != 1 {
      return false;
    }
    var unique := NamesUnique(records);
    if !unique {
      return false;
    }
    var claims := CollectRegions(records, h.footerOff);
    if claims.Err? {
      return false;
    }
    var ranges := claims.value + [Table(h)];
    RegionsNonEmpty(records, h);
    ClaimsEnd(records, h.footerOff);
    ok := SortAndSweep(file, h.footerOff, ranges);
  }
}
