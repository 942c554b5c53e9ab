/**
 The regions of a table listed by class, payloads before indices, instead of record by
 record: what lies apart, and what is claimed, does not depend on the order of the list.
 */
module RegionClasses {
  import opened Bytes
  import opened Container
  import opened Layout
  import opened Sorting

  function Payloads(records: seq<Record>): seq<Region> {
    if records == [] then []
    else Payloads(records[..|records| - 1]) + PayloadClaim(records[|records| - 1])
  }

  function Indices(records: seq<Record>): seq<Region> {
    if records == [] then []
    else Indices(records[..|records| - 1]) + IndexClaim(records[|records| - 1])
  }

  /** Every region of one list lies apart from every region of another. */
  predicate Across(a: seq<Region>, b: seq<Region>) {
    forall i, j :: 0 <= i < |a| && 0 <= j < |b| ==> Apart(a[i], b[j])
  }

  lemma PairsOfBoth(a: seq<Region>, b: seq<Region>)
    ensures AllPairs(Apart, a + b) <==> AllPairs(Apart, a) && AllPairs(Apart, b) && Across(a, b)
  {
    var s := a + b;
    if AllPairs(Apart, s) {
      forall i, j | 0 <= i < j < |a|
        ensures Apart(a[i], a[j])
      {
        assert Apart(s[i], s[j]);
      }
      forall i, j | 0 <= i < j < |b|
        ensures Apart(b[i], b[j])
      {
        assert Apart(s[|a| + i], s[|a| + j]);
      }
      forall i, j | 0 <= i < |a| && 0 <= j < |b|
        ensures Apart(a[i], b[j])
      {
        assert Apart(s[i], s[|a| + j]);
      }
    }
    if AllPairs(Apart, a) && AllPairs(Apart, b) && Across(a, b) {
      forall i, j | 0 <= i < j < |s|
        ensures Apart(s[i], s[j])
      {
        if i < |a| <= j {
          assert Apart(a[i], b[j - |a|]);
        }
      }
    }
  }

  lemma AcrossBoth(a: seq<Region>, b: seq<Region>, c: seq<Region>)
    ensures Across(a + b, c) <==> Across(a, c) && Across(b, c)
    ensures Across(c, a + b) <==> Across(c, a) && Across(c, b)
    ensures Across(a, c) <==> Across(c, a)
  {
    var s := a + b;
    if Across(s, c) || Across(c, s) {
      forall i, j | 0 <= i < |c| && 0 <= j < |b|
        ensures (Across(s, c) ==> Apart(b[j], c[i])) && (Across(c, s) ==> Apart(c[i], b[j]))
      {
        assert s[|a| + j] == b[j];
      }
      forall i, j | 0 <= i < |c| && 0 <= j < |a|
        ensures (Across(s, c) ==> Apart(a[j], c[i])) && (Across(c, s) ==> Apart(c[i], a[j]))
      {
        assert s[j] == a[j];
      }
    }
  }

  lemma AcrossMembers(a: seq<Region>, b: seq<Region>, c: seq<Region>)
    requires forall g :: g in a <==> g in b
    ensures Across(a, c) <==> Across(b, c)
  {
    AcrossSome(a, b, c);
    AcrossSome(b, a, c);
  }

  lemma AcrossSome(a: seq<Region>, b: seq<Region>, c: seq<Region>)
    requires forall g :: g in b ==> g in a
    ensures Across(a, c) ==> Across(b, c)
  {
    if Across(a, c) {
      forall i, j | 0 <= i < |b| && 0 <= j < |c|
        ensures Apart(b[i], c[j])
      {
        assert b[i] in b;
        var k :| 0 <= k < |a| && a[k] == b[i];
      }
    }
  }

  /** Listing by class instead of by record is only another order. */
  lemma {:induction false} ByClass(records: seq<Record>)
    ensures AllPairs(Apart, Claims(records)) <==> AllPairs(Apart, Payloads(records) + Indices(records))
    ensures forall g :: g in Claims(records) <==> g in Payloads(records) + Indices(records)
  {
    if records != [] {
      var (front, r) := (records[..|records| - 1], records[|records| - 1]);
      ByClass(front);
      Regroup(Claims(front), Payloads(front), Indices(front), PayloadClaim(r), IndexClaim(r));
    }
  }

  lemma Regroup(c: seq<Region>, ps: seq<Region>, xs: seq<Region>, p: seq<Region>, i: seq<Region>)
    requires AllPairs(Apart, c) <==> AllPairs(Apart, ps + xs)
    requires forall g :: g in c <==> g in ps + xs
    ensures AllPairs(Apart, c + (p + i)) <==> AllPairs(Apart, (ps + p) + (xs + i))
    ensures forall g :: g in c + (p + i) <==> g in (ps + p) + (xs + i)
  {
    PairsOfBoth(ps, xs);
    PairsOfBoth(c, p + i);
    PairsOfBoth(p, i);
    PairsOfBoth(ps + p, xs + i);
    PairsOfBoth(ps, p);
    PairsOfBoth(xs, i);
    AcrossMembers(c, ps + xs, p + i);
    AcrossBoth(ps, xs, p + i);
    AcrossBoth(p, i, ps);
    AcrossBoth(p, i, xs);
    AcrossBoth(ps, p, xs + i);
    AcrossBoth(xs, i, ps);
    AcrossBoth(xs, i, p);
  }

  lemma AcrossOne(a: seq<Region>, g: Region)
    ensures Across(a, [g]) <==> forall i :: 0 <= i < |a| ==> Apart(a[i], g)
  {
    if Across(a, [g]) {
      forall i | 0 <= i < |a|
        ensures Apart(a[i], g)
      {
        assert Apart(a[i], [g][0]);
      }
    }
  }

  lemma SameRegions(records: seq<Record>, h: Header)
    ensures AllPairs(Apart, Regions(records, h)) <==> AllPairs(Apart, Payloads(records) + Indices(records) + [Table(h)])
    ensures forall g :: g in Regions(records, h) <==> g in Payloads(records) + Indices(records) + [Table(h)]
  {
    var listed := Payloads(records) + Indices(records);
    ByClass(records);
    PairsOfBoth(Claims(records), [Table(h)]);
    PairsOfBoth(listed, [Table(h)]);
    AcrossMembers(Claims(records), listed, [Table(h)]);
  }

  lemma SameGaps(file: seq<byte>, a: seq<Region>, b: seq<Region>, upto: nat)
    requires upto <= |file| && forall g :: g in a <==> g in b
    ensures GapsZero(file, a, upto) <==> GapsZero(file, b, upto)
  {
    forall o | HEADER_LEN <= o < upto
      ensures Unclaimed(a, o) <==> Unclaimed(b, o)
    {
    }
  }
}
