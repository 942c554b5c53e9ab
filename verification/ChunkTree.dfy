/**
 The tree over chunks: a plaintext cut into power-of-two chunks, one chaining value per
 chunk, merged back up to the BLAKE3 root. Everything here is about shapes; the readers
 and writers of an index are in ChunkIndex and GoChunkIndex.
 */
module ChunkTree {
  import opened Bytes
  import opened Blake3Tree

  // ----- cutting data into chunks of m leaves -----

  /** The bytes `[from, to)` of some data; the first leaf under them has this counter. */
  datatype Span = Span(from: nat, to: nat, counter: nat)

  /** The chunks of `[lo, hi)`: `m` leaves each, the last possibly short. */
  function Cuts(lo: nat, hi: nat, m: nat, counter: nat): (s: seq<Span>)
    requires m > 0 && lo <= hi
    ensures forall i :: 0 <= i < |s| ==> lo <= s[i].from <= s[i].to <= hi
    decreases hi - lo
  {
    if lo == hi then []
    else
      var next := Min(lo + m * 1024, hi);
      [Span(lo, next, counter)] + Cuts(next, hi, m, counter + m)
  }

  lemma Cons<T>(x: T, tail: seq<T>, p: nat)
    requires 0 < p <= |tail| + 1
    ensures ([x] + tail)[..p] == [x] + tail[..p - 1]
    ensures ([x] + tail)[p..] == tail[p - 1..]
  {
  }

  /** The leaves of `k` full chunks: `k * m`, by addition. */
  function Leaves(k: nat, m: nat): nat {
    if k == 0 then 0 else m + Leaves(k - 1, m)
  }

  lemma {:induction false} LeavesProduct(k: nat, m: nat)
    ensures Leaves(k, m) == k * m
  {
    if k > 0 {
      LeavesProduct(k - 1, m);
      assert k * m == (k - 1) * m + m;
    }
  }

  lemma {:induction false} LeavesMono(j: nat, k: nat, m: nat)
    requires j <= k
    ensures Leaves(j, m) <= Leaves(k, m)
  {
    if j < k {
      LeavesMono(j, k - 1, m);
    }
  }

  lemma {:induction false} LeavesTwice(k: nat, m: nat)
    ensures Leaves(2 * k, m) == 2 * Leaves(k, m)
  {
    if k > 0 {
      LeavesTwice(k - 1, m);
      assert Leaves(2 * k, m) == m + Leaves(2 * k - 1, m) == m + m + Leaves(2 * k - 2, m);
    }
  }

  lemma {:induction false} Pow2Leaves(p: nat, m: nat)
    requires IsPow2(p) && IsPow2(m)
    ensures IsPow2(Leaves(p, m))
  {
    if p == 1 {
      assert Leaves(1, m) == m + Leaves(0, m);
    } else {
      Pow2Leaves(p / 2, m);
      LeavesTwice(p / 2, m);
    }
  }

  lemma {:induction false} CutCountBounds(lo: nat, hi: nat, m: nat, counter: nat)
    requires m > 0 && lo < hi
    ensures var k := |Cuts(lo, hi, m, counter)|;
      k >= 1 && Leaves(k - 1, m) < LeafCount(hi - lo) <= Leaves(k, m)
    decreases hi - lo
  {
    if hi - lo > m * 1024 {
      CutCountBounds(lo + m * 1024, hi, m, counter + m);
    } else {
      assert Leaves(1, m) == m + Leaves(0, m);
    }
  }

  /** Dividing the cuts after `p` of them is dividing the range after their leaves. */
  lemma {:induction false} CutsSplit(lo: nat, mid: nat, hi: nat, m: nat, counter: nat, next: nat, p: nat)
    requires m > 0 && mid == lo + Leaves(p, m) * 1024 <= hi && next == counter + Leaves(p, m)
    ensures var all := Cuts(lo, hi, m, counter);
      && p <= |all|
      && all[..p] == Cuts(lo, mid, m, counter)
      && all[p..] == Cuts(mid, hi, m, next)
    decreases p
  {
    if p > 0 {
      var (lo', counter') := (lo + m * 1024, counter + m);
      CutsSplit(lo', mid, hi, m, counter', next, p - 1);
      Cons(Span(lo, lo', counter), Cuts(lo', hi, m, counter'), p);
    }
  }

  /** Cut `i` starts after the leaves of the `i` cuts before it. */
  lemma {:induction false} CutAt(lo: nat, hi: nat, m: nat, counter: nat, i: nat)
    requires m > 0 && lo <= hi && i < |Cuts(lo, hi, m, counter)|
    ensures var (q, all) := (Leaves(i, m), Cuts(lo, hi, m, counter));
      && lo + q * 1024 < hi
      && all[i] == Span(lo + q * 1024, Min(lo + q * 1024 + m * 1024, hi), counter + q)
    decreases i
  {
    if i > 0 {
      CutAt(Min(lo + m * 1024, hi), hi, m, counter + m, i - 1);
    }
  }

  /**
   The shape theorem: splitting at the largest power of two below the number of leaves
   is splitting at the largest power of two below the number of chunks.
   */
  lemma SplitAtChunk(n: nat, k: nat, m: nat)
    requires IsPow2(m) && n > m && k >= 1 && Leaves(k - 1, m) < n <= Leaves(k, m)
    ensures k >= 2 && SplitPoint(n) == Leaves(SplitPoint(k), m)
  {
    assert k >= 2 by { assert Leaves(1, m) == m + Leaves(0, m); }
    var p := SplitPoint(k);
    LeavesMono(p, k - 1, m);
    LeavesMono(k, 2 * p, m);
    LeavesTwice(p, m);
    SplitPointIsPow2(k);
    Pow2Leaves(p, m);
    SplitPointUnique(n, Leaves(p, m));
  }

  // ----- joining the pieces -----

  function Map<S, T>(f: S -> T, xs: seq<S>): (ys: seq<T>)
    ensures |ys| == |xs|
    ensures forall i :: 0 <= i < |xs| ==> ys[i] == f(xs[i])
  {
    seq(|xs|, i requires 0 <= i < |xs| => f(xs[i]))
  }

  lemma MapSplit<S, T>(f: S -> T, xs: seq<S>, p: nat)
    requires p <= |xs|
    ensures Map(f, xs)[..p] == Map(f, xs[..p]) && Map(f, xs)[p..] == Map(f, xs[p..])
  {
  }

  /** The tree over a list of subtrees: split at the largest power of two below the count. */
  function Join(ts: seq<Tree>): Tree
    requires ts != []
    decreases |ts|
  {
    if |ts| == 1 then ts[0]
    else NodeTree(Join(ts[..SplitPoint(|ts|)]), Join(ts[SplitPoint(|ts|)..]))
  }

  /** Where the tree over `[lo, hi)` splits: the middle offset and the counter there. */
  ghost predicate SplitsAt(lo: nat, mid: nat, hi: nat, counter: nat, next: nat) {
    && lo + 1024 < hi
    && mid == lo + SplitPoint(LeafCount(hi - lo)) * 1024
    && next == counter + SplitPoint(LeafCount(hi - lo))
  }

  /** The cuts of a range split exactly where the tree over it does. */
  lemma CutsHalve(lo: nat, hi: nat, m: nat, counter: nat) returns (mid: nat, next: nat)
    requires IsPow2(m) && lo + m * 1024 < hi
    ensures SplitsAt(lo, mid, hi, counter, next) && lo < mid < hi
    ensures var all := Cuts(lo, hi, m, counter);
      && |all| >= 2
      && all[..SplitPoint(|all|)] == Cuts(lo, mid, m, counter)
      && all[SplitPoint(|all|)..] == Cuts(mid, hi, m, next)
  {
    var k := |Cuts(lo, hi, m, counter)|;
    CutCountBounds(lo, hi, m, counter);
    SplitAtChunk(LeafCount(hi - lo), k, m);
    var q := Leaves(SplitPoint(k), m);
    mid, next := lo + q * 1024, counter + q;
    CutsSplit(lo, mid, hi, m, counter, next, SplitPoint(k));
  }

  lemma OneCut(lo: nat, hi: nat, m: nat, counter: nat)
    requires m > 0 && lo < hi <= lo + m * 1024
    ensures Cuts(lo, hi, m, counter) == [Span(lo, hi, counter)]
  {
  }

  /** The tree of a span of `data`. */
  function SpanTree(data: seq<byte>): Span -> Tree {
    (s: Span) => if s.from <= s.to <= |data| then TreeOf(data[s.from..s.to], s.counter) else LeafTree([], 0)
  }

  lemma JoinStep(f: Span -> Tree, spans: seq<Span>, l: seq<Span>, r: seq<Span>)
    requires |spans| >= 2 && l == spans[..SplitPoint(|spans|)] && r == spans[SplitPoint(|spans|)..]
    ensures Join(Map(f, spans)) == NodeTree(Join(Map(f, l)), Join(Map(f, r)))
  {
    MapSplit(f, spans, SplitPoint(|spans|));
  }

  lemma TreeOfRange(data: seq<byte>, lo: nat, mid: nat, hi: nat, counter: nat, next: nat)
    requires SplitsAt(lo, mid, hi, counter, next) && mid < hi <= |data|
    ensures TreeOf(data[lo..hi], counter) == NodeTree(TreeOf(data[lo..mid], counter), TreeOf(data[mid..hi], next))
  {
    assert data[lo..hi][..mid - lo] == data[lo..mid];
    assert data[lo..hi][mid - lo..] == data[mid..hi];
  }

  lemma JoinOne(f: Span -> Tree, s: Span)
    ensures Join(Map(f, [s])) == f(s)
  {
  }

  /** The chunks of any data, rejoined, are the tree of the data. */
  lemma {:induction false} JoinCuts(data: seq<byte>, lo: nat, hi: nat, m: nat, counter: nat)
    requires IsPow2(m) && lo < hi <= |data|
    ensures Cuts(lo, hi, m, counter) != []
    ensures Join(Map(SpanTree(data), Cuts(lo, hi, m, counter))) == TreeOf(data[lo..hi], counter)
    decreases hi - lo
  {
    var f := SpanTree(data);
    if hi - lo <= m * 1024 {
      OneCut(lo, hi, m, counter);
      JoinOne(f, Span(lo, hi, counter));
    } else {
      var mid, next := CutsHalve(lo, hi, m, counter);
      JoinCuts(data, lo, mid, m, counter);
      JoinCuts(data, mid, hi, m, next);
      TreeOfRange(data, lo, mid, hi, counter, next);
      JoinStep(f, Cuts(lo, hi, m, counter), Cuts(lo, mid, m, counter), Cuts(mid, hi, m, next));
    }
  }

  // ----- chaining values of the pieces, and their merge -----

  function Cvs(c: Compression, ts: seq<Tree>): (cvs: seq<Digest>)
    ensures |cvs| == |ts|
    ensures forall i :: 0 <= i < |ts| ==> cvs[i] == Cv(c, ts[i])
  {
    seq(|ts|, i requires 0 <= i < |ts| => Cv(c, ts[i]))
  }

  lemma CvsSplit(c: Compression, ts: seq<Tree>, p: nat)
    requires p <= |ts|
    ensures Cvs(c, ts)[..p] == Cvs(c, ts[..p]) && Cvs(c, ts)[p..] == Cvs(c, ts[p..])
  {
  }

  /** `merge_non_root`: the value of the tree over the entries, without finalization. */
  function Merge(c: Compression, cvs: seq<Digest>): Digest
    requires cvs != []
    decreases |cvs|
  {
    if |cvs| == 1 then cvs[0]
    else c(Parent(Merge(c, cvs[..SplitPoint(|cvs|)]), Merge(c, cvs[SplitPoint(|cvs|)..])))
  }

  /** `root_from_cvs`: no root for fewer than two entries. */
  function RootFromCvs(c: Compression, cvs: seq<Digest>): Option<Digest> {
    if |cvs| < 2 then None
    else Some(c(RootParent(Merge(c, cvs[..SplitPoint(|cvs|)]), Merge(c, cvs[SplitPoint(|cvs|)..]))))
  }

  ghost function MergeCalls(c: Compression, cvs: seq<Digest>): set<Node>
    requires cvs != []
    decreases |cvs|
  {
    if |cvs| == 1 then {}
    else
      var (l, r) := (cvs[..SplitPoint(|cvs|)], cvs[SplitPoint(|cvs|)..]);
      {Parent(Merge(c, l), Merge(c, r))} + MergeCalls(c, l) + MergeCalls(c, r)
  }

  /** The compression calls behind `RootFromCvs`. */
  ghost function IndexCalls(c: Compression, cvs: seq<Digest>): set<Node>
    requires |cvs| >= 2
  {
    var (l, r) := (cvs[..SplitPoint(|cvs|)], cvs[SplitPoint(|cvs|)..]);
    {RootParent(Merge(c, l), Merge(c, r))} + MergeCalls(c, l) + MergeCalls(c, r)
  }

  /** Merging values is the value of the joined tree, by some of the same compressions. */
  lemma {:induction false} MergeOfJoin(c: Compression, ts: seq<Tree>)
    requires ts != []
    ensures Merge(c, Cvs(c, ts)) == Cv(c, Join(ts))
    ensures MergeCalls(c, Cvs(c, ts)) <= Calls(c, Join(ts))
    decreases |ts|
  {
    if |ts| > 1 {
      var (l, r) := (ts[..SplitPoint(|ts|)], ts[SplitPoint(|ts|)..]);
      MergeOfJoin(c, l);
      MergeOfJoin(c, r);
      CvsSplit(c, ts, SplitPoint(|ts|));
    }
  }

  lemma RootOfJoin(c: Compression, ts: seq<Tree>)
    requires |ts| >= 2
    ensures RootFromCvs(c, Cvs(c, ts)) == Some(Root(c, Join(ts)))
    ensures IndexCalls(c, Cvs(c, ts)) <= RootCalls(c, Join(ts))
  {
    var (l, r) := (ts[..SplitPoint(|ts|)], ts[SplitPoint(|ts|)..]);
    MergeOfJoin(c, l);
    MergeOfJoin(c, r);
    CvsSplit(c, ts, SplitPoint(|ts|));
  }

  /** Hashing a joined tree includes hashing each of its parts. */
  lemma {:induction false} PartCalls(c: Compression, ts: seq<Tree>, i: nat)
    requires i < |ts|
    ensures Calls(c, ts[i]) <= Calls(c, Join(ts))
    decreases |ts|
  {
    if |ts| > 1 {
      var p := SplitPoint(|ts|);
      if i < p {
        PartCalls(c, ts[..p], i);
      } else {
        PartCalls(c, ts[p..], i - p);
      }
    }
  }

  lemma PartRootCalls(c: Compression, ts: seq<Tree>, i: nat)
    requires i < |ts| && |ts| >= 2
    ensures Calls(c, ts[i]) <= RootCalls(c, Join(ts))
  {
    var p := SplitPoint(|ts|);
    if i < p {
      PartCalls(c, ts[..p], i);
    } else {
      PartCalls(c, ts[p..], i - p);
    }
  }
}
