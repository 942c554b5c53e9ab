/**
 The independent Go chunk index (`chunkindex.go`): merges over index ranges, and a subtree
 value computed partly by recursion and partly level by level. All of it agrees with the
 tree of Blake3Tree, so both implementations build the same index and the same root.
 */
module GoChunkIndex {
  import opened Arithmetic
  import opened Bytes
  import opened Blake3Tree
  import opened ChunkTree
  import opened ChunkIndex

  /** The split point, as a shift by a bit length. */
  function SplitByShift(n: nat): (k: nat)
    requires n >= 2
    ensures k == SplitPoint(n)
  {
    SplitByBitLength(n);
    Pow2(BitLen(n - 1) - 1)
  }

  /** `mergeCV` over `entries[a..b]`. */
  function MergeCv(c: Compression, entries: seq<Digest>, a: nat, b: nat): Digest
    requires a < b <= |entries|
    decreases b - a
  {
    if b - a == 1 then entries[a]
    else
      var mid := a + SplitByShift(b - a);
      c(Parent(MergeCv(c, entries, a, mid), MergeCv(c, entries, mid, b)))
  }

  lemma Sides(entries: seq<Digest>, a: nat, mid: nat, b: nat, l: seq<Digest>, r: seq<Digest>)
    requires a <= mid <= b <= |entries| && |l| == mid - a && entries[a..b] == l + r
    ensures l == entries[a..mid] && r == entries[mid..b]
  {
    assert l == (l + r)[..mid - a] && r == (l + r)[mid - a..];
    assert entries[a..b][..mid - a] == entries[a..mid] && entries[a..b][mid - a..] == entries[mid..b];
  }

  lemma MergeAt(c: Compression, entries: seq<Digest>, a: nat, mid: nat, b: nat, n: nat)
    requires a < mid < b <= |entries| && n == b - a && mid == a + SplitByShift(n)
    ensures Merge(c, entries[a..b]) == c(Parent(Merge(c, entries[a..mid]), Merge(c, entries[mid..b])))
  {
    var k := mid - a;
    var l, r := MergeHalves(c, entries[a..b], k);
    Sides(entries, a, mid, b, l, r);
  }

  lemma {:induction false} MergeCvIsMerge(c: Compression, entries: seq<Digest>, a: nat, b: nat)
    requires a < b <= |entries|
    ensures MergeCv(c, entries, a, b) == Merge(c, entries[a..b])
    decreases b - a
  {
    var n := b - a;
    if n > 1 {
      var mid := a + SplitByShift(n);
      MergeCvIsMerge(c, entries, a, mid);
      MergeCvIsMerge(c, entries, mid, b);
      MergeAt(c, entries, a, mid, b, n);
    }
  }

  /** `mergeRoot`. */
  function MergeRoot(c: Compression, entries: seq<Digest>): Digest
    requires |entries| >= 2
  {
    var k := SplitByShift(|entries|);
    c(RootParent(MergeCv(c, entries, 0, k), MergeCv(c, entries, k, |entries|)))
  }

  /** Go's root of an index is Rust's. */
  lemma MergeRootIsRoot(c: Compression, entries: seq<Digest>)
    requires |entries| >= 2
    ensures RootFromCvs(c, entries) == Some(MergeRoot(c, entries))
  {
    var (k, n) := (SplitByShift(|entries|), |entries|);
    var l, r := MergeHalves(c, entries, k);
    MergeCvIsMerge(c, entries, 0, k);
    MergeCvIsMerge(c, entries, k, n);
    assert entries[0..n] == entries;
    Sides(entries, 0, k, n, l, r);
  }

  // ----- the level-by-level merge -----

  /** One level of the balanced merge. */
  function Paired(c: Compression, cvs: seq<Digest>): (next: seq<Digest>)
    requires |cvs| % 2 == 0
    ensures |next| == |cvs| / 2
    ensures forall i :: 0 <= i < |next| ==> next[i] == c(Parent(cvs[2 * i], cvs[2 * i + 1]))
  {
    seq(|cvs| / 2, i requires 0 <= i < |cvs| / 2 => c(Parent(cvs[2 * i], cvs[2 * i + 1])))
  }

  lemma PairedHalves(c: Compression, l: seq<Digest>, r: seq<Digest>)
    requires |l| % 2 == 0 && |r| % 2 == 0
    ensures Paired(c, l + r) == Paired(c, l) + Paired(c, r)
  {
  }

  lemma MergeOfHalves(c: Compression, l: seq<Digest>, r: seq<Digest>)
    requires |l| == |r| >= 1 && IsPow2(|l|)
    ensures Merge(c, l + r) == c(Parent(Merge(c, l), Merge(c, r)))
  {
    var (n, both) := (|l|, l + r);
    var m := |both|;
    SplitPointUnique(m, n);
    assert both[..n] == l && both[n..] == r;
  }

  /** A level of pairing leaves the merged value alone when the count is a power of two. */
  lemma {:induction false} PairedMerge(c: Compression, cvs: seq<Digest>)
    requires IsPow2(|cvs|) && |cvs| >= 2
    ensures Merge(c, Paired(c, cvs)) == Merge(c, cvs)
    decreases |cvs|
  {
    var n := |cvs| / 2;
    var (l, r) := (cvs[..n], cvs[n..]);
    assert cvs == l + r;
    MergeOfHalves(c, l, r);
    if n > 1 {
      PairedMerge(c, l);
      PairedMerge(c, r);
      PairedHalves(c, l, r);
      MergeOfHalves(c, Paired(c, l), Paired(c, r));
    }
  }

  /** The leaves of `data`, as one-leaf chunks, merge to its subtree value. */
  lemma MergeOfLeaves(c: Compression, data: seq<byte>, counter: nat)
    requires data != []
    ensures LeafValues(c, data, counter) != []
    ensures Merge(c, LeafValues(c, data, counter)) == SubtreeCv(c, data, counter)
  {
    JoinCuts(data, 0, |data|, 1, counter);
    assert data[0..|data|] == data;
    MergeOfJoin(c, Map(SpanTree(data), Cuts(0, |data|, 1, counter)));
  }

  lemma {:induction false} LeafCut(lo: nat, hi: nat, counter: nat, i: nat)
    requires lo <= hi && i < LeafCount(hi - lo)
    ensures |Cuts(lo, hi, 1, counter)| == LeafCount(hi - lo)
    ensures lo + i * 1024 < hi
    ensures Cuts(lo, hi, 1, counter)[i] == Span(lo + i * 1024, Min(lo + i * 1024 + 1024, hi), counter + i)
    decreases hi - lo
  {
    var (lo', counter') := (Min(lo + 1024, hi), counter + 1);
    if i > 0 {
      LeafCut(lo', hi, counter', i - 1);
    } else if lo' < hi {
      LeafCut(lo', hi, counter', 0);
    }
  }

  function LeafValues(c: Compression, data: seq<byte>, counter: nat): seq<Digest> {
    Cvs(c, Map(SpanTree(data), Cuts(0, |data|, 1, counter)))
  }

  lemma LeafValue(c: Compression, data: seq<byte>, counter: nat, i: nat, start: nat, end: nat, at: nat)
    requires i < LeafCount(|data|)
    requires start == i * 1024 && end == Min(start + 1024, |data|) && at == counter + i
    ensures start < end && |LeafValues(c, data, counter)| == LeafCount(|data|)
    ensures LeafValues(c, data, counter)[i] == c(Leaf(data[start..end], at))
  {
    LeafCut(0, |data|, counter, i);
  }

  /** `subtreeCV`. */
  method GoSubtreeCv(c: Compression, data: seq<byte>, counter: nat) returns (cv: Digest)
    ensures cv == SubtreeCv(c, data, counter)
    decreases |data|
  {
    if |data| <= 1024 {
      return c(Leaf(data, counter));
    }
    var n := (|data| + 1023) / 1024;
    if !IsPow2(n) {
      var k := SplitByShift(n);
      var left := GoSubtreeCv(c, data[..k * 1024], counter);
      var right := GoSubtreeCv(c, data[k * 1024..], counter + k);
      return c(Parent(left, right));
    }
    var cvs := LeafCvs(c, data, counter);
    MergeOfLeaves(c, data, counter);
    while |cvs| > 1
      invariant IsPow2(|cvs|)
      invariant Merge(c, cvs) == SubtreeCv(c, data, counter)
      decreases |cvs|
    {
      var next := MergeLevel(c, cvs);
      PairedMerge(c, cvs);
      cvs := next;
    }
    return cvs[0];
  }

  /** The leaf loop of `subtreeCV`. */
  method LeafCvs(c: Compression, data: seq<byte>, counter: nat) returns (cvs: seq<Digest>)
    requires data != []
    ensures cvs == LeafValues(c, data, counter)
    ensures |cvs| == LeafCount(|data|)
  {
    cvs := [];
    LeafValue(c, data, counter, 0, 0, Min(1024, |data|), counter);
    for i := 0 to LeafCount(|data|)
      invariant |cvs| == i
      invariant cvs == LeafValues(c, data, counter)[..i]
    {
      var start := i * 1024;
      var end := if start + 1024 > |data| then |data| else start + 1024;
      var at := counter + i;
      LeafValue(c, data, counter, i, start, end, at);
      cvs := cvs + [c(Leaf(data[start..end], at))];
    }
  }

  /** The pairing loop of `subtreeCV`, one level. */
  method MergeLevel(c: Compression, cvs: seq<Digest>) returns (next: seq<Digest>)
    requires |cvs| % 2 == 0
    ensures next == Paired(c, cvs)
  {
    next := [];
    var i := 0;
    while i < |cvs|
      invariant i % 2 == 0 && i <= |cvs|
      invariant next == Paired(c, cvs)[..i / 2]
    {
      next := next + [c(Parent(cvs[i], cvs[i + 1]))];
      i := i + 2;
    }
  }

  /** `chunkCount`, by quotient and remainder. It cannot overflow: a full `u64` quotient leaves none. */
  method GoChunkCount(n: u64, chunk: nat) returns (count: u64)
    requires chunk > 0
    ensures count == ChunkCount(n, chunk)
  {
    var q := n / chunk;
    CountByRemainder(n, chunk, q, n % chunk);
    QuotientRoom(n, chunk, q, n % chunk);
    if n % chunk != 0 {
      return q + 1;
    }
    return q;
  }

  lemma CountByRemainder(n: nat, chunk: nat, q: nat, r: nat)
    requires chunk > 0 && q == n / chunk && r == n % chunk
    ensures ChunkCount(n, chunk) == if r != 0 then q + 1 else q
  {
    var (up, before) := (n + chunk - 1, q * chunk);
    assert n == before + r;
    if r == 0 {
      DivUnique(up, chunk, q, chunk - 1);
    } else {
      var next := q + 1;
      assert next * chunk == before + chunk;
      DivUnique(up, chunk, next, r - 1);
    }
  }

  lemma QuotientRoom(n: u64, chunk: nat, q: nat, r: nat)
    requires chunk > 0 && q == n / chunk && r == n % chunk
    ensures q <= n && (r != 0 ==> q + 1 < U64_RANGE)
  {
    var before := q * chunk;
    assert n == before + r;
    MulMono(1, chunk, q);
  }

  /** Entry `i` at any chunk size, its leaf counter in whole leaves. */
  function GoEntry(c: Compression, plaintext: seq<byte>, cs: nat, i: nat): Digest {
    SubtreeCv(c, Chunk(plaintext, cs, i), i * (cs / 1024))
  }

  function GoEntries(c: Compression, plaintext: seq<byte>, cs: nat): (entries: seq<Digest>)
    requires cs > 0
    ensures |entries| == ChunkCount(|plaintext|, cs)
  {
    seq(ChunkCount(|plaintext|, cs), i requires 0 <= i < ChunkCount(|plaintext|, cs) =>
      GoEntry(c, plaintext, cs, i))
  }

  /** At a legal chunk size they are the index the Rust writer builds. */
  lemma GoEntriesAgree(c: Compression, plaintext: seq<byte>, cs: nat)
    requires LegalChunkSize(cs)
    ensures GoEntries(c, plaintext, cs) == ChunkCvs(c, plaintext, cs)
  {
    var (a, b) := (GoEntries(c, plaintext, cs), ChunkCvs(c, plaintext, cs));
    forall i | 0 <= i < |a|
      ensures a[i] == b[i]
    {
      CvOfChunk(c, plaintext, cs, i);
      LeafPosition(i, cs);
    }
  }

  /** `BuildChunkIndex`, which checks only that there is a chunk size. */
  method BuildChunkIndex(c: Compression, plaintext: seq<byte>, cs: nat) returns (r: Result<seq<Digest>>)
    requires |plaintext| < U64_RANGE
    ensures r == if cs == 0 then Err else Ok(GoEntries(c, plaintext, cs))
  {
    if cs == 0 {
      return Err;
    }
    var count := GoChunkCount(|plaintext|, cs);
    var entries := EveryEntry(c, plaintext, cs, count);
    return Ok(entries);
  }

  /** Its loop. */
  method EveryEntry(c: Compression, plaintext: seq<byte>, cs: nat, count: nat) returns (entries: seq<Digest>)
    requires cs > 0 && count == ChunkCount(|plaintext|, cs)
    ensures entries == GoEntries(c, plaintext, cs)
  {
    entries := [];
    for i := 0 to count
      invariant |entries| == i && forall k :: 0 <= k < i ==> entries[k] == GoEntry(c, plaintext, cs, k)
    {
      var entry := SectionChunkCv(c, plaintext, cs, i);
      entries := entries + [entry];
    }
  }

  /** `sectionChunkCV`. */
  method SectionChunkCv(c: Compression, plaintext: seq<byte>, cs: nat, i: nat) returns (cv: Digest)
    requires cs > 0 && i < ChunkCount(|plaintext|, cs)
    ensures cv == GoEntry(c, plaintext, cs, i)
  {
    ghost var len := |plaintext|;
    ChunkInside(len, cs, i);
    var start := i * cs;
    ghost var chunk := Chunk(plaintext, cs, i);
    var end := start + cs;
    if end > |plaintext| {
      end := |plaintext|;
    }
    assert chunk == plaintext[start..end];
    var leafChunk := i * (cs / 1024);
    cv := GoSubtreeCv(c, plaintext[start..end], leafChunk);
  }

  lemma LeafPosition(i: nat, cs: nat)
    requires LegalChunkSize(cs)
    ensures i * (cs / 1024) == FirstLeaf(i, cs)
  {
    ChunkLeaves(cs);
    var m := cs / 1024;
    assert i * cs == i * (m * 1024) == i * m * 1024;
  }
}
