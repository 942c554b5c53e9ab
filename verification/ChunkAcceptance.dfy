/**
 Exactly when a verified index accepts exactly the plaintext's chunks. Reducing to the root
 says what an index's entries are values of, but not where one chunk ends: that is fixed by
 their number, so the number has to be the plaintext's own chunk count.
 */
module ChunkAcceptance {
  import opened Arithmetic
  import opened Bytes
  import opened Blake3Tree
  import opened ChunkTree
  import opened ChunkIndex

  // ----- what an index that reduces to a root is made of -----

  lemma JoinHalves(l: seq<Tree>, r: seq<Tree>)
    requires l != [] && r != [] && |l| == SplitPoint(|l + r|)
    ensures Join(l + r) == NodeTree(Join(l), Join(r))
  {
    var (ts, p) := (l + r, |l|);
    assert ts[..p] == l && ts[p..] == r;
  }

  lemma CvsBoth(c: Compression, l: seq<Tree>, r: seq<Tree>)
    ensures Cvs(c, l + r) == Cvs(c, l) + Cvs(c, r)
  {
  }

  /** Trees whose calls are all among `s`. */
  ghost predicate CallsWithin(c: Compression, ts: seq<Tree>, s: set<Node>) {
    forall i :: 0 <= i < |ts| ==> Calls(c, ts[i]) <= s
  }

  /** A list of values that merges to the value of a tree lists the values of its subtrees. */
  lemma {:induction false} Unmerge(c: Compression, s: set<Node>, cvs: seq<Digest>, t: Tree) returns (ts: seq<Tree>)
    requires cvs != [] && Merge(c, cvs) == Cv(c, t)
    requires NoCollisions(c, s) && MergeCalls(c, cvs) <= s && Calls(c, t) <= s
    ensures ts != [] && Cvs(c, ts) == cvs && Join(ts) == t && CallsWithin(c, ts, s)
    decreases |cvs|
  {
    if |cvs| == 1 {
      ts := [t];
      assert Cvs(c, ts)[0] == cvs[0];
    } else {
      var p := SplitPoint(|cvs|);
      var l, r := MergeHalves(c, cvs, p);
      var node := Parent(Merge(c, l), Merge(c, r));
      match t
      case LeafTree(x, i) =>
        SameCall(c, s, Leaf(x, i), node);
        ts := [];
      case NodeTree(a, b) =>
        SameCall(c, s, Parent(Cv(c, a), Cv(c, b)), node);
        var tl := Unmerge(c, s, l, a);
        var tr := Unmerge(c, s, r, b);
        ts := tl + tr;
        CvsBoth(c, tl, tr);
        JoinHalves(tl, tr);
    }
  }

  /** So an index that reduces to the root of a tree lists the values of its subtrees. */
  lemma UnmergeRoot(c: Compression, s: set<Node>, cvs: seq<Digest>, t: Tree) returns (ts: seq<Tree>)
    requires |cvs| >= 2 && RootFromCvs(c, cvs) == Some(Root(c, t))
    requires NoCollisions(c, s) && IndexCalls(c, cvs) <= s && RootCalls(c, t) <= s
    ensures ts != [] && Cvs(c, ts) == cvs && Join(ts) == t && CallsWithin(c, ts, s)
  {
    var p := SplitPoint(|cvs|);
    var l, r := MergeHalves(c, cvs, p);
    var node := RootParent(Merge(c, l), Merge(c, r));
    match t
    case LeafTree(x, _) =>
      SameCall(c, s, RootLeaf(x), node);
      ts := [];
    case NodeTree(a, b) =>
      SameCall(c, s, RootParent(Cv(c, a), Cv(c, b)), node);
      var tl := Unmerge(c, s, l, a);
      var tr := Unmerge(c, s, r, b);
      ts := tl + tr;
      CvsBoth(c, tl, tr);
      JoinHalves(tl, tr);
  }

  // ----- how many bytes that is -----

  /** No leaf is empty. */
  predicate Full(t: Tree) {
    match t
    case LeafTree(data, _) => data != []
    case NodeTree(l, r) => Full(l) && Full(r)
  }

  lemma {:induction false} TreeOfIsFull(data: seq<byte>, counter: nat)
    requires data != []
    ensures Full(TreeOf(data, counter))
    decreases |data|
  {
    if |data| > 1024 {
      var p := LeftLeaves(data);
      TreeOfIsFull(data[..p * 1024], counter);
      TreeOfIsFull(data[p * 1024..], counter + p);
    }
  }

  lemma {:induction false} FullPart(ts: seq<Tree>, i: nat)
    requires i < |ts| && Full(Join(ts))
    ensures Full(ts[i])
    decreases |ts|
  {
    if |ts| > 1 {
      var p := SplitPoint(|ts|);
      if i < p {
        FullPart(ts[..p], i);
      } else {
        FullPart(ts[p..], i - p);
      }
    }
  }

  lemma {:induction false} FullIsNonEmpty(t: Tree)
    requires Full(t)
    ensures Flatten(t) != []
  {
    match t
    case LeafTree(_, _) =>
    case NodeTree(l, r) => FullIsNonEmpty(l);
  }

  /** The bytes under each of some trees. */
  function Pieces(ts: seq<Tree>): (pieces: seq<seq<byte>>)
    ensures |pieces| == |ts|
  {
    seq(|ts|, i requires 0 <= i < |ts| => Flatten(ts[i]))
  }

  lemma PiecesOfBoth(a: seq<Tree>, b: seq<Tree>)
    ensures Pieces(a + b) == Pieces(a) + Pieces(b)
  {
  }

  lemma {:induction false} BytesOfJoin(ts: seq<Tree>)
    requires ts != []
    ensures Flatten(Join(ts)) == Concat(Pieces(ts))
    decreases |ts|
  {
    var p := if |ts| == 1 then 1 else SplitPoint(|ts|);
    var (l, r) := (ts[..p], ts[p..]);
    assert ts == l + r;
    if |ts| > 1 {
      BytesOfJoin(l);
      BytesOfJoin(r);
      PiecesOfBoth(l, r);
      ConcatBoth(Pieces(l), Pieces(r));
    } else {
      assert Pieces(ts) == [] + [Flatten(ts[0])];
      ConcatNext([], Flatten(ts[0]));
    }
  }

  /** Every further part has bytes of its own. */
  lemma MorePartsMoreBytes(front: seq<Tree>, ts: seq<Tree>)
    requires front < ts && Full(Join(ts))
    ensures |Concat(Pieces(front))| < |Concat(Pieces(ts))|
  {
    var n := |front|;
    var (next, behind) := (ts[n], ts[n + 1..]);
    assert ts == front + [next] + behind;
    FullPart(ts, n);
    FullIsNonEmpty(next);
    PiecesOfBoth(front + [next], behind);
    assert Pieces(front + [next]) == Pieces(front) + [Flatten(next)];
    ConcatBoth(Pieces(front + [next]), Pieces(behind));
    ConcatNext(Pieces(front), Flatten(next));
  }

  /** So a tree cut into parts has no part left once some of them join to all of it. */
  lemma NothingBehind(front: seq<Tree>, ts: seq<Tree>, data: seq<byte>, counter: nat)
    requires data != [] && front != [] && Join(front) == TreeOf(data, counter)
    requires ts != [] && Join(ts) == TreeOf(data, counter) && front <= ts
    ensures front == ts
  {
    BytesOfJoin(front);
    BytesOfJoin(ts);
    TreeOfIsFull(data, counter);
    if front < ts {
      MorePartsMoreBytes(front, ts);
    }
  }

  // ----- the exact condition -----

  /** The calls that checking the plaintext's own chunks makes. */
  ghost predicate ChunkCallsIn(c: Compression, plain: seq<byte>, cs: nat, s: set<Node>) {
    LegalChunkSize(cs) && CallsWithin(c, ChunkTrees(plain, cs), s)
  }

  /**
   `verify_chunk` accepts the chunks of `plain`, each at its own position, and nothing else. It
   can only be asked of data whose check makes calls among `s`, where there are no collisions.
   */
  ghost predicate AcceptsExactly(c: Compression, s: set<Node>, plain: seq<byte>, cs: nat, cvs: seq<Digest>)
    requires cs > 0
  {
    forall i: nat, data: seq<byte> :: Calls(c, TreeOf(data, FirstLeaf(i, cs))) <= s ==>
      (VerifyChunk(c, cvs, cs, i, data) <==> i < ChunkCount(|plain|, cs) && data == Chunk(plain, cs, i))
  }

  /** An index that accepts every chunk starts with the chunks' values. */
  lemma AcceptedEntry(c: Compression, s: set<Node>, plain: seq<byte>, cs: nat, cvs: seq<Digest>, i: nat)
    requires |plain| < U64_RANGE && ChunkCallsIn(c, plain, cs, s) && AcceptsExactly(c, s, plain, cs, cvs)
    requires i < ChunkCount(|plain|, cs)
    ensures i < |cvs| && cvs[i] == Cv(c, ChunkTrees(plain, cs)[i])
  {
    ChunkTreeAt(plain, cs, i);
    var data := Chunk(plain, cs, i);
    assert VerifyChunk(c, cvs, cs, i, data);
  }

  /** Trees with the same values are the same. */
  lemma SameParts(c: Compression, s: set<Node>, cvs: seq<Digest>, front: seq<Tree>, ts: seq<Tree>)
    requires NoCollisions(c, s) && CallsWithin(c, front, s) && CallsWithin(c, ts, s) && Cvs(c, ts) == cvs
    requires |front| <= |cvs| && forall i :: 0 <= i < |front| ==> cvs[i] == Cv(c, front[i])
    ensures front <= ts
  {
    forall i | 0 <= i < |front|
      ensures ts[i] == front[i]
    {
      assert cvs[i] == Cv(c, ts[i]);
      CvInjective(c, s, ts[i], front[i]);
    }
  }

  lemma AcceptedEntries(c: Compression, s: set<Node>, plain: seq<byte>, cs: nat, cvs: seq<Digest>)
    requires |plain| < U64_RANGE && ChunkCallsIn(c, plain, cs, s) && AcceptsExactly(c, s, plain, cs, cvs)
    ensures ChunkCvs(c, plain, cs) <= cvs
  {
    var n := ChunkCount(|plain|, cs);
    if n > 0 {
      AcceptedEntry(c, s, plain, cs, cvs, n - 1);
    }
    forall i | 0 <= i < n
      ensures cvs[i] == ChunkCvs(c, plain, cs)[i]
    {
      AcceptedEntry(c, s, plain, cs, cvs, i);
    }
  }

  /** If it starts with the values of all the chunks, there is nothing left for another entry. */
  lemma SameCount(c: Compression, s: set<Node>, plain: seq<byte>, cs: nat, cvs: seq<Digest>)
    requires plain != [] && |cvs| >= 2 && RootFromCvs(c, cvs) == Some(Blake3(c, plain))
    requires NoCollisions(c, s) && IndexCalls(c, cvs) <= s && HashCalls(c, plain) <= s
    requires ChunkCallsIn(c, plain, cs, s) && ChunkCvs(c, plain, cs) <= cvs
    ensures |cvs| == ChunkCount(|plain|, cs)
  {
    var (whole, front) := (TreeOf(plain, 0), ChunkTrees(plain, cs));
    var ts := UnmergeRoot(c, s, cvs, whole);
    JoinChunks(plain, cs);
    SameParts(c, s, cvs, front, ts);
    NothingBehind(front, ts, plain, 0);
  }

  /** Nothing reduces to the root of the empty plaintext. */
  lemma NoIndexOfNothing(c: Compression, s: set<Node>, plain: seq<byte>, cvs: seq<Digest>)
    requires |cvs| >= 2 && RootFromCvs(c, cvs) == Some(Blake3(c, plain))
    requires NoCollisions(c, s) && IndexCalls(c, cvs) <= s && HashCalls(c, plain) <= s
    ensures plain != []
  {
    var ts := UnmergeRoot(c, s, cvs, TreeOf(plain, 0));
    assert |ts| >= 2 && Join(ts).NodeTree?;
  }

  /**
   An index that verifies against a plaintext's root accepts exactly its chunks if and only if
   it has as many entries as the plaintext has chunks.
   */
  lemma AcceptsExactlyIff(c: Compression, s: set<Node>, plain: seq<byte>, cs: nat, cvs: seq<Digest>)
    requires |plain| < U64_RANGE && VerifyRoot(c, cvs, Blake3(c, plain), cs)
    requires NoCollisions(c, s) && IndexCalls(c, cvs) <= s && HashCalls(c, plain) <= s && ChunkCallsIn(c, plain, cs, s)
    ensures AcceptsExactly(c, s, plain, cs, cvs) <==> |cvs| == ChunkCount(|plain|, cs)
  {
    if |cvs| == ChunkCount(|plain|, cs) {
      forall i: nat, data: seq<byte> | Calls(c, TreeOf(data, FirstLeaf(i, cs))) <= s
        ensures VerifyChunk(c, cvs, cs, i, data) <==> i < ChunkCount(|plain|, cs) && data == Chunk(plain, cs, i)
      {
        AcceptedChunkIsPlaintext(c, s, plain, cs, cvs, i, data);
      }
    }
    if AcceptsExactly(c, s, plain, cs, cvs) {
      NoIndexOfNothing(c, s, plain, cvs);
      AcceptedEntries(c, s, plain, cs, cvs);
      SameCount(c, s, plain, cs, cvs);
    }
  }

  // ----- a record that lies about the length -----

  /** Twice the length in chunks of twice the size is as many chunks. */
  lemma TwiceAsLong(len: nat, half: nat)
    requires half > 0
    ensures ChunkCount(2 * len, 2 * half) == ChunkCount(len, half)
  {
    var k := ChunkCount(len, half);
    if len == 0 {
      DivUnique(2 * half - 1, 2 * half, 0, 2 * half - 1);
      DivUnique(half - 1, half, 0, half - 1);
    } else {
      var up := len + half - 1;
      var r := up % half;
      assert up == k * half + r;
      var double := k * (2 * half);
      assert double == 2 * (k * half);
      DivUnique(2 * len + 2 * half - 1, 2 * half, k, 2 * r + 1);
    }
  }

  /**
   The failing family: a length declared twice too long makes the count right for an index of
   half-size chunks, which reduces to the plaintext's root and then accepts half a chunk.
   */
  lemma LyingLength(c: Compression, plain: seq<byte>, half: nat, declared: nat)
    requires LegalChunkSize(half) && LegalChunkSize(2 * half) && 2 * half < |plain| < U64_RANGE && declared == 2 * |plain|
    ensures var finer := ChunkCvs(c, plain, half);
      && |finer| == ChunkCount(declared, 2 * half) && VerifyRoot(c, finer, Blake3(c, plain), 2 * half)
      && VerifyChunk(c, finer, 2 * half, 0, plain[..half])
      && plain[..half] != Chunk(plain, 2 * half, 0)
  {
    TwiceAsLong(|plain|, half);
    FinerIndexAcceptsHalf(c, plain, half);
  }
}
