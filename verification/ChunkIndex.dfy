/**
 Chunk indices (`chunk.rs`): building, parsing and serializing the array of chaining
 values, reducing it to the section root, and checking chunks against it.
 */
module ChunkIndex {
  import opened Arithmetic
  import opened Bytes
  import opened Blake3Tree
  import opened ChunkTree

  const MIN_CHUNK_SIZE: nat := 4096
  const MAX_CHUNK_SIZE: nat := 0x400_0000

  predicate LegalChunkSize(cs: nat) {
    IsPow2(cs) && MIN_CHUNK_SIZE <= cs <= MAX_CHUNK_SIZE
  }

  // ----- chunk arithmetic -----

  /** `len / cs`, rounded up. */
  function ChunkCount(len: nat, cs: nat): nat
    requires cs > 0
  {
    (len + cs - 1) / cs
  }

  /** Chunk `i` of `data`: `cs` bytes, fewer at the end, none past it. */
  function Chunk(data: seq<byte>, cs: nat, i: nat): seq<byte> {
    data[Min(i * cs, |data|)..Min(i * cs + cs, |data|)]
  }

  /** The leaf counter chunk `i` starts at. */
  function FirstLeaf(i: nat, cs: nat): nat {
    i * cs / 1024
  }

  /** A legal chunk size is a whole, power-of-two number of leaves. */
  lemma {:induction false} ChunkLeaves(cs: nat)
    requires IsPow2(cs) && cs >= 1024
    ensures cs == cs / 1024 * 1024 && IsPow2(cs / 1024)
  {
    if cs > 1024 {
      Pow2Gap(1024, cs);
      ChunkLeaves(cs / 2);
    }
  }

  lemma CountUnique(len: nat, cs: nat, k: nat, before: nat, upto: nat)
    requires cs > 0 && k >= 1 && before == (k - 1) * cs && upto == before + cs
    requires before < len <= upto
    ensures ChunkCount(len, cs) == k
  {
    var (r, n) := (len - before - 1, len + cs - 1);
    assert k * cs == upto;
    DivUnique(n, cs, k, r);
  }

  /** `k` chunks hold `k * cs` bytes. */
  lemma BytesOfChunks(k: nat, cs: nat, m: nat)
    requires cs == m * 1024
    ensures Leaves(k, m) * 1024 == k * cs
  {
    LeavesProduct(k, m);
  }

  /** The chunk count is the number of cuts, and cut `i` is chunk `i`. */
  lemma CountOfCuts(len: nat, cs: nat, m: nat)
    requires cs > 0 && cs == m * 1024
    ensures ChunkCount(len, cs) == |Cuts(0, len, m, 0)|
  {
    if len == 0 {
      DivUnique(cs - 1, cs, 0, cs - 1);
    } else {
      var k := |Cuts(0, len, m, 0)|;
      var last := k - 1;
      CutCountBounds(0, len, m, 0);
      CutAt(0, len, m, 0, last);
      BytesOfChunks(last, cs, m);
      var before := Leaves(last, m) * 1024;
      CountUnique(len, cs, k, before, before + cs);
    }
  }

  lemma SpanOfChunk(len: nat, cs: nat, m: nat, i: nat)
    requires cs > 0 && cs == m * 1024 && i < |Cuts(0, len, m, 0)|
    ensures i * cs < len
    ensures Cuts(0, len, m, 0)[i] == Span(i * cs, Min(i * cs + cs, len), FirstLeaf(i, cs))
  {
    CutAt(0, len, m, 0, i);
    LeavesProduct(i, m);
    assert i * m * 1024 == i * cs;
  }

  /** The trees of the chunks of a plaintext; leaf counters run from its start. */
  function ChunkTrees(data: seq<byte>, cs: nat): (ts: seq<Tree>)
    requires LegalChunkSize(cs)
    ensures |ts| == ChunkCount(|data|, cs)
  {
    ChunkLeaves(cs);
    CountOfCuts(|data|, cs, cs / 1024);
    Map(SpanTree(data), Cuts(0, |data|, cs / 1024, 0))
  }

  /** The index of a plaintext: entry `i` is the chaining value of chunk `i`. */
  function ChunkCvs(c: Compression, data: seq<byte>, cs: nat): (cvs: seq<Digest>)
    requires LegalChunkSize(cs)
    ensures |cvs| == ChunkCount(|data|, cs)
  {
    Cvs(c, ChunkTrees(data, cs))
  }

  lemma ChunkTreeAt(data: seq<byte>, cs: nat, i: nat)
    requires LegalChunkSize(cs) && i < ChunkCount(|data|, cs)
    ensures i * cs < |data|
    ensures ChunkTrees(data, cs)[i] == TreeOf(Chunk(data, cs, i), FirstLeaf(i, cs))
  {
    ChunkLeaves(cs);
    CountOfCuts(|data|, cs, cs / 1024);
    SpanOfChunk(|data|, cs, cs / 1024, i);
  }

  lemma CvOfChunk(c: Compression, data: seq<byte>, cs: nat, i: nat)
    requires LegalChunkSize(cs) && i < ChunkCount(|data|, cs)
    ensures i * cs < |data|
    ensures ChunkCvs(c, data, cs)[i] == SubtreeCv(c, Chunk(data, cs, i), FirstLeaf(i, cs))
  {
    ChunkTreeAt(data, cs, i);
  }

  // ----- the root -----

  /** The root read off an index is the BLAKE3 hash of the whole plaintext. */
  lemma RootOfChunks(c: Compression, data: seq<byte>, cs: nat)
    requires LegalChunkSize(cs) && ChunkCount(|data|, cs) >= 2
    ensures RootFromCvs(c, ChunkCvs(c, data, cs)) == Some(Blake3(c, data))
    ensures IndexCalls(c, ChunkCvs(c, data, cs)) <= HashCalls(c, data)
  {
    JoinChunks(data, cs);
    RootOfJoin(c, ChunkTrees(data, cs));
  }

  lemma JoinChunks(data: seq<byte>, cs: nat)
    requires LegalChunkSize(cs) && data != []
    ensures ChunkTrees(data, cs) != []
    ensures Join(ChunkTrees(data, cs)) == TreeOf(data, 0)
  {
    ChunkLeaves(cs);
    JoinCuts(data, 0, |data|, cs / 1024, 0);
    assert data[0..|data|] == data;
  }

  // ----- building, parsing, serializing -----

  /** `chunk_cv`: the value of one chunk, with the preconditions of the tree checked. */
  function ChunkCv(c: Compression, data: seq<byte>, index: nat, cs: nat): Result<Digest> {
    if !LegalChunkSize(cs) || data == [] || |data| > cs || index * cs >= U64_RANGE then Err
    else Ok(SubtreeCv(c, data, FirstLeaf(index, cs)))
  }

  /** The chunk at `i` has a value exactly when the size is legal, and it is entry `i`. */
  lemma EntryOfChunk(c: Compression, data: seq<byte>, cs: nat, i: nat)
    requires LegalChunkSize(cs) && i < ChunkCount(|data|, cs) && |data| < U64_RANGE
    ensures i * cs < |data|
    ensures ChunkCv(c, Chunk(data, cs, i), i, cs) == Ok(ChunkCvs(c, data, cs)[i])
  {
    CvOfChunk(c, data, cs, i);
  }

  lemma ChunkInside(len: nat, cs: nat, i: nat)
    requires cs > 0 && i < ChunkCount(len, cs)
    ensures i * cs < len
  {
    var (k, m) := (ChunkCount(len, cs), len + cs - 1);
    var r := m % cs;
    assert m == k * cs + r;
    BelowMultiple(i, k, cs, k * cs);
  }

  lemma BelowMultiple(i: nat, k: nat, cs: nat, total: nat)
    requires i < k && total == k * cs
    ensures i * cs + cs <= total
  {
    var j := i + 1;
    MulMono(j, k, cs);
  }

  /** `ChunkIndex::build`: an empty plaintext has no chunk to reject an illegal size at. */
  method Build(c: Compression, plaintext: seq<byte>, cs: u32) returns (r: Result<seq<Digest>>)
    requires |plaintext| < U64_RANGE
    ensures r.Ok? <==> cs != 0 && (ChunkCount(|plaintext|, cs) == 0 || LegalChunkSize(cs))
    ensures r.Ok? && !LegalChunkSize(cs) ==> r.value == []
    ensures r.Ok? && LegalChunkSize(cs) ==> r.value == ChunkCvs(c, plaintext, cs)
  {
    if cs == 0 {
      return Err;
    }
    var count := ChunkCount(|plaintext|, cs);
    var cvs: seq<Digest> := [];
    for i := 0 to count
      invariant |cvs| == i
      invariant i > 0 ==> LegalChunkSize(cs)
      invariant LegalChunkSize(cs) ==> cvs == ChunkCvs(c, plaintext, cs)[..i]
    {
      ChunkInside(|plaintext|, cs, i);
      var start := i * cs;
      var end := Min(start + cs, |plaintext|);
      var cv := ChunkCv(c, plaintext[start..end], i, cs);
      if LegalChunkSize(cs) {
        EntryOfChunk(c, plaintext, cs, i);
      }
      if cv.Err? {
        return Err;
      }
      cvs := cvs + [cv.value];
    }
    return Ok(cvs);
  }

  function IndexBytes(cvs: seq<Digest>): (b: seq<byte>)
    ensures |b| == 32 * |cvs|
  {
    if cvs == [] then [] else IndexBytes(cvs[..|cvs| - 1]) + cvs[|cvs| - 1]
  }

  lemma {:induction false} EntryAt(cvs: seq<Digest>, i: nat)
    requires i < |cvs|
    ensures IndexBytes(cvs)[32 * i..32 * i + 32] == cvs[i]
  {
    var k := |cvs| - 1;
    var front := IndexBytes(cvs[..k]);
    assert IndexBytes(cvs) == front + cvs[k];
    if i < k {
      EntryAt(cvs[..k], i);
      assert (front + cvs[k])[32 * i..32 * i + 32] == front[32 * i..32 * i + 32];
    }
  }

  lemma IndexBytesInjective(a: seq<Digest>, b: seq<Digest>)
    requires IndexBytes(a) == IndexBytes(b)
    ensures a == b
  {
    forall i: nat | i < |a|
      ensures a[i] == b[i]
    {
      EntryAt(a, i);
      EntryAt(b, i);
    }
  }

  /** `ChunkIndex::parse`: exactly `count` entries, at least two, nothing after them. */
  method Parse(b: seq<byte>, count: nat) returns (r: Result<seq<Digest>>)
    ensures r.Ok? <==> count >= 2 && |b| == 32 * count
    ensures r.Ok? ==> IndexBytes(r.value) == b
  {
    if count < 2 {
      return Err;
    }
    var need := count * 32;
    if |b| != need {
      return Err;
    }
    var cvs: seq<Digest> := [];
    for i := 0 to need / 32
      invariant |cvs| == i
      invariant IndexBytes(cvs) == b[..32 * i]
    {
      var cv: Digest := b[i * 32..i * 32 + 32];
      assert (cvs + [cv])[..i] == cvs;
      cvs := cvs + [cv];
    }
    assert b[..need] == b;
    return Ok(cvs);
  }

  /** `ChunkIndex::to_bytes`. */
  method ToBytes(cvs: seq<Digest>) returns (b: seq<byte>)
    ensures b == IndexBytes(cvs)
  {
    b := [];
    for i := 0 to |cvs|
      invariant b == IndexBytes(cvs[..i])
    {
      assert cvs[..i + 1][..i] == cvs[..i];
      b := b + cvs[i];
    }
    assert cvs[..|cvs|] == cvs;
  }

  // ----- verification -----

  /** `ChunkIndex::verify_root`. */
  predicate VerifyRoot(c: Compression, cvs: seq<Digest>, root: Digest, cs: nat) {
    LegalChunkSize(cs) && RootFromCvs(c, cvs) == Some(root)
  }

  /** `VerifiedChunkIndex::verify_chunk`, on an index that has passed `VerifyRoot`. */
  predicate VerifyChunk(c: Compression, cvs: seq<Digest>, cs: nat, index: nat, data: seq<byte>) {
    index < |cvs| && ChunkCv(c, data, index, cs) == Ok(cvs[index])
  }

  lemma MergeHalves(c: Compression, cvs: seq<Digest>, p: nat) returns (l: seq<Digest>, r: seq<Digest>)
    requires |cvs| >= 2 && p == SplitPoint(|cvs|)
    ensures |l| == p && |r| == |cvs| - p && r != [] && cvs == l + r
    ensures Merge(c, cvs) == c(Parent(Merge(c, l), Merge(c, r)))
    ensures MergeCalls(c, cvs) == {Parent(Merge(c, l), Merge(c, r))} + MergeCalls(c, l) + MergeCalls(c, r)
    ensures RootFromCvs(c, cvs) == Some(c(RootParent(Merge(c, l), Merge(c, r))))
    ensures IndexCalls(c, cvs) == {RootParent(Merge(c, l), Merge(c, r))} + MergeCalls(c, l) + MergeCalls(c, r)
  {
    l, r := cvs[..p], cvs[p..];
  }

  /** Two lists of values of one length merge to one value only if they are equal. */
  lemma {:induction false} MergeInjective(c: Compression, s: set<Node>, a: seq<Digest>, b: seq<Digest>)
    requires |a| == |b| >= 1
    requires NoCollisions(c, s) && MergeCalls(c, a) <= s && MergeCalls(c, b) <= s
    requires Merge(c, a) == Merge(c, b)
    ensures a == b
    decreases |a|
  {
    if |a| > 1 {
      var p := SplitPoint(|a|);
      var al, ar := MergeHalves(c, a, p);
      var bl, br := MergeHalves(c, b, p);
      SameCall(c, s, Parent(Merge(c, al), Merge(c, ar)), Parent(Merge(c, bl), Merge(c, br)));
      MergeInjective(c, s, al, bl);
      MergeInjective(c, s, ar, br);
    }
  }

  /** An index of known length is determined by the root it reduces to. */
  lemma RootInjective(c: Compression, s: set<Node>, a: seq<Digest>, b: seq<Digest>)
    requires |a| == |b| >= 2
    requires NoCollisions(c, s) && IndexCalls(c, a) <= s && IndexCalls(c, b) <= s
    requires RootFromCvs(c, a) == RootFromCvs(c, b)
    ensures a == b
  {
    var p := SplitPoint(|a|);
    var al, ar := MergeHalves(c, a, p);
    var bl, br := MergeHalves(c, b, p);
    SameCall(c, s, RootParent(Merge(c, al), Merge(c, ar)), RootParent(Merge(c, bl), Merge(c, br)));
    MergeInjective(c, s, al, bl);
    MergeInjective(c, s, ar, br);
  }

  /** The only index of the right length that verifies is the one `Build` makes. */
  lemma VerifiedIndexIsBuilt(c: Compression, s: set<Node>, plain: seq<byte>, cs: nat, cvs: seq<Digest>)
    requires LegalChunkSize(cs) && |cvs| == ChunkCount(|plain|, cs) >= 2
    requires NoCollisions(c, s) && IndexCalls(c, cvs) <= s && HashCalls(c, plain) <= s
    ensures VerifyRoot(c, cvs, Blake3(c, plain), cs) <==> cvs == ChunkCvs(c, plain, cs)
  {
    RootOfChunks(c, plain, cs);
    if VerifyRoot(c, cvs, Blake3(c, plain), cs) {
      RootInjective(c, s, cvs, ChunkCvs(c, plain, cs));
    }
  }

  /**
   Once an index of the section's own chunk count verifies against the section's root, the
   data accepted for chunk `i` is exactly the plaintext there: nothing shorter, longer or moved.
   */
  lemma AcceptedChunkIsPlaintext(c: Compression, s: set<Node>, plain: seq<byte>, cs: nat, cvs: seq<Digest>,
                                 i: nat, data: seq<byte>)
    requires |plain| < U64_RANGE && LegalChunkSize(cs) && |cvs| == ChunkCount(|plain|, cs) >= 2
    requires VerifyRoot(c, cvs, Blake3(c, plain), cs)
    requires NoCollisions(c, s) && IndexCalls(c, cvs) <= s && HashCalls(c, plain) <= s
    requires Calls(c, TreeOf(data, FirstLeaf(i, cs))) <= s
    ensures VerifyChunk(c, cvs, cs, i, data) <==> i < |cvs| && data == Chunk(plain, cs, i)
  {
    VerifiedIndexIsBuilt(c, s, plain, cs, cvs);
    if i < |cvs| {
      EntryOfChunk(c, plain, cs, i);
      if VerifyChunk(c, cvs, cs, i, data) {
        var ts := ChunkTrees(plain, cs);
        JoinChunks(plain, cs);
        PartRootCalls(c, ts, i);
        ChunkTreeAt(plain, cs, i);
        SubtreeInjective(c, s, data, FirstLeaf(i, cs), Chunk(plain, cs, i), FirstLeaf(i, cs));
      }
    }
  }

  lemma ManyChunks(len: nat, cs: nat)
    requires cs > 0 && len > cs
    ensures ChunkCount(len, cs) >= 2
  {
    var k := ChunkCount(len, cs);
    assert len + cs - 1 == k * cs + (len + cs - 1) % cs;
    MulMono(k, 1, cs);
  }

  lemma TwoChunks(len: nat, cs: nat)
    requires cs > 0
    ensures ChunkCount(len, cs) >= 2 <==> len > cs
  {
    if len > cs {
      ManyChunks(len, cs);
    }
  }

  /**
   Why the count comes from the record and never from the index: an index of half-size
   chunks reduces to the same root, and its first entry accepts half of the first chunk.
   */
  lemma FinerIndexAcceptsHalf(c: Compression, plain: seq<byte>, half: nat)
    requires LegalChunkSize(half) && LegalChunkSize(2 * half) && 2 * half < |plain| < U64_RANGE
    ensures var finer := ChunkCvs(c, plain, half);
      && VerifyRoot(c, finer, Blake3(c, plain), 2 * half)
      && VerifyChunk(c, finer, 2 * half, 0, plain[..half])
      && plain[..half] != Chunk(plain, 2 * half, 0)
  {
    ManyChunks(|plain|, half);
    RootOfChunks(c, plain, half);
    EntryOfChunk(c, plain, half, 0);
    assert Chunk(plain, half, 0) == plain[..half];
  }

  // ----- streaming verification -----

  /** One call of the reader: the bytes it filled in, or a failure. */
  type Read = Option<seq<byte>>

  /** What a reader delivers up to its first empty read. */
  function Delivered(input: seq<Read>, bufLen: nat): Result<seq<byte>> {
    if input == [] || input[0] == Some([]) then Ok([])
    else if input[0].None? || |input[0].value| > bufLen then Err
    else
      match Delivered(input[1..], bufLen)
      case Ok(rest) => Ok(input[0].value + rest)
      case Err => Err
  }

  /** Reads that fill the buffer, up to an empty one or the last, deliver what they read, in order. */
  lemma {:induction false} DeliveredReads(input: seq<Read>, parts: seq<seq<byte>>, bufLen: nat)
    requires |parts| <= |input|
    requires forall i :: 0 <= i < |parts| ==> input[i] == Some(parts[i]) && 0 < |parts[i]| <= bufLen
    requires |parts| == |input| || input[|parts|] == Some([])
    ensures Delivered(input, bufLen) == Ok(Concat(parts))
    decreases |parts|
  {
    if parts != [] {
      var rest := parts[1..];
      assert forall i :: 0 <= i < |rest| ==> input[1..][i] == Some(parts[i + 1]);
      DeliveredReads(input[1..], rest, bufLen);
      ConcatFirst(parts);
    }
  }

  /** A failing read, or one longer than the buffer, delivers nothing. */
  lemma {:induction false} FailingRead(input: seq<Read>, parts: seq<seq<byte>>, bufLen: nat)
    requires |parts| < |input|
    requires forall i :: 0 <= i < |parts| ==> input[i] == Some(parts[i]) && 0 < |parts[i]| <= bufLen
    requires input[|parts|].None? || |input[|parts|].value| > bufLen
    ensures Delivered(input, bufLen) == Err
    decreases |parts|
  {
    if parts != [] {
      var rest := parts[1..];
      assert forall i :: 0 <= i < |rest| ==> input[1..][i] == Some(parts[i + 1]);
      FailingRead(input[1..], rest, bufLen);
    }
  }

  /** `verify_stream`: exact length and exact hash, in bounded memory. */
  method VerifyStream(c: Compression, input: seq<Read>, root: Digest, len: u64, bufLen: nat)
    returns (r: Result<nat>)
    ensures r.Ok? <==> bufLen > 0 && Delivered(input, bufLen).Ok?
                       && |Delivered(input, bufLen).value| == len
                       && Blake3(c, Delivered(input, bufLen).value) == root
    ensures r.Ok? ==> r.value == len
  {
    if bufLen == 0 {
      return Err;
    }
    var hashed: seq<byte> := [];
    var total := 0;
    var k := 0;
    while k < |input|
      invariant k <= |input| && total == |hashed| <= len
      invariant Delivered(input, bufLen).Ok? <==> Delivered(input[k..], bufLen).Ok?
      invariant Delivered(input, bufLen).Ok? ==>
        Delivered(input, bufLen).value == hashed + Delivered(input[k..], bufLen).value
      decreases |input| - k
    {
      assert input[k..][1..] == input[k + 1..];
      if input[k].None? {
        return Err;
      }
      var got := input[k].value;
      if |got| == 0 {
        break;
      }
      if |got| > bufLen {
        return Err;
      }
      total := total + |got|;
      if total > len {
        return Err;
      }
      hashed := hashed + got;
      k := k + 1;
    }
    assert Delivered(input[k..], bufLen) == Ok([]) && hashed + [] == hashed;
    if total != len {
      return Err;
    }
    if Blake3(c, hashed) != root {
      return Err;
    }
    return Ok(total);
  }
}
