/**
 The BLAKE3 tree (section 2.1 of the BLAKE3 paper), over an uninterpreted compression
 function. A `Node` is one compression call: a 1024-byte leaf with its counter, or a
 parent over two chaining values, each with or without root finalization. The shape of
 the tree is a datatype of its own, so that statements about shapes need no hashing and
 statements about hashing need no arithmetic.
 */
module Blake3Tree {
  import opened Bytes

  datatype Node =
    | Leaf(data: seq<byte>, counter: nat)
    | RootLeaf(data: seq<byte>)
    | Parent(left: Digest, right: Digest)
    | RootParent(left: Digest, right: Digest)

  type Compression = Node -> Digest

  // ----- powers of two and the split point -----

  predicate IsPow2(n: nat) {
    n == 1 || (n > 0 && n % 2 == 0 && IsPow2(n / 2))
  }

  /** The largest power of two strictly below `n`. */
  function SplitPoint(n: nat): (p: nat)
    requires n >= 2
    ensures 0 < p < n <= 2 * p
  {
    if n == 2 then 1 else 2 * SplitPoint((n + 1) / 2)
  }

  lemma {:induction false} SplitPointIsPow2(n: nat)
    requires n >= 2
    ensures IsPow2(SplitPoint(n))
  {
    if n > 2 {
      SplitPointIsPow2((n + 1) / 2);
    }
  }

  lemma {:induction false} Pow2Gap(p: nat, q: nat)
    requires IsPow2(p) && IsPow2(q) && p < q
    ensures 2 * p <= q
  {
    if p > 1 {
      Pow2Gap(p / 2, q / 2);
    }
  }

  /** The two bounds determine the split point. */
  lemma SplitPointUnique(n: nat, p: nat)
    requires n >= 2 && IsPow2(p) && p < n <= 2 * p
    ensures p == SplitPoint(n)
  {
    SplitPointIsPow2(n);
    if p < SplitPoint(n) {
      Pow2Gap(p, SplitPoint(n));
    } else if SplitPoint(n) < p {
      Pow2Gap(SplitPoint(n), p);
    }
  }

  /** The number of binary digits of `n`; `leading_zeros` is its complement in the word. */
  function BitLen(n: nat): nat {
    if n == 0 then 0 else 1 + BitLen(n / 2)
  }

  function Pow2(k: nat): (p: nat)
    ensures p > 0
  {
    if k == 0 then 1 else 2 * Pow2(k - 1)
  }

  /** Rust's and Go's shift by the bit length of `n - 1`, less one. */
  lemma {:induction false} SplitByBitLength(n: nat)
    requires n >= 2
    ensures BitLen(n - 1) >= 1
    ensures Pow2(BitLen(n - 1) - 1) == SplitPoint(n)
  {
    if n > 2 {
      SplitByBitLength((n + 1) / 2);
      assert (n + 1) / 2 - 1 == (n - 1) / 2;
    }
  }

  /** The doubling loop of the reference generator. */
  method LargestPowerOfTwoBelow(n: nat) returns (p: nat)
    requires n >= 2
    ensures p == SplitPoint(n)
  {
    p := 1;
    while p * 2 < n
      invariant IsPow2(p) && p < n
    {
      p := p * 2;
    }
    SplitPointUnique(n, p);
  }

  // ----- the reference tree -----

  /** The number of 1024-byte leaves of `len` bytes, the last possibly short. */
  function LeafCount(len: nat): nat {
    (len + 1023) / 1024
  }

  datatype Tree =
    | LeafTree(data: seq<byte>, counter: nat)
    | NodeTree(left: Tree, right: Tree)

  /** The leaves to the left of the root of a tree over more than one leaf. */
  function LeftLeaves(data: seq<byte>): (p: nat)
    requires |data| > 1024
    ensures 0 < p * 1024 < |data|
  {
    SplitPoint(LeafCount(|data|))
  }

  /** The tree over `data`, whose first leaf has this counter. */
  function TreeOf(data: seq<byte>, counter: nat): Tree
    decreases |data|
  {
    if |data| <= 1024 then LeafTree(data, counter)
    else
      var p := LeftLeaves(data);
      NodeTree(TreeOf(data[..p * 1024], counter), TreeOf(data[p * 1024..], counter + p))
  }

  /** A chaining value: no root finalization anywhere. */
  function Cv(c: Compression, t: Tree): Digest {
    match t
    case LeafTree(data, counter) => c(Leaf(data, counter))
    case NodeTree(l, r) => c(Parent(Cv(c, l), Cv(c, r)))
  }

  function Root(c: Compression, t: Tree): Digest {
    match t
    case LeafTree(data, _) => c(RootLeaf(data))
    case NodeTree(l, r) => c(RootParent(Cv(c, l), Cv(c, r)))
  }

  /** Chaining value of the subtree over `data`, and the hash of a whole input. */
  function SubtreeCv(c: Compression, data: seq<byte>, counter: nat): Digest {
    Cv(c, TreeOf(data, counter))
  }

  function Blake3(c: Compression, data: seq<byte>): Digest {
    Root(c, TreeOf(data, 0))
  }

  // ----- a tree determines its input -----

  function Flatten(t: Tree): seq<byte> {
    match t
    case LeafTree(data, _) => data
    case NodeTree(l, r) => Flatten(l) + Flatten(r)
  }

  function FirstCounter(t: Tree): nat {
    match t
    case LeafTree(_, counter) => counter
    case NodeTree(l, _) => FirstCounter(l)
  }

  lemma {:induction false} TreeOfInput(data: seq<byte>, counter: nat)
    ensures Flatten(TreeOf(data, counter)) == data
    ensures FirstCounter(TreeOf(data, counter)) == counter
    decreases |data|
  {
    if |data| > 1024 {
      var p := LeftLeaves(data);
      TreeOfInput(data[..p * 1024], counter);
      TreeOfInput(data[p * 1024..], counter + p);
      assert data == data[..p * 1024] + data[p * 1024..];
    }
  }

  /** The leaves, left to right. */
  function LeavesOf(t: Tree): (leaves: seq<Tree>)
    ensures leaves != []
  {
    match t
    case LeafTree(_, _) => [t]
    case NodeTree(l, r) => LeavesOf(l) + LeavesOf(r)
  }

  /** What is to the left of the root is whole leaves. */
  lemma LeavesBeside(data: seq<byte>, p: nat, cut: nat)
    requires |data| > 1024 && p == LeftLeaves(data) && cut == p * 1024
    ensures LeafCount(cut) == p && LeafCount(|data| - cut) == LeafCount(|data|) - p
  {
  }

  lemma {:induction false} LeafNumber(data: seq<byte>, counter: nat)
    ensures |LeavesOf(TreeOf(data, counter))| == if data == [] then 1 else LeafCount(|data|)
    decreases |data|
  {
    if |data| > 1024 {
      var p := LeftLeaves(data);
      var (cut, next) := (p * 1024, counter + p);
      LeavesBeside(data, p, cut);
      LeafNumber(data[..cut], counter);
      LeafNumber(data[cut..], next);
    }
  }

  /** The `k`-th 1024 bytes of some data, the last of them possibly short. */
  function LeafBytes(data: seq<byte>, from: nat): seq<byte>
    requires from <= |data|
  {
    data[from..Min(from + 1024, |data|)]
  }

  lemma LeafOfSide(data: seq<byte>, cut: nat, from: nat)
    requires cut <= |data| && from <= |data|
    ensures from + 1024 <= cut ==> LeafBytes(data[..cut], from) == LeafBytes(data, from)
    ensures from >= cut ==> LeafBytes(data[cut..], from - cut) == LeafBytes(data, from)
  {
  }

  lemma PickFrom<T>(a: seq<T>, b: seq<T>, k: nat)
    requires k < |a| + |b|
    ensures (a + b)[k] == if k < |a| then a[k] else b[k - |a|]
  {
  }

  lemma {:induction false} PickLeaf(data: seq<byte>, counter: nat, k: nat, from: nat, number: nat)
    requires k < |LeavesOf(TreeOf(data, counter))| && from == 1024 * k <= |data| && number == counter + k
    ensures LeavesOf(TreeOf(data, counter))[k] == LeafTree(LeafBytes(data, from), number)
    decreases |data|
  {
    if |data| > 1024 {
      var p := LeftLeaves(data);
      var (cut, next) := (p * 1024, counter + p);
      var (l, r) := (data[..cut], data[cut..]);
      LeavesBeside(data, p, cut);
      LeafNumber(l, counter);
      LeafOfSide(data, cut, from);
      PickFrom(LeavesOf(TreeOf(l, counter)), LeavesOf(TreeOf(r, next)), k);
      if k < p {
        PickLeaf(l, counter, k, from, number);
      } else {
        var (j, rest) := (k - p, from - cut);
        PickLeaf(r, next, j, rest, number);
      }
    } else {
      assert LeavesOf(TreeOf(data, counter)) == [LeafTree(data, counter)];
    }
  }

  /** Leaf `k` holds the `k`-th 1024 bytes, the last one what is left, and counts on from the first. */
  lemma LeafAt(data: seq<byte>, counter: nat, k: nat)
    requires k < |LeavesOf(TreeOf(data, counter))|
    ensures 1024 * k <= |data|
    ensures LeavesOf(TreeOf(data, counter))[k] == LeafTree(data[1024 * k..Min(1024 * k + 1024, |data|)], counter + k)
  {
    LeafNumber(data, counter);
    PickLeaf(data, counter, k, 1024 * k, counter + k);
  }

  lemma TwoLeaves(data: seq<byte>, counter: nat, next: nat)
    requires 1024 < |data| <= 2048 && next == counter + 1
    ensures TreeOf(data, counter) == NodeTree(LeafTree(data[..1024], counter), LeafTree(data[1024..], next))
  {
    assert LeftLeaves(data) == 1;
  }

  lemma ThreeLeaves(data: seq<byte>)
    requires 2048 < |data| <= 3072
    ensures TreeOf(data, 0)
      == NodeTree(NodeTree(LeafTree(data[..1024], 0), LeafTree(data[1024..2048], 1)), LeafTree(data[2048..], 2))
  {
    assert SplitPoint(3) == 2 && LeftLeaves(data) == 2;
    var l := data[..2048];
    TwoLeaves(l, 0, 1);
    assert l[..1024] == data[..1024] && l[1024..] == data[1024..2048];
  }

  /** The hash of up to three leaves, written out. */
  lemma SmallInputs(c: Compression, data: seq<byte>)
    ensures |data| <= 1024 ==> Blake3(c, data) == c(RootLeaf(data))
    ensures 1024 < |data| <= 2048 ==>
      Blake3(c, data) == c(RootParent(c(Leaf(data[..1024], 0)), c(Leaf(data[1024..], 1))))
    ensures 2048 < |data| <= 3072 ==>
      Blake3(c, data) == c(RootParent(c(Parent(c(Leaf(data[..1024], 0)), c(Leaf(data[1024..2048], 1)))),
                                      c(Leaf(data[2048..], 2))))
  {
    if 1024 < |data| <= 2048 {
      TwoLeaves(data, 0, 1);
    } else if 2048 < |data| <= 3072 {
      ThreeLeaves(data);
      var l := NodeTree(LeafTree(data[..1024], 0), LeafTree(data[1024..2048], 1));
      assert Cv(c, l) == c(Parent(c(Leaf(data[..1024], 0)), c(Leaf(data[1024..2048], 1))));
    }
  }

  // ----- what a hash computation compresses -----

  /** The compression calls behind `Cv`. */
  ghost function Calls(c: Compression, t: Tree): set<Node> {
    match t
    case LeafTree(data, counter) => {Leaf(data, counter)}
    case NodeTree(l, r) => {Parent(Cv(c, l), Cv(c, r))} + Calls(c, l) + Calls(c, r)
  }

  ghost function RootCalls(c: Compression, t: Tree): set<Node> {
    match t
    case LeafTree(data, _) => {RootLeaf(data)}
    case NodeTree(l, r) => {RootParent(Cv(c, l), Cv(c, r))} + Calls(c, l) + Calls(c, r)
  }

  /** The compression calls behind hashing `data`. */
  ghost function HashCalls(c: Compression, data: seq<byte>): set<Node> {
    RootCalls(c, TreeOf(data, 0))
  }

  ghost predicate Collision(c: Compression, a: Node, b: Node) {
    a != b && c(a) == c(b)
  }

  /** No two different calls among `s` collide. Only calls actually made are ever listed. */
  ghost predicate NoCollisions(c: Compression, s: set<Node>) {
    forall a, b {:trigger Collision(c, a, b)} :: a in s && b in s ==> !Collision(c, a, b)
  }

  lemma SameCall(c: Compression, s: set<Node>, a: Node, b: Node)
    requires NoCollisions(c, s) && a in s && b in s && c(a) == c(b)
    ensures a == b
  {
    assert !Collision(c, a, b);
  }

  lemma {:induction false} CvInjective(c: Compression, s: set<Node>, t: Tree, u: Tree)
    requires NoCollisions(c, s) && Calls(c, t) <= s && Calls(c, u) <= s
    requires Cv(c, t) == Cv(c, u)
    ensures t == u
  {
    match (t, u)
    case (LeafTree(x, i), LeafTree(y, j)) => SameCall(c, s, Leaf(x, i), Leaf(y, j));
    case (LeafTree(x, i), NodeTree(l, r)) => SameCall(c, s, Leaf(x, i), Parent(Cv(c, l), Cv(c, r)));
    case (NodeTree(l, r), LeafTree(y, j)) => SameCall(c, s, Parent(Cv(c, l), Cv(c, r)), Leaf(y, j));
    case (NodeTree(l, r), NodeTree(l', r')) =>
      SameCall(c, s, Parent(Cv(c, l), Cv(c, r)), Parent(Cv(c, l'), Cv(c, r')));
      CvInjective(c, s, l, l');
      CvInjective(c, s, r, r');
  }

  /** A chaining value fixes both the bytes under it and where they sit. */
  lemma SubtreeInjective(c: Compression, s: set<Node>, x: seq<byte>, i: nat, y: seq<byte>, j: nat)
    requires NoCollisions(c, s) && Calls(c, TreeOf(x, i)) <= s && Calls(c, TreeOf(y, j)) <= s
    requires SubtreeCv(c, x, i) == SubtreeCv(c, y, j)
    ensures x == y && i == j
  {
    CvInjective(c, s, TreeOf(x, i), TreeOf(y, j));
    TreeOfInput(x, i);
    TreeOfInput(y, j);
  }

  /** BLAKE3 is as collision-free as the compressions it makes on the two inputs. */
  lemma HashInjective(c: Compression, s: set<Node>, x: seq<byte>, y: seq<byte>)
    requires NoCollisions(c, s) && HashCalls(c, x) <= s && HashCalls(c, y) <= s
    requires Blake3(c, x) == Blake3(c, y)
    ensures x == y
  {
    var (t, u) := (TreeOf(x, 0), TreeOf(y, 0));
    match (t, u) {
    case (LeafTree(x', _), LeafTree(y', _)) => SameCall(c, s, RootLeaf(x'), RootLeaf(y'));
    case (LeafTree(x', _), NodeTree(l, r)) => SameCall(c, s, RootLeaf(x'), RootParent(Cv(c, l), Cv(c, r)));
    case (NodeTree(l, r), LeafTree(y', _)) => SameCall(c, s, RootParent(Cv(c, l), Cv(c, r)), RootLeaf(y'));
    case (NodeTree(l, r), NodeTree(l', r')) =>
      SameCall(c, s, RootParent(Cv(c, l), Cv(c, r)), RootParent(Cv(c, l'), Cv(c, r')));
      CvInjective(c, s, l, l');
      CvInjective(c, s, r, r');
    }
    TreeOfInput(x, 0);
    TreeOfInput(y, 0);
  }
}
