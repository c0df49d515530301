/** `Block::compute_tx_root` (crates/types/src/block.rs:32-55).

    The reference is a symbolic tree: the root of a list is the digest of the perfect tree over the
    list padded as `Padded` says. The loop is proved to compute it, and equality of roots is then
    decided by equality of padded lists, up to an explicit collision. */
module Merkle {
  import opened Primitives
  import opened Crypto
  import opened Transactions

  datatype Tree = Leaf(tx: Transaction) | Node(left: Tree, right: Tree)

  function NodeDigest(c: Primitive, left: Digest, right: Digest): Digest {
    Sha256(c, left + right)
  }

  function TreeDigest(c: Primitive, t: Tree): Digest {
    match t
    case Leaf(tx) => TxHash(c, tx)
    case Node(l, r) => NodeDigest(c, TreeDigest(c, l), TreeDigest(c, r))
  }

  /** Every string hashed on the way to the digest of `t`. */
  function TreePreimages(c: Primitive, t: Tree): set<Bytes> {
    match t
    case Leaf(tx) => {EncodeTx(tx)}
    case Node(l, r) => {TreeDigest(c, l) + TreeDigest(c, r)} + TreePreimages(c, l) + TreePreimages(c, r)
  }

  // ----- one pass of the loop -----

  function PadOdd<T>(layer: seq<T>): (r: seq<T>)
    ensures |r| % 2 == 0 && layer <= r && |r| <= |layer| + 1
  {
    if |layer| % 2 == 1 then layer + [layer[|layer| - 1]] else layer
  }

  function PairTrees(layer: seq<Tree>): (r: seq<Tree>)
    requires |layer| % 2 == 0
    ensures |r| == |layer| / 2
    ensures forall i :: 0 <= i < |r| ==> r[i] == Node(layer[2 * i], layer[2 * i + 1])
  {
    if layer == [] then []
    else PairTrees(layer[..|layer| - 2]) + [Node(layer[|layer| - 2], layer[|layer| - 1])]
  }

  function Grow(layer: seq<Tree>): Tree
    requires layer != []
    decreases |layer|
  {
    if |layer| == 1 then layer[0] else Grow(PairTrees(PadOdd(layer)))
  }

  function LeafLayer(txs: seq<Transaction>): (r: seq<Tree>)
    ensures |r| == |txs| && forall i :: 0 <= i < |r| ==> r[i] == Leaf(txs[i])
  {
    if txs == [] then [] else LeafLayer(txs[..|txs| - 1]) + [Leaf(txs[|txs| - 1])]
  }

  function TreeOf(txs: seq<Transaction>): Tree
    requires txs != []
  {
    Grow(LeafLayer(txs))
  }

  function TxRoot(c: Primitive, txs: seq<Transaction>): Digest {
    if txs == [] then ZeroDigest() else TreeDigest(c, TreeOf(txs))
  }

  function RootPreimages(c: Primitive, txs: seq<Transaction>): set<Bytes> {
    if txs == [] then {} else TreePreimages(c, TreeOf(txs))
  }

  ghost predicate Digests(c: Primitive, layer: seq<Digest>, trees: seq<Tree>) {
    |layer| == |trees| && forall i :: 0 <= i < |layer| ==> layer[i] == TreeDigest(c, trees[i])
  }

  lemma NodeOfDigests(c: Primitive, l: Tree, r: Tree)
    ensures TreeDigest(c, Node(l, r)) == NodeDigest(c, TreeDigest(c, l), TreeDigest(c, r))
  {}

  /** The body of the loop: `chunks(2)` over an even layer. */
  method HashPairs(c: Primitive, layer: seq<Digest>, ghost trees: seq<Tree>) returns (next: seq<Digest>)
    requires |layer| % 2 == 0 && Digests(c, layer, trees)
    ensures Digests(c, next, PairTrees(trees))
  {
    hide TreeDigest, NodeDigest, PairTrees;
    next := [];
    var i := 0;
    while i < |layer|
      invariant 0 <= i <= |layer| && i % 2 == 0 && |next| == i / 2
      invariant forall j :: 0 <= j < |next| ==> next[j] == TreeDigest(c, PairTrees(trees)[j])
    {
      NodeOfDigests(c, trees[i], trees[i + 1]);
      next := next + [NodeDigest(c, layer[i], layer[i + 1])];
      i := i + 2;
    }
  }

  method HashLeaves(c: Primitive, txs: seq<Transaction>) returns (layer: seq<Digest>)
    ensures Digests(c, layer, LeafLayer(txs))
  {
    layer := [];
    for i := 0 to |txs|
      invariant |layer| == i && forall j :: 0 <= j < i ==> layer[j] == TreeDigest(c, Leaf(txs[j]))
    {
      layer := layer + [TxHash(c, txs[i])];
    }
  }

  lemma DigestsPadOdd(c: Primitive, layer: seq<Digest>, trees: seq<Tree>)
    requires Digests(c, layer, trees)
    ensures Digests(c, PadOdd(layer), PadOdd(trees))
  {
    if |layer| % 2 == 1 {
      assert layer[|layer| - 1] == TreeDigest(c, trees[|trees| - 1]);
    }
  }

  method ComputeTxRoot(c: Primitive, txs: seq<Transaction>) returns (root: Digest)
    ensures root == TxRoot(c, txs)
  {
    if |txs| == 0 {
      return ZeroDigest();
    }
    var layer := HashLeaves(c, txs);
    ghost var trees := LeafLayer(txs);
    while |layer| > 1
      invariant |trees| > 0 && Digests(c, layer, trees)
      invariant Grow(trees) == TreeOf(txs)
      decreases |layer|
    {
      DigestsPadOdd(c, layer, trees);
      if |layer| % 2 == 1 {
        layer := layer + [layer[|layer| - 1]];
      }
      layer := HashPairs(c, layer, PadOdd(trees));
      trees := PairTrees(PadOdd(trees));
    }
    root := layer[0];
  }

  // ----- the tree that comes out: perfect, over the padded list -----

  function Pow2(k: nat): (p: nat)
    ensures p > 0
  {
    if k == 0 then 1 else 2 * Pow2(k - 1)
  }

  /** The number of passes: the logarithm of `n` rounded up. */
  function Depth(n: nat): nat
    requires n > 0
  {
    if n == 1 then 0 else 1 + Depth((n + 1) / 2)
  }

  /** The height of a tree whose leaves are all equally deep. */
  function PerfectHeight(t: Tree): Option<nat> {
    match t
    case Leaf(_) => Some(0)
    case Node(l, r) =>
      var h := PerfectHeight(l);
      if h.Some? && PerfectHeight(r) == h then Some(h.value + 1) else None
  }

  ghost predicate Perfect(t: Tree, k: nat) {
    PerfectHeight(t) == Some(k)
  }

  function Leaves(t: Tree): seq<Transaction> {
    match t
    case Leaf(tx) => [tx]
    case Node(l, r) => Leaves(l) + Leaves(r)
  }

  lemma BlockArithmetic(blocks: nat, size: nat)
    ensures blocks * size + size == (blocks + 1) * size
    ensures blocks % 2 == 0 ==> blocks * size == (blocks / 2) * (2 * size)
  {
    if blocks % 2 == 0 {
      var h := blocks / 2;
      assert blocks == 2 * h;
      assert (2 * h) * size == h * (2 * size);
    }
  }

  /** How many elements there are after one round of padding, in blocks of twice the size. */
  lemma BlocksAfterRound(n: nat, blocks: nat, size: nat)
    requires blocks > 0 && n == blocks * size
    ensures n >= size
    ensures (if blocks % 2 == 1 then n + size else n) == ((blocks + 1) / 2) * (2 * size)
  {
    BlockArithmetic(blocks - 1, size);
    BlockArithmetic(blocks, size);
    BlockArithmetic(blocks + 1, size);
  }

  function PadRound<T>(xs: seq<T>, blocks: nat, size: nat): seq<T>
    requires size <= |xs|
  {
    if blocks % 2 == 1 then xs + xs[|xs| - size..] else xs
  }

  /** `xs` is `blocks` blocks of `size` elements: whenever their number is odd and not one, repeat
      the last block; then count in blocks of twice the size. */
  function PadBlocks<T>(xs: seq<T>, blocks: nat, size: nat): (r: seq<T>)
    requires blocks > 0 && |xs| == blocks * size
    decreases blocks
  {
    if blocks == 1 then xs else
    BlocksAfterRound(|xs|, blocks, size);
    PadBlocks(PadRound(xs, blocks, size), (blocks + 1) / 2, 2 * size)
  }

  /** A list of leaves padded to a power of two. */
  function Padded<T>(xs: seq<T>): (r: seq<T>) {
    if xs == [] then [] else PadBlocks(xs, |xs|, 1)
  }

  lemma PadBlocksStep<T>(xs: seq<T>, blocks: nat, size: nat)
    requires blocks > 1 && |xs| == blocks * size && size <= |xs|
    requires |PadRound(xs, blocks, size)| == ((blocks + 1) / 2) * (2 * size)
    ensures PadBlocks(xs, blocks, size) == PadBlocks(PadRound(xs, blocks, size), (blocks + 1) / 2, 2 * size)
  {}

  lemma {:induction false} PadBlocksShape<T>(xs: seq<T>, blocks: nat, size: nat)
    requires blocks > 0 && |xs| == blocks * size
    ensures var r := PadBlocks(xs, blocks, size);
      xs <= r && |r| == Pow2(Depth(blocks)) * size && forall x :: x in r ==> x in xs
    decreases blocks
  {
    if blocks > 1 {
      hide PadBlocks;
      var half := (blocks + 1) / 2;
      BlocksAfterRound(|xs|, blocks, size);
      PadBlocksStep(xs, blocks, size);
      PadBlocksShape(PadRound(xs, blocks, size), half, 2 * size);
      Regroup(Pow2(Depth(half)), size);
    }
  }

  lemma Regroup(p: nat, size: nat)
    ensures p * (2 * size) == (2 * p) * size
  {}

  /** Padding keeps the list as a prefix, repeats only its own elements, and stops at the least
      power of two that fits. */
  lemma PaddedShape<T>(xs: seq<T>)
    ensures xs <= Padded(xs) && forall x :: x in Padded(xs) ==> x in xs
    ensures xs != [] ==> |Padded(xs)| == Pow2(Depth(|xs|)) && |xs| <= |Padded(xs)| < 2 * |xs|
  {
    if xs != [] {
      PadBlocksShape(xs, |xs|, 1);
      DepthIsCeilLog2(|xs|);
    }
  }

  lemma DepthStep(n: nat)
    requires n > 1
    ensures Pow2(Depth(n)) == 2 * Pow2(Depth((n + 1) / 2))
  {}

  lemma Pow2Parity(k: nat)
    ensures Pow2(k) == if k == 0 then 1 else 2 * Pow2(k - 1)
  {}

  lemma DoublingBounds(n: nat, half: nat, p: nat, q: nat)
    requires n > 1 && half == (n + 1) / 2 && half <= p < 2 * half && (p == 1 || p == 2 * q)
    ensures n <= 2 * p < 2 * n
  {
    assert n == 2 * half || n == 2 * half - 1;
  }

  lemma {:induction false} DepthIsCeilLog2(n: nat)
    requires n > 0
    ensures n <= Pow2(Depth(n)) < 2 * n
  {
    if n == 1 {
      assert Depth(n) == 0 && Pow2(0) == 1;
    } else {
      hide Depth, Pow2;
      var half := (n + 1) / 2;
      var d := Depth(half);
      DepthIsCeilLog2(half);
      DepthStep(n);
      Pow2Parity(d);
      DoublingBounds(n, half, Pow2(d), if d == 0 then 0 else Pow2(d - 1));
    }
  }

  function Flatten(layer: seq<Tree>): seq<Transaction> {
    if layer == [] then [] else Flatten(layer[..|layer| - 1]) + Leaves(layer[|layer| - 1])
  }

  ghost predicate AllPerfect(layer: seq<Tree>, k: nat) {
    forall t :: t in layer ==> Perfect(t, k)
  }

  lemma {:induction false} PerfectSize(t: Tree, k: nat)
    requires Perfect(t, k)
    ensures |Leaves(t)| == Pow2(k)
  {
    if t.Node? {
      PerfectSize(t.left, k - 1);
      PerfectSize(t.right, k - 1);
    }
  }

  lemma {:induction false} FlattenSize(layer: seq<Tree>, k: nat)
    requires AllPerfect(layer, k)
    ensures |Flatten(layer)| == |layer| * Pow2(k)
  {
    if layer != [] {
      FlattenSize(layer[..|layer| - 1], k);
      PerfectSize(layer[|layer| - 1], k);
      BlockArithmetic(|layer| - 1, Pow2(k));
    }
  }

  lemma FlattenLast(layer: seq<Tree>)
    requires layer != []
    ensures Flatten(layer) == Flatten(layer[..|layer| - 1]) + Leaves(layer[|layer| - 1])
  {}

  lemma LeavesOfNode(l: Tree, r: Tree, before: seq<Transaction>)
    ensures before + Leaves(l) + Leaves(r) == before + Leaves(Node(l, r))
  {
    assert Leaves(Node(l, r)) == Leaves(l) + Leaves(r);
  }

  lemma FlattenLastTwo(layer: seq<Tree>)
    requires |layer| >= 2
    ensures var n := |layer|;
      Flatten(layer) == Flatten(layer[..n - 2]) + Leaves(Node(layer[n - 2], layer[n - 1]))
  {
    hide Flatten, Leaves;
    var n, front := |layer|, layer[..|layer| - 1];
    FlattenLast(layer);
    FlattenLast(front);
    assert front[..n - 2] == layer[..n - 2];
    LeavesOfNode(layer[n - 2], layer[n - 1], Flatten(layer[..n - 2]));
  }

  lemma {:induction false} FlattenPairs(layer: seq<Tree>)
    requires |layer| % 2 == 0
    ensures Flatten(PairTrees(layer)) == Flatten(layer)
  {
    if layer != [] {
      var n := |layer|;
      var pairs := PairTrees(layer);
      FlattenPairs(layer[..n - 2]);
      FlattenLastTwo(layer);
      assert pairs[..|pairs| - 1] == PairTrees(layer[..n - 2]);
    }
  }

  lemma PairsPerfect(layer: seq<Tree>, k: nat)
    requires |layer| % 2 == 0 && AllPerfect(layer, k)
    ensures AllPerfect(PairTrees(layer), k + 1)
  {
    hide PerfectHeight;
    forall t | t in PairTrees(layer) ensures Perfect(t, k + 1) {
      var i :| 0 <= i < |layer| / 2 && t == PairTrees(layer)[i];
      assert layer[2 * i] in layer && layer[2 * i + 1] in layer;
      PerfectNode(layer[2 * i], layer[2 * i + 1], k);
    }
  }

  lemma PerfectNode(l: Tree, r: Tree, k: nat)
    requires Perfect(l, k) && Perfect(r, k)
    ensures Perfect(Node(l, r), k + 1)
  {}

  lemma FlattenPadOdd(layer: seq<Tree>, k: nat)
    requires |layer| > 0 && AllPerfect(layer, k)
    ensures |Flatten(layer)| >= Pow2(k)
    ensures var xs := Flatten(layer);
      Flatten(PadOdd(layer)) == if |layer| % 2 == 1 then xs + xs[|xs| - Pow2(k)..] else xs
  {
    var n := |layer|;
    PerfectSize(layer[n - 1], k);
    if n % 2 == 1 {
      assert PadOdd(layer)[..n] == layer;
      assert Flatten(layer)[|Flatten(layer)| - Pow2(k)..] == Leaves(layer[n - 1]);
    }
  }

  lemma GrowBase(layer: seq<Tree>)
    requires |layer| == 1
    ensures Grow(layer) == layer[0] && Depth(|layer|) == 0
  {}

  lemma GrowStep(layer: seq<Tree>, next: seq<Tree>)
    requires |layer| > 1 && next == PairTrees(PadOdd(layer))
    ensures |next| == (|layer| + 1) / 2
    ensures Grow(layer) == Grow(next) && Depth(|layer|) == 1 + Depth(|next|)
  {}

  lemma {:induction false} GrowPerfect(layer: seq<Tree>, k: nat)
    requires |layer| > 0 && AllPerfect(layer, k)
    ensures Perfect(Grow(layer), Depth(|layer|) + k)
    decreases |layer|
  {
    hide Perfect, Grow, Depth;
    if |layer| == 1 {
      GrowBase(layer);
    } else {
      var next := PairTrees(PadOdd(layer));
      GrowStep(layer, next);
      PairsPerfect(PadOdd(layer), k);
      GrowPerfect(next, k + 1);
    }
  }

  lemma LeavesOfOne(layer: seq<Tree>, size: nat)
    requires |layer| == 1 && |Flatten(layer)| == size
    ensures Flatten(layer) == Leaves(Grow(layer)) && PadBlocks(Flatten(layer), 1, size) == Flatten(layer)
  {
    assert layer[..0] == [];
  }

  lemma {:induction false} GrowLeaves(layer: seq<Tree>, k: nat)
    requires |layer| > 0 && AllPerfect(layer, k)
    ensures |Flatten(layer)| == |layer| * Pow2(k)
    ensures Leaves(Grow(layer)) == PadBlocks(Flatten(layer), |layer|, Pow2(k))
    decreases |layer|
  {
    hide Grow, Leaves, Flatten, PadBlocks, Pow2, Depth, AllPerfect;
    FlattenSize(layer, k);
    if |layer| == 1 {
      LeavesOfOne(layer, Pow2(k));
    } else {
      var next := PairTrees(PadOdd(layer));
      FlattenPadOdd(layer, k);
      FlattenPairs(PadOdd(layer));
      PadOddPerfect(layer, k);
      PairsPerfect(PadOdd(layer), k);
      GrowLeaves(next, k + 1);
      GrowStep(layer, next);
      Pow2Parity(k + 1);
      BlocksAfterRound(|Flatten(layer)|, |layer|, Pow2(k));
      PadBlocksStep(Flatten(layer), |layer|, Pow2(k));
    }
  }

  lemma PadOddPerfect(layer: seq<Tree>, k: nat)
    requires |layer| > 0 && AllPerfect(layer, k)
    ensures AllPerfect(PadOdd(layer), k)
  {
    hide Perfect;
  }

  lemma LeafLayerPerfect(txs: seq<Transaction>)
    ensures AllPerfect(LeafLayer(txs), 0)
  {
    forall t | t in LeafLayer(txs) ensures Perfect(t, 0) {
      var i :| 0 <= i < |txs| && t == LeafLayer(txs)[i];
    }
  }

  lemma {:induction false} FlattenLeafLayer(txs: seq<Transaction>)
    ensures Flatten(LeafLayer(txs)) == txs
  {
    if txs != [] {
      FlattenLeafLayer(txs[..|txs| - 1]);
      assert LeafLayer(txs)[..|txs| - 1] == LeafLayer(txs[..|txs| - 1]);
    }
  }

  lemma TreeOfPerfect(txs: seq<Transaction>)
    requires txs != []
    ensures Perfect(TreeOf(txs), Depth(|txs|))
  {
    hide Perfect, Grow, Depth, LeafLayer;
    LeafLayerPerfect(txs);
    GrowPerfect(LeafLayer(txs), 0);
  }

  lemma TreeOfLeaves(txs: seq<Transaction>)
    requires txs != []
    ensures Leaves(TreeOf(txs)) == Padded(txs)
  {
    hide Grow, LeafLayer, Flatten, Depth;
    LeafLayerPerfect(txs);
    FlattenLeafLayer(txs);
    GrowLeaves(LeafLayer(txs), 0);
    assert Pow2(0) == 1;
  }

  /** The loop builds the perfect tree over the padded list. */
  lemma TreeOfPadded(txs: seq<Transaction>)
    requires txs != []
    ensures Perfect(TreeOf(txs), Depth(|txs|))
    ensures Leaves(TreeOf(txs)) == Padded(txs)
  {
    TreeOfPerfect(txs);
    TreeOfLeaves(txs);
  }

  lemma {:induction false} Pow2Monotone(j: nat, k: nat)
    requires j <= k
    ensures Pow2(j) <= Pow2(k)
  {
    if j < k {
      Pow2Monotone(j, k - 1);
    }
  }

  lemma PaddedPowerOf2(xs: seq<Transaction>, k: nat)
    requires |xs| == Pow2(k)
    ensures Padded(xs) == xs && Depth(|xs|) == k
  {
    hide Depth, Padded;
    PaddedShape(xs);
    var d := Depth(|xs|);
    if d < k {
      Pow2Monotone(d + 1, k);
    } else if d > k {
      Pow2Monotone(k + 1, d);
    }
  }

  /** A perfect tree is the tree of its leaves. */
  lemma TreeOfLeavesOf(t: Tree, k: nat)
    requires Perfect(t, k)
    ensures Leaves(t) != [] && TreeOf(Leaves(t)) == t
  {
    hide Depth, Padded, Grow, LeafLayer;
    PerfectSize(t, k);
    PaddedPowerOf2(Leaves(t), k);
    TreeOfPadded(Leaves(t));
    PerfectTreesEqual(TreeOf(Leaves(t)), t, k, k);
  }

  lemma NodeByHalves(t: Tree, d: nat)
    requires Perfect(t, d) && |Leaves(t)| > 1
    ensures d > 0 && t.Node? && Perfect(t.left, d - 1) && Perfect(t.right, d - 1)
    ensures var p := Leaves(t); Leaves(t.left) == p[..|p| / 2] && Leaves(t.right) == p[|p| / 2..]
  {
    if t.Node? {
      PerfectSize(t.left, d - 1);
      PerfectSize(t.right, d - 1);
      assert Leaves(t) == Leaves(t.left) + Leaves(t.right);
    }
  }

  lemma RootOfOne(c: Primitive, txs: seq<Transaction>)
    requires |txs| == 1
    ensures TxRoot(c, txs) == c.sha256(EncodeTx(txs[0]))
  {
    hide EncodeTx, Grow;
    GrowBase(LeafLayer(txs));
  }

  lemma RootOfMany(c: Primitive, txs: seq<Transaction>)
    requires |txs| > 1
    ensures var p := Padded(txs); TxRoot(c, txs) == c.sha256(TxRoot(c, p[..|p| / 2]) + TxRoot(c, p[|p| / 2..]))
  {
    hide Depth, Padded, LeafLayer, Grow, Pow2, TreeDigest, Leaves, PerfectHeight;
    var t, d := TreeOf(txs), Depth(|txs|);
    TreeOfPadded(txs);
    PaddedShape(txs);
    NodeByHalves(t, d);
    TreeOfLeavesOf(t.left, d - 1);
    TreeOfLeavesOf(t.right, d - 1);
    NodeOfDigests(c, t.left, t.right);
  }

  /** The root by itself, without a tree: zero for nothing, the hash of the encoding for one transaction,
      and otherwise the hash of the roots of the two halves of the padded list. */
  lemma RootByHalves(c: Primitive, txs: seq<Transaction>)
    ensures txs == [] ==> forall i :: 0 <= i < 32 ==> TxRoot(c, txs)[i] == 0
    ensures |txs| == 1 ==> TxRoot(c, txs) == c.sha256(EncodeTx(txs[0]))
    ensures |txs| > 1 ==>
      var p := Padded(txs); TxRoot(c, txs) == c.sha256(TxRoot(c, p[..|p| / 2]) + TxRoot(c, p[|p| / 2..]))
  {
    hide Padded, EncodeTx, TreeDigest, TreeOf;
    if txs == [] {
      ZerosAreZero(32);
    } else if |txs| == 1 {
      RootOfOne(c, txs);
    } else {
      RootOfMany(c, txs);
    }
  }

  // ----- what a root binds -----

  lemma {:induction false} PerfectTreesEqual(s: Tree, t: Tree, j: nat, k: nat)
    requires Perfect(s, j) && Perfect(t, k) && Leaves(s) == Leaves(t)
    ensures s == t
  {
    PerfectSize(s, j);
    PerfectSize(t, k);
    Pow2Injective(j, k);
    if s.Node? {
      PerfectSize(s.left, j - 1);
      PerfectSize(t.left, k - 1);
      assert Leaves(s.left) == Leaves(s)[..Pow2(j - 1)] && Leaves(s.right) == Leaves(s)[Pow2(j - 1)..];
      assert Leaves(t.left) == Leaves(t)[..Pow2(j - 1)] && Leaves(t.right) == Leaves(t)[Pow2(j - 1)..];
      PerfectTreesEqual(s.left, t.left, j - 1, k - 1);
      PerfectTreesEqual(s.right, t.right, j - 1, k - 1);
    }
  }

  lemma {:induction false} Pow2Injective(j: nat, k: nat)
    requires Pow2(j) == Pow2(k)
    ensures j == k
  {
    if j > 0 && k > 0 {
      Pow2Injective(j - 1, k - 1);
    }
  }

  /** A leaf preimage (81 or 145 bytes) never equals a node preimage (64 bytes), so equal digests of
      different trees exhibit a collision. */
  lemma {:induction false} TreeDigestBinds(c: Primitive, s: Tree, t: Tree)
    requires TreeDigest(c, s) == TreeDigest(c, t)
    ensures s == t || Collides(c, TreePreimages(c, s) + TreePreimages(c, t))
  {
    var all := TreePreimages(c, s) + TreePreimages(c, t);
    var x := if s.Leaf? then EncodeTx(s.tx) else TreeDigest(c, s.left) + TreeDigest(c, s.right);
    var y := if t.Leaf? then EncodeTx(t.tx) else TreeDigest(c, t.left) + TreeDigest(c, t.right);
    assert x in all && y in all && Sha256(c, x) == Sha256(c, y);
    if x == y {
      if s.Leaf? && t.Leaf? {
        EncodeTxInjective(s.tx, t.tx);
      } else if s.Node? && t.Node? {
        assert TreeDigest(c, s.left) == x[..32] == y[..32] == TreeDigest(c, t.left);
        assert TreeDigest(c, s.right) == x[32..] == y[32..] == TreeDigest(c, t.right);
        TreeDigestBinds(c, s.left, t.left);
        TreeDigestBinds(c, s.right, t.right);
        CollidesMonotone(c, TreePreimages(c, s.left) + TreePreimages(c, t.left), all);
        CollidesMonotone(c, TreePreimages(c, s.right) + TreePreimages(c, t.right), all);
      }
    }
  }

  lemma NonEmptyRootHitsZero(c: Primitive, txs: seq<Transaction>)
    requires txs != [] && TxRoot(c, txs) == ZeroDigest()
    ensures HitsZero(c, RootPreimages(c, txs))
  {
    var t := TreeOf(txs);
    var x := if t.Leaf? then EncodeTx(t.tx) else TreeDigest(c, t.left) + TreeDigest(c, t.right);
    assert x in TreePreimages(c, t) && Sha256(c, x) == ZeroDigest();
  }

  /** Exactly which lists share a root: those that pad to the same list. */
  lemma RootsEqualIffPaddedEqual(c: Primitive, a: seq<Transaction>, b: seq<Transaction>)
    ensures Padded(a) == Padded(b) ==> TxRoot(c, a) == TxRoot(c, b)
    ensures TxRoot(c, a) == TxRoot(c, b) ==>
      Padded(a) == Padded(b) || Broken(c, RootPreimages(c, a) + RootPreimages(c, b))
  {
    var all := RootPreimages(c, a) + RootPreimages(c, b);
    PaddedShape(a);
    PaddedShape(b);
    if a != [] && b != [] {
      TreeOfPadded(a);
      TreeOfPadded(b);
      if Padded(a) == Padded(b) {
        PerfectTreesEqual(TreeOf(a), TreeOf(b), Depth(|a|), Depth(|b|));
      } else if TxRoot(c, a) == TxRoot(c, b) {
        TreeDigestBinds(c, TreeOf(a), TreeOf(b));
      }
    } else if a != [] && TxRoot(c, a) == TxRoot(c, b) {
      NonEmptyRootHitsZero(c, a);
      CollidesMonotone(c, RootPreimages(c, a), all);
    } else if b != [] && TxRoot(c, a) == TxRoot(c, b) {
      NonEmptyRootHitsZero(c, b);
      CollidesMonotone(c, RootPreimages(c, b), all);
    }
  }

  /** Among lists of one length a root determines the list. */
  lemma RootBindsEqualLengths(c: Primitive, a: seq<Transaction>, b: seq<Transaction>)
    requires |a| == |b| && TxRoot(c, a) == TxRoot(c, b)
    ensures a == b || Collides(c, RootPreimages(c, a) + RootPreimages(c, b))
  {
    if a != [] {
      TreeOfPadded(a);
      TreeOfPadded(b);
      TreeDigestBinds(c, TreeOf(a), TreeOf(b));
      PaddedShape(a);
      PaddedShape(b);
      if Padded(a) == Padded(b) {
        assert a == Padded(a)[..|a|] == Padded(b)[..|b|] == b;
      }
    }
  }

  lemma RepeatBeyondPrefix<T>(a: seq<T>, b: seq<T>)
    requires Padded(a) == Padded(b) && |a| < |b|
    ensures !Distinct(b)
  {
    PaddedShape(a);
    PaddedShape(b);
    var x := Padded(b)[|a|];
    assert x in Padded(b) && x == b[|a|];
    var i :| 0 <= i < |a| && a[i] == x;
    assert b[i] == Padded(b)[i] == Padded(a)[i];
  }

  /** Among duplicate-free lists of any lengths a root determines the list. */
  lemma RootBindsDistinct(c: Primitive, a: seq<Transaction>, b: seq<Transaction>)
    requires Distinct(a) && Distinct(b) && TxRoot(c, a) == TxRoot(c, b)
    ensures a == b || Broken(c, RootPreimages(c, a) + RootPreimages(c, b))
  {
    RootsEqualIffPaddedEqual(c, a, b);
    if Padded(a) == Padded(b) {
      if |a| < |b| {
        RepeatBeyondPrefix(a, b);
      } else if |b| < |a| {
        RepeatBeyondPrefix(b, a);
      }
      PaddedShape(a);
      PaddedShape(b);
      assert a == Padded(a)[..|a|] == Padded(b)[..|b|] == b;
    }
  }

  /** Without duplicate-freedom a root does not determine the list. */
  lemma OddListSharesRoot(c: Primitive, x: Transaction, y: Transaction, z: Transaction)
    ensures TxRoot(c, [x, y, z]) == TxRoot(c, [x, y, z, z])
  {
    var a, b := [x, y, z], [x, y, z, z];
    assert a + a[2..] == b;
    assert Padded(a) == PadBlocks(b, 2, 2) == PadBlocks(b, 1, 4) == b;
    assert Padded(b) == PadBlocks(b, 2, 2);
    RootsEqualIffPaddedEqual(c, a, b);
  }
}
