/** The dataset commitment of the training-step generator
    (scripts/generate_training_test_data.py, build_merkle_tree).

    Differences from the balance generator are kept as written: level 0 holds
    the raw leaves (they are not hashed), padding is the raw value 0, an
    odd-length level would pair its last node with 0, and all proofs are
    returned at once. The SHA-256 placeholder hash is a parameter `h` whose
    only known property is that its output is below 2^251. */
module TrainingMerkle {
  import opened MerkleCore

  /** 2^251, the reduction modulus of the placeholder hash. */
  const HASH_BOUND: int := 3618502788666131106986593281521497120414687020801267626233049500247285301248

  /** The one property of the placeholder hash the model relies on: every
      output is reduced below 2^251. */
  ghost predicate BoundedHash(h: (int, int) -> int)
  {
    forall a, b :: 0 <= h(a, b) < HASH_BOUND
  }

  /** The padded width: the least power of two that is at least n. */
  function PaddedSize(n: nat): nat
  {
    Pow2(CeilLog2(n))
  }

  /** Level 0: the leaves followed by raw zeros up to the padded width. */
  function PaddedLeaves(leaves: seq<int>): seq<int>
  {
    leaves + seq(PaddedSize(|leaves|) - |leaves|, _ => 0)
  }

  /** All levels of the tree, bottom-up. */
  function Tree(h: (int, int) -> int, leaves: seq<int>): seq<seq<int>>
  {
    Levels(h, ZeroFill, PaddedLeaves(leaves))
  }

  /** The sibling recorded at one level for the node at `current`: the entry
      at `current ^ 1`, or 0 when that index is past the end of the level. */
  function SiblingAt(level: seq<int>, current: nat): int
  {
    var s := Xor1(current);
    if s < |level| then level[s] else 0
  }

  /** The sibling list of leaf i over the d lowest levels. */
  function LeafSiblings(tree: seq<seq<int>>, d: nat, i: nat): seq<int>
    requires d < |tree|
  {
    seq(d, k requires 0 <= k < d => SiblingAt(tree[k], Anc(i, k)))
  }

  /** What build_merkle_tree returns: the root, then per original leaf its
      sibling list and its path-index list. */
  datatype TreeOutput = TreeOutput(root: int, siblings: seq<seq<int>>, pathIndices: seq<seq<int>>)

  /** The value build_merkle_tree computes, as a function of its input. */
  function BuildSpec(h: (int, int) -> int, leaves: seq<int>): TreeOutput
  {
    var n := |leaves|;
    var d := CeilLog2(n);
    var tree := Tree(h, leaves);
    LevelsShape(h, ZeroFill, PaddedLeaves(leaves), d);
    TreeOutput(tree[|tree| - 1][0],
               seq(n, i requires 0 <= i < n => LeafSiblings(tree, d, i)),
               seq(n, i requires 0 <= i < n => PathBits(i, d)))
  }

  /** The shape of the tree: depth+1 levels, level 0 is the leaves followed by
      size - n raw zeros, the levels form a perfect tree, and the root is the
      single entry of the last level. */
  lemma TreeShape(h: (int, int) -> int, leaves: seq<int>)
    ensures var d := CeilLog2(|leaves|); var tree := Tree(h, leaves);
      IsTree(h, tree, d) &&
      |tree[0]| == PaddedSize(|leaves|) &&
      tree[0][..|leaves|] == leaves &&
      (forall j :: |leaves| <= j < |tree[0]| ==> tree[0][j] == 0) &&
      |tree[d]| == 1 && BuildSpec(h, leaves).root == tree[d][0]
  {
    var d := CeilLog2(|leaves|);
    LevelsShape(h, ZeroFill, PaddedLeaves(leaves), d);
    assert PaddedLeaves(leaves)[..|leaves|] == leaves;
  }

  /** The `else 0` sibling fallback is never taken: every sibling of an
      original leaf is the entry at the ancestor's index with its low bit
      flipped, so the proof is the tree's membership proof. */
  lemma LeafSiblingsAreTreeSiblings(h: (int, int) -> int, leaves: seq<int>, i: nat)
    requires i < |leaves|
    ensures var d := CeilLog2(|leaves|); var tree := Tree(h, leaves);
      d < |tree| && IsProofFor(tree, d, i, LeafSiblings(tree, d, i), PathBits(i, d))
  {
    var d := CeilLog2(|leaves|);
    var tree := Tree(h, leaves);
    TreeShape(h, leaves);
    var sibs := LeafSiblings(tree, d, i);
    CeilLog2Least(|leaves|, d);
    forall k | 0 <= k < d
      ensures Xor1(Anc(i, k)) < |tree[k]| && sibs[k] == tree[k][Xor1(Anc(i, k))]
    {
      PathNodeInRange(tree, d, i, k);
    }
  }

  /** Round trip: folding leaf i with the proof build_merkle_tree returns for
      it (H(sibling, current) when the path index is 1, H(current, sibling)
      otherwise) gives the returned root. The raw leaf is the start value. */
  lemma {:induction false} RoundTrip(h: (int, int) -> int, leaves: seq<int>, i: nat)
    requires i < |leaves|
    ensures var out := BuildSpec(h, leaves);
      |out.siblings| == |out.pathIndices| == |leaves| &&
      FoldPath(h, leaves[i], out.siblings[i], out.pathIndices[i]) == out.root
  {
    var d := CeilLog2(|leaves|);
    var tree := Tree(h, leaves);
    TreeShape(h, leaves);
    LeafSiblingsAreTreeSiblings(h, leaves, i);
    CeilLog2Least(|leaves|, d);
    FoldProofReachesRoot(h, tree, d, i, LeafSiblings(tree, d, i), PathBits(i, d));
    assert tree[0][i] == leaves[i] by {
      assert tree[0][..|leaves|][i] == tree[0][i];
    }
  }

  /** Exactly one proof per original leaf (none for padding), each with one
      sibling and one path index per level; path index k of leaf i is bit k
      of i, and the path indices read back as i. */
  lemma ProofLengths(h: (int, int) -> int, leaves: seq<int>, i: nat)
    requires i < |leaves|
    ensures var out := BuildSpec(h, leaves); var d := CeilLog2(|leaves|);
      |out.siblings| == |out.pathIndices| == |leaves| &&
      |out.siblings[i]| == d && |out.pathIndices[i]| == d &&
      (forall k :: 0 <= k < d ==> out.pathIndices[i][k] == (i / Pow2(k)) % 2) &&
      FromBits(out.pathIndices[i]) == i
  {
    var d := CeilLog2(|leaves|);
    forall k | 0 <= k < d
      ensures PathBits(i, d)[k] == (i / Pow2(k)) % 2
    {
      AncIsQuotient(i, k);
    }
    CeilLog2Least(|leaves|, d);
    PathBitsEncodeIndex(i, d);
  }

  /** Empty input is not an error: the single padding zero is the root and no
      proofs are returned. */
  lemma EmptyInput(h: (int, int) -> int)
    ensures BuildSpec(h, []) == TreeOutput(0, [], [])
  {
    assert PaddedLeaves([]) == [0];
    assert Tree(h, []) == [[0]];
  }

  /** One leaf: depth 0, the root is the raw leaf (not hashed) and its proof
      is empty. */
  lemma SingleLeaf(h: (int, int) -> int, v: int)
    ensures BuildSpec(h, [v]) == TreeOutput(v, [[]], [[]])
  {
    assert PaddedLeaves([v]) == [v];
    assert Tree(h, [v]) == [[v]];
    assert LeafSiblings([[v]], 0, 0) == [];
    assert PathBits(0, 0) == [];
  }

  /** From two leaves on, the root is a hash output, so it is below 2^251. */
  lemma RootIsDigest(h: (int, int) -> int, leaves: seq<int>)
    requires BoundedHash(h) && |leaves| >= 2
    ensures 0 <= BuildSpec(h, leaves).root < HASH_BOUND
  {
    var d := CeilLog2(|leaves|);
    BuildSpecParts(h, leaves);
    LevelsShape(h, ZeroFill, PaddedLeaves(leaves), d);
    TopIsHashOutput(h, Tree(h, leaves), d);
  }

  lemma TopIsHashOutput(h: (int, int) -> int, tree: seq<seq<int>>, d: nat)
    requires BoundedHash(h) && IsTree(h, tree, d) && d > 0
    ensures |tree[d]| == 1 && 0 <= tree[d][0] < HASH_BOUND
  {
    assert |tree[d]| == Pow2(0);
    assert LinkedAt(h, tree, d - 1);
    var left, right := tree[d - 1][0], tree[d - 1][1];
    assert tree[d][0] == h(left, right);
    assert 0 <= h(left, right) < HASH_BOUND;
  }

  /** build_merkle_tree: size/depth doubling loop, zero padding, level-by-level
      construction, then per original leaf the walk from level 0 to the level
      below the root. */
  method BuildMerkleTree(h: (int, int) -> int, leaves: seq<int>)
    returns (root: int, siblingsList: seq<seq<int>>, indicesList: seq<seq<int>>)
    ensures TreeOutput(root, siblingsList, indicesList) == BuildSpec(h, leaves)
    ensures |siblingsList| == |leaves| && |indicesList| == |leaves|
    ensures forall i :: 0 <= i < |leaves| ==> FoldPath(h, leaves[i], siblingsList[i], indicesList[i]) == root
  {
    var n := |leaves|;
    var depth, size := 0, 1;
    while size < n
      invariant size == Pow2(depth)
      invariant depth == 0 || Pow2(depth - 1) < n
      decreases n - size
    {
      size := size * 2;
      depth := depth + 1;
    }
    CeilLog2Unique(n, depth);

    var padded := leaves + seq(size - n, _ => 0);
    assert padded == PaddedLeaves(leaves);
    var tree := BuildLevels(h, padded);
    assert |tree| == depth + 1 && |tree[depth]| == 1 by {
      LevelsShape(h, ZeroFill, padded, depth);
    }
    root := tree[|tree| - 1][0];

    ghost var expectedSiblings := seq(n, i requires 0 <= i < n => LeafSiblings(tree, depth, i));
    ghost var expectedIndices := seq(n, i requires 0 <= i < n => PathBits(i, depth));
    siblingsList, indicesList := [], [];
    var leafIdx := 0;
    while leafIdx < n
      invariant 0 <= leafIdx <= n
      invariant |siblingsList| == leafIdx && |indicesList| == leafIdx
      invariant siblingsList == expectedSiblings[..leafIdx]
      invariant indicesList == expectedIndices[..leafIdx]
    {
      var siblings, indices := LeafProof(tree, depth, leafIdx);
      siblingsList := siblingsList + [siblings];
      indicesList := indicesList + [indices];
      leafIdx := leafIdx + 1;
    }

    assert TreeOutput(root, siblingsList, indicesList) == BuildSpec(h, leaves) by {
      BuildSpecParts(h, leaves);
    }
    forall i | 0 <= i < n
      ensures FoldPath(h, leaves[i], siblingsList[i], indicesList[i]) == root
    {
      RoundTrip(h, leaves, i);
    }
  }

  /** BuildSpec read component by component. */
  lemma BuildSpecParts(h: (int, int) -> int, leaves: seq<int>)
    ensures var d := CeilLog2(|leaves|); var tree := Tree(h, leaves); var out := BuildSpec(h, leaves);
      |tree| == d + 1 && |tree[d]| == 1 && out.root == tree[d][0] &&
      |out.siblings| == |leaves| && |out.pathIndices| == |leaves| &&
      forall i :: 0 <= i < |leaves| ==> out.siblings[i] == LeafSiblings(tree, d, i) && out.pathIndices[i] == PathBits(i, d)
  {
    LevelsShape(h, ZeroFill, PaddedLeaves(leaves), CeilLog2(|leaves|));
  }

  /** The per-leaf walk of build_merkle_tree: at each level below the root
      record the entry at `current ^ 1` (0 past the end of the level) and
      `current % 2`, then move to the parent. */
  method LeafProof(tree: seq<seq<int>>, depth: nat, leafIdx: nat) returns (siblings: seq<int>, indices: seq<int>)
    requires depth < |tree|
    ensures siblings == LeafSiblings(tree, depth, leafIdx)
    ensures indices == PathBits(leafIdx, depth)
  {
    siblings, indices := [], [];
    var currentIdx := leafIdx;
    var level := 0;
    while level < depth
      invariant 0 <= level <= depth
      invariant currentIdx == Anc(leafIdx, level)
      invariant |siblings| == level && |indices| == level
      invariant forall k {:trigger siblings[k]} :: 0 <= k < level ==> siblings[k] == SiblingAt(tree[k], Anc(leafIdx, k))
      invariant forall k {:trigger indices[k]} :: 0 <= k < level ==> indices[k] == Anc(leafIdx, k) % 2
    {
      var siblingIdx := Xor1(currentIdx);
      var sibling := if siblingIdx < |tree[level]| then tree[level][siblingIdx] else 0;
      siblings := siblings + [sibling];
      indices := indices + [currentIdx % 2];
      currentIdx := currentIdx / 2;
      level := level + 1;
    }
  }

  /** The level loop of build_merkle_tree: starting from the padded leaves,
      keep pairing until a level of one entry remains, appending each level. */
  method BuildLevels(h: (int, int) -> int, padded: seq<int>) returns (tree: seq<seq<int>>)
    ensures tree == Levels(h, ZeroFill, padded)
  {
    tree := [padded];
    var current := padded;
    while |current| > 1
      invariant |tree| >= 1 && tree[|tree| - 1] == current
      invariant tree + Levels(h, ZeroFill, current)[1..] == Levels(h, ZeroFill, padded)
      decreases |current|
    {
      ghost var expected := NextLevel(h, ZeroFill, current);
      var next: seq<int> := [];
      var i := 0;
      while i < |current|
        invariant 0 <= i <= |current| + 1 && i % 2 == 0
        invariant next == expected[..i / 2]
      {
        var left := current[i];
        var right := if i + 1 < |current| then current[i + 1] else 0;
        assert RightOperand(current, i, ZeroFill) == right;
        assert 2 * (i / 2) == i && expected[i / 2] == h(left, right);
        next := next + [h(left, right)];
        i := i + 2;
      }
      assert next == expected;
      LevelsPeel(h, ZeroFill, current);
      assert (tree + [next]) + Levels(h, ZeroFill, next)[1..] == tree + Levels(h, ZeroFill, current)[1..];
      tree := tree + [next];
      current := next;
    }
  }
}
