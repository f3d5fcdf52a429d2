/** The dataset commitment of the balance-proof generator
    (scripts/generate_balance_test_data.py): the mock Poseidon hash, the
    MerkleTree class and verify_merkle_proof.

    Differences from the training generator are kept as written: every leaf
    is hashed with hash_single, padding is hash_single(0), an odd-length level
    would pair its last node with itself, and proofs are produced one index at
    a time, with Python's list indexing (negative indices count from the end). */
module BalanceMerkle {
  import opened MerkleCore

  /** The scalar-field prime of BN254, the modulus of the mock hash. */
  const PRIME: int := 21888242871839275222246405745257275088548364400416034343698204186575808495617

  /** Python's sum over a list of integers. */
  function Sum(xs: seq<int>): int
  {
    if xs == [] then 0 else xs[0] + Sum(xs[1..])
  }

  /** The mock Poseidon hash: an affine map of the sum of the inputs, reduced
      modulo PRIME (Python's % and Dafny's agree for a positive modulus). */
  function PoseidonMock(inputs: seq<int>): (r: int)
    ensures 0 <= r < PRIME
  {
    (Sum(inputs) * 1234567 + 987654321) % PRIME
  }

  /** Leaf hash. */
  function HashSingle(value: int): (r: int)
    ensures 0 <= r < PRIME
  {
    PoseidonMock([value])
  }

  /** Internal-node hash, left argument first. */
  function HashPair(left: int, right: int): (r: int)
    ensures 0 <= r < PRIME
  {
    PoseidonMock([left, right])
  }

  /** The mock depends only on the sum of its inputs. */
  lemma MockDependsOnlyOnSum(a: seq<int>, b: seq<int>)
    requires Sum(a) == Sum(b)
    ensures PoseidonMock(a) == PoseidonMock(b)
  {
  }

  /** Hence the pair hash ignores the order of its arguments ... */
  lemma HashPairSymmetric(left: int, right: int)
    ensures HashPair(left, right) == HashPair(right, left)
  {
    MockDependsOnlyOnSum([left, right], [right, left]);
  }

  /** ... and a leaf hash is the pair hash with 0. */
  lemma HashSingleIsPairWithZero(value: int)
    ensures HashSingle(value) == HashPair(value, 0)
  {
    assert Sum([value, 0]) == value + Sum([0]) by {
      assert [value, 0][1..] == [0];
    }
    MockDependsOnlyOnSum([value], [value, 0]);
  }

  /** The multiplicative inverse of the mock's multiplier 1234567 modulo PRIME:
      1234567 * MULTIPLIER_INVERSE == 1 + 1147821 * PRIME. */
  const MULTIPLIER_INVERSE: int := 20350280561036726823958595757805733305209577264295848630668093694096497867874

  /** The affine map inside the mock is invertible modulo PRIME: equal outputs
      come from congruent sums. */
  lemma MockAffineInjective(a: int, b: int)
    requires (a * 1234567 + 987654321) % PRIME == (b * 1234567 + 987654321) % PRIME
    ensures a % PRIME == b % PRIME
  {
    var x, y := a * 1234567 + 987654321, b * 1234567 + 987654321;
    var q := x / PRIME - y / PRIME;
    assert (a - b) * 1234567 == PRIME * q;
    assert 1234567 * MULTIPLIER_INVERSE == 1 + 1147821 * PRIME;
    var m := q * MULTIPLIER_INVERSE - (a - b) * 1147821;
    assert a - b == PRIME * m;
    CongruentByMultiple(a, b, m);
  }

  /** Numbers that differ by a multiple of PRIME have the same residue. */
  lemma CongruentByMultiple(a: int, b: int, m: int)
    requires a - b == PRIME * m
    ensures a % PRIME == b % PRIME
  {
    DivUnique(a, PRIME, b / PRIME + m, b % PRIME);
  }

  /** Two leaf hashes agree exactly when the values agree modulo PRIME. */
  lemma HashSingleInjective(v: int, w: int)
    ensures HashSingle(v) == HashSingle(w) <==> v % PRIME == w % PRIME
  {
    assert Sum([v]) == v && Sum([w]) == w;
    if v % PRIME == w % PRIME {
      var m := v / PRIME - w / PRIME;
      assert v * 1234567 + 987654321 - (w * 1234567 + 987654321) == PRIME * (m * 1234567);
      CongruentByMultiple(v * 1234567 + 987654321, w * 1234567 + 987654321, m * 1234567);
    }
    if HashSingle(v) == HashSingle(w) {
      MockAffineInjective(v, w);
    }
  }

  /** The sum of a two-element list. */
  lemma SumPair(a: int, b: int)
    ensures Sum([a, b]) == a + b
  {
    assert [b][1..] == [];
    assert Sum([b]) == b;
    assert [a, b][1..] == [b];
  }

  /** A pair hash with a fixed sibling determines the other argument modulo PRIME. */
  lemma HashPairCancel(x: int, y: int, s: int)
    ensures HashPair(x, s) == HashPair(y, s) ==> x % PRIME == y % PRIME
  {
    if HashPair(x, s) == HashPair(y, s) {
      SumPair(x, s);
      SumPair(y, s);
      MockAffineInjective(x + s, y + s);
      CongruentByMultiple(x, y, (x + s) / PRIME - (y + s) / PRIME);
    }
  }

  /** Folding the same proof from two hash values in the field gives the same
      result only if the two values are equal. */
  lemma {:induction false} FoldInjective(x: int, y: int, siblings: seq<int>, bits: seq<int>)
    requires 0 <= x < PRIME && 0 <= y < PRIME
    ensures FoldPath(HashPair, x, siblings, bits) == FoldPath(HashPair, y, siblings, bits) ==> x == y
    decreases |siblings|
  {
    if |siblings| > 0 && |bits| > 0 {
      var s := siblings[0];
      var px := if bits[0] != 0 then HashPair(s, x) else HashPair(x, s);
      var py := if bits[0] != 0 then HashPair(s, y) else HashPair(y, s);
      FoldInjective(px, py, siblings[1..], bits[1..]);
      HashPairSymmetric(s, x);
      HashPairSymmetric(s, y);
      HashPairCancel(x, y, s);
    }
  }

  datatype Option<T> = None | Some(value: T)

  /** Python's `s[i]`: negative indices count from the end; None stands for
      the IndexError Python raises outside -len(s) .. len(s)-1. */
  function PyIndex(s: seq<int>, i: int): (r: Option<int>)
    ensures r.Some? <==> -|s| <= i < |s|
    ensures r.Some? ==> r.value in s
  {
    if 0 <= i < |s| then Some(s[i])
    else if -|s| <= i < 0 then Some(s[|s| + i])
    else None
  }

  /** A negative index reads what the index one length higher reads. */
  lemma PyIndexWraps(s: seq<int>, i: int)
    requires -|s| <= i < 0
    ensures PyIndex(s, i) == PyIndex(s, i + |s|)
  {
  }

  /** The two exceptions get_proof can raise. */
  datatype ProofError = ValueError | IndexError

  /** What get_proof returns: (siblings, pathIndices). */
  datatype Proof = Proof(siblings: seq<int>, pathIndices: seq<int>)

  datatype ProofResult = Ok(proof: Proof) | Err(error: ProofError)

  /** Level 0 of the tree: hash_single of every leaf, padded with
      hash_single(0) up to 2^depth entries. */
  function LeafHashes(leaves: seq<int>): seq<int>
  {
    var padded := Pow2(CeilLog2(|leaves|));
    seq(padded, i requires 0 <= i < padded => if i < |leaves| then HashSingle(leaves[i]) else HashSingle(0))
  }

  /** All levels of the tree, bottom-up, as _build_tree builds them from the
      leaf hashes. */
  function Tree(leaves: seq<int>): seq<seq<int>>
  {
    Levels(HashPair, DuplicateLast, LeafHashes(leaves))
  }

  /** What the constructor establishes about its fields: `tree` is a perfect
      tree of hash_pair over the padded leaf hashes, of depth ceil(log2 n). */
  predicate BuiltFrom(tree: seq<seq<int>>, depth: nat, leaves: seq<int>)
  {
    depth == CeilLog2(|leaves|) && IsTree(HashPair, tree, depth) && tree[0] == LeafHashes(leaves)
  }

  /** `tree[-1][0]`. */
  function Root(leaves: seq<int>): int
  {
    var t := Tree(leaves);
    LevelsShape(HashPair, DuplicateLast, LeafHashes(leaves), CeilLog2(|leaves|));
    t[|t| - 1][0]
  }

  /** Prefixes already-recorded steps to the rest of a walk. */
  function Prepend(siblings: seq<int>, bits: seq<int>, rest: ProofResult): ProofResult
  {
    match rest
    case Ok(p) => Ok(Proof(siblings + p.siblings, bits + p.pathIndices))
    case Err(e) => Err(e)
  }

  /** The loop of get_proof from `level` up to `depth`, at node `current`:
      record `current % 2`, fetch the neighbour `current - 1` (right child) or
      `current + 1` (left child), or the node itself when the neighbour is past
      the end of the level, then move to `current // 2`. */
  function Walk(tree: seq<seq<int>>, level: nat, depth: nat, current: int): ProofResult
    requires level <= depth < |tree|
    decreases depth - level
  {
    if level == depth then Ok(Proof([], []))
    else
      match Fetch(tree[level], current)
      case None => Err(IndexError)
      case Some(v) => Prepend([v], [current % 2], Walk(tree, level + 1, depth, current / 2))
  }

  /** The sibling fetch of one get_proof step. */
  function Fetch(row: seq<int>, current: int): Option<int>
  {
    var siblingIndex := if current % 2 != 0 then current - 1 else current + 1;
    if siblingIndex < |row| then PyIndex(row, siblingIndex) else PyIndex(row, current)
  }

  /** get_proof(index) on an object whose fields are tree, depth and n. */
  function GetProofOn(tree: seq<seq<int>>, depth: nat, n: nat, index: int): ProofResult
    requires depth < |tree|
  {
    if index >= n then Err(ValueError) else Walk(tree, 0, depth, index)
  }

  /** get_proof(index) on MerkleTree(leaves). */
  function GetProofSpec(leaves: seq<int>, index: int): ProofResult
  {
    LevelsShape(HashPair, DuplicateLast, LeafHashes(leaves), CeilLog2(|leaves|));
    GetProofOn(Tree(leaves), CeilLog2(|leaves|), |leaves|, index)
  }

  /** verify_merkle_proof as a function: fold hash_single(leaf) up the
      (sibling, is_right) pairs and compare with the root. */
  function ProofVerifies(leafValue: int, siblings: seq<int>, pathIndices: seq<int>, root: int): bool
  {
    FoldPath(HashPair, HashSingle(leafValue), siblings, pathIndices) == root
  }

  /** The tree built over n leaves: depth+1 levels, level k of width
      padded_n / 2^k, parents are hash_pair of their children, the root is the
      single top entry and is a field element. Level 0 hashes the real leaves
      and pads with hash_single(0). */
  lemma TreeShape(leaves: seq<int>)
    ensures var d := CeilLog2(|leaves|); var t := Tree(leaves);
      |leaves| <= Pow2(d) && BuiltFrom(t, d, leaves) &&
      (forall i :: 0 <= i < |leaves| ==> t[0][i] == HashSingle(leaves[i])) &&
      (forall i :: |leaves| <= i < Pow2(d) ==> t[0][i] == HashSingle(0)) &&
      |t[d]| == 1 && Root(leaves) == t[d][0] && 0 <= Root(leaves) < PRIME
  {
    var d := CeilLog2(|leaves|);
    var t := Tree(leaves);
    LevelsShape(HashPair, DuplicateLast, LeafHashes(leaves), d);
    assert |t[d]| == Pow2(0);
    if d > 0 {
      assert LinkedAt(HashPair, t, d - 1);
      var left, right := t[d - 1][0], t[d - 1][1];
      assert t[d][0] == HashPair(left, right);
    } else {
      assert t[d][0] == LeafHashes(leaves)[0];
    }
  }

  /** One step of the walk at a node whose XOR-1 neighbour exists: the
      neighbour is fetched, and the low bit recorded. */
  lemma WalkStep(tree: seq<seq<int>>, k: nat, d: nat, c: int)
    requires k < d < |tree| && 0 <= Xor1(c) < |tree[k]|
    ensures var rest := Walk(tree, k + 1, d, c / 2);
      if rest.Ok? then
        Walk(tree, k, d, c) == Ok(Proof([tree[k][Xor1(c)]] + rest.proof.siblings, [c % 2] + rest.proof.pathIndices))
      else Walk(tree, k, d, c) == rest
  {
    assert (if c % 2 != 0 then c - 1 else c + 1) == Xor1(c);
    assert Fetch(tree[k], c) == Some(tree[k][Xor1(c)]);
  }

  /** The entry at index j of a row, or 0 when there is none. */
  function Entry(row: seq<int>, j: int): int
  {
    if 0 <= j < |row| then row[j] else 0
  }

  /** Reference path of slot i from level k up to the root: at each level
      the XOR-1 neighbour of its ancestor there, and the ancestor's low bit. */
  function PathFrom(tree: seq<seq<int>>, d: nat, i: nat, k: nat): (p: Proof)
    requires k <= d < |tree|
    ensures |p.siblings| == d - k && |p.pathIndices| == d - k
    decreases d - k
  {
    if k == d then Proof([], [])
    else
      var rest := PathFrom(tree, d, i, k + 1);
      Proof([Entry(tree[k], Xor1(Anc(i, k)))] + rest.siblings, [Anc(i, k) % 2] + rest.pathIndices)
  }

  /** Entry m - k of the reference path from level k belongs to level m. */
  lemma {:induction false} PathFromAt(tree: seq<seq<int>>, d: nat, i: nat, k: nat, m: nat)
    requires k <= m < d < |tree|
    ensures PathFrom(tree, d, i, k).siblings[m - k] == Entry(tree[m], Xor1(Anc(i, m)))
    ensures PathFrom(tree, d, i, k).pathIndices[m - k] == Anc(i, m) % 2
    decreases m - k
  {
    var p, rest := PathFrom(tree, d, i, k), PathFrom(tree, d, i, k + 1);
    assert p.siblings == [Entry(tree[k], Xor1(Anc(i, k)))] + rest.siblings;
    assert p.pathIndices == [Anc(i, k) % 2] + rest.pathIndices;
    if k < m {
      PathFromAt(tree, d, i, k + 1, m);
      assert p.siblings[m - k] == rest.siblings[m - (k + 1)];
      assert p.pathIndices[m - k] == rest.pathIndices[m - (k + 1)];
    }
  }

  /** Along the path of slot i, every neighbour index exists (every level of
      a perfect tree above the root has even width), so the walk never fails
      and follows the reference path: the "same if at boundary" fallback is
      never taken. */
  lemma {:induction false} WalkFollowsPath(tree: seq<seq<int>>, d: nat, i: nat, k: nat)
    requires IsShaped(tree, d) && i < Pow2(d) && k <= d
    ensures Walk(tree, k, d, Anc(i, k)) == Ok(PathFrom(tree, d, i, k))
    decreases d - k
  {
    if k < d {
      var a := Anc(i, k);
      PathNodeInRange(tree, d, i, k);
      WalkStep(tree, k, d, a);
      assert Anc(i, k + 1) == a / 2;
      WalkFollowsPath(tree, d, i, k + 1);
    }
  }

  /** The walk from slot i is the proof IsProofFor describes. */
  lemma WalkIsProof(tree: seq<seq<int>>, d: nat, i: nat)
    requires IsShaped(tree, d) && i < Pow2(d)
    ensures var r := Walk(tree, 0, d, i);
      r.Ok? && IsProofFor(tree, d, i, r.proof.siblings, r.proof.pathIndices)
  {
    WalkFollowsPath(tree, d, i, 0);
    var p := PathFrom(tree, d, i, 0);
    forall j | 0 <= j < d
      ensures Xor1(Anc(i, j)) < |tree[j]| && p.siblings[j] == tree[j][Xor1(Anc(i, j))]
      ensures p.pathIndices[j] == PathBits(i, d)[j]
    {
      PathNodeInRange(tree, d, i, j);
      PathFromAt(tree, d, i, 0, j);
    }
    assert p.pathIndices == PathBits(i, d);
  }

  /** The walk itself only ever fails with an IndexError. */
  lemma {:induction false} WalkNeverValueError(tree: seq<seq<int>>, level: nat, depth: nat, current: int)
    requires level <= depth < |tree|
    ensures Walk(tree, level, depth, current) != Err(ValueError)
    decreases depth - level
  {
    if level < depth {
      WalkNeverValueError(tree, level + 1, depth, current / 2);
    }
  }

  /** get_proof raises ValueError exactly for index >= n. For a real leaf
      (0 <= index < n <= 2^depth) it returns the leaf's membership proof: one
      sibling and one path index per level, path index k being bit k of the
      index. */
  lemma GetProofOutcome(tree: seq<seq<int>>, d: nat, n: nat, index: int)
    requires IsShaped(tree, d) && n <= Pow2(d)
    ensures (GetProofOn(tree, d, n, index) == Err(ValueError)) <==> index >= n
    ensures 0 <= index < n ==>
      var r := GetProofOn(tree, d, n, index);
      r.Ok? && IsProofFor(tree, d, index, r.proof.siblings, r.proof.pathIndices) &&
      |r.proof.siblings| == d && |r.proof.pathIndices| == d &&
      forall k :: 0 <= k < d ==> r.proof.pathIndices[k] == (index / Pow2(k)) % 2
  {
    if index < n {
      WalkNeverValueError(tree, 0, d, index);
    }
    if 0 <= index < n {
      WalkIsProof(tree, d, index);
      forall k | 0 <= k < d
        ensures PathBits(index, d)[k] == (index / Pow2(k)) % 2
      {
        AncIsQuotient(index, k);
      }
    }
  }

  /** For every real leaf of a built tree, the proof get_proof returns is
      accepted by verify_merkle_proof against the top entry. */
  lemma ProofVerifiesOn(tree: seq<seq<int>>, d: nat, leaves: seq<int>, i: nat)
    requires BuiltFrom(tree, d, leaves) && i < |leaves|
    ensures GetProofOn(tree, d, |leaves|, i).Ok?
    ensures var p := GetProofOn(tree, d, |leaves|, i).proof;
      ProofVerifies(leaves[i], p.siblings, p.pathIndices, tree[d][0])
  {
    GetProofOutcome(tree, d, |leaves|, i);
    var p := GetProofOn(tree, d, |leaves|, i).proof;
    assert tree[0][i] == HashSingle(leaves[i]);
    FoldProofReachesRoot(HashPair, tree, d, i, p.siblings, p.pathIndices);
  }

  /** Round trip: for every real leaf of MerkleTree(leaves),
      verify_merkle_proof accepts the proof get_proof returns against the
      root. */
  lemma RoundTrip(leaves: seq<int>, i: nat)
    requires i < |leaves|
    ensures GetProofSpec(leaves, i).Ok?
    ensures var p := GetProofSpec(leaves, i).proof;
      |p.siblings| == CeilLog2(|leaves|) && |p.pathIndices| == CeilLog2(|leaves|) &&
      ProofVerifies(leaves[i], p.siblings, p.pathIndices, Root(leaves))
  {
    TreeShape(leaves);
    ProofVerifiesOn(Tree(leaves), CeilLog2(|leaves|), leaves, i);
    GetProofOutcome(Tree(leaves), CeilLog2(|leaves|), |leaves|, i);
  }

  /** The proof of leaf i verifies for a claimed leaf value exactly when that
      value agrees with leaves[i] modulo PRIME: the mock's affine step is
      invertible, so a proof replayed against any other value is rejected. */
  lemma ProofVerifiesExactly(leaves: seq<int>, i: nat, v: int)
    requires i < |leaves|
    ensures GetProofSpec(leaves, i).Ok?
    ensures var p := GetProofSpec(leaves, i).proof;
      ProofVerifies(v, p.siblings, p.pathIndices, Root(leaves)) <==> v % PRIME == leaves[i] % PRIME
  {
    TreeShape(leaves);
    CheckedProofSound(Tree(leaves), CeilLog2(|leaves|), leaves, i, v);
  }

  /** A negative index within -padded_n .. -1 is taken by Python's list
      indexing as counting from the end, level by level, so get_proof returns
      the walk of slot index + padded_n (a padding slot when that is >= n),
      and exactly the proof of leaf index + padded_n when that is a real leaf. */
  lemma NegativeIndexWraps(tree: seq<seq<int>>, d: nat, n: nat, index: int)
    requires IsShaped(tree, d) && index < 0 && 0 <= index + Pow2(d)
    ensures GetProofOn(tree, d, n, index) == Walk(tree, 0, d, index + Pow2(d))
    ensures index + Pow2(d) < n ==> GetProofOn(tree, d, n, index) == GetProofOn(tree, d, n, index + Pow2(d))
  {
    WalkWraps(tree, d, 0, index);
  }

  /** Below -padded_n, a walk of at least one level raises IndexError. */
  lemma NegativeIndexOutOfRange(tree: seq<seq<int>>, d: nat, n: nat, index: int)
    requires IsShaped(tree, d) && d > 0 && index + Pow2(d) < 0
    ensures GetProofOn(tree, d, n, index) == Err(IndexError)
  {
    WalkBelowRange(tree, d, index);
  }

  /** At level 0 of a tree of depth at least 1, a node index below -width has
      no neighbour Python can fetch. */
  lemma WalkBelowRange(tree: seq<seq<int>>, d: nat, c: int)
    requires IsShaped(tree, d) && d > 0 && c + |tree[0]| < 0
    ensures Walk(tree, 0, d, c) == Err(IndexError)
  {
    var width := |tree[0]|;
    assert width == 2 * Pow2(d - 1);
    var siblingIndex := if c % 2 != 0 then c - 1 else c + 1;
    assert siblingIndex < -width;
    assert Fetch(tree[0], c) == None;
  }

  /** With depth 0 (at most one leaf) any negative index gets the empty proof. */
  lemma NegativeIndexAtDepthZero(tree: seq<seq<int>>, n: nat, index: int)
    requires 0 < |tree| && index < 0
    ensures GetProofOn(tree, 0, n, index) == Ok(Proof([], []))
  {
  }

  lemma {:induction false} WalkWraps(tree: seq<seq<int>>, d: nat, k: nat, c: int)
    requires IsShaped(tree, d) && k <= d
    requires -|tree[k]| <= c < 0
    ensures Walk(tree, k, d, c) == Walk(tree, k, d, c + |tree[k]|)
    decreases d - k
  {
    if k < d {
      WidthDoubles(tree, d, k);
      HalfShift(c, |tree[k + 1]|);
      FetchWraps(tree[k], c);
      WalkWraps(tree, d, k + 1, c / 2);
    }
  }

  /** Each level of a perfect tree is twice as wide as the one above it. */
  lemma WidthDoubles(tree: seq<seq<int>>, d: nat, k: nat)
    requires IsShaped(tree, d) && k < d
    ensures |tree[k]| == 2 * |tree[k + 1]|
  {
    assert |tree[k + 1]| == Pow2(d - k - 1);
  }

  /** Halving commutes with a shift by an even width. */
  lemma HalfShift(c: int, h: int)
    requires -2 * h <= c < 0
    ensures (c + 2 * h) % 2 == c % 2 && (c + 2 * h) / 2 == c / 2 + h && -h <= c / 2 < 0
  {
  }

  /** On a row of even width, a negative index fetches what the index one
      width higher fetches. */
  lemma FetchWraps(row: seq<int>, c: int)
    requires |row| % 2 == 0 && -|row| <= c < 0
    ensures Fetch(row, c) == Fetch(row, c + |row|)
  {
    if c % 2 != 0 {
      assert -|row| <= c - 1;
    } else {
      assert c + |row| + 1 < |row|;
    }
  }

  /** The walk from a padding slot is a valid proof that the slot holds the
      value 0, since padding is hash_single(0). */
  lemma PaddingSlotProvesZero(tree: seq<seq<int>>, d: nat, leaves: seq<int>, slot: nat)
    requires BuiltFrom(tree, d, leaves) && |leaves| <= slot < Pow2(d)
    ensures Walk(tree, 0, d, slot).Ok?
    ensures var p := Walk(tree, 0, d, slot).proof;
      ProofVerifies(0, p.siblings, p.pathIndices, tree[d][0])
  {
    WalkIsProof(tree, d, slot);
    var p := Walk(tree, 0, d, slot).proof;
    assert tree[0][slot] == HashSingle(0);
    FoldProofReachesRoot(HashPair, tree, d, slot, p.siblings, p.pathIndices);
  }

  /** As written, get_proof's guard lets index -1 through whenever n is not a
      power of two: the proof returned is that of the last padding slot, and
      verify_merkle_proof accepts it for the leaf value 0, whether or not any
      leaf is 0 (ProofVerifiesExactly: no real leaf's proof does that unless
      that leaf is 0 modulo PRIME). */
  lemma NegativeIndexForgesZero(tree: seq<seq<int>>, d: nat, leaves: seq<int>)
    requires BuiltFrom(tree, d, leaves) && |leaves| < Pow2(d)
    ensures GetProofOn(tree, d, |leaves|, -1).Ok?
    ensures var p := GetProofOn(tree, d, |leaves|, -1).proof;
      ProofVerifies(0, p.siblings, p.pathIndices, tree[d][0])
  {
    NegativeIndexWraps(tree, d, |leaves|, -1);
    PaddingSlotProvesZero(tree, d, leaves, Pow2(d) - 1);
  }

  /** get_proof with the range check its error message describes: indices
      outside 0 .. n - 1, negative ones included, raise ValueError. */
  function GetProofChecked(tree: seq<seq<int>>, depth: nat, n: nat, index: int): ProofResult
    requires depth < |tree|
  {
    if index < 0 || index >= n then Err(ValueError) else Walk(tree, 0, depth, index)
  }

  /** The input [1, 1, 1, 1, 1]: n = 5 is padded to 8, get_proof(-1) returns
      a proof that verifies for the value 0, and no real leaf's proof does. */
  lemma FiveOnesForgery(leaves: seq<int>, index: int)
    requires leaves == [1, 1, 1, 1, 1] && index == -1
    ensures GetProofSpec(leaves, index).Ok?
    ensures var p := GetProofSpec(leaves, index).proof;
      ProofVerifies(0, p.siblings, p.pathIndices, Root(leaves))
    ensures forall i :: 0 <= i < |leaves| ==>
      GetProofSpec(leaves, i).Ok? &&
      !ProofVerifies(0, GetProofSpec(leaves, i).proof.siblings, GetProofSpec(leaves, i).proof.pathIndices, Root(leaves))
  {
    CeilLog2Unique(5, 3);
    TreeShape(leaves);
    NegativeIndexForgesZero(Tree(leaves), 3, leaves);
    forall i | 0 <= i < |leaves|
      ensures GetProofSpec(leaves, i).Ok?
      ensures !ProofVerifies(0, GetProofSpec(leaves, i).proof.siblings, GetProofSpec(leaves, i).proof.pathIndices, Root(leaves))
    {
      assert leaves[i] == 1;
      ProofVerifiesExactly(leaves, i, 0);
    }
  }

  /** With the full range check, a proof is produced exactly for the real
      leaves, and it verifies exactly for the value of that leaf (modulo
      PRIME): no index proves membership of a value the tree does not hold
      there. */
  lemma CheckedProofSound(tree: seq<seq<int>>, d: nat, leaves: seq<int>, index: int, v: int)
    requires BuiltFrom(tree, d, leaves)
    ensures GetProofChecked(tree, d, |leaves|, index).Ok? <==> 0 <= index < |leaves|
    ensures GetProofChecked(tree, d, |leaves|, index).Err? ==> GetProofChecked(tree, d, |leaves|, index).error == ValueError
    ensures var r := GetProofChecked(tree, d, |leaves|, index);
      r.Ok? ==> (ProofVerifies(v, r.proof.siblings, r.proof.pathIndices, tree[d][0]) <==> v % PRIME == leaves[index] % PRIME)
  {
    if 0 <= index < |leaves| {
      GetProofOutcome(tree, d, |leaves|, index);
      ProofVerifiesOn(tree, d, leaves, index);
      var p := GetProofOn(tree, d, |leaves|, index).proof;
      HashSingleInjective(v, leaves[index]);
      if ProofVerifies(v, p.siblings, p.pathIndices, tree[d][0]) {
        FoldInjective(HashSingle(v), HashSingle(leaves[index]), p.siblings, p.pathIndices);
      }
    }
  }

  /** A tree built by the constructor: its fields never change afterwards. */
  class MerkleTree {
    const leaves: seq<int>
    const n: nat
    const depth: nat
    const paddedN: nat
    const leafHashes: seq<int>
    const tree: seq<seq<int>>
    const root: int

    ghost predicate Valid()
    {
      n == |leaves| && paddedN == Pow2(depth) && leafHashes == LeafHashes(leaves) &&
      BuiltFrom(tree, depth, leaves) && root == tree[depth][0]
    }

    /** __init__: the halving loop for depth, 2^depth padded width, the leaf
        hashes padded with hash_single(0), the levels, and the root. */
    constructor (leaves: seq<int>)
      ensures Valid() && this.leaves == leaves
      ensures tree == Tree(leaves) && root == Root(leaves)
    {
      var count := |leaves|;
      var d := 0;
      var temp: nat := count;
      while temp > 1
        invariant d + CeilLog2(temp) == CeilLog2(count)
        decreases temp
      {
        temp := (temp + 1) / 2;
        d := d + 1;
      }
      var padded := Pow2(d);
      var hashes := seq(count, i requires 0 <= i < count => HashSingle(leaves[i]));
      ghost var expected := LeafHashes(leaves);
      while |hashes| < padded
        invariant count <= |hashes| <= padded
        invariant hashes == expected[..|hashes|]
        decreases padded - |hashes|
      {
        hashes := hashes + [HashSingle(0)];
      }
      assert hashes == expected;
      var levels := BuildTree(hashes);
      TreeShape(leaves);
      this.leaves := leaves;
      n := count;
      depth := d;
      paddedN := padded;
      leafHashes := hashes;
      tree := levels;
      root := levels[|levels| - 1][0];
    }

    /** _build_tree: starting from the given level, keep pairing (the last
        node with itself on an odd-length level) until one entry remains. */
    static method BuildTree(level0: seq<int>) returns (levels: seq<seq<int>>)
      ensures levels == Levels(HashPair, DuplicateLast, level0)
    {
      levels := [level0];
      var current := level0;
      while |current| > 1
        invariant |levels| >= 1 && levels[|levels| - 1] == current
        invariant levels + Levels(HashPair, DuplicateLast, current)[1..] == Levels(HashPair, DuplicateLast, level0)
        decreases |current|
      {
        ghost var expected := NextLevel(HashPair, DuplicateLast, current);
        var next: seq<int> := [];
        var i := 0;
        while i < |current|
          invariant 0 <= i <= |current| + 1 && i % 2 == 0
          invariant next == expected[..i / 2]
        {
          var left := current[i];
          var right := if i + 1 < |current| then current[i + 1] else current[i];
          assert RightOperand(current, i, DuplicateLast) == right;
          assert 2 * (i / 2) == i && expected[i / 2] == HashPair(left, right);
          next := next + [HashPair(left, right)];
          i := i + 2;
        }
        assert next == expected;
        LevelsPeel(HashPair, DuplicateLast, current);
        assert (levels + [next]) + Levels(HashPair, DuplicateLast, next)[1..]
            == levels + Levels(HashPair, DuplicateLast, current)[1..];
        levels := levels + [next];
        current := next;
      }
    }

    /** get_proof: raises ValueError for index >= n, otherwise walks from
        the index to the level below the root. For a real leaf the proof it
        returns verifies against the root. */
    method GetProof(index: int) returns (r: ProofResult)
      requires Valid()
      ensures r == GetProofOn(tree, depth, n, index)
      ensures (r == Err(ValueError)) <==> index >= n
      ensures 0 <= index < n ==>
        r.Ok? && ProofVerifies(leaves[index], r.proof.siblings, r.proof.pathIndices, root)
    {
      if index >= n {
        GetProofContract(tree, depth, leaves, index);
        return Err(ValueError);
      }
      var siblings: seq<int> := [];
      var pathIndices: seq<int> := [];
      var currentIndex := index;
      var level := 0;
      while level < depth
        invariant 0 <= level <= depth
        invariant Walk(tree, 0, depth, index) == Prepend(siblings, pathIndices, Walk(tree, level, depth, currentIndex))
      {
        ghost var recorded := pathIndices;
        var isRight := currentIndex % 2;
        pathIndices := pathIndices + [isRight];
        var siblingIndex := if isRight != 0 then currentIndex - 1 else currentIndex + 1;
        var fetched := if siblingIndex < |tree[level]| then PyIndex(tree[level], siblingIndex)
                       else PyIndex(tree[level], currentIndex);
        if fetched.None? {
          assert Walk(tree, level, depth, currentIndex) == Err(IndexError);
          GetProofContract(tree, depth, leaves, index);
          return Err(IndexError);
        }
        ghost var rest := Walk(tree, level + 1, depth, currentIndex / 2);
        assert Walk(tree, level, depth, currentIndex) == Prepend([fetched.value], [isRight], rest);
        PrependTwice(siblings, recorded, [fetched.value], [isRight], rest);
        siblings := siblings + [fetched.value];
        currentIndex := currentIndex / 2;
        level := level + 1;
      }
      r := Ok(Proof(siblings, pathIndices));
      GetProofContract(tree, depth, leaves, index);
    }
  }

  /** The contract of get_proof on a built tree. */
  lemma GetProofContract(tree: seq<seq<int>>, d: nat, leaves: seq<int>, index: int)
    requires BuiltFrom(tree, d, leaves)
    ensures (GetProofOn(tree, d, |leaves|, index) == Err(ValueError)) <==> index >= |leaves|
    ensures 0 <= index < |leaves| ==>
      GetProofOn(tree, d, |leaves|, index).Ok? &&
      ProofVerifies(leaves[index], GetProofOn(tree, d, |leaves|, index).proof.siblings,
        GetProofOn(tree, d, |leaves|, index).proof.pathIndices, tree[d][0])
  {
    GetProofOutcome(tree, d, |leaves|, index);
    if 0 <= index < |leaves| {
      ProofVerifiesOn(tree, d, leaves, index);
    }
  }

  /** Recording two groups of steps one after the other. */
  lemma PrependTwice(s1: seq<int>, b1: seq<int>, s2: seq<int>, b2: seq<int>, rest: ProofResult)
    ensures Prepend(s1, b1, Prepend(s2, b2, rest)) == Prepend(s1 + s2, b1 + b2, rest)
  {
    if rest.Ok? {
      assert s1 + (s2 + rest.proof.siblings) == (s1 + s2) + rest.proof.siblings;
      assert b1 + (b2 + rest.proof.pathIndices) == (b1 + b2) + rest.proof.pathIndices;
    }
  }

  /** verify_merkle_proof: hash the leaf, then for each (sibling, is_right)
      pair of zip(siblings, path_indices) put the sibling on the left when
      is_right is non-zero and on the right otherwise; accept iff the result
      is the root. */
  method VerifyMerkleProof(leafValue: int, siblings: seq<int>, pathIndices: seq<int>, root: int) returns (ok: bool)
    ensures ok == ProofVerifies(leafValue, siblings, pathIndices, root)
  {
    var currentHash := HashSingle(leafValue);
    var steps := if |siblings| < |pathIndices| then |siblings| else |pathIndices|;
    var k := 0;
    while k < steps
      invariant 0 <= k <= steps
      invariant FoldPath(HashPair, currentHash, siblings[k..], pathIndices[k..])
             == FoldPath(HashPair, HashSingle(leafValue), siblings, pathIndices)
    {
      assert siblings[k..][1..] == siblings[k + 1..];
      assert pathIndices[k..][1..] == pathIndices[k + 1..];
      if pathIndices[k] != 0 {
        currentHash := HashPair(siblings[k], currentHash);
      } else {
        currentHash := HashPair(currentHash, siblings[k]);
      }
      k := k + 1;
    }
    ok := currentHash == root;
  }

  /** With the mock hash, verification cannot detect a flipped direction bit:
      the pair hash is symmetric, so any two direction lists of the same
      length give the same verdict. */
  lemma {:induction false} VerifyIgnoresPathBits(current: int, siblings: seq<int>, bits1: seq<int>, bits2: seq<int>)
    requires |bits1| == |bits2|
    ensures FoldPath(HashPair, current, siblings, bits1) == FoldPath(HashPair, current, siblings, bits2)
    decreases |siblings|
  {
    if |siblings| > 0 && |bits1| > 0 {
      HashPairSymmetric(siblings[0], current);
      VerifyIgnoresPathBits(HashPair(current, siblings[0]), siblings[1..], bits1[1..], bits2[1..]);
    }
  }

  /** With empty lists verification reduces to hash_single(leaf) == root,
      which is the one-leaf tree's root: [v] gives depth 0, root
      hash_single(v), an empty proof for index 0, and that proof verifies. */
  lemma SingleLeaf(v: int)
    ensures CeilLog2(1) == 0 && Root([v]) == HashSingle(v)
    ensures GetProofSpec([v], 0) == Ok(Proof([], []))
    ensures ProofVerifies(v, [], [], Root([v]))
    ensures forall root :: ProofVerifies(v, [], [], root) <==> root == HashSingle(v)
  {
    assert LeafHashes([v]) == [HashSingle(v)];
    assert Tree([v]) == [[HashSingle(v)]];
  }

  /** The script's own check: the eight labels [0, 1, 1, 0, 1, 1, 1, 0] give a
      tree of depth 3, and the proof of every label verifies against the root. */
  lemma TestLabelsVerify()
    ensures var labels := [0, 1, 1, 0, 1, 1, 1, 0];
      CeilLog2(|labels|) == 3 &&
      forall i :: 0 <= i < |labels| ==>
        GetProofSpec(labels, i).Ok? &&
        |GetProofSpec(labels, i).proof.siblings| == 3 &&
        ProofVerifies(labels[i], GetProofSpec(labels, i).proof.siblings,
          GetProofSpec(labels, i).proof.pathIndices, Root(labels))
  {
    var labels := [0, 1, 1, 0, 1, 1, 1, 0];
    CeilLog2Unique(8, 3);
    forall i | 0 <= i < |labels|
      ensures GetProofSpec(labels, i).Ok? && |GetProofSpec(labels, i).proof.siblings| == 3
      ensures ProofVerifies(labels[i], GetProofSpec(labels, i).proof.siblings,
          GetProofSpec(labels, i).proof.pathIndices, Root(labels))
    {
      RoundTrip(labels, i);
    }
  }

  /** On the same labels, a proof replayed against a label of the other value
      (index 2's proof with index 3's label, say) is rejected. */
  lemma TestLabelsReplay()
    ensures var labels := [0, 1, 1, 0, 1, 1, 1, 0];
      forall i, j :: 0 <= i < |labels| && 0 <= j < |labels| && labels[i] != labels[j] ==>
        GetProofSpec(labels, i).Ok? &&
        !ProofVerifies(labels[j], GetProofSpec(labels, i).proof.siblings,
          GetProofSpec(labels, i).proof.pathIndices, Root(labels))
  {
    var labels := [0, 1, 1, 0, 1, 1, 1, 0];
    assert forall k :: 0 <= k < |labels| ==> labels[k] == 0 || labels[k] == 1;
    forall i, j | 0 <= i < |labels| && 0 <= j < |labels| && labels[i] != labels[j]
      ensures GetProofSpec(labels, i).Ok?
      ensures !ProofVerifies(labels[j], GetProofSpec(labels, i).proof.siblings,
          GetProofSpec(labels, i).proof.pathIndices, Root(labels))
    {
      ReplayRejected(labels, i, j);
    }
  }

  /** A proof replayed against another leaf whose value differs as a field
      element does not verify. */
  lemma ReplayRejected(leaves: seq<int>, i: nat, j: nat)
    requires i < |leaves| && j < |leaves| && 0 <= leaves[i] < PRIME && 0 <= leaves[j] < PRIME
    requires leaves[i] != leaves[j]
    ensures GetProofSpec(leaves, i).Ok?
    ensures !ProofVerifies(leaves[j], GetProofSpec(leaves, i).proof.siblings,
      GetProofSpec(leaves, i).proof.pathIndices, Root(leaves))
  {
    var a, b := leaves[i], leaves[j];
    assert a % PRIME == a && b % PRIME == b;
    ProofVerifiesExactly(leaves, i, b);
  }
}
