# Binary Merkle commitment engine

A Dafny model of the binary Merkle tree used by the project's two fixture
generators. Its properties are proved for all inputs. The engine appears in
two versions, and each is modelled as its script writes it:

- `scripts/generate_balance_test_data.py` (module `BalanceMerkle`):
  - the mock Poseidon hash `(sum * 1234567 + 987654321) mod P`, where P is
    the BN254 scalar-field prime, with `hash_single` and `hash_pair` built on it;
  - the class `MerkleTree`: the depth loop, padding with `hash_single(0)` up
    to `2^depth`, `_build_tree` with its duplicate-self fallback, and `get_proof`.
    `get_proof` raises `ValueError` for `index >= n` and uses Python list
    indexing, so negative indices count from the end;
  - `verify_merkle_proof`, a `zip` fold up the path.
- `scripts/generate_training_test_data.py` (module `TrainingMerkle`):
  - `build_merkle_tree`: the `size`/`depth` doubling loop, padding with raw
    zeros (leaves are not hashed), levels whose odd-length fallback is `0`,
    and the proofs of all leaves built in one call;
  - the SHA-256-based hash is a parameter `h`. Only where a bound matters is
    it assumed to give values in `[0, 2^251)`.

`MerkleCore` (merkle_core.dfy) holds what the two share:
- `CeilLog2` and powers of two;
- the index arithmetic: `Xor1` for `^ 1`, and `Anc(i, k)` for `i // 2` done
  k times;
- level construction `Levels`, with an `OddPolicy` parameter that selects
  the fallback each script writes;
- the fold `FoldPath`, and the predicates `IsShaped`, `IsTree` and
  `IsProofFor`.

The main results:
- Round trip: for every index `0 <= i < n`, in both versions, the proof
  of leaf i verifies against the root. In the balance version that means
  `verify_merkle_proof(leaves[i], *get_proof(i), root)`. The balance
  `get_proof` also answers negative indices; see "## Findings" for what
  those proofs do.
- Depth and proofs: the depth is ceil(log2 n), the levels halve in width, and
  proofs have length `depth`. `pathIndices[k]` is bit k of the leaf index,
  and `siblings[k]` is the level-k entry at `ancestor XOR 1`.
- The defensive fallbacks are never taken: both odd-level fallbacks and both
  "sibling out of range" branches.
- Training edge cases: empty input gives root 0 and no proofs; one leaf gives
  that leaf as the root.
- `get_proof` raises `ValueError` exactly when `index >= n`.
- With the mock hash, for every `0 <= i < n`, the proof of leaf i verifies
  for a value v exactly when v agrees with `leaves[i]` modulo P
  (`ProofVerifiesExactly`). For negative indices see "## Findings".

Methods are proved against specification functions. For example,
`MerkleTree.GetProof` returns exactly `GetProofOn(tree, depth, n, index)`: a
recursive `Walk` that mirrors the loop. The properties are then lemmas about
those functions.

## Model

| member | source | states |
|---|---|---|
| BalanceMerkle.PoseidonMock | scripts/generate_balance_test_data.py:10-19 | the mock hash is a field element: 0 <= result < PRIME |
| BalanceMerkle.HashSingle | scripts/generate_balance_test_data.py:21-23 | a leaf hash is a field element |
| BalanceMerkle.HashPair | scripts/generate_balance_test_data.py:25-27 | a pair hash is a field element |
| BalanceMerkle.Sum | scripts/generate_balance_test_data.py:18 | definition of `sum(inputs)`, the only way the mock reads its inputs (used by MockDependsOnlyOnSum and SumPair) |
| BalanceMerkle.MockDependsOnlyOnSum | scripts/generate_balance_test_data.py:16-19 | inputs with equal sums hash alike |
| BalanceMerkle.HashPairSymmetric | scripts/generate_balance_test_data.py:25-27 | hash_pair(l, r) == hash_pair(r, l) |
| BalanceMerkle.HashSingleIsPairWithZero | scripts/generate_balance_test_data.py:21-27 | hash_single(v) == hash_pair(v, 0) |
| BalanceMerkle.MockAffineInjective | scripts/generate_balance_test_data.py:18-19 | equal mock outputs imply congruent sums modulo PRIME, since 1234567 is invertible modulo PRIME |
| BalanceMerkle.HashSingleInjective | scripts/generate_balance_test_data.py:21-23 | hash_single(v) == hash_single(w) iff v and w agree modulo PRIME (both directions) |
| BalanceMerkle.HashPairCancel | scripts/generate_balance_test_data.py:25-27 | with one argument fixed, equal pair hashes force the other arguments to agree modulo PRIME |
| BalanceMerkle.FoldInjective | scripts/generate_balance_test_data.py:178-184 | folding one proof from two field elements reaches the same value only if they are equal |
| BalanceMerkle.PyIndex | scripts/generate_balance_test_data.py:97-100 | Python list indexing: a value exactly when -len <= i < len (otherwise the IndexError), and that value is an element of the list |
| BalanceMerkle.PyIndexWraps | scripts/generate_balance_test_data.py:97-100 | a negative index -len <= i < 0 reads the same element as i + len |
| BalanceMerkle.LeafHashes | scripts/generate_balance_test_data.py:42-50 | definition: hash_single of each leaf, then hash_single(0) up to 2 ** depth slots (its shape is proved in TreeShape) |
| BalanceMerkle.Tree | scripts/generate_balance_test_data.py:53-71 | definition: the levels built from the leaf hashes with hash_pair, duplicating a lone last entry (shape proved in TreeShape) |
| BalanceMerkle.Root | scripts/generate_balance_test_data.py:54 | definition: `tree[-1][0]`, the one entry of the top level (TreeShape proves that level has width 1) |
| BalanceMerkle.Walk | scripts/generate_balance_test_data.py:81-107 | definition of the get_proof loop from a given level: record `current % 2` and the fetched sibling, then halve; an IndexError from a fetch ends the walk (lemmas WalkFollowsPath, WalkIsProof, WalkWraps) |
| BalanceMerkle.Fetch | scripts/generate_balance_test_data.py:90-100 | definition of one sibling fetch: the neighbour index by parity, or the current slot when the neighbour is past the end, both read with Python indexing (lemmas WalkStep, FetchWraps) |
| BalanceMerkle.GetProofOn | scripts/generate_balance_test_data.py:78-79 | definition of get_proof on the built fields: ValueError when index >= n, otherwise the walk from level 0 (lemmas GetProofOutcome, GetProofContract) |
| BalanceMerkle.GetProofSpec | scripts/generate_balance_test_data.py:32-107 | definition: `MerkleTree(leaves).get_proof(index)`, i.e. get_proof on the fields the constructor builds (lemmas GetProofOutcome, RoundTrip, ProofVerifiesExactly, FiveOnesForgery) |
| BalanceMerkle.ProofVerifies | scripts/generate_balance_test_data.py:172-186 | definition of verify_merkle_proof: fold the proof over the leaf hash and compare with the root (lemmas RoundTrip, ProofVerifiesExactly) |
| BalanceMerkle.TreeShape | scripts/generate_balance_test_data.py:36-54 | the built tree: depth ceil(log2 n) with n <= 2^depth; a perfect hash_pair tree; level 0 is hash_single of each leaf, then hash_single(0); the top level has one entry, which is the root, a field element |
| BalanceMerkle.WalkStep | scripts/generate_balance_test_data.py:85-105 | one get_proof step where the XOR-1 neighbour exists records that neighbour and the low bit, then continues from index // 2 |
| BalanceMerkle.PathFrom | scripts/generate_balance_test_data.py:85-105 | the reference path from level k has one sibling and one bit per level left to the root |
| BalanceMerkle.PathFromAt | scripts/generate_balance_test_data.py:85-105 | entry m - k of that path is the level-m entry at Anc(i, m) XOR 1, with bit Anc(i, m) % 2 |
| BalanceMerkle.WalkFollowsPath | scripts/generate_balance_test_data.py:96-100 | on a perfect tree the walk from a slot succeeds and equals the reference path, so the "same if at boundary" fallback is never taken |
| BalanceMerkle.WalkIsProof | scripts/generate_balance_test_data.py:85-105 | the walk from any slot below 2^depth is a proof in the sense of IsProofFor |
| BalanceMerkle.WalkNeverValueError | scripts/generate_balance_test_data.py:85-107 | the walk itself never produces ValueError |
| BalanceMerkle.GetProofOutcome | scripts/generate_balance_test_data.py:78-107 | ValueError iff index >= n; for 0 <= index < n, a proof with siblings[k] at the XOR-1 neighbour, both lists of length depth, and pathIndices[k] == (index / 2^k) % 2 |
| BalanceMerkle.ProofVerifiesOn | scripts/generate_balance_test_data.py:73-107 | on a tree built from the leaves, the proof of a real leaf verifies against the top entry |
| BalanceMerkle.RoundTrip | scripts/generate_balance_test_data.py:172-186 | verify_merkle_proof(leaves[i], *get_proof(i), root) holds for every i < n, and both lists have length ceil(log2 n) |
| BalanceMerkle.ProofVerifiesExactly | scripts/generate_balance_test_data.py:172-186 | the proof of leaf i verifies for a value v iff v agrees with leaves[i] modulo PRIME (both directions) |
| BalanceMerkle.ReplayRejected | scripts/generate_balance_test_data.py:172-186 | a proof replayed against another leaf of a different field value is rejected |
| BalanceMerkle.NegativeIndexWraps | scripts/generate_balance_test_data.py:78-105 | a negative index down to -2^depth passes the guard and gives the walk of slot index + 2^depth, which for a real leaf is that leaf's proof |
| BalanceMerkle.NegativeIndexOutOfRange | scripts/generate_balance_test_data.py:97-100 | an index below -2^depth on a tree of depth > 0 ends in IndexError |
| BalanceMerkle.WalkBelowRange | scripts/generate_balance_test_data.py:97-100 | the same at the walk level: the first list access raises IndexError |
| BalanceMerkle.NegativeIndexAtDepthZero | scripts/generate_balance_test_data.py:78-85 | at depth 0 any negative index returns two empty lists |
| BalanceMerkle.WalkWraps | scripts/generate_balance_test_data.py:85-105 | from level k, an index in -width .. -1 walks exactly as index + width does |
| BalanceMerkle.WidthDoubles | scripts/generate_balance_test_data.py:56-71 | each level is twice as wide as the level above it |
| BalanceMerkle.FetchWraps | scripts/generate_balance_test_data.py:90-100 | on an even-width level, the sibling fetch at a negative index equals the fetch at index + width |
| BalanceMerkle.PaddingSlotProvesZero | scripts/generate_balance_test_data.py:46-50 | the walk from a padding slot is a valid proof for the leaf value 0 |
| BalanceMerkle.NegativeIndexForgesZero | scripts/generate_balance_test_data.py:78-79 | as written, when n is not a power of two, get_proof(-1) succeeds and its proof verifies for the value 0 |
| BalanceMerkle.FiveOnesForgery | scripts/generate_balance_test_data.py:78-107 | for leaves [1, 1, 1, 1, 1], get_proof(-1) verifies for 0, and no real leaf's proof does |
| BalanceMerkle.GetProofChecked | scripts/generate_balance_test_data.py:78-79 | corrected get_proof: the guard also rejects index < 0 (its property is proved in CheckedProofSound) |
| BalanceMerkle.CheckedProofSound | scripts/generate_balance_test_data.py:78-79 | with the guard `index < 0 or index >= n`, a proof is produced iff 0 <= index < n, and it verifies for v iff v agrees with that leaf modulo PRIME |
| BalanceMerkle.MerkleTree.constructor | scripts/generate_balance_test_data.py:32-54 | the fields satisfy Valid: n == len(leaves), padded_n == 2^depth, leaf_hashes and tree as specified, and root is the top entry |
| BalanceMerkle.MerkleTree.BuildTree | scripts/generate_balance_test_data.py:56-71 | the loop builds the levels of Levels(hash_pair, duplicate-last) |
| BalanceMerkle.MerkleTree.GetProof | scripts/generate_balance_test_data.py:73-107 | the result is the walk specification; ValueError iff index >= n; for a real leaf the result verifies against root |
| BalanceMerkle.GetProofContract | scripts/generate_balance_test_data.py:78-107 | ValueError iff index >= n, and real-leaf proofs verify, on any tree the constructor builds |
| BalanceMerkle.VerifyMerkleProof | scripts/generate_balance_test_data.py:172-186 | the loop's verdict is exactly the fold of hash_single(leaf) along zip(siblings, path_indices) compared with root |
| BalanceMerkle.VerifyIgnoresPathBits | scripts/generate_balance_test_data.py:178-184 | with the symmetric mock, any two direction lists of the same length give the same fold |
| BalanceMerkle.SingleLeaf | scripts/generate_balance_test_data.py:32-54 | [v] gives depth 0 and root hash_single(v); get_proof(0) is two empty lists; verify with empty lists holds iff root == hash_single(v) |
| BalanceMerkle.TestLabelsVerify | scripts/generate_balance_test_data.py:188-214 | for the labels [0,1,1,0,1,1,1,0], depth is 3 and the proof of every label verifies |
| BalanceMerkle.TestLabelsReplay | scripts/generate_balance_test_data.py:188-214 | for the same labels, every proof replayed against a label of the other value is rejected |
| TrainingMerkle.TreeShape | scripts/generate_training_test_data.py:60-85 | depth ceil(log2 n); a perfect h-tree; level 0 is the leaves followed by raw zeros up to size; the top level has one entry, the root |
| TrainingMerkle.PaddedSize | scripts/generate_training_test_data.py:62-66 | definition: `size` from the doubling loop, 2 ** CeilLog2(n) (CeilLog2Unique and CeilLog2Least prove it is the least power of two that is at least n) |
| TrainingMerkle.Tree | scripts/generate_training_test_data.py:72-83 | definition: the list of levels `tree`, built from the padded leaves with the abstract hash and the 0 fallback of line 79 (shape proved in TreeShape, loop in BuildLevels) |
| TrainingMerkle.PaddedLeaves | scripts/generate_training_test_data.py:69 | definition: the leaves followed by zeros up to the power of two `size` (used by TreeShape) |
| TrainingMerkle.SiblingAt | scripts/generate_training_test_data.py:97-101 | definition: the entry at `current ^ 1`, or 0 when that is past the end of the level (LeafSiblingsAreTreeSiblings shows the 0 is never used) |
| TrainingMerkle.LeafSiblings | scripts/generate_training_test_data.py:92-102 | definition: the sibling of leaf i's ancestor at each level 0 .. depth-1 (lemmas LeafSiblingsAreTreeSiblings, RoundTrip) |
| TrainingMerkle.BuildSpec | scripts/generate_training_test_data.py:51-112 | definition of build_merkle_tree's three outputs on the abstract hash (lemmas RoundTrip, ProofLengths, BuildSpecParts; method BuildMerkleTree) |
| TrainingMerkle.LeafSiblingsAreTreeSiblings | scripts/generate_training_test_data.py:96-102 | the siblings taken for leaf i are the XOR-1 neighbours along its path, so the `sibling = 0` fallback is never taken |
| TrainingMerkle.RoundTrip | scripts/generate_training_test_data.py:51-112 | for every real leaf i, folding leaves[i] along its returned proof with h gives the returned root, for any hash h |
| TrainingMerkle.ProofLengths | scripts/generate_training_test_data.py:88-110 | exactly n proofs; each list has length depth; indices[k] == (i / 2^k) % 2; the bits read back as i |
| TrainingMerkle.EmptyInput | scripts/generate_training_test_data.py:60-85 | an empty leaf list gives root 0 and two empty proof lists |
| TrainingMerkle.SingleLeaf | scripts/generate_training_test_data.py:60-112 | one leaf v gives root v (not hashed) and one pair of empty proof lists |
| TrainingMerkle.RootIsDigest | scripts/generate_training_test_data.py:75-85 | with a hash bounded by 2^251 and at least two leaves, the root is below 2^251 |
| TrainingMerkle.TopIsHashOutput | scripts/generate_training_test_data.py:75-85 | the top entry of a tree of depth > 0 is a hash output, so it is below 2^251 |
| TrainingMerkle.BuildMerkleTree | scripts/generate_training_test_data.py:51-112 | the outputs equal the specification BuildSpec; there are n proofs; every proof folds to the root |
| TrainingMerkle.BuildSpecParts | scripts/generate_training_test_data.py:85-110 | the root is the top entry; proof i is leaf i's siblings and its path bits |
| TrainingMerkle.LeafProof | scripts/generate_training_test_data.py:92-108 | the inner loop returns LeafSiblings and PathBits for the leaf |
| TrainingMerkle.BuildLevels | scripts/generate_training_test_data.py:72-83 | the loop builds the levels of Levels(h, zero-fill) |
| MerkleCore.Pow2 | scripts/generate_balance_test_data.py:43 | 2 ** depth is at least 1 |
| MerkleCore.Pow2Monotone | scripts/generate_training_test_data.py:62-66 | powers of two grow with the exponent |
| MerkleCore.CeilLog2 | scripts/generate_balance_test_data.py:36-40 | the number of (temp + 1) // 2 rounds that take n to 1 is the least d with n <= 2^d |
| MerkleCore.CeilLog2Unique | scripts/generate_training_test_data.py:62-66 | any d with n <= 2^d and 2^(d-1) < n (or d == 0) is CeilLog2(n): the doubling loop's depth |
| MerkleCore.CeilLog2Least | scripts/generate_training_test_data.py:62-66 | CeilLog2(n) is below every e with n <= 2^e |
| MerkleCore.Xor1 | scripts/generate_training_test_data.py:97 | i ^ 1 keeps i // 2 and flips i % 2; non-negative stays non-negative |
| MerkleCore.Anc | scripts/generate_training_test_data.py:94-107 | definition: `current_idx //= 2` applied k times to the leaf index (AncIsQuotient proves it is i // 2^k) |
| MerkleCore.PathBits | scripts/generate_training_test_data.py:105 | definition: the bit `current_idx % 2` recorded at each level (PathBitsEncodeIndex proves they are the binary digits of i) |
| MerkleCore.AncIsQuotient | scripts/generate_training_test_data.py:94-107 | k rounds of current_idx //= 2 give i / 2^k |
| MerkleCore.AncShift | scripts/generate_training_test_data.py:94-107 | k + 1 rounds from i are k rounds from i // 2 |
| MerkleCore.AncBound | scripts/generate_training_test_data.py:94-107 | for i < 2^d, the ancestor at level k is below 2^(d-k) |
| MerkleCore.PathBitsEncodeIndex | scripts/generate_training_test_data.py:104-107 | the recorded bits, read little-endian, give back the leaf index |
| MerkleCore.RightOperand | scripts/generate_balance_test_data.py:65 | definition of the right operand, with each script's fallback for a lone last entry: duplicate it here, 0 at generate_training_test_data.py line 79 (NextLevelNoFallback proves the fallback is never taken) |
| MerkleCore.NextLevel | scripts/generate_balance_test_data.py:62-68 | definition of one round of the level loop, as both scripts write it: pair up entries 2j and 2j+1 |
| MerkleCore.Levels | scripts/generate_balance_test_data.py:56-71 | definition of the level loop of both scripts, run until one entry remains (LevelsShape, LevelsStep) |
| MerkleCore.NextLevelNoFallback | scripts/generate_training_test_data.py:77-81 | on an even-length level every parent is combine(level[2j], level[2j+1]), so the odd fallback (0 or the node itself) is never used |
| MerkleCore.ConsLevel | scripts/generate_training_test_data.py:72-83 | a level of width 2^e under a perfect tree of depth e - 1 whose base is its parent level forms a perfect tree of depth e |
| MerkleCore.LevelsShape | scripts/generate_training_test_data.py:75-83 | from 2^e leaves the loop gives e + 1 levels; level k has width 2^(e-k) and is linked to level k + 1 by combine |
| MerkleCore.LevelsStep | scripts/generate_training_test_data.py:75-83 | one round halves a 2^e-wide level and pairs its entries |
| MerkleCore.LevelsPeel | scripts/generate_balance_test_data.py:58-69 | one round of the level loop of either script (here, and generate_training_test_data.py lines 75-83): what follows level 0 is the next level, then the levels above it |
| MerkleCore.FoldPath | scripts/generate_balance_test_data.py:178-184 | definition of the verify loop over `zip(siblings, path_indices)`: a bit of 1 puts the sibling on the left (FoldStep, FoldPathZip) |
| MerkleCore.FoldPathZip | scripts/generate_balance_test_data.py:178 | zip stops at the shorter list: the fold reads only min(len(siblings), len(path_indices)) entries |
| MerkleCore.PathNodeInRange | scripts/generate_training_test_data.py:96-98 | below the root, the path node and its XOR-1 neighbour are inside their level |
| MerkleCore.FoldStep | scripts/generate_balance_test_data.py:178-184 | one fold step, with the sibling placed as the direction bit says, gives the parent |
| MerkleCore.FoldFromLevel | scripts/generate_balance_test_data.py:178-186 | folding a proof from level k reaches the root |
| MerkleCore.FoldProofReachesRoot | scripts/generate_balance_test_data.py:178-186 | folding a proof from its leaf reaches the root, for any combine function |

## Findings

| source | as written | input that shows it | evidently intended | confidence | as-written member | corrected member |
|---|---|---|---|---|---|---|
| scripts/generate_balance_test_data.py:78-79 | `get_proof` rejects only `index >= n`, so a negative index reaches Python's end-relative list indexing | leaves `[1, 1, 1, 1, 1]`, index `-1`: the proof of padding slot 7 comes back, and `verify_merkle_proof(0, ..., root)` accepts it although no leaf is 0 | the out-of-range error its message describes, for every index outside `0 .. n-1` | medium, not executed | BalanceMerkle.NegativeIndexForgesZero, BalanceMerkle.FiveOnesForgery | BalanceMerkle.GetProofChecked, proved in BalanceMerkle.CheckedProofSound |

`MerkleTree.GetProof` stays as written. `GetProofOn` models its guard, and
`GetProofChecked` is the corrected guard set beside it.

## Left out

- `to_fixed` / `from_fixed`, the gradient pipeline (gradient, L2 norm, clipping, averaging, the weight update and its hash): floating-point arithmetic with no exact integer contract.
- The internals of the training hash `poseidon_hash`: SHA-256 over the decimal strings of its inputs is a library call. It is the parameter `h`, and the ghost predicate `BoundedHash` states that its outputs are in `[0, 2^251)`. Only the two-argument call that `build_merkle_tree` makes is modelled.
- `generate_dataset` and batch sampling: they depend on the pseudo-random generator.
- Both `generate_test_data` functions, `main`, argument parsing, JSON output, file writes and console printing. Of `test_verification`, only its check appears, as `TestLabelsVerify`.
- The text of the `ValueError` message. Errors are the values `ValueError` and `IndexError`.
- Arguments that are not integers: the model passes ints. Truthiness of a path index is `!= 0`, which is how Python treats an int.
- Empty input: neither script raises on an empty leaf list. The balance class builds the one-slot tree `[[hash_single(0)]]`, whose `get_proof` raises `ValueError` for every non-negative index. The training function returns root 0 with no proofs (`TrainingMerkle.EmptyInput`).
- `MerkleTree` fields are `const`: the script assigns them only in `__init__`. Aliasing of the `leaves` list between the caller and the object is not modelled.
- `TrainingMerkle.RootIsDigest`: requires at least two leaves. With zero or one leaf the root is 0 or the raw leaf, not a hash output.
