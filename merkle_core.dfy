/** Index arithmetic, level construction and path folding shared by the two
    Merkle generators of the repository. Nothing here fixes a hash function:
    every definition takes the 2-to-1 combiner as a parameter, so the facts
    proved here hold for the placeholder hashes and for any real one alike. */
module MerkleCore {

  /** 2^k. */
  function Pow2(k: nat): (r: nat)
    ensures r >= 1
  {
    if k == 0 then 1 else 2 * Pow2(k - 1)
  }

  lemma {:induction false} Pow2Monotone(e: nat, d: nat)
    requires e <= d
    ensures Pow2(e) <= Pow2(d)
    decreases d
  {
    if e < d {
      Pow2Monotone(e, d - 1);
    }
  }

  /** d is ceil(log2 n): the smallest exponent whose power of two reaches n
      (so 0 when n <= 1). */
  predicate IsCeilLog2(n: nat, d: nat) {
    n <= Pow2(d) && (d == 0 || Pow2(d - 1) < n)
  }

  /** ceil(log2 n), computed as the number of "halve, rounding up" rounds
      that take n down to 1. */
  function CeilLog2(n: nat): (d: nat)
    ensures IsCeilLog2(n, d)
    decreases n
  {
    if n <= 1 then 0 else 1 + CeilLog2((n + 1) / 2)
  }

  /** The exponent characterised by IsCeilLog2 is unique, so every loop that
      establishes IsCeilLog2 computes CeilLog2. */
  lemma CeilLog2Unique(n: nat, d: nat)
    requires IsCeilLog2(n, d)
    ensures d == CeilLog2(n)
  {
    var c := CeilLog2(n);
    if d < c {
      Pow2Monotone(d, c - 1);
    } else if c < d {
      Pow2Monotone(c, d - 1);
    }
  }

  /** CeilLog2(n) is the least exponent e with 2^e >= n. */
  lemma {:induction false} CeilLog2Least(n: nat, e: nat)
    requires n <= Pow2(e)
    ensures CeilLog2(n) <= e
    decreases n
  {
    if n > 1 {
      CeilLog2Least((n + 1) / 2, e - 1);
    }
  }

  /** Python's `i ^ 1` on an integer: the low bit flipped (two's complement,
      so this holds for negative integers too). */
  function Xor1(i: int): (r: int)
    ensures r / 2 == i / 2 && r % 2 == 1 - i % 2
    ensures i >= 0 ==> r >= 0
  {
    if i % 2 == 0 then i + 1 else i - 1
  }

  /** The index, k levels up, of the ancestor of node i: `i //= 2` done k times. */
  function Anc(i: nat, k: nat): nat
  {
    if k == 0 then i else Anc(i, k - 1) / 2
  }

  lemma MulAtLeast(x: int, m: int)
    requires x >= 1 && m > 0
    ensures x * m >= m
  {
  }

  /** Euclidean division is determined by its quotient-remainder equation. */
  lemma DivUnique(a: int, m: int, q: int, r: int)
    requires m > 0 && a == q * m + r && 0 <= r < m
    ensures a / m == q
  {
    var q0, r0 := a / m, a % m;
    assert a == q0 * m + r0 && 0 <= r0 < m;
    if q > q0 {
      MulAtLeast(q - q0, m);
      assert false;
    } else if q < q0 {
      MulAtLeast(q0 - q, m);
      assert false;
    }
  }

  lemma Regroup(q2: int, c: int, r2: int, b: int, r: int)
    ensures (q2 * c + r2) * b + r == q2 * (b * c) + (r2 * b + r)
  {
  }

  lemma RemainderBound(r2: int, b: int, c: int, r: int)
    requires 0 <= r2 < c && 0 <= r < b
    ensures 0 <= r2 * b + r < b * c
  {
    MulAtLeast(c - r2, b);
    assert (c - r2) * b == b * c - r2 * b;
  }

  lemma DivDiv(a: nat, b: nat, c: nat)
    requires b > 0 && c > 0
    ensures a / b / c == a / (b * c)
  {
    var q, r := a / b, a % b;
    var q2, r2 := q / c, q % c;
    Regroup(q2, c, r2, b, r);
    RemainderBound(r2, b, c, r);
    DivUnique(a, b * c, q2, r2 * b + r);
  }

  /** The ancestor index is the quotient by 2^k. */
  lemma {:induction false} AncIsQuotient(i: nat, k: nat)
    ensures Anc(i, k) == i / Pow2(k)
    decreases k
  {
    if k > 0 {
      AncIsQuotient(i, k - 1);
      DivDiv(i, Pow2(k - 1), 2);
    }
  }

  /** Going k+1 levels up from i is going k levels up from i's parent. */
  lemma {:induction false} AncShift(i: nat, k: nat)
    ensures Anc(i, k + 1) == Anc(i / 2, k)
    decreases k
  {
    if k > 0 {
      AncShift(i, k - 1);
    }
  }

  /** A node of a 2^d-wide level has, k levels up, an ancestor inside the
      2^(d-k)-wide level. */
  lemma {:induction false} AncBound(i: nat, k: nat, d: nat)
    requires i < Pow2(d) && k <= d
    ensures Anc(i, k) < Pow2(d - k)
    decreases k
  {
    if k > 0 {
      AncBound(i, k - 1, d);
    }
  }

  /** The direction bits of leaf i over d levels: bit k is `(i // 2^k) % 2`,
      1 when the node at level k is a right child. */
  function PathBits(i: nat, d: nat): seq<int>
  {
    seq(d, k requires 0 <= k < d => Anc(i, k) % 2)
  }

  /** Reads a little-endian list of binary digits back as a number. */
  function FromBits(bits: seq<int>): int
  {
    if bits == [] then 0 else bits[0] + 2 * FromBits(bits[1..])
  }

  /** The direction bits of a leaf are exactly the binary digits of its index. */
  lemma {:induction false} PathBitsEncodeIndex(i: nat, d: nat)
    requires i < Pow2(d)
    ensures FromBits(PathBits(i, d)) == i
    decreases d
  {
    if d > 0 {
      var bits := PathBits(i, d);
      forall k | 0 <= k < d - 1
        ensures bits[1..][k] == PathBits(i / 2, d - 1)[k]
      {
        AncShift(i, k);
      }
      assert bits[1..] == PathBits(i / 2, d - 1);
      PathBitsEncodeIndex(i / 2, d - 1);
    }
  }

  /** How a generator fills the right operand of the last pair of an
      odd-length level: with the field element 0, or with the lone node itself. */
  datatype OddPolicy = ZeroFill | DuplicateLast

  /** The right operand paired with position i (i even) of a level. */
  function RightOperand(level: seq<int>, i: nat, policy: OddPolicy): int
    requires i < |level|
  {
    if i + 1 < |level| then level[i + 1]
    else match policy
      case ZeroFill => 0
      case DuplicateLast => level[i]
  }

  /** The level above `level`: entry j combines positions 2j and 2j+1. */
  function NextLevel(combine: (int, int) -> int, policy: OddPolicy, level: seq<int>): seq<int>
  {
    seq((|level| + 1) / 2,
      j requires 0 <= j < (|level| + 1) / 2 => combine(level[2 * j], RightOperand(level, 2 * j, policy)))
  }

  /** All levels, bottom-up, until a level of at most one entry is reached. */
  function Levels(combine: (int, int) -> int, policy: OddPolicy, level: seq<int>): seq<seq<int>>
    decreases |level|
  {
    if |level| <= 1 then [level]
    else [level] + Levels(combine, policy, NextLevel(combine, policy, level))
  }

  /** `upper` is exactly the pairwise combination of `lower`, with no fallback. */
  predicate IsParentLevel(combine: (int, int) -> int, lower: seq<int>, upper: seq<int>)
  {
    |lower| == 2 * |upper| &&
    forall j :: 0 <= j < |upper| ==> upper[j] == combine(lower[2 * j], lower[2 * j + 1])
  }

  predicate LinkedAt(combine: (int, int) -> int, levels: seq<seq<int>>, k: nat)
    requires k + 1 < |levels|
  {
    IsParentLevel(combine, levels[k], levels[k + 1])
  }

  /** The shape of a perfect binary tree of depth d: d+1 levels, level k of
      width 2^(d-k). */
  predicate IsShaped(levels: seq<seq<int>>, d: nat)
  {
    |levels| == d + 1 &&
    forall k :: 0 <= k <= d ==> |levels[k]| == Pow2(d - k)
  }

  /** A perfect binary tree of depth d: that shape, and every entry above
      level 0 the combination of its two children. */
  predicate IsTree(combine: (int, int) -> int, levels: seq<seq<int>>, d: nat)
  {
    IsShaped(levels, d) &&
    forall k :: 0 <= k < d ==> LinkedAt(combine, levels, k)
  }

  /** On an even-length level the odd-length fallback is never consulted:
      whichever policy is in force, the next level is the plain pairwise one. */
  lemma NextLevelNoFallback(combine: (int, int) -> int, policy: OddPolicy, level: seq<int>)
    requires |level| % 2 == 0
    ensures IsParentLevel(combine, level, NextLevel(combine, policy, level))
  {
    var next := NextLevel(combine, policy, level);
    forall j | 0 <= j < |next|
      ensures next[j] == combine(level[2 * j], level[2 * j + 1])
    {
      assert 2 * j + 1 < |level|;
      assert RightOperand(level, 2 * j, policy) == level[2 * j + 1];
    }
  }

  /** A perfect tree of depth e-1 under one more level of twice the width is
      a perfect tree of depth e. */
  lemma ConsLevel(combine: (int, int) -> int, level: seq<int>, up: seq<seq<int>>, e: nat)
    requires e > 0 && |level| == Pow2(e)
    requires IsTree(combine, up, e - 1) && IsParentLevel(combine, level, up[0])
    ensures IsTree(combine, [level] + up, e)
  {
    var all := [level] + up;
    forall k | 0 <= k <= e
      ensures |all[k]| == Pow2(e - k)
    {
      if k > 0 {
        assert all[k] == up[k - 1];
      }
    }
    forall k | 0 <= k < e
      ensures LinkedAt(combine, all, k)
    {
      if k > 0 {
        assert LinkedAt(combine, up, k - 1);
        assert all[k] == up[k - 1] && all[k + 1] == up[k];
      }
    }
  }

  /** Building levels over 2^e entries gives a perfect tree of depth e whose
      level 0 is the input. */
  lemma {:induction false} LevelsShape(combine: (int, int) -> int, policy: OddPolicy, level: seq<int>, e: nat)
    requires |level| == Pow2(e)
    ensures IsTree(combine, Levels(combine, policy, level), e)
    ensures Levels(combine, policy, level)[0] == level
    decreases e
  {
    if e == 0 {
      assert Levels(combine, policy, level) == [level];
    } else {
      var next := NextLevel(combine, policy, level);
      LevelsStep(combine, policy, level, e);
      LevelsShape(combine, policy, next, e - 1);
      ConsLevel(combine, level, Levels(combine, policy, next), e);
    }
  }

  /** One round of level building over 2^e entries, e > 0. */
  lemma LevelsStep(combine: (int, int) -> int, policy: OddPolicy, level: seq<int>, e: nat)
    requires e > 0 && |level| == Pow2(e)
    ensures |NextLevel(combine, policy, level)| == Pow2(e - 1)
    ensures IsParentLevel(combine, level, NextLevel(combine, policy, level))
    ensures Levels(combine, policy, level) == [level] + Levels(combine, policy, NextLevel(combine, policy, level))
  {
    NextLevelNoFallback(combine, policy, level);
  }

  /** One round of either level loop: after peeling level 0, what follows
      is the next level and then the levels built above it. */
  lemma LevelsPeel(combine: (int, int) -> int, policy: OddPolicy, current: seq<int>)
    requires |current| > 1
    ensures var next := NextLevel(combine, policy, current);
      Levels(combine, policy, current)[1..] == [next] + Levels(combine, policy, next)[1..]
  {
  }

  /** Re-derives a root from a node and its proof, pairing the two lists as
      Python's zip does (the shorter list decides the number of steps). A
      non-zero direction means the current node is the right child, so the
      sibling goes on the left. */
  function FoldPath(combine: (int, int) -> int, current: int, siblings: seq<int>, bits: seq<int>): int
    decreases |siblings|
  {
    if |siblings| == 0 || |bits| == 0 then current
    else
      var parent := if bits[0] != 0 then combine(siblings[0], current) else combine(current, siblings[0]);
      FoldPath(combine, parent, siblings[1..], bits[1..])
  }

  /** zip stops at the shorter list: the fold reads only the first
      min(|siblings|, |bits|) entries of each list. */
  lemma {:induction false} FoldPathZip(combine: (int, int) -> int, current: int, siblings: seq<int>, bits: seq<int>)
    ensures var m := if |siblings| < |bits| then |siblings| else |bits|;
      FoldPath(combine, current, siblings, bits) == FoldPath(combine, current, siblings[..m], bits[..m])
    decreases |siblings|
  {
    var m := if |siblings| < |bits| then |siblings| else |bits|;
    if m > 0 {
      var parent := if bits[0] != 0 then combine(siblings[0], current) else combine(current, siblings[0]);
      FoldPathZip(combine, parent, siblings[1..], bits[1..]);
      assert siblings[..m][1..] == siblings[1..][..m - 1];
      assert bits[..m][1..] == bits[1..][..m - 1];
    }
  }

  /** Below the root of a perfect tree, the node on leaf i's path and its
      sibling are both inside their level. */
  lemma PathNodeInRange(levels: seq<seq<int>>, d: nat, i: nat, k: nat)
    requires IsShaped(levels, d) && i < Pow2(d) && k < d
    ensures Anc(i, k) < |levels[k]| && Xor1(Anc(i, k)) < |levels[k]|
  {
    AncBound(i, k, d);
    assert |levels[k]| == 2 * Pow2(d - k - 1);
  }

  /** (siblings, bits) is the membership proof of leaf i in a depth-d tree:
      one entry per level, the direction bit is bit k of i and the sibling is
      the entry at the ancestor's index with its low bit flipped. */
  predicate IsProofFor(levels: seq<seq<int>>, d: nat, i: nat, siblings: seq<int>, bits: seq<int>)
  {
    d < |levels| && |siblings| == d && bits == PathBits(i, d) &&
    forall k {:trigger siblings[k]} :: 0 <= k < d ==>
      Xor1(Anc(i, k)) < |levels[k]| && siblings[k] == levels[k][Xor1(Anc(i, k))]
  }

  /** One step of the fold: a node combined with its sibling, in the order its
      direction bit says, is its parent. */
  lemma FoldStep(combine: (int, int) -> int, lower: seq<int>, upper: seq<int>, a: nat, sibling: int, bit: int)
    requires IsParentLevel(combine, lower, upper)
    requires a < |lower| && Xor1(a) < |lower| && sibling == lower[Xor1(a)] && bit == a % 2
    ensures a / 2 < |upper|
    ensures (if bit != 0 then combine(sibling, lower[a]) else combine(lower[a], sibling)) == upper[a / 2]
  {
    var p := a / 2;
    assert upper[p] == combine(lower[2 * p], lower[2 * p + 1]);
    if a % 2 == 1 {
      assert 2 * p == Xor1(a) && 2 * p + 1 == a;
    } else {
      assert 2 * p == a && 2 * p + 1 == Xor1(a);
    }
  }

  lemma {:induction false} FoldFromLevel(combine: (int, int) -> int, levels: seq<seq<int>>, d: nat, i: nat,
                                         siblings: seq<int>, bits: seq<int>, k: nat)
    requires IsTree(combine, levels, d) && i < Pow2(d) && IsProofFor(levels, d, i, siblings, bits)
    requires k <= d
    ensures Anc(i, k) < |levels[k]|
    ensures FoldPath(combine, levels[k][Anc(i, k)], siblings[k..], bits[k..]) == levels[d][0]
    decreases d - k
  {
    AncBound(i, k, d);
    if k < d {
      var a := Anc(i, k);
      FoldFromLevel(combine, levels, d, i, siblings, bits, k + 1);
      assert LinkedAt(combine, levels, k);
      FoldStep(combine, levels[k], levels[k + 1], a, siblings[k], bits[k]);
      assert siblings[k..][1..] == siblings[k + 1..];
      assert bits[k..][1..] == bits[k + 1..];
    }
  }

  /** Round trip: folding a leaf with its membership proof reproduces the root,
      for any combiner. */
  lemma FoldProofReachesRoot(combine: (int, int) -> int, levels: seq<seq<int>>, d: nat, i: nat,
                             siblings: seq<int>, bits: seq<int>)
    requires IsTree(combine, levels, d) && i < Pow2(d) && IsProofFor(levels, d, i, siblings, bits)
    ensures i < |levels[0]|
    ensures FoldPath(combine, levels[0][i], siblings, bits) == levels[d][0]
  {
    FoldFromLevel(combine, levels, d, i, siblings, bits, 0);
    assert siblings[0..] == siblings && bits[0..] == bits;
  }
}
