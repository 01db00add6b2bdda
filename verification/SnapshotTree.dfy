/** The reference Merkle construction of reputation snapshots: index-directed, with the
    last node of an odd level paired with itself. */
module SnapshotTree {
  import opened Hashing

  // ---------------------------------------------------------------------------
  // Specification: levels, root, sibling path, fold
  // ---------------------------------------------------------------------------

  function RightOf(level: seq<Bytes32>, j: nat): Bytes32
    requires 2 * j < |level|
  {
    if 2 * j + 1 < |level| then level[2 * j + 1] else level[2 * j]
  }

  function NextLevel(h: PairHash, level: seq<Bytes32>): (next: seq<Bytes32>)
    ensures |next| == (|level| + 1) / 2
  {
    seq<Bytes32>((|level| + 1) / 2, j requires 0 <= j < (|level| + 1) / 2 => h(level[2 * j], RightOf(level, j)))
  }

  function Root(h: PairHash, leaves: seq<Bytes32>): Bytes32
    decreases |leaves|
  {
    if leaves == [] then ZERO_HASH
    else if |leaves| == 1 then leaves[0]
    else Root(h, NextLevel(h, leaves))
  }

  function Depth(n: nat): nat {
    if n <= 1 then 0 else 1 + Depth((n + 1) / 2)
  }

  /** The node next to node `i`: its left or right neighbour, or itself at an odd end. */
  function Sibling(level: seq<Bytes32>, i: nat): Bytes32
    requires i < |level|
  {
    if i % 2 == 1 then level[i - 1] else if i + 1 < |level| then level[i + 1] else level[i]
  }

  function SiblingPath(h: PairHash, level: seq<Bytes32>, i: nat): (path: seq<Bytes32>)
    requires i < |level|
    ensures |path| == Depth(|level|)
    decreases |level|
  {
    if |level| == 1 then [] else [Sibling(level, i)] + SiblingPath(h, NextLevel(h, level), i / 2)
  }

  /** The ordered pair that one step of a proof hashes: the index's low bit says which side `x` is on. */
  function StepPair(x: Bytes32, sibling: Bytes32, i: nat): Pair {
    if i % 2 == 0 then (x, sibling) else (sibling, x)
  }

  function FoldStep(h: PairHash, x: Bytes32, sibling: Bytes32, i: nat): Bytes32 {
    var p := StepPair(x, sibling, i);
    h(p.0, p.1)
  }

  function Fold(h: PairHash, x: Bytes32, proof: seq<Bytes32>, i: nat): Bytes32
    decreases |proof|
  {
    if proof == [] then x else Fold(h, FoldStep(h, x, proof[0], i), proof[1..], i / 2)
  }

  /** The leaf that index `i` opens in a snapshot of `n` leaves. Below `n` it is `i` itself;
      an index past the end lands on a leaf that duplication copied into that place. */
  function Resolve(n: nat, i: nat): (r: nat)
    requires n > 0
    ensures r < n
  {
    if n == 1 then 0
    else
      var child := 2 * Resolve((n + 1) / 2, i / 2) + i % 2;
      if child < n then child else n - 1
  }

  /** Every pair that building the tree over `level` hashes. */
  function TreePairs(h: PairHash, level: seq<Bytes32>): set<Pair>
    decreases |level|
  {
    if |level| <= 1 then {}
    else (set j | 0 <= j < (|level| + 1) / 2 :: (level[2 * j], RightOf(level, j))) + TreePairs(h, NextLevel(h, level))
  }

  /** Every pair that checking a proof hashes. */
  function FoldPairs(h: PairHash, x: Bytes32, proof: seq<Bytes32>, i: nat): set<Pair>
    decreases |proof|
  {
    if proof == [] then {}
    else
      {StepPair(x, proof[0], i)} + FoldPairs(h, FoldStep(h, x, proof[0], i), proof[1..], i / 2)
  }

  // ---------------------------------------------------------------------------
  // The two algorithms
  // ---------------------------------------------------------------------------

  method ComputeRoot(h: PairHash, leaves: seq<Bytes32>) returns (root: Bytes32)
    ensures root == Root(h, leaves)
  {
    if |leaves| == 0 {
      return ZERO_HASH;
    }
    var current := leaves;
    while |current| > 1
      invariant |current| > 0 && Root(h, current) == Root(h, leaves)
      decreases |current|
    {
      var next := [];
      var i := 0;
      while i < |current|
        invariant 0 <= i <= |current| + 1 && i % 2 == 0
        invariant |next| == i / 2
        invariant forall j | 0 <= j < |next| :: next[j] == h(current[2 * j], RightOf(current, j))
      {
        var left := current[i];
        var right := if i + 1 < |current| then current[i + 1] else current[i];
        assert 2 * |next| == i;
        next := next + [h(left, right)];
        i := i + 2;
      }
      assert next == NextLevel(h, current);
      current := next;
    }
    return current[0];
  }

  method VerifyProof(h: PairHash, leaf: Bytes32, proof: seq<Bytes32>, index: nat) returns (computed: Bytes32)
    ensures computed == Fold(h, leaf, proof, index)
  {
    computed := leaf;
    var currentIndex := index;
    for k := 0 to |proof|
      invariant Fold(h, computed, proof[k..], currentIndex) == Fold(h, leaf, proof, index)
    {
      assert proof[k..][0] == proof[k] && proof[k..][1..] == proof[k + 1..];
      computed := if currentIndex % 2 == 0 then h(computed, proof[k]) else h(proof[k], computed);
      currentIndex := currentIndex / 2;
    }
  }

  // ---------------------------------------------------------------------------
  // Depth
  // ---------------------------------------------------------------------------

  function Pow2(d: nat): (p: nat)
    ensures p > 0
  {
    if d == 0 then 1 else 2 * Pow2(d - 1)
  }

  /** The tree over `n` leaves, and so every sibling path, has length ceil(log2 n). */
  lemma {:induction false} DepthIsCeilLog2(n: nat, d: nat)
    requires n > 0
    ensures d == Depth(n) <==> n <= Pow2(d) && (d > 0 ==> Pow2(d - 1) < n)
  {
    if n > 1 && d > 0 {
      DepthIsCeilLog2((n + 1) / 2, d - 1);
    }
  }

  // ---------------------------------------------------------------------------
  // Completeness and exactness of proofs
  // ---------------------------------------------------------------------------

  lemma {:induction false} ResolveIsIdentity(n: nat, i: nat)
    requires i < n
    ensures Resolve(n, i) == i
  {
    if n > 1 {
      ResolveIsIdentity((n + 1) / 2, i / 2);
    }
  }

  /** A level up, node `j` is the hash of nodes `2j` and `2j + 1`, in this order, or of an odd last
      node with itself; the root is found going up. */
  lemma TreeHashesInOrder(h: PairHash, leaves: seq<Bytes32>, up: seq<Bytes32>, x: Bytes32)
    requires |leaves| > 1 && |up| == (|leaves| + 1) / 2
    requires forall j | 0 <= j < |up| ::
               up[j] == h(leaves[2 * j], if 2 * j + 1 < |leaves| then leaves[2 * j + 1] else leaves[2 * j])
    ensures Root(h, leaves) == Root(h, up) && Root(h, [x]) == x && Root(h, []) == 0
  {
    var next := NextLevel(h, leaves);
    forall j | 0 <= j < |up| ensures up[j] == next[j] {
      assert next[j] == h(leaves[2 * j], RightOf(leaves, j));
    }
    assert up == next;
  }

  /** A step hashes the running digest before the sibling at an even index and after it at an odd one. */
  lemma FoldHashesInOrder(h: PairHash, x: Bytes32, sibling: Bytes32, rest: seq<Bytes32>, i: nat)
    ensures Fold(h, x, [], i) == x
    ensures Fold(h, x, [sibling] + rest, i) == Fold(h, if i % 2 == 0 then h(x, sibling) else h(sibling, x), rest, i / 2)
  {
    assert ([sibling] + rest)[1..] == rest;
  }

  /** One level up: the step at index `i` reaches the parent that the halved index stands for. */
  lemma StepReachesParent(h: PairHash, leaves: seq<Bytes32>, i: nat)
    requires |leaves| > 1
    ensures var r := Resolve(|leaves|, i);
            var j := Resolve((|leaves| + 1) / 2, i / 2);
            && r / 2 == j
            && StepPair(leaves[r], Sibling(leaves, r), i) == (leaves[2 * j], RightOf(leaves, j))
  {
    var j := Resolve((|leaves| + 1) / 2, i / 2);
    assert 2 * j < |leaves|;
    if 2 * j + i % 2 < |leaves| {
      assert (2 * j + i % 2) / 2 == j && (2 * j + i % 2) % 2 == i % 2;
    } else {
      assert |leaves| - 1 == 2 * j;
    }
  }

  /** At every index, even one past the end, the sibling path of the leaf that the index
      opens folds to the root. Nothing is asked of the hash. */
  lemma {:induction false} ResolvedPathVerifies(h: PairHash, leaves: seq<Bytes32>, i: nat)
    requires leaves != []
    ensures var r := Resolve(|leaves|, i);
            Fold(h, leaves[r], SiblingPath(h, leaves, r), i) == Root(h, leaves)
    decreases |leaves|
  {
    if |leaves| > 1 {
      var next := NextLevel(h, leaves);
      var r := Resolve(|leaves|, i);
      StepReachesParent(h, leaves, i);
      ResolvedPathVerifies(h, next, i / 2);
      var path := SiblingPath(h, leaves, r);
      assert path[0] == Sibling(leaves, r) && path[1..] == SiblingPath(h, next, r / 2);
    }
  }

  /** Completeness: each leaf of a snapshot verifies at its own index. */
  lemma Completeness(h: PairHash, leaves: seq<Bytes32>, i: nat)
    requires i < |leaves|
    ensures Fold(h, leaves[i], SiblingPath(h, leaves, i), i) == Root(h, leaves)
  {
    ResolveIsIdentity(|leaves|, i);
    ResolvedPathVerifies(h, leaves, i);
  }

  /** A step at index `i` reaches the parent exactly from the node there with its own sibling. */
  lemma StepAcceptedExactly(h: PairHash, leaves: seq<Bytes32>, x: Bytes32, sibling: Bytes32, i: nat, pairs: set<Pair>)
    requires |leaves| > 1 && CollisionFreeOn(h, pairs) && TreePairs(h, leaves) + {StepPair(x, sibling, i)} <= pairs
    ensures var r, j := Resolve(|leaves|, i), Resolve((|leaves| + 1) / 2, i / 2);
            FoldStep(h, x, sibling, i) == NextLevel(h, leaves)[j] <==> x == leaves[r] && sibling == Sibling(leaves, r)
  {
    var j := Resolve((|leaves| + 1) / 2, i / 2);
    StepReachesParent(h, leaves, i);
    assert (leaves[2 * j], RightOf(leaves, j)) in TreePairs(h, leaves);
    assert StepPair(x, sibling, i) in pairs;
  }

  /** Exact acceptance, at every index: a proof of tree depth is accepted if and only if
      it opens the leaf the index stands for with that leaf's own sibling path. */
  lemma {:induction false} AcceptedExactly(h: PairHash, leaves: seq<Bytes32>, x: Bytes32, proof: seq<Bytes32>, i: nat)
    requires leaves != [] && |proof| == Depth(|leaves|)
    requires CollisionFreeOn(h, TreePairs(h, leaves) + FoldPairs(h, x, proof, i))
    ensures var r := Resolve(|leaves|, i);
            Fold(h, x, proof, i) == Root(h, leaves) <==> x == leaves[r] && proof == SiblingPath(h, leaves, r)
    decreases |leaves|
  {
    if |leaves| > 1 {
      var next := NextLevel(h, leaves);
      var r := Resolve(|leaves|, i);
      AcceptedExactly(h, next, FoldStep(h, x, proof[0], i), proof[1..], i / 2);
      StepAcceptedExactly(h, leaves, x, proof[0], i, TreePairs(h, leaves) + FoldPairs(h, x, proof, i));
      StepReachesParent(h, leaves, i);
      hide CollisionFreeOn, TreePairs, FoldPairs, Sibling, StepPair;
      assert SiblingPath(h, leaves, r) == [Sibling(leaves, r)] + SiblingPath(h, next, r / 2);
      assert proof == [proof[0]] + proof[1..];
    }
  }

  /** Positional soundness: with the right length, only the leaf at position `i` is accepted there. */
  lemma PositionalSoundness(h: PairHash, leaves: seq<Bytes32>, x: Bytes32, proof: seq<Bytes32>, i: nat)
    requires i < |leaves| && |proof| == Depth(|leaves|)
    requires CollisionFreeOn(h, TreePairs(h, leaves) + FoldPairs(h, x, proof, i))
    requires Fold(h, x, proof, i) == Root(h, leaves)
    ensures x == leaves[i]
  {
    ResolveIsIdentity(|leaves|, i);
    AcceptedExactly(h, leaves, x, proof, i);
  }

  /** The nodes `d` levels above the leaves. */
  function Level(h: PairHash, leaves: seq<Bytes32>, d: nat): seq<Bytes32>
    decreases d
  {
    if d == 0 then leaves else Level(h, NextLevel(h, leaves), d - 1)
  }

  lemma {:induction false} LevelHasSameRoot(h: PairHash, leaves: seq<Bytes32>, d: nat)
    requires leaves != [] && d <= Depth(|leaves|)
    ensures var level := Level(h, leaves, d);
            && level != [] && Depth(|level|) + d == Depth(|leaves|)
            && Root(h, level) == Root(h, leaves)
    decreases d
  {
    if d > 0 {
      LevelHasSameRoot(h, NextLevel(h, leaves), d - 1);
    }
  }

  /** The length matters: `VerifyProof` does not look at it, and for every length up to the depth
      each node of the level that far below the root has a proof of that length. */
  lemma DepthIsNeeded(h: PairHash, leaves: seq<Bytes32>, d: nat, j: nat)
    requires leaves != [] && d <= Depth(|leaves|) && j < |Level(h, leaves, d)|
    ensures var level := Level(h, leaves, d);
            && |SiblingPath(h, level, j)| == Depth(|leaves|) - d
            && Fold(h, level[j], SiblingPath(h, level, j), j) == Root(h, leaves)
  {
    LevelHasSameRoot(h, leaves, d);
    Completeness(h, Level(h, leaves, d), j);
  }

  lemma {:induction false} LevelPairs(h: PairHash, leaves: seq<Bytes32>, d: nat)
    requires leaves != [] && d <= Depth(|leaves|)
    ensures TreePairs(h, Level(h, leaves, d)) <= TreePairs(h, leaves)
    decreases d
  {
    if d > 0 {
      LevelPairs(h, NextLevel(h, leaves), d - 1);
    }
  }

  /** Exact acceptance of the shorter proofs: one of any length up to the depth is accepted if and only
      if it opens, with that node's own sibling path, the node that the index stands for on the level
      that far below the root. */
  lemma ShorterAcceptedExactly(h: PairHash, leaves: seq<Bytes32>, x: Bytes32, proof: seq<Bytes32>, i: nat)
    requires leaves != [] && |proof| <= Depth(|leaves|)
    requires CollisionFreeOn(h, TreePairs(h, leaves) + FoldPairs(h, x, proof, i))
    ensures var level := Level(h, leaves, Depth(|leaves|) - |proof|);
            level != []
            && var r := Resolve(|level|, i);
               (Fold(h, x, proof, i) == Root(h, leaves) <==> x == level[r] && proof == SiblingPath(h, level, r))
  {
    var d := Depth(|leaves|) - |proof|;
    LevelHasSameRoot(h, leaves, d);
    LevelPairs(h, leaves, d);
    AcceptedExactly(h, Level(h, leaves, d), x, proof, i);
  }

  /** And a longer one is never accepted, as long as no leaf is the hash of a pair that it hashes. */
  lemma {:induction false} LongerIsRefused(h: PairHash, leaves: seq<Bytes32>, x: Bytes32, proof: seq<Bytes32>, i: nat)
    requires leaves != [] && |proof| > Depth(|leaves|)
    requires CollisionFreeOn(h, TreePairs(h, leaves) + FoldPairs(h, x, proof, i))
    requires forall p | p in FoldPairs(h, x, proof, i) :: h(p.0, p.1) !in leaves
    ensures Fold(h, x, proof, i) != Root(h, leaves)
    decreases |proof|
  {
    var y := FoldStep(h, x, proof[0], i);
    assert StepPair(x, proof[0], i) in FoldPairs(h, x, proof, i);
    assert FoldPairs(h, y, proof[1..], i / 2) <= FoldPairs(h, x, proof, i);
    if |proof| - 1 > Depth(|leaves|) {
      LongerIsRefused(h, leaves, y, proof[1..], i / 2);
    } else {
      AcceptedExactly(h, leaves, y, proof[1..], i / 2);
    }
  }

  // ---------------------------------------------------------------------------
  // Binding
  // ---------------------------------------------------------------------------

  /** `a` and `b` hold the same leaf at position `i` once duplication has filled them up. */
  ghost predicate AgreeAt(a: seq<Bytes32>, b: seq<Bytes32>, i: nat)
    requires a != [] && b != []
  {
    a[Resolve(|a|, i)] == b[Resolve(|b|, i)]
  }

  /** `a` and `b` agree once duplication has filled both up to full trees. */
  ghost predicate SameFilled(a: seq<Bytes32>, b: seq<Bytes32>)
    requires a != [] && b != []
  {
    forall i: nat :: AgreeAt(a, b, i)
  }

  lemma NextLevelAt(h: PairHash, a: seq<Bytes32>, i: nat)
    requires |a| > 1
    ensures var next := NextLevel(h, a);
            next[Resolve(|next|, i)] == h(a[Resolve(|a|, 2 * i)], a[Resolve(|a|, 2 * i + 1)])
    ensures (a[Resolve(|a|, 2 * i)], a[Resolve(|a|, 2 * i + 1)]) in TreePairs(h, a)
  {
    var j := Resolve((|a| + 1) / 2, i);
    assert (2 * i + 1) / 2 == i && 2 * i / 2 == i;
    assert (a[2 * j], RightOf(a, j)) in TreePairs(h, a);
  }

  /** Two parents agree exactly when both pairs of children do. */
  lemma AgreeExactly(h: PairHash, a: seq<Bytes32>, b: seq<Bytes32>, i: nat)
    requires |a| > 1 && |b| > 1 && CollisionFreeOn(h, TreePairs(h, a) + TreePairs(h, b))
    ensures AgreeAt(NextLevel(h, a), NextLevel(h, b), i) <==> AgreeAt(a, b, 2 * i) && AgreeAt(a, b, 2 * i + 1)
  {
    NextLevelAt(h, a, i);
    NextLevelAt(h, b, i);
  }

  lemma LevelsAgree(h: PairHash, a: seq<Bytes32>, b: seq<Bytes32>)
    requires |a| > 1 && |b| > 1 && CollisionFreeOn(h, TreePairs(h, a) + TreePairs(h, b))
    ensures SameFilled(NextLevel(h, a), NextLevel(h, b)) <==> SameFilled(a, b)
  {
    var na, nb := NextLevel(h, a), NextLevel(h, b);
    if i: nat :| !AgreeAt(na, nb, i) {
      AgreeExactly(h, a, b, i);
    } else if i: nat :| !AgreeAt(a, b, i) {
      AgreeExactly(h, a, b, i / 2);
      assert i == 2 * (i / 2) || i == 2 * (i / 2) + 1;
    }
  }

  /** Exact binding: snapshots of equal depth share a root if and only if they fill up to
      the same full tree. */
  lemma {:induction false} RootBinding(h: PairHash, a: seq<Bytes32>, b: seq<Bytes32>)
    requires a != [] && b != [] && Depth(|a|) == Depth(|b|)
    requires CollisionFreeOn(h, TreePairs(h, a) + TreePairs(h, b))
    ensures Root(h, a) == Root(h, b) <==> SameFilled(a, b)
    decreases |a|
  {
    if |a| == 1 || |b| == 1 {
      assert |a| == 1 && |b| == 1;
      assert AgreeAt(a, b, 0) <==> a[0] == b[0];
    } else {
      RootBinding(h, NextLevel(h, a), NextLevel(h, b));
      LevelsAgree(h, a, b);
    }
  }

  /** Two snapshots of equal size share a root if and only if they are the same list. */
  lemma EqualSizeBinding(h: PairHash, a: seq<Bytes32>, b: seq<Bytes32>)
    requires |a| == |b|
    requires CollisionFreeOn(h, TreePairs(h, a) + TreePairs(h, b))
    ensures Root(h, a) == Root(h, b) <==> a == b
  {
    if a != [] {
      RootBinding(h, a, b);
      if SameFilled(a, b) {
        forall i | 0 <= i < |a| ensures a[i] == b[i] {
          assert AgreeAt(a, b, i);
          ResolveIsIdentity(|a|, i);
        }
      }
    }
  }

  /** Equal size is needed: repeating the last of three leaves keeps the root, for every hash. */
  lemma SizeIsNotBound(h: PairHash, a: Bytes32, b: Bytes32, c: Bytes32)
    ensures Root(h, [a, b, c]) == Root(h, [a, b, c, c]) && [a, b, c] != [a, b, c, c]
  {
    var odd, even := [a, b, c], [a, b, c, c];
    assert RightOf(odd, 0) == RightOf(even, 0) == b && RightOf(odd, 1) == RightOf(even, 1) == c;
    assert NextLevel(h, odd) == NextLevel(h, even);
    assert |[a, b, c]| != |[a, b, c, c]|;
  }
}
