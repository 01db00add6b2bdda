/** The bridge's Merkle proofs: each pair is put in order before it is hashed, so a proof
    carries no positions. */
module SortedMerkle {
  import opened Hashing

  function Ordered(a: Bytes32, b: Bytes32): Pair {
    if a <= b then (a, b) else (b, a)
  }

  function HashSorted(sha: PairHash, a: Bytes32, b: Bytes32): Bytes32 {
    var p := Ordered(a, b);
    sha(p.0, p.1)
  }

  /** The digest after folding the whole proof, first sibling first. */
  function FoldSorted(sha: PairHash, leaf: Bytes32, proof: seq<Bytes32>): Bytes32 {
    if proof == [] then leaf
    else HashSorted(sha, FoldSorted(sha, leaf, proof[..|proof| - 1]), proof[|proof| - 1])
  }

  method VerifyProof(sha: PairHash, proof: seq<Bytes32>, root: Bytes32, leaf: Bytes32) returns (ok: bool)
    ensures ok <==> FoldSorted(sha, leaf, proof) == root
  {
    var computed := leaf;
    for k := 0 to |proof|
      invariant computed == FoldSorted(sha, leaf, proof[..k])
    {
      assert proof[..k + 1][..k] == proof[..k];
      var sibling := proof[k];
      computed := if computed <= sibling then sha(computed, sibling) else sha(sibling, computed);
    }
    assert proof[..|proof|] == proof;
    ok := computed == root;
  }

  // ---------------------------------------------------------------------------
  // The committed trees
  // ---------------------------------------------------------------------------

  /** Any binary tree of leaf digests; no shape is imposed by the contract. */
  datatype Tree = Leaf(digest: Bytes32) | Node(left: Tree, right: Tree)

  function RootHash(sha: PairHash, t: Tree): Bytes32 {
    match t
    case Leaf(d) => d
    case Node(l, r) => HashSorted(sha, RootHash(sha, l), RootHash(sha, r))
  }

  function Leaves(t: Tree): set<Bytes32> {
    match t
    case Leaf(d) => {d}
    case Node(l, r) => Leaves(l) + Leaves(r)
  }

  function TreePairs(sha: PairHash, t: Tree): set<Pair> {
    match t
    case Leaf(_) => {}
    case Node(l, r) => {Ordered(RootHash(sha, l), RootHash(sha, r))} + TreePairs(sha, l) + TreePairs(sha, r)
  }

  function FoldPairs(sha: PairHash, leaf: Bytes32, proof: seq<Bytes32>): set<Pair> {
    if proof == [] then {}
    else
      var init := proof[..|proof| - 1];
      FoldPairs(sha, leaf, init) + {Ordered(FoldSorted(sha, leaf, init), proof[|proof| - 1])}
  }

  /** `proof` lists, from a leaf with digest `leaf` up to the top, the digests of the other children. */
  predicate IsPath(sha: PairHash, t: Tree, leaf: Bytes32, proof: seq<Bytes32>) {
    match t
    case Leaf(d) => proof == [] && leaf == d
    case Node(l, r) =>
      && proof != []
      && var init, last := proof[..|proof| - 1], proof[|proof| - 1];
         || (last == RootHash(sha, r) && IsPath(sha, l, leaf, init))
         || (last == RootHash(sha, l) && IsPath(sha, r, leaf, init))
  }

  /** None of `digests` is also the hash of a pair in `pairs`: leaf and node digests are told apart. */
  ghost predicate Separated(sha: PairHash, digests: set<Bytes32>, pairs: set<Pair>) {
    forall p | p in pairs :: sha(p.0, p.1) !in digests
  }

  /** In a pair the lower digest is hashed first, whichever side it stands on. */
  lemma LowerDigestFirst(sha: PairHash, a: Bytes32, b: Bytes32)
    requires a <= b
    ensures FoldSorted(sha, a, [b]) == sha(a, b) && FoldSorted(sha, b, [a]) == sha(a, b)
    ensures RootHash(sha, Node(Leaf(a), Leaf(b))) == sha(a, b) && RootHash(sha, Node(Leaf(b), Leaf(a))) == sha(a, b)
  {
    assert [a][..0] == [] && [b][..0] == [];
  }

  /** So the fold hashes, sibling after sibling, the running digest with the next one, the lower first, */
  lemma FoldsLowerFirst(sha: PairHash, leaf: Bytes32, proof: seq<Bytes32>, sibling: Bytes32)
    ensures FoldSorted(sha, leaf, []) == leaf
    ensures var x := FoldSorted(sha, leaf, proof);
            FoldSorted(sha, leaf, proof + [sibling]) == if x <= sibling then sha(x, sibling) else sha(sibling, x)
  {
    assert (proof + [sibling])[..|proof|] == proof;
  }

  /** and a node hashes the digests of its children so. */
  lemma NodeHashesLowerFirst(sha: PairHash, l: Tree, r: Tree)
    ensures var x, y := RootHash(sha, l), RootHash(sha, r);
            RootHash(sha, Node(l, r)) == if x <= y then sha(x, y) else sha(y, x)
  {
  }

  /** The path of any leaf verifies. Nothing is asked of the hash. */
  lemma {:induction false} PathVerifies(sha: PairHash, t: Tree, leaf: Bytes32, proof: seq<Bytes32>)
    requires IsPath(sha, t, leaf, proof)
    ensures FoldSorted(sha, leaf, proof) == RootHash(sha, t)
  {
    if t.Node? {
      var init, last := proof[..|proof| - 1], proof[|proof| - 1];
      if last == RootHash(sha, t.right) && IsPath(sha, t.left, leaf, init) {
        PathVerifies(sha, t.left, leaf, init);
      } else {
        PathVerifies(sha, t.right, leaf, init);
      }
    }
  }

  /** Every leaf of the tree has a path, so every leaf can be proved. */
  lemma {:induction false} LeafHasPath(sha: PairHash, t: Tree, leaf: Bytes32) returns (proof: seq<Bytes32>)
    requires leaf in Leaves(t)
    ensures IsPath(sha, t, leaf, proof) && FoldSorted(sha, leaf, proof) == RootHash(sha, t)
  {
    match t {
      case Leaf(d) =>
        proof := [];
      case Node(l, r) =>
        if leaf in Leaves(l) {
          var init := LeafHasPath(sha, l, leaf);
          proof := init + [RootHash(sha, r)];
          assert proof[..|proof| - 1] == init;
        } else {
          var init := LeafHasPath(sha, r, leaf);
          proof := init + [RootHash(sha, l)];
          assert proof[..|proof| - 1] == init;
        }
    }
    PathVerifies(sha, t, leaf, proof);
  }

  lemma {:induction false} PathEndsInLeaf(sha: PairHash, t: Tree, leaf: Bytes32, proof: seq<Bytes32>)
    requires IsPath(sha, t, leaf, proof)
    ensures leaf in Leaves(t)
  {
    if t.Node? {
      var init, last := proof[..|proof| - 1], proof[|proof| - 1];
      if last == RootHash(sha, t.right) && IsPath(sha, t.left, leaf, init) {
        PathEndsInLeaf(sha, t.left, leaf, init);
      } else {
        PathEndsInLeaf(sha, t.right, leaf, init);
      }
    }
  }

  /** Exact acceptance, for proofs of every length: an accepted proof is the path of a leaf. */
  lemma {:induction false} AcceptedExactly(sha: PairHash, t: Tree, leaf: Bytes32, proof: seq<Bytes32>)
    requires CollisionFreeOn(sha, TreePairs(sha, t) + FoldPairs(sha, leaf, proof))
    requires Separated(sha, {leaf}, TreePairs(sha, t))
    requires Separated(sha, Leaves(t), FoldPairs(sha, leaf, proof))
    ensures FoldSorted(sha, leaf, proof) == RootHash(sha, t) <==> IsPath(sha, t, leaf, proof)
  {
    if IsPath(sha, t, leaf, proof) {
      PathVerifies(sha, t, leaf, proof);
    } else if t.Node? && proof != [] {
      var init, last := proof[..|proof| - 1], proof[|proof| - 1];
      var below := FoldSorted(sha, leaf, init);
      AcceptedExactly(sha, t.left, leaf, init);
      AcceptedExactly(sha, t.right, leaf, init);
      assert Ordered(below, last) in FoldPairs(sha, leaf, proof);
      assert Ordered(RootHash(sha, t.left), RootHash(sha, t.right)) in TreePairs(sha, t);
    } else if t.Node? {
      assert Ordered(RootHash(sha, t.left), RootHash(sha, t.right)) in TreePairs(sha, t);
    } else if proof != [] {
      assert Ordered(FoldSorted(sha, leaf, proof[..|proof| - 1]), proof[|proof| - 1]) in FoldPairs(sha, leaf, proof);
    }
  }

  /** `u` is `t` with the children swapped at any number of nodes. */
  predicate Mirrored(t: Tree, u: Tree)
    decreases t
  {
    match (t, u)
    case (Leaf(d), Leaf(e)) => d == e
    case (Node(l, r), Node(m, s)) => (Mirrored(l, m) && Mirrored(r, s)) || (Mirrored(l, s) && Mirrored(r, m))
    case _ => false
  }

  /** Swapping children anywhere keeps the root. Nothing is asked of the hash. */
  lemma {:induction false} MirroringKeepsRoot(sha: PairHash, t: Tree, u: Tree)
    requires Mirrored(t, u)
    ensures RootHash(sha, t) == RootHash(sha, u)
    decreases t
  {
    if t.Node? {
      if Mirrored(t.left, u.left) && Mirrored(t.right, u.right) {
        MirroringKeepsRoot(sha, t.left, u.left);
        MirroringKeepsRoot(sha, t.right, u.right);
      } else {
        MirroringKeepsRoot(sha, t.left, u.right);
        MirroringKeepsRoot(sha, t.right, u.left);
      }
    }
  }

  lemma NoPairIsALeaf(sha: PairHash, digest: Bytes32, l: Tree, r: Tree)
    requires Separated(sha, {digest}, TreePairs(sha, Node(l, r)))
    ensures RootHash(sha, Node(l, r)) != digest
  {
    assert Ordered(RootHash(sha, l), RootHash(sha, r)) in TreePairs(sha, Node(l, r));
  }

  lemma PairsAgree(sha: PairHash, pairs: set<Pair>, p: Pair, q: Pair)
    requires CollisionFreeOn(sha, pairs) && p in pairs && q in pairs
    ensures sha(p.0, p.1) == sha(q.0, q.1) <==> p == q
  {
  }

  lemma OrderForgetsSides(a: Bytes32, b: Bytes32, x: Bytes32, y: Bytes32)
    ensures Ordered(a, b) == Ordered(x, y) <==> (a == x && b == y) || (a == y && b == x)
  {
  }

  /** Two nodes have one digest exactly when they have the same two children, in either order. */
  lemma NodesAgree(sha: PairHash, l: Tree, r: Tree, m: Tree, s: Tree)
    requires CollisionFreeOn(sha, TreePairs(sha, Node(l, r)) + TreePairs(sha, Node(m, s)))
    ensures RootHash(sha, Node(l, r)) == RootHash(sha, Node(m, s)) <==>
            || (RootHash(sha, l) == RootHash(sha, m) && RootHash(sha, r) == RootHash(sha, s))
            || (RootHash(sha, l) == RootHash(sha, s) && RootHash(sha, r) == RootHash(sha, m))
  {
    var p, q := Ordered(RootHash(sha, l), RootHash(sha, r)), Ordered(RootHash(sha, m), RootHash(sha, s));
    assert p in TreePairs(sha, Node(l, r)) && q in TreePairs(sha, Node(m, s));
    assert RootHash(sha, Node(l, r)) == sha(p.0, p.1) && RootHash(sha, Node(m, s)) == sha(q.0, q.1);
    OrderForgetsSides(RootHash(sha, l), RootHash(sha, r), RootHash(sha, m), RootHash(sha, s));
    hide TreePairs, CollisionFreeOn, RootHash, Ordered;
    PairsAgree(sha, TreePairs(sha, Node(l, r)) + TreePairs(sha, Node(m, s)), p, q);
  }

  /** The two trees' digests tell their pairs apart, and their leaves from their nodes. */
  ghost predicate DigestsApart(sha: PairHash, t: Tree, u: Tree) {
    && CollisionFreeOn(sha, TreePairs(sha, t) + TreePairs(sha, u))
    && Separated(sha, Leaves(t), TreePairs(sha, u)) && Separated(sha, Leaves(u), TreePairs(sha, t))
  }

  lemma PartsApart(sha: PairHash, t: Tree, u: Tree, v: Tree, w: Tree)
    requires DigestsApart(sha, t, u)
    requires TreePairs(sha, v) <= TreePairs(sha, t) && Leaves(v) <= Leaves(t)
    requires TreePairs(sha, w) <= TreePairs(sha, u) && Leaves(w) <= Leaves(u)
    ensures DigestsApart(sha, v, w)
  {
  }

  /** A root commits to a tree exactly up to mirroring. */
  lemma {:induction false} RootBinding(sha: PairHash, t: Tree, u: Tree)
    requires DigestsApart(sha, t, u)
    ensures RootHash(sha, t) == RootHash(sha, u) <==> Mirrored(t, u)
    decreases t
  {
    match (t, u) {
      case (Leaf(_), Leaf(_)) =>
      case (Node(l, r), Node(m, s)) =>
        NodesAgree(sha, l, r, m, s);
        PartsApart(sha, t, u, l, m);
        PartsApart(sha, t, u, r, s);
        PartsApart(sha, t, u, l, s);
        PartsApart(sha, t, u, r, m);
        RootBinding(sha, l, m);
        RootBinding(sha, r, s);
        RootBinding(sha, l, s);
        RootBinding(sha, r, m);
      case (Leaf(d), Node(m, s)) =>
        NoPairIsALeaf(sha, d, m, s);
      case (Node(l, r), Leaf(e)) =>
        NoPairIsALeaf(sha, e, l, r);
    }
  }
}
