/** What a root commits to. Nothing is assumed of the hash: each result either holds,
    or the collision computed from its own arguments is a real one. */
module MerkleBinding {
  import opened Basics
  import opened Bits
  import opened MerkleSpec
  import opened OffchainMerkle
  import OnchainMerkle

  /** The two messages hashed by `HashPair` on two pairs of nodes. */
  function PairCollision(l1: Digest, r1: Digest, l2: Digest, r2: Digest): Collision {
    Collision(l1.bytes + r1.bytes, l2.bytes + r2.bytes)
  }

  lemma EqualParents(keccak: Keccak, l1: Digest, r1: Digest, l2: Digest, r2: Digest)
    requires HashPair(keccak, l1, r1) == HashPair(keccak, l2, r2)
    ensures (l1 == l2 && r1 == r2) || IsCollision(keccak, PairCollision(l1, r1, l2, r2))
  {
    if l1.bytes + r1.bytes == l2.bytes + r2.bytes {
      assert l1.bytes == (l1.bytes + r1.bytes)[..32] == (l2.bytes + r2.bytes)[..32] == l2.bytes;
      assert r1.bytes == (l1.bytes + r1.bytes)[32..] == (l2.bytes + r2.bytes)[32..] == r2.bytes;
    }
  }

  /** Where two climbs along the same directions merge. */
  function ClimbCollision(x: Digest, s: Digest, y: Digest, t: Digest, goRight: bool): Collision {
    if goRight then PairCollision(s, x, t, y) else PairCollision(x, s, y, t)
  }

  /** The merging point of two different proofs with the same directions. */
  function MergePoint(keccak: Keccak, x: Digest, s: seq<Digest>, y: Digest, t: seq<Digest>, bits: nat): Collision
    requires |s| == |t|
    decreases |s|
  {
    if s == [] then Collision([], [])
    else
      var goRight := bits % 2 == 1;
      var x', y' := Climb(keccak, x, s[0], goRight), Climb(keccak, y, t[0], goRight);
      if x' == y' && s[1..] == t[1..] then ClimbCollision(x, s[0], y, t[0], goRight)
      else MergePoint(keccak, x', s[1..], y', t[1..], bits / 2)
  }

  /** Two proofs of one length and one index reaching one root are the same proof. */
  lemma {:induction false} FoldBinds(keccak: Keccak, x: Digest, s: seq<Digest>, y: Digest, t: seq<Digest>, bits: nat)
    requires |s| == |t|
    requires Fold(keccak, x, s, bits) == Fold(keccak, y, t, bits)
    ensures (x == y && s == t) || IsCollision(keccak, MergePoint(keccak, x, s, y, t, bits))
    decreases |s|
  {
    if s != [] {
      var goRight := bits % 2 == 1;
      var x', y' := Climb(keccak, x, s[0], goRight), Climb(keccak, y, t[0], goRight);
      if x' == y' && s[1..] == t[1..] {
        if goRight { EqualParents(keccak, s[0], x, t[0], y); } else { EqualParents(keccak, x, s[0], y, t[0]); }
        assert s == [s[0]] + s[1..] && t == [t[0]] + t[1..];
      } else {
        FoldBinds(keccak, x', s[1..], y', t[1..], bits / 2);
      }
    }
  }

  /** The node that a proof of length `k` with directions `bits` must be about: the one
      stored `k` levels below the root, on the path `bits`. */
  function Target(keccak: Keccak, leaves: seq<Digest>, k: nat, bits: nat): Digest
    requires leaves != [] && k <= Depth(|leaves|)
  {
    var level := LevelAt(keccak, leaves, Depth(|leaves|) - k);
    level[Descend(|level|, bits)]
  }

  /** The only siblings such a proof can carry. */
  function TargetPath(keccak: Keccak, leaves: seq<Digest>, k: nat, bits: nat): (path: seq<Digest>)
    requires leaves != [] && k <= Depth(|leaves|)
    ensures |path| == k
  {
    DepthAfter(|leaves|, Depth(|leaves|) - k);
    Siblings(keccak, LevelAt(keccak, leaves, Depth(|leaves|) - k), bits)
  }

  function BindingCollision(keccak: Keccak, leaves: seq<Digest>, x: Digest, siblings: seq<Digest>, bits: nat): Collision
    requires leaves != [] && |siblings| <= Depth(|leaves|)
  {
    var k := |siblings|;
    MergePoint(keccak, x, siblings, Target(keccak, leaves, k, bits), TargetPath(keccak, leaves, k, bits), bits)
  }

  /** Every stored node is accepted, with a proof as long as its distance from the root. */
  lemma {:induction false} StoredNodeVerifies(keccak: Keccak, leaves: seq<Digest>, k: nat, bits: nat)
    requires leaves != [] && k <= Depth(|leaves|)
    ensures Fold(keccak, Target(keccak, leaves, k, bits), TargetPath(keccak, leaves, k, bits), bits)
         == Root(keccak, leaves)
  {
    var j := Depth(|leaves|) - k;
    LevelsAreIterates(keccak, leaves, j);
    SiblingsFoldToRoot(keccak, LevelAt(keccak, leaves, j), bits);
  }

  lemma {:induction false} BindingWithinDepth(keccak: Keccak, leaves: seq<Digest>, x: Digest, siblings: seq<Digest>,
                                              bits: nat)
    requires leaves != [] && |siblings| <= Depth(|leaves|)
    ensures
      || IsCollision(keccak, BindingCollision(keccak, leaves, x, siblings, bits))
      || (Fold(keccak, x, siblings, bits) == Root(keccak, leaves) <==>
          x == Target(keccak, leaves, |siblings|, bits) && siblings == TargetPath(keccak, leaves, |siblings|, bits))
  {
    var k := |siblings|;
    var y, t := Target(keccak, leaves, k, bits), TargetPath(keccak, leaves, k, bits);
    StoredNodeVerifies(keccak, leaves, k, bits);
    if Fold(keccak, x, siblings, bits) == Root(keccak, leaves) {
      FoldBinds(keccak, x, siblings, y, t, bits);
    }
  }

  /** The part of a proof above the leaf level: where its last `Depth(|leaves|)` siblings
      start, the node that the siblings before them reach, and the bits left for them. */
  datatype Tail = Tail(node: Digest, siblings: seq<Digest>, bits: nat)

  function TailOf(keccak: Keccak, leaves: seq<Digest>, x: Digest, siblings: seq<Digest>, bits: nat): (tail: Tail)
    ensures |tail.siblings| <= Depth(|leaves|)
    ensures |siblings| <= Depth(|leaves|) ==> tail == Tail(x, siblings, bits)
    ensures |siblings| >= Depth(|leaves|) ==> |tail.siblings| == Depth(|leaves|)
  {
    if |siblings| <= Depth(|leaves|) then Tail(x, siblings, bits)
    else
      var m := |siblings| - Depth(|leaves|);
      Tail(Fold(keccak, x, siblings[..m], bits), siblings[m..], ShiftRight(bits, m))
  }

  /** The proof passes through a stored node, along exactly that node's path to the root:
      the claimed node itself up to the tree's depth, a leaf for any longer proof. */
  predicate OnStoredPath(keccak: Keccak, leaves: seq<Digest>, x: Digest, siblings: seq<Digest>, bits: nat)
    requires leaves != []
  {
    var tail := TailOf(keccak, leaves, x, siblings, bits);
    var k := |tail.siblings|;
    tail.node == Target(keccak, leaves, k, tail.bits) && tail.siblings == TargetPath(keccak, leaves, k, tail.bits)
  }

  function AnyCollision(keccak: Keccak, leaves: seq<Digest>, x: Digest, siblings: seq<Digest>, bits: nat): Collision
    requires leaves != []
  {
    var tail := TailOf(keccak, leaves, x, siblings, bits);
    BindingCollision(keccak, leaves, tail.node, tail.siblings, tail.bits)
  }

  /** Acceptance at every length: a proof is accepted exactly when it runs along the path of
      a stored node, or the collision computed from it is a real one. */
  lemma {:induction false} BindingAtEveryDepth(keccak: Keccak, leaves: seq<Digest>, x: Digest, siblings: seq<Digest>,
                                               bits: nat)
    requires leaves != []
    ensures
      || IsCollision(keccak, AnyCollision(keccak, leaves, x, siblings, bits))
      || (Fold(keccak, x, siblings, bits) == Root(keccak, leaves) <==> OnStoredPath(keccak, leaves, x, siblings, bits))
  {
    hide Fold, Root, Target, TargetPath, BindingCollision, IsCollision;
    var tail := TailOf(keccak, leaves, x, siblings, bits);
    if |siblings| > Depth(|leaves|) {
      FoldSplit(keccak, x, siblings, bits, |siblings| - Depth(|leaves|));
    }
    BindingWithinDepth(keccak, leaves, tail.node, tail.siblings, tail.bits);
  }

  /** A full-length accepted proof is about a leaf of the set; with an index in range it is
      the leaf at that index, and the siblings are those `Proof` returns. */
  lemma {:induction false} LeafBinding(keccak: Keccak, leaves: seq<Digest>, x: Digest, siblings: seq<Digest>, bits: nat)
    requires leaves != [] && |siblings| == Depth(|leaves|)
    requires Fold(keccak, x, siblings, bits) == Root(keccak, leaves)
    ensures
      || IsCollision(keccak, BindingCollision(keccak, leaves, x, siblings, bits))
      || (&& x in leaves
          && (bits < |leaves| ==> x == leaves[bits] && siblings == Siblings(keccak, leaves, bits)))
  {
    BindingWithinDepth(keccak, leaves, x, siblings, bits);
    if bits < |leaves| {
      DescendInRange(|leaves|, bits);
    }
  }

  /** What an accepted proof of any length says: it runs along a stored path; from the tree's
      depth on it passes through a leaf of the set, which is the claimed node itself for a
      proof of exactly that length. */
  lemma {:induction false} AcceptedIsStored(keccak: Keccak, leaves: seq<Digest>, x: Digest, siblings: seq<Digest>,
                                            bits: nat)
    requires leaves != [] && Fold(keccak, x, siblings, bits) == Root(keccak, leaves)
    ensures
      || IsCollision(keccak, AnyCollision(keccak, leaves, x, siblings, bits))
      || (&& OnStoredPath(keccak, leaves, x, siblings, bits)
          && (|siblings| >= Depth(|leaves|) ==> TailOf(keccak, leaves, x, siblings, bits).node in leaves)
          && (|siblings| == Depth(|leaves|) ==> x in leaves))
  {
    BindingAtEveryDepth(keccak, leaves, x, siblings, bits);
    hide Fold, Root, IsCollision, AnyCollision;
    if |siblings| >= Depth(|leaves|) && OnStoredPath(keccak, leaves, x, siblings, bits) {
      var tail := TailOf(keccak, leaves, x, siblings, bits);
      FullTargetIsLeaf(keccak, leaves, tail.bits);
    }
  }

  lemma {:induction false} FullTargetIsLeaf(keccak: Keccak, leaves: seq<Digest>, bits: nat)
    requires leaves != []
    ensures Target(keccak, leaves, Depth(|leaves|), bits) in leaves
  {
  }

  /** The verifier does not look at the proof's length: above the leaves, inner nodes are
      accepted with shorter proofs. */
  lemma {:induction false} InnerNodeAccepted(keccak: Keccak, leaves: seq<Digest>, j: nat, p: nat)
    requires leaves != [] && j <= Depth(|leaves|) && p < |LevelAt(keccak, leaves, j)|
    ensures var k := Depth(|leaves|) - j;
      Fold(keccak, LevelAt(keccak, leaves, j)[p], TargetPath(keccak, leaves, k, p), p) == Root(keccak, leaves)
  {
    hide Fold, Root, Siblings, LevelAt, Depth;
    StoredNodeVerifies(keccak, leaves, Depth(|leaves|) - j, p);
    DescendInRange(|LevelAt(keccak, leaves, j)|, p);
  }

  /** Nor does it stop at the leaves: below an accepted node that is itself a hash of two
      nodes, both are accepted with one more sibling, so a leaf may have accepted preimages. */
  lemma {:induction false} OverlongProofAccepted(keccak: Keccak, a: Digest, b: Digest, siblings: seq<Digest>, bits: nat,
                                                 root: Digest)
    requires Fold(keccak, HashPair(keccak, a, b), siblings, bits) == root
    ensures Fold(keccak, a, [b] + siblings, 2 * bits) == root
    ensures Fold(keccak, b, [a] + siblings, 2 * bits + 1) == root
    ensures var leaves := [HashPair(keccak, a, b)];
      Depth(|leaves|) == 0 && Fold(keccak, a, [b], 0) == Root(keccak, leaves)
  {
    assert ([b] + siblings)[1..] == siblings && ([a] + siblings)[1..] == siblings;
  }

  /** The depth of a tree is the ceiling of log2 of its size, so the on-chain depth guard
      passes exactly up to 2^20 leaves; the index always fits its 64-bit word. */
  lemma {:induction false} ProofFitsOnchain(keccak: Keccak, leaves: seq<Digest>, index: nat)
    requires index < |leaves|
    ensures |Siblings(keccak, leaves, index)| <= OnchainMerkle.MAX_MERKLE_DEPTH <==> |leaves| <= 1048576
    ensures |leaves| <= U64_MAX + 1 ==> |Siblings(keccak, leaves, index)| <= 64 && index <= U64_MAX
  {
    hide Pow2, Depth, Siblings;
    WordSizes();
    DepthIsCeilLog2(|leaves|, 20);
    DepthIsCeilLog2(|leaves|, 64);
  }

  /** The smallest trees, hash by hash: no leaves give 32 zero bytes, one leaf is its own
      root, a third leaf is paired with itself. */
  lemma {:induction false} SmallTrees(keccak: Keccak, x: Digest, y: Digest, z: Digest)
    ensures forall i :: 0 <= i < 32 ==> TreeRoot(keccak, []).bytes[i] == 0
    ensures TreeRoot(keccak, [x]) == x
    ensures TreeRoot(keccak, [x, y]) == keccak(x.bytes + y.bytes)
    ensures TreeRoot(keccak, [x, y, z])
         == keccak(keccak(x.bytes + y.bytes).bytes + keccak(z.bytes + z.bytes).bytes)
  {
    var three := [x, y, z];
    assert three[2..] == [z];
    assert Parents(keccak, three) == [HashPair(keccak, x, y), HashPair(keccak, z, z)];
    PairRoot(keccak, x, y);
    PairRoot(keccak, HashPair(keccak, x, y), HashPair(keccak, z, z));
  }

  lemma {:induction false} PairRoot(keccak: Keccak, x: Digest, y: Digest)
    ensures Root(keccak, [x, y]) == HashPair(keccak, x, y)
  {
    assert Parents(keccak, [x, y]) == [HashPair(keccak, x, y)];
    assert Root(keccak, [HashPair(keccak, x, y)]) == HashPair(keccak, x, y);
  }

  /** Build, prove, verify: what the service proves, both verifiers accept, however the
      off-chain side is built. */
  method ProofsVerifyOnBothSides(keccak: Keccak, leaves: LeafList, index: nat, checked: bool)
      returns (offchain: Option<bool>, onchain: Option<bool>)
    requires leaves != []
    ensures offchain == onchain == if index < |leaves| then Some(true) else None
  {
    var tree, calls := FromLeaves(keccak, leaves);
    RootNodeIsTreeRoot(keccak, leaves);
    var proof := tree.Proof(index, keccak, leaves);
    match proof {
      case None => return None, None;
      case Some(path) =>
        ProofFitsOnchain(keccak, leaves, index);
        DescendInRange(|leaves|, index);
        SiblingsFoldToRoot(keccak, leaves, index);
        var leaf, root := leaves[index], tree.RootNode();
        offchain := OffchainMerkle.Verify(keccak, leaf, path.siblings, path.indexBits, root, checked);
        onchain := OnchainMerkle.Verify(keccak, leaf, path.siblings, path.indexBits, root);
    }
  }
}
