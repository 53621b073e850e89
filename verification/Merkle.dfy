/** The meaning of an issuer's Merkle tree: levels, root, membership paths. */
module MerkleSpec {
  import opened Basics
  import opened Bits

  function HashPair(keccak: Keccak, left: Digest, right: Digest): Digest {
    keccak(left.bytes + right.bytes)
  }

  /** One step towards the root; `goRight` says that `node` is the right child. */
  function Climb(keccak: Keccak, node: Digest, sibling: Digest, goRight: bool): Digest {
    if goRight then HashPair(keccak, sibling, node) else HashPair(keccak, node, sibling)
  }

  /** The root reached from `node`, consuming one direction bit per sibling. */
  function Fold(keccak: Keccak, node: Digest, siblings: seq<Digest>, bits: nat): Digest
    decreases |siblings|
  {
    if siblings == [] then node
    else Fold(keccak, Climb(keccak, node, siblings[0], bits % 2 == 1), siblings[1..], bits / 2)
  }

  /** The right partner of the even position `i`: its neighbour, or itself at an odd end. */
  function Partner(i: nat, width: nat): (j: nat)
    requires i < width
    ensures j < width
  {
    if i + 1 < width then i + 1 else i
  }

  /** The position of the other child of `i`'s parent. */
  function SiblingIndex(i: nat, width: nat): (j: nat)
    requires i < width
    ensures j < width
  {
    if i % 2 == 1 then i - 1 else Partner(i, width)
  }

  /** The level above `level`: each even position hashed with its partner. */
  function Parents(keccak: Keccak, level: seq<Digest>): (up: seq<Digest>)
    requires level != []
    ensures |up| == (|level| + 1) / 2
  {
    var parent := HashPair(keccak, level[0], level[Partner(0, |level|)]);
    if |level| <= 2 then [parent] else [parent] + Parents(keccak, level[2..])
  }

  lemma {:induction false} ParentAt(keccak: Keccak, level: seq<Digest>, i: nat)
    requires 2 * i < |level|
    ensures Parents(keccak, level)[i] == HashPair(keccak, level[2 * i], level[Partner(2 * i, |level|)])
    decreases i
  {
    if i > 0 {
      ParentAt(keccak, level[2..], i - 1);
      assert Parents(keccak, level)[i] == Parents(keccak, level[2..])[i - 1];
    }
  }

  /** All levels, leaves first, the single root last. */
  function Levels(keccak: Keccak, level: seq<Digest>): (levels: seq<seq<Digest>>)
    requires level != []
    ensures |levels| == Depth(|level|) + 1
    decreases |level|
  {
    if |level| == 1 then [level] else [level] + Levels(keccak, Parents(keccak, level))
  }

  function Root(keccak: Keccak, level: seq<Digest>): Digest
    requires level != []
    decreases |level|
  {
    if |level| == 1 then level[0] else Root(keccak, Parents(keccak, level))
  }

  /** The `k`-th level above `level`. */
  function LevelAt(keccak: Keccak, level: seq<Digest>, k: nat): (up: seq<Digest>)
    requires level != []
    ensures |up| == CeilShift(|level|, k) >= 1
    decreases k
  {
    if k == 0 then level else LevelAt(keccak, Parents(keccak, level), k - 1)
  }

  /** The node met when a level of width `width` is reached from the root along the
      bits of `p`, staying on the last node wherever an odd level has no right child. */
  function Descend(width: nat, p: nat): (q: nat)
    requires width >= 1
    ensures q < width
    decreases width
  {
    if width == 1 then 0
    else
      var up := 2 * Descend((width + 1) / 2, p / 2);
      if p % 2 == 1 then Partner(up, width) else up
  }

  /** The siblings met on the way from `Descend(|level|, p)` to the root. */
  function Siblings(keccak: Keccak, level: seq<Digest>, p: nat): (siblings: seq<Digest>)
    requires level != []
    ensures |siblings| == Depth(|level|)
    decreases |level|
  {
    if |level| == 1 then []
    else
      var up := 2 * Descend((|level| + 1) / 2, p / 2);
      var sibling := if p % 2 == 1 then level[up] else level[Partner(up, |level|)];
      [sibling] + Siblings(keccak, Parents(keccak, level), p / 2)
  }

  /** Hash calls made while building the tree over `n` leaves. */
  function BuildCost(n: nat): nat {
    if n <= 1 then 0 else (n + 1) / 2 + BuildCost((n + 1) / 2)
  }

  /** A position that exists is reached as itself: no clamping happens on its path. */
  lemma {:induction false} DescendInRange(width: nat, p: nat)
    requires p < width
    ensures Descend(width, p) == p
    decreases width
  {
    if width > 1 {
      DescendInRange((width + 1) / 2, p / 2);
    }
  }

  /** The sibling met at height `k` above an existing position. */
  lemma {:induction false} SiblingAt(keccak: Keccak, level: seq<Digest>, p: nat, k: nat)
    requires p < |level| && k < Depth(|level|)
    ensures var nodes, idx := LevelAt(keccak, level, k), ShiftRight(p, k);
      idx < |nodes| && Siblings(keccak, level, p)[k] == nodes[SiblingIndex(idx, |nodes|)]
    decreases k
  {
    hide Parents;
    if k == 0 {
      DescendInRange((|level| + 1) / 2, p / 2);
    } else {
      var parents := Parents(keccak, level);
      SiblingAt(keccak, parents, p / 2, k - 1);
      assert Siblings(keccak, level, p)[1..] == Siblings(keccak, parents, p / 2);
    }
  }

  lemma {:induction false} LevelsAreIterates(keccak: Keccak, level: seq<Digest>, k: nat)
    requires level != [] && k <= Depth(|level|)
    ensures Levels(keccak, level)[k] == LevelAt(keccak, level, k)
    ensures Root(keccak, LevelAt(keccak, level, k)) == Root(keccak, level)
    ensures k == Depth(|level|) ==> LevelAt(keccak, level, k) == [Root(keccak, level)]
    decreases k
  {
    if k > 0 {
      LevelsAreIterates(keccak, Parents(keccak, level), k - 1);
    }
  }

  /** Every node the tree stores, addressed by any path, climbs to the root. */
  lemma {:induction false} SiblingsFoldToRoot(keccak: Keccak, level: seq<Digest>, p: nat)
    requires level != []
    ensures Fold(keccak, level[Descend(|level|, p)], Siblings(keccak, level, p), p) == Root(keccak, level)
    decreases |level|
  {
    if |level| > 1 {
      var siblings := Siblings(keccak, level, p);
      var parents := Parents(keccak, level);
      var q := Descend(|parents|, p / 2);
      ParentAt(keccak, level, q);
      assert Climb(keccak, level[Descend(|level|, p)], siblings[0], p % 2 == 1) == parents[q];
      SiblingsFoldToRoot(keccak, parents, p / 2);
      assert siblings[1..] == Siblings(keccak, parents, p / 2);
    }
  }

  /** A proof is a walk: the first `m` siblings, then the rest from the node reached. */
  lemma {:induction false} FoldSplit(keccak: Keccak, node: Digest, siblings: seq<Digest>, bits: nat, m: nat)
    requires m <= |siblings|
    ensures Fold(keccak, node, siblings, bits) ==
      Fold(keccak, Fold(keccak, node, siblings[..m], bits), siblings[m..], ShiftRight(bits, m))
    decreases m
  {
    if m == 0 {
      assert siblings[m..] == siblings;
    } else {
      FoldSplit(keccak, Climb(keccak, node, siblings[0], bits % 2 == 1), siblings[1..], bits / 2, m - 1);
      assert siblings[..m][1..] == siblings[1..][..m - 1] && siblings[1..][m - 1..] == siblings[m..];
    }
  }

  lemma {:induction false} FoldStep(keccak: Keccak, node: Digest, siblings: seq<Digest>, bits: nat, level: nat)
    requires level < |siblings|
    ensures Fold(keccak, node, siblings[level..], ShiftRight(bits, level)) ==
      Fold(keccak, Climb(keccak, node, siblings[level], BitSet(bits, level)), siblings[level + 1..],
           ShiftRight(bits, level + 1))
  {
    ShiftRightNext(bits, level);
    assert siblings[level..][1..] == siblings[level + 1..];
  }

  /** What the verifiers compute on a proof of any length. A shift by 64 or more aborts in
      a build with overflow checks, and wraps the shift amount in one without. */
  function Recomputed(keccak: Keccak, leaf: Digest, siblings: seq<Digest>, bits: Word64, checked: bool)
      : Option<Digest> {
    if checked && |siblings| > 64 then None
    else Some(Fold(keccak, leaf, siblings, Unrolled(bits, |siblings|)))
  }

  /** Direction bits above the proof's length are ignored. */
  lemma {:induction false} FoldReadsLowBits(keccak: Keccak, node: Digest, siblings: seq<Digest>, bits: nat)
    ensures Fold(keccak, node, siblings, bits) == Fold(keccak, node, siblings, LowBits(bits, |siblings|))
    decreases |siblings|
  {
    if siblings != [] {
      FoldReadsLowBits(keccak, Climb(keccak, node, siblings[0], bits % 2 == 1), siblings[1..], bits / 2);
    }
  }

  lemma {:induction false} BuildCostClosedForm(n: nat)
    requires n >= 1
    ensures BuildCost(n) + PopCount(n - 1) == (n - 1) + Depth(n)
    decreases n
  {
    if n > 1 {
      BuildCostClosedForm((n + 1) / 2);
      assert (n + 1) / 2 - 1 == (n - 1) / 2;
    }
  }
}

/** `offchain/crates/core/src/merkle.rs`. */
module OffchainMerkle {
  import opened Basics
  import opened Bits
  import opened MerkleSpec

  /** A list of leaves that a vector can hold. */
  type LeafList = s: seq<Digest> | |s| <= U64_MAX witness []

  /** A membership proof: siblings from leaf to root, and the direction bits. */
  datatype Path = Path(siblings: seq<Digest>, indexBits: nat)

  function Last<T>(s: seq<T>): T
    requires s != []
  {
    s[|s| - 1]
  }

  datatype MerkleTree = MerkleTree(levels: seq<seq<Digest>>) {

    predicate Valid() {
      levels != [] && forall i :: 0 <= i < |levels| ==> levels[i] != []
    }

    function RootNode(): Digest
      requires Valid()
    {
      Last(Last(levels))
    }

    function LeafCount(): nat
      requires Valid()
    {
      |levels[0]|
    }

    /** A membership proof for the leaf at `index`; `leaves` names what the tree was built from. */
    method Proof(index: nat, ghost keccak: Keccak, ghost leaves: seq<Digest>) returns (path: Option<Path>)
      requires this == TreeOf(keccak, leaves)
      ensures leaves != [] ==>
        path == if index < |leaves| then Some(Path(Siblings(keccak, leaves, index), index)) else None
      ensures leaves == [] ==> path == if index == 0 then Some(Path([], 0)) else None
    {
      if index >= LeafCount() {
        return None;
      }
      ghost var base := if leaves == [] then [ZERO_DIGEST] else leaves;
      var p := WalkUp(levels, index, keccak, base);
      path := Some(p);
    }
  }

  /** The loop of `Proof`, over the levels built from `base`. */
  method WalkUp(levels: seq<seq<Digest>>, index: nat, ghost keccak: Keccak, ghost base: seq<Digest>)
      returns (path: Path)
    requires index < |base| && levels == Levels(keccak, base)
    ensures path == Path(Siblings(keccak, base, index), index)
  {
    var siblings: seq<Digest> := [];
    var indexBits: nat := 0;
    var idx: nat := index;
    var level := 0;
    while level < |levels|
      invariant level <= Depth(|base|) && |siblings| == level
      invariant forall k :: 0 <= k < level ==> siblings[k] == Siblings(keccak, base, index)[k]
      invariant indexBits == LowBits(index, level) && idx == ShiftRight(index, level)
    {
      hide Siblings, Levels, Depth, LowBits, ShiftRight;
      var nodes := levels[level];
      WalkStep(keccak, base, index, level);
      if |nodes| <= 1 {
        break;
      }
      var isRight := idx % 2 == 1;
      var sibIdx := if isRight then idx - 1 else if idx + 1 <= |nodes| - 1 then idx + 1 else |nodes| - 1;
      siblings := siblings + [nodes[sibIdx]];
      if isRight {
        indexBits := OrBit(indexBits, level, index);
      }
      idx := idx / 2;
      level := level + 1;
    }
    path := Path(siblings, indexBits);
  }

  /** What one iteration of `WalkUp` finds at `level`. */
  lemma {:induction false} WalkStep(keccak: Keccak, base: seq<Digest>, index: nat, level: nat)
    requires index < |base| && level <= Depth(|base|)
    ensures var nodes, idx := Levels(keccak, base)[level], ShiftRight(index, level);
      && (|nodes| <= 1 <==> level == Depth(|base|))
      && (|nodes| > 1 ==> idx < |nodes| && Siblings(keccak, base, index)[level] == nodes[SiblingIndex(idx, |nodes|)])
      && (|nodes| <= 1 ==> LowBits(index, level) == index)
      && LowBits(index, level + 1) == LowBits(index, level) + (if idx % 2 == 1 then Pow2(level) else 0)
      && ShiftRight(index, level + 1) == idx / 2
  {
    hide Siblings, Levels, Depth, LowBits, ShiftRight;
    LevelsAreIterates(keccak, base, level);
    TopReached(|base|, index, level);
    if level < Depth(|base|) {
      SiblingAt(keccak, base, index, level);
    }
    LowBitsNext(index, level);
    ShiftRightNext(index, level);
  }

  /** The walk of `Proof` stops at the root exactly, with every bit of `index` recorded. */
  lemma {:induction false} TopReached(n: nat, index: nat, level: nat)
    requires index < n && level <= Depth(n)
    ensures CeilShift(n, level) <= 1 <==> level == Depth(n)
    ensures level == Depth(n) ==> LowBits(index, level) == index
  {
    DepthAfter(n, level);
    DepthIsCeilLog2(n, level);
    LowBitsSmall(index, level);
  }

  /** `bits |= 1 << level` while `bits` holds the bits of `index` below `level`. */
  method OrBit(bits: nat, level: nat, ghost index: nat) returns (r: nat)
    requires bits == LowBits(index, level)
    ensures r == bits + Pow2(level)
  {
    LowBitsSmall(index, level);
    ShiftRightSmall(bits, level);
    r := SetBit(bits, level);
  }

  /** What `FromLeaves` builds: no leaves at all give the single zero node. */
  function TreeOf(keccak: Keccak, leaves: seq<Digest>): (tree: MerkleTree)
    ensures tree.Valid()
  {
    if leaves != [] then LevelsAreNonEmpty(keccak, leaves); MerkleTree(Levels(keccak, leaves))
    else MerkleTree([[ZERO_DIGEST]])
  }

  lemma {:induction false} LevelsAreNonEmpty(keccak: Keccak, leaves: seq<Digest>)
    requires leaves != []
    ensures MerkleTree(Levels(keccak, leaves)).Valid()
  {
    forall i | 0 <= i < |Levels(keccak, leaves)|
      ensures Levels(keccak, leaves)[i] != []
    {
      LevelsAreIterates(keccak, leaves, i);
    }
  }

  /** The inner loop of `FromLeaves`: hashes one level into the next. */
  method NextLevel(keccak: Keccak, cur: seq<Digest>) returns (next: seq<Digest>, ghost hashCalls: nat)
    requires cur != []
    ensures next == Parents(keccak, cur)
    ensures hashCalls == |next|
  {
    next, hashCalls := [], 0;
    var i := 0;
    while i < |cur|
      invariant i == 2 * |next| && |next| <= (|cur| + 1) / 2 && hashCalls == |next|
      invariant forall k :: 0 <= k < |next| ==> next[k] == Parents(keccak, cur)[k]
    {
      var left := cur[i];
      ParentAt(keccak, cur, |next|);
      var right := if i + 1 < |cur| then cur[i + 1] else cur[i];
      next := next + [HashPair(keccak, left, right)];
      hashCalls := hashCalls + 1;
      i := i + 2;
    }
  }

  method FromLeaves(keccak: Keccak, leaves: seq<Digest>) returns (tree: MerkleTree, ghost hashCalls: nat)
    ensures tree == TreeOf(keccak, leaves)
    ensures hashCalls == BuildCost(|leaves|)
  {
    hashCalls := 0;
    if leaves == [] {
      return MerkleTree([[ZERO_DIGEST]]), 0;
    }
    var levels := [leaves];
    ghost var below := [];
    while |Last(levels)| > 1
      invariant levels != [] && Last(levels) != [] && levels == below + [Last(levels)]
      invariant below + Levels(keccak, Last(levels)) == Levels(keccak, leaves)
      invariant hashCalls + BuildCost(|Last(levels)|) == BuildCost(|leaves|)
      decreases |Last(levels)|
    {
      hide *;
      var cur := Last(levels);
      ghost var calls;
      var next;
      next, calls := NextLevel(keccak, cur);
      LevelAdded(keccak, below, cur);
      hashCalls := hashCalls + calls;
      below := below + [cur];
      LastOfAppend(levels, next);
      levels := levels + [next];
    }
    tree := MerkleTree(levels);
  }

  lemma LastOfAppend<T>(s: seq<T>, x: T)
    ensures Last(s + [x]) == x
  {
  }

  lemma {:induction false} LevelAdded(keccak: Keccak, below: seq<seq<Digest>>, cur: seq<Digest>)
    requires |cur| > 1
    ensures below + Levels(keccak, cur) == (below + [cur]) + Levels(keccak, Parents(keccak, cur))
    ensures BuildCost(|cur|) == |Parents(keccak, cur)| + BuildCost(|Parents(keccak, cur)|)
  {
  }

  /** The root of the tree over a leaf list; no leaves at all give the zero digest. */
  function TreeRoot(keccak: Keccak, leaves: seq<Digest>): Digest {
    if leaves == [] then ZERO_DIGEST else Root(keccak, leaves)
  }

  lemma RootNodeIsTreeRoot(keccak: Keccak, leaves: seq<Digest>)
    ensures TreeOf(keccak, leaves).RootNode() == TreeRoot(keccak, leaves)
  {
    if leaves != [] {
      LevelsAreIterates(keccak, leaves, Depth(|leaves|));
    }
  }

  /** `None` is the panic of a build with overflow checks. */
  method ComputeRoot(keccak: Keccak, leaf: Digest, siblings: seq<Digest>, indexBits: Word64, checked: bool)
      returns (root: Option<Digest>)
    ensures root == Recomputed(keccak, leaf, siblings, indexBits, checked)
  {
    var node := leaf;
    ghost var bits := Unrolled(indexBits, |siblings|);
    for level := 0 to |siblings|
      invariant checked ==> level <= 64
      invariant Fold(keccak, node, siblings[level..], ShiftRight(bits, level)) == Fold(keccak, leaf, siblings, bits)
    {
      hide Unrolled, Fold, ShiftRight, BitSet, HashPair;
      if checked && level >= 64 {
        return None;
      }
      var sib := siblings[level];
      var goRight := BitSet(indexBits, level % 64);
      UnrolledBit(indexBits, |siblings|, level);
      FoldStep(keccak, node, siblings, bits, level);
      node := if goRight then HashPair(keccak, sib, node) else HashPair(keccak, node, sib);
    }
    return Some(node);
  }

  method Verify(keccak: Keccak, leaf: Digest, siblings: seq<Digest>, indexBits: Word64, root: Digest, checked: bool)
      returns (ok: Option<bool>)
    ensures ok == match Recomputed(keccak, leaf, siblings, indexBits, checked)
                  case None => None
                  case Some(node) => Some(node == root)
  {
    var computed := ComputeRoot(keccak, leaf, siblings, indexBits, checked);
    if computed.None? {
      return None;
    }
    return Some(computed.value == root);
  }
}

/** `programs/passkeyauth/src/merkle.rs`: the on-chain mirror of the verifier. The program
    is built with overflow checks, so `None` stands for an abort of the transaction. */
module OnchainMerkle {
  import opened Basics
  import opened Bits
  import opened MerkleSpec

  const MAX_MERKLE_DEPTH: nat := 20

  method ComputeRoot(keccak: Keccak, leaf: Digest, proof: seq<Digest>, indexBits: Word64) returns (root: Option<Digest>)
    ensures root == Recomputed(keccak, leaf, proof, indexBits, true)
  {
    var node := leaf;
    ghost var bits := Unrolled(indexBits, |proof|);
    for level := 0 to |proof|
      invariant level <= 64
      invariant Fold(keccak, node, proof[level..], ShiftRight(bits, level)) == Fold(keccak, leaf, proof, bits)
    {
      hide Unrolled, Fold, ShiftRight, BitSet, HashPair;
      if level >= 64 {
        return None;
      }
      var sibling := proof[level];
      var goRight := BitSet(indexBits, level);
      UnrolledBit(indexBits, |proof|, level);
      FoldStep(keccak, node, proof, bits, level);
      node := if goRight then HashPair(keccak, sibling, node) else HashPair(keccak, node, sibling);
    }
    return Some(node);
  }

  method Verify(keccak: Keccak, leaf: Digest, proof: seq<Digest>, indexBits: Word64, root: Digest)
      returns (ok: Option<bool>)
    ensures ok == match Recomputed(keccak, leaf, proof, indexBits, true)
                  case None => None
                  case Some(node) => Some(node == root)
  {
    var computed := ComputeRoot(keccak, leaf, proof, indexBits);
    if computed.None? {
      return None;
    }
    return Some(computed.value == root);
  }
}
