/** The duplicate-last rule as a padding rule: the tree over any leaf list is the perfect
    binary tree over that list extended, level by level, to a power of two. */
module MerklePadding {
  import opened Basics
  import opened Bits
  import opened MerkleSpec
  import opened MerkleBinding

  /** The textbook Merkle root of exactly `2^depth` leaves. */
  function PerfectRoot(keccak: Keccak, depth: nat, xs: seq<Digest>): Digest
    requires |xs| == Pow2(depth)
  {
    if depth == 0 then xs[0]
    else
      var half := Pow2(depth - 1);
      HashPair(keccak, PerfectRoot(keccak, depth - 1, xs[..half]), PerfectRoot(keccak, depth - 1, xs[half..]))
  }

  predicate SameLength(blocks: seq<seq<Digest>>, size: nat) {
    forall i :: 0 <= i < |blocks| ==> |blocks[i]| == size
  }

  /** One level of the rule: glue blocks in pairs, an odd last block to a copy of itself. */
  function Glue(blocks: seq<seq<Digest>>): (glued: seq<seq<Digest>>)
    requires blocks != []
    ensures |glued| == (|blocks| + 1) / 2
  {
    var pair := blocks[0] + blocks[Partner(0, |blocks|)];
    if |blocks| <= 2 then [pair] else [pair] + Glue(blocks[2..])
  }

  function Pad(blocks: seq<seq<Digest>>): seq<Digest>
    requires blocks != []
    decreases |blocks|
  {
    if |blocks| == 1 then blocks[0] else Pad(Glue(blocks))
  }

  function Singletons(xs: seq<Digest>): (blocks: seq<seq<Digest>>)
    ensures |blocks| == |xs| && SameLength(blocks, 1)
  {
    if xs == [] then [] else [[xs[0]]] + Singletons(xs[1..])
  }

  /** The leaf list extended to a power of two; no hashing is involved. */
  function Padded(leaves: seq<Digest>): (padded: seq<Digest>)
    requires leaves != []
    ensures |padded| == Pow2(Depth(|leaves|))
  {
    PadLength(Singletons(leaves), 0);
    Pad(Singletons(leaves))
  }

  function BlockRoots(keccak: Keccak, depth: nat, blocks: seq<seq<Digest>>): (roots: seq<Digest>)
    requires SameLength(blocks, Pow2(depth))
    ensures |roots| == |blocks|
  {
    if blocks == [] then [] else [PerfectRoot(keccak, depth, blocks[0])] + BlockRoots(keccak, depth, blocks[1..])
  }

  lemma {:induction false} SingletonAt(xs: seq<Digest>, i: nat)
    requires i < |xs|
    ensures Singletons(xs)[i] == [xs[i]]
    decreases i
  {
    if i > 0 {
      SingletonAt(xs[1..], i - 1);
    }
  }

  lemma {:induction false} BlockRootAt(keccak: Keccak, depth: nat, blocks: seq<seq<Digest>>, i: nat)
    requires SameLength(blocks, Pow2(depth)) && i < |blocks|
    ensures BlockRoots(keccak, depth, blocks)[i] == PerfectRoot(keccak, depth, blocks[i])
    decreases i
  {
    if i > 0 {
      BlockRootAt(keccak, depth, blocks[1..], i - 1);
    }
  }

  lemma {:induction false} GlueAt(blocks: seq<seq<Digest>>, i: nat)
    requires 2 * i < |blocks|
    ensures Glue(blocks)[i] == blocks[2 * i] + blocks[Partner(2 * i, |blocks|)]
    decreases i
  {
    if i > 0 {
      GlueAt(blocks[2..], i - 1);
      assert Glue(blocks)[i] == Glue(blocks[2..])[i - 1];
    }
  }

  lemma {:induction false} GlueLength(blocks: seq<seq<Digest>>, size: nat)
    requires blocks != [] && SameLength(blocks, size)
    ensures SameLength(Glue(blocks), 2 * size)
  {
    forall i | 0 <= i < |Glue(blocks)|
      ensures |Glue(blocks)[i]| == 2 * size
    {
      GlueAt(blocks, i);
    }
  }

  /** Hashing a level is gluing its blocks. */
  lemma {:induction false} GlueHashes(keccak: Keccak, depth: nat, blocks: seq<seq<Digest>>)
    requires blocks != [] && SameLength(blocks, Pow2(depth))
    ensures SameLength(Glue(blocks), Pow2(depth + 1))
    ensures BlockRoots(keccak, depth + 1, Glue(blocks)) == Parents(keccak, BlockRoots(keccak, depth, blocks))
  {
    GlueLength(blocks, Pow2(depth));
    var roots := BlockRoots(keccak, depth, blocks);
    forall i | 0 <= i < |Glue(blocks)|
      ensures BlockRoots(keccak, depth + 1, Glue(blocks))[i] == Parents(keccak, roots)[i]
    {
      BlockRootAt(keccak, depth + 1, Glue(blocks), i);
      BlockRootAt(keccak, depth, blocks, 2 * i);
      BlockRootAt(keccak, depth, blocks, Partner(2 * i, |blocks|));
      GlueAt(blocks, i);
      ParentAt(keccak, roots, i);
      var left, right := blocks[2 * i], blocks[Partner(2 * i, |blocks|)];
      assert (left + right)[..Pow2(depth)] == left && (left + right)[Pow2(depth)..] == right;
    }
  }

  lemma {:induction false} PadLength(blocks: seq<seq<Digest>>, depth: nat)
    requires blocks != [] && SameLength(blocks, Pow2(depth))
    ensures |Pad(blocks)| == Pow2(depth + Depth(|blocks|))
    decreases |blocks|
  {
    if |blocks| > 1 {
      GlueLength(blocks, Pow2(depth));
      PadLength(Glue(blocks), depth + 1);
    }
  }

  lemma {:induction false} PadIsPerfect(keccak: Keccak, depth: nat, blocks: seq<seq<Digest>>, total: nat)
    requires blocks != [] && SameLength(blocks, Pow2(depth)) && total == depth + Depth(|blocks|)
    requires |Pad(blocks)| == Pow2(total)
    ensures Root(keccak, BlockRoots(keccak, depth, blocks)) == PerfectRoot(keccak, total, Pad(blocks))
    decreases |blocks|
  {
    if |blocks| > 1 {
      GlueHashes(keccak, depth, blocks);
      PadIsPerfect(keccak, depth + 1, Glue(blocks), total);
    }
  }

  lemma {:induction false} SingletonRoots(keccak: Keccak, leaves: seq<Digest>)
    ensures BlockRoots(keccak, 0, Singletons(leaves)) == leaves
  {
    var roots := BlockRoots(keccak, 0, Singletons(leaves));
    forall i | 0 <= i < |leaves|
      ensures roots[i] == leaves[i]
    {
      BlockRootAt(keccak, 0, Singletons(leaves), i);
      SingletonAt(leaves, i);
    }
  }

  /** The root of any tree is the perfect root of its padded leaf list. */
  lemma {:induction false} DuplicationIsPadding(keccak: Keccak, leaves: seq<Digest>)
    requires leaves != []
    ensures Root(keccak, leaves) == PerfectRoot(keccak, Depth(|leaves|), Padded(leaves))
  {
    assert Padded(leaves) == Pad(Singletons(leaves)) && Pow2(0) == 1;
    hide *;
    SingletonRoots(keccak, leaves);
    PadIsPerfect(keccak, 0, Singletons(leaves), Depth(|leaves|));
  }

  lemma OffsetInPair(p: nat, size: nat)
    ensures (p / 2) * (2 * size) + (if p % 2 == 1 then size else 0) == p * size
  {
    var q := p / 2;
    assert q * (2 * size) == (2 * q) * size;
    assert p == 2 * q + p % 2;
    if p % 2 == 1 {
      assert (2 * q + 1) * size == (2 * q) * size + size;
    }
  }

  lemma {:induction false} GluedAt(blocks: seq<seq<Digest>>, size: nat, p: nat, r: nat)
    requires |blocks| > 1 && SameLength(blocks, size) && r < size
    ensures var offset := if p % 2 == 1 then size + r else r; var d := Descend(|Glue(blocks)|, p / 2);
      offset < |Glue(blocks)[d]| && Glue(blocks)[d][offset] == blocks[Descend(|blocks|, p)][r]
  {
    hide Glue;
    GlueAt(blocks, Descend(|Glue(blocks)|, p / 2));
  }

  lemma {:induction false} PadAt(blocks: seq<seq<Digest>>, size: nat, p: nat, r: nat, at: nat)
    requires blocks != [] && SameLength(blocks, size) && p < Pow2(Depth(|blocks|)) && r < size
    requires at == p * size + r
    ensures at < |Pad(blocks)| && Pad(blocks)[at] == blocks[Descend(|blocks|, p)][r]
    decreases |blocks|
  {
    if |blocks| > 1 {
      GlueLength(blocks, size);
      GluedAt(blocks, size, p, r);
      OffsetInPair(p, size);
      PadAt(Glue(blocks), 2 * size, p / 2, if p % 2 == 1 then size + r else r, at);
    }
  }

  /** Which leaf stands at each padded position: the one that `Descend` reaches. In
      particular the padded list starts with the leaves themselves. */
  lemma {:induction false} PaddedAt(leaves: seq<Digest>, p: nat)
    requires leaves != [] && p < Pow2(Depth(|leaves|))
    ensures Padded(leaves)[p] == leaves[Descend(|leaves|, p)]
    ensures p < |leaves| ==> Padded(leaves)[p] == leaves[p]
  {
    PadAt(Singletons(leaves), 1, p, 0, p);
    SingletonAt(leaves, Descend(|leaves|, p));
    if p < |leaves| {
      DescendInRange(|leaves|, p);
    }
  }

  /** The topmost place where two perfect trees with one root disagree. */
  function PerfectCollision(keccak: Keccak, depth: nat, xs: seq<Digest>, ys: seq<Digest>): Collision
    requires |xs| == |ys| == Pow2(depth)
  {
    if depth == 0 then Collision([], [])
    else
      var half := Pow2(depth - 1);
      var l1, r1 := PerfectRoot(keccak, depth - 1, xs[..half]), PerfectRoot(keccak, depth - 1, xs[half..]);
      var l2, r2 := PerfectRoot(keccak, depth - 1, ys[..half]), PerfectRoot(keccak, depth - 1, ys[half..]);
      if l1 != l2 || r1 != r2 then PairCollision(l1, r1, l2, r2)
      else if xs[..half] != ys[..half] then PerfectCollision(keccak, depth - 1, xs[..half], ys[..half])
      else PerfectCollision(keccak, depth - 1, xs[half..], ys[half..])
  }

  lemma {:induction false} PerfectRootBinds(keccak: Keccak, depth: nat, xs: seq<Digest>, ys: seq<Digest>)
    requires |xs| == |ys| == Pow2(depth)
    requires PerfectRoot(keccak, depth, xs) == PerfectRoot(keccak, depth, ys)
    ensures xs == ys || IsCollision(keccak, PerfectCollision(keccak, depth, xs, ys))
  {
    if depth > 0 {
      var half := Pow2(depth - 1);
      var l1, r1 := PerfectRoot(keccak, depth - 1, xs[..half]), PerfectRoot(keccak, depth - 1, xs[half..]);
      var l2, r2 := PerfectRoot(keccak, depth - 1, ys[..half]), PerfectRoot(keccak, depth - 1, ys[half..]);
      EqualParents(keccak, l1, r1, l2, r2);
      if l1 == l2 && r1 == r2 {
        if xs[..half] != ys[..half] {
          PerfectRootBinds(keccak, depth - 1, xs[..half], ys[..half]);
        } else {
          PerfectRootBinds(keccak, depth - 1, xs[half..], ys[half..]);
          assert xs == xs[..half] + xs[half..] && ys == ys[..half] + ys[half..];
        }
      }
    }
  }

  function RootCollision(keccak: Keccak, xs: seq<Digest>, ys: seq<Digest>): Collision
    requires xs != [] && ys != [] && Depth(|xs|) == Depth(|ys|)
  {
    PerfectCollision(keccak, Depth(|xs|), Padded(xs), Padded(ys))
  }

  /** Trees of one depth: equal roots mean equal padded lists, and nothing more. For lists
      of one length that is equality; for different lengths it is not. */
  lemma {:induction false} EqualRoots(keccak: Keccak, xs: seq<Digest>, ys: seq<Digest>)
    requires xs != [] && ys != [] && Depth(|xs|) == Depth(|ys|)
    ensures
      || IsCollision(keccak, RootCollision(keccak, xs, ys))
      || (Root(keccak, xs) == Root(keccak, ys) <==> Padded(xs) == Padded(ys))
    ensures |xs| == |ys| ==> (Padded(xs) == Padded(ys) <==> xs == ys)
  {
    DuplicationIsPadding(keccak, xs);
    DuplicationIsPadding(keccak, ys);
    if Root(keccak, xs) == Root(keccak, ys) {
      PerfectRootBinds(keccak, Depth(|xs|), Padded(xs), Padded(ys));
    }
    if |xs| == |ys| && Padded(xs) == Padded(ys) {
      DepthIsCeilLog2(|xs|, Depth(|xs|));
      forall i | 0 <= i < |xs|
        ensures xs[i] == ys[i]
      {
        PaddedAt(xs, i);
        PaddedAt(ys, i);
      }
    }
  }

  /** Trees of any two depths: raise the deeper one to the level where the depths agree.
      Equal roots mean equal padded lists there, and nothing more. */
  lemma {:induction false} EqualRootsAtAnyDepth(keccak: Keccak, xs: seq<Digest>, ys: seq<Digest>)
    requires xs != [] && ys != [] && Depth(|ys|) <= Depth(|xs|)
    ensures var up := LevelAt(keccak, xs, Depth(|xs|) - Depth(|ys|));
      && Depth(|up|) == Depth(|ys|)
      && (|| IsCollision(keccak, RootCollision(keccak, up, ys))
          || (Root(keccak, xs) == Root(keccak, ys) <==> Padded(up) == Padded(ys)))
  {
    hide Root, Padded, RootCollision, IsCollision;
    var k := Depth(|xs|) - Depth(|ys|);
    DepthAfter(|xs|, k);
    LevelsAreIterates(keccak, xs, k);
    EqualRoots(keccak, LevelAt(keccak, xs, k), ys);
  }

  /** A list of two or more shares its root with the shorter list of its parent nodes: the
      root alone does not fix the depth. */
  lemma {:induction false} ParentsShareARoot(keccak: Keccak, leaves: seq<Digest>)
    requires |leaves| > 1
    ensures var parents := Parents(keccak, leaves);
      |parents| < |leaves| && Depth(|parents|) < Depth(|leaves|) && Root(keccak, parents) == Root(keccak, leaves)
  {
  }

  /** An odd list of three or more leaves shares its root with the list that repeats its
      last leaf: the root alone does not fix the length. */
  lemma {:induction false} OddListsShareARoot(keccak: Keccak, leaves: seq<Digest>)
    requires |leaves| % 2 == 1 && |leaves| > 1
    ensures var longer := leaves + [leaves[|leaves| - 1]];
      longer != leaves && Root(keccak, longer) == Root(keccak, leaves)
  {
    var longer := leaves + [leaves[|leaves| - 1]];
    var a, b := Parents(keccak, leaves), Parents(keccak, longer);
    forall i | 0 <= i < |a|
      ensures a[i] == b[i]
    {
      ParentAt(keccak, leaves, i);
      ParentAt(keccak, longer, i);
    }
    assert a == b;
  }
}
