/** Whole runs of the program: safety and provenance over every sequence of instructions. */
module LedgerHistory {
  import opened Basics
  import opened Bits
  import opened MerkleSpec
  import opened MerkleBinding
  import opened Precompile
  import opened Ledger
  import opened LedgerInvariants
  import OnchainMerkle

  function Exec(keccak: Keccak, run: seq<Instruction>): Accounts {
    if run == [] then NO_ACCOUNTS else Apply(keccak, Exec(keccak, run[..|run| - 1]), run[|run| - 1])
  }

  /** Instruction `t` of the run succeeds. */
  predicate Succeeds(keccak: Keccak, run: seq<Instruction>, t: nat)
    requires t < |run|
  {
    Step(keccak, Exec(keccak, run[..t]), run[t]).Ok?
  }

  /** Counts, tables, references and conservation hold after every run. */
  lemma {:induction false} ReachableInv(keccak: Keccak, run: seq<Instruction>)
    ensures Inv(Exec(keccak, run))
    decreases |run|
  {
    if run == [] {
      assert forall i :: Burned(NO_ACCOUNTS, i) == {} && HeldFrom(NO_ACCOUNTS, i) == {};
    } else {
      ReachableInv(keccak, run[..|run| - 1]);
      StepKeepsInv(keccak, Exec(keccak, run[..|run| - 1]), run[|run| - 1]);
    }
  }

  predicate HasKey(a: Accounts, owner: Pubkey, slot: nat) {
    && owner in a.identities
    && slot < |a.identities[owner].passkeys|
    && a.identities[owner].passkeys[slot].isActive
  }

  function KeyAt(a: Accounts, owner: Pubkey, slot: nat): PassKey
    requires HasKey(a, owner, slot)
  {
    a.identities[owner].passkeys[slot]
  }

  lemma StepKeepsSlots(keccak: Keccak, a: Accounts, i: Instruction, owner: Pubkey, slot: nat)
    ensures var b := Apply(keccak, a, i);
      && (Holds(a, owner, slot) ==> Holds(b, owner, slot) && Held(b, owner, slot) == Held(a, owner, slot))
      && (HasKey(a, owner, slot) ==> HasKey(b, owner, slot) && KeyAt(b, owner, slot) == KeyAt(a, owner, slot))
      && (forall k :: k in a.nullifiers ==> k in b.nullifiers)
  {
    hide ExtractEmbedded, Fold;
  }

  /** An occupied slot keeps its contents, and a burned nullifier stays burned, for the
      rest of every run. */
  lemma {:induction false} WriteOnce(keccak: Keccak, run: seq<Instruction>, t: nat, owner: Pubkey, slot: nat)
    requires t <= |run|
    ensures var a, b := Exec(keccak, run[..t]), Exec(keccak, run);
      && (Holds(a, owner, slot) ==> Holds(b, owner, slot) && Held(b, owner, slot) == Held(a, owner, slot))
      && (HasKey(a, owner, slot) ==> HasKey(b, owner, slot) && KeyAt(b, owner, slot) == KeyAt(a, owner, slot))
      && (forall k :: k in a.nullifiers ==> k in b.nullifiers)
    decreases |run|
  {
    hide Apply, Holds, Held, HasKey, KeyAt;
    if t == |run| {
      assert run[..t] == run;
    } else {
      var before := run[..|run| - 1];
      assert before[..t] == run[..t];
      WriteOnce(keccak, before, t, owner, slot);
      StepKeepsSlots(keccak, Exec(keccak, before), run[|run| - 1], owner, slot);
    }
  }

  lemma ClaimBurns(keccak: Keccak, a: Accounts, i: Instruction)
    requires i.ClaimAttestation? && Step(keccak, a, i).Ok?
    ensures (i.issuer, i.nullifier) !in a.nullifiers && (i.issuer, i.nullifier) in Apply(keccak, a, i).nullifiers
  {
  }

  /** No two successful claims spend one nullifier of one issuer. */
  lemma {:induction false} NullifierSpentOnce(keccak: Keccak, run: seq<Instruction>, t: nat, u: nat)
    requires t < u < |run| && run[t].ClaimAttestation? && run[u].ClaimAttestation?
    requires Succeeds(keccak, run, t) && Succeeds(keccak, run, u)
    ensures (run[t].issuer, run[t].nullifier) != (run[u].issuer, run[u].nullifier)
  {
    hide Step;
    ClaimBurns(keccak, Exec(keccak, run[..t]), run[t]);
    ClaimBurns(keccak, Exec(keccak, run[..u]), run[u]);
    assert run[..t + 1][..t] == run[..t] && run[..u][..t + 1] == run[..t + 1];
    WriteOnce(keccak, run[..u], t + 1, run[t].issuer, 0);
  }

  predicate ClaimsFrom(keccak: Keccak, a: Accounts, i: Instruction, issuer: Pubkey) {
    i.ClaimAttestation? && i.issuer == issuer && Step(keccak, a, i).Ok?
  }

  /** Successful claims against an issuer. */
  function Claims(keccak: Keccak, run: seq<Instruction>, issuer: Pubkey): nat {
    if run == [] then 0
    else
      var n := |run| - 1;
      Claims(keccak, run[..n], issuer) +
      if ClaimsFrom(keccak, Exec(keccak, run[..n]), run[n], issuer) then 1 else 0
  }

  function CountOf(a: Accounts, issuer: Pubkey): nat {
    if issuer in a.issuers then a.issuers[issuer].attestationCount else 0
  }

  lemma StepCounts(keccak: Keccak, a: Accounts, i: Instruction, issuer: Pubkey)
    ensures CountOf(Apply(keccak, a, i), issuer)
         == CountOf(a, issuer) + if ClaimsFrom(keccak, a, i, issuer) then 1 else 0
  {
  }

  lemma {:induction false} CountIsClaims(keccak: Keccak, run: seq<Instruction>, issuer: Pubkey)
    ensures Claims(keccak, run, issuer) == CountOf(Exec(keccak, run), issuer)
    decreases |run|
  {
    if run != [] {
      hide Step, Apply, CountOf;
      var n := |run| - 1;
      CountIsClaims(keccak, run[..n], issuer);
      StepCounts(keccak, Exec(keccak, run[..n]), run[n], issuer);
    }
  }

  /** Claims made, nullifiers burned, attestations held: one number for each issuer, after
      every run. */
  lemma {:induction false} Conservation(keccak: Keccak, run: seq<Instruction>, issuer: Pubkey)
    ensures var a := Exec(keccak, run);
      issuer in a.issuers ==>
        && Claims(keccak, run, issuer) == a.issuers[issuer].attestationCount
        && a.issuers[issuer].attestationCount == |Burned(a, issuer)| == |HeldFrom(a, issuer)|
  {
    ReachableInv(keccak, run);
    CountIsClaims(keccak, run, issuer);
  }

  /** The root that the issuer published last, read off the successful instructions. */
  function LastPublished(keccak: Keccak, run: seq<Instruction>, issuer: Pubkey): Option<Digest> {
    if run == [] then None
    else
      var n := |run| - 1;
      if (run[n].RegisterIssuer? || run[n].UpdateRoot?) && run[n].issuer == issuer
        && Step(keccak, Exec(keccak, run[..n]), run[n]).Ok? then Some(run[n].merkleRoot)
      else LastPublished(keccak, run[..n], issuer)
  }

  lemma StepPublishes(keccak: Keccak, a: Accounts, i: Instruction, issuer: Pubkey)
    ensures var b := Apply(keccak, a, i);
      if (i.RegisterIssuer? || i.UpdateRoot?) && i.issuer == issuer && Step(keccak, a, i).Ok? then
        issuer in b.issuers && b.issuers[issuer].merkleRoot == i.merkleRoot && i.signer == issuer
      else
        (issuer in b.issuers <==> issuer in a.issuers)
        && (issuer in a.issuers ==> b.issuers[issuer].merkleRoot == a.issuers[issuer].merkleRoot)
  {
  }

  lemma {:induction false} StoredRootIsLastPublished(keccak: Keccak, run: seq<Instruction>, issuer: Pubkey)
    ensures var a, published := Exec(keccak, run), LastPublished(keccak, run, issuer);
      && (published.Some? <==> issuer in a.issuers)
      && (issuer in a.issuers ==> published == Some(a.issuers[issuer].merkleRoot))
    decreases |run|
  {
    if run != [] {
      hide Step, Apply;
      var n := |run| - 1;
      StoredRootIsLastPublished(keccak, run[..n], issuer);
      StepPublishes(keccak, Exec(keccak, run[..n]), run[n], issuer);
    }
  }

  lemma StepKeepsIssuers(keccak: Keccak, a: Accounts, i: Instruction, issuer: Pubkey)
    ensures var b := Apply(keccak, a, i);
      if issuer in a.issuers then
        issuer in b.issuers && b.issuers[issuer].schemaId == a.issuers[issuer].schemaId
      else issuer in b.issuers ==>
        i.RegisterIssuer? && Step(keccak, a, i).Ok? && i.issuer == i.signer == issuer
        && b.issuers[issuer] == Issuer(issuer, i.schemaId, i.merkleRoot, 0)
  {
  }

  /** Every issuer was registered by its own authority, and keeps the schema it gave then. */
  lemma {:induction false} IssuerProvenance(keccak: Keccak, run: seq<Instruction>, issuer: Pubkey) returns (t: nat)
    requires issuer in Exec(keccak, run).issuers
    ensures t < |run| && run[t].RegisterIssuer? && Succeeds(keccak, run, t) && run[t].issuer == run[t].signer == issuer
    ensures Exec(keccak, run).issuers[issuer].schemaId == run[t].schemaId
    decreases |run|
  {
    hide Step, Apply;
    var n := |run| - 1;
    var before := run[..n];
    StepKeepsIssuers(keccak, Exec(keccak, before), run[n], issuer);
    if issuer in Exec(keccak, before).issuers {
      t := IssuerProvenance(keccak, before, issuer);
      assert before[..t] == run[..t];
    } else {
      t := n;
    }
  }

  lemma ClaimVerified(keccak: Keccak, a: Accounts, i: Instruction)
    requires i.ClaimAttestation? && Step(keccak, a, i).Ok?
    ensures i.issuer in a.issuers && |i.proof| <= OnchainMerkle.MAX_MERKLE_DEPTH && i.signer == i.identity
    ensures Fold(keccak, i.leaf, i.proof, i.indexBits) == a.issuers[i.issuer].merkleRoot
  {
  }

  lemma NewHoldIsClaim(keccak: Keccak, a: Accounts, i: Instruction, owner: Pubkey, slot: nat)
    requires Inv(a) && !Holds(a, owner, slot) && Holds(Apply(keccak, a, i), owner, slot)
    ensures i.ClaimAttestation? && Step(keccak, a, i).Ok? && i.identity == owner && i.issuer in a.issuers
    ensures Filled(a, Apply(keccak, a, i), owner, slot)
    ensures Held(Apply(keccak, a, i), owner, slot) == Attestation(i.issuer, a.issuers[i.issuer].schemaId, i.now, true)
  {
    if i.ClaimAttestation? && Step(keccak, a, i).Ok? {
      hide Step, Holds, Held;
      ClaimEffect(keccak, a, i);
    }
  }

  /** The claim of instruction `t` put `held` into an attestation slot of `owner`. */
  predicate ClaimedAt(keccak: Keccak, run: seq<Instruction>, t: nat, owner: Pubkey, held: Attestation)
    requires t < |run|
  {
    var i := run[t];
    && i.ClaimAttestation? && Succeeds(keccak, run, t)
    && i.identity == i.signer == owner && i.issuer == held.issuer && i.now == held.claimedTs
    && |i.proof| <= OnchainMerkle.MAX_MERKLE_DEPTH
    && LastPublished(keccak, run[..t], i.issuer) == Some(Fold(keccak, i.leaf, i.proof, i.indexBits))
  }

  /** From `a` to `b` this attestation slot was filled, and no other one. */
  ghost predicate Filled(a: Accounts, b: Accounts, owner: Pubkey, slot: nat) {
    && !Holds(a, owner, slot)
    && forall o, s :: Holds(b, o, s) <==> Holds(a, o, s) || (o == owner && s == slot)
  }

  /** Every attestation in a reachable state comes from a claim by its owner that filled
      this very slot, and whose proof verified against the root its issuer had published
      last. */
  lemma {:induction false} Provenance(keccak: Keccak, run: seq<Instruction>, owner: Pubkey, slot: nat) returns (t: nat)
    requires Holds(Exec(keccak, run), owner, slot)
    ensures t < |run| && ClaimedAt(keccak, run, t, owner, Held(Exec(keccak, run), owner, slot))
    ensures Filled(Exec(keccak, run[..t]), Exec(keccak, run[..t + 1]), owner, slot)
    decreases |run|
  {
    hide Step, Holds, Held;
    assert run != [] by { NothingHeldAtFirst(keccak, owner, slot); }
    var n := |run| - 1;
    var before := run[..n];
    var a := Exec(keccak, before);
    StepKeepsSlots(keccak, a, run[n], owner, slot);
    if Holds(a, owner, slot) {
      t := Provenance(keccak, before, owner, slot);
      assert before[..t] == run[..t] && before[..t + 1] == run[..t + 1];
    } else {
      assert run[..n + 1] == run;
      ReachableInv(keccak, before);
      NewHoldIsClaim(keccak, a, run[n], owner, slot);
      ClaimVerified(keccak, a, run[n]);
      StoredRootIsLastPublished(keccak, before, run[n].issuer);
      t := n;
    }
  }

  lemma NothingHeldAtFirst(keccak: Keccak, owner: Pubkey, slot: nat)
    ensures !Holds(NO_ACCOUNTS, owner, slot) && !HasKey(NO_ACCOUNTS, owner, slot)
  {
  }

  /** In a reachable state a passkey is added exactly by the owner of an identity with fewer
      than four, and stands in the slot that the count points at. */
  lemma AddSucceedsExactly(keccak: Keccak, a: Accounts, i: Instruction)
    requires Inv(a) && i.AddPasskey?
    ensures Step(keccak, a, i).Ok? <==>
      i.signer == i.identity && i.identity in a.identities && a.identities[i.identity].passkeyCount < MAX_PASSKEYS
    ensures Step(keccak, a, i).Ok? ==>
      var b, slot := Step(keccak, a, i).value.0, a.identities[i.identity].passkeyCount;
      && !HasKey(a, i.identity, slot) && HasKey(b, i.identity, slot)
      && KeyAt(b, i.identity, slot) == PassKey(i.pubkey, i.labelText, i.now, true)
      && (forall o, s :: HasKey(b, o, s) && !(o == i.identity && s == slot) ==>
            HasKey(a, o, s) && KeyAt(b, o, s) == KeyAt(a, o, s))
  {
    hide ReferencesOk, Conserved;
    if i.identity in a.identities {
      var id := a.identities[i.identity];
      FreeSlots(id, i.identity);
      if id.passkeyCount < MAX_PASSKEYS {
        assert !Marks(id.passkeys, PasskeyActive)[id.passkeyCount];
      }
    }
  }

  lemma NewKeyIsAdded(keccak: Keccak, a: Accounts, i: Instruction, owner: Pubkey, slot: nat)
    requires !HasKey(a, owner, slot) && HasKey(Apply(keccak, a, i), owner, slot)
    ensures i.AddPasskey? && Step(keccak, a, i).Ok? && i.identity == i.signer == owner
    ensures KeyAt(Apply(keccak, a, i), owner, slot) == PassKey(i.pubkey, i.labelText, i.now, true)
    ensures KeyFilled(a, Apply(keccak, a, i), owner, slot)
  {
    hide FreePasskeySlot, ExtractEmbedded;
  }

  /** From `a` to `b` this passkey slot was filled, and no other one. */
  ghost predicate KeyFilled(a: Accounts, b: Accounts, owner: Pubkey, slot: nat) {
    && !HasKey(a, owner, slot)
    && forall o, s :: HasKey(b, o, s) <==> HasKey(a, o, s) || (o == owner && s == slot)
  }

  /** Every credential in a reachable state was registered by its owner's own instruction,
      which filled this very slot. */
  lemma {:induction false} KeyProvenance(keccak: Keccak, run: seq<Instruction>, owner: Pubkey, slot: nat)
      returns (t: nat)
    requires HasKey(Exec(keccak, run), owner, slot)
    ensures t < |run| && run[t].AddPasskey? && Succeeds(keccak, run, t) && run[t].identity == run[t].signer == owner
    ensures KeyAt(Exec(keccak, run), owner, slot) == PassKey(run[t].pubkey, run[t].labelText, run[t].now, true)
    ensures KeyFilled(Exec(keccak, run[..t]), Exec(keccak, run[..t + 1]), owner, slot)
    decreases |run|
  {
    hide Step, HasKey, KeyAt, Apply;
    assert run != [] by { NothingHeldAtFirst(keccak, owner, slot); }
    var n := |run| - 1;
    var before := run[..n];
    var a := Exec(keccak, before);
    StepKeepsSlots(keccak, a, run[n], owner, slot);
    if HasKey(a, owner, slot) {
      t := KeyProvenance(keccak, before, owner, slot);
      assert before[..t] == run[..t] && before[..t + 1] == run[..t + 1];
    } else {
      assert run[..n + 1] == run;
      NewKeyIsAdded(keccak, a, run[n], owner, slot);
      t := n;
    }
  }

  /** The claim's proof runs along the path of a stored node: of the claimed leaf itself up
      to the tree's depth, of a leaf of the list above the claimed one for a longer proof.
      With a full-length proof the claimed leaf is in the list. */
  predicate Eligible(keccak: Keccak, i: Instruction, leaves: seq<Digest>)
    requires i.ClaimAttestation? && leaves != []
  {
    && OnStoredPath(keccak, leaves, i.leaf, i.proof, i.indexBits)
    && (|i.proof| >= Depth(|leaves|) ==> TailOf(keccak, leaves, i.leaf, i.proof, i.indexBits).node in leaves)
    && (|i.proof| == Depth(|leaves|) ==> i.leaf in leaves)
  }

  function ClaimCollision(keccak: Keccak, i: Instruction, leaves: seq<Digest>): Collision
    requires i.ClaimAttestation? && leaves != []
  {
    AnyCollision(keccak, leaves, i.leaf, i.proof, i.indexBits)
  }

  lemma {:induction false} EligibleInState(keccak: Keccak, a: Accounts, i: Instruction, leaves: seq<Digest>)
    requires i.ClaimAttestation? && Step(keccak, a, i).Ok? && i.issuer in a.issuers
    requires leaves != [] && a.issuers[i.issuer].merkleRoot == Root(keccak, leaves)
    ensures Eligible(keccak, i, leaves) || IsCollision(keccak, ClaimCollision(keccak, i, leaves))
  {
    hide Step, OnStoredPath, TailOf, AnyCollision, Root, Fold, Depth;
    ClaimVerified(keccak, a, i);
    AcceptedIsStored(keccak, leaves, i.leaf, i.proof, i.indexBits);
  }

  /** If the root published last is the root of a leaf list, a claim is eligible, whatever
      the length of its proof, or its own arguments give a collision. */
  lemma {:induction false} ClaimIsEligible(keccak: Keccak, run: seq<Instruction>, t: nat, leaves: seq<Digest>)
    requires t < |run| && run[t].ClaimAttestation? && Succeeds(keccak, run, t)
    requires leaves != []
    requires LastPublished(keccak, run[..t], run[t].issuer) == Some(Root(keccak, leaves))
    ensures Eligible(keccak, run[t], leaves) || IsCollision(keccak, ClaimCollision(keccak, run[t], leaves))
  {
    hide Step, Root, LastPublished, Exec, Depth, Eligible, IsCollision;
    StoredRootIsLastPublished(keccak, run[..t], run[t].issuer);
    EligibleInState(keccak, Exec(keccak, run[..t]), run[t], leaves);
  }

  /** In a reachable state a claim succeeds exactly under these conditions; in particular
      the 8-bit counters never overflow. */
  lemma {:induction false} ClaimSucceedsExactly(keccak: Keccak, a: Accounts, i: Instruction)
    requires Inv(a) && i.ClaimAttestation?
    ensures Step(keccak, a, i).Ok? <==>
      && i.signer == i.identity && i.identity in a.identities && i.issuer in a.issuers
      && (i.issuer, i.nullifier) !in Burned(a, i.issuer)
      && |i.proof| <= OnchainMerkle.MAX_MERKLE_DEPTH
      && Fold(keccak, i.leaf, i.proof, i.indexBits) == a.issuers[i.issuer].merkleRoot
      && a.identities[i.identity].attestationCount < MAX_ATTESTATIONS
      && a.issuers[i.issuer].attestationCount < U64_MAX
  {
    if i.identity in a.identities {
      FreeSlots(a.identities[i.identity], i.identity);
    }
  }

  /** A proof made by the service over the published leaves lets its leaf be claimed, by
      anyone with a free slot and a new nullifier, exactly up to 2^20 leaves. */
  lemma {:induction false} ServiceProofIsClaimable(keccak: Keccak, a: Accounts, i: Instruction, leaves: seq<Digest>,
                                                   index: nat)
    requires Inv(a) && i.ClaimAttestation? && index < |leaves|
    requires i.leaf == leaves[index] && i.proof == Siblings(keccak, leaves, index) && i.indexBits == index
    requires i.issuer in a.issuers && a.issuers[i.issuer].merkleRoot == Root(keccak, leaves)
    requires i.signer == i.identity && i.identity in a.identities && (i.issuer, i.nullifier) !in a.nullifiers
    requires a.identities[i.identity].attestationCount < MAX_ATTESTATIONS
    requires a.issuers[i.issuer].attestationCount < U64_MAX
    ensures Step(keccak, a, i).Ok? <==> |leaves| <= 1048576
  {
    hide Step, Siblings, Root, Fold, Inv;
    ClaimSucceedsExactly(keccak, a, i);
    ProofFitsOnchain(keccak, leaves, index);
    DescendInRange(|leaves|, index);
    SiblingsFoldToRoot(keccak, leaves, index);
  }

  /** What a claim changes of the conditions for the next one. */
  lemma ClaimAdvances(keccak: Keccak, a: Accounts, i: Instruction)
    requires i.ClaimAttestation? && Step(keccak, a, i).Ok?
    ensures var b := Step(keccak, a, i).value.0;
      && i.signer == i.identity && i.identity in b.identities && i.issuer in b.issuers
      && |i.proof| <= OnchainMerkle.MAX_MERKLE_DEPTH
      && Fold(keccak, i.leaf, i.proof, i.indexBits) == b.issuers[i.issuer].merkleRoot
  {
  }

  /** A nullifier is not tied to a leaf: the very proof just accepted is accepted again
      exactly when it comes with an unspent nullifier and the counts leave room. */
  lemma SameProofAgain(keccak: Keccak, a: Accounts, i: Instruction, nullifier: Digest)
    requires Inv(a) && i.ClaimAttestation? && Step(keccak, a, i).Ok?
    ensures var b := Step(keccak, a, i).value.0;
      && i.identity in b.identities && i.issuer in b.issuers
      && (Step(keccak, b, i.(nullifier := nullifier)).Ok? <==>
          && (i.issuer, nullifier) !in Burned(b, i.issuer)
          && b.identities[i.identity].attestationCount < MAX_ATTESTATIONS
          && b.issuers[i.issuer].attestationCount < U64_MAX)
  {
    hide Step, Inv, Fold;
    StepKeepsInv(keccak, a, i);
    ClaimAdvances(keccak, a, i);
    ClaimSucceedsExactly(keccak, Step(keccak, a, i).value.0, i.(nullifier := nullifier));
  }

  lemma AddErrors(keccak: Keccak, a: Accounts, i: Instruction)
    requires Inv(a) && i.AddPasskey?
    ensures Step(keccak, a, i) != Err(NotOwner) && Step(keccak, a, i) != Err(MathOverflow)
  {
    hide ReferencesOk, Conserved;
    if i.identity in a.identities {
      FreeSlots(a.identities[i.identity], i.identity);
    }
  }

  lemma ClaimErrors(keccak: Keccak, a: Accounts, i: Instruction)
    requires Inv(a) && i.ClaimAttestation?
    ensures Step(keccak, a, i) != Err(NotOwner)
    ensures Step(keccak, a, i) == Err(MathOverflow) ==>
      i.issuer in a.issuers && a.issuers[i.issuer].attestationCount == U64_MAX
  {
    hide Conserved, HeldFrom;
    if i.identity in a.identities {
      FreeSlots(a.identities[i.identity], i.identity);
    }
  }

  lemma OwnersMatch(a: Accounts)
    requires Inv(a)
    ensures forall o :: o in a.identities ==> a.identities[o].owner == o
    ensures forall k :: k in a.issuers ==> a.issuers[k].authority == k
  {
    hide Conserved;
  }

  /** Errors that reachable states never give: the counters' only overflow is an issuer's
      64-bit one, and the ownership checks repeat what the seeds already force. */
  lemma UnreachableErrors(keccak: Keccak, a: Accounts, i: Instruction)
    requires Inv(a)
    ensures Step(keccak, a, i) != Err(NotOwner) && Step(keccak, a, i) != Err(NotIssuerAuthority)
    ensures Step(keccak, a, i) == Err(MathOverflow) ==>
      i.ClaimAttestation? && i.issuer in a.issuers && a.issuers[i.issuer].attestationCount == U64_MAX
  {
    hide Inv;
    if i.AddPasskey? {
      hide Step;
      AddErrors(keccak, a, i);
    } else if i.ClaimAttestation? {
      hide Step;
      ClaimErrors(keccak, a, i);
    } else {
      hide Add, Claim, ExtractEmbedded;
      OwnersMatch(a);
    }
  }

  /** Only an identity's owner changes it, only an issuer's authority its root. */
  lemma OnlyTheSignersAccounts(keccak: Keccak, a: Accounts, i: Instruction, key: Pubkey)
    requires i.signer != key
    ensures var b := Apply(keccak, a, i);
      && (key in b.identities <==> key in a.identities)
      && (key in a.identities ==> b.identities[key] == a.identities[key])
      && (key in b.issuers <==> key in a.issuers)
      && (key in a.issuers ==> b.issuers[key].(attestationCount := 0) == a.issuers[key].(attestationCount := 0))
  {
  }

  /** The first precompile instruction among those that are scanned. */
  predicate IsFirstPrecompile(transaction: seq<TxInstruction>, at: nat) {
    && at < |transaction| && at < MAX_TX_INSTRUCTIONS
    && transaction[at].programId == SECP256R1_PROGRAM_ID
    && forall j :: 0 <= j < at ==> transaction[j].programId != SECP256R1_PROGRAM_ID
  }

  predicate Attests(transaction: seq<TxInstruction>, at: nat, vc: VerifiedCredential) {
    IsFirstPrecompile(transaction, at) && ExtractEmbedded(transaction[at].data) == Some(vc)
  }

  /** A credential is proven exactly when the first scanned precompile instruction verified
      its key, and the hash reported is that of the message verified there. */
  lemma {:induction false} PossessionExactly(keccak: Keccak, a: Accounts, i: Instruction, hash: Digest)
    requires Inv(a) && i.VerifyPasskey?
    ensures Step(keccak, a, i) == Ok((a, PassKeyVerified(i.identity, i.index, hash))) <==>
      && i.signer == i.identity && HasKey(a, i.identity, i.index)
      && exists at: nat, vc :: Attests(i.transaction, at, vc) && vc.pubkey == KeyAt(a, i.identity, i.index).pubkey
                          && keccak(vc.message) == hash
    ensures Step(keccak, a, i).Ok? ==>
      i.signer == i.identity && HasKey(a, i.identity, i.index) && Step(keccak, a, i).value.0 == a
  {
    hide ExtractEmbedded, Conserved, ReferencesOk;
    var found := FirstPrecompile(i.transaction, 0);
    forall at: nat, vc | Attests(i.transaction, at, vc)
      ensures found == Some(at)
    {
    }
    if i.signer == i.identity && HasKey(a, i.identity, i.index) && Step(keccak, a, i).Ok? {
      assert Attests(i.transaction, found.value, ExtractEmbedded(i.transaction[found.value].data).value);
    }
  }

  /** The key an instruction's transaction verified, if any. */
  function VerifiedKey(transaction: seq<TxInstruction>): Option<seq<byte>> {
    match FirstPrecompile(transaction, 0)
    case None => None
    case Some(at) =>
      match ExtractEmbedded(transaction[at].data)
      case None => None
      case Some(vc) => Some(vc.pubkey)
  }

  lemma VerifiedKeyIsStored(keccak: Keccak, a: Accounts, i: Instruction)
    requires i.VerifyPasskey? && Step(keccak, a, i).Ok?
    ensures HasKey(a, i.identity, i.index) && VerifiedKey(i.transaction) == Some(KeyAt(a, i.identity, i.index).pubkey)
  {
  }

  /** One credential index means one key for ever: two successful proofs of it, at any two
      times of a run, verified the same key. */
  lemma {:induction false} IndexNamesOneKey(keccak: Keccak, run: seq<Instruction>, t: nat, u: nat)
    requires t <= u < |run| && run[t].VerifyPasskey? && run[u].VerifyPasskey?
    requires Succeeds(keccak, run, t) && Succeeds(keccak, run, u)
    requires run[t].identity == run[u].identity && run[t].index == run[u].index
    ensures VerifiedKey(run[t].transaction) == VerifiedKey(run[u].transaction)
  {
    hide Step, VerifiedKey;
    VerifiedKeyIsStored(keccak, Exec(keccak, run[..t]), run[t]);
    VerifiedKeyIsStored(keccak, Exec(keccak, run[..u]), run[u]);
    assert run[..u][..t] == run[..t];
    WriteOnce(keccak, run[..u], t, run[t].identity, run[t].index);
  }
}
