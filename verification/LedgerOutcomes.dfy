/** What each instruction answers in a reachable state: exactly when it succeeds, exactly when
    it gives each error, its event, and everything that it changes. */
module LedgerOutcomes {
  import opened Basics
  import opened MerkleSpec
  import opened Precompile
  import opened Ledger
  import opened LedgerInvariants
  import opened LedgerHistory

  /** `a` and `b` differ at most in the identity of `owner`. */
  predicate OnlyIdentity(a: Accounts, b: Accounts, owner: Pubkey) {
    && b.issuers == a.issuers && b.nullifiers == a.nullifiers
    && b.identities.Keys == a.identities.Keys + {owner}
    && forall o :: o in a.identities && o != owner ==> b.identities[o] == a.identities[o]
  }

  /** `a` and `b` differ at most in the issuer of `key`. */
  predicate OnlyIssuer(a: Accounts, b: Accounts, key: Pubkey) {
    && b.identities == a.identities && b.nullifiers == a.nullifiers
    && b.issuers.Keys == a.issuers.Keys + {key}
    && forall k :: k in a.issuers && k != key ==> b.issuers[k] == a.issuers[k]
  }

  predicate Zeros(bytes: seq<byte>, n: nat) {
    |bytes| == n && forall i :: 0 <= i < n ==> bytes[i] == 0
  }

  /** Four free slots in each table, every field zero. */
  predicate Blank(id: Identity) {
    && id.passkeyCount == id.attestationCount == 0 && |id.passkeys| == |id.attestations| == 4
    && (forall s :: 0 <= s < 4 ==> ZeroPasskey(id.passkeys[s]) && ZeroAttestation(id.attestations[s]))
  }

  predicate ZeroPasskey(p: PassKey) {
    Zeros(p.pubkey, 33) && Zeros(p.labelText, 16) && p.addedTs == 0 && !p.isActive
  }

  predicate ZeroAttestation(t: Attestation) {
    Zeros(t.issuer.bytes, 32) && Zeros(t.schemaId.bytes, 32) && t.claimedTs == 0 && !t.isActive
  }

  lemma FreeSlotsAreZero()
    ensures ZeroPasskey(FREE_PASSKEY) && ZeroAttestation(FREE_ATTESTATION)
  {
  }

  /** `create_identity`: anyone, once, for themselves. */
  lemma CreateOutcome(keccak: Keccak, a: Accounts, i: Instruction)
    requires i.CreateIdentity?
    ensures var r := Step(keccak, a, i);
      && (r.Ok? <==> i.signer == i.identity && i.identity !in a.identities)
      && (r == Err(ConstraintSeeds) <==> i.signer != i.identity)
      && (r == Err(AccountInUse) <==> i.signer == i.identity && i.identity in a.identities)
    ensures Step(keccak, a, i).Ok? ==>
      var (b, event) := Step(keccak, a, i).value;
      && event == IdentityCreated(i.signer, i.signer)
      && OnlyIdentity(a, b, i.signer) && Blank(b.identities[i.signer]) && b.identities[i.signer].owner == i.signer
  {
    FreeSlotsAreZero();
    hide Zeros, FREE_PASSKEY, FREE_ATTESTATION, Verify, Add, Register, Update, Claim;
  }

  /** The identity named is there and is the signer's. */
  predicate Owned(a: Accounts, i: Instruction)
    requires i.AddPasskey? || i.VerifyPasskey? || i.ClaimAttestation?
  {
    i.identity in a.identities && i.signer == i.identity
  }

  /** `add_passkey`: the owner, up to four times. */
  lemma AddOutcome(keccak: Keccak, a: Accounts, i: Instruction)
    requires Inv(a) && i.AddPasskey?
    ensures var r := Step(keccak, a, i);
      && (r.Ok? <==> Owned(a, i) && a.identities[i.identity].passkeyCount < 4)
      && (r == Err(AccountNotInitialized) <==> i.identity !in a.identities)
      && (r == Err(ConstraintSeeds) <==> i.identity in a.identities && i.signer != i.identity)
      && (r == Err(PassKeyTableFull) <==> Owned(a, i) && a.identities[i.identity].passkeyCount == 4)
    ensures Step(keccak, a, i).Ok? ==>
      var (b, event) := Step(keccak, a, i).value;
      var id := a.identities[i.identity];
      var slot := id.passkeyCount;
      && event == PassKeyAdded(i.identity, slot)
      && OnlyIdentity(a, b, i.identity) && slot < |id.passkeys|
      && b.identities[i.identity] == id.(
           passkeyCount := slot + 1, passkeys := id.passkeys[slot := PassKey(i.pubkey, i.labelText, i.now, true)])
  {
    hide ReferencesOk, Conserved, Create, Verify, Register, Update, Claim, FirstFree, Marks;
    if Owned(a, i) {
      FreeSlots(a.identities[i.identity], i.identity);
    }
  }

  /** Position `at` holds the first precompile instruction among the first 16. */
  predicate FirstOf16(transaction: seq<TxInstruction>, at: nat) {
    && at < |transaction| && at < 16
    && transaction[at].programId == SECP256R1_PROGRAM_ID
    && forall j :: 0 <= j < at ==> transaction[j].programId != SECP256R1_PROGRAM_ID
  }

  predicate NoneOf16(transaction: seq<TxInstruction>) {
    forall j :: 0 <= j < |transaction| && j < 16 ==> transaction[j].programId != SECP256R1_PROGRAM_ID
  }

  lemma {:induction false} ScanIsFirstOf16(transaction: seq<TxInstruction>)
    ensures FirstPrecompile(transaction, 0).None? <==> NoneOf16(transaction)
    ensures forall at: nat :: FirstPrecompile(transaction, 0) == Some(at) <==> FirstOf16(transaction, at)
  {
  }

  /** `verify_passkey`: the owner of an active credential, with a transaction whose first
      precompile instruction, among the first 16, is well formed and verified its key. */
  lemma {:induction false} VerifyOutcome(keccak: Keccak, a: Accounts, i: Instruction)
    requires Inv(a) && i.VerifyPasskey?
    ensures var r, mine := Step(keccak, a, i), Owned(a, i) && HasKey(a, i.identity, i.index);
      && (r == Err(AccountNotInitialized) <==> i.identity !in a.identities)
      && (r == Err(ConstraintSeeds) <==> i.identity in a.identities && i.signer != i.identity)
      && (r == Err(PassKeyNotFound) <==> Owned(a, i) && !HasKey(a, i.identity, i.index))
      && (r == Err(MissingPasskeyVerification) <==> mine && NoneOf16(i.transaction))
      && (mine && !NoneOf16(i.transaction) ==> exists at: nat :: FirstOf16(i.transaction, at))
    ensures forall at: nat ::
      Owned(a, i) && HasKey(a, i.identity, i.index) && FirstOf16(i.transaction, at) ==>
        var r, found := Step(keccak, a, i), ExtractEmbedded(i.transaction[at].data);
        var key := KeyAt(a, i.identity, i.index).pubkey;
        && (r == Err(MalformedPrecompile) <==> found.None?)
        && (r == Err(PasskeyMismatch) <==> found.Some? && found.value.pubkey != key)
        && (r.Ok? <==> found.Some? && found.value.pubkey == key)
        && (r.Ok? ==> r.value == (a, PassKeyVerified(i.identity, i.index, keccak(found.value.message))))
  {
    hide ExtractEmbedded, Conserved, ReferencesOk;
    var found := FirstPrecompile(i.transaction, 0);
    ScanIsFirstOf16(i.transaction);
    if found.Some? {
      assert FirstOf16(i.transaction, found.value);
    }
    hide FirstPrecompile, FirstOf16, NoneOf16;
  }

  /** `register_issuer`: anyone, once, for themselves. */
  lemma RegisterOutcome(keccak: Keccak, a: Accounts, i: Instruction)
    requires i.RegisterIssuer?
    ensures var r := Step(keccak, a, i);
      && (r.Ok? <==> i.signer == i.issuer && i.issuer !in a.issuers)
      && (r == Err(ConstraintSeeds) <==> i.signer != i.issuer)
      && (r == Err(AccountInUse) <==> i.signer == i.issuer && i.issuer in a.issuers)
    ensures Step(keccak, a, i).Ok? ==>
      var (b, event) := Step(keccak, a, i).value;
      && event == IssuerRegistered(i.signer, i.signer)
      && OnlyIssuer(a, b, i.signer)
      && b.issuers[i.signer] == Issuer(i.signer, i.schemaId, i.merkleRoot, 0)
  {
  }

  /** `update_root`: the issuer's authority, at any time. */
  lemma UpdateOutcome(keccak: Keccak, a: Accounts, i: Instruction)
    requires Inv(a) && i.UpdateRoot?
    ensures var r := Step(keccak, a, i);
      && (r.Ok? <==> i.issuer in a.issuers && i.signer == i.issuer)
      && (r == Err(AccountNotInitialized) <==> i.issuer !in a.issuers)
      && (r == Err(ConstraintSeeds) <==> i.issuer in a.issuers && i.signer != i.issuer)
    ensures Step(keccak, a, i).Ok? ==>
      var (b, event) := Step(keccak, a, i).value;
      && event == RootUpdated(i.issuer, i.merkleRoot)
      && OnlyIssuer(a, b, i.issuer)
      && b.issuers[i.issuer] == a.issuers[i.issuer].(merkleRoot := i.merkleRoot)
  {
    OwnersMatch(a);
    hide Inv, Create, Verify, Add, Register, Claim;
  }

  /** The accounts of a claim are there, the identity is the signer's, the nullifier unspent. */
  predicate MayClaim(a: Accounts, i: Instruction)
    requires i.ClaimAttestation?
  {
    Owned(a, i) && i.issuer in a.issuers && (i.issuer, i.nullifier) !in a.nullifiers
  }

  /** The proof is short enough and reaches the issuer's root. */
  predicate Proves(keccak: Keccak, a: Accounts, i: Instruction)
    requires i.ClaimAttestation? && i.issuer in a.issuers
  {
    |i.proof| <= 20 && Fold(keccak, i.leaf, i.proof, i.indexBits) == a.issuers[i.issuer].merkleRoot
  }

  /** `claim_attestation`: the owner of an identity with fewer than four attestations, with
      an unspent nullifier and a proof of at most 20 siblings that reaches the root. */
  lemma {:induction false} ClaimOutcome(keccak: Keccak, a: Accounts, i: Instruction)
    requires Inv(a) && i.ClaimAttestation?
    ensures var r := Step(keccak, a, i);
      && (r == Err(AccountNotInitialized) <==> i.identity !in a.identities || (Owned(a, i) && i.issuer !in a.issuers))
      && (r == Err(ConstraintSeeds) <==> i.identity in a.identities && i.signer != i.identity)
      && (r == Err(AccountInUse) <==>
            Owned(a, i) && i.issuer in a.issuers && (i.issuer, i.nullifier) in a.nullifiers)
      && (r == Err(ProofTooDeep) <==> MayClaim(a, i) && |i.proof| > 20)
      && (r == Err(InvalidMerkleProof) <==> MayClaim(a, i) && |i.proof| <= 20 && !Proves(keccak, a, i))
      && (r == Err(AttestationTableFull) <==>
            MayClaim(a, i) && Proves(keccak, a, i) && a.identities[i.identity].attestationCount == 4)
      && (r == Err(MathOverflow) <==>
            && MayClaim(a, i) && Proves(keccak, a, i) && a.identities[i.identity].attestationCount < 4
            && a.issuers[i.issuer].attestationCount == 0xFFFF_FFFF_FFFF_FFFF)
      && (r.Ok? <==>
            && MayClaim(a, i) && Proves(keccak, a, i) && a.identities[i.identity].attestationCount < 4
            && a.issuers[i.issuer].attestationCount < 0xFFFF_FFFF_FFFF_FFFF)
  {
    hide Conserved, Fold, Create, Verify, Add, Register, Update, FirstFree, Marks;
    if i.identity in a.identities {
      FreeSlots(a.identities[i.identity], i.identity);
    }
  }

  /** A successful claim's event and everything that it changes. */
  lemma {:induction false} ClaimChanges(keccak: Keccak, a: Accounts, i: Instruction)
    requires Inv(a) && i.ClaimAttestation? && Step(keccak, a, i).Ok?
    ensures MayClaim(a, i)
    ensures var (b, event) := Step(keccak, a, i).value;
      var id, iss := a.identities[i.identity], a.issuers[i.issuer];
      var slot := id.attestationCount;
      && event == AttestationClaimed(i.identity, i.issuer, iss.schemaId)
      && OnlyIdentity(a, b.(issuers := a.issuers, nullifiers := a.nullifiers), i.identity)
      && OnlyIssuer(a, b.(identities := a.identities, nullifiers := a.nullifiers), i.issuer)
      && b.nullifiers == a.nullifiers[(i.issuer, i.nullifier) := Nullifier(i.issuer, i.nullifier)]
      && slot < |id.attestations|
      && b.identities[i.identity] == id.(
           attestationCount := slot + 1,
           attestations := id.attestations[slot := Attestation(i.issuer, iss.schemaId, i.now, true)])
      && b.issuers[i.issuer] == iss.(attestationCount := iss.attestationCount + 1)
  {
    hide Conserved, ReferencesOk, Fold, Create, Verify, Add, Register, Update, FirstFree, Marks;
    FreeSlots(a.identities[i.identity], i.identity);
  }

  /** The account constraints, in any state whatever: the owner and the authority recorded in
      an account must be the signer. */
  lemma {:induction false} OwnershipGuards(keccak: Keccak, a: Accounts, i: Instruction)
    ensures Step(keccak, a, i) == Err(NotOwner) <==>
      && (i.AddPasskey? || i.VerifyPasskey? || i.ClaimAttestation?)
      && Owned(a, i) && a.identities[i.identity].owner != i.signer
    ensures Step(keccak, a, i) == Err(NotIssuerAuthority) <==>
      && i.UpdateRoot? && i.issuer in a.issuers && i.signer == i.issuer && a.issuers[i.issuer].authority != i.signer
  {
    hide FreePasskeySlot, FreeAttestationSlot, Fold, ExtractEmbedded, FirstPrecompile;
  }

  predicate HasFreePasskey(id: Identity) {
    exists s :: 0 <= s < |id.passkeys| && !id.passkeys[s].isActive
  }

  predicate HasFreeAttestation(id: Identity) {
    exists s :: 0 <= s < |id.attestations| && !id.attestations[s].isActive
  }

  /** The checked additions, in any state whatever: an 8-bit count of 255 and a 64-bit one at
      its maximum are not passed. */
  lemma {:induction false} CounterGuards(keccak: Keccak, a: Accounts, i: Instruction)
    requires i.AddPasskey? || i.ClaimAttestation?
    ensures i.AddPasskey? ==>
      (Step(keccak, a, i) == Err(MathOverflow) <==>
        && Owned(a, i) && a.identities[i.identity].owner == i.signer
        && HasFreePasskey(a.identities[i.identity]) && a.identities[i.identity].passkeyCount >= 255)
    ensures i.ClaimAttestation? ==>
      (Step(keccak, a, i) == Err(MathOverflow) <==>
        && MayClaim(a, i) && a.identities[i.identity].owner == i.signer && Proves(keccak, a, i)
        && HasFreeAttestation(a.identities[i.identity])
        && (a.identities[i.identity].attestationCount >= 255
            || a.issuers[i.issuer].attestationCount >= 0xFFFF_FFFF_FFFF_FFFF))
  {
    hide Fold, Create, Verify, Register, Update, FirstFree, Marks;
    if Owned(a, i) {
      FreeIsSome(a.identities[i.identity]);
    }
    hide HasFreePasskey, HasFreeAttestation, FreePasskeySlot, FreeAttestationSlot;
  }

  lemma FreeIsSome(id: Identity)
    ensures FreePasskeySlot(id).Some? <==> HasFreePasskey(id)
    ensures FreeAttestationSlot(id).Some? <==> HasFreeAttestation(id)
  {
    hide FirstFree, Marks;
  }
}
