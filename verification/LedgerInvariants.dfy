/** What every reachable state of the program satisfies. */
module LedgerInvariants {
  import opened Basics
  import opened Ledger

  /** The occupied slots of a table are its first `count`. */
  predicate Prefix(marks: seq<bool>, count: nat, capacity: nat) {
    |marks| == capacity && count <= capacity && forall i :: 0 <= i < capacity ==> (marks[i] <==> i < count)
  }

  predicate IdentityOk(owner: Pubkey, id: Identity) {
    && id.owner == owner
    && Prefix(Marks(id.passkeys, PasskeyActive), id.passkeyCount, MAX_PASSKEYS)
    && Prefix(Marks(id.attestations, AttestationActive), id.attestationCount, MAX_ATTESTATIONS)
  }

  /** Nullifiers burned against an issuer. */
  ghost function Burned(a: Accounts, issuer: Pubkey): set<(Pubkey, Digest)> {
    set k | k in a.nullifiers && k.0 == issuer
  }

  predicate Holds(a: Accounts, owner: Pubkey, slot: nat) {
    && owner in a.identities
    && slot < |a.identities[owner].attestations|
    && a.identities[owner].attestations[slot].isActive
  }

  function Held(a: Accounts, owner: Pubkey, slot: nat): Attestation
    requires Holds(a, owner, slot)
  {
    a.identities[owner].attestations[slot]
  }

  /** Attestation slots, over all identities, that name an issuer. */
  ghost function HeldFrom(a: Accounts, issuer: Pubkey): set<(Pubkey, nat)> {
    set o, s: nat |
      o in a.identities && s < |a.identities[o].attestations| && Holds(a, o, s) && Held(a, o, s).issuer == issuer ::
      (o, s)
  }

  predicate IdentitiesOk(a: Accounts) {
    forall o :: o in a.identities ==> IdentityOk(o, a.identities[o])
  }

  /** Attestations name a registered issuer and carry its schema; so do nullifiers. */
  ghost predicate ReferencesOk(a: Accounts) {
    && (forall o, s :: Holds(a, o, s) ==>
          Held(a, o, s).issuer in a.issuers && Held(a, o, s).schemaId == a.issuers[Held(a, o, s).issuer].schemaId)
    && (forall k :: k in a.nullifiers ==> k.0 in a.issuers && a.nullifiers[k] == Nullifier(k.0, k.1))
    && (forall i :: i in a.issuers ==> a.issuers[i].authority == i && a.issuers[i].attestationCount <= U64_MAX)
  }

  /** Every claim counted once, burned once and held once. */
  ghost predicate Conserved(a: Accounts) {
    forall i :: i in a.issuers ==> a.issuers[i].attestationCount == |Burned(a, i)| == |HeldFrom(a, i)|
  }

  ghost predicate Inv(a: Accounts) {
    IdentitiesOk(a) && ReferencesOk(a) && Conserved(a)
  }

  lemma {:induction false} FirstFreeOfPrefix(marks: seq<bool>, count: nat, capacity: nat)
    requires Prefix(marks, count, capacity)
    ensures FirstFree(marks, 0) == if count < capacity then Some(count) else None
  {
    var slot := FirstFree(marks, 0);
    if count < capacity {
      assert !marks[count];
      assert slot.Some? && slot.value <= count;
    } else {
      assert forall i :: 0 <= i < |marks| ==> marks[i];
    }
  }

  /** The next free slot is the one the count points at. */
  lemma FreeSlots(id: Identity, owner: Pubkey)
    requires IdentityOk(owner, id)
    ensures FreePasskeySlot(id) == if id.passkeyCount < MAX_PASSKEYS then Some(id.passkeyCount) else None
    ensures FreeAttestationSlot(id)
         == if id.attestationCount < MAX_ATTESTATIONS then Some(id.attestationCount) else None
  {
    FirstFreeOfPrefix(Marks(id.passkeys, PasskeyActive), id.passkeyCount, MAX_PASSKEYS);
    FirstFreeOfPrefix(Marks(id.attestations, AttestationActive), id.attestationCount, MAX_ATTESTATIONS);
  }

  lemma HeldFromIs(a: Accounts, issuer: Pubkey, o: Pubkey, s: nat)
    ensures (o, s) in HeldFrom(a, issuer) <==> Holds(a, o, s) && Held(a, o, s).issuer == issuer
  {
  }

  /** `b` differs from `a` in no attestation, nullifier, schema or count; new issuers start
      at zero. */
  ghost predicate ClaimsNothing(a: Accounts, b: Accounts) {
    && (forall o, s :: Holds(a, o, s) <==> Holds(b, o, s))
    && (forall o, s :: Holds(a, o, s) ==> Held(a, o, s) == Held(b, o, s))
    && a.nullifiers == b.nullifiers
    && (forall j :: j in a.issuers ==> j in b.issuers && b.issuers[j].schemaId == a.issuers[j].schemaId)
    && (forall j :: j in b.issuers ==>
          b.issuers[j].authority == j &&
          b.issuers[j].attestationCount == if j in a.issuers then a.issuers[j].attestationCount else 0)
  }

  lemma ReferencesKept(a: Accounts, b: Accounts)
    requires ClaimsNothing(a, b) && ReferencesOk(a)
    ensures ReferencesOk(b)
  {
    hide Holds, Held;
  }

  lemma SameHeldFrom(a: Accounts, b: Accounts, issuer: Pubkey)
    requires ClaimsNothing(a, b)
    ensures HeldFrom(a, issuer) == HeldFrom(b, issuer)
  {
    hide Holds, Held, HeldFrom;
    forall p: (Pubkey, nat)
      ensures p in HeldFrom(a, issuer) <==> p in HeldFrom(b, issuer)
    {
      HeldFromIs(a, issuer, p.0, p.1);
      HeldFromIs(b, issuer, p.0, p.1);
    }
  }

  lemma NothingBeforeRegistration(a: Accounts, issuer: Pubkey)
    requires ReferencesOk(a) && issuer !in a.issuers
    ensures Burned(a, issuer) == {} && HeldFrom(a, issuer) == {}
  {
    hide Holds, Held, HeldFrom;
    forall p: (Pubkey, nat)
      ensures p !in HeldFrom(a, issuer)
    {
      HeldFromIs(a, issuer, p.0, p.1);
    }
  }

  lemma ConservedKept(a: Accounts, b: Accounts)
    requires ClaimsNothing(a, b) && ReferencesOk(a) && Conserved(a)
    ensures Conserved(b)
  {
    forall j | j in b.issuers
      ensures b.issuers[j].attestationCount == |Burned(b, j)| == |HeldFrom(b, j)|
    {
      hide Holds, Held, HeldFrom;
      assert Burned(a, j) == Burned(b, j);
      SameHeldFrom(a, b, j);
      if j !in a.issuers {
        NothingBeforeRegistration(a, j);
      }
    }
  }

  lemma ClaimlessKeepsInv(a: Accounts, b: Accounts)
    requires Inv(a) && ClaimsNothing(a, b) && IdentitiesOk(b)
    ensures Inv(b)
  {
    hide IdentitiesOk, ReferencesOk, Conserved, ClaimsNothing;
    ReferencesKept(a, b);
    ConservedKept(a, b);
  }

  /** Storing a well-formed identity with the attestations held so far keeps the invariant. */
  lemma IdentityStored(a: Accounts, b: Accounts, owner: Pubkey, id: Identity)
    requires Inv(a) && IdentityOk(owner, id) && b == a.(identities := a.identities[owner := id])
    requires if owner in a.identities then id.attestations == a.identities[owner].attestations
             else forall s :: 0 <= s < |id.attestations| ==> !id.attestations[s].isActive
    ensures Inv(b)
  {
    hide HeldFrom, Burned, Conserved, IdentityOk;
    ClaimlessKeepsInv(a, b);
  }

  lemma CreateKeepsInv(a: Accounts, identity: Pubkey, signer: Pubkey)
    requires Inv(a) && Create(a, identity, signer).Ok?
    ensures Inv(Create(a, identity, signer).value.0)
  {
    hide Inv;
    var b := Create(a, identity, signer).value.0;
    IdentityStored(a, b, identity, b.identities[identity]);
  }

  lemma AddKeepsInv(a: Accounts, identity: Pubkey, signer: Pubkey, pubkey: seq<byte>, labelText: seq<byte>, now: int)
    requires Inv(a) && Add(a, identity, signer, pubkey, labelText, now).Ok?
    ensures Inv(Add(a, identity, signer, pubkey, labelText, now).value.0)
  {
    assert IdentityOk(identity, a.identities[identity]);
    hide Inv;
    FreeSlots(a.identities[identity], identity);
    var b := Add(a, identity, signer, pubkey, labelText, now).value.0;
    IdentityStored(a, b, identity, b.identities[identity]);
  }

  lemma RegisterKeepsInv(a: Accounts, issuer: Pubkey, signer: Pubkey, schemaId: Digest, root: Digest)
    requires Inv(a) && Register(a, issuer, signer, schemaId, root).Ok?
    ensures Inv(Register(a, issuer, signer, schemaId, root).value.0)
  {
    hide HeldFrom, Burned, Conserved, IdentityOk;
    ClaimlessKeepsInv(a, Register(a, issuer, signer, schemaId, root).value.0);
  }

  lemma UpdateKeepsInv(a: Accounts, issuer: Pubkey, signer: Pubkey, root: Digest)
    requires Inv(a) && Update(a, issuer, signer, root).Ok?
    ensures Inv(Update(a, issuer, signer, root).value.0)
  {
    hide HeldFrom, Burned, Conserved, IdentityOk;
    ClaimlessKeepsInv(a, Update(a, issuer, signer, root).value.0);
  }

  /** What a successful claim `i` adds to `a`: one attestation in `slot`, one nullifier. */
  ghost predicate ClaimedInto(a: Accounts, b: Accounts, i: Instruction, slot: nat)
    requires i.ClaimAttestation?
  {
    && i.identity in a.identities && i.issuer in a.issuers && i.signer == i.identity
    && a.issuers[i.issuer].attestationCount < U64_MAX
    && slot < MAX_ATTESTATIONS && !Holds(a, i.identity, slot)
    && (forall o, s :: Holds(b, o, s) <==> Holds(a, o, s) || (o == i.identity && s == slot))
    && (forall o, s :: Holds(a, o, s) ==> Held(b, o, s) == Held(a, o, s))
    && Held(b, i.identity, slot) == Attestation(i.issuer, a.issuers[i.issuer].schemaId, i.now, true)
    && (i.issuer, i.nullifier) !in a.nullifiers
    && b.nullifiers == a.nullifiers[(i.issuer, i.nullifier) := Nullifier(i.issuer, i.nullifier)]
    && var iss := a.issuers[i.issuer];
       b.issuers == a.issuers[i.issuer := iss.(attestationCount := iss.attestationCount + 1)]
  }

  lemma ClaimEffect(keccak: Keccak, a: Accounts, i: Instruction)
    requires IdentitiesOk(a) && i.ClaimAttestation? && Step(keccak, a, i).Ok?
    ensures i.identity in a.identities
    ensures ClaimedInto(a, Step(keccak, a, i).value.0, i, a.identities[i.identity].attestationCount)
  {
    var id := a.identities[i.identity];
    assert IdentityOk(i.identity, id);
    FreeSlots(id, i.identity);
    var slot := id.attestationCount;
    assert Marks(id.attestations, AttestationActive)[slot] == id.attestations[slot].isActive;
  }

  lemma ClaimKeepsTables(keccak: Keccak, a: Accounts, i: Instruction)
    requires IdentitiesOk(a) && i.ClaimAttestation? && Step(keccak, a, i).Ok?
    ensures IdentitiesOk(Step(keccak, a, i).value.0)
  {
    var id := a.identities[i.identity];
    assert IdentityOk(i.identity, id);
    FreeSlots(id, i.identity);
    var b := Step(keccak, a, i).value.0;
    var marks := Marks(b.identities[i.identity].attestations, AttestationActive);
    forall s | 0 <= s < MAX_ATTESTATIONS
      ensures marks[s] <==> s < id.attestationCount + 1
    {
      assert Marks(id.attestations, AttestationActive)[s] == id.attestations[s].isActive;
    }
  }

  lemma ClaimReferences(a: Accounts, b: Accounts, i: Instruction, slot: nat)
    requires i.ClaimAttestation? && ClaimedInto(a, b, i, slot) && ReferencesOk(a)
    ensures ReferencesOk(b)
  {
    hide Holds, Held;
    forall o, s | Holds(b, o, s)
      ensures Held(b, o, s).issuer in b.issuers && Held(b, o, s).schemaId == b.issuers[Held(b, o, s).issuer].schemaId
    {
      if Holds(a, o, s) {
        assert Held(b, o, s) == Held(a, o, s);
      }
    }
  }

  lemma HeldGrows(a: Accounts, b: Accounts, i: Instruction, slot: nat, j: Pubkey)
    requires i.ClaimAttestation? && ClaimedInto(a, b, i, slot)
    ensures HeldFrom(b, j) == HeldFrom(a, j) + if j == i.issuer then {(i.identity, slot)} else {}
    ensures (i.identity, slot) !in HeldFrom(a, j)
  {
    hide Holds, Held, HeldFrom;
    HeldFromIs(a, j, i.identity, slot);
    forall p: (Pubkey, nat)
      ensures p in HeldFrom(b, j) <==> p in HeldFrom(a, j) || (j == i.issuer && p == (i.identity, slot))
    {
      HeldFromIs(a, j, p.0, p.1);
      HeldFromIs(b, j, p.0, p.1);
    }
  }

  lemma BurnedGrows(a: Accounts, b: Accounts, i: Instruction, slot: nat, j: Pubkey)
    requires i.ClaimAttestation? && ClaimedInto(a, b, i, slot)
    ensures Burned(b, j) == Burned(a, j) + if j == i.issuer then {(i.issuer, i.nullifier)} else {}
    ensures (i.issuer, i.nullifier) !in Burned(a, j)
  {
    hide Holds, Held, HeldFrom;
  }

  lemma ClaimConserves(a: Accounts, b: Accounts, i: Instruction, slot: nat)
    requires i.ClaimAttestation? && ClaimedInto(a, b, i, slot) && Conserved(a)
    ensures Conserved(b)
  {
    hide HeldFrom, Holds, Held, Burned;
    forall j | j in b.issuers
      ensures b.issuers[j].attestationCount == |Burned(b, j)| == |HeldFrom(b, j)|
    {
      HeldGrows(a, b, i, slot, j);
      BurnedGrows(a, b, i, slot, j);
      assert j in a.issuers;
    }
  }

  lemma ClaimKeepsInv(keccak: Keccak, a: Accounts, i: Instruction)
    requires Inv(a) && i.ClaimAttestation? && Step(keccak, a, i).Ok?
    ensures Inv(Step(keccak, a, i).value.0)
  {
    hide Step, ClaimedInto, IdentitiesOk, ReferencesOk, Conserved;
    ClaimEffect(keccak, a, i);
    ClaimKeepsTables(keccak, a, i);
    var b, slot := Step(keccak, a, i).value.0, a.identities[i.identity].attestationCount;
    ClaimReferences(a, b, i, slot);
    ClaimConserves(a, b, i, slot);
  }

  lemma StepKeepsInv(keccak: Keccak, a: Accounts, i: Instruction)
    requires Inv(a)
    ensures Inv(Apply(keccak, a, i))
  {
    hide Inv;
    if Step(keccak, a, i).Ok? {
      match i
      case CreateIdentity(identity, signer) => CreateKeepsInv(a, identity, signer);
      case AddPasskey(identity, signer, pubkey, labelText, now) =>
        AddKeepsInv(a, identity, signer, pubkey, labelText, now);
      case VerifyPasskey(_, _, _, _) =>
      case RegisterIssuer(issuer, signer, schemaId, root) => RegisterKeepsInv(a, issuer, signer, schemaId, root);
      case UpdateRoot(issuer, signer, root) => UpdateKeepsInv(a, issuer, signer, root);
      case ClaimAttestation(_, _, _, _, _, _, _, _) => ClaimKeepsInv(keccak, a, i);
    }
  }
}
