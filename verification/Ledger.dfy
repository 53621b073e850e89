/** The on-chain program: account layouts (`state.rs`) and instruction handlers (`lib.rs`).
    A program address is injective in its seeds, so an account is keyed by its seeds: an
    identity by its owner, an issuer by its authority, a nullifier by issuer and hash. */
module Ledger {
  import opened Basics
  import opened MerkleSpec
  import opened Precompile
  import OnchainMerkle

  const MAX_PASSKEYS: nat := 4
  const MAX_ATTESTATIONS: nat := 4
  const MAX_TX_INSTRUCTIONS: nat := 16
  const SECP256R1_PROGRAM_ID := Pubkey(
    [6, 146, 13, 236, 47, 234, 113, 181, 183, 35, 129, 77, 116, 45, 169, 3,
     28, 131, 231, 95, 219, 121, 93, 86, 142, 117, 71, 128, 32, 0, 0, 0])

  datatype PassKey = PassKey(pubkey: seq<byte>, labelText: seq<byte>, addedTs: int, isActive: bool)

  datatype Attestation = Attestation(issuer: Pubkey, schemaId: Digest, claimedTs: int, isActive: bool)

  datatype Identity = Identity(owner: Pubkey, passkeyCount: nat, passkeys: seq<PassKey>,
                               attestationCount: nat, attestations: seq<Attestation>)

  datatype Issuer = Issuer(authority: Pubkey, schemaId: Digest, merkleRoot: Digest, attestationCount: nat)

  datatype Nullifier = Nullifier(issuer: Pubkey, hash: Digest)

  /** All accounts of the program. */
  datatype Accounts = Accounts(identities: map<Pubkey, Identity>, issuers: map<Pubkey, Issuer>,
                               nullifiers: map<(Pubkey, Digest), Nullifier>)

  const NO_ACCOUNTS := Accounts(map[], map[], map[])

  const NO_KEY: seq<byte> := ZEROS + [0]
  const NO_LABEL: seq<byte> := [0, 0, 0, 0, 0, 0, 0, 0, 0, 0, 0, 0, 0, 0, 0, 0]
  const FREE_PASSKEY := PassKey(NO_KEY, NO_LABEL, 0, false)
  const FREE_ATTESTATION := Attestation(DEFAULT_PUBKEY, ZERO_DIGEST, 0, false)

  /** Errors of the program, and of the account constraints checked before a handler. */
  datatype LedgerError =
    | AccountInUse | AccountNotInitialized | ConstraintSeeds
    | MathOverflow | PassKeyTableFull | AttestationTableFull | PassKeyNotFound | NotOwner
    | MissingPasskeyVerification | PasskeyMismatch | MalformedPrecompile
    | InvalidMerkleProof | ProofTooDeep | NotIssuerAuthority

  datatype Event =
    | IdentityCreated(identity: Pubkey, owner: Pubkey)
    | PassKeyAdded(identity: Pubkey, slot: nat)
    | PassKeyVerified(identity: Pubkey, index: nat, messageHash: Digest)
    | IssuerRegistered(issuer: Pubkey, authority: Pubkey)
    | RootUpdated(issuer: Pubkey, merkleRoot: Digest)
    | AttestationClaimed(identity: Pubkey, issuer: Pubkey, schemaId: Digest)

  /** An instruction of the enclosing transaction, as the instructions sysvar shows it. */
  datatype TxInstruction = TxInstruction(programId: Pubkey, data: seq<byte>)

  /** A call of the program: the accounts passed, the signer, the arguments, the clock. */
  datatype Instruction =
    | CreateIdentity(identity: Pubkey, signer: Pubkey)
    | AddPasskey(identity: Pubkey, signer: Pubkey, pubkey: seq<byte>, labelText: seq<byte>, now: int)
    | VerifyPasskey(identity: Pubkey, signer: Pubkey, index: nat, transaction: seq<TxInstruction>)
    | RegisterIssuer(issuer: Pubkey, signer: Pubkey, schemaId: Digest, merkleRoot: Digest)
    | UpdateRoot(issuer: Pubkey, signer: Pubkey, merkleRoot: Digest)
    | ClaimAttestation(identity: Pubkey, issuer: Pubkey, signer: Pubkey, leaf: Digest, proof: seq<Digest>,
                       indexBits: Word64, nullifier: Digest, now: int)

  type Outcome = Result<(Accounts, Event), LedgerError>

  /** The first position from `from` on whose mark is not set. */
  function FirstFree(active: seq<bool>, from: nat): (slot: Option<nat>)
    requires from <= |active|
    ensures slot.Some? ==> from <= slot.value < |active| && !active[slot.value]
    ensures slot.Some? ==> forall i :: from <= i < slot.value ==> active[i]
    ensures slot.None? ==> forall i :: from <= i < |active| ==> active[i]
    decreases |active| - from
  {
    if from == |active| then None else if !active[from] then Some(from) else FirstFree(active, from + 1)
  }

  predicate PasskeyActive(p: PassKey) {
    p.isActive
  }

  predicate AttestationActive(att: Attestation) {
    att.isActive
  }

  function Marks<T>(s: seq<T>, active: T -> bool): (marks: seq<bool>)
    ensures |marks| == |s| && forall i :: 0 <= i < |s| ==> marks[i] == active(s[i])
  {
    if s == [] then [] else [active(s[0])] + Marks(s[1..], active)
  }

  function FreePasskeySlot(id: Identity): (slot: Option<nat>)
    ensures slot.Some? ==> slot.value < |id.passkeys| && !id.passkeys[slot.value].isActive
    ensures slot.Some? ==> forall i :: 0 <= i < slot.value ==> id.passkeys[i].isActive
    ensures slot.None? ==> forall i :: 0 <= i < |id.passkeys| ==> id.passkeys[i].isActive
  {
    FirstFree(Marks(id.passkeys, PasskeyActive), 0)
  }

  function FreeAttestationSlot(id: Identity): (slot: Option<nat>)
    ensures slot.Some? ==> slot.value < |id.attestations| && !id.attestations[slot.value].isActive
    ensures slot.Some? ==> forall i :: 0 <= i < slot.value ==> id.attestations[i].isActive
    ensures slot.None? ==> forall i :: 0 <= i < |id.attestations| ==> id.attestations[i].isActive
  {
    FirstFree(Marks(id.attestations, AttestationActive), 0)
  }

  /** The constraints on an identity account: it exists, is the signer's, and names it. */
  function CheckIdentity(a: Accounts, identity: Pubkey, signer: Pubkey): Result<Identity, LedgerError> {
    if identity !in a.identities then Err(AccountNotInitialized)
    else if identity != signer then Err(ConstraintSeeds)
    else if a.identities[identity].owner != signer then Err(NotOwner)
    else Ok(a.identities[identity])
  }

  function Create(a: Accounts, identity: Pubkey, signer: Pubkey): Outcome {
    if identity != signer then Err(ConstraintSeeds)
    else if identity in a.identities then Err(AccountInUse)
    else
      var id := Identity(signer, 0, [FREE_PASSKEY, FREE_PASSKEY, FREE_PASSKEY, FREE_PASSKEY],
                         0, [FREE_ATTESTATION, FREE_ATTESTATION, FREE_ATTESTATION, FREE_ATTESTATION]);
      Ok((a.(identities := a.identities[identity := id]), IdentityCreated(identity, signer)))
  }

  function Add(a: Accounts, identity: Pubkey, signer: Pubkey, pubkey: seq<byte>, labelText: seq<byte>,
               now: int): Outcome {
    match CheckIdentity(a, identity, signer)
    case Err(e) => Err(e)
    case Ok(id) =>
      match FreePasskeySlot(id)
      case None => Err(PassKeyTableFull)
      case Some(slot) =>
        if id.passkeyCount + 1 > U8_MAX then Err(MathOverflow)
        else
          var id' := id.(passkeys := id.passkeys[slot := PassKey(pubkey, labelText, now, true)],
                         passkeyCount := id.passkeyCount + 1);
          Ok((a.(identities := a.identities[identity := id']), PassKeyAdded(identity, slot)))
  }

  /** The first precompile instruction at or after `i`, among those that are scanned. */
  function FirstPrecompile(transaction: seq<TxInstruction>, i: nat): (at: Option<nat>)
    ensures at.Some? ==> i <= at.value < |transaction| && at.value < MAX_TX_INSTRUCTIONS
    ensures at.Some? ==> transaction[at.value].programId == SECP256R1_PROGRAM_ID
    ensures at.Some? ==> forall j :: i <= j < at.value ==> transaction[j].programId != SECP256R1_PROGRAM_ID
    ensures at.None? ==> forall j :: i <= j < |transaction| && j < MAX_TX_INSTRUCTIONS ==>
      transaction[j].programId != SECP256R1_PROGRAM_ID
    decreases |transaction| - i
  {
    if i >= |transaction| || i >= MAX_TX_INSTRUCTIONS then None
    else if transaction[i].programId == SECP256R1_PROGRAM_ID then Some(i)
    else FirstPrecompile(transaction, i + 1)
  }

  /** The scan: what the transaction's precompile instruction says about `cred`. */
  function Possession(keccak: Keccak, cred: PassKey, transaction: seq<TxInstruction>): Result<Digest, LedgerError> {
    match FirstPrecompile(transaction, 0)
    case None => Err(MissingPasskeyVerification)
    case Some(i) =>
      match ExtractEmbedded(transaction[i].data)
      case None => Err(MalformedPrecompile)
      case Some(vc) => if vc.pubkey != cred.pubkey then Err(PasskeyMismatch) else Ok(keccak(vc.message))
  }

  function Verify(keccak: Keccak, a: Accounts, identity: Pubkey, signer: Pubkey, index: nat,
                  transaction: seq<TxInstruction>): Outcome {
    match CheckIdentity(a, identity, signer)
    case Err(e) => Err(e)
    case Ok(id) =>
      if index >= |id.passkeys| || !id.passkeys[index].isActive then Err(PassKeyNotFound)
      else
        match Possession(keccak, id.passkeys[index], transaction)
        case Err(e) => Err(e)
        case Ok(hash) => Ok((a, PassKeyVerified(identity, index, hash)))
  }

  function Register(a: Accounts, issuer: Pubkey, signer: Pubkey, schemaId: Digest, root: Digest): Outcome {
    if issuer != signer then Err(ConstraintSeeds)
    else if issuer in a.issuers then Err(AccountInUse)
    else Ok((a.(issuers := a.issuers[issuer := Issuer(signer, schemaId, root, 0)]), IssuerRegistered(issuer, signer)))
  }

  function Update(a: Accounts, issuer: Pubkey, signer: Pubkey, root: Digest): Outcome {
    if issuer !in a.issuers then Err(AccountNotInitialized)
    else if issuer != signer then Err(ConstraintSeeds)
    else if a.issuers[issuer].authority != signer then Err(NotIssuerAuthority)
    else Ok((a.(issuers := a.issuers[issuer := a.issuers[issuer].(merkleRoot := root)]), RootUpdated(issuer, root)))
  }

  function Claim(keccak: Keccak, a: Accounts, identity: Pubkey, issuer: Pubkey, signer: Pubkey, leaf: Digest,
                 proof: seq<Digest>, indexBits: Word64, nullifier: Digest, now: int): Outcome {
    match CheckIdentity(a, identity, signer)
    case Err(e) => Err(e)
    case Ok(id) =>
      if issuer !in a.issuers then Err(AccountNotInitialized)
      else if (issuer, nullifier) in a.nullifiers then Err(AccountInUse)
      else if |proof| > OnchainMerkle.MAX_MERKLE_DEPTH then Err(ProofTooDeep)
      else
        var iss := a.issuers[issuer];
        if Fold(keccak, leaf, proof, indexBits) != iss.merkleRoot then Err(InvalidMerkleProof)
        else
          match FreeAttestationSlot(id)
          case None => Err(AttestationTableFull)
          case Some(slot) =>
            if id.attestationCount + 1 > U8_MAX || iss.attestationCount + 1 > U64_MAX then Err(MathOverflow)
            else
              var id' := id.(attestations := id.attestations[slot := Attestation(issuer, iss.schemaId, now, true)],
                             attestationCount := id.attestationCount + 1);
              var iss' := iss.(attestationCount := iss.attestationCount + 1);
              Ok((Accounts(a.identities[identity := id'], a.issuers[issuer := iss'],
                           a.nullifiers[(issuer, nullifier) := Nullifier(issuer, nullifier)]),
                  AttestationClaimed(identity, issuer, iss.schemaId)))
  }

  /** What one instruction does, as a function of the accounts. */
  function Step(keccak: Keccak, a: Accounts, i: Instruction): Outcome {
    match i
    case CreateIdentity(identity, signer) => Create(a, identity, signer)
    case AddPasskey(identity, signer, pubkey, labelText, now) => Add(a, identity, signer, pubkey, labelText, now)
    case VerifyPasskey(identity, signer, index, transaction) => Verify(keccak, a, identity, signer, index, transaction)
    case RegisterIssuer(issuer, signer, schemaId, root) => Register(a, issuer, signer, schemaId, root)
    case UpdateRoot(issuer, signer, root) => Update(a, issuer, signer, root)
    case ClaimAttestation(identity, issuer, signer, leaf, proof, bits, nullifier, now) =>
      Claim(keccak, a, identity, issuer, signer, leaf, proof, bits, nullifier, now)
  }

  /** A failing transaction is rolled back. */
  function Apply(keccak: Keccak, a: Accounts, i: Instruction): Accounts {
    match Step(keccak, a, i)
    case Ok(done) => done.0
    case Err(_) => a
  }

  /** The program at work on its accounts. A handler that fails may leave them half
      written; `Submit` is the runtime, which then restores them. */
  class Program {
    const keccak: Keccak
    var identities: map<Pubkey, Identity>
    var issuers: map<Pubkey, Issuer>
    var nullifiers: map<(Pubkey, Digest), Nullifier>

    function View(): Accounts
      reads this
    {
      Accounts(identities, issuers, nullifiers)
    }

    constructor (keccak: Keccak)
      ensures this.keccak == keccak && View() == NO_ACCOUNTS
    {
      this.keccak := keccak;
      identities, issuers, nullifiers := map[], map[], map[];
    }

    method HandleCreate(identity: Pubkey, signer: Pubkey) returns (r: Result<Event, LedgerError>)
      modifies this
      ensures Agrees(r, View(), Create(old(View()), identity, signer))
    {
      if identity != signer {
        return Err(ConstraintSeeds);
      }
      if identity in identities {
        return Err(AccountInUse);
      }
      var id := Identity(signer, 0, [FREE_PASSKEY, FREE_PASSKEY, FREE_PASSKEY, FREE_PASSKEY],
                         0, [FREE_ATTESTATION, FREE_ATTESTATION, FREE_ATTESTATION, FREE_ATTESTATION]);
      identities := identities[identity := id];
      return Ok(IdentityCreated(identity, signer));
    }

    method HandleAdd(identity: Pubkey, signer: Pubkey, pubkey: seq<byte>, labelText: seq<byte>, now: int)
        returns (r: Result<Event, LedgerError>)
      modifies this
      ensures Agrees(r, View(), Add(old(View()), identity, signer, pubkey, labelText, now))
    {
      var checked := CheckIdentity(View(), identity, signer);
      if checked.Err? {
        return Err(checked.error);
      }
      var id := identities[identity];
      var slot := FreePasskeySlot(id);
      if slot.None? {
        return Err(PassKeyTableFull);
      }
      id := id.(passkeys := id.passkeys[slot.value := PassKey(pubkey, labelText, now, true)]);
      identities := identities[identity := id];
      if id.passkeyCount + 1 > U8_MAX {
        return Err(MathOverflow);
      }
      identities := identities[identity := id.(passkeyCount := id.passkeyCount + 1)];
      return Ok(PassKeyAdded(identity, slot.value));
    }

    /** The scanning loop over the transaction's instructions. */
    method HandleVerify(identity: Pubkey, signer: Pubkey, index: nat, transaction: seq<TxInstruction>)
        returns (r: Result<Event, LedgerError>)
      ensures Agrees(r, View(), Verify(keccak, View(), identity, signer, index, transaction))
    {
      var checked := CheckIdentity(View(), identity, signer);
      if checked.Err? {
        return Err(checked.error);
      }
      var id := identities[identity];
      if index >= |id.passkeys| || !id.passkeys[index].isActive {
        return Err(PassKeyNotFound);
      }
      var cred := id.passkeys[index];
      var verified: Option<Digest> := None;
      for i := 0 to MAX_TX_INSTRUCTIONS
        invariant i <= |transaction| && verified.None?
        invariant FirstPrecompile(transaction, 0) == FirstPrecompile(transaction, i)
      {
        if i >= |transaction| {
          break;
        }
        if transaction[i].programId != SECP256R1_PROGRAM_ID {
          continue;
        }
        var vc := ExtractEmbedded(transaction[i].data);
        if vc.None? {
          return Err(MalformedPrecompile);
        }
        if vc.value.pubkey != cred.pubkey {
          return Err(PasskeyMismatch);
        }
        verified := Some(keccak(vc.value.message));
        break;
      }
      if verified.None? {
        return Err(MissingPasskeyVerification);
      }
      return Ok(PassKeyVerified(identity, index, verified.value));
    }

    method HandleRegister(issuer: Pubkey, signer: Pubkey, schemaId: Digest, root: Digest)
        returns (r: Result<Event, LedgerError>)
      modifies this
      ensures Agrees(r, View(), Register(old(View()), issuer, signer, schemaId, root))
    {
      if issuer != signer {
        return Err(ConstraintSeeds);
      }
      if issuer in issuers {
        return Err(AccountInUse);
      }
      issuers := issuers[issuer := Issuer(signer, schemaId, root, 0)];
      return Ok(IssuerRegistered(issuer, signer));
    }

    method HandleUpdate(issuer: Pubkey, signer: Pubkey, root: Digest) returns (r: Result<Event, LedgerError>)
      modifies this
      ensures Agrees(r, View(), Update(old(View()), issuer, signer, root))
    {
      if issuer !in issuers {
        return Err(AccountNotInitialized);
      }
      if issuer != signer {
        return Err(ConstraintSeeds);
      }
      if issuers[issuer].authority != signer {
        return Err(NotIssuerAuthority);
      }
      issuers := issuers[issuer := issuers[issuer].(merkleRoot := root)];
      return Ok(RootUpdated(issuer, root));
    }

    /** Writes the nullifier before it looks for a free slot, as the source does. */
    method HandleClaim(identity: Pubkey, issuer: Pubkey, signer: Pubkey, leaf: Digest, proof: seq<Digest>,
                       indexBits: Word64, nullifier: Digest, now: int) returns (r: Result<Event, LedgerError>)
      modifies this
      ensures Agrees(r, View(), Claim(keccak, old(View()), identity, issuer, signer, leaf, proof, indexBits,
                                      nullifier, now))
    {
      var checked := CheckIdentity(View(), identity, signer);
      if checked.Err? {
        return Err(checked.error);
      }
      if issuer !in issuers {
        return Err(AccountNotInitialized);
      }
      if (issuer, nullifier) in nullifiers {
        return Err(AccountInUse);
      }
      if |proof| > OnchainMerkle.MAX_MERKLE_DEPTH {
        return Err(ProofTooDeep);
      }
      var iss := issuers[issuer];
      var member := OnchainMerkle.Verify(keccak, leaf, proof, indexBits, iss.merkleRoot);
      assert member == Some(Fold(keccak, leaf, proof, indexBits) == iss.merkleRoot);
      if !member.value {
        return Err(InvalidMerkleProof);
      }
      nullifiers := nullifiers[(issuer, nullifier) := Nullifier(issuer, nullifier)];
      var id := identities[identity];
      var slot := FreeAttestationSlot(id);
      if slot.None? {
        return Err(AttestationTableFull);
      }
      id := id.(attestations := id.attestations[slot.value := Attestation(issuer, iss.schemaId, now, true)]);
      identities := identities[identity := id];
      if id.attestationCount + 1 > U8_MAX {
        return Err(MathOverflow);
      }
      identities := identities[identity := id.(attestationCount := id.attestationCount + 1)];
      if iss.attestationCount + 1 > U64_MAX {
        return Err(MathOverflow);
      }
      issuers := issuers[issuer := iss.(attestationCount := iss.attestationCount + 1)];
      return Ok(AttestationClaimed(identity, issuer, iss.schemaId));
    }

    /** One transaction: all of the instruction's effects, or none. */
    method Submit(i: Instruction) returns (r: Result<Event, LedgerError>)
      modifies this
      ensures View() == Apply(keccak, old(View()), i)
      ensures Agrees(r, View(), Step(keccak, old(View()), i))
    {
      var snapshot := View();
      match i {
        case CreateIdentity(identity, signer) =>
          r := HandleCreate(identity, signer);
        case AddPasskey(identity, signer, pubkey, labelText, now) =>
          r := HandleAdd(identity, signer, pubkey, labelText, now);
        case VerifyPasskey(identity, signer, index, transaction) =>
          r := HandleVerify(identity, signer, index, transaction);
        case RegisterIssuer(issuer, signer, schemaId, root) =>
          r := HandleRegister(issuer, signer, schemaId, root);
        case UpdateRoot(issuer, signer, root) =>
          r := HandleUpdate(issuer, signer, root);
        case ClaimAttestation(identity, issuer, signer, leaf, proof, bits, nullifier, now) =>
          r := HandleClaim(identity, issuer, signer, leaf, proof, bits, nullifier, now);
      }
      if r.Err? {
        identities, issuers, nullifiers := snapshot.identities, snapshot.issuers, snapshot.nullifiers;
      }
    }
  }

  /** The handler returned what `expected` says, and on success left those accounts. */
  predicate Agrees(r: Result<Event, LedgerError>, view: Accounts, expected: Outcome) {
    match expected
    case Ok((accounts, event)) => r == Ok(event) && view == accounts
    case Err(e) => r == Err(e)
  }
}
