/** The engine's answers as functions of the steps taken alone: no store is read. */
module EngineAnswers {
  import opened Basics
  import opened Bits
  import opened MerkleSpec
  import opened OffchainMerkle
  import opened Engine

  /** The issuer was ingested at some step. */
  predicate Ingested(run: seq<Step>, issuer: Pubkey) {
    run != [] &&
      var last := run[|run| - 1];
      (last.Ingest? && last.view.address == issuer) || Ingested(run[..|run| - 1], issuer)
  }

  /** What a task is building, for whom, and what its next step is. */
  datatype Build = Build(issuer: Pubkey, leaves: LeafList, phase: Phase)

  /** A task starts with its first read of an ingested issuer, and never starts again; its
      first put and then its first upsert take effect, other steps of it do nothing. */
  function BuildOf(run: seq<Step>, task: nat): Option<Build> {
    if run == [] then None
    else
      var before, last := run[..|run| - 1], run[|run| - 1];
      match BuildOf(before, task)
      case None =>
        if last.BuildRead? && last.task == task && Ingested(before, last.issuer)
        then Some(Build(last.issuer, last.leaves, BeforePut)) else None
      case Some(b) =>
        if b.phase == BeforePut && last == BuildPut(task) then Some(b.(phase := BeforeUpsert))
        else if b.phase == BeforeUpsert && last == BuildUpsert(task) then Some(b.(phase := Finished))
        else Some(b)
  }

  predicate SameBuild(s: Stores, task: nat, build: Option<Build>) {
    match build
    case None => task !in s.tasks
    case Some(b) => task in s.tasks && var t := s.tasks[task]; b == Build(t.issuer, t.leaves, t.phase)
  }

  /** An issuer is stored exactly when it was ingested, and every build is for such a one. */
  lemma {:induction false} StoredIffIngested(keccak: Keccak, run: seq<Step>)
    ensures forall k :: k in Exec(keccak, run).issuers <==> Ingested(run, k)
    ensures forall t :: t in Exec(keccak, run).tasks ==> Ingested(run, Exec(keccak, run).tasks[t].issuer)
    decreases |run|
  {
    if run != [] {
      StoredIffIngested(keccak, run[..|run| - 1]);
      KeysAlwaysMatch(keccak, run[..|run| - 1]);
    }
  }

  lemma {:induction false} TaskIsItsHistory(keccak: Keccak, run: seq<Step>, task: nat)
    ensures SameBuild(Exec(keccak, run), task, BuildOf(run, task))
    decreases |run|
  {
    if run != [] {
      TaskIsItsHistory(keccak, run[..|run| - 1], task);
      StoredIffIngested(keccak, run[..|run| - 1]);
    }
  }

  /** The leaf list put last for an issuer. */
  function ListPut(run: seq<Step>, issuer: Pubkey): Option<LeafList> {
    if run == [] then None
    else
      var before, last := run[..|run| - 1], run[|run| - 1];
      if !last.BuildPut? then ListPut(before, issuer)
      else
        match BuildOf(before, last.task)
        case Some(Build(k, leaves, BeforePut)) => if k == issuer then Some(leaves) else ListPut(before, issuer)
        case _ => ListPut(before, issuer)
  }

  /** The root written last for an issuer: one ingested, or the root of the leaves built. */
  function RootWritten(keccak: Keccak, run: seq<Step>, issuer: Pubkey): Option<Digest> {
    if run == [] then None
    else
      var before, last := run[..|run| - 1], run[|run| - 1];
      match last
      case Ingest(view) =>
        if view.address == issuer then Some(view.merkleRoot) else RootWritten(keccak, before, issuer)
      case BuildUpsert(task) =>
        (match BuildOf(before, task)
         case Some(Build(k, leaves, BeforeUpsert)) =>
           if k == issuer then Some(TreeRoot(keccak, leaves)) else RootWritten(keccak, before, issuer)
         case _ => RootWritten(keccak, before, issuer))
      case _ => RootWritten(keccak, before, issuer)
  }

  /** Both stores hold exactly what the steps say. */
  lemma {:induction false} StoresAreTheirHistory(keccak: Keccak, run: seq<Step>, issuer: Pubkey)
    ensures var s := Exec(keccak, run);
      && ListPut(run, issuer) == (if issuer in s.leaves then Some(s.leaves[issuer]) else None)
      && RootWritten(keccak, run, issuer)
         == (if issuer in s.issuers then Some(s.issuers[issuer].merkleRoot) else None)
    decreases |run|
  {
    if run != [] {
      var before, last := run[..|run| - 1], run[|run| - 1];
      StoresAreTheirHistory(keccak, before, issuer);
      KeysAlwaysMatch(keccak, before);
      if last.BuildPut? || last.BuildUpsert? {
        TaskIsItsHistory(keccak, before, last.task);
      }
    }
  }

  /** `prove` answers from the list put last: its leaf at the index with its path, or the
      error; an empty list panics at 0. */
  lemma {:induction false} ProveAnswers(keccak: Keccak, run: seq<Step>, issuer: Pubkey, index: nat)
    ensures var r, list := Prove(keccak, Exec(keccak, run), issuer, index), ListPut(run, issuer);
      && (r == Err(NotFound) <==> list.None?)
      && (r == Err(Panicked) <==> list == Some([]) && index == 0)
      && (r == Err(LeafOutOfRange(index)) <==> list.Some? && index >= |list.value| && (list.value != [] || index > 0))
      && (r.Ok? <==> list.Some? && index < |list.value|)
      && (r.Ok? ==> r.value == MerkleProof(list.value[index], Siblings(keccak, list.value, index), index))
  {
    hide Exec, ListPut, RootWritten, Siblings;
    StoresAreTheirHistory(keccak, run, issuer);
  }

  /** `verify_proof` answers from the root written last alone, whether or not leaves were
      ever put: it accepts exactly the proofs that reach that root. */
  lemma {:induction false} VerifyAnswers(keccak: Keccak, checked: bool, run: seq<Step>, issuer: Pubkey,
                                         proof: MerkleProof)
    ensures var r := VerifyProof(keccak, checked, Exec(keccak, run), issuer, proof);
      var root := RootWritten(keccak, run, issuer);
      var reached := Fold(keccak, proof.leaf, proof.siblings, Unrolled(proof.indexBits, |proof.siblings|));
      && (r == Err(NotFound) <==> root.None?)
      && (r == Err(Panicked) <==> root.Some? && checked && |proof.siblings| > 64)
      && (r == Ok(true) <==> root == Some(reached) && !(checked && |proof.siblings| > 64))
      && (r == Ok(false) <==> root.Some? && root != Some(reached) && !(checked && |proof.siblings| > 64))
  {
    hide Exec, ListPut, RootWritten, Fold, Unrolled;
    StoresAreTheirHistory(keccak, run, issuer);
  }

  /** An issuer that was only ingested has a root to verify against and no leaves to prove. */
  lemma {:induction false} IngestedOnly(keccak: Keccak, checked: bool, view: IssuerView, proof: MerkleProof, index: nat)
    requires |proof.siblings| <= 64
    ensures var s := Exec(keccak, [Ingest(view)]);
      && Prove(keccak, s, view.address, index) == Err(NotFound)
      && VerifyProof(keccak, checked, s, view.address, proof)
         == Ok(Fold(keccak, proof.leaf, proof.siblings, proof.indexBits) == view.merkleRoot)
  {
    hide Fold;
    assert [Ingest(view)][..0] == [];
    StoresAreTheirHistory(keccak, [Ingest(view)], view.address);
  }
}
