/** `offchain/crates/core/src/engine.rs`: the leaf store and the issuer store, written by
    separate awaits. Every store access is one atomic step; tasks interleave freely. */
module Engine {
  import opened Basics
  import opened Bits
  import opened MerkleSpec
  import opened MerkleBinding
  import opened OffchainMerkle

  datatype IssuerView = IssuerView(address: Pubkey, authority: Pubkey, schemaId: Digest, merkleRoot: Digest,
                                   attestationCount: nat)

  datatype MerkleProof = MerkleProof(leaf: Digest, siblings: seq<Digest>, indexBits: Word64)

  /** `Panicked` is the out-of-bounds access of `prove` on an empty leaf list, and the shift
      overflow of `verify_proof` in a build that checks for it. */
  datatype EngineError = NotFound | LeafOutOfRange(index: nat) | Panicked

  /** Where a `build_tree` call stands: its next await is the put, the upsert, or none. */
  datatype Phase = BeforePut | BeforeUpsert | Finished

  /** A `build_tree` call in flight, with the issuer that it read. */
  datatype Task = Task(issuer: Pubkey, leaves: LeafList, view: IssuerView, phase: Phase)

  datatype Stores = Stores(issuers: map<Pubkey, IssuerView>, leaves: map<Pubkey, LeafList>, tasks: map<nat, Task>)

  const EMPTY := Stores(map[], map[], map[])

  datatype Step =
    | Ingest(view: IssuerView)
    | BuildRead(task: nat, issuer: Pubkey, leaves: LeafList)
    | BuildPut(task: nat)
    | BuildUpsert(task: nat)

  /** The issuer whose leaf list a step replaces, if any. */
  function PutsTo(s: Stores, step: Step): Option<Pubkey> {
    if step.BuildPut? && step.task in s.tasks && s.tasks[step.task].phase == BeforePut
    then Some(s.tasks[step.task].issuer) else None
  }

  /** The issuer whose root a step replaces, if any. */
  function RootTo(s: Stores, step: Step): Option<Pubkey> {
    match step
    case Ingest(view) => Some(view.address)
    case BuildUpsert(task) =>
      if task in s.tasks && s.tasks[task].phase == BeforeUpsert then Some(s.tasks[task].view.address) else None
    case _ => None
  }

  /** One step; a step that its task is not ready for changes nothing. */
  function Next(keccak: Keccak, s: Stores, step: Step): Stores {
    match step
    case Ingest(view) => s.(issuers := s.issuers[view.address := view])
    case BuildRead(task, issuer, leaves) =>
      if task in s.tasks || issuer !in s.issuers then s
      else s.(tasks := s.tasks[task := Task(issuer, leaves, s.issuers[issuer], BeforePut)])
    case BuildPut(task) =>
      if PutsTo(s, step).None? then s
      else
        var t := s.tasks[task];
        s.(leaves := s.leaves[t.issuer := t.leaves], tasks := s.tasks[task := t.(phase := BeforeUpsert)])
    case BuildUpsert(task) =>
      if RootTo(s, step).None? then s
      else
        var t := s.tasks[task];
        s.(issuers := s.issuers[t.view.address := t.view.(merkleRoot := TreeRoot(keccak, t.leaves))],
           tasks := s.tasks[task := t.(phase := Finished)])
  }

  function Exec(keccak: Keccak, run: seq<Step>): Stores {
    if run == [] then EMPTY else Next(keccak, Exec(keccak, run[..|run| - 1]), run[|run| - 1])
  }

  /** The stored root is the root of the stored leaves. */
  predicate InSync(keccak: Keccak, s: Stores, issuer: Pubkey) {
    issuer in s.issuers && issuer in s.leaves && s.issuers[issuer].merkleRoot == TreeRoot(keccak, s.leaves[issuer])
  }

  /** Issuers are stored under their own address, and builds hold the issuer they are for. */
  predicate KeysMatch(s: Stores) {
    && (forall k :: k in s.issuers ==> s.issuers[k].address == k)
    && (forall t :: t in s.tasks ==> s.tasks[t].view.address == s.tasks[t].issuer)
  }

  lemma {:induction false} KeysAlwaysMatch(keccak: Keccak, run: seq<Step>)
    ensures KeysMatch(Exec(keccak, run))
    decreases |run|
  {
    if run != [] {
      KeysAlwaysMatch(keccak, run[..|run| - 1]);
    }
  }

  /** What `prove` answers: it reads the leaf store only. */
  function Prove(keccak: Keccak, s: Stores, issuer: Pubkey, index: nat): Result<MerkleProof, EngineError> {
    if issuer !in s.leaves then Err(NotFound)
    else
      var leaves := s.leaves[issuer];
      if leaves == [] then Err(if index == 0 then Panicked else LeafOutOfRange(index))
      else if index >= |leaves| then Err(LeafOutOfRange(index))
      else Ok(MerkleProof(leaves[index], Siblings(keccak, leaves, index), index))
  }

  /** What `verify_proof` answers: it reads the issuer store only. `checked` says whether
      the build checks for overflow. */
  function VerifyProof(keccak: Keccak, checked: bool, s: Stores, issuer: Pubkey, proof: MerkleProof)
      : Result<bool, EngineError> {
    if issuer !in s.issuers then Err(NotFound)
    else
      match Recomputed(keccak, proof.leaf, proof.siblings, proof.indexBits, checked)
      case None => Err(Panicked)
      case Some(root) => Ok(root == s.issuers[issuer].merkleRoot)
  }

  /** A proof given out verifies exactly when the two stores are in sync. */
  lemma {:induction false} ProofVerifiesIffInSync(keccak: Keccak, checked: bool, s: Stores, issuer: Pubkey, index: nat)
    requires Prove(keccak, s, issuer, index).Ok? && issuer in s.issuers
    ensures VerifyProof(keccak, checked, s, issuer, Prove(keccak, s, issuer, index).value)
         == Ok(InSync(keccak, s, issuer))
  {
    hide Siblings, Root, Fold;
    var leaves := s.leaves[issuer];
    ProofFitsOnchain(keccak, leaves, index);
    DescendInRange(|leaves|, index);
    SiblingsFoldToRoot(keccak, leaves, index);
  }

  /** The bits that a proof's word gives to its siblings. */
  function BitsOf(proof: MerkleProof): nat {
    Unrolled(proof.indexBits, |proof.siblings|)
  }

  /** Over stores in sync, the proofs accepted are exactly those along the path of a stored
      node, or the collision computed from the proof is a real one. */
  lemma {:induction false} AcceptedExactly(keccak: Keccak, checked: bool, s: Stores, issuer: Pubkey, proof: MerkleProof)
    requires InSync(keccak, s, issuer) && s.leaves[issuer] != []
    ensures var leaves, bits := s.leaves[issuer], BitsOf(proof);
      || IsCollision(keccak, AnyCollision(keccak, leaves, proof.leaf, proof.siblings, bits))
      || (VerifyProof(keccak, checked, s, issuer, proof) == Ok(true) <==>
          !(checked && |proof.siblings| > 64) && OnStoredPath(keccak, leaves, proof.leaf, proof.siblings, bits))
  {
    hide Fold, Root, Unrolled, AnyCollision, OnStoredPath, IsCollision;
    BindingAtEveryDepth(keccak, s.leaves[issuer], proof.leaf, proof.siblings, BitsOf(proof));
  }

  /** Over stores in sync, an accepted proof of full length is about a leaf of the list; and
      among those with an index in range, exactly the one that `prove` gives out is accepted. */
  lemma {:induction false} AcceptedIsProven(keccak: Keccak, checked: bool, s: Stores, issuer: Pubkey,
                                            proof: MerkleProof)
    requires InSync(keccak, s, issuer) && s.leaves[issuer] != []
    requires |proof.siblings| == Depth(|s.leaves[issuer]|)
    ensures var leaves, accepted := s.leaves[issuer], VerifyProof(keccak, checked, s, issuer, proof) == Ok(true);
      || IsCollision(keccak, BindingCollision(keccak, leaves, proof.leaf, proof.siblings, proof.indexBits))
      || (&& (accepted ==> proof.leaf in leaves)
          && (proof.indexBits < |leaves| ==>
              (accepted <==> Prove(keccak, s, issuer, proof.indexBits) == Ok(proof))))
  {
    hide Fold, Root, Siblings, BindingCollision, IsCollision, Depth;
    var leaves := s.leaves[issuer];
    ProofFitsOnchain(keccak, leaves, 0);
    if VerifyProof(keccak, checked, s, issuer, proof) == Ok(true) {
      LeafBinding(keccak, leaves, proof.leaf, proof.siblings, proof.indexBits);
    }
    if proof.indexBits < |leaves| {
      ProofVerifiesIffInSync(keccak, checked, s, issuer, proof.indexBits);
    }
  }

  /** The leaf list put last for an issuer. */
  function LastPut(keccak: Keccak, run: seq<Step>, issuer: Pubkey): Option<LeafList> {
    if run == [] then None
    else
      var before, step := run[..|run| - 1], run[|run| - 1];
      if PutsTo(Exec(keccak, before), step) == Some(issuer) then Some(Exec(keccak, before).tasks[step.task].leaves)
      else LastPut(keccak, before, issuer)
  }

  /** The root written last for an issuer, by an ingest or by the end of a build. */
  function LastRoot(keccak: Keccak, run: seq<Step>, issuer: Pubkey): Option<Digest> {
    if run == [] then None
    else
      var before, step := run[..|run| - 1], run[|run| - 1];
      if RootTo(Exec(keccak, before), step) == Some(issuer) then
        Some(if step.Ingest? then step.view.merkleRoot
             else TreeRoot(keccak, Exec(keccak, before).tasks[step.task].leaves))
      else LastRoot(keccak, before, issuer)
  }

  lemma {:induction false} StoresAreLastWrites(keccak: Keccak, run: seq<Step>, issuer: Pubkey)
    ensures var s := Exec(keccak, run);
      && LastPut(keccak, run, issuer) == (if issuer in s.leaves then Some(s.leaves[issuer]) else None)
      && LastRoot(keccak, run, issuer) == (if issuer in s.issuers then Some(s.issuers[issuer].merkleRoot) else None)
    decreases |run|
  {
    if run != [] {
      StoresAreLastWrites(keccak, run[..|run| - 1], issuer);
    }
  }

  /** In every interleaving: proofs verify exactly when the last root written is the root
      of the last list put. */
  lemma {:induction false} InSyncExactly(keccak: Keccak, run: seq<Step>, issuer: Pubkey)
    ensures InSync(keccak, Exec(keccak, run), issuer) <==>
      && LastPut(keccak, run, issuer).Some?
      && LastRoot(keccak, run, issuer) == Some(TreeRoot(keccak, LastPut(keccak, run, issuer).value))
  {
    StoresAreLastWrites(keccak, run, issuer);
  }

  lemma TaskAdvances(keccak: Keccak, s: Stores, step: Step, task: nat)
    requires task in Next(keccak, s, step).tasks
    ensures var after := Next(keccak, s, step).tasks[task];
      if task in s.tasks then
        && after == s.tasks[task].(phase := after.phase)
        && (s.tasks[task].phase != BeforePut ==> after.phase != BeforePut)
        && (s.tasks[task].phase == BeforePut != after.phase ==>
              step == BuildPut(task) && PutsTo(s, step) == Some(after.issuer))
      else
        && step == BuildRead(task, after.issuer, after.leaves) && after.issuer in s.issuers
        && after.view == s.issuers[after.issuer] && after.phase == BeforePut
  {
  }

  lemma TaskStays(keccak: Keccak, s: Stores, step: Step, task: nat)
    requires task in s.tasks
    ensures task in Next(keccak, s, step).tasks
  {
  }

  lemma ViewAdvances(keccak: Keccak, s: Stores, step: Step, issuer: Pubkey)
    requires KeysMatch(s) && issuer in Next(keccak, s, step).issuers
    ensures var after := Next(keccak, s, step).issuers[issuer];
      if RootTo(s, step) != Some(issuer) then issuer in s.issuers && after == s.issuers[issuer]
      else if step.Ingest? then after == step.view
      else
        && step.BuildUpsert? && step.task in s.tasks && s.tasks[step.task].issuer == issuer
        && s.tasks[step.task].phase == BeforeUpsert
        && after == s.tasks[step.task].view.(merkleRoot := TreeRoot(keccak, s.tasks[step.task].leaves))
  {
  }

  /** Tasks never change what they build, and only move forward. */
  lemma {:induction false} TaskStable(keccak: Keccak, run: seq<Step>, t: nat, task: nat)
    requires t <= |run| && task in Exec(keccak, run[..t]).tasks
    ensures var a, b := Exec(keccak, run[..t]).tasks, Exec(keccak, run).tasks;
      && task in b && b[task] == a[task].(phase := b[task].phase)
      && (a[task].phase != BeforePut ==> b[task].phase != BeforePut)
    decreases |run|
  {
    if t == |run| {
      assert run[..t] == run;
    } else {
      var before := run[..|run| - 1];
      assert before[..t] == run[..t];
      TaskStable(keccak, before, t, task);
      hide Next;
      TaskStays(keccak, Exec(keccak, before), run[|run| - 1], task);
      TaskAdvances(keccak, Exec(keccak, before), run[|run| - 1], task);
    }
  }

  lemma {:induction false} LastPutKept(keccak: Keccak, run: seq<Step>, t: nat, issuer: Pubkey)
    requires t <= |run|
    requires forall u :: t <= u < |run| ==> PutsTo(Exec(keccak, run[..u]), run[u]) != Some(issuer)
    ensures LastPut(keccak, run, issuer) == LastPut(keccak, run[..t], issuer)
    decreases |run|
  {
    if t == |run| {
      assert run[..t] == run;
    } else {
      var before := run[..|run| - 1];
      assert before[..t] == run[..t];
      forall u | t <= u < |before|
        ensures PutsTo(Exec(keccak, before[..u]), before[u]) != Some(issuer)
      {
        assert before[..u] == run[..u];
      }
      LastPutKept(keccak, before, t, issuer);
    }
  }

  lemma {:induction false} LastRootKept(keccak: Keccak, run: seq<Step>, t: nat, issuer: Pubkey)
    requires t <= |run|
    requires forall u :: t <= u < |run| ==> RootTo(Exec(keccak, run[..u]), run[u]) != Some(issuer)
    ensures LastRoot(keccak, run, issuer) == LastRoot(keccak, run[..t], issuer)
    decreases |run|
  {
    if t == |run| {
      assert run[..t] == run;
    } else {
      var before := run[..|run| - 1];
      assert before[..t] == run[..t];
      forall u | t <= u < |before|
        ensures RootTo(Exec(keccak, before[..u]), before[u]) != Some(issuer)
      {
        assert before[..u] == run[..u];
      }
      LastRootKept(keccak, before, t, issuer);
    }
  }

  lemma PutNeedsTask(s: Stores, step: Step)
    requires step.BuildPut? && PutsTo(s, step).Some?
    ensures step.task in s.tasks
  {
  }

  lemma {:induction false} LastPutIsAt(keccak: Keccak, run: seq<Step>, p: nat, issuer: Pubkey)
    requires p < |run| && PutsTo(Exec(keccak, run[..p]), run[p]) == Some(issuer)
    requires forall t :: p < t < |run| ==> PutsTo(Exec(keccak, run[..t]), run[t]) != Some(issuer)
    ensures LastPut(keccak, run, issuer) == Some(Exec(keccak, run[..p]).tasks[run[p].task].leaves)
  {
    LastPutKept(keccak, run, p + 1, issuer);
    assert run[..p + 1][..p] == run[..p];
  }

  lemma {:induction false} LastRootIsAt(keccak: Keccak, run: seq<Step>, u: nat, issuer: Pubkey)
    requires u < |run| && run[u].BuildUpsert? && RootTo(Exec(keccak, run[..u]), run[u]) == Some(issuer)
    requires forall t :: u < t < |run| ==> RootTo(Exec(keccak, run[..t]), run[t]) != Some(issuer)
    ensures run[u].task in Exec(keccak, run[..u]).tasks
    ensures LastRoot(keccak, run, issuer) == Some(TreeRoot(keccak, Exec(keccak, run[..u]).tasks[run[u].task].leaves))
  {
    LastRootKept(keccak, run, u + 1, issuer);
    assert run[..u + 1][..u] == run[..u];
  }

  /** A build puts at `p` and upserts at `u`; no other put for the issuer follows `p`, no
      other root write for it follows `u`. Other tasks, and other issuers, are free. */
  predicate Undisturbed(keccak: Keccak, run: seq<Step>, p: nat, u: nat, issuer: Pubkey) {
    && p < u < |run| && run[p].BuildPut? && run[u] == BuildUpsert(run[p].task)
    && PutsTo(Exec(keccak, run[..p]), run[p]) == Some(issuer)
    && RootTo(Exec(keccak, run[..u]), run[u]) == Some(issuer)
    && (forall t :: p < t < |run| ==> PutsTo(Exec(keccak, run[..t]), run[t]) != Some(issuer))
    && (forall t :: u < t < |run| ==> RootTo(Exec(keccak, run[..t]), run[t]) != Some(issuer))
  }

  /** Such a build leaves its issuer in sync, over its own leaves. */
  lemma {:induction false} UndisturbedBuildSyncs(keccak: Keccak, run: seq<Step>, p: nat, u: nat, issuer: Pubkey)
    requires Undisturbed(keccak, run, p, u, issuer)
    ensures InSync(keccak, Exec(keccak, run), issuer)
    ensures run[p].task in Exec(keccak, run[..p]).tasks
    ensures Exec(keccak, run).leaves[issuer] == Exec(keccak, run[..p]).tasks[run[p].task].leaves
  {
    var task := run[p].task;
    hide Next, InSync, PutsTo, RootTo, LastPut, LastRoot, TreeRoot, Exec;
    assert run[..u][..p] == run[..p];
    PutNeedsTask(Exec(keccak, run[..p]), run[p]);
    TaskStable(keccak, run[..u], p, task);
    LastPutIsAt(keccak, run, p, issuer);
    LastRootIsAt(keccak, run, u, issuer);
    InSyncExactly(keccak, run, issuer);
    StoresAreLastWrites(keccak, run, issuer);
  }

  /** A run that is cut after the upsert is still undisturbed. */
  lemma {:induction false} UndisturbedPrefix(keccak: Keccak, run: seq<Step>, p: nat, u: nat, issuer: Pubkey, n: nat)
    requires Undisturbed(keccak, run, p, u, issuer) && u < n <= |run|
    ensures Undisturbed(keccak, run[..n], p, u, issuer)
  {
    hide PutsTo, RootTo, Exec;
    forall t | 0 <= t < n
      ensures run[..n][..t] == run[..t]
    {
    }
  }

  /** From the put on, `prove` reads the leaves that the build has put. */
  lemma {:induction false} LeavesAfterPut(keccak: Keccak, run: seq<Step>, p: nat, u: nat, issuer: Pubkey, m: nat)
    requires Undisturbed(keccak, run, p, u, issuer) && p < m <= |run|
    ensures run[p].task in Exec(keccak, run[..p]).tasks && issuer in Exec(keccak, run[..m]).leaves
    ensures Exec(keccak, run[..m]).leaves[issuer] == Exec(keccak, run[..p]).tasks[run[p].task].leaves
  {
    hide PutsTo, RootTo, Exec, LastPut, LastRoot;
    PutNeedsTask(Exec(keccak, run[..p]), run[p]);
    forall t | 0 <= t < m
      ensures run[..m][..t] == run[..t]
    {
    }
    LastPutIsAt(keccak, run[..m], p, issuer);
    StoresAreLastWrites(keccak, run[..m], issuer);
  }

  /** Every leaf that was built can be proven from the put on, and a proof given out at any
      such time `m` is accepted at any time `n` after the upsert. */
  lemma {:induction false} ProofsVerifyAfterBuild(keccak: Keccak, checked: bool, run: seq<Step>, p: nat, u: nat,
                                                  issuer: Pubkey, index: nat, m: nat, n: nat)
    requires Undisturbed(keccak, run, p, u, issuer) && p < m <= |run| && u < n <= |run|
    requires run[p].task in Exec(keccak, run[..p]).tasks
    requires index < |Exec(keccak, run[..p]).tasks[run[p].task].leaves|
    ensures var built := Exec(keccak, run[..p]).tasks[run[p].task].leaves;
      var given := Prove(keccak, Exec(keccak, run[..m]), issuer, index);
      && given.Ok? && given.value.leaf == built[index] && given.value.indexBits == index
      && VerifyProof(keccak, checked, Exec(keccak, run[..n]), issuer, given.value) == Ok(true)
  {
    assert p < u;
    hide Undisturbed, VerifyProof, Exec, Siblings;
    LeavesAfterPut(keccak, run, p, u, issuer, m);
    LeavesAfterPut(keccak, run, p, u, issuer, n);
    UndisturbedPrefix(keccak, run, p, u, issuer, n);
    UndisturbedBuildSyncs(keccak, run[..n], p, u, issuer);
    ProofVerifiesIffInSync(keccak, checked, Exec(keccak, run[..n]), issuer, index);
  }

  /** Where a stored root came from: an ingest of the issuer, or a leaf list put for it. */
  predicate RootSource(keccak: Keccak, run: seq<Step>, t: nat, issuer: Pubkey, root: Digest)
    requires t < |run|
  {
    || (run[t].Ingest? && run[t].view.address == issuer && run[t].view.merkleRoot == root)
    || (PutsTo(Exec(keccak, run[..t]), run[t]) == Some(issuer)
        && TreeRoot(keccak, Exec(keccak, run[..t]).tasks[run[t].task].leaves) == root)
  }

  lemma {:induction false} PutOfTask(keccak: Keccak, run: seq<Step>, task: nat) returns (t: nat)
    requires task in Exec(keccak, run).tasks && Exec(keccak, run).tasks[task].phase != BeforePut
    ensures t < |run|
    ensures var k := Exec(keccak, run).tasks[task]; RootSource(keccak, run, t, k.issuer, TreeRoot(keccak, k.leaves))
    decreases |run|
  {
    var n := |run| - 1;
    var before := run[..n];
    var s := Exec(keccak, before);
    TaskAdvances(keccak, s, run[n], task);
    hide Next, PutsTo;
    if task in s.tasks && s.tasks[task].phase != BeforePut {
      t := PutOfTask(keccak, before, task);
      assert before[..t] == run[..t];
    } else {
      t := n;
    }
  }

  /** In every interleaving each stored root was ingested for that issuer, or is the root
      of a leaf list already put for it. */
  lemma {:induction false} EveryRootHasASource(keccak: Keccak, run: seq<Step>, issuer: Pubkey) returns (t: nat)
    requires issuer in Exec(keccak, run).issuers
    ensures t < |run| && RootSource(keccak, run, t, issuer, Exec(keccak, run).issuers[issuer].merkleRoot)
    decreases |run|
  {
    var n := |run| - 1;
    var before, step := run[..n], run[n];
    var s := Exec(keccak, before);
    KeysAlwaysMatch(keccak, before);
    ViewAdvances(keccak, s, step, issuer);
    hide Next, PutsTo, RootTo;
    if RootTo(s, step) != Some(issuer) {
      t := EveryRootHasASource(keccak, before, issuer);
      assert before[..t] == run[..t];
    } else if step.Ingest? {
      t := n;
    } else {
      t := PutOfTask(keccak, before, step.task);
      assert before[..t] == run[..t];
    }
  }

  /** The build of `task` read the issuer, as it was then stored, at step `r`. */
  predicate ReadAt(keccak: Keccak, run: seq<Step>, r: nat, task: nat, built: Task) {
    && r < |run| && run[r] == BuildRead(task, built.issuer, built.leaves)
    && built.issuer in Exec(keccak, run[..r]).issuers && built.view == Exec(keccak, run[..r]).issuers[built.issuer]
  }

  lemma {:induction false} TaskWasRead(keccak: Keccak, run: seq<Step>, task: nat) returns (r: nat)
    requires task in Exec(keccak, run).tasks
    ensures ReadAt(keccak, run, r, task, Exec(keccak, run).tasks[task])
    decreases |run|
  {
    var n := |run| - 1;
    var before := run[..n];
    TaskAdvances(keccak, Exec(keccak, before), run[n], task);
    hide Next;
    if task in Exec(keccak, before).tasks {
      r := TaskWasRead(keccak, before, task);
      assert before[..r] == run[..r];
    } else {
      r := n;
    }
  }

  /** The last write of an issuer's view, at step `w`: an ingest of that view, or the end of
      a build that read the issuer at step `r` and changed only its root since. */
  predicate ViewWritten(keccak: Keccak, run: seq<Step>, w: nat, r: nat, issuer: Pubkey, view: IssuerView) {
    && w < |run| && RootTo(Exec(keccak, run[..w]), run[w]) == Some(issuer)
    && (run[w].Ingest? ==> view == run[w].view)
    && (run[w].BuildUpsert? ==>
          && r < w && run[r].BuildRead? && run[r].task == run[w].task && run[r].issuer == issuer
          && issuer in Exec(keccak, run[..r]).issuers
          && view == Exec(keccak, run[..r]).issuers[issuer].(merkleRoot := TreeRoot(keccak, run[r].leaves)))
  }

  /** No step after `w` writes the issuer's view. */
  predicate LastWrite(keccak: Keccak, run: seq<Step>, w: nat, issuer: Pubkey) {
    forall t :: w < t < |run| ==> RootTo(Exec(keccak, run[..t]), run[t]) != Some(issuer)
  }

  lemma {:induction false} WriteKept(keccak: Keccak, run: seq<Step>, w: nat, r: nat, issuer: Pubkey, view: IssuerView)
    requires run != []
    requires var n := |run| - 1;
      && ViewWritten(keccak, run[..n], w, r, issuer, view) && LastWrite(keccak, run[..n], w, issuer)
      && RootTo(Exec(keccak, run[..n]), run[n]) != Some(issuer)
    ensures ViewWritten(keccak, run, w, r, issuer, view) && LastWrite(keccak, run, w, issuer)
  {
    hide Exec, RootTo;
    var n := |run| - 1;
    forall t | 0 <= t <= n
      ensures run[..n][..t] == run[..t]
    {
    }
  }

  /** In every interleaving a stored view is what its last write made it. */
  lemma {:induction false} ViewSource(keccak: Keccak, run: seq<Step>, issuer: Pubkey) returns (w: nat, r: nat)
    requires issuer in Exec(keccak, run).issuers
    ensures ViewWritten(keccak, run, w, r, issuer, Exec(keccak, run).issuers[issuer])
    ensures LastWrite(keccak, run, w, issuer)
    decreases |run|
  {
    var n := |run| - 1;
    var before, step := run[..n], run[n];
    assert Exec(keccak, run) == Next(keccak, Exec(keccak, before), step);
    KeysAlwaysMatch(keccak, before);
    ViewAdvances(keccak, Exec(keccak, before), step, issuer);
    hide Exec, Next, PutsTo, RootTo;
    if RootTo(Exec(keccak, before), step) != Some(issuer) {
      w, r := ViewSource(keccak, before, issuer);
      WriteKept(keccak, run, w, r, issuer, Exec(keccak, run).issuers[issuer]);
    } else if step.Ingest? {
      w, r := n, 0;
    } else {
      w := n;
      r := TaskWasRead(keccak, before, step.task);
      assert before[..r] == run[..r];
    }
  }

  /** The two views agree on everything but the root. */
  predicate SameButRoot(v: IssuerView, w: IssuerView) {
    v.(merkleRoot := w.merkleRoot) == w
  }

  /** Authority, schema and count always come from one ingest, reached by following builds
      back to what they read. */
  lemma {:induction false} FieldsComeFromAnIngest(keccak: Keccak, run: seq<Step>, issuer: Pubkey) returns (t: nat)
    requires issuer in Exec(keccak, run).issuers
    ensures t < |run| && run[t].Ingest? && SameButRoot(run[t].view, Exec(keccak, run).issuers[issuer])
    decreases |run|
  {
    hide Exec;
    var w, r := ViewSource(keccak, run, issuer);
    if run[w].Ingest? {
      t := w;
    } else {
      t := FieldsComeFromAnIngest(keccak, run[..r], issuer);
    }
  }

  /** Two overlapping builds of one issuer, the first to put being the last to upsert. */
  function OverlappingBuilds(view: IssuerView, first: LeafList, second: LeafList): seq<Step> {
    [Ingest(view), BuildRead(1, view.address, first), BuildRead(2, view.address, second),
     BuildPut(1), BuildPut(2), BuildUpsert(2), BuildUpsert(1)]
  }

  lemma {:induction false} ExecAppend(keccak: Keccak, run: seq<Step>, step: Step)
    ensures Exec(keccak, run + [step]) == Next(keccak, Exec(keccak, run), step)
  {
    assert (run + [step])[..|run|] == run;
  }

  /** Such an overlap ends in sync only if the two lists have one root: without the
      hypothesis, proofs that `prove` gives out fail. */
  lemma {:induction false} OverlapBreaksSync(keccak: Keccak, view: IssuerView, first: LeafList, second: LeafList)
    ensures InSync(keccak, Exec(keccak, OverlappingBuilds(view, first, second)), view.address) <==>
      TreeRoot(keccak, first) == TreeRoot(keccak, second)
  {
    hide Exec, TreeRoot;
    var r0: seq<Step> := [];
    assert Exec(keccak, r0) == EMPTY by { EmptyRun(keccak); }
    var r1 := r0 + [Ingest(view)];
    var r2 := r1 + [BuildRead(1, view.address, first)];
    var r3 := r2 + [BuildRead(2, view.address, second)];
    var r4 := r3 + [BuildPut(1)];
    var r5 := r4 + [BuildPut(2)];
    var r6 := r5 + [BuildUpsert(2)];
    ExecAppend(keccak, r0, Ingest(view));
    ExecAppend(keccak, r1, BuildRead(1, view.address, first));
    ExecAppend(keccak, r2, BuildRead(2, view.address, second));
    ExecAppend(keccak, r3, BuildPut(1));
    ExecAppend(keccak, r4, BuildPut(2));
    ExecAppend(keccak, r5, BuildUpsert(2));
    ExecAppend(keccak, r6, BuildUpsert(1));
    assert OverlappingBuilds(view, first, second) == r6 + [BuildUpsert(1)];
  }

  /** An ingest while a build is under way. */
  function IngestDuringBuild(first: IssuerView, second: IssuerView, leaves: LeafList): seq<Step> {
    [Ingest(first), BuildRead(1, first.address, leaves), Ingest(second), BuildPut(1), BuildUpsert(1)]
  }

  lemma EmptyRun(keccak: Keccak)
    ensures Exec(keccak, []) == EMPTY
  {
  }

  /** Such an ingest is lost: its fields stay only if they were there already. */
  lemma {:induction false} IngestDuringBuildIsLost(keccak: Keccak, first: IssuerView, second: IssuerView,
                                                   leaves: LeafList)
    requires first.address == second.address
    ensures var s := Exec(keccak, IngestDuringBuild(first, second, leaves));
      && first.address in s.issuers
      && s.issuers[first.address] == first.(merkleRoot := TreeRoot(keccak, leaves))
      && (SameButRoot(second, s.issuers[first.address]) <==> SameButRoot(second, first))
  {
    hide Exec, TreeRoot;
    var r0: seq<Step> := [];
    assert Exec(keccak, r0) == EMPTY by { EmptyRun(keccak); }
    var r1 := r0 + [Ingest(first)];
    var r2 := r1 + [BuildRead(1, first.address, leaves)];
    var r3 := r2 + [Ingest(second)];
    var r4 := r3 + [BuildPut(1)];
    ExecAppend(keccak, r0, Ingest(first));
    ExecAppend(keccak, r1, BuildRead(1, first.address, leaves));
    ExecAppend(keccak, r2, Ingest(second));
    ExecAppend(keccak, r3, BuildPut(1));
    ExecAppend(keccak, r4, BuildUpsert(1));
    assert IngestDuringBuild(first, second, leaves) == r4 + [BuildUpsert(1)];
  }

  /** `prove` panics exactly for index 0 of an issuer whose last list put is empty. */
  lemma {:induction false} ProvePanicsExactly(keccak: Keccak, run: seq<Step>, issuer: Pubkey, index: nat)
    ensures Prove(keccak, Exec(keccak, run), issuer, index) == Err(Panicked) <==>
      LastPut(keccak, run, issuer) == Some([]) && index == 0
  {
    hide Exec, LastPut, LastRoot;
    StoresAreLastWrites(keccak, run, issuer);
  }

  /** A build over no leaves reaches that state. */
  lemma {:induction false} EmptyBuildPanics(keccak: Keccak, view: IssuerView)
    ensures Prove(keccak, Exec(keccak, [Ingest(view), BuildRead(1, view.address, []), BuildPut(1)]), view.address, 0)
         == Err(Panicked)
  {
    hide Exec;
    var r0: seq<Step> := [];
    assert Exec(keccak, r0) == EMPTY by { EmptyRun(keccak); }
    var r1 := r0 + [Ingest(view)];
    var r2 := r1 + [BuildRead(1, view.address, [])];
    ExecAppend(keccak, r0, Ingest(view));
    ExecAppend(keccak, r1, BuildRead(1, view.address, []));
    ExecAppend(keccak, r2, BuildPut(1));
    assert [Ingest(view), BuildRead(1, view.address, []), BuildPut(1)] == r2 + [BuildPut(1)];
  }

  /** The engine over its in-memory stores, calls running one at a time. */
  class IdentityEngine {
    const keccak: Keccak
    const checked: bool
    var issuers: map<Pubkey, IssuerView>
    var leaves: map<Pubkey, LeafList>

    function View(): Stores
      reads this
    {
      Stores(issuers, leaves, map[])
    }

    predicate Valid()
      reads this
    {
      forall k :: k in issuers ==> issuers[k].address == k
    }

    constructor (keccak: Keccak, checked: bool)
      ensures Valid() && this.keccak == keccak && this.checked == checked && View() == EMPTY
    {
      this.keccak, this.checked := keccak, checked;
      issuers, leaves := map[], map[];
    }

    method IngestIssuer(view: IssuerView)
      requires Valid()
      modifies this
      ensures Valid() && View() == Next(keccak, old(View()), Ingest(view))
      ensures issuers == old(issuers)[view.address := view] && leaves == old(leaves)
    {
      issuers := issuers[view.address := view];
    }

    /** The three awaits in a row, with no other task in between. */
    method BuildTree(issuer: Pubkey, newLeaves: LeafList) returns (r: Result<Digest, EngineError>)
      requires Valid()
      modifies this
      ensures Valid()
      ensures r == if issuer in old(issuers) then Ok(TreeRoot(keccak, newLeaves)) else Err(NotFound)
      ensures View() == AfterBuild(keccak, old(View()), issuer, newLeaves).(tasks := map[])
      ensures r.Ok? ==> InSync(keccak, View(), issuer)
      ensures r.Ok? ==> issuers == old(issuers)[issuer := old(issuers)[issuer].(merkleRoot := r.value)]
      ensures r.Ok? ==> leaves == old(leaves)[issuer := newLeaves]
      ensures r.Err? ==> issuers == old(issuers) && leaves == old(leaves)
    {
      if issuer !in issuers {
        return Err(NotFound);
      }
      var view := issuers[issuer];
      var tree, hashCalls := FromLeaves(keccak, newLeaves);
      RootNodeIsTreeRoot(keccak, newLeaves);
      var root := tree.RootNode();
      leaves := leaves[issuer := newLeaves];
      view := view.(merkleRoot := root);
      issuers := issuers[view.address := view];
      return Ok(root);
    }

    method ProveLeaf(issuer: Pubkey, index: nat) returns (r: Result<MerkleProof, EngineError>)
      ensures r == Prove(keccak, View(), issuer, index)
    {
      if issuer !in leaves {
        return Err(NotFound);
      }
      var stored := leaves[issuer];
      var tree, hashCalls := FromLeaves(keccak, stored);
      var path := tree.Proof(index, keccak, stored);
      if path.None? {
        return Err(LeafOutOfRange(index));
      }
      if index >= |stored| {
        return Err(Panicked);
      }
      return Ok(MerkleProof(stored[index], path.value.siblings, path.value.indexBits));
    }

    method CheckProof(issuer: Pubkey, proof: MerkleProof) returns (r: Result<bool, EngineError>)
      ensures r == VerifyProof(keccak, checked, View(), issuer, proof)
    {
      if issuer !in issuers {
        return Err(NotFound);
      }
      var root := issuers[issuer].merkleRoot;
      var ok := OffchainMerkle.Verify(keccak, proof.leaf, proof.siblings, proof.indexBits, root, checked);
      if ok.None? {
        return Err(Panicked);
      }
      return Ok(ok.value);
    }
  }

  /** The three steps of one build, uninterrupted. */
  function AfterBuild(keccak: Keccak, s: Stores, issuer: Pubkey, leaves: LeafList): Stores {
    Next(keccak, Next(keccak, Next(keccak, s, BuildRead(0, issuer, leaves)), BuildPut(0)), BuildUpsert(0))
  }
}
