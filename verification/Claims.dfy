/**
 The download protocol: any number of callers and download tasks on any number of replicas,
 over one shared atomic registry. A run is any sequence of actions, so every interleaving,
 lease expiry, lost response, deletion and damaged file is included; a crash is an actor that
 takes no further action.
 */
module Claims {
  import opened Prelude
  import opened EntryKeys
  import opened Lru
  import opened Registry

  type ReplicaId = nat
  type CallerId = nat

  /** A request reduced to what the registry and the cache need; it names one entry. */
  datatype Target = Target(tenant: Option<Tenant>, modelName: string, revision: Option<string>, ignoreWeights: bool)
  {
    function Key(): EntryKey {
      EntryKey(tenant, modelName, revision, ignoreWeights)
    }
  }

  /** A satisfied download manifest: for one entry, in one partition of one replica's cache. */
  datatype Manifest = Manifest(replica: ReplicaId, partition: Option<Tenant>, key: EntryKey)

  /** Where a call to `ensure_model_downloaded` has got to. */
  datatype Phase =
    | Claiming(attempt: nat)
    | Checking(attempt: nat)
    | Clearing(attempt: nat)
    | Resetting
    | Registering(isOwner: bool)
    | Polling
    | PollWon
    | PollChecking
    | PollClearing
    | Returned(status: ModelStatus)

  datatype Caller = Caller(replica: ReplicaId, target: Target, claimId: ClaimId, phase: Phase)

  /** Where a spawned download has got to; `Won` has published and is about to notify. */
  datatype TaskPhase = Running | Recorded(status: ModelStatus) | Won(status: ModelStatus) | Ended

  datatype Task = Task(replica: ReplicaId, target: Target, claimId: ClaimId, phase: TaskPhase)

  type Waiters = map<(ReplicaId, EntryKey), seq<CallerId>>

  /** `nextId` supplies fresh claim ids; `configured` are the replicas with a cache directory. */
  datatype State = State(
    registry: Registry,
    now: int,
    nextId: ClaimId,
    callers: map<CallerId, Caller>,
    tasks: seq<Task>,
    waiters: Waiters,
    present: set<Manifest>,
    configured: set<ReplicaId>)

  /** A registry call is answered, fails without effect, or takes effect and its answer is lost. */
  datatype Io = Answered | FailedBefore | FailedAfter

  datatype Action =
    | Tick(elapsed: nat)
    | FilesChange(present: set<Manifest>)
    | Call(c: CallerId, replica: ReplicaId, target: Target)
    | CallerStep(c: CallerId, io: Io)
    | Heartbeat(i: nat, io: Io)
    | RecordDownload(i: nat, ok: bool)
    | Finish(i: nat, io: Io)
    | Notify(i: nat)
    | ClearModel(replica: ReplicaId, key: EntryKey, io: Io)
    | EvictRecord(key: EntryKey, io: Io)

  const MAX_CLAIM_ATTEMPTS := 2

  // ----- Callers

  function SetPhase(s: State, c: CallerId, phase: Phase): State
    requires c in s.callers
  {
    s.(callers := s.callers[c := s.callers[c].(phase := phase)])
  }

  /** The registry a call leaves behind, by how the call was answered. */
  function After(before: Registry, after: Registry, io: Io): Registry {
    if io == FailedBefore then before else after
  }

  /** `delete_status`: the waiters go whether or not the registry delete succeeded. */
  function DropEntry(s: State, replica: ReplicaId, key: EntryKey, io: Io): State {
    s.(registry := After(s.registry, DeleteModel(s.registry, key), io),
       waiters := s.waiters - {(replica, key)})
  }

  /** `recorded_files_present`: without a cache directory there is nothing to check. */
  predicate FilesPresent(s: State, replica: ReplicaId, target: Target) {
    replica in s.configured ==> Manifest(replica, target.tenant, target.Key()) in s.present
  }

  function Spawn(s: State, c: CallerId): State
    requires c in s.callers
  {
    var caller := s.callers[c];
    s.(tasks := s.tasks + [Task(caller.replica, caller.target, caller.claimId, Running)],
       callers := s.callers[c := caller.(claimId := s.nextId, phase := Polling)],
       nextId := s.nextId + 1)
  }

  function AddWaiter(s: State, c: CallerId): State
    requires c in s.callers
  {
    var slot := (s.callers[c].replica, s.callers[c].target.Key());
    var queue := if slot in s.waiters then s.waiters[slot] else [];
    s.(waiters := s.waiters[slot := queue + [c]])
  }

  function PhaseAfterClaim(outcome: ClaimOutcome, attempt: nat): Phase {
    match outcome
    case Claimed => Registering(true)
    case TookOver => Registering(true)
    case AlreadyExists(DOWNLOADED) => Checking(attempt)
    case AlreadyExists(ERROR) => Resetting
    case AlreadyExists(DOWNLOADING) => Registering(false)
  }

  function PhaseAfterPoll(outcome: ClaimOutcome): Phase {
    match outcome
    case Claimed => PollWon
    case TookOver => PollWon
    case AlreadyExists(DOWNLOADED) => PollChecking
    case AlreadyExists(ERROR) => Returned(ERROR)
    case AlreadyExists(DOWNLOADING) => Polling
  }

  /** One step of `ensure_model_downloaded`, up to its next await. */
  function StepCaller(s: State, c: CallerId, io: Io): State
    requires c in s.callers
  {
    var caller := s.callers[c];
    var key := caller.target.Key();
    match caller.phase
    case Claiming(attempt) =>
      var (r, outcome) := TryClaim(s.registry, key, caller.claimId, s.now);
      SetPhase(s.(registry := After(s.registry, r, io)), c,
               if io == Answered then PhaseAfterClaim(outcome, attempt + 1) else Returned(ERROR))
    case Checking(attempt) =>
      SetPhase(s, c,
               if FilesPresent(s, caller.replica, caller.target) then Returned(DOWNLOADED)
               else if attempt >= MAX_CLAIM_ATTEMPTS then Returned(ERROR)
               else Clearing(attempt))
    case Clearing(attempt) =>
      SetPhase(DropEntry(s, caller.replica, key, io), c, Claiming(attempt))
    case Resetting =>
      var (r, won) := TryResetError(s.registry, key, caller.claimId, s.now);
      SetPhase(s.(registry := After(s.registry, r, io)), c,
               if io == Answered then Registering(won) else Returned(ERROR))
    case Registering(isOwner) =>
      var waiting := AddWaiter(s, c);
      if isOwner then Spawn(waiting, c) else SetPhase(waiting, c, Polling)
    case Polling =>
      var (r, outcome) := TryClaim(s.registry, key, caller.claimId, s.now);
      SetPhase(s.(registry := After(s.registry, r, io)), c,
               if io == Answered then PhaseAfterPoll(outcome) else Polling)
    case PollWon => Spawn(s, c)
    case PollChecking =>
      SetPhase(s, c, if FilesPresent(s, caller.replica, caller.target) then Returned(DOWNLOADED) else PollClearing)
    case PollClearing =>
      SetPhase(DropEntry(s, caller.replica, key, io), c, if io == Answered then Polling else Returned(ERROR))
    case Returned(_) => s
  }

  // ----- Download tasks

  function SetTaskPhase(s: State, i: nat, phase: TaskPhase): State
    requires i < |s.tasks|
  {
    s.(tasks := s.tasks[i := s.tasks[i].(phase := phase)])
  }

  /** A heartbeat that is told the lease is gone stops the task; an error does not. */
  function StepHeartbeat(s: State, i: nat, io: Io): State
    requires i < |s.tasks|
  {
    var task := s.tasks[i];
    if task.phase != Running then s
    else
      var (r, held) := RefreshClaim(s.registry, task.target.Key(), task.claimId, s.now);
      SetTaskPhase(s.(registry := After(s.registry, r, io)), i,
                   if io == Answered && !held then Ended else Running)
  }

  /** The download ended; on success the manifest of its files is written first, if there is a cache directory to write it to. */
  function StepRecord(s: State, i: nat, ok: bool): State
    requires i < |s.tasks|
  {
    var task := s.tasks[i];
    if task.phase != Running then s
    else if ok then
      var written := if task.replica in s.configured then {Manifest(task.replica, task.target.tenant, task.target.Key())} else {};
      SetTaskPhase(s.(present := s.present + written), i, Recorded(DOWNLOADED))
    else SetTaskPhase(s, i, Recorded(ERROR))
  }

  function StepFinish(s: State, i: nat, io: Io): State
    requires i < |s.tasks|
  {
    var task := s.tasks[i];
    if !task.phase.Recorded? then s
    else
      var (r, won) := FinishClaim(s.registry, task.target.Key(), task.claimId, task.phase.status);
      SetTaskPhase(s.(registry := After(s.registry, r, io)), i,
                   if io == Answered && won then Won(task.phase.status) else Ended)
  }

  /** A terminal broadcast also empties the entry's waiting list on this replica. */
  function StepNotify(s: State, i: nat): State
    requires i < |s.tasks|
  {
    var task := s.tasks[i];
    if !task.phase.Won? then s
    else SetTaskPhase(s.(waiters := s.waiters - {(task.replica, task.target.Key())}), i, Ended)
  }

  // ----- Runs

  function Apply(s: State, a: Action): State {
    match a
    case Tick(elapsed) => s.(now := s.now + elapsed)
    case FilesChange(present) => s.(present := present)
    case Call(c, replica, target) =>
      if c in s.callers then s
      else s.(callers := s.callers[c := Caller(replica, target, s.nextId, Claiming(0))], nextId := s.nextId + 1)
    case CallerStep(c, io) => if c in s.callers then StepCaller(s, c, io) else s
    case Heartbeat(i, io) => if i < |s.tasks| then StepHeartbeat(s, i, io) else s
    case RecordDownload(i, ok) => if i < |s.tasks| then StepRecord(s, i, ok) else s
    case Finish(i, io) => if i < |s.tasks| then StepFinish(s, i, io) else s
    case Notify(i) => if i < |s.tasks| then StepNotify(s, i) else s
    case ClearModel(replica, key, io) => DropEntry(s, replica, key, io)
    case EvictRecord(key, io) => s.(registry := After(s.registry, DeleteModel(s.registry, key), io))
  }

  function ApplyAll(s: State, actions: seq<Action>): State {
    if actions == [] then s
    else Apply(ApplyAll(s, actions[..|actions| - 1]), actions[|actions| - 1])
  }

  function Initial(now: int, configured: set<ReplicaId>, present: set<Manifest>): State {
    State(Registry(map[], map[]), now, 0, map[], [], map[], present, configured)
  }

  // ----- The invariant

  ghost predicate CallerIds(s: State) {
    && (forall c | c in s.callers :: s.callers[c].claimId < s.nextId)
    && (forall c, d | c in s.callers && d in s.callers && c != d :: s.callers[c].claimId != s.callers[d].claimId)
  }

  ghost predicate TaskIds(s: State) {
    && (forall i | 0 <= i < |s.tasks| :: s.tasks[i].claimId < s.nextId)
    && (forall i, j | 0 <= i < j < |s.tasks| :: s.tasks[i].claimId != s.tasks[j].claimId)
  }

  /** A caller's current claim id has not been handed to any task. */
  ghost predicate Unspent(s: State) {
    forall c, i | c in s.callers && 0 <= i < |s.tasks| :: s.callers[c].claimId != s.tasks[i].claimId
  }

  ghost predicate Inv(s: State) {
    CallerIds(s) && TaskIds(s) && Unspent(s) && Consistent(s.registry)
  }

  // ----- Steps that move no claim id

  ghost predicate SameIdentity(s: State, s': State) {
    && s'.nextId == s.nextId && s'.configured == s.configured
    && s'.callers.Keys == s.callers.Keys
    && |s'.tasks| == |s.tasks|
    && (forall c | c in s.callers ::
          s'.callers[c].claimId == s.callers[c].claimId && s'.callers[c].target == s.callers[c].target
          && s'.callers[c].replica == s.callers[c].replica)
    && (forall i | 0 <= i < |s.tasks| ::
          s'.tasks[i].claimId == s.tasks[i].claimId && s'.tasks[i].target == s.tasks[i].target
          && s'.tasks[i].replica == s.tasks[i].replica)
  }

  /** Ownership moves only by a grant to some caller's own unspent claim id. */
  ghost predicate FairMove(s: State, s': State) {
    || GrantsNothing(s.registry, s'.registry)
    || exists c :: c in s.callers
                   && OnlyGrants(s.registry, s'.registry, s.callers[c].target.Key(), s.callers[c].claimId)
  }

  lemma {:induction false} SameIdentityKeepsInv(s: State, s': State)
    requires Inv(s) && SameIdentity(s, s') && Consistent(s'.registry)
    ensures Inv(s')
  {
  }

  predicate Spawns(phase: Phase) {
    phase == Registering(true) || phase == PollWon
  }

  lemma {:induction false} CallerStepKeepsIdentity(s: State, c: CallerId, io: Io)
    requires c in s.callers && !Spawns(s.callers[c].phase)
    ensures SameIdentity(s, StepCaller(s, c, io))
  {
  }

  /** The registry call a caller makes in its current phase, if any. */
  function CallerRegistry(s: State, c: CallerId): Registry
    requires c in s.callers
  {
    var caller := s.callers[c];
    match caller.phase
    case Claiming(_) => TryClaim(s.registry, caller.target.Key(), caller.claimId, s.now).0
    case Polling => TryClaim(s.registry, caller.target.Key(), caller.claimId, s.now).0
    case Resetting => TryResetError(s.registry, caller.target.Key(), caller.claimId, s.now).0
    case Clearing(_) => DeleteModel(s.registry, caller.target.Key())
    case PollClearing => DeleteModel(s.registry, caller.target.Key())
    case _ => s.registry
  }

  lemma {:induction false} CallerStepRegistry(s: State, c: CallerId, io: Io)
    requires c in s.callers
    ensures StepCaller(s, c, io).registry == After(s.registry, CallerRegistry(s, c), io)
  {
  }

  lemma {:induction false} CallerRegistryGrants(s: State, c: CallerId)
    requires c in s.callers
    ensures OnlyGrants(s.registry, CallerRegistry(s, c), s.callers[c].target.Key(), s.callers[c].claimId)
    ensures Consistent(s.registry) ==> Consistent(CallerRegistry(s, c))
  {
    var key, id := s.callers[c].target.Key(), s.callers[c].claimId;
    ClaimGrants(s.registry, key, id, s.now);
    OthersGrantNothing(s.registry, key, id, s.now, ERROR);
  }

  lemma {:induction false} CallerStepMovesFairly(s: State, c: CallerId, io: Io)
    requires c in s.callers && Consistent(s.registry)
    ensures FairMove(s, StepCaller(s, c, io)) && Consistent(StepCaller(s, c, io).registry)
  {
    CallerStepRegistry(s, c, io);
    CallerRegistryGrants(s, c);
    assert OnlyGrants(s.registry, StepCaller(s, c, io).registry, s.callers[c].target.Key(), s.callers[c].claimId);
  }

  lemma {:induction false} SpawnKeepsInv(s: State, c: CallerId)
    requires Inv(s) && c in s.callers
    ensures Inv(Spawn(s, c))
  {
    var s', n := Spawn(s, c), |s.tasks|;
    forall i, j | 0 <= i < j < |s'.tasks| ensures s'.tasks[i].claimId != s'.tasks[j].claimId {
      if j == n { assert s.tasks[i].claimId != s.callers[c].claimId; }
    }
    forall d, i | d in s'.callers && 0 <= i < |s'.tasks| ensures s'.callers[d].claimId != s'.tasks[i].claimId {
      if i < n { assert s.tasks[i].claimId < s.nextId; }
    }
  }

  predicate IsTaskAction(a: Action) {
    a.Heartbeat? || a.RecordDownload? || a.Finish? || a.Notify?
  }

  lemma {:induction false} TaskStepKeepsIdentity(s: State, a: Action)
    requires IsTaskAction(a)
    ensures SameIdentity(s, Apply(s, a))
  {
  }

  /** The registry call a task action makes, if any. */
  function TaskRegistry(s: State, a: Action): Registry
    requires IsTaskAction(a) && a.i < |s.tasks|
  {
    var task := s.tasks[a.i];
    if a.Heartbeat? && task.phase.Running? then RefreshClaim(s.registry, task.target.Key(), task.claimId, s.now).0
    else if a.Finish? && task.phase.Recorded? then
      FinishClaim(s.registry, task.target.Key(), task.claimId, task.phase.status).0
    else s.registry
  }

  lemma {:induction false} TaskStepRegistry(s: State, a: Action)
    requires IsTaskAction(a) && a.i < |s.tasks|
    ensures Apply(s, a).registry ==
            if a.Heartbeat? || a.Finish? then After(s.registry, TaskRegistry(s, a), a.io) else s.registry
  {
  }

  lemma {:induction false} TaskStepGrantsNothing(s: State, a: Action)
    requires IsTaskAction(a)
    ensures GrantsNothing(s.registry, Apply(s, a).registry)
    ensures Consistent(s.registry) ==> Consistent(Apply(s, a).registry)
  {
    if a.i < |s.tasks| {
      var task := s.tasks[a.i];
      TaskStepRegistry(s, a);
      OthersGrantNothing(s.registry, task.target.Key(), task.claimId, s.now,
                         if task.phase.Recorded? then task.phase.status else ERROR);
    }
  }

  lemma {:induction false} CallerStepKeepsInv(s: State, c: CallerId, io: Io)
    requires Inv(s) && c in s.callers
    ensures Inv(StepCaller(s, c, io))
  {
    if s.callers[c].phase == Registering(true) {
      SameIdentityKeepsInv(s, AddWaiter(s, c));
      SpawnKeepsInv(AddWaiter(s, c), c);
    } else if s.callers[c].phase == PollWon {
      SpawnKeepsInv(s, c);
    } else {
      CallerStepKeepsIdentity(s, c, io);
      SameIdentityKeepsInv(s, StepCaller(s, c, io));
    }
  }

  /** Every action keeps the claim ids apart. */
  lemma {:induction false} ApplyKeepsInv(s: State, a: Action)
    requires Inv(s)
    ensures Inv(Apply(s, a)) && FairMove(s, Apply(s, a))
  {
    match a
    case CallerStep(c, io) =>
      if c in s.callers {
        CallerStepMovesFairly(s, c, io);
        CallerStepKeepsInv(s, c, io);
      }
    case ClearModel(replica, key, io) => OthersGrantNothing(s.registry, key, 0, s.now, ERROR);
    case EvictRecord(key, io) => OthersGrantNothing(s.registry, key, 0, s.now, ERROR);
    case Tick(_) =>
    case FilesChange(_) =>
    case Call(_, _, _) =>
    case _ =>
      TaskStepKeepsIdentity(s, a);
      TaskStepGrantsNothing(s, a);
      SameIdentityKeepsInv(s, Apply(s, a));
  }

  lemma {:induction false} RunsKeepInv(s: State, actions: seq<Action>)
    requires Inv(s)
    ensures Inv(ApplyAll(s, actions))
  {
    if actions != [] {
      RunsKeepInv(s, actions[..|actions| - 1]);
      ApplyKeepsInv(ApplyAll(s, actions[..|actions| - 1]), actions[|actions| - 1]);
    }
  }

  // ----- Claim ids are handed out once

  /**
   In every run, each claim id is handed to at most one download task, so at most one task
   at a time can hold the lease of an entry.
   */
  lemma {:induction false} EachClaimHasOneTask(now: int, configured: set<ReplicaId>, present: set<Manifest>, actions: seq<Action>)
    ensures var s := ApplyAll(Initial(now, configured, present), actions);
            && (forall i, j | 0 <= i < j < |s.tasks| :: s.tasks[i].claimId != s.tasks[j].claimId)
            && (forall i, j | 0 <= i < |s.tasks| && 0 <= j < |s.tasks| && Holds(s, i) && Holds(s, j)
                  && s.tasks[i].target.Key() == s.tasks[j].target.Key() :: i == j)
  {
    RunsKeepInv(Initial(now, configured, present), actions);
    var s := ApplyAll(Initial(now, configured, present), actions);
    forall i, j | 0 <= i < |s.tasks| && 0 <= j < |s.tasks| && Holds(s, i) && Holds(s, j)
      && s.tasks[i].target.Key() == s.tasks[j].target.Key()
      ensures i == j
    {
      assert s.tasks[i].claimId == s.tasks[j].claimId;
    }
  }

  /** The task's claim is the one on its entry's lease. */
  ghost predicate Holds(s: State, i: nat)
    requires i < |s.tasks|
  {
    var key := s.tasks[i].target.Key();
    key in s.registry.leases && s.registry.leases[key].claimId == s.tasks[i].claimId
  }

  /** Two targets share an entry, and so a claim, only if they are the same: tenant, model, revision and weight mode. */
  lemma {:induction false} TargetsHaveTheirOwnEntries(a: Target, b: Target)
    ensures a.Key() == b.Key() <==> a == b
    ensures BelongsTo(a.Key(), a.tenant, a.modelName) && a.Key().revision == a.revision && a.Key().metadataOnly == a.ignoreWeights
  {
  }

  // ----- Who may start a download

  /** The registry lets this caller have the entry: there is no record, the download under way has let its lease run out, or the entry is errored and being reset. */
  predicate MayHave(s: State, caller: Caller) {
    var key := caller.target.Key();
    if caller.phase == Resetting then key in s.registry.models && s.registry.models[key] == ERROR
    else
      && (caller.phase.Claiming? || caller.phase == Polling)
      && (key in s.registry.models ==>
            s.registry.models[key] == DOWNLOADING && (key in s.registry.leases ==> s.registry.leases[key].expiresAt <= s.now))
  }

  /** A call goes on to start a download if and only if its request was answered and the registry let it have the entry, which it then holds under its own claim id. */
  lemma {:induction false} StartsDownloadIff(s: State, c: CallerId, io: Io)
    requires c in s.callers && !Spawns(s.callers[c].phase)
    ensures var s' := Apply(s, CallerStep(c, io));
            && (Spawns(s'.callers[c].phase) <==> io == Answered && MayHave(s, s.callers[c]))
            && (Spawns(s'.callers[c].phase) ==>
                  s'.callers[c].claimId == s.callers[c].claimId
                  && Owns(s'.registry, s.callers[c].target.Key(), s.callers[c].claimId))
  {
  }

  /** Starting it adds one running task for that target on that replica under that claim id, and the call waits under a fresh one. */
  lemma {:induction false} StartingSpawnsOneTask(s: State, c: CallerId, io: Io)
    requires c in s.callers
    ensures var s', caller := Apply(s, CallerStep(c, io)), s.callers[c];
            if Spawns(caller.phase) then
              && s'.tasks == s.tasks + [Task(caller.replica, caller.target, caller.claimId, Running)]
              && s'.callers[c] == Caller(caller.replica, caller.target, s.nextId, Polling) && s'.nextId == s.nextId + 1
              && s'.registry == s.registry
            else s'.tasks == s.tasks
  {
  }

  /** At position `m` of the run, some call of this target on this replica was given the entry under this claim id. */
  ghost predicate GrantedAt(s0: State, actions: seq<Action>, replica: ReplicaId, target: Target, id: ClaimId, m: nat)
    requires m < |actions|
  {
    var before := ApplyAll(s0, actions[..m]);
    && actions[m].CallerStep? && actions[m].io == Answered && actions[m].c in before.callers
    && var caller := before.callers[actions[m].c];
       && caller.replica == replica && caller.target == target && caller.claimId == id
       && MayHave(before, caller)
       && Owns(Apply(before, actions[m]).registry, target.Key(), id)
  }

  ghost predicate Granted(s0: State, actions: seq<Action>, replica: ReplicaId, target: Target, id: ClaimId) {
    exists m :: 0 <= m < |actions| && GrantedAt(s0, actions, replica, target, id, m)
  }

  lemma {:induction false} GrantedPrefix(s0: State, actions: seq<Action>, replica: ReplicaId, target: Target, id: ClaimId)
    requires actions != [] && Granted(s0, actions[..|actions| - 1], replica, target, id)
    ensures Granted(s0, actions, replica, target, id)
  {
    var init := actions[..|actions| - 1];
    var m :| 0 <= m < |init| && GrantedAt(s0, init, replica, target, id, m);
    assert init[..m] == actions[..m];
    assert GrantedAt(s0, actions, replica, target, id, m);
  }

  /** Everyone about to start a download, and every task, was given its entry. */
  ghost predicate AllGranted(s0: State, actions: seq<Action>) {
    var s := ApplyAll(s0, actions);
    && (forall c | c in s.callers && Spawns(s.callers[c].phase) ::
          Granted(s0, actions, s.callers[c].replica, s.callers[c].target, s.callers[c].claimId))
    && (forall i | 0 <= i < |s.tasks| :: Granted(s0, actions, s.tasks[i].replica, s.tasks[i].target, s.tasks[i].claimId))
  }

  lemma {:induction false} OthersCall(s: State, a: Action, c: CallerId)
    requires c in Apply(s, a).callers && Spawns(Apply(s, a).callers[c].phase) && !(a.CallerStep? && a.c == c)
    ensures c in s.callers && s.callers[c] == Apply(s, a).callers[c]
  {
  }

  lemma {:induction false} TaskHasOrigin(s: State, a: Action, i: nat)
    requires i < |Apply(s, a).tasks|
    ensures var task := Apply(s, a).tasks[i];
            || (i < |s.tasks| && s.tasks[i].replica == task.replica && s.tasks[i].target == task.target && s.tasks[i].claimId == task.claimId)
            || (&& a.CallerStep? && a.c in s.callers && Spawns(s.callers[a.c].phase)
                && task == Task(s.callers[a.c].replica, s.callers[a.c].target, s.callers[a.c].claimId, Running))
  {
    ApplyKeepsActors(s, a);
    if a.CallerStep? && a.c in s.callers {
      StartingSpawnsOneTask(s, a.c, a.io);
    }
  }

  lemma {:induction false} CallerGranted(s0: State, actions: seq<Action>, c: CallerId)
    requires actions != [] && AllGranted(s0, actions[..|actions| - 1])
    requires c in ApplyAll(s0, actions).callers && Spawns(ApplyAll(s0, actions).callers[c].phase)
    ensures var caller := ApplyAll(s0, actions).callers[c]; Granted(s0, actions, caller.replica, caller.target, caller.claimId)
  {
    var n := |actions| - 1;
    var s, a := ApplyAll(s0, actions[..n]), actions[n];
    var caller := Apply(s, a).callers[c];
    if a.CallerStep? && a.c == c {
      ApplyKeepsActors(s, a);
      if Spawns(s.callers[c].phase) {
        StartingSpawnsOneTask(s, c, a.io);
        assert false;
      }
      StartsDownloadIff(s, c, a.io);
      assert GrantedAt(s0, actions, caller.replica, caller.target, caller.claimId, n);
    } else {
      OthersCall(s, a, c);
      GrantedPrefix(s0, actions, caller.replica, caller.target, caller.claimId);
    }
  }

  /** In every run each download was started by a call that had been given its entry, by an answered request, when the entry had no record, was errored, or its lease had run out. */
  lemma {:induction false} EveryDownloadWasGranted(now: int, configured: set<ReplicaId>, present: set<Manifest>, actions: seq<Action>)
    ensures AllGranted(Initial(now, configured, present), actions)
  {
    if actions != [] {
      var s0, n := Initial(now, configured, present), |actions| - 1;
      EveryDownloadWasGranted(now, configured, present, actions[..n]);
      var s, a := ApplyAll(s0, actions[..n]), actions[n];
      forall c | c in Apply(s, a).callers && Spawns(Apply(s, a).callers[c].phase)
        ensures Granted(s0, actions, Apply(s, a).callers[c].replica, Apply(s, a).callers[c].target, Apply(s, a).callers[c].claimId)
      {
        CallerGranted(s0, actions, c);
      }
      forall i | 0 <= i < |Apply(s, a).tasks|
        ensures Granted(s0, actions, Apply(s, a).tasks[i].replica, Apply(s, a).tasks[i].target, Apply(s, a).tasks[i].claimId)
      {
        TaskHasOrigin(s, a, i);
        var task := Apply(s, a).tasks[i];
        GrantedPrefix(s0, actions, task.replica, task.target, task.claimId);
      }
    }
  }

  // ----- Abandoned downloads are started again

  /** No lease outlasts one lease duration from now. */
  ghost predicate LeasesRunOut(s: State) {
    forall key | key in s.registry.leases :: s.registry.leases[key].expiresAt <= s.now + LEASE_DURATION
  }

  lemma {:induction false} CallerKeepsLeasesRunOut(s: State, c: CallerId, io: Io)
    requires LeasesRunOut(s) && c in s.callers
    ensures LeasesRunOut(Apply(s, CallerStep(c, io)))
  {
    CallerStepRegistry(s, c, io);
    assert Apply(s, CallerStep(c, io)).now == s.now;
  }

  lemma {:induction false} StepKeepsLeasesRunOut(s: State, a: Action)
    requires LeasesRunOut(s)
    ensures LeasesRunOut(Apply(s, a))
  {
    if a.CallerStep? && a.c in s.callers {
      CallerKeepsLeasesRunOut(s, a.c, a.io);
    } else if IsTaskAction(a) && a.i < |s.tasks| {
      TaskStepRegistry(s, a);
      assert Apply(s, a).now == s.now;
    }
  }

  lemma {:induction false} RunsKeepLeasesRunOut(now: int, configured: set<ReplicaId>, present: set<Manifest>, actions: seq<Action>)
    ensures LeasesRunOut(ApplyAll(Initial(now, configured, present), actions))
  {
    if actions != [] {
      RunsKeepLeasesRunOut(now, configured, present, actions[..|actions| - 1]);
      StepKeepsLeasesRunOut(ApplyAll(Initial(now, configured, present), actions[..|actions| - 1]), actions[|actions| - 1]);
    }
  }

  /** In every run: if a download under way is heard of no more, whoever waits for it starts it again once one lease duration has passed. */
  lemma {:induction false} AbandonedDownloadIsRestarted(now: int, configured: set<ReplicaId>, present: set<Manifest>,
                                                        actions: seq<Action>, c: CallerId, elapsed: nat)
    requires var s := ApplyAll(Initial(now, configured, present), actions);
             && c in s.callers && s.callers[c].phase == Polling && elapsed >= LEASE_DURATION
             && s.callers[c].target.Key() in s.registry.models && s.registry.models[s.callers[c].target.Key()] == DOWNLOADING
    ensures var s := ApplyAll(Initial(now, configured, present), actions);
            var won := Apply(Apply(s, Tick(elapsed)), CallerStep(c, Answered));
            && won.callers[c].phase == PollWon && Owns(won.registry, s.callers[c].target.Key(), s.callers[c].claimId)
            && Apply(won, CallerStep(c, Answered)).tasks
               == s.tasks + [Task(s.callers[c].replica, s.callers[c].target, s.callers[c].claimId, Running)]
  {
    var s := ApplyAll(Initial(now, configured, present), actions);
    RunsKeepLeasesRunOut(now, configured, present, actions);
    var later := Apply(s, Tick(elapsed));
    assert MayHave(later, later.callers[c]);
    StartsDownloadIff(later, c, Answered);
    var won := Apply(later, CallerStep(c, Answered));
    StartingSpawnsOneTask(later, c, Answered);
    StartingSpawnsOneTask(won, c, Answered);
  }

  /** A new call begins by claiming, under a claim id that nobody has had. */
  lemma {:induction false} CallBeginsByClaiming(s: State, c: CallerId, replica: ReplicaId, target: Target)
    requires Inv(s) && c !in s.callers
    ensures var s' := Apply(s, Call(c, replica, target));
            && c in s'.callers && s'.callers[c].phase == Claiming(0) && s'.callers[c].replica == replica && s'.callers[c].target == target
            && (forall d | d in s.callers :: s'.callers[c].claimId != s.callers[d].claimId && s'.callers[d] == s.callers[d])
            && (forall i | 0 <= i < |s.tasks| :: s'.callers[c].claimId != s.tasks[i].claimId)
            && s'.registry == s.registry && s'.tasks == s.tasks && s'.waiters == s.waiters
  {
  }

  // ----- What a call answers

  /** The call ends in an error: the registry failed it, the files are still missing after a second claim, or the download it waits for has failed. */
  predicate GivesUp(s: State, caller: Caller, io: Io) {
    match caller.phase
    case Claiming(_) => io != Answered
    case Resetting => io != Answered
    case Checking(attempt) =>
      attempt >= 2 && caller.replica in s.configured
      && Manifest(caller.replica, caller.target.tenant, caller.target.Key()) !in s.present
    case Polling => io == Answered && caller.target.Key() in s.registry.models && s.registry.models[caller.target.Key()] == ERROR
    case PollClearing => io != Answered
    case _ => false
  }

  /** The call still under way returns DOWNLOADED exactly when it checks the files and finds them, ERROR exactly when it gives up, and nothing else. */
  lemma {:induction false} ReturnsIff(s: State, c: CallerId, io: Io)
    requires c in s.callers && !s.callers[c].phase.Returned?
    ensures var caller, next := s.callers[c], Apply(s, CallerStep(c, io)).callers[c].phase;
            && (next == Returned(DOWNLOADED) <==>
                  && (caller.phase.Checking? || caller.phase == PollChecking)
                  && (caller.replica !in s.configured || Manifest(caller.replica, caller.target.tenant, caller.target.Key()) in s.present))
            && (next == Returned(ERROR) <==> GivesUp(s, caller, io))
            && next != Returned(DOWNLOADING)
  {
  }

  /** What the registry says of an entry that the call may not have. */
  function Standing(s: State, caller: Caller): Option<ModelStatus> {
    if caller.target.Key() in s.registry.models then Some(s.registry.models[caller.target.Key()]) else None
  }

  /** Otherwise the call goes on according to what it found: it checks the files of a downloaded entry, resets an errored one before waiting, waits for a download under way, and claims again what it cleared. */
  lemma {:induction false} GoesOn(s: State, c: CallerId, io: Io)
    requires c in s.callers && !(io == Answered && MayHave(s, s.callers[c])) && !GivesUp(s, s.callers[c], io)
    ensures var caller, next := s.callers[c], Apply(s, CallerStep(c, io)).callers[c].phase;
            match caller.phase
            case Claiming(attempt) =>
              && (next == Checking(attempt + 1) <==> Standing(s, caller) == Some(DOWNLOADED))
              && (next == Resetting <==> Standing(s, caller) == Some(ERROR))
              && (next == Registering(false) <==> Standing(s, caller) == Some(DOWNLOADING))
            case Resetting => next == Registering(false)
            case Checking(attempt) => next in {Returned(DOWNLOADED), Clearing(attempt)}
            case Clearing(attempt) => next == Claiming(attempt)
            case Polling => next == if io == Answered && Standing(s, caller) == Some(DOWNLOADED) then PollChecking else Polling
            case PollChecking => next in {Returned(DOWNLOADED), PollClearing}
            case Returned(status) => next == Returned(status)
            case _ => next == Polling
  {
  }

  predicate AttemptBounded(phase: Phase) {
    match phase
    case Claiming(attempt) => attempt < 2
    case Checking(attempt) => 1 <= attempt <= 2
    case Clearing(attempt) => attempt == 1
    case _ => true
  }

  ghost predicate AttemptsBounded(s: State) {
    forall c | c in s.callers :: AttemptBounded(s.callers[c].phase)
  }

  lemma {:induction false} AttemptStep(s: State, a: Action)
    requires AttemptsBounded(s)
    ensures AttemptsBounded(Apply(s, a))
  {
  }

  /** In every run no call claims its entry more than twice before it waits or returns. */
  lemma {:induction false} AtMostTwoClaims(now: int, configured: set<ReplicaId>, present: set<Manifest>, actions: seq<Action>)
    ensures AttemptsBounded(ApplyAll(Initial(now, configured, present), actions))
  {
    if actions != [] {
      AtMostTwoClaims(now, configured, present, actions[..|actions| - 1]);
      AttemptStep(ApplyAll(Initial(now, configured, present), actions[..|actions| - 1]), actions[|actions| - 1]);
    }
  }

  /** Whoever waits for an entry joins the end of its waiting list on the replica, whether or not it starts the download. */
  lemma {:induction false} WaitersJoin(s: State, c: CallerId, io: Io)
    requires c in s.callers && s.callers[c].phase.Registering?
    ensures var slot := (s.callers[c].replica, s.callers[c].target.Key());
            var s' := Apply(s, CallerStep(c, io));
            && s'.waiters == s.waiters[slot := (if slot in s.waiters then s.waiters[slot] else []) + [c]]
            && s'.callers[c].phase == Polling
  {
  }

  // ----- What a task does with its result

  /** A download's end is recorded as it was, and a failed one leaves no manifest. */
  lemma {:induction false} DownloadEndIsRecorded(s: State, i: nat, ok: bool)
    requires i < |s.tasks| && s.tasks[i].phase == Running
    ensures var s' := Apply(s, RecordDownload(i, ok));
            && s'.tasks[i].phase == Recorded(if ok then DOWNLOADED else ERROR)
            && (!ok ==> s'.present == s.present)
            && s'.registry == s.registry && s'.waiters == s.waiters
  {
  }

  /** The recorded status is published, whichever it is, exactly if the call takes effect and the claim is held; the task goes on to notify exactly if it is also told so. */
  lemma {:induction false} FinishPublishesIff(s: State, i: nat, io: Io)
    requires i < |s.tasks| && s.tasks[i].phase.Recorded?
    ensures var s', task := Apply(s, Finish(i, io)), s.tasks[i];
            var owned := Owns(s.registry, task.target.Key(), task.claimId);
            && (s'.tasks[i].phase == Won(task.phase.status) <==> io == Answered && owned)
            && (s'.tasks[i].phase == Ended <==> !(io == Answered && owned))
            && (io != FailedBefore && owned ==>
                  && task.target.Key() in s'.registry.models && s'.registry.models[task.target.Key()] == task.phase.status
                  && task.target.Key() !in s'.registry.leases)
            && (io == FailedBefore || !owned ==> s'.registry == s.registry)
  {
  }

  // ----- Who an actor is never changes

  ghost predicate ActorsKept(s: State, s': State) {
    && s'.configured == s.configured
    && |s.tasks| <= |s'.tasks|
    && (forall c | c in s.callers ::
          c in s'.callers && s'.callers[c].target == s.callers[c].target && s'.callers[c].replica == s.callers[c].replica)
    && (forall i | 0 <= i < |s.tasks| ::
          s'.tasks[i].claimId == s.tasks[i].claimId && s'.tasks[i].target == s.tasks[i].target
          && s'.tasks[i].replica == s.tasks[i].replica)
  }

  lemma {:induction false} ApplyKeepsActors(s: State, a: Action)
    ensures ActorsKept(s, Apply(s, a))
  {
    if IsTaskAction(a) {
      TaskStepKeepsIdentity(s, a);
    } else if a.CallerStep? && a.c in s.callers && !Spawns(s.callers[a.c].phase) {
      CallerStepKeepsIdentity(s, a.c, a.io);
    }
  }

  // ----- Fencing

  /** The task no longer holds its claim and has not published under it. */
  ghost predicate Lost(s: State, i: nat) {
    i < |s.tasks| && !Holds(s, i) && !s.tasks[i].phase.Won?
  }

  lemma {:induction false} LostLeaseStaysLost(s: State, a: Action, i: nat)
    requires Inv(s) && i < |s.tasks| && !Holds(s, i)
    ensures i < |Apply(s, a).tasks| && !Holds(Apply(s, a), i)
  {
    ApplyKeepsInv(s, a);
    ApplyKeepsActors(s, a);
  }

  lemma {:induction false} PublishingNeedsTheLease(s: State, a: Action, i: nat)
    requires i < |s.tasks| && !s.tasks[i].phase.Won? && !Holds(s, i)
    ensures i < |Apply(s, a).tasks| && !Apply(s, a).tasks[i].phase.Won?
  {
    ApplyKeepsActors(s, a);
  }

  lemma {:induction false} LostStaysLost(s: State, actions: seq<Action>, i: nat)
    requires Inv(s) && Lost(s, i)
    ensures Lost(ApplyAll(s, actions), i)
  {
    if actions != [] {
      var init, a := actions[..|actions| - 1], actions[|actions| - 1];
      LostStaysLost(s, init, i);
      RunsKeepInv(s, init);
      LostLeaseStaysLost(ApplyAll(s, init), a, i);
      PublishingNeedsTheLease(ApplyAll(s, init), a, i);
    }
  }

  lemma {:induction false} LostTaskIsInert(s: State, a: Action, i: nat)
    requires Lost(s, i) && IsTaskAction(a) && a.i == i
    ensures Apply(s, a).registry == s.registry && Apply(s, a).waiters == s.waiters
  {
    TaskStepRegistry(s, a);
  }

  /**
   A task that lost its claim never regains it: whatever happens afterwards, nothing it does
   changes the registry or any waiting list again.
   */
  lemma {:induction false} LostTaskIsFencedForever(now: int, configured: set<ReplicaId>, present: set<Manifest>,
                                before: seq<Action>, i: nat, between: seq<Action>, a: Action)
    requires Lost(ApplyAll(Initial(now, configured, present), before), i)
    requires IsTaskAction(a) && a.i == i
    ensures var s := ApplyAll(ApplyAll(Initial(now, configured, present), before), between);
            Apply(s, a).registry == s.registry && Apply(s, a).waiters == s.waiters
  {
    var s0 := ApplyAll(Initial(now, configured, present), before);
    RunsKeepInv(Initial(now, configured, present), before);
    LostStaysLost(s0, between, i);
    LostTaskIsInert(ApplyAll(s0, between), a, i);
  }

  /** A takeover of its entry is one way a task loses its claim. */
  lemma {:induction false} TakeoverFencesTheOldTask(s: State, c: CallerId, i: nat)
    requires Inv(s) && c in s.callers && i < |s.tasks| && !s.tasks[i].phase.Won?
    requires s.callers[c].phase == Polling && s.callers[c].target.Key() == s.tasks[i].target.Key()
    requires TryClaim(s.registry, s.callers[c].target.Key(), s.callers[c].claimId, s.now).1 in {Claimed, TookOver}
    ensures Lost(Apply(s, CallerStep(c, Answered)), i)
  {
    var s' := Apply(s, CallerStep(c, Answered));
    assert s'.tasks == s.tasks;
    assert s.callers[c].claimId != s.tasks[i].claimId;
    assert s'.registry.leases[s.tasks[i].target.Key()].claimId == s.callers[c].claimId;
  }

  // ----- Between publishing and notifying

  lemma {:induction false} PublishingDropsTheLease(s: State, a: Action, i: nat)
    requires i < |s.tasks| && !s.tasks[i].phase.Won?
    requires i < |Apply(s, a).tasks| && Apply(s, a).tasks[i].phase.Won?
    ensures !Holds(Apply(s, a), i)
  {
  }

  /** A task that has published holds no claim any more, whatever happens before it notifies. */
  lemma {:induction false} WonTaskHoldsNothing(now: int, configured: set<ReplicaId>, present: set<Manifest>, actions: seq<Action>, i: nat)
    requires i < |ApplyAll(Initial(now, configured, present), actions).tasks|
    requires ApplyAll(Initial(now, configured, present), actions).tasks[i].phase.Won?
    ensures !Holds(ApplyAll(Initial(now, configured, present), actions), i)
  {
    var n := |actions| - 1;
    var s, a := ApplyAll(Initial(now, configured, present), actions[..n]), actions[n];
    RunsKeepInv(Initial(now, configured, present), actions[..n]);
    if i < |s.tasks| && s.tasks[i].phase.Won? {
      WonTaskHoldsNothing(now, configured, present, actions[..n], i);
      LostLeaseStaysLost(s, a, i);
    } else if i < |s.tasks| {
      PublishingDropsTheLease(s, a, i);
    } else {
      SpawnedIsRunning(s, a, i);
    }
  }

  lemma {:induction false} SpawnedIsRunning(s: State, a: Action, i: nat)
    requires |s.tasks| <= i < |Apply(s, a).tasks|
    ensures Apply(s, a).tasks[i].phase == Running
  {
  }

  /** All that is left for it to do is to empty its entry's waiting list on its replica, once. */
  lemma {:induction false} WonTaskOnlyNotifies(s: State, a: Action, i: nat)
    requires i < |s.tasks| && s.tasks[i].phase.Won? && IsTaskAction(a) && a.i == i
    ensures Apply(s, a).registry == s.registry
    ensures Apply(s, a).waiters == if a.Notify? then s.waiters - {(s.tasks[i].replica, s.tasks[i].target.Key())} else s.waiters
    ensures Apply(s, a).tasks[i].phase == if a.Notify? then Ended else s.tasks[i].phase
  {
  }

  /** In every run: a notification empties the waiting list of an entry that someone else is downloading by then, if and only if its task has published, the list is not gone, and the entry has been claimed again. */
  lemma {:induction false} LateNotificationIff(now: int, configured: set<ReplicaId>, present: set<Manifest>, actions: seq<Action>, i: nat)
    requires i < |ApplyAll(Initial(now, configured, present), actions).tasks|
    ensures var s := ApplyAll(Initial(now, configured, present), actions);
            var key := s.tasks[i].target.Key();
            (&& Apply(s, Notify(i)).waiters != s.waiters
             && key in s.registry.leases && s.registry.leases[key].claimId != s.tasks[i].claimId) <==>
            s.tasks[i].phase.Won? && (s.tasks[i].replica, key) in s.waiters && key in s.registry.leases
  {
    var s := ApplyAll(Initial(now, configured, present), actions);
    var slot := (s.tasks[i].replica, s.tasks[i].target.Key());
    if s.tasks[i].phase.Won? {
      WonTaskHoldsNothing(now, configured, present, actions, i);
      assert slot in s.waiters ==> slot !in Apply(s, Notify(i)).waiters;
      assert slot !in s.waiters ==> s.waiters - {slot} == s.waiters;
    }
  }

  /** The entry's record is deleted and a new caller on the replica claims it, waits and starts its own download. */
  function Reclaimed(s: State, i: nat, c: CallerId): State
    requires i < |s.tasks| && c !in s.callers
  {
    var target := s.tasks[i].target;
    var called := Apply(Apply(s, EvictRecord(target.Key(), Answered)), Call(c, s.tasks[i].replica, target));
    Apply(Apply(called, CallerStep(c, Answered)), CallerStep(c, Answered))
  }

  /** It does happen, from every state with a task that has published and not yet notified: the new download's waiter is dropped while that download holds the claim. */
  lemma {:induction false} LateNotificationDropsNewWaiter(s: State, i: nat, c: CallerId)
    requires Inv(s) && i < |s.tasks| && s.tasks[i].phase.Won? && c !in s.callers
    ensures var slot := (s.tasks[i].replica, s.tasks[i].target.Key());
            var reclaimed := Reclaimed(s, i, c);
            var notified := Apply(reclaimed, Notify(i));
            && slot in reclaimed.waiters && c in reclaimed.waiters[slot]
            && |notified.tasks| == |s.tasks| + 1 && Holds(notified, |s.tasks|)
            && slot !in notified.waiters
  {
    var target := s.tasks[i].target;
    var evicted := Apply(s, EvictRecord(target.Key(), Answered));
    var called := Apply(evicted, Call(c, s.tasks[i].replica, target));
    var claimed := Apply(called, CallerStep(c, Answered));
    assert target.Key() !in called.registry.models;
    assert claimed.callers[c].phase == Registering(true);
    assert claimed.registry.leases[target.Key()].claimId == claimed.callers[c].claimId;
  }

  // ----- Deleting a record

  /** Deleting an entry, by a clear or an eviction, drops its record and its lease, if the call takes effect, and no other entry's; a clear also empties the replica's waiting list, in any case. Whatever task held the claim has then lost it. */
  lemma {:induction false} DeletingDropsTheEntry(s: State, replica: ReplicaId, key: EntryKey, io: Io, clear: bool)
    ensures var s' := Apply(s, if clear then ClearModel(replica, key, io) else EvictRecord(key, io));
            && s'.registry.models == (if io == FailedBefore then s.registry.models else s.registry.models - {key})
            && s'.registry.leases == (if io == FailedBefore then s.registry.leases else s.registry.leases - {key})
            && s'.waiters == (if clear then s.waiters - {(replica, key)} else s.waiters)
            && s'.tasks == s.tasks && s'.callers == s.callers && s'.present == s.present
            && (forall j | 0 <= j < |s.tasks| && Holds(s, j) ::
                  !Holds(s', j) <==> io != FailedBefore && s.tasks[j].target.Key() == key)
  {
  }

  // ----- Clearing a record that is no longer the one that was seen

  /** The caller saw DOWNLOADED, found files missing, and is about to delete the record, whatever it says by then. */
  predicate Clears(phase: Phase) {
    phase.Clearing? || phase == PollClearing
  }

  /** Clearing takes the claim of a task away if and only if it is the task's entry and the delete takes effect; the entry's waiting list on the replica goes in any case. */
  lemma {:induction false} ClearDropsClaimIff(s: State, c: CallerId, io: Io, j: nat)
    requires c in s.callers && Clears(s.callers[c].phase) && j < |s.tasks| && Holds(s, j)
    ensures var s' := Apply(s, CallerStep(c, io));
            && s'.tasks == s.tasks
            && (!Holds(s', j) <==> io != FailedBefore && s.callers[c].target.Key() == s.tasks[j].target.Key())
            && s'.waiters == s.waiters - {(s.callers[c].replica, s.callers[c].target.Key())}
  {
  }

  /** A task that holds its entry's claim has not published, in any run. */
  lemma {:induction false} HolderHasNotPublished(now: int, configured: set<ReplicaId>, present: set<Manifest>, actions: seq<Action>, j: nat)
    requires j < |ApplyAll(Initial(now, configured, present), actions).tasks| && Holds(ApplyAll(Initial(now, configured, present), actions), j)
    ensures !ApplyAll(Initial(now, configured, present), actions).tasks[j].phase.Won?
  {
    if ApplyAll(Initial(now, configured, present), actions).tasks[j].phase.Won? {
      WonTaskHoldsNothing(now, configured, present, actions, j);
      assert false;
    }
  }

  /**
   In every run: the task whose claim a clear takes away is fenced forever, its download in vain. In
   whatever happens afterwards, nothing that it does changes the registry or a waiting list.
   */
  lemma {:induction false} ClearedTaskIsFenced(now: int, configured: set<ReplicaId>, present: set<Manifest>,
                                               before: seq<Action>, c: CallerId, io: Io, j: nat, after: seq<Action>, a: Action)
    requires var s := ApplyAll(Initial(now, configured, present), before);
             && c in s.callers && Clears(s.callers[c].phase) && io != FailedBefore
             && j < |s.tasks| && Holds(s, j) && s.callers[c].target.Key() == s.tasks[j].target.Key()
    requires IsTaskAction(a) && a.i == j
    ensures var s := ApplyAll(ApplyAll(Initial(now, configured, present), before + [CallerStep(c, io)]), after);
            Apply(s, a).registry == s.registry && Apply(s, a).waiters == s.waiters
  {
    var s := ApplyAll(Initial(now, configured, present), before);
    var run := before + [CallerStep(c, io)];
    assert run[..|before|] == before;
    HolderHasNotPublished(now, configured, present, before, j);
    ClearDropsClaimIff(s, c, io, j);
    assert Lost(ApplyAll(Initial(now, configured, present), run), j);
    LostTaskIsFencedForever(now, configured, present, run, j, after, a);
  }

  /** One of two callers that saw the same stale record clears it, claims the entry and starts its download. */
  function ClearedAndClaimed(s: State, c: CallerId): State {
    Apply(Apply(Apply(s, CallerStep(c, Answered)), CallerStep(c, Answered)), CallerStep(c, Answered))
  }

  lemma {:induction false} ClearedIsClaimed(s: State, c: CallerId)
    requires Inv(s) && c in s.callers && s.callers[c].phase.Clearing?
    ensures var claimed, n := ClearedAndClaimed(s, c), |s.tasks|;
            var slot := (s.callers[c].replica, s.callers[c].target.Key());
            && |claimed.tasks| == n + 1 && Holds(claimed, n) && claimed.tasks[n].phase == Running
            && claimed.tasks[n].target == s.callers[c].target
            && slot in claimed.waiters && claimed.waiters[slot] == [c]
            && (forall d | d in s.callers && d != c :: d in claimed.callers && claimed.callers[d] == s.callers[d])
  {
    var key := s.callers[c].target.Key();
    var cleared := Apply(s, CallerStep(c, Answered));
    assert key !in cleared.registry.models && (s.callers[c].replica, key) !in cleared.waiters;
    var granted := Apply(cleared, CallerStep(c, Answered));
    assert granted.callers[c].phase == Registering(true);
    assert granted.registry.leases[key].claimId == granted.callers[c].claimId;
  }

  /** It does happen, from every state in which two callers are about to clear one entry: the slower clear takes the faster one's claim and its place in the waiting list. */
  lemma {:induction false} SecondClearDropsTheClaim(s: State, c: CallerId, d: CallerId)
    requires Inv(s) && c in s.callers && d in s.callers && c != d
    requires s.callers[c].phase.Clearing? && Clears(s.callers[d].phase)
    requires s.callers[c].target == s.callers[d].target && s.callers[c].replica == s.callers[d].replica
    ensures var cleared := Apply(ClearedAndClaimed(s, c), CallerStep(d, Answered));
            && Lost(cleared, |s.tasks|) && cleared.tasks[|s.tasks|].phase == Running
            && (s.callers[c].replica, s.callers[c].target.Key()) !in cleared.waiters
            && s.callers[c].target.Key() !in cleared.registry.models
  {
    ClearedIsClaimed(s, c);
    ClearDropsClaimIff(ClearedAndClaimed(s, c), d, Answered, |s.tasks|);
  }

  // ----- Downloads that go on without their claim

  ghost function OwnManifest(s: State, i: nat): Manifest
    requires i < |s.tasks|
  {
    Manifest(s.tasks[i].replica, s.tasks[i].target.tenant, s.tasks[i].target.Key())
  }

  /** The end of a download writes its manifest before anything is checked: it is then on disk without a record if and only if the entry has none at that moment. */
  lemma {:induction false} RecordsWithoutRecordIff(s: State, i: nat)
    requires i < |s.tasks| && s.tasks[i].phase == Running && s.tasks[i].replica in s.configured
    ensures var s' := Apply(s, RecordDownload(i, true));
            && OwnManifest(s, i) in s'.present
            && (s.tasks[i].target.Key() !in s'.registry.models <==> s.tasks[i].target.Key() !in s.registry.models)
  {
  }

  /** From every state with a running download: its record is deleted, and it still writes its manifest, having lost its claim. */
  lemma {:induction false} LateDownloadStillRecords(s: State, i: nat)
    requires i < |s.tasks| && s.tasks[i].phase == Running && s.tasks[i].replica in s.configured
    ensures var late := Apply(Apply(s, EvictRecord(s.tasks[i].target.Key(), Answered)), RecordDownload(i, true));
            Lost(late, i) && OwnManifest(s, i) in late.present && s.tasks[i].target.Key() !in late.registry.models
  {
  }

  lemma {:induction false} EndedStep(s: State, a: Action, i: nat)
    requires i < |s.tasks| && s.tasks[i].phase == Ended
    ensures i < |Apply(s, a).tasks| && Apply(s, a).tasks[i].phase == Ended
  {
  }

  lemma {:induction false} EndedStaysEnded(s: State, actions: seq<Action>, i: nat)
    requires i < |s.tasks| && s.tasks[i].phase == Ended
    ensures i < |ApplyAll(s, actions).tasks| && ApplyAll(s, actions).tasks[i].phase == Ended
  {
    if actions != [] {
      EndedStaysEnded(s, actions[..|actions| - 1], i);
      EndedStep(ApplyAll(s, actions[..|actions| - 1]), actions[|actions| - 1], i);
    }
  }

  /** A heartbeat stops a download exactly when it is answered and the claim is gone; from then on, whatever happens, its end writes nothing. */
  lemma {:induction false} HeartbeatStopsIff(s: State, i: nat, io: Io, after: seq<Action>, ok: bool)
    requires Consistent(s.registry) && i < |s.tasks| && s.tasks[i].phase == Running
    ensures var beaten := Apply(s, Heartbeat(i, io));
            && (beaten.tasks[i].phase == Ended <==> io == Answered && !Holds(s, i))
            && (beaten.tasks[i].phase == Ended ==>
                  Apply(ApplyAll(beaten, after), RecordDownload(i, ok)).present == ApplyAll(beaten, after).present)
  {
    var beaten := Apply(s, Heartbeat(i, io));
    if beaten.tasks[i].phase == Ended {
      EndedStaysEnded(beaten, after, i);
    }
  }

  // ----- Honest success

  /** The files of the caller's own entry are recorded in its own tenant's partition. */
  ghost predicate Satisfied(s: State, caller: Caller) {
    Manifest(caller.replica, caller.target.tenant, caller.target.Key()) in s.present
  }

  /** A call in progress whose entry is satisfied at this moment. */
  ghost predicate SatisfiedDuringCall(s: State, c: CallerId, caller: Caller) {
    && c in s.callers && !s.callers[c].phase.Returned?
    && s.callers[c].replica == caller.replica && s.callers[c].target == caller.target
    && Satisfied(s, caller)
  }

  /** Only its own steps move a call. */
  lemma {:induction false} OthersLeaveCallerAlone(s: State, a: Action, c: CallerId)
    requires c in s.callers && !(a.CallerStep? && a.c == c)
    ensures c in Apply(s, a).callers && Apply(s, a).callers[c] == s.callers[c]
  {
  }

  lemma {:induction false} SuccessStep(s: State, c: CallerId, io: Io)
    requires c in s.callers && s.callers[c].phase != Returned(DOWNLOADED)
    requires StepCaller(s, c, io).callers[c].phase == Returned(DOWNLOADED)
    ensures !s.callers[c].phase.Returned? && FilesPresent(s, s.callers[c].replica, s.callers[c].target)
  {
  }

  lemma {:induction false} SuccessIsWitnessed(s: State, a: Action, c: CallerId)
    requires c in Apply(s, a).callers && Apply(s, a).callers[c].phase == Returned(DOWNLOADED)
    requires Apply(s, a).callers[c].replica in s.configured
    ensures c in s.callers && s.callers[c].replica == Apply(s, a).callers[c].replica
            && s.callers[c].target == Apply(s, a).callers[c].target
    ensures s.callers[c].phase == Returned(DOWNLOADED) || SatisfiedDuringCall(s, c, s.callers[c])
  {
    ApplyKeepsActors(s, a);
    if c in s.callers {
      if a.CallerStep? && a.c == c {
        if s.callers[c].phase != Returned(DOWNLOADED) { SuccessStep(s, c, a.io); }
      } else {
        OthersLeaveCallerAlone(s, a, c);
      }
    }
  }

  /**
   In every run, a call that returned DOWNLOADED on a replica with a cache directory was in
   progress at some moment when exactly its entry's files were recorded and in place, in its
   own tenant's partition of that replica.
   */
  lemma {:induction false} DownloadedIsHonest(s0: State, actions: seq<Action>, c: CallerId)
    requires c !in s0.callers && c in ApplyAll(s0, actions).callers
    requires ApplyAll(s0, actions).callers[c].phase == Returned(DOWNLOADED)
    requires ApplyAll(s0, actions).callers[c].replica in s0.configured
    ensures exists m | 0 <= m < |actions| ::
              SatisfiedDuringCall(ApplyAll(s0, actions[..m]), c, ApplyAll(s0, actions).callers[c])
  {
    var n := |actions| - 1;
    var s, a := ApplyAll(s0, actions[..n]), actions[n];
    ConfiguredIsConstant(s0, actions[..n]);
    SuccessIsWitnessed(s, a, c);
    if s.callers[c].phase == Returned(DOWNLOADED) {
      DownloadedIsHonest(s0, actions[..n], c);
      var m :| 0 <= m < n && SatisfiedDuringCall(ApplyAll(s0, actions[..n][..m]), c, s.callers[c]);
      assert actions[..n][..m] == actions[..m];
      assert SatisfiedDuringCall(ApplyAll(s0, actions[..m]), c, ApplyAll(s0, actions).callers[c]);
    } else {
      assert SatisfiedDuringCall(ApplyAll(s0, actions[..n]), c, ApplyAll(s0, actions).callers[c]);
    }
  }

  lemma {:induction false} ConfiguredIsConstant(s0: State, actions: seq<Action>)
    ensures ApplyAll(s0, actions).configured == s0.configured
  {
    if actions != [] {
      ConfiguredIsConstant(s0, actions[..|actions| - 1]);
      ApplyKeepsActors(ApplyAll(s0, actions[..|actions| - 1]), actions[|actions| - 1]);
    }
  }

  /** At position `m` of the run, task `i` finished its download and recorded the files. */
  ghost predicate RecordedAt(s0: State, actions: seq<Action>, i: nat, m: nat)
    requires m < |actions|
  {
    var s := ApplyAll(s0, actions[..m]);
    actions[m] == RecordDownload(i, true) && i < |s.tasks| && s.tasks[i].phase == Running
  }

  /** At position `m` of the run, task `i` published DOWNLOADED while its claim was on the lease, by a call that took effect. */
  ghost predicate PublishedAt(s0: State, actions: seq<Action>, i: nat, m: nat)
    requires m < |actions|
  {
    var s := ApplyAll(s0, actions[..m]);
    && actions[m].Finish? && actions[m].i == i && actions[m].io != FailedBefore
    && i < |s.tasks| && s.tasks[i].phase == Recorded(DOWNLOADED)
    && Owns(s.registry, s.tasks[i].target.Key(), s.tasks[i].claimId)
  }

  lemma {:induction false} RecordedAtPrefix(s0: State, actions: seq<Action>, n: nat, i: nat, m: nat)
    requires m < n <= |actions|
    ensures RecordedAt(s0, actions[..n], i, m) <==> RecordedAt(s0, actions, i, m)
    ensures PublishedAt(s0, actions[..n], i, m) <==> PublishedAt(s0, actions, i, m)
  {
    assert actions[..n][..m] == actions[..m];
  }

  lemma {:induction false} RecordedPhaseHasOrigin(s0: State, actions: seq<Action>, i: nat)
    requires s0.tasks == [] && i < |ApplyAll(s0, actions).tasks|
    requires ApplyAll(s0, actions).tasks[i].phase == Recorded(DOWNLOADED)
    ensures exists m | 0 <= m < |actions| :: RecordedAt(s0, actions, i, m)
  {
    var n := |actions| - 1;
    var s := ApplyAll(s0, actions[..n]);
    TaskPhaseStep(s, actions[n], i);
    if i < |s.tasks| && s.tasks[i].phase == Recorded(DOWNLOADED) {
      RecordedPhaseHasOrigin(s0, actions[..n], i);
      var m :| 0 <= m < n && RecordedAt(s0, actions[..n], i, m);
      RecordedAtPrefix(s0, actions, n, i, m);
    } else {
      assert RecordedAt(s0, actions, i, n);
    }
  }

  /** How a task can come to be in a phase. */
  lemma {:induction false} TaskPhaseStep(s: State, a: Action, i: nat)
    requires i < |Apply(s, a).tasks|
    ensures i >= |s.tasks| ==> Apply(s, a).tasks[i].phase == Running
    ensures i < |s.tasks| && Apply(s, a).tasks[i].phase == Recorded(DOWNLOADED) != s.tasks[i].phase ==>
              s.tasks[i].phase == Running && a == RecordDownload(i, true)
    ensures i < |s.tasks| && Apply(s, a).tasks[i].phase == Won(DOWNLOADED) != s.tasks[i].phase ==>
              && s.tasks[i].phase == Recorded(DOWNLOADED) && a == Finish(i, Answered)
              && Owns(s.registry, s.tasks[i].target.Key(), s.tasks[i].claimId)
  {
  }

  lemma {:induction false} ApplyNext(s0: State, actions: seq<Action>, m: nat)
    requires m < |actions|
    ensures ApplyAll(s0, actions[..m + 1]) == Apply(ApplyAll(s0, actions[..m]), actions[m])
  {
    assert actions[..m + 1][..m] == actions[..m];
  }

  /** What the two positions mean: the manifest is on the replica's disk after the one, and the registry says DOWNLOADED after the other. */
  lemma {:induction false} EarningTakesEffect(s0: State, actions: seq<Action>, i: nat, m: nat)
    requires m < |actions|
    ensures var before, after := ApplyAll(s0, actions[..m]), ApplyAll(s0, actions[..m + 1]);
            && (RecordedAt(s0, actions, i, m) && before.tasks[i].replica in before.configured ==>
                  Manifest(before.tasks[i].replica, before.tasks[i].target.tenant, before.tasks[i].target.Key()) in after.present)
            && (PublishedAt(s0, actions, i, m) ==>
                  var key := before.tasks[i].target.Key();
                  key in after.registry.models && after.registry.models[key] == DOWNLOADED)
  {
    ApplyNext(s0, actions, m);
  }

  /** Recorded first, published later, in this order, by the same task. */
  ghost predicate Earned(s0: State, actions: seq<Action>, i: nat) {
    exists m, k | 0 <= m < k < |actions| :: RecordedAt(s0, actions, i, m) && PublishedAt(s0, actions, i, k)
  }

  lemma {:induction false} PublishIsEarned(s0: State, actions: seq<Action>, i: nat, k: nat)
    requires s0.tasks == [] && k < |actions| && PublishedAt(s0, actions, i, k)
    ensures Earned(s0, actions, i)
  {
    RecordedPhaseHasOrigin(s0, actions[..k], i);
    var m :| 0 <= m < k && RecordedAt(s0, actions[..k], i, m);
    RecordedAtPrefix(s0, actions, k, i, m);
  }

  lemma {:induction false} EarnedPrefix(s0: State, actions: seq<Action>, n: nat, i: nat)
    requires n <= |actions| && Earned(s0, actions[..n], i)
    ensures Earned(s0, actions, i)
  {
    var m, k :| 0 <= m < k < n && RecordedAt(s0, actions[..n], i, m) && PublishedAt(s0, actions[..n], i, k);
    RecordedAtPrefix(s0, actions, n, i, m);
    RecordedAtPrefix(s0, actions, n, i, k);
  }

  /**
   A task is about to broadcast DOWNLOADED only after its own replica recorded that entry's
   files and then published the status while still holding the claim.
   */
  lemma {:induction false} BroadcastIsHonest(s0: State, actions: seq<Action>, i: nat)
    requires s0.tasks == [] && i < |ApplyAll(s0, actions).tasks|
    requires ApplyAll(s0, actions).tasks[i].phase == Won(DOWNLOADED)
    ensures Earned(s0, actions, i)
  {
    var n := |actions| - 1;
    var s := ApplyAll(s0, actions[..n]);
    TaskPhaseStep(s, actions[n], i);
    if s.tasks[i].phase == Won(DOWNLOADED) {
      BroadcastIsHonest(s0, actions[..n], i);
      EarnedPrefix(s0, actions, n, i);
    } else {
      assert PublishedAt(s0, actions, i, n);
      PublishIsEarned(s0, actions, i, n);
    }
  }

  /** A registry record becomes DOWNLOADED only by a task of that entry publishing under its claim. */
  lemma {:induction false} RegistryStep(s: State, a: Action, key: EntryKey)
    requires key in Apply(s, a).registry.models && Apply(s, a).registry.models[key] == DOWNLOADED
    ensures (key in s.registry.models && s.registry.models[key] == DOWNLOADED)
         || (a.Finish? && a.io != FailedBefore && a.i < |s.tasks| && s.tasks[a.i].phase == Recorded(DOWNLOADED)
             && s.tasks[a.i].target.Key() == key && Owns(s.registry, key, s.tasks[a.i].claimId))
  {
    if a.CallerStep? && a.c in s.callers {
      CallerStepRegistry(s, a.c, a.io);
    } else if IsTaskAction(a) && a.i < |s.tasks| {
      TaskStepRegistry(s, a);
    }
  }

  /**
   In every run from an empty registry, an entry is recorded as DOWNLOADED only if some task
   for exactly that entry recorded its files and then published under its own claim.
   */
  lemma {:induction false} RegistryIsHonest(now: int, configured: set<ReplicaId>, present: set<Manifest>,
                                            actions: seq<Action>, key: EntryKey)
    requires var r := ApplyAll(Initial(now, configured, present), actions).registry;
             key in r.models && r.models[key] == DOWNLOADED
    ensures exists i | 0 <= i < |ApplyAll(Initial(now, configured, present), actions).tasks| ::
              && ApplyAll(Initial(now, configured, present), actions).tasks[i].target.Key() == key
              && Earned(Initial(now, configured, present), actions, i)
  {
    var s0 := Initial(now, configured, present);
    var n := |actions| - 1;
    var s, a := ApplyAll(s0, actions[..n]), actions[n];
    RegistryStep(s, a, key);
    ApplyKeepsActors(s, a);
    if key in s.registry.models && s.registry.models[key] == DOWNLOADED {
      RegistryIsHonest(now, configured, present, actions[..n], key);
      var i :| 0 <= i < |s.tasks| && s.tasks[i].target.Key() == key && Earned(s0, actions[..n], i);
      EarnedPrefix(s0, actions, n, i);
    } else {
      assert PublishedAt(s0, actions, a.i, n);
      PublishIsEarned(s0, actions, a.i, n);
    }
  }
}
