/**
 The operator's cluster-scoped role binding and the finalizer that guards it: reconciles made of
 several API calls, any of which can fail or be cut short by a crash, interleaved with other
 actors of the cluster.
 */
module Finalizer {
  import opened Prelude

  // ----- The cluster

  /** A ModelExpressServer: our finalizer, the finalizers of others, its deletion mark and whether its spec wants the binding. */
  datatype Server = Server(held: bool, others: bool, deleting: bool, wants: bool)

  /** The binding under this server's name, with the operator's labels or without. */
  datatype Binding = Managed | Foreign

  datatype Cluster = Cluster(server: Option<Server>, binding: Option<Binding>)

  /** What became of a call: done and answered; done but the answer lost; not done. The last two end the reconcile. */
  datatype Outcome = Done | Lost | Failed

  /** A server marked for deletion goes when its last finalizer does. */
  function Settle(server: Server): Option<Server> {
    if server.deleting && !server.held && !server.others then None else Some(server)
  }

  // ----- Where a reconcile stands

  datatype Pc =
    | Idle
    | AddFinalizer(snapshot: Server)
    | CreateBinding
    | GetBinding(snapshot: Server)
    | DeleteBinding(snapshot: Server)
    | DropFinalizer(snapshot: Server)

  datatype State = State(cluster: Cluster, pc: Pc)

  /** The finalizer patch changes our finalizer only; a deleting server takes no new one, a missing server answers 404. */
  function Patched(cluster: Cluster, present: bool): Cluster {
    match cluster.server
    case None => cluster
    case Some(server) =>
      if present && server.deleting && !server.held then cluster
      else cluster.(server := Settle(server.(held := present)))
  }

  predicate PatchRefused(cluster: Cluster, present: bool) {
    present && cluster.server.Some? && cluster.server.value.deleting && !cluster.server.value.held
  }

  /** A finalizer step that the snapshot makes unnecessary: no call is made, so none can fail. */
  predicate Skips(pc: Pc) {
    (pc.AddFinalizer? && pc.snapshot.held) || (pc.DropFinalizer? && !pc.snapshot.held)
  }

  /** The reconcile's next call. `Failed` leaves the cluster as it is, and only `Done` goes on. */
  function Call(s: State, outcome: Outcome): State {
    var cluster := s.cluster;
    var next: State := match s.pc
      case Idle => s
      case AddFinalizer(snapshot) =>
        if snapshot.held then State(cluster, CreateBinding)
        else State(Patched(cluster, true), if PatchRefused(cluster, true) then Idle else CreateBinding)
      case CreateBinding => State(cluster.(binding := Some(Managed)), Idle)
      case GetBinding(snapshot) =>
        State(cluster, if cluster.binding == Some(Managed) then DeleteBinding(snapshot) else DropFinalizer(snapshot))
      case DeleteBinding(snapshot) => State(cluster.(binding := None), DropFinalizer(snapshot))
      case DropFinalizer(snapshot) => State(if snapshot.held then Patched(cluster, false) else cluster, Idle);
    if Skips(s.pc) then next
    else match outcome
      case Done => next
      case Lost => State(next.cluster, Idle)
      case Failed => State(cluster, Idle)
  }

  /** A reconcile reads the live server and chooses its path; `applied` says whether the other resources could be applied. */
  function Begin(s: State, applied: bool): State {
    match s.cluster.server
    case None => s
    case Some(server) =>
      if server.deleting then s.(pc := GetBinding(server))
      else if !applied then s
      else if server.wants then s.(pc := AddFinalizer(server))
      else s.(pc := GetBinding(server))
  }

  datatype Action =
    | Reconcile(applied: bool)
    | ApiCall(outcome: Outcome)
    | Crash
    | CreateServer(wants: bool, others: bool)
    | ChangeSpec(wants: bool)
    | RequestDelete
    | AddOthers
    | DropOthers
    | CreateForeign
    | RemoveBinding

  /** One step: the operator's (one reconcile at a time) or another actor's, none of whom touches our finalizer or our labels. */
  function Apply(s: State, a: Action): State {
    var cluster := s.cluster;
    match a
    case Reconcile(applied) => if s.pc == Idle then Begin(s, applied) else s
    case ApiCall(outcome) => Call(s, outcome)
    case Crash => s.(pc := Idle)
    case CreateServer(wants, others) =>
      if cluster.server.Some? then s else s.(cluster := cluster.(server := Some(Server(false, others, false, wants))))
    case ChangeSpec(wants) =>
      if cluster.server.None? then s else s.(cluster := cluster.(server := Some(cluster.server.value.(wants := wants))))
    case RequestDelete =>
      if cluster.server.None? then s else s.(cluster := cluster.(server := Settle(cluster.server.value.(deleting := true))))
    case AddOthers =>
      if cluster.server.None? || cluster.server.value.deleting then s
      else s.(cluster := cluster.(server := Some(cluster.server.value.(others := true))))
    case DropOthers =>
      if cluster.server.None? then s else s.(cluster := cluster.(server := Settle(cluster.server.value.(others := false))))
    case CreateForeign => if cluster.binding.Some? then s else s.(cluster := cluster.(binding := Some(Foreign)))
    case RemoveBinding => s.(cluster := cluster.(binding := None))
  }

  function ApplyAll(s: State, actions: seq<Action>): State
    decreases |actions|
  {
    if actions == [] then s else ApplyAll(Apply(s, actions[0]), actions[1..])
  }

  // ----- Safety

  predicate Holds(cluster: Cluster) {
    cluster.server.Some? && cluster.server.value.held
  }

  /** A binding of ours exists only while its server exists and holds the finalizer. */
  predicate Safe(cluster: Cluster) {
    cluster.binding == Some(Managed) ==> Holds(cluster)
  }

  ghost predicate Inv(s: State) {
    && Safe(s.cluster)
    && (s.cluster.server.Some? ==> Settle(s.cluster.server.value).Some?)
    && (s.pc == CreateBinding ==> Holds(s.cluster))
    && (s.pc.AddFinalizer? && s.pc.snapshot.held ==> Holds(s.cluster))
    && (s.pc.GetBinding? && !s.pc.snapshot.held ==> s.cluster.binding != Some(Managed))
    && (s.pc.DropFinalizer? ==> s.cluster.binding != Some(Managed))
  }

  /** The finalizer patch meets no server: the branch that reports success although nothing holds the finalizer. */
  predicate ServerMissing(s: State, a: Action) {
    a == ApiCall(Done) && s.pc.AddFinalizer? && s.cluster.server.None?
  }

  /** No step of the run takes that branch. */
  ghost predicate ServerPresent(s: State, actions: seq<Action>)
    decreases |actions|
  {
    actions != [] ==> !ServerMissing(s, actions[0]) && ServerPresent(Apply(s, actions[0]), actions[1..])
  }

  lemma {:induction false} ApplyKeepsInv(s: State, a: Action)
    requires Inv(s) && !ServerMissing(s, a)
    ensures Inv(Apply(s, a))
  {
  }

  /** No binding outlives its server: in every interleaving, with failures and crashes between any two calls. */
  lemma {:induction false} NoBindingOutlivesItsServer(s: State, actions: seq<Action>)
    requires Inv(s) && ServerPresent(s, actions)
    ensures Inv(ApplyAll(s, actions)) && Safe(ApplyAll(s, actions).cluster)
    decreases |actions|
  {
    if actions != [] {
      ApplyKeepsInv(s, actions[0]);
      NoBindingOutlivesItsServer(Apply(s, actions[0]), actions[1..]);
    }
  }

  /** The condition is exact: from the finalizer step on, the apply is safe precisely when the server is still there. */
  lemma {:induction false} ApplyIsSafeIff(s: State)
    requires Inv(s) && s.pc.AddFinalizer?
    ensures Safe(ApplyAll(s, [ApiCall(Done), ApiCall(Done)]).cluster) <==> s.cluster.server.Some?
  {
  }

  const EMPTY := State(Cluster(None, None), Idle)

  /** A server deleted between the read and the finalizer patch leaves an orphan: a whole run from an empty cluster. */
  lemma {:induction false} DeletionDuringApplyLeavesAnOrphan()
    ensures var run := [CreateServer(true, false), Reconcile(true), RequestDelete, ApiCall(Done), ApiCall(Done)];
            ApplyAll(EMPTY, run) == State(Cluster(None, Some(Managed)), Idle) && Inv(EMPTY)
  {
  }

  // ----- Undisturbed reconciles

  function Calls(s: State, outcomes: seq<Outcome>): State
    decreases |outcomes|
  {
    if outcomes == [] then s else Calls(Call(s, outcomes[0]), outcomes[1..])
  }

  lemma {:induction false} CallsThree(s: State, a: Outcome, b: Outcome, c: Outcome)
    ensures Calls(s, [a, b, c]) == Call(Call(Call(s, a), b), c)
  {
    assert [a, b, c][1..] == [b, c] && [b, c][1..] == [c] && [c][1..] == [];
    assert Calls(Call(s, a), [b, c]) == Calls(Call(Call(s, a), b), [c]);
    assert Calls(Call(Call(s, a), b), [c]) == Calls(Call(Call(Call(s, a), b), c), []);
  }

  /** The cluster a reconcile aims at; a foreign binding is taken over when one is wanted and left alone otherwise. */
  function Target(cluster: Cluster): Cluster {
    match cluster.server
    case None => cluster
    case Some(server) =>
      if server.wants && !server.deleting
      then Cluster(Some(server.(held := true)), Some(Managed))
      else Cluster(Settle(server.(held := false)), if cluster.binding == Some(Managed) then None else cluster.binding)
  }

  /** From any state a run can leave behind, even one cut short by a crash, an undisturbed reconcile reaches the target, and a second one changes nothing. */
  lemma {:induction false} ReconcileConverges(s: State)
    requires Inv(s) && s.pc == Idle
    ensures Calls(Begin(s, true), [Done, Done, Done]) == State(Target(s.cluster), Idle)
    ensures Inv(State(Target(s.cluster), Idle))
    ensures Target(Target(s.cluster)) == Target(s.cluster)
  {
  }

  /** A server goes exactly when it is marked for deletion and its last finalizer is dropped, by whoever holds it. */
  lemma {:induction false} ServerGoesIff(s: State, a: Action)
    requires s.cluster.server.Some? && Settle(s.cluster.server.value).Some?
    ensures var server := s.cluster.server.value;
            Apply(s, a).cluster.server == None <==>
            || (a == RequestDelete && !server.held && !server.others)
            || (a == DropOthers && server.deleting && !server.held)
            || (a.ApiCall? && a.outcome != Failed && s.pc.DropFinalizer? && s.pc.snapshot.held && server.deleting && !server.others)
  {
  }

  /** Nothing but the operator's own patches moves its finalizer, and a server marked for deletion takes no new one. */
  lemma {:induction false} OnlyTheOperatorMovesItsFinalizer(s: State, a: Action)
    requires s.cluster.server.Some? && Apply(s, a).cluster.server.Some?
    ensures var before, after := s.cluster.server.value, Apply(s, a).cluster.server.value;
            && (after.held && !before.held <==>
                  !before.held && !before.deleting && a.ApiCall? && a.outcome != Failed && s.pc.AddFinalizer? && !s.pc.snapshot.held)
            && (!after.held && before.held <==>
                  before.held && a.ApiCall? && a.outcome != Failed && s.pc.DropFinalizer? && s.pc.snapshot.held)
            && (after.others && !before.others <==> a == AddOthers && !before.others && !before.deleting)
            && (!after.others && before.others <==> a == DropOthers && before.others)
            && (before.deleting ==> after.deleting)
  {
  }

  // ----- Bindings that are not ours

  lemma {:induction false} ApplySnoc(s: State, actions: seq<Action>, a: Action)
    ensures ApplyAll(s, actions + [a]) == Apply(ApplyAll(s, actions), a)
    decreases |actions|
  {
    if actions == [] {
      assert [] + [a] == [a] && [a][1..] == [];
    } else {
      ApplySnoc(Apply(s, actions[0]), actions[1..], a);
      assert (actions + [a])[1..] == actions[1..] + [a];
    }
  }

  lemma {:induction false} ApplyNext(s: State, actions: seq<Action>, k: nat)
    requires k < |actions|
    ensures ApplyAll(s, actions[..k + 1]) == Apply(ApplyAll(s, actions[..k]), actions[k])
  {
    ApplySnoc(s, actions[..k], actions[k]);
    assert actions[..k + 1] == actions[..k] + [actions[k]];
  }

  /** One call can take away a foreign binding only as a pending delete, and take it over only as a pending create. */
  lemma {:induction false} ForeignBindingStep(s: State, outcome: Outcome)
    requires s.cluster.binding == Some(Foreign)
    ensures Call(s, outcome).cluster.binding == None <==> s.pc.DeleteBinding? && outcome != Failed
    ensures Call(s, outcome).cluster.binding == Some(Managed) <==> s.pc == CreateBinding && outcome != Failed
  {
  }

  predicate Interrupts(a: Action) {
    a.ApiCall? || a.Crash?
  }

  /** Call `m` of the run read the binding as ours, and the reconcile has made no call since. */
  ghost predicate ReadAsOurs(s: State, actions: seq<Action>, m: nat)
    requires m < |actions|
  {
    var before := ApplyAll(s, actions[..m]);
    && before.pc.GetBinding? && before.cluster.binding == Some(Managed) && actions[m] == ApiCall(Done)
    && forall k | m < k < |actions| :: !Interrupts(actions[k])
  }

  lemma {:induction false} DeletePendingStep(s: State, a: Action)
    ensures Apply(s, a).pc.DeleteBinding? <==>
            || (s.pc.DeleteBinding? && !Interrupts(a))
            || (s.pc.GetBinding? && s.cluster.binding == Some(Managed) && a == ApiCall(Done))
  {
  }

  lemma {:induction false} ReadAsOursPrefix(s: State, actions: seq<Action>, m: nat)
    requires m < |actions| - 1
    ensures ReadAsOurs(s, actions, m) <==> ReadAsOurs(s, actions[..|actions| - 1], m) && !Interrupts(actions[|actions| - 1])
  {
    var init := actions[..|actions| - 1];
    assert init[..m] == actions[..m];
    assert forall k | 0 <= k < |init| :: init[k] == actions[k];
  }

  /** In every run a delete is pending if and only if the reconcile at work read the binding as ours and has made no call since. */
  lemma {:induction false} DeletePendingIff(s: State, actions: seq<Action>)
    requires s.pc == Idle
    ensures ApplyAll(s, actions).pc.DeleteBinding? <==> exists m :: 0 <= m < |actions| && ReadAsOurs(s, actions, m)
    decreases |actions|
  {
    if actions != [] {
      var n := |actions| - 1;
      var init := actions[..n];
      DeletePendingIff(s, init);
      ApplyNext(s, actions, n);
      assert actions[..n + 1] == actions;
      DeletePendingStep(ApplyAll(s, init), actions[n]);
      forall m | 0 <= m < n ensures ReadAsOurs(s, actions, m) <==> ReadAsOurs(s, init, m) && !Interrupts(actions[n]) {
        ReadAsOursPrefix(s, actions, m);
      }
      if m :| 0 <= m < n && ReadAsOurs(s, init, m) {
        assert ReadAsOurs(s, actions, m) <==> !Interrupts(actions[n]);
      }
      var before := ApplyAll(s, init);
      assert ReadAsOurs(s, actions, n) <==>
             before.pc.GetBinding? && before.cluster.binding == Some(Managed) && actions[n] == ApiCall(Done);
    }
  }

  /** After position `m` someone removed the binding and then someone created another. */
  predicate ReplacedSince(actions: seq<Action>, m: nat) {
    exists p, q :: m < p < q < |actions| && actions[p] == RemoveBinding && actions[q] == CreateForeign
  }

  lemma {:induction false} BindingSince(s: State, actions: seq<Action>, m: nat, j: nat)
    requires m < j <= |actions| && ReadAsOurs(s, actions, m)
    ensures ApplyAll(s, actions[..j]).cluster.binding == None ==> exists p :: m < p < j && actions[p] == RemoveBinding
    ensures ApplyAll(s, actions[..j]).cluster.binding == Some(Foreign) ==>
              exists p, q :: m < p < q < j && actions[p] == RemoveBinding && actions[q] == CreateForeign
  {
    ApplyNext(s, actions, j - 1);
    if m + 1 < j {
      BindingSince(s, actions, m, j - 1);
      var before, a := ApplyAll(s, actions[..j - 1]).cluster.binding, actions[j - 1];
      assert !Interrupts(a);
      if before == None && a == CreateForeign {
        var p :| m < p < j - 1 && actions[p] == RemoveBinding;
        assert m < p < j - 1 < j && actions[p] == RemoveBinding && actions[j - 1] == CreateForeign;
      }
    }
  }

  /**
   In every run: the operator's next call takes away a binding that is not ours if and only if it gets
   through, the reconcile at work read a binding of ours there, and others have since removed that one
   and created theirs.
   */
  lemma {:induction false} ForeignBindingGoesIff(s: State, actions: seq<Action>, outcome: Outcome)
    requires s.pc == Idle && ApplyAll(s, actions).cluster.binding == Some(Foreign)
    ensures Call(ApplyAll(s, actions), outcome).cluster.binding == None <==>
            && outcome != Failed
            && exists m :: 0 <= m < |actions| && ReadAsOurs(s, actions, m) && ReplacedSince(actions, m)
  {
    ForeignBindingStep(ApplyAll(s, actions), outcome);
    DeletePendingIff(s, actions);
    assert actions[..|actions|] == actions;
    if m :| 0 <= m < |actions| && ReadAsOurs(s, actions, m) {
      BindingSince(s, actions, m, |actions|);
      assert ReplacedSince(actions, m);
    }
  }

  const REPLACED_RUN := [
    CreateServer(true, false), Reconcile(true), ApiCall(Done), ApiCall(Done),
    ChangeSpec(false), Reconcile(true), ApiCall(Done), RemoveBinding, CreateForeign]

  lemma {:induction false} ReplacedRunReads()
    ensures ApplyAll(EMPTY, REPLACED_RUN[..6])
            == State(Cluster(Some(Server(true, false, false, false)), Some(Managed)), GetBinding(Server(true, false, false, false)))
  {
    var run := REPLACED_RUN;
    ApplyNext(EMPTY, run, 0);
    ApplyNext(EMPTY, run, 1);
    ApplyNext(EMPTY, run, 2);
    var held := Server(true, false, false, true);
    assert ApplyAll(EMPTY, run[..3]) == State(Cluster(Some(held), None), CreateBinding);
    ApplyNext(EMPTY, run, 3);
    ApplyNext(EMPTY, run, 4);
    ApplyNext(EMPTY, run, 5);
  }

  /** From every state in which a reconcile is about to read a binding of ours. */
  lemma {:induction false} ReplacedAfterRead(s: State)
    requires s.pc.GetBinding? && s.cluster.binding == Some(Managed)
    ensures var replaced := Apply(Apply(Apply(s, ApiCall(Done)), RemoveBinding), CreateForeign);
            replaced.cluster.binding == Some(Foreign) && Call(replaced, Done).cluster.binding == None
  {
  }

  /** It does happen: a run from an empty cluster after which the operator's call deletes the foreign binding. */
  lemma {:induction false} ReplacedBindingIsDeleted()
    ensures ApplyAll(EMPTY, REPLACED_RUN).cluster.binding == Some(Foreign)
    ensures Call(ApplyAll(EMPTY, REPLACED_RUN), Done).cluster.binding == None
  {
    hide Apply, Call, ApplyAll;
    var run := REPLACED_RUN;
    ReplacedRunReads();
    ApplyNext(EMPTY, run, 6);
    ApplyNext(EMPTY, run, 7);
    ApplyNext(EMPTY, run, 8);
    assert run[..9] == run;
    ReplacedAfterRead(ApplyAll(EMPTY, run[..6]));
  }

  /** Releasing a server that is going away lets it go, and no binding of ours stays behind. */
  lemma {:induction false} ReleaseCompletes(s: State)
    requires Inv(s) && s.pc == Idle && s.cluster.server.Some? && s.cluster.server.value.deleting
    ensures var end := Calls(Begin(s, true), [Done, Done, Done]).cluster;
            && end.binding != Some(Managed)
            && (end.server.None? <==> !s.cluster.server.value.others)
            && (s.cluster.binding == Some(Foreign) ==> end.binding == Some(Foreign))
  {
  }

  /** Whatever a run did and wherever it was cut short, one undisturbed reconcile brings the cluster to its target. */
  lemma {:induction false} EveryRunIsRecoverable(actions: seq<Action>)
    requires ServerPresent(EMPTY, actions)
    ensures var cut := ApplyAll(EMPTY, actions).(pc := Idle);
            Calls(Begin(cut, true), [Done, Done, Done]) == State(Target(cut.cluster), Idle) && Safe(Target(cut.cluster))
  {
    NoBindingOutlivesItsServer(EMPTY, actions);
    ReconcileConverges(ApplyAll(EMPTY, actions).(pc := Idle));
  }

  /** Undisturbed, a reconcile's snapshot is the server it is working on. */
  ghost predicate Coherent(s: State) {
    match s.pc
    case Idle => true
    case AddFinalizer(snapshot) => s.cluster.server == Some(snapshot) && snapshot.wants && !snapshot.deleting
    case CreateBinding => s.cluster.server.Some? && s.cluster.server.value.wants && !s.cluster.server.value.deleting
    case _ =>
      && s.cluster.server == Some(s.pc.snapshot)
      && (!s.pc.snapshot.wants || s.pc.snapshot.deleting)
      && (s.pc.DeleteBinding? ==> s.cluster.binding == Some(Managed))
  }

  lemma {:induction false} CallKeepsTarget(s: State, outcome: Outcome)
    requires Inv(s) && Coherent(s)
    ensures Inv(Call(s, outcome)) && Coherent(Call(s, outcome))
    ensures Call(s, outcome).cluster.server == None || Target(Call(s, outcome).cluster) == Target(s.cluster)
  {
  }

  lemma {:induction false} GoneStaysGone(s: State, outcome: Outcome)
    requires Inv(s) && Coherent(s) && s.cluster.server == None
    ensures Call(s, outcome).cluster.server == None
  {
  }

  /** A reconcile cut short at any call keeps the invariant and does not move the target, except that a released server is gone. */
  lemma {:induction false} CutShortKeepsTarget(s: State, outcomes: seq<Outcome>)
    requires Inv(s) && Coherent(s)
    ensures var cut := Calls(s, outcomes);
            Inv(cut) && Coherent(cut) && (cut.cluster.server == None || Target(cut.cluster) == Target(s.cluster))
    ensures s.cluster.server == None ==> Calls(s, outcomes).cluster.server == None
    decreases |outcomes|
  {
    if outcomes != [] {
      CallKeepsTarget(s, outcomes[0]);
      if s.cluster.server == None {
        GoneStaysGone(s, outcomes[0]);
      }
      CutShortKeepsTarget(Call(s, outcomes[0]), outcomes[1..]);
    }
  }

  // ----- The operator's code, call by call

  class Operator {
    var cluster: Cluster

    method SetFinalizer(snapshot: Server, present: bool, outcome: Outcome) returns (ok: bool)
      modifies this
      ensures snapshot.held == present ==> ok && cluster == old(cluster)
      ensures snapshot.held != present ==>
                && ok == (outcome == Done && !PatchRefused(old(cluster), present))
                && cluster == if outcome == Failed then old(cluster) else Patched(old(cluster), present)
    {
      if snapshot.held == present {
        return true;
      }
      if outcome == Failed {
        return false;
      }
      if cluster.server.None? {
        return outcome == Done;
      }
      var server := cluster.server.value;
      if present && server.deleting && !server.held {
        return false;
      }
      cluster := cluster.(server := Settle(server.(held := present)));
      return outcome == Done;
    }

    /** Removes the binding only when the one it read is managed. */
    method DeleteIfManaged(get: Outcome, delete: Outcome) returns (ok: bool)
      modifies this
      ensures cluster.server == old(cluster.server)
      ensures cluster.binding == if old(cluster.binding) == Some(Managed) && get == Done && delete != Failed
                                 then None else old(cluster.binding)
      ensures ok <==> get == Done && (old(cluster.binding) == Some(Managed) ==> delete == Done)
      ensures ok ==> cluster.binding != Some(Managed)
    {
      if get != Done {
        return false;
      }
      if cluster.binding.None? {
        return true;
      }
      if cluster.binding.value.Foreign? {
        return true;
      }
      if delete == Failed {
        return false;
      }
      cluster := cluster.(binding := None);
      return delete == Done;
    }

    method ApplyAuthDelegator(snapshot: Server, first: Outcome, second: Outcome, third: Outcome) returns (ok: bool)
      modifies this
      ensures snapshot.wants ==>
                cluster == Calls(State(old(cluster), AddFinalizer(snapshot)), [first, second]).cluster
      ensures !snapshot.wants ==>
                cluster == Calls(State(old(cluster), GetBinding(snapshot)), ReleaseCalls(old(cluster), first, second, third)).cluster
      ensures snapshot.wants ==>
                (ok <==> second == Done && (snapshot.held || (first == Done && !PatchRefused(old(cluster), true))))
      ensures !snapshot.wants ==> (ok <==> ReleaseSucceeds(old(cluster), snapshot, first, second, third))
      ensures ok ==> (snapshot.wants <==> cluster.binding == Some(Managed))
    {
      if snapshot.wants {
        CallsTwo(State(cluster, AddFinalizer(snapshot)), first, second);
        ok := SetFinalizer(snapshot, true, first);
        if ok && second != Failed {
          cluster := cluster.(binding := Some(Managed));
        }
        ok := ok && second == Done;
      } else {
        ok := ReleaseAuthDelegator(snapshot, first, second, third);
      }
    }

    method ReleaseAuthDelegator(snapshot: Server, get: Outcome, delete: Outcome, drop: Outcome) returns (ok: bool)
      modifies this
      ensures cluster == Calls(State(old(cluster), GetBinding(snapshot)), ReleaseCalls(old(cluster), get, delete, drop)).cluster
      ensures ok <==> ReleaseSucceeds(old(cluster), snapshot, get, delete, drop)
      ensures ok ==> cluster.binding != Some(Managed)
    {
      ghost var s := State(cluster, GetBinding(snapshot));
      CallsTwo(s, get, drop);
      CallsThree(s, get, delete, drop);
      ok := DeleteIfManaged(get, delete);
      if ok {
        ok := SetFinalizer(snapshot, false, drop);
      }
    }

    /** The method makes the calls of the state machine, so what holds of every run holds of this code. */
    method ReconcileServer(applied: bool, first: Outcome, second: Outcome, third: Outcome)
      modifies this
      ensures cluster == Calls(Begin(State(old(cluster), Idle), applied), ReconcileCalls(old(cluster), applied, first, second, third)).cluster
      ensures Inv(State(old(cluster), Idle)) ==> Safe(cluster)
    {
      ghost var s := State(cluster, Idle);
      ghost var calls := ReconcileCalls(cluster, applied, first, second, third);
      if Inv(s) {
        CutShortKeepsTarget(Begin(s, applied), calls);
      }
      if cluster.server.Some? {
        var snapshot := cluster.server.value;
        if snapshot.deleting {
          var _ := ReleaseAuthDelegator(snapshot, first, second, third);
        } else if applied {
          var _ := ApplyAuthDelegator(snapshot, first, second, third);
        }
      }
    }
  }

  /** The calls of a reconcile. */
  function ReconcileCalls(cluster: Cluster, applied: bool, first: Outcome, second: Outcome, third: Outcome): seq<Outcome> {
    match cluster.server
    case None => []
    case Some(server) =>
      if server.deleting then ReleaseCalls(cluster, first, second, third)
      else if !applied then []
      else if server.wants then [first, second]
      else ReleaseCalls(cluster, first, second, third)
  }

  /** A release succeeds when every call it has to make is answered. */
  predicate ReleaseSucceeds(cluster: Cluster, snapshot: Server, get: Outcome, delete: Outcome, drop: Outcome) {
    get == Done && (cluster.binding == Some(Managed) ==> delete == Done) && (snapshot.held ==> drop == Done)
  }

  /** The calls of a release: the delete is made only when the binding read is ours. */
  function ReleaseCalls(cluster: Cluster, get: Outcome, delete: Outcome, drop: Outcome): seq<Outcome> {
    if cluster.binding == Some(Managed) then [get, delete, drop] else [get, drop]
  }

  lemma {:induction false} CallsTwo(s: State, a: Outcome, b: Outcome)
    ensures Calls(s, [a, b]) == Call(Call(s, a), b)
  {
    assert [a, b][1..] == [b] && [b][1..] == [];
    assert Calls(Call(s, a), [b]) == Calls(Call(Call(s, a), b), []);
  }
}
