/**
 The status a reconcile writes, and what it becomes over any sequence of reconciles: transition
 times that mark the start of the current run of an unchanged condition, and a fixpoint that lets
 the controller's watch on its own object come to rest.
 */
module Status {
  import opened Prelude

  type Time = int

  /** Condition types; other actors may add their own. */
  datatype Kind = Ready | NetworkPolicyReady | Foreign(name: string)

  datatype Truth = True | False | Unknown

  datatype Condition = Condition(
    kind: Kind, status: Truth, reason: string, message: string, observedGeneration: Option<int>, since: Time)

  datatype ServerStatus = ServerStatus(
    observedGeneration: Option<int>, conditions: seq<Condition>, endpoint: Option<string>)

  datatype NetworkPolicyOutcome = Applied | NotOwned

  datatype ApplyError = ApplyError(reason: string, message: string)

  type ApplyResult = Result<NetworkPolicyOutcome, ApplyError>

  /** The parts of the object a status depends on: `endpoint` is what clients of the current spec connect to. */
  datatype Server = Server(name: string, generation: Option<int>, endpoint: string, status: Option<ServerStatus>)

  /** What a condition says, apart from when. */
  datatype Report = Report(status: Truth, reason: string, message: string)

  function FindCondition(conditions: seq<Condition>, kind: Kind): Option<Condition> {
    if conditions == [] then None
    else if conditions[0].kind == kind then Some(conditions[0])
    else FindCondition(conditions[1..], kind)
  }

  function Previous(status: Option<ServerStatus>, kind: Kind): Option<Condition> {
    if status.None? then None else FindCondition(status.value.conditions, kind)
  }

  predicate Says(c: Condition, report: Report) {
    c.status == report.status && c.reason == report.reason && c.message == report.message
  }

  function MakeCondition(server: Server, kind: Kind, report: Report, now: Time): Condition {
    var previous := Previous(server.status, kind);
    var since := if previous.Some? && Says(previous.value, report) then previous.value.since else now;
    Condition(kind, report.status, report.reason, report.message, server.generation, since)
  }

  function ReadyReport(result: ApplyResult): Report {
    match result
    case Ok(_) => Report(True, "Applied", "resources applied")
    case Err(e) => Report(False, e.reason, e.message)
  }

  function NetworkPolicyReport(name: string, outcome: NetworkPolicyOutcome): Report {
    match outcome
    case Applied => Report(True, "Applied", "NetworkPolicy " + name + " applied")
    case NotOwned =>
      Report(False, "NotOwned", "NetworkPolicy " + name + " is not controlled by this ModelExpressServer; left in place")
  }

  /** The clock is read once for each condition. */
  function StatusFor(server: Server, result: ApplyResult, clock: Kind -> Time): ServerStatus {
    var ready := MakeCondition(server, Ready, ReadyReport(result), clock(Ready));
    match result
    case Ok(outcome) =>
      var policy := MakeCondition(server, NetworkPolicyReady, NetworkPolicyReport(server.name, outcome), clock(NetworkPolicyReady));
      ServerStatus(server.generation, [ready, policy], Some(server.endpoint))
    case Err(_) =>
      ServerStatus(if server.status.Some? then server.status.value.observedGeneration else None, [ready], None)
  }

  // ----- Runs

  /** One reconcile: the spec it saw, how the apply went, its clock, and whether the status write arrived. */
  datatype Reconcile = Reconcile(
    generation: Option<int>, endpoint: string, result: ApplyResult, clock: Kind -> Time, written: bool)

  function After(name: string, status: Option<ServerStatus>, r: Reconcile): Option<ServerStatus> {
    if r.written then Some(StatusFor(Server(name, r.generation, r.endpoint, status), r.result, r.clock)) else status
  }

  function Run(name: string, initial: Option<ServerStatus>, rs: seq<Reconcile>): Option<ServerStatus> {
    if rs == [] then initial else After(name, Run(name, initial, rs[..|rs| - 1]), rs[|rs| - 1])
  }

  /** What a reconcile reports for a condition, if anything: an error says nothing of the network policy. */
  function Reported(name: string, r: Reconcile, kind: Kind): Option<Report> {
    if kind == Ready then Some(ReadyReport(r.result))
    else if kind == NetworkPolicyReady && r.result.Ok? then Some(NetworkPolicyReport(name, r.result.value))
    else None
  }

  ghost predicate AllWritten(rs: seq<Reconcile>) {
    forall i | 0 <= i < |rs| :: rs[i].written
  }

  /** A reconcile as one condition sees it. */
  datatype Sample = Sample(report: Option<Report>, generation: Option<int>, now: Time)

  function Samples(name: string, rs: seq<Reconcile>, kind: Kind): seq<Sample> {
    seq(|rs|, i requires 0 <= i < |rs| => Sample(Reported(name, rs[i], kind), rs[i].generation, rs[i].clock(kind)))
  }

  /** Where the current unbroken run of equal reports began. */
  function RunStart(samples: seq<Sample>): (start: nat)
    requires samples != []
    ensures start < |samples|
    ensures forall j | start <= j < |samples| :: samples[j].report == samples[|samples| - 1].report
    ensures start > 0 ==> samples[start - 1].report != samples[|samples| - 1].report
  {
    var n := |samples| - 1;
    if n == 0 || samples[n - 1].report != samples[n].report then n else RunStart(samples[..n])
  }

  /** A write that did not arrive changes nothing, so only the written reconciles count. */
  function Written(rs: seq<Reconcile>): (ws: seq<Reconcile>) {
    if rs == [] then []
    else Written(rs[..|rs| - 1]) + if rs[|rs| - 1].written then [rs[|rs| - 1]] else []
  }

  lemma {:induction false} OnlyWrittenCount(name: string, initial: Option<ServerStatus>, rs: seq<Reconcile>)
    ensures Run(name, initial, rs) == Run(name, initial, Written(rs)) && AllWritten(Written(rs))
  {
    if rs != [] {
      var n := |rs| - 1;
      OnlyWrittenCount(name, initial, rs[..n]);
      var before := Written(rs[..n]);
      if rs[n].written {
        assert (before + [rs[n]])[..|before|] == before;
      } else {
        assert Written(rs) == before;
      }
    }
  }

  /** The conditions of a written status are those its reconcile reports. */
  lemma {:induction false} WrittenConditions(server: Server, r: Reconcile, kind: Kind)
    requires server.generation == r.generation && server.endpoint == r.endpoint
    ensures var written := StatusFor(server, r.result, r.clock);
            var c := FindCondition(written.conditions, kind);
            match Reported(server.name, r, kind)
            case None => c == None
            case Some(report) => c == Some(MakeCondition(server, kind, report, r.clock(kind)))
  {
    var conditions := StatusFor(server, r.result, r.clock).conditions;
    if r.result.Ok? {
      assert conditions[1..] == [conditions[1]] && conditions[1..][1..] == [];
      assert FindCondition(conditions[1..][1..], kind) == None;
      assert FindCondition(conditions[1..], kind) == if kind == NetworkPolicyReady then Some(conditions[1]) else None;
    } else {
      assert conditions[1..] == [];
      assert FindCondition(conditions[1..], kind) == None;
    }
  }

  /** The time a condition carries after a run: the first reconcile of the current unbroken run of equal reports, unless that run goes back to the initial status. */
  function RunTime(before: Option<Condition>, samples: seq<Sample>): Time
    requires samples != []
  {
    var start, last := RunStart(samples), samples[|samples| - 1];
    if start == 0 && before.Some? && last.report.Some? && Says(before.value, last.report.value) then before.value.since
    else samples[start].now
  }

  /** The condition that a run must leave. */
  function RunCondition(before: Option<Condition>, samples: seq<Sample>, kind: Kind): Option<Condition>
    requires samples != []
  {
    var last := samples[|samples| - 1];
    match last.report
    case None => None
    case Some(report) =>
      Some(Condition(kind, report.status, report.reason, report.message, last.generation, RunTime(before, samples)))
  }

  /** What one written reconcile makes of the condition before it. */
  function NextCondition(before: Option<Condition>, sample: Sample, kind: Kind): Option<Condition> {
    match sample.report
    case None => None
    case Some(report) =>
      var since := if before.Some? && Says(before.value, report) then before.value.since else sample.now;
      Some(Condition(kind, report.status, report.reason, report.message, sample.generation, since))
  }

  lemma {:induction false} WriteMakesNext(name: string, status: Option<ServerStatus>, r: Reconcile, kind: Kind)
    requires r.written
    ensures Previous(After(name, status, r), kind)
            == NextCondition(Previous(status, kind), Sample(Reported(name, r, kind), r.generation, r.clock(kind)), kind)
  {
    WrittenConditions(Server(name, r.generation, r.endpoint, status), r, kind);
  }

  lemma {:induction false} RunExtends(before: Option<Condition>, samples: seq<Sample>, kind: Kind)
    requires |samples| > 1
    ensures var n := |samples| - 1;
            RunCondition(before, samples, kind) == NextCondition(RunCondition(before, samples[..n], kind), samples[n], kind)
  {
  }

  /** Over any sequence of written reconciles, a condition is what the last one reports, since the start of its run. */
  lemma {:induction false} TransitionTimeIsRunStart(name: string, initial: Option<ServerStatus>, rs: seq<Reconcile>, kind: Kind)
    requires rs != [] && AllWritten(rs)
    ensures Previous(Run(name, initial, rs), kind) == RunCondition(Previous(initial, kind), Samples(name, rs, kind), kind)
  {
    var n, samples := |rs| - 1, Samples(name, rs, kind);
    WriteMakesNext(name, Run(name, initial, rs[..n]), rs[n], kind);
    if n > 0 {
      TransitionTimeIsRunStart(name, initial, rs[..n], kind);
      assert samples[..n] == Samples(name, rs[..n], kind);
      RunExtends(Previous(initial, kind), samples, kind);
    } else {
      assert rs[..n] == [] && RunStart(samples) == 0;
    }
  }

  /** The same for all runs, with writes that may be lost. */
  lemma {:induction false} TransitionTimes(name: string, initial: Option<ServerStatus>, rs: seq<Reconcile>, kind: Kind)
    ensures Previous(Run(name, initial, rs), kind)
            == if Written(rs) == [] then Previous(initial, kind)
               else RunCondition(Previous(initial, kind), Samples(name, Written(rs), kind), kind)
  {
    OnlyWrittenCount(name, initial, rs);
    if Written(rs) != [] {
      TransitionTimeIsRunStart(name, initial, Written(rs), kind);
    }
  }

  /** The generation of the last reconcile that was applied and written. */
  function LastApplied(initial: Option<ServerStatus>, rs: seq<Reconcile>): Option<int> {
    if rs == [] then if initial.Some? then initial.value.observedGeneration else None
    else if rs[|rs| - 1].written && rs[|rs| - 1].result.Ok? then rs[|rs| - 1].generation
    else LastApplied(initial, rs[..|rs| - 1])
  }

  /** The observed generation is that of the last applied spec, never of one that failed. */
  lemma {:induction false} ObservedGenerationIsLastApplied(name: string, initial: Option<ServerStatus>, rs: seq<Reconcile>)
    ensures var end := Run(name, initial, rs);
            (if end.Some? then end.value.observedGeneration else None) == LastApplied(initial, rs)
  {
    if rs != [] {
      ObservedGenerationIsLastApplied(name, initial, rs[..|rs| - 1]);
    }
  }

  /** Where several conditions of a kind stand in a status, the first one counts. */
  lemma {:induction false} FirstOfKindCounts(conditions: seq<Condition>, kind: Kind)
    ensures FindCondition(conditions, kind) == None <==> forall i | 0 <= i < |conditions| :: conditions[i].kind != kind
    ensures forall i | 0 <= i < |conditions| ::
              conditions[i].kind == kind && (forall j | 0 <= j < i :: conditions[j].kind != kind) ==>
                FindCondition(conditions, kind) == Some(conditions[i])
  {
    if conditions != [] {
      var rest := conditions[1..];
      FirstOfKindCounts(rest, kind);
      assert forall i | 0 < i < |conditions| :: conditions[i] == rest[i - 1];
      forall i | 0 <= i < |conditions| && conditions[i].kind == kind && (forall j | 0 <= j < i :: conditions[j].kind != kind)
        ensures FindCondition(conditions, kind) == Some(conditions[i])
      {
        if i > 0 {
          assert forall j | 0 <= j < i - 1 :: rest[j] == conditions[j + 1];
          assert conditions[0].kind != kind && rest[i - 1].kind == kind;
        }
      }
    }
  }

  // ----- What a written status says

  /** Ready says whether the apply went through, and on failure why. */
  lemma {:induction false} ReadySaysWhetherApplied(server: Server, result: ApplyResult, clock: Kind -> Time)
    ensures var c := FindCondition(StatusFor(server, result, clock).conditions, Ready);
            && c.Some? && c.value.kind == Ready && c.value.observedGeneration == server.generation
            && (c.value.status == True <==> result.Ok?) && (c.value.status == False <==> result.Err?)
            && (result.Ok? ==> c.value.reason == "Applied" && c.value.message == "resources applied")
            && (result.Err? ==> c.value.reason == result.error.reason && c.value.message == result.error.message)
  {
  }

  /** NetworkPolicyReady is there exactly when the apply went through, and says whether the policy is the operator's own. */
  lemma {:induction false} NetworkPolicySaysWhoseItIs(server: Server, result: ApplyResult, clock: Kind -> Time)
    ensures var c := FindCondition(StatusFor(server, result, clock).conditions, NetworkPolicyReady);
            && (c.Some? <==> result.Ok?)
            && (c.Some? ==> c.value.kind == NetworkPolicyReady && c.value.observedGeneration == server.generation)
            && (c.Some? ==> (c.value.status == True <==> result == Ok(Applied)) && (c.value.status == False <==> result == Ok(NotOwned)))
            && (result == Ok(Applied) ==>
                  c.value.reason == "Applied" && c.value.message == "NetworkPolicy " + server.name + " applied")
            && (result == Ok(NotOwned) ==>
                  && c.value.reason == "NotOwned"
                  && c.value.message == "NetworkPolicy " + server.name + " is not controlled by this ModelExpressServer; left in place")
  {
    hide Previous, Says;
    var conditions := StatusFor(server, result, clock).conditions;
    if result.Ok? {
      assert conditions[1..] == [conditions[1]] && FindCondition(conditions[1..], NetworkPolicyReady) == Some(conditions[1]);
    } else {
      assert conditions[1..] == [] && FindCondition(conditions[1..], NetworkPolicyReady) == None;
    }
  }

  /** Clients are given an endpoint, and the generation moves on, exactly when the apply went through; there are no other conditions. */
  lemma {:induction false} EndpointOnlyIfApplied(server: Server, result: ApplyResult, clock: Kind -> Time)
    ensures var status := StatusFor(server, result, clock);
            && status.endpoint == (if result.Ok? then Some(server.endpoint) else None)
            && |status.conditions| == (if result.Ok? then 2 else 1)
            && (result.Ok? ==> status.observedGeneration == server.generation)
            && (result.Err? ==> status.observedGeneration == if server.status.Some? then server.status.value.observedGeneration else None)
  {
  }

  // ----- Coming to rest

  ghost predicate SameContent(name: string, first: Reconcile, second: Reconcile) {
    && first.generation == second.generation
    && Reported(name, first, Ready) == Reported(name, second, Ready)
    && Reported(name, first, NetworkPolicyReady) == Reported(name, second, NetworkPolicyReady)
    && (first.result.Ok? ==> first.endpoint == second.endpoint)
  }

  lemma {:induction false} SameContentRewrites(name: string, initial: Option<ServerStatus>, first: Reconcile, second: Reconcile)
    requires first.written && second.written && SameContent(name, first, second)
    ensures After(name, After(name, initial, first), second) == After(name, initial, first)
  {
    WrittenConditions(Server(name, first.generation, first.endpoint, initial), first, Ready);
    WrittenConditions(Server(name, first.generation, first.endpoint, initial), first, NetworkPolicyReady);
  }

  lemma {:induction false} RewriteHasSameContent(name: string, initial: Option<ServerStatus>, first: Reconcile, second: Reconcile)
    requires first.written && second.written
    requires After(name, After(name, initial, first), second) == After(name, initial, first)
    ensures SameContent(name, first, second)
  {
  }

  /** A write after an earlier one leaves the status exactly as it was, whatever the clock says, precisely when generation, reports and endpoint are the same. */
  lemma {:induction false} WriteIsNoOpIff(name: string, initial: Option<ServerStatus>, first: Reconcile, second: Reconcile)
    requires first.written && second.written
    ensures var stored := After(name, initial, first);
            After(name, stored, second) == stored <==> SameContent(name, first, second)
  {
    if SameContent(name, first, second) {
      SameContentRewrites(name, initial, first, second);
    }
    if After(name, After(name, initial, first), second) == After(name, initial, first) {
      RewriteHasSameContent(name, initial, first, second);
    }
  }

  /** Repeating an unchanged result at the same generation reproduces the status, any number of times. */
  lemma {:induction false} RepeatsComeToRest(name: string, initial: Option<ServerStatus>, rs: seq<Reconcile>)
    requires rs != [] && AllWritten(rs)
    requires forall i | 0 <= i < |rs| ::
               rs[i].generation == rs[0].generation && rs[i].endpoint == rs[0].endpoint && rs[i].result == rs[0].result
    ensures Run(name, initial, rs) == After(name, initial, rs[0])
  {
    var n := |rs| - 1;
    if n == 0 {
      assert rs[..n] == [];
    } else {
      RepeatsComeToRest(name, initial, rs[..n]);
      WriteIsNoOpIff(name, initial, rs[0], rs[n]);
    }
  }
}
