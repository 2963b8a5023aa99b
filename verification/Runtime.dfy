// A direct session's runtime: who may register a connection, what happens when
// the session leaves `running`, and what Stop and Shutdown know when they return.
module Runtime {
  datatype Status = Running | Stopping | Expired | Closed | RevokeFailed

  // What the runtime's mutex guards. Connections are registered under the
  // worker that serves them; `closed` holds every connection closed so far.
  datatype Core = Core(
    status: Status,
    auditFailed: bool,
    listening: bool,
    connections: map<nat, seq<nat>>,
    closed: set<nat>)

  function Registered(connections: map<nat, seq<nat>>): set<nat> {
    set w, i | w in connections && 0 <= i < |connections[w]| :: connections[w][i]
  }

  function Shut(core: Core): Core {
    core.(listening := false, closed := core.closed + Registered(core.connections))
  }

  function Append(connections: map<nat, seq<nat>>, w: nat, c: nat): map<nat, seq<nat>> {
    connections[w := (if w in connections then connections[w] else []) + [c]]
  }

  function AfterAdd(core: Core, w: nat, c: nat): Core {
    if core.status.Running? then core.(connections := Append(core.connections, w, c)) else core
  }

  function AfterExpiry(core: Core): Core {
    Shut(if core.status.Running? then core.(status := Expired) else core)
  }

  function AfterAuditFailure(core: Core): Core {
    if core.auditFailed then core else Shut(core.(auditFailed := true, status := Stopping))
  }

  function AfterStop(core: Core): Core {
    Shut(if core.status.Expired? then core else core.(status := Stopping))
  }

  // ---- the machine ----

  // A call of Stop, between its critical sections.
  datatype Stop =
    | Waiting(wasExpired: bool)     // for the accept loop to return
    | Draining(wasExpired: bool)    // for the connection workers
    | Removing(wasExpired: bool)    // the exposure
    | Removed(wasExpired: bool)

  // A call of Shutdown, which leaves the status alone. `away` says whether the
  // session was away from `running` when the last worker was gone.
  datatype Shutdown =
    | ForServe
    | ForWorkers
    | Seen(away: bool)

  datatype State = State(
    core: Core,
    serveDone: bool,
    workers: set<nat>,          // counted by the wait group
    stops: map<nat, Stop>,
    returned: set<Status>,      // what finished calls of Stop reported
    shutdowns: map<nat, Shutdown>,
    shut: set<bool>)            // what finished calls of Shutdown had seen

  datatype Step =
    | Accept(w: nat)
    | ServeReturns
    | OpenWeb(w: nat, c: nat)
    | AddConnection(w: nat, c: nat)
    | CloseConnection(c: nat)
    | RemoveConnection(w: nat)
    | WorkerDone(w: nat)
    | Expire
    | AuditFailure
    | BeginShutdown(n: nat)
    | ShutdownSeesServe(n: nat)
    | ShutdownSeesWorkers(n: nat)
    | FinishShutdown(n: nat)
    | AbandonShutdown(n: nat)
    | BeginStop(n: nat)
    | SeeServeDone(n: nat)
    | SeeWorkersDone(n: nat)
    | RemoveExposure(n: nat, ok: bool)
    | FinishStop(n: nat)
    | GiveUp(n: nat)

  function Init(): State {
    State(Core(Running, false, true, map[], {}), false, {}, map[], {}, map[], {})
  }

  function Apply(s: State, step: Step): State {
    match step
    case Accept(w) => if s.serveDone || w in s.workers then s else s.(workers := s.workers + {w})
    case ServeReturns => s.(serveDone := true)
    case OpenWeb(w, c) =>
      if w in s.workers || !s.core.status.Running? then s
      else s.(workers := s.workers + {w}, core := AfterAdd(s.core, w, c))
    case AddConnection(w, c) => if w in s.workers then s.(core := AfterAdd(s.core, w, c)) else s
    case CloseConnection(c) => s.(core := s.core.(closed := s.core.closed + {c}))
    case RemoveConnection(w) => s.(core := s.core.(connections := s.core.connections - {w}))
    case WorkerDone(w) => if w in s.core.connections then s else s.(workers := s.workers - {w})
    case Expire => s.(core := AfterExpiry(s.core))
    case AuditFailure => s.(core := AfterAuditFailure(s.core))
    case BeginShutdown(n) =>
      if n in s.shutdowns then s else s.(core := Shut(s.core), shutdowns := s.shutdowns[n := ForServe])
    case ShutdownSeesServe(n) =>
      if n in s.shutdowns && s.shutdowns[n].ForServe? && s.serveDone
        then s.(shutdowns := s.shutdowns[n := ForWorkers]) else s
    case ShutdownSeesWorkers(n) =>
      if n in s.shutdowns && s.shutdowns[n].ForWorkers? && s.workers == {}
        then s.(shutdowns := s.shutdowns[n := Seen(!s.core.status.Running?)]) else s
    case FinishShutdown(n) =>
      if n in s.shutdowns && s.shutdowns[n].Seen?
        then s.(shutdowns := s.shutdowns - {n}, shut := s.shut + {s.shutdowns[n].away}) else s
    case AbandonShutdown(n) => s.(shutdowns := s.shutdowns - {n})
    case BeginStop(n) =>
      if n in s.stops then s
      else s.(core := AfterStop(s.core), stops := s.stops[n := Waiting(s.core.status.Expired?)])
    case SeeServeDone(n) =>
      if n in s.stops && s.stops[n].Waiting? && s.serveDone
        then s.(stops := s.stops[n := Draining(s.stops[n].wasExpired)]) else s
    case SeeWorkersDone(n) =>
      if n in s.stops && s.stops[n].Draining? && s.workers == {}
        then s.(stops := s.stops[n := Removing(s.stops[n].wasExpired)]) else s
    case RemoveExposure(n, ok) =>
      if !(n in s.stops && s.stops[n].Removing?) then s
      else if ok then s.(stops := s.stops[n := Removed(s.stops[n].wasExpired)])
      else s.(core := s.core.(status := RevokeFailed), stops := s.stops - {n})
    case FinishStop(n) =>
      if n in s.stops && s.stops[n].Removed? then
        var status := if s.stops[n].wasExpired then Expired else Closed;
        s.(core := s.core.(status := status), stops := s.stops - {n}, returned := s.returned + {status})
      else s
    case GiveUp(n) => s.(stops := s.stops - {n})
  }

  function Run(steps: seq<Step>): State {
    if steps == [] then Init() else Apply(Run(steps[..|steps| - 1]), steps[|steps| - 1])
  }

  // ---- draining ----

  ghost predicate AllClosed(core: Core) {
    forall w, i | w in core.connections && 0 <= i < |core.connections[w]| :: core.connections[w][i] in core.closed
  }

  ghost predicate Drained(s: State) {
    s.serveDone && s.workers == {}
  }

  ghost predicate StopOk(s: State, stop: Stop) {
    && !s.core.status.Running?
    && (stop.Draining? ==> s.serveDone)
    && (stop.Removing? || stop.Removed? ==> Drained(s))
  }

  ghost predicate ShutdownOk(s: State, call: Shutdown) {
    && (!call.ForServe? ==> s.serveDone)
    && (call == Seen(true) ==> !s.core.status.Running? && Drained(s))
  }

  ghost predicate RuntimeInv(s: State) {
    && s.core.connections.Keys <= s.workers
    && (!s.core.status.Running? ==> AllClosed(s.core))
    && (forall n | n in s.stops :: StopOk(s, s.stops[n]))
    && (s.returned != {} ==> !s.core.status.Running? && Drained(s))
    && (forall n | n in s.shutdowns :: ShutdownOk(s, s.shutdowns[n]))
    && (s.shut != {} ==> s.serveDone)
    && (true in s.shut ==> !s.core.status.Running? && Drained(s))
  }

  // Nothing is registered that was not registered before.
  ghost predicate NoneAdded(before: Core, after: Core) {
    forall w | w in after.connections :: w in before.connections && after.connections[w] == before.connections[w]
  }

  lemma StepKeepsStatus(s: State, step: Step)
    requires !s.core.status.Running?
    ensures !Apply(s, step).core.status.Running? && NoneAdded(s.core, Apply(s, step).core)
    ensures s.serveDone ==> Apply(s, step).serveDone && Apply(s, step).workers <= s.workers
    ensures s.core.closed <= Apply(s, step).core.closed
  {}

  lemma ConnectionStepKeepsInv(s: State, step: Step)
    requires RuntimeInv(s)
    requires step.Accept? || step.ServeReturns? || step.OpenWeb? || step.AddConnection? || step.CloseConnection?
      || step.RemoveConnection? || step.WorkerDone?
    ensures RuntimeInv(Apply(s, step))
  {
    var s' := Apply(s, step);
    forall n | n in s'.stops ensures StopOk(s', s'.stops[n]) { assert StopOk(s, s.stops[n]); }
    forall n | n in s'.shutdowns ensures ShutdownOk(s', s'.shutdowns[n]) { assert ShutdownOk(s, s.shutdowns[n]); }
  }

  lemma ShutClosesAll(core: Core)
    ensures AllClosed(Shut(core)) && Shut(core).connections == core.connections && Shut(core).status == core.status
  {
    forall w, i | w in core.connections && 0 <= i < |core.connections[w]|
      ensures core.connections[w][i] in Shut(core).closed {
      assert core.connections[w][i] in Registered(core.connections);
    }
  }

  lemma ClosingStepKeepsInv(s: State, step: Step)
    requires RuntimeInv(s) && (step.Expire? || step.AuditFailure? || step.BeginShutdown? || step.BeginStop?)
    ensures RuntimeInv(Apply(s, step))
  {
    ShutClosesAll(s.core);
    var s' := Apply(s, step);
    assert s'.core == s.core || s'.core.closed == Shut(s.core).closed;
    forall n | n in s'.stops ensures StopOk(s', s'.stops[n]) {
      if n in s.stops { assert StopOk(s, s.stops[n]); }
    }
    forall n | n in s'.shutdowns ensures ShutdownOk(s', s'.shutdowns[n]) {
      if n in s.shutdowns { assert ShutdownOk(s, s.shutdowns[n]); }
    }
  }

  lemma StopStepKeepsInv(s: State, step: Step)
    requires RuntimeInv(s) && (step.SeeServeDone? || step.SeeWorkersDone? || step.RemoveExposure? || step.FinishStop?
      || step.GiveUp?)
    ensures RuntimeInv(Apply(s, step))
  {
    var s' := Apply(s, step);
    if step.n in s.stops { assert StopOk(s, s.stops[step.n]); }
    forall n | n in s'.stops ensures StopOk(s', s'.stops[n]) { assert StopOk(s, s.stops[n]); }
    forall n | n in s'.shutdowns ensures ShutdownOk(s', s'.shutdowns[n]) { assert ShutdownOk(s, s.shutdowns[n]); }
  }

  lemma ShutdownStepKeepsInv(s: State, step: Step)
    requires RuntimeInv(s)
    requires step.ShutdownSeesServe? || step.ShutdownSeesWorkers? || step.FinishShutdown? || step.AbandonShutdown?
    ensures RuntimeInv(Apply(s, step))
  {
    var s' := Apply(s, step);
    if step.n in s.shutdowns { assert ShutdownOk(s, s.shutdowns[step.n]); }
    forall n | n in s'.stops ensures StopOk(s', s'.stops[n]) { assert StopOk(s, s.stops[n]); }
    forall n | n in s'.shutdowns ensures ShutdownOk(s', s'.shutdowns[n]) { assert ShutdownOk(s, s.shutdowns[n]); }
  }

  // Over any interleaving: away from `running` every registered connection is
  // closed; once a call of Stop has returned closed or expired, no connection
  // worker is active and nothing is registered.
  lemma {:induction false} StopMeansDrained(steps: seq<Step>)
    ensures RuntimeInv(Run(steps))
    ensures !Run(steps).core.status.Running? ==> AllClosed(Run(steps).core)
    ensures Run(steps).returned != {} ==> Drained(Run(steps)) && Run(steps).core.connections == map[]
    decreases |steps|
  {
    if steps != [] {
      var s, step := Run(steps[..|steps| - 1]), steps[|steps| - 1];
      StopMeansDrained(steps[..|steps| - 1]);
      match step {
        case Expire => ClosingStepKeepsInv(s, step);
        case AuditFailure => ClosingStepKeepsInv(s, step);
        case BeginShutdown(_) => ClosingStepKeepsInv(s, step);
        case BeginStop(_) => ClosingStepKeepsInv(s, step);
        case ShutdownSeesServe(_) => ShutdownStepKeepsInv(s, step);
        case ShutdownSeesWorkers(_) => ShutdownStepKeepsInv(s, step);
        case FinishShutdown(_) => ShutdownStepKeepsInv(s, step);
        case AbandonShutdown(_) => ShutdownStepKeepsInv(s, step);
        case SeeServeDone(_) => StopStepKeepsInv(s, step);
        case SeeWorkersDone(_) => StopStepKeepsInv(s, step);
        case RemoveExposure(_, _) => StopStepKeepsInv(s, step);
        case FinishStop(_) => StopStepKeepsInv(s, step);
        case GiveUp(_) => StopStepKeepsInv(s, step);
        case _ => ConnectionStepKeepsInv(s, step);
      }
    }
    assert Run(steps).workers == {} ==> Run(steps).core.connections.Keys == {};
  }

  // A runtime that has left `running` never returns, and registers nothing
  // more, whatever comes next.
  lemma {:induction false} LeavingRunningIsFinal(steps: seq<Step>, k: nat)
    requires k <= |steps| && !Run(steps[..k]).core.status.Running?
    ensures !Run(steps).core.status.Running? && NoneAdded(Run(steps[..k]).core, Run(steps).core)
    ensures AllClosed(Run(steps).core)
    decreases |steps|
  {
    if k == |steps| {
      assert steps[..k] == steps;
    } else {
      var front := steps[..|steps| - 1];
      assert front[..k] == steps[..k];
      LeavingRunningIsFinal(front, k);
      StepKeepsStatus(Run(front), steps[|steps| - 1]);
    }
    StopMeansDrained(steps);
  }

  // After a call of Stop has returned, no worker starts, whatever comes next.
  lemma {:induction false} NoWorkerStartsAfterStop(steps: seq<Step>, k: nat)
    requires k <= |steps| && Run(steps[..k]).returned != {}
    ensures Run(steps).returned != {} && Run(steps).workers == {} && Run(steps).core.connections == map[]
    decreases |steps|
  {
    if k == |steps| {
      assert steps[..k] == steps;
    } else {
      assert steps[..|steps| - 1][..k] == steps[..k];
      NoWorkerStartsAfterStop(steps[..|steps| - 1], k);
      assert Run(steps[..|steps| - 1]).returned <= Run(steps).returned;
    }
    StopMeansDrained(steps);
  }

  // ---- what a returned Stop reports ----

  predicate HasExpired(s: State) {
    || s.core.status.Expired? || Expired in s.returned
    || exists n | n in s.stops :: s.stops[n].wasExpired
  }

  // A session is expired, or reported so, only if its timer has fired.
  lemma {:induction false} ExpiryIsTheTimers(steps: seq<Step>)
    ensures HasExpired(Run(steps)) ==> Expire in steps
    decreases |steps|
  {
    if steps != [] {
      var front, last := steps[..|steps| - 1], steps[|steps| - 1];
      assert steps == front + [last];
      ExpiryIsTheTimers(front);
      ExpiryKept(Run(front), last);
    }
  }

  lemma ExpiryKept(s: State, step: Step)
    ensures HasExpired(Apply(s, step)) ==> HasExpired(s) || step.Expire?
  {
    var s' := Apply(s, step);
    if n :| n in s'.stops && s'.stops[n].wasExpired {
      assert n in s.stops ==> s'.stops[n].wasExpired == s.stops[n].wasExpired;
    }
  }

  // Its revocation has failed only if an exposure could not be removed.
  lemma {:induction false} RevocationFailsByTheExposure(steps: seq<Step>)
    ensures Run(steps).core.status.RevokeFailed? ==> exists n :: RemoveExposure(n, false) in steps
    decreases |steps|
  {
    if steps != [] {
      var front, last := steps[..|steps| - 1], steps[|steps| - 1];
      RevocationFailsByTheExposure(front);
      if Run(front).core.status.RevokeFailed? {
        var n :| RemoveExposure(n, false) in front;
        assert RemoveExposure(n, false) in steps;
      } else if Run(steps).core.status.RevokeFailed? {
        FailureKept(Run(front), last);
        assert RemoveExposure(last.n, false) in steps;
      }
    }
  }

  lemma FailureKept(s: State, step: Step)
    requires Apply(s, step).core.status.RevokeFailed? && !s.core.status.RevokeFailed?
    ensures step.RemoveExposure? && !step.ok
  {}

  // ---- what a returned Shutdown means ----

  // No worker starts once the accept loop is gone and the session has left
  // `running`.
  lemma {:induction false} DrainedStaysDrained(steps: seq<Step>, more: seq<Step>)
    requires !Run(steps).core.status.Running? && Drained(Run(steps))
    ensures !Run(steps + more).core.status.Running? && Drained(Run(steps + more))
    decreases |more|
  {
    if more == [] {
      assert steps + more == steps;
    } else {
      var front, last := more[..|more| - 1], more[|more| - 1];
      assert (steps + more)[..|steps + more| - 1] == steps + front;
      DrainedStaysDrained(steps, front);
      StepKeepsStatus(Run(steps + front), last);
    }
  }

  // Over any interleaving: a Shutdown that returned, having seen the last worker
  // go when the session was away from `running`, leaves the runtime drained.
  lemma ShutdownMeansDrained(steps: seq<Step>)
    requires true in Run(steps).shut
    ensures Drained(Run(steps)) && Run(steps).core.connections == map[] && AllClosed(Run(steps).core)
  {
    StopMeansDrained(steps);
    assert Run(steps).core.connections.Keys == {};
  }

  // Where a call of Shutdown stops waiting for workers, none starts later,
  // whatever comes next, if and only if the session has left `running`: a
  // session that still runs accepts a web terminal.
  lemma ShutdownIsFinalExactlyAwayFromRunning(steps: seq<Step>, n: nat)
    requires n in Run(steps).shutdowns && Run(steps).shutdowns[n].ForWorkers? && Run(steps).workers == {}
    ensures (forall more :: Run(steps + more).workers == {}) <==> !Run(steps).core.status.Running?
  {
    StopMeansDrained(steps);
    var s := Run(steps);
    assert ShutdownOk(s, s.shutdowns[n]);
    if s.core.status.Running? {
      var open := [OpenWeb(0, 0)];
      assert (steps + open)[..|steps|] == steps;
      assert 0 in Run(steps + open).workers;
    } else {
      forall more ensures Run(steps + more).workers == {} { DrainedStaysDrained(steps, more); }
    }
  }

  // The run: the session never leaves `running`, Shutdown returns, and a web
  // terminal is opened afterwards.
  lemma TerminalOpensAfterShutdown(w: nat, c: nat)
    ensures exists steps ::
      && Run(steps).shut != {} && Run(steps).workers == {w}
      && Run(steps).core.connections == map[w := [c]] && c !in Run(steps).core.closed
  {
    var steps, s := ShutdownReturns();
    var next := OneMore(steps, OpenWeb(w, c));
    assert [] + [c] == [c];
  }

  lemma ShutdownReturns() returns (steps: seq<Step>, s: State)
    ensures Run(steps) == s && s.core.status.Running? && s.core.connections == map[] && s.core.closed == {}
    ensures s.shut != {} && s.workers == {}
  {
    steps, s := ShutdownWaits();
    steps := OneMore(steps, ShutdownSeesServe(0));
    s := s.(shutdowns := map[0 := ForWorkers]);
    steps := OneMore(steps, ShutdownSeesWorkers(0));
    s := s.(shutdowns := map[0 := Seen(false)]);
    steps := OneMore(steps, FinishShutdown(0));
    s := Apply(s, FinishShutdown(0));
  }

  lemma ShutdownWaits() returns (steps: seq<Step>, s: State)
    ensures Run(steps) == s && s.core.status.Running? && s.core.connections == map[] && s.core.closed == {}
    ensures s.serveDone && s.workers == {} && s.shutdowns == map[0 := ForServe]
  {
    assert Registered(map[]) == {};
    steps := OneMore([], BeginShutdown(0));
    steps := OneMore(steps, ServeReturns);
    s := Run(steps);
  }

  lemma OneMore(steps: seq<Step>, step: Step) returns (more: seq<Step>)
    ensures Run(more) == Apply(Run(steps), step)
  {
    more := steps + [step];
    assert more[..|steps|] == steps;
  }
}
