// Where the protection of live sessions ends: a start that is admitted while
// another operation on its session is still in flight can be continued, with no
// further start, to a state in which the live session is an orphan.
module LifecycleStale {
  import opened Text
  import opened Sessions
  import opened Persistence
  import opened Lifecycle

  // ---- continuations ----

  ghost function After(cfg: Config, s: State, more: seq<Step>): State
    decreases |more|
  {
    if more == [] then s else After(cfg, Apply(cfg, s, more[0]), more[1..])
  }

  predicate NoStart(more: seq<Step>) {
    forall i | 0 <= i < |more| :: !more[i].BeginStart?
  }

  // Some continuation without a further start orphans a live session.
  ghost predicate CanOrphan(cfg: Config, s: State) {
    exists more :: NoStart(more) && !Protected(After(cfg, s, more))
  }

  lemma OrphansNow(cfg: Config, s: State)
    requires !Protected(s)
    ensures CanOrphan(cfg, s)
  {
    assert NoStart([]) && After(cfg, s, []) == s;
  }

  lemma OrphansLater(cfg: Config, s: State, step: Step)
    requires !step.BeginStart? && CanOrphan(cfg, Apply(cfg, s, step))
    ensures CanOrphan(cfg, s)
  {
    var more :| NoStart(more) && !Protected(After(cfg, Apply(cfg, s, step), more));
    var all := [step] + more;
    assert all[1..] == more && After(cfg, s, all) == After(cfg, Apply(cfg, s, step), more);
    assert NoStart(all);
  }

  lemma {:induction false} RunAfter(cfg: Config, steps: seq<Step>, more: seq<Step>)
    ensures Run(cfg, steps + more) == After(cfg, Run(cfg, steps), more)
    decreases |more|
  {
    if more == [] {
      assert steps + more == steps;
    } else {
      var next := steps + [more[0]];
      assert next[..|steps|] == steps && next + more[1..] == steps + more;
      RunAfter(cfg, next, more[1..]);
    }
  }

  lemma {:induction false} NoStartIsGuarded(cfg: Config, steps: seq<Step>, more: seq<Step>)
    requires GuardedRun(cfg, steps) && NoStart(more)
    ensures GuardedRun(cfg, steps + more)
    decreases |more|
  {
    if more == [] {
      assert steps + more == steps;
    } else {
      var front := more[..|more| - 1];
      NoStartIsGuarded(cfg, steps, front);
      assert (steps + more)[..|steps + more| - 1] == steps + front;
    }
  }

  // ---- the race ----

  // A start called and not yet returned, and another operation on its session.
  ghost predicate Racing(s: State, op: nat, other: nat) {
    && s.phase.Serving? && op != other && op in s.ops && s.ops[op].CallingStart?
    && other in s.ops && OpId(s.ops[other]) == OpId(s.ops[op]) && OpId(s.ops[op]) in s.im.mem
  }

  predicate Closing(o: Op) {
    (o.FinishingStop? || o.Compensating?) && o.closed.Some?
  }

  predicate Retrying(o: Op) {
    (o.FinishingStop? || o.Compensating?) && o.closed.None?
  }

  function Finish(op: nat, o: Op): Step
    requires o.FinishingStop? || o.Compensating?
  {
    if o.FinishingStop? then FinishStop(op, Saved) else FinishCompensation(op, Saved)
  }

  // A confirmed close is written over a session that is live again.
  lemma ClosesLive(cfg: Config, s: State, other: nat)
    requires s.phase.Serving? && other in s.ops && Closing(s.ops[other]) && s.ops[other].id in s.live
    ensures CanOrphan(cfg, s)
  {
    var o := s.ops[other];
    var s' := Apply(cfg, s, Finish(other, o));
    assert !Active(s'.im.mem, o.id) && s'.live == s.live && s'.phase == s.phase;
    OrphansNow(cfg, s');
    OrphansLater(cfg, s, Finish(other, o));
  }

  // The start goes live before the confirmed close is written.
  lemma ClosingOrphans(cfg: Config, s: State, op: nat, other: nat)
    requires Racing(s, op, other) && Closing(s.ops[other])
    ensures CanOrphan(cfg, s)
  {
    var step := StartReturns(op, None, true);
    var s' := Apply(cfg, s, step);
    assert s'.phase == s.phase && s'.ops[other] == s.ops[other] && s.ops[other].id in s'.live;
    ClosesLive(cfg, s', other);
    OrphansLater(cfg, s, step);
  }

  // A stop or compensation in progress is confirmed before the start goes live.
  lemma CallingOrphans(cfg: Config, s: State, op: nat, other: nat)
    requires Racing(s, op, other) && (s.ops[other].CallingStop? || s.ops[other].CallingCompensation?)
    ensures CanOrphan(cfg, s)
  {
    var reply := Some(CloseResponse(OpId(s.ops[other]), Closed, None));
    var step := if s.ops[other].CallingStop? then StopReturns(other, reply, true)
                else CompensationReturns(other, reply, true);
    var s' := Apply(cfg, s, step);
    assert s'.phase == s.phase && s'.im == s.im && s'.ops == s.ops[other := s'.ops[other]];
    ClosingOrphans(cfg, s', op, other);
    OrphansLater(cfg, s, step);
  }

  // An unconfirmed one leaves revoke_failed over the starting record, and that
  // opens the session to another stop.
  lemma RetryingOrphans(cfg: Config, s: State, op: nat, other: nat)
    requires Racing(s, op, other) && Retrying(s.ops[other]) && cfg.isUuid(OpId(s.ops[op]))
    ensures CanOrphan(cfg, s)
  {
    var step := Finish(other, s.ops[other]);
    var s' := Apply(cfg, s, step);
    RetryingWrites(cfg, s, other);
    StopsAgain(cfg, s', op, other, OpId(s.ops[op]));
    OrphansLater(cfg, s, step);
  }

  lemma RetryingWrites(cfg: Config, s: State, other: nat)
    requires s.phase.Serving? && other in s.ops && Retrying(s.ops[other]) && s.ops[other].id in s.im.mem
    ensures var s' := Apply(cfg, s, Finish(other, s.ops[other]));
            && s'.phase == s.phase && s'.ops == s.ops - {other} && s.ops[other].id in s'.im.mem
            && s'.im.mem[s.ops[other].id].status == RevokeFailed
  {}

  lemma StopsAgain(cfg: Config, s: State, op: nat, other: nat, id: string)
    requires s.phase.Serving? && op in s.ops && s.ops[op].CallingStart? && OpId(s.ops[op]) == id && other !in s.ops
    requires cfg.isUuid(id) && id in s.im.mem && s.im.mem[id].status == RevokeFailed
    ensures CanOrphan(cfg, s)
  {
    var step := BeginStop(other, id, "requested", Saved);
    var s' := Apply(cfg, s, step);
    assert s'.phase == s.phase && id in s'.im.mem && s'.ops == s.ops[other := s'.ops[other]];
    assert s'.ops[other].CallingStop? && s'.ops[other].id == id;
    CallingOrphans(cfg, s', op, other);
    OrphansLater(cfg, s, step);
  }

  // ---- a Get ----

  // A response to the start that the manager accepts.
  function Reply(q: CreateRequest): CreateResponse {
    CreateResponse(q.connectionMode, "", q.sessionId, Running, "p", 1, 1, "direct", "r", None, None)
  }

  lemma ReplyIsAccepted(cfg: Config, q: CreateRequest, validatedAt: int, acceptedAt: int, now: int)
    requires ValidRequest(cfg, q, validatedAt) && acceptedAt <= now && !PastDeadline(q, now)
    ensures CheckedTimes(q, Reply(q), acceptedAt, now).Some?
  {
    assert ValidProcessId("p") && ValidExposure("direct", "r");
  }

  // Get writes its close over the session that is running again.
  lemma ReconcilesLive(cfg: Config, s: State, other: nat)
    requires s.phase.Serving? && Reconciles(s, other, s.now) && IsTerminal(s.ops[other].terminal)
    requires s.ops[other].id in s.live && s.ops[other].id in s.im.mem && s.im.mem[s.ops[other].id].status == Running
    ensures CanOrphan(cfg, s)
  {
    var step := Reconcile(other, s.now, Saved);
    var s' := Apply(cfg, s, step);
    assert !Active(s'.im.mem, s.ops[other].id) && s'.live == s.live && s'.phase == s.phase;
    OrphansNow(cfg, s');
    OrphansLater(cfg, s, step);
  }

  lemma ActivatesThenReconciles(cfg: Config, s: State, op: nat, other: nat)
    requires s.phase.Serving? && op != other && op in s.ops && s.ops[op].Activating?
    requires Reconciles(s, other, s.now) && IsTerminal(s.ops[other].terminal)
    requires s.ops[other].id == OpId(s.ops[op]) && OpId(s.ops[op]) in s.live
    requires OpId(s.ops[op]) in s.im.mem && s.im.mem[OpId(s.ops[op])].status == Starting
    requires CheckedTimes(s.ops[op].q, s.ops[op].response, s.ops[op].acceptedAt, s.ops[op].completedAt).Some?
    ensures CanOrphan(cfg, s)
  {
    var step := Activate(op, Saved);
    var s' := Apply(cfg, s, step);
    assert s'.phase == s.phase && s'.live == s.live && s'.ops == s.ops - {op};
    assert OpId(s.ops[op]) in s'.im.mem && s'.im.mem[OpId(s.ops[op])].status == Running;
    ReconcilesLive(cfg, s', other);
    OrphansLater(cfg, s, step);
  }

  lemma ReconcilingOrphans(cfg: Config, s: State, op: nat, other: nat)
    requires Racing(s, op, other) && Reconciles(s, other, s.now) && IsTerminal(s.ops[other].terminal)
    requires s.im.mem[OpId(s.ops[op])].status == Starting
    requires CheckedTimes(s.ops[op].q, Reply(s.ops[op].q), s.ops[op].acceptedAt, s.now).Some?
    ensures CanOrphan(cfg, s)
  {
    var step := StartReturns(op, Some(Reply(s.ops[op].q)), true);
    var s' := Apply(cfg, s, step);
    assert s'.phase == s.phase && s'.im == s.im && s'.ops == s.ops[op := s'.ops[op]];
    ActivatesThenReconciles(cfg, s', op, other);
    OrphansLater(cfg, s, step);
  }

  lemma StatusOrphans(cfg: Config, s: State, op: nat, other: nat)
    requires Racing(s, op, other) && s.ops[other].CallingStatus? && OpId(s.ops[op]) !in s.live
    requires s.im.mem[OpId(s.ops[op])].status == Starting
    requires CheckedTimes(s.ops[op].q, Reply(s.ops[op].q), s.ops[op].acceptedAt, s.now).Some?
    ensures CanOrphan(cfg, s)
  {
    var step := StatusReturns(other, Some(Closed));
    var s' := Apply(cfg, s, step);
    assert s' == s.(ops := s.ops[other := Reconciling(OpId(s.ops[op]), Closed, s.now)]);
    ReconcilingOrphans(cfg, s', op, other);
    OrphansLater(cfg, s, step);
  }

  // ---- the condition is exact ----

  // A start beside any operation but an idle Get.
  lemma RaceOrphans(cfg: Config, s: State, op: nat, other: nat)
    requires Racing(s, op, other) && !IsStart(s.ops[other]) && !Idle(s.ops[op].q, s.now, s.ops[other])
    requires s.ops[other].Reconciling? ==> IsTerminal(s.ops[other].terminal) && s.ops[other].since <= s.now
    requires OpId(s.ops[op]) !in s.live && s.im.mem[OpId(s.ops[op])].status == Starting
    requires ValidRequest(cfg, s.ops[op].q, s.ops[op].validatedAt) && s.ops[op].acceptedAt <= s.now
    ensures CanOrphan(cfg, s)
  {
    var o := s.ops[other];
    if o.CallingStatus? || o.Reconciling? {
      ReplyIsAccepted(cfg, s.ops[op].q, s.ops[op].validatedAt, s.ops[op].acceptedAt, s.now);
      if o.CallingStatus? { StatusOrphans(cfg, s, op, other); } else { ReconcilingOrphans(cfg, s, op, other); }
    } else if o.CallingStop? || o.CallingCompensation? {
      CallingOrphans(cfg, s, op, other);
    } else if Closing(o) {
      ClosingOrphans(cfg, s, op, other);
    } else {
      RetryingOrphans(cfg, s, op, other);
    }
  }

  // Every Get that learnt of an end holds a terminal status from the past.
  ghost predicate TerminalGets(s: State) {
    forall op | op in s.ops && s.ops[op].Reconciling? :: IsTerminal(s.ops[op].terminal) && s.ops[op].since <= s.now
  }

  lemma StepKeepsTerminalGets(cfg: Config, s: State, step: Step)
    requires TerminalGets(s)
    ensures TerminalGets(Apply(cfg, s, step))
  {
    if WriteOf(cfg, s, step).Some? {
      WritesHaveShape(cfg, s, step);
      OpsAfterWrite(s, step, WriteOf(cfg, s, step).value);
    } else if !step.Crash? && !step.Load? && !step.PrepareRetry? {
      OtherStepsAreCalm(cfg, s, step);
    }
  }

  lemma {:induction false} RunKeepsTerminalGets(cfg: Config, steps: seq<Step>)
    ensures TerminalGets(Run(cfg, steps))
    decreases |steps|
  {
    if steps != [] {
      RunKeepsTerminalGets(cfg, steps[..|steps| - 1]);
      StepKeepsTerminalGets(cfg, Run(cfg, steps[..|steps| - 1]), steps[|steps| - 1]);
    }
  }

  lemma AdmittedRaces(cfg: Config, s: State, step: Step, other: nat)
    requires LifecycleInv(s) && step.BeginStart? && step.save == Saved && WriteOf(cfg, s, step).Some?
    requires other in s.ops && OpId(s.ops[other]) == step.q.sessionId
    ensures var s', id := Apply(cfg, s, step), step.q.sessionId;
            && Racing(s', step.op, other) && !IsStart(s.ops[other]) && id !in s'.live
            && s'.ops == s.ops[step.op := CallingStart(step.q, step.validatedAt, step.acceptedAt)]
            && s'.now == s.now && s'.im.mem[id].status == Starting
  {}

  lemma UnguardedStartCanOrphan(cfg: Config, s: State, step: Step)
    requires LifecycleInv(s) && TerminalGets(s) && step.BeginStart? && !Guarded(cfg, s, step)
    ensures CanOrphan(cfg, Apply(cfg, s, step))
  {
    var other :| other in s.ops && OpId(s.ops[other]) == step.q.sessionId && !Idle(step.q, s.now, s.ops[other]);
    AdmittedRaces(cfg, s, step, other);
    RaceOrphans(cfg, Apply(cfg, s, step), step.op, other);
  }

  // After a guarded run a further start keeps every live session protected,
  // however the run goes on without another start, if and only if the start is
  // guarded.
  lemma StartIsSafeExactlyWhenGuarded(cfg: Config, steps: seq<Step>, step: Step)
    requires GuardedRun(cfg, steps) && step.BeginStart?
    ensures (forall more | NoStart(more) :: Protected(Run(cfg, steps + [step] + more)))
      <==> Guarded(cfg, Run(cfg, steps), step)
  {
    var all := steps + [step];
    assert all[..|steps|] == steps;
    if Guarded(cfg, Run(cfg, steps), step) {
      assert GuardedRun(cfg, all);
      forall more | NoStart(more) ensures Protected(Run(cfg, all + more)) {
        NoStartIsGuarded(cfg, all, more);
        LiveSessionsAreNeverOrphaned(cfg, all + more);
      }
    } else {
      LiveSessionsAreNeverOrphaned(cfg, steps);
      RunKeepsTerminalGets(cfg, steps);
      UnguardedStartCanOrphan(cfg, Run(cfg, steps), step);
      var more :| NoStart(more) && !Protected(After(cfg, Run(cfg, all), more));
      RunAfter(cfg, all, more);
    }
  }
}
