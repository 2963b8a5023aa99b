// Runs that show the conditions of the lifecycle theorems to be needed. Each is
// a run of the agent from its first start on.
module LifecycleRuns {
  import opened Text
  import opened Sessions
  import opened Persistence
  import opened Lifecycle
  import opened LifecycleRecords
  import opened LifecycleStale

  // P holds of the initial state and is kept by every guarded step.
  ghost predicate Inductive(cfg: Config, P: State -> bool) {
    P(Init()) && forall s, step | P(s) && Guarded(cfg, s, step) :: P(Apply(cfg, s, step))
  }

  lemma AllActiveIsKept(cfg: Config, m: SessionMap, now: int)
    requires forall id | id in m :: !IsTerminal(m[id].status)
    ensures Retained(cfg, m, now) == m
  {}

  lemma FreshAgentServes(cfg: Config, P: State -> bool)
    requires Inductive(cfg, P)
    ensures P(Init().(phase := Serving))
  {
    assert Retained(cfg, map[], 0) == map[];
    var s1 := Apply(cfg, Init(), Load(Saved));
    var s2 := Apply(cfg, s1, EndRecovery);
    assert s2 == Init().(phase := Serving);
  }

  // ---- a stop that loses its record ----

  // The session is running in memory only, and its start is being compensated.
  ghost predicate Compensated(s: State, id: string) {
    && s.phase.Serving? && s.now == 0 && s.live == {id}
    && s.ops.Keys == {0} && s.ops[0].CallingCompensation? && s.ops[0].id == id
    && s.im.mem.Keys == {id} && s.im.mem[id].status == Running && s.im.mem[id].sessionId == id
  }

  // The stop has begun, and the compensation is confirmed but not yet written.
  ghost predicate Crossed(s: State, id: string) {
    && s.phase.Serving? && s.now == 1 && s.live == {}
    && s.ops.Keys == {0, 1} && s.ops[0].Compensating? && s.ops[0].id == id && s.ops[0].closed == Some(0)
    && s.ops[1].CallingStop? && s.ops[1].id == id
    && id in s.im.mem && s.im.mem[id].status == Stopping && s.im.mem[id].sessionId == id
  }

  // The stop is in flight and the only record left is another's tombstone.
  ghost predicate Lost(s: State, id: string) {
    && s.phase.Serving? && s.now == 1 && s.live == {} && id !in s.im.mem
    && s.ops.Keys == {1} && s.ops[1].CallingStop? && s.ops[1].id == id
    && forall x | x in s.im.mem :: IsTerminal(s.im.mem[x].status)
  }

  lemma StartIsAdmitted(cfg: Config, s: State, op: nat, q: CreateRequest, at: int)
    requires ConfigOk(cfg) && ValidRequest(cfg, q, 0) && s.phase.Serving? && 0 <= at <= s.now && op !in s.ops
    requires q.sessionId !in s.im.mem && forall x | x in s.im.mem :: !IsActive(s.im.mem[x].status)
    ensures WriteOf(cfg, s, BeginStart(op, q, 0, at, Saved)) == Some(Write(q.sessionId, StartingRecord(q, at), None))
  {
    assert ActiveIds(s.im.mem) == {};
  }

  // A start admitted to an agent without records, called and answered.
  lemma StartIsAnswered(cfg: Config, P: State -> bool, s: State, q: CreateRequest) returns (s': State)
    requires ConfigOk(cfg) && Inductive(cfg, P) && P(s) && ValidRequest(cfg, q, 0)
    requires s == Init().(phase := Serving)
    ensures P(s') && s'.phase.Serving? && s'.now == 0 && s'.live == {}
    ensures s'.im.mem == map[q.sessionId := StartingRecord(q, 0)] && s'.ops == map[0 := CallingStart(q, 0, 0)]
  {
    StartIsAdmitted(cfg, s, 0, q, 0);
    s' := Apply(cfg, s, BeginStart(0, q, 0, 0, Saved));
    AllActiveIsKept(cfg, map[q.sessionId := StartingRecord(q, 0)], 0);
  }

  // A start whose running record cannot be saved.
  lemma StartIsCompensated(cfg: Config, P: State -> bool, q: CreateRequest) returns (s: State)
    requires ConfigOk(cfg) && Inductive(cfg, P) && ValidRequest(cfg, q, 0)
    ensures P(s) && Compensated(s, q.sessionId)
  {
    FreshAgentServes(cfg, P);
    s := StartIsAnswered(cfg, P, Init().(phase := Serving), q);
    s := StartGoesLive(cfg, P, s, q);
    s := ActivationFails(cfg, P, s, q);
  }

  lemma StartGoesLive(cfg: Config, P: State -> bool, s: State, q: CreateRequest) returns (s': State)
    requires Inductive(cfg, P) && P(s) && ValidRequest(cfg, q, 0) && s.now == 0
    requires s.ops == map[0 := CallingStart(q, 0, 0)]
    ensures P(s') && CheckedTimes(q, Reply(q), 0, 0).Some?
    ensures s' == s.(live := s.live + {q.sessionId}, ops := map[0 := Activating(q, 0, 0, 0, Reply(q))])
  {
    ReplyIsAccepted(cfg, q, 0, 0, 0);
    s' := Apply(cfg, s, StartReturns(0, Some(Reply(q)), true));
  }

  lemma ActivationFails(cfg: Config, P: State -> bool, s: State, q: CreateRequest) returns (s': State)
    requires Inductive(cfg, P) && P(s) && s.phase.Serving? && s.now == 0 && s.live == {q.sessionId}
    requires s.ops == map[0 := Activating(q, 0, 0, 0, Reply(q))] && CheckedTimes(q, Reply(q), 0, 0).Some?
    requires s.im.mem == map[q.sessionId := StartingRecord(q, 0)]
    ensures P(s') && Compensated(s', q.sessionId)
  {
    s' := Apply(cfg, s, Activate(0, FailedOld));
    assert s'.im.mem.Keys == {q.sessionId};
  }

  // Stop begins, on a session that is running or unknown, beside active records.
  lemma StopBegins(cfg: Config, P: State -> bool, s: State, op: nat, id: string) returns (s': State)
    requires Inductive(cfg, P) && P(s) && s.phase.Serving? && op !in s.ops && cfg.isUuid(id)
    requires forall x | x in s.im.mem :: !IsTerminal(s.im.mem[x].status)
    requires id in s.im.mem ==> s.im.mem[id].status == Running && s.im.mem[id].sessionId == id
    ensures P(s') && id in s'.im.mem && s'.im.mem == s.im.mem[id := s'.im.mem[id]]
    ensures s'.im.mem[id].status == Stopping && s'.im.mem[id].sessionId == id
    ensures s' == s.(im := s'.im, ops := s.ops[op := CallingStop(id, "requested")])
  {
    assert NormalizeReason("requested") == "requested" by { assert !IsSpace('r') && !IsSpace('d'); }
    AllActiveIsKept(cfg, s.im.mem[id := DecideStop(s.im.mem, id, "requested").write.rec], s.now);
    s' := Apply(cfg, s, BeginStop(op, id, "requested", Saved));
  }

  lemma CompensationIsConfirmed(cfg: Config, P: State -> bool, s: State, op: nat) returns (s': State)
    requires Inductive(cfg, P) && P(s) && op in s.ops && s.ops[op].CallingCompensation?
    ensures P(s') && s' == s.(live := s.live - {s.ops[op].id},
                              ops := s.ops[op := Compensating(s.ops[op].id, s.ops[op].reason, Some(s.now))])
  {
    s' := Apply(cfg, s, CompensationReturns(op, Some(CloseResponse(s.ops[op].id, Closed, None)), true));
  }

  lemma StopIsConfirmed(cfg: Config, P: State -> bool, s: State, op: nat) returns (s': State)
    requires Inductive(cfg, P) && P(s) && op in s.ops && s.ops[op].CallingStop?
    ensures P(s') && s' == s.(live := s.live - {s.ops[op].id},
                              ops := s.ops[op := FinishingStop(s.ops[op].id, s.ops[op].reason, Some(s.now))])
  {
    s' := Apply(cfg, s, StopReturns(op, Some(CloseResponse(s.ops[op].id, Other("not_found"), None)), true));
  }

  lemma TimePasses(cfg: Config, P: State -> bool, s: State, to: int) returns (s': State)
    requires Inductive(cfg, P) && P(s) && s.now <= to
    ensures P(s') && s' == s.(now := to)
  {
    s' := Apply(cfg, s, Tick(to));
  }

  lemma StopCrosses(cfg: Config, P: State -> bool, s: State, id: string) returns (s': State)
    requires Inductive(cfg, P) && P(s) && Compensated(s, id) && cfg.isUuid(id)
    ensures P(s') && Crossed(s', id) && s'.im.mem.Keys == {id}
  {
    s' := StopBegins(cfg, P, s, 1, id);
    s' := CompensationIsConfirmed(cfg, P, s', 0);
    s' := TimePasses(cfg, P, s', 1);
  }

  // Another session, never started, is stopped and leaves a newer tombstone.
  lemma OtherIsStopped(cfg: Config, P: State -> bool, s: State, id: string, b: string) returns (s': State)
    requires ConfigOk(cfg) && Inductive(cfg, P) && P(s) && Crossed(s, id) && s.im.mem.Keys == {id}
    requires cfg.isUuid(b) && b != id
    ensures P(s') && Crossed(s', id) && s'.im.mem.Keys == {id, b}
    ensures s'.im.mem[b].status == Closed && s'.im.mem[b].closedAt == Some(1) && s'.im.mem[b].sessionId == b
  {
    s' := StopBegins(cfg, P, s, 2, b);
    s' := StopIsConfirmed(cfg, P, s', 2);
    s' := OtherIsClosed(cfg, P, s', b);
    assert s'.ops == s.ops;
  }

  lemma OtherIsClosed(cfg: Config, P: State -> bool, s: State, b: string) returns (s': State)
    requires ConfigOk(cfg) && Inductive(cfg, P) && P(s) && s.now == 1
    requires 2 in s.ops && s.ops[2] == FinishingStop(b, "requested", Some(1))
    requires b in s.im.mem && s.im.mem[b].sessionId == b && forall x | x in s.im.mem :: !IsTerminal(s.im.mem[x].status)
    ensures P(s') && s' == s.(im := s'.im, ops := s.ops - {2})
    ensures b in s'.im.mem && s'.im.mem == s.im.mem[b := s'.im.mem[b]]
    ensures s'.im.mem[b].status == Closed && s'.im.mem[b].closedAt == Some(1) && s'.im.mem[b].sessionId == b
  {
    OneTombstoneIsKept(cfg, s.im.mem[b := FinishStopWrite(s.im.mem, b, "requested", Some(1)).rec], b);
    s' := Apply(cfg, s, FinishStop(2, Saved));
  }

  lemma OneTombstoneIsKept(cfg: Config, m: SessionMap, b: string)
    requires ConfigOk(cfg) && b in m && m[b].closedAt == Some(1)
    requires forall x | x in m && x != b :: !IsTerminal(m[x].status)
    ensures Retained(cfg, m, 1) == m
  {
    LessIsTotal(m[b].sessionId, m[b].sessionId);
    assert IsTerminal(m[b].status) ==> NewerThan(cfg, m, 1, m[b]) == {};
  }

  // The compensation's tombstone is cut off by the newer one, and the stop has
  // no record any more.
  lemma TombstoneIsCut(cfg: Config, P: State -> bool, s: State, id: string, b: string) returns (s': State)
    requires ConfigOk(cfg) && cfg.maxTerminal == 1 && Inductive(cfg, P) && P(s) && Crossed(s, id) && b != id
    requires s.im.mem.Keys == {id, b} && s.im.mem[b].status == Closed && s.im.mem[b].closedAt == Some(1)
    ensures P(s') && Lost(s', id)
  {
    s' := Apply(cfg, s, FinishCompensation(0, Saved));
    var m := s.im.mem[id := CompensationWrite(s.im.mem, id, s.ops[0].reason, s.ops[0].closed).rec];
    assert IsTombstone(cfg, m[b], 1) && Newer(m[b], m[id]);
    assert NewerThan(cfg, m, 1, m[id]) >= {b};
    assert |NewerThan(cfg, m, 1, m[id])| >= 1 by { assert b in NewerThan(cfg, m, 1, m[id]); }
    assert s'.im.mem == Retained(cfg, m, 1);
  }

  // With one tombstone to keep: the running record of a start cannot be saved;
  // while the start is compensated the session is stopped; the compensation's
  // tombstone is cut in favour of a newer one. The stop is still in flight.
  lemma StopLosesRecord(cfg: Config, P: State -> bool, q: CreateRequest, b: string) returns (s: State)
    requires ConfigOk(cfg) && cfg.maxTerminal == 1 && Inductive(cfg, P) && ValidRequest(cfg, q, 0)
    requires cfg.isUuid(b) && b != q.sessionId
    ensures P(s) && Lost(s, q.sessionId)
  {
    s := StartIsCompensated(cfg, P, q);
    s := StopCrosses(cfg, P, s, q.sessionId);
    s := OtherIsStopped(cfg, P, s, q.sessionId, b);
    s := TombstoneIsCut(cfg, P, s, q.sessionId, b);
  }

  ghost predicate Reachable(cfg: Config, s: State) {
    exists steps :: GuardedRun(cfg, steps) && Run(cfg, steps) == s
  }

  lemma ReachableIsInductive(cfg: Config)
    ensures Inductive(cfg, s => Reachable(cfg, s))
  {
    assert GuardedRun(cfg, []) && Run(cfg, []) == Init();
    forall s, step | Reachable(cfg, s) && Guarded(cfg, s, step) ensures Reachable(cfg, Apply(cfg, s, step)) {
      var steps :| GuardedRun(cfg, steps) && Run(cfg, steps) == s;
      assert (steps + [step])[..|steps|] == steps;
      assert GuardedRun(cfg, steps + [step]) && Run(cfg, steps + [step]) == Apply(cfg, s, step);
    }
  }

  lemma RunLosesRecord(cfg: Config, q: CreateRequest, b: string) returns (steps: seq<Step>)
    requires ConfigOk(cfg) && cfg.maxTerminal == 1 && ValidRequest(cfg, q, 0) && cfg.isUuid(b) && b != q.sessionId
    ensures GuardedRun(cfg, steps) && Lost(Run(cfg, steps), q.sessionId)
  {
    ReachableIsInductive(cfg);
    var s := StopLosesRecord(cfg, x => Reachable(cfg, x), q, b);
    steps :| GuardedRun(cfg, steps) && Run(cfg, steps) == s;
  }

  lemma StartMeetsStop(cfg: Config, s: State, q: CreateRequest)
    requires ConfigOk(cfg) && ValidRequest(cfg, q, 0) && Lost(s, q.sessionId)
    ensures !Guarded(cfg, s, BeginStart(0, q, 0, 0, Saved))
  {
    StartIsAdmitted(cfg, s, 0, q, 0);
    assert OpId(s.ops[1]) == q.sessionId && !Idle(q, s.now, s.ops[1]);
  }

  // A guarded run can be followed by one start that is admitted and not guarded,
  // and then, without another start, by an orphan: the guard of starts is a real
  // condition.
  lemma CapPruningOrphans(cfg: Config, q: CreateRequest, b: string)
    requires ConfigOk(cfg) && cfg.maxTerminal == 1 && ValidRequest(cfg, q, 0) && cfg.isUuid(b) && b != q.sessionId
    ensures exists steps, start, more ::
      && GuardedRun(cfg, steps) && start == BeginStart(0, q, 0, 0, Saved) && NoStart(more)
      && !Protected(Run(cfg, steps + [start] + more))
  {
    var steps := RunLosesRecord(cfg, q, b);
    StartMeetsStop(cfg, Run(cfg, steps), q);
    StartIsSafeExactlyWhenGuarded(cfg, steps, BeginStart(0, q, 0, 0, Saved));
  }

  lemma StopFails(cfg: Config, P: State -> bool, s: State, op: nat) returns (s': State)
    requires Inductive(cfg, P) && P(s) && op in s.ops && s.ops[op].CallingStop?
    ensures P(s') && s' == s.(ops := s.ops[op := FinishingStop(s.ops[op].id, s.ops[op].reason, None)])
  {
    s' := Apply(cfg, s, StopReturns(op, None, false));
  }

  lemma StopFinishesLost(cfg: Config, P: State -> bool, s: State, op: nat) returns (s': State)
    requires ConfigOk(cfg) && Inductive(cfg, P) && P(s)
    requires op in s.ops && s.ops[op].FinishingStop? && s.ops[op].closed.None? && s.ops[op].id !in s.im.mem
    ensures P(s') && s'.phase.Down? && Apply(cfg, s', Load(Saved)).phase.Down?
  {
    LostStopSpoilsFile(cfg, s, op);
    var stopped := Apply(cfg, s, FinishStop(op, Saved));
    assert P(stopped);
    s' := Apply(cfg, stopped, Crash);
  }

  // The same run spoils the state file: the stop fails at the controller, writes
  // a record without a session ID, and after a crash recovery refuses the file.
  lemma LostRecordSpoilsFile(cfg: Config, q: CreateRequest, b: string)
    requires ConfigOk(cfg) && cfg.maxTerminal == 1 && ValidRequest(cfg, q, 0) && cfg.isUuid(b) && b != q.sessionId
    ensures exists steps :: GuardedRun(cfg, steps) && Run(cfg, steps).phase.Down?
                            && Apply(cfg, Run(cfg, steps), Load(Saved)).phase.Down?
  {
    ReachableIsInductive(cfg);
    var P := x => Reachable(cfg, x);
    var s := StopLosesRecord(cfg, P, q, b);
    s := StopFails(cfg, P, s, 1);
    s := StopFinishesLost(cfg, P, s, 1);
    assert Reachable(cfg, s);
  }

  // ---- a crash right after the intent to start is saved ----

  lemma IntentThenCrash(cfg: Config, P: State -> bool, s: State, q: CreateRequest, at: nat) returns (s': State)
    requires ConfigOk(cfg) && Inductive(cfg, P) && P(s) && ValidRequest(cfg, q, 0)
    requires s == Init().(phase := Serving, now := at)
    ensures P(s') && s'.phase.Down? && s'.im.disk == map[q.sessionId := StartingRecord(q, at)]
  {
    var step := BeginStart(0, q, 0, at, Saved);
    StartIsAdmitted(cfg, s, 0, q, at);
    AllActiveIsKept(cfg, map[q.sessionId := StartingRecord(q, at)], at);
    var started := Apply(cfg, s, step);
    assert P(started) && started.im.disk == map[q.sessionId := StartingRecord(q, at)];
    s' := Apply(cfg, started, Crash);
  }

  // For every request and time of acceptance there is such a run, and recovery
  // accepts its file if and only if the request is not web-only and its deadline
  // had not passed.
  lemma RecoveryAfterIntent(cfg: Config, q: CreateRequest, at: nat)
    requires ConfigOk(cfg) && ValidRequest(cfg, q, 0)
    ensures exists steps ::
      && GuardedRun(cfg, steps) && Run(cfg, steps).phase.Down?
      && (Apply(cfg, Run(cfg, steps), Load(Saved)).phase.Recovering?
          <==> !q.webOnly && (q.expiresAt.Some? ==> at < q.expiresAt.value))
  {
    ReachableIsInductive(cfg);
    var s := CrashesWithIntent(cfg, x => Reachable(cfg, x), q, at);
    assert Reachable(cfg, s);
    IntentIsAccepted(cfg, s, q, at);
  }

  lemma CrashesWithIntent(cfg: Config, P: State -> bool, q: CreateRequest, at: nat) returns (s: State)
    requires ConfigOk(cfg) && Inductive(cfg, P) && ValidRequest(cfg, q, 0)
    ensures P(s) && s.phase.Down? && s.im.disk == map[q.sessionId := StartingRecord(q, at)]
  {
    FreshAgentServes(cfg, P);
    s := TimePasses(cfg, P, Init().(phase := Serving), at);
    s := IntentThenCrash(cfg, P, s, q, at);
  }

  lemma IntentIsAccepted(cfg: Config, s: State, q: CreateRequest, at: nat)
    requires ConfigOk(cfg) && ValidRequest(cfg, q, 0)
    requires s.phase.Down? && s.im.disk == map[q.sessionId := StartingRecord(q, at)]
    ensures Apply(cfg, s, Load(Saved)).phase.Recovering?
       <==> !q.webOnly && (q.expiresAt.Some? ==> at < q.expiresAt.value)
  {
    StartingRecordIsValid(cfg, q, 0, at);
    LoadAcceptsValidFiles(cfg, s);
    assert s.im.disk[q.sessionId] == StartingRecord(q, at);
  }
}
