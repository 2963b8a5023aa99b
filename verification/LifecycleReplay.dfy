// Why a deadline must still be ahead when a request is admitted: the manager
// checks it before it takes the lock, and an admission that comes too late can
// find the request's tombstone pruned.
module LifecycleReplay {
  import opened Text
  import opened Sessions
  import opened Persistence
  import opened Lifecycle
  import opened LifecycleOnce
  import R = LifecycleRuns

  // Reached by guarded and truthful steps, whatever their deadlines.
  ghost predicate TruthfulRun(cfg: Config, steps: seq<Step>) {
    steps != [] ==>
      && TruthfulRun(cfg, steps[..|steps| - 1])
      && Truthful(cfg, Run(cfg, steps[..|steps| - 1]), steps[|steps| - 1])
  }

  // P holds of the initial state and is kept by every guarded, truthful step.
  ghost predicate Inductive(cfg: Config, P: State -> bool) {
    P(Init()) && forall s, step | P(s) && Guarded(cfg, s, step) && Truthful(cfg, s, step) :: P(Apply(cfg, s, step))
  }

  // At most one tombstone is below any cap.
  lemma OneIsBelowTheCap(cfg: Config, m: SessionMap, now: int, id: string)
    requires ConfigOk(cfg) && forall x | x in m && x != id :: !IsTombstone(cfg, m[x], now)
    ensures CapFree(cfg, m, now)
  {
    assert Tombstones(cfg, m, now) <= {id};
    SubsetIsSmaller(Tombstones(cfg, m, now), {id});
  }

  lemma HonestAgentServes(cfg: Config, P: State -> bool)
    requires ConfigOk(cfg) && Inductive(cfg, P)
    ensures P(Init().(phase := Serving))
  {
    OneIsBelowTheCap(cfg, map[], 0, "");
    assert Retained(cfg, map[], 0) == map[];
    assert Guarded(cfg, Init(), Load(Saved)) && Truthful(cfg, Init(), Load(Saved));
    var s := Apply(cfg, Init(), Load(Saved));
    assert s == Init().(phase := Recovering);
    assert Guarded(cfg, s, EndRecovery) && Truthful(cfg, s, EndRecovery);
    assert Apply(cfg, s, EndRecovery) == Init().(phase := Serving);
  }

  lemma FirstIsCalled(cfg: Config, P: State -> bool, q: CreateRequest) returns (s: State)
    requires ConfigOk(cfg) && Inductive(cfg, P) && ValidRequest(cfg, q, 0)
    ensures P(s) && s.phase.Serving? && s.now == 0 && s.ops == map[0 := CallingStart(q, 0, 0)]
    ensures s.im.mem == map[q.sessionId := StartingRecord(q, 0)] && s.calls == [Call(q.sessionId, q.expiresAt, 0)]
  {
    HonestAgentServes(cfg, P);
    var s0, step := Init().(phase := Serving), BeginStart(0, q, 0, 0, Saved);
    R.StartIsAdmitted(cfg, s0, 0, q, 0);
    OneIsBelowTheCap(cfg, s0.im.mem[q.sessionId := StartingRecord(q, 0)], 0, q.sessionId);
    R.AllActiveIsKept(cfg, map[q.sessionId := StartingRecord(q, 0)], 0);
    assert Guarded(cfg, s0, step) && Truthful(cfg, s0, step);
    s := Apply(cfg, s0, step);
    assert s.calls == [] + [Call(q.sessionId, q.expiresAt, 0)];
  }

  lemma FirstFails(cfg: Config, P: State -> bool, s: State, id: string, q: CreateRequest) returns (s': State)
    requires ConfigOk(cfg) && Inductive(cfg, P) && P(s) && s.ops == map[0 := CallingStart(q, 0, 0)] && id == q.sessionId
    ensures P(s') && s' == s.(live := s'.live,
      ops := map[0 := Compensating(id, "controller_start_failed", Some(s.now))])
  {
    assert Guarded(cfg, s, StartReturns(0, None, false)) && Truthful(cfg, s, StartReturns(0, None, false));
    var s1 := Apply(cfg, s, StartReturns(0, None, false));
    assert s1 == s.(ops := map[0 := CallingCompensation(id, "controller_start_failed")]);
    s' := FirstIsStopped(cfg, P, s1, id);
  }

  lemma FirstIsStopped(cfg: Config, P: State -> bool, s: State, id: string) returns (s': State)
    requires Inductive(cfg, P) && P(s) && s.ops == map[0 := CallingCompensation(id, "controller_start_failed")]
    ensures P(s') && s' == s.(live := s'.live,
      ops := map[0 := Compensating(id, "controller_start_failed", Some(s.now))])
  {
    var step := CompensationReturns(0, Some(CloseResponse(id, Closed, None)), true);
    assert Guarded(cfg, s, step) && Truthful(cfg, s, step);
    s' := Apply(cfg, s, step);
  }

  // The compensation leaves a tombstone closed at acceptance.
  lemma FirstIsClosed(cfg: Config, P: State -> bool, s: State, id: string) returns (s': State)
    requires ConfigOk(cfg) && Inductive(cfg, P) && P(s) && s.phase.Serving? && s.now == 0 && s.im.mem.Keys == {id}
    requires s.ops == map[0 := Compensating(id, "controller_start_failed", Some(0))]
    requires forall i | 0 <= i < |s.calls| :: s.calls[i].acceptedAt == 0
    ensures P(s') && s' == s.(im := s'.im, ops := map[])
    ensures s'.im.mem.Keys <= {id} && (id in s'.im.mem
      ==> IsTerminal(s'.im.mem[id].status) && s'.im.mem[id].closedAt == Some(0))
  {
    var step := FinishCompensation(0, Saved);
    var w := CompensationWrite(s.im.mem, id, "controller_start_failed", Some(0));
    OneIsBelowTheCap(cfg, s.im.mem[id := w.rec], 0, id);
    assert Guarded(cfg, s, step) && Truthful(cfg, s, step);
    s' := Apply(cfg, s, step);
    assert s'.im.mem == Retained(cfg, s.im.mem[id := w.rec], 0);
  }

  // Past the retention the save of any other stop prunes it.
  lemma TombstoneExpires(cfg: Config, P: State -> bool, s: State, id: string, b: string) returns (s': State)
    requires ConfigOk(cfg) && Inductive(cfg, P) && P(s) && s.phase.Serving? && s.ops == map[]
      && s.now == cfg.retention + 1
    requires s.im.mem.Keys <= {id} && (id in s.im.mem
      ==> IsTerminal(s.im.mem[id].status) && s.im.mem[id].closedAt == Some(0))
    requires cfg.isUuid(b) && b != id
    ensures P(s') && s' == s.(im := s'.im, ops := s'.ops)
    ensures s'.ops.Keys == {1} && s'.ops[1].CallingStop? && s'.ops[1].id == b && s'.im.mem.Keys == {b}
  {
    var step := BeginStop(1, b, "requested", Saved);
    var m := s.im.mem[b := DecideStop(s.im.mem, b, "requested").write.rec];
    OneIsBelowTheCap(cfg, m, s.now, b);
    OnlyActiveIsKept(cfg, m, s.now, b);
    UnknownIsStopped(cfg, s, b, m);
    s' := Apply(cfg, s, step);
  }

  lemma UnknownIsStopped(cfg: Config, s: State, b: string, m: SessionMap)
    requires s.phase.Serving? && s.ops == map[] && b !in s.im.mem && cfg.isUuid(b)
    requires m == s.im.mem[b := DecideStop(s.im.mem, b, "requested").write.rec] && CapFree(cfg, m, s.now)
    ensures var step := BeginStop(1, b, "requested", Saved);
            var s' := Apply(cfg, s, step);
            && Guarded(cfg, s, step) && Truthful(cfg, s, step)
            && s' == s.(im := s'.im, ops := s'.ops) && s'.im.mem == Retained(cfg, m, s.now)
            && s'.ops.Keys == {1} && s'.ops[1].CallingStop? && s'.ops[1].id == b
  {}

  // Of this map a save keeps the one active record.
  lemma OnlyActiveIsKept(cfg: Config, m: SessionMap, now: int, id: string)
    requires id in m && IsActive(m[id].status) && forall x | x in m && x != id :: !Survives(cfg, m, now, m[x])
    ensures Retained(cfg, m, now).Keys == {id}
  {}

  lemma OtherIsConfirmed(cfg: Config, P: State -> bool, s: State, b: string) returns (s': State)
    requires Inductive(cfg, P) && P(s) && s.ops.Keys == {1} && s.ops[1].CallingStop? && s.ops[1].id == b
    requires forall i | 0 <= i < |s.calls| :: s.calls[i].id != b
    ensures P(s') && s' == s.(live := s'.live, ops := s'.ops)
    ensures s'.ops.Keys == {1} && s'.ops[1].FinishingStop? && s'.ops[1].id == b && s'.ops[1].closed == Some(s.now)
  {
    var step := StopReturns(1, Some(CloseResponse(b, Other("not_found"), None)), true);
    assert Guarded(cfg, s, step) && Truthful(cfg, s, step);
    s' := Apply(cfg, s, step);
  }

  lemma OtherIsClosed(cfg: Config, P: State -> bool, s: State, b: string) returns (s': State)
    requires ConfigOk(cfg) && Inductive(cfg, P) && P(s) && s.ops.Keys == {1} && s.im.mem.Keys == {b}
    requires s.ops[1].FinishingStop? && s.ops[1].id == b && s.ops[1].closed.Some?
    requires forall i | 0 <= i < |s.calls| :: s.calls[i].id != b
    ensures P(s') && s' == s.(im := s'.im, ops := map[])
    ensures s'.im.mem.Keys <= {b} && forall x | x in s'.im.mem :: IsTerminal(s'.im.mem[x].status)
  {
    var step := FinishStop(1, Saved);
    var m := s.im.mem[b := FinishStopWrite(s.im.mem, b, s.ops[1].reason, s.ops[1].closed).rec];
    OneIsBelowTheCap(cfg, m, s.now, b);
    assert Guarded(cfg, s, step) && Truthful(cfg, s, step);
    s' := Apply(cfg, s, step);
    assert s'.im.mem == Retained(cfg, m, s.now);
  }

  // The replay, validated when the deadline was ahead, is admitted after it.
  lemma ReplayIsCalled(cfg: Config, P: State -> bool, s: State, q: CreateRequest) returns (s': State)
    requires ConfigOk(cfg) && Inductive(cfg, P) && P(s) && ValidRequest(cfg, q, 0) && s.phase.Serving? && s.now >= 0
      && s.ops == map[]
    requires q.sessionId !in s.im.mem && forall x | x in s.im.mem :: IsTerminal(s.im.mem[x].status)
    requires CapFree(cfg, s.im.mem, s.now)
    ensures P(s') && s'.calls == s.calls + [Call(q.sessionId, q.expiresAt, 0)]
  {
    var step := BeginStart(1, q, 0, 0, Saved);
    R.StartIsAdmitted(cfg, s, 1, q, 0);
    assert Tombstones(cfg, s.im.mem[q.sessionId := StartingRecord(q, 0)], s.now) == Tombstones(cfg, s.im.mem, s.now);
    assert Guarded(cfg, s, step) && Truthful(cfg, s, step);
    s' := Apply(cfg, s, step);
  }

  lemma FirstRoundTrip(cfg: Config, P: State -> bool, q: CreateRequest) returns (s: State)
    requires ConfigOk(cfg) && Inductive(cfg, P) && ValidRequest(cfg, q, 0)
    ensures P(s) && s.phase.Serving? && s.now == cfg.retention + 1 && s.ops == map[]
    ensures s.calls == [Call(q.sessionId, q.expiresAt, 0)] && s.im.mem.Keys <= {q.sessionId}
    ensures forall x | x in s.im.mem :: IsTerminal(s.im.mem[x].status) && s.im.mem[x].closedAt == Some(0)
  {
    s := FirstIsCalled(cfg, P, q);
    s := FirstFails(cfg, P, s, q.sessionId, q);
    s := FirstIsClosed(cfg, P, s, q.sessionId);
    s := RetentionPasses(cfg, P, s);
  }

  lemma RetentionPasses(cfg: Config, P: State -> bool, s: State) returns (s': State)
    requires ConfigOk(cfg) && Inductive(cfg, P) && P(s) && s.now == 0
    ensures P(s') && s' == s.(now := cfg.retention + 1)
  {
    assert Guarded(cfg, s, Tick(cfg.retention + 1)) && Truthful(cfg, s, Tick(cfg.retention + 1));
    s' := Apply(cfg, s, Tick(cfg.retention + 1));
  }

  lemma ReplayRun(cfg: Config, P: State -> bool, q: CreateRequest, b: string) returns (s: State)
    requires ConfigOk(cfg) && Inductive(cfg, P) && ValidRequest(cfg, q, 0) && cfg.isUuid(b) && b != q.sessionId
    ensures P(s) && s.calls == [Call(q.sessionId, q.expiresAt, 0), Call(q.sessionId, q.expiresAt, 0)]
  {
    s := FirstRoundTrip(cfg, P, q);
    s := TombstoneExpires(cfg, P, s, q.sessionId, b);
    s := OtherIsConfirmed(cfg, P, s, b);
    s := OtherIsClosed(cfg, P, s, b);
    OneIsBelowTheCap(cfg, s.im.mem, s.now, b);
    s := ReplayIsCalled(cfg, P, s, q);
  }

  ghost predicate Reached(cfg: Config, s: State) {
    exists steps :: GuardedRun(cfg, steps) && TruthfulRun(cfg, steps) && Run(cfg, steps) == s
  }

  lemma TruthfulIsInductive(cfg: Config)
    ensures Inductive(cfg, s => Reached(cfg, s))
  {
    assert GuardedRun(cfg, []) && TruthfulRun(cfg, []) && Run(cfg, []) == Init();
    forall s, step | Reached(cfg, s) && Guarded(cfg, s, step) && Truthful(cfg, s, step)
      ensures Reached(cfg, Apply(cfg, s, step)) {
      var steps :| GuardedRun(cfg, steps) && TruthfulRun(cfg, steps) && Run(cfg, steps) == s;
      assert (steps + [step])[..|steps|] == steps;
      assert GuardedRun(cfg, steps + [step]) && TruthfulRun(cfg, steps + [step]);
      assert Run(cfg, steps + [step]) == Apply(cfg, s, step);
    }
  }

  // Without the condition on deadlines a request starts twice: it is compensated
  // at acceptance, its tombstone expires, and a replay that was validated in
  // time waits for the lock until then.
  lemma LateReplayStartsTwice(cfg: Config, q: CreateRequest, b: string)
    requires ConfigOk(cfg) && ValidRequest(cfg, q, 0) && q.expiresAt.Some? && cfg.isUuid(b) && b != q.sessionId
    ensures exists steps :: GuardedRun(cfg, steps) && TruthfulRun(cfg, steps) && !NoRepeat(Run(cfg, steps).calls)
  {
    TruthfulIsInductive(cfg);
    var s := ReplayRun(cfg, x => Reached(cfg, x), q, b);
    var steps :| GuardedRun(cfg, steps) && TruthfulRun(cfg, steps) && Run(cfg, steps) == s;
    assert SameRequest(s.calls[0], s.calls[1]);
  }
}
