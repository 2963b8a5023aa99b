// A request with an absolute deadline reaches controller.Start at most once,
// over crashes and restarts: its record or tombstone blocks a replay until the
// deadline has passed.
module LifecycleOnce {
  import opened Text
  import opened Sessions
  import opened Persistence
  import opened Lifecycle

  ghost predicate CapFree(cfg: Config, m: SessionMap, now: int) {
    |Tombstones(cfg, m, now)| <= cfg.maxTerminal
  }

  // The deadline of a request is still ahead when it is admitted.
  predicate Timely(s: State, step: Step) {
    step.BeginStart? && step.q.expiresAt.Some? ==> s.now < step.q.expiresAt.value
  }

  // No session is recorded as closed before a call of it was accepted.
  ghost predicate ClosesLate(cfg: Config, s: State, step: Step) {
    WriteOf(cfg, s, step).Some? ==>
      var w := WriteOf(cfg, s, step).value;
      IsTerminal(w.rec.status) && w.rec.closedAt.Some? ==>
        forall i | 0 <= i < |s.calls| && s.calls[i].id == w.id :: s.calls[i].acceptedAt <= w.rec.closedAt.value
  }

  // No save has more tombstones than it may keep.
  ghost predicate CapHolds(cfg: Config, s: State, step: Step) {
    && (WriteOf(cfg, s, step).Some? ==>
        var w := WriteOf(cfg, s, step).value;
        CapFree(cfg, s.im.mem[w.id := w.rec], s.now))
    && (step.Load? ==> CapFree(cfg, s.im.disk, s.now))
  }

  ghost predicate Truthful(cfg: Config, s: State, step: Step) {
    ClosesLate(cfg, s, step) && CapHolds(cfg, s, step)
  }

  ghost predicate HonestStep(cfg: Config, s: State, step: Step) {
    Timely(s, step) && Truthful(cfg, s, step)
  }

  ghost predicate HonestRun(cfg: Config, steps: seq<Step>) {
    steps != [] ==>
      && HonestRun(cfg, steps[..|steps| - 1])
      && HonestStep(cfg, Run(cfg, steps[..|steps| - 1]), steps[|steps| - 1])
  }

  // The deadline of the call is still ahead.
  predicate Pending(c: Call, now: int) {
    c.deadline.Some? && now < c.deadline.value
  }

  predicate KeptIn(m: SessionMap, c: Call) {
    c.id in m && KeptBy(m[c.id], c)
  }

  predicate KeptBy(r: SessionRecord, c: Call) {
    IsTerminal(r.status) ==> r.closedAt.Some? && c.acceptedAt <= r.closedAt.value
  }

  predicate Timed(cfg: Config, c: Call, now: int) {
    c.acceptedAt <= now && (c.deadline.Some? ==> c.deadline.value <= c.acceptedAt + cfg.maxTtl)
  }

  predicate SameRequest(a: Call, b: Call) {
    a.id == b.id && a.deadline.Some? && a.deadline == b.deadline
  }

  ghost predicate CallsKept(s: State) {
    forall i | 0 <= i < |s.calls| && Pending(s.calls[i], s.now) ::
      KeptIn(s.im.disk, s.calls[i]) && (!s.phase.Down? ==> KeptIn(s.im.mem, s.calls[i]))
  }

  ghost predicate NoRepeat(calls: seq<Call>) {
    forall i, j | 0 <= i < j < |calls| :: !SameRequest(calls[i], calls[j])
  }

  ghost predicate OnceInv(cfg: Config, s: State) {
    && (forall i | 0 <= i < |s.calls| :: Timed(cfg, s.calls[i], s.now))
    && CallsKept(s) && NoRepeat(s.calls) && (s.phase.Down? ==> s.ops == map[])
  }

  // Below the cap no unexpired tombstone is pruned.
  lemma TombstoneSurvives(cfg: Config, m: SessionMap, now: int, id: string)
    requires id in m && IsTombstone(cfg, m[id], now) && CapFree(cfg, m, now)
    ensures id in Retained(cfg, m, now)
  {
    var newer := NewerThan(cfg, m, now, m[id]);
    LessIsTotal(m[id].sessionId, m[id].sessionId);
    assert id in Tombstones(cfg, m, now);
    SubsetIsSmaller(newer, Tombstones(cfg, m, now) - {id});
  }

  lemma PendingSurvives(cfg: Config, m: SessionMap, now: int, c: Call)
    requires ConfigOk(cfg) && CapFree(cfg, m, now)
    requires Pending(c, now) && Timed(cfg, c, now) && KeptIn(m, c)
    ensures KeptIn(Retained(cfg, m, now), c)
  {
    if IsTerminal(m[c.id].status) {
      TombstoneSurvives(cfg, m, now, c.id);
    }
  }

  lemma CommitKeepsCall(cfg: Config, im: Image, w: Write, now: int, save: SaveOutcome, c: Call)
    requires ConfigOk(cfg) && CapFree(cfg, im.mem[w.id := w.rec], now)
    requires Pending(c, now) && Timed(cfg, c, now)
    requires KeptIn(im.disk, c) || save != FailedOld
    requires if c.id == w.id then KeptBy(w.rec, c) && (save == Saved || (w.undo.Some? && KeptBy(w.undo.value, c)))
             else KeptIn(im.mem, c)
    ensures KeptIn(Commit(cfg, im, w, now, save).mem, c) && KeptIn(Commit(cfg, im, w, now, save).disk, c)
  {
    PendingSurvives(cfg, im.mem[w.id := w.rec], now, c);
  }

  // What a write does to the record of an earlier call.
  lemma WriteKeepsCall(cfg: Config, s: State, step: Step, w: Write, i: nat)
    requires OnceInv(cfg, s) && Shape(s, step, w) && !s.phase.Down?
    requires i < |s.calls| && Pending(s.calls[i], s.now) && s.calls[i].id == w.id && KeptBy(w.rec, s.calls[i])
    ensures w.undo.Some? && KeptBy(w.undo.value, s.calls[i])
  {
    assert KeptIn(s.im.mem, s.calls[i]);
  }

  // A terminal record is written with its close time.
  lemma TerminalWritesAreClosed(s: State, step: Step, w: Write)
    requires Shape(s, step, w) && IsTerminal(w.rec.status)
    ensures w.rec.closedAt.Some?
  {}

  lemma WriteKeepsCalls(cfg: Config, s: State, step: Step, w: Write)
    requires ConfigOk(cfg) && OnceInv(cfg, s) && Shape(s, step, w) && !s.phase.Down?
    requires CapFree(cfg, s.im.mem[w.id := w.rec], s.now)
    requires forall i | 0 <= i < |s.calls| && s.calls[i].id == w.id :: KeptBy(w.rec, s.calls[i])
    requires step.BeginStart? ==> step.acceptedAt <= s.now
    requires step.BeginStart? && step.q.expiresAt.Some? ==>
               s.now < step.q.expiresAt.value <= step.acceptedAt + cfg.maxTtl
    ensures CallsKept(AfterWrite(cfg, s, step, w))
  {
    var s' := AfterWrite(cfg, s, step, w);
    forall i | 0 <= i < |s'.calls| && Pending(s'.calls[i], s.now)
      ensures KeptIn(s'.im.disk, s'.calls[i]) && KeptIn(s'.im.mem, s'.calls[i])
    {
      var c := s'.calls[i];
      if i < |s.calls| {
        if c.id == w.id { WriteKeepsCall(cfg, s, step, w, i); }
      }
      CommitKeepsCall(cfg, s.im, w, s.now, step.save, c);
    }
  }

  lemma WriteKeepsNoRepeat(cfg: Config, s: State, step: Step, w: Write)
    requires OnceInv(cfg, s) && Shape(s, step, w) && !s.phase.Down?
    requires step.BeginStart? && step.q.expiresAt.Some? ==> s.now < step.q.expiresAt.value
    ensures NoRepeat(CallsAfter(s, step))
  {
    var calls := CallsAfter(s, step);
    forall i, j | 0 <= i < j < |calls| ensures !SameRequest(calls[i], calls[j]) {
      if j == |s.calls| {
        assert Pending(s.calls[i], s.now) ==> KeptIn(s.im.mem, s.calls[i]);
      }
    }
  }

  lemma AdmissionIsTimed(cfg: Config, s: State, step: Step)
    requires ConfigOk(cfg) && step.BeginStart? && WriteOf(cfg, s, step).Some?
    ensures step.acceptedAt <= s.now
    ensures step.q.expiresAt.Some? ==> step.q.expiresAt.value <= step.acceptedAt + cfg.maxTtl
  {
    TtlWithinMaximum(step.q.ttlSeconds, cfg.maxTtl);
  }

  lemma WriteKeepsOnce(cfg: Config, s: State, step: Step)
    requires ConfigOk(cfg) && OnceInv(cfg, s) && WriteOf(cfg, s, step).Some? && HonestStep(cfg, s, step)
    ensures OnceInv(cfg, AfterWrite(cfg, s, step, WriteOf(cfg, s, step).value))
  {
    var w := WriteOf(cfg, s, step).value;
    WritesHaveShape(cfg, s, step);
    if step.BeginStart? { AdmissionIsTimed(cfg, s, step); }
    assert !s.phase.Down?;
    forall i | 0 <= i < |s.calls| && s.calls[i].id == w.id ensures KeptBy(w.rec, s.calls[i]) {
      if IsTerminal(w.rec.status) { TerminalWritesAreClosed(s, step, w); }
    }
    WriteKeepsCalls(cfg, s, step, w);
    WriteKeepsNoRepeat(cfg, s, step, w);
  }

  lemma CalmStepKeepsOnce(cfg: Config, s: State, s': State)
    requires OnceInv(cfg, s) && CalmStep(s, s') && (s'.phase.Down? ==> s'.ops == map[])
    ensures OnceInv(cfg, s')
  {
    forall i | 0 <= i < |s'.calls| && Pending(s'.calls[i], s'.now)
      ensures KeptIn(s'.im.disk, s'.calls[i]) && (!s'.phase.Down? ==> KeptIn(s'.im.mem, s'.calls[i]))
    {
      assert Pending(s.calls[i], s.now);
    }
  }

  lemma LoadKeepsOnce(cfg: Config, s: State, save: SaveOutcome)
    requires ConfigOk(cfg) && OnceInv(cfg, s) && s.phase.Down? && CapFree(cfg, s.im.disk, s.now)
    ensures OnceInv(cfg, AfterLoad(cfg, s, save))
  {
    forall i | 0 <= i < |s.calls| && Pending(s.calls[i], s.now)
      ensures KeptIn(Retained(cfg, s.im.disk, s.now), s.calls[i])
    {
      assert KeptIn(s.im.disk, s.calls[i]);
      PendingSurvives(cfg, s.im.disk, s.now, s.calls[i]);
    }
  }

  lemma RecoveryStepKeepsOnce(cfg: Config, s: State, step: Step)
    requires ConfigOk(cfg) && OnceInv(cfg, s) && HonestStep(cfg, s, step)
    requires step.Crash? || step.Load? || step.PrepareRetry?
    ensures OnceInv(cfg, Apply(cfg, s, step))
  {
    if step.Load? {
      if s.phase.Down? { LoadKeepsOnce(cfg, s, step.save); }
    } else {
      var s' := Apply(cfg, s, step);
      forall i | 0 <= i < |s.calls| && Pending(s.calls[i], s.now)
        ensures KeptIn(s'.im.disk, s'.calls[i]) && (!s'.phase.Down? ==> KeptIn(s'.im.mem, s'.calls[i]))
      {
        assert KeptIn(s.im.disk, s.calls[i]);
      }
    }
  }

  // An agent that is down begins no operation.
  lemma DownStaysIdle(cfg: Config, s: State, step: Step)
    requires (s.phase.Down? ==> s.ops == map[]) && WriteOf(cfg, s, step).None?
    ensures Apply(cfg, s, step).phase.Down? ==> Apply(cfg, s, step).ops == map[]
  {}

  lemma StepKeepsOnce(cfg: Config, s: State, step: Step)
    requires ConfigOk(cfg) && OnceInv(cfg, s) && HonestStep(cfg, s, step)
    ensures OnceInv(cfg, Apply(cfg, s, step))
  {
    if WriteOf(cfg, s, step).Some? {
      WriteKeepsOnce(cfg, s, step);
    } else if step.Crash? || step.Load? || step.PrepareRetry? {
      RecoveryStepKeepsOnce(cfg, s, step);
    } else {
      OtherStepsAreCalm(cfg, s, step);
      DownStaysIdle(cfg, s, step);
      CalmStepKeepsOnce(cfg, s, Apply(cfg, s, step));
    }
  }

  // No two calls of controller.Start carry the same session ID and deadline,
  // whatever operations overlap, if every close is recorded with a time that is
  // late enough.
  lemma {:induction false} DeadlinedRequestStartsAtMostOnce(cfg: Config, steps: seq<Step>)
    requires ConfigOk(cfg) && HonestRun(cfg, steps)
    ensures OnceInv(cfg, Run(cfg, steps))
    ensures NoRepeat(Run(cfg, steps).calls)
    decreases |steps|
  {
    if steps != [] {
      var front := steps[..|steps| - 1];
      DeadlinedRequestStartsAtMostOnce(cfg, front);
      StepKeepsOnce(cfg, Run(cfg, front), steps[|steps| - 1]);
    }
  }

  // ---- guarded runs close late ----

  // The controller reports no close time before the session was accepted.
  ghost predicate RepliesLate(s: State, step: Step) {
    step.StopReturns? && step.op in s.ops && s.ops[step.op].CallingStop? ==>
      var closed := ClosedFrom(s.ops[step.op].id, step.reply, s.now);
      closed.Some? ==> forall i | 0 <= i < |s.calls| && s.calls[i].id == s.ops[step.op].id ::
                         s.calls[i].acceptedAt <= closed.value
  }

  ghost predicate CandidRun(cfg: Config, steps: seq<Step>) {
    steps != [] ==>
      var s, step := Run(cfg, steps[..|steps| - 1]), steps[|steps| - 1];
      && CandidRun(cfg, steps[..|steps| - 1])
      && Timely(s, step) && RepliesLate(s, step) && CapHolds(cfg, s, step)
  }

  ghost predicate ConfirmationsLate(s: State) {
    forall op, i | op in s.ops && Confirmed(s.ops[op]).Some? && 0 <= i < |s.calls|
      && s.calls[i].id == OpId(s.ops[op]) ::
      s.calls[i].acceptedAt <= Confirmed(s.ops[op]).value
  }

  ghost predicate CallsPast(s: State) {
    forall i | 0 <= i < |s.calls| :: s.calls[i].acceptedAt <= s.now
  }

  lemma LateConfirmationsCloseLate(cfg: Config, s: State, step: Step)
    requires ConfirmationsLate(s)
    ensures ClosesLate(cfg, s, step)
  {
    if WriteOf(cfg, s, step).Some? {
      var w := WriteOf(cfg, s, step).value;
      WritesHaveShape(cfg, s, step);
      if IsTerminal(w.rec.status) {
        assert Confirmed(s.ops[step.op]).Some? && w.id == OpId(s.ops[step.op]);
      }
    }
  }

  lemma WriteKeepsConfirmations(cfg: Config, s: State, step: Step, w: Write)
    requires ConfirmationsLate(s) && Shape(s, step, w) && Clear(s, step) && Timely(s, step)
    ensures ConfirmationsLate(AfterWrite(cfg, s, step, w))
  {
    var ops, calls := OpsAfter(s, step, w), CallsAfter(s, step);
    OpsAfterWrite(s, step, w);
    forall op, i | op in ops && Confirmed(ops[op]).Some? && 0 <= i < |calls| && calls[i].id == OpId(ops[op])
      ensures calls[i].acceptedAt <= Confirmed(ops[op]).value
    {
      assert op in s.ops && s.ops[op] == ops[op];
    }
  }

  lemma CalmStepKeepsConfirmations(s: State, s': State)
    requires ConfirmationsLate(s) && CallsPast(s) && CalmStep(s, s')
    requires forall op | op in s'.ops && op in s.ops && s.ops[op].CallingStop? :: ConfirmedLate(s.calls, s'.ops[op])
    ensures ConfirmationsLate(s')
  {
    forall op, i | op in s'.ops && Confirmed(s'.ops[op]).Some? && 0 <= i < |s.calls|
      && s.calls[i].id == OpId(s'.ops[op])
      ensures s.calls[i].acceptedAt <= Confirmed(s'.ops[op]).value
    {
      assert (op in s.ops && s'.ops[op] == s.ops[op]) || Advances(s, op, s'.ops[op]);
    }
  }

  ghost predicate ConfirmedLate(calls: seq<Call>, o: Op) {
    Confirmed(o).Some? ==>
      forall i | 0 <= i < |calls| && calls[i].id == OpId(o) :: calls[i].acceptedAt <= Confirmed(o).value
  }

  // The only confirmation with a time of its own is the reply to Stop.
  lemma RepliesAreLate(cfg: Config, s: State, step: Step, op: nat)
    requires RepliesLate(s, step) && WriteOf(cfg, s, step).None?
    requires op in s.ops && s.ops[op].CallingStop? && op in Apply(cfg, s, step).ops
    ensures ConfirmedLate(s.calls, Apply(cfg, s, step).ops[op])
  {
    if Confirmed(Apply(cfg, s, step).ops[op]).Some? { assert step.StopReturns? && step.op == op; }
  }

  lemma StepKeepsConfirmations(cfg: Config, s: State, step: Step)
    requires ConfirmationsLate(s) && CallsPast(s) && Guarded(cfg, s, step) && Timely(s, step) && RepliesLate(s, step)
    ensures ConfirmationsLate(Apply(cfg, s, step))
  {
    if WriteOf(cfg, s, step).Some? {
      WritesHaveShape(cfg, s, step);
      WriteKeepsConfirmations(cfg, s, step, WriteOf(cfg, s, step).value);
    } else if !step.Crash? && !step.Load? && !step.PrepareRetry? {
      var s' := Apply(cfg, s, step);
      OtherStepsAreCalm(cfg, s, step);
      forall op | op in s'.ops && op in s.ops && s.ops[op].CallingStop? ensures ConfirmedLate(s.calls, s'.ops[op]) {
        RepliesAreLate(cfg, s, step, op);
      }
      CalmStepKeepsConfirmations(s, s');
    }
  }

  // So if no start is admitted beside another operation on its ID, close times
  // are late enough whenever the controller's are.
  lemma {:induction false} GuardedRunsAreHonest(cfg: Config, steps: seq<Step>)
    requires ConfigOk(cfg) && GuardedRun(cfg, steps) && CandidRun(cfg, steps)
    ensures HonestRun(cfg, steps) && ConfirmationsLate(Run(cfg, steps))
    decreases |steps|
  {
    if steps != [] {
      var front := steps[..|steps| - 1];
      GuardedRunsAreHonest(cfg, front);
      DeadlinedRequestStartsAtMostOnce(cfg, front);
      LateConfirmationsCloseLate(cfg, Run(cfg, front), steps[|steps| - 1]);
      StepKeepsConfirmations(cfg, Run(cfg, front), steps[|steps| - 1]);
    }
  }
}
