// Every record the manager keeps or writes passes its own recovery check.
module LifecycleRecords {
  import opened Text
  import opened Sessions
  import opened Persistence
  import opened Lifecycle

  // No stop finishes after its record has been pruned.
  ghost predicate Attended(s: State, step: Step) {
    step.FinishStop? && step.op in s.ops && s.ops[step.op].FinishingStop? ==> s.ops[step.op].id in s.im.mem
  }

  ghost predicate AttendedRun(cfg: Config, steps: seq<Step>) {
    steps != [] ==>
      && AttendedRun(cfg, steps[..|steps| - 1])
      && Attended(Run(cfg, steps[..|steps| - 1]), steps[|steps| - 1])
  }

  // What every record keeps under every status change: parameters that are
  // valid, but for the missing source of a web-only one, and the times and
  // runtime data of its status.
  predicate Sound(cfg: Config, now: int, r: SessionRecord) {
    && cfg.isUuid(r.sessionId)
    && (if r.webOnly then r.sourceIp == "" && r.ttlSeconds >= 1 else HasAnyParameter(r) ==> ValidParameters(cfg, r))
    && match r.status
       case Starting | Running =>
         && HasAnyParameter(r) && r.startedAt.Some? && r.expiresAt.Some?
         && (r.requestExpiresAt.Some? ==> r.requestExpiresAt == r.expiresAt)
         && (r.status.Running? ==> ValidRuntime(r) && !IsLate(r)
                                   && Bounded(cfg, now, r.startedAt.value, r.expiresAt.value))
       case Stopping | RevokeFailed => true
       case Closed | Expired | Failed => r.closedAt.Some?
       case Other(_) => false
  }

  // A session expires within the maximum TTL and skew of its start and of now.
  predicate Bounded(cfg: Config, now: int, startedAt: int, expiresAt: int) {
    expiresAt <= startedAt + cfg.maxTtl + CLOCK_SKEW && expiresAt <= now + cfg.maxTtl + CLOCK_SKEW
  }

  // The record says that the session starts when it has expired already.
  predicate IsLate(r: SessionRecord) {
    r.startedAt.Some? && r.expiresAt.Some? && r.expiresAt.value <= r.startedAt.value
  }

  // Neither web-only nor the record of a start accepted after its deadline.
  predicate Plain(r: SessionRecord) {
    !r.webOnly && (r.status.Starting? ==> !IsLate(r))
  }

  // A sound record passes validateRecord exactly when it is closed or plain.
  lemma SoundIsValid(cfg: Config, now: int, r: SessionRecord)
    requires ConfigOk(cfg) && Sound(cfg, now, r)
    ensures ValidRecord(cfg, r) <==> IsTerminal(r.status) || Plain(r)
  {}

  ghost predicate AllSound(cfg: Config, now: int, m: SessionMap) {
    forall id | id in m :: m[id].sessionId == id && Sound(cfg, now, m[id])
  }

  predicate WriteSound(cfg: Config, now: int, w: Write) {
    && w.rec.sessionId == w.id && Sound(cfg, now, w.rec)
    && (w.undo.Some? ==> w.undo.value.sessionId == w.id && Sound(cfg, now, w.undo.value))
  }

  // What a start in flight knows of its request and record.
  ghost predicate StartIsSound(cfg: Config, mem: SessionMap, now: int, o: Op)
    requires IsStart(o)
  {
    && BoundedRequest(cfg, o.q, o.validatedAt) && o.validatedAt <= o.acceptedAt <= now
    && (OpId(o) in mem ==> mem[OpId(o)].requestExpiresAt == o.q.expiresAt)
    && (o.Activating? ==> o.acceptedAt <= o.completedAt <= now)
  }

  ghost predicate OpsSound(cfg: Config, mem: SessionMap, now: int, ops: map<nat, Op>) {
    && (forall op | op in ops && IsStart(ops[op]) :: StartIsSound(cfg, mem, now, ops[op]))
    && (forall op | op in ops && ops[op].Reconciling? :: IsTerminal(ops[op].terminal))
  }

  ghost predicate NamesAreIds(cfg: Config, ops: map<nat, Op>) {
    forall op | op in ops :: cfg.isUuid(OpId(ops[op]))
  }

  ghost predicate RecordsInv(cfg: Config, s: State) {
    && NamesAreIds(cfg, s.ops)
    && AllSound(cfg, s.now, s.im.mem) && AllSound(cfg, s.now, s.im.disk)
    && OpsSound(cfg, s.im.mem, s.now, s.ops)
  }

  // Closing, reopening or re-stopping a sound record keeps it sound.
  lemma StatusChangeIsSound(cfg: Config, now: int, r: SessionRecord, status: Status, reason: string,
    closedAt: Option<int>)
    requires Sound(cfg, now, r)
    requires status.Stopping? || status.RevokeFailed? || (IsTerminal(status) && closedAt.Some?)
    ensures Sound(cfg, now, r.(status := status, closeReason := reason, closedAt := closedAt))
  {
  }

  lemma BlankIsSound(cfg: Config, now: int, id: string, reason: string)
    requires cfg.isUuid(id)
    ensures Sound(cfg, now, Blank(id).(status := Stopping, closeReason := reason))
  {
  }

  lemma CommitIsSound(cfg: Config, im: Image, w: Write, now: int, save: SaveOutcome)
    requires AllSound(cfg, now, im.mem) && AllSound(cfg, now, im.disk)
    requires WriteSound(cfg, now, w)
    ensures AllSound(cfg, now, Commit(cfg, im, w, now, save).mem)
    ensures AllSound(cfg, now, Commit(cfg, im, w, now, save).disk)
  {
  }

  lemma StopWriteIsSound(cfg: Config, now: int, mem: SessionMap, id: string, reason: string, closed: Option<int>)
    requires AllSound(cfg, now, mem) && id in mem
    ensures WriteSound(cfg, now, FinishStopWrite(mem, id, reason, closed))
  {
    var r := mem[id];
    if closed.Some? {
      StatusChangeIsSound(cfg, now, r, TerminalStatus(reason), reason, closed);
      StatusChangeIsSound(cfg, now, r, RevokeFailed, reason, None);
    } else {
      StatusChangeIsSound(cfg, now, r, RevokeFailed, reason, r.closedAt);
    }
  }

  lemma CompensationWriteIsSound(cfg: Config, now: int, mem: SessionMap, id: string, reason: string,
    closed: Option<int>)
    requires AllSound(cfg, now, mem) && cfg.isUuid(id)
    ensures WriteSound(cfg, now, CompensationWrite(mem, id, reason, closed))
  {
    if id in mem {
      var r := mem[id];
      if closed.Some? {
        StatusChangeIsSound(cfg, now, r, Failed, reason, closed);
        StatusChangeIsSound(cfg, now, r, RevokeFailed, reason, None);
      } else {
        StatusChangeIsSound(cfg, now, r, RevokeFailed, reason, r.closedAt);
      }
    }
  }

  lemma DecideStopIsSound(cfg: Config, now: int, mem: SessionMap, id: string, reason: string)
    requires AllSound(cfg, now, mem) && cfg.isUuid(id) && DecideStop(mem, id, reason).MayStop?
    ensures WriteSound(cfg, now, DecideStop(mem, id, reason).write)
  {
    var d := DecideStop(mem, id, reason);
    if id in mem {
      StatusChangeIsSound(cfg, now, mem[id], Stopping, d.reason, mem[id].closedAt);
    } else {
      BlankIsSound(cfg, now, id, d.reason);
    }
  }

  lemma ActivationIsSound(cfg: Config, s: State, op: nat)
    requires ConfigOk(cfg) && RecordsInv(cfg, s) && op in s.ops && s.ops[op].Activating?
    requires OpId(s.ops[op]) in s.im.mem && s.im.mem[OpId(s.ops[op])].status == Starting
    requires CheckedTimes(s.ops[op].q, s.ops[op].response, s.ops[op].acceptedAt, s.ops[op].completedAt).Some?
    ensures
      var o := s.ops[op];
      var times := CheckedTimes(o.q, o.response, o.acceptedAt, o.completedAt).value;
      Sound(cfg, s.now, RunningRecord(s.im.mem[OpId(o)], o.response, times.0, times.1))
  {
    var o := s.ops[op];
    assert StartIsSound(cfg, s.im.mem, s.now, o);
    RunningTimes(cfg, o.q, o.validatedAt, o.response, o.acceptedAt, o.completedAt);
  }

  lemma ReconcileIsSound(cfg: Config, now: int, r: SessionRecord, id: string, terminal: Status, at: int)
    requires Sound(cfg, now, r) && r.sessionId == id && IsTerminal(terminal)
    ensures WriteSound(cfg, now, ReconcileWrite(r, id, terminal, at))
  {
    StatusChangeIsSound(cfg, now, r, terminal, "controller_status", Some(at));
  }

  lemma AdmissionIsSound(cfg: Config, now: int, q: CreateRequest, validatedAt: int, acceptedAt: int)
    requires ConfigOk(cfg) && ValidRequest(cfg, q, validatedAt)
    ensures WriteSound(cfg, now, Write(q.sessionId, StartingRecord(q, acceptedAt), None))
  {
    // validity at an acceptance before the deadline, which nothing else depends on
    StartingRecordIsValid(cfg, q, validatedAt, validatedAt);
  }

  lemma WriteIsSound(cfg: Config, s: State, step: Step)
    requires ConfigOk(cfg) && RecordsInv(cfg, s) && LifecycleInv(s) && Attended(s, step)
    requires WriteOf(cfg, s, step).Some?
    ensures WriteSound(cfg, s.now, WriteOf(cfg, s, step).value)
  {
    match step
    case BeginStart(op, q, validatedAt, acceptedAt, _) => AdmissionIsSound(cfg, s.now, q, validatedAt, acceptedAt);
    case Activate(op, _) => ActivationIsSound(cfg, s, op);
    case FinishCompensation(op, _) =>
      CompensationWriteIsSound(cfg, s.now, s.im.mem, s.ops[op].id, s.ops[op].reason, s.ops[op].closed);
    case BeginStop(op, id, reason, _) => DecideStopIsSound(cfg, s.now, s.im.mem, id, reason);
    case FinishStop(op, _) =>
      StopWriteIsSound(cfg, s.now, s.im.mem, s.ops[op].id, s.ops[op].reason, s.ops[op].closed);
    case Reconcile(op, at, _) =>
      ReconcileIsSound(cfg, s.now, s.im.mem[s.ops[op].id], s.ops[op].id, s.ops[op].terminal, at);
  }

  // A start in flight knows as much after another operation's write.
  lemma OtherStartStaysSound(cfg: Config, s: State, step: Step, w: Write, mem: SessionMap, op: nat)
    requires RecordsInv(cfg, s) && LifecycleInv(s) && Shape(s, step, w)
    requires forall id | id in mem && id != w.id :: id in s.im.mem && mem[id] == s.im.mem[id]
    requires op in s.ops && op != step.op && IsStart(s.ops[op])
    ensures StartIsSound(cfg, mem, s.now, s.ops[op])
  {
    WriteRespectsOwners(s, step, w);
    assert StartIsSound(cfg, s.im.mem, s.now, s.ops[op]);
  }

  lemma WriteKeepsOps(cfg: Config, s: State, step: Step, w: Write, mem: SessionMap)
    requires RecordsInv(cfg, s) && LifecycleInv(s) && Shape(s, step, w)
    requires forall id | id in mem && id != w.id :: id in s.im.mem && mem[id] == s.im.mem[id]
    requires step.BeginStart? ==>
      && BoundedRequest(cfg, step.q, step.validatedAt) && step.validatedAt <= step.acceptedAt <= s.now
      && (w.id in mem ==> mem[w.id].requestExpiresAt == step.q.expiresAt)
    ensures OpsSound(cfg, mem, s.now, OpsAfter(s, step, w))
  {
    var ops := OpsAfter(s, step, w);
    OpsAfterWrite(s, step, w);
    forall op | op in ops && IsStart(ops[op]) ensures StartIsSound(cfg, mem, s.now, ops[op]) {
      if op != step.op { OtherStartStaysSound(cfg, s, step, w, mem, op); }
    }
  }

  lemma WriteKeepsNames(cfg: Config, s: State, step: Step)
    requires NamesAreIds(cfg, s.ops) && WriteOf(cfg, s, step).Some?
    ensures NamesAreIds(cfg, OpsAfter(s, step, WriteOf(cfg, s, step).value))
  {}

  lemma WriteKeepsRecords(cfg: Config, s: State, step: Step)
    requires ConfigOk(cfg) && RecordsInv(cfg, s) && LifecycleInv(s)
    requires Guarded(cfg, s, step) && Attended(s, step)
    requires WriteOf(cfg, s, step).Some?
    ensures RecordsInv(cfg, AfterWrite(cfg, s, step, WriteOf(cfg, s, step).value))
  {
    var w := WriteOf(cfg, s, step).value;
    WritesHaveShape(cfg, s, step);
    WriteKeepsNames(cfg, s, step);
    WriteIsSound(cfg, s, step);
    CommitIsSound(cfg, s.im, w, s.now, step.save);
    forall id | id in Commit(cfg, s.im, w, s.now, step.save).mem && id != w.id
      ensures id in s.im.mem && Commit(cfg, s.im, w, s.now, step.save).mem[id] == s.im.mem[id]
    {
      CommitLeavesOthers(cfg, s.im, w, s.now, step.save, id);
    }
    WriteKeepsOps(cfg, s, step, w, Commit(cfg, s.im, w, s.now, step.save).mem);
  }

  lemma CalmStepKeepsRecords(cfg: Config, s: State, s': State)
    requires RecordsInv(cfg, s) && CalmStep(s, s')
    ensures RecordsInv(cfg, s')
  {
    forall op | op in s'.ops && IsStart(s'.ops[op]) ensures StartIsSound(cfg, s'.im.mem, s'.now, s'.ops[op]) {
      assert (op in s.ops && s'.ops[op] == s.ops[op]) || Advances(s, op, s'.ops[op]);
      assert StartIsSound(cfg, s.im.mem, s.now, s.ops[op]);
    }
  }

  lemma LoadKeepsRecords(cfg: Config, s: State, save: SaveOutcome)
    requires RecordsInv(cfg, s) && s.phase.Down? && s.ops == map[]
    ensures RecordsInv(cfg, AfterLoad(cfg, s, save))
  {
  }

  lemma RetryKeepsRecords(cfg: Config, s: State, step: Step)
    requires RecordsInv(cfg, s) && (step.PrepareRetry? || step.Crash?)
    ensures RecordsInv(cfg, Apply(cfg, s, step))
  {
    if step.PrepareRetry? && step.id in s.im.mem {
      StatusChangeIsSound(cfg, s.now, s.im.mem[step.id], RevokeFailed, step.reason, s.im.mem[step.id].closedAt);
    }
  }

  lemma StepKeepsRecords(cfg: Config, s: State, step: Step)
    requires ConfigOk(cfg) && RecordsInv(cfg, s) && LifecycleInv(s)
    requires Guarded(cfg, s, step) && Attended(s, step)
    ensures RecordsInv(cfg, Apply(cfg, s, step))
  {
    if WriteOf(cfg, s, step).Some? {
      WriteKeepsRecords(cfg, s, step);
    } else if step.Load? {
      if s.phase.Down? { LoadKeepsRecords(cfg, s, step.save); }
    } else if step.Crash? || step.PrepareRetry? {
      RetryKeepsRecords(cfg, s, step);
    } else {
      OtherStepsAreCalm(cfg, s, step);
      CalmStepKeepsRecords(cfg, s, Apply(cfg, s, step));
    }
  }

  lemma LoadAcceptsValidFiles(cfg: Config, s: State)
    requires s.phase.Down?
    ensures Apply(cfg, s, Load(Saved)).phase.Recovering?
      <==> forall id | id in s.im.disk :: ValidRecord(cfg, s.im.disk[id])
  {}

  // A record on disk passes validateRecord exactly when it is closed or plain, so
  // recovery accepts the file exactly when all its active records are plain;
  // every running session expires within the maximum TTL and skew of its start.
  ghost predicate RecoverableIfPlain(cfg: Config, s: State) {
    && (forall id | id in s.im.disk ::
          ValidRecord(cfg, s.im.disk[id]) <==> IsTerminal(s.im.disk[id].status) || Plain(s.im.disk[id]))
    && (forall id | id in s.im.mem && s.im.mem[id].status.Running? :: HasBoundedTimes(cfg, s.now, s.im.mem[id]))
    && (s.phase.Down? ==>
        (Apply(cfg, s, Load(Saved)).phase.Recovering?
         <==> forall id | id in s.im.disk && !IsTerminal(s.im.disk[id].status) :: Plain(s.im.disk[id])))
  }

  predicate HasBoundedTimes(cfg: Config, now: int, r: SessionRecord) {
    r.startedAt.Some? && r.expiresAt.Some? && Bounded(cfg, now, r.startedAt.value, r.expiresAt.value)
  }

  lemma RecordsInvIsRecoverable(cfg: Config, s: State)
    requires ConfigOk(cfg) && RecordsInv(cfg, s)
    ensures RecoverableIfPlain(cfg, s)
  {
    forall id | id in s.im.disk
      ensures ValidRecord(cfg, s.im.disk[id]) <==> IsTerminal(s.im.disk[id].status) || Plain(s.im.disk[id])
    {
      SoundIsValid(cfg, s.now, s.im.disk[id]);
    }
    if s.phase.Down? { LoadAcceptsValidFiles(cfg, s); }
  }

  // This is so in every run whose starts find their sessions clear and in which
  // no stop finishes after its record has been pruned.
  lemma {:induction false} RecordsStayValid(cfg: Config, steps: seq<Step>)
    requires ConfigOk(cfg) && GuardedRun(cfg, steps) && AttendedRun(cfg, steps)
    ensures RecordsInv(cfg, Run(cfg, steps)) && RecoverableIfPlain(cfg, Run(cfg, steps))
    decreases |steps|
  {
    if steps != [] {
      var front := steps[..|steps| - 1];
      RecordsStayValid(cfg, front);
      LiveSessionsAreNeverOrphaned(cfg, front);
      StepKeepsRecords(cfg, Run(cfg, front), steps[|steps| - 1]);
    }
    RecordsInvIsRecoverable(cfg, Run(cfg, steps));
  }

  // ---- runs of plain requests ----

  // No request is web-only or accepted after its deadline.
  predicate PlainStep(step: Step) {
    step.BeginStart? ==>
      !step.q.webOnly && (step.q.expiresAt.Some? ==> step.acceptedAt < step.q.expiresAt.value)
  }

  ghost predicate PlainRun(steps: seq<Step>) {
    forall i | 0 <= i < |steps| :: PlainStep(steps[i])
  }

  ghost predicate AllPlain(m: SessionMap) {
    forall id | id in m :: Plain(m[id])
  }

  predicate PlainWrite(w: Write) {
    Plain(w.rec) && (w.undo.Some? ==> Plain(w.undo.value))
  }

  lemma WriteIsPlain(cfg: Config, s: State, step: Step)
    requires RecordsInv(cfg, s) && AllPlain(s.im.mem) && PlainStep(step) && WriteOf(cfg, s, step).Some?
    ensures PlainWrite(WriteOf(cfg, s, step).value)
  {}

  lemma CommitKeepsPlain(cfg: Config, im: Image, w: Write, now: int, save: SaveOutcome)
    requires AllPlain(im.mem) && AllPlain(im.disk) && PlainWrite(w)
    ensures AllPlain(Commit(cfg, im, w, now, save).mem) && AllPlain(Commit(cfg, im, w, now, save).disk)
  {}

  lemma StepKeepsPlain(cfg: Config, s: State, step: Step)
    requires RecordsInv(cfg, s) && AllPlain(s.im.mem) && AllPlain(s.im.disk) && PlainStep(step)
    ensures AllPlain(Apply(cfg, s, step).im.mem) && AllPlain(Apply(cfg, s, step).im.disk)
  {
    if WriteOf(cfg, s, step).Some? {
      WriteIsPlain(cfg, s, step);
      CommitKeepsPlain(cfg, s.im, WriteOf(cfg, s, step).value, s.now, step.save);
    } else if !step.Crash? && !step.Load? && !step.PrepareRetry? {
      OtherStepsAreCalm(cfg, s, step);
    }
  }

  lemma {:induction false} PlainRunsStayPlain(cfg: Config, steps: seq<Step>)
    requires ConfigOk(cfg) && GuardedRun(cfg, steps) && AttendedRun(cfg, steps) && PlainRun(steps)
    ensures AllPlain(Run(cfg, steps).im.mem) && AllPlain(Run(cfg, steps).im.disk)
    decreases |steps|
  {
    if steps != [] {
      var front := steps[..|steps| - 1];
      assert forall i | 0 <= i < |front| :: front[i] == steps[i];
      PlainRunsStayPlain(cfg, front);
      RecordsStayValid(cfg, front);
      StepKeepsPlain(cfg, Run(cfg, front), steps[|steps| - 1]);
    }
  }

  // Of plain requests recovery never refuses the agent's own file.
  lemma PlainRunsStayRecoverable(cfg: Config, steps: seq<Step>)
    requires ConfigOk(cfg) && GuardedRun(cfg, steps) && AttendedRun(cfg, steps) && PlainRun(steps)
    ensures forall id | id in Run(cfg, steps).im.disk :: ValidRecord(cfg, Run(cfg, steps).im.disk[id])
    ensures Run(cfg, steps).phase.Down? ==> Apply(cfg, Run(cfg, steps), Load(Saved)).phase.Recovering?
  {
    RecordsStayValid(cfg, steps);
    PlainRunsStayPlain(cfg, steps);
  }

  // ---- stops without a record ----

  // What Stop writes at its end is valid if and only if its record is still
  // there, and it is closed or not web-only: for a pruned record the code
  // writes one without a session ID.
  lemma StopWritesValidExactlyWithRecord(cfg: Config, now: int, mem: SessionMap, id: string, reason: string,
    closed: Option<int>)
    requires ConfigOk(cfg) && AllSound(cfg, now, mem)
    ensures ValidRecord(cfg, FinishStopWrite(mem, id, reason, closed).rec)
       <==> id in mem && (closed.Some? || !mem[id].webOnly)
  {
    if id in mem {
      StopWriteIsSound(cfg, now, mem, id, reason, closed);
      SoundIsValid(cfg, now, FinishStopWrite(mem, id, reason, closed).rec);
    }
  }

  // An unconfirmed stop without a record leaves a file that is refused.
  lemma LostStopSpoilsFile(cfg: Config, s: State, op: nat)
    requires ConfigOk(cfg) && op in s.ops && s.ops[op].FinishingStop? && s.ops[op].closed.None?
    requires s.ops[op].id !in s.im.mem
    ensures var stopped := Apply(cfg, s, FinishStop(op, Saved));
            Apply(cfg, Apply(cfg, stopped, Crash), Load(Saved)).phase.Down?
  {
    var id := s.ops[op].id;
    var stopped := Apply(cfg, s, FinishStop(op, Saved));
    LostStopIsOnDisk(cfg, s, op);
    var down := Apply(cfg, stopped, Crash);
    assert down.phase.Down? && down.im.disk == stopped.im.disk;
    LoadAcceptsValidFiles(cfg, down);
  }

  lemma LostStopIsOnDisk(cfg: Config, s: State, op: nat)
    requires ConfigOk(cfg) && op in s.ops && s.ops[op].FinishingStop? && s.ops[op].closed.None?
    requires s.ops[op].id !in s.im.mem
    ensures var disk := Apply(cfg, s, FinishStop(op, Saved)).im.disk;
            s.ops[op].id in disk && !ValidRecord(cfg, disk[s.ops[op].id])
  {}
}
