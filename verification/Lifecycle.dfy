// The gateway agent's session lifecycle as a state machine. A step is one
// region of Manager code run under its lock, one return of a controller call
// (made outside the lock), a crash, or a piece of recovery.
module Lifecycle {
  import opened Text
  import opened Sessions
  import opened Persistence

  // A failed save leaves the old or the new contents on disk: the rename comes
  // before the directory sync.
  datatype SaveOutcome = Saved | FailedOld | FailedNew

  // The session map in memory and the state file.
  datatype Image = Image(mem: SessionMap, disk: SessionMap)

  // Every locked region sets one record, saves, and on a failed save puts
  // another record back (or deletes the entry).
  datatype Write = Write(id: string, rec: SessionRecord, undo: Option<SessionRecord>)

  ghost function Commit(cfg: Config, im: Image, w: Write, now: int, save: SaveOutcome): Image {
    var mem := im.mem[w.id := w.rec];
    var kept := Retained(cfg, mem, now);
    var undone := if w.undo.Some? then mem[w.id := w.undo.value] else mem - {w.id};
    match save
    case Saved => Image(kept, kept)
    case FailedOld => Image(undone, im.disk)
    case FailedNew => Image(undone, kept)
  }

  // ---- the decisions taken under the lock ----

  // Go's map lookup: the zero record for a missing key.
  function Lookup(mem: SessionMap, id: string): SessionRecord {
    if id in mem then mem[id] else Blank("")
  }

  function ActiveIds(mem: SessionMap): set<string> {
    set id | id in mem && IsActive(mem[id].status)
  }

  datatype Admission = Admitted | Replayed(record: SessionRecord) | InProgress | Conflict | AtCapacity

  function Admit(cfg: Config, mem: SessionMap, rec: SessionRecord): Admission {
    if rec.sessionId in mem then
      var existing := mem[rec.sessionId];
      if !SameParameters(existing, rec) then Conflict
      else match existing.status
           case Starting | Stopping | RevokeFailed => InProgress
           case Running => Replayed(existing)
           case _ => Conflict
    else if |ActiveIds(mem)| >= cfg.maxSessions then AtCapacity
    else Admitted
  }

  datatype StopDecision = AlreadyClosed(record: SessionRecord) | StopInProgress | MayStop(reason: string, write: Write)

  function DecideStop(mem: SessionMap, id: string, requested: string): StopDecision {
    var reason := NormalizeReason(requested);
    if id !in mem then
      MayStop(reason, Write(id, Blank(id).(status := Stopping, closeReason := reason), None))
    else
      var record := mem[id];
      match record.status
      case Closed | Expired | Failed => AlreadyClosed(record)
      case Starting | Stopping => StopInProgress
      case _ =>
        var kept := if record.closeReason != "" && record.status == RevokeFailed
                       && reason != "ttl_expired" && reason != "expired"
                    then record.closeReason else reason;
        MayStop(kept, Write(id, record.(status := Stopping, closeReason := kept), Some(record)))
  }

  function FinishStopWrite(mem: SessionMap, id: string, reason: string, closed: Option<int>): Write {
    var record := Lookup(mem, id).(closeReason := reason);
    if closed.Some? then
      Write(id, record.(status := TerminalStatus(reason), closedAt := closed),
            Some(record.(status := RevokeFailed, closedAt := None)))
    else
      Write(id, record.(status := RevokeFailed), Some(record.(status := RevokeFailed)))
  }

  // finishFailedStart, after its controller call
  function CompensationWrite(mem: SessionMap, id: string, reason: string, closed: Option<int>): Write {
    var record := (if id in mem then mem[id] else Blank(id)).(closeReason := reason);
    if closed.Some? then
      Write(id, record.(status := Failed, closedAt := closed), Some(record.(status := RevokeFailed, closedAt := None)))
    else
      Write(id, record.(status := RevokeFailed), Some(record.(status := RevokeFailed)))
  }

  function ReconcileWrite(record: SessionRecord, id: string, terminal: Status, at: int): Write {
    Write(id, record.(status := terminal, closeReason := "controller_status", closedAt := Some(at)), Some(record))
  }

  // ---- states ----

  // An operation between two of its locked regions.
  datatype Op =
    | CallingStart(q: CreateRequest, validatedAt: int, acceptedAt: int)
    | Activating(q: CreateRequest, validatedAt: int, acceptedAt: int, completedAt: int, response: CreateResponse)
    | CallingCompensation(id: string, reason: string)
    | Compensating(id: string, reason: string, closed: Option<int>)
    | CallingStop(id: string, reason: string)
    | FinishingStop(id: string, reason: string, closed: Option<int>)
    | CallingStatus(id: string)
    | Reconciling(id: string, terminal: Status, since: int)

  function OpId(op: Op): string {
    match op
    case CallingStart(q, _, _) => q.sessionId
    case Activating(q, _, _, _, _) => q.sessionId
    case _ => op.id
  }

  predicate IsStart(op: Op) {
    op.CallingStart? || op.Activating?
  }

  // The operation has the controller's word that its session is gone; the close
  // time it will record is this one, or for a Get no earlier than this.
  function Confirmed(op: Op): Option<int> {
    match op
    case Compensating(_, _, closed) => closed
    case FinishingStop(_, _, closed) => closed
    case Reconciling(_, _, since) => Some(since)
    case _ => None
  }

  datatype Phase = Down | Recovering | Serving

  // An admitted request: the record is saved and controller.Start is called.
  datatype Call = Call(id: string, deadline: Option<int>, acceptedAt: int)

  datatype State = State(
    im: Image,
    live: set<string>,      // sessions the controller is serving
    ops: map<nat, Op>,      // operations in flight
    now: int,
    phase: Phase,
    calls: seq<Call>)       // every call of controller.Start so far

  function Init(): State {
    State(Image(map[], map[]), {}, map[], 0, Down, [])
  }

  // ---- steps ----

  datatype Step =
    | Tick(to: int)
    | BeginStart(op: nat, q: CreateRequest, validatedAt: int, acceptedAt: int, save: SaveOutcome)
    | StartReturns(op: nat, result: Option<CreateResponse>, started: bool)
    | Activate(op: nat, save: SaveOutcome)
    | CompensationReturns(op: nat, reply: Option<CloseResponse>, stopped: bool)
    | FinishCompensation(op: nat, save: SaveOutcome)
    | BeginStop(op: nat, id: string, reason: string, save: SaveOutcome)
    | StopReturns(op: nat, reply: Option<CloseResponse>, stopped: bool)
    | FinishStop(op: nat, save: SaveOutcome)
    | BeginGet(op: nat, id: string)
    | StatusReturns(op: nat, ended: Option<Status>)
    | Reconcile(op: nat, at: int, save: SaveOutcome)
    | ControllerEnds(id: string)
    | Crash
    | Load(save: SaveOutcome)
    | PrepareRetry(id: string, reason: string)
    | Restore(id: string, started: bool)
    | EndRecovery

  // What the step writes under the lock, if it writes at all.
  function WriteOf(cfg: Config, s: State, step: Step): (w: Option<Write>)
    ensures w.Some? ==> IsLocked(step)
  {
    match step
    case BeginStart(op, q, validatedAt, acceptedAt, _) =>
      if s.phase.Serving? && op !in s.ops && validatedAt <= acceptedAt <= s.now
         && ValidRequest(cfg, q, validatedAt) && Admit(cfg, s.im.mem, StartingRecord(q, acceptedAt)).Admitted?
      then Some(Write(q.sessionId, StartingRecord(q, acceptedAt), None)) else None
    case Activate(op, _) =>
      if op in s.ops && s.ops[op].Activating? && OpId(s.ops[op]) in s.im.mem
         && s.im.mem[OpId(s.ops[op])].status == Starting
      then
        var o := s.ops[op];
        var times := CheckedTimes(o.q, o.response, o.acceptedAt, o.completedAt);
        if times.Some? then
          var running := RunningRecord(s.im.mem[OpId(o)], o.response, times.value.0, times.value.1);
          Some(Write(OpId(o), running, Some(running)))
        else None
      else None
    case FinishCompensation(op, _) =>
      if op in s.ops && s.ops[op].Compensating?
      then Some(CompensationWrite(s.im.mem, s.ops[op].id, s.ops[op].reason, s.ops[op].closed)) else None
    case BeginStop(op, id, reason, _) =>
      if !s.phase.Down? && op !in s.ops && cfg.isUuid(id) && DecideStop(s.im.mem, id, reason).MayStop?
      then Some(DecideStop(s.im.mem, id, reason).write) else None
    case FinishStop(op, _) =>
      if op in s.ops && s.ops[op].FinishingStop?
      then Some(FinishStopWrite(s.im.mem, s.ops[op].id, s.ops[op].reason, s.ops[op].closed)) else None
    case Reconcile(op, at, _) =>
      if Reconciles(s, op, at) && s.ops[op].id in s.im.mem && s.im.mem[s.ops[op].id].status == Running
      then Some(ReconcileWrite(s.im.mem[s.ops[op].id], s.ops[op].id, s.ops[op].terminal, at)) else None
    case _ => None
  }

  // A Get that has read the clock since it learnt of the end.
  predicate Reconciles(s: State, op: nat, at: int) {
    op in s.ops && s.ops[op].Reconciling? && s.ops[op].since <= at <= s.now
  }

  predicate IsLocked(step: Step) {
    || step.BeginStart? || step.Activate? || step.FinishCompensation?
    || step.BeginStop? || step.FinishStop? || step.Reconcile?
  }

  // The operations left in flight by a locked region that wrote w.
  function OpsAfter(s: State, step: Step, w: Write): map<nat, Op>
    requires IsLocked(step)
  {
    var saved := step.save == Saved;
    match step
    case BeginStart(op, q, validatedAt, acceptedAt, _) =>
      if saved then s.ops[op := CallingStart(q, validatedAt, acceptedAt)] else s.ops
    case Activate(op, _) =>
      if saved then s.ops - {op} else s.ops[op := CallingCompensation(w.id, "persist_running_failed")]
    case BeginStop(op, id, _, _) =>
      if saved then s.ops[op := CallingStop(id, w.rec.closeReason)] else s.ops
    case _ => s.ops - {step.op}
  }

  function CallsAfter(s: State, step: Step): seq<Call> {
    if step.BeginStart? && step.save == Saved
    then s.calls + [Call(step.q.sessionId, step.q.expiresAt, step.acceptedAt)] else s.calls
  }

  ghost function AfterWrite(cfg: Config, s: State, step: Step, w: Write): State
    requires IsLocked(step)
  {
    s.(im := Commit(cfg, s.im, w, s.now, step.save), ops := OpsAfter(s, step, w), calls := CallsAfter(s, step))
  }

  function ClosedFrom(id: string, reply: Option<CloseResponse>, now: int): Option<int> {
    if reply.Some? && ValidClose(id, reply.value, now)
    then Some(if reply.value.closedAt.Some? then reply.value.closedAt.value else now) else None
  }

  // One step from any state; a step that is not enabled changes nothing.
  ghost function Apply(cfg: Config, s: State, step: Step): State {
    var w := WriteOf(cfg, s, step);
    if w.Some? then AfterWrite(cfg, s, step, w.value)
    else
      match step
      case Tick(to) => if s.now <= to then s.(now := to) else s
      case StartReturns(op, result, started) => if op in s.ops && s.ops[op].CallingStart?
        then AfterStart(s, op, result, started) else s
      case Activate(op, _) => if op in s.ops && s.ops[op].Activating?
        then s.(ops := s.ops[op := CallingCompensation(OpId(s.ops[op]), "state_conflict_after_start")]) else s
      case CompensationReturns(op, reply, stopped) => if op in s.ops && s.ops[op].CallingCompensation?
        then AfterCompensation(s, op, reply, stopped) else s
      case StopReturns(op, reply, stopped) => if op in s.ops && s.ops[op].CallingStop?
        then AfterStop(s, op, reply, stopped) else s
      case BeginGet(op, id) =>
        if s.phase.Serving? && op !in s.ops && id in s.im.mem && s.im.mem[id].status == Running
           && (s.im.mem[id].expiresAt.Some? ==> s.now < s.im.mem[id].expiresAt.value)
        then s.(ops := s.ops[op := CallingStatus(id)]) else s
      case StatusReturns(op, ended) => if op in s.ops && s.ops[op].CallingStatus?
        then AfterStatus(s, op, ended) else s
      case Reconcile(op, at, _) => if Reconciles(s, op, at) then s.(ops := s.ops - {op}) else s
      case ControllerEnds(id) => s.(live := s.live - {id})
      case Crash => s.(im := Image(map[], s.im.disk), ops := map[], phase := Down)
      case Load(save) => if s.phase.Down? then AfterLoad(cfg, s, save) else s
      case PrepareRetry(id, reason) =>
        if s.phase.Recovering? && s.ops == map[] && id in s.im.mem && IsActive(s.im.mem[id].status)
        then s.(im := s.im.(mem := s.im.mem[id := s.im.mem[id].(status := RevokeFailed, closeReason := reason)])) else s
      case Restore(id, started) =>
        if s.phase.Recovering? && s.ops == map[] && started && id in s.im.mem && s.im.mem[id].status == Running
        then s.(live := s.live + {id}) else s
      case EndRecovery => if s.phase.Recovering? && s.ops == map[] then s.(phase := Serving) else s
      case _ => s
  }

  // A start that succeeds is live; a failed or rejected one may be.
  function AfterStart(s: State, op: nat, result: Option<CreateResponse>, started: bool): State
    requires op in s.ops && s.ops[op].CallingStart?
  {
    var o := s.ops[op];
    var id := o.q.sessionId;
    if result.Some? && CheckedTimes(o.q, result.value, o.acceptedAt, s.now).Some? then
      s.(live := s.live + {id},
         ops := s.ops[op := Activating(o.q, o.validatedAt, o.acceptedAt, s.now, result.value)])
    else
      s.(live := if started then s.live + {id} else s.live,
         ops := s.ops[op := CallingCompensation(
           id, if result.Some? then "invalid_controller_response" else "controller_start_failed")])
  }

  // A close reply that validateCloseResponse accepts means the session is gone; after any
  // other outcome it may or may not be.
  function AfterCompensation(s: State, op: nat, reply: Option<CloseResponse>, stopped: bool): State
    requires op in s.ops && s.ops[op].CallingCompensation?
  {
    var id := s.ops[op].id;
    var confirmed := ClosedFrom(id, reply, s.now).Some?;
    s.(live := if confirmed || stopped then s.live - {id} else s.live,
       ops := s.ops[op := Compensating(id, s.ops[op].reason, if confirmed then Some(s.now) else None)])
  }

  function AfterStop(s: State, op: nat, reply: Option<CloseResponse>, stopped: bool): State
    requires op in s.ops && s.ops[op].CallingStop?
  {
    var id := s.ops[op].id;
    var closed := ClosedFrom(id, reply, s.now);
    s.(live := if closed.Some? || stopped then s.live - {id} else s.live,
       ops := s.ops[op := FinishingStop(id, s.ops[op].reason, closed)])
  }

  // The controller reports a terminal status only for a session that is gone.
  function AfterStatus(s: State, op: nat, ended: Option<Status>): State
    requires op in s.ops && s.ops[op].CallingStatus?
  {
    var id := s.ops[op].id;
    if ended.Some? && IsTerminal(ended.value) && id !in s.live
    then s.(ops := s.ops[op := Reconciling(id, ended.value, s.now)])
    else s.(ops := s.ops - {op})
  }

  // Recover: read the file, refuse it if any record is invalid, compact it.
  ghost function AfterLoad(cfg: Config, s: State, save: SaveOutcome): State
    requires s.phase.Down?
  {
    var kept := Retained(cfg, s.im.disk, s.now);
    if !(forall id | id in s.im.disk :: ValidRecord(cfg, s.im.disk[id])) then s
    else match save
         case Saved => s.(im := Image(kept, kept), phase := Recovering)
         case FailedOld => s
         case FailedNew => s.(im := Image(map[], kept))
  }

  // ---- runs ----

  ghost function Run(cfg: Config, steps: seq<Step>): State {
    if steps == [] then Init() else Apply(cfg, Run(cfg, steps[..|steps| - 1]), steps[|steps| - 1])
  }

  // A Get whose session can be started again only past the request's deadline,
  // so that it will never find it running.
  predicate Idle(q: CreateRequest, now: int, o: Op) {
    (o.CallingStatus? || o.Reconciling?) && PastDeadline(q, now)
  }

  predicate PastDeadline(q: CreateRequest, now: int) {
    q.expiresAt.Some? && q.expiresAt.value <= now
  }

  // No other operation on the session of a start is in flight, but for idle Gets.
  ghost predicate Clear(s: State, step: Step) {
    step.BeginStart? && step.save == Saved ==>
      forall op | op in s.ops && OpId(s.ops[op]) == step.q.sessionId :: Idle(step.q, s.now, s.ops[op])
  }

  // Every start that is admitted and saved finds its session clear.
  ghost predicate Guarded(cfg: Config, s: State, step: Step) {
    WriteOf(cfg, s, step).Some? ==> Clear(s, step)
  }

  ghost predicate GuardedRun(cfg: Config, steps: seq<Step>) {
    steps != [] ==>
      GuardedRun(cfg, steps[..|steps| - 1]) && Guarded(cfg, Run(cfg, steps[..|steps| - 1]), steps[|steps| - 1])
  }

  // ---- safety: a live session always has an active record, also on disk ----

  predicate Active(m: SessionMap, id: string) {
    id in m && !IsTerminal(m[id].status)
  }

  ghost predicate Protected(s: State) {
    && (forall id | id in s.live :: Active(s.im.disk, id))
    && (!s.phase.Down? ==> forall id | id in s.live :: Active(s.im.mem, id))
  }

  // A start in flight is the only operation on its session but for idle Gets;
  // its record is `starting` in memory and active on disk.
  ghost predicate StartOwns(s: State, op: nat)
    requires op in s.ops
  {
    var id := OpId(s.ops[op]);
    && id in s.im.mem && s.im.mem[id].status == Starting && Active(s.im.disk, id)
    && forall other | other in s.ops && OpId(s.ops[other]) == id && other != op ::
         s.ops[op].CallingStart? && Idle(s.ops[op].q, s.now, s.ops[other])
  }

  // A confirmed close that will not be written.
  ghost predicate Idles(s: State, op: nat)
    requires op in s.ops
  {
    s.ops[op].Reconciling? && (s.ops[op].id in s.im.mem ==> s.im.mem[s.ops[op].id].status != Running)
  }

  ghost predicate LifecycleInv(s: State) {
    && Protected(s)
    && (forall op | op in s.ops && IsStart(s.ops[op]) :: StartOwns(s, op))
    && (forall op | op in s.ops && Confirmed(s.ops[op]).Some? && OpId(s.ops[op]) in s.live :: Idles(s, op))
    && (s.phase.Down? ==> s.ops == map[])
    && (s.phase.Recovering? ==>
        && (forall op | op in s.ops :: s.ops[op].CallingStop? || s.ops[op].FinishingStop?)
        && (forall id | id in s.im.mem && s.im.mem[id].status == Running :: Active(s.im.disk, id)))
  }

  // A locked region keeps a session active in both copies unless it writes a
  // terminal record for that very session.
  lemma CommitKeepsActive(cfg: Config, im: Image, w: Write, now: int, save: SaveOutcome, id: string)
    requires Active(im.disk, id)
    requires id != w.id ==> Active(im.mem, id)
    requires id == w.id ==> !IsTerminal(w.rec.status) && w.undo.Some? && !IsTerminal(w.undo.value.status)
    ensures Active(Commit(cfg, im, w, now, save).mem, id) && Active(Commit(cfg, im, w, now, save).disk, id)
  {
  }

  // What each locked region may write, and when.
  ghost predicate Shape(s: State, step: Step, w: Write) {
    IsLocked(step) &&
    match step
    case BeginStart(op, q, _, _, _) =>
      s.phase.Serving? && op !in s.ops && w.id == q.sessionId && w.id !in s.im.mem && w.rec.status.Starting?
        && w.undo.None?
    case Activate(op, _) =>
      && op in s.ops && s.ops[op].Activating? && w.id == OpId(s.ops[op]) && w.id in s.im.mem
      && w.rec.status.Running? && w.undo == Some(w.rec)
    case FinishCompensation(op, _) =>
      op in s.ops && s.ops[op].Compensating? && w.id == s.ops[op].id && ClosingShape(w, s.ops[op].closed)
    case BeginStop(op, id, _, _) =>
      && !s.phase.Down? && op !in s.ops && w.id == id && w.rec.status.Stopping?
      && (if id in s.im.mem
          then w.undo == Some(s.im.mem[id]) && !IsTerminal(s.im.mem[id].status) && !s.im.mem[id].status.Starting?
          else w.undo.None?)
    case FinishStop(op, _) =>
      op in s.ops && s.ops[op].FinishingStop? && w.id == s.ops[op].id && ClosingShape(w, s.ops[op].closed)
    case Reconcile(op, at, _) =>
      && Reconciles(s, op, at) && w.id == s.ops[op].id && w.id in s.im.mem
      && s.im.mem[w.id].status.Running? && w.undo == Some(s.im.mem[w.id]) && w.rec.closedAt == Some(at)
    case _ => false
  }

  // A terminal record only with a confirmed close; undone to revoke_failed.
  ghost predicate ClosingShape(w: Write, closed: Option<int>) {
    && (closed.None? ==> w.rec.status.RevokeFailed?)
    && (closed.Some? ==> w.rec.closedAt == closed)
    && w.undo.Some? && w.undo.value.status.RevokeFailed?
    && !w.rec.status.Running? && !w.rec.status.Starting?
  }

  lemma WritesHaveShape(cfg: Config, s: State, step: Step)
    requires WriteOf(cfg, s, step).Some?
    ensures Shape(s, step, WriteOf(cfg, s, step).value)
  {
  }

  // No region writes a terminal record for a live session, and none touches a
  // session that a start in flight owns, except that start itself.
  lemma WriteRespectsOwners(s: State, step: Step, w: Write)
    requires LifecycleInv(s) && Shape(s, step, w)
    ensures w.id in s.live ==> !IsTerminal(w.rec.status) && w.undo.Some? && !IsTerminal(w.undo.value.status)
    ensures forall op | op in s.ops && IsStart(s.ops[op]) && OpId(s.ops[op]) == w.id :: step.op == op
  {
    forall op | op in s.ops && IsStart(s.ops[op]) && OpId(s.ops[op]) == w.id ensures step.op == op {
      assert StartOwns(s, op);
    }
  }

  // A start in flight keeps its record through another operation's write.
  lemma OtherStartStays(cfg: Config, s: State, step: Step, w: Write, op: nat)
    requires LifecycleInv(s) && Shape(s, step, w)
    requires op in s.ops && IsStart(s.ops[op]) && op != step.op && op in OpsAfter(s, step, w)
      && OpsAfter(s, step, w)[op] == s.ops[op]
    ensures StartOwns(AfterWrite(cfg, s, step, w), op)
  {
    WriteRespectsOwners(s, step, w);
    assert StartOwns(s, op);
    CommitKeepsActive(cfg, s.im, w, s.now, step.save, OpId(s.ops[op]));
  }

  lemma NewStartOwns(cfg: Config, s: State, step: Step, w: Write)
    requires LifecycleInv(s) && Shape(s, step, w) && Clear(s, step) && step.BeginStart? && step.save == Saved
    ensures StartOwns(AfterWrite(cfg, s, step, w), step.op)
  {}

  // The operations a write leaves: those there were, and its own, which is not
  // confirmed.
  lemma OpsAfterWrite(s: State, step: Step, w: Write)
    requires Shape(s, step, w)
    ensures forall op | op in OpsAfter(s, step, w) ::
      || (op != step.op && op in s.ops && OpsAfter(s, step, w)[op] == s.ops[op])
      || (op == step.op && OwnOp(step, OpsAfter(s, step, w)[op]))
  {}

  predicate OwnOp(step: Step, o: Op) {
    && Confirmed(o).None? && (o.CallingStop? <==> step.BeginStop?)
    && (IsStart(o) ==> step.BeginStart? && step.save == Saved)
  }

  lemma WriteKeepsStarts(cfg: Config, s: State, step: Step, w: Write)
    requires LifecycleInv(s) && Shape(s, step, w) && Clear(s, step)
    ensures var s' := AfterWrite(cfg, s, step, w);
            forall op | op in s'.ops && IsStart(s'.ops[op]) :: StartOwns(s', op)
  {
    var s' := AfterWrite(cfg, s, step, w);
    OpsAfterWrite(s, step, w);
    forall op | op in s'.ops && IsStart(s'.ops[op]) ensures StartOwns(s', op) {
      if op == step.op {
        NewStartOwns(cfg, s, step, w);
      } else {
        OtherStartStays(cfg, s, step, w, op);
      }
    }
  }

  lemma WriteKeepsRecovery(cfg: Config, s: State, step: Step, w: Write)
    requires LifecycleInv(s) && Shape(s, step, w) && s.phase.Recovering?
    ensures step.BeginStop? || step.FinishStop?
    ensures forall op | op in OpsAfter(s, step, w) ::
      OpsAfter(s, step, w)[op].CallingStop? || OpsAfter(s, step, w)[op].FinishingStop?
    ensures var s' := AfterWrite(cfg, s, step, w);
            forall id | id in s'.im.mem && s'.im.mem[id].status == Running :: Active(s'.im.disk, id)
  {
    assert step.BeginStop? || step.FinishStop?;
    var im' := Commit(cfg, s.im, w, s.now, step.save);
    forall id | id in im'.mem && im'.mem[id].status == Running ensures Active(im'.disk, id) {
      CommitKeepsActive(cfg, s.im, w, s.now, step.save, id);
    }
  }

  lemma WriteKeepsInv(cfg: Config, s: State, step: Step, w: Write)
    requires LifecycleInv(s) && Shape(s, step, w) && Clear(s, step)
    ensures LifecycleInv(AfterWrite(cfg, s, step, w))
  {
    var s' := AfterWrite(cfg, s, step, w);
    WriteKeepsLive(cfg, s, step, w);
    WriteKeepsStarts(cfg, s, step, w);
    OpsAfterWrite(s, step, w);
    if s.phase.Recovering? { WriteKeepsRecovery(cfg, s, step, w); }
    forall op | op in s'.ops && op in s.ops && s'.ops[op] == s.ops[op] && Idles(s, op) ensures Idles(s', op) {
      WriteKeepsIdle(cfg, s, step, w, op);
    }
    InvAfterWrite(s, s', step);
  }

  // A Get that will not be written stays so: its session is not running, and the
  // only region that makes one running owns it.
  lemma WriteKeepsIdle(cfg: Config, s: State, step: Step, w: Write, op: nat)
    requires LifecycleInv(s) && Shape(s, step, w) && op in s.ops && Idles(s, op)
    requires op in OpsAfter(s, step, w) && OpsAfter(s, step, w)[op] == s.ops[op]
    ensures Idles(AfterWrite(cfg, s, step, w), op)
  {
    if step.Activate? { assert StartOwns(s, step.op); }
  }

  lemma WriteKeepsLive(cfg: Config, s: State, step: Step, w: Write)
    requires LifecycleInv(s) && Shape(s, step, w)
    ensures var im := Commit(cfg, s.im, w, s.now, step.save);
            forall id | id in s.live :: Active(im.mem, id) && Active(im.disk, id)
  {
    WriteRespectsOwners(s, step, w);
    var im := Commit(cfg, s.im, w, s.now, step.save);
    forall id | id in s.live ensures Active(im.mem, id) && Active(im.disk, id) {
      CommitKeepsActive(cfg, s.im, w, s.now, step.save, id);
    }
  }

  lemma InvAfterWrite(s: State, s': State, step: Step)
    requires LifecycleInv(s) && s'.live == s.live && s'.phase == s.phase && !s.phase.Down?
    requires s.phase.Recovering? ==> step.BeginStop? || step.FinishStop?
    requires forall id | id in s.live :: Active(s'.im.mem, id) && Active(s'.im.disk, id)
    requires forall op | op in s'.ops && IsStart(s'.ops[op]) :: StartOwns(s', op)
    requires forall op | op in s'.ops :: (op in s.ops && s'.ops[op] == s.ops[op]) || OwnOp(step, s'.ops[op])
    requires forall op | op in s'.ops && op in s.ops && s'.ops[op] == s.ops[op] && Idles(s, op) :: Idles(s', op)
    requires s.phase.Recovering? ==>
      && (forall op | op in s'.ops :: s'.ops[op].CallingStop? || s'.ops[op].FinishingStop?)
      && (forall id | id in s'.im.mem && s'.im.mem[id].status == Running :: Active(s'.im.disk, id))
    ensures LifecycleInv(s')
  {}

  lemma StartReturnKeepsInv(s: State, op: nat, result: Option<CreateResponse>, started: bool)
    requires LifecycleInv(s) && op in s.ops && s.ops[op].CallingStart?
    ensures LifecycleInv(AfterStart(s, op, result, started))
  {
    assert StartOwns(s, op);
    StartMoves(s, AfterStart(s, op, result, started), op);
  }

  // A start goes on to activate or to compensate, its session perhaps live.
  lemma StartMoves(s: State, s': State, op: nat)
    requires LifecycleInv(s) && op in s.ops && s.ops[op].CallingStart?
    requires op in s'.ops && s' == s.(live := s'.live, ops := s.ops[op := s'.ops[op]])
    requires s.live <= s'.live <= s.live + {OpId(s.ops[op])} && OpId(s'.ops[op]) == OpId(s.ops[op])
    requires s'.ops[op].CallingCompensation?
      || (s'.ops[op].Activating? && forall o | o in s.ops && OpId(s.ops[o]) == OpId(s.ops[op]) :: o == op)
    ensures LifecycleInv(s')
  {
    assert StartOwns(s, op);
    forall o | o in s'.ops && IsStart(s'.ops[o]) ensures StartOwns(s', o) {
      assert StartOwns(s, o);
    }
  }

  // The other controller calls return: a confirmation removes the session.
  lemma StopReturnKeepsInv(s: State, s': State, op: nat)
    requires LifecycleInv(s) && op in s.ops && !IsStart(s.ops[op])
    requires s' == s.(live := s'.live, ops := s'.ops) && s'.live <= s.live
    requires s'.ops == s.ops - {op}
      || (op in s'.ops && s'.ops == s.ops[op := s'.ops[op]] && OpId(s'.ops[op]) == OpId(s.ops[op])
          && !IsStart(s'.ops[op]) && !s.ops[op].Reconciling? && (s.ops[op].CallingStatus? ==> s'.ops[op].Reconciling?)
          && (Confirmed(s'.ops[op]).Some? ==> OpId(s.ops[op]) !in s'.live)
          && (s.phase.Recovering? ==> s'.ops[op].FinishingStop?))
    ensures LifecycleInv(s')
  {
    forall o | o in s'.ops && IsStart(s'.ops[o]) ensures StartOwns(s', o) {
      assert StartOwns(s, o);
    }
  }

  lemma ActivateConflictKeepsInv(cfg: Config, s: State, op: nat, save: SaveOutcome)
    requires LifecycleInv(s) && op in s.ops && s.ops[op].Activating? && WriteOf(cfg, s, Activate(op, save)).None?
    ensures LifecycleInv(Apply(cfg, s, Activate(op, save)))
  {
    var s' := Apply(cfg, s, Activate(op, save));
    forall o | o in s'.ops && IsStart(s'.ops[o]) ensures StartOwns(s', o) {
      assert StartOwns(s, o);
    }
  }

  lemma LoadKeepsInv(cfg: Config, s: State, save: SaveOutcome)
    requires LifecycleInv(s) && s.phase.Down?
    ensures LifecycleInv(AfterLoad(cfg, s, save))
  {
  }

  lemma QuietStepKeepsInv(cfg: Config, s: State, step: Step)
    requires LifecycleInv(s) && (step.Tick? || step.ControllerEnds? || step.Restore? || step.EndRecovery?)
    ensures LifecycleInv(Apply(cfg, s, step))
  {
    var s' := Apply(cfg, s, step);
    forall o | o in s'.ops && IsStart(s'.ops[o]) ensures StartOwns(s', o) {
      assert StartOwns(s, o);
    }
  }

  lemma RecoveryStepKeepsInv(cfg: Config, s: State, step: Step)
    requires LifecycleInv(s) && (step.Crash? || step.PrepareRetry?)
    ensures LifecycleInv(Apply(cfg, s, step))
  {}

  lemma BeginGetKeepsInv(cfg: Config, s: State, op: nat, id: string)
    requires LifecycleInv(s)
    ensures LifecycleInv(Apply(cfg, s, BeginGet(op, id)))
  {
    var s' := Apply(cfg, s, BeginGet(op, id));
    forall o | o in s'.ops && IsStart(s'.ops[o]) ensures StartOwns(s', o) {
      assert StartOwns(s, o);
    }
  }

  lemma OtherReturnKeepsInv(cfg: Config, s: State, step: Step)
    requires LifecycleInv(s) && WriteOf(cfg, s, step).None?
    requires step.CompensationReturns? || step.StopReturns? || step.StatusReturns? || step.Reconcile?
    ensures LifecycleInv(Apply(cfg, s, step))
  {
    var s' := Apply(cfg, s, step);
    if s' != s { StopReturnKeepsInv(s, s', step.op); }
  }

  lemma StepKeepsInv(cfg: Config, s: State, step: Step)
    requires LifecycleInv(s) && Guarded(cfg, s, step)
    ensures LifecycleInv(Apply(cfg, s, step))
  {
    if WriteOf(cfg, s, step).Some? {
      WritesHaveShape(cfg, s, step);
      WriteKeepsInv(cfg, s, step, WriteOf(cfg, s, step).value);
    } else {
      match step
      case StartReturns(op, result, started) =>
        if op in s.ops && s.ops[op].CallingStart? { StartReturnKeepsInv(s, op, result, started); }
      case Activate(op, save) => if op in s.ops && s.ops[op].Activating? { ActivateConflictKeepsInv(cfg, s, op, save); }
      case CompensationReturns(_, _, _) => OtherReturnKeepsInv(cfg, s, step);
      case StopReturns(_, _, _) => OtherReturnKeepsInv(cfg, s, step);
      case StatusReturns(_, _) => OtherReturnKeepsInv(cfg, s, step);
      case Reconcile(_, _, _) => OtherReturnKeepsInv(cfg, s, step);
      case BeginGet(op, id) => BeginGetKeepsInv(cfg, s, op, id);
      case Load(save) => if s.phase.Down? { LoadKeepsInv(cfg, s, save); }
      case Crash => RecoveryStepKeepsInv(cfg, s, step);
      case PrepareRetry(_, _) => RecoveryStepKeepsInv(cfg, s, step);
      case BeginStart(_, _, _, _, _) =>
      case FinishCompensation(_, _) =>
      case BeginStop(_, _, _, _) =>
      case FinishStop(_, _) =>
      case _ => QuietStepKeepsInv(cfg, s, step);
    }
  }

  // How an operation may move on without a write.
  predicate Advances(s: State, op: nat, o: Op) {
    if op !in s.ops then o.CallingStatus? && o.id in s.im.mem
    else
      var was := s.ops[op];
      OpId(o) == OpId(was) &&
      match was
      case CallingStart(q, validatedAt, acceptedAt) =>
        o.CallingCompensation? || (o.Activating? && o == Activating(q, validatedAt, acceptedAt, s.now, o.response))
      case Activating(_, _, _, _, _) => o.CallingCompensation?
      case CallingCompensation(_, _) => o.Compensating? && (o.closed.Some? ==> o.closed == Some(s.now))
      case CallingStop(_, _) => o.FinishingStop?
      case CallingStatus(_) => o.Reconciling? && IsTerminal(o.terminal) && o.since == s.now
      case _ => false
  }

  ghost predicate CalmStep(s: State, s': State) {
    && s'.im == s.im && s.now <= s'.now && s'.calls == s.calls && (s.phase.Down? <==> s'.phase.Down?)
    && forall op | op in s'.ops :: (op in s.ops && s'.ops[op] == s.ops[op]) || Advances(s, op, s'.ops[op])
  }

  lemma StartReturnIsCalm(s: State, op: nat, result: Option<CreateResponse>, started: bool)
    requires op in s.ops && s.ops[op].CallingStart?
    ensures CalmStep(s, AfterStart(s, op, result, started))
  {}

  lemma OtherReturnsAreCalm(s: State, op: nat, reply: Option<CloseResponse>, stopped: bool, ended: Option<Status>)
    requires op in s.ops
    ensures s.ops[op].CallingCompensation? ==> CalmStep(s, AfterCompensation(s, op, reply, stopped))
    ensures s.ops[op].CallingStop? ==> CalmStep(s, AfterStop(s, op, reply, stopped))
    ensures s.ops[op].CallingStatus? ==> CalmStep(s, AfterStatus(s, op, ended))
  {}

  lemma GetsAreCalm(cfg: Config, s: State, step: Step)
    requires WriteOf(cfg, s, step).None? && (step.BeginGet? || step.Activate? || step.Reconcile?)
    ensures CalmStep(s, Apply(cfg, s, step))
  {}

  lemma OtherStepsAreCalm(cfg: Config, s: State, step: Step)
    requires WriteOf(cfg, s, step).None? && !step.Crash? && !step.Load? && !step.PrepareRetry?
    ensures CalmStep(s, Apply(cfg, s, step))
  {
    match step {
      case BeginGet(_, _) => GetsAreCalm(cfg, s, step);
      case Activate(_, _) => GetsAreCalm(cfg, s, step);
      case Reconcile(_, _, _) => GetsAreCalm(cfg, s, step);
      case StartReturns(op, result, started) =>
        if op in s.ops && s.ops[op].CallingStart? { StartReturnIsCalm(s, op, result, started); }
      case CompensationReturns(op, reply, stopped) =>
        if op in s.ops { OtherReturnsAreCalm(s, op, reply, stopped, None); }
      case StopReturns(op, reply, stopped) =>
        if op in s.ops { OtherReturnsAreCalm(s, op, reply, stopped, None); }
      case StatusReturns(op, ended) =>
        if op in s.ops { OtherReturnsAreCalm(s, op, None, false, ended); }
      case _ =>
    }
  }

  lemma CommitLeavesOthers(cfg: Config, im: Image, w: Write, now: int, save: SaveOutcome, id: string)
    requires id != w.id && id in Commit(cfg, im, w, now, save).mem
    ensures id in im.mem && Commit(cfg, im, w, now, save).mem[id] == im.mem[id]
  {
  }

  // In every run whose starts find their sessions clear, with any interleaving
  // and any save failing either way, a live session has an active record on
  // disk, and in memory unless the agent is down.
  lemma {:induction false} LiveSessionsAreNeverOrphaned(cfg: Config, steps: seq<Step>)
    requires GuardedRun(cfg, steps)
    ensures LifecycleInv(Run(cfg, steps))
    ensures Protected(Run(cfg, steps))
    decreases |steps|
  {
    if steps != [] {
      var front, last := steps[..|steps| - 1], steps[|steps| - 1];
      LiveSessionsAreNeverOrphaned(cfg, front);
      StepKeepsInv(cfg, Run(cfg, front), last);
    }
  }
}
