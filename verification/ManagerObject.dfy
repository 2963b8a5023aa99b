// The Manager object: the session map it mutates, the state file it replaces,
// and its locked regions, each proved equal to the step the lifecycle machine
// takes. Stop, ReapExpired and Recover run those regions one after another.
module ManagerObject {
  import opened Text
  import opened Sessions
  import opened Persistence
  import opened Lifecycle

  ghost predicate Distinct(s: seq<SessionRecord>) {
    forall i, j | 0 <= i < j < |s| :: s[i].sessionId != s[j].sessionId
  }

  // m holds exactly the records of s, by ID.
  ghost predicate Holds(m: SessionMap, s: seq<SessionRecord>) {
    && (forall i | 0 <= i < |s| :: s[i].sessionId in m && m[s[i].sessionId] == s[i])
    && (forall id | id in m :: exists i | 0 <= i < |s| :: s[i].sessionId == id)
  }

  lemma HoldsOneMore(m: SessionMap, s: seq<SessionRecord>, r: SessionRecord)
    requires Holds(m, s) && r.sessionId !in m
    ensures Holds(m[r.sessionId := r], s + [r])
  {
    var m', s' := m[r.sessionId := r], s + [r];
    assert s'[|s|] == r;
    forall id | id in m' ensures exists i | 0 <= i < |s'| :: s'[i].sessionId == id {
      if id != r.sessionId {
        var i :| 0 <= i < |s| && s[i].sessionId == id;
        assert s'[i].sessionId == id;
      }
    }
  }

  lemma RepeatIsFound(m: SessionMap, records: seq<SessionRecord>, i: nat)
    requires i < |records| && Holds(m, records[..i]) && records[i].sessionId in m
    ensures !Distinct(records)
  {
    var j :| 0 <= j < |records[..i]| && records[..i][j].sessionId == records[i].sessionId;
    assert records[j].sessionId == records[i].sessionId;
  }

  lemma NewIsDistinct(m: SessionMap, records: seq<SessionRecord>, i: nat)
    requires i < |records| && Holds(m, records[..i]) && Distinct(records[..i]) && records[i].sessionId !in m
    ensures Holds(m[records[i].sessionId := records[i]], records[..i + 1]) && Distinct(records[..i + 1])
  {
    HoldsOneMore(m, records[..i], records[i]);
    assert records[..i + 1] == records[..i] + [records[i]];
  }

  // The records of a list, by ID: None if one is refused or an ID repeats.
  // This is Recover's first loop, and with no refusals what a state file holds.
  method Index(records: seq<SessionRecord>, accept: SessionRecord -> bool) returns (indexed: Option<SessionMap>)
    ensures indexed.Some? <==> Distinct(records) && forall i | 0 <= i < |records| :: accept(records[i])
    ensures indexed.Some? ==> Holds(indexed.value, records)
  {
    var m: SessionMap := map[];
    for i := 0 to |records|
      invariant Holds(m, records[..i]) && Distinct(records[..i])
      invariant forall j | 0 <= j < i :: accept(records[j])
    {
      var record := records[i];
      if !accept(record) {
        return None;
      }
      if record.sessionId in m {
        RepeatIsFound(m, records, i);
        return None;
      }
      NewIsDistinct(m, records, i);
      m := m[record.sessionId := record];
    }
    assert records[..|records|] == records;
    indexed := Some(m);
  }

  lemma ListsAreHeld(s: seq<SessionRecord>, m: SessionMap, kept: SessionMap, held: SessionMap)
    requires Keyed(m) && Lists(s, m, kept.Keys) && (forall id | id in kept :: id in m && kept[id] == m[id])
    requires Holds(held, s)
    ensures held == kept
  {
    forall id | id in kept ensures id in held && held[id] == kept[id] {
      var i :| 0 <= i < |s| && s[i] == m[id];
      assert s[i].sessionId == id;
    }
    forall id | id in held ensures id in kept {
      var i :| 0 <= i < |s| && s[i].sessionId == id;
    }
  }

  // Only entries of ids may have changed, apart from pruned tombstones.
  ghost predicate OnlyTouched(before: SessionMap, after: SessionMap, ids: set<string>) {
    && (forall x | x in before && x !in ids && !IsTerminal(before[x].status) :: x in after && after[x] == before[x])
    && (forall x | x in after && x !in ids :: x in before && after[x] == before[x])
  }

  lemma TouchedInTurn(a: SessionMap, b: SessionMap, c: SessionMap, ids: set<string>, id: string)
    requires OnlyTouched(a, b, ids) && OnlyTouched(b, c, {id})
    ensures OnlyTouched(a, c, ids + {id})
  {
  }

  // A reason that says the session has expired.
  predicate SaysExpired(reason: string) {
    TrimSpace(reason) == "ttl_expired" || TrimSpace(reason) == "expired"
  }

  // The reason an earlier attempt failed with says so.
  predicate KeptExpired(m: SessionMap, id: string) {
    id in m && m[id].status == RevokeFailed && (m[id].closeReason == "ttl_expired" || m[id].closeReason == "expired")
  }

  predicate Lapsed(r: SessionRecord, at: int) {
    r.expiresAt.Some? && r.expiresAt.value <= at
  }

  // The reasons the manager records of its own.
  method LapseReason() returns (reason: string)
    ensures SaysExpired(reason)
  {
    assert !IsSpace('t') && !IsSpace('d');
    reason := "ttl_expired";
  }

  method FailureReason(policy: bool) returns (reason: string)
    ensures Plain(reason)
  {
    assert !IsSpace('c') && !IsSpace('d') && !IsSpace('r');
    reason := if policy then "catalog_or_policy_changed" else "runtime_restore_failed";
  }

  // The reason a record carries, or one that says nothing of expiry.
  method KeptReason(record: SessionRecord, recovery: bool) returns (reason: string)
    ensures reason != "" && (SaysExpired(reason) <==> SaysExpired(record.closeReason))
    ensures reason == "ttl_expired" || reason == "expired" ==> SaysExpired(reason)
  {
    reason := record.closeReason;
    if reason == "" {
      assert !IsSpace('r') && !IsSpace('y') && TrimSpace(reason) == "";
      reason := if recovery then "recovery" else "retry";
    } else {
      assert !IsSpace('t') && !IsSpace('e') && !IsSpace('d');
    }
  }

  predicate Plain(reason: string) {
    !SaysExpired(reason) && reason != "" && reason != "ttl_expired" && reason != "expired"
  }

  // The status a stop leads to: by what it is asked, or by what was kept.
  lemma StopEndsExpired(m: SessionMap, id: string, requested: string)
    requires DecideStop(m, id, requested).MayStop?
    ensures TerminalStatus(DecideStop(m, id, requested).reason)
         == if SaysExpired(requested) || KeptExpired(m, id) then Expired else Closed
  {}

  // These sessions were stopped at the controller and are active no longer; they
  // are now expired if they had lapsed or were to be stopped for it.
  ghost predicate Reaped(ids: set<string>, first: SessionMap, at: int, m: SessionMap, stopped: seq<string>) {
    forall id | id in ids && id in first :: id in stopped
      && (id in m ==> m[id].status == if Lapsed(first[id], at) || SaysExpired(first[id].closeReason) then Expired
                                      else Closed)
  }

  predicate WasRunning(m: SessionMap, id: string) {
    id in m && m[id].status == Running
  }

  // One turn of the reaping loop.
  lemma ReapedOneMore(all: set<string>, pending: set<string>, id: string, first: SessionMap, at: int,
                      before: SessionMap, after: SessionMap, was: seq<string>, stopped: seq<string>)
    requires id in pending && pending <= all
    requires OnlyTouched(first, before, all - pending) && OnlyTouched(before, after, {id})
    ensures OnlyTouched(first, after, all - (pending - {id}))
    ensures Reaped(all - pending, first, at, before, was) && was <= stopped && Reaped({id}, first, at, after, stopped)
      ==> Reaped(all - (pending - {id}), first, at, after, stopped)
  {
    assert all - (pending - {id}) == (all - pending) + {id};
  }

  type Answers = map<string, Option<CreateResponse>>

  // A loaded session that may go on: the controller is asked to restore it.
  predicate MayGoOn(cfg: Config, record: SessionRecord, at: int) {
    record.status == Running && !Lapsed(record, at) && WithinPolicy(cfg, record)
  }

  // It goes on, unless the controller fails to restore it unchanged.
  predicate GoesOn(cfg: Config, record: SessionRecord, answers: Answers, at: int, restorer: bool) {
    && MayGoOn(cfg, record, at)
    && (restorer ==>
        && record.sessionId in answers && answers[record.sessionId].Some?
        && SameExposure(record, answers[record.sessionId].value))
  }

  // One that does not go on ends as expired if it ran out of time, or was being
  // stopped for that.
  predicate EndsExpired(record: SessionRecord, at: int) {
    if record.status == Running then Lapsed(record, at) else SaysExpired(record.closeReason)
  }

  // What recovery makes of a loaded active session: those that go on are left as
  // they are, the others are stopped unless recovery is incomplete.
  ghost predicate Settled(cfg: Config, record: SessionRecord, m: SessionMap, stopped: seq<string>,
                          answers: Answers, at: int, restorer: bool, complete: bool)
  {
    var id := record.sessionId;
    && (id in answers <==> restorer && MayGoOn(cfg, record, at))
    && (GoesOn(cfg, record, answers, at, restorer) ==> id in m && m[id] == record && id !in stopped)
    && (complete && MayGoOn(cfg, record, at) ==> GoesOn(cfg, record, answers, at, restorer))
    && (complete && !GoesOn(cfg, record, answers, at, restorer) ==>
        id in stopped && (id in m ==> m[id].status == if EndsExpired(record, at) then Expired else Closed))
  }

  // The controller restored the session, but not as it was.
  predicate Changed(record: SessionRecord, answers: Answers) {
    && record.sessionId in answers && answers[record.sessionId].Some?
    && !SameExposure(record, answers[record.sessionId].value)
  }

  ghost predicate AnsweredOnly(a: Answers, b: Answers, id: string) {
    forall x | x != id :: (x in a <==> x in b) && (x in a ==> a[x] == b[x])
  }

  predicate MayAppend(before: seq<string>, after: seq<string>, id: string) {
    after == before || after == before + [id]
  }

  lemma SettledStays(cfg: Config, record: SessionRecord, m: SessionMap, m': SessionMap, stopped: seq<string>,
                     stopped': seq<string>, answers: Answers, answers': Answers, at: int, restorer: bool,
                     complete: bool, complete': bool, id: string)
    requires Settled(cfg, record, m, stopped, answers, at, restorer, complete) && id != record.sessionId
    requires OnlyTouched(m, m', {id}) && MayAppend(stopped, stopped', id) && AnsweredOnly(answers, answers', id)
    requires complete' ==> complete
    ensures Settled(cfg, record, m', stopped', answers', at, restorer, complete')
  {
  }

  // The first n loaded records are settled.
  ghost predicate AllSettled(cfg: Config, records: seq<SessionRecord>, n: nat, m: SessionMap, stopped: seq<string>,
                             answers: Answers, at: int, restorer: bool, complete: bool)
    requires n <= |records|
  {
    forall j | 0 <= j < n && !IsTerminal(records[j].status) ::
      Settled(cfg, records[j], m, stopped, answers, at, restorer, complete)
  }

  lemma OneMoreSettled(cfg: Config, records: seq<SessionRecord>, n: nat, m: SessionMap, m': SessionMap,
                       stopped: seq<string>, stopped': seq<string>, answers: Answers, answers': Answers, at: int,
                       restorer: bool, complete: bool, complete': bool)
    requires n < |records| && Distinct(records)
    requires AllSettled(cfg, records, n, m, stopped, answers, at, restorer, complete) && (complete' ==> complete)
    requires OnlyTouched(m, m', {records[n].sessionId}) && MayAppend(stopped, stopped', records[n].sessionId)
    requires AnsweredOnly(answers, answers', records[n].sessionId)
    requires !IsTerminal(records[n].status) ==>
      Settled(cfg, records[n], m', stopped', answers', at, restorer, complete')
    ensures AllSettled(cfg, records, n + 1, m', stopped', answers', at, restorer, complete')
  {
    forall j | 0 <= j < n && !IsTerminal(records[j].status)
      ensures Settled(cfg, records[j], m', stopped', answers', at, restorer, complete')
    {
      SettledStays(cfg, records[j], m, m', stopped, stopped', answers, answers', at, restorer, complete, complete',
        records[n].sessionId);
    }
  }

  // Nothing but these sessions has been stopped or asked about.
  ghost predicate OnlyOf(stopped: seq<string>, answers: Answers, ids: set<string>) {
    (forall x | x in stopped :: x in ids) && answers.Keys <= ids
  }

  ghost function ActiveBefore(records: seq<SessionRecord>, n: nat): set<string>
    requires n <= |records|
  {
    set j | 0 <= j < n && !IsTerminal(records[j].status) :: records[j].sessionId
  }

  lemma ActiveBeforeNext(records: seq<SessionRecord>, n: nat)
    requires n < |records| && Distinct(records)
    ensures ActiveBefore(records, n + 1)
         == ActiveBefore(records, n) + if IsTerminal(records[n].status) then {} else {records[n].sessionId}
    ensures records[n].sessionId !in ActiveBefore(records, n)
  {
  }

  // What a freshly adopted map holds of the loaded records.
  ghost predicate Adopted(records: seq<SessionRecord>, m: SessionMap) {
    && (forall i | 0 <= i < |records| && !IsTerminal(records[i].status) ::
          records[i].sessionId in m && m[records[i].sessionId] == records[i])
    && (forall id | id in m :: m[id] in records && m[id].sessionId == id)
  }

  lemma RetainedIsAdopted(cfg: Config, records: seq<SessionRecord>, m: SessionMap, now: int)
    requires Holds(m, records)
    ensures Adopted(records, Retained(cfg, m, now)) && Keyed(m)
  {
    forall id | id in m ensures m[id] in records && m[id].sessionId == id {
      var i :| 0 <= i < |records| && records[i].sessionId == id;
      assert m[records[i].sessionId] == records[i];
    }
  }

  // An active entry of the final map belongs to a loaded active record.
  lemma LeftoverIsSettled(records: seq<SessionRecord>, loaded: SessionMap, m: SessionMap, id: string) returns (j: nat)
    requires Adopted(records, loaded) && OnlyTouched(loaded, m, ActiveBefore(records, |records|))
    requires id in m && !IsTerminal(m[id].status)
    ensures j < |records| && !IsTerminal(records[j].status) && records[j].sessionId == id
  {
    if id !in ActiveBefore(records, |records|) {
      assert loaded[id] in records;
    }
    j :| 0 <= j < |records| && !IsTerminal(records[j].status) && records[j].sessionId == id;
  }

  lemma DecisionFits(m: SessionMap, id: string, requested: string)
    requires Keyed(m) && DecideStop(m, id, requested).MayStop?
    ensures var w := DecideStop(m, id, requested).write;
            && w.id == id && w.rec.sessionId == id && w.rec.status == Stopping
            && w.undo == if id in m then Some(m[id]) else None
  {}

  // The reason Stop records: the requested one, or the one an earlier attempt
  // failed with.
  predicate StopsFor(m: SessionMap, id: string, requested: string, reason: string) {
    var d := DecideStop(m, id, requested);
    d.MayStop? && d.reason == reason
  }

  // Stop may be called on the session, and keeps this reason unless another says
  // that the session has expired.
  ghost predicate Retries(m: SessionMap, id: string, reason: string) {
    && (forall requested :: DecideStop(m, id, requested).MayStop?)
    && (reason != "" ==> forall requested | NormalizeReason(requested) !in ["ttl_expired", "expired"] ::
          StopsFor(m, id, requested, reason))
  }

  predicate IsClosed(m: SessionMap, id: string) {
    id in m && IsTerminal(m[id].status)
  }

  predicate BeingStopped(m: SessionMap, id: string) {
    id in m && (m[id].status == Starting || m[id].status == Stopping)
  }

  function WasOrBlank(m: SessionMap, id: string): SessionRecord {
    if id in m then m[id] else Blank(id)
  }

  // A stop ends a session as expired when it is asked to, or was before.
  predicate EndsAs(m: SessionMap, id: string, requested: string, status: Status) {
    status == if SaysExpired(requested) || KeptExpired(m, id) then Expired else Closed
  }

  // The record of a stopped session: its status, reason and close time are new.
  ghost predicate IsEndOf(was: SessionRecord, r: SessionRecord, status: Status, ended: map<string, int>, id: string) {
    id in ended && r == was.(status := status, closeReason := r.closeReason, closedAt := Some(ended[id]))
  }

  // What ReapExpired acts on.
  predicate Overdue(r: SessionRecord, now: int) {
    r.status == RevokeFailed || (r.status == Running && Lapsed(r, now))
  }

  datatype StartResult = Started(record: SessionRecord) | Replay(record: SessionRecord) | NotCalled | Undone

  datatype GetResult = Found(status: Status) | NotFound | Error

  function EndFrom(status: Status): Status {
    if status == Expired || status == Failed then status else Closed
  }

  // The record carries the parameters of the request.
  predicate IsFor(q: CreateRequest, r: SessionRecord) {
    && r.sessionId == q.sessionId && r.targetId == q.targetId && r.targetPort == q.targetPort
    && r.sourceIp == q.sourceIp && r.targetAccount == q.targetAccount && r.webOnly == q.webOnly
    && r.ttlSeconds == q.ttlSeconds && r.requestExpiresAt == q.expiresAt && r.maxConnections == q.maxConnections
    && r.clientPublicKey == q.clientPublicKey && NormalizeMode(r.connectionMode) == NormalizeMode(q.connectionMode)
  }

  predicate IsIntent(q: CreateRequest, r: SessionRecord) {
    r.status == Starting && IsFor(q, r) && r.connectionMode == q.connectionMode
  }

  // A replay finds the session running with the same parameters.
  predicate Replays(m: SessionMap, q: CreateRequest, r: SessionRecord) {
    q.sessionId in m && m[q.sessionId] == r && r.status == Running && IsFor(q, r)
  }

  // The record carries what the controller answered.
  predicate Exposes(p: CreateResponse, r: SessionRecord) {
    && r.processId == p.processId && r.listenerPort == p.listenerPort && r.externalPort == p.externalPort
    && r.exposureMode == p.exposureMode && r.exposureRef == p.exposureRef
    && r.serverCertificate == p.serverCertificate
  }

  // And its times: what was answered, or else the completion, the deadline of the
  // request or its TTL.
  predicate HasTimes(q: CreateRequest, p: CreateResponse, completedAt: int, r: SessionRecord) {
    && r.startedAt == (if p.startedAt.Some? then p.startedAt else Some(completedAt))
    && r.expiresAt == if p.expiresAt.Some? then p.expiresAt
                      else if q.expiresAt.Some? then q.expiresAt
                      else Some(r.startedAt.value + q.ttlSeconds * SECOND)
  }

  lemma TimesAreAnswered(q: CreateRequest, p: CreateResponse, acceptedAt: int, completedAt: int)
    requires CheckedTimes(q, p, acceptedAt, completedAt).Some?
    ensures var times := CheckedTimes(q, p, acceptedAt, completedAt).value;
            forall r: SessionRecord :: HasTimes(q, p, completedAt, RunningRecord(r, p, times.0, times.1))
  {}

  // A session to be stopped: still there, not in another's hands, and to end as
  // its record calls for.
  ghost predicate MustEnd(record: SessionRecord, reason: string, at: int, m: SessionMap) {
    && !IsTerminal(record.status) && record.sessionId in m && !IsTerminal(m[record.sessionId].status)
    && !BeingStopped(m, record.sessionId)
    && (EndsExpired(record, at) <==> SaysExpired(reason) || KeptExpired(m, record.sessionId))
  }

  ghost predicate SomeChanged(records: seq<SessionRecord>, n: nat, answers: Answers)
    requires n <= |records|
  {
    exists j | 0 <= j < n :: Changed(records[j], answers)
  }

  // A record restored differently is still so after the next one.
  lemma ChangedStays(records: seq<SessionRecord>, n: nat, said: Answers, answers: Answers)
    requires n < |records| && Distinct(records) && AnsweredOnly(said, answers, records[n].sessionId)
    ensures SomeChanged(records, n, said) || Changed(records[n], answers) ==> SomeChanged(records, n + 1, answers)
  {
    if SomeChanged(records, n, said) {
      var j :| 0 <= j < n && Changed(records[j], said);
      assert Changed(records[j], answers);
    }
  }

  datatype RecoverResult = Recovered | Incomplete | Refused

  predicate Unexpired(r: SessionRecord, now: int) {
    r.expiresAt.Some? ==> now < r.expiresAt.value
  }

  // A failed start is closed with the controller's word for it, pruned at once,
  // or waiting to be revoked.
  ghost predicate Compensated(m: SessionMap, id: string, was: seq<string>, stopped: seq<string>) {
    if stopped == was + [id] then id in m ==> m[id].status == Failed || m[id].status == RevokeFailed
    else stopped == was && id in m && m[id].status == RevokeFailed
  }

  class Manager {
    const cfg: Config
    var sessions: SessionMap
    var disk: SessionMap
    var now: int                             // the clock
    ghost var stopped: seq<string>           // the closes the controller confirmed, in order,
                                             // since the last sweep or recovery began
    ghost var started: seq<string>           // the calls of controller.Start, in order
    ghost var answers: Answers               // its answers to Restore in the last recovery
    ghost var replies: Answers               // its last answer to Start, by session
    ghost var words: seq<(string, Option<Status>)>   // its answers to Status, in order
    ghost var ended: map<string, int>        // the last close time it confirmed
    ghost var faults: nat                    // how often a save or the controller has failed

    ghost predicate Valid() reads this {
      ConfigOk(cfg) && Keyed(sessions) && Keyed(disk)
    }

    ghost function Contents(): Image reads this {
      Image(sessions, disk)
    }

    constructor (cfg: Config)
      requires ConfigOk(cfg)
      ensures Valid() && this.cfg == cfg && sessions == map[] && stopped == started == []
    {
      this.cfg := cfg;
      sessions, disk, now := map[], map[], 0;
      stopped, started, words, faults := [], [], [], 0;
      answers, replies, ended := map[], map[], map[];
    }

    // ---- the environment: a monotone clock, a store and a controller ----

    method ReadClock() returns (t: int)
      modifies this`now
      ensures old(now) <= now == t
    {
      var advance: int := *;
      if advance > 0 {
        now := now + advance;
      }
      t := now;
    }

    method SaveOutcomes() returns (save: SaveOutcome)
      modifies this`faults
      ensures faults == if save == Saved then old(faults) else old(faults) + 1
    {
      save := *;
      if save != Saved { faults := faults + 1; }
    }

    // controller.Stop, and the clock reading taken when it returns
    method ControllerStop(id: string) returns (closed: Option<int>)
      modifies this`now, this`stopped, this`ended, this`faults
      ensures old(now) <= now
      ensures stopped == if closed.Some? then old(stopped) + [id] else old(stopped)
      ensures ended == if closed.Some? then old(ended)[id := closed.value] else old(ended)
      ensures faults == if closed.Some? then old(faults) else old(faults) + 1
      ensures closed.Some? ==> closed.value <= now + CLOCK_SKEW
    {
      var reply: Option<CloseResponse> := *;
      var completedAt := ReadClock();
      closed := ClosedFrom(id, reply, completedAt);
      if closed.Some? {
        stopped, ended := stopped + [id], ended[id := closed.value];
      } else {
        faults := faults + 1;
      }
    }

    // controller.Start, and the clock reading taken when it returns
    method ControllerStart(q: CreateRequest) returns (reply: Option<CreateResponse>)
      modifies this`now, this`started, this`replies, this`faults
      ensures old(now) <= now && started == old(started) + [q.sessionId]
      ensures replies == old(replies)[q.sessionId := reply]
      ensures faults == if reply.Some? then old(faults) else old(faults) + 1
    {
      started := started + [q.sessionId];
      reply := *;
      replies := replies[q.sessionId := reply];
      if !reply.Some? { faults := faults + 1; }
      var completedAt := ReadClock();
    }

    // controller.Status, if it answers for this session
    method ControllerStatus(id: string) returns (status: Option<Status>)
      modifies this`words, this`faults
      ensures words == old(words) + [(id, status)]
      ensures faults == if status.Some? then old(faults) else old(faults) + 1
    {
      status := *;
      words := words + [(id, status)];
      if !status.Some? { faults := faults + 1; }
    }

    method ControllerRestore(record: SessionRecord) returns (reply: Option<CreateResponse>)
      modifies this`answers, this`faults
      ensures answers == old(answers)[record.sessionId := reply]
      ensures faults == if reply.Some? then old(faults) else old(faults) + 1
    {
      reply := *;
      answers := answers[record.sessionId := reply];
      if !reply.Some? { faults := faults + 1; }
    }

    // ---- locked regions ----

    // saveLocked: replace the file, and on success drop the pruned tombstones.
    method SaveLocked(save: SaveOutcome) returns (ok: bool)
      requires Valid()
      modifies this`sessions, this`disk
      ensures Valid() && (ok <==> save == Saved)
      ensures disk == if save == FailedOld then old(disk) else Retained(cfg, old(sessions), now)
      ensures sessions == if ok then Retained(cfg, old(sessions), now) else old(sessions)
    {
      var records, removed := RecordsForPersistence(cfg, sessions, now);
      var file := Index(records, r => true);
      ListsAreHeld(records, sessions, Retained(cfg, sessions, now), file.value);
      if save != FailedOld {
        disk := file.value;
      }
      ok := save == Saved;
      if ok {
        DeleteAll(removed);
      }
    }

    method DeleteAll(removed: seq<string>)
      modifies this`sessions
      ensures sessions == map id | id in old(sessions) && id !in removed :: old(sessions)[id]
    {
      for i := 0 to |removed|
        invariant sessions == map id | id in old(sessions) && id !in removed[..i] :: old(sessions)[id]
      {
        sessions := sessions - {removed[i]};
        assert removed[..i + 1] == removed[..i] + [removed[i]];
      }
      assert removed[..|removed|] == removed;
    }

    // Start, up to the controller call
    method BeginStart(q: CreateRequest, acceptedAt: int, save: SaveOutcome) returns (r: Admission, ok: bool)
      requires Valid()
      modifies this`sessions, this`disk
      ensures Valid()
      ensures r == Admit(cfg, old(sessions), StartingRecord(q, acceptedAt)) && (ok <==> r.Admitted? && save == Saved)
      ensures OnlyTouched(old(sessions), sessions, {q.sessionId}) && (!ok ==> sessions == old(sessions))
      ensures ok ==> q.sessionId in sessions && sessions[q.sessionId].status == Starting
      ensures r.Replayed? ==> WasRunning(old(sessions), q.sessionId) && r.record == old(sessions)[q.sessionId]
      ensures Contents() == if r.Admitted?
                            then Commit(cfg, old(Contents()), Write(q.sessionId, StartingRecord(q, acceptedAt), None),
                              now, save)
                            else old(Contents())
    {
      var record := StartingRecord(q, acceptedAt);
      ok := false;
      r := Admit(cfg, sessions, record);
      if r.Admitted? {
        sessions := sessions[q.sessionId := record];
        ok := SaveLocked(save);
        if !ok {
          sessions := sessions - {q.sessionId};
        }
      }
    }

    // Start, after an accepted controller response
    method Activate(id: string, response: CreateResponse, startedAt: int, expiresAt: int, save: SaveOutcome)
      returns (conflict: bool, ok: bool)
      requires Valid()
      modifies this`sessions, this`disk
      ensures Valid()
      ensures conflict <==> !(id in old(sessions) && old(sessions)[id].status == Starting)
      ensures ok <==> !conflict && save == Saved
      ensures Contents() ==
              if conflict then old(Contents())
              else var running := RunningRecord(old(sessions)[id], response, startedAt, expiresAt);
                   Commit(cfg, old(Contents()), Write(id, running, Some(running)), now, save)
    {
      conflict, ok := true, false;
      if id in sessions && sessions[id].status == Starting {
        conflict := false;
        sessions := sessions[id := RunningRecord(sessions[id], response, startedAt, expiresAt)];
        ok := SaveLocked(save);
      }
    }

    // finishFailedStart, after its controller call
    method FinishFailedStart(id: string, reason: string, closed: Option<int>, save: SaveOutcome) returns (ok: bool)
      requires Valid()
      modifies this`sessions, this`disk
      ensures Valid() && (ok <==> save == Saved)
      ensures Contents() == Commit(cfg, old(Contents()), CompensationWrite(old(sessions), id, reason, closed), now,
        save)
    {
      var record := if id in sessions then sessions[id] else Blank(id);
      if closed.Some? {
        record := record.(status := Failed, closedAt := closed);
      } else {
        record := record.(status := RevokeFailed);
      }
      record := record.(closeReason := reason);
      sessions := sessions[id := record];
      ok := SaveLocked(save);
      if !ok && closed.Some? {
        sessions := sessions[id := record.(status := RevokeFailed, closedAt := None)];
      }
    }

    // Stop, up to the controller call
    method BeginStop(id: string, reason: string, save: SaveOutcome) returns (d: StopDecision, ok: bool)
      requires Valid()
      modifies this`sessions, this`disk
      ensures Valid()
      ensures d == DecideStop(old(sessions), id, reason) && (ok <==> d.MayStop? && save == Saved)
      ensures Contents() == if d.MayStop? then Commit(cfg, old(Contents()), d.write, now, save) else old(Contents())
      ensures OnlyTouched(old(sessions), sessions, {id}) && (if ok then id in sessions else sessions == old(sessions))
    {
      ok := false;
      d := DecideStop(sessions, id, reason);
      if d.MayStop? {
        var previous := if id in sessions then Some(sessions[id]) else None;
        DecisionFits(sessions, id, reason);
        ok := WriteLocked(id, d.write.rec, previous, save);
      }
    }

    // Set a record and save; on a failed save put the previous one back, or none.
    method WriteLocked(id: string, record: SessionRecord, previous: Option<SessionRecord>, save: SaveOutcome)
      returns (ok: bool)
      requires Valid() && record.sessionId == id && !IsTerminal(record.status)
      requires previous == if id in sessions then Some(sessions[id]) else None
      modifies this`sessions, this`disk
      ensures Valid() && (ok <==> save == Saved)
      ensures Contents() == Commit(cfg, old(Contents()), Write(id, record, previous), now, save)
      ensures OnlyTouched(old(sessions), sessions, {id}) && (if ok then id in sessions else sessions == old(sessions))
    {
      sessions := sessions[id := record];
      ok := SaveLocked(save);
      if !ok {
        if previous.Some? {
          sessions := sessions[id := previous.value];
        } else {
          sessions := sessions - {id};
        }
        assert sessions == old(sessions);
      }
    }

    // Stop, after the controller call: the terminal record, or markRevokeFailed
    method FinishStop(id: string, reason: string, closed: Option<int>, save: SaveOutcome) returns (ok: bool)
      requires Valid() && id in sessions
      modifies this`sessions, this`disk
      ensures Valid() && (ok <==> save == Saved)
      ensures Contents() == Commit(cfg, old(Contents()), FinishStopWrite(old(sessions), id, reason, closed), now, save)
    {
      var record := sessions[id].(closeReason := reason);
      if closed.Some? {
        record := record.(status := TerminalStatus(reason), closedAt := closed);
      } else {
        record := record.(status := RevokeFailed);
      }
      sessions := sessions[id := record];
      ok := SaveLocked(save);
      if !ok && closed.Some? {
        sessions := sessions[id := record.(status := RevokeFailed, closedAt := None)];
      }
    }

    // Get, after the controller reported a terminal status
    method Reconcile(id: string, terminal: Status, at: int, save: SaveOutcome) returns (ok: bool)
      requires Valid()
      modifies this`sessions, this`disk
      ensures Valid()
      ensures var running := id in old(sessions) && old(sessions)[id].status == Running;
              && (ok <==> !running || save == Saved)
              && Contents() == if running
                               then Commit(cfg, old(Contents()), ReconcileWrite(old(sessions)[id], id, terminal, at),
                                 now, save)
                               else old(Contents())
    {
      ok := true;
      if id in sessions && sessions[id].status == Running {
        var previous := sessions[id];
        sessions := sessions[id := previous.(status := terminal, closeReason := "controller_status",
          closedAt := Some(at))];
        ok := SaveLocked(save);
        if !ok {
          sessions := sessions[id := previous];
        }
      }
    }

    // Whatever the record was, Stop may now be called on it, and keeps the reason
    // of the retry unless the session has expired.
    method PrepareRecoveredRetry(id: string, reason: string)
      requires Valid() && id in sessions
      modifies this`sessions
      ensures Valid() && OnlyTouched(old(sessions), sessions, {id})
      ensures Retries(sessions, id, reason)
      ensures sessions == old(sessions)[id := old(sessions)[id].(status := RevokeFailed, closeReason := reason)]
    {
      sessions := sessions[id := sessions[id].(status := RevokeFailed, closeReason := reason)];
    }

    // ---- whole operations, run without interference ----

    // The second half of Stop: the controller call and what follows it.
    method CompleteStop(id: string, reason: string) returns (closed: bool)
      requires Valid() && id in sessions
      modifies this`sessions, this`disk, this`now, this`stopped, this`ended, this`faults
      ensures Valid() && OnlyTouched(old(sessions), sessions, {id}) && old(now) <= now
      ensures MayAppend(old(stopped), stopped, id) && old(faults) <= faults && (!closed ==> faults > old(faults))
      ensures closed ==> stopped == old(stopped) + [id] && sessions == disk && id in ended
      ensures closed && id in sessions ==>
                sessions[id] == old(sessions)[id].(status := TerminalStatus(reason), closeReason := reason,
                                                   closedAt := Some(ended[id]))
      ensures !closed ==> id in sessions && sessions[id].status == RevokeFailed
    {
      var at := ControllerStop(id);
      var save := SaveOutcomes();
      var saved := FinishStop(id, reason, at, save);
      closed := saved && at.Some?;
    }

    // The first half of Stop: the status of a session already closed, or the
    // reason under which it may now be stopped.
    method OpenStop(id: string, requested: string) returns (reported: Option<Status>, reason: Option<string>)
      requires Valid()
      modifies this`sessions, this`disk, this`now, this`faults
      ensures Valid() && OnlyTouched(old(sessions), sessions, {id}) && old(now) <= now && old(faults) <= faults
      ensures reported == if id in old(sessions) && IsTerminal(old(sessions)[id].status)
                          then Some(old(sessions)[id].status) else None
      ensures reported.Some? ==> Contents() == old(Contents())
      ensures reason.Some? ==> reported.None? && id in sessions
      ensures reason.None? ==> sessions == old(sessions)
      ensures reason.None? && reported.None? ==> faults > old(faults) || BeingStopped(old(sessions), id)
      ensures reason.Some? ==> StopsFor(old(sessions), id, requested, reason.value)
      ensures reason.Some? ==> sessions[id] == WasOrBlank(old(sessions), id).(status := Stopping,
                                                                              closeReason := reason.value)
    {
      var at := ReadClock();
      var save := SaveOutcomes();
      var d, begun := BeginStop(id, requested, save);
      reported := if d.AlreadyClosed? then Some(d.record.status) else None;
      reason := if begun then Some(d.reason) else None;
    }

    // Stop: Some(status) when it reports the session closed. Without a report the
    // ID is none, the session is in another's hands, or a save or the controller
    // has failed.
    method Stop(id: string, requested: string) returns (result: Option<Status>)
      requires Valid()
      modifies this`sessions, this`disk, this`now, this`stopped, this`ended, this`faults
      ensures Valid() && OnlyTouched(old(sessions), sessions, {id}) && old(now) <= now
      ensures MayAppend(old(stopped), stopped, id) && old(faults) <= faults
      ensures result.Some? && IsClosed(old(sessions), id) ==>
                Contents() == old(Contents()) && result.value == old(sessions)[id].status && stopped == old(stopped)
      ensures result.Some? && !IsClosed(old(sessions), id) ==>
                stopped == old(stopped) + [id] && sessions == disk && EndsAs(old(sessions), id, requested, result.value)
      ensures result.Some? && !IsClosed(old(sessions), id) && id in sessions ==>
                IsEndOf(WasOrBlank(old(sessions), id), sessions[id], result.value, ended, id)
      ensures result.None? ==> !cfg.isUuid(id) || BeingStopped(old(sessions), id) || faults > old(faults)
      ensures result.None? && id in old(sessions) && !IsTerminal(old(sessions)[id].status) ==>
                id in sessions && !IsTerminal(sessions[id].status)
    {
      result := None;
      if cfg.isUuid(id) {
        var reported, reason := OpenStop(id, requested);
        if reported.Some? {
          result := reported;
        } else if reason.Some? {
          ghost var stopping := sessions;
          StopEndsExpired(old(sessions), id, requested);
          var closed := CompleteStop(id, reason.value);
          TouchedInTurn(old(sessions), stopping, sessions, {id}, id);
          assert {id} + {id} == {id};
          if closed {
            result := Some(TerminalStatus(reason.value));
          }
        }
      }
    }

    // finishFailedStart: the session is marked failed only when the controller has
    // confirmed that it is gone, and otherwise kept for another attempt.
    method CompensateStart(id: string, reason: string)
      requires Valid()
      modifies this`sessions, this`disk, this`now, this`stopped, this`ended, this`faults
      ensures Valid() && OnlyTouched(old(sessions), sessions, {id}) && old(now) <= now && old(faults) <= faults
      ensures Compensated(sessions, id, old(stopped), stopped)
    {
      var confirmed := ControllerStop(id);
      var save := SaveOutcomes();
      var saved := FinishFailedStart(id, reason, if confirmed.Some? then Some(now) else None, save);
    }

    // The first half of Start: its result if the controller is not called, or the
    // time of acceptance.
    method OpenStart(q: CreateRequest) returns (early: Option<StartResult>, acceptedAt: int)
      requires Valid()
      modifies this`sessions, this`disk, this`now, this`faults
      ensures Valid() && OnlyTouched(old(sessions), sessions, {q.sessionId}) && old(faults) <= faults
      ensures old(now) <= now && (early.None? ==> old(now) <= acceptedAt <= now)
      ensures early.Some? ==> early.value.Replay? || early.value.NotCalled?
      ensures early == Some(NotCalled) ==> sessions == old(sessions)
      ensures early == Some(NotCalled) ==> Refusable(old(sessions), q, old(now)) || faults > old(faults)
      ensures early.Some? && early.value.Replay? ==>
                Contents() == old(Contents()) && Replays(old(sessions), q, early.value.record)
      ensures early.None? ==> q.sessionId in sessions && IsIntent(q, sessions[q.sessionId])
    {
      acceptedAt := now;
      var validatedAt := ReadClock();
      if !ValidRequest(cfg, q, validatedAt) {
        return Some(NotCalled), acceptedAt;
      }
      acceptedAt := ReadClock();
      var save := SaveOutcomes();
      var admission, begun := BeginStart(q, acceptedAt, save);
      early := if admission.Replayed? then Some(Replay(admission.record)) else if begun then None else Some(NotCalled);
    }

    // Start may refuse a request that is invalid by now, that names a session in
    // another state or with other parameters, or that finds no place.
    ghost predicate Refusable(m: SessionMap, q: CreateRequest, since: int) reads this {
      || (exists at | since <= at <= now :: !ValidRequest(cfg, q, at))
      || (q.sessionId in m && !(m[q.sessionId].status == Running && IsFor(q, m[q.sessionId])))
      || (q.sessionId !in m && |set id | id in m && IsActive(m[id].status)| >= cfg.maxSessions)
    }

    // The second half of Start: the controller call and what follows it.
    method CompleteStart(q: CreateRequest, acceptedAt: int) returns (result: StartResult)
      requires Valid() && q.sessionId in sessions && IsIntent(q, sessions[q.sessionId])
      modifies this`sessions, this`disk, this`now, this`stopped, this`ended, this`started, this`replies, this`faults
      ensures Valid() && OnlyTouched(old(sessions), sessions, {q.sessionId}) && old(now) <= now
      ensures started == old(started) + [q.sessionId] && (result.Started? || result.Undone?)
      ensures q.sessionId in replies && old(faults) <= faults
      ensures result.Started? ==> IsStarted(q, result.record)
      ensures result.Undone? ==> Compensated(sessions, q.sessionId, old(stopped), stopped)
      ensures result.Undone? ==> faults > old(faults) || IsUnacceptable(q, acceptedAt, old(now))
    {
      var reply := ControllerStart(q);
      var failure := FinishStart(q, acceptedAt, reply);
      if failure == "" {
        return Started(sessions[q.sessionId]);
      }
      ghost var running := sessions;
      CompensateStart(q.sessionId, failure);
      TouchedInTurn(old(sessions), running, sessions, {q.sessionId}, q.sessionId);
      assert {q.sessionId} + {q.sessionId} == {q.sessionId};
      result := Undone;
    }

    // The controller's answer does not pass, at a time since then.
    ghost predicate IsUnacceptable(q: CreateRequest, acceptedAt: int, since: int) reads this {
      && q.sessionId in replies && replies[q.sessionId].Some?
      && exists at | since <= at <= now :: CheckedTimes(q, replies[q.sessionId].value, acceptedAt, at).None?
    }

    // Start. A response means that the session runs in map and file as requested
    // and as the controller answered its one call, or that it ran before; an error
    // means that the request was refusable and the map is as before, or that the
    // call was compensated, its answer being unacceptable; or a fault.
    method Start(q: CreateRequest) returns (result: StartResult)
      requires Valid()
      modifies this`sessions, this`disk, this`now, this`stopped, this`ended, this`started, this`replies, this`faults
      ensures Valid() && OnlyTouched(old(sessions), sessions, {q.sessionId}) && old(now) <= now
      ensures result.Started? ==> q.sessionId in replies && IsStarted(q, result.record)
      ensures result.Replay? ==> Contents() == old(Contents()) && Replays(old(sessions), q, result.record)
      ensures result.NotCalled? ==> sessions == old(sessions)
      ensures result.NotCalled? ==> Refusable(old(sessions), q, old(now)) || faults > old(faults)
      ensures result.Undone? ==> Compensated(sessions, q.sessionId, old(stopped), stopped)
      ensures result.Undone? ==>
                faults > old(faults) || exists at | old(now) <= at <= now :: IsUnacceptable(q, at, old(now))
      ensures started == if result.Started? || result.Undone? then old(started) + [q.sessionId] else old(started)
    {
      var early, acceptedAt := OpenStart(q);
      if early.Some? {
        return early.value;
      }
      ghost var starting := sessions;
      result := CompleteStart(q, acceptedAt);
      assert result.Undone? ==> faults > old(faults) || IsUnacceptable(q, acceptedAt, old(now));
      TouchedInTurn(old(sessions), starting, sessions, {q.sessionId}, q.sessionId);
      assert {q.sessionId} + {q.sessionId} == {q.sessionId};
    }

    // Start, from the controller's answer on: the reason to compensate, or none.
    method FinishStart(q: CreateRequest, acceptedAt: int, reply: Option<CreateResponse>) returns (failure: string)
      requires Valid() && q.sessionId in sessions && IsIntent(q, sessions[q.sessionId])
      requires q.sessionId in replies && replies[q.sessionId] == reply
      modifies this`sessions, this`disk, this`now, this`faults
      ensures Valid() && OnlyTouched(old(sessions), sessions, {q.sessionId}) && old(now) <= now && old(faults) <= faults
      ensures failure == "" ==> q.sessionId in sessions && IsStarted(q, sessions[q.sessionId])
      ensures failure != "" && reply.Some? ==> faults > old(faults) || IsUnacceptable(q, acceptedAt, old(now))
    {
      if reply.None? {
        return "controller_start_failed";
      }
      var completedAt := ReadClock();
      var times := CheckedTimes(q, reply.value, acceptedAt, completedAt);
      if times.None? {
        return "invalid_controller_response";
      }
      TimesAreAnswered(q, reply.value, acceptedAt, completedAt);
      var save := SaveOutcomes();
      var conflict, saved := Activate(q.sessionId, reply.value, times.value.0, times.value.1, save);
      failure := if conflict then "state_conflict_after_start" else if saved then "" else "persist_running_failed";
    }

    // The record runs, in map and file alike, as requested and as the controller
    // answered, and has not expired by the last reading of the clock, when the
    // controller's call was complete.
    ghost predicate IsStarted(q: CreateRequest, record: SessionRecord)
      requires q.sessionId in replies
      reads this
    {
      && q.sessionId in sessions && sessions[q.sessionId] == record && sessions == disk
      && record.status == Running && IsFor(q, record) && record.connectionMode == q.connectionMode
      && replies[q.sessionId].Some? && Exposes(replies[q.sessionId].value, record)
      && HasTimes(q, replies[q.sessionId].value, now, record)
      && record.expiresAt.Some? && now < record.expiresAt.value
    }

    // Get. A running session is reported only on the controller's word and while
    // map and clock agree; an end is reported as the controller reports it, or as
    // expired, once it is saved; an error is a fault, or a word that is none.
    method Get(id: string) returns (result: GetResult)
      requires Valid()
      modifies this`sessions, this`disk, this`now, this`stopped, this`ended, this`words, this`faults
      ensures Valid() && OnlyTouched(old(sessions), sessions, {id}) && old(now) <= now
      ensures result.NotFound? <==> cfg.isUuid(id) && id !in old(sessions)
      ensures result.NotFound? ==> Contents() == old(Contents())
      ensures id in old(sessions) && cfg.isUuid(id) && !WasRunning(old(sessions), id) ==>
                result == Found(old(sessions)[id].status) && Contents() == old(Contents())
      ensures result.Found? ==> cfg.isUuid(id)
      ensures result.Found? && WasRunning(old(sessions), id) ==>
                Reports(old(sessions)[id], id, old(Contents()), old(words), result.status)
      ensures result.Error? ==> !cfg.isUuid(id) || faults > old(faults) || SaidNothing(id, old(words))
      ensures result.Error? && id in old(sessions) ==>
                id in sessions && (!IsTerminal(old(sessions)[id].status) ==> !IsTerminal(sessions[id].status))
    {
      if !cfg.isUuid(id) {
        return GetResult.Error;
      }
      if id !in sessions {
        return NotFound;
      }
      var record := sessions[id];
      if record.status != Running {
        return Found(record.status);
      }
      var at := ReadClock();
      if record.expiresAt.Some? && record.expiresAt.value <= at {
        var reason := LapseReason();
        var closed := Stop(id, reason);
        return if closed.Some? then Found(closed.value) else GetResult.Error;
      }
      var remote := ControllerStatus(id);
      if remote.None? {
        return GetResult.Error;
      }
      if remote.value == Running {
        return Found(Running);
      }
      if !IsTerminal(remote.value) && remote.value != Other("not_found") {
        return GetResult.Error;
      }
      var terminal := if remote.value == Expired || remote.value == Failed then remote.value else Closed;
      var saved := SaveEnd(id, terminal);
      result := if saved then Found(terminal) else GetResult.Error;
    }

    // The end of a running session, as the controller reported it.
    method SaveEnd(id: string, terminal: Status) returns (saved: bool)
      requires Valid() && WasRunning(sessions, id) && IsTerminal(terminal)
      modifies this`sessions, this`disk, this`now, this`faults
      ensures Valid() && OnlyTouched(old(sessions), sessions, {id}) && old(now) <= now
      ensures saved ==> faults == old(faults) && sessions == disk
      ensures saved && id in sessions ==>
        sessions[id] == old(sessions)[id].(status := terminal, closeReason := "controller_status",
          closedAt := Some(now))
      ensures !saved ==> faults > old(faults) && id in sessions && !IsTerminal(sessions[id].status)
    {
      var at := ReadClock();
      var save := SaveOutcomes();
      saved := Reconcile(id, terminal, at, save);
    }

    // What Get may say of a session whose record ran.
    ghost predicate Reports(was: SessionRecord, id: string, before: Image, said: seq<(string, Option<Status>)>,
                            status: Status)
      reads this
    {
      if words == said then
        Lapsed(was, now) && status == Expired && sessions == disk && (id in sessions ==> sessions[id].status == Expired)
      else if status == Running then
        words == said + [(id, Some(Running))] && !Lapsed(was, now) && Contents() == before
      else
        && |words| == |said| + 1 && words[..|said|] == said && words[|said|].0 == id && words[|said|].1.Some?
        && status == EndFrom(words[|said|].1.value) && sessions == disk
        && (id in sessions ==>
            sessions[id] == was.(status := status, closeReason := "controller_status", closedAt := Some(now)))
    }

    // The controller was asked and reported neither a running session nor an end.
    ghost predicate SaidNothing(id: string, said: seq<(string, Option<Status>)>) reads this {
      exists status | words == said + [(id, Some(status))] ::
        status != Running && !IsTerminal(status) && status != Other("not_found")
    }

    // One session to reap, with the reason it is stopped for.
    method ReapOne(id: string, at: int, ghost first: SessionMap) returns (done: bool)
      requires Valid() && id in sessions && id in first && first[id] == sessions[id] && Overdue(first[id], at)
      modifies this`sessions, this`disk, this`now, this`stopped, this`ended, this`faults
      ensures Valid() && OnlyTouched(old(sessions), sessions, {id}) && old(now) <= now
      ensures MayAppend(old(stopped), stopped, id) && old(faults) <= faults
      ensures done ==> Reaped({id}, first, at, sessions, stopped)
      ensures !done ==> !cfg.isUuid(id) || faults > old(faults)
    {
      var record := sessions[id];
      var reason;
      if record.status == Running || (record.expiresAt.Some? && record.expiresAt.value <= at) {
        reason := LapseReason();
      } else {
        reason := KeptReason(record, false);
      }
      var result := Stop(id, reason);
      done := result.Some?;
    }

    // ReapExpired: stop every overdue running session and retry every failed
    // revoke, and no other. Without a fault none of them is left active.
    method ReapExpired() returns (failed: bool, at: int)
      requires Valid()
      modifies this`sessions, this`disk, this`now, this`stopped, this`ended, this`faults
      ensures Valid() && old(now) <= at <= now
      ensures var due := set id | id in old(sessions) && Overdue(old(sessions)[id], at);
              && OnlyTouched(old(sessions), sessions, due) && (forall id | id in stopped :: id in due)
              && (!failed ==> Reaped(due, old(sessions), at, sessions, stopped))
              && (failed ==> faults > old(faults) || exists id | id in due :: !cfg.isUuid(id))
    {
      ghost var first, before := sessions, faults;
      at := ReadClock();
      stopped := [];
      var pending := set id | id in sessions && Overdue(sessions[id], at);
      ghost var all := pending;
      failed := false;
      while pending != {}
        invariant Valid() && pending <= all && OnlyTouched(first, sessions, all - pending) && at <= now
        invariant before <= faults && forall id | id in stopped :: id in all
        invariant !failed ==> Reaped(all - pending, first, at, sessions, stopped)
        invariant failed ==> faults > before || exists id | id in all :: !cfg.isUuid(id)
        decreases pending
      {
        var id :| id in pending;
        ghost var m, was := sessions, stopped;
        var done := ReapOne(id, at, first);
        ReapedOneMore(all, pending, id, first, at, m, sessions, was, stopped);
        pending := pending - {id};
        failed := failed || !done;
      }
      assert all - {} == all;
    }

    // The first half of Recover: check what the file holds, adopt it and
    // compact it.
    method Adopt(records: seq<SessionRecord>, save: SaveOutcome) returns (ok: bool)
      requires ConfigOk(cfg) && Keyed(disk)
      modifies this`sessions, this`disk
      ensures ok <==>
        && Distinct(records) && save == Saved
        && (forall i | 0 <= i < |records| :: ValidRecord(cfg, records[i]))
      ensures ok ==> Valid() && sessions == disk && Adopted(records, sessions)
    {
      var recovered := Index(records, r => ValidRecord(cfg, r));
      if recovered.None? {
        return false;
      }
      RetainedIsAdopted(cfg, records, recovered.value, now);
      sessions := recovered.value;
      ok := SaveLocked(save);
    }

    // What Recover makes of one record: a running session that may go on is left
    // to it, every other active one is to be stopped.
    method Judge(record: SessionRecord, at: int, restorer: bool) returns (mustStop: bool, reason: string, failed: bool)
      requires Valid() && ValidRecord(cfg, record) && record.sessionId !in answers
      requires !IsTerminal(record.status) ==> record.sessionId in sessions && sessions[record.sessionId] == record
      modifies this`sessions, this`answers, this`faults
      ensures Valid() && OnlyTouched(old(sessions), sessions, {record.sessionId}) && old(faults) <= faults
      ensures AnsweredOnly(old(answers), answers, record.sessionId)
      ensures record.sessionId in answers <==> restorer && MayGoOn(cfg, record, at)
      ensures mustStop <==> !IsTerminal(record.status) && !GoesOn(cfg, record, answers, at, restorer)
      ensures !mustStop ==> sessions == old(sessions) && !failed
      ensures mustStop ==> MustEnd(record, reason, at, sessions)
      ensures mustStop && MayGoOn(cfg, record, at) ==> failed
      ensures failed ==> faults > old(faults) || Changed(record, answers)
    {
      var id := record.sessionId;
      reason, mustStop, failed := record.closeReason, false, false;
      if IsActive(record.status) && record.status != Running {
        mustStop := true;
        reason := KeptReason(record, true);
        PrepareRecoveredRetry(id, reason);
      } else if record.status == Running {
        if record.expiresAt.Some? && record.expiresAt.value <= at {
          mustStop := true;
          reason := LapseReason();
        } else if !WithinPolicy(cfg, record) {
          mustStop := true;
          reason := FailureReason(true);
          PrepareRecoveredRetry(id, reason);
        } else if restorer {
          var response := ControllerRestore(record);
          if response.None? || !SameExposure(record, response.value) {
            mustStop, failed := true, true;
            reason := FailureReason(false);
            PrepareRecoveredRetry(id, reason);
          }
        }
      }
    }

    // One turn of Recover's loop.
    method RecoverOne(record: SessionRecord, at: int, restorer: bool) returns (failed: bool)
      requires Valid() && ValidRecord(cfg, record) && record.sessionId !in answers && record.sessionId !in stopped
      requires !IsTerminal(record.status) ==> record.sessionId in sessions && sessions[record.sessionId] == record
      modifies this`sessions, this`disk, this`now, this`stopped, this`ended, this`answers, this`faults
      ensures Valid() && OnlyTouched(old(sessions), sessions, {record.sessionId}) && old(faults) <= faults
      ensures old(now) <= now
      ensures MayAppend(old(stopped), stopped, record.sessionId)
      ensures AnsweredOnly(old(answers), answers, record.sessionId)
      ensures !IsTerminal(record.status) ==>
                Settled(cfg, record, sessions, stopped, answers, at, restorer, !failed)
      ensures !failed && old(sessions) == old(disk) ==> sessions == disk
      ensures IsTerminal(record.status) ==> Contents() == old(Contents()) && stopped == old(stopped)
      ensures IsTerminal(record.status) ==> record.sessionId !in answers
      ensures failed ==> faults > old(faults) || Changed(record, answers)
    {
      var mustStop, reason;
      mustStop, reason, failed := Judge(record, at, restorer);
      if mustStop {
        var id := record.sessionId;
        ghost var retry := sessions;
        var result := Stop(id, reason);
        TouchedInTurn(old(sessions), retry, sessions, {id}, id);
        assert {id} + {id} == {id};
        if result.None? {
          failed := true;
        }
      }
    }

    // Recover on the records read from the file. A session that may go on, and is
    // restored unchanged, is left as it is, also if recovery is incomplete. When
    // it is complete every other active session was stopped by it, with the status
    // its record calls for, and the file agrees with the map. It is incomplete
    // only for a fault or a session that was restored differently.
    method Recover(records: seq<SessionRecord>, restorer: bool) returns (result: RecoverResult, recoveredAt: int)
      requires ConfigOk(cfg) && Keyed(disk)
      modifies this
      ensures old(now) <= recoveredAt <= now
      ensures !result.Refused? ==> Distinct(records) && forall i | 0 <= i < |records| :: ValidRecord(cfg, records[i])
      ensures result.Refused? ==>
                || faults > old(faults) || !Distinct(records)
                || exists i | 0 <= i < |records| :: !ValidRecord(cfg, records[i])
      ensures !result.Refused? ==> forall i | 0 <= i < |records| && !IsTerminal(records[i].status) ::
                Settled(cfg, records[i], sessions, stopped, answers, recoveredAt, restorer, result.Recovered?)
      ensures !result.Refused? ==> OnlyOf(stopped, answers, ActiveBefore(records, |records|))
      ensures result.Recovered? ==> forall id | id in sessions && !IsTerminal(sessions[id].status) ::
                sessions[id] in records && GoesOn(cfg, sessions[id], answers, recoveredAt, restorer)
      ensures result.Recovered? ==> sessions == disk
      ensures result.Incomplete? ==>
                faults > old(faults) || exists i | 0 <= i < |records| :: Changed(records[i], answers)
    {
      ghost var faultsBefore := faults;
      var adopted;
      adopted, recoveredAt := Begin(records, restorer);
      if !adopted {
        return Refused, recoveredAt;
      }
      var failed := false;
      ghost var loaded := sessions;
      for i := 0 to |records|
        invariant Recovers(records, i, recoveredAt, restorer, failed, loaded, faultsBefore) && recoveredAt <= now
      {
        failed := RecoverNext(records, i, recoveredAt, restorer, failed, loaded, faultsBefore);
      }
      result := if failed then Incomplete else Recovered;
      if !failed { LeftoversGoOn(records, recoveredAt, restorer, loaded, faultsBefore); }
    }

    // What is still active belongs to a loaded session that goes on.
    lemma LeftoversGoOn(records: seq<SessionRecord>, at: int, restorer: bool, loaded: SessionMap, faultsBefore: nat)
      requires Recovers(records, |records|, at, restorer, false, loaded, faultsBefore)
      ensures forall id | id in sessions && !IsTerminal(sessions[id].status) ::
        sessions[id] in records && GoesOn(cfg, sessions[id], answers, at, restorer)
    {
      forall id | id in sessions && !IsTerminal(sessions[id].status)
        ensures sessions[id] in records && GoesOn(cfg, sessions[id], answers, at, restorer)
      {
        var j := LeftoverIsSettled(records, loaded, sessions, id);
      }
    }

    // Recover, up to its loop, and the clock reading taken then.
    method Begin(records: seq<SessionRecord>, ghost restorer: bool) returns (adopted: bool, at: int)
      requires ConfigOk(cfg) && Keyed(disk)
      modifies this`sessions, this`disk, this`now, this`stopped, this`answers, this`faults
      ensures old(faults) <= faults && old(now) <= at == now
      ensures adopted ==> Recovers(records, 0, at, restorer, false, sessions, old(faults))
      ensures !adopted ==>
                || faults > old(faults) || !Distinct(records)
                || exists i | 0 <= i < |records| :: !ValidRecord(cfg, records[i])
    {
      stopped, answers := [], map[];
      var save := SaveOutcomes();
      adopted := Adopt(records, save);
      at := ReadClock();
    }

    // After the first n records of the loop.
    ghost predicate Recovers(records: seq<SessionRecord>, n: nat, at: int, restorer: bool, failed: bool,
                             loaded: SessionMap, faultsBefore: nat)
      reads this
    {
      && n <= |records| && Distinct(records) && (forall i | 0 <= i < |records| :: ValidRecord(cfg, records[i]))
      && Valid() && Adopted(records, loaded) && OnlyTouched(loaded, sessions, ActiveBefore(records, n))
      && (!failed ==> sessions == disk)
      && AllSettled(cfg, records, n, sessions, stopped, answers, at, restorer, !failed)
      && OnlyOf(stopped, answers, ActiveBefore(records, n))
      && faultsBefore <= faults && (failed ==> faults > faultsBefore || SomeChanged(records, n, answers))
    }

    method RecoverNext(records: seq<SessionRecord>, n: nat, at: int, restorer: bool, was: bool,
                       ghost loaded: SessionMap, ghost faultsBefore: nat) returns (failed: bool)
      requires n < |records| && Recovers(records, n, at, restorer, was, loaded, faultsBefore)
      modifies this`sessions, this`disk, this`now, this`stopped, this`ended, this`answers, this`faults
      ensures Recovers(records, n + 1, at, restorer, failed, loaded, faultsBefore) && old(now) <= now
    {
      ActiveBeforeNext(records, n);
      ghost var m, ids, said := sessions, stopped, answers;
      var one := RecoverOne(records[n], at, restorer);
      failed := was || one;
      TouchedInTurn(loaded, m, sessions, ActiveBefore(records, n), records[n].sessionId);
      OneMoreSettled(cfg, records, n, m, sessions, ids, stopped, said, answers, at, restorer, !was, !failed);
      ChangedStays(records, n, said, answers);
    }
  }
}
