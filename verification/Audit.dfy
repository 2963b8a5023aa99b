// Audit delivery: an append-only spool file on the agent, batches sent to the
// control plane, idempotent inserts there, an exact acknowledgement, and the
// truncation of the spool. Crashes, lost responses and partly handled batches
// may come anywhere.
module Audit {
  import opened Text

  datatype Event = Event(id: string, gatewayId: string, sessionId: string, details: string)

  const MAX_EVENTS: nat := 100000

  ghost predicate NoDuplicates(events: seq<Event>) {
    forall i, j | 0 <= i < j < |events| :: events[i].id != events[j].id
  }

  function IdsOf(events: seq<Event>): (ids: seq<string>)
    ensures |ids| == |events| && forall i | 0 <= i < |events| :: ids[i] == events[i].id
  {
    seq(|events|, i requires 0 <= i < |events| => events[i].id)
  }

  predicate Holds(events: seq<Event>, id: string) {
    exists i | 0 <= i < |events| :: events[i].id == id
  }

  // Ack: the events that stay.
  function Remaining(events: seq<Event>, acknowledged: seq<string>): (rest: seq<Event>)
    ensures |rest| <= |events|
  {
    if events == [] then []
    else
      var last := events[|events| - 1];
      Remaining(events[..|events| - 1], acknowledged) + if last.id in acknowledged then [] else [last]
  }

  lemma {:induction false} RemainingMembers(events: seq<Event>, acknowledged: seq<string>)
    ensures forall e :: e in Remaining(events, acknowledged) <==> e in events && e.id !in acknowledged
    decreases |events|
  {
    if events != [] {
      var front, last := events[..|events| - 1], events[|events| - 1];
      RemainingMembers(front, acknowledged);
      assert events == front + [last];
    }
  }

  // ON CONFLICT (event_id) DO NOTHING
  function Insert(rows: seq<Event>, e: Event): seq<Event> {
    if Holds(rows, e.id) then rows else rows + [e]
  }

  // ---- the protocol ----

  // A failed append may leave the line in the file; a failed replacement leaves
  // the old or the new file.
  datatype Write = Done | FailedOld | FailedNew

  // A batch the control plane has received, and how many of its events it has
  // recorded so far.
  datatype Request = Request(batch: seq<Event>, recorded: nat)

  datatype State = State(
    file: seq<Event>,
    spool: Option<seq<Event>>,        // the events in memory; None while the agent is down
    accepted: set<Event>,             // Append returned nil
    flushes: map<nat, seq<Event>>,    // batches sent and not yet answered
    requests: map<nat, Request>,      // the control plane's side of them
    responses: set<seq<string>>,      // acknowledgements sent, never taken back
    rows: seq<Event>)                 // gateway_connection_events

  function Init(): State {
    State([], Some([]), {}, map[], map[], {}, [])
  }

  datatype Step =
    | Append(e: Event, valid: bool, write: Write)
    | Flush(op: nat, limit: nat, request: nat)
    | Record(request: nat)
    | Respond(request: nat)
    | Acknowledge(op: nat, response: seq<string>, write: Write)
    | GiveUp(op: nat)
    | Crash
    | Load

  function Apply(s: State, step: Step): State {
    match step
    case Append(e, valid, write) => if s.spool.Some? && valid then AfterAppend(s, e, write) else s
    case Flush(op, limit, request) =>
      if s.spool.Some? && s.spool.value != [] && op !in s.flushes && request !in s.requests then
        var n := if limit < 1 || limit > 500 then 100 else limit;
        var batch := s.spool.value[..if n > |s.spool.value| then |s.spool.value| else n];
        s.(flushes := s.flushes[op := batch], requests := s.requests[request := Request(batch, 0)])
      else s
    case Record(request) =>
      if request in s.requests && s.requests[request].recorded < |s.requests[request].batch| then
        var q := s.requests[request];
        s.(rows := Insert(s.rows, q.batch[q.recorded]),
          requests := s.requests[request := q.(recorded := q.recorded + 1)])
      else s
    case Respond(request) =>
      if request in s.requests && s.requests[request].recorded == |s.requests[request].batch|
      then s.(responses := s.responses + {IdsOf(s.requests[request].batch)}) else s
    case Acknowledge(op, response, write) =>
      if s.spool.Some? && op in s.flushes && response in s.responses then AfterResponse(s, op, response, write) else s
    case GiveUp(op) => s.(flushes := s.flushes - {op})
    case Crash => s.(spool := None, flushes := map[])
    case Load => if s.spool.None? && Loadable(s.file) then s.(spool := Some(s.file)) else s
  }

  predicate Loadable(file: seq<Event>) {
    |file| <= MAX_EVENTS && forall i, j | 0 <= i < j < |file| :: file[i].id != file[j].id
  }

  function AfterAppend(s: State, e: Event, write: Write): State
    requires s.spool.Some?
  {
    if Holds(s.spool.value, e.id) then s.(accepted := s.accepted + {e})
    else if |s.spool.value| >= MAX_EVENTS then s
    else match write
         case Done => s.(file := s.file + [e], spool := Some(s.spool.value + [e]), accepted := s.accepted + {e})
         case FailedOld => s
         case FailedNew => s.(file := s.file + [e])
  }

  // The reporter's check of the acknowledgement, and Ack.
  function AfterResponse(s: State, op: nat, response: seq<string>, write: Write): State
    requires s.spool.Some? && op in s.flushes
  {
    var rest := Remaining(s.spool.value, response);
    var done := s.(flushes := s.flushes - {op});
    if response != IdsOf(s.flushes[op]) || |rest| == |s.spool.value| then done
    else match write
         case Done => done.(file := rest, spool := Some(rest))
         case FailedOld => done
         case FailedNew => done.(file := rest)
  }

  function Run(steps: seq<Step>): State {
    if steps == [] then Init() else Apply(Run(steps[..|steps| - 1]), steps[|steps| - 1])
  }

  // ---- safety ----

  // Every event an accepted append, the file, the spool, a batch or a row holds.
  ghost predicate Known(s: State, e: Event) {
    || e in s.accepted || e in s.file || (s.spool.Some? && e in s.spool.value) || e in s.rows
    || (exists r | r in s.requests :: e in s.requests[r].batch)
  }

  // An event ID names one event.
  ghost predicate NamesOneEvent(s: State) {
    forall e, e' | Known(s, e) && Known(s, e') && e.id == e'.id :: e == e'
  }

  ghost predicate FreshStep(s: State, step: Step) {
    step.Append? ==> forall e | Known(s, e) && e.id == step.e.id :: e == step.e
  }

  ghost predicate FreshRun(steps: seq<Step>) {
    steps != [] ==> FreshRun(steps[..|steps| - 1]) && FreshStep(Run(steps[..|steps| - 1]), steps[|steps| - 1])
  }

  // Accepted and not yet recorded: in the file, and in the spool that will be
  // written over it.
  ghost predicate Secured(s: State, e: Event) {
    e in s.rows || (e in s.file && (s.spool.Some? ==> e in s.spool.value))
  }

  ghost predicate Recorded(s: State, ids: seq<string>) {
    forall i | 0 <= i < |ids| :: Holds(s.rows, ids[i])
  }

  ghost predicate RequestOk(s: State, q: Request) {
    q.recorded <= |q.batch| && forall i | 0 <= i < q.recorded :: Holds(s.rows, q.batch[i].id)
  }

  ghost predicate AuditInv(s: State) {
    && NamesOneEvent(s)
    && (forall e | e in s.accepted :: Secured(s, e))
    && (s.spool.Some? ==> forall e | e in s.spool.value :: e in s.file || e in s.rows)
    && NoDuplicates(s.rows)
    && (forall r | r in s.requests :: RequestOk(s, s.requests[r]))
    && (forall response | response in s.responses :: Recorded(s, response))
  }

  lemma AppendKeepsInv(s: State, e: Event, write: Write)
    requires AuditInv(s) && s.spool.Some? && forall k | Known(s, k) && k.id == e.id :: k == e
    ensures AuditInv(AfterAppend(s, e, write))
  {
    var s' := AfterAppend(s, e, write);
    forall k | Known(s', k) ensures Known(s, k) || k == e {}
    if Holds(s.spool.value, e.id) {
      var i :| 0 <= i < |s.spool.value| && s.spool.value[i].id == e.id;
      assert Known(s, s.spool.value[i]);
    }
    forall k | k in s'.accepted ensures Secured(s', k) {
      if k in s.accepted { assert Secured(s, k); }
    }
  }

  lemma InsertKeepsRows(rows: seq<Event>, e: Event)
    requires NoDuplicates(rows)
    ensures NoDuplicates(Insert(rows, e)) && Holds(Insert(rows, e), e.id)
    ensures forall id | Holds(rows, id) :: Holds(Insert(rows, e), id)
    ensures forall k :: k in Insert(rows, e) <==> k in rows || (k == e && !Holds(rows, e.id))
  {
    var more := Insert(rows, e);
    if !Holds(rows, e.id) {
      assert more[|rows|] == e;
      forall id | Holds(rows, id) ensures Holds(more, id) {
        var i :| 0 <= i < |rows| && rows[i].id == id;
        assert more[i].id == id;
      }
    }
  }

  lemma RecordKeepsInv(s: State, request: nat)
    requires AuditInv(s)
    ensures AuditInv(Apply(s, Record(request)))
  {
    var s' := Apply(s, Record(request));
    if s' != s {
      var q := s.requests[request];
      var e := q.batch[q.recorded];
      assert RequestOk(s, q);
      InsertKeepsRows(s.rows, e);
      forall k | Known(s', k) ensures Known(s, k) {
        assert e in s.requests[request].batch;
      }
      forall k | k in s'.accepted ensures Secured(s', k) { assert Secured(s, k); }
      forall r | r in s'.requests ensures RequestOk(s', s'.requests[r]) { assert RequestOk(s, s.requests[r]); }
      forall response | response in s'.responses ensures Recorded(s', response) { assert Recorded(s, response); }
    }
  }

  // What an acknowledgement removes from the spool has been recorded.
  lemma AcknowledgedIsRecorded(s: State, response: seq<string>, e: Event)
    requires AuditInv(s) && Recorded(s, response) && Known(s, e) && e.id in response
    ensures e in s.rows
  {
    var i :| 0 <= i < |response| && response[i] == e.id;
    assert Holds(s.rows, response[i]);
    var k :| 0 <= k < |s.rows| && s.rows[k].id == e.id;
    assert Known(s, s.rows[k]);
  }

  lemma ResponseKeepsInv(s: State, op: nat, response: seq<string>, write: Write)
    requires AuditInv(s) && s.spool.Some? && op in s.flushes && response in s.responses
    ensures AuditInv(AfterResponse(s, op, response, write))
  {
    var s' := AfterResponse(s, op, response, write);
    var rest := Remaining(s.spool.value, response);
    RemainingMembers(s.spool.value, response);
    assert Recorded(s, response);
    forall e | e in s.spool.value ensures e in rest || e in s.rows {
      assert Known(s, e);
      if e.id in response { AcknowledgedIsRecorded(s, response, e); }
    }
    forall e | Known(s', e) ensures Known(s, e) {}
    forall e | e in s'.accepted ensures Secured(s', e) { assert Secured(s, e); }
    forall r | r in s'.requests ensures RequestOk(s', s'.requests[r]) { assert RequestOk(s, s.requests[r]); }
    forall r | r in s'.responses ensures Recorded(s', r) { assert Recorded(s, r); }
  }

  lemma OtherStepKeepsInv(s: State, step: Step)
    requires AuditInv(s) && !step.Append? && !step.Record? && !step.Acknowledge?
    ensures AuditInv(Apply(s, step))
  {
    var s' := Apply(s, step);
    forall e | Known(s', e) ensures Known(s, e) {}
    forall e | e in s'.accepted ensures Secured(s', e) { assert Secured(s, e); }
    forall r | r in s'.requests ensures RequestOk(s', s'.requests[r]) {
      if r in s.requests { assert RequestOk(s, s.requests[r]); }
    }
    forall r | r in s'.responses ensures Recorded(s', r) {
      if r in s.responses {
        assert Recorded(s, r);
      } else {
        assert RequestOk(s, s.requests[step.request]);
      }
    }
  }

  // Over any run in which an event ID names one event: every event whose append
  // was accepted is recorded at the control plane or still in the spool file,
  // and the control plane holds every event ID at most once.
  lemma {:induction false} AcceptedEventsAreNeverLost(steps: seq<Step>)
    requires FreshRun(steps)
    ensures AuditInv(Run(steps))
    ensures forall e | e in Run(steps).accepted :: e in Run(steps).rows || e in Run(steps).file
    ensures NoDuplicates(Run(steps).rows)
    decreases |steps|
  {
    if steps != [] {
      var front, step := steps[..|steps| - 1], steps[|steps| - 1];
      AcceptedEventsAreNeverLost(front);
      var s := Run(front);
      match step
      case Append(e, valid, write) => if s.spool.Some? && valid { AppendKeepsInv(s, e, write); }
      case Record(request) => RecordKeepsInv(s, request);
      case Acknowledge(op, response, write) =>
        if s.spool.Some? && op in s.flushes && response in s.responses { ResponseKeepsInv(s, op, response, write); }
      case _ => OtherStepKeepsInv(s, step);
    }
    forall e | e in Run(steps).accepted ensures e in Run(steps).rows || e in Run(steps).file {
      assert Secured(Run(steps), e);
    }
  }

  // ---- the condition is needed ----

  ghost predicate Closed(P: State -> bool) {
    forall s, step | P(s) :: P(Apply(s, step))
  }

  // One event, appended to an empty spool and sent.
  function Sent(s: State, e: Event, n: nat): State {
    s.(file := [e], spool := Some([e]), accepted := s.accepted + {e}, flushes := map[n := [e]],
       requests := s.requests[n := Request([e], 0)])
  }

  // Then recorded, acknowledged and dropped.
  function Delivered(s: State, e: Event, n: nat): State {
    s.(accepted := s.accepted + {e}, requests := s.requests[n := Request([e], 1)],
       responses := s.responses + {[e.id]}, rows := Insert(s.rows, e))
  }

  lemma SentIsReached(P: State -> bool, s: State, e: Event, n: nat)
    requires Closed(P) && P(s)
    requires s.file == [] && s.spool == Some([]) && s.flushes == map[] && n !in s.requests
    ensures P(Sent(s, e, n))
  {
    var appended := Apply(s, Append(e, true, Done));
    assert [] + [e] == [e] && appended.spool == Some([e]) && appended.file == [e];
    var sent := Apply(appended, Flush(n, 1, n));
    assert [e][..1] == [e];
    assert sent.flushes == map[n := [e]] && sent == Sent(s, e, n);
  }

  lemma RecordedIsReached(P: State -> bool, s: State, e: Event, n: nat)
    requires Closed(P) && P(s) && n in s.requests && s.requests[n] == Request([e], 0)
    ensures P(s.(rows := Insert(s.rows, e), requests := s.requests[n := Request([e], 1)],
                 responses := s.responses + {[e.id]}))
  {
    var recorded := Apply(s, Record(n));
    assert recorded == s.(rows := Insert(s.rows, e), requests := s.requests[n := Request([e], 1)]);
    assert IdsOf([e]) == [e.id];
    assert Apply(recorded, Respond(n)) == recorded.(responses := s.responses + {[e.id]});
  }

  lemma DroppedIsReached(P: State -> bool, s: State, e: Event, n: nat)
    requires Closed(P) && P(s)
    requires s.file == [e] && s.spool == Some([e]) && s.flushes == map[n := [e]] && [e.id] in s.responses
    ensures P(s.(file := [], spool := Some([]), flushes := map[]))
  {
    assert IdsOf([e]) == [e.id] && [e][..0] == [] && Remaining([e], [e.id]) == [];
    assert map[n := [e]] - {n} == map[];
    assert Apply(s, Acknowledge(n, [e.id], Done)) == s.(file := [], spool := Some([]), flushes := map[]);
  }

  lemma DeliveredIsReached(P: State -> bool, s: State, e: Event, n: nat)
    requires Closed(P) && P(s)
    requires s.file == [] && s.spool == Some([]) && s.flushes == map[] && n !in s.requests
    ensures P(Delivered(s, e, n))
  {
    SentIsReached(P, s, e, n);
    var sent := Sent(s, e, n);
    RecordedIsReached(P, sent, e, n);
    var recorded := sent.(rows := Insert(s.rows, e), requests := sent.requests[n := Request([e], 1)],
                          responses := s.responses + {[e.id]});
    assert recorded.requests == s.requests[n := Request([e], 1)];
    DroppedIsReached(P, recorded, e, n);
    assert recorded.(file := [], spool := Some([]), flushes := map[]) == Delivered(s, e, n);
  }

  ghost predicate Reached(s: State) {
    exists steps :: Run(steps) == s
  }

  lemma ReachedIsClosed()
    ensures Reached(Init()) && Closed(s => Reached(s))
  {
    assert Run([]) == Init();
    forall s, step | Reached(s) ensures Reached(Apply(s, step)) {
      var steps :| Run(steps) == s;
      assert (steps + [step])[..|steps|] == steps;
      assert Run(steps + [step]) == Apply(s, step);
    }
  }

  // Reusing an event ID for another event loses that event: the control plane
  // keeps the first one, acknowledges the second, and the spool drops it.
  lemma ReusedIdLosesEvent(first: Event, second: Event)
    requires first.id == second.id && first != second
    ensures exists steps :: second in Run(steps).accepted && second !in Run(steps).rows && second !in Run(steps).file
  {
    var P := s => Reached(s);
    ReachedIsClosed();
    DeliveredIsReached(P, Init(), first, 0);
    var s := Delivered(Init(), first, 0);
    DeliveredIsReached(P, s, second, 1);
    assert s.rows == [first];
    assert Holds([first], second.id) by { assert [first][0].id == second.id; }
    assert Delivered(s, second, 1).rows == [first] && Reached(Delivered(s, second, 1));
  }

  // ---- reloading ----

  // An append never repeats an ID that is in the file but not in the spool, as
  // it would after an append that failed late.
  ghost predicate NewStep(s: State, step: Step) {
    step.Append? && s.spool.Some? && !Holds(s.spool.value, step.e.id) ==> !Holds(s.file, step.e.id)
  }

  ghost predicate NewRun(steps: seq<Step>) {
    steps != [] ==> NewRun(steps[..|steps| - 1]) && NewStep(Run(steps[..|steps| - 1]), steps[|steps| - 1])
  }

  lemma {:induction false} RemainingKeepsDistinct(events: seq<Event>, acknowledged: seq<string>)
    requires NoDuplicates(events)
    ensures NoDuplicates(Remaining(events, acknowledged))
    decreases |events|
  {
    if events != [] {
      var front, last := events[..|events| - 1], events[|events| - 1];
      RemainingKeepsDistinct(front, acknowledged);
      RemainingMembers(front, acknowledged);
      var rest := Remaining(front, acknowledged);
      forall i | 0 <= i < |rest| ensures rest[i].id != last.id {
        assert rest[i] in front;
      }
    }
  }

  lemma StepKeepsDistinct(s: State, step: Step)
    requires NoDuplicates(s.file) && (s.spool.Some? ==> NoDuplicates(s.spool.value)) && NewStep(s, step)
    ensures var s' := Apply(s, step);
            NoDuplicates(s'.file) && (s'.spool.Some? ==> NoDuplicates(s'.spool.value))
  {
    if s.spool.Some? && step.Acknowledge? {
      RemainingKeepsDistinct(s.spool.value, step.response);
    }
  }

  // Then the file never holds an ID twice, so that a reload refuses it only for
  // its length.
  lemma {:induction false} ReloadFindsNoDuplicate(steps: seq<Step>)
    requires NewRun(steps)
    ensures NoDuplicates(Run(steps).file) && (Run(steps).spool.Some? ==> NoDuplicates(Run(steps).spool.value))
    ensures Loadable(Run(steps).file) <==> |Run(steps).file| <= MAX_EVENTS
    decreases |steps|
  {
    if steps != [] {
      ReloadFindsNoDuplicate(steps[..|steps| - 1]);
      StepKeepsDistinct(Run(steps[..|steps| - 1]), steps[|steps| - 1]);
    }
  }

  // An append that repeats such an ID leaves it twice, and no other append does.
  lemma AppendRepeatsExactlyUnlessNew(s: State, e: Event)
    requires NoDuplicates(s.file) && s.spool.Some? && |s.spool.value| < MAX_EVENTS
    ensures NoDuplicates(Apply(s, Append(e, true, Done)).file) <==> NewStep(s, Append(e, true, Done))
  {
    if !Holds(s.spool.value, e.id) && Holds(s.file, e.id) {
      var more := s.file + [e];
      var i :| 0 <= i < |s.file| && s.file[i].id == e.id;
      assert more[i].id == more[|s.file|].id;
    }
  }

  // The condition is needed: an append fails after its line is in the file, is
  // tried again with success, and after a crash the file is refused.
  lemma RetriedAppendBlocksReload(e: Event)
    ensures exists steps :: Run(steps).spool.None? && Apply(Run(steps), Load).spool.None?
                            && e in Run(steps).accepted && e !in Run(steps).rows
  {
    ReachedIsClosed();
    var late := Apply(Init(), Append(e, true, FailedNew));
    assert late == Init().(file := [e]) by { assert [] + [e] == [e]; }
    var twice := Apply(late, Append(e, true, Done));
    assert twice.file == [e, e] && twice.accepted == {e} && twice.rows == [];
    var down := Apply(twice, Crash);
    assert !Loadable(down.file) by { assert down.file[0].id == down.file[1].id; }
    assert Reached(down);
  }
}
