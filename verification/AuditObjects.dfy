// The objects of audit delivery: the spool, the control plane's batch handler,
// the reporter between them, and the sink that returns only once an event has
// been recorded. The interleavings of their calls, crashes and lost responses
// are the steps of module Audit.
module AuditObjects {
  import opened Text
  import opened Audit

  // ---- the control plane ----

  // The fields RecordGatewayEvent trims before it inserts.
  function Clean(e: Event): Event {
    e.(id := TrimSpace(e.id), gatewayId := TrimSpace(e.gatewayId), sessionId := TrimSpace(e.sessionId))
  }

  function CleanIds(batch: seq<Event>): (ids: seq<string>)
    ensures |ids| == |batch| && forall i | 0 <= i < |batch| :: ids[i] == TrimSpace(batch[i].id)
  {
    seq(|batch|, i requires 0 <= i < |batch| => TrimSpace(batch[i].id))
  }

  predicate Fits(batch: seq<Event>, i: nat, session: string)
    requires i < |batch|
  {
    && (session != "" ==> batch[i].sessionId == session)
    && TrimSpace(batch[i].gatewayId) == TrimSpace(batch[0].gatewayId)
    && TrimSpace(batch[i].id) != ""
    && forall j | 0 <= j < i :: TrimSpace(batch[j].id) != TrimSpace(batch[i].id)
  }

  // Whether the handler starts recording a batch from an authenticated gateway
  // ("" for the shared credential) and session ("" for none).
  predicate Acceptable(batch: seq<Event>, gateway: string, session: string) {
    && 1 <= |batch| <= 500
    && TrimSpace(batch[0].gatewayId) != ""
    && (gateway != "" ==> TrimSpace(batch[0].gatewayId) == gateway)
    && forall i | 0 <= i < |batch| :: Fits(batch, i, session)
  }

  // What a row keeps of an event: its identifiers without the blanks around
  // them, and everything else as it is.
  ghost predicate Stores(row: Event, e: Event) {
    && row.id == TrimSpace(e.id) && row.gatewayId == TrimSpace(e.gatewayId) && row.sessionId == TrimSpace(e.sessionId)
    && row.details == e.details
  }

  ghost predicate From(row: Event, batch: seq<Event>) {
    exists e :: e in batch && Stores(row, e)
  }

  ghost predicate IsStored(rows: seq<Event>, e: Event) {
    exists r :: r in rows && Stores(r, e)
  }

  // Identifiers without blanks around them.
  ghost predicate Plain(e: Event) {
    TrimSpace(e.id) == e.id && TrimSpace(e.gatewayId) == e.gatewayId && TrimSpace(e.sessionId) == e.sessionId
  }

  lemma PlainIsStoredAsItself(rows: seq<Event>, e: Event)
    requires Plain(e)
    ensures IsStored(rows, e) <==> e in rows
  {
    if e in rows { assert Stores(e, e); }
    if IsStored(rows, e) {
      var r :| r in rows && Stores(r, e);
      assert r == e;
    }
  }

  // What a batch may do to the table: rows are added for events of the batch,
  // none is changed or doubled.
  ghost predicate Grows(before: seq<Event>, after: seq<Event>, batch: seq<Event>) {
    && before <= after
    && (NoDuplicates(before) ==> NoDuplicates(after))
    && forall k | |before| <= k < |after| :: From(after[k], batch)
  }

  ghost predicate RecordedAll(rows: seq<Event>, events: seq<Event>) {
    forall i | 0 <= i < |events| :: Holds(rows, events[i].id)
  }

  // An event ID names one event, in the table and among these events.
  ghost predicate NamesOne(rows: seq<Event>, events: seq<Event>) {
    forall e | e in events ::
      && (forall r | r in rows && r.id == e.id :: Stores(r, e))
      && (forall f, r | f in events && Stores(r, f) && r.id == e.id :: Stores(r, e))
  }

  // Every one of these events has its row, which is the event itself if no
  // blanks surround its identifiers.
  ghost predicate Exactly(rows: seq<Event>, events: seq<Event>) {
    forall e | e in events :: IsStored(rows, e) && (Plain(e) ==> e in rows)
  }

  lemma RecordedExactly(first: seq<Event>, rows: seq<Event>, events: seq<Event>, taken: seq<Event>)
    requires Grows(first, rows, events) && NamesOne(first, events)
    requires RecordedAll(rows, taken) && forall e | e in taken :: e in events
    ensures Exactly(rows, taken)
  {
    forall e | e in taken ensures IsStored(rows, e) && (Plain(e) ==> e in rows) {
      var i :| 0 <= i < |taken| && taken[i] == e;
      assert Holds(rows, taken[i].id);
      var k :| 0 <= k < |rows| && rows[k].id == e.id;
      if k < |first| {
        assert first[k] in first && first[k] == rows[k];
      } else {
        assert From(rows[k], events);
      }
      assert rows[k] in rows && Stores(rows[k], e);
      if Plain(e) { PlainIsStoredAsItself(rows, e); }
    }
  }

  lemma GrowsWider(before: seq<Event>, after: seq<Event>, batch: seq<Event>, events: seq<Event>)
    requires Grows(before, after, batch) && forall e | e in batch :: e in events
    ensures Grows(before, after, events)
  {
    forall k | |before| <= k < |after| ensures From(after[k], events) { assert From(after[k], batch); }
  }

  ghost predicate FirstHeld(rows: seq<Event>, batch: seq<Event>, n: nat)
    requires n <= |batch|
  {
    forall i | 0 <= i < n :: Holds(rows, TrimSpace(batch[i].id))
  }

  // The first n events of a batch, inserted in order.
  function InsertAll(rows: seq<Event>, batch: seq<Event>, n: nat): seq<Event>
    requires n <= |batch|
  {
    if n == 0 then rows else Insert(InsertAll(rows, batch, n - 1), Clean(batch[n - 1]))
  }

  lemma {:induction false} InsertAllGrows(rows: seq<Event>, batch: seq<Event>, n: nat)
    requires n <= |batch|
    ensures Grows(rows, InsertAll(rows, batch, n), batch)
    decreases n
  {
    if n > 0 {
      InsertAllGrows(rows, batch, n - 1);
      GrowsOnceMore(rows, InsertAll(rows, batch, n - 1), batch, n - 1);
    }
  }

  lemma GrowsOnceMore(first: seq<Event>, rows: seq<Event>, batch: seq<Event>, i: nat)
    requires i < |batch| && Grows(first, rows, batch)
    ensures Grows(first, Insert(rows, Clean(batch[i])), batch)
  {
    InsertGrows(rows, batch, i);
    GrowsInTurn(first, rows, Insert(rows, Clean(batch[i])), batch);
  }

  lemma {:induction false} InsertAllHolds(rows: seq<Event>, batch: seq<Event>, n: nat)
    requires n <= |batch|
    ensures FirstHeld(InsertAll(rows, batch, n), batch, n)
    decreases n
  {
    if n > 0 {
      InsertAllHolds(rows, batch, n - 1);
      InsertOneMore(InsertAll(rows, batch, n - 1), batch, n - 1);
    }
  }

  lemma InsertOneMore(rows: seq<Event>, batch: seq<Event>, n: nat)
    requires n < |batch| && FirstHeld(rows, batch, n)
    ensures FirstHeld(Insert(rows, Clean(batch[n])), batch, n + 1)
  {
    var after := Insert(rows, Clean(batch[n]));
    InsertGrows(rows, batch, n);
    forall i | 0 <= i < n ensures Holds(after, TrimSpace(batch[i].id)) {
      HoldsStays(rows, after, TrimSpace(batch[i].id));
    }
  }

  lemma GrowsInTurn(a: seq<Event>, b: seq<Event>, c: seq<Event>, batch: seq<Event>)
    requires Grows(a, b, batch) && Grows(b, c, batch)
    ensures Grows(a, c, batch)
  {
    forall k | |a| <= k < |c| ensures From(c[k], batch) {
      if k < |b| { assert c[k] == b[k] && From(b[k], batch); }
    }
  }

  lemma InsertGrows(rows: seq<Event>, batch: seq<Event>, i: nat)
    requires i < |batch|
    ensures Grows(rows, Insert(rows, Clean(batch[i])), batch)
      && Holds(Insert(rows, Clean(batch[i])), TrimSpace(batch[i].id))
  {
    if NoDuplicates(rows) { InsertKeepsRows(rows, Clean(batch[i])); }
    var more := Insert(rows, Clean(batch[i]));
    if !Holds(rows, Clean(batch[i]).id) {
      assert more[|rows|] == Clean(batch[i]) && batch[i] in batch && Stores(more[|rows|], batch[i]);
    }
  }

  lemma HoldsStays(rows: seq<Event>, more: seq<Event>, id: string)
    requires rows <= more && Holds(rows, id)
    ensures Holds(more, id)
  {
    var i :| 0 <= i < |rows| && rows[i].id == id;
    assert more[i].id == id;
  }

  // An event of an accepted batch has its row, unless its ID already had one.
  ghost predicate TakenUp(before: seq<Event>, after: seq<Event>, e: Event) {
    Holds(before, TrimSpace(e.id)) || (IsStored(after, e) && (Plain(e) ==> e in after))
  }

  // A row added under a credential belongs to its gateway and its session.
  ghost predicate SpeaksFor(row: Event, gateway: string, session: string) {
    (gateway != "" ==> row.gatewayId == gateway) && (session != "" ==> row.sessionId == TrimSpace(session))
  }

  lemma AddedSpeakFor(before: seq<Event>, after: seq<Event>, batch: seq<Event>, gateway: string, session: string)
    requires Grows(before, after, batch) && Acceptable(batch, gateway, session)
    ensures forall k | |before| <= k < |after| :: SpeaksFor(after[k], gateway, session)
  {
    forall k | |before| <= k < |after| ensures SpeaksFor(after[k], gateway, session) {
      assert From(after[k], batch);
      var e :| e in batch && Stores(after[k], e);
      var i :| 0 <= i < |batch| && batch[i] == e;
      assert Fits(batch, i, session);
    }
  }

  lemma AllTakenUp(before: seq<Event>, after: seq<Event>, batch: seq<Event>, gateway: string, session: string)
    requires Grows(before, after, batch) && Acceptable(batch, gateway, session) && FirstHeld(after, batch, |batch|)
    ensures forall e | e in batch :: TakenUp(before, after, e)
  {
    forall e | e in batch ensures TakenUp(before, after, e) {
      var i :| 0 <= i < |batch| && batch[i] == e;
      assert Holds(after, TrimSpace(batch[i].id));
      var k :| 0 <= k < |after| && after[k].id == TrimSpace(e.id);
      if k < |before| {
        assert before[k].id == TrimSpace(e.id);
      } else {
        RowIsItsEvents(after[k], batch, i, session);
        assert after[k] in after;
        if Plain(e) { PlainIsStoredAsItself(after, e); }
      }
    }
  }

  lemma RowIsItsEvents(row: Event, batch: seq<Event>, i: nat, session: string)
    requires i < |batch| && From(row, batch) && row.id == TrimSpace(batch[i].id)
    requires forall j | 0 <= j < |batch| :: Fits(batch, j, session)
    ensures Stores(row, batch[i])
  {
    var e :| e in batch && Stores(row, e);
    var j :| 0 <= j < |batch| && batch[j] == e;
    assert Fits(batch, i, session) && Fits(batch, j, session);
  }

  // IDs that are there, and that each name another event.
  ghost predicate AreNames(ids: seq<string>) {
    "" !in ids && forall i, j | 0 <= i < j < |ids| :: ids[i] != ids[j]
  }

  lemma AcknowledgedAreNames(batch: seq<Event>, session: string)
    requires forall i | 0 <= i < |batch| :: Fits(batch, i, session)
    ensures AreNames(CleanIds(batch))
  {
    var ids := CleanIds(batch);
    forall j | 0 <= j < |ids| ensures ids[j] != "" && forall i | 0 <= i < j :: ids[i] != ids[j] {
      assert Fits(batch, j, session);
    }
  }

  class ControlPlane {
    var rows: seq<Event>    // gateway_connection_events
    ghost var faults: nat   // events it failed to record, and answers that were lost

    // The events are inserted in order, all of them or up to the first failure.
    method RecordEach(batch: seq<Event>) returns (n: nat)
      modifies this
      ensures n <= |batch| && rows == InsertAll(old(rows), batch, n)
      ensures faults == if n < |batch| then old(faults) + 1 else old(faults)
    {
      n := 0;
      while n < |batch|
        invariant n <= |batch| && rows == InsertAll(old(rows), batch, n) && faults == old(faults)
      {
        if * {
          faults := faults + 1;
          return;
        }
        rows := Insert(rows, Clean(batch[n]));
        n := n + 1;
      }
    }

    // gatewayEventBatch. Recording an event may be refused or fail; an earlier
    // part of the batch then stays recorded and nothing is acknowledged.
    method RecordBatch(batch: seq<Event>, gateway: string, session: string) returns (response: Option<seq<string>>)
      modifies this
      ensures exists n | 0 <= n <= |batch| ::
        rows == InsertAll(old(rows), batch, n) && (response.Some? ==> n == |batch|)
      ensures Grows(old(rows), rows, batch)
      ensures !Acceptable(batch, gateway, session) ==> response.None? && rows == old(rows)
      ensures forall k | |old(rows)| <= k < |rows| :: From(rows[k], batch) && SpeaksFor(rows[k], gateway, session)
      ensures response.Some? ==> response.value == CleanIds(batch) && forall id | id in response.value ::
        Holds(rows, id)
      ensures response.Some? ==> forall e | e in batch :: TakenUp(old(rows), rows, e)
      ensures response.Some? ==> AreNames(response.value)
      ensures faults >= old(faults)
      ensures faults == old(faults) && Acceptable(batch, gateway, session) ==> response.Some?
    {
      response := None;
      assert rows == InsertAll(rows, batch, 0);
      if |batch| < 1 || |batch| > 500 { return; }
      if TrimSpace(batch[0].gatewayId) == "" { return; }
      if gateway != "" && TrimSpace(batch[0].gatewayId) != gateway { return; }
      var accepted := CheckBatch(batch, session);
      if accepted.None? { return; }
      var recorded := RecordEach(batch);
      InsertAllGrows(old(rows), batch, recorded);
      InsertAllHolds(old(rows), batch, recorded);
      AddedSpeakFor(old(rows), rows, batch, gateway, session);
      if recorded == |batch| {
        response := accepted;
        AllTakenUp(old(rows), rows, batch, gateway, session);
        AcknowledgedAreNames(batch, session);
      }
    }
  }

  // The handler's first pass: the IDs to acknowledge, if the batch fits.
  method CheckBatch(batch: seq<Event>, session: string) returns (accepted: Option<seq<string>>)
    requires |batch| > 0
    ensures accepted.Some? <==> forall i | 0 <= i < |batch| :: Fits(batch, i, session)
    ensures accepted.Some? ==> accepted.value == CleanIds(batch)
  {
    var ids: seq<string> := [];
    var i := 0;
    while i < |batch|
      invariant i <= |batch| == |CleanIds(batch)| && ids == CleanIds(batch)[..i]
      invariant forall j | 0 <= j < i :: Fits(batch, j, session)
    {
      var e := batch[i];
      var id := TrimSpace(e.id);
      if (session != "" && e.sessionId != session) || TrimSpace(e.gatewayId) != TrimSpace(batch[0].gatewayId)
        || id == "" {
        assert !Fits(batch, i, session);
        return None;
      }
      if id in ids {
        var j :| 0 <= j < |ids| && ids[j] == id;
        assert TrimSpace(batch[j].id) == id;
        assert !Fits(batch, i, session);
        return None;
      }
      forall j | 0 <= j < i ensures TrimSpace(batch[j].id) != id {
        assert ids[j] == TrimSpace(batch[j].id);
      }
      ids := ids + [id];
      i := i + 1;
    }
    accepted := Some(ids);
  }

  // ---- the spool ----

  // What Ack leaves of a spool whose first n events are acknowledged.
  lemma {:induction false} RemainingIsTheRest(events: seq<Event>, ids: seq<string>, n: nat)
    requires n <= |events| && forall i | 0 <= i < |events| :: events[i].id in ids <==> i < n
    ensures Remaining(events, ids) == events[n..]
    decreases |events|
  {
    if |events| == n {
      NoneRemain(events, ids);
    } else {
      var k := |events| - 1;
      RemainingIsTheRest(events[..k], ids, n);
      LastRemains(events, ids);
      assert events[..k][n..] + [events[k]] == events[n..];
    }
  }

  lemma NoneRemain(events: seq<Event>, ids: seq<string>)
    requires forall i | 0 <= i < |events| :: events[i].id in ids
    ensures Remaining(events, ids) == []
  {
    RemainingMembers(events, ids);
    assert forall e :: e !in Remaining(events, ids);
  }

  lemma LastRemains(events: seq<Event>, ids: seq<string>)
    requires events != [] && events[|events| - 1].id !in ids
    ensures Remaining(events, ids) == Remaining(events[..|events| - 1], ids) + [events[|events| - 1]]
  {}

  class FileEventSpool {
    const isUuid: string -> bool
    const wellFormed: Event -> bool    // validateConnectionEvent
    var file: seq<Event>
    var events: seq<Event>
    var ids: set<string>
    ghost var faults: nat    // calls cut short, and writes that failed

    constructor (isUuid: string -> bool, wellFormed: Event -> bool, file: seq<Event>)
      ensures this.isUuid == isUuid && this.wellFormed == wellFormed
      ensures this.file == file && events == [] && ids == {} && faults == 0
    {
      this.isUuid, this.wellFormed, this.file := isUuid, wellFormed, file;
      events, ids, faults := [], {}, 0;
    }

    ghost predicate Valid() reads this {
      && (forall e :: wellFormed(e) ==> isUuid(e.id))
      && NoDuplicates(events) && |events| <= MAX_EVENTS
      && (forall e | e in events :: wellFormed(e))
      && forall id :: id in ids <==> Holds(events, id)
    }

    // The spool's part of the protocol's state.
    ghost function View(): State reads this {
      Init().(file := file, spool := Some(events))
    }

    ghost method Fail()
      modifies this`faults
      ensures faults == old(faults) + 1
    {
      faults := faults + 1;
    }

    ghost predicate Appended(before: State, e: Event, valid: bool, write: Write, ok: bool, after: State) {
      (valid ==> wellFormed(e)) && Apply(before, Audit.Append(e, valid, write))
        == after.(accepted := if ok then {e} else {})
    }

    // Append is the protocol's step, and its result is whether the protocol
    // counts the event as accepted.
    method Append(e: Event) returns (ok: bool)
      requires Valid()
      modifies this`file, this`events, this`ids, this`faults
      ensures Valid()
      ensures exists valid, write :: Appended(old(View()), e, valid, write, ok, View())
      ensures (events == old(events) || events == old(events) + [e]) && (ok ==> Holds(events, e.id))
      ensures faults >= old(faults)
      ensures faults == old(faults) ==>
                (ok <==> wellFormed(e) && (Holds(old(events), e.id) || |old(events)| < MAX_EVENTS))
    {
      ghost var before := View();
      if * {
        Fail();
        assert Appended(before, e, false, Done, false, View());
        return false;
      }
      if !wellFormed(e) { assert Appended(before, e, false, Done, false, before); return false; }
      if e.id in ids {
        assert {} + {e} == {e} && Appended(before, e, true, Done, true, before);
        return true;
      }
      if |events| >= MAX_EVENTS { assert Appended(before, e, true, Done, false, before); return false; }
      if * {
        Fail();
        assert Appended(before, e, true, FailedOld, false, View());
        return false;
      }
      file := file + [e];
      if * {
        Fail();
        assert Appended(before, e, true, FailedNew, false, View());
        return false;
      }
      events := events + [e];
      ids := ids + {e.id};
      AppendHolds(before.spool.value, e);
      assert {} + {e} == {e} && Appended(before, e, true, Done, true, View());
      ok := true;
    }

    method Pending(limit: int) returns (batch: seq<Event>)
      ensures batch <= events
      ensures |batch| == if 1 <= limit <= 500 then (if limit <= |events| then limit else |events|)
                         else (if 100 <= |events| then 100 else |events|)
    {
      var n := if limit < 1 || limit > 500 then 100 else limit;
      batch := events[..if n > |events| then |events| else n];
    }

    method Filter(acknowledged: seq<string>) returns (remaining: seq<Event>)
      ensures remaining == Remaining(events, acknowledged)
    {
      remaining := [];
      var i := 0;
      while i < |events|
        invariant i <= |events| && remaining == Remaining(events[..i], acknowledged)
      {
        assert events[..i + 1][..i] == events[..i];
        if events[i].id !in acknowledged { remaining := remaining + [events[i]]; }
        i := i + 1;
      }
      assert events[..|events|] == events;
    }

    // Ack: on success the acknowledged events are gone from the spool and,
    // when that changed it, from the file. On failure the spool is as before.
    method Ack(acknowledged: seq<string>) returns (ok: bool)
      requires Valid()
      modifies this`file, this`events, this`ids, this`faults
      ensures Valid()
      ensures var rest := Remaining(old(events), acknowledged);
              && events == (if ok then rest else old(events))
              && (file == old(file) || file == rest)
              && (ok && |rest| != |old(events)| ==> file == rest)
      ensures faults >= old(faults)
      ensures faults == old(faults) ==> (ok <==> forall id | id in acknowledged :: isUuid(id))
    {
      if * { Fail(); return false; }
      var i := 0;
      while i < |acknowledged|
        invariant i <= |acknowledged| && forall id | id in acknowledged[..i] :: isUuid(id)
      {
        if !isUuid(acknowledged[i]) { return false; }
        i := i + 1;
      }
      var remaining := Filter(acknowledged);
      RemainingKeepsDistinct(events, acknowledged);
      RemainingMembers(events, acknowledged);
      if |remaining| == |events| {
        NothingRemoved(events, acknowledged);
        return true;
      }
      if * { Fail(); return false; }
      file := remaining;
      if * { Fail(); return false; }
      events := remaining;
      ids := IdSet(remaining);
      ok := true;
    }

    // load: the spool takes up the file exactly when it can.
    method Load() returns (ok: bool)
      requires forall e :: wellFormed(e) ==> isUuid(e.id)
      requires events == [] && ids == {}
      modifies this`events, this`ids
      ensures ok <==> Loadable(file) && forall e | e in file :: wellFormed(e)
      ensures ok ==> Valid() && events == file
    {
      var i := 0;
      while i < |file|
        invariant i <= |file| && events == file[..i] && Valid()
      {
        var e := file[i];
        if !wellFormed(e) { return false; }
        if e.id in ids {
          var j :| 0 <= j < |events| && events[j].id == e.id;
          assert file[j].id == file[i].id;
          return false;
        }
        AppendHolds(events, e);
        events := events + [e];
        ids := ids + {e.id};
        i := i + 1;
        if |events| > MAX_EVENTS { return false; }
      }
      ok := true;
    }
  }

  lemma AppendHolds(events: seq<Event>, e: Event)
    ensures forall id :: Holds(events + [e], id) <==> Holds(events, id) || id == e.id
  {
    var more := events + [e];
    forall id ensures Holds(more, id) <==> Holds(events, id) || id == e.id {
      if Holds(events, id) { HoldsStays(events, more, id); }
      assert more[|events|] == e;
    }
  }

  lemma {:induction false} NothingRemoved(events: seq<Event>, acknowledged: seq<string>)
    requires |Remaining(events, acknowledged)| == |events|
    ensures Remaining(events, acknowledged) == events
    decreases |events|
  {
    if events != [] {
      var front := events[..|events| - 1];
      NothingRemoved(front, acknowledged);
      assert front + [events[|events| - 1]] == events;
    }
  }

  method IdSet(events: seq<Event>) returns (ids: set<string>)
    ensures forall id :: id in ids <==> Holds(events, id)
  {
    ids := {};
    var i := 0;
    while i < |events|
      invariant i <= |events|
      invariant forall id :: id in ids <==> Holds(events[..i], id)
    {
      assert events[..i] + [events[i]] == events[..i + 1];
      AppendHolds(events[..i], events[i]);
      ids := ids + {events[i].id};
      i := i + 1;
    }
    assert events[..|events|] == events;
  }

  // ---- the reporter ----

  // validateAuditAcknowledgement
  method CheckAcknowledgement(accepted: seq<string>, events: seq<Event>) returns (ok: bool)
    ensures ok <==> accepted == IdsOf(events)
  {
    if |accepted| != |events| { return false; }
    var i := 0;
    while i < |events|
      invariant i <= |events| && accepted[..i] == IdsOf(events)[..i]
    {
      if accepted[i] != events[i].id {
        assert IdsOf(events)[i] != accepted[i];
        return false;
      }
      assert accepted[..i + 1] == accepted[..i] + [accepted[i]];
      i := i + 1;
    }
    ok := true;
  }

  // The first n events of a spool have been recorded, and are all a call took
  // from it.
  ghost predicate Took(before: seq<Event>, n: nat, after: seq<Event>, rows: seq<Event>) {
    n <= |before| && after == before[n..] && RecordedAll(rows, before[..n])
  }

  lemma TookInTurn(a: seq<Event>, n: nat, b: seq<Event>, m: nat, c: seq<Event>, rows: seq<Event>, more: seq<Event>)
    requires Took(a, n, b, rows) && Took(b, m, c, more) && rows <= more
    ensures Took(a, n + m, c, more)
  {
    assert c == a[n + m..];
    var taken := a[..n + m];
    forall i | 0 <= i < |taken| ensures Holds(more, taken[i].id) {
      if i < n {
        assert Holds(rows, a[..n][i].id);
        HoldsStays(rows, more, a[i].id);
      } else {
        assert b[..m][i - n] == a[i];
      }
    }
  }

  lemma AcknowledgedIsTaken(events: seq<Event>, batch: seq<Event>, response: seq<string>, rows: seq<Event>)
    requires NoDuplicates(events) && batch <= events
    requires response == IdsOf(batch) && forall id | id in response :: Holds(rows, id)
    ensures Took(events, |batch|, Remaining(events, response), rows)
  {
    var n := |batch|;
    assert events[..n] == batch;
    forall i | 0 <= i < |events| ensures events[i].id in response <==> i < n {
      if i < n { assert response[i] == events[i].id; }
    }
    RemainingIsTheRest(events, response, n);
    forall i | 0 <= i < n ensures Holds(rows, events[..n][i].id) {
      assert response[i] == batch[i].id && response[i] in response;
    }
  }

  class AuditReporter {
    const spool: FileEventSpool
    const plane: ControlPlane
    const gatewayId: string
    const sessionId: string
    const legacy: bool    // the shared credential names no gateway
    const batchSize: nat

    constructor (spool: FileEventSpool, plane: ControlPlane, gatewayId: string, sessionId: string, legacy: bool,
      batchSize: int)
      requires spool.Valid()
      ensures Valid() && this.spool == spool && this.plane == plane
      ensures this.gatewayId == gatewayId && this.sessionId == sessionId && this.legacy == legacy
      ensures this.batchSize == if 1 <= batchSize <= 500 then batchSize else 100
    {
      this.spool, this.plane := spool, plane;
      this.gatewayId, this.sessionId, this.legacy := gatewayId, sessionId, legacy;
      this.batchSize := if batchSize < 1 || batchSize > 500 then 100 else batchSize;
    }

    ghost predicate Valid() reads spool {
      1 <= batchSize <= 500 && spool.Valid()
    }

    // What any number of flushes may do: the spool loses a recorded prefix, the
    // file is as it was or what a replacement wrote, the table only grows.
    ghost predicate Delivers(n: nat, before: seq<Event>, file: seq<Event>, rows: seq<Event>)
      reads spool, plane
    {
      && Took(before, n, spool.events, plane.rows)
      && Grows(rows, plane.rows, before)
      && (spool.file == file || exists k :: Took(before, k, spool.file, plane.rows))
    }

    // An event the reporter's credential speaks for.
    predicate Mine(e: Event) {
      e.gatewayId == gatewayId && (sessionId != "" ==> e.sessionId == sessionId)
    }

    // An event the control plane takes from this reporter.
    ghost predicate Deliverable(e: Event) {
      && e.gatewayId == gatewayId && (sessionId != "" ==> e.sessionId == sessionId)
      && TrimSpace(e.id) == e.id && e.id != ""
    }

    // Nothing but a fault keeps these events from the control plane.
    ghost predicate AllDeliverable(events: seq<Event>) {
      && TrimSpace(gatewayId) != "" && (legacy || TrimSpace(gatewayId) == gatewayId)
      && forall e | e in events :: Deliverable(e)
    }

    ghost function Faults(): nat reads spool, plane {
      spool.faults + plane.faults
    }

    lemma FirstAreDeliverable(events: seq<Event>, batch: seq<Event>)
      requires AllDeliverable(events) && batch <= events
      ensures AllDeliverable(batch) && forall j | 0 <= j < |batch| :: Mine(batch[j])
    {
      forall j | 0 <= j < |batch| ensures Deliverable(batch[j]) { assert batch[j] == events[j]; }
    }

    lemma DeliverableIsAcceptable(batch: seq<Event>)
      requires AllDeliverable(batch) && NoDuplicates(batch) && 1 <= |batch| <= 500
      ensures Acceptable(batch, if legacy then "" else gatewayId, sessionId) && CleanIds(batch) == IdsOf(batch)
    {
      assert Deliverable(batch[0]);
      forall i | 0 <= i < |batch| ensures Fits(batch, i, sessionId) {
        assert Deliverable(batch[i]);
        forall j | 0 <= j < i ensures TrimSpace(batch[j].id) != TrimSpace(batch[i].id) {
          assert Deliverable(batch[j]);
        }
      }
      forall i | 0 <= i < |batch| ensures CleanIds(batch)[i] == IdsOf(batch)[i] { assert Deliverable(batch[i]); }
    }

    // What has been delivered is recorded as itself if IDs name one event each.
    lemma DeliversExactly(n: nat, before: seq<Event>, file: seq<Event>, rows: seq<Event>)
      requires Delivers(n, before, file, rows) && NamesOne(rows, before)
      ensures Exactly(plane.rows, before[..n])
    {
      RecordedExactly(rows, plane.rows, before, before[..n]);
    }

    method CheckMine(batch: seq<Event>) returns (ok: bool)
      ensures ok <==> forall j | 0 <= j < |batch| :: Mine(batch[j])
    {
      var i := 0;
      while i < |batch|
        invariant i <= |batch| && forall j | 0 <= j < i :: Mine(batch[j])
      {
        if batch[i].gatewayId != gatewayId || (sessionId != "" && batch[i].sessionId != sessionId) { return false; }
        i := i + 1;
      }
      ok := true;
    }

    // The request and its answer, which may be lost; an answer counts only if it
    // names the batch exactly.
    method Deliver(batch: seq<Event>) returns (ok: bool)
      modifies plane
      ensures Grows(old(plane.rows), plane.rows, batch)
      ensures ok ==> forall id | id in IdsOf(batch) :: Holds(plane.rows, id)
      ensures plane.faults >= old(plane.faults)
      ensures plane.faults == old(plane.faults) && AllDeliverable(batch) && NoDuplicates(batch) && 1 <= |batch| <= 500
              ==> ok
    {
      if AllDeliverable(batch) && NoDuplicates(batch) && 1 <= |batch| <= 500 { DeliverableIsAcceptable(batch); }
      var credential := if legacy then "" else gatewayId;
      var response := plane.RecordBatch(batch, credential, sessionId);
      if !response.Some? { return false; }
      if * {
        plane.faults := plane.faults + 1;
        return false;
      }
      ok := CheckAcknowledgement(response.value, batch);
    }

    // Flush: one batch. Success shrinks a spool that holds anything.
    method Flush() returns (count: nat, ok: bool)
      requires Valid()
      modifies spool`file, spool`events, spool`ids, spool`faults, plane
      ensures Valid()
      ensures Delivers(count, old(spool.events), old(spool.file), old(plane.rows))
      ensures ok ==> count == if batchSize <= |old(spool.events)| then batchSize else |old(spool.events)|
      ensures !ok ==> count == 0
      ensures count > 0 ==> spool.file == spool.events
      ensures forall i | 0 <= i < count :: old(spool.events)[i].gatewayId == gatewayId
      ensures sessionId != "" ==> forall i | 0 <= i < count :: old(spool.events)[i].sessionId == sessionId
      ensures Faults() >= old(Faults())
      ensures Faults() == old(Faults()) && AllDeliverable(old(spool.events)) ==> ok
    {
      assert spool.events[..0] == [];
      var batch := spool.Pending(batchSize);
      if |batch| == 0 { return 0, true; }
      if AllDeliverable(spool.events) { FirstAreDeliverable(spool.events, batch); }
      ok := CheckMine(batch);
      if !ok { return 0, false; }
      ok := Deliver(batch);
      GrowsWider(old(plane.rows), plane.rows, batch, spool.events);
      if !ok { return 0, false; }
      ok := Acknowledge(batch);
      count := if ok then |batch| else 0;
    }

    // A recorded batch leaves the spool, and the file if it can be replaced.
    method Acknowledge(batch: seq<Event>) returns (ok: bool)
      requires Valid() && batch != [] && batch <= spool.events
      requires forall id | id in IdsOf(batch) :: Holds(plane.rows, id)
      modifies spool`file, spool`events, spool`ids, spool`faults
      ensures Valid() && Took(old(spool.events), if ok then |batch| else 0, spool.events, plane.rows)
      ensures spool.file == old(spool.file) || exists k :: Took(old(spool.events), k, spool.file, plane.rows)
      ensures ok ==> spool.file == spool.events
      ensures spool.faults >= old(spool.faults) && (spool.faults == old(spool.faults) ==> ok)
    {
      assert spool.events[..0] == [];
      forall id | id in IdsOf(batch) ensures spool.isUuid(id) {
        var i :| 0 <= i < |batch| && IdsOf(batch)[i] == id;
        assert spool.events[i] == batch[i];
      }
      AcknowledgedIsTaken(spool.events, batch, IdsOf(batch), plane.rows);
      ok := spool.Ack(IdsOf(batch));
    }

    // flushAvailable: batch after batch while they are full.
    method FlushAvailable() returns (ghost n: nat)
      requires Valid()
      modifies spool`file, spool`events, spool`ids, spool`faults, plane
      ensures Valid()
      ensures Delivers(n, old(spool.events), old(spool.file), old(plane.rows))
      ensures Faults() == old(Faults()) && AllDeliverable(old(spool.events)) ==> spool.events == []
    {
      n := 0;
      assert spool.events[..0] == [];
      while true
        invariant Valid() && Faults() >= old(Faults())
        invariant Delivers(n, old(spool.events), old(spool.file), old(plane.rows))
        decreases |spool.events|
      {
        var count, ok := FlushOnce(n, old(spool.events), old(spool.file), old(plane.rows));
        n := n + count;
        if !ok || count == 0 || count < batchSize { break; }
      }
    }

    // One more flush after n events have been delivered.
    method FlushOnce(ghost n: nat, ghost before: seq<Event>, ghost file: seq<Event>, ghost rows: seq<Event>)
      returns (count: nat, ok: bool)
      requires Valid() && Delivers(n, before, file, rows)
      modifies spool`file, spool`events, spool`ids, spool`faults, plane
      ensures Valid() && Delivers(n + count, before, file, rows)
      ensures |spool.events| == |old(spool.events)| - count
      ensures ok ==> (count == 0 <==> old(spool.events) == []) && (count < batchSize ==> spool.events == [])
      ensures !ok ==> count == 0
      ensures Faults() >= old(Faults())
      ensures Faults() == old(Faults()) && AllDeliverable(before) ==> ok
    {
      ghost var events, spooled, table := spool.events, spool.file, plane.rows;
      assert forall e | e in events :: e in before;
      count, ok := Flush();
      TookInTurn(before, n, events, count, spool.events, table, plane.rows);
      GrowsWider(table, plane.rows, events, before);
      GrowsInTurn(rows, table, plane.rows, before);
      if spool.file == spooled {
        if spooled != file {
          var k :| Took(before, k, spooled, table);
          assert spooled[..0] == [] && Took(spooled, 0, spooled, plane.rows);
          TookInTurn(before, k, spooled, 0, spooled, table, plane.rows);
        }
      } else {
        var k :| Took(events, k, spool.file, plane.rows);
        TookInTurn(before, n, events, k, spool.file, table, plane.rows);
      }
    }
  }

  // ---- the sink ----

  lemma RecordedWithLast(before: seq<Event>, e: Event, after: seq<Event>, rows: seq<Event>)
    requires before <= after && Holds(after, e.id) && RecordedAll(rows, after)
    ensures RecordedAll(rows, before + [e])
  {
    forall i | 0 <= i < |before| ensures Holds(rows, before[i].id) { assert before[i] == after[i]; }
    var i :| 0 <= i < |after| && after[i].id == e.id;
    assert Holds(rows, after[i].id);
  }

  // An append that returns without error has emptied the spool into the control
  // plane: the event, and everything spooled before it, is recorded there.
  class SessionAuditSink {
    const reporter: AuditReporter

    constructor (reporter: AuditReporter)
      ensures this.reporter == reporter
    {
      this.reporter := reporter;
    }

    method FlushLocked() returns (ok: bool)
      requires reporter.Valid()
      modifies reporter.spool`file, reporter.spool`events, reporter.spool`ids, reporter.spool`faults, reporter.plane
      ensures reporter.Valid() && Grows(old(reporter.plane.rows), reporter.plane.rows, old(reporter.spool.events))
      ensures ok ==> reporter.spool.events == [] && RecordedAll(reporter.plane.rows, old(reporter.spool.events))
      ensures ok && NamesOne(old(reporter.plane.rows), old(reporter.spool.events)) ==>
                Exactly(reporter.plane.rows, old(reporter.spool.events))
      ensures reporter.Faults() >= old(reporter.Faults())
      ensures reporter.Faults() == old(reporter.Faults()) && reporter.AllDeliverable(old(reporter.spool.events)) ==> ok
    {
      ghost var n: nat := 0;
      ghost var before, file, rows := reporter.spool.events, reporter.spool.file, reporter.plane.rows;
      assert before[..0] == [];
      while |reporter.spool.events| > 0
        invariant reporter.Valid() && reporter.Delivers(n, before, file, rows)
        invariant reporter.Faults() >= old(reporter.Faults())
        decreases |reporter.spool.events|
      {
        var count, flushed := reporter.FlushOnce(n, before, file, rows);
        n := n + count;
        if !flushed { return false; }
      }
      assert before[..n] == before;
      if NamesOne(rows, before) { RecordedExactly(rows, reporter.plane.rows, before, before); }
      ok := true;
    }

    method Append(e: Event) returns (ok: bool)
      requires reporter.Valid()
      modifies reporter.spool`file, reporter.spool`events, reporter.spool`ids, reporter.spool`faults, reporter.plane
      ensures reporter.Valid() && Grows(old(reporter.plane.rows), reporter.plane.rows, old(reporter.spool.events) + [e])
      ensures ok ==> reporter.spool.events == [] && RecordedAll(reporter.plane.rows, old(reporter.spool.events) + [e])
      ensures ok && NamesOne(old(reporter.plane.rows), old(reporter.spool.events) + [e]) ==>
                Exactly(reporter.plane.rows, old(reporter.spool.events) + [e])
      ensures reporter.Faults() == old(reporter.Faults()) && reporter.spool.wellFormed(e) ==>
                (reporter.AllDeliverable(old(reporter.spool.events) + [e]) && |old(reporter.spool.events)| < MAX_EVENTS
               ==> ok)
    {
      ghost var before := reporter.spool.events;
      ok := reporter.spool.Append(e);
      if !ok { return; }
      ghost var after := reporter.spool.events;
      assert Holds(after, e.id) && before <= after && forall x | x in after :: x in before + [e];
      ghost var rows := reporter.plane.rows;
      ok := FlushLocked();
      GrowsWider(rows, reporter.plane.rows, after, before + [e]);
      if ok {
        RecordedWithLast(before, e, after, reporter.plane.rows);
        if NamesOne(rows, before + [e]) { RecordedExactly(rows, reporter.plane.rows, before + [e], before + [e]); }
      }
    }
  }

  // A session agent. Its runtime is stopped successfully once at most; closing
  // it again only flushes what is left.
  class SessionAgent {
    const audit: SessionAuditSink
    var closed: bool
    ghost var stops: nat

    constructor (audit: SessionAuditSink)
      ensures this.audit == audit && !closed && stops == 0
    {
      this.audit, closed, stops := audit, false, 0;
    }

    // The controller's Stop, which may fail.
    method Stop() returns (ok: bool)
      modifies this`stops
      ensures stops == if ok then old(stops) + 1 else old(stops)
    {
      ok := *;
      if ok { stops := stops + 1; }
    }

    method Close() returns (ok: bool)
      requires audit.reporter.Valid() && (stops == if closed then 1 else 0)
      modifies this`closed, this`stops
      modifies audit.reporter.spool`file, audit.reporter.spool`events, audit.reporter.spool`ids
      modifies audit.reporter.spool`faults, audit.reporter.plane
      ensures audit.reporter.Valid() && (stops == if closed then 1 else 0)
      ensures ok ==> closed && audit.reporter.spool.events == []
      ensures ok ==> RecordedAll(audit.reporter.plane.rows, old(audit.reporter.spool.events))
      ensures ok && NamesOne(old(audit.reporter.plane.rows), old(audit.reporter.spool.events)) ==>
                Exactly(audit.reporter.plane.rows, old(audit.reporter.spool.events))
      ensures closed && audit.reporter.Faults() == old(audit.reporter.Faults()) ==>
                (audit.reporter.AllDeliverable(old(audit.reporter.spool.events)) ==> ok)
    {
      if !closed {
        ok := Stop();
        if !ok { return; }
        closed := true;
      }
      ok := audit.FlushLocked();
    }
  }
}
