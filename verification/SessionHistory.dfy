// What the rows of sessions say, column by column, and what over any run they
// tell of the updates that made them.
module SessionHistory {
  import opened Text
  import opened Provisioning

  // ---- one update ----

  // The updates each status is open to.
  predicate Open(row: Row, u: Update) {
    match row.status
    case Provisioning =>
      && (u.Claim? || u.ClaimOn? || u.Renew? || u.MarkRunning? || u.MarkProvisionFailed?
          || u.MarkProvisionRevokeFailed?)
      && u.expected == row.version
      && ((u.Claim? || u.ClaimOn?) && row.version > 0 ==> row.updatedAt <= u.staleBefore)
    case Running => u.BeginRevoke? || (u.MarkRuntimeTerminated? && (u.status.Expired? || u.status.Failed?))
    case Revoking =>
      || u.MarkRevokeFailed? || u.MarkManualIntervention?
      || (u.MarkClosed? && (u.status.Closed? || u.status.Expired?))
    case RevokeFailed => u.BeginRevoke? || u.MarkManualIntervention?
    case ManualIntervention => u.BeginRevoke?
    case _ => false
  }

  // The status an update gives, if it gives one.
  function NewStatus(u: Update): Option<Status> {
    match u
    case MarkRunning(_, _, _) => Some(Running)
    case MarkProvisionFailed(_, _) => Some(Failed)
    case MarkProvisionRevokeFailed(_, _) => Some(RevokeFailed)
    case MarkRevokeFailed(_) => Some(RevokeFailed)
    case MarkManualIntervention(_) => Some(ManualIntervention)
    case BeginRevoke => Some(Revoking)
    case MarkRuntimeTerminated(status, _) => Some(status)
    case MarkClosed(status) => Some(status)
    case _ => None
  }

  predicate Closes(u: Update) {
    u.MarkProvisionFailed? || u.MarkRuntimeTerminated? || u.MarkClosed?
  }

  predicate GivesReason(u: Update) {
    u.MarkProvisionFailed? || u.MarkProvisionRevokeFailed? || u.MarkRevokeFailed? || u.MarkManualIntervention?
  }

  // Each column of the row after an update: an argument of the update, the time
  // of its transaction, or what the column held before.
  ghost predicate Sets(e: Entry) {
    var u, before, after := e.update, e.before, e.after;
    && after.status == (if NewStatus(u).Some? then NewStatus(u).value else before.status)
    && after.version == (if u.Renew? then before.version else before.version + 1)
    && after.gatewayId == (if u.ClaimOn? then u.gateway else before.gatewayId)
    && after.updatedAt == e.at
    && after.startedAt == (if u.MarkRunning? then Some(u.startedAt) else before.startedAt)
    && after.expiresAt == (if u.MarkRunning? then Some(u.expiresAt) else before.expiresAt)
    && after.closedAt == (if Closes(u) then Some(e.at) else before.closedAt)
    && after.reason == (if GivesReason(u) then Some(u.reason) else if u.MarkRuntimeTerminated? then u.cause
                        else before.reason)
  }

  lemma UpdateSets(id: string, row: Row, u: Update, at: int)
    ensures RowAllows(row, u) <==> Open(row, u)
    ensures Sets(Entry(id, u, at, row, Changed(row, u, at)))
  {}

  // ---- every run ----

  // Every entry of the log is an update its row was open to, and its arguments
  // are what the row holds.
  lemma LogIsExplicit(steps: seq<Step>)
    ensures var log := Run(steps).log;
            forall i | 0 <= i < |log| :: Open(log[i].before, log[i].update) && Sets(log[i])
  {
    ProvisioningIsFenced(steps);
    var log := Run(steps).log;
    forall i | 0 <= i < |log| ensures Open(log[i].before, log[i].update) && Sets(log[i]) {
      var e := log[i];
      assert EntryOk(e);
      UpdateSets(e.id, e.before, e.update, e.at);
    }
  }

  ghost predicate StartedBy(e: Entry, id: string, row: Row) {
    && e.id == id && e.update.MarkRunning?
    && row.startedAt == Some(e.update.startedAt) && row.expiresAt == Some(e.update.expiresAt)
  }

  ghost predicate ClosedBy(e: Entry, id: string, row: Row) {
    e.id == id && Closes(e.update) && row.closedAt == Some(e.at) && row == e.after
  }

  ghost predicate PlacedBy(e: Entry, id: string, row: Row) {
    e.id == id && e.update.ClaimOn? && row.gatewayId == e.update.gateway
  }

  // A row that has started shows the times of the update that started it, one
  // that is closed is as the update that closed it left it, and the one claimed
  // on a gateway is on the gateway of its last claim.
  ghost predicate Tells(log: seq<Entry>, id: string, row: Row) {
    && (row.status.Provisioning? ==> row.startedAt.None?)
    && (row.startedAt.Some? ==> exists i | 0 <= i < |log| :: StartedBy(log[i], id, row))
    && (row.closedAt.Some? ==> exists i | 0 <= i < |log| :: ClosedBy(log[i], id, row))
    && (forall i | 0 <= i < |log| && log[i].id == id && log[i].update.MarkRunning? :: StartedBy(log[i], id, row))
    && (forall i | 0 <= i < |log| && log[i].id == id && Closes(log[i].update) :: ClosedBy(log[i], id, row))
    && (forall i | 0 <= i < |log| && log[i].id == id && log[i].update.ClaimOn? && NoLaterPlace(log, i) ::
          PlacedBy(log[i], id, row))
  }

  ghost predicate NoLaterPlace(log: seq<Entry>, i: nat)
    requires i < |log|
  {
    forall k | i < k < |log| && log[k].id == log[i].id :: !log[k].update.ClaimOn?
  }

  ghost predicate AllTell(s: State) {
    forall id | id in s.t.rows :: Tells(s.log, id, s.t.rows[id])
  }

  // An update leaves the rows of other sessions telling what they told.
  lemma OthersTell(log: seq<Entry>, e: Entry, id: string, row: Row)
    requires Tells(log, id, row) && e.id != id
    ensures Tells(log + [e], id, row)
  {
    var more := log + [e];
    assert forall i | 0 <= i < |log| :: more[i] == log[i];
    if row.startedAt.Some? {
      var i :| 0 <= i < |log| && StartedBy(log[i], id, row);
      assert StartedBy(more[i], id, row);
    }
    if row.closedAt.Some? {
      var i :| 0 <= i < |log| && ClosedBy(log[i], id, row);
      assert ClosedBy(more[i], id, row);
    }
    forall i | 0 <= i < |more| && more[i].id == id && more[i].update.ClaimOn? && NoLaterPlace(more, i)
      ensures PlacedBy(more[i], id, row)
    {
      PlaceWasLast(log, e, i);
    }
  }

  lemma PlaceWasLast(log: seq<Entry>, e: Entry, i: nat)
    requires i < |log| && NoLaterPlace(log + [e], i)
    ensures NoLaterPlace(log, i) && (e.id == log[i].id ==> !e.update.ClaimOn?)
  {
    var more := log + [e];
    assert more[i] == log[i] && more[|log|] == e;
    forall k | i < k < |log| && log[k].id == log[i].id ensures !log[k].update.ClaimOn? { assert more[k] == log[k]; }
  }

  // The updated row tells of the update, and of what it kept.
  lemma UpdatedTells(log: seq<Entry>, e: Entry)
    requires Tells(log, e.id, e.before) && RowOk(e.before) && Open(e.before, e.update) && Sets(e)
    ensures Tells(log + [e], e.id, e.after)
  {
    var more, id := log + [e], e.id;
    assert more[|log|] == e && forall i | 0 <= i < |log| :: more[i] == log[i];
    if e.update.MarkRunning? {
      assert StartedBy(more[|log|], id, e.after);
    } else if e.before.startedAt.Some? {
      var i :| 0 <= i < |log| && StartedBy(log[i], id, e.before);
      assert StartedBy(more[i], id, e.after);
    }
    if Closes(e.update) { assert ClosedBy(more[|log|], id, e.after); }
    assert forall i | 0 <= i < |log| && log[i].id == id && Closes(log[i].update) :: ClosedBy(log[i], id, e.before);
    forall i | 0 <= i < |log| && log[i].id == id && log[i].update.MarkRunning?
      ensures StartedBy(log[i], id, e.after)
    {
      assert StartedBy(log[i], id, e.before);
    }
    forall i | 0 <= i < |more| && more[i].id == id && more[i].update.ClaimOn? && NoLaterPlace(more, i)
      ensures PlacedBy(more[i], id, e.after)
    {
      if i < |log| { PlaceWasLast(log, e, i); }
    }
  }

  lemma WriteTells(s: State, id: string, u: Update, at: int)
    requires AllTell(s) && id in s.t.rows && RowOk(s.t.rows[id]) && RowAllows(s.t.rows[id], u)
    ensures AllTell(Write(s, id, u, at))
  {
    var s' := Write(s, id, u, at);
    var e := Entry(id, u, at, s.t.rows[id], s'.t.rows[id]);
    UpdateSets(id, s.t.rows[id], u, at);
    forall x | x in s'.t.rows ensures Tells(s'.log, x, s'.t.rows[x]) {
      if x == id { UpdatedTells(s.log, e); } else { OthersTell(s.log, e, x, s.t.rows[x]); }
    }
  }

  lemma StepTells(s: State, step: Step)
    requires AllTell(s) && FencingInv(s)
    ensures AllTell(Apply(s, step))
  {
    match step
    case Do(id, u, at) =>
      if !u.ClaimOn? && !RowLocked(s, id) && Allows(s.t, id, u) { WriteTells(s, id, u, at); }
    case Commit(tx) =>
      if tx in s.txs && s.txs[tx].pending.Some? {
        assert PendingOk(s, tx);
        var p := s.txs[tx].pending.value;
        WriteTells(s.(txs := s.txs - {tx}), p.id, p.update, p.at);
      }
    case Create(id, gateway, at, expiresAt) =>
      if id !in s.t.rows { assert forall i | 0 <= i < |s.log| :: s.log[i].id != id; }
    case _ =>
  }

  lemma {:induction false} RowsTellTheirHistory(steps: seq<Step>)
    ensures AllTell(Run(steps))
    decreases |steps|
  {
    if steps != [] {
      RowsTellTheirHistory(steps[..|steps| - 1]);
      ProvisioningIsFenced(steps[..|steps| - 1]);
      StepTells(Run(steps[..|steps| - 1]), steps[|steps| - 1]);
    }
  }
}
