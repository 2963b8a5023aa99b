// The control plane's session rows: every UPDATE ... WHERE is one conditional
// step on a row, claims run in transactions that may hold capacity locks, and
// the log remembers every update that changed a row.
module Provisioning {
  import opened Text

  datatype Status =
    | Provisioning | Running | Revoking | RevokeFailed | ManualIntervention
    | Closed | Expired | Failed

  datatype Row = Row(
    status: Status,
    version: nat,
    gatewayId: string,
    updatedAt: int,
    startedAt: Option<int>,
    expiresAt: Option<int>,
    closedAt: Option<int>,
    reason: Option<string>)

  datatype Gateway = Gateway(region: string, enabled: bool, heartbeat: Option<int>, maxSessions: nat)
  datatype Asset = Asset(region: string, enabled: bool)
  datatype Binding = Binding(enabled: bool, priority: int)

  datatype Tables = Tables(
    rows: map<string, Row>,
    gateways: map<string, Gateway>,
    assets: map<string, Asset>,
    bindings: map<(string, string), Binding>)    // by asset and gateway

  predicate Terminal(status: Status) {
    status.Closed? || status.Expired? || status.Failed?
  }

  // A session that takes up a place on its gateway.
  predicate Occupies(row: Row) {
    || row.status.Running? || row.status.Revoking? || row.status.RevokeFailed? || row.status.ManualIntervention?
    || (row.status.Provisioning? && row.version > 0)
  }

  function Occupants(rows: map<string, Row>, gateway: string): set<string> {
    set id | id in rows && rows[id].gatewayId == gateway && Occupies(rows[id])
  }

  // `heartbeat >= after`, where a missing heartbeat is never recent enough.
  predicate Recent(heartbeat: Option<int>, after: Option<int>) {
    after.None? || (heartbeat.Some? && heartbeat.value >= after.value)
  }

  // The join of binding, asset and gateway, and the free place on the gateway
  // when one session is not counted.
  predicate HasRoom(t: Tables, asset: string, gateway: string, after: Option<int>, session: string) {
    && (asset, gateway) in t.bindings && t.bindings[(asset, gateway)].enabled
    && asset in t.assets && t.assets[asset].enabled
    && gateway in t.gateways && t.gateways[gateway].region == t.assets[asset].region
    && t.gateways[gateway].enabled && Recent(t.gateways[gateway].heartbeat, after)
    && |Occupants(t.rows, gateway) - {session}| < t.gateways[gateway].maxSessions
  }

  // ---- the updates ----

  datatype Update =
    | Claim(expected: nat, staleBefore: int)
    | ClaimOn(expected: nat, staleBefore: int, gateway: string, asset: string, heartbeatAfter: Option<int>)
    | Renew(expected: nat)
    | MarkRunning(expected: nat, startedAt: int, expiresAt: int)
    | MarkProvisionFailed(expected: nat, reason: string)
    | MarkProvisionRevokeFailed(expected: nat, reason: string)
    | MarkRuntimeTerminated(status: Status, cause: Option<string>)
    | BeginRevoke
    | MarkClosed(status: Status)
    | MarkRevokeFailed(reason: string)
    | MarkManualIntervention(reason: string)

  predicate IsClaim(u: Update) {
    u.Claim? || u.ClaimOn?
  }

  predicate IsCompletion(u: Update) {
    u.MarkRunning? || u.MarkProvisionFailed? || u.MarkProvisionRevokeFailed?
  }

  // The updates of a provisioning worker name the version they expect.
  predicate NamesVersion(u: Update) {
    IsClaim(u) || u.Renew? || IsCompletion(u)
  }

  function Expected(u: Update): nat
    requires NamesVersion(u)
  {
    u.expected
  }

  // The part of the WHERE clause that reads the row itself.
  predicate RowAllows(row: Row, u: Update) {
    match u
    case Claim(expected, stale) =>
      row.status.Provisioning? && row.version == expected && (row.version == 0 || row.updatedAt <= stale)
    case ClaimOn(expected, stale, _, _, _) =>
      row.status.Provisioning? && row.version == expected && (row.version == 0 || row.updatedAt <= stale)
    case Renew(expected) => row.status.Provisioning? && row.version == expected
    case MarkRunning(expected, _, _) => row.status.Provisioning? && row.version == expected
    case MarkProvisionFailed(expected, _) => row.status.Provisioning? && row.version == expected
    case MarkProvisionRevokeFailed(expected, _) => row.status.Provisioning? && row.version == expected
    case MarkRuntimeTerminated(status, _) => (status.Expired? || status.Failed?) && row.status.Running?
    case BeginRevoke => row.status.Running? || row.status.RevokeFailed? || row.status.ManualIntervention?
    case MarkClosed(status) => (status.Closed? || status.Expired?) && row.status.Revoking?
    case MarkRevokeFailed(_) => row.status.Revoking?
    case MarkManualIntervention(_) => row.status.Revoking? || row.status.RevokeFailed?
  }

  predicate Allows(t: Tables, id: string, u: Update) {
    id in t.rows && RowAllows(t.rows[id], u) && (u.ClaimOn? ==> HasRoom(t, u.asset, u.gateway, u.heartbeatAfter, id))
  }

  // The SET clause; `at` is the transaction's NOW().
  function Changed(row: Row, u: Update, at: int): Row {
    var next := row.(version := row.version + 1, updatedAt := at);
    match u
    case Claim(_, _) => next
    case ClaimOn(_, _, gateway, _, _) => next.(gatewayId := gateway)
    case Renew(_) => row.(updatedAt := at)
    case MarkRunning(_, startedAt, expiresAt) =>
      next.(status := Running, startedAt := Some(startedAt), expiresAt := Some(expiresAt))
    case MarkProvisionFailed(_, reason) => next.(status := Failed, reason := Some(reason), closedAt := Some(at))
    case MarkProvisionRevokeFailed(_, reason) => next.(status := RevokeFailed, reason := Some(reason))
    case MarkRuntimeTerminated(status, cause) => next.(status := status, reason := cause, closedAt := Some(at))
    case BeginRevoke => next.(status := Revoking)
    case MarkClosed(status) => next.(status := status, closedAt := Some(at))
    case MarkRevokeFailed(reason) => next.(status := RevokeFailed, reason := Some(reason))
    case MarkManualIntervention(reason) => next.(status := ManualIntervention, reason := Some(reason))
  }

  // ---- what a row still allows ----

  // No update of a worker that names this version goes through.
  ghost predicate ShutsOut(row: Row, version: nat) {
    forall u | NamesVersion(u) && Expected(u) == version :: !RowAllows(row, u)
  }

  // The worker that holds this version may renew and complete, and no claim with
  // a stale boundary before `at` takes its lease.
  ghost predicate Leases(row: Row, version: nat, at: int) {
    && (forall u | NamesVersion(u) && !IsClaim(u) && Expected(u) == version :: RowAllows(row, u))
    && (forall u | IsClaim(u) && u.staleBefore < at :: !RowAllows(row, u))
  }

  // No worker's update goes through, whatever version it names.
  ghost predicate Provisioned(row: Row) {
    forall u | NamesVersion(u) :: !RowAllows(row, u)
  }

  // No update at all goes through.
  ghost predicate Final(row: Row) {
    forall u :: !RowAllows(row, u)
  }

  // ---- the machine ----

  datatype Entry = Entry(id: string, update: Update, at: int, before: Row, after: Row)

  // A claim whose UPDATE has been evaluated and not yet committed; it holds the
  // lock of its row.
  datatype Pending = Pending(id: string, update: Update, at: int)

  datatype Tx = Tx(locks: set<string>, pending: Option<Pending>)

  datatype State = State(
    t: Tables,
    txs: map<nat, Tx>,
    log: seq<Entry>,             // the updates that changed a row, in order
    peak: map<string, nat>)      // the largest maxSessions each gateway has had

  datatype Step =
    | Create(id: string, gateway: string, at: int, expiresAt: Option<int>)
    | Do(id: string, update: Update, at: int)
    | Lock(tx: nat, gateway: string)
    | EvaluateClaim(tx: nat, id: string, update: Update, at: int)
    | Commit(tx: nat)
    | Abort(tx: nat)
    | SetGateway(gateway: string, settings: Gateway)
    | SetAsset(asset: string, properties: Asset)
    | SetBinding(asset: string, gateway: string, binding: Binding)

  function Init(): State {
    State(Tables(map[], map[], map[], map[]), map[], [], map[])
  }

  predicate RowLocked(s: State, id: string) {
    exists tx | tx in s.txs :: s.txs[tx].pending.Some? && s.txs[tx].pending.value.id == id
  }

  predicate CapacityLocked(s: State, gateway: string, tx: nat) {
    exists other | other in s.txs && other != tx :: gateway in s.txs[other].locks
  }

  function Write(s: State, id: string, u: Update, at: int): State
    requires id in s.t.rows
  {
    var row := s.t.rows[id];
    s.(t := s.t.(rows := s.t.rows[id := Changed(row, u, at)]),
      log := s.log + [Entry(id, u, at, row, Changed(row, u, at))])
  }

  function TxOf(s: State, tx: nat): Tx {
    if tx in s.txs then s.txs[tx] else Tx({}, None)
  }

  function PeakOf(s: State, gateway: string): nat {
    if gateway in s.peak then s.peak[gateway] else 0
  }

  function Max(a: nat, b: nat): nat {
    if a < b then b else a
  }

  function Apply(s: State, step: Step): State {
    match step
    case Create(id, gateway, at, expiresAt) =>
      if id in s.t.rows then s
      else s.(t := s.t.(rows := s.t.rows[id := Row(Provisioning, 0, gateway, at, None, expiresAt, None, None)]))
    case Do(id, u, at) =>
      if !u.ClaimOn? && !RowLocked(s, id) && Allows(s.t, id, u) then Write(s, id, u, at) else s
    case Lock(tx, gateway) =>
      if CapacityLocked(s, gateway, tx) then s
      else s.(txs := s.txs[tx := TxOf(s, tx).(locks := TxOf(s, tx).locks + {gateway})])
    case EvaluateClaim(tx, id, u, at) =>
      if u.ClaimOn? && TxOf(s, tx).pending.None? && !RowLocked(s, id) && Allows(s.t, id, u)
      then s.(txs := s.txs[tx := TxOf(s, tx).(pending := Some(Pending(id, u, at)))]) else s
    case Commit(tx) =>
      if tx !in s.txs then s
      else if s.txs[tx].pending.None? || s.txs[tx].pending.value.id !in s.t.rows then s.(txs := s.txs - {tx})
      else var p := s.txs[tx].pending.value; Write(s.(txs := s.txs - {tx}), p.id, p.update, p.at)
    case Abort(tx) => s.(txs := s.txs - {tx})
    case SetGateway(gateway, value) =>
      s.(t := s.t.(gateways := s.t.gateways[gateway := value]),
         peak := s.peak[gateway := Max(PeakOf(s, gateway), value.maxSessions)])
    case SetAsset(asset, value) => s.(t := s.t.(assets := s.t.assets[asset := value]))
    case SetBinding(asset, gateway, value) => s.(t := s.t.(bindings := s.t.bindings[(asset, gateway) := value]))
  }

  function Run(steps: seq<Step>): State {
    if steps == [] then Init() else Apply(Run(steps[..|steps| - 1]), steps[|steps| - 1])
  }

  // ---- fencing ----

  function Rank(status: Status): nat {
    if status.Provisioning? then 0 else if Terminal(status) then 2 else 1
  }

  // Nothing a row goes through takes it back.
  ghost predicate NoYounger(row: Row, later: Row) {
    row.version <= later.version && Rank(row.status) <= Rank(later.status)
  }

  ghost predicate EntryOk(e: Entry) {
    RowAllows(e.before, e.update) && e.after == Changed(e.before, e.update, e.at)
  }

  ghost predicate RowOk(row: Row) {
    row.closedAt.Some? <==> Terminal(row.status)
  }

  ghost predicate LogOk(rows: map<string, Row>, log: seq<Entry>) {
    && (forall i | 0 <= i < |log| :: EntryOk(log[i]) && log[i].id in rows && NoYounger(log[i].after, rows[log[i].id]))
    && (forall i, j | 0 <= i < j < |log| && log[i].id == log[j].id :: NoYounger(log[i].after, log[j].before))
  }

  ghost predicate LastOf(log: seq<Entry>, i: nat, n: nat)
    requires i < |log| && n <= |log|
  {
    forall k | i < k < n :: log[k].id != log[i].id
  }

  // The log is the history of the rows: an update found the row as the one
  // before it left it.
  ghost predicate Chained(rows: map<string, Row>, log: seq<Entry>) {
    && (forall i | 0 <= i < |log| && LastOf(log, i, |log|) :: log[i].id in rows && rows[log[i].id] == log[i].after)
    && (forall i, j | 0 <= i < j < |log| && log[i].id == log[j].id && LastOf(log, i, j) ::
      log[j].before == log[i].after)
  }

  // The row a pending claim will change is still as it was evaluated.
  ghost predicate PendingOk(s: State, tx: nat)
    requires tx in s.txs
  {
    s.txs[tx].pending.Some? ==>
      var p := s.txs[tx].pending.value;
      p.update.ClaimOn? && p.id in s.t.rows && RowAllows(s.t.rows[p.id], p.update)
  }

  ghost predicate RowLocksAreExclusive(s: State) {
    forall x, y | x in s.txs && y in s.txs && s.txs[x].pending.Some? && s.txs[y].pending.Some? && x != y ::
      s.txs[x].pending.value.id != s.txs[y].pending.value.id
  }

  ghost predicate FencingInv(s: State) {
    && (forall id | id in s.t.rows :: RowOk(s.t.rows[id]))
    && LogOk(s.t.rows, s.log) && Chained(s.t.rows, s.log)
    && (forall tx | tx in s.txs :: PendingOk(s, tx))
    && RowLocksAreExclusive(s)
  }

  // Every update raises the version by one, a renewal keeps it; none takes a
  // row back, and closed_at is set with a terminal status.
  lemma UpdateAdvances(row: Row, u: Update, at: int)
    requires RowAllows(row, u)
    ensures var next := Changed(row, u, at);
            && NoYounger(row, next) && !Terminal(row.status)
            && next.version == (if u.Renew? then row.version else row.version + 1)
            && (IsCompletion(u) ==> Rank(next.status) > Rank(row.status))
            && (RowOk(row) ==> RowOk(next))
  {}

  lemma WriteKeepsLog(s: State, id: string, u: Update, at: int)
    requires LogOk(s.t.rows, s.log) && id in s.t.rows && RowAllows(s.t.rows[id], u)
    ensures var s' := Write(s, id, u, at); LogOk(s'.t.rows, s'.log)
  {
    var s' := Write(s, id, u, at);
    UpdateAdvances(s.t.rows[id], u, at);
    assert s'.log[|s.log|] == Entry(id, u, at, s.t.rows[id], s'.t.rows[id]);
    forall i | 0 <= i < |s'.log|
      ensures EntryOk(s'.log[i]) && s'.log[i].id in s'.t.rows && NoYounger(s'.log[i].after, s'.t.rows[s'.log[i].id])
    {
      if i < |s.log| { assert s'.log[i] == s.log[i] && EntryOk(s.log[i]); }
    }
    forall i, j | 0 <= i < j < |s'.log| && s'.log[i].id == s'.log[j].id
      ensures NoYounger(s'.log[i].after, s'.log[j].before) {
      assert s'.log[i] == s.log[i];
      if j < |s.log| { assert s'.log[j] == s.log[j]; }
    }
  }

  lemma WriteKeepsChain(s: State, id: string, u: Update, at: int)
    requires Chained(s.t.rows, s.log) && LogOk(s.t.rows, s.log) && id in s.t.rows
    ensures var s' := Write(s, id, u, at); Chained(s'.t.rows, s'.log)
  {
    var s', n := Write(s, id, u, at), |s.log|;
    assert s'.log[n].id == id && s'.log[n].before == s.t.rows[id] && s'.log[n].after == s'.t.rows[id];
    forall i | 0 <= i < n + 1 && LastOf(s'.log, i, n + 1)
      ensures s'.log[i].id in s'.t.rows && s'.t.rows[s'.log[i].id] == s'.log[i].after
    {
      if i < n {
        assert s'.log[i] == s.log[i];
        LastOfPrefix(s.log, s'.log, i, n);
      }
    }
    forall i, j | 0 <= i < j < n + 1 && s'.log[i].id == s'.log[j].id && LastOf(s'.log, i, j)
      ensures s'.log[j].before == s'.log[i].after {
      assert s'.log[i] == s.log[i];
      LastOfPrefix(s.log, s'.log, i, j);
      if j < n { assert s'.log[j] == s.log[j]; }
    }
  }

  lemma LastOfPrefix(log: seq<Entry>, more: seq<Entry>, i: nat, n: nat)
    requires log <= more && i < n <= |log| && LastOf(more, i, n)
    ensures LastOf(log, i, n)
  {
    forall k | i < k < n ensures log[k].id != log[i].id { assert more[k] == log[k] && more[i] == log[i]; }
  }

  lemma WriteKeepsFencing(s: State, id: string, u: Update, at: int)
    requires FencingInv(s) && id in s.t.rows && RowAllows(s.t.rows[id], u) && !RowLocked(s, id)
    ensures FencingInv(Write(s, id, u, at))
  {
    var s' := Write(s, id, u, at);
    UpdateAdvances(s.t.rows[id], u, at);
    WriteKeepsLog(s, id, u, at);
    WriteKeepsChain(s, id, u, at);
    forall tx | tx in s'.txs ensures PendingOk(s', tx) { assert PendingOk(s, tx); }
  }

  lemma CommitKeepsFencing(s: State, tx: nat)
    requires FencingInv(s) && tx in s.txs
    ensures FencingInv(Apply(s, Commit(tx)))
  {
    var s' := s.(txs := s.txs - {tx});
    forall x | x in s'.txs ensures PendingOk(s', x) { assert PendingOk(s, x); }
    if s.txs[tx].pending.Some? {
      var p := s.txs[tx].pending.value;
      assert PendingOk(s, tx) && !RowLocked(s', p.id);
      WriteKeepsFencing(s', p.id, p.update, p.at);
    }
  }

  lemma TxStepKeepsFencing(s: State, step: Step)
    requires FencingInv(s) && (step.Lock? || step.EvaluateClaim? || step.Abort?)
    ensures FencingInv(Apply(s, step))
  {
    var s' := Apply(s, step);
    forall x | x in s'.txs ensures PendingOk(s', x) {
      if x in s.txs { assert PendingOk(s, x); }
    }
  }

  lemma TableStepKeepsFencing(s: State, step: Step)
    requires FencingInv(s) && (step.Create? || step.SetGateway? || step.SetAsset? || step.SetBinding?)
    ensures FencingInv(Apply(s, step))
  {
    var s' := Apply(s, step);
    forall x | x in s'.txs ensures PendingOk(s', x) { assert PendingOk(s, x); }
  }

  // Over any run: what the log says of one session. The version rises with
  // every update but a renewal; one completion at most succeeds; an update that
  // names the version of a lease taken over since changes nothing; nothing
  // follows a terminal status, and closed_at is set exactly there.
  ghost predicate Fenced(s: State) {
    && (forall id | id in s.t.rows :: s.t.rows[id].closedAt.Some? <==> Terminal(s.t.rows[id].status))
    && (forall i | 0 <= i < |s.log| ::
          s.log[i].after.version == (if s.log[i].update.Renew? then s.log[i].before.version
            else s.log[i].before.version + 1))
    && (forall i, j | 0 <= i < j < |s.log| && s.log[i].id == s.log[j].id ::
          && s.log[i].after.version <= s.log[j].before.version
          && !(IsCompletion(s.log[i].update) && IsCompletion(s.log[j].update))
          && !Terminal(s.log[i].after.status)
          && (NamesVersion(s.log[j].update) ==> Expected(s.log[j].update) >= s.log[i].after.version))
  }

  // A worker holds the version its own claim returned. Once a later claim of
  // the session has gone through, no update with that version does.
  ghost predicate StaleWorkersAreShutOut(log: seq<Entry>) {
    forall i, j, k | 0 <= i < j < k < |log| && log[i].id == log[j].id == log[k].id && IsClaim(log[i].update)
      && IsClaim(log[j].update) ::
      NamesVersion(log[k].update) ==> Expected(log[k].update) != log[i].after.version
  }

  // A claim that succeeds finds the row unclaimed, or takes over a lease last
  // claimed or renewed no later than its `staleBefore`.
  ghost predicate LeasesAreKept(log: seq<Entry>) {
    forall i, j | 0 <= i < j < |log| && log[i].id == log[j].id && LastOf(log, i, j) && IsClaim(log[j].update) ::
      log[j].update.expected == 0 || log[i].at <= log[j].update.staleBefore
  }

  lemma LeasesAreKeptInv(s: State)
    requires FencingInv(s)
    ensures LeasesAreKept(s.log)
  {
    forall i, j | 0 <= i < j < |s.log| && s.log[i].id == s.log[j].id && LastOf(s.log, i, j) && IsClaim(s.log[j].update)
      ensures s.log[j].update.expected == 0 || s.log[i].at <= s.log[j].update.staleBefore
    {
      assert s.log[j].before == s.log[i].after && EntryOk(s.log[i]) && EntryOk(s.log[j]);
    }
  }

  lemma FencingInvIsFenced(s: State)
    requires FencingInv(s)
    ensures Fenced(s)
  {
    forall i | 0 <= i < |s.log|
      ensures s.log[i].after.version == (if s.log[i].update.Renew? then s.log[i].before.version
        else s.log[i].before.version + 1)
    {
      assert EntryOk(s.log[i]);
      UpdateAdvances(s.log[i].before, s.log[i].update, s.log[i].at);
    }
    forall i, j | 0 <= i < j < |s.log| && s.log[i].id == s.log[j].id
      ensures s.log[i].after.version <= s.log[j].before.version
      ensures !(IsCompletion(s.log[i].update) && IsCompletion(s.log[j].update))
      ensures !Terminal(s.log[i].after.status)
      ensures NamesVersion(s.log[j].update) ==> Expected(s.log[j].update) >= s.log[i].after.version
    {
      assert EntryOk(s.log[i]) && EntryOk(s.log[j]) && NoYounger(s.log[i].after, s.log[j].before);
      UpdateAdvances(s.log[i].before, s.log[i].update, s.log[i].at);
      UpdateAdvances(s.log[j].before, s.log[j].update, s.log[j].at);
    }
  }

  lemma FencedShutsOutStaleWorkers(s: State)
    requires Fenced(s)
    ensures StaleWorkersAreShutOut(s.log)
  {
    forall i, j, k | 0 <= i < j < k < |s.log| && s.log[i].id == s.log[j].id == s.log[k].id && IsClaim(s.log[i].update)
      && IsClaim(s.log[j].update)
      ensures NamesVersion(s.log[k].update) ==> Expected(s.log[k].update) != s.log[i].after.version
    {
      assert s.log[i].after.version <= s.log[j].before.version < s.log[j].after.version;
    }
  }

  lemma {:induction false} ProvisioningIsFenced(steps: seq<Step>)
    ensures FencingInv(Run(steps)) && Fenced(Run(steps)) && StaleWorkersAreShutOut(Run(steps).log)
    ensures LeasesAreKept(Run(steps).log)
    decreases |steps|
  {
    if steps != [] {
      var s, step := Run(steps[..|steps| - 1]), steps[|steps| - 1];
      ProvisioningIsFenced(steps[..|steps| - 1]);
      match step
      case Do(id, u, at) =>
        if !u.ClaimOn? && !RowLocked(s, id) && Allows(s.t, id, u) { WriteKeepsFencing(s, id, u, at); }
      case Commit(tx) => if tx in s.txs { CommitKeepsFencing(s, tx); }
      case Lock(_, _) => TxStepKeepsFencing(s, step);
      case EvaluateClaim(_, _, _, _) => TxStepKeepsFencing(s, step);
      case Abort(_) => TxStepKeepsFencing(s, step);
      case _ => TableStepKeepsFencing(s, step);
    }
    FencingInvIsFenced(Run(steps));
    FencedShutsOutStaleWorkers(Run(steps));
    LeasesAreKeptInv(Run(steps));
  }
}
