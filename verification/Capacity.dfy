// How many sessions a gateway carries. Claims evaluate their guard under the
// gateway's capacity lock and take effect when their transaction commits.
module Capacity {
  import opened Text
  import opened Provisioning

  // ---- one update ----

  // The update puts a session on a gateway where it took no place before.
  predicate Enters(rows: map<string, Row>, id: string, u: Update, gateway: string)
    requires id in rows
  {
    && id !in Occupants(rows, gateway)
    && (|| (u.ClaimOn? && u.gateway == gateway)
        || ((u.Claim? || u.MarkProvisionRevokeFailed? || u.MarkRunning?) && rows[id].gatewayId == gateway))
  }

  lemma OccupantsAfter(rows: map<string, Row>, id: string, u: Update, at: int, gateway: string)
    requires id in rows && RowAllows(rows[id], u)
    ensures var after := Occupants(rows[id := Changed(rows[id], u, at)], gateway);
            && after - {id} == Occupants(rows, gateway) - {id}
            && (id in after && id !in Occupants(rows, gateway) <==> Enters(rows, id, u, gateway))
  {}

  // A gateway's count rises exactly when an update enters it: by a claim, or by
  // a completion of a session that was never claimed.
  lemma CountRisesOnlyByEntering(rows: map<string, Row>, id: string, u: Update, at: int, gateway: string)
    requires id in rows && RowAllows(rows[id], u)
    ensures var before, after := Occupants(rows, gateway), Occupants(rows[id := Changed(rows[id], u, at)], gateway);
            && (|after| > |before| <==> Enters(rows, id, u, gateway))
            && |after| <= |before| + 1
            && (Enters(rows, id, u, gateway) && !u.ClaimOn? ==> u.expected == 0)
  {
    var before, after := Occupants(rows, gateway), Occupants(rows[id := Changed(rows[id], u, at)], gateway);
    OccupantsAfter(rows, id, u, at, gateway);
    WithoutOne(before, id);
    WithoutOne(after, id);
  }

  // Right after a claim its gateway carries at most maxSessions.
  lemma ClaimStaysWithinMaximum(t: Tables, id: string, u: Update, at: int)
    requires u.ClaimOn? && Allows(t, id, u)
    ensures |Occupants(t.rows[id := Changed(t.rows[id], u, at)], u.gateway)| <= t.gateways[u.gateway].maxSessions
  {
    OccupantsAfter(t.rows, id, u, at, u.gateway);
    WithoutOne(Occupants(t.rows[id := Changed(t.rows[id], u, at)], u.gateway), id);
  }

  lemma WithoutOne(s: set<string>, x: string)
    ensures |s - {x}| == if x in s then |s| - 1 else |s|
  {
    if x in s { assert s == s - {x} + {x}; } else { assert s - {x} == s; }
  }

  // ---- every run ----

  predicate KeepsPlace(u: Update) {
    u.MarkRunning? || u.MarkProvisionRevokeFailed?
  }

  // Claims are evaluated under the lock of their gateway, sessions are claimed
  // in no other way, and a completion that keeps the session's place names a
  // version that some claim returned.
  ghost predicate Disciplined(s: State, step: Step) {
    match step
    case Do(_, u, _) => !u.Claim? && (KeepsPlace(u) ==> u.expected > 0)
    case EvaluateClaim(tx, _, u, _) => u.ClaimOn? ==> u.gateway in TxOf(s, tx).locks
    case _ => true
  }

  ghost predicate DisciplinedRun(steps: seq<Step>) {
    steps != [] ==> DisciplinedRun(steps[..|steps| - 1]) && Disciplined(Run(steps[..|steps| - 1]), steps[|steps| - 1])
  }

  ghost predicate LocksAreExclusive(s: State) {
    forall x, y | x in s.txs && y in s.txs && x != y :: s.txs[x].locks !! s.txs[y].locks
  }

  ghost predicate Bounded(s: State, gateway: string) {
    |Occupants(s.t.rows, gateway)| <= PeakOf(s, gateway)
  }

  // A pending claim holds its gateway's lock and still has its place.
  ghost predicate ClaimFits(s: State, tx: nat)
    requires tx in s.txs
  {
    s.txs[tx].pending.Some? && s.txs[tx].pending.value.update.ClaimOn? ==>
      var p := s.txs[tx].pending.value;
      p.update.gateway in s.txs[tx].locks
        && |Occupants(s.t.rows, p.update.gateway) - {p.id}| < PeakOf(s, p.update.gateway)
  }

  ghost predicate CapacityInv(s: State) {
    && LocksAreExclusive(s)
    && (forall g :: Bounded(s, g))
    && (forall g | g in s.t.gateways :: s.t.gateways[g].maxSessions <= PeakOf(s, g))
    && (forall tx | tx in s.txs :: ClaimFits(s, tx))
  }

  // No gateway but `except` gains a session.
  ghost predicate OnlyShrinks(rows: map<string, Row>, rows': map<string, Row>, except: Option<string>) {
    forall g | except != Some(g) :: Occupants(rows', g) <= Occupants(rows, g)
  }

  lemma WriteShrinks(rows: map<string, Row>, id: string, u: Update, at: int)
    requires id in rows && RowAllows(rows[id], u) && !u.Claim? && (KeepsPlace(u) ==> u.expected > 0)
    ensures OnlyShrinks(rows, rows[id := Changed(rows[id], u, at)], if u.ClaimOn? then Some(u.gateway) else None)
  {
    var rows' := rows[id := Changed(rows[id], u, at)];
    forall g | !(u.ClaimOn? && u.gateway == g) ensures Occupants(rows', g) <= Occupants(rows, g) {
      OccupantsAfter(rows, id, u, at, g);
      assert Occupants(rows', g) <= Occupants(rows', g) - {id} + {id};
    }
  }

  lemma ShrinkingKeepsBounds(s: State, s': State, except: Option<string>)
    requires CapacityInv(s) && OnlyShrinks(s.t.rows, s'.t.rows, except) && s'.peak == s.peak
    requires s'.txs.Keys <= s.txs.Keys && (forall x | x in s'.txs :: s'.txs[x] == s.txs[x])
    requires except.Some? ==> forall x | x in s'.txs :: except.value !in s'.txs[x].locks
    ensures forall g | except != Some(g) :: Bounded(s', g)
    ensures forall tx | tx in s'.txs :: ClaimFits(s', tx)
  {
    forall g | except != Some(g) ensures Bounded(s', g) {
      assert Bounded(s, g);
      SubsetIsSmaller(Occupants(s'.t.rows, g), Occupants(s.t.rows, g));
    }
    forall tx | tx in s'.txs ensures ClaimFits(s', tx) {
      assert ClaimFits(s, tx);
      if s'.txs[tx].pending.Some? && s'.txs[tx].pending.value.update.ClaimOn? {
        var p := s'.txs[tx].pending.value;
        SubsetIsSmaller(Occupants(s'.t.rows, p.update.gateway) - {p.id},
          Occupants(s.t.rows, p.update.gateway) - {p.id});
      }
    }
  }

  lemma DoKeepsCapacity(s: State, id: string, u: Update, at: int)
    requires CapacityInv(s) && id in s.t.rows && RowAllows(s.t.rows[id], u)
    requires !IsClaim(u) && (KeepsPlace(u) ==> u.expected > 0)
    ensures CapacityInv(Write(s, id, u, at))
  {
    WriteShrinks(s.t.rows, id, u, at);
    ShrinkingKeepsBounds(s, Write(s, id, u, at), None);
  }

  // The commit of a claim fills the place its evaluation found.
  lemma CommitKeepsCapacity(s: State, tx: nat)
    requires CapacityInv(s) && FencingInv(s) && tx in s.txs && s.txs[tx].pending.Some?
    ensures CapacityInv(Apply(s, Commit(tx)))
  {
    var p := s.txs[tx].pending.value;
    assert PendingOk(s, tx);
    CommittedClaimFits(s, tx, Write(s.(txs := s.txs - {tx}), p.id, p.update, p.at));
  }

  lemma CommittedClaimFits(s: State, tx: nat, s': State)
    requires CapacityInv(s) && tx in s.txs && s.txs[tx].pending.Some? && PendingOk(s, tx)
    requires var p := s.txs[tx].pending.value; s' == Write(s.(txs := s.txs - {tx}), p.id, p.update, p.at)
    ensures CapacityInv(s')
  {
    var p := s.txs[tx].pending.value;
    var g := p.update.gateway;
    assert ClaimFits(s, tx);
    WriteShrinks(s.t.rows, p.id, p.update, p.at);
    assert forall x | x in s'.txs :: g !in s'.txs[x].locks;
    ShrinkingKeepsBounds(s, s', Some(g));
    ClaimedGatewayFits(s, s', p);
  }

  lemma ClaimedGatewayFits(s: State, s': State, p: Pending)
    requires p.update.ClaimOn? && p.id in s.t.rows && RowAllows(s.t.rows[p.id], p.update) && s'.peak == s.peak
    requires s'.t.rows == s.t.rows[p.id := Changed(s.t.rows[p.id], p.update, p.at)]
    requires |Occupants(s.t.rows, p.update.gateway) - {p.id}| < PeakOf(s, p.update.gateway)
    ensures Bounded(s', p.update.gateway)
  {
    OccupantsAfter(s.t.rows, p.id, p.update, p.at, p.update.gateway);
    WithoutOne(Occupants(s'.t.rows, p.update.gateway), p.id);
  }

  lemma LockKeepsExclusion(s: State, tx: nat, gateway: string)
    requires LocksAreExclusive(s) && !CapacityLocked(s, gateway, tx)
    ensures LocksAreExclusive(s.(txs := s.txs[tx := TxOf(s, tx).(locks := TxOf(s, tx).locks + {gateway})]))
  {
    var s' := s.(txs := s.txs[tx := TxOf(s, tx).(locks := TxOf(s, tx).locks + {gateway})]);
    forall x | x in s.txs && x != tx ensures s'.txs[x].locks !! s'.txs[tx].locks {
      assert gateway !in s.txs[x].locks;
    }
  }

  lemma LockKeepsCapacity(s: State, tx: nat, gateway: string)
    requires CapacityInv(s) && !CapacityLocked(s, gateway, tx)
    ensures CapacityInv(s.(txs := s.txs[tx := TxOf(s, tx).(locks := TxOf(s, tx).locks + {gateway})]))
  {
    var s' := s.(txs := s.txs[tx := TxOf(s, tx).(locks := TxOf(s, tx).locks + {gateway})]);
    LockKeepsExclusion(s, tx, gateway);
    forall g ensures Bounded(s', g) { assert Bounded(s, g); }
    forall x | x in s'.txs ensures ClaimFits(s', x) {
      if x in s.txs { assert ClaimFits(s, x); }
    }
  }

  lemma EvaluateKeepsCapacity(s: State, tx: nat, p: Pending)
    requires CapacityInv(s) && p.update.ClaimOn? && p.update.gateway in TxOf(s, tx).locks && Allows(s.t, p.id, p.update)
    ensures CapacityInv(s.(txs := s.txs[tx := TxOf(s, tx).(pending := Some(p))]))
  {
    var s' := s.(txs := s.txs[tx := TxOf(s, tx).(pending := Some(p))]);
    forall g ensures Bounded(s', g) { assert Bounded(s, g); }
    forall x | x in s'.txs ensures ClaimFits(s', x) {
      if x != tx { assert ClaimFits(s, x); }
    }
  }

  lemma AbortKeepsCapacity(s: State, tx: nat)
    requires CapacityInv(s)
    ensures CapacityInv(Apply(s, Abort(tx)))
  {
    var s' := Apply(s, Abort(tx));
    forall g ensures Bounded(s', g) { assert Bounded(s, g); }
    forall x | x in s'.txs ensures ClaimFits(s', x) { assert ClaimFits(s, x); }
  }

  lemma CreateKeepsCapacity(s: State, id: string, row: Row)
    requires CapacityInv(s) && id !in s.t.rows && !Occupies(row)
    ensures CapacityInv(s.(t := s.t.(rows := s.t.rows[id := row])))
  {
    var s' := s.(t := s.t.(rows := s.t.rows[id := row]));
    forall g ensures Occupants(s'.t.rows, g) == Occupants(s.t.rows, g) {}
    forall g ensures Bounded(s', g) { assert Bounded(s, g); }
    forall x | x in s'.txs ensures ClaimFits(s', x) { assert ClaimFits(s, x); }
  }

  lemma SettingsKeepCapacity(s: State, s': State)
    requires CapacityInv(s) && s'.t.rows == s.t.rows && s'.txs == s.txs
    requires forall g :: PeakOf(s, g) <= PeakOf(s', g)
    requires forall g | g in s'.t.gateways :: s'.t.gateways[g].maxSessions <= PeakOf(s', g)
    ensures CapacityInv(s')
  {
    forall g ensures Bounded(s', g) { assert Bounded(s, g); }
    forall x | x in s'.txs ensures ClaimFits(s', x) { assert ClaimFits(s, x); }
  }

  lemma TableStepKeepsCapacity(s: State, step: Step)
    requires CapacityInv(s)
    requires step.SetGateway? || step.SetAsset? || step.SetBinding?
    ensures CapacityInv(Apply(s, step))
  {
    SettingsKeepCapacity(s, Apply(s, step));
  }

  // Over any disciplined run, a gateway never carries more sessions than the
  // largest maxSessions it has had.
  lemma {:induction false} GatewaysAreNeverOverfilled(steps: seq<Step>)
    requires DisciplinedRun(steps)
    ensures CapacityInv(Run(steps))
    ensures forall g :: |Occupants(Run(steps).t.rows, g)| <= PeakOf(Run(steps), g)
    decreases |steps|
  {
    if steps != [] {
      var s, step := Run(steps[..|steps| - 1]), steps[|steps| - 1];
      GatewaysAreNeverOverfilled(steps[..|steps| - 1]);
      ProvisioningIsFenced(steps[..|steps| - 1]);
      StepKeepsCapacity(s, step);
    } else {
      forall g ensures Bounded(Init(), g) { assert Occupants(map[], g) == {}; }
    }
    forall g ensures |Occupants(Run(steps).t.rows, g)| <= PeakOf(Run(steps), g) { assert Bounded(Run(steps), g); }
  }

  lemma StepKeepsCapacity(s: State, step: Step)
    requires CapacityInv(s) && FencingInv(s) && Disciplined(s, step)
    ensures CapacityInv(Apply(s, step))
  {
    match step
    case Do(id, u, at) =>
      if !u.ClaimOn? && !RowLocked(s, id) && Allows(s.t, id, u) { DoKeepsCapacity(s, id, u, at); }
    case Commit(tx) =>
      if tx in s.txs && s.txs[tx].pending.Some? {
        CommitKeepsCapacity(s, tx);
      } else {
        AbortKeepsCapacity(s, tx);
      }
    case Lock(tx, gateway) => if !CapacityLocked(s, gateway, tx) { LockKeepsCapacity(s, tx, gateway); }
    case EvaluateClaim(tx, id, u, at) =>
      if u.ClaimOn? && Allows(s.t, id, u) { EvaluateKeepsCapacity(s, tx, Pending(id, u, at)); }
    case Abort(tx) => AbortKeepsCapacity(s, tx);
    case Create(id, gateway, at, expiresAt) =>
      if id !in s.t.rows { CreateKeepsCapacity(s, id, Row(Provisioning, 0, gateway, at, None, expiresAt, None, None)); }
    case _ => TableStepKeepsCapacity(s, step);
  }

  // While no maxSessions is lowered, that is the current one.
  ghost predicate NeverLowered(steps: seq<Step>) {
    steps != [] ==>
      && NeverLowered(steps[..|steps| - 1])
      && var s, step := Run(steps[..|steps| - 1]), steps[|steps| - 1];
         step.SetGateway? && step.gateway in s.t.gateways ==>
           s.t.gateways[step.gateway].maxSessions <= step.settings.maxSessions
  }

  ghost predicate PeakIsMax(s: State) {
    s.peak.Keys == s.t.gateways.Keys && forall g | g in s.peak :: s.peak[g] == s.t.gateways[g].maxSessions
  }

  lemma OtherStepsLeaveGateways(s: State, step: Step)
    requires !step.SetGateway?
    ensures Apply(s, step).t.gateways == s.t.gateways && Apply(s, step).peak == s.peak
  {}

  lemma {:induction false} PeakIsTheMaximum(steps: seq<Step>)
    requires NeverLowered(steps)
    ensures PeakIsMax(Run(steps))
    decreases |steps|
  {
    if steps != [] {
      var s, step := Run(steps[..|steps| - 1]), steps[|steps| - 1];
      PeakIsTheMaximum(steps[..|steps| - 1]);
      if !step.SetGateway? { OtherStepsLeaveGateways(s, step); }
    }
  }

  lemma MaximumHoldsWhileNotLowered(steps: seq<Step>, gateway: string)
    requires DisciplinedRun(steps) && NeverLowered(steps) && gateway in Run(steps).t.gateways
    ensures |Occupants(Run(steps).t.rows, gateway)| <= Run(steps).t.gateways[gateway].maxSessions
  {
    GatewaysAreNeverOverfilled(steps);
    PeakIsTheMaximum(steps);
    assert PeakIsMax(Run(steps));
  }

  // ---- the lock is needed ----

  function After(s: State, a: Step, b: Step, c: Step, d: Step): State {
    Apply(Apply(Apply(Apply(s, a), b), c), d)
  }

  lemma ClaimsRace(s: State, a: string, b: string, x: Update, y: Update, at: int)
    requires s.txs == map[] && a != b && x.ClaimOn? && y.ClaimOn? && x.gateway == y.gateway
    requires Allows(s.t, a, x) && Allows(s.t, b, y) && x.expected == y.expected == 0
    requires |Occupants(s.t.rows, x.gateway)| + 1 == s.t.gateways[x.gateway].maxSessions
    ensures
      var s' := After(s, EvaluateClaim(0, a, x, at), EvaluateClaim(1, b, y, at), Commit(0), Commit(1));
      |Occupants(s'.t.rows, x.gateway)| > s.t.gateways[x.gateway].maxSessions && s'.peak == s.peak
  {
    FirstEvaluates(s, a, x, at);
    SecondEvaluates(s, a, x, b, y, at);
    var s3 := Write(s.(txs := map[1 := Tx({}, Some(Pending(b, y, at)))]), a, x, at);
    FirstCommits(s, a, x, b, y, at);
    SecondCommits(s3, b, y, at);
    CountRisesOnlyByEntering(s.t.rows, a, x, at, x.gateway);
    assert s3.t.rows[b] == s.t.rows[b];
    CountRisesOnlyByEntering(s3.t.rows, b, y, at, x.gateway);
  }

  lemma FirstEvaluates(s: State, a: string, x: Update, at: int)
    requires s.txs == map[] && x.ClaimOn? && Allows(s.t, a, x)
    ensures Apply(s, EvaluateClaim(0, a, x, at)) == s.(txs := map[0 := Tx({}, Some(Pending(a, x, at)))])
  {}

  lemma SecondEvaluates(s: State, a: string, x: Update, b: string, y: Update, at: int)
    requires a != b && y.ClaimOn? && Allows(s.t, b, y)
    ensures Apply(s.(txs := map[0 := Tx({}, Some(Pending(a, x, at)))]), EvaluateClaim(1, b, y, at))
         == s.(txs := map[0 := Tx({}, Some(Pending(a, x, at))), 1 := Tx({}, Some(Pending(b, y, at)))])
  {
    assert !RowLocked(s.(txs := map[0 := Tx({}, Some(Pending(a, x, at)))]), b);
  }

  lemma FirstCommits(s: State, a: string, x: Update, b: string, y: Update, at: int)
    requires a in s.t.rows
    ensures Apply(s.(txs := map[0 := Tx({}, Some(Pending(a, x, at))), 1 := Tx({}, Some(Pending(b, y, at)))]), Commit(0))
         == Write(s.(txs := map[1 := Tx({}, Some(Pending(b, y, at)))]), a, x, at)
  {
    var txs := map[0 := Tx({}, Some(Pending(a, x, at))), 1 := Tx({}, Some(Pending(b, y, at)))];
    assert txs - {0} == map[1 := Tx({}, Some(Pending(b, y, at)))];
  }

  lemma SecondCommits(s: State, b: string, y: Update, at: int)
    requires s.txs == map[1 := Tx({}, Some(Pending(b, y, at)))] && b in s.t.rows
    ensures Apply(s, Commit(1)) == Write(s.(txs := map[]), b, y, at)
  {
    assert s.txs - {1} == map[];
  }

  lemma RunOneMore(steps: seq<Step>, step: Step)
    ensures Run(steps + [step]) == Apply(Run(steps), step)
  {
    assert (steps + [step])[..|steps|] == steps;
  }

  // The steps that set up a gateway with one place and two sessions for it.
  function Setup(gateway: string, asset: string, a: string, b: string): seq<Step> {
    [SetGateway(gateway, Gateway("", true, None, 1)), SetAsset(asset, Asset("", true)),
     SetBinding(asset, gateway, Binding(true, 0)), Create(a, gateway, 0, None), Create(b, gateway, 0, None)]
  }

  function NewRow(gateway: string): Row {
    Row(Provisioning, 0, gateway, 0, None, None, None, None)
  }

  lemma SetupIsRun(gateway: string, asset: string, a: string, b: string)
    requires a != b
    ensures Run(Setup(gateway, asset, a, b)) ==
      State(Tables(map[a := NewRow(gateway), b := NewRow(gateway)], map[gateway := Gateway("", true, None, 1)],
                   map[asset := Asset("", true)], map[(asset, gateway) := Binding(true, 0)]),
            map[], [], map[gateway := 1])
  {
    var all := Setup(gateway, asset, a, b);
    assert all[..0] == [] && all[..5] == all;
    assert forall k | 0 <= k < 5 :: all[..k + 1] == all[..k] + [all[k]];
    RunOneMore(all[..0], all[0]);
    RunOneMore(all[..1], all[1]);
    RunOneMore(all[..2], all[2]);
    RunOneMore(all[..3], all[3]);
    RunOneMore(all[..4], all[4]);
  }

  // So a run from the empty tables fills a gateway beyond its one place, which
  // is the largest maximum it has had.
  lemma UnlockedRunOverfills(gateway: string, asset: string, a: string, b: string)
    requires a != b
    ensures exists steps :: |Occupants(Run(steps).t.rows, gateway)| > PeakOf(Run(steps), gateway) == 1
  {
    var steps, x, s := OnePlaceIsLeft(gateway, asset, a, b);
    var more := UnlockedClaimsOverfill(steps, s, a, b, x, x, 0);
  }

  lemma OnePlaceIsLeft(gateway: string, asset: string, a: string, b: string)
    returns (steps: seq<Step>, x: Update, s: State)
    requires a != b
    ensures s == Run(steps) && s.txs == map[] && x.ClaimOn? && x.gateway == gateway && x.expected == 0
    ensures Allows(s.t, a, x) && Allows(s.t, b, x)
    ensures |Occupants(s.t.rows, gateway)| == 0 && s.t.gateways[gateway].maxSessions == PeakOf(s, gateway) == 1
  {
    steps, x := Setup(gateway, asset, a, b), ClaimOn(0, 0, gateway, asset, None);
    SetupIsRun(gateway, asset, a, b);
    s := Run(steps);
    assert Occupants(s.t.rows, gateway) == {};
  }

  lemma FourMore(steps: seq<Step>, a: Step, b: Step, c: Step, d: Step) returns (more: seq<Step>)
    ensures more == steps + [a] + [b] + [c] + [d] && Run(more) == After(Run(steps), a, b, c, d)
  {
    more := steps + [a] + [b] + [c] + [d];
    RunOneMore(steps, a);
    RunOneMore(steps + [a], b);
    RunOneMore(steps + [a] + [b], c);
    RunOneMore(steps + [a] + [b] + [c], d);
  }

  // Two claims for the last place, evaluated without the lock before either
  // commits, both go through: any run that leaves one place can go on so.
  lemma UnlockedClaimsOverfill(steps: seq<Step>, s: State, a: string, b: string, x: Update, y: Update, at: int)
    returns (more: seq<Step>)
    requires s == Run(steps) && s.txs == map[] && a != b && x.ClaimOn? && y.ClaimOn? && x.gateway == y.gateway
    requires Allows(s.t, a, x) && Allows(s.t, b, y) && x.expected == y.expected == 0
    requires |Occupants(s.t.rows, x.gateway)| + 1 == s.t.gateways[x.gateway].maxSessions
    ensures steps <= more && Run(more).peak == s.peak
    ensures |Occupants(Run(more).t.rows, x.gateway)| > s.t.gateways[x.gateway].maxSessions
  {
    ClaimsRace(s, a, b, x, y, at);
    more := FourMore(steps, EvaluateClaim(0, a, x, at), EvaluateClaim(1, b, y, at), Commit(0), Commit(1));
  }
}
