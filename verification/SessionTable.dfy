// The repository's statements on the tables: each finds its row, checks the
// WHERE clause and changes the row in place, or reports that nothing matched.
module SessionTable {
  import opened Text
  import opened Provisioning
  import opened Capacity

  // A row of the routing query, before the gateway's own columns.
  datatype Offer = Offer(gateway: string, priority: int, load: nat, heartbeat: Option<int>)

  // ORDER BY priority, load, heartbeat DESC NULLS LAST, id.
  predicate Before(a: Offer, b: Offer) {
    if a.priority != b.priority then a.priority < b.priority
    else if a.load != b.load then a.load < b.load
    else if a.heartbeat != b.heartbeat then
      a.heartbeat.Some? && (b.heartbeat.None? || a.heartbeat.value > b.heartbeat.value)
    else Less(a.gateway, b.gateway)
  }

  ghost predicate InOrder(offers: seq<Offer>) {
    forall i, j | 0 <= i < j < |offers| :: Before(offers[i], offers[j])
  }

  lemma BeforeIsTransitive(a: Offer, b: Offer, c: Offer)
    requires Before(a, b) && Before(b, c)
    ensures Before(a, c)
  {
    if a.priority == b.priority == c.priority && a.load == b.load == c.load
      && a.heartbeat == b.heartbeat == c.heartbeat {
      LessIsTransitive(a.gateway, b.gateway, c.gateway);
    }
  }

  lemma BeforeIsTotal(a: Offer, b: Offer)
    requires a.gateway != b.gateway
    ensures Before(a, b) || Before(b, a)
  {
    LessIsTotal(a.gateway, b.gateway);
  }

  // The place of a new offer among ordered ones.
  method Place(offers: seq<Offer>, o: Offer) returns (k: nat)
    requires InOrder(offers) && forall i | 0 <= i < |offers| :: offers[i].gateway != o.gateway
    ensures k <= |offers| && InOrder(offers[..k] + [o] + offers[k..])
  {
    k := 0;
    while k < |offers| && Before(offers[k], o)
      invariant k <= |offers| && forall i | 0 <= i < k :: Before(offers[i], o)
    {
      k := k + 1;
    }
    forall j | k <= j < |offers| ensures Before(o, offers[j]) {
      BeforeIsTotal(offers[k], o);
      if j > k { BeforeIsTransitive(o, offers[k], offers[j]); }
    }
    var more := offers[..k] + [o] + offers[k..];
    forall i, j | 0 <= i < j < |more| ensures Before(more[i], more[j]) {
      if i < k < j { assert more[i] == offers[i] && more[j] == offers[j - 1]; }
    }
  }

  // The offer of one gateway, as the routing query computes it.
  ghost predicate Describes(t: Tables, asset: string, session: string, o: Offer) {
    && (asset, o.gateway) in t.bindings && o.gateway in t.gateways
    && o.priority == t.bindings[(asset, o.gateway)].priority
    && o.load == |Occupants(t.rows, o.gateway) - {session}|
    && o.heartbeat == t.gateways[o.gateway].heartbeat
  }

  ghost predicate Lists(offers: seq<Offer>, gateway: string) {
    exists i | 0 <= i < |offers| :: offers[i].gateway == gateway
  }

  lemma ListedOnce(t: Tables, asset: string, session: string, offers: seq<Offer>)
    requires InOrder(offers) && forall i | 0 <= i < |offers| :: Describes(t, asset, session, offers[i])
    ensures forall i, j | 0 <= i < j < |offers| :: offers[i].gateway != offers[j].gateway
  {
    forall i, j | 0 <= i < j < |offers| ensures offers[i].gateway != offers[j].gateway {
      assert Describes(t, asset, session, offers[i]) && Describes(t, asset, session, offers[j]);
      LessIsTotal(offers[i].gateway, offers[j].gateway);
    }
  }

  lemma OneLess(all: set<string>, left: set<string>, id: string)
    requires id in left
    ensures |all - (left - {id})| == |all - left| + if id in all then 1 else 0
  {
    if id in all {
      assert all - (left - {id}) == (all - left) + {id};
    } else {
      assert all - (left - {id}) == all - left;
    }
  }

  // The other sessions on a gateway that are not over and, if still being
  // provisioned, have been claimed.
  ghost function Others(rows: map<string, Row>, gateway: string, session: string): set<string> {
    set id | id in rows && id != session && rows[id].gatewayId == gateway
      && rows[id].status !in {Closed, Expired, Failed}
      && (rows[id].status == Status.Provisioning ==> rows[id].version > 0)
  }

  // A gateway that an asset's sessions may be routed to: bound to it, in its
  // region, everything enabled, heard from in time, and with a free place.
  ghost predicate Routable(t: Tables, asset: string, gateway: string, after: Option<int>, session: string) {
    && asset in t.assets && gateway in t.gateways && (asset, gateway) in t.bindings
    && t.assets[asset].enabled && t.gateways[gateway].enabled && t.bindings[(asset, gateway)].enabled
    && t.assets[asset].region == t.gateways[gateway].region
    && (after.Some? ==> t.gateways[gateway].heartbeat.Some? && after.value <= t.gateways[gateway].heartbeat.value)
    && t.gateways[gateway].maxSessions > |Others(t.rows, gateway, session)|
  }

  lemma OthersTakePlaces(rows: map<string, Row>, gateway: string, session: string)
    ensures Occupants(rows, gateway) - {session} == Others(rows, gateway, session)
  {}

  lemma RoomIsRoutable(t: Tables, asset: string, gateway: string, after: Option<int>, session: string)
    ensures HasRoom(t, asset, gateway, after, session) <==> Routable(t, asset, gateway, after, session)
  {
    OthersTakePlaces(t.rows, gateway, session);
  }

  // Still being provisioned, at the version a worker expects.
  predicate Awaits(row: Row, expected: nat) {
    row.status == Status.Provisioning && row.version == expected
  }

  // Never claimed, or with a lease that has not been renewed since.
  predicate Claimable(row: Row, expected: nat, staleBefore: int) {
    Awaits(row, expected) && (expected > 0 ==> row.updatedAt <= staleBefore)
  }

  // Lower priority numbers first, then the less loaded, then the one heard from
  // last, a gateway never heard from behind them, then by ID.
  ghost predicate Ranked(a: Offer, b: Offer) {
    && a.priority <= b.priority
    && (a.priority == b.priority ==> a.load <= b.load)
    && (a.priority == b.priority && a.load == b.load ==>
          && (a.heartbeat.None? ==> b.heartbeat.None?)
          && (b.heartbeat.Some? ==> a.heartbeat.Some? && a.heartbeat.value >= b.heartbeat.value)
          && (a.heartbeat == b.heartbeat ==> Less(a.gateway, b.gateway)))
  }

  class Repository {
    var t: Tables
    ghost var log: seq<Entry>    // every update that matched a row

    constructor ()
      ensures Valid() && t == Init().t && log == []
    {
      t, log := Init().t, [];
    }

    ghost function AsState(): State reads this {
      Init().(t := t, log := log)
    }

    // The log is a fenced history of the rows.
    ghost predicate Valid() reads this {
      FencingInv(AsState())
    }

    // COUNT(*) of the sessions that take up a place on the gateway.
    method CountActive(gateway: string, session: string) returns (n: nat)
      ensures n == |Occupants(t.rows, gateway) - {session}|
      ensures n == |Others(t.rows, gateway, session)|
    {
      n := 0;
      var rows, left := t.rows, t.rows.Keys;
      ghost var all := Occupants(rows, gateway) - {session};
      while left != {}
        invariant left <= rows.Keys && n == |all - left|
        decreases left
      {
        var id :| id in left;
        OneLess(all, left, id);
        left := left - {id};
        if rows[id].gatewayId == gateway && id != session && Occupies(rows[id]) { n := n + 1; }
      }
      assert all - {} == all;
      OthersTakePlaces(rows, gateway, session);
    }

    // One binding of the routing query: the offer it contributes, if any.
    method OfferOf(asset: string, gateway: string, session: string, after: Option<int>) returns (o: Option<Offer>)
      requires (asset, gateway) in t.bindings
      ensures o.Some? <==> HasRoom(t, asset, gateway, after, session)
      ensures o.Some? ==> o.value.gateway == gateway && Describes(t, asset, session, o.value)
    {
      o := None;
      var binding := t.bindings[(asset, gateway)];
      if asset !in t.assets || gateway !in t.gateways { return; }
      var a, g := t.assets[asset], t.gateways[gateway];
      if g.region != a.region { return; }
      var load := CountActive(gateway, session);
      if binding.enabled && a.enabled && g.enabled && Recent(g.heartbeat, after) && load < g.maxSessions {
        o := Some(Offer(gateway, binding.priority, load, g.heartbeat));
      }
    }

    // The bindings not in `left` have been considered.
    ghost predicate OffersBut(offers: seq<Offer>, asset: string, session: string, after: Option<int>,
      left: set<(string, string)>)
      reads this
    {
      && InOrder(offers)
      && (forall g :: Lists(offers, g) <==> HasRoom(t, asset, g, after, session) && (asset, g) !in left)
      && (forall i | 0 <= i < |offers| :: Describes(t, asset, session, offers[i]))
    }

    method Consider(offers: seq<Offer>, asset: string, gateway: string, session: string, after: Option<int>,
                    ghost left: set<(string, string)>) returns (more: seq<Offer>)
      requires (asset, gateway) in left && (asset, gateway) in t.bindings
        && OffersBut(offers, asset, session, after, left)
      ensures OffersBut(more, asset, session, after, left - {(asset, gateway)})
    {
      var o := OfferOf(asset, gateway, session, after);
      more := offers;
      if o.Some? {
        assert !Lists(offers, gateway);
        var k := Place(offers, o.value);
        InsertLists(offers, o.value, k);
        more := offers[..k] + [o.value] + offers[k..];
      }
    }

    // ListAvailableForAsset: every gateway the claim's guard accepts, once, in
    // the routing order.
    method ListAvailableForAsset(asset: string, session: string, after: Option<int>) returns (offers: seq<Offer>)
      ensures forall g :: Lists(offers, g) <==> Routable(t, asset, g, after, session)
      ensures forall i, j | 0 <= i < j < |offers| :: Ranked(offers[i], offers[j])
      ensures forall i | 0 <= i < |offers| :: Describes(t, asset, session, offers[i])
      ensures forall i, j | 0 <= i < j < |offers| :: offers[i].gateway != offers[j].gateway
    {
      offers := [];
      var left := t.bindings.Keys;
      while left != {}
        invariant left <= t.bindings.Keys && OffersBut(offers, asset, session, after, left)
        decreases left
      {
        var key :| key in left;
        if key.0 == asset { offers := Consider(offers, asset, key.1, session, after, left); }
        left := left - {key};
      }
      forall g ensures Lists(offers, g) <==> Routable(t, asset, g, after, session) {
        RoomIsRoutable(t, asset, g, after, session);
      }
      ListedOnce(t, asset, session, offers);
    }

    // UPDATE ... WHERE id = $1 AND ...: whether a row matched, the row and the
    // log afterwards.
    ghost predicate Performed(before: Tables, history: seq<Entry>, id: string, u: Update, at: int, ok: bool)
      reads this
    {
      && (ok <==> Allows(before, id, u)) && (!ok ==> t == before && log == history)
      && (ok ==> var row := before.rows[id];
                 && t == before.(rows := before.rows[id := Changed(row, u, at)])
                 && log == history + [Entry(id, u, at, row, Changed(row, u, at))])
    }

    method Create(id: string, gateway: string, expiresAt: Option<int>, now: int) returns (ok: bool)
      requires Valid()
      modifies this`t
      ensures Valid() && (ok <==> id !in old(t).rows)
      ensures id in t.rows && t.rows == old(t.rows)[id := t.rows[id]]
      ensures ok ==> t.rows[id] == Row(Status.Provisioning, 0, gateway, now, None, expiresAt, None, None)
      ensures ok ==> forall stale :: RowAllows(t.rows[id], Claim(0, stale))
    {
      if id in t.rows { return false; }
      TableStepKeepsFencing(AsState(), Provisioning.Create(id, gateway, now, expiresAt));
      t := t.(rows := t.rows[id := Row(Status.Provisioning, 0, gateway, now, None, expiresAt, None, None)]);
      ok := true;
    }

    method Store(id: string, row: Row, ghost u: Update, ghost at: int)
      requires Valid() && id in t.rows && RowAllows(t.rows[id], u) && row == Changed(t.rows[id], u, at)
      modifies this
      ensures Valid() && t == old(t).(rows := old(t.rows)[id := row])
      ensures log == old(log) + [Entry(id, u, at, old(t.rows)[id], row)]
    {
      WriteKeepsFencing(AsState(), id, u, at);
      log := log + [Entry(id, u, at, t.rows[id], row)];
      t := t.(rows := t.rows[id := row]);
    }

    // The claimant's version replaces the one it named, and its lease holds until
    // a claim whose stale boundary has reached this claim.
    method ClaimProvisioning(id: string, expected: nat, staleBefore: int, now: int) returns (ok: bool)
      requires Valid()
      modifies this
      ensures Valid() && Performed(old(t), old(log), id, Claim(expected, staleBefore), now, ok)
      ensures ok <==> id in old(t.rows) && Claimable(old(t.rows)[id], expected, staleBefore)
      ensures ok ==> var row := old(t.rows)[id];
              t.rows == old(t.rows)[id := row.(version := row.version + 1, updatedAt := now)]
      ensures ok ==> ShutsOut(t.rows[id], expected) && Leases(t.rows[id], expected + 1, now)
    {
      if id !in t.rows { return false; }
      var row := t.rows[id];
      ok := row.status == Status.Provisioning && row.version == expected
            && (row.version == 0 || row.updatedAt <= staleBefore);
      if ok {
        Store(id, row.(version := row.version + 1, updatedAt := now), Claim(expected, staleBefore), now);
      }
    }

    // The WHERE clause of a claim on a gateway.
    method MayClaimOn(id: string, expected: nat, staleBefore: int, gateway: string, asset: string,
                      heartbeatAfter: Option<int>) returns (ok: bool)
      ensures ok <==> Allows(t, id, ClaimOn(expected, staleBefore, gateway, asset, heartbeatAfter))
      ensures ok <==>
              && id in t.rows && Claimable(t.rows[id], expected, staleBefore)
              && Routable(t, asset, gateway, heartbeatAfter, id)
    {
      RoomIsRoutable(t, asset, gateway, heartbeatAfter, id);
      if id !in t.rows { return false; }
      var row := t.rows[id];
      if row.status != Status.Provisioning || row.version != expected { return false; }
      if row.version != 0 && row.updatedAt > staleBefore { return false; }
      if (asset, gateway) !in t.bindings { return false; }
      var offer := OfferOf(asset, gateway, id, heartbeatAfter);
      ok := offer.Some?;
    }

    // The row after a claim on a gateway: only its gateway, version and time have
    // changed, the claimant holds the lease, and the gateway is not over its
    // maximum.
    ghost predicate Assigned(before: Tables, id: string, expected: nat, gateway: string, now: int) reads this {
      && id in before.rows && gateway in before.gateways
      && var row := before.rows[id];
         && t.rows == before.rows[id := row.(gatewayId := gateway, version := row.version + 1, updatedAt := now)]
         && ShutsOut(t.rows[id], expected) && Leases(t.rows[id], expected + 1, now)
         && |Occupants(t.rows, gateway)| <= before.gateways[gateway].maxSessions
    }

    method ClaimProvisioningOnGateway(id: string, expected: nat, staleBefore: int, gateway: string, asset: string,
                                      heartbeatAfter: Option<int>, now: int) returns (ok: bool)
      requires Valid()
      modifies this
      ensures Valid()
      ensures ok <==>
              && id in old(t.rows) && Claimable(old(t.rows)[id], expected, staleBefore)
              && Routable(old(t), asset, gateway, heartbeatAfter, id)
      ensures ok ==> Assigned(old(t), id, expected, gateway, now)
      ensures Performed(old(t), old(log), id, ClaimOn(expected, staleBefore, gateway, asset, heartbeatAfter), now, ok)
    {
      ok := MayClaimOn(id, expected, staleBefore, gateway, asset, heartbeatAfter);
      if ok { AssignGateway(id, gateway, ClaimOn(expected, staleBefore, gateway, asset, heartbeatAfter), now); }
    }

    // The SET clause of a claim on a gateway.
    method AssignGateway(id: string, gateway: string, ghost u: Update, now: int)
      requires Valid() && u.ClaimOn? && u.gateway == gateway && Allows(t, id, u)
      modifies this
      ensures Valid() && Performed(old(t), old(log), id, u, now, true)
      ensures Assigned(old(t), id, u.expected, gateway, now)
    {
      var row := t.rows[id];
      ClaimStaysWithinMaximum(t, id, u, now);
      Store(id, row.(gatewayId := gateway, version := row.version + 1, updatedAt := now), u, now);
    }

    // The lease of a claimed session is extended, and its version still works.
    method RenewProvisioningLease(id: string, expected: nat, now: int) returns (ok: bool)
      requires Valid()
      modifies this
      ensures Valid() && Performed(old(t), old(log), id, Renew(expected), now, ok)
      ensures ok <==> id in old(t.rows) && Awaits(old(t.rows)[id], expected)
      ensures ok ==> var row := old(t.rows)[id];
              t.rows == old(t.rows)[id := row.(updatedAt := now)]
      ensures ok && expected > 0 ==> Leases(t.rows[id], expected, now)
    {
      if id !in t.rows { return false; }
      var row := t.rows[id];
      ok := row.status == Status.Provisioning && row.version == expected;
      if ok {
        Store(id, row.(updatedAt := now), Renew(expected), now);
      }
    }

    // MarkRunning and MarkDirectRunning: provisioning is over for every worker, and
    // the session can be revoked.
    method MarkRunning(id: string, expected: nat, startedAt: int, expiresAt: int, now: int) returns (ok: bool)
      requires Valid()
      modifies this
      ensures Valid() && Performed(old(t), old(log), id, Provisioning.MarkRunning(expected, startedAt, expiresAt), now,
        ok)
      ensures ok <==> id in old(t.rows) && Awaits(old(t.rows)[id], expected)
      ensures ok ==> var row := old(t.rows)[id];
              t.rows == old(t.rows)[id := row.(status := Running, startedAt := Some(startedAt),
                expiresAt := Some(expiresAt), version := row.version + 1, updatedAt := now)]
      ensures ok ==> Provisioned(t.rows[id]) && RowAllows(t.rows[id], Provisioning.BeginRevoke)
    {
      if id !in t.rows { return false; }
      var row := t.rows[id];
      ok := row.status == Status.Provisioning && row.version == expected;
      if ok {
        Store(id, row.(status := Running, startedAt := Some(startedAt), expiresAt := Some(expiresAt),
                       version := row.version + 1, updatedAt := now),
                         Provisioning.MarkRunning(expected, startedAt, expiresAt), now);
      }
    }

    method MarkProvisionFailed(id: string, expected: nat, reason: string, now: int) returns (ok: bool)
      requires Valid()
      modifies this
      ensures Valid() && Performed(old(t), old(log), id, Provisioning.MarkProvisionFailed(expected, reason), now, ok)
      ensures ok <==> id in old(t.rows) && Awaits(old(t.rows)[id], expected)
      ensures ok ==> var row := old(t.rows)[id];
              t.rows == old(t.rows)[id := row.(status := Failed, reason := Some(reason), closedAt := Some(now),
                version := row.version + 1, updatedAt := now)]
      ensures ok ==> Final(t.rows[id])
    {
      if id !in t.rows { return false; }
      var row := t.rows[id];
      ok := row.status == Status.Provisioning && row.version == expected;
      if ok {
        Store(id, row.(status := Failed, reason := Some(reason), closedAt := Some(now),
                       version := row.version + 1, updatedAt := now),
                         Provisioning.MarkProvisionFailed(expected, reason), now);
      }
    }

    method MarkProvisionRevokeFailed(id: string, expected: nat, reason: string, now: int) returns (ok: bool)
      requires Valid()
      modifies this
      ensures Valid() && Performed(old(t), old(log), id, Provisioning.MarkProvisionRevokeFailed(expected, reason), now,
        ok)
      ensures ok <==> id in old(t.rows) && Awaits(old(t.rows)[id], expected)
      ensures ok ==> var row := old(t.rows)[id];
              t.rows == old(t.rows)[id := row.(status := RevokeFailed, reason := Some(reason),
                version := row.version + 1, updatedAt := now)]
      ensures ok ==> Provisioned(t.rows[id]) && RowAllows(t.rows[id], Provisioning.BeginRevoke)
    {
      if id !in t.rows { return false; }
      var row := t.rows[id];
      ok := row.status == Status.Provisioning && row.version == expected;
      if ok {
        Store(id, row.(status := RevokeFailed, reason := Some(reason), version := row.version + 1, updatedAt := now),
          Provisioning.MarkProvisionRevokeFailed(expected, reason), now);
      }
    }

    method MarkRuntimeTerminated(id: string, status: Status, reason: Option<string>, now: int) returns (ok: bool)
      requires Valid()
      modifies this
      ensures Valid() && Performed(old(t), old(log), id, Provisioning.MarkRuntimeTerminated(status, reason), now, ok)
      ensures ok <==> id in old(t.rows) && old(t.rows)[id].status == Running && status in {Expired, Failed}
      ensures ok ==> var row := old(t.rows)[id];
              t.rows == old(t.rows)[id := row.(status := status, reason := reason, closedAt := Some(now),
                version := row.version + 1, updatedAt := now)]
      ensures ok ==> Final(t.rows[id])
    {
      if status != Expired && status != Failed { return false; }
      if id !in t.rows { return false; }
      var row := t.rows[id];
      ok := row.status == Running;
      if ok {
        Store(id, row.(status := status, closedAt := Some(now), reason := reason,
                       version := row.version + 1, updatedAt := now),
                         Provisioning.MarkRuntimeTerminated(status, reason), now);
      }
    }

    // One revocation at a time: it can be closed or fail, and not begin again.
    method BeginRevoke(id: string, now: int) returns (ok: bool)
      requires Valid()
      modifies this
      ensures Valid() && Performed(old(t), old(log), id, Provisioning.BeginRevoke, now, ok)
      ensures ok <==> id in old(t.rows) && old(t.rows)[id].status in {Running, RevokeFailed, ManualIntervention}
      ensures ok ==> var row := old(t.rows)[id];
              t.rows == old(t.rows)[id := row.(status := Revoking, version := row.version + 1, updatedAt := now)]
      ensures ok ==> Provisioned(t.rows[id]) && !RowAllows(t.rows[id], Provisioning.BeginRevoke)
      ensures ok ==> RowAllows(t.rows[id], Provisioning.MarkClosed(Closed))
    {
      if id !in t.rows { return false; }
      var row := t.rows[id];
      ok := row.status in {Running, RevokeFailed, ManualIntervention};
      if ok {
        Store(id, row.(status := Revoking, version := row.version + 1, updatedAt := now), Provisioning.BeginRevoke,
          now);
      }
    }

    method MarkClosed(id: string, status: Status, now: int) returns (ok: bool)
      requires Valid()
      modifies this
      ensures Valid() && Performed(old(t), old(log), id, Provisioning.MarkClosed(status), now, ok)
      ensures ok <==> id in old(t.rows) && old(t.rows)[id].status == Revoking && status in {Closed, Expired}
      ensures ok ==> var row := old(t.rows)[id];
              t.rows == old(t.rows)[id := row.(status := status, closedAt := Some(now),
                version := row.version + 1, updatedAt := now)]
      ensures ok ==> Final(t.rows[id])
    {
      if status != Closed && status != Expired { return false; }
      if id !in t.rows { return false; }
      var row := t.rows[id];
      ok := row.status == Revoking;
      if ok {
        Store(id, row.(status := status, closedAt := Some(now), version := row.version + 1, updatedAt := now),
          Provisioning.MarkClosed(status), now);
      }
    }

    // A failed revocation can begin again, and is closed only by doing so.
    method MarkRevokeFailed(id: string, reason: string, now: int) returns (ok: bool)
      requires Valid()
      modifies this
      ensures Valid() && Performed(old(t), old(log), id, Provisioning.MarkRevokeFailed(reason), now, ok)
      ensures ok <==> id in old(t.rows) && old(t.rows)[id].status == Revoking
      ensures ok ==> var row := old(t.rows)[id];
              t.rows == old(t.rows)[id := row.(status := RevokeFailed, reason := Some(reason),
                version := row.version + 1, updatedAt := now)]
      ensures ok ==> RowAllows(t.rows[id], Provisioning.BeginRevoke)
      ensures ok ==> forall status :: !RowAllows(t.rows[id], Provisioning.MarkClosed(status))
    {
      if id !in t.rows { return false; }
      var row := t.rows[id];
      ok := row.status == Revoking;
      if ok {
        Store(id, row.(status := RevokeFailed, reason := Some(reason), version := row.version + 1, updatedAt := now),
          Provisioning.MarkRevokeFailed(reason), now);
      }
    }

    method MarkManualIntervention(id: string, reason: string, now: int) returns (ok: bool)
      requires Valid()
      modifies this
      ensures Valid() && Performed(old(t), old(log), id, Provisioning.MarkManualIntervention(reason), now, ok)
      ensures ok <==> id in old(t.rows) && old(t.rows)[id].status in {Revoking, RevokeFailed}
      ensures ok ==> var row := old(t.rows)[id];
              t.rows == old(t.rows)[id := row.(status := ManualIntervention, reason := Some(reason),
                version := row.version + 1, updatedAt := now)]
      ensures ok ==> RowAllows(t.rows[id], Provisioning.BeginRevoke)
      ensures ok ==> forall u: Update | !u.BeginRevoke? :: !RowAllows(t.rows[id], u)
    {
      if id !in t.rows { return false; }
      var row := t.rows[id];
      ok := row.status in {Revoking, RevokeFailed};
      if ok {
        Store(id, row.(status := ManualIntervention, reason := Some(reason), version := row.version + 1,
          updatedAt := now), Provisioning.MarkManualIntervention(reason), now);
      }
    }
  }

  lemma InsertLists(offers: seq<Offer>, o: Offer, k: nat)
    requires k <= |offers|
    ensures var more := offers[..k] + [o] + offers[k..];
            forall g :: Lists(more, g) <==> Lists(offers, g) || g == o.gateway
  {
    var more := offers[..k] + [o] + offers[k..];
    forall g ensures Lists(more, g) <==> Lists(offers, g) || g == o.gateway {
      if Lists(offers, g) {
        var i :| 0 <= i < |offers| && offers[i].gateway == g;
        assert more[if i < k then i else i + 1] == offers[i];
      }
      assert more[k] == o;
      if Lists(more, g) {
        var i :| 0 <= i < |more| && more[i].gateway == g;
        if i != k { assert more[i] == offers[if i < k then i else i - 1]; }
      }
    }
  }
}
