// Which records a save keeps: every active one, and the newest unexpired
// tombstones up to the configured number.
module Persistence {
  import opened Text
  import opened Sessions

  type SessionMap = map<string, SessionRecord>

  predicate Keyed(m: SessionMap) {
    forall id | id in m :: m[id].sessionId == id
  }

  // A terminal record young enough to be kept.
  predicate IsTombstone(cfg: Config, r: SessionRecord, now: int) {
    IsTerminal(r.status) && r.closedAt.Some? && now - cfg.retention <= r.closedAt.value
  }

  // The order of the tombstone list: close time descending, then ID ascending.
  predicate Newer(a: SessionRecord, b: SessionRecord)
    requires a.closedAt.Some? && b.closedAt.Some?
  {
    a.closedAt.value > b.closedAt.value
    || (a.closedAt.value == b.closedAt.value && Less(a.sessionId, b.sessionId))
  }

  ghost function Tombstones(cfg: Config, m: SessionMap, now: int): set<string> {
    set id | id in m && IsTombstone(cfg, m[id], now)
  }

  ghost function NewerThan(cfg: Config, m: SessionMap, now: int, r: SessionRecord): set<string>
    requires r.closedAt.Some?
  {
    set id | id in m && IsTombstone(cfg, m[id], now) && Newer(m[id], r)
  }

  // The kept part of a session map, said without any list or iteration order:
  // a tombstone survives when fewer than maxTerminal tombstones are newer.
  ghost predicate Survives(cfg: Config, m: SessionMap, now: int, r: SessionRecord) {
    || !IsTerminal(r.status)
    || (IsTombstone(cfg, r, now) && |NewerThan(cfg, m, now, r)| < cfg.maxTerminal)
  }

  ghost function Retained(cfg: Config, m: SessionMap, now: int): SessionMap {
    map id | id in m && Survives(cfg, m, now, m[id]) :: m[id]
  }

  // s lists, without repetition, records of m whose IDs are in ids.
  ghost predicate ListsSome(s: seq<SessionRecord>, m: SessionMap, ids: set<string>) {
    && (forall i | 0 <= i < |s| :: s[i].sessionId in ids && s[i].sessionId in m && m[s[i].sessionId] == s[i])
    && (forall i, j | 0 <= i < j < |s| :: s[i].sessionId != s[j].sessionId)
  }

  // And all of them.
  ghost predicate Lists(s: seq<SessionRecord>, m: SessionMap, ids: set<string>) {
    ListsSome(s, m, ids) && forall id | id in ids :: id in m && m[id] in s
  }

  predicate AllClosed(s: seq<SessionRecord>) {
    forall i | 0 <= i < |s| :: s[i].closedAt.Some?
  }

  ghost predicate NewestFirst(s: seq<SessionRecord>)
    requires AllClosed(s)
  {
    forall i, j | 0 <= i < j < |s| :: Newer(s[i], s[j]) && s[i].sessionId != s[j].sessionId
  }

  ghost predicate TombstonesLast(s: seq<SessionRecord>) {
    forall i, j | 0 <= i < j < |s| && IsTerminal(s[i].status) ::
      IsTerminal(s[j].status) && s[i].closedAt.Some? && s[j].closedAt.Some? && Newer(s[i], s[j])
  }

  lemma NewerIsTotal(a: SessionRecord, b: SessionRecord)
    requires a.closedAt.Some? && b.closedAt.Some? && a.sessionId != b.sessionId
    ensures Newer(a, b) <==> !Newer(b, a)
  {
    LessIsTotal(a.sessionId, b.sessionId);
  }

  lemma NewerIsTransitive(a: SessionRecord, b: SessionRecord, c: SessionRecord)
    requires a.closedAt.Some? && b.closedAt.Some? && c.closedAt.Some?
    requires Newer(a, b) && Newer(b, c)
    ensures Newer(a, c)
  {
    if a.closedAt == b.closedAt == c.closedAt {
      LessIsTransitive(a.sessionId, b.sessionId, c.sessionId);
    }
  }

  // ---- sort.Slice, as insertion ----

  function Insert(s: seq<SessionRecord>, r: SessionRecord): (t: seq<SessionRecord>)
    requires AllClosed(s) && r.closedAt.Some?
    ensures AllClosed(t) && |t| == |s| + 1
    ensures forall x :: x in t <==> x in s || x == r
  {
    if s == [] then [r]
    else if Newer(r, s[0]) then [r] + s
    else
      var rest := Insert(s[1..], r);
      assert forall x :: x in s <==> x == s[0] || x in s[1..];
      [s[0]] + rest
  }

  function SortNewest(s: seq<SessionRecord>): (t: seq<SessionRecord>)
    requires AllClosed(s)
    ensures AllClosed(t)
  {
    if s == [] then [] else Insert(SortNewest(s[..|s| - 1]), s[|s| - 1])
  }

  lemma {:induction false} InsertKeepsOrder(s: seq<SessionRecord>, r: SessionRecord)
    requires AllClosed(s) && r.closedAt.Some? && NewestFirst(s)
    requires forall i | 0 <= i < |s| :: s[i].sessionId != r.sessionId
    ensures NewestFirst(Insert(s, r))
  {
    if s == [] {
    } else if Newer(r, s[0]) {
      forall i | 0 <= i < |s| ensures Newer(r, s[i]) {
        if i > 0 { NewerIsTransitive(r, s[0], s[i]); }
      }
    } else {
      var rest := Insert(s[1..], r);
      InsertKeepsOrder(s[1..], r);
      NewerIsTotal(r, s[0]);
      forall j | 0 <= j < |rest| ensures Newer(s[0], rest[j]) && s[0].sessionId != rest[j].sessionId {
        assert rest[j] in rest;
        if rest[j] != r {
          var k :| 0 <= k < |s[1..]| && s[1..][k] == rest[j];
          assert s[k + 1] == rest[j];
        }
      }
    }
  }

  lemma {:induction false} SortIsNewestFirst(s: seq<SessionRecord>, m: SessionMap, ids: set<string>)
    requires Keyed(m) && AllClosed(s) && Lists(s, m, ids)
    ensures NewestFirst(SortNewest(s)) && Lists(SortNewest(s), m, ids)
    decreases |s|
  {
    if s != [] {
      var last := s[|s| - 1];
      var front := s[..|s| - 1];
      assert s == front + [last];
      SortIsNewestFirst(front, m, ids - {last.sessionId});
      InsertKeepsOrder(SortNewest(front), last);
      var sorted := Insert(SortNewest(front), last);
      forall i | 0 <= i < |sorted|
        ensures sorted[i].sessionId in ids && sorted[i].sessionId in m && m[sorted[i].sessionId] == sorted[i]
      {
        assert sorted[i] in sorted;
      }
    }
  }

  ghost function IdsOf(s: seq<SessionRecord>): set<string> {
    set i | 0 <= i < |s| :: s[i].sessionId
  }

  lemma {:induction false} DistinctIds(s: seq<SessionRecord>)
    requires forall i, j | 0 <= i < j < |s| :: s[i].sessionId != s[j].sessionId
    ensures |IdsOf(s)| == |s|
  {
    if s == [] {
      assert IdsOf(s) == {};
    } else {
      var front, last := s[..|s| - 1], s[|s| - 1];
      DistinctIds(front);
      assert IdsOf(s) == IdsOf(front) + {last.sessionId} by {
        forall i | 0 <= i < |s| ensures s[i].sessionId in IdsOf(front) + {last.sessionId} {
          if i < |front| { assert front[i].sessionId == s[i].sessionId; }
        }
        forall i | 0 <= i < |front| ensures front[i].sessionId in IdsOf(s) {
          assert s[i].sessionId == front[i].sessionId;
        }
      }
    }
  }

  // The k-th tombstone of the sorted list has exactly k newer ones, so cutting
  // the list at maxTerminal keeps exactly the survivors.
  lemma RankIsPosition(cfg: Config, m: SessionMap, now: int, s: seq<SessionRecord>, k: nat)
    requires Keyed(m) && AllClosed(s) && NewestFirst(s) && k < |s|
    requires Lists(s, m, Tombstones(cfg, m, now))
    ensures |NewerThan(cfg, m, now, s[k])| == k
  {
    var newer := NewerThan(cfg, m, now, s[k]);
    var front := s[..k];
    var ids := IdsOf(front);
    DistinctIds(front);
    forall id | id in newer ensures id in ids {
      assert id in Tombstones(cfg, m, now);
      var j :| 0 <= j < |s| && s[j] == m[id];
      LessIsTotal(s[j].sessionId, s[k].sessionId);
      assert j < k;
      assert front[j].sessionId == id;
    }
    forall id | id in ids ensures id in newer {
      var i :| 0 <= i < |front| && front[i].sessionId == id;
      assert front[i] == s[i] && Newer(s[i], s[k]);
      assert s[i].sessionId in Tombstones(cfg, m, now);
    }
    assert newer == ids;
  }

  lemma CutKeepsSurvivors(cfg: Config, m: SessionMap, now: int, active: seq<SessionRecord>, tombs: seq<SessionRecord>)
    requires ConfigOk(cfg) && Keyed(m) && AllClosed(tombs) && NewestFirst(tombs)
    requires Lists(active, m, set id | id in m && !IsTerminal(m[id].status))
    requires Lists(tombs, m, Tombstones(cfg, m, now))
    ensures var kept := if |tombs| > cfg.maxTerminal then cfg.maxTerminal else |tombs|;
            Lists(active + tombs[..kept], m, Retained(cfg, m, now).Keys)
            && TombstonesLast(active + tombs[..kept])
    ensures forall k | 0 <= k < |tombs| :: tombs[k].sessionId in Retained(cfg, m, now) <==> k < cfg.maxTerminal
  {
    var kept := if |tombs| > cfg.maxTerminal then cfg.maxTerminal else |tombs|;
    var ids := Retained(cfg, m, now).Keys;
    TombstonesByRank(cfg, m, now, tombs);
    assert ListsSome(active, m, ids) && forall i | 0 <= i < |active| :: !IsTerminal(active[i].status) by {
      forall i | 0 <= i < |active| ensures active[i].sessionId in ids && !IsTerminal(active[i].status) {
        assert active[i].sessionId in set id | id in m && !IsTerminal(m[id].status);
      }
    }
    SurvivorsAreListed(cfg, m, now, active, tombs, kept);
    JoinedLists(m, ids, active, tombs[..kept]);
  }

  lemma SurvivorsAreListed(cfg: Config, m: SessionMap, now: int, active: seq<SessionRecord>,
                           tombs: seq<SessionRecord>, kept: nat)
    requires Keyed(m) && kept <= |tombs|
    requires Lists(active, m, set id | id in m && !IsTerminal(m[id].status))
    requires Lists(tombs, m, Tombstones(cfg, m, now))
    requires forall k | 0 <= k < |tombs| :: tombs[k].sessionId in Retained(cfg, m, now) <==> k < kept
    ensures forall id | id in Retained(cfg, m, now) :: m[id] in active || m[id] in tombs[..kept]
  {
    forall id | id in Retained(cfg, m, now) ensures m[id] in active || m[id] in tombs[..kept] {
      if IsTerminal(m[id].status) {
        assert id in Tombstones(cfg, m, now);
        var k :| 0 <= k < |tombs| && tombs[k] == m[id];
        assert tombs[..kept][k] == m[id];
      } else {
        assert id in set id | id in m && !IsTerminal(m[id].status);
      }
    }
  }

  lemma TombstonesByRank(cfg: Config, m: SessionMap, now: int, tombs: seq<SessionRecord>)
    requires ConfigOk(cfg) && Keyed(m) && AllClosed(tombs) && NewestFirst(tombs)
    requires Lists(tombs, m, Tombstones(cfg, m, now))
    ensures forall k | 0 <= k < |tombs| :: IsTerminal(tombs[k].status)
    ensures forall k | 0 <= k < |tombs| :: tombs[k].sessionId in Retained(cfg, m, now) <==> k < cfg.maxTerminal
  {
    forall k | 0 <= k < |tombs|
      ensures IsTerminal(tombs[k].status)
      ensures tombs[k].sessionId in Retained(cfg, m, now) <==> k < cfg.maxTerminal
    {
      assert tombs[k].sessionId in Tombstones(cfg, m, now);
      RankIsPosition(cfg, m, now, tombs, k);
    }
  }

  // A list of active records followed by one of tombstones.
  lemma JoinedLists(m: SessionMap, ids: set<string>, active: seq<SessionRecord>, tombs: seq<SessionRecord>)
    requires ListsSome(active, m, ids) && ListsSome(tombs, m, ids) && AllClosed(tombs) && NewestFirst(tombs)
    requires forall i | 0 <= i < |active| :: !IsTerminal(active[i].status)
    requires forall i | 0 <= i < |tombs| :: IsTerminal(tombs[i].status)
    requires forall id | id in ids :: id in m && (m[id] in active || m[id] in tombs)
    ensures Lists(active + tombs, m, ids) && TombstonesLast(active + tombs)
  {
    var all := active + tombs;
    forall i, j | 0 <= i < j < |all| ensures all[i].sessionId != all[j].sessionId {
      if i < |active| <= j {
        assert m[active[i].sessionId] != m[tombs[j - |active|].sessionId];
      }
    }
  }

  // What one pass over the records of `done` has sorted into its three lists.
  ghost predicate Classified(cfg: Config, m: SessionMap, now: int, done: set<string>,
                             records: seq<SessionRecord>, terminals: seq<SessionRecord>, removed: seq<string>)
    requires done <= m.Keys
  {
    && Lists(records, m, set id | id in done && !IsTerminal(m[id].status))
    && Lists(terminals, m, set id | id in done && IsTombstone(cfg, m[id], now))
    && AllClosed(terminals)
    && (forall id :: id in removed <==> id in done && IsTerminal(m[id].status) && !IsTombstone(cfg, m[id], now))
  }

  lemma ListsOneMore(s: seq<SessionRecord>, m: SessionMap, ids: set<string>, id: string)
    requires Keyed(m) && Lists(s, m, ids) && id in m && id !in ids
    ensures Lists(s + [m[id]], m, ids + {id})
  {
    var t := s + [m[id]];
    forall i | 0 <= i < |s| ensures t[i].sessionId != id { assert s[i].sessionId in ids; }
    forall x | x in ids + {id} ensures x in m && m[x] in t {
      if x in ids { assert m[x] in s; } else { assert t[|s|] == m[x]; }
    }
  }

  // The first half of recordsForPersistenceLocked: one pass over the map, in
  // whatever order its keys come.
  method Classify(cfg: Config, sessions: SessionMap, now: int)
    returns (records: seq<SessionRecord>, terminals: seq<SessionRecord>, removed: seq<string>)
    requires Keyed(sessions)
    ensures Classified(cfg, sessions, now, sessions.Keys, records, terminals, removed)
  {
    records, terminals, removed := [], [], [];
    var pending := sessions.Keys;
    while pending != {}
      invariant pending <= sessions.Keys
      invariant Classified(cfg, sessions, now, sessions.Keys - pending, records, terminals, removed)
      decreases pending
    {
      var id :| id in pending;
      var record := sessions[id];
      ghost var done := sessions.Keys - pending;
      ClassifyOne(cfg, sessions, now, done, id, records, terminals, removed);
      assert sessions.Keys - (pending - {id}) == done + {id};
      if !IsTerminal(record.status) {
        records := records + [record];
      } else if record.closedAt.None? || record.closedAt.value < now - cfg.retention {
        removed := removed + [record.sessionId];
      } else {
        terminals := terminals + [record];
      }
      pending := pending - {id};
    }
    assert sessions.Keys - pending == sessions.Keys;
  }

  // The first k records are those that are not over; behind them are at most
  // maxTerminal that are, closed within the retention, the last closed first.
  ghost predicate KeptInOrder(cfg: Config, now: int, records: seq<SessionRecord>, k: nat) {
    && k <= |records| <= k + cfg.maxTerminal
    && (forall i | 0 <= i < k :: records[i].status !in {Closed, Expired, Failed})
    && (forall i | k <= i < |records| ::
          records[i].status in {Closed, Expired, Failed} && records[i].closedAt.Some?
          && records[i].closedAt.value >= now - cfg.retention)
    && (forall i, j | k <= i < j < |records| :: records[i].closedAt.value >= records[j].closedAt.value)
  }

  // A record left out is over, and is too old or found the list full of records
  // closed no earlier.
  ghost predicate LeftOut(cfg: Config, now: int, records: seq<SessionRecord>, k: nat, r: SessionRecord)
    requires KeptInOrder(cfg, now, records, k)
  {
    && r.status in {Closed, Expired, Failed}
    && (|| r.closedAt.None? || r.closedAt.value < now - cfg.retention
        || (|records| == k + cfg.maxTerminal
            && forall i | k <= i < |records| :: records[i].closedAt.value >= r.closedAt.value))
  }

  // recordsForPersistenceLocked: classify, sort the tombstones, cut the list.
  method RecordsForPersistence(cfg: Config, sessions: SessionMap, now: int)
    returns (records: seq<SessionRecord>, removed: seq<string>)
    requires ConfigOk(cfg) && Keyed(sessions)
    // records and removed partition the map
    ensures Lists(records, sessions, Retained(cfg, sessions, now).Keys)
    ensures forall id :: id in removed <==> id in sessions && id !in Retained(cfg, sessions, now)
    // kept tombstones follow the active records, newest first
    ensures TombstonesLast(records)
    ensures exists k ::
      && KeptInOrder(cfg, now, records, k)
      && forall id | id in removed :: id in sessions && LeftOut(cfg, now, records, k, sessions[id])
  {
    var terminals, expired;
    records, terminals, expired := Classify(cfg, sessions, now);
    assert (set id | id in sessions.Keys && IsTombstone(cfg, sessions[id], now)) == Tombstones(cfg, sessions, now);
    assert (set id | id in sessions.Keys && !IsTerminal(sessions[id].status))
        == (set id | id in sessions && !IsTerminal(sessions[id].status));
    SortIsNewestFirst(terminals, sessions, Tombstones(cfg, sessions, now));
    terminals := SortNewest(terminals);
    CutKeepsSurvivors(cfg, sessions, now, records, terminals);
    removed := expired;
    var kept := |terminals|;
    if |terminals| > cfg.maxTerminal {
      kept := cfg.maxTerminal;
      removed := AppendIds(expired, terminals, kept);
    }
    RemovedIsTheRest(cfg, sessions, now, terminals, expired, removed);
    CutInOrder(cfg, sessions, now, records, terminals, kept);
    ghost var k := |records|;
    records := records + terminals[..kept];
    forall id | id in removed ensures LeftOut(cfg, now, records, k, sessions[id]) {
      RemovedIsLeftOut(cfg, sessions, now, records, k, terminals, kept, id);
    }
  }

  method AppendIds(removed: seq<string>, terminals: seq<SessionRecord>, from: nat) returns (all: seq<string>)
    requires from <= |terminals|
    ensures forall id :: id in all <==> id in removed || exists i | from <= i < |terminals| ::
      terminals[i].sessionId == id
  {
    all := removed;
    for k := from to |terminals|
      invariant forall id :: id in all <==> id in removed || exists i | from <= i < k :: terminals[i].sessionId == id
    {
      all := all + [terminals[k].sessionId];
    }
  }

  lemma CutInOrder(cfg: Config, m: SessionMap, now: int, active: seq<SessionRecord>, tombs: seq<SessionRecord>,
                   kept: nat)
    requires kept <= |tombs| && kept <= cfg.maxTerminal && AllClosed(tombs) && NewestFirst(tombs)
    requires Lists(active, m, set id | id in m && !IsTerminal(m[id].status))
    requires Lists(tombs, m, Tombstones(cfg, m, now))
    ensures KeptInOrder(cfg, now, active + tombs[..kept], |active|)
  {
    var all, k := active + tombs[..kept], |active|;
    forall i | 0 <= i < k ensures all[i].status !in {Closed, Expired, Failed} {
      assert active[i].sessionId in set id | id in m && !IsTerminal(m[id].status);
    }
    forall i | k <= i < |all| ensures IsTombstone(cfg, all[i], now) {
      assert tombs[i - k].sessionId in Tombstones(cfg, m, now);
    }
    forall i, j | k <= i < j < |all| ensures all[i].closedAt.value >= all[j].closedAt.value {
      assert Newer(tombs[i - k], tombs[j - k]);
    }
  }

  lemma RemovedIsLeftOut(cfg: Config, m: SessionMap, now: int, records: seq<SessionRecord>, k: nat,
                         tombs: seq<SessionRecord>, kept: nat, id: string)
    requires Keyed(m) && KeptInOrder(cfg, now, records, k) && kept <= |tombs| && records[k..] == tombs[..kept]
    requires Lists(tombs, m, Tombstones(cfg, m, now)) && AllClosed(tombs) && NewestFirst(tombs)
    requires kept == (if |tombs| > cfg.maxTerminal then cfg.maxTerminal else |tombs|)
    requires id in m && IsTerminal(m[id].status)
    requires forall j | 0 <= j < kept :: tombs[j].sessionId != id
    ensures LeftOut(cfg, now, records, k, m[id])
  {
    if IsTombstone(cfg, m[id], now) {
      assert id in Tombstones(cfg, m, now);
      var j :| 0 <= j < |tombs| && tombs[j] == m[id];
      forall i | k <= i < |records| ensures records[i].closedAt.value >= m[id].closedAt.value {
        assert records[k..][i - k] == tombs[i - k] && Newer(tombs[i - k], tombs[j]);
      }
    }
  }

  lemma ClassifyOne(cfg: Config, m: SessionMap, now: int, done: set<string>, id: string,
                    records: seq<SessionRecord>, terminals: seq<SessionRecord>, removed: seq<string>)
    requires Keyed(m) && done <= m.Keys && id in m && id !in done
    requires Classified(cfg, m, now, done, records, terminals, removed)
    ensures !IsTerminal(m[id].status) ==>
              Classified(cfg, m, now, done + {id}, records + [m[id]], terminals, removed)
    ensures IsTombstone(cfg, m[id], now) ==>
              Classified(cfg, m, now, done + {id}, records, terminals + [m[id]], removed)
    ensures IsTerminal(m[id].status) && !IsTombstone(cfg, m[id], now) ==>
              Classified(cfg, m, now, done + {id}, records, terminals, removed + [id])
  {
    var active := set x | x in done && !IsTerminal(m[x].status);
    var tombs := set x | x in done && IsTombstone(cfg, m[x], now);
    var active' := set x | x in done + {id} && !IsTerminal(m[x].status);
    var tombs' := set x | x in done + {id} && IsTombstone(cfg, m[x], now);
    assert active' == if IsTerminal(m[id].status) then active else active + {id};
    assert tombs' == if IsTombstone(cfg, m[id], now) then tombs + {id} else tombs;
    if !IsTerminal(m[id].status) {
      ListsOneMore(records, m, active, id);
    } else if IsTombstone(cfg, m[id], now) {
      ListsOneMore(terminals, m, tombs, id);
    }
  }

  lemma RemovedIsTheRest(cfg: Config, m: SessionMap, now: int, tombs: seq<SessionRecord>,
                         expired: seq<string>, removed: seq<string>)
    requires ConfigOk(cfg) && Keyed(m) && Lists(tombs, m, Tombstones(cfg, m, now))
    requires forall k | 0 <= k < |tombs| :: tombs[k].sessionId in Retained(cfg, m, now) <==> k < cfg.maxTerminal
    requires forall id :: id in expired <==> id in m && IsTerminal(m[id].status) && !IsTombstone(cfg, m[id], now)
    requires forall id :: id in removed <==>
               id in expired || exists i | cfg.maxTerminal <= i < |tombs| :: tombs[i].sessionId == id
    ensures forall id :: id in removed <==> id in m && id !in Retained(cfg, m, now)
  {
    forall id | id in m && id !in Retained(cfg, m, now) && id !in expired ensures id in removed {
      assert id in Tombstones(cfg, m, now);
      var k :| 0 <= k < |tombs| && tombs[k] == m[id];
      assert tombs[k].sessionId == id;
    }
  }
}
