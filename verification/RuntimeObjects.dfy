// The runtime's critical sections as methods on the object they change, and the
// controller's search for a listener port.
module RuntimeObjects {
  import opened Text
  import opened Runtime

  class DirectRuntime {
    var status: Status
    var auditFailed: bool
    var listening: bool
    var connections: map<nat, seq<nat>>
    var closed: set<nat>

    constructor ()
      ensures Valid() && View() == Init().core
    {
      status, auditFailed, listening, connections, closed := Running, false, true, map[], {};
    }

    ghost function View(): Core reads this {
      Core(status, auditFailed, listening, connections, closed)
    }

    // Away from `running` everything registered is closed.
    ghost predicate Valid() reads this {
      status.Running? || AllClosed(View())
    }

    // A connection is registered only where a later change of status closes it;
    // a caller that is refused has to close it itself.
    method AddConnection(w: nat, c: nat) returns (ok: bool)
      requires Valid()
      modifies this`connections
      ensures Valid() && (ok <==> old(status).Running?)
      ensures View() == AfterAdd(old(View()), w, c)
      ensures ok ==> Registered(connections) == old(Registered(connections)) + {c}
      ensures ok ==> c in Shut(View()).closed
    {
      if status != Running { return false; }
      if w in connections {
        connections := connections[w := connections[w] + [c]];
      } else {
        assert [] + [c] == [c];
        connections := connections[w := [c]];
      }
      RegisteredAppend(old(connections), w, c);
      ok := true;
    }

    // A worker's connections are forgotten, those of the others are not, and
    // nothing is left to close that was not before.
    method RemoveConnection(w: nat)
      requires Valid()
      modifies this`connections
      ensures Valid() && View() == old(View()).(connections := old(connections) - {w})
      ensures Registered(connections) == RegisteredBut(old(connections), {w}) <= old(Registered(connections))
    {
      RegisteredWithout(connections, w);
      connections := map k | k in connections && k != w :: connections[k];
      assert connections == old(connections) - {w};
    }

    // The listener, then every registered connection, worker by worker.
    method Close()
      modifies this`listening, this`closed
      ensures View() == Shut(old(View())) && AllClosed(View())
    {
      ShutClosesAll(View());
      listening := false;
      var left := connections.Keys;
      while left != {}
        invariant left <= connections.Keys && !listening
        invariant closed == old(closed) + RegisteredBut(connections, left)
        decreases left
      {
        var w :| w in left;
        RegisteredOneMore(connections, left, w);
        CloseWorker(connections[w]);
        left := left - {w};
      }
      assert RegisteredBut(connections, {}) == Registered(connections);
    }

    method CloseWorker(list: seq<nat>)
      modifies this`closed
      ensures closed == old(closed) + ElementsOf(list)
    {
      var i := 0;
      while i < |list|
        invariant i <= |list| && closed == old(closed) + ElementsOf(list[..i])
      {
        assert ElementsOf(list[..i + 1]) == ElementsOf(list[..i]) + {list[i]} by {
          assert list[..i + 1] == list[..i] + [list[i]];
        }
        closed := closed + {list[i]};
        i := i + 1;
      }
      assert list[..|list|] == list;
    }

    // The timer's critical section.
    method Expire()
      requires Valid()
      modifies this`status, this`listening, this`closed
      ensures Valid() && View() == AfterExpiry(old(View()))
      ensures status == (if old(status) == Running then Expired else old(status)) && !listening
      ensures closed == old(closed) + old(Registered(connections))
    {
      if status == Running { status := Expired; }
      Close();
    }

    // auditFailure's critical section; the first one goes on to call Stop.
    method FailAudit() returns (first: bool)
      requires Valid()
      modifies this`status, this`auditFailed, this`listening, this`closed
      ensures first <==> !old(auditFailed)
      ensures Valid() && View() == AfterAuditFailure(old(View()))
      ensures first ==> auditFailed && status == Stopping && !listening
      ensures first ==> closed == old(closed) + old(Registered(connections))
      ensures !first ==> status == old(status) && listening == old(listening) && closed == old(closed)
    {
      if auditFailed { return false; }
      auditFailed, status := true, Stopping;
      Close();
      first := true;
    }

    // Stop's first critical section.
    method BeginStop() returns (wasExpired: bool)
      requires Valid()
      modifies this`status, this`listening, this`closed
      ensures wasExpired <==> old(status).Expired?
      ensures Valid() && View() == AfterStop(old(View()))
      ensures status == (if wasExpired then Expired else Stopping) && !listening
      ensures closed == old(closed) + old(Registered(connections))
    {
      wasExpired := status == Expired;
      if !wasExpired { status := Stopping; }
      Close();
    }
  }

  lemma RegisteredAppend(connections: map<nat, seq<nat>>, w: nat, c: nat)
    ensures Registered(Append(connections, w, c)) == Registered(connections) + {c}
  {
    var more := Append(connections, w, c);
    forall x | x in Registered(connections) ensures x in Registered(more) {
      var v, i :| v in connections && 0 <= i < |connections[v]| && connections[v][i] == x;
      assert more[v][i] == x;
    }
    assert more[w][|more[w]| - 1] == c;
  }

  lemma RegisteredWithout(connections: map<nat, seq<nat>>, w: nat)
    ensures Registered(connections - {w}) == RegisteredBut(connections, {w}) <= Registered(connections)
  {
    var fewer := connections - {w};
    forall x | x in Registered(fewer) ensures x in RegisteredBut(connections, {w}) {
      var v, i :| v in fewer && 0 <= i < |fewer[v]| && fewer[v][i] == x;
      assert connections[v][i] == x;
    }
    forall x | x in RegisteredBut(connections, {w}) ensures x in Registered(fewer) && x in Registered(connections) {
      var v, i :| v in connections && v != w && 0 <= i < |connections[v]| && connections[v][i] == x;
      assert fewer[v][i] == x;
    }
  }

  function ElementsOf(list: seq<nat>): set<nat> {
    set i | 0 <= i < |list| :: list[i]
  }

  // The connections of every worker but those left.
  ghost function RegisteredBut(connections: map<nat, seq<nat>>, left: set<nat>): set<nat> {
    set w, i | w in connections && w !in left && 0 <= i < |connections[w]| :: connections[w][i]
  }

  lemma RegisteredOneMore(connections: map<nat, seq<nat>>, left: set<nat>, w: nat)
    requires w in connections && w in left
    ensures RegisteredBut(connections, left - {w}) == RegisteredBut(connections, left) + ElementsOf(connections[w])
  {
    var more, all := RegisteredBut(connections, left - {w}), RegisteredBut(connections, left)
      + ElementsOf(connections[w]);
    forall c | c in more ensures c in all {
      var v, i :| v in connections && v !in left - {w} && 0 <= i < |connections[v]| && connections[v][i] == c;
      if v != w { assert c in RegisteredBut(connections, left); }
    }
    forall c | c in all ensures c in more {
      if c in ElementsOf(connections[w]) {
        var i :| 0 <= i < |connections[w]| && connections[w][i] == c;
        assert connections[w][i] in more;
      }
    }
  }

  // ---- listener ports ----

  // The ports tried after n attempts from `first`, round the pool.
  predicate Tried(start: int, end: int, first: int, n: nat, port: int) {
    if first + n <= end then first <= port < first + n
    else first <= port <= end || start <= port < first + n - (end - start + 1)
  }

  class PortPool {
    const portStart: int
    const portEnd: int
    var nextPort: int

    constructor (portStart: int, portEnd: int)
      requires 1024 <= portStart <= portEnd <= 65535
      ensures Valid() && this.portStart == portStart && this.portEnd == portEnd && nextPort == portStart
    {
      this.portStart, this.portEnd, nextPort := portStart, portEnd, portStart;
    }

    ghost predicate Valid() reads this {
      portStart <= nextPort <= portEnd
    }

    // listenLocked without a desired port: the first port from the last one on
    // that can be bound; none only when no port of the pool can be, unless a
    // cancelled context ends the search after a failed attempt.
    method Listen(canBind: int -> bool) returns (port: Option<int>, cancelled: bool)
      requires Valid()
      modifies this`nextPort
      ensures Valid()
      ensures port.Some? ==> !cancelled && portStart <= port.value <= portEnd && canBind(port.value)
      ensures port.Some? ==> nextPort == if port.value == portEnd then portStart else port.value + 1
      ensures port.Some? ==> forall p | portStart <= p <= portEnd && canBind(p) ::
        Distance(old(nextPort), port.value) <= Distance(old(nextPort), p)
      ensures port.None? && !cancelled ==> forall p | portStart <= p <= portEnd :: !canBind(p)
    {
      var size := portEnd - portStart + 1;
      ghost var first := nextPort;
      var attempt := 0;
      cancelled := false;
      while attempt < size
        invariant attempt <= size && Valid()
        invariant nextPort == if first + attempt <= portEnd then first + attempt else first + attempt - size
        invariant forall p | portStart <= p <= portEnd && Tried(portStart, portEnd, first, attempt, p) :: !canBind(p)
      {
        var candidate := nextPort;
        nextPort := nextPort + 1;
        if nextPort > portEnd { nextPort := portStart; }
        if canBind(candidate) { return Some(candidate), false; }
        if * { return None, true; }
        attempt := attempt + 1;
      }
      port := None;
    }

    // How many ports the search passes on its way from one to another.
    function Distance(from: int, to: int): int {
      if from <= to then to - from else to - from + (portEnd - portStart + 1)
    }
  }
}
