// The realtime hub: bounded fan-out of changes to subscribers. A subscriber
// that falls behind is dropped and its channel closed, so that what it has
// received is never a stream with a gap.
module Realtime {
  import opened Text

  datatype Change = Change(schema: string, topic: string, userId: string, permission: string)

  const QUEUE: nat := 32

  predicate Known(topic: string) {
    topic in ["notifications", "requests", "sessions", "cloud", "settings", "catalog", "audit", "identity"]
  }

  predicate Wanted(change: Change, userId: string) {
    change.userId == "" || change.userId == userId
  }

  // The changes of a log that are meant for a user, in order.
  function Filtered(log: seq<Change>, userId: string): seq<Change>
    decreases |log|
  {
    if log == [] then []
    else Filtered(log[..|log| - 1], userId) + if Wanted(log[|log| - 1], userId) then [log[|log| - 1]] else []
  }

  lemma FilteredOneMore(log: seq<Change>, since: nat, change: Change, userId: string)
    requires since <= |log|
    ensures Filtered((log + [change])[since..], userId)
         == Filtered(log[since..], userId) + if Wanted(change, userId) then [change] else []
  {
    var more := (log + [change])[since..];
    assert more == log[since..] + [change] && more[..|more| - 1] == log[since..];
  }

  // Nothing meant for another user, and all that is meant for this one or for
  // everybody.
  lemma {:induction false} FilteredExactly(log: seq<Change>, userId: string, c: Change)
    ensures c in Filtered(log, userId) <==> c in log && (c.userId == "" || c.userId == userId)
    decreases |log|
  {
    if log != [] {
      FilteredExactly(log[..|log| - 1], userId, c);
      assert log == log[..|log| - 1] + [log[|log| - 1]];
    }
  }

  lemma SliceOfMore(log: seq<Change>, change: Change, since: nat, until: nat)
    requires since <= until <= |log|
    ensures (log + [change])[since..until] == log[since..until]
  {
    assert (log + [change])[..|log|] == log;
  }

  class Subscription {
    const userId: string
    var queue: seq<Change>             // the channel's buffer
    var closed: bool
    ghost var received: seq<Change>
    ghost const since: nat             // how much had been published at Subscribe
    ghost var until: nat               // and when it was unregistered

    constructor (userId: string, ghost since: nat)
      ensures this.userId == userId && this.since == since
      ensures queue == [] && received == [] && !closed
    {
      this.userId, this.since, until := userId, since, since;
      queue, received, closed := [], [], false;
    }

    // What it has received, and will receive from its queue, is every change
    // for its user published while it was registered.
    ghost predicate Tracks(log: seq<Change>) reads this {
      && |queue| <= QUEUE && since <= |log| && (closed ==> since <= until <= |log|)
      && received + queue == Filtered(log[since..if closed then until else |log|], userId)
    }

    // A send of a wanted change that finds room brings the subscriber up to date.
    // Sending on a closed channel would be a panic.
    method Send(change: Change, ghost log: seq<Change>)
      requires !closed && |queue| < QUEUE && Tracks(log) && Wanted(change, userId)
      modifies this`queue
      ensures Tracks(log + [change]) && queue == old(queue) + [change]
    {
      UpToDate(log, change);
      queue := queue + [change];
      assert (log + [change])[since..|log| + 1] == (log + [change])[since..];
    }

    // Closed, the subscriber's history ends, whatever is published later.
    // Closing a closed channel would be a panic.
    method Close(ghost log: seq<Change>)
      requires !closed && Tracks(log)
      modifies this`closed, this`until
      ensures closed && until == |log| && forall more | log <= more :: Tracks(more)
    {
      closed, until := true, |log|;
      forall more | log <= more ensures Tracks(more) {
        assert more[since..until] == log[since..until];
      }
    }

    // The subscriber takes the next change; a closed channel still yields what
    // it holds.
    method Receive() returns (change: Option<Change>)
      modifies this`queue, this`received
      ensures received + queue == old(received + queue)
      ensures old(queue) == [] ==> change.None? && queue == []
      ensures old(queue) != [] ==>
        change == Some(old(queue)[0]) && received == old(received) + [old(queue)[0]] && |queue| < |old(queue)|
    {
      if queue == [] { return None; }
      change := Some(queue[0]);
      assert received + queue == (received + [queue[0]]) + queue[1..];
      received := received + [queue[0]];
      queue := queue[1..];
    }

    // A closed channel is not affected by what is published later.
    lemma StaysTracked(log: seq<Change>, change: Change)
      requires closed && Tracks(log)
      ensures Tracks(log + [change])
    {
      SliceOfMore(log, change, since, until);
    }

    lemma UpToDate(log: seq<Change>, change: Change)
      requires !closed && Tracks(log)
      ensures !Wanted(change, userId) ==> Tracks(log + [change])
      ensures received + (queue + [change]) == (received + queue) + [change]
      ensures Wanted(change, userId) ==> received + (queue + [change]) == Filtered((log + [change])[since..], userId)
    {
      FilteredOneMore(log, since, change, userId);
      assert log[since..|log|] == log[since..];
      assert (log + [change])[since..|log| + 1] == (log + [change])[since..];
      assert Filtered(log[since..], userId) + [] == Filtered(log[since..], userId);
    }
  }

  class Hub {
    var available: bool
    var clients: set<Subscription>
    ghost var all: set<Subscription>    // every subscription ever made
    ghost var log: seq<Change>          // every change published on a known topic

    constructor ()
      ensures Valid() && available && clients == {} && log == []
    {
      available, clients, all, log := true, {}, {}, [];
    }

    // A channel is closed exactly when its subscriber is not registered.
    ghost predicate Valid() reads this, all {
      clients <= all && forall s | s in all :: s.Tracks(log) && (s.closed <==> s !in clients)
    }

    // What a subscriber has or will have received was published for it or for
    // everybody, and while it is registered it misses nothing of that.
    lemma SubscriberGetsItsOwn(s: Subscription)
      requires Valid() && s in all
      ensures forall c | c in s.received + s.queue :: c in log && (c.userId == "" || c.userId == s.userId)
      ensures !s.closed ==> s.since <= |log| && forall c | c in log[s.since..] ::
        c.userId == "" || c.userId == s.userId ==> c in s.received + s.queue
    {
      var seen := log[s.since..if s.closed then s.until else |log|];
      forall c ensures c in s.received + s.queue <==> c in seen && (c.userId == "" || c.userId == s.userId) {
        FilteredExactly(seen, s.userId, c);
      }
      assert !s.closed ==> seen == log[s.since..];
    }

    method Subscribe(userId: string) returns (s: Subscription?)
      requires Valid()
      modifies this`clients, this`all
      ensures Valid() && (s == null <==> !available)
      ensures s == null ==> clients == old(clients) && all == old(all)
      ensures s != null ==>
        fresh(s) && s.userId == userId && s.since == |log| && !s.closed && s.queue == [] && s.received == []
      ensures s != null ==> clients == old(clients) + {s} && all == old(all) + {s}
    {
      if !available { return null; }
      s := new Subscription(userId, |log|);
      assert log[|log|..|log|] == [];
      clients, all := clients + {s}, all + {s};
    }

    // The function Subscribe hands back; calling it again does nothing.
    method Unsubscribe(s: Subscription)
      requires Valid() && s in all
      modifies this`clients, s`closed, s`until
      ensures Valid() && clients == old(clients) - {s} && s.closed
    {
      if s in clients {
        clients := clients - {s};
        s.Close(log);
      }
    }

    // Publish to one registered subscriber.
    method Deliver(s: Subscription, change: Change, ghost before: seq<Change>)
      requires s in clients && !s.closed && s.Tracks(before)
      modifies this`clients, s`queue, s`closed, s`until
      ensures s.Tracks(before + [change]) && (s.closed <==> s !in clients)
      ensures clients == if Wanted(change, s.userId) && |old(s.queue)| == QUEUE then old(clients) - {s}
        else old(clients)
    {
      if change.userId != "" && change.userId != s.userId {
        s.UpToDate(before, change);
        return;
      }
      if |s.queue| < QUEUE {
        s.Send(change, before);
      } else {
        clients := clients - {s};
        s.Close(before);
      }
    }

    // Some subscribers have been served, those in `left` have not; `full` are
    // those with no room for a change they want.
    ghost predicate Serving(left: set<Subscription>, full: set<Subscription>, before: seq<Change>, change: Change)
      reads this, all
    {
      && left <= clients <= all
      && (forall s | s in left ::
            s.Tracks(before) && !s.closed && (s in full <==> Wanted(change, s.userId) && |s.queue| == QUEUE))
      && (forall s | s in all - left :: s.Tracks(before + [change]) && (s.closed <==> s !in clients))
    }

    method ServeOne(s: Subscription, change: Change, ghost left: set<Subscription>, ghost full: set<Subscription>,
                    ghost before: seq<Change>)
      requires s in left && Serving(left, full, before, change)
      modifies this`clients, s`queue, s`closed, s`until
      ensures Serving(left - {s}, full, before, change)
      ensures clients == if s in full then old(clients) - {s} else old(clients)
    {
      Deliver(s, change, before);
      assert forall o | o in all - left :: o != s;
    }

    method ServeAll(change: Change, ghost full: set<Subscription>, ghost before: seq<Change>)
      requires Serving(clients, full, before, change)
      modifies this`clients, all`queue, all`closed, all`until
      ensures Serving({}, full, before, change) && clients == old(clients) - full
    {
      var left := clients;
      while left != {}
        invariant Serving(left, full, before, change) && clients == old(clients) - (full - left)
        decreases left
      {
        var s :| s in left;
        ServeOne(s, change, left, full, before);
        assert full - (left - {s}) == (full - left) + ({s} * full);
        left := left - {s};
      }
    }

    // A subscriber loses its registration exactly when it has no room for a
    // change it wants.
    method Publish(change: Change)
      requires Valid()
      modifies this`clients, this`log, all`queue, all`closed, all`until
      ensures Valid() && clients <= old(clients)
      ensures log == if Known(change.topic) then old(log) + [change] else old(log)
      ensures forall s | s in old(clients) ::
        s !in clients <==> Known(change.topic) && Wanted(change, s.userId) && |old(s.queue)| == QUEUE
    {
      if !Known(change.topic) { return; }
      forall s | s in all - clients ensures s.Tracks(log + [change]) { s.StaysTracked(log, change); }
      ghost var full := set s | s in clients && Wanted(change, s.userId) && |s.queue| == QUEUE;
      ServeAll(change, full, log);
      log := log + [change];
    }

    method SetAvailable(value: bool)
      requires Valid()
      modifies this`available, this`clients, all`closed, all`until
      ensures Valid() && available == value
      ensures clients == if value then old(clients) else {}
    {
      available := value;
      if !value {
        while clients != {}
          invariant Valid() && available == value
          decreases clients
        {
          var s :| s in clients;
          Unsubscribe(s);
        }
      }
    }
  }
}
