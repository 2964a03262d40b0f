/**
 * The in-memory poll event bus: a set of bounded subscriber queues, a
 * `publish` that fans one event out to every queue with drop-oldest
 * overflow, and per-subscriber FIFO delivery.
 *
 * Every operation is atomic here: the asyncio lock around the subscriber set
 * is not modelled, so the snapshot `publish` takes is the subscriber set at
 * the moment of the call.
 */
module EventBus {

  /** A poll notification: a free-form event type ("poll_created", ...) and an opaque payload. */
  datatype PollEvent<P> = PollEvent(eventType: string, payload: P)

  /** The default `max_queue_size` of a bus. */
  const DefaultMaxQueueSize: nat := 100

  /** What one receive step on a subscription yields. */
  datatype Delivery<E> =
    | Delivered(event: E)   // the oldest pending event
    | Pending               // the queue is empty: `await queue.get()` would suspend
    | EndOfStream           // the subscription has been discarded

  // ---------------------------------------------------------------------------
  // One bounded queue, as values
  // ---------------------------------------------------------------------------

  /** The newest `n` elements of `s`, in their order (all of `s` when it is shorter). */
  function Newest<E>(s: seq<E>, n: nat): (r: seq<E>)
    ensures |r| == if |s| <= n then |s| else n
  {
    if |s| <= n then s else s[|s| - n..]
  }

  /**
   * The queue of one subscriber after `publish` offered it `e`: `put_nowait`
   * when there is room, otherwise `get_nowait` of the oldest entry and then
   * `put_nowait`. The result is the newest `capacity` events of `q + [e]`.
   */
  function Offer<E>(q: seq<E>, e: E, capacity: nat): (r: seq<E>)
    requires 0 < capacity && |q| <= capacity
    ensures r == Newest(q + [e], capacity)
    ensures 0 < |r| <= capacity && r[|r| - 1] == e
    ensures |q| < capacity ==> r == q + [e]
    ensures |q| == capacity ==> r == q[1..] + [e]
  {
    if |q| < capacity then q + [e] else q[1..] + [e]
  }

  /** The queue after the events `es` were published one after another. */
  function OfferAll<E>(q: seq<E>, es: seq<E>, capacity: nat): (r: seq<E>)
    requires 0 < capacity && |q| <= capacity
    ensures |r| <= capacity
    ensures es != [] ==> r != [] && r[|r| - 1] == es[|es| - 1]
    decreases |es|
  {
    if es == [] then q else OfferAll(Offer(q, es[0], capacity), es[1..], capacity)
  }

  lemma NewestOfNewest<E>(s: seq<E>, t: seq<E>, n: nat)
    ensures Newest(Newest(s, n) + t, n) == Newest(s + t, n)
  {
    var a := Newest(s, n);
    if |s| > n {
      // `a` is a suffix of `s` that already has `n` elements
      assert s + t == s[..|s| - n] + (a + t);
    }
  }

  /** Publishing a run of events leaves the newest `capacity` of them, in publish order. */
  lemma {:induction false} OfferAllKeepsNewest<E>(q: seq<E>, es: seq<E>, capacity: nat)
    requires 0 < capacity && |q| <= capacity
    ensures OfferAll(q, es, capacity) == Newest(q + es, capacity)
    decreases |es|
  {
    if es == [] {
      assert q + es == q;
    } else {
      var e, rest := es[0], es[1..];
      assert es == [e] + rest;
      assert q + [e] + rest == q + es;
      var q' := Offer(q, e, capacity);
      assert OfferAll(q, es, capacity) == OfferAll(q', rest, capacity);
      OfferAllKeepsNewest(q', rest, capacity);
      assert q' == Newest(q + [e], capacity);
      NewestOfNewest(q + [e], rest, capacity);
    }
  }

  // ---------------------------------------------------------------------------
  // FIFO delivery: a subscriber sees published events in publish order
  // ---------------------------------------------------------------------------

  /** `a` can be obtained from `b` by deleting elements. */
  predicate IsSubsequence<E(==)>(a: seq<E>, b: seq<E>)
    decreases |b|
  {
    a == [] || (b != [] && ((a[0] == b[0] && IsSubsequence(a[1..], b[1..])) || IsSubsequence(a, b[1..])))
  }

  lemma {:induction false} SubsequenceRefl<E>(a: seq<E>)
    ensures IsSubsequence(a, a)
    decreases |a|
  {
    if a != [] {
      SubsequenceRefl(a[1..]);
    }
  }

  lemma {:induction false} SubsequenceOfSuffix<E>(x: seq<E>, b: seq<E>)
    ensures IsSubsequence(x, b + x)
    decreases |b|
  {
    if b == [] {
      assert b + x == x;
      SubsequenceRefl(x);
    } else if x != [] {
      SubsequenceOfSuffix(x, b[1..]);
      assert (b + x)[1..] == b[1..] + x;
    }
  }

  lemma {:induction false} SubsequenceAppend<E>(a: seq<E>, b: seq<E>, x: seq<E>)
    requires IsSubsequence(a, b)
    ensures IsSubsequence(a + x, b + x)
    decreases |b|
  {
    if a == [] {
      assert a + x == x;
      SubsequenceOfSuffix(x, b);
    } else {
      assert (a + x)[0] == a[0] && (a + x)[1..] == a[1..] + x;
      assert (b + x)[0] == b[0] && (b + x)[1..] == b[1..] + x;
      if a[0] == b[0] && IsSubsequence(a[1..], b[1..]) {
        SubsequenceAppend(a[1..], b[1..], x);
      } else {
        SubsequenceAppend(a, b[1..], x);
      }
    }
  }

  lemma {:induction false} SubsequenceTrans<E>(a: seq<E>, b: seq<E>, c: seq<E>)
    requires IsSubsequence(a, b) && IsSubsequence(b, c)
    ensures IsSubsequence(a, c)
    decreases |c|
  {
    if a != [] {
      assert b != [] && c != [];
      if b[0] == c[0] && IsSubsequence(b[1..], c[1..]) {
        if a[0] == b[0] && IsSubsequence(a[1..], b[1..]) {
          SubsequenceTrans(a[1..], b[1..], c[1..]);
        } else {
          SubsequenceTrans(a, b[1..], c[1..]);
        }
      } else {
        SubsequenceTrans(a, b, c[1..]);
      }
    }
  }

  /** One step a subscription can see: an event published to it, or its consumer taking one. */
  datatype Action<E> = Publish(event: E) | Receive

  /** The events published by a run of actions, in order. */
  function PublishedBy<E>(actions: seq<Action<E>>): seq<E>
    decreases |actions|
  {
    if actions == [] then []
    else match actions[0]
      case Publish(e) => [e] + PublishedBy(actions[1..])
      case Receive => PublishedBy(actions[1..])
  }

  /** The outcome of replaying actions against one queue. */
  datatype Replayed<E> = Replayed(delivered: seq<E>, pending: seq<E>)

  /**
   * Replays `actions` against the queue `q`: a publish offers its event, a
   * receive hands out the oldest pending event (and waits, changing nothing,
   * when the queue is empty).
   */
  function Replay<E>(q: seq<E>, actions: seq<Action<E>>, capacity: nat): (r: Replayed<E>)
    requires 0 < capacity && |q| <= capacity
    ensures |r.pending| <= capacity
    decreases |actions|
  {
    if actions == [] then Replayed([], q)
    else match actions[0]
      case Publish(e) => Replay(Offer(q, e, capacity), actions[1..], capacity)
      case Receive =>
        if q == [] then Replay(q, actions[1..], capacity)
        else
          var rest := Replay(q[1..], actions[1..], capacity);
          Replayed([q[0]] + rest.delivered, rest.pending)
  }

  /** Dropping the oldest element of a queue deletes one element in front of the rest. */
  lemma DropOldestKeepsOrder<E>(q: seq<E>, tail: seq<E>)
    requires q != []
    ensures IsSubsequence(q[1..] + tail, q + tail)
  {
    var x := q[1..] + tail;
    assert q + tail == [q[0]] + x;
    SubsequenceRefl(x);
    assert ([q[0]] + x)[1..] == x;
  }

  /** Offering `e` deletes at most the oldest pending event, so order is kept. */
  lemma OfferKeepsOrder<E>(s: seq<E>, q: seq<E>, e: E, later: seq<E>, capacity: nat)
    requires 0 < capacity && |q| <= capacity
    requires IsSubsequence(s, Offer(q, e, capacity) + later)
    ensures IsSubsequence(s, q + ([e] + later))
  {
    var q' := Offer(q, e, capacity);
    if |q| < capacity {
      assert q' + later == q + ([e] + later);
    } else {
      assert q' + later == q[1..] + ([e] + later);
      DropOldestKeepsOrder(q, [e] + later);
      SubsequenceTrans(s, q' + later, q + ([e] + later));
    }
  }

  lemma SubsequenceCons<E>(h: E, a: seq<E>, b: seq<E>)
    requires IsSubsequence(a, b)
    ensures IsSubsequence([h] + a, [h] + b)
  {
    assert ([h] + a)[1..] == a && ([h] + b)[1..] == b;
  }

  /**
   * FIFO with drop-oldest: what a subscriber receives, followed by what is
   * still pending, is the initial queue followed by the published events with
   * some events (the evicted ones) deleted; nothing is reordered or invented.
   */
  lemma {:induction false} ReplayPreservesOrder<E>(q: seq<E>, actions: seq<Action<E>>, capacity: nat)
    requires 0 < capacity && |q| <= capacity
    ensures var r := Replay(q, actions, capacity);
      IsSubsequence(r.delivered + r.pending, q + PublishedBy(actions))
    decreases |actions|
  {
    var r := Replay(q, actions, capacity);
    if actions == [] {
      assert r.delivered + r.pending == q == q + PublishedBy(actions);
      SubsequenceRefl(q);
    } else if actions[0].Publish? {
      var e, rest := actions[0].event, actions[1..];
      assert IsSubsequence(r.delivered + r.pending, q + ([e] + PublishedBy(rest))) by {
        assert r == Replay(Offer(q, e, capacity), rest, capacity);
        ReplayPreservesOrder(Offer(q, e, capacity), rest, capacity);
        OfferKeepsOrder(r.delivered + r.pending, q, e, PublishedBy(rest), capacity);
      }
      assert PublishedBy(actions) == [e] + PublishedBy(rest);
    } else if q == [] {
      var rest := actions[1..];
      assert r == Replay(q, rest, capacity) && PublishedBy(actions) == PublishedBy(rest);
      ReplayPreservesOrder(q, rest, capacity);
    } else {
      var rest := actions[1..];
      var tail := Replay(q[1..], rest, capacity);
      assert IsSubsequence([q[0]] + (tail.delivered + tail.pending), [q[0]] + (q[1..] + PublishedBy(rest))) by {
        ReplayPreservesOrder(q[1..], rest, capacity);
        SubsequenceCons(q[0], tail.delivered + tail.pending, q[1..] + PublishedBy(rest));
      }
      assert r == Replayed([q[0]] + tail.delivered, tail.pending);
      assert r.delivered + r.pending == [q[0]] + (tail.delivered + tail.pending);
      assert PublishedBy(actions) == PublishedBy(rest);
      assert q + PublishedBy(actions) == [q[0]] + (q[1..] + PublishedBy(rest));
    }
  }

  // ---------------------------------------------------------------------------
  // The bus
  // ---------------------------------------------------------------------------

  class PollEventBus<P> {
    /** The live subscriptions, each named by the id of its queue. */
    var subscribers: set<nat>
    /** Each live subscription's pending events, oldest first. */
    var queues: map<nat, seq<PollEvent<P>>>
    /** The capacity of every queue `Subscribe` creates. */
    const maxQueueSize: nat
    /** Ids not handed out yet: a new queue is a new object. */
    var nextId: nat

    ghost predicate Valid()
      reads this
    {
      && 0 < maxQueueSize
      && queues.Keys == subscribers
      && (forall id :: id in subscribers ==> id < nextId)
      && (forall id :: id in queues ==> |queues[id]| <= maxQueueSize)
    }

    /** A new bus has no subscribers. */
    constructor (maxQueueSize: nat)
      requires 0 < maxQueueSize
      ensures Valid()
      ensures this.maxQueueSize == maxQueueSize
      ensures subscribers == {} && queues == map[]
    {
      this.maxQueueSize := maxQueueSize;
      subscribers := {};
      queues := map[];
      nextId := 0;
    }

    /** Registers one new, empty queue and returns its id. */
    method Subscribe() returns (id: nat)
      requires Valid()
      modifies this
      ensures Valid()
      ensures id == old(nextId) && nextId == old(nextId) + 1
      ensures id !in old(subscribers)
      ensures subscribers == old(subscribers) + {id}
      ensures queues == old(queues)[id := []]
    {
      id := nextId;
      nextId := nextId + 1;
      subscribers := subscribers + {id};
      queues := queues[id := []];
    }

    /**
     * The subscriber's exit: its queue is discarded together with whatever it
     * still holds. Discarding an absent subscription changes nothing.
     */
    method Unsubscribe(id: nat)
      requires Valid()
      modifies this
      ensures Valid() && nextId == old(nextId)
      ensures subscribers == old(subscribers) - {id}
      ensures queues == old(queues) - {id}
      ensures id !in old(subscribers) ==> subscribers == old(subscribers) && queues == old(queues)
    {
      subscribers := subscribers - {id};
      queues := queues - {id};
    }

    /**
     * Offers `e` to every queue of the snapshot of the subscriber set, dropping
     * a full queue's oldest event first. Nothing outside the snapshot changes.
     */
    method Publish(e: PollEvent<P>)
      requires Valid()
      modifies this
      ensures Valid() && nextId == old(nextId)
      ensures subscribers == old(subscribers)
      ensures queues.Keys == old(queues).Keys
      ensures forall id :: id in old(subscribers) ==> queues[id] == Offer(old(queues)[id], e, maxQueueSize)
      ensures forall id :: id in old(subscribers) ==> 0 < |queues[id]| <= maxQueueSize && queues[id][|queues[id]| - 1] == e
      ensures old(subscribers) == {} ==> queues == old(queues)
    {
      var snapshot := subscribers;
      var offered := queues;
      var remaining := snapshot;
      while remaining != {}
        invariant unchanged(this)
        invariant remaining <= snapshot
        invariant offered.Keys == queues.Keys
        invariant forall id :: id in snapshot - remaining ==> offered[id] == Offer(queues[id], e, maxQueueSize)
        invariant forall id :: id in remaining ==> offered[id] == queues[id]
        decreases remaining
      {
        var id :| id in remaining;
        var q := offered[id];
        if |q| < maxQueueSize {
          offered := offered[id := q + [e]];        // put_nowait
        } else {
          offered := offered[id := q[1..] + [e]];   // QueueFull: get_nowait, then put_nowait
        }
        remaining := remaining - {id};
      }
      assert snapshot - remaining == snapshot;
      queues := offered;
      if old(subscribers) == {} {
        assert queues.Keys == {};
      }
    }

    /** The consumer side: the oldest pending event, a wait, or the end of the stream. */
    method Receive(id: nat) returns (r: Delivery<PollEvent<P>>)
      requires Valid()
      modifies this
      ensures Valid() && nextId == old(nextId)
      ensures subscribers == old(subscribers)
      ensures id !in old(subscribers) ==> r == EndOfStream && queues == old(queues)
      ensures id in old(subscribers) && old(queues)[id] == [] ==> r == Pending && queues == old(queues)
      ensures id in old(subscribers) && old(queues)[id] != [] ==>
        r == Delivered(old(queues)[id][0]) && queues == old(queues)[id := old(queues)[id][1..]]
    {
      if id !in subscribers {
        return EndOfStream;
      }
      var q := queues[id];
      if q == [] {
        return Pending;
      }
      r := Delivered(q[0]);
      queues := queues[id := q[1..]];
    }
  }

  /** A subscriber that joins late sees only the events published after it joined. */
  method LateSubscriberScenario<P>(created: P, updated: P)
    returns (first: Delivery<PollEvent<P>>, early: Delivery<PollEvent<P>>, late: Delivery<PollEvent<P>>)
    ensures first == Delivered(PollEvent("poll_created", created))
    ensures early == late == Delivered(PollEvent("poll_updated", updated))
  {
    var bus := new PollEventBus<P>(DefaultMaxQueueSize);
    var s1 := bus.Subscribe();
    bus.Publish(PollEvent("poll_created", created));
    first := bus.Receive(s1);
    var s2 := bus.Subscribe();
    bus.Publish(PollEvent("poll_updated", updated));
    early := bus.Receive(s1);
    late := bus.Receive(s2);
  }

  /**
   * A subscriber that left sees the end of its stream while the others keep
   * receiving, and stays ended when someone else subscribes afterwards.
   */
  method LeftSubscriberScenario<P>(created: P, updated: P)
    returns (stayed: Delivery<PollEvent<P>>, left: Delivery<PollEvent<P>>, joinedAfter: Delivery<PollEvent<P>>)
    ensures stayed == Delivered(PollEvent("poll_created", created))
    ensures left == EndOfStream
    ensures joinedAfter == Delivered(PollEvent("poll_updated", updated))
  {
    var bus := new PollEventBus<P>(DefaultMaxQueueSize);
    var s1 := bus.Subscribe();
    var s2 := bus.Subscribe();
    bus.Unsubscribe(s1);
    bus.Publish(PollEvent("poll_created", created));
    stayed := bus.Receive(s2);
    var s3 := bus.Subscribe();
    bus.Publish(PollEvent("poll_updated", updated));
    left := bus.Receive(s1);
    joinedAfter := bus.Receive(s3);
  }

  /** With capacity 2, three undrained events leave the last two. */
  lemma OverflowScenario<E>(e1: E, e2: E, e3: E)
    ensures OfferAll([], [e1, e2, e3], 2) == [e2, e3]
  {
    OfferAllKeepsNewest([], [e1, e2, e3], 2);
  }
}
