/** The bounded event bus of src/Core/EventBus/EventBus.cpp: subscribers, a first-in first-out
    queue, dispatch and the loss counters. */
module EventBus {
  import opened Wrappers
  import opened Bytes

  const QUEUE_LENGTH := 40
  const MAX_PAYLOAD_SIZE := 48
  const DATA_CHANGED: U16 := 50

  datatype Event = Event(id: U16, producer: Byte, data: seq<Byte>)

  datatype Subscriber = Subscriber(id: U16, callback: nat, user: nat)

  /** One call of a subscriber's callback. */
  datatype Delivery = Delivery(subscriber: nat, event: Event)

  /** The calls one event makes, in subscription order, from place `i` on. */
  function Fan(subs: seq<Subscriber>, e: Event, i: nat): seq<Delivery>
    requires i <= |subs|
    decreases |subs| - i
  {
    if i == |subs| then []
    else (if subs[i].id == e.id then [Delivery(i, e)] else []) + Fan(subs, e, i + 1)
  }

  /** The calls a sequence of events makes. */
  function Deliveries(subs: seq<Subscriber>, events: seq<Event>): seq<Delivery> {
    if events == [] then [] else Deliveries(subs, events[..|events| - 1]) + Fan(subs, events[|events| - 1], 0)
  }

  /** Calls with event `e`, to exactly the matching subscribers from place `i` on, each once. */
  ghost predicate ExactlyMatching(subs: seq<Subscriber>, e: Event, i: nat, calls: seq<Delivery>)
    requires i <= |subs|
  {
    && (forall k | 0 <= k < |calls| ::
          calls[k].event == e && i <= calls[k].subscriber < |subs| && subs[calls[k].subscriber].id == e.id)
    && (forall k, l | 0 <= k < l < |calls| :: calls[k].subscriber < calls[l].subscriber)
    && (forall s | i <= s < |subs| && subs[s].id == e.id :: Delivery(s, e) in calls)
  }

  lemma MatchingGrows(subs: seq<Subscriber>, e: Event, i: nat, tail: seq<Delivery>)
    requires i < |subs| && ExactlyMatching(subs, e, i + 1, tail)
    ensures subs[i].id == e.id ==> ExactlyMatching(subs, e, i, [Delivery(i, e)] + tail)
    ensures subs[i].id != e.id ==> ExactlyMatching(subs, e, i, tail)
  {
    if subs[i].id == e.id {
      forall s | i <= s < |subs| && subs[s].id == e.id
        ensures Delivery(s, e) in [Delivery(i, e)] + tail
      {
        assert s == i || Delivery(s, e) in tail;
      }
    }
  }

  /** An event reaches each matching subscriber exactly once, and nobody else. */
  lemma {:induction false} FanIsExact(subs: seq<Subscriber>, e: Event, i: nat)
    requires i <= |subs|
    ensures ExactlyMatching(subs, e, i, Fan(subs, e, i))
    decreases |subs| - i
  {
    if i < |subs| {
      FanIsExact(subs, e, i + 1);
      MatchingGrows(subs, e, i, Fan(subs, e, i + 1));
      assert [] + Fan(subs, e, i + 1) == Fan(subs, e, i + 1);
    }
  }

  lemma {:induction false} DeliveriesConcat(subs: seq<Subscriber>, a: seq<Event>, b: seq<Event>)
    ensures Deliveries(subs, a + b) == Deliveries(subs, a) + Deliveries(subs, b)
    decreases |b|
  {
    if b == [] {
      assert a + b == a;
    } else {
      var init := b[..|b| - 1];
      DeliveriesConcat(subs, a, init);
      assert (a + b)[..|a + b| - 1] == a + init;
    }
  }

  function Count32(n: nat): U32 {
    n % 0x1_0000_0000
  }

  class Bus {
    const maxSubscribers: nat
    const hasQueue: bool
    var subs: seq<Subscriber>
    var queue: seq<Event>
    var okTotal: U32
    var dropTotal: U32
    var dropTooLarge: U32
    var dropNoQueue: U32
    var dropBurst: U32
    var maxDropBurst: U32
    var rejectTotal: U32
    // The callback calls made since construction.
    var delivered: seq<Delivery>
    // What has been accepted, lost and dispatched since construction.
    ghost var accepted: seq<Event>
    ghost var lost: nat
    ghost var dispatched: nat

    /** Accepted events are the dispatched ones followed by the queue; totals count them. */
    ghost predicate Valid()
      reads this
    {
      && |subs| <= maxSubscribers && |queue| <= QUEUE_LENGTH
      && dispatched + |queue| == |accepted| && queue == accepted[dispatched..]
      && okTotal == Count32(|accepted|) && dropTotal == Count32(lost)
      && (!hasQueue ==> queue == [])
    }

    constructor (maxSubscribers: nat, hasQueue: bool)
      ensures Valid() && this.maxSubscribers == maxSubscribers && this.hasQueue == hasQueue
      ensures subs == [] && queue == [] && accepted == [] && delivered == [] && lost == 0 && dispatched == 0
    {
      this.maxSubscribers, this.hasQueue := maxSubscribers, hasQueue;
      subs, queue := [], [];
      okTotal, dropTotal, dropTooLarge, dropNoQueue, dropBurst, maxDropBurst, rejectTotal := 0, 0, 0, 0, 0, 0, 0;
      accepted, lost, dispatched, delivered := [], 0, 0, [];
    }

    method Subscribe(id: U16, callback: Option<nat>, user: nat) returns (ok: bool)
      requires Valid()
      modifies `subs, `rejectTotal
      ensures Valid()
      ensures ok <==> callback.Some? && |old(subs)| < maxSubscribers
      ensures subs == if ok then old(subs) + [Subscriber(id, callback.value, user)] else old(subs)
      ensures rejectTotal == if ok then old(rejectTotal) else Count32(old(rejectTotal) + 1)
    {
      if callback.None? || |subs| >= maxSubscribers {
        rejectTotal := Count32(rejectTotal + 1);
        return false;
      }
      subs := subs + [Subscriber(id, callback.value, user)];
      return true;
    }

    /** Counts a lost event. */
    method CountDrop()
      requires Valid()
      modifies `dropTotal, `dropBurst, `maxDropBurst, `lost
      ensures Valid() && lost == old(lost) + 1
      ensures dropBurst == Count32(old(dropBurst) + 1)
      ensures maxDropBurst == if dropBurst > old(maxDropBurst) then dropBurst else old(maxDropBurst)
    {
      dropTotal := Count32(dropTotal + 1);
      lost := lost + 1;
      dropBurst := Count32(dropBurst + 1);
      if dropBurst > maxDropBurst {
        maxDropBurst := dropBurst;
      }
    }

    /** Posts an event. A full queue is a loss unless the caller keeps the event to retry. */
    method Post(id: U16, payload: seq<Byte>, producer: Byte, retryOnFull: bool) returns (ok: bool)
      requires Valid()
      modifies `queue, `okTotal, `dropTotal, `dropTooLarge, `dropNoQueue, `dropBurst, `maxDropBurst, `accepted, `lost
      ensures Valid()
      ensures ok <==> hasQueue && |payload| <= MAX_PAYLOAD_SIZE && |old(queue)| < QUEUE_LENGTH
      ensures queue == if ok then old(queue) + [Event(id, producer, payload)] else old(queue)
      ensures accepted == if ok then old(accepted) + [Event(id, producer, payload)] else old(accepted)
      ensures lost == old(lost) +
                if ok || (hasQueue && |payload| <= MAX_PAYLOAD_SIZE && retryOnFull) then 0 else 1
      ensures dropNoQueue == Count32(old(dropNoQueue) + if hasQueue then 0 else 1)
      ensures dropTooLarge == Count32(old(dropTooLarge) + if hasQueue && |payload| > MAX_PAYLOAD_SIZE then 1 else 0)
      ensures dropBurst == if ok then 0 else Count32(old(dropBurst) + lost - old(lost))
      ensures maxDropBurst == if lost > old(lost) && dropBurst > old(maxDropBurst) then dropBurst else old(maxDropBurst)
    {
      if !hasQueue {
        CountDrop();
        dropNoQueue := Count32(dropNoQueue + 1);
        return false;
      }
      if |payload| > MAX_PAYLOAD_SIZE {
        CountDrop();
        dropTooLarge := Count32(dropTooLarge + 1);
        return false;
      }
      var e := Event(id, producer, payload);
      if |queue| == QUEUE_LENGTH {
        if !retryOnFull {
          CountDrop();
        }
        return false;
      }
      queue := queue + [e];
      accepted := accepted + [e];
      okTotal := Count32(okTotal + 1);
      dropBurst := 0;
      return true;
    }

    method DispatchOne(e: Event)
      requires Valid()
      modifies `delivered
      ensures Valid() && delivered == old(delivered) + Fan(subs, e, 0)
    {
      for i := 0 to |subs|
        invariant Valid() && delivered + Fan(subs, e, i) == old(delivered) + Fan(subs, e, 0)
      {
        if subs[i].id == e.id {
          ghost var before := delivered;
          delivered := delivered + [Delivery(i, e)];
          assert before + ([Delivery(i, e)] + Fan(subs, e, i + 1)) == delivered + Fan(subs, e, i + 1);
        } else {
          assert [] + Fan(subs, e, i + 1) == Fan(subs, e, i + 1);
        }
      }
    }

    method Dispatch(maxEvents: U16)
      requires Valid()
      modifies `queue, `delivered, `dispatched
      ensures Valid()
      ensures var n := if maxEvents < |old(queue)| then maxEvents else |old(queue)|;
              && queue == old(queue)[n..] && dispatched == old(dispatched) + n
              && delivered == old(delivered) + Deliveries(subs, old(queue)[..n])
    {
      var i := 0;
      while i < maxEvents && queue != []
        invariant 0 <= i <= maxEvents && i <= |old(queue)|
        invariant Valid() && queue == old(queue)[i..] && dispatched == old(dispatched) + i
        invariant delivered == old(delivered) + Deliveries(subs, old(queue)[..i])
        decreases maxEvents - i
      {
        var e := queue[0];
        queue := queue[1..];
        dispatched := dispatched + 1;
        ghost var done := old(queue)[..i + 1];
        assert done[..|done| - 1] == old(queue)[..i] && done[|done| - 1] == e;
        DispatchOne(e);
        i := i + 1;
      }
    }
  }
}
