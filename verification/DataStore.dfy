/** The composition of mailbox and bus in src/Core/DataStore/DataStore.cpp. */
module DataStore {
  import opened Bytes
  import opened PendingDataKeys
  import opened EventBus

  const DATA_STORE_MODULE: Byte := 7

  function Changed(key: nat): Event {
    Event(DATA_CHANGED, DATA_STORE_MODULE, ToBytes(key, 2))
  }

  function AllChanged(keys: seq<nat>): (events: seq<Event>)
    ensures |events| == |keys|
  {
    if keys == [] then [] else AllChanged(keys[..|keys| - 1]) + [Changed(keys[|keys| - 1])]
  }

  /** The event tells its subscribers that key `key` has changed. */
  predicate Names(e: Event, key: nat) {
    e.id == 50 && |e.data| == 2 && FromBytes(e.data) == key
  }

  lemma ChangedNamesItsKey(key: U16)
    ensures Names(Changed(key), key)
  {
    Widths();
    FromToBytes(key, 2);
  }

  lemma {:induction false} AllChangedName(keys: seq<nat>)
    requires forall i: nat | i < |keys| :: keys[i] < 0x1_0000
    ensures forall i: nat | i < |keys| :: Names(AllChanged(keys)[i], keys[i])
    decreases |keys|
  {
    if keys != [] {
      AllChangedName(keys[..|keys| - 1]);
      ChangedNamesItsKey(keys[|keys| - 1]);
    }
  }

  /** A pass publishes keys of the mailbox only. */
  lemma {:induction false} PublishedAreKeys(n: nat, pending: set<nat>, cursor: nat, left: nat, budget: nat, call: nat,
                                            accepts: nat -> bool)
    requires cursor < n
    ensures forall key | key in DrainFrom(n, pending, cursor, left, budget, call, accepts).published :: key < n && key in pending
    decreases left
  {
    if left > 0 && budget > 0 {
      if cursor !in pending {
        PublishedAreKeys(n, pending, Next(n, cursor), left - 1, budget, call, accepts);
      } else if accepts(call) {
        PublishedAreKeys(n, pending - {cursor}, Next(n, cursor), left - 1, budget - 1, call + 1, accepts);
      }
    }
  }

  /** The events name the keys, one each and in order. */
  predicate NameInOrder(events: seq<Event>, keys: seq<nat>) {
    |events| == |keys| && forall i: nat | i < |keys| :: Names(events[i], keys[i])
  }

  /** The events of a whole pass name the keys it publishes. */
  lemma PublishedName(n: nat, pending: set<nat>, cursor: nat, budget: nat, accepts: nat -> bool, r: Drained)
    requires cursor < n <= 0x1_0000 && r == DrainFrom(n, pending, cursor, n, budget, 0, accepts)
    ensures NameInOrder(AllChanged(r.published), r.published)
  {
    PublishedAreKeys(n, pending, cursor, n, budget, 0, accepts);
    assert forall i: nat | i < |r.published| :: r.published[i] in r.published;
    AllChangedName(r.published);
  }

  /** Free places in the bus queue. */
  ghost function Room(bus: Bus): int
    reads bus
  {
    if bus.hasQueue then QUEUE_LENGTH - |bus.queue| else 0
  }

  /** The bus accepts a pass's publications until its queue is full. */
  ghost function Accepting(room: int): nat -> bool {
    (call: nat) => call < room
  }

  lemma AllChangedGrows(keys: seq<nat>, key: nat)
    ensures AllChanged(keys + [key]) == AllChanged(keys) + [Changed(key)]
  {
    assert (keys + [key])[..|keys|] == keys;
  }

  class Store {
    const mailbox: Mailbox
    var bus: Bus?

    ghost predicate Valid()
      reads this, mailbox, mailbox.bits, bus
    {
      && mailbox.Valid()
      && (bus != null ==> bus.Valid())
    }

    constructor (mailbox: Mailbox)
      requires mailbox.Valid()
      ensures Valid() && this.mailbox == mailbox && bus == null
    {
      this.mailbox := mailbox;
      bus := null;
    }

    method NotifyChanged(key: nat)
      requires Valid()
      modifies mailbox.bits
      ensures Valid()
      ensures mailbox.Pending() == if key < mailbox.keyCount then old(mailbox.Pending()) + {key} else old(mailbox.Pending())
    {
      var _ := mailbox.Mark(key);
    }

    /** Offers a key taken from the mailbox to the bus, and puts it back when it is refused. */
    method Offer(key: nat) returns (ok: bool)
      requires Valid() && bus != null && key < mailbox.keyCount
      modifies mailbox.bits, bus
      ensures Valid() && (bus.hasQueue ==> bus.lost == old(bus.lost))
      ensures ok <==> old(Room(bus)) > 0
      ensures bus.queue == if ok then old(bus.queue) + [Changed(key)] else old(bus.queue)
      ensures bus.accepted == if ok then old(bus.accepted) + [Changed(key)] else old(bus.accepted)
      ensures mailbox.Pending() == if ok then old(mailbox.Pending()) else old(mailbox.Pending()) + {key}
    {
      ok := bus.Post(DATA_CHANGED, ToBytes(key, 2), DATA_STORE_MODULE, true);
      if !ok {
        var _ := mailbox.Mark(key);
      }
    }

    /** Scans one place of the mailbox and publishes its key if it is pending. */
    method PublishNext() returns (key: nat, wasPending: bool, ok: bool)
      requires Valid() && bus != null
      modifies mailbox, mailbox.bits, bus
      ensures Valid() && (bus.hasQueue ==> bus.lost == old(bus.lost))
      ensures key == old(mailbox.cursor) && mailbox.cursor == Next(mailbox.keyCount, key)
      ensures wasPending <==> key in old(mailbox.Pending())
      ensures ok <==> wasPending && old(Room(bus)) > 0
      ensures mailbox.Pending() == if ok then old(mailbox.Pending()) - {key} else old(mailbox.Pending())
      ensures bus.queue == if ok then old(bus.queue) + [Changed(key)] else old(bus.queue)
      ensures bus.accepted == if ok then old(bus.accepted) + [Changed(key)] else old(bus.accepted)
    {
      key, wasPending := mailbox.Scan();
      ok := false;
      if wasPending {
        ok := Offer(key);
      }
    }

    /** One turn of the drain loop towards its result `goal`; `next` is what has been published
        afterwards and `added` the events this turn posted. */
    method DrainTurn(ghost left: nat, ghost allowance: nat, ghost published: seq<nat>, ghost accepts: nat -> bool,
                     ghost goal: Drained)
      returns (wasPending: bool, ok: bool, ghost next: seq<nat>, ghost added: seq<Event>)
      requires Valid() && bus != null && left > 0 && allowance > 0 && (Room(bus) > 0 <==> accepts(|published|))
      requires Continued(mailbox.keyCount, mailbox.Pending(), mailbox.cursor, left, allowance, published, accepts) == goal
      modifies mailbox, mailbox.bits, bus
      ensures Valid() && (bus.hasQueue ==> bus.lost == old(bus.lost)) && (ok ==> wasPending)
      ensures bus.queue == old(bus.queue) + added && bus.accepted == old(bus.accepted) + added
      ensures AllChanged(next) == AllChanged(published) + added
      ensures Room(bus) == old(Room(bus)) - |added| && |next| == |published| + |added|
      ensures if wasPending && !ok then goal == Drained(mailbox.Pending(), mailbox.cursor, next)
              else Continued(mailbox.keyCount, mailbox.Pending(), mailbox.cursor, left - 1,
                             if wasPending then allowance - 1 else allowance, next, accepts) == goal
    {
      ContinuedSteps(mailbox.keyCount, mailbox.Pending(), mailbox.cursor, left, allowance, published, accepts);
      var key;
      key, wasPending, ok := PublishNext();
      next, added := published, [];
      if ok {
        AllChangedGrows(published, key);
        next, added := published + [key], [Changed(key)];
      }
    }

    /** The drain loop, on a bus with some free places, towards its result `goal`. */
    method Drain(budget: U16, ghost room: int, ghost goal: Drained)
      requires Valid() && bus != null && room == Room(bus)
      requires goal == Continued(mailbox.keyCount, mailbox.Pending(), mailbox.cursor, mailbox.keyCount, budget, [], Accepting(room))
      modifies mailbox, mailbox.bits, bus
      ensures Valid() && (bus.hasQueue ==> bus.lost == old(bus.lost))
      ensures mailbox.Pending() == goal.pending && mailbox.cursor == goal.cursor
      ensures bus.queue == old(bus.queue) + AllChanged(goal.published)
      ensures bus.accepted == old(bus.accepted) + AllChanged(goal.published)
    {
      ghost var published: seq<nat>, news: seq<Event> := [], [];
      var left, allowance := mailbox.keyCount, budget;
      while left > 0 && allowance > 0
        invariant Valid() && (bus.hasQueue ==> bus.lost == old(bus.lost))
        invariant news == AllChanged(published) && Room(bus) == room - |published|
        invariant bus.queue == old(bus.queue) + news && bus.accepted == old(bus.accepted) + news
        invariant goal == Continued(mailbox.keyCount, mailbox.Pending(), mailbox.cursor, left, allowance, published, Accepting(room))
        decreases left
      {
        var wasPending, ok;
        ghost var added;
        wasPending, ok, published, added := DrainTurn(left, allowance, published, Accepting(room), goal);
        news := news + added;
        left := left - 1;
        if wasPending {
          allowance := allowance - 1;
          if !ok {
            return;
          }
        }
      }
      ContinuedSteps(mailbox.keyCount, mailbox.Pending(), mailbox.cursor, left, allowance, published, Accepting(room));
    }

    /** Publishes pending keys on the bus; what the bus refuses stays pending. */
    method FlushPendingChanges(budget: U16)
      requires Valid()
      modifies mailbox, mailbox.bits, bus
      ensures Valid()
      ensures bus == null ==> mailbox.Pending() == old(mailbox.Pending()) && mailbox.cursor == old(mailbox.cursor)
      ensures bus != null ==>
                var r := DrainFrom(mailbox.keyCount, old(mailbox.Pending()), old(mailbox.cursor), mailbox.keyCount,
                                   budget, 0, Accepting(old(Room(bus))));
                && mailbox.Pending() == r.pending && mailbox.cursor == r.cursor
                && bus.queue == old(bus.queue) + AllChanged(r.published)
                && bus.accepted == old(bus.accepted) + AllChanged(r.published)
                && NameInOrder(AllChanged(r.published), r.published)
                && (bus.hasQueue ==> bus.lost == old(bus.lost))
    {
      if bus == null {
        return;
      }
      ghost var accepts := Accepting(Room(bus));
      ghost var goal := DrainFrom(mailbox.keyCount, mailbox.Pending(), mailbox.cursor, mailbox.keyCount, budget, 0, accepts);
      WholePass(mailbox.keyCount, mailbox.Pending(), mailbox.cursor, budget, accepts);
      PublishedName(mailbox.keyCount, mailbox.Pending(), mailbox.cursor, budget, accepts, goal);
      Drain(budget, Room(bus), goal);
    }
  }
}
