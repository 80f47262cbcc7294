/** The notification path from producers to subscribers as atomic steps: producers mark keys at
    any moment, also between the consumer clearing a key's bit and publishing the key. */
module NotificationPipeline {
  import opened Bytes
  import opened PendingDataKeys
  import opened EventBus
  import opened DataStore

  /** The key the consumer has taken out of the mailbox and not yet disposed of. */
  datatype Hand = Empty | Holding(key: nat) | Refused(key: nat)

  /** What happened, in order. */
  datatype Entry = Marked(key: nat) | Taken(key: nat) | Accepted(key: nat) | Returned(key: nat) | Foreign(event: Event)

  datatype State = State(keyCount: nat, pending: set<nat>, cursor: nat, hand: Hand, queue: seq<Event>,
                         accepted: seq<Event>, dispatched: nat, delivered: seq<Delivery>, history: seq<Entry>)

  datatype Step = Mark(key: nat) | Scan | Publish | Return | PostOther(event: Event) | Dispatch

  predicate Shaped(s: State) {
    s.cursor < s.keyCount < 0x1_0000
  }

  /** One atomic step; a step that is not enabled changes nothing. */
  function Next(subs: seq<Subscriber>, s: State, step: Step): (t: State)
    requires Shaped(s)
    ensures Shaped(t)
  {
    match step
    case Mark(key) =>
      if key < s.keyCount then s.(pending := s.pending + {key}, history := s.history + [Marked(key)]) else s
    case Scan =>
      if !s.hand.Empty? then s
      else
        var moved := s.(cursor := PendingDataKeys.Next(s.keyCount, s.cursor));
        if s.cursor in s.pending then
          moved.(pending := s.pending - {s.cursor}, hand := Holding(s.cursor), history := s.history + [Taken(s.cursor)])
        else moved
    case Publish =>
      if !s.hand.Holding? then s
      else if |s.queue| < QUEUE_LENGTH then
        s.(hand := Empty, queue := s.queue + [Changed(s.hand.key)], accepted := s.accepted + [Changed(s.hand.key)],
           history := s.history + [Accepted(s.hand.key)])
      else s.(hand := Refused(s.hand.key))
    case Return =>
      if !s.hand.Refused? then s
      else s.(hand := Empty, pending := s.pending + {s.hand.key}, history := s.history + [Returned(s.hand.key)])
    case PostOther(event) =>
      if |s.queue| < QUEUE_LENGTH then
        s.(queue := s.queue + [event], accepted := s.accepted + [event], history := s.history + [Foreign(event)])
      else s
    case Dispatch =>
      if s.queue == [] then s
      else s.(queue := s.queue[1..], dispatched := s.dispatched + 1, delivered := s.delivered + Fan(subs, s.queue[0], 0))
  }

  function Run(subs: seq<Subscriber>, s: State, steps: seq<Step>): (t: State)
    requires Shaped(s)
    ensures Shaped(t)
    decreases |steps|
  {
    if steps == [] then s else Run(subs, Next(subs, s, steps[0]), steps[1..])
  }

  predicate Initial(s: State) {
    && Shaped(s) && s.pending == {} && s.hand == Empty
    && s.queue == [] && s.accepted == [] && s.dispatched == 0 && s.delivered == [] && s.history == []
  }

  // ----- the invariant -----

  /** The last time key `k` went into or out of the mailbox, it went in. */
  ghost predicate Waiting(history: seq<Entry>, k: nat) {
    if history == [] then false
    else
      var last := history[|history| - 1];
      if last == Marked(k) || last == Returned(k) then true
      else if last == Taken(k) then false
      else Waiting(history[..|history| - 1], k)
  }

  /** The last time key `k` went into or out of the consumer's hand, it went in. */
  ghost predicate InHand(history: seq<Entry>, k: nat) {
    if history == [] then false
    else
      var last := history[|history| - 1];
      if last == Taken(k) then true
      else if last == Accepted(k) || last == Returned(k) then false
      else InHand(history[..|history| - 1], k)
  }

  function HeldKey(hand: Hand, k: nat): bool {
    !hand.Empty? && hand.key == k
  }

  /** The events of the accepted entries. */
  function EventsOf(history: seq<Entry>): seq<Event> {
    if history == [] then []
    else
      var init := EventsOf(history[..|history| - 1]);
      match history[|history| - 1]
      case Accepted(k) => init + [Changed(k)]
      case Foreign(e) => init + [e]
      case _ => init
  }

  ghost predicate Inv(subs: seq<Subscriber>, s: State) {
    && Shaped(s)
    && (forall k :: k in s.pending <==> Waiting(s.history, k))
    && (forall k: nat :: HeldKey(s.hand, k) <==> InHand(s.history, k))
    && |s.queue| <= QUEUE_LENGTH
    && s.dispatched + |s.queue| == |s.accepted| && s.queue == s.accepted[s.dispatched..]
    && s.accepted == EventsOf(s.history)
    && s.delivered == Deliveries(subs, s.accepted[..s.dispatched])
  }

  lemma Appended(history: seq<Entry>, e: Entry)
    ensures var h := history + [e];
            && (forall k: nat :: Waiting(h, k) ==
                  if e == Marked(k) || e == Returned(k) then true else if e == Taken(k) then false else Waiting(history, k))
            && (forall k: nat :: InHand(h, k) ==
                  if e == Taken(k) then true else if e == Accepted(k) || e == Returned(k) then false else InHand(history, k))
            && EventsOf(h) == EventsOf(history) +
                  if e.Accepted? then [Changed(e.key)] else if e.Foreign? then [e.event] else []
  {
    var h := history + [e];
    assert h[..|h| - 1] == history && h[|h| - 1] == e;
  }

  lemma QueueGrows(subs: seq<Subscriber>, s: State, e: Event)
    requires Inv(subs, s)
    ensures (s.accepted + [e])[s.dispatched..] == s.queue + [e]
    ensures (s.accepted + [e])[..s.dispatched] == s.accepted[..s.dispatched]
  {
  }

  lemma DispatchKeepsInv(subs: seq<Subscriber>, s: State)
    requires Inv(subs, s)
    ensures Inv(subs, Next(subs, s, Dispatch))
  {
    if s.queue != [] {
      var done := s.accepted[..s.dispatched + 1];
      assert done[..|done| - 1] == s.accepted[..s.dispatched] && done[|done| - 1] == s.queue[0];
    }
  }

  lemma MarkKeepsInv(subs: seq<Subscriber>, s: State, key: nat)
    requires Inv(subs, s)
    ensures Inv(subs, Next(subs, s, Mark(key)))
  {
    Appended(s.history, Marked(key));
  }

  lemma ScanKeepsInv(subs: seq<Subscriber>, s: State)
    requires Inv(subs, s)
    ensures Inv(subs, Next(subs, s, Scan))
  {
    Appended(s.history, Taken(s.cursor));
  }

  lemma PublishKeepsInv(subs: seq<Subscriber>, s: State)
    requires Inv(subs, s)
    ensures Inv(subs, Next(subs, s, Publish))
  {
    if s.hand.Holding? {
      Appended(s.history, Accepted(s.hand.key));
      QueueGrows(subs, s, Changed(s.hand.key));
    }
  }

  lemma ReturnKeepsInv(subs: seq<Subscriber>, s: State)
    requires Inv(subs, s)
    ensures Inv(subs, Next(subs, s, Return))
  {
    if s.hand.Refused? {
      Appended(s.history, Returned(s.hand.key));
    }
  }

  lemma PostKeepsInv(subs: seq<Subscriber>, s: State, event: Event)
    requires Inv(subs, s)
    ensures Inv(subs, Next(subs, s, PostOther(event)))
  {
    Appended(s.history, Foreign(event));
    QueueGrows(subs, s, event);
  }

  lemma NextKeepsInv(subs: seq<Subscriber>, s: State, step: Step)
    requires Inv(subs, s)
    ensures Inv(subs, Next(subs, s, step))
  {
    match step
    case Mark(key) => MarkKeepsInv(subs, s, key);
    case Scan => ScanKeepsInv(subs, s);
    case Publish => PublishKeepsInv(subs, s);
    case Return => ReturnKeepsInv(subs, s);
    case PostOther(event) => PostKeepsInv(subs, s, event);
    case Dispatch => DispatchKeepsInv(subs, s);
  }

  lemma {:induction false} RunKeepsInv(subs: seq<Subscriber>, s: State, steps: seq<Step>)
    requires Inv(subs, s)
    ensures Inv(subs, Run(subs, s, steps))
    decreases |steps|
  {
    if steps != [] {
      NextKeepsInv(subs, s, steps[0]);
      RunKeepsInv(subs, Next(subs, s, steps[0]), steps[1..]);
    }
  }

  // ----- no lost notification -----

  /** A mark that is no longer waiting was taken; this is its last taking. */
  lemma {:induction false} LastTaking(history: seq<Entry>, k: nat, i: nat) returns (j: nat)
    requires i < |history| && history[i] == Marked(k) && !Waiting(history, k)
    ensures i < j < |history| && history[j] == Taken(k)
    ensures forall l | j < l < |history| :: history[l] != Marked(k) && history[l] != Returned(k) && history[l] != Taken(k)
    decreases |history|
  {
    var last := |history| - 1;
    if history[last] == Taken(k) {
      return last;
    }
    j := LastTaking(history[..last], k, i);
    assert forall l | j < l < last :: history[l] == history[..last][l];
  }

  /** A taken key that left the consumer's hand was accepted or returned. */
  lemma {:induction false} Disposed(history: seq<Entry>, k: nat, j: nat) returns (l: nat)
    requires j < |history| && history[j] == Taken(k) && !InHand(history, k)
    ensures j < l < |history| && (history[l] == Accepted(k) || history[l] == Returned(k))
    decreases |history|
  {
    var last := |history| - 1;
    if history[last] == Accepted(k) || history[last] == Returned(k) {
      return last;
    }
    l := Disposed(history[..last], k, j);
  }

  /** The events accepted by the end of a history start with those accepted earlier. */
  lemma {:induction false} EventsPrefix(history: seq<Entry>, n: nat)
    requires n <= |history|
    ensures EventsOf(history[..n]) <= EventsOf(history)
    decreases |history|
  {
    if n == |history| {
      assert history[..n] == history;
    } else {
      var init := history[..|history| - 1];
      EventsPrefix(init, n);
      assert init[..n] == history[..n];
    }
  }

  /** An acceptance of key k in the history is an accepted event that names k. */
  lemma AcceptanceNamesKey(history: seq<Entry>, k: U16, i: nat, l: nat) returns (at: nat)
    requires i <= l < |history| && history[l] == Accepted(k)
    ensures |EventsOf(history[..i])| <= at < |EventsOf(history)| && Names(EventsOf(history)[at], k)
  {
    at := |EventsOf(history[..l])|;
    assert history[..l][..i] == history[..i];
    EventsPrefix(history[..l], i);
    assert history[..l + 1][..l] == history[..l] && history[..l + 1][l] == Accepted(k);
    EventsPrefix(history, l + 1);
    assert EventsOf(history[..l + 1]) == EventsOf(history[..l]) + [Changed(k)];
    ChangedNamesItsKey(k);
  }

  /** Under any interleaving, a mark of key k leaves k pending or in the consumer's hand, unless
      the bus has accepted, after the mark, an event whose payload names k; that key was then taken
      after the mark too. */
  lemma NoLostNotification(subs: seq<Subscriber>, s: State, steps: seq<Step>, k: U16, i: nat)
    requires Initial(s)
    requires var t := Run(subs, s, steps); i < |t.history| && t.history[i] == Marked(k)
    ensures var t := Run(subs, s, steps);
            || k in t.pending
            || HeldKey(t.hand, k)
            || (&& (exists j, l | i < j < l < |t.history| :: t.history[j] == Taken(k) && t.history[l] == Accepted(k))
                && exists at: nat | |EventsOf(t.history[..i])| <= at < |t.accepted| :: Names(t.accepted[at], k))
  {
    RunKeepsInv(subs, s, steps);
    var t := Run(subs, s, steps);
    if k !in t.pending && !HeldKey(t.hand, k) {
      var j := LastTaking(t.history, k, i);
      var l := Disposed(t.history, k, j);
      assert t.history[l] == Accepted(k);
      var at := AcceptanceNamesKey(t.history, k, i, l);
    }
  }

  // ----- no invented notification -----

  function Occurrences(history: seq<Entry>, e: Entry): nat {
    if history == [] then 0
    else Occurrences(history[..|history| - 1], e) + if history[|history| - 1] == e then 1 else 0
  }

  lemma OccursAppended(history: seq<Entry>, last: Entry, e: Entry)
    ensures Occurrences(history + [last], e) == Occurrences(history, e) + if last == e then 1 else 0
  {
    assert (history + [last])[..|history|] == history;
  }

  /** Every acceptance of key `k`, and its being pending or in hand, has a mark of its own. */
  ghost predicate Sourced(s: State, k: nat) {
    Occurrences(s.history, Accepted(k)) + (if k in s.pending then 1 else 0) + (if HeldKey(s.hand, k) then 1 else 0)
      <= Occurrences(s.history, Marked(k))
  }

  /** The two counts after one more entry. */
  lemma Recounted(history: seq<Entry>, last: Entry, k: nat)
    ensures Occurrences(history + [last], Accepted(k)) == Occurrences(history, Accepted(k)) + if last == Accepted(k) then 1 else 0
    ensures Occurrences(history + [last], Marked(k)) == Occurrences(history, Marked(k)) + if last == Marked(k) then 1 else 0
  {
    OccursAppended(history, last, Accepted(k));
    OccursAppended(history, last, Marked(k));
  }

  lemma InStaysSourced(subs: seq<Subscriber>, s: State, step: Step, k: nat)
    requires Shaped(s) && Sourced(s, k) && (step.Mark? || step.Return?)
    ensures Sourced(Next(subs, s, step), k)
  {
    if step.Mark? {
      Recounted(s.history, Marked(step.key), k);
    } else if s.hand.Refused? {
      Recounted(s.history, Returned(s.hand.key), k);
    }
  }

  lemma OutStaysSourced(subs: seq<Subscriber>, s: State, step: Step, k: nat)
    requires Shaped(s) && Sourced(s, k) && (step.Scan? || step.Publish?)
    ensures Sourced(Next(subs, s, step), k)
  {
    if step.Scan? {
      Recounted(s.history, Taken(s.cursor), k);
    } else if s.hand.Holding? {
      Recounted(s.history, Accepted(s.hand.key), k);
    }
  }

  lemma OtherStaysSourced(subs: seq<Subscriber>, s: State, step: Step, k: nat)
    requires Shaped(s) && Sourced(s, k) && (step.PostOther? || step.Dispatch?)
    ensures Sourced(Next(subs, s, step), k)
  {
    if step.PostOther? {
      Recounted(s.history, Foreign(step.event), k);
    }
  }

  lemma NextStaysSourced(subs: seq<Subscriber>, s: State, step: Step, k: nat)
    requires Shaped(s) && Sourced(s, k)
    ensures Sourced(Next(subs, s, step), k)
  {
    if step.Mark? || step.Return? {
      InStaysSourced(subs, s, step, k);
    } else if step.Scan? || step.Publish? {
      OutStaysSourced(subs, s, step, k);
    } else {
      OtherStaysSourced(subs, s, step, k);
    }
  }

  /** Under any interleaving, the bus never accepts more notifications of a key than it was marked
      times, counting as used up the mark behind a pending or held key. */
  lemma {:induction false} NoInventedNotification(subs: seq<Subscriber>, s: State, steps: seq<Step>, k: nat)
    requires Initial(s) || (Shaped(s) && Sourced(s, k))
    ensures Sourced(Run(subs, s, steps), k)
    decreases |steps|
  {
    if steps != [] {
      NextStaysSourced(subs, s, steps[0], k);
      NoInventedNotification(subs, Next(subs, s, steps[0]), steps[1..], k);
    }
  }

  /** Accepted events are delivered or still queued, each delivered one once to every matching
      subscriber, in the order of acceptance. */
  lemma AcceptedAreDeliveredInOrder(subs: seq<Subscriber>, s: State, steps: seq<Step>)
    requires Initial(s)
    ensures var t := Run(subs, s, steps);
            && t.dispatched <= |t.accepted|
            && t.accepted == EventsOf(t.history)
            && t.accepted == t.accepted[..t.dispatched] + t.queue
            && |t.queue| <= QUEUE_LENGTH
            && t.delivered == Deliveries(subs, t.accepted[..t.dispatched])
            && forall e | e in t.accepted :: ExactlyMatching(subs, e, 0, Fan(subs, e, 0))
  {
    RunKeepsInv(subs, s, steps);
    forall e
      ensures ExactlyMatching(subs, e, 0, Fan(subs, e, 0))
    {
      FanIsExact(subs, e, 0);
    }
  }

  // ----- an undisturbed pass is such a run -----

  lemma {:induction false} RunConcat(subs: seq<Subscriber>, s: State, a: seq<Step>, b: seq<Step>)
    requires Shaped(s)
    ensures Run(subs, s, a + b) == Run(subs, Run(subs, s, a), b)
    decreases |a|
  {
    if a == [] {
      assert a + b == b;
    } else {
      assert (a + b)[1..] == a[1..] + b;
      RunConcat(subs, Next(subs, s, a[0]), a[1..], b);
    }
  }

  lemma RunOne(subs: seq<Subscriber>, s: State, step: Step)
    requires Shaped(s)
    ensures Run(subs, s, [step]) == Next(subs, s, step)
  {
    assert [step][1..] == [];
  }

  /** Taking a key out and having it accepted. */
  lemma OneAccepted(subs: seq<Subscriber>, s: State) returns (t: State)
    requires Shaped(s) && s.hand == Empty && s.cursor in s.pending && |s.queue| < QUEUE_LENGTH
    ensures t == Run(subs, s, [Scan, Publish]) && Shaped(t)
    ensures t.hand == Empty && t.keyCount == s.keyCount && t.cursor == PendingDataKeys.Next(s.keyCount, s.cursor)
    ensures t.pending == s.pending - {s.cursor} && t.queue == s.queue + [Changed(s.cursor)]
  {
    t := Next(subs, Next(subs, s, Scan), Publish);
    assert [Scan, Publish][1..] == [Publish];
    RunOne(subs, Next(subs, s, Scan), Publish);
  }

  /** Taking a key out and putting it back when the queue is full. */
  lemma OneReturned(subs: seq<Subscriber>, s: State) returns (t: State)
    requires Shaped(s) && s.hand == Empty && s.cursor in s.pending && |s.queue| == QUEUE_LENGTH
    ensures t == Run(subs, s, [Scan, Publish, Return])
    ensures t.hand == Empty && t.cursor == PendingDataKeys.Next(s.keyCount, s.cursor)
    ensures t.pending == s.pending && t.queue == s.queue
  {
    var scanned := Next(subs, s, Scan);
    var offered := Next(subs, scanned, Publish);
    t := Next(subs, offered, Return);
    assert [Scan, Publish, Return][1..] == [Publish, Return] && [Publish, Return][1..] == [Return];
    RunOne(subs, offered, Return);
    assert s.pending - {s.cursor} + {s.cursor} == s.pending;
  }

  /** A pass of the drain loop on its own, with the bus accepting until its queue is full, is a
      run of scan, publish and return steps. */
  lemma {:induction false} DrainIsARun(subs: seq<Subscriber>, s: State, left: nat, budget: nat, published: seq<nat>, room: int)
    returns (steps: seq<Step>)
    requires Shaped(s) && s.hand == Empty
    requires |s.queue| <= QUEUE_LENGTH && room - |published| == QUEUE_LENGTH - |s.queue|
    ensures var r := DrainFrom(s.keyCount, s.pending, s.cursor, left, budget, |published|, Accepting(room));
            var t := Run(subs, s, steps);
            && t.hand == Empty && t.pending == r.pending && t.cursor == r.cursor
            && t.queue == s.queue + AllChanged(r.published)
    decreases left
  {
    steps := [];
    if left > 0 && budget > 0 {
      if s.cursor !in s.pending {
        RunOne(subs, s, Scan);
        var more := DrainIsARun(subs, Next(subs, s, Scan), left - 1, budget, published, room);
        RunConcat(subs, s, [Scan], more);
        steps := [Scan] + more;
      } else if |s.queue| == QUEUE_LENGTH {
        var t := OneReturned(subs, s);
        steps := [Scan, Publish, Return];
      } else {
        var t := OneAccepted(subs, s);
        var more := DrainIsARun(subs, t, left - 1, budget - 1, published + [s.cursor], room);
        RunConcat(subs, s, [Scan, Publish], more);
        var rest := DrainFrom(s.keyCount, t.pending, t.cursor, left - 1, budget - 1, |published| + 1, Accepting(room));
        ChangedFirst(s.cursor, rest.published);
        steps := [Scan, Publish] + more;
      }
    }
  }

  lemma {:induction false} ChangedFirst(key: nat, keys: seq<nat>)
    ensures AllChanged([key] + keys) == [Changed(key)] + AllChanged(keys)
    decreases |keys|
  {
    var all := [key] + keys;
    if keys == [] {
      assert all[..|all| - 1] == [] && all[|all| - 1] == key;
    } else {
      assert all[..|all| - 1] == [key] + keys[..|keys| - 1];
      ChangedFirst(key, keys[..|keys| - 1]);
    }
  }
}
