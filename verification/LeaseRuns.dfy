/** What the durable lease keeps over whole runs: agreement between memory and flash, exact
    expiry across power cuts, and a monotonic deadline that clock jumps cannot move. */
module LeaseRuns {
  import opened Wrappers
  import opened Bytes
  import opened TimedActuatorOverride

  // ----- agreement between memory and flash -----

  ghost predicate Matches(l: Lease, record: Option<Record>) {
    match Restored(record, 0)
    case None => !l.active
    case Some(r) =>
      && r.active == l.active
      && (l.active ==> r == l.(anchored := false, dirty := false, deadlineMs := 0, reason := NoReason))
  }

  /** Unless a save is pending, the record restores to the lease in memory. */
  ghost predicate Agrees(w: World) {
    !w.lease.dirty ==> Matches(w.lease, w.disk.record)
  }

  ghost predicate Sound(w: World) {
    w.lease.active ==>
      !w.lease.dirty && w.lease.startUtc < w.lease.endUtc && w.lease.endUtc - w.lease.startUtc <= MAX_DURATION_SEC
  }

  lemma FlushAgrees(io: Storage, w: World)
    requires Agrees(w) && Sound(w)
    ensures Agrees(Flushed(io, w).1) && Sound(Flushed(io, w).1)
    ensures Flushed(io, w).0 <==> !Flushed(io, w).1.lease.dirty
  {
  }

  /** A cancellation always takes effect in memory; it is saved or stays pending. */
  lemma CancelStops(io: Storage, w: World, reason: Reason)
    requires Sound(w) && (Agrees(w) || w.lease.active)
    ensures var (ok, after) := Cancelled(io, w, reason);
            !after.lease.active && Agrees(after) && Sound(after) && (ok <==> !after.lease.dirty)
  {
    if w.lease.active || w.lease.dirty {
      FlushAgrees(io, w.(lease := w.lease.(active := false, anchored := false, dirty := true, reason := reason)));
    }
  }

  /** A failed start changes nothing but the write count; a successful one is on flash. */
  lemma StartAgrees(io: Storage, w: World, slot: Byte, binding: U32, value: bool, seconds: U32, utc: U64, monotonicMs: U64)
    requires Agrees(w) && Sound(w)
    ensures var (ok, after) := Started(io, w, slot, binding, value, seconds, utc, monotonicMs);
            && Agrees(after) && Sound(after)
            && (!ok ==> after.lease == w.lease && after.disk.record == w.disk.record)
            && (ok ==> after.lease.active && !after.lease.dirty && after.lease.endUtc - after.lease.startUtc == seconds)
  {
    if utc != 0 && 0 < seconds <= MAX_DURATION_SEC && utc <= U64_MAX - seconds {
    }
  }

  function CorrectedEnd(w: World, utc: U64, monotonicMs: U64): U64 {
    Wrap64(utc + RemainingSeconds(w.lease.deadlineMs, monotonicMs))
  }

  /** A correction lands on a start time of zero and is saved: `restore` will refuse it. */
  predicate SavesZeroStart(io: Storage, w: World, utc: U64, monotonicMs: U64) {
    && w.lease.active && w.lease.anchored && utc != 0 && monotonicMs < w.lease.deadlineMs
    && CorrectedEnd(w, utc, monotonicMs) == Wrap64(w.lease.endUtc - w.lease.startUtc)
    && Distance(CorrectedEnd(w, utc, monotonicMs), w.lease.endUtc) > 2
    && io.configured && io.succeeds(w.disk.writes)
  }

  lemma CorrectionAgrees(io: Storage, w: World, correctedEnd: U64)
    requires Agrees(w) && Sound(w) && w.lease.active
    ensures Sound(Corrected(io, w, correctedEnd))
    ensures Agrees(Corrected(io, w, correctedEnd)) <==>
            !(io.configured && io.succeeds(w.disk.writes) && correctedEnd == w.lease.endUtc - w.lease.startUtc)
  {
    var duration := w.lease.endUtc - w.lease.startUtc;
    if correctedEnd < duration {
      CancelStops(io, w, ClockInvalid);
    } else {
      var start := correctedEnd - duration;
      var (ok, disk) := Save(io, w.disk, Record(true, w.lease.slot, w.lease.binding, w.lease.value, start, correctedEnd));
      if !ok {
        CancelStops(io, w.(disk := disk), ClockInvalid);
      }
    }
  }

  /** Whole seconds ahead of the deadline, exactly that many seconds remain. */
  lemma WholeSecondsRemain(deadlineMs: U64, monotonicMs: U64, seconds: nat)
    requires deadlineMs == monotonicMs + 1000 * seconds && 0 < 1000 * seconds <= U64_MAX - 999
    ensures RemainingSeconds(deadlineMs, monotonicMs) == seconds
  {
  }

  /** Seconds until a deadline that wraps lies in the past. */
  lemma WrappedDeadline(monotonicMs: U64, seconds: nat)
    requires 0 < seconds <= MAX_DURATION_SEC
    ensures var deadline := Wrap64(monotonicMs + Wrap64(seconds * 1000));
            monotonicMs < deadline ==> deadline == monotonicMs + 1000 * seconds
  {
  }

  /** A tick that anchors a restored lease never corrects its period. */
  lemma AnchoringKeepsPeriod(io: Storage, w: World, utc: U64, monotonicMs: U64)
    requires Agrees(w) && Sound(w) && w.lease.active && !w.lease.anchored
    requires w.lease.startUtc <= utc < w.lease.endUtc
    ensures Agrees(Ticked(io, w, utc, monotonicMs)) && Sound(Ticked(io, w, utc, monotonicMs))
  {
    var remaining := w.lease.endUtc - utc;
    var deadline := Wrap64(monotonicMs + Wrap64(remaining * 1000));
    var anchored := w.(lease := w.lease.(deadlineMs := deadline, anchored := true));
    WrappedDeadline(monotonicMs, remaining);
    if monotonicMs >= deadline {
      CancelStops(io, anchored, Expired);
    } else {
      WholeSecondsRemain(deadline, monotonicMs, remaining);
    }
  }

  /** A tick keeps memory and flash in agreement exactly when it does not save a zero start. */
  lemma TickAgreesExactly(io: Storage, w: World, utc: U64, monotonicMs: U64)
    requires Agrees(w) && Sound(w)
    ensures Sound(Ticked(io, w, utc, monotonicMs))
    ensures Agrees(Ticked(io, w, utc, monotonicMs)) <==> !SavesZeroStart(io, w, utc, monotonicMs)
  {
    if w.lease.active {
      if !w.lease.anchored {
        if utc == 0 {
        } else if utc < w.lease.startUtc {
          CancelStops(io, w, ClockInvalid);
        } else if utc >= w.lease.endUtc {
          CancelStops(io, w, Expired);
        } else {
          AnchoringKeepsPeriod(io, w, utc, monotonicMs);
        }
      } else if monotonicMs >= w.lease.deadlineMs {
        CancelStops(io, w, Expired);
      } else if utc != 0 {
        CorrectionAgrees(io, w, CorrectedEnd(w, utc, monotonicMs));
      }
    }
  }

  /** UTC values a clock may report: unknown, or later than the longest lease and below 2^63. */
  predicate Plausible(utc: U64) {
    utc == 0 || MAX_DURATION_SEC < utc < 0x8000_0000_0000_0000
  }

  datatype Event =
    | StartEvent(slot: Byte, binding: U32, value: bool, seconds: U32, utc: U64, monotonicMs: U64)
    | CancelEvent(reason: Reason)
    | FlushEvent
    | TickEvent(utc: U64, monotonicMs: U64)
    | PowerCut

  function Step(io: Storage, w: World, e: Event): World {
    match e
    case StartEvent(slot, binding, value, seconds, utc, ms) => Started(io, w, slot, binding, value, seconds, utc, ms).1
    case CancelEvent(reason) => Cancelled(io, w, reason).1
    case FlushEvent => Flushed(io, w).1
    case TickEvent(utc, ms) => Ticked(io, w, utc, ms)
    case PowerCut => Booted(w.disk)
  }

  function Run(io: Storage, w: World, events: seq<Event>): World
    decreases |events|
  {
    if events == [] then w else Run(io, Step(io, w, events[0]), events[1..])
  }

  lemma BootAgrees(disk: Disk)
    ensures Agrees(Booted(disk)) && Sound(Booted(disk))
  {
  }

  lemma StepAgrees(io: Storage, w: World, e: Event)
    requires Agrees(w) && Sound(w)
    requires e.TickEvent? ==> Plausible(e.utc)
    ensures Agrees(Step(io, w, e)) && Sound(Step(io, w, e))
  {
    match e
    case StartEvent(slot, binding, value, seconds, utc, ms) => StartAgrees(io, w, slot, binding, value, seconds, utc, ms);
    case CancelEvent(reason) => CancelStops(io, w, reason);
    case FlushEvent => FlushAgrees(io, w);
    case TickEvent(utc, ms) => TickAgreesExactly(io, w, utc, ms);
    case PowerCut => BootAgrees(w.disk);
  }

  lemma {:induction false} RunAgrees(io: Storage, w: World, events: seq<Event>)
    requires Agrees(w) && Sound(w)
    requires forall i | 0 <= i < |events| :: events[i].TickEvent? ==> Plausible(events[i].utc)
    ensures Agrees(Run(io, w, events)) && Sound(Run(io, w, events))
    decreases |events|
  {
    if events != [] {
      StepAgrees(io, w, events[0]);
      RunAgrees(io, Step(io, w, events[0]), events[1..]);
    }
  }

  /** Durability: booted from any flash contents, over any run with a plausible clock and any
      pattern of failing writes, a lease without a pending save is exactly the one flash would
      restore. */
  lemma BootedRunAgrees(io: Storage, disk: Disk, events: seq<Event>)
    requires forall i | 0 <= i < |events| :: events[i].TickEvent? ==> Plausible(events[i].utc)
    ensures var w := Run(io, Booted(disk), events);
            Sound(w) && (!w.lease.dirty ==> Matches(w.lease, w.disk.record))
  {
    BootAgrees(disk);
    RunAgrees(io, Booted(disk), events);
  }

  /** The clock condition is needed: near the epoch a correction saves a start of zero, and the
      running lease cannot be restored. */
  lemma ZeroStartIsUnreadable()
    ensures var io := Storage(true, (n: nat) => true);
            var events := [StartEvent(0, 3, true, 100, 1000, 0), TickEvent(50, 50000)];
            var w := Run(io, World(IDLE, Disk(None, 0)), events);
            w.lease.active && !w.lease.dirty && w.lease.startUtc == 0 && Restored(w.disk.record, 0) == None
  {
    var io := Storage(true, (n: nat) => true);
    var events := [StartEvent(0, 3, true, 100, 1000, 0), TickEvent(50, 50000)];
    var w0 := World(IDLE, Disk(None, 0));
    var w1 := Step(io, w0, events[0]);
    assert events[1..] == [events[1]] && [events[1]][1..] == [];
    assert w1.lease.endUtc == 1100 && w1.lease.deadlineMs == 100000;
    assert RemainingSeconds(100000, 50000) == 50;
    var w2 := Step(io, w1, events[1]);
    assert w2 == Corrected(io, w1, 100);
    assert Run(io, w0, events) == Run(io, w1, [events[1]]) == Run(io, w2, []);
  }

  /** A lease becomes active only by a successful start or by restoring one after a power cut. */
  lemma OnlyStartActivates(io: Storage, w: World, e: Event)
    requires !w.lease.active && Step(io, w, e).lease.active
    ensures (e.StartEvent? && Started(io, w, e.slot, e.binding, e.value, e.seconds, e.utc, e.monotonicMs).0) || e.PowerCut?
  {
  }

  // ----- what each operation does, field by field -----

  /** The next write to flash succeeds. */
  predicate WriteSucceeds(io: Storage, w: World) {
    io.configured && io.succeeds(w.disk.writes)
  }

  /** What a write of `record` leaves in flash. */
  predicate WroteOrKept(io: Storage, w: World, after: Disk, record: Record) {
    && after.record == (if WriteSucceeds(io, w) then Some(record) else w.disk.record)
    && after.writes == w.disk.writes + if io.configured then 1 else 0
  }

  /** A start succeeds exactly for a known time, a duration of at most a day whose end can be
      represented, and a successful write; it then forces exactly the requested value on exactly the
      requested slot and binding, in memory and in flash, and anchors the deadline. */
  lemma StartExactly(io: Storage, w: World, slot: Byte, binding: U32, value: bool, seconds: U32, utc: U64, monotonicMs: U64)
    ensures var (ok, after) := Started(io, w, slot, binding, value, seconds, utc, monotonicMs);
            var legal := utc != 0 && 0 < seconds <= 86400 && utc + seconds <= U64_MAX;
            && (ok <==> legal && WriteSucceeds(io, w))
            && (!legal ==> after == w)
            && (legal ==> WroteOrKept(io, w, after.disk, Record(true, slot, binding, value, utc, utc + seconds)))
            && (!ok ==> after.lease == w.lease)
            && (ok ==>
                  var l := after.lease;
                  && l.slot == slot && l.binding == binding && l.value == value
                  && l.startUtc == utc && l.endUtc == utc + seconds
                  && l.active && l.anchored && !l.dirty && l.reason == NoReason
                  && l.deadlineMs == (monotonicMs + 1000 * seconds) % 0x1_0000_0000_0000_0000)
  {
  }

  /** A stop takes effect at once, keeps what the lease was about, remembers its reason, and writes
      an inactive record; a failed write stays pending. */
  predicate StoppedBecause(io: Storage, w: World, after: World, reason: Reason) {
    && after.lease == w.lease.(active := false, anchored := false, reason := reason, dirty := !WriteSucceeds(io, w))
    && WroteOrKept(io, w, after.disk, Record(false, w.lease.slot, w.lease.binding, false, 0, 0))
  }

  lemma CancelExactly(io: Storage, w: World, reason: Reason)
    ensures var (ok, after) := Cancelled(io, w, reason);
            if w.lease.active || w.lease.dirty then StoppedBecause(io, w, after, reason) && (ok <==> WriteSucceeds(io, w))
            else ok && after == w
  {
  }

  /** A retry writes the same inactive record and clears the pending flag exactly when that works. */
  lemma FlushExactly(io: Storage, w: World)
    ensures var (ok, after) := Flushed(io, w);
            if w.lease.dirty then
              && after.lease == w.lease.(dirty := !WriteSucceeds(io, w)) && (ok <==> WriteSucceeds(io, w))
              && WroteOrKept(io, w, after.disk, Record(false, w.lease.slot, w.lease.binding, false, 0, 0))
            else ok && after == w
  {
  }

  /** A record is restored exactly when it is inactive or its period is positive, starts at a known
      time and lasts at most a day; the lease then waits for the time to be anchored. */
  lemma RestoreExactly(r: Record, deadlineMs: U64)
    ensures var restored := Restored(Some(r), deadlineMs);
            && (restored.Some? <==> !r.active || 0 < r.start < r.end <= r.start + 86400)
            && (restored.Some? ==>
                  restored.value == Lease(r.slot, r.binding, r.active, r.value, false, false, r.start, r.end, deadlineMs, NoReason))
    ensures Restored(None, deadlineMs).None?
  {
  }

  /** Seconds until the deadline, rounded up in 64 bits. */
  function SecondsLeft(deadlineMs: nat, monotonicMs: nat): nat
    requires monotonicMs <= deadlineMs
  {
    if deadlineMs - monotonicMs > U64_MAX - 999 then 0 else (deadlineMs - monotonicMs + 999) / 1000
  }

  /** What a tick does to a running lease with a deadline: nothing more than checking it while the
      time is unknown or within two seconds of the stored end; a real correction is written with an
      unchanged duration, and ends the lease when it cannot be represented or written. */
  lemma AnchoredTickExactly(io: Storage, w: World, utc: U64, monotonicMs: U64)
    requires w.lease.active && w.lease.anchored && Sound(w)
    ensures var l := w.lease;
            var after := Ticked(io, w, utc, monotonicMs);
            if monotonicMs >= l.deadlineMs then StoppedBecause(io, w, after, Expired)
            else if utc == 0 then after == w
            else
              var end := (utc + SecondsLeft(l.deadlineMs, monotonicMs)) % 0x1_0000_0000_0000_0000;
              var duration := l.endUtc - l.startUtc;
              if l.endUtc - 2 <= end <= l.endUtc + 2 then after == w
              else if end < duration then StoppedBecause(io, w, after, ClockInvalid)
              else if WriteSucceeds(io, w) then
                && after.lease == l.(startUtc := end - duration, endUtc := end)
                && WroteOrKept(io, w, after.disk, Record(true, l.slot, l.binding, l.value, end - duration, end))
              else
                var refused := w.(disk := w.disk.(writes := w.disk.writes + if io.configured then 1 else 0));
                StoppedBecause(io, refused, after, ClockInvalid)
  {
    if monotonicMs < w.lease.deadlineMs && utc != 0 {
      LeftInBits(w.lease.deadlineMs, monotonicMs);
    }
  }

  lemma LeftInBits(deadlineMs: U64, monotonicMs: U64)
    requires monotonicMs < deadlineMs
    ensures RemainingSeconds(deadlineMs, monotonicMs) == SecondsLeft(deadlineMs, monotonicMs)
  {
  }

  /** What a tick does to a restored lease: it waits for the time, ends the lease when the time is
      outside its period, and else sets the deadline to the seconds left, without writing; a
      deadline that does not fit the clock has passed. */
  lemma RestoredTickExactly(io: Storage, w: World, utc: U64, monotonicMs: U64)
    requires w.lease.active && !w.lease.anchored && Sound(w)
    ensures var l := w.lease;
            var after := Ticked(io, w, utc, monotonicMs);
            if utc == 0 then after == w
            else if utc < l.startUtc then StoppedBecause(io, w, after, ClockInvalid)
            else if utc >= l.endUtc then StoppedBecause(io, w, after, Expired)
            else
              var deadline := monotonicMs + 1000 * (l.endUtc - utc);
              var anchored := w.(lease := l.(anchored := true, deadlineMs := deadline % 0x1_0000_0000_0000_0000));
              if deadline <= U64_MAX then after == anchored else StoppedBecause(io, anchored, after, Expired)
  {
    if w.lease.startUtc <= utc < w.lease.endUtc && utc != 0 {
      var left := w.lease.endUtc - utc;
      WrappedDeadline(monotonicMs, left);
      if monotonicMs + 1000 * left <= U64_MAX {
        WholeSecondsRemain(monotonicMs + 1000 * left, monotonicMs, left);
      }
    }
  }

  lemma InactiveTickExactly(io: Storage, w: World, utc: U64, monotonicMs: U64)
    requires !w.lease.active
    ensures Ticked(io, w, utc, monotonicMs) == w
  {
  }

  // ----- arbitrary clock jumps within one boot -----

  datatype Clocks = Clocks(utc: U64, monotonicMs: U64)

  function TickAll(io: Storage, w: World, ticks: seq<Clocks>): World {
    if ticks == [] then w
    else Ticked(io, TickAll(io, w, ticks[..|ticks| - 1]), ticks[|ticks| - 1].utc, ticks[|ticks| - 1].monotonicMs)
  }

  ghost predicate Deadline(w: World, deadline: int, seconds: int) {
    w.lease.active ==>
      && w.lease.anchored && w.lease.deadlineMs == deadline
      && w.lease.endUtc - w.lease.startUtc == seconds
  }

  lemma TickKeepsDeadline(io: Storage, w: World, utc: U64, monotonicMs: U64, seconds: nat)
    requires Deadline(w, w.lease.deadlineMs, seconds) && 0 < seconds <= MAX_DURATION_SEC
    ensures var after := Ticked(io, w, utc, monotonicMs);
            && Deadline(after, w.lease.deadlineMs, seconds)
            && (monotonicMs >= w.lease.deadlineMs ==> !after.lease.active)
            && (after.lease.active && utc != 0 ==>
                  Distance(Wrap64(utc + RemainingSeconds(w.lease.deadlineMs, monotonicMs)), after.lease.endUtc) <= 2)
            && (after.lease.active ==> w.lease.active && after.lease.deadlineMs == w.lease.deadlineMs)
  {
  }

  lemma {:induction false} TicksKeepDeadline(io: Storage, w: World, ticks: seq<Clocks>, deadline: U64, seconds: nat)
    requires Deadline(w, deadline, seconds) && 0 < seconds <= MAX_DURATION_SEC
    ensures Deadline(TickAll(io, w, ticks), deadline, seconds)
    decreases |ticks|
  {
    if ticks != [] {
      var last := |ticks| - 1;
      TicksKeepDeadline(io, w, ticks[..last], deadline, seconds);
      var before := TickAll(io, w, ticks[..last]);
      if before.lease.active {
        TickKeepsDeadline(io, before, ticks[last].utc, ticks[last].monotonicMs, seconds);
      }
    }
  }

  /** However the UTC clock jumps and whatever flash does, a lease started for `seconds` ends
      at that monotonic delay, and while it runs a known clock keeps the stored end within two
      seconds of now plus the monotonic time left, with its length unchanged. */
  lemma JumpsCannotMoveTheLease(io: Storage, w: World, slot: Byte, binding: U32, value: bool, seconds: U32,
                                utc: U64, monotonicMs: U64, ticks: seq<Clocks>)
    requires Started(io, w, slot, binding, value, seconds, utc, monotonicMs).0
    requires monotonicMs + seconds * 1000 <= U64_MAX
    requires ticks != []
    ensures var after := TickAll(io, Started(io, w, slot, binding, value, seconds, utc, monotonicMs).1, ticks);
            var last := ticks[|ticks| - 1];
            && (last.monotonicMs >= monotonicMs + seconds * 1000 ==> !after.lease.active)
            && (after.lease.active ==> after.lease.endUtc - after.lease.startUtc == seconds)
            && (after.lease.active && last.utc != 0 ==>
                  var left := RemainingSeconds(monotonicMs + seconds * 1000, last.monotonicMs);
                  Distance(Wrap64(last.utc + left), after.lease.endUtc) <= 2)
  {
    var started := Started(io, w, slot, binding, value, seconds, utc, monotonicMs).1;
    var last := |ticks| - 1;
    TicksKeepDeadline(io, started, ticks[..last], monotonicMs + seconds * 1000, seconds);
    var before := TickAll(io, started, ticks[..last]);
    if before.lease.active {
      TickKeepsDeadline(io, before, ticks[last].utc, ticks[last].monotonicMs, seconds);
    }
  }

  // ----- one lease across power cuts, on a consistent clock -----

  /** What happens at a true time in milliseconds: a tick that may know the UTC time, a retry of
      a pending save, or a power cut with a reboot at once. */
  datatype Happening = Tick(time: nat, known: bool) | Retry(time: nat) | Cut(time: nat)

  /** The running system: its object and flash, and the true time of its boot. */
  datatype Live = Live(w: World, boot: nat)

  const HORIZON := 0x4000_0000_0000_0000

  /** The UTC clock shows whole seconds of true time; the monotonic clock counts from boot. */
  function UtcAt(time: nat, known: bool): U64
    requires time < HORIZON
  {
    if known then time / 1000 else 0
  }

  function Happen(io: Storage, s: Live, h: Happening): Live
    requires s.boot <= h.time < HORIZON
  {
    match h
    case Tick(time, known) => s.(w := Ticked(io, s.w, UtcAt(time, known), time - s.boot))
    case Retry(_) => s.(w := Flushed(io, s.w).1)
    case Cut(time) => Live(Booted(s.w.disk), time)
  }

  /** Happenings in the order of their times, from a given time on. */
  predicate Timed(from: nat, hs: seq<Happening>) {
    && (forall i: nat | i < |hs| :: from <= hs[i].time < HORIZON)
    && (forall i: nat, j: nat | i < j < |hs| :: hs[i].time <= hs[j].time)
  }

  function HappenAll(io: Storage, s: Live, hs: seq<Happening>): (r: Live)
    requires Timed(s.boot, hs)
    ensures r.boot <= if hs == [] then s.boot else hs[|hs| - 1].time
    decreases |hs|
  {
    if hs == [] then s else Happen(io, HappenAll(io, s, hs[..|hs| - 1]), hs[|hs| - 1])
  }

  /** A lease in memory runs from S to E, with its deadline in the second after E. */
  ghost predicate RunsUntil(s: Live, start: nat, end: nat) {
    && (s.w.lease.active ==>
          && !s.w.lease.dirty && s.w.lease.startUtc == start && s.w.lease.endUtc == end
          && (s.w.lease.anchored ==> 1000 * end <= s.w.lease.deadlineMs + s.boot < 1000 * end + 1000))
    && (Restored(s.w.disk.record, 0).Some? && Restored(s.w.disk.record, 0).value.active ==>
          var r := Restored(s.w.disk.record, 0).value; r.startUtc == start && r.endUtc == end)
  }

  lemma CancelKeepsPeriod(io: Storage, s: Live, reason: Reason, start: nat, end: nat)
    requires RunsUntil(s, start, end)
    ensures RunsUntil(s.(w := Cancelled(io, s.w, reason).1), start, end)
    ensures !Cancelled(io, s.w, reason).1.lease.active
  {
  }

  /** Now plus the seconds left until a deadline in the second after E is E or E + 1. */
  lemma RemainingReachesEnd(deadlineMs: U64, boot: nat, time: nat, end: nat)
    requires 1000 * end <= deadlineMs + boot < 1000 * end + 1000
    requires boot <= time < deadlineMs + boot < HORIZON
    ensures end <= time / 1000 + RemainingSeconds(deadlineMs, time - boot) <= end + 1
  {
    var left := deadlineMs + boot - time;
    assert RemainingSeconds(deadlineMs, time - boot) == (left + 999) / 1000;
  }

  lemma AnchoredTickOnTime(io: Storage, s: Live, time: nat, known: bool, start: nat, end: nat)
    requires RunsUntil(s, start, end) && s.w.lease.active && s.w.lease.anchored
    requires s.boot <= time < HORIZON && end < HORIZON / 2000
    ensures var after := AnchoredTick(io, s.w, UtcAt(time, known), time - s.boot);
            && RunsUntil(s.(w := after), start, end)
            && (time >= 1000 * end + 1000 ==> !after.lease.active)
            && (time < 1000 * end ==> after == s.w)
  {
    if time - s.boot >= s.w.lease.deadlineMs {
      CancelKeepsPeriod(io, s, Expired, start, end);
    } else {
      RemainingReachesEnd(s.w.lease.deadlineMs, s.boot, time, end);
      assert AnchoredTick(io, s.w, UtcAt(time, known), time - s.boot) == s.w;
    }
  }

  lemma TickOnTime(io: Storage, s: Live, time: nat, known: bool, start: nat, end: nat)
    requires RunsUntil(s, start, end)
    requires s.boot <= time < HORIZON && end < HORIZON / 2000
    ensures var after := Happen(io, s, Tick(time, known));
            && RunsUntil(after, start, end)
            && (known && time / 1000 >= end + 1 ==> !after.w.lease.active)
            && (start <= time / 1000 && time < 1000 * end && s.w.lease.active ==>
                  && after.w.lease.active && after.w.disk == s.w.disk
                  && after.w.lease.(anchored := s.w.lease.anchored, deadlineMs := s.w.lease.deadlineMs) == s.w.lease)
  {
    if s.w.lease.active {
      var utc := UtcAt(time, known);
      if s.w.lease.anchored {
        AnchoredTickOnTime(io, s, time, known, start, end);
      } else if utc == 0 {
      } else if utc < start {
        CancelKeepsPeriod(io, s, ClockInvalid, start, end);
      } else if utc >= end {
        CancelKeepsPeriod(io, s, Expired, start, end);
      } else {
        AnchoringOnTime(io, s, time, start, end);
      }
    }
  }

  lemma AnchoringOnTime(io: Storage, s: Live, time: nat, start: nat, end: nat)
    requires RunsUntil(s, start, end) && s.w.lease.active && !s.w.lease.anchored
    requires s.boot <= time < HORIZON && end < HORIZON / 2000
    requires start <= time / 1000 < end && time / 1000 != 0
    ensures var deadline := time - s.boot + (end - time / 1000) * 1000;
            && deadline <= U64_MAX
            && var anchored := s.w.(lease := s.w.lease.(deadlineMs := deadline, anchored := true));
            && Ticked(io, s.w, time / 1000, time - s.boot) == AnchoredTick(io, anchored, time / 1000, time - s.boot) == anchored
            && RunsUntil(s.(w := anchored), start, end)
  {
    var left := end - time / 1000;
    var deadline := time - s.boot + left * 1000;
    var anchored := s.w.(lease := s.w.lease.(deadlineMs := deadline, anchored := true));
    assert deadline + s.boot == 1000 * end + time % 1000;
    assert RunsUntil(s.(w := anchored), start, end);
    WholeSecondsRemain(deadline, time - s.boot, left);
    assert AnchoredTick(io, anchored, time / 1000, time - s.boot) == anchored;
  }

  /** Flash restores an active lease exactly while it runs or its cancellation is pending. */
  ghost predicate Saved(s: Live) {
    var l := s.w.lease;
    && !(l.active && l.dirty)
    && (Restored(s.w.disk.record, 0).Some? && Restored(s.w.disk.record, 0).value.active <==> l.active || l.dirty)
  }

  /** The lease runs until E: its period in memory and in flash, and what flash holds. */
  ghost predicate OnTime(s: Live, start: nat, end: nat) {
    RunsUntil(s, start, end) && Saved(s) && end < HORIZON / 2000
  }

  lemma CancelKeepsSaved(io: Storage, s: Live, reason: Reason)
    requires Saved(s)
    ensures Saved(s.(w := Cancelled(io, s.w, reason).1))
  {
  }

  lemma TickKeepsSaved(io: Storage, s: Live, time: nat, known: bool, start: nat, end: nat)
    requires OnTime(s, start, end) && s.boot <= time < HORIZON
    ensures Saved(Happen(io, s, Tick(time, known)))
  {
    if s.w.lease.active {
      var utc := UtcAt(time, known);
      if s.w.lease.anchored {
        if time - s.boot >= s.w.lease.deadlineMs {
          CancelKeepsSaved(io, s, Expired);
        } else {
          RemainingReachesEnd(s.w.lease.deadlineMs, s.boot, time, end);
        }
      } else if utc == 0 {
      } else if utc < start {
        CancelKeepsSaved(io, s, ClockInvalid);
      } else if utc >= end {
        CancelKeepsSaved(io, s, Expired);
      } else {
        AnchoringOnTime(io, s, time, start, end);
      }
    }
  }

  lemma HappensOnTime(io: Storage, s: Live, h: Happening, start: nat, end: nat)
    requires OnTime(s, start, end) && s.boot <= h.time < HORIZON
    ensures OnTime(Happen(io, s, h), start, end)
  {
    if h.Tick? {
      TickOnTime(io, s, h.time, h.known, start, end);
      TickKeepsSaved(io, s, h.time, h.known, start, end);
    }
  }

  lemma {:induction false} RunsOnTime(io: Storage, s: Live, hs: seq<Happening>, start: nat, end: nat)
    requires OnTime(s, start, end) && Timed(s.boot, hs)
    ensures OnTime(HappenAll(io, s, hs), start, end)
    decreases |hs|
  {
    if hs != [] {
      var last := |hs| - 1;
      RunsOnTime(io, s, hs[..last], start, end);
      HappensOnTime(io, HappenAll(io, s, hs[..last]), hs[last], start, end);
    }
  }

  /** The lease still runs and flash has not been written since `disk`. */
  ghost predicate Untouched(s: Live, lease: Lease, disk: Disk) {
    && s.w.disk == disk
    && s.w.lease.active
    && s.w.lease.(anchored := false, deadlineMs := 0, reason := NoReason)
       == lease.(anchored := false, deadlineMs := 0, reason := NoReason)
  }

  lemma {:induction false} UntouchedBeforeEnd(io: Storage, s: Live, hs: seq<Happening>, lease: Lease, start: nat, end: nat)
    requires OnTime(s, start, end) && Timed(s.boot, hs)
    requires Untouched(s, lease, s.w.disk) && Matches(lease, s.w.disk.record) && !lease.dirty
    requires forall i: nat | i < |hs| :: start <= hs[i].time / 1000 && hs[i].time < 1000 * end
    ensures Untouched(HappenAll(io, s, hs), lease, s.w.disk)
    decreases |hs|
  {
    if hs != [] {
      var last := |hs| - 1;
      UntouchedBeforeEnd(io, s, hs[..last], lease, start, end);
      RunsOnTime(io, s, hs[..last], start, end);
      if hs[last].Tick? {
        TickOnTime(io, HappenAll(io, s, hs[..last]), hs[last].time, hs[last].known, start, end);
      }
    }
  }

  /** A tick that knows the time, and one that knows it to be E + 1 or later. */
  predicate Knows(h: Happening) {
    h.Tick? && h.known
  }

  predicate Ends(h: Happening, end: nat) {
    Knows(h) && h.time / 1000 >= end + 1
  }

  /** The power cuts that happen while a cancellation is pending. */
  ghost function PendingCuts(io: Storage, s: Live, hs: seq<Happening>): set<nat>
    requires Timed(s.boot, hs)
  {
    set k: nat | k < |hs| && hs[k].Cut? && HappenAll(io, s, hs[..k]).w.lease.dirty
  }

  /** Cut `k`, and no tick before place `n` has known the time since. */
  predicate UnnoticedCut(hs: seq<Happening>, cuts: set<nat>, k: nat, n: nat)
    requires n <= |hs|
  {
    k in cuts && forall i: nat | k < i < n :: !Knows(hs[i])
  }

  ghost predicate Reactivated(hs: seq<Happening>, cuts: set<nat>, j: nat, n: nat)
    requires n <= |hs|
  {
    exists k: nat | j < k < n :: UnnoticedCut(hs, cuts, k, n)
  }

  /** One happening after the end: an active lease waits for the time and a known time stops it. */
  lemma HappensAfterEnd(io: Storage, s: Live, h: Happening, start: nat, end: nat)
    requires OnTime(s, start, end) && s.boot <= h.time < HORIZON && h.time / 1000 >= end + 1
    requires s.w.lease.active ==> !s.w.lease.anchored
    ensures var l := Happen(io, s, h).w.lease;
            && (l.active ==> !l.anchored)
            && (l.active <==> !Knows(h) && (s.w.lease.active || (h.Cut? && s.w.lease.dirty)))
  {
  }

  lemma EndsOnTime(io: Storage, s: Live, h: Happening, start: nat, end: nat)
    requires OnTime(s, start, end) && s.boot <= h.time < HORIZON && Ends(h, end)
    ensures !Happen(io, s, h).w.lease.active
  {
    TickOnTime(io, s, h.time, h.known, start, end);
  }

  /** After a tick that knows the time to be E + 1 or later the lease is active again exactly when
      the power was cut with a cancellation still pending and no tick has known the time since. */
  lemma {:induction false} ReactivatedExactly(io: Storage, s: Live, hs: seq<Happening>, j: nat, n: nat, start: nat, end: nat)
    requires OnTime(s, start, end) && Timed(s.boot, hs) && j < n <= |hs| && Ends(hs[j], end)
    ensures var l := HappenAll(io, s, hs[..n]).w.lease;
            (l.active ==> !l.anchored) && (l.active <==> Reactivated(hs, PendingCuts(io, s, hs), j, n))
    decreases n
  {
    if n == j + 1 {
      StoppedAt(io, s, hs, j, start, end);
    } else {
      ReactivatedExactly(io, s, hs, j, n - 1, start, end);
      ContinuesAfterEnd(io, s, hs, n - 1, start, end);
      ReactivatedGrows(hs, PendingCuts(io, s, hs), j, n - 1);
    }
  }

  lemma StoppedAt(io: Storage, s: Live, hs: seq<Happening>, j: nat, start: nat, end: nat)
    requires OnTime(s, start, end) && Timed(s.boot, hs) && j < |hs| && Ends(hs[j], end)
    ensures !HappenAll(io, s, hs[..j + 1]).w.lease.active
  {
    StateAfter(io, s, hs, j + 1);
    RunsOnTime(io, s, hs[..j], start, end);
    EndsOnTime(io, HappenAll(io, s, hs[..j]), hs[j], start, end);
  }

  lemma ContinuesAfterEnd(io: Storage, s: Live, hs: seq<Happening>, n: nat, start: nat, end: nat)
    requires OnTime(s, start, end) && Timed(s.boot, hs) && n < |hs| && hs[n].time / 1000 >= end + 1
    requires HappenAll(io, s, hs[..n]).w.lease.active ==> !HappenAll(io, s, hs[..n]).w.lease.anchored
    ensures var l, before := HappenAll(io, s, hs[..n + 1]).w.lease, HappenAll(io, s, hs[..n]).w.lease;
            && (l.active ==> !l.anchored)
            && (l.active <==> !Knows(hs[n]) && (before.active || (hs[n].Cut? && before.dirty)))
  {
    StateAfter(io, s, hs, n + 1);
    RunsOnTime(io, s, hs[..n], start, end);
    HappensAfterEnd(io, HappenAll(io, s, hs[..n]), hs[n], start, end);
  }

  lemma StateAfter(io: Storage, s: Live, hs: seq<Happening>, n: nat)
    requires Timed(s.boot, hs) && 0 < n <= |hs|
    ensures HappenAll(io, s, hs[..n - 1]).boot <= hs[n - 1].time < HORIZON
    ensures HappenAll(io, s, hs[..n]) == Happen(io, HappenAll(io, s, hs[..n - 1]), hs[n - 1])
  {
    assert hs[..n][..n - 1] == hs[..n - 1];
  }

  /** The condition, one happening further. */
  lemma ReactivatedGrows(hs: seq<Happening>, cuts: set<nat>, j: nat, n: nat)
    requires j < n < |hs|
    ensures Reactivated(hs, cuts, j, n + 1) <==> (!Knows(hs[n]) && Reactivated(hs, cuts, j, n)) || n in cuts
  {
    if Reactivated(hs, cuts, j, n + 1) {
      var k: nat :| j < k < n + 1 && UnnoticedCut(hs, cuts, k, n + 1);
      assert k < n ==> UnnoticedCut(hs, cuts, k, n);
    }
    if Reactivated(hs, cuts, j, n) && !Knows(hs[n]) {
      var k: nat :| j < k < n && UnnoticedCut(hs, cuts, k, n);
      assert UnnoticedCut(hs, cuts, k, n + 1);
    }
    if n in cuts {
      assert UnnoticedCut(hs, cuts, n, n + 1);
    }
  }

  /** A lease saved with end E on a consistent clock, over any ticks, retries and power cuts: before
      E it keeps running without writing flash; a tick that knows the time to be E + 1 or later
      stops it, and from then on it is active exactly when the power was cut with the cancellation
      still pending and no tick has known the time since. */
  lemma LeaseAcrossReboots(io: Storage, s: Live, slot: Byte, binding: U32, value: bool, seconds: U32,
                           time: nat, hs: seq<Happening>)
    requires s.boot <= time < HORIZON / 4000
    requires Started(io, s.w, slot, binding, value, seconds, time / 1000, time - s.boot).0
    requires Timed(time, hs)
    ensures var end := time / 1000 + seconds;
            var begun := s.(w := Started(io, s.w, slot, binding, value, seconds, time / 1000, time - s.boot).1);
            var after := HappenAll(io, begun, hs);
            && ((forall i: nat | i < |hs| :: hs[i].time < 1000 * end) ==> Untouched(after, begun.w.lease, begun.w.disk))
            && forall j: nat | j < |hs| && Ends(hs[j], end) ::
                 && !HappenAll(io, begun, hs[..j + 1]).w.lease.active
                 && (after.w.lease.active <==> Reactivated(hs, PendingCuts(io, begun, hs), j, |hs|))
  {
    var start, end := time / 1000, time / 1000 + seconds;
    var begun := s.(w := Started(io, s.w, slot, binding, value, seconds, start, time - s.boot).1);
    StartsOnTime(io, s, slot, binding, value, seconds, time);
    OnTimeAcrossReboots(io, begun, hs, start, end);
  }

  lemma StartsOnTime(io: Storage, s: Live, slot: Byte, binding: U32, value: bool, seconds: U32, time: nat)
    requires s.boot <= time < HORIZON / 4000
    requires Started(io, s.w, slot, binding, value, seconds, time / 1000, time - s.boot).0
    ensures var begun := s.(w := Started(io, s.w, slot, binding, value, seconds, time / 1000, time - s.boot).1);
            && OnTime(begun, time / 1000, time / 1000 + seconds)
            && Untouched(begun, begun.w.lease, begun.w.disk) && Matches(begun.w.lease, begun.w.disk.record)
            && !begun.w.lease.dirty
  {
  }

  lemma OnTimeAcrossReboots(io: Storage, s: Live, hs: seq<Happening>, start: nat, end: nat)
    requires OnTime(s, start, end) && Timed(s.boot, hs) && (forall i: nat | i < |hs| :: start <= hs[i].time / 1000)
    requires Untouched(s, s.w.lease, s.w.disk) && Matches(s.w.lease, s.w.disk.record) && !s.w.lease.dirty
    ensures var after := HappenAll(io, s, hs);
            && ((forall i: nat | i < |hs| :: hs[i].time < 1000 * end) ==> Untouched(after, s.w.lease, s.w.disk))
            && forall j: nat | j < |hs| && Ends(hs[j], end) ::
                 && !HappenAll(io, s, hs[..j + 1]).w.lease.active
                 && (after.w.lease.active <==> Reactivated(hs, PendingCuts(io, s, hs), j, |hs|))
  {
    if forall i: nat | i < |hs| :: hs[i].time < 1000 * end {
      UntouchedBeforeEnd(io, s, hs, s.w.lease, start, end);
    }
    forall j: nat | j < |hs| && Ends(hs[j], end)
      ensures !HappenAll(io, s, hs[..j + 1]).w.lease.active
      ensures HappenAll(io, s, hs).w.lease.active <==> Reactivated(hs, PendingCuts(io, s, hs), j, |hs|)
    {
      StoppedAt(io, s, hs, j, start, end);
      ReactivatedExactly(io, s, hs, j, |hs|, start, end);
      assert hs[..|hs|] == hs;
    }
  }

  /** A lease that is over with its cancellation in flash, whatever happens next, stays over. */
  lemma {:induction false} OverForGood(io: Storage, s: Live, hs: seq<Happening>)
    requires !s.w.lease.active && !s.w.lease.dirty && Saved(s) && Timed(s.boot, hs)
    ensures var after := HappenAll(io, s, hs);
            !after.w.lease.active && !after.w.lease.dirty && Saved(after) && after.w.disk == s.w.disk
    decreases |hs|
  {
    if hs != [] {
      OverForGood(io, s, hs[..|hs| - 1]);
    }
  }

  /** The condition is met: the lease has ended on time, its cancellation could not be written,
      the power is cut, and the lease is active again for as long as the time stays unknown. */
  lemma PendingStopIsForgotten()
    ensures var io := Storage(true, (n: nat) => n == 0);
            var begun := Live(Started(io, World(IDLE, Disk(None, 0)), 0, 3, true, 10, 1000, 1_000_000).1, 0);
            var hs := [Tick(1_011_000, true), Cut(1_012_000), Tick(2_000_000, false)];
            && Timed(begun.boot, hs)
            && !HappenAll(io, begun, hs[..1]).w.lease.active
            && HappenAll(io, begun, hs).w.lease.active
  {
    var io := Storage(true, (n: nat) => n == 0);
    var begun := Live(Started(io, World(IDLE, Disk(None, 0)), 0, 3, true, 10, 1000, 1_000_000).1, 0);
    var hs := [Tick(1_011_000, true), Cut(1_012_000), Tick(2_000_000, false)];
    var stopped := Happen(io, begun, hs[0]);
    var rebooted := Happen(io, stopped, hs[1]);
    assert stopped.w.lease.dirty && rebooted.w.lease.active && !rebooted.w.lease.anchored;
    assert hs[..1] == [hs[0]] && hs[..1][..0] == [];
    assert hs[..2][..1] == hs[..1] && hs[..2][1] == hs[1];
    assert hs[..|hs| - 1] == hs[..2];
    assert HappenAll(io, begun, hs[..1]) == stopped;
    assert HappenAll(io, begun, hs[..2]) == rebooted;
  }
}
