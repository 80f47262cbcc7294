/** Cumulative pulse counting: a 64-bit total fed by a driver's raw counter, restored at boot from
    the checkpoint blob. The rate estimate is left out. */
module PulseRuntime {
  import opened Wrappers
  import opened Bytes
  import opened PulseCheckpoint

  const RATE_WINDOW_MS := 1000

  datatype Runtime = Runtime(count: U64, previousRaw: U64, windowCount: U64, generation: U32, windowMs: U32,
                             initialized: bool, overflow: bool)

  function Restored(base: U64, epoch: U32, now: U32): Runtime {
    Runtime(base, 0, 0, epoch, now, true, false)
  }

  function Reset(raw: U64, epoch: U32, now: U32): Runtime {
    Restored(0, epoch, now).(previousRaw := raw)
  }

  function Wrap32(n: int): U32 {
    n % 0x1_0000_0000
  }

  /** One sample of the driver's counter, and whether the result is valid. */
  function Sampled(r: Runtime, raw: U64, now: U32): (Runtime, bool) {
    var s := if r.initialized then r else Restored(0, 0, now);
    if raw < s.previousRaw then
      (s.(generation := Wrap32(s.generation + 1), previousRaw := raw, windowCount := 0, windowMs := now), false)
    else
      var delta := raw - s.previousRaw;
      if U64_MAX - s.count < delta || U64_MAX - s.windowCount < delta then
        (s.(previousRaw := raw, overflow := true), false)
      else
        var t := s.(previousRaw := raw, count := s.count + delta, windowCount := s.windowCount + delta);
        (if Wrap32(now - t.windowMs) >= RATE_WINDOW_MS then t.(windowCount := 0, windowMs := now) else t, !s.overflow)
  }

  class Pulse {
    var count: U64
    var previousRaw: U64
    var windowCount: U64
    var generation: U32
    var windowMs: U32
    var initialized: bool
    var overflow: bool

    function Current(): Runtime
      reads this
    {
      Runtime(count, previousRaw, windowCount, generation, windowMs, initialized, overflow)
    }

    constructor ()
      ensures Current() == Runtime(0, 0, 0, 0, 0, false, false)
    {
      count, previousRaw, windowCount, generation, windowMs, initialized, overflow := 0, 0, 0, 0, 0, false, false;
    }

    method Restore(base: U64, epoch: U32, now: U32)
      modifies this
      ensures Current() == Restored(base, epoch, now)
    {
      previousRaw, windowCount, overflow := 0, 0, false;
      count, generation, windowMs, initialized := base, epoch, now, true;
    }

    method ResetTo(raw: U64, epoch: U32, now: U32)
      modifies this
      ensures Current() == Reset(raw, epoch, now)
    {
      Restore(0, epoch, now);
      previousRaw := raw;
    }

    method Sample(raw: U64, now: U32) returns (valid: bool)
      modifies this
      ensures (Current(), valid) == Sampled(old(Current()), raw, now)
    {
      if !initialized {
        Restore(0, 0, now);
      }
      if raw < previousRaw {
        generation := Wrap32(generation + 1);
        previousRaw := raw;
        windowCount := 0;
        windowMs := now;
        return false;
      }
      var delta := raw - previousRaw;
      previousRaw := raw;
      if U64_MAX - count < delta || U64_MAX - windowCount < delta {
        overflow := true;
        return false;
      }
      count := count + delta;
      windowCount := windowCount + delta;
      if Wrap32(now - windowMs) >= RATE_WINDOW_MS {
        windowCount := 0;
        windowMs := now;
      }
      valid := !overflow;
    }
  }

  // ----- one sample -----

  /** Kept by every operation; it makes the test on the window's own count redundant. */
  predicate Consistent(r: Runtime) {
    r.initialized && r.windowCount <= r.count
  }

  /** A sample adds exactly the raw increment unless the total would pass 2^64 - 1; then the
      increment is dropped and the counter is flagged. A raw counter that went back adds nothing. */
  lemma SampleAddsTheIncrement(r: Runtime, raw: U64, now: U32)
    requires Consistent(r)
    ensures var (t, valid) := Sampled(r, raw, now);
            var fits := raw < r.previousRaw || r.count + (raw - r.previousRaw) <= U64_MAX;
            && Consistent(t) && t.previousRaw == raw
            && t.count == (if raw >= r.previousRaw && fits then r.count + (raw - r.previousRaw) else r.count)
            && t.overflow == (r.overflow || !fits)
            && (valid <==> raw >= r.previousRaw && !t.overflow)
            && t.generation == (if raw < r.previousRaw then Wrap32(r.generation + 1) else r.generation)
  {
  }

  // ----- any sequence of samples -----

  datatype Reading = Reading(raw: U64, now: U32)

  function SampleAll(r: Runtime, readings: seq<Reading>): Runtime
    decreases |readings|
  {
    if readings == [] then r else SampleAll(Sampled(r, readings[0].raw, readings[0].now).0, readings[1..])
  }

  /** The sum of the raw counter's increments; a raw counter that goes back adds nothing. */
  function Increments(from: U64, readings: seq<Reading>): nat
    decreases |readings|
  {
    if readings == [] then 0
    else
      var raw := readings[0].raw;
      (if raw > from then raw - from else 0) + Increments(raw, readings[1..])
  }

  /** How often the raw counter goes back. */
  function Returns(from: U64, readings: seq<Reading>): nat
    decreases |readings|
  {
    if readings == [] then 0
    else (if readings[0].raw < from then 1 else 0) + Returns(readings[0].raw, readings[1..])
  }

  /** Whatever the driver reports, the total is the restored base and the positive raw increments
      until it overflows, and never more; it overflows exactly when these pass 2^64 - 1. */
  lemma {:induction false} SamplesAddIncrements(r: Runtime, readings: seq<Reading>)
    requires Consistent(r)
    ensures var t := SampleAll(r, readings);
            var sum := r.count + Increments(r.previousRaw, readings);
            && Consistent(t) && t.count <= sum
            && (t.overflow <==> r.overflow || sum > U64_MAX)
            && (sum <= U64_MAX ==> t.count == sum)
    decreases |readings|
  {
    if readings != [] {
      SampleAddsTheIncrement(r, readings[0].raw, readings[0].now);
      SamplesAddIncrements(Sampled(r, readings[0].raw, readings[0].now).0, readings[1..]);
    }
  }

  /** The generation counts how often the raw counter went back. */
  lemma {:induction false} GenerationCountsReturns(r: Runtime, readings: seq<Reading>)
    requires Consistent(r)
    ensures SampleAll(r, readings).generation == Wrap32(r.generation + Returns(r.previousRaw, readings))
    decreases |readings|
  {
    if readings != [] {
      SampleAddsTheIncrement(r, readings[0].raw, readings[0].now);
      GenerationCountsReturns(Sampled(r, readings[0].raw, readings[0].now).0, readings[1..]);
    }
  }

  // ----- counting across reboots, driver restarts and resets -----

  /** A counter in its surroundings. `truth` are the pulses since the reset that the running total
      counts from, and `unsampled` those after its last sample; `storedTruth` are the pulses since
      the reset that the checkpoint in flash counts from. The flash holds encoded bytes, for which
      `CheckpointReadsBack` lets the state stand; the counter's entry is the one at `slot`. */
  datatype World = World(truth: nat, unsampled: nat, raw: U64, runtime: Runtime, stored: State, storedTruth: nat)

  datatype Step =
    | Pulses(n: nat)
    | Sample(now: U32)
    | Checkpoint(written: bool)
    | Reboot(now: U32)
    | DriverRestart(raw: U64)
    | UserReset(now: U32)

  /** The state the checkpoint writes: the confirmed one with this counter's entry replaced. */
  function Pending(state: State, slot: nat, r: Runtime): State
    requires slot < CAPACITY
  {
    state[slot := Entry(r.count, r.generation, state[slot].resetToken)]
  }

  /** One step. A driver restart is one to a raw count no larger than before; an overflowed counter
      is not saved. */
  function Next(slot: nat, w: World, step: Step): World
    requires slot < CAPACITY
  {
    match step
    case Pulses(n) =>
      if w.raw + n > U64_MAX then w
      else
        w.(truth := w.truth + n, unsampled := w.unsampled + n, raw := w.raw + n, storedTruth := w.storedTruth + n)
    case Sample(now) => w.(runtime := Sampled(w.runtime, w.raw, now).0, unsampled := 0)
    case Checkpoint(written) =>
      if !written || w.runtime.overflow then w
      else w.(stored := Pending(w.stored, slot, w.runtime), storedTruth := w.truth)
    case Reboot(now) =>
      var e := w.stored[slot];
      w.(truth := w.storedTruth, unsampled := 0, raw := 0, runtime := Restored(e.count, e.generation, now))
    case DriverRestart(raw) => if raw > w.raw then w else w.(raw := raw)
    case UserReset(now) =>
      w.(truth := 0, unsampled := 0, runtime := Reset(w.raw, Wrap32(w.runtime.generation + 1), now))
  }

  function Run(slot: nat, w: World, steps: seq<Step>): World
    requires slot < CAPACITY
    decreases |steps|
  {
    if steps == [] then w else Run(slot, Next(slot, w, steps[0]), steps[1..])
  }

  /** Neither the running nor the stored total shows more pulses than there were, and the raw
      counter has advanced by no more than the pulses since the last sample. */
  predicate Bounded(slot: nat, w: World)
    requires slot < CAPACITY
  {
    && Consistent(w.runtime) && w.raw <= w.runtime.previousRaw + w.unsampled
    && w.runtime.count + w.unsampled <= w.truth
    && w.stored[slot].count <= w.storedTruth
  }

  /** The pulses the total will never show. */
  function Missed(w: World): int {
    w.truth - w.unsampled - w.runtime.count
  }

  /** What a checkpoint writes is what the next boot reads. */
  lemma CheckpointReadsBack(state: State)
    ensures Decoded(Encoded(state)) == Some(state)
  {
    DecodedIsEncoded(Encoded(state), state);
  }

  lemma NextStaysBounded(slot: nat, w: World, step: Step)
    requires slot < CAPACITY && Bounded(slot, w)
    ensures Bounded(slot, Next(slot, w, step))
  {
    match step
    case Pulses(n) =>
    case Sample(now) => SampleAddsTheIncrement(w.runtime, w.raw, now);
    case Checkpoint(written) =>
    case Reboot(now) =>
    case DriverRestart(raw) =>
    case UserReset(now) =>
  }

  /** Over every run of pulses, samples, checkpoints that may fail, reboots, driver restarts and
      resets, the pulses since the reset that the total counts from are the total, those not sampled
      yet and those missed, of which there are never fewer than none: nothing is counted twice. */
  lemma {:induction false} RunConserves(slot: nat, w: World, steps: seq<Step>)
    requires slot < CAPACITY && Bounded(slot, w)
    ensures var last := Run(slot, w, steps);
            Bounded(slot, last) && last.truth == last.runtime.count + last.unsampled + Missed(last) && Missed(last) >= 0
    decreases |steps|
  {
    if steps != [] {
      NextStaysBounded(slot, w, steps[0]);
      RunConserves(slot, Next(slot, w, steps[0]), steps[1..]);
    }
  }

  /** Nothing happened since the last sample but pulses. */
  predicate Level(w: World) {
    w.raw == w.runtime.previousRaw + w.unsampled
  }

  /** As long as fewer than 2^64 pulses have happened, no sample overflows, and it adds the raw
      increment. */
  lemma NoEarlyOverflow(slot: nat, w: World, now: U32)
    requires slot < CAPACITY && Bounded(slot, w) && w.truth <= U64_MAX && !w.runtime.overflow
    ensures var t := Next(slot, w, Sample(now)).runtime;
            var raw, from := w.raw, w.runtime.previousRaw;
            !t.overflow && t.count == w.runtime.count + if raw > from then raw - from else 0
  {
    SampleAddsTheIncrement(w.runtime, w.raw, now);
  }

  predicate Undisturbed(steps: seq<Step>) {
    forall k: nat | k < |steps| :: steps[k].Pulses? || steps[k].Sample? || steps[k].Checkpoint?
  }

  /** Within one boot and without driver restarts or resets no pulse is missed, as long as there
      are fewer than 2^64. */
  lemma {:induction false} RunCountsAll(slot: nat, w: World, steps: seq<Step>)
    requires slot < CAPACITY && Bounded(slot, w) && Level(w) && !w.runtime.overflow && Undisturbed(steps)
    requires Run(slot, w, steps).truth <= U64_MAX
    ensures var last := Run(slot, w, steps);
            Missed(last) == Missed(w) && Level(last) && !last.runtime.overflow && w.truth <= last.truth
    decreases |steps|
  {
    if steps != [] {
      var next := Next(slot, w, steps[0]);
      assert steps[0].Pulses? || steps[0].Sample? || steps[0].Checkpoint?;
      NextStaysBounded(slot, w, steps[0]);
      TruthGrows(slot, next, steps[1..]);
      if steps[0].Sample? {
        SampleAddsTheIncrement(w.runtime, w.raw, steps[0].now);
      }
      RunCountsAll(slot, next, steps[1..]);
    }
  }

  lemma {:induction false} TruthGrows(slot: nat, w: World, steps: seq<Step>)
    requires slot < CAPACITY && Undisturbed(steps)
    ensures w.truth <= Run(slot, w, steps).truth
    decreases |steps|
  {
    if steps != [] {
      assert steps[0].Pulses? || steps[0].Sample? || steps[0].Checkpoint?;
      TruthGrows(slot, Next(slot, w, steps[0]), steps[1..]);
    }
  }

  /** Steps after which the stored total is still the one of the last written checkpoint. */
  predicate Unsaved(steps: seq<Step>) {
    forall k: nat | k < |steps| :: steps[k] != Checkpoint(true)
  }

  lemma {:induction false} StoredStays(slot: nat, w: World, steps: seq<Step>)
    requires slot < CAPACITY && Unsaved(steps)
    ensures var last := Run(slot, w, steps);
            last.stored == w.stored && last.storedTruth >= w.storedTruth
    decreases |steps|
  {
    if steps != [] {
      assert steps[0] != Checkpoint(true);
      StoredStays(slot, Next(slot, w, steps[0]), steps[1..]);
    }
  }

  /** A reboot brings back the total of the last written checkpoint, whatever happened in between,
      driver restarts, resets and other reboots included; it misses what that total missed, the
      pulses not sampled then and those that came later, and no others. */
  lemma {:induction false} RebootMissesSinceCheckpoint(slot: nat, w: World, steps: seq<Step>, now: U32)
    requires slot < CAPACITY && Bounded(slot, w) && !w.runtime.overflow && Unsaved(steps)
    ensures var last := Run(slot, Next(slot, w, Checkpoint(true)), steps);
            var rebooted := Next(slot, last, Reboot(now));
            && rebooted.runtime.count == w.runtime.count && rebooted.runtime.generation == w.runtime.generation
            && rebooted.unsampled == 0 && !rebooted.runtime.overflow
            && Missed(rebooted) == Missed(w) + w.unsampled + (last.storedTruth - w.truth)
  {
    StoredStays(slot, Next(slot, w, Checkpoint(true)), steps);
  }

  /** A reset starts the total afresh under a new generation: only pulses after it are counted. */
  lemma ResetStartsAfresh(slot: nat, w: World, steps: seq<Step>, now: U32)
    requires slot < CAPACITY && Bounded(slot, w) && Undisturbed(steps)
    requires Run(slot, Next(slot, w, UserReset(now)), steps).truth <= U64_MAX
    ensures var last := Run(slot, Next(slot, w, UserReset(now)), steps);
            && last.runtime.count + last.unsampled == last.truth
            && Next(slot, w, UserReset(now)).runtime.generation == Wrap32(w.runtime.generation + 1)
  {
    var begun := Next(slot, w, UserReset(now));
    NextStaysBounded(slot, w, UserReset(now));
    RunCountsAll(slot, begun, steps);
  }

  /** A reset that was not saved before a reboot is undone by it. */
  lemma UnsavedResetIsUndone(slot: nat, w: World, now: U32)
    requires slot < CAPACITY && Bounded(slot, w) && !w.runtime.overflow
    ensures var saved := Next(slot, w, Checkpoint(true));
            var rebooted := Next(slot, Next(slot, saved, UserReset(now)), Reboot(now));
            rebooted.runtime.count == w.runtime.count && rebooted.truth == w.truth
  {
  }
}
