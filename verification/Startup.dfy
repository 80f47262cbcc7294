/** The non-blocking startup sequencer of src/Core/ModuleManager.cpp: modules are released in
    dependency order once their delay has elapsed. */
module Startup {
  import opened Wrappers
  import opened Bytes
  import opened InitOrder

  const MAX_MODULE_TASKS := 32

  /** What the modules and the scheduler answer during one tick. */
  datatype Environment = Environment(canStart: Byte -> bool, createsTask: (Byte, nat) -> bool)

  /** One call of a module's start hook: its place in the order and the elapsed time. */
  datatype StartCall = StartCall(place: nat, elapsedMs: U32)

  /** The sequencer's fields, and the start hooks called so far. */
  datatype Sequencer = Sequencer(started: Word, prepared: bool, active: bool, failed: bool, tasks: nat, calls: seq<StartCall>)

  const FRESH := Sequencer(NO_BITS, false, false, false, 0, [])

  // ----- one tick, as functions on a value -----

  ghost predicate StartedId(ordered: seq<Module>, started: Word, id: Byte)
    requires |ordered| <= WORD_BITS
  {
    exists i | 0 <= i < |ordered| :: ordered[i].id == id && started[i]
  }

  ghost predicate DependenciesStarted(ordered: seq<Module>, started: Word, m: Module)
    requires |ordered| <= WORD_BITS
  {
    forall d | d in m.dependencies && IsValidId(d) :: StartedId(ordered, started, d)
  }

  /** Creating the tasks of a module from number `t` on; how many entries exist afterwards. */
  function Launched(m: Module, env: Environment, t: nat, tasks: nat): (r: (bool, nat))
    decreases m.taskCount - t
  {
    if t >= m.taskCount then (true, tasks)
    else if m.tasks.None? || t >= |m.tasks.value| || !m.tasks.value[t] then (false, tasks)
    else if tasks >= MAX_MODULE_TASKS then (false, tasks)
    else if !env.createsTask(m.id, t) then (false, tasks)
    else Launched(m, env, t + 1, tasks + 1)
  }

  ghost function Released(ordered: seq<Module>, s: Sequencer, i: nat, elapsedMs: U32, env: Environment): (r: (bool, Sequencer))
    requires i < |ordered| <= WORD_BITS
  {
    if s.started[i] || !DependenciesStarted(ordered, s.started, ordered[i]) || !env.canStart(ordered[i].id) then (true, s)
    else
      var (ok, tasks) := Launched(ordered[i], env, 0, s.tasks);
      (ok, s.(tasks := tasks, calls := s.calls + [StartCall(i, elapsedMs)],
              started := if ok then s.started[i := true] else s.started))
  }

  datatype Pass = Pass(ok: bool, allStarted: bool, s: Sequencer)

  ghost function PassFrom(ordered: seq<Module>, s: Sequencer, i: nat, elapsedMs: U32, env: Environment): Pass
    requires i <= |ordered| <= WORD_BITS
    decreases |ordered| - i
  {
    if i == |ordered| then Pass(true, true, s)
    else if s.started[i] then PassFrom(ordered, s, i + 1, elapsedMs, env)
    else if elapsedMs < ordered[i].startDelayMs then PassFrom(ordered, s, i + 1, elapsedMs, env).(allStarted := false)
    else
      var (ok, next) := Released(ordered, s, i, elapsedMs, env);
      if !ok then Pass(false, false, next.(failed := true, active := false))
      else
        var rest := PassFrom(ordered, next, i + 1, elapsedMs, env);
        rest.(allStarted := rest.allStarted && next.started[i])
  }

  ghost function Ticked(ordered: seq<Module>, s: Sequencer, elapsedMs: U32, env: Environment): (r: (bool, Sequencer))
    requires |ordered| <= WORD_BITS
  {
    if !s.prepared then (true, s)
    else if s.failed then (false, s)
    else if !s.active then (true, s)
    else
      var pass := PassFrom(ordered, s, 0, elapsedMs, env);
      (pass.ok, if pass.ok && pass.allStarted then pass.s.(active := false) else pass.s)
  }

  predicate Complete(s: Sequencer) {
    s.prepared && !s.active && !s.failed
  }

  // ----- the object -----

  class Manager {
    const ordered: seq<Module>
    var startedMask: Word
    var prepared: bool
    var active: bool
    var failed: bool
    var epochMs: U32
    var taskEntryCount: nat
    ghost var calls: seq<StartCall>

    ghost predicate Valid()
      reads this
    {
      |ordered| <= MAX_MODULES && DistinctIds(ordered)
    }

    ghost function State(): Sequencer
      reads this
    {
      Sequencer(startedMask, prepared, active, failed, taskEntryCount, calls)
    }

    /** The sequencer as `initAll` prepares it. */
    constructor (ordered: seq<Module>, nowMs: U32)
      requires |ordered| <= MAX_MODULES && DistinctIds(ordered)
      ensures Valid() && this.ordered == ordered && epochMs == nowMs
      ensures State() == FRESH.(prepared := true, active := true)
    {
      this.ordered := ordered;
      startedMask, prepared, active, failed := NO_BITS, true, true, false;
      epochMs, taskEntryCount, calls := nowMs, 0, [];
    }

    method CheckStarted(m: Module) returns (all: bool)
      requires Valid()
      ensures all <==> DependenciesStarted(ordered, startedMask, m)
    {
      for d := 0 to |m.dependencies|
        invariant forall e | 0 <= e < d && IsValidId(m.dependencies[e]) :: StartedId(ordered, startedMask, m.dependencies[e])
      {
        var id := m.dependencies[d];
        if IsValidId(id) {
          var i := 0;
          while i < |ordered| && ordered[i].id != id
            invariant 0 <= i <= |ordered|
            invariant forall k | 0 <= k < i :: ordered[k].id != id
          {
            i := i + 1;
          }
          if i == |ordered| || !startedMask[i] {
            return false;
          }
        }
      }
      return true;
    }

    method CreateTasks(m: Module, env: Environment) returns (ok: bool)
      requires Valid()
      modifies `taskEntryCount
      ensures (ok, taskEntryCount) == Launched(m, env, 0, old(taskEntryCount))
    {
      if m.taskCount > 0 && m.tasks.None? {
        return false;
      }
      for t := 0 to m.taskCount
        invariant Launched(m, env, t, taskEntryCount) == Launched(m, env, 0, old(taskEntryCount))
      {
        if t >= |m.tasks.value| || !m.tasks.value[t] || taskEntryCount >= MAX_MODULE_TASKS {
          return false;
        }
        if !env.createsTask(m.id, t) {
          return false;
        }
        taskEntryCount := taskEntryCount + 1;
      }
      return true;
    }

    method StartModule(i: nat, elapsedMs: U32, env: Environment) returns (ok: bool)
      requires Valid() && i < |ordered|
      modifies `startedMask, `taskEntryCount, `calls
      ensures Valid()
      ensures (ok, State()) == Released(ordered, old(State()), i, elapsedMs, env)
    {
      if startedMask[i] {
        return true;
      }
      var ready := CheckStarted(ordered[i]);
      if !ready || !env.canStart(ordered[i].id) {
        return true;
      }
      calls := calls + [StartCall(i, elapsedMs)];
      ok := CreateTasks(ordered[i], env);
      if ok {
        startedMask := startedMask[i := true];
      }
    }

    method Tick(nowMs: U32, env: Environment) returns (ok: bool)
      requires Valid()
      modifies `startedMask, `active, `failed, `taskEntryCount, `calls
      ensures Valid()
      ensures (ok, State()) == Ticked(ordered, old(State()), (nowMs - epochMs) % 0x1_0000_0000, env)
    {
      if !prepared {
        return true;
      }
      if failed {
        return false;
      }
      if !active {
        return true;
      }
      var elapsedMs: U32 := (nowMs - epochMs) % 0x1_0000_0000;
      var allStarted := true;
      for i := 0 to |ordered|
        invariant Valid()
        invariant PassFrom(ordered, old(State()), 0, elapsedMs, env) ==
                  (var rest := PassFrom(ordered, State(), i, elapsedMs, env);
                   rest.(allStarted := rest.allStarted && allStarted))
      {
        if !startedMask[i] {
          if elapsedMs < ordered[i].startDelayMs {
            allStarted := false;
          } else {
            var started := StartModule(i, elapsedMs, env);
            if !started {
              failed, active := true, false;
              return false;
            }
            if !startedMask[i] {
              allStarted := false;
            }
          }
        }
      }
      if allStarted {
        active := false;
      }
      return true;
    }
  }

  // ----- what every run keeps -----

  ghost predicate Closed(ordered: seq<Module>, started: Word)
    requires |ordered| <= WORD_BITS
  {
    forall i | 0 <= i < |ordered| && started[i] :: DependenciesStarted(ordered, started, ordered[i])
  }

  lemma StartingKeepsClosure(ordered: seq<Module>, started: Word, i: nat)
    requires i < |ordered| <= WORD_BITS && Closed(ordered, started)
    requires DependenciesStarted(ordered, started, ordered[i])
    ensures Closed(ordered, started[i := true])
  {
    var next := started[i := true];
    forall k | 0 <= k < |ordered| && next[k]
      ensures DependenciesStarted(ordered, next, ordered[k])
    {
      assert DependenciesStarted(ordered, started, ordered[k]);
      forall d | d in ordered[k].dependencies && IsValidId(d)
        ensures StartedId(ordered, next, d)
      {
        var j :| 0 <= j < |ordered| && ordered[j].id == d && started[j];
        assert next[j];
      }
    }
  }

  ghost predicate CallsOnceInTime(ordered: seq<Module>, calls: seq<StartCall>) {
    && (forall k | 0 <= k < |calls| ::
          calls[k].place < |ordered| && calls[k].elapsedMs >= ordered[calls[k].place].startDelayMs)
    && (forall k, l | 0 <= k < l < |calls| :: calls[k].place != calls[l].place)
  }

  ghost predicate CallsStarted(ordered: seq<Module>, calls: seq<StartCall>, started: Word)
    requires |ordered| <= WORD_BITS
  {
    forall k | 0 <= k < |calls| :: calls[k].place < |ordered| && started[calls[k].place]
  }

  lemma CallingOnce(ordered: seq<Module>, calls: seq<StartCall>, started: Word, i: nat, elapsedMs: U32)
    requires i < |ordered| <= WORD_BITS && !started[i] && elapsedMs >= ordered[i].startDelayMs
    requires CallsOnceInTime(ordered, calls) && CallsStarted(ordered, calls, started)
    ensures CallsOnceInTime(ordered, calls + [StartCall(i, elapsedMs)])
    ensures CallsStarted(ordered, calls + [StartCall(i, elapsedMs)], started[i := true])
  {
  }

  /** Started modules are closed under dependencies; every start hook ran at most once and not
      before its delay; only a failure leaves a hook that ran unstarted; completion means all. */
  ghost predicate Orderly(ordered: seq<Module>, s: Sequencer)
    requires |ordered| <= WORD_BITS
  {
    && Closed(ordered, s.started)
    && CallsOnceInTime(ordered, s.calls)
    && (!s.failed ==> CallsStarted(ordered, s.calls, s.started))
    && (Complete(s) ==> forall i | 0 <= i < |ordered| :: s.started[i])
  }

  lemma ReleaseIsOrderly(ordered: seq<Module>, s: Sequencer, i: nat, elapsedMs: U32, env: Environment)
    requires i < |ordered| <= WORD_BITS
    requires Orderly(ordered, s) && s.active && !s.failed
    requires !s.started[i] && elapsedMs >= ordered[i].startDelayMs
    ensures var (ok, next) := Released(ordered, s, i, elapsedMs, env);
            && (ok ==> Orderly(ordered, next))
            && Orderly(ordered, next.(failed := !ok, active := ok))
            && next.active && !next.failed && next.prepared == s.prepared
            && (forall k | 0 <= k < |ordered| && s.started[k] :: next.started[k])
  {
    CallingOnce(ordered, s.calls, s.started, i, elapsedMs);
    if DependenciesStarted(ordered, s.started, ordered[i]) {
      StartingKeepsClosure(ordered, s.started, i);
    }
  }

  lemma {:induction false} PassIsOrderly(ordered: seq<Module>, s: Sequencer, i: nat, elapsedMs: U32, env: Environment)
    requires i <= |ordered| <= WORD_BITS
    requires Orderly(ordered, s) && s.active && !s.failed
    ensures var pass := PassFrom(ordered, s, i, elapsedMs, env);
            && Orderly(ordered, pass.s)
            && pass.s.prepared == s.prepared
            && (if pass.ok then pass.s.active && !pass.s.failed else pass.s.failed)
            && (forall k | 0 <= k < |ordered| && s.started[k] :: pass.s.started[k])
            && (pass.ok && pass.allStarted ==> forall k | i <= k < |ordered| :: pass.s.started[k])
    decreases |ordered| - i
  {
    if i == |ordered| {
    } else if s.started[i] || elapsedMs < ordered[i].startDelayMs {
      PassIsOrderly(ordered, s, i + 1, elapsedMs, env);
    } else {
      ReleaseIsOrderly(ordered, s, i, elapsedMs, env);
      var (ok, next) := Released(ordered, s, i, elapsedMs, env);
      if ok {
        PassIsOrderly(ordered, next, i + 1, elapsedMs, env);
      }
    }
  }

  lemma TickIsOrderly(ordered: seq<Module>, s: Sequencer, elapsedMs: U32, env: Environment)
    requires |ordered| <= WORD_BITS && Orderly(ordered, s)
    ensures Orderly(ordered, Ticked(ordered, s, elapsedMs, env).1)
    ensures forall i | 0 <= i < |ordered| && s.started[i] :: Ticked(ordered, s, elapsedMs, env).1.started[i]
  {
    if s.prepared && s.active && !s.failed {
      PassIsOrderly(ordered, s, 0, elapsedMs, env);
    }
  }

  datatype Instant = Instant(elapsedMs: U32, env: Environment)

  ghost function TickAll(ordered: seq<Module>, s: Sequencer, ticks: seq<Instant>): Sequencer
    requires |ordered| <= WORD_BITS
    decreases |ticks|
  {
    if ticks == [] then s
    else TickAll(ordered, Ticked(ordered, s, ticks[0].elapsedMs, ticks[0].env).1, ticks[1..])
  }

  /** Over any run, whatever the modules and the scheduler answer, startup stays orderly. */
  lemma {:induction false} RunIsOrderly(ordered: seq<Module>, s: Sequencer, ticks: seq<Instant>)
    requires |ordered| <= WORD_BITS && Orderly(ordered, s)
    ensures Orderly(ordered, TickAll(ordered, s, ticks))
    decreases |ticks|
  {
    if ticks != [] {
      TickIsOrderly(ordered, s, ticks[0].elapsedMs, ticks[0].env);
      RunIsOrderly(ordered, Ticked(ordered, s, ticks[0].elapsedMs, ticks[0].env).1, ticks[1..]);
    }
  }

  lemma StartsOrderly(ordered: seq<Module>)
    requires |ordered| <= WORD_BITS
    ensures Orderly(ordered, FRESH.(prepared := true, active := true))
  {
  }

  // ----- progress -----

  /** Tasks still to be created from place `i` on. */
  function PendingTasks(ordered: seq<Module>, started: Word, i: nat): nat
    requires i <= |ordered| <= WORD_BITS
    decreases |ordered| - i
  {
    if i == |ordered| then 0
    else (if started[i] then 0 else ordered[i].taskCount) + PendingTasks(ordered, started, i + 1)
  }

  /** Every task table is present and complete. */
  predicate GoodTasks(m: Module) {
    m.taskCount > 0 ==>
      m.tasks.Some? && |m.tasks.value| >= m.taskCount && forall t | 0 <= t < m.taskCount :: m.tasks.value[t]
  }

  ghost predicate Willing(ordered: seq<Module>, elapsedMs: U32, env: Environment) {
    forall i | 0 <= i < |ordered| ::
      && ordered[i].startDelayMs <= elapsedMs && GoodTasks(ordered[i]) && env.canStart(ordered[i].id)
      && forall t: nat | t < ordered[i].taskCount :: env.createsTask(ordered[i].id, t)
  }

  lemma {:induction false} GoodTasksLaunch(m: Module, env: Environment, t: nat, tasks: nat)
    requires GoodTasks(m) && t <= m.taskCount && tasks + (m.taskCount - t) <= MAX_MODULE_TASKS
    requires forall u: nat | u < m.taskCount :: env.createsTask(m.id, u)
    ensures Launched(m, env, t, tasks) == (true, tasks + (m.taskCount - t))
    decreases m.taskCount - t
  {
    if t < m.taskCount {
      GoodTasksLaunch(m, env, t + 1, tasks + 1);
    }
  }

  lemma {:induction false} PendingIgnoresEarlier(ordered: seq<Module>, a: Word, b: Word, i: nat)
    requires i <= |ordered| <= WORD_BITS
    requires forall k | i <= k < |ordered| :: a[k] == b[k]
    ensures PendingTasks(ordered, a, i) == PendingTasks(ordered, b, i)
    decreases |ordered| - i
  {
    if i < |ordered| {
      PendingIgnoresEarlier(ordered, a, b, i + 1);
    }
  }

  lemma EarlierStartedSuffice(ordered: seq<Module>, started: Word, i: nat)
    requires i < |ordered| <= WORD_BITS && DependenciesFirst(ordered)
    requires forall k | 0 <= k < i :: started[k]
    ensures DependenciesStarted(ordered, started, ordered[i])
  {
    assert DependenciesIn(ordered[i], ordered[..i]);
    forall d | d in ordered[i].dependencies && IsValidId(d)
      ensures StartedId(ordered, started, d)
    {
      var j :| 0 <= j < |ordered[..i]| && ordered[..i][j].id == d;
      assert ordered[j].id == d && started[j];
    }
  }

  lemma {:induction false} PassStartsAll(ordered: seq<Module>, s: Sequencer, i: nat, elapsedMs: U32, env: Environment)
    requires i <= |ordered| <= WORD_BITS && DependenciesFirst(ordered)
    requires Willing(ordered, elapsedMs, env)
    requires forall k | 0 <= k < i :: s.started[k]
    requires s.tasks + PendingTasks(ordered, s.started, i) <= MAX_MODULE_TASKS
    ensures var pass := PassFrom(ordered, s, i, elapsedMs, env);
            pass.ok && pass.allStarted && forall k | 0 <= k < |ordered| :: pass.s.started[k]
    decreases |ordered| - i
  {
    if i < |ordered| {
      if s.started[i] {
        PassStartsAll(ordered, s, i + 1, elapsedMs, env);
      } else {
        EarlierStartedSuffice(ordered, s.started, i);
        GoodTasksLaunch(ordered[i], env, 0, s.tasks);
        var next := Released(ordered, s, i, elapsedMs, env).1;
        PendingIgnoresEarlier(ordered, s.started, next.started, i + 1);
        PassStartsAll(ordered, next, i + 1, elapsedMs, env);
      }
    }
  }

  /** One tick after the largest delay, when every module may start and every task can be
      created, starts all remaining modules and completes the startup. */
  lemma LastTickCompletes(ordered: seq<Module>, modules: seq<Module>, s: Sequencer, elapsedMs: U32, env: Environment)
    requires |ordered| <= WORD_BITS && IsInitOrder(ordered, modules)
    requires Orderly(ordered, s) && s.prepared && s.active && !s.failed
    requires Willing(ordered, elapsedMs, env)
    requires s.tasks + PendingTasks(ordered, s.started, 0) <= MAX_MODULE_TASKS
    ensures var (ok, after) := Ticked(ordered, s, elapsedMs, env);
            ok && Complete(after) && forall k | 0 <= k < |ordered| :: after.started[k]
  {
    PassStartsAll(ordered, s, 0, elapsedMs, env);
    PassIsOrderly(ordered, s, 0, elapsedMs, env);
  }

  // ----- exact progress of one tick -----

  /** Everything needed to create the tasks of a module from number `t` on. */
  predicate TasksPossible(m: Module, env: Environment, t: nat, tasks: int) {
    t < m.taskCount ==>
      && m.tasks.Some? && |m.tasks.value| >= m.taskCount
      && (forall u: nat | t <= u < m.taskCount :: m.tasks.value[u] && env.createsTask(m.id, u))
      && tasks + (m.taskCount - t) <= MAX_MODULE_TASKS
  }

  /** A module's tasks are created exactly when all of them can be; then each has an entry. */
  lemma {:induction false} LaunchedExactly(m: Module, env: Environment, t: nat, tasks: nat)
    ensures var (ok, after) := Launched(m, env, t, tasks);
            && (ok <==> TasksPossible(m, env, t, tasks))
            && (ok ==> after == tasks + if t < m.taskCount then m.taskCount - t else 0)
    decreases m.taskCount - t
  {
    if t < m.taskCount {
      LaunchedExactly(m, env, t + 1, tasks + 1);
    }
  }

  /** A module that may be released: its delay has elapsed, its dependencies have started and it
      allows it. */
  ghost predicate Due(ordered: seq<Module>, started: Word, i: nat, elapsedMs: U32, env: Environment)
    requires i < |ordered| <= WORD_BITS
  {
    ordered[i].startDelayMs <= elapsedMs && DependenciesStarted(ordered, started, ordered[i]) && env.canStart(ordered[i].id)
  }

  /** In a dependency order, only earlier modules decide whether a module is due. */
  lemma EarlierDecide(ordered: seq<Module>, a: Word, b: Word, i: nat)
    requires i < |ordered| <= WORD_BITS && DependenciesFirst(ordered) && DistinctIds(ordered)
    requires forall k: nat | k < i :: a[k] == b[k]
    ensures DependenciesStarted(ordered, a, ordered[i]) <==> DependenciesStarted(ordered, b, ordered[i])
  {
    assert DependenciesIn(ordered[i], ordered[..i]);
    forall d | d in ordered[i].dependencies && IsValidId(d)
      ensures StartedId(ordered, a, d) <==> StartedId(ordered, b, d)
    {
      var j :| 0 <= j < |ordered[..i]| && ordered[..i][j].id == d;
      assert ordered[j].id == d && a[j] == b[j];
    }
  }

  /** The task entries in use once every module still to be started has its own. */
  function Entries(ordered: seq<Module>, s: Sequencer): nat
    requires |ordered| <= WORD_BITS
  {
    s.tasks + PendingTasks(ordered, s.started, 0)
  }

  lemma {:induction false} PendingDrops(ordered: seq<Module>, started: Word, i: nat, j: nat)
    requires j <= |ordered| <= WORD_BITS && i < |ordered| && !started[i]
    ensures PendingTasks(ordered, started, j)
              == PendingTasks(ordered, started[i := true], j) + if j <= i then ordered[i].taskCount else 0
    decreases |ordered| - j
  {
    if j < |ordered| {
      PendingDrops(ordered, started, i, j + 1);
    }
  }

  /** Module `k` was due, and its tasks could not all be created beside those of the modules
      started before it. */
  ghost predicate FailedAt(ordered: seq<Module>, entries: nat, after: Word, k: nat, elapsedMs: U32, env: Environment)
    requires k < |ordered| <= WORD_BITS
  {
    && !after[k] && Due(ordered, after, k, elapsedMs, env)
    && !TasksPossible(ordered[k], env, 0, entries - PendingTasks(ordered, after, 0))
  }

  /** What the pass from place `i` on leaves in the started set. */
  ghost predicate Progressed(ordered: seq<Module>, before: Word, i: nat, elapsedMs: U32, env: Environment, after: Word)
    requires i <= |ordered| <= WORD_BITS
  {
    && (forall k: nat | k < i :: after[k] == before[k])
    && (forall k: nat | i <= k < |ordered| :: after[k] <==> before[k] || Due(ordered, after, k, elapsedMs, env))
  }

  /** The hooks of the modules started by a pass have run. */
  ghost predicate Called(before: Sequencer, after: Sequencer, elapsedMs: U32) {
    before.calls <= after.calls
    && forall k: nat | k < WORD_BITS && after.started[k] && !before.started[k] :: StartCall(k, elapsedMs) in after.calls
  }

  lemma CalledFurther(s: Sequencer, next: Sequencer, after: Sequencer, elapsedMs: U32)
    requires Called(s, next, elapsedMs) && Called(next, after, elapsedMs)
    ensures Called(s, after, elapsedMs)
  {
    forall k: nat | k < WORD_BITS && after.started[k] && !s.started[k]
      ensures StartCall(k, elapsedMs) in after.calls
    {
      if next.started[k] {
        var at :| 0 <= at < |next.calls| && next.calls[at] == StartCall(k, elapsedMs);
        assert after.calls[at] == StartCall(k, elapsedMs);
      }
    }
  }

  lemma OneMoreProgressed(ordered: seq<Module>, before: Word, next: Word, i: nat, elapsedMs: U32, env: Environment, after: Word)
    requires i < |ordered| <= WORD_BITS && DependenciesFirst(ordered) && DistinctIds(ordered)
    requires next == before[i := before[i] || Due(ordered, before, i, elapsedMs, env)]
    requires Progressed(ordered, next, i + 1, elapsedMs, env, after)
    ensures Progressed(ordered, before, i, elapsedMs, env, after)
  {
    EarlierDecide(ordered, before, after, i);
    assert after[i] == next[i];
  }

  lemma {:induction false} PassProgresses(ordered: seq<Module>, s: Sequencer, i: nat, elapsedMs: U32, env: Environment)
    requires i <= |ordered| <= WORD_BITS && DependenciesFirst(ordered) && DistinctIds(ordered)
    ensures var pass := PassFrom(ordered, s, i, elapsedMs, env);
            && (forall k: nat | k < i :: pass.s.started[k] == s.started[k])
            && (pass.ok ==> Progressed(ordered, s.started, i, elapsedMs, env, pass.s.started))
    decreases |ordered| - i
  {
    if i < |ordered| {
      if s.started[i] || elapsedMs < ordered[i].startDelayMs {
        PassProgresses(ordered, s, i + 1, elapsedMs, env);
      } else {
        ReleaseProgresses(ordered, s, i, elapsedMs, env);
        var (ok, next) := Released(ordered, s, i, elapsedMs, env);
        if ok {
          PassProgresses(ordered, next, i + 1, elapsedMs, env);
          if PassFrom(ordered, next, i + 1, elapsedMs, env).ok {
            OneMoreProgressed(ordered, s.started, next.started, i, elapsedMs, env,
                              PassFrom(ordered, next, i + 1, elapsedMs, env).s.started);
          }
        }
      }
    }
  }

  lemma {:induction false} PassCalls(ordered: seq<Module>, s: Sequencer, i: nat, elapsedMs: U32, env: Environment)
    requires i <= |ordered| <= WORD_BITS
    ensures var pass := PassFrom(ordered, s, i, elapsedMs, env);
            Called(s, pass.s, elapsedMs)
    decreases |ordered| - i
  {
    if i < |ordered| {
      if s.started[i] || elapsedMs < ordered[i].startDelayMs {
        PassCalls(ordered, s, i + 1, elapsedMs, env);
      } else {
        ReleaseProgresses(ordered, s, i, elapsedMs, env);
        var (ok, next) := Released(ordered, s, i, elapsedMs, env);
        if ok {
          PassCalls(ordered, next, i + 1, elapsedMs, env);
          CalledFurther(s, next, PassFrom(ordered, next, i + 1, elapsedMs, env).s, elapsedMs);
        }
      }
    }
  }

  lemma {:induction false} PassAccounts(ordered: seq<Module>, s: Sequencer, i: nat, elapsedMs: U32, env: Environment)
    requires i <= |ordered| <= WORD_BITS
    ensures var pass := PassFrom(ordered, s, i, elapsedMs, env);
            && (pass.ok ==> Entries(ordered, pass.s) == Entries(ordered, s))
            && (!pass.ok ==> exists k: nat | i <= k < |ordered| ::
                  FailedAt(ordered, Entries(ordered, s), pass.s.started, k, elapsedMs, env))
    decreases |ordered| - i
  {
    if i < |ordered| {
      if s.started[i] || elapsedMs < ordered[i].startDelayMs {
        PassAccounts(ordered, s, i + 1, elapsedMs, env);
      } else {
        ReleaseProgresses(ordered, s, i, elapsedMs, env);
        var (ok, next) := Released(ordered, s, i, elapsedMs, env);
        if ok {
          PassAccounts(ordered, next, i + 1, elapsedMs, env);
        } else {
          assert FailedAt(ordered, Entries(ordered, s), next.started, i, elapsedMs, env);
        }
      }
    }
  }

  lemma {:induction false} PassCompletes(ordered: seq<Module>, s: Sequencer, i: nat, elapsedMs: U32, env: Environment)
    requires i <= |ordered| <= WORD_BITS
    ensures var pass := PassFrom(ordered, s, i, elapsedMs, env);
            && (forall k: nat | k < i :: pass.s.started[k] == s.started[k])
            && (pass.ok ==> pass.s.active == s.active)
            && (pass.ok ==> (pass.allStarted <==> forall k: nat | i <= k < |ordered| :: pass.s.started[k]))
    decreases |ordered| - i
  {
    if i < |ordered| {
      if s.started[i] || elapsedMs < ordered[i].startDelayMs {
        PassCompletes(ordered, s, i + 1, elapsedMs, env);
      } else {
        PassCompletes(ordered, Released(ordered, s, i, elapsedMs, env).1, i + 1, elapsedMs, env);
      }
    }
  }

  lemma ReleaseProgresses(ordered: seq<Module>, s: Sequencer, i: nat, elapsedMs: U32, env: Environment)
    requires i < |ordered| <= WORD_BITS && !s.started[i]
    ensures var (ok, next) := Released(ordered, s, i, elapsedMs, env);
            var due := DependenciesStarted(ordered, s.started, ordered[i]) && env.canStart(ordered[i].id);
            && (ok <==> !due || TasksPossible(ordered[i], env, 0, s.tasks))
            && next.started == (if ok && due then s.started[i := true] else s.started)
            && (ok ==> Entries(ordered, next) == Entries(ordered, s))
            && Called(s, next, elapsedMs)
  {
    LaunchedExactly(ordered[i], env, 0, s.tasks);
    PendingDrops(ordered, s.started, i, 0);
    var call := StartCall(i, elapsedMs);
    assert (s.calls + [call])[|s.calls|] == call;
  }

  /** After a tick that succeeds, a module is started exactly when it was before, or its own delay
      has elapsed, it allows it and its dependencies are started by now; the hooks of the newly
      started ones have run, and each has used up exactly its own task entries; startup stays
      active exactly while a module is not started. A tick fails only when the tasks of a module
      that was due could not be created. */
  lemma TickProgresses(ordered: seq<Module>, s: Sequencer, elapsedMs: U32, env: Environment)
    requires |ordered| <= WORD_BITS && DependenciesFirst(ordered) && DistinctIds(ordered)
    requires s.prepared && s.active && !s.failed
    ensures var (ok, after) := Ticked(ordered, s, elapsedMs, env);
            && (ok ==> forall i: nat | i < |ordered| ::
                  after.started[i] <==> s.started[i] || Due(ordered, after.started, i, elapsedMs, env))
            && (ok ==> Entries(ordered, after) == Entries(ordered, s))
            && (ok ==> (after.active <==> exists i: nat | i < |ordered| :: !after.started[i]))
            && Called(s, after, elapsedMs)
            && (!ok ==> exists i: nat | i < |ordered| ::
                  FailedAt(ordered, Entries(ordered, s), after.started, i, elapsedMs, env))
  {
    PassProgresses(ordered, s, 0, elapsedMs, env);
    PassCalls(ordered, s, 0, elapsedMs, env);
    PassAccounts(ordered, s, 0, elapsedMs, env);
    PassCompletes(ordered, s, 0, elapsedMs, env);
  }

  /** Outside an active startup a tick does nothing; it reports a failed startup for good. */
  lemma IdleTick(ordered: seq<Module>, s: Sequencer, elapsedMs: U32, env: Environment)
    requires |ordered| <= WORD_BITS && !(s.prepared && s.active && !s.failed)
    ensures Ticked(ordered, s, elapsedMs, env) == (!(s.prepared && s.failed), s)
  {
  }

  /** A module still waiting for its delay does not hold up the ones behind it. */
  lemma WaitingHoldsUpNobody(a: Module, b: Module, s: Sequencer, env: Environment)
    requires a == Module(1, [], 1500, 0, None) && b == Module(2, [], 0, 0, None)
    requires s == FRESH.(prepared := true, active := true) && env.canStart(1) && env.canStart(2)
    ensures var (ok, after) := Ticked([a, b], s, 0, env);
            ok && !after.started[0] && after.started[1] && after.active
  {
    var ordered := [a, b];
    assert DependenciesIn(a, ordered[..0]) && DependenciesIn(b, ordered[..1]);
    var next := Released(ordered, s, 1, 0, env).1;
    assert PassFrom(ordered, next, 2, 0, env) == Pass(true, true, next);
    assert PassFrom(ordered, s, 1, 0, env).s.started[1];
  }
}
