/** Module registration and dependency ordering of src/Core/ModuleManager.cpp. */
module InitOrder {
  import opened Wrappers
  import opened Bytes

  const MAX_MODULES := 32
  const MODULE_ID_COUNT := 36

  /** The declared part of a module: identity, dependencies, start delay and task
      specifications (each either complete or not; None when the table is missing). */
  datatype Module = Module(id: Byte, dependencies: seq<Byte>, startDelayMs: U32, taskCount: nat, tasks: Option<seq<bool>>)

  predicate IsValidId(id: Byte) {
    0 < id < MODULE_ID_COUNT
  }

  predicate DistinctIds(modules: seq<Module>) {
    forall i, j | 0 <= i < j < |modules| :: modules[i].id != modules[j].id
  }

  ghost predicate Registered(modules: seq<Module>, id: Byte) {
    exists i | 0 <= i < |modules| :: modules[i].id == id
  }

  // ----- the dependency graph -----

  /** Module `i` declares module `j` as a valid dependency. */
  ghost predicate DependsOn(modules: seq<Module>, i: nat, j: nat) {
    && i < |modules| && j < |modules|
    && IsValidId(modules[j].id)
    && modules[j].id in modules[i].dependencies
  }

  ghost predicate AllRegistered(modules: seq<Module>) {
    forall i, d | 0 <= i < |modules| && d in modules[i].dependencies && IsValidId(d) :: Registered(modules, d)
  }

  /** A path whose every module depends on the next. */
  ghost predicate Path(modules: seq<Module>, p: seq<nat>) {
    && (forall k | 0 <= k < |p| :: p[k] < |modules|)
    && (forall k | 0 <= k < |p| - 1 :: DependsOn(modules, p[k], p[k + 1]))
  }

  ghost predicate Cycle(modules: seq<Module>, p: seq<nat>) {
    |p| > 1 && Path(modules, p) && p[0] == p[|p| - 1]
  }

  ghost predicate Acyclic(modules: seq<Module>) {
    forall p :: !Cycle(modules, p)
  }

  ghost predicate Resolvable(modules: seq<Module>) {
    AllRegistered(modules) && Acyclic(modules)
  }

  /** Every valid dependency of `m` is among the identities of `earlier`. */
  ghost predicate DependenciesIn(m: Module, earlier: seq<Module>) {
    forall d | d in m.dependencies && IsValidId(d) :: Registered(earlier, d)
  }

  ghost predicate DependenciesFirst(ordered: seq<Module>) {
    forall k | 0 <= k < |ordered| :: DependenciesIn(ordered[k], ordered[..k])
  }

  /** A permutation of the modules with every dependency before its dependents. */
  ghost predicate IsInitOrder(ordered: seq<Module>, modules: seq<Module>) {
    && |ordered| == |modules|
    && (forall m :: m in ordered <==> m in modules)
    && DistinctIds(ordered)
    && DependenciesFirst(ordered)
  }

  // ----- graph lemmas -----

  /** Where a module stands in an order. */
  ghost function Place(ordered: seq<Module>, m: Module): (k: nat)
    requires m in ordered
    ensures k < |ordered| && ordered[k] == m
  {
    if ordered[0] == m then 0 else 1 + Place(ordered[1..], m)
  }

  lemma DependencyIsEarlier(ordered: seq<Module>, modules: seq<Module>, i: nat, j: nat)
    requires DistinctIds(modules) && IsInitOrder(ordered, modules) && DependsOn(modules, i, j)
    ensures modules[i] in ordered && modules[j] in ordered
    ensures Place(ordered, modules[j]) < Place(ordered, modules[i])
  {
    var k := Place(ordered, modules[i]);
    assert DependenciesIn(ordered[k], ordered[..k]);
    var l :| 0 <= l < |ordered[..k]| && ordered[..k][l].id == modules[j].id;
    assert ordered[l] in modules;
    assert ordered[l] == modules[j];
    var m := Place(ordered, modules[j]);
    assert m == l;
  }

  lemma {:induction false} PathDescends(ordered: seq<Module>, modules: seq<Module>, p: seq<nat>)
    requires DistinctIds(modules) && IsInitOrder(ordered, modules)
    requires |p| > 1 && Path(modules, p)
    ensures modules[p[0]] in ordered && modules[p[|p| - 1]] in ordered
    ensures Place(ordered, modules[p[|p| - 1]]) < Place(ordered, modules[p[0]])
    decreases |p|
  {
    DependencyIsEarlier(ordered, modules, p[0], p[1]);
    if |p| > 2 {
      PathDescends(ordered, modules, p[1..]);
    }
  }

  /** An order exists only for a resolvable graph. */
  lemma OrderedIsResolvable(ordered: seq<Module>, modules: seq<Module>)
    requires DistinctIds(modules) && IsInitOrder(ordered, modules)
    ensures Resolvable(modules)
  {
    forall p | Cycle(modules, p)
      ensures false
    {
      PathDescends(ordered, modules, p);
    }
    forall i, d | 0 <= i < |modules| && d in modules[i].dependencies && IsValidId(d)
      ensures Registered(modules, d)
    {
      assert modules[i] in ordered;
      var k := Place(ordered, modules[i]);
      assert DependenciesIn(ordered[k], ordered[..k]);
      var l :| 0 <= l < |ordered[..k]| && ordered[..k][l].id == d;
      assert ordered[l] in modules;
    }
  }

  ghost predicate DependsWithin(modules: seq<Module>, s: set<nat>, i: nat) {
    i < |modules| && exists j | j in s :: DependsOn(modules, i, j)
  }

  /** A set of modules each of which depends on some member. */
  ghost predicate Stuck(modules: seq<Module>, s: set<nat>) {
    s != {} && forall i {:trigger DependsWithin(modules, s, i)} | i in s :: DependsWithin(modules, s, i)
  }

  lemma PathFrom(modules: seq<Module>, start: nat, more: seq<nat>)
    requires more != [] && Path(modules, more) && DependsOn(modules, start, more[0])
    ensures Path(modules, [start] + more)
  {
    var p := [start] + more;
    forall k | 0 <= k < |p| - 1
      ensures DependsOn(modules, p[k], p[k + 1])
    {
      if k > 0 {
        assert p[k] == more[k - 1] && p[k + 1] == more[k - 1 + 1];
      }
    }
  }

  lemma PathSlice(modules: seq<Module>, p: seq<nat>, a: nat, b: nat)
    requires a <= b < |p| && Path(modules, p)
    ensures Path(modules, p[a..b + 1])
  {
    var c := p[a..b + 1];
    forall k | 0 <= k < |c| - 1
      ensures DependsOn(modules, c[k], c[k + 1])
    {
      assert c[k] == p[a + k] && c[k + 1] == p[a + k + 1];
    }
  }

  lemma {:induction false} StuckPath(modules: seq<Module>, s: set<nat>, start: nat, n: nat) returns (p: seq<nat>)
    requires Stuck(modules, s) && start in s
    ensures |p| == n + 1 && p[0] == start && Path(modules, p)
    decreases n
  {
    if n == 0 {
      return [start];
    }
    assert DependsWithin(modules, s, start);
    var next :| next in s && DependsOn(modules, start, next);
    var more := StuckPath(modules, s, next, n - 1);
    PathFrom(modules, start, more);
    p := [start] + more;
  }

  /** More places than values: two places hold the same value. */
  lemma {:induction false} Pigeonhole(p: seq<nat>, n: nat) returns (a: nat, b: nat)
    requires |p| > n && forall k | 0 <= k < |p| :: p[k] < n
    ensures a < b < |p| && p[a] == p[b]
    decreases n
  {
    var last := |p| - 1;
    if k :| 0 <= k < last && p[k] == p[last] {
      return k, last;
    }
    // Without the last place, move the top value into the gap it leaves.
    var q := seq(last, k requires 0 <= k < last => if p[k] == n - 1 then p[last] else p[k]);
    a, b := Pigeonhole(q, n - 1);
  }

  lemma StuckHasCycle(modules: seq<Module>, s: set<nat>)
    requires Stuck(modules, s)
    ensures !Acyclic(modules)
  {
    var start :| start in s;
    var p := StuckPath(modules, s, start, |modules|);
    var a, b := Pigeonhole(p, |modules|);
    PathSlice(modules, p, a, b);
    assert Cycle(modules, p[a..b + 1]);
  }

  /** A module with a valid dependency that is registered but not ordered yet. */
  ghost predicate Waits(modules: seq<Module>, ordered: seq<Module>, m: Module) {
    exists j | 0 <= j < |modules| ::
      modules[j] !in ordered && IsValidId(modules[j].id) && modules[j].id in m.dependencies
  }

  /** Among the first `n` modules, those not ordered yet all wait. */
  ghost predicate AllWait(modules: seq<Module>, ordered: seq<Module>, n: nat)
    requires n <= |modules|
  {
    forall k {:trigger Waits(modules, ordered, modules[k])} | 0 <= k < n && modules[k] !in ordered ::
      Waits(modules, ordered, modules[k])
  }

  /** Which modules are placed, and what has been ordered so far. */
  ghost predicate Placed(modules: seq<Module>, ordered: seq<Module>, placed: seq<bool>) {
    && |placed| == |modules|
    && (forall i | 0 <= i < |modules| :: placed[i] <==> modules[i] in ordered)
    && (forall m | m in ordered :: m in modules)
    && DistinctIds(ordered) && DependenciesFirst(ordered)
  }

  // ----- registration and ordering -----

  class Registry {
    var modules: seq<Module>
    var modulesById: map<Byte, Module>
    var ordered: seq<Module>

    ghost predicate Valid()
      reads this
    {
      && |modules| <= MAX_MODULES
      && DistinctIds(modules)
      && (forall i | 0 <= i < |modules| :: IsValidId(modules[i].id))
      && (forall i | 0 <= i < |modules| :: modules[i].id in modulesById && modulesById[modules[i].id] == modules[i])
      && (forall id | id in modulesById :: Registered(modules, id))
    }

    constructor ()
      ensures Valid() && modules == [] && ordered == []
    {
      modules, modulesById, ordered := [], map[], [];
    }

    method Add(m: Option<Module>) returns (ok: bool)
      requires Valid()
      modifies `modules, `modulesById
      ensures Valid()
      ensures ok <==> && m.Some? && IsValidId(m.value.id) && |old(modules)| < MAX_MODULES
                      && !Registered(old(modules), m.value.id)
      ensures modules == if ok then old(modules) + [m.value] else old(modules)
    {
      if m.None? || !IsValidId(m.value.id) || |modules| >= MAX_MODULES {
        return false;
      }
      var found := FindById(m.value.id);
      if found.Some? {
        return false;
      }
      forall i | 0 <= i < |modules|
        ensures modules[i].id != m.value.id
      {
      }
      ghost var before := modules;
      modules := modules + [m.value];
      modulesById := modulesById[m.value.id := m.value];
      forall id | id in modulesById
        ensures Registered(modules, id)
      {
        if id == m.value.id {
          assert modules[|before|].id == id;
        } else {
          var i :| 0 <= i < |before| && before[i].id == id;
          assert modules[i].id == id;
        }
      }
      return true;
    }

    method FindById(id: Byte) returns (m: Option<Module>)
      requires Valid()
      ensures m.Some? <==> Registered(modules, id)
      ensures m.Some? ==> m.value in modules && m.value.id == id
    {
      if !IsValidId(id) || id !in modulesById {
        return None;
      }
      m := Some(modulesById[id]);
      var i :| 0 <= i < |modules| && modules[i].id == id;
      assert modules[i] == modulesById[id];
    }

    ghost predicate Placing(placed: array<bool>)
      reads this, placed
    {
      Placed(modules, ordered, placed[..])
    }

    /** Whether the dependencies of a module are placed; a missing one ends the ordering. */
    method CheckDependencies(m: Module, placed: array<bool>) returns (missing: bool, placeable: bool)
      requires Valid() && Placing(placed) && m in modules
      ensures missing ==> !AllRegistered(modules)
      ensures !missing ==> (placeable <==> DependenciesIn(m, ordered))
      ensures !missing && !placeable ==> Waits(modules, ordered, m)
    {
      for d := 0 to |m.dependencies|
        invariant forall e | 0 <= e < d && IsValidId(m.dependencies[e]) :: Registered(ordered, m.dependencies[e])
      {
        var id := m.dependencies[d];
        if IsValidId(id) {
          var dependency := FindById(id);
          if dependency.None? {
            return true, false;
          }
          var isPlaced := false;
          var j := 0;
          while j < |modules| && modules[j] != dependency.value
            invariant 0 <= j <= |modules|
            invariant forall k | 0 <= k < j :: modules[k] != dependency.value
          {
            j := j + 1;
          }
          if j < |modules| {
            isPlaced := placed[j];
          }
          if !isPlaced {
            NotPlaced(modules, ordered, j);
            return false, false;
          }
          assert modules[j] in ordered;
          var k := Place(ordered, modules[j]);
          assert ordered[k].id == id;
        }
      }
      return false, true;
    }

    method PlaceModule(i: nat, placed: array<bool>)
      requires Valid() && Placing(placed) && i < |modules|
      requires !placed[i] && DependenciesIn(modules[i], ordered)
      modifies `ordered, placed
      ensures Valid() && Placing(placed) && ordered == old(ordered) + [modules[i]]
    {
      PlaceNext(modules, ordered, placed[..], i);
      ordered := ordered + [modules[i]];
      placed[i] := true;
      assert placed[..] == old(placed[..])[i := true];
    }

    /** One pass over the modules: places every module whose dependencies are placed. */
    method PlacingPass(placed: array<bool>) returns (missing: bool, progress: bool)
      requires Valid() && Placing(placed)
      modifies `ordered, placed
      ensures Valid()
      ensures missing ==> !AllRegistered(modules)
      ensures !missing ==> Placing(placed) && |ordered| >= |old(ordered)|
      ensures !missing ==> (progress <==> |ordered| > |old(ordered)|)
      ensures !missing && !progress ==> AllWait(modules, ordered, |modules|)
    {
      missing, progress := false, false;
      for i := 0 to |modules|
        invariant Placing(placed)
        invariant |ordered| >= |old(ordered)| && (progress <==> |ordered| > |old(ordered)|)
        invariant !progress ==> AllWait(modules, ordered, i)
      {
        if !placed[i] {
          var placeable;
          missing, placeable := CheckDependencies(modules[i], placed);
          if missing {
            return;
          }
          if placeable {
            PlaceModule(i, placed);
            progress := true;
          }
        }
      }
    }

    method BuildInitOrder() returns (ok: bool)
      requires Valid()
      modifies `ordered
      ensures Valid()
      ensures ok <==> Resolvable(modules)
      ensures ok ==> IsInitOrder(ordered, modules)
    {
      var placed := new bool[|modules|](_ => false);
      ordered := [];
      for pass := 0 to |modules|
        invariant Placing(placed)
        invariant pass <= |ordered| <= |modules| && (pass > 0 ==> |ordered| < |modules|)
      {
        var missing, progress := PlacingPass(placed);
        if missing {
          return false;
        }
        AllPlacedWhenFull(modules, ordered);
        if |ordered| == |modules| {
          OrderedIsResolvable(ordered, modules);
          return true;
        }
        if !progress {
          UnplacedAreStuck(modules, ordered);
          return false;
        }
      }
      AllPlacedWhenFull(modules, ordered);
      OrderedIsResolvable(ordered, modules);
      return true;
    }
  }

  lemma NotPlaced(modules: seq<Module>, ordered: seq<Module>, j: nat)
    requires j < |modules| && DistinctIds(modules) && modules[j] !in ordered
    requires forall m | m in ordered :: m in modules
    ensures !Registered(ordered, modules[j].id)
  {
    forall k | 0 <= k < |ordered|
      ensures ordered[k].id != modules[j].id
    {
      assert ordered[k] in modules;
      var l :| 0 <= l < |modules| && modules[l] == ordered[k];
    }
  }

  lemma PlaceNext(modules: seq<Module>, ordered: seq<Module>, placed: seq<bool>, i: nat)
    requires DistinctIds(modules) && Placed(modules, ordered, placed)
    requires i < |modules| && !placed[i] && DependenciesIn(modules[i], ordered)
    ensures Placed(modules, ordered + [modules[i]], placed[i := true])
  {
    var next := ordered + [modules[i]];
    NotPlaced(modules, ordered, i);
    OrderGrows(ordered, modules[i]);
    forall j | 0 <= j < |modules|
      ensures placed[i := true][j] <==> modules[j] in next
    {
      assert modules[j] in next <==> modules[j] in ordered || modules[j] == modules[i];
    }
  }

  lemma OrderGrows(ordered: seq<Module>, m: Module)
    requires DistinctIds(ordered) && DependenciesFirst(ordered)
    requires !Registered(ordered, m.id) && DependenciesIn(m, ordered)
    ensures DistinctIds(ordered + [m]) && DependenciesFirst(ordered + [m])
  {
    var next := ordered + [m];
    forall k | 0 <= k < |next|
      ensures DependenciesIn(next[k], next[..k])
    {
      if k < |ordered| {
        assert next[..k] == ordered[..k];
        assert DependenciesIn(ordered[k], ordered[..k]);
      } else {
        assert next[..k] == ordered;
      }
    }
  }

  ghost function Elements(s: seq<Module>): set<Module> {
    set m | m in s
  }

  lemma {:induction false} DistinctCardinality(s: seq<Module>)
    requires DistinctIds(s)
    ensures |Elements(s)| == |s|
  {
    if s != [] {
      var rest := s[..|s| - 1];
      DistinctCardinality(rest);
      assert Elements(s) == Elements(rest) + {s[|s| - 1]};
    }
  }

  lemma SubsetOfSameSize(a: set<Module>, b: set<Module>)
    requires a <= b && |a| == |b|
    ensures a == b
  {
    assert b == a + (b - a);
    assert |b| == |a| + |b - a|;
  }

  lemma AllPlacedWhenFull(modules: seq<Module>, ordered: seq<Module>)
    requires DistinctIds(modules) && DistinctIds(ordered)
    requires forall m | m in ordered :: m in modules
    ensures |ordered| <= |modules|
    ensures |ordered| == |modules| ==> forall m :: m in ordered <==> m in modules
  {
    DistinctCardinality(modules);
    DistinctCardinality(ordered);
    assert Elements(ordered) <= Elements(modules);
    assert |Elements(ordered)| <= |Elements(modules)| by {
      assert Elements(modules) == Elements(ordered) + (Elements(modules) - Elements(ordered));
    }
    if |ordered| == |modules| {
      SubsetOfSameSize(Elements(ordered), Elements(modules));
      forall m
        ensures m in ordered <==> m in modules
      {
        assert m in ordered <==> m in Elements(ordered);
      }
    }
  }

  lemma UnplacedAreStuck(modules: seq<Module>, ordered: seq<Module>)
    requires DistinctIds(modules) && DistinctIds(ordered) && |ordered| < |modules|
    requires AllWait(modules, ordered, |modules|)
    ensures !Acyclic(modules)
  {
    var k := SomeUnplaced(modules, ordered);
    var s := set i: nat | i < |modules| && modules[i] !in ordered;
    assert k in s;
    forall i | i in s
      ensures DependsWithin(modules, s, i)
    {
      assert Waits(modules, ordered, modules[i]);
      var j :| 0 <= j < |modules| && modules[j] !in ordered && IsValidId(modules[j].id)
               && modules[j].id in modules[i].dependencies;
      assert j in s && DependsOn(modules, i, j);
    }
    StuckHasCycle(modules, s);
  }

  lemma SomeUnplaced(modules: seq<Module>, ordered: seq<Module>) returns (k: nat)
    requires DistinctIds(modules) && DistinctIds(ordered) && |ordered| < |modules|
    ensures k < |modules| && modules[k] !in ordered
  {
    DistinctCardinality(modules);
    DistinctCardinality(ordered);
    if Elements(modules) <= Elements(ordered) {
      SubsetCardinality(Elements(modules), Elements(ordered));
    }
    var m :| m in Elements(modules) && m !in Elements(ordered);
    k :| 0 <= k < |modules| && modules[k] == m;
  }

  lemma SubsetCardinality(a: set<Module>, b: set<Module>)
    requires a <= b
    ensures |a| <= |b|
  {
    assert b == a + (b - a);
  }
}
