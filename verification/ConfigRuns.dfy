/** What the configuration store keeps over every run of sets, patches, saves and reboots. */
module ConfigRuns {
  import opened Wrappers
  import opened ConfigStore

  /** Preferences are attached and every persistent variable has a flash key of its own. */
  ghost predicate Keyed(c: Setup) {
    && c.attached && Sized(c)
    && (forall i: nat | i < |c.metas| && c.metas[i].persistent :: c.metas[i].nvsKey.Some?)
    && (forall i: nat, j: nat | i < j < |c.metas| && c.metas[i].persistent && c.metas[j].persistent ::
          c.metas[i].nvsKey != c.metas[j].nvsKey)
    && (forall i: nat | i < |c.metas| :: Typed(c.metas[i], c.metas[i].initial))
  }

  ghost predicate Sound(c: Setup, s: State) {
    Shaped(c, s) && forall i: nat | i < |c.metas| :: Typed(c.metas[i], Reloaded(c, s.nvs, i))
  }

  /** A reboot would find the RAM value. */
  predicate Agrees(c: Setup, s: State, i: nat)
    requires i < |c.metas| == |s.ram|
  {
    Reloaded(c, s.nvs, i) == s.ram[i]
  }

  predicate Tracked(c: Setup, s: State, i: nat)
    requires i < |c.metas| == |s.ram| == |s.pending|
  {
    c.metas[i].persistent ==> s.pending[i] || Agrees(c, s, i) || s.ram[i] == Text("")
  }

  /** Every persistent variable is flagged for another attempt, or a reboot finds its RAM value,
      or it is an empty text. */
  ghost predicate Tracks(c: Setup, s: State) {
    Keyed(c) && Sound(c, s) && forall i: nat | i < |c.metas| :: Tracked(c, s, i)
  }

  // ----- one write -----

  /** A flash write changes the stored copy of its own variable only. */
  lemma WrittenIsLocal(c: Setup, s: State, i: nat, k: nat)
    requires Keyed(c) && |s.ram| == |s.pending| == |c.metas| && i < |c.metas| && k < |c.metas|
    requires c.metas[i].persistent
    ensures var w := Written(c, s, i);
            && w.state.ram == s.ram && w.state.pending == s.pending
            && Reloaded(c, w.state.nvs, k) == (if k == i && c.saved(s.writes) then s.ram[i] else Reloaded(c, s.nvs, k))
            && (w.ok <==> c.saved(s.writes) || s.ram[i] == Text(""))
  {
    if k != i && c.metas[k].persistent {
      assert c.metas[i].nvsKey != c.metas[k].nvsKey;
    }
  }

  // ----- single operations -----

  /** What the commit of one variable does to variable `k`. */
  lemma CommittedAt(c: Setup, s: State, patch: Patch, i: nat, k: nat)
    requires Tracks(c, s) && i < |c.metas| && k < |c.metas|
    ensures var r := Committed(c, s, patch, i);
            && |r.state.ram| == |r.state.pending| == |c.metas|
            && Typed(c.metas[k], r.state.ram[k]) && Typed(c.metas[k], Reloaded(c, r.state.nvs, k))
            && Tracked(c, r.state, k)
            && r.state.ram[k] == (if k == i then Settled(c, patch, c.metas[i], s.ram[i]) else s.ram[k])
  {
    assert Tracked(c, s, k);
    var m := c.metas[i];
    if Addressed(patch, m) {
      var v := Settled(c, patch, m, s.ram[i]);
      var t := s.(ram := s.ram[i := v], pending := s.pending[i := s.pending[i] || (v != s.ram[i] && m.persistent)]);
      if m.persistent {
        WrittenIsLocal(c, t, i, k);
      }
    }
  }

  lemma CommittedKeeps(c: Setup, s: State, patch: Patch, i: nat)
    requires Tracks(c, s) && i < |c.metas|
    ensures Tracks(c, Committed(c, s, patch, i).state)
  {
    CommittedAt(c, s, patch, i, i);
    forall k: nat | k < |c.metas|
      ensures var r := Committed(c, s, patch, i);
              Typed(c.metas[k], r.state.ram[k]) && Typed(c.metas[k], Reloaded(c, r.state.nvs, k)) && Tracked(c, r.state, k)
    {
      CommittedAt(c, s, patch, i, k);
    }
  }

  lemma {:induction false} CommittedFromKeeps(c: Setup, s: State, patch: Patch, i: nat)
    requires Tracks(c, s) && i <= |c.metas|
    ensures Tracks(c, CommittedFrom(c, s, patch, i).state)
    decreases |c.metas| - i
  {
    if i < |c.metas| {
      CommittedKeeps(c, s, patch, i);
      var r := Committed(c, s, patch, i);
      if r.ok {
        CommittedFromKeeps(c, r.state, patch, i + 1);
      }
    }
  }

  lemma SetAt(c: Setup, s: State, i: nat, v: Value, k: nat)
    requires Tracks(c, s) && i < |c.metas| && k < |c.metas| && Typed(c.metas[i], v) && !v.Text?
    ensures var r := SetTo(c, s, i, v);
            && |r.state.ram| == |r.state.pending| == |c.metas|
            && Typed(c.metas[k], r.state.ram[k]) && Typed(c.metas[k], Reloaded(c, r.state.nvs, k))
            && Tracked(c, r.state, k)
            && r.state.ram[k] == (if r.ok && k == i then v else s.ram[k])
  {
    assert Tracked(c, s, k);
    if c.metas[i].persistent {
      WrittenIsLocal(c, s.(ram := s.ram[i := v]), i, k);
    }
  }

  /** A refused or failed `set` of a scalar leaves RAM and flash as they were. An accepted one holds
      the new value in RAM, and flash agrees exactly when the value changed or flash agreed before:
      an unchanged value is not written again. */
  lemma SetIsAllOrNothing(c: Setup, s: State, i: nat, v: Value)
    requires Tracks(c, s) && i < |c.metas| && Typed(c.metas[i], v) && !v.Text?
    ensures var r := SetTo(c, s, i, v);
            && Tracks(c, r.state)
            && (r.ok ==> r.state.ram == s.ram[i := v])
            && (r.ok && c.metas[i].persistent ==> (Agrees(c, r.state, i) <==> s.ram[i] != v || Agrees(c, s, i)))
            && r.state.pending == s.pending
            && (!r.ok ==> r.state.ram == s.ram && r.state.nvs == s.nvs && r.state.posted == s.posted)
  {
    var r := SetTo(c, s, i, v);
    forall k: nat | k < |c.metas|
      ensures Typed(c.metas[k], r.state.ram[k]) && Typed(c.metas[k], Reloaded(c, r.state.nvs, k)) && Tracked(c, r.state, k)
    {
      SetAt(c, s, i, v, k);
    }
    SetAt(c, s, i, v, i);
    if c.metas[i].persistent {
      WrittenIsLocal(c, s.(ram := s.ram[i := v]), i, i);
    }
  }

  /** The exception is reachable: after a patch whose write failed, setting the same value again is
      accepted while flash keeps the old one. */
  lemma SameValueIsNotWritten(c: Setup, s: State)
    requires c.metas == [Meta(Some("m"), Some("n"), Some("k"), Int32, true, None, 4, Whole(0))]
    requires c.validators == [] && c.attached && !c.saved(0)
    requires s == State([Whole(3)], [false], map["k" := Whole(3)], 0, [])
    ensures Tracks(c, s) && Agrees(c, s, 0)
    ensures var patched := Applied(c, s, [Section("m", Object([Field("n", Integer(5))]))]).state;
            && patched.ram == [Whole(5)]
            && var r := SetTo(c, patched, 0, Whole(5));
               r.ok && r.state == patched && Reloaded(c, r.state.nvs, 0) == Whole(3)
  {
    var patch := [Section("m", Object([Field("n", Integer(5))]))];
    assert Entry(patch, c.metas[0]) == Some(Integer(5));
    assert Settled(c, patch, c.metas[0], Whole(3)) == Whole(5);
    var r := Committed(c, s, patch, 0);
    assert !r.ok && r.state.ram == [Whole(5)];
  }

  lemma OneSaveKeeps(c: Setup, s: State, i: nat)
    requires Tracks(c, s) && i < |c.metas|
    ensures Tracks(c, Written(c, s, i).state)
  {
    var t := Written(c, s, i).state;
    forall k: nat | k < |c.metas|
      ensures Typed(c.metas[k], t.ram[k]) && Typed(c.metas[k], Reloaded(c, t.nvs, k)) && Tracked(c, t, k)
    {
      assert Tracked(c, s, k);
      if c.metas[i].persistent {
        WrittenIsLocal(c, s, i, k);
      }
    }
  }

  lemma {:induction false} SavedFromKeeps(c: Setup, s: State, i: nat)
    requires Tracks(c, s) && i <= |c.metas|
    ensures Tracks(c, SavedFrom(c, s, i))
    decreases |c.metas| - i
  {
    if i < |c.metas| {
      OneSaveKeeps(c, s, i);
      SavedFromKeeps(c, Written(c, s, i).state, i + 1);
    }
  }

  lemma BootedAgrees(c: Setup, s: State)
    requires Keyed(c) && forall i: nat | i < |c.metas| :: Typed(c.metas[i], Reloaded(c, s.nvs, i))
    ensures Tracks(c, Booted(c, s))
    ensures forall i: nat | i < |c.metas| :: Agrees(c, Booted(c, s), i) && !Booted(c, s).pending[i]
  {
    var t := Booted(c, s);
    forall i: nat | i < |c.metas|
      ensures Agrees(c, t, i) && Tracked(c, t, i)
    {
      assert t.ram[i] == Reloaded(c, s.nvs, i);
    }
  }

  /** Loading at any time keeps the invariant, and brings a stored value back to RAM. */
  lemma LoadedKeeps(c: Setup, s: State)
    requires Tracks(c, s)
    ensures Tracks(c, Loaded(c, s))
    ensures forall i: nat | i < |c.metas| && IsStored(c, s.nvs, i) :: Agrees(c, Loaded(c, s), i)
    ensures forall i: nat | i < |c.metas| && !IsStored(c, s.nvs, i) :: Loaded(c, s).ram[i] == s.ram[i]
    ensures Loaded(c, s) == s.(ram := Loaded(c, s).ram)
  {
    var t := Loaded(c, s);
    forall i: nat | i < |c.metas|
      ensures Typed(c.metas[i], t.ram[i]) && Tracked(c, t, i)
    {
      assert Tracked(c, s, i) && Typed(c.metas[i], Reloaded(c, s.nvs, i));
    }
  }

  // ----- every run -----

  datatype Step = SetVariable(i: nat, v: Value) | ApplyPatch(patch: Patch) | SaveAll | Load | Reboot

  /** One operation; a `set` that does not type-check in the source changes nothing. */
  ghost function Next(c: Setup, s: State, step: Step): State
    requires Tracks(c, s)
  {
    match step
    case SetVariable(i, v) =>
      if i < |c.metas| && Typed(c.metas[i], v) && !v.Text? then SetTo(c, s, i, v).state else s
    case ApplyPatch(patch) => Applied(c, s, patch).state
    case SaveAll => SavedFrom(c, s, 0)
    case Load => Loaded(c, s)
    case Reboot => Booted(c, s)
  }

  lemma NextKeeps(c: Setup, s: State, step: Step)
    requires Tracks(c, s)
    ensures Tracks(c, Next(c, s, step))
  {
    match step
    case SetVariable(i, v) =>
      if i < |c.metas| && Typed(c.metas[i], v) && !v.Text? {
        SetIsAllOrNothing(c, s, i, v);
      }
    case ApplyPatch(patch) => CommittedFromKeeps(c, s, patch, 0);
    case SaveAll => SavedFromKeeps(c, s, 0);
    case Load => LoadedKeeps(c, s);
    case Reboot => BootedAgrees(c, s);
  }

  ghost function Run(c: Setup, s: State, steps: seq<Step>): (t: State)
    requires Tracks(c, s)
    ensures Tracks(c, t)
    decreases |steps|
  {
    if steps == [] then s
    else
      NextKeeps(c, s, steps[0]);
      Run(c, Next(c, s, steps[0]), steps[1..])
  }

  /** Over any run from a boot, with any pattern of write failures, each persistent variable has
      its retry flag set, or reloading gives its RAM value, or it holds the empty text. */
  lemma RunTracks(c: Setup, flash: State, steps: seq<Step>)
    requires Keyed(c) && forall i: nat | i < |c.metas| :: Typed(c.metas[i], Reloaded(c, flash.nvs, i))
    ensures Tracks(c, Booted(c, flash))
    ensures var s := Run(c, Booted(c, flash), steps);
            forall i: nat | i < |c.metas| && c.metas[i].persistent ::
              s.pending[i] || Agrees(c, s, i) || (c.metas[i].kind == CharArray && s.ram[i] == Text(""))
  {
    BootedAgrees(c, flash);
    var s := Run(c, Booted(c, flash), steps);
    forall i: nat | i < |c.metas| && c.metas[i].persistent
      ensures s.pending[i] || Agrees(c, s, i) || (c.metas[i].kind == CharArray && s.ram[i] == Text(""))
    {
      assert Tracked(c, s, i) && Typed(c.metas[i], s.ram[i]);
    }
  }

  // ----- the exception: an empty text whose write failed -----

  /** An accepted commit clears the retry flag, and agreement is lost exactly when the committed
      value is the empty text, it had to be written, the write failed and another value is stored. */
  lemma CommitAgreesExactly(c: Setup, s: State, patch: Patch, i: nat)
    requires Tracks(c, s) && i < |c.metas| && c.metas[i].persistent && Addressed(patch, c.metas[i])
    requires Committed(c, s, patch, i).ok
    ensures var r := Committed(c, s, patch, i).state;
            var v := Settled(c, patch, c.metas[i], s.ram[i]);
            var writes := v != s.ram[i] || s.pending[i];
            && !r.pending[i]
            && (Agrees(c, r, i) <==>
                  if writes then c.saved(s.writes) || v != Text("") || Reloaded(c, s.nvs, i) == Text("")
                  else Agrees(c, s, i))
  {
    var m := c.metas[i];
    var v := Settled(c, patch, m, s.ram[i]);
    var t := s.(ram := s.ram[i := v], pending := s.pending[i := s.pending[i] || v != s.ram[i]]);
    WrittenIsLocal(c, t, i, i);
  }

  /** The source's promise fails here: a text variable stored as "a" is patched to the empty text,
      the flash refuses the write, and the patch is reported as applied with no retry flag. */
  lemma EmptyTextIsLost(c: Setup, s: State)
    requires c.metas == [Meta(Some("m"), Some("n"), Some("k"), CharArray, true, None, 8, Text(""))]
    requires c.validators == [] && c.attached && !c.saved(0)
    requires s == State([Text("a")], [false], map["k" := Text("a")], 0, [])
    ensures Tracks(c, s) && Agrees(c, s, 0)
    ensures var r := Applied(c, s, [Section("m", Object([Field("n", String(""))]))]);
            r.ok && r.state.ram == [Text("")] && r.state.pending == [false] && Reloaded(c, r.state.nvs, 0) == Text("a")
  {
    var patch := [Section("m", Object([Field("n", String(""))]))];
    assert Entry(patch, c.metas[0]) == Some(String(""));
    assert Settled(c, patch, c.metas[0], Text("a")) == Text("");
    var r := Committed(c, s, patch, 0);
    assert r.ok && r.state.ram == [Text("")] && r.state.pending == [false];
    assert CommittedFrom(c, r.state, patch, 1) == r;
  }

  // ----- commit of a whole patch -----

  lemma CommittedElsewhere(c: Setup, s: State, patch: Patch, i: nat, k: nat)
    requires Tracks(c, s) && i < |c.metas| && k < |c.metas| && k != i
    ensures var r := Committed(c, s, patch, i).state;
            && |r.ram| == |r.pending| == |c.metas|
            && r.ram[k] == s.ram[k] && r.pending[k] == s.pending[k] && Reloaded(c, r.nvs, k) == Reloaded(c, s.nvs, k)
  {
    var m := c.metas[i];
    if Addressed(patch, m) && m.persistent {
      var v := Settled(c, patch, m, s.ram[i]);
      var t := s.(ram := s.ram[i := v], pending := s.pending[i := s.pending[i] || v != s.ram[i]]);
      WrittenIsLocal(c, t, i, k);
    }
  }

  /** The commit loop settles the variables up to the one whose write failed, which keeps its
      retry flag, and does not touch the others. */
  lemma {:induction false} CommitStopsAt(c: Setup, s: State, patch: Patch, i: nat) returns (stop: nat)
    requires Tracks(c, s) && i <= |c.metas|
    ensures var r := CommittedFrom(c, s, patch, i);
            && |r.state.ram| == |r.state.pending| == |c.metas|
            && i <= stop <= |c.metas| && (r.ok <==> stop == |c.metas|)
            && (stop < |c.metas| ==> r.state.pending[stop] && c.metas[stop].persistent)
            && (forall k: nat | k < |c.metas| ::
                  r.state.ram[k] == if i <= k <= stop then Settled(c, patch, c.metas[k], s.ram[k]) else s.ram[k])
    decreases |c.metas| - i
  {
    if i == |c.metas| {
      return i;
    }
    var r := Committed(c, s, patch, i);
    forall k: nat | k < |c.metas|
      ensures r.state.ram[k] == if k == i then Settled(c, patch, c.metas[i], s.ram[i]) else s.ram[k]
    {
      CommittedAt(c, s, patch, i, k);
    }
    if !r.ok {
      return i;
    }
    CommittedKeeps(c, s, patch, i);
    stop := CommitStopsAt(c, r.state, patch, i + 1);
  }

  /** When a validator's `read` of a variable succeeds, the value it saw is the RAM value after the
      patch has been applied. */
  lemma SeenIsCommitted(c: Setup, s: State, patch: Patch, i: nat)
    requires Tracks(c, s) && i < |c.metas| && Applied(c, s, patch).ok
    requires Read(c, Patched(patch), s.ram, i).Some?
    ensures var after := Applied(c, s, patch).state.ram;
            |after| == |c.metas| && after[i] == Read(c, Patched(patch), s.ram, i).value
  {
    var _ := CommitStopsAt(c, s, patch, 0);
  }

  /** A patch cut short by a failing write shows the validators the same view again. */
  lemma ViewIsStable(c: Setup, s: State, patch: Patch)
    requires Tracks(c, s)
    ensures var r := CommittedFrom(c, s, patch, 0).state;
            |r.ram| == |c.metas| && ViewOf(c, Patched(patch), r.ram) == ViewOf(c, Patched(patch), s.ram)
  {
    var _ := CommitStopsAt(c, s, patch, 0);
    var r := CommittedFrom(c, s, patch, 0).state;
    forall k: nat | k < |c.metas|
      ensures Read(c, Patched(patch), r.ram, k) == Read(c, Patched(patch), s.ram, k)
    {
    }
    assert ViewOf(c, Patched(patch), r.ram).seen == ViewOf(c, Patched(patch), s.ram).seen;
  }

  // ----- retries -----

  /** An empty text that is not stored and not flagged for another attempt. */
  predicate Orphan(c: Setup, s: State, i: nat)
    requires i < |c.metas| == |s.ram| == |s.pending|
  {
    s.ram[i] == Text("") && !s.pending[i] && !Agrees(c, s, i)
  }

  ghost predicate AllSaved(c: Setup) {
    forall n: nat :: c.saved(n)
  }

  /** Once the flash accepts writes the commit loop runs to its end, and every variable the patch
      addresses ends up stored, except an orphan that stays empty. */
  lemma {:induction false} CommitsAll(c: Setup, s: State, patch: Patch, i: nat, k: nat)
    requires Tracks(c, s) && AllSaved(c) && i <= |c.metas| && k < |c.metas|
    requires c.metas[k].persistent && Addressed(patch, c.metas[k])
    ensures var r := CommittedFrom(c, s, patch, i);
            && r.ok && |r.state.ram| == |r.state.pending| == |c.metas|
            && (k < i ==> r.state.ram[k] == s.ram[k] && r.state.pending[k] == s.pending[k] &&
                          Reloaded(c, r.state.nvs, k) == Reloaded(c, s.nvs, k))
            && (k >= i ==> !r.state.pending[k] && (Agrees(c, r.state, k) <==> !(Orphan(c, s, k) && r.state.ram[k] == Text(""))))
    decreases |c.metas| - i
  {
    if i < |c.metas| {
      var r := Committed(c, s, patch, i);
      CommittedKeeps(c, s, patch, i);
      CommittedAt(c, s, patch, i, i);
      if k == i {
        CommitAgreesExactly(c, s, patch, i);
        assert Tracked(c, s, i);
      } else {
        CommittedElsewhere(c, s, patch, i, k);
      }
      CommitsAll(c, r.state, patch, i + 1, k);
    }
  }

  /** Applying again a patch that failed only on storage, once writes succeed (`d` is `c` with a
      working flash), reports success and leaves every addressed persistent variable stored, but
      for empty texts lost by the first attempt or before. */
  lemma RetryCompletes(c: Setup, d: Setup, s: State, patch: Patch, k: nat)
    requires Tracks(c, s) && d == c.(saved := d.saved) && AllSaved(d)
    requires TextsAccepted(c, patch) && Accepted(c, Patched(patch), s.ram) && !Applied(c, s, patch).ok
    requires k < |c.metas| && c.metas[k].persistent && Addressed(patch, c.metas[k])
    ensures var first := Applied(c, s, patch).state;
            && Tracks(d, first)
            && var again := Applied(d, first, patch);
               && again.ok && |again.state.ram| == |again.state.pending| == |d.metas|
               && !again.state.pending[k]
               && (Agrees(d, again.state, k) <==> !(Orphan(c, first, k) && again.state.ram[k] == Text("")))
  {
    var first := Applied(c, s, patch).state;
    CommittedFromKeeps(c, s, patch, 0);
    ViewIsStable(c, s, patch);
    assert Tracks(d, first) by {
      forall i: nat | i < |c.metas|
        ensures Typed(d.metas[i], Reloaded(d, first.nvs, i)) && Tracked(d, first, i)
      {
        assert Tracked(c, first, i) && Typed(c.metas[i], Reloaded(c, first.nvs, i));
      }
    }
    SameView(c, d, patch, s.ram, first.ram);
    CommitsAll(d, first, patch, 0, k);
  }

  lemma SameView(c: Setup, d: Setup, patch: Patch, before: seq<Value>, after: seq<Value>)
    requires d == c.(saved := d.saved) && |before| == |after| == |c.metas|
    requires ViewOf(c, Patched(patch), after) == ViewOf(c, Patched(patch), before)
    requires TextsAccepted(c, patch) && Accepted(c, Patched(patch), before)
    ensures TextsAccepted(d, patch) && Accepted(d, Patched(patch), after)
  {
    forall k: nat | k < |patch|
      ensures GroupAccepted(d, patch[k])
    {
      assert GroupAccepted(c, patch[k]);
      forall f: nat | patch[k].group.Object? && f < |patch[k].group.fields|
        ensures TextAccepted(d, patch[k].name, patch[k].group.fields[f])
      {
        assert TextAccepted(c, patch[k].name, patch[k].group.fields[f]);
      }
    }
    assert ViewOf(d, Patched(patch), after) == ViewOf(c, Patched(patch), after);
  }

  // ----- announcements -----

  /** The announcement a patch makes for one variable. */
  function AnnouncedAt(c: Setup, s: State, patch: Patch, i: nat): seq<nat>
    requires i < |c.metas| == |s.ram| == |s.pending| && (c.metas[i].kind.CharArray? ==> c.metas[i].size > 0)
  {
    var m := c.metas[i];
    if m.nvsKey.Some? && Addressed(patch, m) && (Settled(c, patch, m, s.ram[i]) != s.ram[i] || s.pending[i])
    then [i] else []
  }

  /** The variables a patch changes or writes again, in registration order. */
  ghost function Announced(c: Setup, s: State, patch: Patch, i: nat): seq<nat>
    requires Sized(c) && i <= |c.metas| == |s.ram| == |s.pending|
    decreases |c.metas| - i
  {
    if i == |c.metas| then [] else AnnouncedAt(c, s, patch, i) + Announced(c, s, patch, i + 1)
  }

  /** The same values and retry flags from place `i` on. */
  ghost predicate SameFrom(c: Setup, a: State, b: State, i: nat) {
    && |a.ram| == |a.pending| == |b.ram| == |b.pending| == |c.metas|
    && forall k: nat | i <= k < |c.metas| :: a.ram[k] == b.ram[k] && a.pending[k] == b.pending[k]
  }

  lemma AnnouncedStep(c: Setup, s0: State, s: State, patch: Patch, i: nat)
    requires Sized(c) && i < |c.metas| && SameFrom(c, s0, s, i) && Committed(c, s, patch, i).ok
    ensures Committed(c, s, patch, i).state.posted == s.posted + AnnouncedAt(c, s0, patch, i)
    ensures SameFrom(c, s0, Committed(c, s, patch, i).state, i + 1)
  {
    assert s0.ram[i] == s.ram[i] && s0.pending[i] == s.pending[i];
  }

  /** A patch that was applied announced exactly the variables it changed or wrote again, each
      once. */
  lemma {:induction false} AnnouncesExactly(c: Setup, s0: State, s: State, patch: Patch, i: nat)
    requires Sized(c) && i <= |c.metas| && SameFrom(c, s0, s, i)
    requires CommittedFrom(c, s, patch, i).ok
    ensures CommittedFrom(c, s, patch, i).state.posted == s.posted + Announced(c, s0, patch, i)
    decreases |c.metas| - i
  {
    if i < |c.metas| {
      AnnouncedStep(c, s0, s, patch, i);
      AnnouncesExactly(c, s0, Committed(c, s, patch, i).state, patch, i + 1);
    }
  }
}
