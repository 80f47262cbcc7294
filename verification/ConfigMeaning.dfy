/** What a JSON patch says about a variable, what its values become, and what one `set` or commit
    does, field by field. */
module ConfigMeaning {
  import opened Wrappers
  import opened Numerals
  import opened ConfigStore
  import opened ConfigRuns

  // ----- texts as numbers -----

  function Distance(x: int, y: int): nat {
    if x <= y then y - x else x - y
  }

  /** No value within the bounds is nearer to `n` than `v`. */
  ghost predicate Nearest(v: int, n: int, low: int, high: int) {
    low <= v <= high && forall x | low <= x <= high :: Distance(v, n) <= Distance(x, n)
  }

  predicate IsBlank(c: char) {
    c in [' ', '\t', '\n', '\r', 11 as char, 12 as char]
  }

  predicate IsSign(c: char) {
    c == '+' || c == '-'
  }

  ghost predicate AllDigits(s: string) {
    forall i: nat | i < |s| :: IsDigit(s[i])
  }

  ghost predicate AllBlanks(s: string) {
    forall i: nat | i < |s| :: IsBlank(s[i])
  }

  lemma {:induction false} DigitsRead(before: string, digits: string, rest: string)
    requires AllDigits(digits) && (rest == "" || !IsDigit(rest[0]))
    ensures Digits(digits + rest, Natural(before)) == Natural(before + digits)
    decreases |digits|
  {
    if digits == "" {
      assert digits + rest == rest && before + digits == before;
    } else {
      var longer := before + [digits[0]];
      assert (digits + rest)[1..] == digits[1..] + rest && before + digits == longer + digits[1..];
      assert longer[..|longer| - 1] == before;
      assert IsDigit(digits[0]);
      DigitsAgree(digits[0]);
      DigitsRead(longer, digits[1..], rest);
    }
  }

  lemma {:induction false} BlanksSkipped(blanks: string, t: string)
    requires AllBlanks(blanks) && (t == "" || !IsBlank(t[0]))
    ensures SkipBlanks(blanks + t) == t
  {
    if blanks == "" {
      assert blanks + t == t;
    } else {
      assert IsBlank(blanks[0]) && (blanks + t)[1..] == blanks[1..] + t;
      BlanksSkipped(blanks[1..], t);
    }
  }

  /** Text as a number: leading blanks, an optional sign, a row of digits; what follows is ignored
      and a number out of range becomes the nearest bound. No digits are 0. */
  lemma StrtolReads(blanks: string, sign: string, digits: string, rest: string)
    requires AllBlanks(blanks) && (sign == "" || sign == "+" || sign == "-") && AllDigits(digits)
    requires rest == "" || !IsDigit(rest[0])
    requires digits == "" && sign == "" ==> rest == "" || (!IsBlank(rest[0]) && !IsSign(rest[0]))
    ensures var n: int := if sign == "-" then -(Natural(digits) as int) else Natural(digits);
            Nearest(Strtol(blanks + (sign + (digits + rest))), n, INT32_MIN, INT32_MAX)
  {
    var t := sign + (digits + rest);
    assert digits != "" ==> IsDigit(digits[0]) && (digits + rest)[0] == digits[0];
    assert digits == "" ==> digits + rest == rest;
    assert sign == "" ==> t == digits + rest;
    BlanksSkipped(blanks, t);
    assert Natural("") == 0;
    DigitsRead("", digits, rest);
    assert "" + digits == digits;
    if sign != "" {
      assert t[1..] == digits + rest;
    }
  }

  // ----- what a JSON value becomes -----

  /** A whole number keeps its value where it fits. Otherwise a bounded variable takes its nearest
      bound, a signed one reads an unsigned word as its two's complement, and anything wider than
      a word is not taken. Real variables take it as that real, flags as whether it is not zero. */
  lemma IntegerBecomes(c: Setup, m: Meta, n: int)
    requires m.kind.CharArray? ==> m.size > 0
    ensures var v := Converted(c, m, Integer(n));
            match m.kind
            case Int32 => v == if INT32_MIN <= n <= INT32_MAX then Some(Whole(n))
                               else if 0 <= n <= UINT32_MAX then Some(Whole(n - 0x1_0000_0000)) else None
            case UInt16 =>
              if INT32_MIN <= n <= UINT32_MAX then v.Some? && v.value.Whole? && Nearest(v.value.n, n, 0, 0xFFFF) else v == None
            case UInt8 =>
              if INT32_MIN <= n <= INT32_MAX then v.Some? && v.value.Whole? && Nearest(v.value.n, n, 0, 0xFF) else v == None
            case Bool => v == Some(Truth(n != 0))
            case Float => v == Some(Number(n as real))
            case Double => v == Some(Number(n as real))
            case CharArray => v == None
  {
  }

  /** A text is read as a number, as `true` or `1`, or cut to the longest prefix that fits. */
  lemma TextBecomes(c: Setup, m: Meta, t: string)
    requires m.kind.CharArray? ==> m.size > 0
    ensures var v := Converted(c, m, String(t));
            && v.Some?
            && match m.kind
               case Int32 => v.value == Whole(Strtol(t))
               case UInt16 => v.value.Whole? && Nearest(v.value.n, Strtol(t), 0, 0xFFFF)
               case UInt8 => v.value.Whole? && Nearest(v.value.n, Strtol(t), 0, 0xFF)
               case Bool => v.value == Truth(t == "true" || t == "1")
               case Float => v.value == Number(c.atof(t))
               case Double => v.value == Number(c.atof(t))
               case CharArray =>
                 v.value.Text? && v.value.t <= t && |v.value.t| < m.size && (v.value.t == t || |v.value.t| == m.size - 1)
  {
  }

  /** The other values: a real number becomes a real or a flag, a flag becomes a flag, and nothing
      else is taken. */
  lemma OtherBecomes(c: Setup, m: Meta, j: Json)
    requires (m.kind.CharArray? ==> m.size > 0) && !j.Integer? && !j.String?
    ensures Converted(c, m, j) ==
              if j.Decimal? && (m.kind.Float? || m.kind.Double?) then Some(Number(j.r))
              else if j.Decimal? && m.kind.Bool? then Some(Truth(j.r != 0.0))
              else if j.Flag? && m.kind.Bool? then Some(Truth(j.b))
              else None
  {
  }

  /** A validator reads a JSON value exactly when it has the variable's own type and range, and then
      as that value: whole numbers, flags and texts as they are, any number for a real variable. */
  lemma ExactReads(m: Meta, j: Json, v: Value)
    ensures Exact(m.kind, j) == Some(v) <==>
              || (j.Integer? && v == Whole(j.n) && Typed(m, v))
              || (j.Flag? && v == Truth(j.b) && m.kind.Bool?)
              || (j.String? && v == Text(j.t) && m.kind.CharArray?)
              || ((m.kind.Float? || m.kind.Double?) && j.Integer? && v == Number(j.n as real))
              || ((m.kind.Float? || m.kind.Double?) && j.Decimal? && v == Number(j.r))
  {
  }

  // ----- what a patch says about a variable -----

  /** Field `f` of section `p`, the first of their names, holds `j`. */
  ghost predicate Says(patch: Patch, owner: string, name: string, p: nat, f: nat, j: Json) {
    && p < |patch| && patch[p].name == owner && (forall q: nat | q < p :: patch[q].name != owner)
    && patch[p].group.Object?
    && var fields := patch[p].group.fields;
       f < |fields| && fields[f].name == name && fields[f].value == j && forall g: nat | g < f :: fields[g].name != name
  }

  lemma {:induction false} FieldIsFirst(fields: seq<Field>, name: string) returns (f: nat)
    ensures f <= |fields| && forall g: nat | g < f :: fields[g].name != name
    ensures FieldNamed(fields, name) == if f < |fields| then Some(fields[f].value) else None
    ensures f < |fields| ==> fields[f].name == name
  {
    if fields == [] || fields[0].name == name {
      f := 0;
    } else {
      f := FieldIsFirst(fields[1..], name);
      f := f + 1;
    }
  }

  lemma {:induction false} GroupIsFirst(patch: Patch, name: string) returns (p: nat)
    ensures p <= |patch| && forall q: nat | q < p :: patch[q].name != name
    ensures GroupNamed(patch, name) == if p < |patch| then patch[p].group else NotObject
    ensures p < |patch| ==> patch[p].name == name
  {
    if patch == [] || patch[0].name == name {
      p := 0;
    } else {
      p := GroupIsFirst(patch[1..], name);
      p := p + 1;
    }
  }

  /** A patch speaks of a named variable exactly with the first field of its name in the first
      section of its owner; one without a name is never addressed. */
  lemma EntryExactly(patch: Patch, m: Meta, j: Json)
    ensures Entry(patch, m) == Some(j) <==>
              m.owner.Some? && m.name.Some? && exists p: nat, f: nat :: Says(patch, m.owner.value, m.name.value, p, f, j)
  {
    if m.owner.Some? && m.name.Some? {
      var p := GroupIsFirst(patch, m.owner.value);
      if p < |patch| && patch[p].group.Object? {
        var f := FieldIsFirst(patch[p].group.fields, m.name.value);
        assert Entry(patch, m) == Some(j) ==> Says(patch, m.owner.value, m.name.value, p, f, j);
      }
    }
  }

  lemma {:induction false} FirstIsFirst(metas: seq<Meta>, owner: string, name: string, i: nat)
    requires i <= |metas|
    ensures var k := FirstNamed(metas, owner, name, i);
            && (k < |metas| ==> metas[k].owner == Some(owner) && metas[k].name == Some(name))
            && forall j: nat | i <= j < k :: !(metas[j].owner == Some(owner) && metas[j].name == Some(name))
    decreases |metas| - i
  {
    if i < |metas| && !Named(metas[i], owner, name) {
      FirstIsFirst(metas, owner, name, i + 1);
    }
  }

  /** Variable `i` is the first of its name and field `f` of section `p` names it. */
  ghost predicate Concerns(c: Setup, patch: Patch, p: nat, f: nat, i: nat) {
    && p < |patch| && patch[p].group.Object? && f < |patch[p].group.fields| && i < |c.metas|
    && Named(c.metas[i], patch[p].name, patch[p].group.fields[f].name)
    && forall j: nat | j < i :: !Named(c.metas[j], patch[p].name, patch[p].group.fields[f].name)
  }

  /** The text checks: every field that names a checked variable is a text that fits and passes. */
  lemma TextsExactly(c: Setup, patch: Patch)
    ensures TextsAccepted(c, patch) <==>
              forall p: nat, f: nat, i: nat | Concerns(c, patch, p, f, i) && c.metas[i].checkText.Some? ::
                var j := patch[p].group.fields[f].value;
                j.String? && |j.t| < c.metas[i].size && c.metas[i].checkText.value(j.t)
  {
    forall p: nat, f: nat | p < |patch| && patch[p].group.Object? && f < |patch[p].group.fields|
      ensures var field, k := patch[p].group.fields[f], FirstNamed(c.metas, patch[p].name, patch[p].group.fields[f].name, 0);
              && (k < |c.metas| ==> Concerns(c, patch, p, f, k))
              && (forall i: nat | Concerns(c, patch, p, f, i) :: i == k)
    {
      FirstIsFirst(c.metas, patch[p].name, patch[p].group.fields[f].name, 0);
    }
    if TextsAccepted(c, patch) {
      forall p: nat, f: nat, i: nat | Concerns(c, patch, p, f, i) && c.metas[i].checkText.Some?
        ensures var j := patch[p].group.fields[f].value;
                j.String? && |j.t| < c.metas[i].size && c.metas[i].checkText.value(j.t)
      {
        assert GroupAccepted(c, patch[p]);
        assert TextAccepted(c, patch[p].name, patch[p].group.fields[f]);
      }
    }
  }

  // ----- what validators see -----

  /** Validators of a replaced variable see it alone as contained, and RAM with the new value. */
  lemma ReplacedView(c: Setup, s: State, i: nat, v: Value, k: nat)
    requires Shaped(c, s) && i < |c.metas| && Typed(c.metas[i], v) && k < |c.metas|
    ensures var view := ViewOf(c, Replaced(i, v), s.ram);
            && |view.contained| == |view.seen| == |c.metas|
            && view.contained[k] == (k == i)
            && view.seen[k] == Some(if k == i then v else s.ram[k])
  {
    assert Typed(c.metas[k], s.ram[k]);
  }

  /** Validators of a patch see as contained what the patch speaks of, a JSON null included. They
      read a mentioned variable as its JSON value says, if that has its type, and a text only when it
      fits; every other variable reads as in RAM. */
  lemma PatchedView(c: Setup, s: State, patch: Patch, k: nat)
    requires Shaped(c, s) && k < |c.metas|
    ensures var view, m := ViewOf(c, Patched(patch), s.ram), c.metas[k];
            && |view.contained| == |view.seen| == |c.metas|
            && (view.contained[k] <==> Entry(patch, m).Some?)
            && (Entry(patch, m).None? ==> view.seen[k] == Some(s.ram[k]))
            && (forall v ::
                  Entry(patch, m).Some? ==>
                    (view.seen[k] == Some(v) <==> Exact(m.kind, Entry(patch, m).value) == Some(v) && (v.Text? ==> |v.t| < m.size)))
  {
    assert Typed(c.metas[k], s.ram[k]);
  }

  // ----- one `set` -----

  predicate IsKept(c: Setup, i: nat)
    requires i < |c.metas|
  {
    c.metas[i].persistent && c.metas[i].nvsKey.Some? && c.attached
  }

  /** A `set` is accepted exactly when every validator accepts it and the value is unchanged, or the
      variable is not kept in flash, or its one write succeeds. Exactly a changed variable with a
      key is announced, and only a changed one is written. */
  lemma SetExactly(c: Setup, s: State, i: nat, v: Value)
    requires Shaped(c, s) && i < |c.metas| && Typed(c.metas[i], v) && !v.Text?
    ensures var r := SetTo(c, s, i, v);
            var accepted := forall k: nat | k < |c.validators| :: c.validators[k](ViewOf(c, Replaced(i, v), s.ram));
            var changed := accepted && s.ram[i] != v;
            && (r.ok <==> accepted && (s.ram[i] == v || !IsKept(c, i) || c.saved(s.writes)))
            && r.state.ram == (if r.ok then s.ram[i := v] else s.ram)
            && r.state.nvs == (if r.ok && changed && IsKept(c, i) then s.nvs[c.metas[i].nvsKey.value := v] else s.nvs)
            && r.state.posted == s.posted + (if r.ok && changed && c.metas[i].nvsKey.Some? then [i] else [])
            && r.state.writes == s.writes + (if changed && IsKept(c, i) then 1 else 0)
            && r.state.pending == s.pending
  {
    assert s.posted + [] == s.posted && s.ram[i := s.ram[i]] == s.ram;
  }

  // ----- one committed variable -----

  /** What committing one variable of a patch does. One that the patch does not mention, or mentions
      with a null, is left alone. Otherwise it takes the converted value if there is one. A
      persistent variable that changed, or whose last write failed, is written once; when that write
      fails, or there is nowhere to write to, the commit fails and the variable stays flagged.
      Whatever was changed or written again is announced under its key. */
  lemma CommitExactly(c: Setup, s: State, patch: Patch, i: nat)
    requires Sized(c) && Shaped(c, s) && i < |c.metas|
    ensures var m, r, j := c.metas[i], Committed(c, s, patch, i), Entry(patch, c.metas[i]);
            if j.None? || j.value.Null? then r == Result(s, true)
            else
              var v := if Converted(c, m, j.value).Some? then Converted(c, m, j.value).value else s.ram[i];
              var touched := v != s.ram[i] || s.pending[i];
              var writes := touched && IsKept(c, i);
              && (r.ok <==> !touched || !m.persistent || (IsKept(c, i) && (c.saved(s.writes) || v == Text(""))))
              && r.state.ram == s.ram[i := v]
              && r.state.pending == s.pending[i := !r.ok && (s.pending[i] || m.persistent)]
              && r.state.nvs == (if writes && c.saved(s.writes) then s.nvs[m.nvsKey.value := v] else s.nvs)
              && r.state.writes == s.writes + (if writes then 1 else 0)
              && r.state.posted == s.posted + (if r.ok && touched && m.nvsKey.Some? then [i] else [])
  {
    assert s.posted + [] == s.posted;
  }

  lemma {:induction false} CommitsThrough(c: Setup, s: State, patch: Patch, i: nat)
    requires Tracks(c, s) && AllSaved(c) && i <= |c.metas|
    ensures CommittedFrom(c, s, patch, i).ok
    decreases |c.metas| - i
  {
    if i < |c.metas| {
      CommitExactly(c, s, patch, i);
      CommittedKeeps(c, s, patch, i);
      CommitsThrough(c, Committed(c, s, patch, i).state, patch, i + 1);
    }
  }

  /** A patch that a text check or a validator rejects changes nothing; one they all accept is
      applied when the flash accepts writes. */
  lemma PatchIsJudgedWhole(c: Setup, s: State, patch: Patch)
    requires Tracks(c, s)
    ensures var accepted :=
              && TextsAccepted(c, patch)
              && forall k: nat | k < |c.validators| :: c.validators[k](ViewOf(c, Patched(patch), s.ram));
            && (!accepted ==> Applied(c, s, patch) == Result(s, false))
            && (AllSaved(c) ==> (Applied(c, s, patch).ok <==> accepted))
  {
    if AllSaved(c) {
      CommitsThrough(c, s, patch, 0);
    }
  }

  // ----- save and load -----

  /** A stored value replaces the one in RAM when preferences are attached and the variable is
      persistent and keyed; a reboot finds the same, or else the compiled default. */
  lemma LoadsExactly(c: Setup, s: State, i: nat)
    requires Shaped(c, s) && i < |c.metas|
    ensures var stored := IsKept(c, i) && c.metas[i].nvsKey.value in s.nvs;
            && |Loaded(c, s).ram| == |Booted(c, s).ram| == |c.metas|
            && Loaded(c, s).ram[i] == (if stored then s.nvs[c.metas[i].nvsKey.value] else s.ram[i])
            && Booted(c, s).ram[i] == (if stored then s.nvs[c.metas[i].nvsKey.value] else c.metas[i].initial)
    ensures Loaded(c, s) == s.(ram := Loaded(c, s).ram)
  {
  }

  /** With a working flash, saving stores every persistent variable and changes nothing else. */
  lemma {:induction false} SavesAll(c: Setup, s: State, i: nat, k: nat)
    requires Tracks(c, s) && AllSaved(c) && i <= |c.metas| && k < |c.metas|
    ensures var t := SavedFrom(c, s, i);
            && t.ram == s.ram && t.pending == s.pending && t.posted == s.posted
            && Reloaded(c, t.nvs, k) == if k >= i && c.metas[k].persistent then s.ram[k] else Reloaded(c, s.nvs, k)
    decreases |c.metas| - i
  {
    if i < |c.metas| {
      var t := Written(c, s, i).state;
      if c.metas[i].persistent {
        WrittenIsLocal(c, s, i, k);
      }
      OneSaveKeeps(c, s, i);
      SavesAll(c, t, i + 1, k);
    }
  }
}
