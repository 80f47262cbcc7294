/** The configuration store: typed variables in RAM, their copies in flash, and JSON patches that
    are validated as a whole before anything is changed.

    `saved(n)` says whether the flash accepts its n-th write, so every pattern of write failures is
    covered. A refused write leaves the flash unchanged. */
module ConfigStore {
  import opened Wrappers

  datatype Kind = Int32 | UInt16 | UInt8 | Bool | Float | Double | CharArray

  datatype Value = Whole(n: int) | Truth(b: bool) | Number(r: real) | Text(t: string)

  datatype Json = Null | Flag(b: bool) | Integer(n: int) | Decimal(r: real) | String(t: string) | Nested

  datatype Field = Field(name: string, value: Json)
  datatype Group = Object(fields: seq<Field>) | NotObject
  datatype Section = Section(name: string, group: Group)

  /** A parsed patch: sections named after modules, in document order. */
  type Patch = seq<Section>

  datatype Meta = Meta(owner: Option<string>, name: Option<string>, nvsKey: Option<string>, kind: Kind,
                       persistent: bool, checkText: Option<string -> bool>, size: nat, initial: Value)

  /** What validators see: a patch over the current values, or one replaced variable. */
  datatype Candidate = Patched(patch: Patch) | Replaced(target: nat, value: Value)

  /** The answers of `contains` and `read` for every variable, in registration order. */
  datatype View = View(contained: seq<bool>, seen: seq<Option<Value>>)

  datatype Setup = Setup(metas: seq<Meta>, validators: seq<View -> bool>, attached: bool,
                         saved: nat -> bool, atof: string -> real)

  datatype State = State(ram: seq<Value>, pending: seq<bool>, nvs: map<string, Value>, writes: nat, posted: seq<nat>)

  datatype Result = Result(state: State, ok: bool)

  const INT32_MIN := -0x8000_0000
  const INT32_MAX := 0x7FFF_FFFF
  const UINT32_MAX := 0xFFFF_FFFF

  predicate Typed(m: Meta, v: Value) {
    match m.kind
    case Int32 => v.Whole? && INT32_MIN <= v.n <= INT32_MAX
    case UInt16 => v.Whole? && 0 <= v.n <= 0xFFFF
    case UInt8 => v.Whole? && 0 <= v.n <= 0xFF
    case Bool => v.Truth?
    case Float => v.Number?
    case Double => v.Number?
    case CharArray => v.Text? && |v.t| < m.size
  }

  ghost predicate Shaped(c: Setup, s: State) {
    && |s.ram| == |s.pending| == |c.metas|
    && (forall i: nat | i < |c.metas| :: Typed(c.metas[i], s.ram[i]))
  }

  // ----- text to number -----

  function Saturate(n: int, low: int, high: int): int {
    if n < low then low else if n > high then high else n
  }

  function SkipBlanks(t: string): string {
    if t != [] && t[0] in [' ', '\t', '\n', '\r', 11 as char, 12 as char] then SkipBlanks(t[1..]) else t
  }

  function Digits(t: string, value: nat): nat
    decreases |t|
  {
    if t == [] || !('0' <= t[0] <= '9') then value else Digits(t[1..], 10 * value + (t[0] as int - '0' as int))
  }

  /** `strtol` in base 10 with a 32-bit `long`. */
  function Strtol(text: string): int {
    var t := SkipBlanks(text);
    var n := if t != [] && t[0] == '-' then -(Digits(t[1..], 0) as int)
             else if t != [] && t[0] == '+' then Digits(t[1..], 0)
             else Digits(t, 0);
    Saturate(n, INT32_MIN, INT32_MAX)
  }

  // ----- JSON values as typed values -----

  /** The value of a JSON item that has exactly the variable's type. */
  function Exact(kind: Kind, j: Json): Option<Value> {
    match kind
    case Int32 => if j.Integer? && INT32_MIN <= j.n <= INT32_MAX then Some(Whole(j.n)) else None
    case UInt16 => if j.Integer? && 0 <= j.n <= 0xFFFF then Some(Whole(j.n)) else None
    case UInt8 => if j.Integer? && 0 <= j.n <= 0xFF then Some(Whole(j.n)) else None
    case Bool => if j.Flag? then Some(Truth(j.b)) else None
    case Float => NumberOf(j)
    case Double => NumberOf(j)
    case CharArray => if j.String? then Some(Text(j.t)) else None
  }

  function NumberOf(j: Json): Option<Value> {
    match j
    case Integer(n) => Some(Number(n as real))
    case Decimal(r) => Some(Number(r))
    case _ => None
  }

  /** The lenient conversion of the commit loop: clamping, C casts and numbers spelled in text. */
  function Converted(c: Setup, m: Meta, j: Json): (v: Option<Value>)
    requires m.kind.CharArray? ==> m.size > 0
    ensures v.Some? ==> Typed(m, v.value)
  {
    match m.kind
    case Int32 =>
      if j.Integer? && INT32_MIN <= j.n <= INT32_MAX then Some(Whole(j.n))
      else if j.Integer? && 0 <= j.n <= UINT32_MAX then Some(Whole(j.n - 0x1_0000_0000))
      else if j.String? then Some(Whole(Strtol(j.t)))
      else None
    case UInt16 =>
      if j.Integer? && 0 <= j.n <= UINT32_MAX then Some(Whole(Saturate(j.n, 0, 0xFFFF)))
      else if j.Integer? && INT32_MIN <= j.n <= INT32_MAX then Some(Whole(Saturate(j.n, 0, 0xFFFF)))
      else if j.String? then Some(Whole(Saturate(Strtol(j.t), 0, 0xFFFF)))
      else None
    case UInt8 =>
      if j.Integer? && INT32_MIN <= j.n <= INT32_MAX then Some(Whole(Saturate(j.n, 0, 0xFF)))
      else if j.String? then Some(Whole(Saturate(Strtol(j.t), 0, 0xFF)))
      else None
    case Bool =>
      if j.Flag? then Some(Truth(j.b))
      else if j.Integer? then Some(Truth(j.n != 0))
      else if j.Decimal? then Some(Truth(j.r != 0.0))
      else if j.String? then Some(Truth(j.t == "true" || j.t == "1"))
      else None
    case Float => if j.String? then Some(Number(c.atof(j.t))) else NumberOf(j)
    case Double => if j.String? then Some(Number(c.atof(j.t))) else NumberOf(j)
    case CharArray =>
      if !j.String? then None
      else Some(Text(if |j.t| >= m.size then j.t[..m.size - 1] else j.t))
  }

  // ----- lookups -----

  function FieldNamed(fields: seq<Field>, name: string): Option<Json> {
    if fields == [] then None
    else if fields[0].name == name then Some(fields[0].value)
    else FieldNamed(fields[1..], name)
  }

  function GroupNamed(patch: Patch, name: string): Group {
    if patch == [] then NotObject
    else if patch[0].name == name then patch[0].group
    else GroupNamed(patch[1..], name)
  }

  /** What the patch says about a variable, a JSON null included. */
  function Entry(patch: Patch, m: Meta): Option<Json> {
    if m.owner.None? || m.name.None? then None
    else
      match GroupNamed(patch, m.owner.value)
      case NotObject => None
      case Object(fields) => FieldNamed(fields, m.name.value)
  }

  predicate Named(m: Meta, owner: string, name: string) {
    m.owner == Some(owner) && m.name == Some(name)
  }

  /** The first registered variable of that name from index `i` on, or the number of variables. */
  function FirstNamed(metas: seq<Meta>, owner: string, name: string, i: nat): (k: nat)
    requires i <= |metas|
    ensures i <= k <= |metas|
    decreases |metas| - i
  {
    if i == |metas| || Named(metas[i], owner, name) then i else FirstNamed(metas, owner, name, i + 1)
  }

  // ----- validation -----

  /** The text check of one patched field. */
  predicate TextAccepted(c: Setup, owner: string, f: Field) {
    var i := FirstNamed(c.metas, owner, f.name, 0);
    i == |c.metas| || c.metas[i].checkText.None? ||
    (f.value.String? && |f.value.t| < c.metas[i].size && c.metas[i].checkText.value(f.value.t))
  }

  predicate GroupAccepted(c: Setup, sec: Section) {
    sec.group.Object? ==> forall k: nat | k < |sec.group.fields| :: TextAccepted(c, sec.name, sec.group.fields[k])
  }

  predicate TextsAccepted(c: Setup, patch: Patch) {
    forall k: nat | k < |patch| :: GroupAccepted(c, patch[k])
  }

  predicate Contains(c: Setup, candidate: Candidate, i: nat)
    requires i < |c.metas|
  {
    match candidate
    case Replaced(target, _) => target == i
    case Patched(patch) => Entry(patch, c.metas[i]).Some?
  }

  /** `read` with a result of the variable's own size. */
  function Read(c: Setup, candidate: Candidate, ram: seq<Value>, i: nat): Option<Value>
    requires i < |c.metas| == |ram|
  {
    var m := c.metas[i];
    var proposed :=
      match candidate
      case Replaced(target, value) => if target == i then Some(value) else Some(ram[i])
      case Patched(patch) =>
        match Entry(patch, m) {
          case None => Some(ram[i])
          case Some(j) => Exact(m.kind, j)
        };
    if proposed.Some? && proposed.value.Text? && |proposed.value.t| >= m.size then None else proposed
  }

  function ViewOf(c: Setup, candidate: Candidate, ram: seq<Value>): View
    requires |ram| == |c.metas|
  {
    View(seq(|ram|, i requires 0 <= i < |ram| => Contains(c, candidate, i)),
         seq(|ram|, i requires 0 <= i < |ram| => Read(c, candidate, ram, i)))
  }

  predicate Accepted(c: Setup, candidate: Candidate, ram: seq<Value>)
    requires |ram| == |c.metas|
  {
    forall k: nat | k < |c.validators| :: c.validators[k](ViewOf(c, candidate, ram))
  }

  // ----- writing -----

  /** One flash write of variable `i`; an empty text is reported as written in any case. */
  function Written(c: Setup, s: State, i: nat): Result
    requires i < |c.metas| == |s.ram|
  {
    var m := c.metas[i];
    if !c.attached then Result(s, false)
    else if !m.persistent then Result(s, true)
    else if m.nvsKey.None? then Result(s, false)
    else
      var nvs := if c.saved(s.writes) then s.nvs[m.nvsKey.value := s.ram[i]] else s.nvs;
      Result(s.(writes := s.writes + 1, nvs := nvs), c.saved(s.writes) || s.ram[i] == Text(""))
  }

  function Posted(c: Setup, s: State, i: nat): State
    requires i < |c.metas|
  {
    if c.metas[i].nvsKey.Some? then s.(posted := s.posted + [i]) else s
  }

  /** `set` of a scalar variable. */
  function SetTo(c: Setup, s: State, i: nat, v: Value): Result
    requires i < |c.metas| == |s.ram|
  {
    var m := c.metas[i];
    if !Accepted(c, Replaced(i, v), s.ram) then Result(s, false)
    else if s.ram[i] == v then Result(s, true)
    else
      var changed := s.(ram := s.ram[i := v]);
      if m.persistent && m.nvsKey.Some? && c.attached then
        var w := Written(c, changed, i);
        if w.ok then Result(Posted(c, w.state, i), true) else Result(w.state.(ram := s.ram), false)
      else Result(Posted(c, changed, i), true)
  }

  /** The value a committed patch leaves in a variable, given the one it held. */
  function Settled(c: Setup, patch: Patch, m: Meta, held: Value): Value
    requires m.kind.CharArray? ==> m.size > 0
  {
    match Entry(patch, m)
    case None => held
    case Some(j) =>
      if j.Null? || Converted(c, m, j).None? then held else Converted(c, m, j).value
  }

  /** The variables a patch addresses. */
  predicate Addressed(patch: Patch, m: Meta) {
    Entry(patch, m).Some? && !Entry(patch, m).value.Null?
  }

  ghost predicate Sized(c: Setup) {
    forall i: nat | i < |c.metas| :: c.metas[i].kind.CharArray? ==> c.metas[i].size > 0
  }

  /** The commit of one variable. */
  function Committed(c: Setup, s: State, patch: Patch, i: nat): Result
    requires i < |c.metas| == |s.ram| == |s.pending| && (c.metas[i].kind.CharArray? ==> c.metas[i].size > 0)
  {
    var m := c.metas[i];
    if !Addressed(patch, m) then Result(s, true)
    else
      var v := Settled(c, patch, m, s.ram[i]);
      var changed := v != s.ram[i];
      var t := s.(ram := s.ram[i := v], pending := s.pending[i := s.pending[i] || (changed && m.persistent)]);
      if !changed && !t.pending[i] then Result(t, true)
      else
        var w := if m.persistent then Written(c, t, i) else Result(t, true);
        if !w.ok then w
        else Result(Posted(c, w.state.(pending := w.state.pending[i := false]), i), true)
  }

  ghost function CommittedFrom(c: Setup, s: State, patch: Patch, i: nat): Result
    requires Sized(c) && i <= |c.metas| == |s.ram| == |s.pending|
    decreases |c.metas| - i
  {
    if i == |c.metas| then Result(s, true)
    else
      var r := Committed(c, s, patch, i);
      if r.ok then CommittedFrom(c, r.state, patch, i + 1) else r
  }

  ghost function Applied(c: Setup, s: State, patch: Patch): Result
    requires Sized(c) && |c.metas| == |s.ram| == |s.pending|
  {
    if TextsAccepted(c, patch) && Accepted(c, Patched(patch), s.ram) then CommittedFrom(c, s, patch, 0)
    else Result(s, false)
  }

  // ----- loading -----

  predicate IsStored(c: Setup, nvs: map<string, Value>, i: nat)
    requires i < |c.metas|
  {
    c.attached && c.metas[i].persistent && c.metas[i].nvsKey.Some? && c.metas[i].nvsKey.value in nvs
  }

  /** The value a reboot finds for variable `i`. */
  function Reloaded(c: Setup, nvs: map<string, Value>, i: nat): Value
    requires i < |c.metas|
  {
    if IsStored(c, nvs, i) then nvs[c.metas[i].nvsKey.value] else c.metas[i].initial
  }

  /** `loadPersistent`: a stored value replaces the one in RAM. */
  function Loaded(c: Setup, s: State): State
    requires |s.ram| == |c.metas|
  {
    s.(ram := seq(|c.metas|, i requires 0 <= i < |c.metas| =>
                    if IsStored(c, s.nvs, i) then s.nvs[c.metas[i].nvsKey.value] else s.ram[i]))
  }

  /** Registered variables with their compiled defaults, on a flash with some contents. */
  function Registered(c: Setup, nvs: map<string, Value>, writes: nat): State {
    State(seq(|c.metas|, i requires 0 <= i < |c.metas| => c.metas[i].initial), seq(|c.metas|, _ => false), nvs, writes, [])
  }

  /** A reboot: the variables are registered again and loaded. */
  function Booted(c: Setup, s: State): State {
    Loaded(c, Registered(c, s.nvs, s.writes))
  }

  /** `savePersistent`: every variable is written once and failures are ignored. */
  function SavedFrom(c: Setup, s: State, i: nat): State
    requires i <= |c.metas| == |s.ram|
    decreases |c.metas| - i
  {
    if i == |c.metas| then s else SavedFrom(c, Written(c, s, i).state, i + 1)
  }

  // ----- the store -----

  class Store {
    const setup: Setup
    var ram: seq<Value>
    var pending: seq<bool>
    var nvs: map<string, Value>
    var writes: nat
    var posted: seq<nat>

    ghost predicate Valid()
      reads this
    {
      |ram| == |pending| == |setup.metas| && Sized(setup)
    }

    function Current(): State
      reads this
    {
      State(ram, pending, nvs, writes, posted)
    }

    constructor (setup: Setup, nvs: map<string, Value>)
      requires Sized(setup)
      ensures Valid() && this.setup == setup && Current() == Registered(setup, nvs, 0)
    {
      this.setup := setup;
      this.nvs := nvs;
      ram := seq(|setup.metas|, i requires 0 <= i < |setup.metas| => setup.metas[i].initial);
      pending := seq(|setup.metas|, _ => false);
      writes := 0;
      posted := [];
    }

    method LoadPersistent()
      requires Valid()
      modifies this`ram
      ensures Valid() && Current() == Loaded(setup, old(Current()))
    {
      if !setup.attached {
        assert ram == Loaded(setup, Current()).ram;
        return;
      }
      for i := 0 to |setup.metas|
        invariant |ram| == |setup.metas|
        invariant forall k: nat | k < i :: ram[k] == Loaded(setup, old(Current())).ram[k]
        invariant forall k: nat | i <= k < |ram| :: ram[k] == old(ram)[k]
      {
        var m := setup.metas[i];
        if m.persistent && m.nvsKey.Some? && m.nvsKey.value in nvs {
          ram := ram[i := nvs[m.nvsKey.value]];
        }
      }
    }

    /** One `put` of Preferences: the flash takes the value or is left as it was. */
    method Put(key: string, value: Value) returns (wrote: bool)
      modifies this`nvs, this`writes
      ensures wrote == setup.saved(old(writes)) && writes == old(writes) + 1
      ensures nvs == if wrote then old(nvs)[key := value] else old(nvs)
    {
      wrote := setup.saved(writes);
      if wrote {
        nvs := nvs[key := value];
      }
      writes := writes + 1;
    }

    method WritePersistent(i: nat) returns (ok: bool)
      requires Valid() && i < |ram|
      modifies this`nvs, this`writes
      ensures Result(Current(), ok) == Written(setup, old(Current()), i)
    {
      var m := setup.metas[i];
      if !setup.attached {
        return false;
      }
      if !m.persistent {
        return true;
      }
      if m.nvsKey.None? {
        return false;
      }
      var wrote := Put(m.nvsKey.value, ram[i]);
      ok := wrote || ram[i] == Text("");
    }

    method SavePersistent()
      requires Valid()
      modifies this`nvs, this`writes
      ensures Current() == SavedFrom(setup, old(Current()), 0)
    {
      for i := 0 to |setup.metas|
        invariant SavedFrom(setup, Current(), i) == SavedFrom(setup, old(Current()), 0)
      {
        var _ := WritePersistent(i);
      }
    }

    method NotifyChanged(i: nat)
      requires i < |setup.metas|
      modifies this`posted
      ensures Current() == Posted(setup, old(Current()), i)
    {
      if setup.metas[i].nvsKey.Some? {
        posted := posted + [i];
      }
    }

    method ValidateCandidate(candidate: Candidate) returns (ok: bool)
      requires Valid()
      ensures ok == Accepted(setup, candidate, ram)
    {
      var view := ViewOf(setup, candidate, ram);
      for i := 0 to |setup.validators|
        invariant forall k: nat | k < i :: setup.validators[k](view)
      {
        if !setup.validators[i](view) {
          return false;
        }
      }
      ok := true;
    }

    /** `set` of a scalar: the variable is written, persisted and put back when that fails. */
    method Set(i: nat, v: Value) returns (ok: bool)
      requires Valid() && i < |ram| && Typed(setup.metas[i], v) && !v.Text?
      modifies this
      ensures Valid() && Result(Current(), ok) == SetTo(setup, old(Current()), i, v)
    {
      var m := setup.metas[i];
      ok := ValidateCandidate(Replaced(i, v));
      if !ok {
        return false;
      }
      var previous := ram[i];
      if previous == v {
        return true;
      }
      ram := ram[i := v];
      if m.persistent && m.nvsKey.Some? && setup.attached {
        var persisted := WritePersistent(i);
        if !persisted {
          ram := ram[i := previous];
          assert ram == old(ram);
          return false;
        }
      }
      NotifyChanged(i);
      ok := true;
    }

    method CheckField(owner: string, f: Field) returns (ok: bool)
      ensures ok == TextAccepted(setup, owner, f)
    {
      var i := 0;
      while i < |setup.metas| && !Named(setup.metas[i], owner, f.name)
        invariant i <= |setup.metas|
        invariant FirstNamed(setup.metas, owner, f.name, i) == FirstNamed(setup.metas, owner, f.name, 0)
      {
        i := i + 1;
      }
      if i == |setup.metas| {
        return true;
      }
      var m := setup.metas[i];
      ok := m.checkText.None? || (f.value.String? && |f.value.t| < m.size && m.checkText.value(f.value.t));
    }

    method CheckTexts(patch: Patch) returns (ok: bool)
      ensures ok == TextsAccepted(setup, patch)
    {
      for p := 0 to |patch|
        invariant forall k: nat | k < p :: GroupAccepted(setup, patch[k])
      {
        var group := patch[p].group;
        if group.Object? {
          for f := 0 to |group.fields|
            invariant forall k: nat | k < f :: TextAccepted(setup, patch[p].name, group.fields[k])
          {
            var accepted := CheckField(patch[p].name, group.fields[f]);
            if !accepted {
              assert !GroupAccepted(setup, patch[p]);
              return false;
            }
          }
        }
      }
      ok := true;
    }

    method CommitVariable(patch: Patch, i: nat) returns (ok: bool)
      requires Valid() && i < |ram|
      modifies this
      ensures Valid() && Result(Current(), ok) == Committed(setup, old(Current()), patch, i)
    {
      var m := setup.metas[i];
      var entry := Entry(patch, m);
      if entry.None? || entry.value.Null? {
        return true;
      }
      var changed := false;
      var v := Converted(setup, m, entry.value);
      if v.Some? && v.value != ram[i] {
        ram := ram[i := v.value];
        changed := true;
      }
      assert ram == old(ram)[i := Settled(setup, patch, m, old(ram)[i])];
      if changed && m.persistent {
        pending := pending[i := true];
      }
      assert pending == old(pending)[i := old(pending)[i] || (changed && m.persistent)];
      if changed || pending[i] {
        if m.persistent {
          var written := WritePersistent(i);
          if !written {
            return false;
          }
        }
        pending := pending[i := false];
        NotifyChanged(i);
      }
      ok := true;
    }

    /** A patch that any text check or validator rejects changes nothing. */
    method ApplyJson(patch: Patch) returns (ok: bool)
      requires Valid()
      modifies this
      ensures Valid() && Result(Current(), ok) == Applied(setup, old(Current()), patch)
      ensures !TextsAccepted(setup, patch) || !Accepted(setup, Patched(patch), old(ram)) ==>
                !ok && Current() == old(Current())
    {
      var accepted := CheckTexts(patch);
      if !accepted {
        return false;
      }
      accepted := ValidateCandidate(Patched(patch));
      if !accepted {
        return false;
      }
      for i := 0 to |setup.metas|
        invariant Valid()
        invariant CommittedFrom(setup, Current(), patch, i) == CommittedFrom(setup, old(Current()), patch, 0)
      {
        var committed := CommitVariable(patch, i);
        if !committed {
          return false;
        }
      }
      ok := true;
    }
  }
}
