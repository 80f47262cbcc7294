/** The `compile` entry point of src/Core/Values/ValueExpression.cpp, and what it accepts:
    exactly the texts of grammatical expressions that fit the machine's limits. */
module Compile {
  import opened Wrappers
  import opened Expression
  import opened Evaluator
  import opened Grammar
  import opened GrammarProofs
  import opened Compiler
  import opened ExpressionMeaning
  import opened Parser

  /** The outcome of `compile` on a text within the capacity. */
  function Outcome(text: string, catalog: Catalog): Option<Program> {
    var (c, rest) :- ParseExpression(catalog, Trim(text), 0);
    var p :- Emit(Ast(catalog, c), EMPTY);
    if rest == "" && Valid(p) then Some(p) else None
  }

  function Compiled(text: Option<CString>, catalog: Catalog): Option<Program> {
    if text.None? || |text.value| >= TEXT_CAPACITY then None else Outcome(text.value, catalog)
  }

  method Compile(text: Option<CString>, catalog: Catalog) returns (ok: bool, output: Program)
    ensures Compiled(text, catalog) == if ok then Some(output) else None
    ensures !ok ==> output == EMPTY
  {
    output := EMPTY;
    if text.None? {
      return false, output;
    }
    var length := 0;
    while length < TEXT_CAPACITY && length < |text.value|
      invariant length <= |text.value| && length <= TEXT_CAPACITY
    {
      length := length + 1;
    }
    if length == TEXT_CAPACITY {
      return false, output;
    }
    var parser := new Parser(text.value, catalog);
    assert text.value[0..] == text.value;
    var parsed := parser.Expression(0);
    if !parsed {
      return false, output;
    }
    parser.Space();
    GapSplits(text.value);
    ExpressionSound(catalog, Trim(text.value), 0);
    GapSplits(parser.Tail());
    if parser.Peek() != '\0' {
      return false, output;
    }
    var valid := Validate(parser.program);
    if !valid {
      return false, output;
    }
    return true, parser.program;
  }

  // ----- what is accepted -----

  /** `text` is the text of the syntax tree `c`, after leading blanks. */
  ghost predicate Spells(text: string, catalog: Catalog, c: Cst) {
    Grammatical(catalog, c) && exists gap :: Every(gap, IsBlank) && text == gap + ShowOn(c, "")
  }

  ghost predicate Fits(catalog: Catalog, c: Cst) {
    var e := Ast(catalog, c);
    && Nesting(c) < MAX_DEPTH
    && |Postfix(e)| <= MAX_INSTRUCTIONS
    && Need(e) <= MAX_STACK
    && |Names(e, [])| <= MAX_DEPENDENCIES
    && (forall i | 0 <= i < |Names(e, [])| :: Names(e, [])[i] < VALUE_CAPACITY)
  }

  /** Post-order code over the distinct identities in order of first occurrence. */
  function ProgramOf(catalog: Catalog, c: Cst): Program {
    var e := Ast(catalog, c);
    var ids := Names(e, []);
    Program(Postfix(Indexed(e, ids)), ids)
  }

  lemma {:induction false} IndexedLength(e: Expr, ids: seq<nat>)
    ensures |Postfix(Indexed(e, ids))| == |Postfix(e)|
    decreases e, 1
  {
    if e.Node? {
      AllIndexedLength(e.args, ids);
    }
  }

  lemma {:induction false} AllIndexedLength(es: seq<Expr>, ids: seq<nat>)
    ensures |PostfixAll(IndexedAll(es, ids))| == |PostfixAll(es)|
    decreases es, 0
  {
    if es != [] {
      IndexedLength(es[0], ids);
      AllIndexedLength(es[1..], ids);
      assert IndexedAll(es, ids)[1..] == IndexedAll(es[1..], ids);
    }
  }

  /** Only parameters k0 to k3 are parameters. */
  ghost predicate GoodLeaves(e: Expr)
    decreases e, 1
  {
    match e
    case Leaf(source) => source.Parameter? ==> source.index < PARAM_COUNT
    case Node(_, args) => AllGoodLeaves(args)
  }

  ghost predicate AllGoodLeaves(es: seq<Expr>)
    decreases es, 0
  {
    es != [] ==> GoodLeaves(es[0]) && AllGoodLeaves(es[1..])
  }

  lemma {:induction false} AstGoodLeaves(catalog: Catalog, c: Cst)
    requires Grammatical(catalog, c)
    ensures GoodLeaves(Ast(catalog, c))
  {
    match c
    case Infix(left, _, _, right) =>
      AstGoodLeaves(catalog, left);
      AstGoodLeaves(catalog, right);
      var l, r := Ast(catalog, left), Ast(catalog, right);
      assert [l, r][0] == l && [l, r][1..] == [r] && [r][0] == r && [r][1..] == [];
      assert AllGoodLeaves([r]);
    case Minus(_, operand) => AstGoodLeaves(catalog, operand);
    case Paren(_, inner, _) => AstGoodLeaves(catalog, inner);
    case Call(_, _, _, args, _) => AstArgsGoodLeaves(catalog, args);
    case _ =>
  }

  lemma {:induction false} AstArgsGoodLeaves(catalog: Catalog, args: Args)
    requires GrammaticalArgs(catalog, args)
    ensures AllGoodLeaves(AstArgs(catalog, args))
  {
    match args
    case Last(arg) => AstGoodLeaves(catalog, arg);
    case More(arg, _, others) =>
      AstGoodLeaves(catalog, arg);
      AstArgsGoodLeaves(catalog, others);
      assert ([Ast(catalog, arg)] + AstArgs(catalog, others))[1..] == AstArgs(catalog, others);
  }

  lemma {:induction false} IndexedKnown(e: Expr, ids: seq<nat>)
    requires GoodLeaves(e) && Named(e, ids)
    ensures KnownOperands(Postfix(Indexed(e, ids)), |ids|)
    decreases e, 1
  {
    match e
    case Leaf(source) => if source.Load? { PositionExtends(ids, ids, source.index); }
    case Node(_, args) => AllIndexedKnown(args, ids);
  }

  lemma {:induction false} AllIndexedKnown(es: seq<Expr>, ids: seq<nat>)
    requires AllGoodLeaves(es) && AllNamed(es, ids)
    ensures KnownOperands(PostfixAll(IndexedAll(es, ids)), |ids|)
    decreases es, 0
  {
    if es != [] {
      IndexedKnown(es[0], ids);
      AllIndexedKnown(es[1..], ids);
      assert IndexedAll(es, ids)[1..] == IndexedAll(es[1..], ids);
    }
  }

  lemma EmissionFits(e: Expr)
    ensures var ids := Names(e, []);
            Emit(e, EMPTY) == if |Postfix(e)| <= MAX_INSTRUCTIONS && |ids| <= MAX_DEPENDENCIES
                              then Some(Program(Postfix(Indexed(e, ids)), ids)) else None
  {
    var ids := Names(e, []);
    EmitMeaning(e, EMPTY);
    IndexedLength(e, ids);
    assert [] + Postfix(Indexed(e, ids)) == Postfix(Indexed(e, ids));
  }

  lemma IndexedIsValid(e: Expr, ids: seq<nat>)
    requires WellFormed(e) && GoodLeaves(e) && Named(e, ids) && Distinct(ids)
    requires |Postfix(e)| <= MAX_INSTRUCTIONS && |ids| <= MAX_DEPENDENCIES
    ensures var p := Program(Postfix(Indexed(e, ids)), ids);
            && (Valid(p) <==> Need(e) <= MAX_STACK && forall i | 0 <= i < |ids| :: ids[i] < VALUE_CAPACITY)
            && (Valid(p) ==> Tree(p) == Indexed(e, ids))
  {
    var t := Indexed(e, ids);
    IndexedLength(e, ids);
    IndexedWellFormed(e, ids);
    IndexedKnown(e, ids);
    HeightOfPostfix(t, [], 0);
    assert Postfix(t) + [] == Postfix(t);
    if Valid(Program(Postfix(t), ids)) {
      TreeIsUnique(Program(Postfix(t), ids), t);
    }
  }

  /** The limits on a syntax tree are what emission and the static check test. */
  lemma FitsIsValid(catalog: Catalog, c: Cst)
    requires Grammatical(catalog, c) && Nesting(c) < MAX_DEPTH
    ensures var emitted := Emit(Ast(catalog, c), EMPTY);
            && (emitted.Some? ==> emitted.value == ProgramOf(catalog, c))
            && (Fits(catalog, c) <==> emitted.Some? && Valid(emitted.value))
    ensures Fits(catalog, c) ==> Tree(ProgramOf(catalog, c)) == Indexed(Ast(catalog, c), Names(Ast(catalog, c), []))
  {
    var e := Ast(catalog, c);
    EmissionFits(e);
    if Emit(e, EMPTY).Some? {
      AstWellFormed(catalog, c);
      AstGoodLeaves(catalog, c);
      NamesGrow(e, []);
      IndexedIsValid(e, Names(e, []));
    }
  }

  /** `compile` accepts a text exactly when it is short enough and spells a grammatical
      expression within the limits, and then it yields that expression's program. */
  lemma CompileExactly(text: CString, catalog: Catalog, p: Program)
    ensures Compiled(Some(text), catalog) == Some(p) <==>
            && |text| < TEXT_CAPACITY
            && exists c :: Spells(text, catalog, c) && Fits(catalog, c) && p == ProgramOf(catalog, c)
  {
    GapSplits(text);
    ExpressionSound(catalog, Trim(text), 0);
    var r := ParseExpression(catalog, Trim(text), 0);
    if Compiled(Some(text), catalog) == Some(p) {
      var c := r.value.0;
      FitsIsValid(catalog, c);
      assert text == Gap(text) + ShowOn(c, "");
      assert Spells(text, catalog, c);
    }
    forall c | Spells(text, catalog, c) && Fits(catalog, c)
      ensures Outcome(text, catalog) == Some(ProgramOf(catalog, c))
    {
      SpelledIsParsed(text, catalog, c);
      FitsIsValid(catalog, c);
    }
  }

  lemma SpelledIsParsed(text: string, catalog: Catalog, c: Cst)
    requires Spells(text, catalog, c) && Nesting(c) < MAX_DEPTH
    ensures ParseExpression(catalog, Trim(text), 0) == Some((c, ""))
  {
    var gap :| Every(gap, IsBlank) && text == gap + ShowOn(c, "");
    ShowStarts(catalog, c, "");
    TrimGap(gap, ShowOn(c, ""));
    ExpressionComplete(catalog, c, "", 0);
  }

  /** A text has at most one reading: precedence and associativity leave no choice. */
  lemma Unambiguous(text: string, catalog: Catalog, c: Cst, d: Cst)
    requires Spells(text, catalog, c) && Nesting(c) < MAX_DEPTH
    requires Spells(text, catalog, d) && Nesting(d) < MAX_DEPTH
    ensures c == d
  {
    SpelledIsParsed(text, catalog, c);
    SpelledIsParsed(text, catalog, d);
  }

  /** The previous or current readings of the named inputs. */
  function Before(parameters: seq<real>, named: nat -> Number): Readings {
    Readings((k: nat) => At(parameters, k), (id: nat) => named(id).previous)
  }

  function Now(parameters: seq<real>, named: nat -> Number): Readings {
    Readings((k: nat) => At(parameters, k), (id: nat) => named(id).current)
  }

  /** The same as the abstract syntax observes them. */
  ghost function PreviousOf(parameters: seq<real>, named: nat -> Number): Observation {
    Observed(Before(parameters, named))
  }

  ghost function CurrentOf(parameters: seq<real>, named: nat -> Number): Observation {
    Observed(Now(parameters, named))
  }

  /** Compiler correctness: evaluating the program of an accepted text on the inputs its
      dependency table names gives what the text's symbols and words mean now, and fails exactly
      when that is undefined now. When no divisor was zero before, it also gives what they meant
      before and, from exact inputs, the exact difference. */
  lemma CompiledMeaning(text: CString, catalog: Catalog, c: Cst, parameters: seq<real>, named: nat -> Number)
    returns (inputs: seq<Number>, n: Number)
    requires |text| < TEXT_CAPACITY && Spells(text, catalog, c) && Fits(catalog, c)
    requires |parameters| == PARAM_COUNT
    ensures var p := ProgramOf(catalog, c);
            && Compiled(Some(text), catalog) == Some(p) && Valid(p)
            && |inputs| == |p.dependencies|
            && (forall j | 0 <= j < |inputs| :: inputs[j] == named(p.dependencies[j]))
            && Run(p.code, parameters, inputs, []) ==
               if Defined(catalog, c, Now(parameters, named)) then Some([n]) else None
    ensures Defined(catalog, c, Now(parameters, named)) ==>
              && n.current == Meant(catalog, c, Now(parameters, named))
              && (Divisible(catalog, c, Before(parameters, named)) ==>
                    && n.previous == Meant(catalog, c, Before(parameters, named))
                    && ((forall id: nat :: Exact(named(id))) ==> n.delta == n.current - n.previous))
  {
    inputs, n := CompiledTree(text, catalog, c, parameters, named);
    AstMeans(catalog, c, Now(parameters, named));
    AstMeans(catalog, c, Before(parameters, named));
  }

  /** The same of the abstract syntax. */
  lemma CompiledTree(text: CString, catalog: Catalog, c: Cst, parameters: seq<real>, named: nat -> Number)
    returns (inputs: seq<Number>, n: Number)
    requires |text| < TEXT_CAPACITY && Spells(text, catalog, c) && Fits(catalog, c)
    requires |parameters| == PARAM_COUNT
    ensures WellFormed(Ast(catalog, c))
    ensures var p := ProgramOf(catalog, c);
            && Compiled(Some(text), catalog) == Some(p) && Valid(p)
            && |inputs| == |p.dependencies|
            && (forall j | 0 <= j < |inputs| :: inputs[j] == named(p.dependencies[j]))
            && Run(p.code, parameters, inputs, []) ==
               if Admissible(Ast(catalog, c), CurrentOf(parameters, named)) then Some([n]) else None
    ensures Admissible(Ast(catalog, c), CurrentOf(parameters, named)) ==>
              && n.current == Value(Ast(catalog, c), CurrentOf(parameters, named))
              && (DivisorsNonZero(Ast(catalog, c), PreviousOf(parameters, named)) ==>
                    && n.previous == Value(Ast(catalog, c), PreviousOf(parameters, named))
                    && ((forall id: nat :: Exact(named(id))) ==> n.delta == n.current - n.previous))
  {
    var p := ProgramOf(catalog, c);
    AstWellFormed(catalog, c);
    CompileExactly(text, catalog, p);
    FitsIsValid(catalog, c);
    var ids := p.dependencies;
    inputs := seq(|ids|, j requires 0 <= j < |ids| => named(ids[j]));
    n := ProgramMeaning(p, parameters, inputs);
    ColumnsAgree(catalog, c, parameters, named, inputs);
  }

  /** The table's inputs and the named inputs give the expression the same meaning. */
  lemma ColumnsAgree(catalog: Catalog, c: Cst, parameters: seq<real>, named: nat -> Number, inputs: seq<Number>)
    requires WellFormed(Ast(catalog, c))
    requires var ids := Names(Ast(catalog, c), []);
             |inputs| == |ids| && forall j | 0 <= j < |ids| :: inputs[j] == named(ids[j])
    ensures var e := Ast(catalog, c);
            var t := Indexed(e, Names(e, []));
            && WellFormed(t)
            && Value(t, Observe(parameters, Current(inputs))) == Value(e, CurrentOf(parameters, named))
            && Value(t, Observe(parameters, Previous(inputs))) == Value(e, PreviousOf(parameters, named))
            && (Admissible(t, Observe(parameters, Current(inputs))) <==> Admissible(e, CurrentOf(parameters, named)))
            && (DivisorsNonZero(t, Observe(parameters, Previous(inputs))) <==> DivisorsNonZero(e, PreviousOf(parameters, named)))
  {
    var e := Ast(catalog, c);
    var ids := Names(e, []);
    NamesGrow(e, []);
    IndexedWellFormed(e, ids);
    IndexedMeaning(e, ids, CurrentOf(parameters, named), Observe(parameters, Current(inputs)));
    IndexedMeaning(e, ids, PreviousOf(parameters, named), Observe(parameters, Previous(inputs)));
  }
}
