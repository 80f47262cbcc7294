/** The expression compiler of src/Core/Values/ValueExpression.cpp: one pass over the text that
    parses, interns dependencies and emits postfix code. */
module Compiler {
  import opened Wrappers
  import opened Expression
  import opened Evaluator
  import opened Grammar
  import opened GrammarProofs

  // ----- abstract syntax -----

  function OperatorOf(symbol: char): Operator {
    if symbol == '+' then Add
    else if symbol == '-' then Sub
    else if symbol == '*' then Mul
    else Div
  }

  function LeafOf(catalog: Catalog, name: string): Source {
    if IsParameterName(name) then Parameter(DigitValue(name[1]))
    else Load(ReferenceId(catalog, name))
  }

  /** The expression a syntax tree stands for; loads carry value identities. */
  function Ast(catalog: Catalog, c: Cst): Expr {
    match c
    case Infix(left, symbol, _, right) => Node(OperatorOf(symbol), [Ast(catalog, left), Ast(catalog, right)])
    case Minus(_, operand) => Node(Neg, [Ast(catalog, operand)])
    case Paren(_, inner, _) => Ast(catalog, inner)
    case Number(literal, _) => Leaf(Constant(DecimalValue(literal)))
    case Name(name, _) => Leaf(LeafOf(catalog, name))
    case Call(name, _, _, args, _) =>
      Node(if FunctionOf(name).Some? then FunctionOf(name).value else Abs, AstArgs(catalog, args))
  }

  function AstArgs(catalog: Catalog, args: Args): (es: seq<Expr>)
    ensures |es| == Count(args)
  {
    match args
    case Last(arg) => [Ast(catalog, arg)]
    case More(arg, _, others) => [Ast(catalog, arg)] + AstArgs(catalog, others)
  }

  lemma {:induction false} AstWellFormed(catalog: Catalog, c: Cst)
    requires Grammatical(catalog, c)
    ensures WellFormed(Ast(catalog, c))
  {
    match c
    case Infix(left, _, _, right) =>
      AstWellFormed(catalog, left);
      AstWellFormed(catalog, right);
      var l, r := Ast(catalog, left), Ast(catalog, right);
      PostfixAllOne(r);
      assert [l, r][0] == l && [l, r][1..] == [r];
    case Minus(_, operand) => AstWellFormed(catalog, operand);
    case Paren(_, inner, _) => AstWellFormed(catalog, inner);
    case Call(_, _, _, args, _) => AstArgsWellFormed(catalog, args);
    case _ =>
  }

  lemma {:induction false} AstArgsWellFormed(catalog: Catalog, args: Args)
    requires GrammaticalArgs(catalog, args)
    ensures AllWellFormed(AstArgs(catalog, args))
  {
    match args
    case Last(arg) => AstWellFormed(catalog, arg);
    case More(arg, _, others) =>
      AstWellFormed(catalog, arg);
      AstArgsWellFormed(catalog, others);
      assert ([Ast(catalog, arg)] + AstArgs(catalog, others))[1..] == AstArgs(catalog, others);
  }

  // ----- emission -----

  /** The first position of an identity, or the number of identities. */
  function Position(ids: seq<nat>, id: nat): (n: nat)
    ensures n <= |ids|
    ensures n < |ids| ==> ids[n] == id
    ensures forall k | 0 <= k < n :: ids[k] != id
  {
    if ids == [] || ids[0] == id then 0 else 1 + Position(ids[1..], id)
  }

  function Intern(ids: seq<nat>, id: nat): seq<nat> {
    if Position(ids, id) < |ids| then ids else ids + [id]
  }

  function Append(p: Program, i: Instruction): Option<Program> {
    if |p.code| == MAX_INSTRUCTIONS then None else Some(p.(code := p.code + [i]))
  }

  function EmitLeaf(source: Source, p: Program): Option<Program> {
    if !source.Load? then Append(p, Push(source))
    else
      var ids := Intern(p.dependencies, source.index);
      if |ids| > MAX_DEPENDENCIES then None
      else Append(Program(p.code, ids), Push(Load(Position(p.dependencies, source.index))))
  }

  /** Emission in post-order, as the one-pass compiler performs it. */
  function Emit(e: Expr, p: Program): Option<Program>
    decreases e, 1
  {
    match e
    case Leaf(source) => EmitLeaf(source, p)
    case Node(op, args) =>
      var q :- EmitAll(args, p);
      Append(q, Apply(op))
  }

  function EmitAll(es: seq<Expr>, p: Program): Option<Program>
    decreases es, 0
  {
    if es == [] then Some(p)
    else
      var q :- Emit(es[0], p);
      EmitAll(es[1..], q)
  }

  // ----- what emission yields -----

  /** Identities in the order of their first occurrence, after those already known. */
  function Names(e: Expr, ids: seq<nat>): seq<nat>
    decreases e, 1
  {
    match e
    case Leaf(source) => if source.Load? then Intern(ids, source.index) else ids
    case Node(_, args) => NamesAll(args, ids)
  }

  function NamesAll(es: seq<Expr>, ids: seq<nat>): seq<nat>
    decreases es, 0
  {
    if es == [] then ids else NamesAll(es[1..], Names(es[0], ids))
  }

  /** The same tree with every identity replaced by its place in the dependency table. */
  function Indexed(e: Expr, ids: seq<nat>): Expr
    decreases e, 1
  {
    match e
    case Leaf(source) => if source.Load? then Leaf(Load(Position(ids, source.index))) else e
    case Node(op, args) => Node(op, IndexedAll(args, ids))
  }

  function IndexedAll(es: seq<Expr>, ids: seq<nat>): (r: seq<Expr>)
    ensures |r| == |es|
    decreases es, 0
  {
    if es == [] then [] else [Indexed(es[0], ids)] + IndexedAll(es[1..], ids)
  }

  lemma PositionExtends(ids: seq<nat>, more: seq<nat>, id: nat)
    requires ids <= more && id in ids
    ensures Position(more, id) == Position(ids, id) < |ids|
  {
    assert more[Position(ids, id)] == id;
  }

  lemma InternGrows(ids: seq<nat>, id: nat)
    ensures ids <= Intern(ids, id) && id in Intern(ids, id)
    ensures Distinct(ids) ==> Distinct(Intern(ids, id))
    ensures Position(Intern(ids, id), id) == Position(ids, id)
  {
    assert Intern(ids, id)[Position(ids, id)] == id;
  }

  ghost predicate Named(e: Expr, ids: seq<nat>)
    decreases e, 1
  {
    match e
    case Leaf(source) => source.Load? ==> source.index in ids
    case Node(_, args) => AllNamed(args, ids)
  }

  ghost predicate AllNamed(es: seq<Expr>, ids: seq<nat>)
    decreases es, 0
  {
    es != [] ==> Named(es[0], ids) && AllNamed(es[1..], ids)
  }

  lemma {:induction false} NamesGrow(e: Expr, ids: seq<nat>)
    ensures ids <= Names(e, ids) && Named(e, Names(e, ids))
    ensures Distinct(ids) ==> Distinct(Names(e, ids))
    decreases e, 1
  {
    match e
    case Leaf(source) => if source.Load? { InternGrows(ids, source.index); }
    case Node(_, args) => NamesAllGrow(args, ids);
  }

  lemma {:induction false} NamesAllGrow(es: seq<Expr>, ids: seq<nat>)
    ensures ids <= NamesAll(es, ids) && AllNamed(es, NamesAll(es, ids))
    ensures Distinct(ids) ==> Distinct(NamesAll(es, ids))
    decreases es, 0
  {
    if es != [] {
      NamesGrow(es[0], ids);
      NamesAllGrow(es[1..], Names(es[0], ids));
      NamedStays(es[0], Names(es[0], ids), NamesAll(es, ids));
    }
  }

  lemma {:induction false} NamedStays(e: Expr, ids: seq<nat>, more: seq<nat>)
    requires Named(e, ids) && ids <= more
    ensures Named(e, more) && Indexed(e, more) == Indexed(e, ids)
    decreases e, 1
  {
    match e
    case Leaf(source) => if source.Load? { PositionExtends(ids, more, source.index); }
    case Node(_, args) => AllNamedStays(args, ids, more);
  }

  lemma {:induction false} AllNamedStays(es: seq<Expr>, ids: seq<nat>, more: seq<nat>)
    requires AllNamed(es, ids) && ids <= more
    ensures AllNamed(es, more) && IndexedAll(es, more) == IndexedAll(es, ids)
    decreases es, 0
  {
    if es != [] {
      NamedStays(es[0], ids, more);
      AllNamedStays(es[1..], ids, more);
    }
  }

  /** Emission fails exactly when the finished code or dependency table would not fit; else it
      appends the postfix form of the indexed tree. */
  lemma {:induction false} EmitMeaning(e: Expr, p: Program)
    requires |p.code| <= MAX_INSTRUCTIONS && |p.dependencies| <= MAX_DEPENDENCIES
    ensures var ids := Names(e, p.dependencies);
            var code := p.code + Postfix(Indexed(e, ids));
            Emit(e, p) == if |code| <= MAX_INSTRUCTIONS && |ids| <= MAX_DEPENDENCIES then Some(Program(code, ids)) else None
    decreases e, 1
  {
    var ids := Names(e, p.dependencies);
    match e
    case Leaf(source) =>
      if source.Load? {
        InternGrows(p.dependencies, source.index);
      }
    case Node(op, args) =>
      EmitAllMeaning(args, p);
      var inner := p.code + PostfixAll(IndexedAll(args, ids));
      assert inner + [Apply(op)] == p.code + Postfix(Indexed(e, ids));
  }

  lemma {:induction false} EmitAllMeaning(es: seq<Expr>, p: Program)
    requires |p.code| <= MAX_INSTRUCTIONS && |p.dependencies| <= MAX_DEPENDENCIES
    ensures var ids := NamesAll(es, p.dependencies);
            var code := p.code + PostfixAll(IndexedAll(es, ids));
            EmitAll(es, p) == if |code| <= MAX_INSTRUCTIONS && |ids| <= MAX_DEPENDENCIES then Some(Program(code, ids)) else None
    decreases es, 0
  {
    var ids := NamesAll(es, p.dependencies);
    if es == [] {
      assert p.code + [] == p.code;
    } else {
      var first := Names(es[0], p.dependencies);
      NamesGrow(es[0], p.dependencies);
      NamesAllGrow(es[1..], first);
      NamedStays(es[0], first, ids);
      EmitMeaning(es[0], p);
      var code := p.code + Postfix(Indexed(es[0], first));
      assert code + PostfixAll(IndexedAll(es[1..], ids)) == p.code + PostfixAll(IndexedAll(es, ids));
      if |code| <= MAX_INSTRUCTIONS && |first| <= MAX_DEPENDENCIES {
        EmitAllMeaning(es[1..], Program(code, first));
      }
    }
  }

  lemma {:induction false} IndexedWellFormed(e: Expr, ids: seq<nat>)
    requires WellFormed(e)
    ensures WellFormed(Indexed(e, ids)) && Need(Indexed(e, ids)) == Need(e)
    decreases e, 1
  {
    if e.Node? {
      AllIndexedWellFormed(e.args, ids);
    }
  }

  lemma {:induction false} AllIndexedWellFormed(es: seq<Expr>, ids: seq<nat>)
    requires AllWellFormed(es)
    ensures AllWellFormed(IndexedAll(es, ids)) && NeedAll(IndexedAll(es, ids)) == NeedAll(es)
    decreases es, 0
  {
    if es != [] {
      IndexedWellFormed(es[0], ids);
      AllIndexedWellFormed(es[1..], ids);
      assert IndexedAll(es, ids)[1..] == IndexedAll(es[1..], ids);
    }
  }

  /** The values an observation of named values gives to the dependency table. */
  ghost predicate Agree(named: Observation, indexed: Observation, ids: seq<nat>) {
    && (forall k: nat :: named.parameters(k) == indexed.parameters(k))
    && (forall j: nat :: j < |ids| ==> indexed.loads(j) == named.loads(ids[j]))
  }

  /** Interning does not change what an expression denotes or when it is admissible. */
  lemma {:induction false} IndexedMeaning(e: Expr, ids: seq<nat>, named: Observation, indexed: Observation)
    requires WellFormed(e) && WellFormed(Indexed(e, ids))
    requires Named(e, ids) && Agree(named, indexed, ids)
    ensures Value(Indexed(e, ids), indexed) == Value(e, named)
    ensures Admissible(Indexed(e, ids), indexed) <==> Admissible(e, named)
    ensures DivisorsNonZero(Indexed(e, ids), indexed) <==> DivisorsNonZero(e, named)
    decreases e, 1
  {
    match e
    case Leaf(source) =>
      if source.Load? {
        PositionExtends(ids, ids, source.index);
      }
    case Node(_, args) => AllIndexedMeaning(args, ids, named, indexed);
  }

  lemma {:induction false} AllIndexedMeaning(es: seq<Expr>, ids: seq<nat>, named: Observation, indexed: Observation)
    requires AllWellFormed(es) && AllWellFormed(IndexedAll(es, ids))
    requires AllNamed(es, ids) && Agree(named, indexed, ids)
    ensures Values(IndexedAll(es, ids), indexed) == Values(es, named)
    ensures AllAdmissible(IndexedAll(es, ids), indexed) <==> AllAdmissible(es, named)
    ensures AllDivisorsNonZero(IndexedAll(es, ids), indexed) <==> AllDivisorsNonZero(es, named)
    decreases es, 0
  {
    if es != [] {
      var rest := IndexedAll(es[1..], ids);
      assert IndexedAll(es, ids)[1..] == rest;
      IndexedMeaning(es[0], ids, named, indexed);
      AllIndexedMeaning(es[1..], ids, named, indexed);
    }
  }
}
