/** The programs of src/Core/Values/ValueExpression.h: postfix code over a bounded stack,
    the static check that guards it, and the expression trees such code stands for. */
module Expression {
  import opened Wrappers

  const MAX_INSTRUCTIONS := 32
  const MAX_STACK := 8
  const MAX_DEPENDENCIES := 16
  const PARAM_COUNT := 4
  const VALUE_CAPACITY := 688

  datatype Source = Constant(number: real) | Parameter(index: nat) | Load(index: nat)

  datatype Operator = Add | Sub | Mul | Div | Neg | Min | Max | Abs | Clamp

  datatype Instruction = Push(source: Source) | Apply(op: Operator)

  datatype Program = Program(code: seq<Instruction>, dependencies: seq<nat>)

  const EMPTY := Program([], [])

  function OperatorArity(op: Operator): (n: nat)
    ensures 1 <= n <= 3
  {
    match op
    case Neg => 1
    case Abs => 1
    case Clamp => 3
    case _ => 2
  }

  function Arity(i: Instruction): nat {
    if i.Push? then 0 else OperatorArity(i.op)
  }

  // ----- the static check -----

  predicate KnownOperand(i: Instruction, dependencyCount: nat) {
    i.Push? ==>
      && (i.source.Load? ==> i.source.index < dependencyCount)
      && (i.source.Parameter? ==> i.source.index < PARAM_COUNT)
  }

  predicate KnownOperands(code: seq<Instruction>, dependencyCount: nat) {
    forall i | 0 <= i < |code| :: KnownOperand(code[i], dependencyCount)
  }

  predicate Distinct<T(==)>(s: seq<T>) {
    forall i, j | 0 <= i < j < |s| :: s[i] != s[j]
  }

  predicate GoodDependencies(ids: seq<nat>) {
    && (forall i | 0 <= i < |ids| :: ids[i] < VALUE_CAPACITY)
    && Distinct(ids)
  }

  /** The stack height after `code`, or None when it underflows or exceeds MAX_STACK. */
  function Height(code: seq<Instruction>, height: nat): Option<nat> {
    if code == [] then Some(height)
    else if height < Arity(code[0]) then None
    else
      var next := height - Arity(code[0]) + 1;
      if next > MAX_STACK then None else Height(code[1..], next)
  }

  predicate Valid(p: Program) {
    && 0 < |p.code| <= MAX_INSTRUCTIONS
    && |p.dependencies| <= MAX_DEPENDENCIES
    && GoodDependencies(p.dependencies)
    && KnownOperands(p.code, |p.dependencies|)
    && Height(p.code, 0) == Some(1)
  }

  method Validate(p: Program) returns (ok: bool)
    ensures ok <==> Valid(p)
  {
    if |p.code| == 0 || |p.code| > MAX_INSTRUCTIONS || |p.dependencies| > MAX_DEPENDENCIES {
      return false;
    }
    for i := 0 to |p.dependencies|
      invariant GoodDependencies(p.dependencies[..i])
    {
      if p.dependencies[i] >= VALUE_CAPACITY {
        return false;
      }
      for j := 0 to i
        invariant forall k | 0 <= k < j :: p.dependencies[k] != p.dependencies[i]
      {
        if p.dependencies[i] == p.dependencies[j] {
          return false;
        }
      }
    }
    assert p.dependencies[..|p.dependencies|] == p.dependencies;
    var stack: nat := 0;
    for i := 0 to |p.code|
      invariant KnownOperands(p.code[..i], |p.dependencies|)
      invariant Height(p.code, 0) == Height(p.code[i..], stack)
    {
      var instruction := p.code[i];
      assert p.code[i..][1..] == p.code[i + 1..];
      if !KnownOperand(instruction, |p.dependencies|) {
        return false;
      }
      var args := Arity(instruction);
      if stack < args {
        return false;
      }
      stack := stack - args + 1;
      if stack > MAX_STACK {
        return false;
      }
    }
    return stack == 1;
  }

  // ----- expression trees -----

  datatype Expr = Leaf(source: Source) | Node(op: Operator, args: seq<Expr>)

  ghost predicate WellFormed(e: Expr)
    decreases e, 1
  {
    e.Node? ==> |e.args| == OperatorArity(e.op) && AllWellFormed(e.args)
  }

  ghost predicate AllWellFormed(es: seq<Expr>)
    decreases es, 0
  {
    es != [] ==> WellFormed(es[0]) && AllWellFormed(es[1..])
  }

  function Postfix(e: Expr): (code: seq<Instruction>)
    ensures code != []
    decreases e, 1
  {
    match e
    case Leaf(source) => [Push(source)]
    case Node(op, args) => PostfixAll(args) + [Apply(op)]
  }

  function PostfixAll(es: seq<Expr>): seq<Instruction>
    decreases es, 0
  {
    if es == [] then [] else Postfix(es[0]) + PostfixAll(es[1..])
  }

  /** Stack cells the postfix form of a tree needs. */
  function Need(e: Expr): (n: nat)
    ensures n >= 1
    decreases e, 1
  {
    if e.Leaf? then 1 else Larger(1, NeedAll(e.args))
  }

  function NeedAll(es: seq<Expr>): nat
    decreases es, 0
  {
    if es == [] then 0 else Larger(Need(es[0]), 1 + NeedAll(es[1..]))
  }

  function Larger(a: nat, b: nat): nat {
    if a < b then b else a
  }

  /** Running code on trees instead of numbers: the expression each stack cell stands for. */
  function Trees(code: seq<Instruction>, stack: seq<Expr>): Option<seq<Expr>> {
    if code == [] then Some(stack)
    else
      match code[0]
      case Push(source) => Trees(code[1..], stack + [Leaf(source)])
      case Apply(op) =>
        var n := OperatorArity(op);
        if |stack| < n then None
        else Trees(code[1..], stack[..|stack| - n] + [Node(op, stack[|stack| - n..])])
  }

  /** The tree a valid program stands for. */
  ghost function Tree(p: Program): (t: Expr)
    requires Valid(p)
    ensures WellFormed(t) && Postfix(t) == p.code && Need(t) <= MAX_STACK
  {
    HeightGivesTrees(p.code, []);
    var result := Trees(p.code, []).value;
    assert result[..0] == [] && result[1..] == [];
    assert Postfix(result[0]) == p.code by {
      assert PostfixAll(result[1..]) == [];
      assert Postfix(result[0]) + [] == Postfix(result[0]);
      assert [] + p.code == p.code;
    }
    HeightOfPostfix(result[0], [], 0);
    assert Postfix(result[0]) + [] == p.code;
    result[0]
  }

  lemma {:induction false} PostfixAllConcat(a: seq<Expr>, b: seq<Expr>)
    ensures PostfixAll(a + b) == PostfixAll(a) + PostfixAll(b)
  {
    if a == [] {
      assert a + b == b;
    } else {
      PostfixAllConcat(a[1..], b);
      assert (a + b)[0] == a[0] && (a + b)[1..] == a[1..] + b;
      Associative(Postfix(a[0]), PostfixAll(a[1..]), PostfixAll(b));
    }
  }

  lemma {:induction false} AllWellFormedConcat(a: seq<Expr>, b: seq<Expr>)
    ensures AllWellFormed(a + b) <==> AllWellFormed(a) && AllWellFormed(b)
  {
    if a == [] {
      assert a + b == b;
    } else {
      AllWellFormedConcat(a[1..], b);
      assert (a + b)[1..] == a[1..] + b;
    }
  }

  lemma PostfixAllOne(e: Expr)
    ensures PostfixAll([e]) == Postfix(e)
    ensures AllWellFormed([e]) <==> WellFormed(e)
  {
    assert [e][1..] == [];
  }

  /** Code whose height is defined has trees, and those trees flatten back to the code. */
  lemma {:induction false} HeightGivesTrees(code: seq<Instruction>, stack: seq<Expr>)
    requires AllWellFormed(stack)
    requires Height(code, |stack|).Some?
    ensures Trees(code, stack).Some?
    ensures var result := Trees(code, stack).value;
            && |result| == Height(code, |stack|).value
            && AllWellFormed(result)
            && PostfixAll(result) == PostfixAll(stack) + code
    decreases |code|
  {
    if code != [] {
      var n := Arity(code[0]);
      var below, args := stack[..|stack| - n], stack[|stack| - n..];
      var top := if code[0].Push? then Leaf(code[0].source) else Node(code[0].op, args);
      assert stack == below + args;
      if code[0].Push? {
        assert below == stack && args == [];
      }
      AllWellFormedConcat(below, args);
      PostfixAllOne(top);
      AllWellFormedConcat(below, [top]);
      HeightGivesTrees(code[1..], below + [top]);
      assert PostfixAll(below + [top]) == PostfixAll(stack) + [code[0]] by {
        PostfixAllConcat(below, [top]);
        PostfixAllConcat(below, args);
      }
      assert code == [code[0]] + code[1..];
    }
  }

  /** Postfix code of a tree raises the height by one exactly when enough cells are free. */
  lemma {:induction false} HeightOfPostfix(e: Expr, rest: seq<Instruction>, height: nat)
    requires WellFormed(e)
    ensures Height(Postfix(e) + rest, height) ==
            if height + Need(e) <= MAX_STACK then Height(rest, height + 1) else None
    decreases e, 1
  {
    var code := Postfix(e) + rest;
    match e
    case Leaf(source) =>
      assert code[1..] == rest;
    case Node(op, args) =>
      assert code == PostfixAll(args) + ([Apply(op)] + rest);
      HeightOfPostfixAll(args, [Apply(op)] + rest, height);
      assert ([Apply(op)] + rest)[1..] == rest;
  }

  lemma {:induction false} HeightOfPostfixAll(es: seq<Expr>, rest: seq<Instruction>, height: nat)
    requires AllWellFormed(es)
    ensures Height(PostfixAll(es) + rest, height) ==
            if es == [] || height + NeedAll(es) <= MAX_STACK then Height(rest, height + |es|) else None
    ensures |es| <= NeedAll(es)
    decreases es, 0
  {
    if es == [] {
      assert PostfixAll(es) + rest == rest;
    } else {
      assert PostfixAll(es) + rest == Postfix(es[0]) + (PostfixAll(es[1..]) + rest);
      HeightOfPostfix(es[0], PostfixAll(es[1..]) + rest, height);
      HeightOfPostfixAll(es[1..], rest, height + 1);
    }
  }

  lemma {:induction false} TreesOfPostfix(e: Expr, rest: seq<Instruction>, stack: seq<Expr>)
    requires WellFormed(e)
    ensures Trees(Postfix(e) + rest, stack) == Trees(rest, stack + [e])
    decreases e, 1
  {
    var code := Postfix(e) + rest;
    match e
    case Leaf(source) =>
      assert code[1..] == rest;
    case Node(op, args) =>
      var tail := [Apply(op)] + rest;
      assert code == PostfixAll(args) + tail;
      TreesOfPostfixAll(args, tail, stack);
      assert tail[1..] == rest;
      var full := stack + args;
      assert full[..|full| - |args|] == stack && full[|full| - |args|..] == args;
  }

  lemma {:induction false} TreesOfPostfixAll(es: seq<Expr>, rest: seq<Instruction>, stack: seq<Expr>)
    requires AllWellFormed(es)
    ensures Trees(PostfixAll(es) + rest, stack) == Trees(rest, stack + es)
    decreases es, 0
  {
    if es == [] {
      assert PostfixAll(es) + rest == rest && stack + es == stack;
    } else {
      assert PostfixAll(es) + rest == Postfix(es[0]) + (PostfixAll(es[1..]) + rest);
      TreesOfPostfix(es[0], PostfixAll(es[1..]) + rest, stack);
      TreesOfPostfixAll(es[1..], rest, stack + [es[0]]);
      assert stack + [es[0]] + es[1..] == stack + es;
    }
  }

  /** The tree of a program is the only well-formed tree with that postfix form. */
  lemma TreeIsUnique(p: Program, t: Expr)
    requires Valid(p) && WellFormed(t) && Postfix(t) == p.code
    ensures t == Tree(p)
  {
    var u := Tree(p);
    TreesOfPostfix(t, [], []);
    TreesOfPostfix(u, [], []);
    assert Postfix(t) + [] == Postfix(u) + [];
    assert Trees([], [] + [t]) == Trees([], [] + [u]);
    assert ([] + [t])[0] == ([] + [u])[0];
  }

  /** `validate` accepts exactly the postfix forms of trees that fit the machine. */
  lemma ValidExactlyPostfix(p: Program)
    ensures Valid(p) <==>
            && |p.code| <= MAX_INSTRUCTIONS
            && |p.dependencies| <= MAX_DEPENDENCIES
            && GoodDependencies(p.dependencies)
            && KnownOperands(p.code, |p.dependencies|)
            && exists t :: WellFormed(t) && Postfix(t) == p.code && Need(t) <= MAX_STACK
  {
    if Valid(p) {
      var t := Tree(p);
      assert WellFormed(t) && Postfix(t) == p.code;
    }
    forall t | WellFormed(t) && Postfix(t) == p.code && Need(t) <= MAX_STACK
      ensures Height(p.code, 0) == Some(1)
    {
      HeightOfPostfix(t, [], 0);
      assert Postfix(t) + [] == p.code;
    }
  }
}
