/** The stack evaluator of src/Core/Values/ValueExpression.cpp. Each cell carries the value
    at the previous observation, the current value and their finite difference.
    Numbers are reals, so the source's finiteness tests always pass. */
module Evaluator {
  import opened Wrappers
  import opened Expression

  datatype Number = Number(previous: real, current: real, delta: real)

  /** What a division yields. The evaluator refuses a zero current divisor but not a zero
      previous one, where the hardware yields an infinity or a NaN that later operators may turn
      into any value; 0.0 stands for it, and no property says anything about a previous column
      or a difference that comes from such a division. */
  function Quotient(x: real, y: real): real {
    if y == 0.0 then 0.0 else x / y
  }

  // ----- the meaning of a tree -----

  /** The numbers one observation gives to parameters and loads. */
  datatype Observation = Observation(parameters: nat -> real, loads: nat -> real) {
    function Look(source: Source): real {
      match source
      case Constant(number) => number
      case Parameter(index) => parameters(index)
      case Load(index) => loads(index)
    }
  }

  function Operate(op: Operator, a: seq<real>): real
    requires |a| == OperatorArity(op)
  {
    match op
    case Add => a[0] + a[1]
    case Sub => a[0] - a[1]
    case Mul => a[0] * a[1]
    case Div => Quotient(a[0], a[1])
    case Neg => -a[0]
    case Min => Least(a[0], a[1])
    case Max => Greatest(a[0], a[1])
    case Abs => if a[0] < 0.0 then -a[0] else a[0]
    case Clamp => Least(Greatest(a[0], a[1]), a[2])
  }

  function Least(x: real, y: real): real {
    if x < y then x else y
  }

  function Greatest(x: real, y: real): real {
    if x > y then x else y
  }

  /** The operand values an operator accepts: non-zero divisors and ordered clamp bounds. */
  predicate Accepts(op: Operator, a: seq<real>)
    requires |a| == OperatorArity(op)
  {
    && (op == Div ==> a[1] != 0.0)
    && (op == Clamp ==> a[1] <= a[2])
  }

  ghost function Value(e: Expr, o: Observation): real
    requires WellFormed(e)
    decreases e, 1
  {
    match e
    case Leaf(source) => o.Look(source)
    case Node(op, args) => Operate(op, Values(args, o))
  }

  ghost function Values(es: seq<Expr>, o: Observation): (vs: seq<real>)
    requires AllWellFormed(es)
    ensures |vs| == |es|
    decreases es, 0
  {
    if es == [] then [] else [Value(es[0], o)] + Values(es[1..], o)
  }

  /** Every operator in the tree accepts its operands at this observation. */
  ghost predicate Admissible(e: Expr, o: Observation)
    requires WellFormed(e)
    decreases e, 1
  {
    e.Node? ==> AllAdmissible(e.args, o) && Accepts(e.op, Values(e.args, o))
  }

  ghost predicate AllAdmissible(es: seq<Expr>, o: Observation)
    requires AllWellFormed(es)
    decreases es, 0
  {
    es != [] ==> Admissible(es[0], o) && AllAdmissible(es[1..], o)
  }

  /** No divisor in the tree is zero at this observation. */
  ghost predicate DivisorsNonZero(e: Expr, o: Observation)
    requires WellFormed(e)
    decreases e, 1
  {
    e.Node? ==> AllDivisorsNonZero(e.args, o) && (e.op == Div ==> Values(e.args, o)[1] != 0.0)
  }

  ghost predicate AllDivisorsNonZero(es: seq<Expr>, o: Observation)
    requires AllWellFormed(es)
    decreases es, 0
  {
    es != [] ==> DivisorsNonZero(es[0], o) && AllDivisorsNonZero(es[1..], o)
  }

  // ----- one evaluation step -----

  /** Picks the smaller (or larger) operand in each column; when the columns disagree the
      difference also crosses from one operand to the other. */
  function Select(a: Number, b: Number, minimum: bool): Number {
    var oldA := if minimum then a.previous <= b.previous else a.previous >= b.previous;
    var newA := if minimum then a.current <= b.current else a.current >= b.current;
    var old_ := if oldA then a else b;
    var now := if newA then a else b;
    Number(old_.previous, now.current,
           if oldA == newA then now.delta else (now.previous - old_.previous) + now.delta)
  }

  function Negate(a: Number): Number {
    Number(-a.previous, -a.current, -a.delta)
  }

  function Combine(op: Operator, a: seq<Number>): Option<Number>
    requires |a| == OperatorArity(op)
  {
    match op
    case Neg => Some(Negate(a[0]))
    case Abs => Some(Select(a[0], Negate(a[0]), false))
    case Clamp =>
      if a[1].current > a[2].current then None
      else Some(Select(Select(a[0], a[1], false), a[2], true))
    case Add => Some(Number(a[0].previous + a[1].previous, a[0].current + a[1].current, a[0].delta + a[1].delta))
    case Sub => Some(Number(a[0].previous - a[1].previous, a[0].current - a[1].current, a[0].delta - a[1].delta))
    case Mul => Some(Number(a[0].previous * a[1].previous, a[0].current * a[1].current,
                            a[0].previous * a[1].delta + a[1].previous * a[0].delta + a[0].delta * a[1].delta))
    case Div =>
      if a[1].current == 0.0 then None
      else Some(Number(Quotient(a[0].previous, a[1].previous), a[0].current / a[1].current,
                       (a[0].delta - Quotient(a[0].previous, a[1].previous) * a[1].delta) / a[1].current))
    case Min => Some(Select(a[0], a[1], true))
    case Max => Some(Select(a[0], a[1], false))
  }

  function Fetch(source: Source, parameters: seq<real>, inputs: seq<Number>): Number
    requires |parameters| == PARAM_COUNT
    requires KnownOperand(Push(source), |inputs|)
  {
    match source
    case Constant(number) => Number(number, number, 0.0)
    case Parameter(index) => Number(parameters[index], parameters[index], 0.0)
    case Load(index) => inputs[index]
  }

  /** The cell an instruction leaves in place of the cells it consumes. */
  function Outcome(i: Instruction, parameters: seq<real>, inputs: seq<Number>, cells: seq<Number>): Option<Number>
    requires |parameters| == PARAM_COUNT && KnownOperand(i, |inputs|)
    requires |cells| == Arity(i)
  {
    match i
    case Push(source) => Some(Fetch(source, parameters, inputs))
    case Apply(op) => Combine(op, cells)
  }

  /** Running code on numbers; None when an operator refuses its operands. */
  function Run(code: seq<Instruction>, parameters: seq<real>, inputs: seq<Number>, stack: seq<Number>)
    : Option<seq<Number>>
    requires |parameters| == PARAM_COUNT
    requires KnownOperands(code, |inputs|)
  {
    if code == [] then Some(stack)
    else if |stack| < Arity(code[0]) then None
    else
      var below := |stack| - Arity(code[0]);
      var result :- Outcome(code[0], parameters, inputs, stack[below..]);
      Run(code[1..], parameters, inputs, stack[..below] + [result])
  }

  // ----- columns -----

  function Previous(a: seq<Number>): seq<real> {
    seq(|a|, i requires 0 <= i < |a| => a[i].previous)
  }

  function Current(a: seq<Number>): seq<real> {
    seq(|a|, i requires 0 <= i < |a| => a[i].current)
  }

  predicate Exact(n: Number) {
    n.delta == n.current - n.previous
  }

  predicate AllExact(a: seq<Number>) {
    forall i | 0 <= i < |a| :: Exact(a[i])
  }

  function At(s: seq<real>, i: nat): real {
    if i < |s| then s[i] else 0.0
  }

  function Observe(parameters: seq<real>, loads: seq<real>): Observation {
    Observation((i: nat) => At(parameters, i), (i: nat) => At(loads, i))
  }

  lemma ProductDifference(p: real, q: real, dp: real, dq: real)
    ensures p * dq + q * dp + dp * dq == (p + dp) * (q + dq) - p * q
  {
  }

  lemma QuotientDifference(p: real, q: real, c: real, d: real)
    requires q != 0.0 && d != 0.0
    ensures ((c - p) - (p / q) * (d - q)) / d == c / d - p / q
  {
    var r := p / q;
    assert p == r * q;
    calc {
      (c - p) - r * (d - q);
      c - p - r * d + r * q;
      c - r * d;
    }
    assert (c - r * d) / d == c / d - (r * d) / d;
    assert (r * d) / d == r;
  }

  lemma SelectPicks(a: Number, b: Number)
    ensures var m := Select(a, b, true);
            && m.previous == Least(a.previous, b.previous)
            && m.current == Least(a.current, b.current)
            && (Exact(a) && Exact(b) ==> Exact(m))
    ensures var m := Select(a, b, false);
            && m.previous == Greatest(a.previous, b.previous)
            && m.current == Greatest(a.current, b.current)
            && (Exact(a) && Exact(b) ==> Exact(m))
  {
  }

  /** The result `r` of `op` on cells `a` follows the operator in the current column and, unless the
      previous divisor is zero, in the previous column, where exact differences then stay exact. */
  ghost predicate Follows(r: Number, op: Operator, a: seq<Number>)
    requires |a| == OperatorArity(op)
  {
    && r.current == Operate(op, Current(a))
    && ((op == Div ==> a[1].previous != 0.0) ==>
          r.previous == Operate(op, Previous(a)) && (AllExact(a) ==> Exact(r)))
  }

  lemma CombineProduct(a: seq<Number>)
    requires |a| == 2
    ensures Follows(Combine(Mul, a).value, Mul, a)
  {
    ProductDifference(a[0].previous, a[1].previous, a[0].delta, a[1].delta);
  }

  lemma CombineQuotient(a: seq<Number>)
    requires |a| == 2 && a[1].current != 0.0
    ensures Follows(Combine(Div, a).value, Div, a)
  {
    if a[1].previous != 0.0 {
      QuotientDifference(a[0].previous, a[1].previous, a[0].current, a[1].current);
    }
  }

  lemma CombineSelection(op: Operator, a: seq<Number>)
    requires op in {Abs, Clamp, Min, Max}
    requires |a| == OperatorArity(op)
    ensures Combine(op, a).Some? ==> Follows(Combine(op, a).value, op, a)
  {
    if op == Abs {
      SelectPicks(a[0], Negate(a[0]));
    } else {
      SelectPicks(a[0], a[1]);
      if op == Clamp {
        SelectPicks(Select(a[0], a[1], false), a[2]);
      }
    }
  }

  /** An operator refuses its cells exactly when it does not accept their current values. */
  lemma CombineColumns(op: Operator, a: seq<Number>)
    requires |a| == OperatorArity(op)
    ensures Combine(op, a).Some? <==> Accepts(op, Current(a))
    ensures Combine(op, a).Some? ==> Follows(Combine(op, a).value, op, a)
  {
    match op
    case Mul => CombineProduct(a);
    case Div => if a[1].current != 0.0 { CombineQuotient(a); }
    case Abs => CombineSelection(op, a);
    case Clamp => CombineSelection(op, a);
    case Min => CombineSelection(op, a);
    case Max => CombineSelection(op, a);
    case _ =>
  }

  /** Where the carried difference leads, which is the current value when it is exact. */
  function Reached(n: Number): real {
    n.previous + n.delta
  }

  /** The operand a selection takes in the current column; the first one when they are equal. */
  function Picked(a: Number, b: Number, minimum: bool): Number {
    if (if minimum then a.current <= b.current else a.current >= b.current) then a else b
  }

  lemma SelectReaches(a: Number, b: Number, minimum: bool)
    ensures Reached(Select(a, b, minimum)) == Reached(Picked(a, b, minimum))
    ensures Select(a, b, minimum).current == Picked(a, b, minimum).current
  {
  }

  /** `x` is where the operator leads from where its operands' differences lead; a quotient is off
      by as much as its divisor's difference is. */
  predicate Leads(op: Operator, a: seq<Number>, x: real)
    requires |a| == OperatorArity(op)
  {
    match op
    case Neg => x == -Reached(a[0])
    case Add => x == Reached(a[0]) + Reached(a[1])
    case Sub => x == Reached(a[0]) - Reached(a[1])
    case Mul => x == Reached(a[0]) * Reached(a[1])
    case Div =>
      a[1].previous != 0.0 ==>
        x * a[1].current == Reached(a[0]) + (a[0].previous / a[1].previous) * (a[1].current - Reached(a[1]))
    case Min => x == Reached(Picked(a[0], a[1], true))
    case Max => x == Reached(Picked(a[0], a[1], false))
    case Abs => x == if a[0].current >= 0.0 then Reached(a[0]) else -Reached(a[0])
    case Clamp => x == Reached(Picked(Picked(a[0], a[1], false), a[2], true))
  }

  lemma ProductComposes(a: seq<Number>)
    requires |a| == 2
    ensures Leads(Mul, a, Reached(Combine(Mul, a).value))
  {
    ProductReaches(a[0].previous, a[0].delta, a[1].previous, a[1].delta);
  }

  lemma QuotientComposes(a: seq<Number>)
    requires |a| == 2 && a[1].current != 0.0
    ensures Leads(Div, a, Reached(Combine(Div, a).value))
  {
    if a[1].previous != 0.0 {
      QuotientReaches(a[0].previous, a[0].delta, a[1].previous, a[1].delta, a[1].current);
    }
  }

  lemma SelectionComposes(op: Operator, a: seq<Number>)
    requires op in {Abs, Clamp, Min, Max} && |a| == OperatorArity(op) && Combine(op, a).Some?
    ensures Leads(op, a, Reached(Combine(op, a).value))
  {
    match op
    case Abs => SelectReaches(a[0], Negate(a[0]), false);
    case Clamp =>
      SelectReaches(a[0], a[1], false);
      SelectReaches(Select(a[0], a[1], false), a[2], true);
    case Min => SelectReaches(a[0], a[1], true);
    case Max => SelectReaches(a[0], a[1], false);
  }

  /** The differences of all operators, also from inexact ones. */
  lemma DifferencesCompose(op: Operator, a: seq<Number>)
    requires |a| == OperatorArity(op) && Combine(op, a).Some?
    ensures Leads(op, a, Reached(Combine(op, a).value))
  {
    match op
    case Mul => ProductComposes(a);
    case Div => QuotientComposes(a);
    case Neg =>
    case Add =>
    case Sub =>
    case _ => SelectionComposes(op, a);
  }

  lemma ProductReaches(p: real, d: real, q: real, e: real)
    ensures p * q + (p * e + q * d + d * e) == (p + d) * (q + e)
  {
  }

  lemma QuotientReaches(p: real, d: real, q: real, e: real, c: real)
    requires q != 0.0 && c != 0.0
    ensures (p / q + (d - p / q * e) / c) * c == (p + d) + p / q * (c - (q + e))
  {
    var r := p / q;
    assert r * q == p;
    assert (r + (d - r * e) / c) * c == r * c + (d - r * e);
    assert r * (c - (q + e)) == r * c - r * q - r * e;
  }

  // ----- running the postfix form of a tree -----

  /** The cell `n` is what tree `e` denotes: its current value and, unless a previous divisor is
      zero, its previous value and from exact inputs the exact difference. */
  ghost predicate Denotes(n: Number, e: Expr, parameters: seq<real>, inputs: seq<Number>)
    requires WellFormed(e)
  {
    && n.current == Value(e, Observe(parameters, Current(inputs)))
    && (DivisorsNonZero(e, Observe(parameters, Previous(inputs))) ==>
          n.previous == Value(e, Observe(parameters, Previous(inputs))) && (AllExact(inputs) ==> Exact(n)))
  }

  ghost predicate AllDenote(ns: seq<Number>, es: seq<Expr>, parameters: seq<real>, inputs: seq<Number>)
    requires AllWellFormed(es)
  {
    && Current(ns) == Values(es, Observe(parameters, Current(inputs)))
    && (AllDivisorsNonZero(es, Observe(parameters, Previous(inputs))) ==>
          Previous(ns) == Values(es, Observe(parameters, Previous(inputs))) && (AllExact(inputs) ==> AllExact(ns)))
  }

  lemma {:induction false} RunPostfix(e: Expr, rest: seq<Instruction>, parameters: seq<real>,
                                      inputs: seq<Number>, stack: seq<Number>) returns (n: Number)
    requires WellFormed(e)
    requires |parameters| == PARAM_COUNT
    requires KnownOperands(Postfix(e) + rest, |inputs|)
    ensures KnownOperands(rest, |inputs|)
    ensures Admissible(e, Observe(parameters, Current(inputs))) ==>
              && Denotes(n, e, parameters, inputs)
              && Run(Postfix(e) + rest, parameters, inputs, stack) == Run(rest, parameters, inputs, stack + [n])
    ensures !Admissible(e, Observe(parameters, Current(inputs))) ==>
              Run(Postfix(e) + rest, parameters, inputs, stack) == None
    decreases e, 1
  {
    var code := Postfix(e) + rest;
    var now := Observe(parameters, Current(inputs));
    KnownSuffix(Postfix(e), rest, |inputs|);
    match e
    case Leaf(source) =>
      assert KnownOperand(code[0], |inputs|);
      assert code[1..] == rest && stack[..|stack|] == stack;
      n := Fetch(source, parameters, inputs);
    case Node(op, args) =>
      var tail := [Apply(op)] + rest;
      assert code == PostfixAll(args) + tail;
      var ns := RunPostfixAll(args, tail, parameters, inputs, stack);
      assert tail[1..] == rest;
      n := Number(0.0, 0.0, 0.0);
      if AllAdmissible(args, now) {
        var full := stack + ns;
        assert |ns| == |Current(ns)| == OperatorArity(op);
        assert full[..|full| - |ns|] == stack && full[|full| - |ns|..] == ns;
        CombineColumns(op, ns);
        if Accepts(op, Values(args, now)) {
          n := Combine(op, ns).value;
        }
      }
  }

  lemma {:induction false} RunPostfixAll(es: seq<Expr>, rest: seq<Instruction>, parameters: seq<real>,
                                         inputs: seq<Number>, stack: seq<Number>) returns (ns: seq<Number>)
    requires AllWellFormed(es)
    requires |parameters| == PARAM_COUNT
    requires KnownOperands(PostfixAll(es) + rest, |inputs|)
    ensures KnownOperands(rest, |inputs|)
    ensures AllAdmissible(es, Observe(parameters, Current(inputs))) ==>
              && AllDenote(ns, es, parameters, inputs)
              && Run(PostfixAll(es) + rest, parameters, inputs, stack) == Run(rest, parameters, inputs, stack + ns)
    ensures !AllAdmissible(es, Observe(parameters, Current(inputs))) ==>
              Run(PostfixAll(es) + rest, parameters, inputs, stack) == None
    decreases es, 0
  {
    KnownSuffix(PostfixAll(es), rest, |inputs|);
    if es == [] {
      ns := [];
      assert PostfixAll(es) + rest == rest && stack + ns == stack;
    } else {
      var tail := PostfixAll(es[1..]) + rest;
      assert PostfixAll(es) + rest == Postfix(es[0]) + tail;
      var n := RunPostfix(es[0], tail, parameters, inputs, stack);
      var more := RunPostfixAll(es[1..], rest, parameters, inputs, stack + [n]);
      ns := [n] + more;
      assert stack + [n] + more == stack + ns;
      assert Previous(ns) == [n.previous] + Previous(more);
      assert Current(ns) == [n.current] + Current(more);
    }
  }

  lemma KnownSuffix(a: seq<Instruction>, b: seq<Instruction>, loads: nat)
    requires KnownOperands(a + b, loads)
    ensures KnownOperands(b, loads)
  {
    forall i | 0 <= i < |b|
      ensures KnownOperand(b[i], loads)
    {
      assert (a + b)[|a| + i] == b[i];
    }
  }

  // ----- the evaluator -----

  /** Running a valid program succeeds exactly when its tree is admissible on the current
      inputs, and leaves the one cell that tree denotes. */
  lemma ProgramMeaning(p: Program, parameters: seq<real>, inputs: seq<Number>) returns (n: Number)
    requires Valid(p)
    requires |parameters| == PARAM_COUNT && |inputs| == |p.dependencies|
    ensures Run(p.code, parameters, inputs, []) ==
            if Admissible(Tree(p), Observe(parameters, Current(inputs))) then Some([n]) else None
    ensures Admissible(Tree(p), Observe(parameters, Current(inputs))) ==> Denotes(n, Tree(p), parameters, inputs)
  {
    assert Postfix(Tree(p)) + [] == p.code;
    n := RunPostfix(Tree(p), [], parameters, inputs, []);
    assert [] + [n] == [n];
  }

  /** The first instruction of a run, with its cells on top of the stack. */
  lemma RunFirst(i: Instruction, rest: seq<Instruction>, parameters: seq<real>, inputs: seq<Number>,
                                    below: seq<Number>, cells: seq<Number>)
    requires |parameters| == PARAM_COUNT && KnownOperands([i] + rest, |inputs|) && |cells| == Arity(i)
    ensures KnownOperand(i, |inputs|) && KnownOperands(rest, |inputs|)
    ensures var result := Outcome(i, parameters, inputs, cells);
            Run([i] + rest, parameters, inputs, below + cells) ==
              if result.Some? then Run(rest, parameters, inputs, below + [result.value]) else None
  {
    var code, stack := [i] + rest, below + cells;
    assert code[0] == i && code[1..] == rest;
    assert stack[..|below|] == below && stack[|below|..] == cells;
  }

  lemma HeightFirst(i: Instruction, rest: seq<Instruction>, height: nat)
    requires Height([i] + rest, height) == Some(1)
    ensures Arity(i) <= height && height - Arity(i) < MAX_STACK && Height(rest, height - Arity(i) + 1) == Some(1)
  {
    assert ([i] + rest)[1..] == rest;
  }

  /** One instruction on the fixed stack: its cells are taken from the top and its result is
      pushed, or it fails. */
  method Execute(i: Instruction, parameters: seq<real>, inputs: seq<Number>, stack: array<Number>, size: nat,
                 ghost rest: seq<Instruction>)
    returns (ok: bool, next: nat)
    requires stack.Length == MAX_STACK && size <= MAX_STACK && |parameters| == PARAM_COUNT
    requires KnownOperands([i] + rest, |inputs|) && Height([i] + rest, size) == Some(1)
    modifies stack
    ensures KnownOperands(rest, |inputs|)
    ensures ok ==> 0 < next <= MAX_STACK && Height(rest, next) == Some(1)
    ensures Run([i] + rest, parameters, inputs, old(stack[..size])) ==
              if ok then Run(rest, parameters, inputs, stack[..next]) else None
  {
    HeightFirst(i, rest, size);
    next := size - Arity(i);
    var cells := stack[next..size];
    ghost var below := stack[..next];
    assert stack[..size] == below + cells;
    RunFirst(i, rest, parameters, inputs, below, cells);
    var result := Outcome(i, parameters, inputs, cells);
    if result.None? {
      return false, next;
    }
    stack[next] := result.value;
    next := next + 1;
    assert stack[..next] == below + [result.value];
    ok := true;
  }

  /** Evaluates a validated program on the fixed stack; no cell outside it is touched. */
  method Evaluate(p: Program, parameters: seq<real>, inputs: seq<Number>) returns (ok: bool, output: Number)
    requires Valid(p)
    requires |parameters| == PARAM_COUNT && |inputs| == |p.dependencies|
    ensures Run(p.code, parameters, inputs, []) == if ok then Some([output]) else None
  {
    output := Number(0.0, 0.0, 0.0);
    var stack := new Number[MAX_STACK](_ => Number(0.0, 0.0, 0.0));
    var size: nat := 0;
    ghost var goal := Run(p.code, parameters, inputs, []);
    assert p.code[0..] == p.code;
    for i := 0 to |p.code|
      invariant size <= MAX_STACK
      invariant Height(p.code[i..], size) == Some(1)
      invariant KnownOperands(p.code[i..], |inputs|)
      invariant Run(p.code[i..], parameters, inputs, stack[..size]) == goal
    {
      assert p.code[i..] == [p.code[i]] + p.code[i + 1..];
      ok, size := Execute(p.code[i], parameters, inputs, stack, size, p.code[i + 1..]);
      if !ok {
        return;
      }
    }
    assert stack[..1] == [stack[0]];
    return true, stack[0];
  }

  // ----- the finite-difference property over runs -----

  /** Inputs whose stored differences are exact and which continue the previous inputs. */
  ghost predicate Chained(run: seq<seq<Number>>, loads: nat) {
    && (forall k | 0 <= k < |run| :: |run[k]| == loads && AllExact(run[k]))
    && (forall k | 0 < k < |run| :: Previous(run[k]) == Current(run[k - 1]))
  }

  function SumDeltas(outputs: seq<Number>): real {
    if outputs == [] then 0.0 else SumDeltas(outputs[..|outputs| - 1]) + outputs[|outputs| - 1].delta
  }

  lemma {:induction false} DeltasTelescope(e: Expr, parameters: seq<real>, loads: nat, run: seq<seq<Number>>, outputs: seq<Number>)
    requires WellFormed(e)
    requires 0 < |run| == |outputs| && Chained(run, loads)
    requires forall k | 0 <= k < |run| ::
               && Denotes(outputs[k], e, parameters, run[k])
               && DivisorsNonZero(e, Observe(parameters, Previous(run[k])))
    ensures SumDeltas(outputs) == outputs[|run| - 1].current - outputs[0].previous
  {
    var last := |run| - 1;
    assert Denotes(outputs[last], e, parameters, run[last]);
    if last > 0 {
      var earlier := run[..last];
      DeltasTelescope(e, parameters, loads, earlier, outputs[..last]);
      assert Denotes(outputs[last - 1], e, parameters, run[last - 1]);
    } else {
      assert outputs[..0] == [];
    }
  }

  /** Over a chained run of observations the published differences add up to the change of the
      expression itself: its last current value minus its first previous value. */
  lemma PublishedDeltasTelescope(p: Program, parameters: seq<real>, run: seq<seq<Number>>, outputs: seq<Number>)
    requires Valid(p) && |parameters| == PARAM_COUNT
    requires 0 < |run| == |outputs| && Chained(run, |p.dependencies|)
    requires forall k | 0 <= k < |run| ::
               && |run[k]| == |p.dependencies|
               && Run(p.code, parameters, run[k], []) == Some([outputs[k]])
               && DivisorsNonZero(Tree(p), Observe(parameters, Previous(run[k])))
    ensures SumDeltas(outputs) == Value(Tree(p), Observe(parameters, Current(run[|run| - 1])))
                                - Value(Tree(p), Observe(parameters, Previous(run[0])))
  {
    forall k | 0 <= k < |run|
      ensures Denotes(outputs[k], Tree(p), parameters, run[k])
    {
      var n := ProgramMeaning(p, parameters, run[k]);
      assert [n][0] == [outputs[k]][0];
    }
    DeltasTelescope(Tree(p), parameters, |p.dependencies|, run, outputs);
    assert Denotes(outputs[0], Tree(p), parameters, run[0]);
    assert Denotes(outputs[|run| - 1], Tree(p), parameters, run[|run| - 1]);
  }
}
