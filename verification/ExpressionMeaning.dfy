/** What an expression text means, read off its symbols and words alone, and the proof that the
    compiler's abstract syntax means the same. */
module ExpressionMeaning {
  import opened Wrappers
  import opened Numerals
  import opened Expression
  import opened Evaluator
  import opened Grammar
  import opened GrammarProofs
  import opened Compiler

  // ----- numbers -----

  /** Digits behind the point: each counts a tenth of the one before. */
  function Fraction(s: string): real {
    if s == "" then 0.0 else (DigitOf(s[0]) as real + Fraction(s[1..])) / 10.0
  }

  function Raised(x: real, n: nat): real {
    if n == 0 then x else 10.0 * Raised(x, n - 1)
  }

  function Lowered(x: real, n: nat): real {
    if n == 0 then x else Lowered(x, n - 1) / 10.0
  }

  /** The number a decimal literal spells. */
  function Spelled(d: Decimal): real {
    var mantissa := Natural(d.whole) as real + Fraction(d.fraction);
    match d.exponent
    case None => mantissa
    case Some(x) => if x.sign == "-" then Lowered(mantissa, Natural(x.digits)) else Raised(mantissa, Natural(x.digits))
  }

  // ----- expressions -----

  /** Values of the parameters k0 to k3 and of the identified data values. */
  datatype Readings = Readings(parameter: nat -> real, value: nat -> real)

  ghost function Meant(catalog: Catalog, c: Cst, r: Readings): real {
    match c
    case Infix(left, symbol, _, right) =>
      var x, y := Meant(catalog, left, r), Meant(catalog, right, r);
      if symbol == '+' then x + y
      else if symbol == '-' then x - y
      else if symbol == '*' then x * y
      else if y != 0.0 then x / y else 0.0
    case Minus(_, operand) => -Meant(catalog, operand, r)
    case Paren(_, inner, _) => Meant(catalog, inner, r)
    case Number(literal, _) => Spelled(literal)
    case Name(name, _) =>
      if name == "k0" then r.parameter(0)
      else if name == "k1" then r.parameter(1)
      else if name == "k2" then r.parameter(2)
      else if name == "k3" then r.parameter(3)
      else r.value(ReferenceId(catalog, name))
    case Call(name, _, _, args, _) =>
      var xs := MeantArgs(catalog, args, r);
      if name == "min" && |xs| == 2 then (if xs[0] <= xs[1] then xs[0] else xs[1])
      else if name == "max" && |xs| == 2 then (if xs[0] >= xs[1] then xs[0] else xs[1])
      else if name == "abs" && |xs| == 1 then (if xs[0] >= 0.0 then xs[0] else -xs[0])
      else if name == "clamp" && |xs| == 3 then
        var raised := if xs[0] < xs[1] then xs[1] else xs[0];
        if raised > xs[2] then xs[2] else raised
      else 0.0
  }

  ghost function MeantArgs(catalog: Catalog, args: Args, r: Readings): seq<real> {
    match args
    case Last(arg) => [Meant(catalog, arg, r)]
    case More(arg, _, others) => [Meant(catalog, arg, r)] + MeantArgs(catalog, others, r)
  }

  /** No divisor is zero. */
  ghost predicate Divisible(catalog: Catalog, c: Cst, r: Readings) {
    match c
    case Infix(left, symbol, _, right) =>
      && Divisible(catalog, left, r) && Divisible(catalog, right, r)
      && (symbol == '/' ==> Meant(catalog, right, r) != 0.0)
    case Minus(_, operand) => Divisible(catalog, operand, r)
    case Paren(_, inner, _) => Divisible(catalog, inner, r)
    case Number(_, _) => true
    case Name(_, _) => true
    case Call(_, _, _, args, _) => AllDivisible(catalog, args, r)
  }

  ghost predicate AllDivisible(catalog: Catalog, args: Args, r: Readings) {
    match args
    case Last(arg) => Divisible(catalog, arg, r)
    case More(arg, _, others) => Divisible(catalog, arg, r) && AllDivisible(catalog, others, r)
  }

  /** No divisor is zero and no clamp has its low bound above its high one. */
  ghost predicate Defined(catalog: Catalog, c: Cst, r: Readings) {
    match c
    case Infix(left, symbol, _, right) =>
      && Defined(catalog, left, r) && Defined(catalog, right, r)
      && (symbol == '/' ==> Meant(catalog, right, r) != 0.0)
    case Minus(_, operand) => Defined(catalog, operand, r)
    case Paren(_, inner, _) => Defined(catalog, inner, r)
    case Number(_, _) => true
    case Name(_, _) => true
    case Call(name, _, _, args, _) =>
      var xs := MeantArgs(catalog, args, r);
      AllDefined(catalog, args, r) && (name == "clamp" && |xs| == 3 ==> xs[1] <= xs[2])
  }

  ghost predicate AllDefined(catalog: Catalog, args: Args, r: Readings) {
    match args
    case Last(arg) => Defined(catalog, arg, r)
    case More(arg, _, others) => Defined(catalog, arg, r) && AllDefined(catalog, others, r)
  }

  // ----- which trees are grammatical -----

  predicate IsSum(c: Cst) {
    c.Infix? && (c.symbol == '+' || c.symbol == '-')
  }

  /** Four symbols; products bind tighter than sums, both group to the left, and a leading minus
      takes no operator without parentheses. */
  lemma Precedence(catalog: Catalog, c: Cst)
    ensures c.Infix? ==>
              (Grammatical(catalog, c) <==>
                && (c.symbol == '+' || c.symbol == '-' || c.symbol == '*' || c.symbol == '/')
                && !IsSum(c.right)
                && (c.symbol == '*' || c.symbol == '/' ==> !IsSum(c.left) && !c.right.Infix?)
                && Every(c.gap, IsBlank) && Grammatical(catalog, c.left) && Grammatical(catalog, c.right))
    ensures c.Minus? ==>
              (Grammatical(catalog, c) <==>
                !c.operand.Infix? && Every(c.gap, IsBlank) && Grammatical(catalog, c.operand))
  {
  }

  /** Four function names, each with its number of arguments; none of them hides a catalog name. */
  lemma Functions(catalog: Catalog, c: Cst)
    requires c.Call? && Grammatical(catalog, c)
    ensures c.name == "min" || c.name == "max" ==> Count(c.args) == 2
    ensures c.name == "abs" ==> Count(c.args) == 1
    ensures c.name == "clamp" ==> Count(c.args) == 3
    ensures c.name == "min" || c.name == "max" || c.name == "abs" || c.name == "clamp"
  {
  }

  // ----- literals agree -----

  lemma {:induction false} NaturalAgrees(s: string)
    requires Every(s, IsDigit)
    ensures DigitsValue(s) == Natural(s)
  {
    if s != "" {
      DigitsAgree(s[|s| - 1]);
      NaturalAgrees(s[..|s| - 1]);
    }
  }

  /** Scaling down by the number of digits behind the point puts the point in its place. */
  lemma {:induction false} PointInPlace(w: string, f: string)
    ensures Lowered(Natural(w + f) as real, |f|) == Natural(w) as real + Fraction(f)
    decreases |f|
  {
    if f == "" {
      assert w + f == w;
    } else {
      var longer := w + [f[0]];
      assert w + f == longer + f[1..];
      assert longer[..|longer| - 1] == w;
      PointInPlace(longer, f[1..]);
    }
  }

  lemma {:induction false} ScaleLowers(x: real, n: nat)
    ensures Scale(x, -(n as int)) == Lowered(x, n)
  {
    if n > 0 {
      ScaleLowers(x, n - 1);
    }
  }

  lemma {:induction false} ScaleRaises(x: real, n: nat)
    ensures Scale(x, n) == Raised(x, n)
  {
    if n > 0 {
      ScaleRaises(x, n - 1);
    }
  }

  lemma ScaleStep(x: real, n: int)
    ensures Scale(x, n + 1) == 10.0 * Scale(x, n)
  {
  }

  lemma {:induction false} ScaleAdd(x: real, a: int, b: int)
    ensures Scale(Scale(x, a), b) == Scale(x, a + b)
    decreases if b < 0 then -b else b
  {
    if b > 0 {
      ScaleAdd(x, a, b - 1);
      ScaleStep(x, a + b - 1);
    } else if b < 0 {
      ScaleAdd(x, a, b + 1);
      ScaleStep(x, a + b);
    }
  }

  /** Scaling a mantissa by an exponent and by its digits behind the point at once. */
  lemma ExponentShifts(x: real, n: nat, sign: string, e: nat)
    ensures Scale(x, (if sign == "-" then -(e as int) else e) - n)
              == if sign == "-" then Lowered(Lowered(x, n), e) else Raised(Lowered(x, n), e)
  {
    ScaleLowers(x, n);
    if sign == "-" {
      ScaleAdd(x, -(n as int), -(e as int));
      ScaleLowers(Lowered(x, n), e);
    } else {
      ScaleAdd(x, -(n as int), e);
      ScaleRaises(Lowered(x, n), e);
    }
  }

  /** The literal the compiler emits is the number that was spelled. */
  lemma DecimalIsSpelled(d: Decimal)
    requires GoodDecimal(d)
    ensures DecimalValue(d) == Spelled(d)
  {
    var n, all := |d.fraction|, d.whole + d.fraction;
    NaturalAgrees(all);
    PointInPlace(d.whole, d.fraction);
    match d.exponent
    case None => ScaleLowers(Natural(all) as real, n);
    case Some(x) =>
      NaturalAgrees(x.digits);
      ExponentShifts(Natural(all) as real, n, x.sign, Natural(x.digits));
  }

  /** The literal 1.5e-3 is 0.0015. */
  lemma SpelledExample(d: Decimal)
    requires d == Decimal("1", true, "5", Some(Exponent('e', "-", "3")))
    ensures GoodDecimal(d) && ShowDecimalOn(d, "") == "1.5e-3" && Spelled(d) == 0.0015
  {
    assert Natural("1") == 1 && Natural("3") == 3;
    assert Fraction("5") == 0.5;
    assert ShowExponentOn(d.exponent, "") == "e-3";
    var x := 1.5;
    assert Lowered(x, 1) == 0.15 && Lowered(x, 2) == 0.015;
  }

  // ----- expressions agree -----

  ghost function Observed(r: Readings): Observation {
    Observation(r.parameter, r.value)
  }

  lemma LeafAgrees(catalog: Catalog, name: string, r: Readings)
    requires IsName(name) && IsLeafName(catalog, name)
    ensures Observed(r).Look(LeafOf(catalog, name))
              == if name == "k0" then r.parameter(0)
                 else if name == "k1" then r.parameter(1)
                 else if name == "k2" then r.parameter(2)
                 else if name == "k3" then r.parameter(3)
                 else r.value(ReferenceId(catalog, name))
  {
    if IsParameterName(name) {
      assert '0' as int == 48;
      assert name[1] == '0' || name[1] == '1' || name[1] == '2' || name[1] == '3';
      assert name == [name[0], name[1]];
    }
  }

  /** The abstract syntax of a grammatical tree means what its symbols and words say. */
  lemma {:induction false} AstMeans(catalog: Catalog, c: Cst, r: Readings)
    requires Grammatical(catalog, c)
    ensures WellFormed(Ast(catalog, c))
    ensures Value(Ast(catalog, c), Observed(r)) == Meant(catalog, c, r)
    ensures Admissible(Ast(catalog, c), Observed(r)) <==> Defined(catalog, c, r)
    ensures DivisorsNonZero(Ast(catalog, c), Observed(r)) <==> Divisible(catalog, c, r)
  {
    AstWellFormed(catalog, c);
    match c {
      case Infix(left, symbol, _, right) =>
        AstMeans(catalog, left, r);
        AstMeans(catalog, right, r);
        InfixMeans(catalog, c, r);
        InfixDefined(catalog, c, r);
        InfixDivisible(catalog, c, r);
      case Minus(_, operand) =>
        AstMeans(catalog, operand, r);
        ValuesOfOne(Ast(catalog, operand), Observed(r));
      case Paren(_, inner, _) => AstMeans(catalog, inner, r);
      case Number(literal, _) => DecimalIsSpelled(literal);
      case Name(name, _) => LeafAgrees(catalog, name, r);
      case Call(name, _, _, args, _) =>
        AstArgsMean(catalog, args, r);
        CallMeans(catalog, c, r);
    }
  }

  lemma {:induction false} AstArgsMean(catalog: Catalog, args: Args, r: Readings)
    requires GrammaticalArgs(catalog, args)
    ensures AllWellFormed(AstArgs(catalog, args))
    ensures Values(AstArgs(catalog, args), Observed(r)) == MeantArgs(catalog, args, r)
    ensures AllAdmissible(AstArgs(catalog, args), Observed(r)) <==> AllDefined(catalog, args, r)
    ensures AllDivisorsNonZero(AstArgs(catalog, args), Observed(r)) <==> AllDivisible(catalog, args, r)
  {
    AstArgsWellFormed(catalog, args);
    match args {
      case Last(arg) =>
        AstMeans(catalog, arg, r);
        ValuesOfOne(Ast(catalog, arg), Observed(r));
      case More(arg, _, others) =>
        AstMeans(catalog, arg, r);
        AstArgsMean(catalog, others, r);
        assert ([Ast(catalog, arg)] + AstArgs(catalog, others))[1..] == AstArgs(catalog, others);
    }
  }

  lemma ValuesOfOne(e: Expr, o: Observation)
    requires WellFormed(e)
    ensures AllWellFormed([e]) && Values([e], o) == [Value(e, o)]
    ensures AllAdmissible([e], o) <==> Admissible(e, o)
    ensures AllDivisorsNonZero([e], o) <==> DivisorsNonZero(e, o)
  {
    assert [e][1..] == [];
  }

  lemma ValuesOfTwo(e: Expr, f: Expr, o: Observation)
    requires WellFormed(e) && WellFormed(f)
    ensures AllWellFormed([e, f]) && Values([e, f], o) == [Value(e, o), Value(f, o)]
    ensures AllAdmissible([e, f], o) <==> Admissible(e, o) && Admissible(f, o)
    ensures AllDivisorsNonZero([e, f], o) <==> DivisorsNonZero(e, o) && DivisorsNonZero(f, o)
  {
    assert [e, f][1..] == [f];
    ValuesOfOne(f, o);
  }

  lemma SymbolMeans(symbol: char, x: real, y: real)
    requires IsSumSymbol(symbol) || IsTermSymbol(symbol)
    ensures OperatorArity(OperatorOf(symbol)) == 2
    ensures Operate(OperatorOf(symbol), [x, y]) ==
              if symbol == '+' then x + y
              else if symbol == '-' then x - y
              else if symbol == '*' then x * y
              else if y != 0.0 then x / y else 0.0
    ensures Accepts(OperatorOf(symbol), [x, y]) <==> (symbol == '/' ==> y != 0.0)
    ensures OperatorOf(symbol) == Div <==> symbol == '/'
  {
  }

  lemma {:induction false} InfixMeans(catalog: Catalog, c: Cst, r: Readings)
    requires c.Infix? && (IsSumSymbol(c.symbol) || IsTermSymbol(c.symbol))
    requires WellFormed(Ast(catalog, c.left)) && WellFormed(Ast(catalog, c.right))
    requires Value(Ast(catalog, c.left), Observed(r)) == Meant(catalog, c.left, r)
    requires Value(Ast(catalog, c.right), Observed(r)) == Meant(catalog, c.right, r)
    ensures WellFormed(Ast(catalog, c)) && Value(Ast(catalog, c), Observed(r)) == Meant(catalog, c, r)
  {
    ApplySymbol(c.symbol, Ast(catalog, c.left), Ast(catalog, c.right), Observed(r));
  }

  lemma {:induction false} InfixDefined(catalog: Catalog, c: Cst, r: Readings)
    requires c.Infix? && (IsSumSymbol(c.symbol) || IsTermSymbol(c.symbol))
    requires WellFormed(Ast(catalog, c.left)) && WellFormed(Ast(catalog, c.right))
    requires Value(Ast(catalog, c.right), Observed(r)) == Meant(catalog, c.right, r)
    requires Admissible(Ast(catalog, c.left), Observed(r)) <==> Defined(catalog, c.left, r)
    requires Admissible(Ast(catalog, c.right), Observed(r)) <==> Defined(catalog, c.right, r)
    ensures WellFormed(Ast(catalog, c)) && (Admissible(Ast(catalog, c), Observed(r)) <==> Defined(catalog, c, r))
  {
    ApplySymbol(c.symbol, Ast(catalog, c.left), Ast(catalog, c.right), Observed(r));
  }

  lemma {:induction false} InfixDivisible(catalog: Catalog, c: Cst, r: Readings)
    requires c.Infix? && (IsSumSymbol(c.symbol) || IsTermSymbol(c.symbol))
    requires WellFormed(Ast(catalog, c.left)) && WellFormed(Ast(catalog, c.right))
    requires Value(Ast(catalog, c.right), Observed(r)) == Meant(catalog, c.right, r)
    requires DivisorsNonZero(Ast(catalog, c.left), Observed(r)) <==> Divisible(catalog, c.left, r)
    requires DivisorsNonZero(Ast(catalog, c.right), Observed(r)) <==> Divisible(catalog, c.right, r)
    ensures WellFormed(Ast(catalog, c)) && (DivisorsNonZero(Ast(catalog, c), Observed(r)) <==> Divisible(catalog, c, r))
  {
    ApplySymbol(c.symbol, Ast(catalog, c.left), Ast(catalog, c.right), Observed(r));
  }

  /** What applying an operator symbol to two well-formed expressions does. */
  lemma {:induction false} ApplySymbol(symbol: char, e: Expr, f: Expr, o: Observation)
    requires IsSumSymbol(symbol) || IsTermSymbol(symbol)
    requires WellFormed(e) && WellFormed(f)
    ensures var both := Node(OperatorOf(symbol), [e, f]);
            var x, y := Value(e, o), Value(f, o);
            && WellFormed(both)
            && Value(both, o) == (if symbol == '+' then x + y
                                  else if symbol == '-' then x - y
                                  else if symbol == '*' then x * y
                                  else if y != 0.0 then x / y else 0.0)
            && (Admissible(both, o) <==> Admissible(e, o) && Admissible(f, o) && (symbol == '/' ==> y != 0.0))
            && (DivisorsNonZero(both, o) <==> DivisorsNonZero(e, o) && DivisorsNonZero(f, o) && (symbol == '/' ==> y != 0.0))
  {
    SymbolMeans(symbol, Value(e, o), Value(f, o));
    ValuesOfTwo(e, f, o);
  }

  lemma {:induction false} CallMeans(catalog: Catalog, c: Cst, r: Readings)
    requires c.Call? && IsFunctionName(catalog, c.name) && Count(c.args) == OperatorArity(FunctionOf(c.name).value)
    requires var es, o := AstArgs(catalog, c.args), Observed(r);
             && AllWellFormed(es) && Values(es, o) == MeantArgs(catalog, c.args, r)
             && (AllAdmissible(es, o) <==> AllDefined(catalog, c.args, r))
             && (AllDivisorsNonZero(es, o) <==> AllDivisible(catalog, c.args, r))
    ensures WellFormed(Ast(catalog, c))
    ensures Value(Ast(catalog, c), Observed(r)) == Meant(catalog, c, r)
    ensures Admissible(Ast(catalog, c), Observed(r)) <==> Defined(catalog, c, r)
    ensures DivisorsNonZero(Ast(catalog, c), Observed(r)) <==> Divisible(catalog, c, r)
  {
    assert |Values(AstArgs(catalog, c.args), Observed(r))| == Count(c.args);
  }

  // ----- which values names denote -----

  /** Two digits behind the first letter number analog inputs, derived values and the four readings
      of the pulse counters; every other name denotes what the catalog says. */
  lemma NumberedNames(catalog: Catalog, name: string)
    requires |name| >= 3 && IsDigit(name[1]) && IsDigit(name[2])
    ensures var n, kind, reading := 10 * DigitOf(name[1]) + DigitOf(name[2]), name[0], name[3..];
            ReferenceId(catalog, name) ==
              if kind == 'a' && reading == "" && n < 32 then n
              else if kind == 'v' && reading == "" && n < 5 then 96 + n
              else if kind == 'i' && reading == ".count" && n < 16 then 32 + n
              else if kind == 'i' && reading == ".rate" && n < 16 then 48 + n
              else if kind == 'i' && reading == ".total" && n < 16 then 64 + n
              else if kind == 'i' && reading == ".flow" && n < 16 then 80 + n
              else if name in catalog then catalog[name] else 65535
  {
    DigitsAgree(name[1]);
    DigitsAgree(name[2]);
  }
}
