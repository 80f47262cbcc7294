/** The expression language of src/Core/Values/ValueExpression.cpp as concrete syntax trees,
    and a parser for it on text suffixes. A tree keeps every blank of the text it stands for,
    so showing a tree and parsing a text are inverse to each other. */
module Grammar {
  import opened Wrappers
  import opened Numerals
  import opened Expression

  /** Names of the generated value table and their identities. */
  type Catalog = map<string, nat>

  const VALUE_INVALID := 65535
  const ANALOG := 0
  const DIGITAL := 32
  const PULSE_RATE := 48
  const TOTAL := 64
  const CONVERTED_RATE := 80
  const DERIVED := 96
  const DERIVED_CAPACITY := 5

  // ----- characters -----

  predicate IsBlank(c: char) {
    c == ' ' || c == '\t' || c == '\r' || c == '\n'
  }

  predicate IsLetter(c: char) {
    'a' <= c <= 'z'
  }

  predicate IsNameChar(c: char) {
    IsLetter(c) || IsDigit(c) || c == '.' || c == '_'
  }

  predicate IsExponentMark(c: char) {
    c == 'e' || c == 'E'
  }

  predicate Begins(s: string, c: char) {
    s != "" && s[0] == c
  }

  ghost predicate Every(s: string, p: char -> bool) {
    forall i | 0 <= i < |s| :: p(s[i])
  }

  ghost predicate Stops(s: string, p: char -> bool) {
    s != "" ==> !p(s[0])
  }

  /** Length of the longest prefix whose characters all satisfy `p`. */
  function Span(s: string, p: char -> bool): (n: nat)
    ensures n <= |s|
  {
    if s == "" || !p(s[0]) then 0 else 1 + Span(s[1..], p)
  }

  lemma {:induction false} SpanSplits(s: string, p: char -> bool)
    ensures Every(s[..Span(s, p)], p) && Stops(s[Span(s, p)..], p)
    ensures s[..Span(s, p)] + s[Span(s, p)..] == s
  {
    if s != "" && p(s[0]) {
      var n := Span(s[1..], p);
      SpanSplits(s[1..], p);
      assert s[..1 + n] == [s[0]] + s[1..][..n] && s[1 + n..] == s[1..][n..];
    }
  }

  lemma TailOfConcat(a: string, b: string)
    requires a != ""
    ensures (a + b)[0] == a[0] && (a + b)[1..] == a[1..] + b
  {
  }

  lemma {:induction false} SpanOf(a: string, b: string, p: char -> bool)
    requires Every(a, p) && Stops(b, p)
    ensures Span(a + b, p) == |a|
    ensures (a + b)[..|a|] == a && (a + b)[|a|..] == b
  {
    if a == "" {
      assert a + b == b;
    } else {
      TailOfConcat(a, b);
      SpanOf(a[1..], b, p);
    }
  }

  function Trim(s: string): (t: string)
    ensures |t| <= |s|
  {
    s[Span(s, IsBlank)..]
  }

  function Gap(s: string): string {
    s[..Span(s, IsBlank)]
  }

  lemma GapSplits(s: string)
    ensures Every(Gap(s), IsBlank) && Stops(Trim(s), IsBlank)
    ensures Gap(s) + Trim(s) == s
  {
    SpanSplits(s, IsBlank);
  }

  lemma TrimGap(gap: string, s: string)
    requires Every(gap, IsBlank) && Stops(s, IsBlank)
    ensures Trim(gap + s) == s && Gap(gap + s) == gap
  {
    SpanOf(gap, s, IsBlank);
  }

  // ----- decimal literals -----

  datatype Exponent = Exponent(mark: char, sign: string, digits: string)

  datatype Decimal = Decimal(whole: string, point: bool, fraction: string, exponent: Option<Exponent>)

  predicate IsSign(s: string) {
    s == "" || (|s| == 1 && (s[0] == '+' || s[0] == '-'))
  }

  ghost predicate GoodExponent(e: Option<Exponent>) {
    e.Some? ==>
      && IsExponentMark(e.value.mark) && IsSign(e.value.sign)
      && e.value.digits != "" && Every(e.value.digits, IsDigit)
  }

  ghost predicate GoodDecimal(d: Decimal) {
    && Every(d.whole, IsDigit) && Every(d.fraction, IsDigit)
    && (d.whole != "" || d.fraction != "")
    && (!d.point ==> d.fraction == "")
    && GoodExponent(d.exponent)
  }

  function ShowExponentOn(e: Option<Exponent>, rest: string): string {
    match e
    case None => rest
    case Some(x) => [x.mark] + (x.sign + (x.digits + rest))
  }

  function ShowDecimalOn(d: Decimal, rest: string): string {
    d.whole + if d.point then "." + (d.fraction + ShowExponentOn(d.exponent, rest))
              else ShowExponentOn(d.exponent, rest)
  }

  function ScanExponent(s: string): Option<(Option<Exponent>, string)> {
    if s == "" || !IsExponentMark(s[0]) then Some((None, s))
    else
      var t := s[1..];
      var signed := if Begins(t, '+') || Begins(t, '-') then 1 else 0;
      var n := Span(t[signed..], IsDigit);
      if n == 0 then None
      else Some((Some(Exponent(s[0], t[..signed], t[signed..][..n])), t[signed..][n..]))
  }

  function ScanDecimal(s: string): Option<(Decimal, string)> {
    var n := Span(s, IsDigit);
    var tail := s[n..];
    if Begins(tail, '.') then
      var m := Span(tail[1..], IsDigit);
      Finish(s[..n], true, tail[1..][..m], tail[1..][m..])
    else Finish(s[..n], false, "", tail)
  }

  function Finish(whole: string, point: bool, fraction: string, s: string): Option<(Decimal, string)> {
    if whole == "" && fraction == "" then None
    else
      var (exponent, rest) :- ScanExponent(s);
      Some((Decimal(whole, point, fraction, exponent), rest))
  }

  lemma Halves(s: string, n: nat)
    requires n <= |s|
    ensures s[..n] + s[n..] == s
  {
  }

  lemma ScanExponentSound(s: string)
    ensures var r := ScanExponent(s);
            r.Some? ==> ShowExponentOn(r.value.0, r.value.1) == s && |r.value.1| <= |s|
    ensures var r := ScanExponent(s);
            r.Some? ==> GoodExponent(r.value.0)
  {
    if s != "" && IsExponentMark(s[0]) {
      var t := s[1..];
      var signed := if Begins(t, '+') || Begins(t, '-') then 1 else 0;
      var digits := t[signed..];
      SpanSplits(digits, IsDigit);
      Halves(t, signed);
      Halves(s, 1);
      assert s[..1] == [s[0]];
    }
  }

  lemma ScanDecimalSound(s: string)
    ensures var r := ScanDecimal(s);
            r.Some? ==>
              && GoodDecimal(r.value.0)
              && ShowDecimalOn(r.value.0, r.value.1) == s
              && |r.value.1| < |s|
  {
    var n := Span(s, IsDigit);
    var tail := s[n..];
    SpanSplits(s, IsDigit);
    if Begins(tail, '.') {
      var m := Span(tail[1..], IsDigit);
      Halves(tail, 1);
      assert tail[..1] == ".";
      SpanSplits(tail[1..], IsDigit);
      ScanExponentSound(tail[1..][m..]);
    } else {
      ScanExponentSound(tail);
    }
  }

  /** A literal ends before any character that cannot extend it. */
  ghost predicate TokenEnds(s: string) {
    s != "" ==> !IsNameChar(s[0]) && s[0] != 'E'
  }

  lemma ScanExponentComplete(e: Option<Exponent>, rest: string)
    requires GoodExponent(e) && TokenEnds(rest)
    ensures ScanExponent(ShowExponentOn(e, rest)) == Some((e, rest))
  {
    if e.Some? {
      SignSplits(e.value.sign, e.value.digits + rest);
      SpanOf(e.value.digits, rest, IsDigit);
      TailOfConcat([e.value.mark], e.value.sign + (e.value.digits + rest));
    }
  }

  lemma SignSplits(sign: string, digits: string)
    requires IsSign(sign) && digits != "" && IsDigit(digits[0])
    ensures var t := sign + digits;
            && |sign| == (if Begins(t, '+') || Begins(t, '-') then 1 else 0)
            && t[..|sign|] == sign && t[|sign|..] == digits
  {
  }

  lemma ScanDecimalComplete(d: Decimal, rest: string)
    requires GoodDecimal(d) && TokenEnds(rest)
    ensures ScanDecimal(ShowDecimalOn(d, rest)) == Some((d, rest))
  {
    var power := ShowExponentOn(d.exponent, rest);
    ScanExponentComplete(d.exponent, rest);
    PowerStops(d.exponent, rest);
    if d.point {
      SpanOf(d.fraction, power, IsDigit);
      SpanOf(d.whole, "." + (d.fraction + power), IsDigit);
      assert ("." + (d.fraction + power))[1..] == d.fraction + power;
    } else {
      SpanOf(d.whole, power, IsDigit);
    }
  }

  lemma PowerStops(e: Option<Exponent>, rest: string)
    requires GoodExponent(e) && TokenEnds(rest)
    ensures Stops(ShowExponentOn(e, rest), IsDigit) && !Begins(ShowExponentOn(e, rest), '.')
  {
  }

  function DigitValue(c: char): int {
    c as int - '0' as int
  }

  function DigitsValue(s: string): int {
    if s == "" then 0 else DigitsValue(s[..|s| - 1]) * 10 + DigitValue(s[|s| - 1])
  }

  function Scale(x: real, power: int): real
    decreases if power < 0 then -power else power
  {
    if power == 0 then x
    else if power > 0 then Scale(x, power - 1) * 10.0
    else Scale(x, power + 1) / 10.0
  }

  /** The number a literal denotes, as `strtod` reads it. */
  function DecimalValue(d: Decimal): real {
    var power :=
      match d.exponent
      case None => 0
      case Some(x) => if x.sign == "-" then -DigitsValue(x.digits) else DigitsValue(x.digits);
    Scale(DigitsValue(d.whole + d.fraction) as real, power - |d.fraction|)
  }

  // ----- names -----

  predicate IsParameterName(name: string) {
    |name| == 2 && name[0] == 'k' && '0' <= name[1] <= '3'
  }

  function CatalogId(catalog: Catalog, name: string): nat {
    if name in catalog then catalog[name] else VALUE_INVALID
  }

  /** Names that must denote a value: catalogued ones, and those numbered like `a07`. */
  predicate IsReference(catalog: Catalog, name: string) {
    || CatalogId(catalog, name) != VALUE_INVALID
    || (|name| >= 3 && IsDigit(name[1]) && IsDigit(name[2]))
  }

  /** The identity a reference resolves to. The index is unsigned 32-bit arithmetic. */
  function ReferenceId(catalog: Catalog, name: string): nat {
    var id := CatalogId(catalog, name);
    if |name| < 3 then id
    else
      var index := (DigitValue(name[1]) * 10 + DigitValue(name[2])) % 0x1_0000_0000;
      if |name| == 3 && name[0] == 'a' && index < 32 then ANALOG + index
      else if |name| == 3 && name[0] == 'v' && index < DERIVED_CAPACITY then DERIVED + index
      else if name[0] == 'i' && index < 16 then
        if name[3..] == ".count" then DIGITAL + index
        else if name[3..] == ".total" then TOTAL + index
        else if name[3..] == ".rate" then PULSE_RATE + index
        else if name[3..] == ".flow" then CONVERTED_RATE + index
        else id
      else id
  }

  function FunctionOf(name: string): Option<Operator> {
    if name == "min" then Some(Min)
    else if name == "max" then Some(Max)
    else if name == "abs" then Some(Abs)
    else if name == "clamp" then Some(Clamp)
    else None
  }

  // ----- concrete syntax -----

  datatype Cst =
    | Infix(left: Cst, symbol: char, gap: string, right: Cst)
    | Minus(gap: string, operand: Cst)
    | Paren(gap: string, inner: Cst, gapAfter: string)
    | Number(literal: Decimal, gap: string)
    | Name(name: string, gap: string)
    | Call(name: string, gapName: string, gapOpen: string, args: Args, gap: string)

  datatype Args = Last(arg: Cst) | More(arg: Cst, gap: string, others: Args)

  predicate IsSumSymbol(c: char) {
    c == '+' || c == '-'
  }

  predicate IsTermSymbol(c: char) {
    c == '*' || c == '/'
  }

  /** Binding strength: 0 for sums, 1 for products, 2 for anything a sign may precede. */
  function Level(c: Cst): nat {
    if !c.Infix? then 2 else if IsSumSymbol(c.symbol) then 0 else 1
  }

  predicate IsName(name: string) {
    && name != "" && !IsDigit(name[0]) && name[0] != '.'
    && forall i | 0 <= i < |name| :: IsNameChar(name[i])
  }

  predicate IsLeafName(catalog: Catalog, name: string) {
    IsParameterName(name) || (IsReference(catalog, name) && ReferenceId(catalog, name) != VALUE_INVALID)
  }

  predicate IsFunctionName(catalog: Catalog, name: string) {
    FunctionOf(name).Some? && !IsReference(catalog, name)
  }

  function Count(args: Args): nat {
    match args
    case Last(_) => 1
    case More(_, _, others) => 1 + Count(others)
  }

  /** The grammar: left-associative sums of left-associative products of primaries. */
  ghost predicate Grammatical(catalog: Catalog, c: Cst) {
    match c
    case Infix(left, symbol, gap, right) =>
      && (IsSumSymbol(symbol) || IsTermSymbol(symbol))
      && Level(left) >= Level(c) && Level(right) > Level(c)
      && Every(gap, IsBlank)
      && Grammatical(catalog, left) && Grammatical(catalog, right)
    case Minus(gap, operand) =>
      Every(gap, IsBlank) && Level(operand) == 2 && Grammatical(catalog, operand)
    case Paren(gap, inner, gapAfter) =>
      Every(gap, IsBlank) && Every(gapAfter, IsBlank) && Grammatical(catalog, inner)
    case Number(literal, gap) =>
      GoodDecimal(literal) && Every(gap, IsBlank)
    case Name(name, gap) =>
      IsName(name) && IsLeafName(catalog, name) && Every(gap, IsBlank)
    case Call(name, gapName, gapOpen, args, gap) =>
      && IsFunctionName(catalog, name)
      && Every(gapName, IsBlank) && Every(gapOpen, IsBlank) && Every(gap, IsBlank)
      && Count(args) == OperatorArity(FunctionOf(name).value)
      && GrammaticalArgs(catalog, args)
  }

  ghost predicate GrammaticalArgs(catalog: Catalog, args: Args) {
    match args
    case Last(arg) => Grammatical(catalog, arg)
    case More(arg, gap, others) =>
      Grammatical(catalog, arg) && Every(gap, IsBlank) && GrammaticalArgs(catalog, others)
  }

  /** The text of a tree followed by `rest`. */
  function ShowOn(c: Cst, rest: string): (s: string)
    ensures |s| >= |rest|
  {
    match c
    case Infix(left, symbol, gap, right) => ShowOn(left, [symbol] + (gap + ShowOn(right, rest)))
    case Minus(gap, operand) => "-" + (gap + ShowOn(operand, rest))
    case Paren(gap, inner, gapAfter) => "(" + (gap + ShowOn(inner, ")" + (gapAfter + rest)))
    case Number(literal, gap) => ShowDecimalOn(literal, gap + rest)
    case Name(name, gap) => name + (gap + rest)
    case Call(name, gapName, gapOpen, args, gap) =>
      name + (gapName + ("(" + (gapOpen + ShowArgsOn(args, ")" + (gap + rest)))))
  }

  function ShowArgsOn(args: Args, rest: string): (s: string)
    ensures |s| >= |rest|
  {
    match args
    case Last(arg) => ShowOn(arg, rest)
    case More(arg, gap, others) => ShowOn(arg, "," + (gap + ShowArgsOn(others, rest)))
  }

  /** How deep signs, parentheses and calls nest. */
  function Nesting(c: Cst): nat {
    match c
    case Infix(left, _, _, right) => Larger(Nesting(left), Nesting(right))
    case Minus(_, operand) => 1 + Nesting(operand)
    case Paren(_, inner, _) => 1 + Nesting(inner)
    case Number(_, _) => 0
    case Name(_, _) => 0
    case Call(_, _, _, args, _) => 1 + NestingArgs(args)
  }

  function NestingArgs(args: Args): nat {
    match args
    case Last(arg) => Nesting(arg)
    case More(arg, _, others) => Larger(Nesting(arg), NestingArgs(others))
  }

  // ----- parsing -----

  const MAX_DEPTH := MAX_INSTRUCTIONS

  /** `take`: the text after character `c` and the blanks behind it. */
  function Take(s: string, c: char): (r: Option<string>)
    ensures r.Some? <==> Begins(s, c)
    ensures r.Some? ==> |r.value| < |s|
  {
    if Begins(s, c) then Some(Trim(s[1..])) else None
  }

  function ParseExpression(catalog: Catalog, s: string, depth: nat): (r: Option<(Cst, string)>)
    ensures r.Some? ==> |r.value.1| < |s|
    decreases |s|, 5
  {
    var (left, rest) :- ParseProduct(catalog, s, depth);
    ParseSums(catalog, left, rest, depth)
  }

  function ParseSums(catalog: Catalog, left: Cst, s: string, depth: nat): (r: Option<(Cst, string)>)
    ensures r.Some? ==> |r.value.1| <= |s|
    decreases |s|, 4
  {
    if s != "" && IsSumSymbol(s[0]) then
      var (right, rest) :- ParseProduct(catalog, Trim(s[1..]), depth);
      ParseSums(catalog, Infix(left, s[0], Gap(s[1..]), right), rest, depth)
    else Some((left, s))
  }

  function ParseProduct(catalog: Catalog, s: string, depth: nat): (r: Option<(Cst, string)>)
    ensures r.Some? ==> |r.value.1| < |s|
    decreases |s|, 3
  {
    var (left, rest) :- ParsePrimary(catalog, s, depth);
    ParseTerms(catalog, left, rest, depth)
  }

  function ParseTerms(catalog: Catalog, left: Cst, s: string, depth: nat): (r: Option<(Cst, string)>)
    ensures r.Some? ==> |r.value.1| <= |s|
    decreases |s|, 2
  {
    if s != "" && IsTermSymbol(s[0]) then
      var (right, rest) :- ParsePrimary(catalog, Trim(s[1..]), depth);
      ParseTerms(catalog, Infix(left, s[0], Gap(s[1..]), right), rest, depth)
    else Some((left, s))
  }

  function ParsePrimary(catalog: Catalog, s: string, depth: nat): (r: Option<(Cst, string)>)
    ensures r.Some? ==> |r.value.1| < |s|
    decreases |s|, 1
  {
    if depth >= MAX_DEPTH || s == "" then None
    else if s[0] == '-' then ParseSigned(catalog, s, depth)
    else if s[0] == '(' then ParseParen(catalog, s, depth)
    else if IsDigit(s[0]) || s[0] == '.' then ParseNumber(s)
    else ParseWord(catalog, s, depth)
  }

  function ParseSigned(catalog: Catalog, s: string, depth: nat): (r: Option<(Cst, string)>)
    requires s != ""
    ensures r.Some? ==> |r.value.1| < |s|
    decreases |s|, 0
  {
    var (operand, rest) :- ParsePrimary(catalog, Trim(s[1..]), depth + 1);
    Some((Minus(Gap(s[1..]), operand), rest))
  }

  function ParseParen(catalog: Catalog, s: string, depth: nat): (r: Option<(Cst, string)>)
    requires s != ""
    ensures r.Some? ==> |r.value.1| < |s|
    decreases |s|, 0
  {
    var (inner, rest) :- ParseExpression(catalog, Trim(s[1..]), depth + 1);
    var after :- Take(rest, ')');
    Some((Paren(Gap(s[1..]), inner, Gap(rest[1..])), after))
  }

  function ParseNumber(s: string): (r: Option<(Cst, string)>)
    ensures r.Some? ==> |r.value.1| < |s|
  {
    ScanDecimalSound(s);
    var (literal, rest) :- ScanDecimal(s);
    Some((Number(literal, Gap(rest)), Trim(rest)))
  }

  function ParseWord(catalog: Catalog, s: string, depth: nat): (r: Option<(Cst, string)>)
    ensures r.Some? ==> |r.value.1| < |s|
    decreases |s|, 0
  {
    var n := Span(s, IsNameChar);
    if n == 0 then None
    else if IsParameterName(s[..n]) || IsReference(catalog, s[..n]) then
      if IsLeafName(catalog, s[..n]) then Some((Name(s[..n], Gap(s[n..])), Trim(s[n..]))) else None
    else
      var op :- FunctionOf(s[..n]);
      var (call, rest) :- ParseCall(catalog, s[..n], OperatorArity(op), s[n..], depth);
      Some((call, rest))
  }

  function ParseCall(catalog: Catalog, name: string, arity: nat, s: string, depth: nat): (r: Option<(Cst, string)>)
    requires arity >= 1
    ensures r.Some? ==> |r.value.1| < |s|
    decreases |s|, 7
  {
    var inside :- Take(Trim(s), '(');
    var (args, rest) :- ParseArgs(catalog, arity, inside, depth + 1);
    var after :- Take(rest, ')');
    Some((Call(name, Gap(s), Gap(Trim(s)[1..]), args, Gap(rest[1..])), after))
  }

  function ParseArgs(catalog: Catalog, n: nat, s: string, depth: nat): (r: Option<(Args, string)>)
    requires n >= 1
    ensures r.Some? ==> |r.value.1| < |s|
    decreases |s|, 6
  {
    var (arg, rest) :- ParseExpression(catalog, s, depth);
    if n == 1 then Some((Last(arg), rest))
    else
      var after :- Take(rest, ',');
      var (others, final) :- ParseArgs(catalog, n - 1, after, depth);
      Some((More(arg, Gap(rest[1..]), others), final))
  }
}
