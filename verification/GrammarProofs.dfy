/** Showing a syntax tree and parsing a text are inverse: what the parser reads shows as the
    text it consumed, and every grammatical tree is read back from its own text. */
module GrammarProofs {
  import opened Wrappers
  import opened Numerals
  import opened Expression
  import opened Grammar

  /** A tree read from `s` at nesting `depth`, with the text left over. */
  ghost predicate Reads(catalog: Catalog, s: string, depth: nat, level: nat, r: Option<(Cst, string)>) {
    r.Some? ==>
      && Grammatical(catalog, r.value.0) && Level(r.value.0) >= level
      && ShowOn(r.value.0, r.value.1) == s
      && depth + Nesting(r.value.0) < MAX_DEPTH
      && Stops(r.value.1, IsBlank)
  }

  ghost predicate ReadsArgs(catalog: Catalog, n: nat, s: string, depth: nat, r: Option<(Args, string)>) {
    r.Some? ==>
      && GrammaticalArgs(catalog, r.value.0) && Count(r.value.0) == n
      && ShowArgsOn(r.value.0, r.value.1) == s
      && depth + NestingArgs(r.value.0) < MAX_DEPTH
      && Stops(r.value.1, IsBlank)
  }

  lemma First(s: string)
    requires s != ""
    ensures s == [s[0]] + (Gap(s[1..]) + Trim(s[1..]))
    ensures Every(Gap(s[1..]), IsBlank) && Stops(Trim(s[1..]), IsBlank)
  {
    GapSplits(s[1..]);
    assert s == [s[0]] + s[1..];
  }

  // ----- soundness -----

  lemma {:induction false} ExpressionSound(catalog: Catalog, s: string, depth: nat)
    ensures Reads(catalog, s, depth, 0, ParseExpression(catalog, s, depth))
    decreases |s|, 5
  {
    ProductSound(catalog, s, depth);
    var r := ParseProduct(catalog, s, depth);
    if r.Some? {
      SumsSound(catalog, r.value.0, r.value.1, depth);
    }
  }

  lemma {:induction false} SumsSound(catalog: Catalog, left: Cst, s: string, depth: nat)
    requires Grammatical(catalog, left) && depth + Nesting(left) < MAX_DEPTH && Stops(s, IsBlank)
    ensures Reads(catalog, ShowOn(left, s), depth, 0, ParseSums(catalog, left, s, depth))
    decreases |s|, 4
  {
    if s != "" && IsSumSymbol(s[0]) {
      First(s);
      ProductSound(catalog, Trim(s[1..]), depth);
      var r := ParseProduct(catalog, Trim(s[1..]), depth);
      if r.Some? {
        SumsSound(catalog, Infix(left, s[0], Gap(s[1..]), r.value.0), r.value.1, depth);
      }
    }
  }

  lemma {:induction false} ProductSound(catalog: Catalog, s: string, depth: nat)
    ensures Reads(catalog, s, depth, 1, ParseProduct(catalog, s, depth))
    decreases |s|, 3
  {
    PrimarySound(catalog, s, depth);
    var r := ParsePrimary(catalog, s, depth);
    if r.Some? {
      TermsSound(catalog, r.value.0, r.value.1, depth);
    }
  }

  lemma {:induction false} TermsSound(catalog: Catalog, left: Cst, s: string, depth: nat)
    requires Grammatical(catalog, left) && Level(left) >= 1
    requires depth + Nesting(left) < MAX_DEPTH && Stops(s, IsBlank)
    ensures Reads(catalog, ShowOn(left, s), depth, 1, ParseTerms(catalog, left, s, depth))
    decreases |s|, 2
  {
    if s != "" && IsTermSymbol(s[0]) {
      First(s);
      PrimarySound(catalog, Trim(s[1..]), depth);
      var r := ParsePrimary(catalog, Trim(s[1..]), depth);
      if r.Some? {
        TermsSound(catalog, Infix(left, s[0], Gap(s[1..]), r.value.0), r.value.1, depth);
      }
    }
  }

  lemma {:induction false} PrimarySound(catalog: Catalog, s: string, depth: nat)
    ensures Reads(catalog, s, depth, 2, ParsePrimary(catalog, s, depth))
    decreases |s|, 1
  {
    if depth >= MAX_DEPTH || s == "" {
    } else if s[0] == '-' {
      SignedSound(catalog, s, depth);
    } else if s[0] == '(' {
      ParenSound(catalog, s, depth);
    } else if IsDigit(s[0]) || s[0] == '.' {
      NumberSound(catalog, s, depth);
    } else {
      WordSound(catalog, s, depth);
    }
  }

  lemma {:induction false} SignedSound(catalog: Catalog, s: string, depth: nat)
    requires Begins(s, '-')
    ensures Reads(catalog, s, depth, 2, ParseSigned(catalog, s, depth))
    decreases |s|, 0
  {
    First(s);
    PrimarySound(catalog, Trim(s[1..]), depth + 1);
  }

  lemma {:induction false} ParenSound(catalog: Catalog, s: string, depth: nat)
    requires Begins(s, '(')
    ensures Reads(catalog, s, depth, 2, ParseParen(catalog, s, depth))
    decreases |s|, 0
  {
    First(s);
    ExpressionSound(catalog, Trim(s[1..]), depth + 1);
    var r := ParseExpression(catalog, Trim(s[1..]), depth + 1);
    if r.Some? && Begins(r.value.1, ')') {
      First(r.value.1);
    }
  }

  lemma NumberSound(catalog: Catalog, s: string, depth: nat)
    requires depth < MAX_DEPTH
    ensures Reads(catalog, s, depth, 2, ParseNumber(s))
  {
    ScanDecimalSound(s);
    var r := ScanDecimal(s);
    if r.Some? {
      GapSplits(r.value.1);
      var c := Number(r.value.0, Gap(r.value.1));
      assert Grammatical(catalog, c) && Nesting(c) == 0;
      assert ShowOn(c, Trim(r.value.1)) == ShowDecimalOn(r.value.0, r.value.1);
    }
  }

  lemma {:induction false} WordSound(catalog: Catalog, s: string, depth: nat)
    requires s != "" && !IsDigit(s[0]) && s[0] != '.'
    requires depth < MAX_DEPTH
    ensures Reads(catalog, s, depth, 2, ParseWord(catalog, s, depth))
    decreases |s|, 0
  {
    var n := Span(s, IsNameChar);
    if n > 0 {
      var name := s[..n];
      SpanSplits(s, IsNameChar);
      assert IsName(name);
      if IsParameterName(name) || IsReference(catalog, name) {
        NameReads(catalog, name, s[n..], depth);
      } else if FunctionOf(name).Some? {
        CallSound(catalog, name, OperatorArity(FunctionOf(name).value), s[n..], depth);
      }
    }
  }

  lemma NameReads(catalog: Catalog, name: string, s: string, depth: nat)
    requires IsName(name) && depth < MAX_DEPTH
    ensures IsLeafName(catalog, name) ==> Reads(catalog, name + s, depth, 2, Some((Name(name, Gap(s)), Trim(s))))
  {
    GapSplits(s);
  }

  lemma {:induction false} CallSound(catalog: Catalog, name: string, arity: nat, s: string, depth: nat)
    requires IsFunctionName(catalog, name) && arity == OperatorArity(FunctionOf(name).value)
    ensures Reads(catalog, name + s, depth, 2, ParseCall(catalog, name, arity, s, depth))
    decreases |s|, 7
  {
    var opening := Take(Trim(s), '(');
    if opening.Some? {
      ArgsSound(catalog, arity, opening.value, depth + 1);
      CallParts(catalog, name, arity, s, depth);
    }
  }

  lemma CallParts(catalog: Catalog, name: string, arity: nat, s: string, depth: nat)
    requires IsFunctionName(catalog, name) && arity == OperatorArity(FunctionOf(name).value)
    requires Begins(Trim(s), '(')
    requires var inside := Take(Trim(s), '(').value;
             ReadsArgs(catalog, arity, inside, depth + 1, ParseArgs(catalog, arity, inside, depth + 1))
    ensures Reads(catalog, name + s, depth, 2, ParseCall(catalog, name, arity, s, depth))
  {
    var inside := Take(Trim(s), '(').value;
    var r := ParseArgs(catalog, arity, inside, depth + 1);
    if r.Some? && Begins(r.value.1, ')') {
      var (args, closing) := r.value;
      First(closing);
      First(Trim(s));
      GapSplits(s);
      var c := Call(name, Gap(s), Gap(Trim(s)[1..]), args, Gap(closing[1..]));
      CallReads(catalog, c, s, inside, closing, Trim(closing[1..]), depth);
      assert ParseCall(catalog, name, arity, s, depth) == Some((c, Trim(closing[1..])));
    }
  }

  lemma CallReads(catalog: Catalog, c: Cst, s: string, inside: string, closing: string, rest: string, depth: nat)
    requires c.Call? && IsFunctionName(catalog, c.name)
    requires Every(c.gapName, IsBlank) && Every(c.gapOpen, IsBlank) && Every(c.gap, IsBlank)
    requires ReadsArgs(catalog, OperatorArity(FunctionOf(c.name).value), inside, depth + 1, Some((c.args, closing)))
    requires s == c.gapName + ("(" + (c.gapOpen + inside))
    requires closing == ")" + (c.gap + rest)
    requires Stops(rest, IsBlank)
    ensures Reads(catalog, c.name + s, depth, 2, Some((c, rest)))
  {
  }

  lemma {:induction false} ArgsSound(catalog: Catalog, n: nat, s: string, depth: nat)
    requires n >= 1
    ensures ReadsArgs(catalog, n, s, depth, ParseArgs(catalog, n, s, depth))
    decreases |s|, 6
  {
    ExpressionSound(catalog, s, depth);
    var r := ParseExpression(catalog, s, depth);
    if r.Some? && n > 1 && Take(r.value.1, ',').Some? {
      First(r.value.1);
      ArgsSound(catalog, n - 1, Take(r.value.1, ',').value, depth);
    }
  }

  // ----- completeness -----

  /** What may stand behind a complete primary. */
  ghost predicate Follow(s: string) {
    s != "" ==> IsSumSymbol(s[0]) || IsTermSymbol(s[0]) || s[0] == ')' || s[0] == ','
  }

  /** What may stand behind a complete product. */
  ghost predicate EndsProduct(s: string) {
    Follow(s) && Stops(s, IsTermSymbol)
  }

  /** What may stand behind a complete expression. */
  ghost predicate EndsExpression(s: string) {
    EndsProduct(s) && Stops(s, IsSumSymbol)
  }

  lemma After(c: char, gap: string, s: string)
    requires Every(gap, IsBlank) && Stops(s, IsBlank)
    ensures Take([c] + (gap + s), c) == Some(s)
    ensures Gap(([c] + (gap + s))[1..]) == gap && Trim(([c] + (gap + s))[1..]) == s
  {
    assert ([c] + (gap + s))[1..] == gap + s;
    TrimGap(gap, s);
  }

  lemma GapEndsToken(gap: string, s: string)
    requires Every(gap, IsBlank) && (Follow(s) || Begins(s, '('))
    ensures TokenEnds(gap + s) && Stops(gap + s, IsNameChar)
    ensures Trim(gap + s) == s && Gap(gap + s) == gap
  {
    TrimGap(gap, s);
  }

  /** The first character of a grammatical tree is not a blank. */
  lemma {:induction false} ShowStarts(catalog: Catalog, c: Cst, rest: string)
    requires Grammatical(catalog, c)
    ensures Stops(ShowOn(c, rest), IsBlank)
    ensures |ShowOn(c, rest)| > |rest|
    decreases c
  {
    match c
    case Infix(left, symbol, gap, right) =>
      ShowStarts(catalog, left, [symbol] + (gap + ShowOn(right, rest)));
    case Number(literal, gap) =>
      ShowDecimalStarts(literal, gap + rest);
    case Call(name, _, _, _, _) =>
      assert name[0] in "mac";
    case _ =>
  }

  lemma ShowDecimalStarts(d: Decimal, rest: string)
    requires GoodDecimal(d)
    ensures var s := ShowDecimalOn(d, rest);
            |s| > |rest| && (IsDigit(s[0]) || s[0] == '.')
  {
  }

  lemma ShowArgsStarts(catalog: Catalog, args: Args, rest: string)
    requires GrammaticalArgs(catalog, args)
    ensures Stops(ShowArgsOn(args, rest), IsBlank)
  {
    match args
    case Last(arg) => ShowStarts(catalog, arg, rest);
    case More(arg, gap, others) => ShowStarts(catalog, arg, "," + (gap + ShowArgsOn(others, rest)));
  }

  lemma {:induction false} PrimaryComplete(catalog: Catalog, c: Cst, rest: string, depth: nat)
    requires Grammatical(catalog, c) && Level(c) == 2
    requires depth + Nesting(c) < MAX_DEPTH && Follow(rest)
    ensures ParsePrimary(catalog, ShowOn(c, rest), depth) == Some((c, rest))
    decreases c, 1
  {
    match c
    case Minus(_, _) => SignedComplete(catalog, c, rest, depth);
    case Paren(_, _, _) => ParenComplete(catalog, c, rest, depth);
    case Number(_, _) => NumberComplete(catalog, c, rest, depth);
    case Name(_, _) => NameComplete(catalog, c, rest, depth);
    case Call(_, _, _, _, _) => CallComplete(catalog, c, rest, depth);
  }

  lemma {:induction false} SignedComplete(catalog: Catalog, c: Cst, rest: string, depth: nat)
    requires c.Minus? && Grammatical(catalog, c)
    requires depth + Nesting(c) < MAX_DEPTH && Follow(rest)
    ensures ParsePrimary(catalog, ShowOn(c, rest), depth) == Some((c, rest))
    decreases c, 0
  {
    PrimaryComplete(catalog, c.operand, rest, depth + 1);
    ShowStarts(catalog, c.operand, rest);
    After('-', c.gap, ShowOn(c.operand, rest));
  }

  lemma {:induction false} ParenComplete(catalog: Catalog, c: Cst, rest: string, depth: nat)
    requires c.Paren? && Grammatical(catalog, c)
    requires depth + Nesting(c) < MAX_DEPTH && Follow(rest)
    ensures ParsePrimary(catalog, ShowOn(c, rest), depth) == Some((c, rest))
    decreases c, 0
  {
    var closing := ")" + (c.gapAfter + rest);
    ExpressionComplete(catalog, c.inner, closing, depth + 1);
    ShowStarts(catalog, c.inner, closing);
    After('(', c.gap, ShowOn(c.inner, closing));
    After(')', c.gapAfter, rest);
    PrimaryIsParen(catalog, ShowOn(c, rest), depth);
  }

  lemma PrimaryIsParen(catalog: Catalog, s: string, depth: nat)
    requires Begins(s, '(') && depth < MAX_DEPTH
    ensures ParsePrimary(catalog, s, depth) == ParseParen(catalog, s, depth)
  {
  }

  lemma NumberComplete(catalog: Catalog, c: Cst, rest: string, depth: nat)
    requires c.Number? && Grammatical(catalog, c)
    requires depth < MAX_DEPTH && Follow(rest)
    ensures ParsePrimary(catalog, ShowOn(c, rest), depth) == Some((c, rest))
  {
    var s := ShowDecimalOn(c.literal, c.gap + rest);
    ShowDecimalStarts(c.literal, c.gap + rest);
    PrimaryIsNumber(catalog, s, depth);
    LiteralComplete(c.literal, c.gap, rest);
  }

  lemma LiteralComplete(literal: Decimal, gap: string, rest: string)
    requires GoodDecimal(literal) && Every(gap, IsBlank) && Follow(rest)
    ensures ParseNumber(ShowDecimalOn(literal, gap + rest)) == Some((Number(literal, gap), rest))
  {
    GapEndsToken(gap, rest);
    ScanDecimalComplete(literal, gap + rest);
  }

  lemma PrimaryIsNumber(catalog: Catalog, s: string, depth: nat)
    requires s != "" && (IsDigit(s[0]) || s[0] == '.') && depth < MAX_DEPTH
    ensures ParsePrimary(catalog, s, depth) == ParseNumber(s)
  {
  }

  lemma PrimaryIsWord(catalog: Catalog, s: string, depth: nat)
    requires s != "" && IsNameChar(s[0]) && !IsDigit(s[0]) && s[0] != '.' && depth < MAX_DEPTH
    ensures ParsePrimary(catalog, s, depth) == ParseWord(catalog, s, depth)
  {
  }

  lemma NameComplete(catalog: Catalog, c: Cst, rest: string, depth: nat)
    requires c.Name? && Grammatical(catalog, c)
    requires depth < MAX_DEPTH && Follow(rest)
    ensures ParsePrimary(catalog, ShowOn(c, rest), depth) == Some((c, rest))
  {
    GapEndsToken(c.gap, rest);
    WordIs(catalog, c.name, c.gap + rest, depth);
  }

  /** A text that begins with a whole name is parsed as that word. */
  lemma WordIs(catalog: Catalog, name: string, s: string, depth: nat)
    requires IsName(name) && Stops(s, IsNameChar)
    requires depth < MAX_DEPTH
    ensures ParsePrimary(catalog, name + s, depth) ==
            if IsParameterName(name) || IsReference(catalog, name) then
              if IsLeafName(catalog, name) then Some((Name(name, Gap(s)), Trim(s))) else None
            else if FunctionOf(name).None? then None
            else ParseCall(catalog, name, OperatorArity(FunctionOf(name).value), s, depth)
  {
    SpanOf(name, s, IsNameChar);
    PrimaryIsWord(catalog, name + s, depth);
  }

  lemma FunctionIsName(name: string)
    requires FunctionOf(name).Some?
    ensures IsName(name) && !IsParameterName(name)
  {
  }

  lemma {:induction false} CallComplete(catalog: Catalog, c: Cst, rest: string, depth: nat)
    requires c.Call? && Grammatical(catalog, c)
    requires depth + Nesting(c) < MAX_DEPTH && Follow(rest)
    ensures ParsePrimary(catalog, ShowOn(c, rest), depth) == Some((c, rest))
    decreases c, 0
  {
    var opening := "(" + (c.gapOpen + ShowArgsOn(c.args, ")" + (c.gap + rest)));
    ArgumentsComplete(catalog, c.name, c.gapName, c.gapOpen, c.args, c.gap, rest, depth);
    GapEndsToken(c.gapName, opening);
    FunctionIsName(c.name);
    WordIs(catalog, c.name, c.gapName + opening, depth);
  }

  lemma {:induction false} ArgumentsComplete(catalog: Catalog, name: string, gapName: string, gapOpen: string,
                                             args: Args, gap: string, rest: string, depth: nat)
    requires Every(gapName, IsBlank) && Every(gapOpen, IsBlank) && Every(gap, IsBlank)
    requires GrammaticalArgs(catalog, args) && depth + 1 + NestingArgs(args) < MAX_DEPTH && Follow(rest)
    ensures ParseCall(catalog, name, Count(args), gapName + ("(" + (gapOpen + ShowArgsOn(args, ")" + (gap + rest)))), depth)
         == Some((Call(name, gapName, gapOpen, args, gap), rest))
    decreases args, 6
  {
    var closing := ")" + (gap + rest);
    var inside := ShowArgsOn(args, closing);
    ArgsComplete(catalog, args, closing, depth + 1);
    ShowArgsStarts(catalog, args, closing);
    GapEndsToken(gapName, "(" + (gapOpen + inside));
    After('(', gapOpen, inside);
    After(')', gap, rest);
  }

  /** Parsing the text of a product reaches the loop that continues it. */
  lemma {:induction false} ProductReached(catalog: Catalog, c: Cst, rest: string, depth: nat)
    requires Grammatical(catalog, c) && Level(c) >= 1
    requires depth + Nesting(c) < MAX_DEPTH && Follow(rest)
    ensures ParseProduct(catalog, ShowOn(c, rest), depth) == ParseTerms(catalog, c, rest, depth)
    decreases c, 2
  {
    if Level(c) == 2 {
      PrimaryComplete(catalog, c, rest, depth);
    } else {
      var tail := [c.symbol] + (c.gap + ShowOn(c.right, rest));
      ProductReached(catalog, c.left, tail, depth);
      PrimaryComplete(catalog, c.right, rest, depth);
      ShowStarts(catalog, c.right, rest);
      After(c.symbol, c.gap, ShowOn(c.right, rest));
    }
  }

  lemma {:induction false} ExpressionReached(catalog: Catalog, c: Cst, rest: string, depth: nat)
    requires Grammatical(catalog, c)
    requires depth + Nesting(c) < MAX_DEPTH && EndsProduct(rest)
    ensures ParseExpression(catalog, ShowOn(c, rest), depth) == ParseSums(catalog, c, rest, depth)
    decreases c, 3
  {
    if Level(c) >= 1 {
      ProductReached(catalog, c, rest, depth);
    } else {
      var tail := [c.symbol] + (c.gap + ShowOn(c.right, rest));
      ExpressionReached(catalog, c.left, tail, depth);
      ProductReached(catalog, c.right, rest, depth);
      ShowStarts(catalog, c.right, rest);
      After(c.symbol, c.gap, ShowOn(c.right, rest));
    }
  }

  lemma {:induction false} ExpressionComplete(catalog: Catalog, c: Cst, rest: string, depth: nat)
    requires Grammatical(catalog, c)
    requires depth + Nesting(c) < MAX_DEPTH && EndsExpression(rest)
    ensures ParseExpression(catalog, ShowOn(c, rest), depth) == Some((c, rest))
    decreases c, 4
  {
    ExpressionReached(catalog, c, rest, depth);
  }

  lemma {:induction false} ArgsComplete(catalog: Catalog, args: Args, rest: string, depth: nat)
    requires GrammaticalArgs(catalog, args)
    requires depth + NestingArgs(args) < MAX_DEPTH && Begins(rest, ')')
    ensures ParseArgs(catalog, Count(args), ShowArgsOn(args, rest), depth) == Some((args, rest))
    decreases args, 5
  {
    match args
    case Last(arg) => ExpressionComplete(catalog, arg, rest, depth);
    case More(arg, gap, others) =>
      var tail := "," + (gap + ShowArgsOn(others, rest));
      ExpressionComplete(catalog, arg, tail, depth);
      ArgsComplete(catalog, others, rest, depth);
      ShowArgsStarts(catalog, others, rest);
      After(',', gap, ShowArgsOn(others, rest));
  }
}
