/** The parser object and the `compile` entry point of src/Core/Values/ValueExpression.cpp. */
module Parser {
  import opened Wrappers
  import opened Numerals
  import opened Expression
  import opened Evaluator
  import opened Grammar
  import opened GrammarProofs
  import opened Compiler

  const TEXT_CAPACITY := 192

  /** A C string: a text without the terminating character. */
  type CString = s: string | '\0' !in s

  // ----- emission, one construct at a time -----

  lemma EmitOne(e: Expr, op: Operator, p: Program)
    ensures Emit(Node(op, [e]), p) ==
            var q :- Emit(e, p); Append(q, Apply(op))
  {
    assert [e][1..] == [];
    if Emit(e, p).Some? {
      assert EmitAll([e], p) == EmitAll([], Emit(e, p).value);
    }
  }

  lemma EmitTwo(e: Expr, f: Expr, op: Operator, p: Program)
    ensures Emit(Node(op, [e, f]), p) ==
            var q :- Emit(e, p); var r :- Emit(f, q); Append(r, Apply(op))
  {
    assert [e, f][1..] == [f] && [f][1..] == [];
    if Emit(e, p).Some? {
      var q := Emit(e, p).value;
      assert EmitAll([e, f], p) == EmitAll([f], q);
      if Emit(f, q).Some? {
        assert EmitAll([f], q) == EmitAll([], Emit(f, q).value);
      }
    }
  }

  /** Once the left operand cannot be emitted, no continuation of the sum can. */
  lemma {:induction false} SumsStuck(catalog: Catalog, left: Cst, s: string, depth: nat, p: Program)
    requires Emit(Ast(catalog, left), p).None?
    ensures var r := ParseSums(catalog, left, s, depth);
            r.Some? ==> Emit(Ast(catalog, r.value.0), p).None?
    decreases |s|
  {
    if s != "" && IsSumSymbol(s[0]) {
      var r := ParseProduct(catalog, Trim(s[1..]), depth);
      if r.Some? {
        EmitTwo(Ast(catalog, left), Ast(catalog, r.value.0), OperatorOf(s[0]), p);
        SumsStuck(catalog, Infix(left, s[0], Gap(s[1..]), r.value.0), r.value.1, depth, p);
      }
    }
  }

  lemma {:induction false} TermsStuck(catalog: Catalog, left: Cst, s: string, depth: nat, p: Program)
    requires Emit(Ast(catalog, left), p).None?
    ensures var r := ParseTerms(catalog, left, s, depth);
            r.Some? ==> Emit(Ast(catalog, r.value.0), p).None?
    decreases |s|
  {
    if s != "" && IsTermSymbol(s[0]) {
      var r := ParsePrimary(catalog, Trim(s[1..]), depth);
      if r.Some? {
        EmitTwo(Ast(catalog, left), Ast(catalog, r.value.0), OperatorOf(s[0]), p);
        TermsStuck(catalog, Infix(left, s[0], Gap(s[1..]), r.value.0), r.value.1, depth, p);
      }
    }
  }

  /** Parsing and emitting a call, argument list first. */
  lemma {:induction false} CallEmits(catalog: Catalog, name: string, op: Operator, s: string, depth: nat, p: Program)
    requires FunctionOf(name) == Some(op)
    ensures var r := ParseCall(catalog, name, OperatorArity(op), s, depth);
            var opening := Take(Trim(s), '(');
            if opening.None? then r.None?
            else
              var a := ParseArgs(catalog, OperatorArity(op), opening.value, depth + 1);
              if a.None? || Take(a.value.1, ')').None? then r.None?
              else
                && r.Some? && r.value.1 == Take(a.value.1, ')').value
                && Emit(Ast(catalog, r.value.0), p) ==
                   var q :- EmitAll(AstArgs(catalog, a.value.0), p); Append(q, Apply(op))
  {
    var r := ParseCall(catalog, name, OperatorArity(op), s, depth);
    if r.Some? {
      EmitCall(catalog, r.value.0, op, p);
    }
  }

  lemma EmitCall(catalog: Catalog, c: Cst, op: Operator, p: Program)
    requires c.Call? && FunctionOf(c.name) == Some(op)
    ensures Emit(Ast(catalog, c), p) == var q :- EmitAll(AstArgs(catalog, c.args), p); Append(q, Apply(op))
  {
  }

  /** Parsing and emitting an argument list, first argument first. */
  lemma ArgsEmit(catalog: Catalog, n: nat, s: string, depth: nat, p: Program)
    requires n >= 1
    ensures var r := ParseArgs(catalog, n, s, depth);
            var e := ParseExpression(catalog, s, depth);
            if e.None? then r.None?
            else if n == 1 then
              && r == Some((Last(e.value.0), e.value.1))
              && EmitAll(AstArgs(catalog, r.value.0), p) == Emit(Ast(catalog, e.value.0), p)
            else if Take(e.value.1, ',').None? then r.None?
            else
              var m := ParseArgs(catalog, n - 1, Take(e.value.1, ',').value, depth);
              && (r.Some? <==> m.Some?)
              && (r.Some? ==>
                    && r.value.1 == m.value.1
                    && EmitAll(AstArgs(catalog, r.value.0), p) ==
                       var q :- Emit(Ast(catalog, e.value.0), p); EmitAll(AstArgs(catalog, m.value.0), q))
  {
    var e := ParseExpression(catalog, s, depth);
    if e.Some? {
      EmitFirst(catalog, e.value.0, p);
    }
  }

  lemma LiteralEmits(catalog: Catalog, s: string, p: Program)
    ensures var d := ScanDecimal(s);
            var r := ParseNumber(s);
            if d.None? then r.None?
            else
              && r.Some? && r.value.1 == Trim(d.value.1)
              && Emit(Ast(catalog, r.value.0), p) == Append(p, Push(Constant(DecimalValue(d.value.0))))
  {
  }

  lemma TrimTwice(s: string)
    ensures Trim(Trim(s)) == Trim(s)
  {
    GapSplits(s);
    TrimGap("", Trim(s));
    assert "" + Trim(s) == Trim(s);
  }

  // ----- the parser object -----

  class Parser {
    const text: CString
    const catalog: Catalog
    var cursor: nat
    var program: Program

    ghost predicate Valid()
      reads this
    {
      && cursor <= |text|
      && |program.code| <= MAX_INSTRUCTIONS && |program.dependencies| <= MAX_DEPENDENCIES
    }

    /** The text still to be read. */
    ghost function Tail(): string
      reads this
      requires cursor <= |text|
    {
      text[cursor..]
    }

    /** The text still to be read, from its next token. */
    ghost function Rest(): string
      reads this
      requires cursor <= |text|
    {
      Trim(Tail())
    }

    /** A parsing method did what parsing and then emitting would do. */
    ghost predicate Fused(r: Option<(Cst, string)>, before: Program, ok: bool)
      reads this
      requires Valid()
    {
      && (ok <==> r.Some? && Emit(Ast(catalog, r.value.0), before).Some?)
      && (ok ==> Rest() == r.value.1 && Emit(Ast(catalog, r.value.0), before) == Some(program))
    }

    constructor (text: CString, catalog: Catalog)
      ensures Valid() && this.text == text && this.catalog == catalog
      ensures cursor == 0 && program == EMPTY
    {
      this.text := text;
      this.catalog := catalog;
      cursor := 0;
      program := EMPTY;
    }

    function Peek(): (c: char)
      reads this
      requires cursor <= |text|
      ensures c == if Tail() == "" then '\0' else Tail()[0]
    {
      if cursor < |text| then text[cursor] else '\0'
    }

    method Advance()
      requires Valid() && Tail() != ""
      modifies `cursor
      ensures Valid() && cursor == old(cursor) + 1 && Tail() == old(Tail())[1..]
    {
      cursor := cursor + 1;
    }

    /** Reads the longest run of characters that satisfy `p`. */
    method Skip(p: char -> bool) returns (word: string)
      requires Valid() && !p('\0')
      modifies `cursor
      ensures Valid() && cursor >= old(cursor)
      ensures var n := Span(old(Tail()), p); word == old(Tail())[..n] && Tail() == old(Tail())[n..]
    {
      ghost var s := Tail();
      var start := cursor;
      while p(Peek())
        invariant Valid() && cursor >= start
        invariant cursor - start + Span(Tail(), p) == Span(s, p)
        decreases |text| - cursor
      {
        Advance();
      }
      word := text[start..cursor];
      assert Tail() == s[cursor - start..] && word == s[..cursor - start];
    }

    method Space()
      requires Valid()
      modifies `cursor
      ensures Valid() && cursor >= old(cursor)
      ensures Tail() == old(Rest()) == Rest()
    {
      ghost var s := Tail();
      var blanks := Skip(IsBlank);
      TrimTwice(s);
    }

    method TakeChar(c: char) returns (ok: bool)
      requires Valid() && c != '\0'
      modifies `cursor
      ensures Valid() && cursor >= old(cursor)
      ensures ok <==> Begins(old(Rest()), c)
      ensures if ok then cursor > old(cursor) && Take(old(Rest()), c) == Some(Rest()) else Rest() == old(Rest())
    {
      Space();
      if Peek() != c {
        return false;
      }
      Advance();
      return true;
    }

    method EmitCode(i: Instruction) returns (ok: bool)
      requires Valid()
      modifies `program
      ensures Valid()
      ensures Append(old(program), i) == if ok then Some(program) else None
    {
      if |program.code| == MAX_INSTRUCTIONS {
        return false;
      }
      program := program.(code := program.code + [i]);
      return true;
    }

    method Expression(depth: nat) returns (ok: bool)
      requires Valid() && depth <= MAX_DEPTH
      modifies `cursor, `program
      ensures Valid() && cursor >= old(cursor)
      ensures Fused(ParseExpression(catalog, old(Rest()), depth), old(program), ok)
      decreases MAX_DEPTH - depth, 5
    {
      ghost var r := ParseProduct(catalog, Rest(), depth);
      ok := Product(depth);
      if !ok {
        if r.Some? {
          SumsStuck(catalog, r.value.0, r.value.1, depth, old(program));
        }
        return false;
      }
      ghost var left := r.value.0;
      while true
        invariant Valid() && cursor >= old(cursor)
        invariant ParseSums(catalog, left, Rest(), depth) == ParseExpression(catalog, old(Rest()), depth)
        invariant Emit(Ast(catalog, left), old(program)) == Some(program)
        decreases |text| - cursor
      {
        ghost var s := Rest();
        var symbol := '+';
        var more := TakeChar(symbol);
        if !more {
          symbol := '-';
          more := TakeChar(symbol);
          if !more {
            return true;
          }
        }
        r := ParseProduct(catalog, Trim(s[1..]), depth);
        ok := Product(depth);
        if ok {
          ok := EmitCode(Apply(OperatorOf(symbol)));
        }
        if r.Some? {
          EmitTwo(Ast(catalog, left), Ast(catalog, r.value.0), OperatorOf(symbol), old(program));
          left := Infix(left, symbol, Gap(s[1..]), r.value.0);
          if !ok {
            SumsStuck(catalog, left, r.value.1, depth, old(program));
          }
        }
        if !ok {
          return false;
        }
      }
    }

    method Product(depth: nat) returns (ok: bool)
      requires Valid() && depth <= MAX_DEPTH
      modifies `cursor, `program
      ensures Valid() && cursor >= old(cursor)
      ensures Fused(ParseProduct(catalog, old(Rest()), depth), old(program), ok)
      decreases MAX_DEPTH - depth, 3
    {
      ghost var r := ParsePrimary(catalog, Rest(), depth);
      ok := Primary(depth);
      if !ok {
        if r.Some? {
          TermsStuck(catalog, r.value.0, r.value.1, depth, old(program));
        }
        return false;
      }
      ghost var left := r.value.0;
      while true
        invariant Valid() && cursor >= old(cursor)
        invariant ParseTerms(catalog, left, Rest(), depth) == ParseProduct(catalog, old(Rest()), depth)
        invariant Emit(Ast(catalog, left), old(program)) == Some(program)
        decreases |text| - cursor
      {
        ghost var s := Rest();
        var symbol := '*';
        var more := TakeChar(symbol);
        if !more {
          symbol := '/';
          more := TakeChar(symbol);
          if !more {
            return true;
          }
        }
        r := ParsePrimary(catalog, Trim(s[1..]), depth);
        ok := Primary(depth);
        if ok {
          ok := EmitCode(Apply(OperatorOf(symbol)));
        }
        if r.Some? {
          EmitTwo(Ast(catalog, left), Ast(catalog, r.value.0), OperatorOf(symbol), old(program));
          left := Infix(left, symbol, Gap(s[1..]), r.value.0);
          if !ok {
            TermsStuck(catalog, left, r.value.1, depth, old(program));
          }
        }
        if !ok {
          return false;
        }
      }
    }

    method Primary(depth: nat) returns (ok: bool)
      requires Valid() && depth <= MAX_DEPTH
      modifies `cursor, `program
      ensures Valid() && cursor >= old(cursor)
      ensures Fused(ParsePrimary(catalog, old(Rest()), depth), old(program), ok)
      decreases MAX_DEPTH - depth, 2
    {
      ghost var s := Rest();
      if depth >= MAX_DEPTH {
        return false;
      }
      var taken := TakeChar('-');
      if taken {
        ok := Signed(depth, s, old(program));
        return ok;
      }
      taken := TakeChar('(');
      if taken {
        ok := Parenthesis(depth, s, old(program));
        return ok;
      }
      Space();
      if IsDigit(Peek()) || Peek() == '.' {
        ok := Literal();
      } else {
        ok := Word(depth);
      }
    }

    /** The part of `primary` behind an opening parenthesis. */
    method Parenthesis(depth: nat, ghost s: string, ghost before: Program) returns (ok: bool)
      requires Valid() && depth < MAX_DEPTH
      requires Begins(s, '(') && Rest() == Trim(s[1..]) && program == before
      modifies `cursor, `program
      ensures Valid() && cursor >= old(cursor)
      ensures Fused(ParseParen(catalog, s, depth), before, ok)
      decreases MAX_DEPTH - depth, 0
    {
      ok := Expression(depth + 1);
      if ok {
        ok := TakeChar(')');
      }
    }

    /** The part of `primary` behind a minus sign. */
    method Signed(depth: nat, ghost s: string, ghost before: Program) returns (ok: bool)
      requires Valid() && depth < MAX_DEPTH
      requires Begins(s, '-') && Rest() == Trim(s[1..]) && program == before
      modifies `cursor, `program
      ensures Valid() && cursor >= old(cursor)
      ensures Fused(ParseSigned(catalog, s, depth), before, ok)
      decreases MAX_DEPTH - depth, 0
    {
      ghost var r := ParsePrimary(catalog, Rest(), depth + 1);
      ok := Primary(depth + 1);
      if r.Some? {
        EmitOne(Ast(catalog, r.value.0), Neg, before);
      }
      if ok {
        ok := EmitCode(Apply(Neg));
      }
    }

    method Literal() returns (ok: bool)
      requires Valid() && Tail() == Rest()
      modifies `cursor, `program
      ensures Valid() && cursor >= old(cursor)
      ensures Fused(ParseNumber(old(Rest())), old(program), ok)
    {
      LiteralEmits(catalog, Tail(), program);
      var d;
      ok, d := ReadDecimal();
      if ok {
        ok := EmitCode(Push(Constant(DecimalValue(d))));
      }
    }

    /** The scanning loops over a decimal literal. */
    method ReadDecimal() returns (ok: bool, d: Decimal)
      requires Valid()
      modifies `cursor
      ensures Valid() && cursor >= old(cursor)
      ensures ScanDecimal(old(Tail())) == if ok then Some((d, Tail())) else None
    {
      d := Decimal("", false, "", None);
      var whole := Skip(IsDigit);
      var point := Peek() == '.';
      var fraction := "";
      if point {
        Advance();
        fraction := Skip(IsDigit);
      }
      if whole == "" && fraction == "" {
        return false, d;
      }
      var exponent;
      ok, exponent := ReadExponent();
      d := Decimal(whole, point, fraction, exponent);
    }

    method ReadExponent() returns (ok: bool, exponent: Option<Exponent>)
      requires Valid()
      modifies `cursor
      ensures Valid() && cursor >= old(cursor)
      ensures ScanExponent(old(Tail())) == if ok then Some((exponent, Tail())) else None
    {
      var mark := Peek();
      if !IsExponentMark(mark) {
        return true, None;
      }
      Advance();
      ghost var t := Tail();
      var sign := "";
      if Peek() == '+' || Peek() == '-' {
        sign := [Peek()];
        Advance();
      }
      assert sign == t[..|sign|] && Tail() == t[|sign|..];
      var digits := Skip(IsDigit);
      if digits == "" {
        return false, None;
      }
      return true, Some(Exponent(mark, sign, digits));
    }

    method Word(depth: nat) returns (ok: bool)
      requires Valid() && depth < MAX_DEPTH
      requires Tail() == Rest()
      modifies `cursor, `program
      ensures Valid() && cursor >= old(cursor)
      ensures Fused(ParseWord(catalog, old(Rest()), depth), old(program), ok)
      decreases MAX_DEPTH - depth, 1
    {
      var name := Skip(IsNameChar);
      if name == "" {
        return false;
      }
      if IsParameterName(name) {
        ok := EmitCode(Push(Parameter(DigitValue(name[1]))));
      } else if IsReference(catalog, name) {
        ok := Reference(name);
      } else {
        var op := FunctionOf(name);
        if op.None? {
          return false;
        }
        ok := FunctionCall(name, op.value, depth);
      }
    }

    /** A name that must denote a value: resolve it, intern it and load it. */
    method Reference(name: string) returns (ok: bool)
      requires Valid()
      modifies `program
      ensures Valid()
      ensures (if ReferenceId(catalog, name) == VALUE_INVALID then None
               else EmitLeaf(Load(ReferenceId(catalog, name)), old(program)))
           == if ok then Some(program) else None
    {
      var id := ReferenceId(catalog, name);
      if id == VALUE_INVALID {
        return false;
      }
      var dep := 0;
      while dep < |program.dependencies| && program.dependencies[dep] != id
        invariant dep <= |program.dependencies|
        invariant dep + Position(program.dependencies[dep..], id) == Position(program.dependencies, id)
      {
        assert program.dependencies[dep..][1..] == program.dependencies[dep + 1..];
        dep := dep + 1;
      }
      if dep == |program.dependencies| {
        if dep == MAX_DEPENDENCIES {
          return false;
        }
        program := program.(dependencies := program.dependencies + [id]);
      }
      ok := EmitCode(Push(Load(dep)));
    }

    method FunctionCall(name: string, op: Operator, depth: nat) returns (ok: bool)
      requires Valid() && depth < MAX_DEPTH
      requires FunctionOf(name) == Some(op)
      modifies `cursor, `program
      ensures Valid() && cursor >= old(cursor)
      ensures Fused(ParseCall(catalog, name, OperatorArity(op), old(Tail()), depth), old(program), ok)
      decreases MAX_DEPTH - depth, 0
    {
      ghost var s := Rest();
      CallEmits(catalog, name, op, Tail(), depth, program);
      var taken := TakeChar('(');
      if !taken {
        return false;
      }
      ok := Arguments(OperatorArity(op), depth + 1);
      if !ok {
        return false;
      }
      ok := TakeChar(')');
      if ok {
        ok := EmitCode(Apply(op));
      }
    }

    /** Parsing and emitting an argument list did what doing one after the other would do. */
    ghost predicate FusedArgs(r: Option<(Args, string)>, before: Program, ok: bool)
      reads this
      requires Valid()
    {
      && (ok <==> r.Some? && EmitAll(AstArgs(catalog, r.value.0), before).Some?)
      && (ok ==> Rest() == r.value.1 && EmitAll(AstArgs(catalog, r.value.0), before) == Some(program))
    }

    /** The argument loop of a call, one argument per activation. */
    method Arguments(n: nat, depth: nat) returns (ok: bool)
      requires Valid() && 1 <= n && depth <= MAX_DEPTH
      modifies `cursor, `program
      ensures Valid() && cursor >= old(cursor)
      ensures FusedArgs(ParseArgs(catalog, n, old(Rest()), depth), old(program), ok)
      decreases MAX_DEPTH - depth, 6 + 2 * n
    {
      ArgsEmit(catalog, n, Rest(), depth, program);
      ok := Expression(depth);
      if ok && n > 1 {
        ok := MoreArguments(n - 1, depth);
      }
    }

    method MoreArguments(n: nat, depth: nat) returns (ok: bool)
      requires Valid() && 1 <= n && depth <= MAX_DEPTH
      modifies `cursor, `program
      ensures Valid() && cursor >= old(cursor)
      ensures var comma := Take(old(Rest()), ',');
              FusedArgs(if comma.None? then None else ParseArgs(catalog, n, comma.value, depth), old(program), ok)
      decreases MAX_DEPTH - depth, 7 + 2 * n
    {
      ok := TakeChar(',');
      if ok {
        ok := Arguments(n, depth);
      }
    }
  }

  lemma EmitFirst(catalog: Catalog, c: Cst, p: Program)
    ensures forall es: seq<Expr> ::
              EmitAll([Ast(catalog, c)] + es, p) ==
              var q :- Emit(Ast(catalog, c), p); EmitAll(es, q)
    ensures EmitAll([Ast(catalog, c)], p) == Emit(Ast(catalog, c), p)
  {
    var e := Ast(catalog, c);
    forall es: seq<Expr>
      ensures EmitAll([e] + es, p) == var q :- Emit(e, p); EmitAll(es, q)
    {
      assert ([e] + es)[1..] == es;
    }
    assert [e] + [] == [e];
  }
}
