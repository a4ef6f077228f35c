/** The evaluator of the symbolic fallback: src/specialists/symbolic_fallback.cpp. It computes while it
    parses; here that is shown to give the value of the tree the grammar assigns. */
module Evaluator {
  import opened Basics
  import opened Text
  import opened Grammar

  // ------------------------------------------------------------ specification

  function Value<V>(p: Option<Parsed>, alg: Algebra<V>): Option<V> {
    if p.None? then None else Eval(p.value.tree, alg)
  }

  /** Parse, insist on the end of the text, evaluate. */
  function Evaluated<V>(text: string, alg: Algebra<V>): Option<V> {
    var p := ParseAt(Lex(text), EXPR);
    if p.None? || p.value.rest != [] then None else Eval(p.value.tree, alg)
  }

  ghost predicate IsSentence(text: string, e: Expr) { Is(Lex(text), e, EXPR) }

  function Parens(k: nat): string { seq(k, _ => ')') }

  lemma {:induction false} RunIs(s: string, n: nat, member: char -> bool)
    requires n <= |s| && (forall i :: 0 <= i < n ==> member(s[i])) && (n < |s| ==> !member(s[n]))
    ensures Run(s, member) == n
  {
  }

  lemma {:induction false} LexOfNumber(s: string, n: nat)
    requires 0 < n <= |s| && (forall i :: 0 <= i < n ==> IsNumeral(s[i])) && (n < |s| ==> !IsNumeral(s[n]))
    ensures Lex(s) == [Number(s[..n])] + Lex(s[n..])
  {
    RunIs(s, n, IsNumeral);
  }

  lemma {:induction false} LexOfName(s: string, n: nat)
    requires 0 < n <= |s| && (forall i :: 0 <= i < n ==> IsAlpha(s[i])) && (n < |s| ==> !IsAlpha(s[n]))
    ensures Lex(s) == [Name(s[..n])] + Lex(s[n..])
  {
    RunIs(s, n, IsAlpha);
  }

  lemma {:induction false} LexOfSpace(s: string)
    requires |s| > 0 && IsSpace(s[0])
    ensures Lex(s) == Lex(s[1..])
  {
  }

  lemma {:induction false} LexOfSymbol(s: string)
    requires |s| > 0 && !IsSpace(s[0]) && !IsNumeral(s[0]) && !IsAlpha(s[0])
    ensures Lex(s) == [Symbol(s[0])] + Lex(s[1..])
  {
  }

  /** A symbol ends the word in front of it and is a token of its own. */
  lemma {:induction false} LexBreak(s: string, c: char, t: string)
    requires !IsSpace(c) && !IsNumeral(c) && !IsAlpha(c)
    ensures Lex(s + [c] + t) == Lex(s) + [Symbol(c)] + Lex(t)
    decreases |s|
  {
    hide Lex, IsSpace, IsNumeral, IsAlpha;
    var all := s + [c] + t;
    if |s| == 0 {
      assert all[0] == c && all[1..] == t;
      LexOfSymbol(all);
      OnlyEndIsEmpty(s);
    } else {
      assert all[0] == s[0];
      var n := if IsNumeral(s[0]) then Run(s, IsNumeral) else if IsAlpha(s[0]) then Run(s, IsAlpha) else 1;
      assert 0 < n && all[..n] == s[..n] && all[n..] == s[n..] + [c] + t;
      LexBreak(s[n..], c, t);
      if IsSpace(s[0]) {
        SpaceIsNothingElse(s[0]);
        LexOfSpace(s);
        LexOfSpace(all);
      } else if IsNumeral(s[0]) {
        LexOfNumber(s, n);
        LexOfNumber(all, n);
      } else if IsAlpha(s[0]) {
        LexOfName(s, n);
        LexOfName(all, n);
      } else {
        LexOfSymbol(s);
        LexOfSymbol(all);
      }
    }
  }

  lemma SpaceIsNothingElse(c: char)
    requires IsSpace(c)
    ensures !IsNumeral(c) && !IsAlpha(c)
  {
  }

  lemma {:induction false} OnlyEndIsEmpty(s: string)
    requires |s| > 0 ==> !IsSpace(s[0])
    ensures Lex(s) == [] <==> s == ""
  {
  }

  lemma {:induction false} LexClosers(s: string, k: nat)
    ensures Lex(s + Parens(k)) == Lex(s) + Closers(k)
  {
    hide Lex;
    if k == 0 {
      assert s + Parens(0) == s && Lex(s) + Closers(0) == Lex(s);
    } else {
      LexClosers(s, k - 1);
      assert s + Parens(k) == s + Parens(k - 1) + [')'] + "";
      LexBreak(s + Parens(k - 1), ')', "");
      OnlyEndIsEmpty("");
      assert Lex(s) + Closers(k) == Lex(s) + Closers(k - 1) + [Symbol(')')];
    }
  }

  /** The value of a text, and with it the accepted language: the text, followed by as many closing
      parentheses as needed, is a sentence whose tree has that value. */
  lemma {:induction false} AcceptedLanguage<V>(s: string, v: V, alg: Algebra<V>)
    ensures Evaluated(s, alg) == Some(v) <==>
            exists e, k :: IsSentence(s + Parens(k), e) && Eval(e, alg) == Some(v)
  {
    hide Lex, ParseAt, Is, Eval, Parens;
    var ts := Lex(s);
    if Evaluated(s, alg) == Some(v) {
      var p := ParseAt(ts, EXPR).value;
      ReadsExactlySentences(ts, p.tree, p.missing);
      LexClosers(s, p.missing);
      assert IsSentence(s + Parens(p.missing), p.tree) && Eval(p.tree, alg) == Some(v);
    }
    if exists e, k :: IsSentence(s + Parens(k), e) && Eval(e, alg) == Some(v) {
      var e, k :| IsSentence(s + Parens(k), e) && Eval(e, alg) == Some(v);
      LexClosers(s, k);
      ReadsExactlySentences(ts, e, k);
    }
  }

  /** Every numeral has a digit before its second dot and is within the range of the values. */
  predicate NumeralsAccepted<V>(e: Expr, alg: Algebra<V>) {
    match e
    case Num(text) => DigitBeforeSecondDot(text) && alg.round(DecimalOf(text)).Some?
    case Neg(arg) => NumeralsAccepted(arg, alg)
    case Bin(_, left, right) => NumeralsAccepted(left, alg) && NumeralsAccepted(right, alg)
    case Call(_, arg) => NumeralsAccepted(arg, alg)
  }

  /** No divisor has the value zero. */
  predicate NoZeroDivisor<V>(e: Expr, alg: Algebra<V>) {
    match e
    case Num(_) => true
    case Neg(arg) => NoZeroDivisor(arg, alg)
    case Bin(op, left, right) =>
      NoZeroDivisor(left, alg) && NoZeroDivisor(right, alg) &&
      (op == Div && Eval(right, alg).Some? ==> !alg.isZero(Eval(right, alg).value))
    case Call(_, arg) => NoZeroDivisor(arg, alg)
  }

  /** A tree has a value exactly when its numerals are accepted and no divisor is zero. */
  lemma {:induction false} EvalDefined<V>(e: Expr, alg: Algebra<V>)
    requires WellFormed(e)
    ensures Eval(e, alg).Some? <==> NumeralsAccepted(e, alg) && NoZeroDivisor(e, alg)
  {
    match e
    case Num(text) => ReadableExactly(text);
    case Neg(arg) => EvalDefined(arg, alg);
    case Bin(_, left, right) =>
      EvalDefined(left, alg);
      EvalDefined(right, alg);
    case Call(_, arg) => EvalDefined(arg, alg);
  }

  predicate NumberRuns(ts: seq<Token>) {
    forall i :: 0 <= i < |ts| && ts[i].Number? ==> |ts[i].text| > 0 && AllOf(ts[i].text, IsNumeral)
  }

  lemma {:induction false} LexedNumbers(s: string)
    ensures NumberRuns(Lex(s))
    decreases |s|
  {
    if |s| > 0 {
      var n := if IsSpace(s[0]) then 1 else if IsNumeral(s[0]) then Run(s, IsNumeral)
               else if IsAlpha(s[0]) then Run(s, IsAlpha) else 1;
      LexedNumbers(s[n..]);
    }
  }

  /** The numerals of a derivation's tree are the number tokens it was derived from. */
  lemma {:induction false} DerivedWellFormed(ts: seq<Token>, e: Expr, level: Level)
    requires Is(ts, e, level) && NumberRuns(ts)
    ensures WellFormed(e)
    decreases |ts|, PRIMARY - level
  {
    if level < PRIMARY {
      if Is(ts, e, level + 1) {
        DerivedWellFormed(ts, e, level + 1);
      } else {
        var i: nat :| IsSplit(ts, e, i);
        DerivedWellFormed(ts[..i], e.left, LeftLevel(e.op));
        DerivedWellFormed(ts[i + 1..], e.right, RightLevel(e.op));
      }
    } else {
      assert IsPrimary(ts, e);
      if e.Num? && ts == [Number(e.text)] {
        assert ts[0].Number?;
      } else if e.Neg? && ts[0] == Symbol('-') && Is(ts[1..], e.arg, PRIMARY) {
        DerivedWellFormed(ts[1..], e.arg, PRIMARY);
      } else if ts[0] == Symbol('(') {
        DerivedWellFormed(ts[1..|ts| - 1], e, EXPR);
      } else {
        DerivedWellFormed(ts[2..|ts| - 1], e.arg, EXPR);
      }
    }
  }

  lemma SentenceWellFormed(text: string, e: Expr)
    requires IsSentence(text, e)
    ensures WellFormed(e)
  {
    LexedNumbers(text);
    DerivedWellFormed(Lex(text), e, EXPR);
  }

  /** The texts that evaluate at all: followed by as many closing parentheses as needed they are
      sentences whose numerals have a digit before their second dot and are in range, and in which
      nothing is divided by zero. */
  lemma {:induction false} AcceptedTexts<V>(s: string, alg: Algebra<V>)
    ensures Evaluated(s, alg).Some? <==>
            exists e, k :: IsSentence(s + Parens(k), e) && NumeralsAccepted(e, alg) && NoZeroDivisor(e, alg)
  {
    hide Evaluated, IsSentence, Parens, Eval, NumeralsAccepted, NoZeroDivisor;
    if Evaluated(s, alg).Some? {
      var v := Evaluated(s, alg).value;
      AcceptedLanguage(s, v, alg);
      var e, k :| IsSentence(s + Parens(k), e) && Eval(e, alg) == Some(v);
      SentenceWellFormed(s + Parens(k), e);
      EvalDefined(e, alg);
    }
    if exists e, k :: IsSentence(s + Parens(k), e) && NumeralsAccepted(e, alg) && NoZeroDivisor(e, alg) {
      var e, k :| IsSentence(s + Parens(k), e) && NumeralsAccepted(e, alg) && NoZeroDivisor(e, alg);
      SentenceWellFormed(s + Parens(k), e);
      EvalDefined(e, alg);
      AcceptedLanguage(s, Eval(e, alg).value, alg);
      assert Eval(e, alg) == Some(Eval(e, alg).value);
    }
  }

  /** An operand without a value leaves the whole chain without one. */
  lemma {:induction false} FailureStays<V>(p: Parsed, level: Level, alg: Algebra<V>)
    requires level < FACTOR && NoOp(p.rest, level + 1) && Eval(p.tree, alg).None?
    ensures Value(ParseRest(p, level), alg).None?
    decreases |p.rest|
  {
    var op := OpAt(p.rest, level);
    if op.Some? && ParseAt(p.rest[1..], level + 1).Some? {
      FailureStays(Join(op.value, p, ParseAt(p.rest[1..], level + 1).value), level, alg);
    }
  }

  /** How a level starts: with one operand of the next level, without which there is no value. */
  lemma {:induction false} LevelUnfolds<V>(ts: seq<Token>, level: Level, alg: Algebra<V>)
    requires level < FACTOR
    ensures Value(ParseAt(ts, level + 1), alg).None? ==> Value(ParseAt(ts, level), alg).None?
    ensures var first := ParseAt(ts, level + 1);
            first.Some? ==> NoOp(first.value.rest, level + 1) && ParseAt(ts, level) == ParseRest(first.value, level)
  {
    var first := ParseAt(ts, level + 1);
    if first.Some? && Eval(first.value.tree, alg).None? { FailureStays(first.value, level, alg); }
  }

  /** One round of the loop over the operators of a level. */
  lemma {:induction false} RoundUnfolds<V>(p: Parsed, level: Level, alg: Algebra<V>)
    requires level < FACTOR && NoOp(p.rest, level + 1) && Eval(p.tree, alg).Some?
    ensures OpAt(p.rest, level).None? ==> ParseRest(p, level) == Some(p)
    ensures OpAt(p.rest, level).Some? ==>
              var op, q := OpAt(p.rest, level).value, ParseAt(p.rest[1..], level + 1);
              (Value(q, alg).None? ==> Value(ParseRest(p, level), alg).None?) &&
              (Value(q, alg).Some? ==>
                 var joined := Join(op, p, q.value);
                 var value := Apply(op, Eval(p.tree, alg).value, Value(q, alg).value, alg);
                 NoOp(joined.rest, level + 1) && Eval(joined.tree, alg) == value &&
                 ParseRest(p, level) == ParseRest(joined, level) &&
                 (value.None? ==> Value(ParseRest(p, level), alg).None?))
  {
    var op := OpAt(p.rest, level);
    if op.Some? && ParseAt(p.rest[1..], level + 1).Some? {
      var joined := Join(op.value, p, ParseAt(p.rest[1..], level + 1).value);
      if Eval(joined.tree, alg).None? { FailureStays(joined, level, alg); }
    }
  }

  lemma {:induction false} FactorUnfolds<V>(ts: seq<Token>, alg: Algebra<V>)
    ensures var base, factor := ParseAt(ts, PRIMARY), ParseAt(ts, FACTOR);
            (Value(base, alg).None? ==> Value(factor, alg).None?) &&
            (base.Some? && OpAt(base.value.rest, FACTOR).None? ==> factor == base) &&
            (base.Some? && OpAt(base.value.rest, FACTOR).Some? ==>
               var exponent := ParseAt(base.value.rest[1..], FACTOR);
               OpAt(base.value.rest, FACTOR) == Some(Pow) &&
               (Value(exponent, alg).None? ==> Value(factor, alg).None?) &&
               (Value(base, alg).Some? && Value(exponent, alg).Some? ==>
                  factor == Some(Join(Pow, base.value, exponent.value)) &&
                  Eval(factor.value.tree, alg) == Some(alg.pow(Value(base, alg).value, Value(exponent, alg).value))))
  {
  }

  /** What starts a primary, and what its value is made of. */
  lemma {:induction false} PrimaryUnfolds<V>(ts: seq<Token>, alg: Algebra<V>)
    ensures var p := ParseAt(ts, PRIMARY);
            && (|ts| == 0 || (ts[0].Symbol? && ts[0].c !in {'-', '('}) ==> p.None?)
            && (|ts| > 0 && ts[0].Number? ==>
                  p.Some? && p.value.rest == ts[1..] && Value(p, alg) == Numeral(ts[0].text, alg))
            && (|ts| > 0 && ts[0].Name? && (|ts| == 1 || ts[1] != Symbol('(')) ==> p.None?)
            && (|ts| > 0 && ts[0] == Symbol('-') ==>
                  var q := ParseAt(ts[1..], PRIMARY);
                  if Value(q, alg).None? then Value(p, alg).None?
                  else p.Some? && p.value.rest == q.value.rest && Value(p, alg) == Some(alg.neg(Value(q, alg).value)))
            && (|ts| > 0 && ts[0] == Symbol('(') ==>
                  var q := ParseAt(ts[1..], EXPR);
                  Value(p, alg) == Value(q, alg) &&
                  (q.Some? ==> p.Some? && p.value.rest == Close(q.value).rest))
  {
    hide FunctionNamed, Numeral;
  }

  lemma {:induction false} CallUnfolds<V>(ts: seq<Token>, alg: Algebra<V>)
    requires |ts| > 1 && ts[0].Name? && ts[1] == Symbol('(')
    ensures var p, q, f := ParseAt(ts, PRIMARY), ParseAt(ts[2..], EXPR), FunctionNamed(ts[0].text);
            if Value(q, alg).None? || f.None? then Value(p, alg).None?
            else
              p.Some? && p.value.rest == Close(q.value).rest &&
              Value(p, alg) == Some(alg.call(f.value, Value(q, alg).value))
  {
    hide FunctionNamed, Numeral;
  }

  lemma EndIsNoToken()
    ensures !IsAlpha(0 as char) && !IsNumeral(0 as char)
  {
  }

  // ---------------------------------------------------------------- the parser

  class Parser<V(!new)> {
    const input: string
    const alg: Algebra<V>
    var pos: nat

    constructor (text: string, algebra: Algebra<V>)
      ensures input == text && alg == algebra && pos == 0
    {
      input, alg, pos := text, algebra, 0;
    }

    ghost predicate Valid()
      reads this
    {
      pos <= |input|
    }

    /** The tokens still to come. */
    ghost function Tokens(): seq<Token>
      requires Valid()
      reads this
    {
      Lex(input[pos..])
    }

    /** White space was skipped. */
    predicate AtToken()
      reads this
    {
      pos < |input| ==> !IsSpace(input[pos])
    }

    /** The outcome r, and the position where it was reached, are those of the parse p. */
    ghost predicate Agrees(p: Option<Parsed>, r: Option<V>)
      requires Valid()
      reads this
    {
      r == Value(p, alg) && (r.Some? ==> Tokens() == p.value.rest)
    }

    function Peek(): char
      reads this
    {
      if pos >= |input| then 0 as char else input[pos]
    }

    method SkipWhitespace()
      requires Valid()
      modifies this
      ensures Valid() && AtToken() && pos >= old(pos) && Tokens() == old(Tokens())
    {
      while pos < |input| && IsSpace(input[pos])
        invariant Valid() && pos >= old(pos) && Tokens() == old(Tokens())
      {
        assert input[pos..][1..] == input[pos + 1..];
        pos := pos + 1;
      }
    }

    method Consume() returns (c: char)
      requires Valid() && pos < |input|
      modifies this
      ensures Valid() && pos == old(pos) + 1 && c == input[old(pos)]
    {
      c := input[pos];
      pos := pos + 1;
    }

    /** A symbol is the next token exactly when it is the next character. */
    lemma PeekIsToken(c: char)
      requires Valid() && AtToken() && c in {'+', '-', '*', '/', '^', '(', ')'}
      ensures Peek() == c <==> |Tokens()| > 0 && Tokens()[0] == Symbol(c)
      ensures Peek() == c ==> pos < |input| && Tokens()[1..] == Lex(input[pos + 1..])
    {
      if pos < |input| {
        assert input[pos..][0] == input[pos] && input[pos..][1..] == input[pos + 1..];
      }
    }

    lemma PeekIsOperator(level: Level)
      requires Valid() && AtToken() && level < PRIMARY
      ensures OpAt(Tokens(), level).Some? <==>
              Peek() in (if level == EXPR then {'+', '-'} else if level == TERM then {'*', '/'} else {'^'})
      ensures OpAt(Tokens(), level).Some? ==>
              Peek() == OpChar(OpAt(Tokens(), level).value) && pos < |input| && Tokens()[1..] == Lex(input[pos + 1..])
    {
      PeekIsToken('+');
      PeekIsToken('-');
      PeekIsToken('*');
      PeekIsToken('/');
      PeekIsToken('^');
    }

    /** Past white space and a closing parenthesis, if there is one. */
    method SkipCloser(ghost q: Parsed)
      requires Valid() && Tokens() == q.rest
      modifies this
      ensures Valid() && pos >= old(pos) && Tokens() == Close(q).rest
    {
      hide Lex;
      SkipWhitespace();
      PeekIsToken(')');
      if Peek() == ')' {
        var _ := Consume();
      }
    }

    method ReadName() returns (name: string)
      requires Valid() && pos < |input| && IsAlpha(input[pos])
      modifies this
      ensures Valid() && pos > old(pos) && old(Tokens()) == [Name(name)] + Tokens()
    {
      hide Lex;
      name := "";
      while pos < |input| && IsAlpha(input[pos])
        invariant old(pos) <= pos <= |input| && name == input[old(pos)..pos]
        invariant pos == old(pos) ==> pos < |input| && IsAlpha(input[pos])
        invariant forall i :: old(pos) <= i < pos ==> IsAlpha(input[i])
      {
        var c := Consume();
        name := name + [c];
      }
      ghost var s, n := input[old(pos)..], pos - old(pos);
      assert s[..n] == name && s[n..] == input[pos..];
      LexOfName(s, n);
    }

    method ReadNumber() returns (text: string)
      requires Valid() && pos < |input| && IsNumeral(input[pos])
      modifies this
      ensures Valid() && pos > old(pos) && old(Tokens()) == [Number(text)] + Tokens()
    {
      hide Lex;
      text := "";
      while pos < |input| && IsNumeral(input[pos])
        invariant old(pos) <= pos <= |input| && text == input[old(pos)..pos]
        invariant pos == old(pos) ==> pos < |input| && IsNumeral(input[pos])
        invariant forall i :: old(pos) <= i < pos ==> IsNumeral(input[i])
      {
        var c := Consume();
        text := text + [c];
      }
      ghost var s, n := input[old(pos)..], pos - old(pos);
      assert s[..n] == text && s[n..] == input[pos..];
      LexOfNumber(s, n);
    }

    /** Neither a sign, a parenthesis, a name nor a number: no primary starts here. */
    lemma {:induction false} NothingStarts()
      requires Valid() && AtToken()
      requires pos < |input| ==> input[pos] !in {'-', '('} && !IsAlpha(input[pos]) && !IsNumeral(input[pos])
      ensures ParseAt(Tokens(), PRIMARY).None?
    {
      if pos < |input| { assert input[pos..][0] == input[pos]; }
    }

    method ParseExpr() returns (r: Option<V>)
      requires Valid()
      modifies this
      ensures Valid() && pos >= old(pos) && Agrees(ParseAt(old(Tokens()), EXPR), r)
      ensures r.Some? ==> pos > old(pos) && AtToken()
      decreases |input| - pos, 3
    {
      hide Lex, Eval, OpAt, ParseAt, ParseRest, NoOp;
      ghost var ts := Tokens();
      LevelUnfolds(ts, EXPR, alg);
      var first := ParseTerm();
      if first.None? { return None; }
      var result := first.value;
      SkipWhitespace();
      ghost var p := ParseAt(ts, TERM).value;
      while Peek() == '+' || Peek() == '-'
        invariant Valid() && pos > old(pos) && AtToken() && NoOp(p.rest, TERM)
        invariant Tokens() == p.rest && Eval(p.tree, alg) == Some(result)
        invariant ParseAt(ts, EXPR) == ParseRest(p, EXPR)
        decreases |input| - pos
      {
        PeekIsOperator(EXPR);
        RoundUnfolds(p, EXPR, alg);
        ghost var binary := OpAt(Tokens(), EXPR).value;
        var op := Consume();
        var rhs := ParseTerm();
        if rhs.None? { return None; }
        p := Join(binary, p, ParseAt(p.rest[1..], TERM).value);
        result := if op == '+' then alg.add(result, rhs.value) else alg.sub(result, rhs.value);
        SkipWhitespace();
      }
      PeekIsOperator(EXPR);
      RoundUnfolds(p, EXPR, alg);
      return Some(result);
    }

    method ParseTerm() returns (r: Option<V>)
      requires Valid()
      modifies this
      ensures Valid() && pos >= old(pos) && Agrees(ParseAt(old(Tokens()), TERM), r)
      ensures r.Some? ==> pos > old(pos) && AtToken()
      decreases |input| - pos, 2
    {
      hide Lex, Eval, OpAt, ParseAt, ParseRest, NoOp;
      ghost var ts := Tokens();
      LevelUnfolds(ts, TERM, alg);
      var first := ParseFactor();
      if first.None? { return None; }
      var result := first.value;
      SkipWhitespace();
      ghost var p := ParseAt(ts, FACTOR).value;
      while Peek() == '*' || Peek() == '/'
        invariant Valid() && pos > old(pos) && AtToken() && NoOp(p.rest, FACTOR)
        invariant Tokens() == p.rest && Eval(p.tree, alg) == Some(result)
        invariant ParseAt(ts, TERM) == ParseRest(p, TERM)
        decreases |input| - pos
      {
        PeekIsOperator(TERM);
        RoundUnfolds(p, TERM, alg);
        ghost var binary := OpAt(Tokens(), TERM).value;
        var op := Consume();
        var rhs := ParseFactor();
        if rhs.None? { return None; }
        if op == '/' && alg.isZero(rhs.value) { return None; }
        p := Join(binary, p, ParseAt(p.rest[1..], FACTOR).value);
        result := if op == '*' then alg.mul(result, rhs.value) else alg.div(result, rhs.value);
        SkipWhitespace();
      }
      PeekIsOperator(TERM);
      RoundUnfolds(p, TERM, alg);
      return Some(result);
    }

    method ParseFactor() returns (r: Option<V>)
      requires Valid()
      modifies this
      ensures Valid() && pos >= old(pos) && Agrees(ParseAt(old(Tokens()), FACTOR), r)
      ensures r.Some? ==> pos > old(pos) && AtToken()
      decreases |input| - pos, 1
    {
      hide Lex, OpAt, ParseAt, Eval, Apply;
      ghost var ts := Tokens();
      FactorUnfolds(ts, alg);
      var base := ParsePrimary();
      if base.None? { return None; }
      SkipWhitespace();
      PeekIsOperator(FACTOR);
      if Peek() == '^' {
        var _ := Consume();
        var exponent := ParseFactor();
        if exponent.None? { return None; }
        return Some(alg.pow(base.value, exponent.value));
      }
      return base;
    }

    method ParsePrimary() returns (r: Option<V>)
      requires Valid()
      modifies this
      ensures Valid() && pos >= old(pos) && Agrees(ParseAt(old(Tokens()), PRIMARY), r)
      ensures r.Some? ==> pos > old(pos)
      decreases |input| - pos, 0
    {
      hide Lex, ParseAt, Eval, Close, FunctionNamed, Numeral, IsAlpha, IsNumeral, IsSpace;
      ghost var ts := Tokens();
      PrimaryUnfolds(ts, alg);
      EndIsNoToken();
      SkipWhitespace();
      var c := Peek();
      PeekIsToken('-');
      PeekIsToken('(');
      if c == '-' {
        var _ := Consume();
        var x := ParsePrimary();
        if x.None? { return None; }
        return Some(alg.neg(x.value));
      }
      if c == '(' {
        var _ := Consume();
        var value := ParseExpr();
        if value.None? { return None; }
        SkipCloser(ParseAt(ts[1..], EXPR).value);
        return value;
      }
      if IsAlpha(c) {
        var name := ReadName();
        SkipWhitespace();
        PeekIsToken('(');
        assert ts[1..] == Tokens();
        if Peek() == '(' {
          assert ts[1..][1..] == ts[2..] && ts[1] == ts[1..][0];
          CallUnfolds(ts, alg);
          var _ := Consume();
          var arg := ParseExpr();
          if arg.None? { return None; }
          SkipCloser(ParseAt(ts[2..], EXPR).value);
          var f := FunctionNamed(name);
          if f.None? { return None; }
          return Some(alg.call(f.value, arg.value));
        }
        return None;
      }
      if IsNumeral(c) {
        var text := ReadNumber();
        return Numeral(text, alg);
      }
      NothingStarts();
      return None;
    }
  }

  /** Run the parser; the whole text must be used up. */
  method Evaluate<V(!new)>(expr: string, alg: Algebra<V>) returns (r: Option<V>)
    ensures r == Evaluated(expr, alg)
  {
    hide Lex, ParseAt, Eval;
    var p := new Parser(expr, alg);
    assert expr[0..] == expr;
    var result := p.ParseExpr();
    if result.None? { return None; }
    p.SkipWhitespace();
    OnlyEndIsEmpty(expr[p.pos..]);
    if p.pos != |expr| { return None; }
    return result;
  }
}
