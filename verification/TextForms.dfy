/** The language of the symbolic fallback on texts: how sentences are put together from characters, and
    what each way of putting them together evaluates to. */
module TextForms {
  import opened Basics
  import opened Text
  import opened Grammar
  import opened Evaluator

  /** The text is derived from the grammar's nonterminal for the level, with the given tree. */
  ghost predicate Sentence(text: string, e: Expr, level: Level) { Is(Lex(text), e, level) }

  // ------------------------------------------------------------------ forms

  /** A sentence of a tighter level is one of every looser level. */
  lemma {:induction false} Loosen(text: string, e: Expr, level: Level, looser: Level)
    requires Sentence(text, e, level) && looser <= level
    ensures Sentence(text, e, looser)
    decreases level - looser
  {
    if looser < level { Loosen(text, e, level, looser + 1); }
  }

  lemma {:induction false} BinaryForm(s: string, t: string, op: Op, l: Expr, r: Expr)
    requires Sentence(s, l, LeftLevel(op)) && Sentence(t, r, RightLevel(op))
    ensures Sentence(s + [OpChar(op)] + t, Bin(op, l, r), LevelOf(op))
  {
    hide Lex, Is;
    var a, b := Lex(s), Lex(t);
    LexBreak(s, OpChar(op), t);
    var ts := a + [Symbol(OpChar(op))] + b;
    assert ts[..|a|] == a && ts[|a| + 1..] == b;
    SplitIs(ts, Bin(op, l, r), |a|);
  }

  lemma {:induction false} NegationForm(t: string, e: Expr)
    requires Sentence(t, e, PRIMARY)
    ensures Sentence("-" + t, Neg(e), PRIMARY)
  {
    hide Lex, Is;
    assert "-" + t == [] + ['-'] + t;
    LexBreak([], '-', t);
    OnlyEndIsEmpty([]);
    var ts := Lex("-" + t);
    assert ts[1..] == Lex(t);
    PrimaryIs(ts, Neg(e));
  }

  lemma {:induction false} LexEnclosed(name: string, t: string)
    ensures Lex(name + "(" + t + ")") == Lex(name) + [Symbol('(')] + (Lex(t) + [Symbol(')')])
  {
    hide Lex;
    assert name + "(" + t + ")" == name + ['('] + (t + [')'] + "");
    assert !IsSpace('(') && !IsSpace(')');
    LexBreak(name, '(', t + [')'] + "");
    LexBreak(t, ')', "");
    OnlyEndIsEmpty("");
  }

  lemma {:induction false} ParenthesisForm(t: string, e: Expr)
    requires Sentence(t, e, EXPR)
    ensures Sentence("(" + t + ")", e, PRIMARY)
  {
    hide Lex, Is;
    LexEnclosed("", t);
    OnlyEndIsEmpty("");
    assert "" + "(" + t + ")" == "(" + t + ")";
    var ts := Lex("(" + t + ")");
    assert ts[1..|ts| - 1] == Lex(t);
    EnclosedIs(ts, e);
  }

  lemma {:induction false} CallForm(f: Function, t: string, e: Expr)
    requires Sentence(t, e, EXPR)
    ensures Sentence(NameOf(f) + "(" + t + ")", Call(f, e), PRIMARY)
  {
    hide Lex, Is;
    var name := NameOf(f);
    LexEnclosed(name, t);
    LexOfName(name, |name|);
    OnlyEndIsEmpty(name[|name|..]);
    assert name[..|name|] == name;
    var ts := Lex(name + "(" + t + ")");
    assert ts[2..|ts| - 1] == Lex(t);
    CallIs(ts, f, e);
  }

  lemma {:induction false} NumeralForm(text: string)
    requires |text| > 0 && AllOf(text, IsNumeral)
    ensures Sentence(text, Num(text), PRIMARY)
  {
    hide Lex;
    LexOfNumber(text, |text|);
    OnlyEndIsEmpty(text[|text|..]);
    assert text[..|text|] == text;
    assert Lex(text) == [Number(text)];
    PrimaryIs([Number(text)], Num(text));
  }

  // ----------------------------------------------------------------- values

  /** The value of a sentence is the value of its tree. */
  lemma {:induction false} SentenceValue<V>(text: string, e: Expr, level: Level, alg: Algebra<V>)
    requires Sentence(text, e, level)
    ensures Evaluated(text, alg) == Eval(e, alg)
  {
    Loosen(text, e, level, EXPR);
    hide Lex, ParseAt, Is, Eval;
    var ts := Lex(text);
    assert ts + Closers(0) == ts;
    ReadsExactlySentences(ts, e, 0);
  }

  /** A binary sentence has no value when an operand has none. */
  lemma {:induction false} BinaryValue<V>(s: string, t: string, op: Op, l: Expr, r: Expr, alg: Algebra<V>)
    requires Sentence(s, l, LeftLevel(op)) && Sentence(t, r, RightLevel(op))
    ensures var x, y := Evaluated(s, alg), Evaluated(t, alg);
            Evaluated(s + [OpChar(op)] + t, alg) ==
            if x.None? || y.None? then None else Apply(op, x.value, y.value, alg)
  {
    hide Sentence, Evaluated;
    BinaryForm(s, t, op, l, r);
    SentenceValue(s, l, LeftLevel(op), alg);
    SentenceValue(t, r, RightLevel(op), alg);
    SentenceValue(s + [OpChar(op)] + t, Bin(op, l, r), LevelOf(op), alg);
  }

  /** Any text whose tree joins the trees of two texts by an operator, negates one or calls a function
      on it, is worth the operation on their values. */
  lemma OperationsEvaluate<V>(text: string, s: string, t: string, l: Expr, r: Expr, f: Function, alg: Algebra<V>)
    requires IsSentence(s, l) && IsSentence(t, r) && Evaluated(s, alg).Some? && Evaluated(t, alg).Some?
    ensures var x, y := Evaluated(s, alg).value, Evaluated(t, alg).value;
            && (IsSentence(text, Bin(Add, l, r)) ==> Evaluated(text, alg) == Some(alg.add(x, y)))
            && (IsSentence(text, Bin(Sub, l, r)) ==> Evaluated(text, alg) == Some(alg.sub(x, y)))
            && (IsSentence(text, Bin(Mul, l, r)) ==> Evaluated(text, alg) == Some(alg.mul(x, y)))
            && (IsSentence(text, Bin(Div, l, r)) ==>
                  Evaluated(text, alg) == if alg.isZero(y) then None else Some(alg.div(x, y)))
            && (IsSentence(text, Bin(Pow, l, r)) ==> Evaluated(text, alg) == Some(alg.pow(x, y)))
            && (IsSentence(text, Neg(l)) ==> Evaluated(text, alg) == Some(alg.neg(x)))
            && (IsSentence(text, Call(f, l)) ==> Evaluated(text, alg) == Some(alg.call(f, x)))
  {
    hide *;
    ValueOf(s, l, alg);
    ValueOf(t, r, alg);
    TreeValues(l, r, f, Evaluated(s, alg).value, Evaluated(t, alg).value, alg);
    ValueOf(text, Bin(Add, l, r), alg);
    ValueOf(text, Bin(Sub, l, r), alg);
    ValueOf(text, Bin(Mul, l, r), alg);
    ValueOf(text, Bin(Div, l, r), alg);
    ValueOf(text, Bin(Pow, l, r), alg);
    ValueOf(text, Neg(l), alg);
    ValueOf(text, Call(f, l), alg);
  }

  lemma {:induction false} TreeValues<V>(l: Expr, r: Expr, f: Function, x: V, y: V, alg: Algebra<V>)
    requires Eval(l, alg) == Some(x) && Eval(r, alg) == Some(y)
    ensures Eval(Bin(Add, l, r), alg) == Some(alg.add(x, y)) && Eval(Bin(Sub, l, r), alg) == Some(alg.sub(x, y))
    ensures Eval(Bin(Mul, l, r), alg) == Some(alg.mul(x, y)) && Eval(Bin(Pow, l, r), alg) == Some(alg.pow(x, y))
    ensures Eval(Bin(Div, l, r), alg) == if alg.isZero(y) then None else Some(alg.div(x, y))
    ensures Eval(Neg(l), alg) == Some(alg.neg(x)) && Eval(Call(f, l), alg) == Some(alg.call(f, x))
  {
  }

  lemma ValueOf<V>(text: string, e: Expr, alg: Algebra<V>)
    ensures IsSentence(text, e) ==> Evaluated(text, alg) == Eval(e, alg)
  {
    hide Evaluated, Is, Lex, Eval;
    if IsSentence(text, e) { SentenceValue(text, e, EXPR, alg); }
  }

  /** A sum of an expression and a term. */
  lemma SumsEvaluate<V>(s: string, t: string, l: Expr, r: Expr, alg: Algebra<V>)
    requires Sentence(s, l, EXPR) && Sentence(t, r, TERM)
    ensures Sentence(s + "+" + t, Bin(Add, l, r), EXPR) && Sentence(s + "-" + t, Bin(Sub, l, r), EXPR)
    ensures var x, y, sum, difference :=
              Evaluated(s, alg), Evaluated(t, alg), Evaluated(s + "+" + t, alg), Evaluated(s + "-" + t, alg);
            if x.None? || y.None? then sum.None? && difference.None?
            else sum == Some(alg.add(x.value, y.value)) && difference == Some(alg.sub(x.value, y.value))
  {
    hide Sentence, Evaluated;
    BinaryForm(s, t, Add, l, r);
    BinaryForm(s, t, Sub, l, r);
    BinaryValue(s, t, Add, l, r, alg);
    BinaryValue(s, t, Sub, l, r, alg);
  }

  /** A product of a term and a factor; a quotient exists exactly when the divisor is not zero. */
  lemma ProductsEvaluate<V>(s: string, t: string, l: Expr, r: Expr, alg: Algebra<V>)
    requires Sentence(s, l, TERM) && Sentence(t, r, FACTOR)
    ensures Sentence(s + "*" + t, Bin(Mul, l, r), TERM) && Sentence(s + "/" + t, Bin(Div, l, r), TERM)
    ensures var x, y, product, quotient :=
              Evaluated(s, alg), Evaluated(t, alg), Evaluated(s + "*" + t, alg), Evaluated(s + "/" + t, alg);
            if x.None? || y.None? then product.None? && quotient.None?
            else
              && product == Some(alg.mul(x.value, y.value))
              && (if alg.isZero(y.value) then quotient.None? else quotient == Some(alg.div(x.value, y.value)))
  {
    hide Sentence, Evaluated;
    BinaryForm(s, t, Mul, l, r);
    BinaryForm(s, t, Div, l, r);
    BinaryValue(s, t, Mul, l, r, alg);
    BinaryValue(s, t, Div, l, r, alg);
  }

  /** A power of a primary and a factor. */
  lemma PowersEvaluate<V>(s: string, t: string, l: Expr, r: Expr, alg: Algebra<V>)
    requires Sentence(s, l, PRIMARY) && Sentence(t, r, FACTOR)
    ensures Sentence(s + "^" + t, Bin(Pow, l, r), FACTOR)
    ensures var x, y, power := Evaluated(s, alg), Evaluated(t, alg), Evaluated(s + "^" + t, alg);
            if x.None? || y.None? then power.None? else power == Some(alg.pow(x.value, y.value))
  {
    hide Sentence, Evaluated;
    BinaryForm(s, t, Pow, l, r);
    BinaryValue(s, t, Pow, l, r, alg);
  }

  /** A negated primary, and a sentence in parentheses. */
  lemma PrimariesEvaluate<V>(t: string, e: Expr, alg: Algebra<V>)
    requires Sentence(t, e, EXPR)
    ensures Sentence("(" + t + ")", e, PRIMARY) && Evaluated("(" + t + ")", alg) == Evaluated(t, alg)
    ensures Sentence(t, e, PRIMARY) ==>
              && Sentence("-" + t, Neg(e), PRIMARY)
              && Evaluated("-" + t, alg) ==
                 if Evaluated(t, alg).None? then None else Some(alg.neg(Evaluated(t, alg).value))
  {
    hide Sentence, Evaluated;
    ParenthesisForm(t, e);
    SentenceValue(t, e, EXPR, alg);
    SentenceValue("(" + t + ")", e, PRIMARY, alg);
    if Sentence(t, e, PRIMARY) {
      NegationForm(t, e);
      SentenceValue("-" + t, Neg(e), PRIMARY, alg);
    }
  }

  lemma CallValue<V>(f: Function, t: string, e: Expr, alg: Algebra<V>)
    requires Sentence(t, e, EXPR)
    ensures Sentence(NameOf(f) + "(" + t + ")", Call(f, e), PRIMARY)
    ensures Evaluated(NameOf(f) + "(" + t + ")", alg) ==
            if Evaluated(t, alg).None? then None else Some(alg.call(f, Evaluated(t, alg).value))
  {
    hide Sentence, Evaluated, NameOf;
    CallForm(f, t, e);
    SentenceValue(t, e, EXPR, alg);
    SentenceValue(NameOf(f) + "(" + t + ")", Call(f, e), PRIMARY, alg);
  }

  /** The seven functions by name. */
  lemma CallsEvaluate<V>(t: string, e: Expr, alg: Algebra<V>)
    requires Sentence(t, e, EXPR) && Evaluated(t, alg).Some?
    ensures var x := Evaluated(t, alg).value;
            && Evaluated("sqrt(" + t + ")", alg) == Some(alg.call(Sqrt, x))
            && Evaluated("abs(" + t + ")", alg) == Some(alg.call(Abs, x))
            && Evaluated("sin(" + t + ")", alg) == Some(alg.call(Sin, x))
            && Evaluated("cos(" + t + ")", alg) == Some(alg.call(Cos, x))
            && Evaluated("tan(" + t + ")", alg) == Some(alg.call(Tan, x))
            && Evaluated("log(" + t + ")", alg) == Some(alg.call(Log, x))
            && Evaluated("exp(" + t + ")", alg) == Some(alg.call(Exp, x))
  {
    hide Sentence, Evaluated;
    CallValue(Sqrt, t, e, alg);
    CallValue(Abs, t, e, alg);
    CallValue(Sin, t, e, alg);
    CallValue(Cos, t, e, alg);
    CallValue(Tan, t, e, alg);
    CallValue(Log, t, e, alg);
    CallValue(Exp, t, e, alg);
    assert "sqrt" + "(" == "sqrt(" && "abs" + "(" == "abs(" && "sin" + "(" == "sin(" && "cos" + "(" == "cos("
           && "tan" + "(" == "tan(" && "log" + "(" == "log(" && "exp" + "(" == "exp(";
  }

  /** A numeral is worth its decimal, when it has one that can be rounded. */
  lemma {:induction false} NumeralsEvaluate<V>(text: string, alg: Algebra<V>)
    requires |text| > 0 && AllOf(text, IsNumeral)
    ensures Sentence(text, Num(text), PRIMARY)
    ensures Evaluated(text, alg) == if DigitBeforeSecondDot(text) then alg.round(DecimalOf(text)) else None
  {
    hide Sentence, Evaluated, DecimalOf;
    NumeralForm(text);
    SentenceValue(text, Num(text), PRIMARY, alg);
    ReadableExactly(text);
  }

  /** Sums go from left to right, powers from right to left, products come before sums, and a sign
      belongs to the base of a power. */
  lemma Conventions<V>(s: string, t: string, w: string, l: Expr, m: Expr, r: Expr, alg: Algebra<V>)
    requires Sentence(s, l, PRIMARY) && Sentence(t, m, PRIMARY) && Sentence(w, r, PRIMARY)
    requires Evaluated(s, alg).Some? && Evaluated(t, alg).Some? && Evaluated(w, alg).Some?
    ensures var x, y, z := Evaluated(s, alg).value, Evaluated(t, alg).value, Evaluated(w, alg).value;
            && Evaluated(s + "-" + t + "-" + w, alg) == Some(alg.sub(alg.sub(x, y), z))
            && Evaluated(s + "^" + (t + "^" + w), alg) == Some(alg.pow(x, alg.pow(y, z)))
            && Evaluated(s + "+" + (t + "*" + w), alg) == Some(alg.add(x, alg.mul(y, z)))
            && Evaluated("-" + s + "^" + t, alg) == Some(alg.pow(alg.neg(x), y))
  {
    hide Sentence, Evaluated;
    Loosen(s, l, PRIMARY, EXPR); Loosen(t, m, PRIMARY, TERM); Loosen(w, r, PRIMARY, TERM);
    Loosen(t, m, PRIMARY, FACTOR); Loosen(w, r, PRIMARY, FACTOR);
    SumsEvaluate(s, t, l, m, alg);
    SumsEvaluate(s + "-" + t, w, Bin(Sub, l, m), r, alg);
    PowersEvaluate(t, w, m, r, alg);
    PowersEvaluate(s, t + "^" + w, l, Bin(Pow, m, r), alg);
    ProductsEvaluate(t, w, m, r, alg);
    SumsEvaluate(s, t + "*" + w, l, Bin(Mul, m, r), alg);
    PrimariesEvaluate(s, l, alg);
    PowersEvaluate("-" + s, t, Neg(l), m, alg);
  }
}
