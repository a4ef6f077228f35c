/** Writing expression trees as text: with the parentheses the grammar needs and any white space. */
module Rendering {
  import opened Text
  import opened Grammar
  import opened Evaluator

  // --------------------------------------------------------------- to tokens

  function LevelOfTree(e: Expr): Level {
    if e.Bin? then LevelOf(e.op) else PRIMARY
  }

  function Render(e: Expr, level: Level): seq<Token>
    decreases e, level
  {
    if LevelOfTree(e) < level then [Symbol('(')] + Render(e, EXPR) + [Symbol(')')]
    else match e
      case Num(text) => [Number(text)]
      case Neg(arg) => [Symbol('-')] + Render(arg, PRIMARY)
      case Bin(op, left, right) => Render(left, LeftLevel(op)) + [Symbol(OpChar(op))] + Render(right, RightLevel(op))
      case Call(f, arg) => [Name(NameOf(f)), Symbol('(')] + Render(arg, EXPR) + [Symbol(')')]
  }

  lemma {:induction false} LowerLevel(ts: seq<Token>, e: Expr, level: Level, lower: Level)
    requires lower <= level && Is(ts, e, level)
    ensures Is(ts, e, lower)
    decreases level - lower
  {
    if lower < level { LowerLevel(ts, e, level, lower + 1); }
  }

  /** What is rendered is derived from the grammar with the same tree. */
  lemma {:induction false} RenderIs(e: Expr, level: Level)
    ensures Is(Render(e, level), e, level)
    decreases e, level + 1
  {
    hide Is, IsSplit;
    var ts := Render(e, level);
    if LevelOfTree(e) < level {
      RenderIs(e, EXPR);
      assert ts[1..|ts| - 1] == Render(e, EXPR);
      PrimaryIs(ts, e);
      LowerLevel(ts, e, PRIMARY, level);
    } else if e.Bin? {
      RenderBin(e, ts);
      LowerLevel(ts, e, LevelOf(e.op), level);
    } else {
      if e.Neg? {
        RenderIs(e.arg, PRIMARY);
        assert ts[1..] == Render(e.arg, PRIMARY);
      } else if e.Call? {
        RenderIs(e.arg, EXPR);
        assert ts[2..|ts| - 1] == Render(e.arg, EXPR);
      }
      PrimaryIs(ts, e);
      LowerLevel(ts, e, PRIMARY, level);
    }
  }

  lemma {:induction false} RenderBin(e: Expr, ts: seq<Token>)
    requires e.Bin?
    requires ts == Render(e.left, LeftLevel(e.op)) + [Symbol(OpChar(e.op))] + Render(e.right, RightLevel(e.op))
    ensures Is(ts, e, LevelOf(e.op))
    decreases e, 0
  {
    hide Is;
    var i := |Render(e.left, LeftLevel(e.op))|;
    RenderIs(e.left, LeftLevel(e.op));
    RenderIs(e.right, RightLevel(e.op));
    assert ts[..i] == Render(e.left, LeftLevel(e.op)) && ts[i + 1..] == Render(e.right, RightLevel(e.op));
    assert IsSplit(ts, e, i);
    SplitIs(ts, e, i);
  }

  lemma {:induction false} RenderGrows(e: Expr, level: Level)
    requires level < PRIMARY
    ensures |Render(e, level)| <= |Render(e, level + 1)|
    ensures |Render(e, PRIMARY)| <= |Render(e, EXPR)| + 2
  {
  }

  /** No token sequence with this tree at this level is shorter: only needed parentheses are written. */
  lemma {:induction false} RenderIsShortest(ts: seq<Token>, e: Expr, level: Level)
    requires Is(ts, e, level)
    ensures |Render(e, level)| <= |ts|
    decreases |ts|, PRIMARY - level
  {
    if level < PRIMARY {
      RenderGrows(e, level);
      if Is(ts, e, level + 1) {
        RenderIsShortest(ts, e, level + 1);
      } else {
        var i: nat :| IsSplit(ts, e, i);
        RenderIsShortest(ts[..i], e.left, LeftLevel(e.op));
        RenderIsShortest(ts[i + 1..], e.right, RightLevel(e.op));
      }
    } else {
      assert IsPrimary(ts, e);
      RenderGrows(e, EXPR);
      if e.Num? && ts == [Number(e.text)] {
      } else if e.Neg? && ts[0] == Symbol('-') && Is(ts[1..], e.arg, PRIMARY) {
        RenderIsShortest(ts[1..], e.arg, PRIMARY);
      } else if ts[0] == Symbol('(') {
        RenderIsShortest(ts[1..|ts| - 1], e, EXPR);
      } else {
        RenderIsShortest(ts[2..|ts| - 1], e.arg, EXPR);
      }
    }
  }

  // ----------------------------------------------------------------- to text

  predicate IsToken(t: Token) {
    match t
    case Number(text) => |text| > 0 && AllOf(text, IsNumeral)
    case Name(text) => |text| > 0 && AllOf(text, IsAlpha)
    case Symbol(c) => !IsSpace(c) && !IsNumeral(c) && !IsAlpha(c)
  }

  function TextOf(t: Token): string {
    match t
    case Number(text) => text
    case Name(text) => text
    case Symbol(c) => [c]
  }

  /** Proper tokens, of which no two words stand side by side. */
  predicate Separable(ts: seq<Token>) {
    (forall i :: 0 <= i < |ts| ==> IsToken(ts[i])) &&
    (forall i :: 0 < i < |ts| ==> ts[i - 1].Symbol? || ts[i].Symbol?)
  }

  /** The tokens with a gap in front of, between and behind them. */
  function Spell(ts: seq<Token>, gaps: seq<string>): string
    requires |gaps| == |ts| + 1
  {
    if |ts| == 0 then gaps[0] else gaps[0] + (TextOf(ts[0]) + Spell(ts[1..], gaps[1..]))
  }

  predicate AreGaps(gaps: seq<string>) { forall i :: 0 <= i < |gaps| ==> AllOf(gaps[i], IsSpace) }

  lemma {:induction false} LexSkipsGap(gap: string, s: string)
    requires AllOf(gap, IsSpace)
    ensures Lex(gap + s) == Lex(s)
    decreases |gap|
  {
    if |gap| == 0 {
      assert gap + s == s;
    } else {
      LexOfSpace(gap + s);
      assert (gap + s)[1..] == gap[1..] + s;
      LexSkipsGap(gap[1..], s);
    }
  }

  /** A spelling starts with white space or its first token, so it cannot prolong a word in front. */
  lemma {:induction false} SpellingStarts(ts: seq<Token>, gaps: seq<string>)
    requires |gaps| == |ts| + 1 && AreGaps(gaps) && (|ts| > 0 ==> ts[0].Symbol? && IsToken(ts[0]))
    ensures var s := Spell(ts, gaps); |s| > 0 ==> !IsNumeral(s[0]) && !IsAlpha(s[0])
  {
    if |gaps[0]| > 0 { SpaceIsNothingElse(gaps[0][0]); }
  }

  lemma {:induction false} LexOfToken(t: Token, s: string)
    requires IsToken(t) && (!t.Symbol? && |s| > 0 ==> !IsNumeral(s[0]) && !IsAlpha(s[0]))
    ensures Lex(TextOf(t) + s) == [t] + Lex(s)
  {
    hide Lex;
    var all, n := TextOf(t) + s, |TextOf(t)|;
    assert all[..n] == TextOf(t) && all[n..] == s;
    match t
    case Number(_) => LexOfNumber(all, n);
    case Name(_) => LexOfName(all, n);
    case Symbol(c) => LexOfSymbol(all);
  }

  /** White space does not matter. */
  lemma {:induction false} LexOfSpelling(ts: seq<Token>, gaps: seq<string>)
    requires |gaps| == |ts| + 1 && AreGaps(gaps) && Separable(ts)
    ensures Lex(Spell(ts, gaps)) == ts
    decreases |ts|
  {
    hide Lex, IsSpace, IsToken;
    if |ts| == 0 {
      LexSkipsGap(gaps[0], "");
      assert gaps[0] + "" == gaps[0];
      OnlyEndIsEmpty("");
    } else {
      var rest := Spell(ts[1..], gaps[1..]);
      LexSkipsGap(gaps[0], TextOf(ts[0]) + rest);
      if !ts[0].Symbol? { SpellingStarts(ts[1..], gaps[1..]); }
      LexOfToken(ts[0], rest);
      LexOfSpelling(ts[1..], gaps[1..]);
    }
  }

  lemma {:induction false} SeparableAround(a: seq<Token>, c: char, b: seq<Token>)
    requires Separable(a) && Separable(b) && IsToken(Symbol(c))
    ensures Separable(a + [Symbol(c)] + b)
  {
  }

  lemma SymbolsAreTokens()
    ensures forall c :: c in {'+', '-', '*', '/', '^', '(', ')'} ==> IsToken(Symbol(c))
    ensures forall f :: IsToken(Name(NameOf(f)))
  {
  }

  /** In a sentence two words never meet. */
  lemma {:induction false} SentenceIsSeparable(ts: seq<Token>, e: Expr, level: Level)
    requires Is(ts, e, level) && WellFormed(e)
    ensures Separable(ts)
    decreases |ts|, PRIMARY - level + 1
  {
    hide IsToken, Separable;
    SymbolsAreTokens();
    if level < PRIMARY {
      if Is(ts, e, level + 1) {
        SentenceIsSeparable(ts, e, level + 1);
      } else {
        var i: nat :| IsSplit(ts, e, i);
        SentenceIsSeparable(ts[..i], e.left, LeftLevel(e.op));
        SentenceIsSeparable(ts[i + 1..], e.right, RightLevel(e.op));
        SeparableAround(ts[..i], OpChar(e.op), ts[i + 1..]);
        assert ts == ts[..i] + [Symbol(OpChar(e.op))] + ts[i + 1..];
      }
    } else {
      PrimaryIsSeparable(ts, e);
    }
  }

  lemma {:induction false} PrimaryIsSeparable(ts: seq<Token>, e: Expr)
    requires IsPrimary(ts, e) && WellFormed(e)
    ensures Separable(ts)
    decreases |ts|, 0
  {
    hide Separable;
    SymbolsAreTokens();
    if e.Num? && ts == [Number(e.text)] {
      OneIsSeparable(ts[0]);
    } else if e.Neg? && ts[0] == Symbol('-') && Is(ts[1..], e.arg, PRIMARY) {
      SentenceIsSeparable(ts[1..], e.arg, PRIMARY);
      Surrounded([], '-', ts[1..], ts);
    } else if ts[0] == Symbol('(') {
      var inner := ts[1..|ts| - 1];
      SentenceIsSeparable(inner, e, EXPR);
      Surrounded([], '(', inner, ts[..|ts| - 1]);
      Surrounded(ts[..|ts| - 1], ')', [], ts);
    } else {
      var inner := ts[2..|ts| - 1];
      SentenceIsSeparable(inner, e.arg, EXPR);
      OneIsSeparable(ts[0]);
      Surrounded([ts[0]], '(', inner, ts[..|ts| - 1]);
      Surrounded(ts[..|ts| - 1], ')', [], ts);
    }
  }

  lemma OneIsSeparable(t: Token)
    requires IsToken(t)
    ensures Separable([t]) && Separable([])
  {
  }

  lemma {:induction false} Surrounded(a: seq<Token>, c: char, b: seq<Token>, ts: seq<Token>)
    requires (a == [] || Separable(a)) && (b == [] || Separable(b)) && IsToken(Symbol(c)) && ts == a + [Symbol(c)] + b
    ensures Separable(ts)
  {
    SeparableAround(a, c, b);
  }

  /** Any sentence, spaced in any way, evaluates to the direct value of its tree. */
  lemma {:induction false} SentencesEvaluate<V>(ts: seq<Token>, e: Expr, gaps: seq<string>, alg: Algebra<V>)
    requires Is(ts, e, EXPR) && WellFormed(e) && |gaps| == |ts| + 1 && AreGaps(gaps)
    ensures Evaluated(Spell(ts, gaps), alg) == Eval(e, alg)
  {
    hide Is, Lex, ParseAt, Eval;
    SentenceIsSeparable(ts, e, EXPR);
    LexOfSpelling(ts, gaps);
    assert ts + Closers(0) == ts;
    ReadsExactlySentences(ts, e, 0);
  }

  /** Rendering a tree with the needed parentheses and any spacing, and evaluating the text, gives the
      tree's value; there is none exactly when the tree has none. */
  lemma {:induction false} RenderedEvaluates<V>(e: Expr, gaps: seq<string>, alg: Algebra<V>)
    requires WellFormed(e) && |gaps| == |Render(e, EXPR)| + 1 && AreGaps(gaps)
    ensures Evaluated(Spell(Render(e, EXPR), gaps), alg) == Eval(e, alg)
  {
    RenderIs(e, EXPR);
    SentencesEvaluate(Render(e, EXPR), e, gaps, alg);
  }
}
