/** The arithmetic language of the symbolic fallback (src/specialists/symbolic_fallback.cpp): its
    tokens, its grammar, the trees a recursive descent finds, and how trees are written out. */
module Grammar {
  import opened Basics
  import opened Text

  // ----------------------------------------------------------------- tokens

  datatype Token = Number(text: string) | Name(text: string) | Symbol(c: char)

  predicate IsNumeral(c: char) { IsDigit(c) || c == '.' }

  predicate IsAlpha(c: char) { 'a' <= c <= 'z' || 'A' <= c <= 'Z' }

  /** How many characters at the start of s belong to the class. */
  function Run(s: string, member: char -> bool): (n: nat)
    ensures n <= |s|
    ensures forall i :: 0 <= i < n ==> member(s[i])
    ensures n < |s| ==> !member(s[n])
  {
    if |s| == 0 || !member(s[0]) then 0 else 1 + Run(s[1..], member)
  }

  /** The longest-match tokens of a text; white space only separates. */
  function Lex(s: string): seq<Token>
    decreases |s|
  {
    if |s| == 0 then []
    else if IsSpace(s[0]) then Lex(s[1..])
    else if IsNumeral(s[0]) then var n := Run(s, IsNumeral); [Number(s[..n])] + Lex(s[n..])
    else if IsAlpha(s[0]) then var n := Run(s, IsAlpha); [Name(s[..n])] + Lex(s[n..])
    else [Symbol(s[0])] + Lex(s[1..])
  }

  // ------------------------------------------------------------------ trees

  datatype Op = Add | Sub | Mul | Div | Pow

  datatype Function = Sqrt | Abs | Sin | Cos | Tan | Log | Exp

  datatype Expr =
    | Num(text: string)
    | Neg(arg: Expr)
    | Bin(op: Op, left: Expr, right: Expr)
    | Call(f: Function, arg: Expr)

  /** The values and their operations. Rounding a decimal to a value is refused out of range. */
  datatype Algebra<!V> = Algebra(
    round: real -> Option<V>,
    neg: V -> V,
    add: (V, V) -> V,
    sub: (V, V) -> V,
    mul: (V, V) -> V,
    div: (V, V) -> V,
    pow: (V, V) -> V,
    isZero: V -> bool,
    call: (Function, V) -> V)

  // --------------------------------------------------------------- numerals

  /** std::stod on a run of digits and dots reads some digits, ... */
  function WholeDigits(text: string): (n: nat)
    ensures n <= |text| && forall i :: 0 <= i < n ==> IsDigit(text[i])
  {
    Run(text, IsDigit)
  }

  /** ... and, behind a dot, some more. */
  function FractionDigits(text: string): (f: nat)
    ensures f > 0 ==> WholeDigits(text) + 1 + f <= |text|
    ensures forall i :: WholeDigits(text) < i < WholeDigits(text) + 1 + f ==> IsDigit(text[i])
  {
    var n := WholeDigits(text);
    if n < |text| && text[n] == '.' then
      var f := Run(text[n + 1..], IsDigit);
      assert forall i :: n < i < n + 1 + f ==> text[i] == text[n + 1..][i - n - 1];
      f
    else 0
  }

  /** It throws when it has read no digit. */
  predicate IsReadable(text: string) {
    WholeDigits(text) > 0 || FractionDigits(text) > 0
  }

  function PowerOfTen(n: nat): (p: real)
    ensures p >= 1.0
  {
    if n == 0 then 1.0 else 10.0 * PowerOfTen(n - 1)
  }

  /** The decimal it has read; a second dot and what follows it are ignored. */
  function DecimalOf(text: string): real {
    var n, f := WholeDigits(text), FractionDigits(text);
    var fraction := if f == 0 then "" else text[n + 1..n + 1 + f];
    DigitsValue(text[..n]) as real + DigitsValue(fraction) as real / PowerOfTen(f)
  }

  /** x multiplied by ten f times. */
  function Shifted(x: real, f: nat): real {
    if f == 0 then x else 10.0 * Shifted(x, f - 1)
  }

  lemma {:induction false} ShiftedIs(x: real, f: nat)
    ensures Shifted(x, f) == x * PowerOfTen(f)
  {
    if f > 0 {
      ShiftedIs(x, f - 1);
      ScaleTen(x, PowerOfTen(f - 1));
    }
  }

  lemma ScaleTen(x: real, p: real)
    ensures x * (10.0 * p) == 10.0 * (x * p)
  {
  }

  lemma {:induction false} RunOf(digits: string, rest: string)
    requires AllOf(digits, IsDigit) && (|rest| > 0 ==> !IsDigit(rest[0]))
    ensures Run(digits + rest, IsDigit) == |digits|
  {
    if |digits| > 0 {
      assert (digits + rest)[1..] == digits[1..] + rest;
      RunOf(digits[1..], rest);
    } else {
      assert digits + rest == rest;
    }
  }

  lemma {:induction false} DigitsConcat(a: string, b: string)
    requires AllOf(a, IsDigit) && AllOf(b, IsDigit)
    ensures DigitsValue(a + b) as real == Shifted(DigitsValue(a) as real, |b|) + DigitsValue(b) as real
    decreases |b|
  {
    if |b| == 0 {
      assert a + b == a;
    } else {
      var init := b[..|b| - 1];
      assert (a + b)[..|a + b| - 1] == a + init && (a + b)[|a + b| - 1] == b[|b| - 1];
      DigitsConcat(a, init);
      DigitsStep(a + b);
      DigitsStep(b);
      hide DigitsValue;
    }
  }

  lemma DigitsStep(s: string)
    requires |s| > 0 && AllOf(s, IsDigit)
    ensures DigitsValue(s) as real == 10.0 * DigitsValue(s[..|s| - 1]) as real + DigitValue(s[|s| - 1]) as real
  {
  }

  lemma {:induction false} ShiftedAdds(x: real, y: real, f: nat)
    ensures Shifted(x + y, f) == Shifted(x, f) + Shifted(y, f)
  {
    if f > 0 { ShiftedAdds(x, y, f - 1); }
  }

  lemma ShiftedQuotient(y: real, f: nat)
    ensures Shifted(y / PowerOfTen(f), f) == y
  {
    ShiftedIs(y / PowerOfTen(f), f);
  }

  /** A numeral without a dot is the number of its digits; with a dot it is, ten times as often as it
      has fraction digits, the number of all its digits; a second dot ends it. */
  lemma {:induction false} DecimalIs(a: string, b: string, rest: string)
    requires AllOf(a, IsDigit) && AllOf(b, IsDigit) && (|rest| > 0 ==> !IsDigit(rest[0]))
    ensures DecimalOf(a) == DigitsValue(a) as real
    ensures Shifted(DecimalOf(a + "." + b + rest), |b|) == DigitsValue(a + b) as real
  {
    var x, y := DigitsValue(a) as real, DigitsValue(b) as real;
    DecimalParts(a, b, rest);
    DigitsConcat(a, b);
    ShiftedQuotient(y, |b|);
    ShiftedAdds(x, y / PowerOfTen(|b|), |b|);
  }

  lemma {:induction false} NumeralParts(a: string, b: string, rest: string)
    requires AllOf(a, IsDigit) && AllOf(b, IsDigit) && (|rest| > 0 ==> !IsDigit(rest[0]))
    ensures WholeDigits(a) == |a| && FractionDigits(a) == 0
    ensures var text := a + "." + b + rest;
            && WholeDigits(text) == |a| && FractionDigits(text) == |b|
            && text[..|a|] == a && text[|a| + 1..|a| + 1 + |b|] == b
  {
    hide Run;
    RunOf(a, "");
    assert a + "" == a;
    var text, tail := a + "." + b + rest, "." + b + rest;
    assert text == a + tail;
    RunOf(a, tail);
    assert text[|a|] == '.' && text[|a| + 1..] == b + rest;
    RunOf(b, rest);
  }

  lemma {:induction false} DecimalParts(a: string, b: string, rest: string)
    requires AllOf(a, IsDigit) && AllOf(b, IsDigit) && (|rest| > 0 ==> !IsDigit(rest[0]))
    ensures DecimalOf(a) == DigitsValue(a) as real
    ensures DecimalOf(a + "." + b + rest) == DigitsValue(a) as real + DigitsValue(b) as real / PowerOfTen(|b|)
  {
    hide DigitsValue, PowerOfTen, Run, WholeDigits, FractionDigits;
    NumeralParts(a, b, rest);
    NoDigits();
    assert a[..|a|] == a;
    assert |b| == 0 ==> b == "";
  }

  lemma NoDigits()
    ensures DigitsValue("") == 0 && PowerOfTen(0) == 1.0
  {
  }

  function Numeral<V>(text: string, alg: Algebra<V>): Option<V> {
    if IsReadable(text) then alg.round(DecimalOf(text)) else None
  }

  function Dots(text: string): nat {
    if |text| == 0 then 0 else (if text[0] == '.' then 1 else 0) + Dots(text[1..])
  }

  predicate DigitBeforeSecondDot(text: string) {
    exists i :: 0 <= i < |text| && IsDigit(text[i]) && Dots(text[..i]) <= 1
  }

  predicate AllOf(s: string, member: char -> bool) { forall i :: 0 <= i < |s| ==> member(s[i]) }

  /** A run of digits and dots is read exactly when a digit stands before its second dot. */
  lemma {:induction false} ReadableExactly(text: string)
    requires AllOf(text, IsNumeral)
    ensures IsReadable(text) <==> DigitBeforeSecondDot(text)
  {
    var n := WholeDigits(text);
    if n > 0 {
      assert IsDigit(text[0]) && Dots(text[..0]) <= 1;
    } else if FractionDigits(text) > 0 {
      assert IsDigit(text[1]) && text[..1][1..] == "" && Dots(text[..1]) <= 1;
    } else {
      forall i | 0 <= i < |text| && IsDigit(text[i])
        ensures Dots(text[..i]) > 1
      {
        assert text[0] == '.' && i > 0;
        assert text[1..][0] == text[1] && !IsDigit(text[1]);
        var before := text[..i];
        assert before[0] == '.' && before[1..][0] == '.';
      }
    }
  }

  function Apply<V>(op: Op, x: V, y: V, alg: Algebra<V>): Option<V> {
    match op
    case Add => Some(alg.add(x, y))
    case Sub => Some(alg.sub(x, y))
    case Mul => Some(alg.mul(x, y))
    case Div => if alg.isZero(y) then None else Some(alg.div(x, y))
    case Pow => Some(alg.pow(x, y))
  }

  /** The direct value of a tree; None for a division by zero or a refused numeral. */
  function Eval<V>(e: Expr, alg: Algebra<V>): Option<V> {
    match e
    case Num(text) => Numeral(text, alg)
    case Neg(arg) =>
      var x := Eval(arg, alg);
      if x.None? then None else Some(alg.neg(x.value))
    case Bin(op, left, right) =>
      var x, y := Eval(left, alg), Eval(right, alg);
      if x.None? || y.None? then None else Apply(op, x.value, y.value, alg)
    case Call(f, arg) =>
      var x := Eval(arg, alg);
      if x.None? then None else Some(alg.call(f, x.value))
  }

  function OpChar(op: Op): char {
    match op
    case Add => '+'
    case Sub => '-'
    case Mul => '*'
    case Div => '/'
    case Pow => '^'
  }

  function NameOf(f: Function): string {
    match f
    case Sqrt => "sqrt"
    case Abs => "abs"
    case Sin => "sin"
    case Cos => "cos"
    case Tan => "tan"
    case Log => "log"
    case Exp => "exp"
  }

  function FunctionNamed(name: string): (f: Option<Function>)
    ensures f.Some? ==> NameOf(f.value) == name
    ensures f.None? ==> forall g :: NameOf(g) != name
  {
    if name == "sqrt" then Some(Sqrt)
    else if name == "abs" then Some(Abs)
    else if name == "sin" then Some(Sin)
    else if name == "cos" then Some(Cos)
    else if name == "tan" then Some(Tan)
    else if name == "log" then Some(Log)
    else if name == "exp" then Some(Exp)
    else None
  }

  /** Every numeral of the tree is a run of digits and dots. */
  predicate WellFormed(e: Expr) {
    match e
    case Num(text) => |text| > 0 && AllOf(text, IsNumeral)
    case Neg(arg) => WellFormed(arg)
    case Bin(_, left, right) => WellFormed(left) && WellFormed(right)
    case Call(_, arg) => WellFormed(arg)
  }

  // ---------------------------------------------------------------- grammar

  const EXPR := 0
  const TERM := 1
  const FACTOR := 2
  const PRIMARY := 3

  type Level = n: nat | n <= PRIMARY

  function LevelOf(op: Op): Level {
    match op
    case Add => EXPR
    case Sub => EXPR
    case Mul => TERM
    case Div => TERM
    case Pow => FACTOR
  }

  /** Sums and products associate to the left, powers to the right. */
  function LeftLevel(op: Op): Level {
    if op == Pow then PRIMARY else LevelOf(op)
  }

  function RightLevel(op: Op): Level {
    if op == Pow then FACTOR else LevelOf(op) + 1
  }

  /** The tokens are derived from the grammar's nonterminal for the level, with the given tree. */
  ghost predicate Is(ts: seq<Token>, e: Expr, level: Level)
    decreases |ts|, PRIMARY - level + 1
  {
    if level == PRIMARY then IsPrimary(ts, e)
    else Is(ts, e, level + 1) || (e.Bin? && LevelOf(e.op) == level && exists i :: IsSplit(ts, e, i))
  }

  /** The operator at position i separates the two operands. */
  ghost predicate IsSplit(ts: seq<Token>, e: Expr, i: nat)
    requires e.Bin?
    decreases |ts|, 0
  {
    i < |ts| && ts[i] == Symbol(OpChar(e.op)) &&
    Is(ts[..i], e.left, LeftLevel(e.op)) && Is(ts[i + 1..], e.right, RightLevel(e.op))
  }

  /** A number, a negated primary, a parenthesis or a function call. */
  ghost predicate IsPrimary(ts: seq<Token>, e: Expr)
    decreases |ts|, 0
  {
    || (e.Num? && ts == [Number(e.text)])
    || (e.Neg? && |ts| > 0 && ts[0] == Symbol('-') && Is(ts[1..], e.arg, PRIMARY))
    || (|ts| > 1 && ts[0] == Symbol('(') && ts[|ts| - 1] == Symbol(')') && Is(ts[1..|ts| - 1], e, EXPR))
    || (e.Call? && |ts| > 2 && ts[0] == Name(NameOf(e.f)) && ts[1] == Symbol('(') && ts[|ts| - 1] == Symbol(')') &&
        Is(ts[2..|ts| - 1], e.arg, EXPR))
  }

  function Closers(k: nat): (ts: seq<Token>)
    ensures |ts| == k && forall i :: 0 <= i < k ==> ts[i] == Symbol(')')
  {
    seq(k, _ => Symbol(')'))
  }

  // ------------------------------------------------------ recursive descent

  /** A tree, the tokens behind it, and how many closing parentheses were missing. */
  datatype Parsed = Parsed(tree: Expr, rest: seq<Token>, missing: nat)

  function OpAt(ts: seq<Token>, level: Level): (op: Option<Op>)
    ensures op.Some? ==> |ts| > 0 && LevelOf(op.value) == level && ts[0] == Symbol(OpChar(op.value))
  {
    if |ts| == 0 || !ts[0].Symbol? then None
    else match ts[0].c
      case '+' => if level == EXPR then Some(Add) else None
      case '-' => if level == EXPR then Some(Sub) else None
      case '*' => if level == TERM then Some(Mul) else None
      case '/' => if level == TERM then Some(Div) else None
      case '^' => if level == FACTOR then Some(Pow) else None
      case _ => None
  }

  /** No operator of this or a tighter level follows. */
  predicate NoOp(ts: seq<Token>, level: Level) {
    (level <= EXPR ==> OpAt(ts, EXPR).None?) && (level <= TERM ==> OpAt(ts, TERM).None?) &&
    (level <= FACTOR ==> OpAt(ts, FACTOR).None?)
  }

  function ParseAt(ts: seq<Token>, level: Level): (r: Option<Parsed>)
    ensures r.Some? ==> |r.value.rest| < |ts| && NoOp(r.value.rest, level)
    decreases |ts|, PRIMARY - level + 1
  {
    if level == PRIMARY then ParsePrimary(ts)
    else
      var first := ParseAt(ts, level + 1);
      if first.None? then None
      else if level == FACTOR then ParsePower(first.value)
      else ParseRest(first.value, level)
  }

  /** The loop over operators of one level. */
  function ParseRest(p: Parsed, level: Level): (r: Option<Parsed>)
    requires level < FACTOR && NoOp(p.rest, level + 1)
    ensures r.Some? ==> |r.value.rest| <= |p.rest| && NoOp(r.value.rest, level)
    decreases |p.rest|, PRIMARY + 2
  {
    var op := OpAt(p.rest, level);
    if op.None? then Some(p)
    else
      var q := ParseAt(p.rest[1..], level + 1);
      if q.None? then None else ParseRest(Join(op.value, p, q.value), level)
  }

  function ParsePower(p: Parsed): (r: Option<Parsed>)
    ensures r.Some? ==> |r.value.rest| <= |p.rest| && NoOp(r.value.rest, FACTOR)
    decreases |p.rest|, PRIMARY + 2
  {
    if OpAt(p.rest, FACTOR).None? then Some(p)
    else
      var q := ParseAt(p.rest[1..], FACTOR);
      if q.None? then None else Some(Join(Pow, p, q.value))
  }

  function Join(op: Op, p: Parsed, q: Parsed): Parsed {
    Parsed(Bin(op, p.tree, q.tree), q.rest, p.missing + q.missing)
  }

  function ParsePrimary(ts: seq<Token>): (r: Option<Parsed>)
    ensures r.Some? ==> |r.value.rest| < |ts|
    decreases |ts|, 0
  {
    if |ts| == 0 then None
    else match ts[0]
      case Number(text) => Some(Parsed(Num(text), ts[1..], 0))
      case Name(name) =>
        if |ts| == 1 || ts[1] != Symbol('(') then None
        else
          var q, f := ParseAt(ts[2..], EXPR), FunctionNamed(name);
          if q.None? || f.None? then None else Some(Close(q.value.(tree := Call(f.value, q.value.tree))))
      case Symbol(c) =>
        if c == '-' then
          var q := ParseAt(ts[1..], PRIMARY);
          if q.None? then None else Some(q.value.(tree := Neg(q.value.tree)))
        else if c == '(' then
          var q := ParseAt(ts[1..], EXPR);
          if q.None? then None else Some(Close(q.value))
        else None
  }

  /** A closing parenthesis is taken if it is there. */
  function Close(p: Parsed): (r: Parsed)
    ensures r.tree == p.tree && |r.rest| <= |p.rest|
  {
    if |p.rest| > 0 && p.rest[0] == Symbol(')') then p.(rest := p.rest[1..]) else p.(missing := p.missing + 1)
  }

  // --------------------------------------------------------------- soundness

  /** Nothing can continue here: the end, or a token that is no operator and no closing parenthesis. */
  predicate Stuck(ts: seq<Token>) {
    |ts| > 0 ==> ts[0].Symbol? ==> ts[0].c !in {'+', '-', '*', '/', '^', ')'}
  }

  /** What was read from ts, with the missing parentheses supplied, has the tree at that level; where
      parentheses are missing, reading got stuck. */
  ghost predicate Reads(ts: seq<Token>, p: Parsed, level: Level) {
    |p.rest| <= |ts| && ts[|ts| - |p.rest|..] == p.rest &&
    Is(ts[..|ts| - |p.rest|] + Closers(p.missing), p.tree, level) &&
    (p.missing > 0 ==> Stuck(p.rest))
  }

  lemma {:induction false} ParseAtSound(ts: seq<Token>, level: Level)
    requires ParseAt(ts, level).Some?
    ensures Reads(ts, ParseAt(ts, level).value, level)
    decreases |ts|, PRIMARY - level + 1
  {
    hide Reads;
    if level == PRIMARY {
      ParsePrimarySound(ts);
    } else {
      ParseAtSound(ts, level + 1);
      var first := ParseAt(ts, level + 1).value;
      ReadsBelow(ts, first, level);
      if level == FACTOR {
        if OpAt(first.rest, FACTOR).Some? {
          ParseAtSound(first.rest[1..], FACTOR);
          JoinReads(ts, Pow, first, ParseAt(first.rest[1..], FACTOR).value);
        }
      } else {
        ParseRestSound(ts, first, level);
      }
    }
  }

  lemma ReadsBelow(ts: seq<Token>, p: Parsed, level: Level)
    requires level < PRIMARY && Reads(ts, p, level + 1)
    ensures Reads(ts, p, level)
  {
  }

  lemma {:induction false} ParseRestSound(ts: seq<Token>, p: Parsed, level: Level)
    requires level < FACTOR && |p.rest| < |ts| && NoOp(p.rest, level + 1) && Reads(ts, p, level)
    requires ParseRest(p, level).Some?
    ensures Reads(ts, ParseRest(p, level).value, level)
    decreases |p.rest|, PRIMARY + 2
  {
    hide Reads;
    var op := OpAt(p.rest, level);
    if op.Some? {
      ParseAtSound(p.rest[1..], level + 1);
      var q := ParseAt(p.rest[1..], level + 1).value;
      JoinReads(ts, op.value, p, q);
      ParseRestSound(ts, Join(op.value, p, q), level);
    }
  }

  /** Two operands around an operator make one expression of the operator's level. */
  lemma {:induction false} JoinReads(ts: seq<Token>, op: Op, p: Parsed, q: Parsed)
    requires Reads(ts, p, LeftLevel(op)) && |p.rest| > 0 && p.rest[0] == Symbol(OpChar(op))
    requires Reads(p.rest[1..], q, RightLevel(op))
    ensures Reads(ts, Join(op, p, q), LevelOf(op))
  {
    hide Is;
    assert p.missing == 0;
    var i, e := |ts| - |p.rest|, Bin(op, p.tree, q.tree);
    var all := ts[..|ts| - |q.rest|] + Closers(q.missing);
    assert ts[..i] + Closers(0) == ts[..i] == all[..i];
    assert ts[i] == p.rest[0];
    assert ts[i + 1..] == p.rest[1..];
    assert all[i + 1..] == p.rest[1..][..|p.rest| - 1 - |q.rest|] + Closers(q.missing);
    assert IsSplit(all, e, i);
    SplitIs(all, e, i);
  }

  lemma SplitIs(ts: seq<Token>, e: Expr, i: nat)
    requires e.Bin? && IsSplit(ts, e, i)
    ensures Is(ts, e, LevelOf(e.op))
  {
  }

  lemma PrimaryIs(ts: seq<Token>, e: Expr)
    requires IsPrimary(ts, e)
    ensures Is(ts, e, PRIMARY)
  {
  }

  lemma {:induction false} ParsePrimarySound(ts: seq<Token>)
    requires ParsePrimary(ts).Some?
    ensures Reads(ts, ParsePrimary(ts).value, PRIMARY)
    decreases |ts|, 0
  {
    match ts[0]
    case Number(text) =>
      assert ts[..1] + Closers(0) == [Number(text)];
      PrimaryIs(ts[..1] + Closers(0), Num(text));
    case Name(name) =>
      ParseAtSound(ts[2..], EXPR);
      CallReads(ts, FunctionNamed(name).value, ParseAt(ts[2..], EXPR).value);
    case Symbol(c) =>
      if c == '-' {
        ParseAtSound(ts[1..], PRIMARY);
        NegReads(ts, ParseAt(ts[1..], PRIMARY).value);
      } else {
        ParseAtSound(ts[1..], EXPR);
        ParenthesisReads(ts, ParseAt(ts[1..], EXPR).value);
      }
  }

  lemma {:induction false} NegReads(ts: seq<Token>, q: Parsed)
    requires |ts| > 0 && ts[0] == Symbol('-') && Reads(ts[1..], q, PRIMARY)
    ensures Reads(ts, q.(tree := Neg(q.tree)), PRIMARY)
  {
    var used := ts[..|ts| - |q.rest|] + Closers(q.missing);
    assert used[1..] == ts[1..][..|ts| - 1 - |q.rest|] + Closers(q.missing);
    PrimaryIs(used, Neg(q.tree));
  }

  /** Closing, or counting a missing parenthesis, adds one closing parenthesis to what was read. */
  lemma {:induction false} CloseAdds(inner: seq<Token>, q: Parsed)
    requires Reads(inner, q, EXPR) && NoOp(q.rest, EXPR)
    ensures var p := Close(q);
            && |p.rest| <= |inner| && inner[|inner| - |p.rest|..] == p.rest && (p.missing > 0 ==> Stuck(p.rest))
            && inner[..|inner| - |p.rest|] + Closers(p.missing) ==
               (inner[..|inner| - |q.rest|] + Closers(q.missing)) + [Symbol(')')]
  {
    hide Is;
    var n := |inner| - |q.rest|;
    if |q.rest| > 0 && q.rest[0] == Symbol(')') {
      assert q.missing == 0 && Closers(0) == [];
      assert inner[n] == q.rest[0] && inner[..n + 1] == inner[..n] + [inner[n]];
    } else {
      assert Closers(q.missing + 1) == Closers(q.missing) + [Symbol(')')];
    }
  }

  /** It completes what a parenthesis has opened. */
  lemma {:induction false} CloseReads(ts: seq<Token>, start: nat, q: Parsed)
    requires start <= |ts| && Reads(ts[start..], q, EXPR) && NoOp(q.rest, EXPR)
    ensures var p := Close(q);
            var used := ts[..|ts| - |p.rest|] + Closers(p.missing);
            && |p.rest| <= |ts| - start && ts[|ts| - |p.rest|..] == p.rest && (p.missing > 0 ==> Stuck(p.rest))
            && |used| > start && used[..start] == ts[..start] && used[|used| - 1] == Symbol(')')
            && Is(used[start..|used| - 1], q.tree, EXPR)
  {
    hide Is, Close, Stuck, NoOp, Closers;
    var inner, p := ts[start..], Close(q);
    CloseAdds(inner, q);
    var read := inner[..|inner| - |q.rest|] + Closers(q.missing);
    assert ts[..|ts| - |p.rest|] == ts[..start] + inner[..|inner| - |p.rest|];
    var used := ts[..|ts| - |p.rest|] + Closers(p.missing);
    assert used == ts[..start] + (inner[..|inner| - |p.rest|] + Closers(p.missing));
    assert used == ts[..start] + (read + [Symbol(')')]);
    assert used[start..|used| - 1] == read;
  }

  lemma {:induction false} ParenthesisReads(ts: seq<Token>, q: Parsed)
    requires |ts| > 0 && ts[0] == Symbol('(') && Reads(ts[1..], q, EXPR) && NoOp(q.rest, EXPR)
    ensures Reads(ts, Close(q), PRIMARY)
  {
    hide Is, IsPrimary, NoOp;
    CloseReads(ts, 1, q);
    var p := Close(q);
    var used := ts[..|ts| - |p.rest|] + Closers(p.missing);
    assert used[0] == ts[..1][0];
    EnclosedIs(used, q.tree);
  }

  lemma EnclosedIs(ts: seq<Token>, e: Expr)
    requires |ts| > 1 && ts[0] == Symbol('(') && ts[|ts| - 1] == Symbol(')') && Is(ts[1..|ts| - 1], e, EXPR)
    ensures Is(ts, e, PRIMARY)
  {
    PrimaryIs(ts, e);
  }

  lemma {:induction false} CallReads(ts: seq<Token>, f: Function, q: Parsed)
    requires |ts| > 1 && ts[0] == Name(NameOf(f)) && ts[1] == Symbol('(')
    requires Reads(ts[2..], q, EXPR) && NoOp(q.rest, EXPR)
    ensures Reads(ts, Close(q.(tree := Call(f, q.tree))), PRIMARY)
  {
    hide Is, IsPrimary, NoOp, NameOf;
    CloseReads(ts, 2, q);
    var p := Close(q);
    var used := ts[..|ts| - |p.rest|] + Closers(p.missing);
    assert used[0] == ts[..2][0] && used[1] == ts[..2][1];
    CallIs(used, f, q.tree);
  }

  lemma CallIs(ts: seq<Token>, f: Function, arg: Expr)
    requires |ts| > 2 && ts[0] == Name(NameOf(f)) && ts[1] == Symbol('(') && ts[|ts| - 1] == Symbol(')')
    requires Is(ts[2..|ts| - 1], arg, EXPR)
    ensures Is(ts, Call(f, arg), PRIMARY)
  {
    PrimaryIs(ts, Call(f, arg));
  }

  // ------------------------------------------------------------ completeness

  /** Every derivation is found, whatever follows it, provided nothing that follows could continue it. */
  lemma {:induction false} ParseAtComplete(ts: seq<Token>, e: Expr, tail: seq<Token>, level: Level)
    requires Is(ts, e, level) && NoOp(tail, level)
    ensures ParseAt(ts + tail, level) == Some(Parsed(e, tail, 0))
    decreases |ts|, PRIMARY - level + 1, 1
  {
    hide IsPrimary, ParsePrimary;
    if level == PRIMARY {
      PrimaryComplete(ts, e, tail);
    } else if level < FACTOR {
      LoopReaches(ts, e, tail, level);
    } else if Is(ts, e, PRIMARY) {
      ParseAtComplete(ts, e, tail, PRIMARY);
    } else {
      var i: nat :| IsSplit(ts, e, i);
      ParseAtComplete(ts[..i], e.left, ts[i..] + tail, PRIMARY);
      assert ts[..i] + (ts[i..] + tail) == ts + tail;
      ParseAtComplete(ts[i + 1..], e.right, tail, FACTOR);
      assert (ts[i..] + tail)[1..] == ts[i + 1..] + tail;
    }
  }

  /** Reading a left-associative chain brings the loop to the end of the chain with the chain's tree. */
  lemma {:induction false} LoopReaches(ts: seq<Token>, e: Expr, tail: seq<Token>, level: Level)
    requires level < FACTOR && Is(ts, e, level) && NoOp(tail, level + 1)
    ensures ParseAt(ts + tail, level) == ParseRest(Parsed(e, tail, 0), level)
    decreases |ts|, PRIMARY - level + 1, 0
  {
    if Is(ts, e, level + 1) {
      ParseAtComplete(ts, e, tail, level + 1);
    } else {
      var i: nat :| IsSplit(ts, e, i);
      var rest := ts[i..] + tail;
      LoopReaches(ts[..i], e.left, rest, level);
      assert ts[..i] + rest == ts + tail;
      ParseAtComplete(ts[i + 1..], e.right, tail, level + 1);
      assert rest[1..] == ts[i + 1..] + tail;
      assert OpAt(rest, level) == Some(e.op);
    }
  }

  lemma {:induction false} PrimaryComplete(ts: seq<Token>, e: Expr, tail: seq<Token>)
    requires Is(ts, e, PRIMARY)
    ensures ParsePrimary(ts + tail) == Some(Parsed(e, tail, 0))
    decreases |ts|, PRIMARY - PRIMARY + 1, 0
  {
    hide ParseAt, FunctionNamed;
    var all, closed := ts + tail, [Symbol(')')] + tail;
    assert IsPrimary(ts, e);
    if e.Num? && ts == [Number(e.text)] {
    } else if e.Neg? && ts[0] == Symbol('-') && Is(ts[1..], e.arg, PRIMARY) {
      ParseAtComplete(ts[1..], e.arg, tail, PRIMARY);
      assert all[1..] == ts[1..] + tail;
    } else if |ts| > 1 && ts[0] == Symbol('(') && ts[|ts| - 1] == Symbol(')') && Is(ts[1..|ts| - 1], e, EXPR) {
      ParseAtComplete(ts[1..|ts| - 1], e, closed, EXPR);
      assert all[1..] == ts[1..|ts| - 1] + closed;
      assert closed[1..] == tail;
    } else {
      ParseAtComplete(ts[2..|ts| - 1], e.arg, closed, EXPR);
      assert all[2..] == ts[2..|ts| - 1] + closed;
      assert closed[1..] == tail;
      NamesDiffer(FunctionNamed(NameOf(e.f)).value, e.f);
    }
  }

  lemma NamesDiffer(f: Function, g: Function)
    requires NameOf(f) == NameOf(g)
    ensures f == g
  {
    assert NameOf(f)[0] == NameOf(g)[0] && NameOf(f)[1] == NameOf(g)[1];
  }

  // ----------------------------------------- missing closing parentheses

  predicate EndsClosed(ts: seq<Token>) { |ts| > 0 && ts[|ts| - 1] == Symbol(')') }

  function Init(ts: seq<Token>): seq<Token>
    requires |ts| > 0
  {
    ts[..|ts| - 1]
  }

  /** What becomes of a result when the last token, a closing parenthesis, is taken away: either it
      was unread, or one more is missing. */
  function Dropped(p: Parsed): Parsed {
    if |p.rest| == 0 then p.(missing := p.missing + 1) else p.(rest := Init(p.rest))
  }

  lemma {:induction false} InitTail(ts: seq<Token>, n: nat)
    requires EndsClosed(ts) && n < |ts|
    ensures Init(ts)[n..] == Init(ts[n..]) && EndsClosed(ts[n..])
  {
  }

  /** The dropped parenthesis is no operator, so the same operators are seen. */
  lemma OperatorsStay(p: Parsed, level: Level)
    requires |p.rest| > 0 ==> EndsClosed(p.rest)
    ensures OpAt(Dropped(p).rest, level) == OpAt(p.rest, level)
    ensures OpAt(p.rest, level).Some? ==>
              |p.rest| > 1 && Dropped(p).rest[1..] == Init(p.rest[1..]) && EndsClosed(p.rest[1..])
  {
    if |p.rest| > 1 { InitTail(p.rest, 1); }
  }

  lemma {:induction false} DropAt(ts: seq<Token>, level: Level)
    requires EndsClosed(ts) && ParseAt(ts, level).Some?
    ensures var p := ParseAt(ts, level).value;
            (|p.rest| > 0 ==> EndsClosed(p.rest)) && ParseAt(Init(ts), level) == Some(Dropped(p))
    decreases |ts|, PRIMARY - level + 1
  {
    hide OpAt, ParseRest, ParsePrimary, EndsClosed, Init, Dropped;
    if level == PRIMARY {
      DropPrimary(ts);
    } else {
      DropAt(ts, level + 1);
      var first := ParseAt(ts, level + 1).value;
      if level < FACTOR { DropRest(first, level); } else { DropPower(first); }
    }
  }

  lemma {:induction false} DropRest(p: Parsed, level: Level)
    requires level < FACTOR && NoOp(p.rest, level + 1) && (|p.rest| > 0 ==> EndsClosed(p.rest))
    requires ParseRest(p, level).Some?
    ensures var r := ParseRest(p, level).value;
            (|r.rest| > 0 ==> EndsClosed(r.rest)) && NoOp(Dropped(p).rest, level + 1) &&
            ParseRest(Dropped(p), level) == Some(Dropped(r))
    decreases |p.rest|, PRIMARY + 2
  {
    hide OpAt, ParseAt, EndsClosed, Init;
    OperatorsStay(p, EXPR);
    OperatorsStay(p, TERM);
    OperatorsStay(p, FACTOR);
    var op := OpAt(p.rest, level);
    if op.Some? {
      DropAt(p.rest[1..], level + 1);
      DropRest(Join(op.value, p, ParseAt(p.rest[1..], level + 1).value), level);
    }
  }

  lemma {:induction false} DropPower(p: Parsed)
    requires |p.rest| > 0 ==> EndsClosed(p.rest)
    requires ParsePower(p).Some?
    ensures var r := ParsePower(p).value;
            (|r.rest| > 0 ==> EndsClosed(r.rest)) && ParsePower(Dropped(p)) == Some(Dropped(r))
    decreases |p.rest|, PRIMARY + 2
  {
    hide OpAt, ParseAt, EndsClosed, Init;
    OperatorsStay(p, FACTOR);
    if OpAt(p.rest, FACTOR).Some? { DropAt(p.rest[1..], FACTOR); }
  }

  lemma {:induction false} DropPrimary(ts: seq<Token>)
    requires EndsClosed(ts) && ParsePrimary(ts).Some?
    ensures var p := ParsePrimary(ts).value;
            (|p.rest| > 0 ==> EndsClosed(p.rest)) && ParsePrimary(Init(ts)) == Some(Dropped(p))
    decreases |ts|, 0
  {
    hide ParseAt, Close, FunctionNamed, NoOp;
    assert |ts| > 1;
    InitTail(ts, 1);
    if ts[0].Name? {
      InitTail(ts, 2);
      DropAt(ts[2..], EXPR);
      var q := ParseAt(ts[2..], EXPR).value;
      DropClose(q.(tree := Call(FunctionNamed(ts[0].text).value, q.tree)));
    } else if ts[0].Symbol? {
      if ts[0].c == '-' {
        DropAt(ts[1..], PRIMARY);
      } else {
        DropAt(ts[1..], EXPR);
        DropClose(ParseAt(ts[1..], EXPR).value);
      }
    }
  }

  lemma DropClose(p: Parsed)
    requires |p.rest| > 0 ==> EndsClosed(p.rest)
    ensures Close(Dropped(p)) == Dropped(Close(p))
    ensures |Close(p).rest| > 0 ==> EndsClosed(Close(p).rest)
  {
    if |p.rest| > 1 { assert Init(p.rest)[1..] == Init(p.rest[1..]); }
  }

  lemma {:induction false} DropClosers(ts: seq<Token>, e: Expr, missing: nat, k: nat)
    requires ParseAt(ts + Closers(k), EXPR) == Some(Parsed(e, [], missing))
    ensures ParseAt(ts, EXPR) == Some(Parsed(e, [], missing + k))
    decreases k
  {
    hide ParseAt;
    if k == 0 {
      assert ts + Closers(0) == ts;
    } else {
      DropAt(ts + Closers(k), EXPR);
      assert Init(ts + Closers(k)) == ts + Closers(k - 1);
      DropClosers(ts, e, missing + 1, k - 1);
    }
  }

  /** The tokens are read to the end as a tree with k parentheses missing exactly when, followed by k
      closing parentheses, they are a sentence of the grammar with that tree. */
  lemma {:induction false} ReadsExactlySentences(ts: seq<Token>, e: Expr, k: nat)
    ensures ParseAt(ts, EXPR) == Some(Parsed(e, [], k)) <==> Is(ts + Closers(k), e, EXPR)
  {
    hide ParseAt, Is;
    var sentence := ts + Closers(k);
    if ParseAt(ts, EXPR) == Some(Parsed(e, [], k)) {
      ParseAtSound(ts, EXPR);
      assert ts[..|ts| - 0] == ts;
    }
    if Is(sentence, e, EXPR) {
      ParseAtComplete(sentence, e, [], EXPR);
      assert sentence + [] == sentence;
      DropClosers(ts, e, 0, k);
    }
  }

  /** The grammar is unambiguous, and no number of closing parentheses but one makes a sentence. */
  lemma {:induction false} Unambiguous(ts: seq<Token>, e: Expr, f: Expr, j: nat, k: nat)
    requires Is(ts + Closers(j), e, EXPR) && Is(ts + Closers(k), f, EXPR)
    ensures e == f && j == k
  {
    ReadsExactlySentences(ts, e, j);
    ReadsExactlySentences(ts, f, k);
  }
}
