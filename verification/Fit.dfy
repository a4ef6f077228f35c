/** Quantization of a block of weights: candidate-scale search, rounding, ternary thresholding,
    and their optimality. Weights are reals; rounding of float32 is not modelled. */
module Fit {
  import opened Format
  import opened Codes
  import Half

  type PosReal = r: real | r > 0.0 witness 1.0

  /** What the exporter's fit callbacks return. */
  datatype FitResult = FitResult(scale: PosReal, bias: real, payload: seq<uint32>)

  // ------------------------------------------------------------- arithmetic

  function Sum(values: seq<real>): real {
    if |values| == 0 then 0.0 else values[0] + Sum(values[1..])
  }

  function Mean(values: seq<real>): real
    requires |values| > 0
  {
    Sum(values) / |values| as real
  }

  function MaxAbs(values: seq<real>): (m: real)
    requires |values| > 0
    ensures forall i :: 0 <= i < |values| ==> Half.Abs(values[i]) <= m
    ensures exists i :: 0 <= i < |values| && Half.Abs(values[i]) == m
  {
    if |values| == 1 then Half.Abs(values[0])
    else
      var rest := MaxAbs(values[1..]);
      assert forall i :: 1 <= i < |values| ==> values[i] == values[1..][i - 1];
      if Half.Abs(values[0]) >= rest then Half.Abs(values[0]) else rest
  }

  /** np.round: nearest integer, ties to even. */
  function Round(x: real): (r: int)
    ensures -0.5 <= x - r as real <= 0.5
    ensures x - r as real == 0.5 || x - r as real == -0.5 ==> r % 2 == 0
  {
    var f := x.Floor;
    var d := x - f as real;
    if d < 0.5 then f else if d > 0.5 then f + 1 else if f % 2 == 0 then f else f + 1
  }

  function Clip(x: int, lo: int, hi: int): int {
    if x < lo then lo else if x > hi then hi else x
  }

  // ------------------------------------------------------------------ codes

  /** The weight as a number of scale steps above the bias. */
  function Steps(v: real, scale: PosReal, bias: real): real {
    (v - bias) / scale
  }

  function Fp4Code(v: real, scale: PosReal, bias: real): (c: int)
    ensures IsCode(FP4_AFFINE, c)
  {
    Clip(Round(Steps(v, scale, bias)), -8, 7)
  }

  function TernaryCode(v: real, scale: PosReal, bias: real): (c: int)
    ensures IsCode(T158_AFFINE, c)
  {
    var centered, threshold := v - bias, 0.5 * scale;
    if centered < -threshold then -1 else if centered > threshold then 1 else 0
  }

  function CodeOf(mode: CodeMode, v: real, scale: PosReal, bias: real): (c: int)
    ensures IsCode(mode, c)
  {
    if mode.FP4_AFFINE? then Fp4Code(v, scale, bias) else TernaryCode(v, scale, bias)
  }

  function QuantizedCodes(mode: CodeMode, values: seq<real>, scale: PosReal, bias: real): (r: seq<int>)
    ensures |r| == |values| && AreCodes(mode, r)
  {
    seq(|values|, i requires 0 <= i < |values| => CodeOf(mode, values[i], scale, bias))
  }

  /** The value a code stands for. */
  function Level(scale: real, code: int, bias: real): real {
    scale * code as real + bias
  }

  function Reconstructed(codes: seq<int>, scale: real, bias: real): (r: seq<real>)
    ensures |r| == |codes|
  {
    seq(|codes|, i requires 0 <= i < |codes| => Level(scale, codes[i], bias))
  }

  // ------------------------------------------------------------------ error

  function Square(x: real): real {
    x * x
  }

  function SquaredError(values: seq<real>, recon: seq<real>): (e: real)
    requires |values| == |recon|
  {
    if |values| == 0 then 0.0 else Square(values[0] - recon[0]) + SquaredError(values[1..], recon[1..])
  }

  /** np.mean((values - reconstructed) ** 2) */
  function Mse(values: seq<real>, codes: seq<int>, scale: real, bias: real): real
    requires |values| == |codes| > 0
  {
    SquaredError(values, Reconstructed(codes, scale, bias)) / |values| as real
  }

  // ---------------------------------------------------------------- fitting

  function InitialScale(values: seq<real>): PosReal
    requires |values| > 0
  {
    if MaxAbs(values) > 0.0 then MaxAbs(values) / 7.0 else 1.0
  }

  /** Error of one candidate scale at its own rounded codes. */
  function CandidateError(values: seq<real>, bias: real, scale: PosReal): real
    requires |values| > 0
  {
    Mse(values, QuantizedCodes(FP4_AFFINE, values, scale, bias), scale, bias)
  }

  predicate AllPositive(multipliers: seq<real>) {
    forall k :: 0 <= k < |multipliers| ==> multipliers[k] > 0.0
  }

  function Candidate(initial: PosReal, multipliers: seq<real>, k: nat): PosReal
    requires AllPositive(multipliers) && k < |multipliers|
  {
    MulPositive(initial, multipliers[k]);
    initial * multipliers[k]
  }

  lemma MulPositive(a: real, b: real)
    requires a > 0.0 && b > 0.0
    ensures a * b > 0.0
  {
  }

  /** The candidate the search settles on among the first n: the earliest of least error. */
  function BestCandidate(values: seq<real>, bias: real, initial: PosReal, multipliers: seq<real>, n: nat): (best: nat)
    requires |values| > 0 && AllPositive(multipliers) && 0 < n <= |multipliers|
    ensures best < n
    ensures forall k :: 0 <= k < n ==>
              CandidateError(values, bias, Candidate(initial, multipliers, best))
              <= CandidateError(values, bias, Candidate(initial, multipliers, k))
    ensures forall k :: 0 <= k < best ==>
              CandidateError(values, bias, Candidate(initial, multipliers, best))
              < CandidateError(values, bias, Candidate(initial, multipliers, k))
  {
    if n == 1 then 0
    else
      var prev := BestCandidate(values, bias, initial, multipliers, n - 1);
      if CandidateError(values, bias, Candidate(initial, multipliers, n - 1))
         < CandidateError(values, bias, Candidate(initial, multipliers, prev)) then n - 1 else prev
  }

  function FitAffineScale(values: seq<real>, multipliers: seq<real>): PosReal
    requires |values| > 0 && AllPositive(multipliers)
  {
    var initial := InitialScale(values);
    if |multipliers| == 0 then initial
    else Candidate(initial, multipliers, BestCandidate(values, Mean(values), initial, multipliers, |multipliers|))
  }

  function Centered(values: seq<real>, bias: real): (r: seq<real>)
    ensures |r| == |values|
  {
    seq(|values|, i requires 0 <= i < |values| => Half.Abs(values[i] - bias))
  }

  function FitTernaryScale(values: seq<real>): PosReal
    requires |values| > 0
  {
    var spread := Mean(Centered(values, Mean(values)));
    if spread > 0.00000001 then spread else 0.00000001
  }

  /** _encode_fp4_affine_variable and, with 512 words, _encode_fp4_affine. */
  function EncodeFp4(values: seq<real>, multipliers: seq<real>, count: nat): FitResult
    requires |values| > 0 && AllPositive(multipliers)
  {
    var scale, bias := FitAffineScale(values, multipliers), Mean(values);
    FitResult(scale, bias, Payload(FP4_AFFINE, QuantizedCodes(FP4_AFFINE, values, scale, bias), count))
  }

  /** _encode_t158_affine_variable and, with 512 words, _encode_t158_affine. */
  function EncodeT158(values: seq<real>, count: nat): FitResult
    requires |values| > 0
  {
    var scale, bias := FitTernaryScale(values), Mean(values);
    FitResult(scale, bias, Payload(T158_AFFINE, QuantizedCodes(T158_AFFINE, values, scale, bias), count))
  }

  // ------------------------------------------------------------- optimality

  /** A result holds exactly the codes its scale and bias give the block. */
  ghost predicate Encodes(mode: CodeMode, fit: FitResult, values: seq<real>, count: nat) {
    fit.payload == Payload(mode, QuantizedCodes(mode, values, fit.scale, fit.bias), count)
  }

  lemma SquareMonotone(x: real, y: real)
    requires Half.Abs(x) <= Half.Abs(y)
    ensures Square(x) <= Square(y)
  {
    var a, b := Half.Abs(x), Half.Abs(y);
    assert a * a <= a * b <= b * b;
  }

  lemma AbsMul(s: real, x: real)
    requires s > 0.0
    ensures Half.Abs(s * x) == s * Half.Abs(x)
  {
    if x < 0.0 {
      assert s * x < 0.0;
      assert s * -x == -(s * x);
    } else {
      assert s * x >= 0.0;
    }
  }

  /** Rounding then clipping is nearest among the sixteen codes. */
  lemma NearestFp4(t: real, c: int)
    requires IsCode(FP4_AFFINE, c)
    ensures Half.Abs(t - Clip(Round(t), -8, 7) as real) <= Half.Abs(t - c as real)
  {
    var r := Round(t);
    if r != c {
      assert r < c ==> r + 1 <= c;
      assert c < r ==> c + 1 <= r;
    }
  }

  function Scaled(s: real, x: real): real {
    s * x
  }

  /** The distance from a level, measured in steps of the scale. */
  lemma Residual(v: real, scale: PosReal, code: int, bias: real)
    ensures Half.Abs(v - Level(scale, code, bias)) == Scaled(scale, Half.Abs(Steps(v, scale, bias) - code as real))
  {
    var t := Steps(v, scale, bias);
    assert scale * t == v - bias;
    assert scale * (t - code as real) == scale * t - scale * code as real;
    AbsMul(scale, t - code as real);
  }

  lemma ScaledMonotone(s: real, x: real, y: real)
    requires s > 0.0 && x <= y
    ensures Scaled(s, x) <= Scaled(s, y)
  {
  }

  lemma Fp4IsNearest(v: real, scale: PosReal, bias: real, c: int)
    requires IsCode(FP4_AFFINE, c)
    ensures Half.Abs(v - Level(scale, Fp4Code(v, scale, bias), bias)) <= Half.Abs(v - Level(scale, c, bias))
  {
    hide Round, Clip, Half.Abs, Level, Steps, Scaled;
    var t, a := Steps(v, scale, bias), Fp4Code(v, scale, bias);
    NearestFp4(t, c);
    Residual(v, scale, a, bias);
    Residual(v, scale, c, bias);
    ScaledMonotone(scale, Half.Abs(t - a as real), Half.Abs(t - c as real));
  }

  lemma TernaryIsNearest(v: real, scale: PosReal, bias: real, c: int)
    requires IsCode(T158_AFFINE, c)
    ensures Half.Abs(v - Level(scale, TernaryCode(v, scale, bias), bias)) <= Half.Abs(v - Level(scale, c, bias))
  {
    var s: real := scale;
    assert c == -1 || c == 0 || c == 1;
    assert s * 1.0 == s && s * (-1.0) == -s && s * 0.0 == 0.0;
  }

  /** The chosen code is at least as close to the weight as any other code of the mode. */
  lemma CodeIsNearest(mode: CodeMode, v: real, scale: PosReal, bias: real, c: int)
    requires IsCode(mode, c)
    ensures Square(v - Level(scale, CodeOf(mode, v, scale, bias), bias)) <= Square(v - Level(scale, c, bias))
  {
    if mode.FP4_AFFINE? {
      Fp4IsNearest(v, scale, bias, c);
    } else {
      TernaryIsNearest(v, scale, bias, c);
    }
    hide Square, Fp4Code, TernaryCode, Level;
    SquareMonotone(v - Level(scale, CodeOf(mode, v, scale, bias), bias), v - Level(scale, c, bias));
  }

  lemma {:induction false} ErrorMonotone(values: seq<real>, r1: seq<real>, r2: seq<real>)
    requires |values| == |r1| == |r2|
    requires forall i :: 0 <= i < |values| ==> Square(values[i] - r1[i]) <= Square(values[i] - r2[i])
    ensures SquaredError(values, r1) <= SquaredError(values, r2)
  {
    if |values| > 0 {
      forall i | 0 <= i < |values[1..]|
        ensures Square(values[1..][i] - r1[1..][i]) <= Square(values[1..][i] - r2[1..][i])
      {
        assert Square(values[i + 1] - r1[i + 1]) <= Square(values[i + 1] - r2[i + 1]);
      }
      ErrorMonotone(values[1..], r1[1..], r2[1..]);
    }
  }

  lemma DivMonotone(a: real, b: real, n: real)
    requires n > 0.0 && a <= b
    ensures a / n <= b / n
  {
  }

  /** At a given scale and bias no code vector of the mode has a smaller error. */
  lemma CodesAreOptimal(mode: CodeMode, values: seq<real>, scale: PosReal, bias: real, codes: seq<int>)
    requires |values| == |codes| > 0 && AreCodes(mode, codes)
    ensures Mse(values, QuantizedCodes(mode, values, scale, bias), scale, bias) <= Mse(values, codes, scale, bias)
  {
    hide Level, CodeOf, Square, SquaredError;
    var r1 := Reconstructed(QuantizedCodes(mode, values, scale, bias), scale, bias);
    var r2 := Reconstructed(codes, scale, bias);
    forall i | 0 <= i < |values|
      ensures Square(values[i] - r1[i]) <= Square(values[i] - r2[i])
    {
      CodeIsNearest(mode, values[i], scale, bias, codes[i]);
    }
    ErrorMonotone(values, r1, r2);
    DivMonotone(SquaredError(values, r1), SquaredError(values, r2), |values| as real);
  }

  /** The fitted FP4 block is no worse than any candidate scale with any code vector. */
  lemma Fp4FitIsOptimal(values: seq<real>, multipliers: seq<real>, k: nat, codes: seq<int>)
    requires AllPositive(multipliers) && k < |multipliers|
    requires |values| == |codes| > 0 && AreCodes(FP4_AFFINE, codes)
    ensures var scale, bias := FitAffineScale(values, multipliers), Mean(values);
            Mse(values, QuantizedCodes(FP4_AFFINE, values, scale, bias), scale, bias)
            <= Mse(values, codes, Candidate(InitialScale(values), multipliers, k), bias)
  {
    CodesAreOptimal(FP4_AFFINE, values, Candidate(InitialScale(values), multipliers, k), Mean(values), codes);
  }

  // ------------------------------------------------- what the fits stand for

  /** A sum is the element of a singleton and adds up over concatenation. */
  lemma {:induction false} SumParts(x: real, a: seq<real>, b: seq<real>)
    ensures Sum([x]) == x
    ensures Sum(a + b) == Sum(a) + Sum(b)
    decreases |a|
  {
    assert [x][1..] == [];
    if |a| == 0 {
      assert a + b == b;
    } else {
      assert (a + b)[1..] == a[1..] + b;
      SumParts(x, a[1..], b);
    }
  }

  /** A squared error is the square of a single deviation and adds up over concatenation. */
  lemma {:induction false} ErrorParts(v: real, r: real, a: seq<real>, ra: seq<real>, b: seq<real>, rb: seq<real>)
    requires |a| == |ra| && |b| == |rb|
    ensures SquaredError([v], [r]) == (v - r) * (v - r)
    ensures SquaredError(a + b, ra + rb) == SquaredError(a, ra) + SquaredError(b, rb)
    decreases |a|
  {
    hide Square;
    assert [v][1..] == [] && Square(v - r) == (v - r) * (v - r) by { SquareIs(v - r); }
    if |a| == 0 {
      assert a + b == b && ra + rb == rb;
    } else {
      assert (a + b)[1..] == a[1..] + b && (ra + rb)[1..] == ra[1..] + rb;
      ErrorParts(v, r, a[1..], ra[1..], b, rb);
    }
  }

  lemma SquareIs(x: real)
    ensures Square(x) == x * x
  {
  }

  /** The mean squared error, without the division: over the values the codes stand for. */
  lemma MseIs(values: seq<real>, codes: seq<int>, scale: real, bias: real)
    requires |values| == |codes| > 0
    ensures Mse(values, codes, scale, bias) * |values| as real ==
            SquaredError(values, seq(|codes|, i requires 0 <= i < |codes| => scale * codes[i] as real + bias))
  {
    var levels := seq(|codes|, i requires 0 <= i < |codes| => scale * codes[i] as real + bias);
    assert Reconstructed(codes, scale, bias) == levels;
  }

  function Flat(x: real, n: nat): (r: seq<real>)
    ensures |r| == n
  {
    seq(n, _ => x)
  }

  /** Deviations of the values from x, with their signs. */
  function Deviations(values: seq<real>, x: real): (r: seq<real>)
    ensures |r| == |values|
  {
    seq(|values|, i requires 0 <= i < |values| => values[i] - x)
  }

  lemma {:induction false} DeviationSum(values: seq<real>, x: real)
    ensures Sum(Deviations(values, x)) == Sum(values) - |values| as real * x
  {
    if |values| > 0 {
      assert Deviations(values, x)[1..] == Deviations(values[1..], x);
      DeviationSum(values[1..], x);
      assert |values| as real * x == x + |values[1..]| as real * x;
    }
  }

  function Product(a: real, b: real): real { a * b }

  lemma ProductAdds(a: real, b: real, c: real)
    ensures Product(a, b + c) == Product(a, b) + Product(a, c)
  {
  }

  lemma SquareShift(v: real, m: real, x: real)
    ensures Square(v - x) == Square(v - m) + Product(2.0 * (m - x), v - m) + Square(m - x)
  {
    var p, d := v - m, m - x;
    assert v - x == p + d;
    assert (p + d) * (p + d) == p * p + 2.0 * d * p + d * d;
  }

  /** Moving the reference from m to x. */
  lemma {:induction false} ErrorShift(values: seq<real>, m: real, x: real)
    ensures SquaredError(values, Flat(x, |values|)) ==
            SquaredError(values, Flat(m, |values|)) + Product(2.0 * (m - x), Sum(Deviations(values, m)))
            + Product(|values| as real, Square(m - x))
  {
    hide Square, Product;
    if |values| == 0 {
      ProductZero(2.0 * (m - x), Square(m - x));
    } else {
      var tail := values[1..];
      assert Flat(x, |values|)[1..] == Flat(x, |tail|) && Flat(m, |values|)[1..] == Flat(m, |tail|);
      assert Deviations(values, m)[1..] == Deviations(tail, m);
      ErrorShift(tail, m, x);
      SquareShift(values[0], m, x);
      ProductAdds(2.0 * (m - x), values[0] - m, Sum(Deviations(tail, m)));
      CountAdds(|tail|, Square(m - x));
    }
  }

  lemma ProductZero(a: real, b: real)
    ensures Product(a, 0.0) == 0.0 && Product(0.0, b) == 0.0
  {
  }

  lemma CountAdds(n: nat, b: real)
    ensures Product((n + 1) as real, b) == Product(n as real, b) + b
  {
  }

  lemma {:induction false} MeanBalances(values: seq<real>)
    requires |values| > 0
    ensures Sum(Deviations(values, Mean(values))) == 0.0
  {
    hide *;
    MeanTimesCount(values);
    DeviationSum(values, Mean(values));
  }

  /** The mean balances the values: deviations from it add up to zero, and no other reference has a
      smaller squared error. */
  lemma {:induction false} MeanIsBest(values: seq<real>, x: real)
    requires |values| > 0
    ensures Sum(Deviations(values, Mean(values))) == 0.0
    ensures SquaredError(values, Flat(Mean(values), |values|)) <= SquaredError(values, Flat(x, |values|))
  {
    hide *;
    var m := Mean(values);
    MeanBalances(values);
    ErrorShift(values, m, x);
    ProductZero(2.0 * (m - x), 0.0);
    ProductSign(|values| as real, m - x);
  }

  lemma MeanTimesCount(values: seq<real>)
    requires |values| > 0
    ensures |values| as real * Mean(values) == Sum(values)
  {
  }

  lemma ProductSign(n: real, d: real)
    requires n > 0.0
    ensures Product(n, Square(d)) >= 0.0
  {
    assert d * d >= 0.0;
  }

  /** The candidate scales are a seventh of the largest weight times the multipliers, and the fitted
      scale is the first of those with the least error. */
  lemma AffineScaleIs(values: seq<real>, multipliers: seq<real>) returns (best: nat)
    requires |values| > 0 && |multipliers| > 0 && AllPositive(multipliers)
    ensures 7.0 * InitialScale(values) == if MaxAbs(values) > 0.0 then MaxAbs(values) else 7.0
    ensures best < |multipliers| && FitAffineScale(values, multipliers) == InitialScale(values) * multipliers[best]
    ensures forall k :: 0 <= k < |multipliers| ==>
              var scale := InitialScale(values) * multipliers[k];
              && scale > 0.0
              && CandidateError(values, Mean(values), FitAffineScale(values, multipliers))
                 <= CandidateError(values, Mean(values), scale)
              && (k < best ==> CandidateError(values, Mean(values), FitAffineScale(values, multipliers))
                               < CandidateError(values, Mean(values), scale))
  {
    hide MaxAbs, Mean, CandidateError;
    var initial := InitialScale(values);
    best := BestCandidate(values, Mean(values), initial, multipliers, |multipliers|);
    forall k | 0 <= k < |multipliers|
      ensures initial * multipliers[k] == Candidate(initial, multipliers, k)
    {
    }
  }

  /** The ternary scale is the mean absolute deviation from the mean, but at least 1e-8. */
  lemma TernaryScaleIs(values: seq<real>)
    requires |values| > 0
    ensures var n, total := |values| as real, Sum(Centered(values, Mean(values)));
            if total > n * 0.00000001 then FitTernaryScale(values) * n == total
            else FitTernaryScale(values) == 0.00000001
  {
    var n, total := |values| as real, Sum(Centered(values, Mean(values)));
    var spread := total / n;
    assert spread * n == total;
    if spread > 0.00000001 {
      assert spread * n > 0.00000001 * n;
    } else {
      assert spread * n <= 0.00000001 * n;
    }
  }

  /** Where two codes are equally near: FP4 takes the even one, the ternary thresholds give zero. */
  lemma CodeTies(v: real, scale: PosReal, bias: real, k: int)
    ensures -8 <= k < 7 && v - bias == (k as real + 0.5) * scale ==>
              Fp4Code(v, scale, bias) == if k % 2 == 0 then k else k + 1
    ensures TernaryCode(v, scale, bias) == 1 <==> v - bias > 0.5 * scale
    ensures TernaryCode(v, scale, bias) == -1 <==> v - bias < -(0.5 * scale)
  {
    if -8 <= k < 7 && v - bias == (k as real + 0.5) * scale {
      assert Steps(v, scale, bias) == k as real + 0.5 by { QuotientIs(v - bias, k as real + 0.5, scale); }
    }
  }

  lemma QuotientIs(x: real, q: real, d: real)
    requires d > 0.0 && x == q * d
    ensures x / d == q
  {
  }

  // ------------------------------------------------------- the loops themselves

  lemma BestStep(values: seq<real>, bias: real, initial: PosReal, multipliers: seq<real>, n: nat)
    requires |values| > 0 && AllPositive(multipliers) && 0 < n <= |multipliers|
    ensures BestCandidate(values, bias, initial, multipliers, 1) == 0
    ensures n > 1 ==>
              var prev := BestCandidate(values, bias, initial, multipliers, n - 1);
              BestCandidate(values, bias, initial, multipliers, n) ==
                if CandidateError(values, bias, Candidate(initial, multipliers, n - 1))
                   < CandidateError(values, bias, Candidate(initial, multipliers, prev)) then n - 1 else prev
  {
  }

  lemma CandidateUnfolds(values: seq<real>, bias: real, initial: PosReal, multipliers: seq<real>, k: nat)
    requires |values| > 0 && AllPositive(multipliers) && k < |multipliers|
    ensures var scale := Candidate(initial, multipliers, k);
            scale == initial * multipliers[k] &&
            CandidateError(values, bias, scale)
            == Mse(values, QuantizedCodes(FP4_AFFINE, values, scale, bias), scale, bias)
  {
  }

  /** The candidate-scale search. `bestError` is None for the initial infinity. */
  method FitAffine(values: seq<real>, multipliers: seq<real>) returns (scale: real, bias: real)
    requires |values| > 0 && AllPositive(multipliers)
    ensures scale == FitAffineScale(values, multipliers) && bias == Mean(values)
    ensures Sum(Deviations(values, bias)) == 0.0
    ensures forall x :: SquaredError(values, Flat(bias, |values|)) <= SquaredError(values, Flat(x, |values|))
  {
    hide MaxAbs, Sum, Mean, QuantizedCodes, Mse, BestCandidate, Candidate, CandidateError;
    var absoluteMaximum := MaxAbs(values);
    var initialScale: PosReal := if absoluteMaximum > 0.0 then absoluteMaximum / 7.0 else 1.0;
    bias := Mean(values);
    var infinite, bestError := true, 0.0;
    var bestScale: PosReal := initialScale;
    for k := 0 to |multipliers|
      invariant infinite <==> k == 0
      invariant k == 0 ==> bestScale == initialScale
      invariant k > 0 ==>
        && bestScale == Candidate(initialScale, multipliers, BestCandidate(values, bias, initialScale, multipliers, k))
        && bestError == CandidateError(values, bias, bestScale)
    {
      MulPositive(initialScale, multipliers[k]);
      var candidate: PosReal := initialScale * multipliers[k];
      var codes := QuantizedCodes(FP4_AFFINE, values, candidate, bias);
      var error := Mse(values, codes, candidate, bias);
      CandidateUnfolds(values, bias, initialScale, multipliers, k);
      BestStep(values, bias, initialScale, multipliers, k + 1);
      if infinite || error < bestError {
        infinite, bestError, bestScale := false, error, candidate;
      }
    }
    scale := bestScale;
    forall x
      ensures SquaredError(values, Flat(bias, |values|)) <= SquaredError(values, Flat(x, |values|))
    {
      MeanIsBest(values, x);
    }
    MeanIsBest(values, bias);
  }

  /** Ternary codes by masked assignment over a zero array. */
  method TernaryCodes(values: seq<real>, scale: PosReal, bias: real) returns (codes: array<int>)
    ensures fresh(codes) && codes[..] == QuantizedCodes(T158_AFFINE, values, scale, bias)
  {
    var threshold := 0.5 * scale;
    codes := new int[|values|](_ => 0);
    forall i | 0 <= i < |values| && values[i] - bias > threshold {
      codes[i] := 1;
    }
    forall i | 0 <= i < |values| && values[i] - bias < -threshold {
      codes[i] := -1;
    }
  }

  /** _encode_fp4_affine_variable: the search, the codes at its result, the packing loop. */
  method FitFp4(values: seq<real>, multipliers: seq<real>, count: nat) returns (fit: FitResult)
    requires |values| > 0 && AllPositive(multipliers) && |values| <= 8 * count
    ensures fit == EncodeFp4(values, multipliers, count)
  {
    hide FitAffineScale, Mean, QuantizedCodes, Payload;
    var scale, bias := FitAffine(values, multipliers);
    var codes := QuantizedCodes(FP4_AFFINE, values, scale, bias);
    var payload := PackFp4Codes(codes, count);
    fit := FitResult(scale, bias, payload[..]);
  }

  /** _encode_t158_affine_variable: mean and spread, the masked assignments, the packing loop. */
  method FitT158(values: seq<real>, count: nat) returns (fit: FitResult)
    requires |values| > 0 && |values| <= 16 * count
    ensures fit == EncodeT158(values, count)
  {
    hide FitTernaryScale, Mean, QuantizedCodes, Payload;
    var bias, scale := Mean(values), FitTernaryScale(values);
    var codes := TernaryCodes(values, scale, bias);
    var payload := new uint32[count](_ => 0);
    PackTernaryCodes(codes[..], payload);
    fit := FitResult(scale, bias, payload[..]);
  }

  /** What the two fits put into a block: the mean as bias, the scale of the search or the mean deviation,
      and the codes of these two. */
  lemma FitsAre(values: seq<real>, multipliers: seq<real>, count: nat)
    requires |values| > 0 && AllPositive(multipliers)
    ensures var fp4, ternary := EncodeFp4(values, multipliers, count), EncodeT158(values, count);
            && fp4.bias == ternary.bias == Mean(values)
            && fp4.scale == FitAffineScale(values, multipliers) && ternary.scale == FitTernaryScale(values)
            && Encodes(FP4_AFFINE, fp4, values, count) && Encodes(T158_AFFINE, ternary, values, count)
  {
  }
}
