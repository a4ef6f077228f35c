/** Decoding of IEEE 754 binary16 values (section 3.4 of IEEE 754-2019), the affine
    reconstruction of a weight, and the effect of dropping the low four bias bits. */
module Half {
  import opened Bits

  /** A decoded number: a real, an infinity, or not a number. */
  datatype Float = Finite(v: real) | PosInf | NegInf | NaN

  function Sign(bits: nat): nat { bits / 0x8000 % 2 }
  function Exponent(bits: nat): nat { bits / 0x400 % 32 }
  function Fraction(bits: nat): nat { bits % 0x400 }

  predicate IsFiniteHalf(bits: nat) {
    bits < 0x1_0000 && Exponent(bits) != 31
  }

  /** n * 2^e / 2^24: n units in the last place at biased exponent e + 1. */
  function Units(n: int, e: nat): real {
    if e == 0 then n as real / 16777216.0 else 2.0 * Units(n, e - 1)
  }

  /** Magnitude of a finite half: subnormal at exponent field 0, normal otherwise. */
  function Magnitude(bits: nat): real {
    var e, f := Exponent(bits), Fraction(bits);
    if e == 0 then Units(f, 0) else Units(0x400 + f, e - 1)
  }

  /** struct.unpack("<e", ...) on the low sixteen bits. */
  function HalfFromBits(word: nat): Float {
    var bits := And(word, 0xFFFF);
    if Exponent(bits) != 31 then Finite(if Sign(bits) == 0 then Magnitude(bits) else -Magnitude(bits))
    else if Fraction(bits) != 0 then NaN
    else if Sign(bits) == 0 then PosInf else NegInf
  }

  /** scale * code + bias, with the special values of binary floating point. */
  function Affine(scale: Float, code: int, bias: Float): Float {
    Add(Mul(scale, code), bias)
  }

  function Mul(x: Float, code: int): Float {
    match x
    case Finite(v) => Finite(v * code as real)
    case NaN => NaN
    case PosInf => if code > 0 then PosInf else if code < 0 then NegInf else NaN
    case NegInf => if code > 0 then NegInf else if code < 0 then PosInf else NaN
  }

  function Add(x: Float, y: Float): Float {
    match (x, y)
    case (Finite(a), Finite(b)) => Finite(a + b)
    case (NaN, _) => NaN
    case (_, NaN) => NaN
    case (Finite(_), _) => y
    case (_, Finite(_)) => x
    case _ => if x == y then x else NaN
  }

  /** The bias word a v2 leaf header keeps: the low four bits carry flags. */
  function TruncatedBias(bits: nat): nat {
    And(bits, 0xFFF0)
  }

  function Abs(x: real): real {
    if x < 0.0 then -x else x
  }

  // ------------------------------------------------- what the patterns mean

  /** Distance between neighbours: 2^-24 at exponent fields 0 and 1, then doubling with each exponent. */
  function Spacing(e: nat): (u: real)
    ensures u > 0.0
  {
    if e <= 1 then 1.0 / 16777216.0 else 2.0 * Spacing(e - 1)
  }

  lemma {:induction false} UnitsAre(n: int, e: nat)
    ensures Units(n + 1, e) - Units(n, e) == Spacing(e + 1)
    ensures n >= 0 ==> Units(n, e) >= 0.0
    ensures Units(2 * n, e) == Units(n, e + 1)
  {
    if e == 0 {
      assert Units(n, 1) == 2.0 * Units(n, 0);
      assert (n + 1) as real / 16777216.0 - n as real / 16777216.0 == 1.0 / 16777216.0;
      assert (2 * n) as real / 16777216.0 == 2.0 * (n as real / 16777216.0);
    } else {
      UnitsAre(n, e - 1);
    }
  }

  /** The next pattern is one more in the fraction, or the start of the next exponent. */
  lemma NextPattern(bits: nat)
    requires bits + 1 < 0x7C00
    ensures bits / 0x400 < 31 && Exponent(bits) == bits / 0x400 && Sign(bits) == 0
    ensures Exponent(bits + 1) == (bits + 1) / 0x400 && Sign(bits + 1) == 0
    ensures if bits % 0x400 == 0x3FF then (bits + 1) / 0x400 == bits / 0x400 + 1 && Fraction(bits + 1) == 0
            else (bits + 1) / 0x400 == bits / 0x400 && Fraction(bits + 1) == Fraction(bits) + 1
  {
    FieldsOf(bits, bits / 0x400, bits % 0x400);
    FieldsOf(bits + 1, (bits + 1) / 0x400, (bits + 1) % 0x400);
    if bits % 0x400 == 0x3FF {
      DivModUnique(bits + 1, 0x400, bits / 0x400 + 1, 0);
    } else {
      DivModUnique(bits + 1, 0x400, bits / 0x400, bits % 0x400 + 1);
    }
  }

  lemma MagnitudeStep(bits: nat)
    requires bits + 1 < 0x7C00
    ensures Magnitude(bits) >= 0.0 && Magnitude(bits + 1) >= 0.0
    ensures Magnitude(bits + 1) - Magnitude(bits) == Spacing(bits / 0x400)
  {
    hide Units, Sign, Fraction, Exponent;
    NextPattern(bits);
    var e, f := bits / 0x400, Fraction(bits);
    assert f == bits % 0x400 by { FractionIs(bits); }
    if e == 0 {
      UnitsAre(f, 0);
      UnitsAre(f + 1, 0);
    } else {
      UnitsAre(0x400 + f, e - 1);
      UnitsAre(0x400 + f + 1, e - 1);
      UnitsAre(0x400, e - 1);
      UnitsAre(0x400, e);
    }
  }

  lemma FractionIs(bits: nat)
    ensures Fraction(bits) == bits % 0x400
  {
  }

  /** Setting the top bit changes the sign and nothing else. */
  lemma SignBit(bits: nat)
    requires bits < 0x8000
    ensures Sign(bits) == 0 && Sign(bits + 0x8000) == 1 && Exponent(bits + 0x8000) == Exponent(bits)
    ensures Fraction(bits + 0x8000) == Fraction(bits) && Magnitude(bits + 0x8000) == Magnitude(bits)
  {
    hide Units;
    FieldsOf(bits, bits / 0x400, bits % 0x400);
    FieldsOf(bits + 0x8000, bits / 0x400 + 32, bits % 0x400);
  }

  /** The finite patterns in numbers: 0 reads as zero; from one pattern to the next the value grows by
      the spacing of its exponent field; the top bit negates. Together they fix every value. */
  lemma FinitePatterns(bits: nat)
    requires bits < 0x7C00
    ensures HalfFromBits(0) == Finite(0.0)
    ensures HalfFromBits(bits).Finite? && HalfFromBits(bits).v >= 0.0
    ensures HalfFromBits(bits + 0x8000) == Finite(-HalfFromBits(bits).v)
    ensures bits + 1 < 0x7C00 ==>
              HalfFromBits(bits + 1).Finite? && HalfFromBits(bits + 1).v == HalfFromBits(bits).v + Spacing(bits / 0x400)
  {
    hide Units, Magnitude, Spacing, And;
    ZeroPattern();
    HalfBits(0);
    HalfBits(bits);
    HalfBits(bits + 0x8000);
    SignBit(bits);
    SmallExponent(bits);
    if bits + 1 < 0x7C00 {
      HalfBits(bits + 1);
      SignBit(bits + 1);
      SmallExponent(bits + 1);
      MagnitudeStep(bits);
    } else {
      MagnitudeStep(bits - 1);
    }
  }

  lemma SmallExponent(bits: nat)
    requires bits < 0x7C00
    ensures Exponent(bits) == bits / 0x400 < 31
  {
    FieldsOf(bits, bits / 0x400, bits % 0x400);
  }

  lemma ZeroPattern()
    ensures Magnitude(0) == 0.0 && Exponent(0) == 0 && Sign(0) == 0
  {
  }

  /** One, and the patterns that are not finite. */
  lemma OtherPatterns(bits: nat)
    requires 0x7C00 < bits < 0x8000
    ensures HalfFromBits(0x3C00) == Finite(1.0)
    ensures HalfFromBits(0x7C00) == PosInf && HalfFromBits(0xFC00) == NegInf
    ensures HalfFromBits(bits) == NaN && HalfFromBits(bits + 0x8000) == NaN
  {
    hide Units, Magnitude, And;
    HalfBits(0x3C00);
    HalfBits(0x7C00);
    HalfBits(0xFC00);
    HalfBits(bits);
    HalfBits(bits + 0x8000);
    OnePattern();
    FieldsOf(0x7C00, 31, 0);
    FieldsOf(0xFC00, 63, 0);
    FieldsOf(bits, 31, bits - 0x7C00);
    FieldsOf(bits + 0x8000, 63, bits - 0x7C00);
  }

  lemma OnePattern()
    ensures Magnitude(0x3C00) == 1.0 && Exponent(0x3C00) == 15 && Sign(0x3C00) == 0
  {
    FieldsOf(0x3C00, 15, 0);
    assert Units(0x400, 4) == 2.0 * (2.0 * (2.0 * (2.0 * Units(0x400, 0))));
    assert Units(0x400, 9) == 2.0 * (2.0 * (2.0 * (2.0 * (2.0 * Units(0x400, 4)))));
    assert Units(0x400, 14) == 2.0 * (2.0 * (2.0 * (2.0 * (2.0 * Units(0x400, 9)))));
  }

  /** x is the real number scale * code + bias. */
  predicate IsLevel(x: Float, scale: real, code: int, bias: real) {
    x == Finite(scale * code as real + bias)
  }

  /** On finite operands the reconstruction is scale * code + bias. */
  lemma AffineIs(scale: Float, code: int, bias: Float)
    requires scale.Finite? && bias.Finite?
    ensures IsLevel(Affine(scale, code, bias), scale.v, code, bias.v)
  {
  }

  /** With operands that are not finite: not-a-number spreads, an infinite scale gives no number at code
      0 and against an infinite bias of the other sign, and otherwise the infinity wins. */
  lemma AffineOfSpecials(scale: Float, code: int, bias: Float, v: real)
    ensures scale == NaN || bias == NaN ==> Affine(scale, code, bias) == NaN
    ensures scale.Finite? && (bias == PosInf || bias == NegInf) ==> Affine(scale, code, bias) == bias
    ensures scale == PosInf || scale == NegInf ==>
              && Affine(scale, 0, bias) == NaN
              && (code > 0 ==> Affine(scale, code, Finite(v)) == scale == Affine(scale, code, scale))
              && (code < 0 && bias.Finite? ==> Affine(scale, code, bias) == if scale == PosInf then NegInf else PosInf)
              && (code < 0 ==> Affine(scale, code, scale) == NaN)
    ensures code > 0 ==> Affine(PosInf, code, NegInf) == Affine(NegInf, code, PosInf) == NaN
    ensures code < 0 ==> Affine(PosInf, code, NegInf) == NegInf && Affine(NegInf, code, PosInf) == PosInf
  {
  }

  // ------------------------------------------------------------ truncation

  /** The fields of a pattern written as sign and exponent bits above ten fraction bits. */
  lemma FieldsOf(x: nat, q: nat, f: nat)
    requires x == 0x400 * q + f && f < 0x400
    ensures Sign(x) == q / 32 % 2 && Exponent(x) == q % 32 && Fraction(x) == f
  {
    assert x / 0x400 == q && x % 0x400 == f;
    assert x / 0x8000 == q / 32;
  }

  lemma LowFour(bits: nat)
    ensures bits % 0x400 - bits % 16 >= 0 && (bits % 0x400) % 16 == bits % 16
  {
    var q, f := bits / 0x400, bits % 0x400;
    DivModUnique(bits, 16, 64 * q + f / 16, f % 16);
  }

  lemma TruncatedValue(bits: nat)
    requires bits < 0x1_0000
    ensures TruncatedBias(bits) == bits - bits % 16
  {
    ClearBiasFlags(bits);
  }

  /** Truncation clears the low fraction bits and nothing else. */
  lemma TruncatedFields(bits: nat)
    requires bits < 0x1_0000
    ensures TruncatedBias(bits) == bits - bits % 16
    ensures Sign(TruncatedBias(bits)) == Sign(bits) && Exponent(TruncatedBias(bits)) == Exponent(bits)
    ensures Fraction(TruncatedBias(bits)) == Fraction(bits) - bits % 16
  {
    TruncatedValue(bits);
    LowFour(bits);
    var q, f, d := bits / 0x400, bits % 0x400, bits % 16;
    FieldsOf(bits, q, f);
    FieldsOf(bits - d, q, f - d);
  }

  lemma HalfBits(bits: nat)
    requires bits < 0x1_0000
    ensures And(bits, 0xFFFF) == bits
  {
    Powers();
    LowMask(bits, 16, 0x1_0000);
  }

  /** The largest change truncation can make to a finite bias. */
  function TruncationBound(v: real): real {
    if 15.0 / 1024.0 * Abs(v) >= 15.0 / 16777216.0 then 15.0 / 1024.0 * Abs(v) else 15.0 / 16777216.0
  }

  lemma {:induction false} UnitsDrop(m: nat, d: nat, e: nat)
    requires d <= 15 && d <= m
    ensures 0.0 <= Units(m - d, e) <= Units(m, e) <= Units(m - d, e) + Units(15, e)
    ensures m >= 0x400 ==> 15.0 / 1024.0 * Units(m, e) >= Units(15, e)
  {
    if e > 0 { UnitsDrop(m, d, e - 1); }
  }

  lemma DropBound(m: nat, d: nat, e: nat)
    requires d <= 15 && d <= m && (m >= 0x400 || e == 0)
    ensures 0.0 <= Units(m - d, e) <= Units(m, e)
    ensures Units(m, e) - Units(m - d, e) <= TruncationBound(Units(m, e))
  {
    UnitsDrop(m, d, e);
    assert Units(15, 0) == 15.0 / 16777216.0;
  }

  /** At most 15 units in the last place: 15/1024 of the value, or 15 * 2^-24 when subnormal. */
  lemma MagnitudeDrop(bits: nat)
    requires IsFiniteHalf(bits)
    ensures 0.0 <= Magnitude(TruncatedBias(bits)) <= Magnitude(bits)
    ensures Magnitude(bits) - Magnitude(TruncatedBias(bits)) <= TruncationBound(Magnitude(bits))
  {
    TruncatedFields(bits);
    LowFour(bits);
    var e, f, d := Exponent(bits), Fraction(bits), bits % 16;
    hide Sign, Exponent, Fraction, TruncatedBias, Units, TruncationBound;
    if e == 0 { DropBound(f, d, 0); } else { DropBound(0x400 + f, d, e - 1); }
  }

  /** Truncation keeps sign and exponent, never raises the magnitude of a finite bias, and moves
      it by at most max(15/1024 * |bias|, 15 * 2^-24). */
  lemma TruncationError(bits: nat)
    requires IsFiniteHalf(bits)
    ensures IsFiniteHalf(TruncatedBias(bits))
    ensures HalfFromBits(bits).Finite? && HalfFromBits(TruncatedBias(bits)).Finite?
    ensures var b, t := HalfFromBits(bits).v, HalfFromBits(TruncatedBias(bits)).v;
            && (0.0 <= t <= b || b <= t <= 0.0)
            && Abs(b - t) <= TruncationBound(b)
  {
    var cut := TruncatedBias(bits);
    TruncatedFields(bits);
    MagnitudeDrop(bits);
    HalfBits(bits);
    HalfBits(cut);
    hide Sign, Exponent, Fraction, TruncatedBias, Magnitude;
  }

  /** A bias that is not finite survives truncation, except that a NaN whose payload sits in the low
      four bits turns into the infinity of its sign. */
  lemma TruncationOfSpecials(bits: nat)
    requires bits < 0x1_0000 && Exponent(bits) == 31
    ensures HalfFromBits(TruncatedBias(bits)) == HalfFromBits(bits) <==> !(0 < Fraction(bits) < 16)
    ensures 0 < Fraction(bits) < 16 ==>
              HalfFromBits(bits) == NaN &&
              HalfFromBits(TruncatedBias(bits)) == if Sign(bits) == 0 then PosInf else NegInf
  {
    TruncatedFields(bits);
    LowFour(bits);
    HalfBits(bits);
    HalfBits(TruncatedBias(bits));
    CutToZero(Fraction(bits));
    hide Sign, Exponent, TruncatedBias, Fraction, Magnitude;
  }

  lemma CutToZero(f: nat)
    ensures f - f % 16 == 0 <==> f < 16
  {
  }
}
