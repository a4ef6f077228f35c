/** Packed scale-and-bias words: two binary16 patterns, plus flag bits in the v2 leaf headers. */
module Headers {
  import opened Bits
  import opened Format
  import opened Half

  /** A binary16 bit pattern. */
  type Half16 = x: int | 0 <= x < 0x1_0000

  type FiniteHalf = x: Half16 | IsFiniteHalf(x)

  /** The numbers np.clip lets through. */
  type ClippedReal = x: real | -FP16_MAX <= x <= FP16_MAX

  /** Conversion of a clipped number to binary16; only its finite 16-bit result is used. */
  type HalfEncoder = ClippedReal -> FiniteHalf

  function ClipHalf(x: real): ClippedReal {
    if x < -FP16_MAX then -FP16_MAX else if x > FP16_MAX then FP16_MAX else x
  }

  /** (scale_bits << 16) | bias_bits */
  function PackHalf2(scaleBits: Half16, biasBits: Half16): (r: uint32)
    ensures r == 0x1_0000 * scaleBits + biasBits
  {
    PackHalf2Value(scaleBits, biasBits);
    Or(Shl(scaleBits, 16), biasBits)
  }

  lemma PackHalf2Value(scaleBits: Half16, biasBits: Half16)
    ensures Or(Shl(scaleBits, 16), biasBits) == 0x1_0000 * scaleBits + biasBits
  {
    Powers();
    OrCommutes(Shl(scaleBits, 16), biasBits);
    OrDisjoint(biasBits, scaleBits, 16);
    ShlScales(scaleBits, 16);
  }

  /** (packed & 0xFFFFFFF0) | flags */
  function LeafHeader(scaleBits: Half16, biasBits: Half16, mode: CodeMode): (r: uint32)
    ensures r == 0x1_0000 * scaleBits + (biasBits - biasBits % 16) + ModeValue(mode)
  {
    LeafHeaderValue(PackHalf2(scaleBits, biasBits), scaleBits, biasBits, mode);
    Or(And(PackHalf2(scaleBits, biasBits), 0xFFFF_FFF0), ModeValue(mode))
  }

  lemma FlagsFit(x: nat, flag: nat)
    requires x % 16 == 0 && flag < 2
    ensures Or(x, flag) == x + flag
  {
    Powers();
    ShlScales(x / 16, 4);
    OrCommutes(x, flag);
    OrDisjoint(flag, x / 16, 4);
  }

  lemma LowFourBits(s: nat, b: nat)
    ensures (0x1_0000 * s + b) % 16 == b % 16
    ensures (0x1_0000 * s + (b - b % 16)) % 16 == 0
  {
    DivModUnique(0x1_0000 * s + b, 16, 0x1000 * s + b / 16, b % 16);
    DivModUnique(0x1_0000 * s + (b - b % 16), 16, 0x1000 * s + b / 16, 0);
  }

  lemma LeafHeaderValue(packed: uint32, scaleBits: Half16, biasBits: Half16, mode: CodeMode)
    requires packed == 0x1_0000 * scaleBits + biasBits
    ensures Or(And(packed, 0xFFFF_FFF0), ModeValue(mode))
            == 0x1_0000 * scaleBits + (biasBits - biasBits % 16) + ModeValue(mode)
  {
    hide And, Or;
    ClearWordFlags(packed);
    LowFourBits(scaleBits, biasBits);
    FlagsFit(0x1_0000 * scaleBits + (biasBits - biasBits % 16), ModeValue(mode));
  }

  lemma HighHalf(h: nat, s: nat, low: nat)
    requires h == 0x1_0000 * s + low && low < 0x1_0000
    ensures Shr(h, 16) == s && And(h, 0xFFFF) == low
  {
    Powers();
    LowMask(h, 16, 0x1_0000);
    DivModUnique(h, 0x1_0000, s, low);
  }

  lemma FlaggedBias(b: Half16, m: nat)
    requires m < 2
    ensures b - b % 16 + m < 0x1_0000 && (b - b % 16 + m) % 16 == m
  {
  }

  lemma LeafHeaderBias(h: nat, s: nat, b: Half16, m: nat)
    requires h == 0x1_0000 * s + (b - b % 16 + m) && m < 2
    ensures And(h, 0xFFF0) == TruncatedBias(b) && And(h, 0xF) == m
  {
    hide And, TruncatedBias;
    FlaggedBias(b, m);
    ClearBiasFlags(h);
    assert TruncatedBias(b) == b - b % 16 by { TruncatedFields(b); }
    DivModUnique(h, 0x1_0000, s, b - b % 16 + m);
    LowFourBits(s, b - b % 16 + m);
    Powers();
    LowMask(h, 4, 0x10);
  }

  lemma SmallFlags(mode: CodeMode)
    ensures And(ModeValue(mode), 0xE) == 0 && And(ModeValue(mode), 0x1) == ModeValue(mode)
  {
  }

  /** The decoder recovers scale, mode and the truncated bias; the reserved bits are clear. */
  lemma LeafHeaderFields(scaleBits: Half16, biasBits: Half16, mode: CodeMode)
    ensures var h := LeafHeader(scaleBits, biasBits, mode);
            && Shr(h, 16) == scaleBits
            && And(h, 0xFFF0) == TruncatedBias(biasBits)
            && And(And(h, 0xF), 0xE) == 0
            && And(And(h, 0xF), 0x1) == ModeValue(mode)
  {
    hide And, Shr, TruncatedBias;
    var h := LeafHeader(scaleBits, biasBits, mode);
    FlaggedBias(biasBits, ModeValue(mode));
    HighHalf(h, scaleBits, biasBits - biasBits % 16 + ModeValue(mode));
    LeafHeaderBias(h, scaleBits, biasBits, ModeValue(mode));
    SmallFlags(mode);
  }

  /** v1 headers keep the whole bias. */
  lemma PackedFields(scaleBits: Half16, biasBits: Half16)
    ensures Shr(PackHalf2(scaleBits, biasBits), 16) == scaleBits
    ensures And(PackHalf2(scaleBits, biasBits), 0xFFFF) == biasBits
  {
    HighHalf(PackHalf2(scaleBits, biasBits), scaleBits, biasBits);
  }
}
