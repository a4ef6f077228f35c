/** SGFP4 wire constants, enumerations, and the byte-level vocabulary of both profiles. */
module Format {
  import opened Basics

  type uint32 = x: int | 0 <= x < 0x1_0000_0000

  /** Per-block code mode. */
  datatype CodeMode = FP4_AFFINE | T158_AFFINE

  /** Superblock layouts of the v2 profile, in the order of their wire values. */
  datatype Layout = UNIFORM_64 | UNIFORM_32 | UNIFORM_16 | UNIFORM_8 | MIXED | FULL_4X4

  const MACROBLOCK_SIZE := 64
  const PAYLOAD_BYTES := 2048
  const PAYLOAD_U32 := 512
  const ALIGNMENT := 16
  const UINT32_BYTES := 4
  const UINT32_LIMIT := 0x1_0000_0000
  const T158_RESERVED_WORD_START := 256
  const FP16_MAX := 65504.0
  const SGFP4_MAGIC: seq<byte> := [0x53, 0x47, 0x46, 0x34]
  const SGFP4_VERSION_V2: byte := 0x02
  const V2_FIXED_HEADER_BYTES := 16
  const V2_HEADER_PAD_BYTES := 7
  const SPLIT_MAP_BYTES := 12
  const SPLIT_MAP_WORDS := 3
  const SPLIT_MAP_MAX_BITS := 85
  const MIN_LEAF_SIZE := 4

  function ModeValue(mode: CodeMode): uint32 {
    if mode.FP4_AFFINE? then 0 else 1
  }

  function ModeOf(value: nat): CodeMode
    requires value < 2
  {
    if value == 0 then FP4_AFFINE else T158_AFFINE
  }

  function LayoutValue(layout: Layout): uint32 {
    match layout
    case UNIFORM_64 => 0
    case UNIFORM_32 => 1
    case UNIFORM_16 => 2
    case UNIFORM_8 => 3
    case MIXED => 4
    case FULL_4X4 => 5
  }

  /** The layout with a given wire value; 6 and 7 name none. */
  function LayoutOf(value: nat): Layout
    requires value < 6
  {
    match value
    case 0 => UNIFORM_64
    case 1 => UNIFORM_32
    case 2 => UNIFORM_16
    case 3 => UNIFORM_8
    case 4 => MIXED
    case _ => FULL_4X4
  }

  /** Leaf edge of a layout whose leaves all have one size. */
  function UniformSize(layout: Layout): nat
    requires layout != MIXED
  {
    match layout
    case UNIFORM_64 => 64
    case UNIFORM_32 => 32
    case UNIFORM_16 => 16
    case UNIFORM_8 => 8
    case FULL_4X4 => 4
  }

  /** Leaf edges a 64x64 quadtree can have. */
  predicate IsLeafSize(size: int) {
    size == 4 || size == 8 || size == 16 || size == 32 || size == 64
  }

  /** (-n) % ALIGNMENT */
  function Padding(n: int): (r: nat)
    ensures r < ALIGNMENT && (n + r) % ALIGNMENT == 0
  {
    (-n) % ALIGNMENT
  }

  function AlignUp(value: nat): (r: nat)
    ensures r % ALIGNMENT == 0 && value <= r
    ensures forall m: nat :: m % ALIGNMENT == 0 && value <= m ==> r <= m
  {
    value + Padding(value)
  }

  function CeilDiv64(n: nat): (r: nat)
    ensures 64 * r >= n && (r > 0 ==> 64 * (r - 1) < n)
  {
    (n + 63) / 64
  }

  function PayloadWords(size: nat, mode: CodeMode): nat {
    if mode.FP4_AFFINE? then size * size / 8 else size * size / 16
  }

  // ---------------------------------------------------------------- bytes

  function Zeros(n: nat): seq<byte> {
    seq(n, _ => 0)
  }

  function ZeroPad(data: seq<byte>): (r: seq<byte>)
    ensures |r| == AlignUp(|data|) && data <= r
    ensures forall i :: |data| <= i < |r| ==> r[i] == 0
  {
    data + Zeros(Padding(|data|))
  }

  /** struct.pack("<I", w) */
  function LE32(w: uint32): (r: seq<byte>)
    ensures |r| == 4
  {
    [w % 0x100, w / 0x100 % 0x100, w / 0x1_0000 % 0x100, w / 0x100_0000]
  }

  /** struct.unpack_from("<I", b, pos) */
  function U32At(b: seq<byte>, pos: nat): uint32
    requires pos + 4 <= |b|
  {
    var b0: int, b1: int, b2: int, b3: int := b[pos], b[pos + 1], b[pos + 2], b[pos + 3];
    b0 + 0x100 * b1 + 0x1_0000 * b2 + 0x100_0000 * b3
  }

  /** The little-endian bytes of an array of words. */
  function WordsBytes(ws: seq<uint32>): (r: seq<byte>)
    ensures |r| == 4 * |ws|
  {
    seq(4 * |ws|, k requires 0 <= k < 4 * |ws| => LE32(ws[k / 4])[k % 4])
  }

  /** np.frombuffer(b, "<u4", count, offset=pos) */
  function WordsAt(b: seq<byte>, pos: nat, count: nat): (r: seq<uint32>)
    requires pos + 4 * count <= |b|
    ensures |r| == count
  {
    seq(count, i requires 0 <= i < count => U32At(b, pos + 4 * i))
  }

  /** b[lo:hi] in Python: indices past the end are clamped. */
  function PySlice(b: seq<byte>, lo: nat, hi: nat): seq<byte>
    requires lo <= hi
  {
    b[if lo <= |b| then lo else |b|..if hi <= |b| then hi else |b|]
  }

  // ------------------------------------------------- reading what was written

  /** `chunk` is what stands in `b` from `pos` on. */
  predicate At(b: seq<byte>, pos: nat, chunk: seq<byte>) {
    pos + |chunk| <= |b| && b[pos..pos + |chunk|] == chunk
  }

  lemma AtBounds(b: seq<byte>, pos: nat, chunk: seq<byte>)
    requires At(b, pos, chunk)
    ensures pos + |chunk| <= |b|
  {
  }

  lemma AtSplit(b: seq<byte>, pos: nat, x: seq<byte>, y: seq<byte>)
    ensures At(b, pos, x + y) <==> At(b, pos, x) && At(b, pos + |x|, y)
  {
    if pos + |x + y| <= |b| {
      var s := b[pos..pos + |x + y|];
      assert b[pos..pos + |x|] == s[..|x|];
      assert b[pos + |x|..pos + |x| + |y|] == s[|x|..];
      assert (x + y)[..|x|] == x && (x + y)[|x|..] == y;
      assert s == s[..|x|] + s[|x|..];
    }
  }

  lemma AtIndex(b: seq<byte>, pos: nat, chunk: seq<byte>, i: nat)
    requires At(b, pos, chunk) && i < |chunk|
    ensures pos + i < |b| && b[pos + i] == chunk[i]
  {
    assert b[pos..pos + |chunk|][i] == b[pos + i];
  }

  /** The lowest byte comes first. */
  lemma LittleEndian(b0: byte, b1: byte, b2: byte, b3: byte)
    ensures var w: int := b0 as int + 256 * b1 as int + 65536 * b2 as int + 16777216 * b3 as int;
            LE32(w) == [b0, b1, b2, b3] && U32At([b0, b1, b2, b3], 0) == w
  {
    WordBytes([b0, b1, b2, b3], 0);
  }

  lemma LE32RoundTrip(w: uint32)
    ensures U32At(LE32(w), 0) == w
  {
    var x: int := w;
    assert x == 0x100 * (x / 0x100) + x % 0x100;
    assert x / 0x100 == 0x100 * (x / 0x1_0000) + x / 0x100 % 0x100;
    assert x / 0x1_0000 == 0x100 * (x / 0x100_0000) + x / 0x1_0000 % 0x100;
  }

  lemma AtWord(b: seq<byte>, pos: nat, w: uint32)
    requires At(b, pos, LE32(w))
    ensures pos + 4 <= |b| && U32At(b, pos) == w
  {
    AtIndex(b, pos, LE32(w), 0);
    AtIndex(b, pos, LE32(w), 1);
    AtIndex(b, pos, LE32(w), 2);
    AtIndex(b, pos, LE32(w), 3);
    LE32RoundTrip(w);
  }

  lemma WordsBytesAt(ws: seq<uint32>, i: nat)
    requires i < |ws|
    ensures WordsBytes(ws)[4 * i..4 * i + 4] == LE32(ws[i])
  {
    forall j | 0 <= j < 4
      ensures WordsBytes(ws)[4 * i + j] == LE32(ws[i])[j]
    {
      assert (4 * i + j) / 4 == i && (4 * i + j) % 4 == j;
    }
  }

  lemma AtSub(b: seq<byte>, pos: nat, chunk: seq<byte>, lo: nat, hi: nat)
    requires At(b, pos, chunk) && lo <= hi <= |chunk|
    ensures At(b, pos + lo, chunk[lo..hi])
  {
    assert chunk == chunk[..lo] + (chunk[lo..hi] + chunk[hi..]);
    AtSplit(b, pos, chunk[..lo], chunk[lo..hi] + chunk[hi..]);
    AtSplit(b, pos + lo, chunk[lo..hi], chunk[hi..]);
  }

  lemma AtWordOf(b: seq<byte>, pos: nat, ws: seq<uint32>, i: nat)
    requires At(b, pos, WordsBytes(ws)) && i < |ws|
    ensures U32At(b, pos + 4 * i) == ws[i]
  {
    WordsBytesAt(ws, i);
    AtSub(b, pos, WordsBytes(ws), 4 * i, 4 * i + 4);
    AtWord(b, pos + 4 * i, ws[i]);
  }

  /** Reading back the bytes of a word array gives the array. */
  lemma AtWords(b: seq<byte>, pos: nat, ws: seq<uint32>)
    requires At(b, pos, WordsBytes(ws))
    ensures WordsAt(b, pos, |ws|) == ws
  {
    forall i | 0 <= i < |ws|
      ensures WordsAt(b, pos, |ws|)[i] == ws[i]
    {
      AtWordOf(b, pos, ws, i);
    }
  }

  /** The four bytes of one word determine, and are determined by, its value. */
  lemma WordBytes(b: seq<byte>, pos: nat)
    requires pos + 4 <= |b|
    ensures LE32(U32At(b, pos)) == b[pos..pos + 4]
  {
    var b0: int, b1: int, b2: int, b3: int := b[pos], b[pos + 1], b[pos + 2], b[pos + 3];
    var w: int := U32At(b, pos);
    assert w / 0x100 == b1 + 0x100 * b2 + 0x1_0000 * b3 && w % 0x100 == b0;
    assert w / 0x1_0000 == b2 + 0x100 * b3 && w / 0x100 % 0x100 == b1;
    assert w / 0x100_0000 == b3 && w / 0x1_0000 % 0x100 == b2;
    assert b[pos..pos + 4] == [b[pos], b[pos + 1], b[pos + 2], b[pos + 3]];
  }

  /** Writing back the words read from a buffer gives the buffer. */
  lemma WordsOfBytes(buf: seq<byte>, n: nat)
    requires |buf| == 4 * n
    ensures WordsBytes(WordsAt(buf, 0, n)) == buf
  {
    hide LE32, U32At;
    forall k | 0 <= k < |buf|
      ensures LE32(U32At(buf, 4 * (k / 4)))[k % 4] == buf[k]
    {
      WordBytes(buf, 4 * (k / 4));
      assert buf[4 * (k / 4)..4 * (k / 4) + 4][k % 4] == buf[k];
    }
  }

  lemma WordsBytesCons(w: uint32, ws: seq<uint32>)
    ensures WordsBytes([w] + ws) == LE32(w) + WordsBytes(ws)
  {
    hide LE32;
    var l, r := WordsBytes([w] + ws), LE32(w) + WordsBytes(ws);
    forall k | 0 <= k < |l|
      ensures l[k] == r[k]
    {
      if k >= 4 {
        assert k / 4 == (k - 4) / 4 + 1 && k % 4 == (k - 4) % 4;
        assert ([w] + ws)[k / 4] == ws[(k - 4) / 4];
      }
    }
  }

  lemma AtZeros(b: seq<byte>, pos: nat, n: nat)
    requires At(b, pos, Zeros(n))
    ensures PySlice(b, pos, pos + n) == Zeros(n)
  {
  }
}
