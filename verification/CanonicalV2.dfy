/** When a record of the adaptive profile is the one its own content would be written as: the decoder
    accepts more byte strings than the exporter writes. */
module CanonicalV2 {
  import opened Bits
  import opened Basics
  import opened Format
  import opened Packing
  import opened Codes
  import opened Half
  import opened Headers
  import opened Quadtree
  import opened Layouts
  import opened ExporterV2
  import opened DecoderV2
  import RoundTripV2
  import SplitMap

  /** A leaf as it is stored: its binary16 patterns not yet read as numbers. */
  datatype RawLeaf = RawLeaf(sq: Square, scaleBits: Half16, biasBits: Half16, mode: CodeMode, codes: seq<int>)

  /** A record as it is stored, and where it ends. */
  datatype RawRecord = RawRecord(leaves: seq<RawLeaf>, end: nat)

  // --------------------------------------------------------------- reading

  lemma SplitHeader(h: nat)
    requires h < UINT32_LIMIT
    ensures h / 0x1_0000 < 0x1_0000 && 0 <= h % 0x1_0000 - h % 0x10 < 0x1_0000
    ensures (h % 0x1_0000 - h % 0x10) % 16 == 0
    ensures 0x1_0000 * (h / 0x1_0000) + (h % 0x1_0000 - h % 0x10) + h % 0x10 == h
  {
    var q, f := h / 0x1_0000, h % 0x1_0000;
    DivModUnique(h, 16, 0x1000 * q + f / 16, f % 16);
    DivModUnique(16 * (f / 16), 16, f / 16, 0);
  }

  /** Of the four flag bits only the mode bit is set. */
  lemma LowFlag(low: nat)
    requires low < 16 && And(low, 0xE) == 0
    ensures low < 2 && And(low, 0x1) == low
  {
    assert And(low, 0xE) == 2 * And(low / 2, 0x7);
    Powers();
    LowMask(low / 2, 3, 8);
    LowMask(low, 1, 2);
  }

  /** The fields of a header word whose reserved bits are clear; together they are the word. */
  lemma HeaderParts(h: uint32)
    ensures Shr(h, 16) < 0x1_0000 && And(h, 0xFFF0) < 0x1_0000
    ensures And(And(h, 0xF), 0xE) == 0 ==> LeafHeader(Shr(h, 16), And(h, 0xFFF0), LeafMode(h)) == h
  {
    hide And, Shr, Shl, LeafHeader;
    Powers();
    LowMask(h, 16, 0x1_0000);
    ClearBiasFlags(h);
    LowMask(h, 4, 0x10);
    SplitHeader(h);
    if And(h % 0x10, 0xE) == 0 { LowFlag(h % 0x10); }
  }

  function RawLeafOf(header: uint32, leaf: DecodedLeaf): RawLeaf {
    HeaderParts(header);
    RawLeaf(leaf.sq, Shr(header, 16), And(header, 0xFFF0), LeafMode(header), leaf.codes)
  }

  /** The stored leaves behind a successful parse, and the position behind the last payload. */
  function RawLeaves(b: seq<byte>, pos: nat, squares: seq<Square>, headers: seq<uint32>): (r: RawRecord)
    requires |squares| == |headers| && LeafSizes(squares) && ParseLeaves(b, pos, squares, headers).Ok?
    ensures |r.leaves| == |squares|
    decreases |squares|
  {
    UnfoldLeaves(b, pos, squares, headers);
    if |squares| == 0 then RawRecord([], pos)
    else
      var (leaf, next) := ParseLeaf(b, pos, squares[0], headers[0]).value;
      var rest := RawLeaves(b, next, squares[1..], headers[1..]);
      RawRecord([RawLeafOf(headers[0], leaf)] + rest.leaves, rest.end)
  }

  /** The words of a ternary payload use the reserved symbol 11. */
  predicate Reserved(mode: CodeMode, words: seq<uint32>) {
    mode.T158_AFFINE? && exists i :: 0 <= i < 16 * |words| && AllFields(words, 2)[i] == 3
  }

  /** Some stored payload does. */
  predicate HasReserved(b: seq<byte>, pos: nat, squares: seq<Square>, headers: seq<uint32>)
    requires |squares| == |headers| && LeafSizes(squares) && ParseLeaves(b, pos, squares, headers).Ok?
    decreases |squares|
  {
    UnfoldLeaves(b, pos, squares, headers);
    |squares| > 0 &&
    var mode := LeafMode(headers[0]);
    var next := ParseLeaf(b, pos, squares[0], headers[0]).value.1;
    (Reserved(mode, WordsAt(b, pos, PayloadWords(squares[0].size, mode))) ||
     HasReserved(b, next, squares[1..], headers[1..]))
  }

  // --------------------------------------------------------------- writing

  function RawSquares(leaves: seq<RawLeaf>): (r: seq<Square>)
    ensures |r| == |leaves|
  {
    seq(|leaves|, i requires 0 <= i < |leaves| => leaves[i].sq)
  }

  function RawHeaders(leaves: seq<RawLeaf>): (r: seq<uint32>)
    ensures |r| == |leaves|
  {
    seq(|leaves|, i requires 0 <= i < |leaves| => LeafHeader(leaves[i].scaleBits, leaves[i].biasBits, leaves[i].mode))
  }

  function RawPayload(leaf: RawLeaf): seq<byte> {
    ZeroPad(WordsBytes(Payload(leaf.mode, leaf.codes, PayloadWords(leaf.sq.size, leaf.mode))))
  }

  function RawPayloads(leaves: seq<RawLeaf>): seq<byte> {
    if |leaves| == 0 then [] else RawPayload(leaves[0]) + RawPayloads(leaves[1..])
  }

  /** The exporter's record for stored leaves, in their own order. */
  function WriteRaw(leaves: seq<RawLeaf>): Result<seq<byte>, SplitMap.SplitMapError> {
    var layout := ClassifyLayout(RawSquares(leaves));
    var built := if layout == MIXED then SplitMap.BuildSplitMap(RawSquares(leaves)) else Ok([]);
    if built.Err? then built
    else
      var header := ZeroPad(LE32(LayoutValue(layout)) + built.value + WordsBytes(RawHeaders(leaves)));
      Ok(ZeroPad(header + RawPayloads(leaves)))
  }

  // ---------------------------------------------------------------- leaves

  /** Payload words are those written for their own codes exactly if they use no reserved symbol. */
  lemma PayloadCanonical(mode: CodeMode, words: seq<uint32>)
    ensures Payload(mode, CodesOf(words, mode, |words| * CodesPerWord(mode)), |words|) == words <==>
            !Reserved(mode, words)
  {
    hide Payload, CodesOf, AllFields;
    match mode
    case FP4_AFFINE => Fp4PayloadCanonical(words);
    case T158_AFFINE => T158PayloadCanonical(words);
  }

  lemma SlicePieces(b: seq<byte>, lo: nat, mid: nat, hi: nat, x: seq<byte>, y: seq<byte>)
    requires lo <= mid <= hi <= |b| && |x| == mid - lo && |y| == hi - mid
    ensures x + y == b[lo..hi] <==> x == b[lo..mid] && y == b[mid..hi]
  {
    assert b[lo..hi] == b[lo..mid] + b[mid..hi];
    if x + y == b[lo..hi] {
      assert x == (x + y)[..|x|] && y == (x + y)[|x|..];
    }
  }

  lemma WordsSlice(b: seq<byte>, pos: nat, n: nat)
    requires pos + 4 * n <= |b|
    ensures WordsBytes(WordsAt(b, pos, n)) == b[pos..pos + 4 * n]
  {
    hide LE32, U32At;
    forall k | 0 <= k < 4 * n
      ensures LE32(U32At(b, pos + 4 * (k / 4)))[k % 4] == b[pos + k]
    {
      WordBytes(b, pos + 4 * (k / 4));
    }
  }

  lemma WordsBytesInjective(u: seq<uint32>, v: seq<uint32>)
    requires |u| == |v| && WordsBytes(u) == WordsBytes(v)
    ensures u == v
  {
    var b := WordsBytes(u);
    RoundTripV2.AtWhole(b);
    AtWords(b, 0, u);
    AtWords(b, 0, v);
  }

  /** What a successful parse of one leaf says about the bytes. */
  lemma LeafPlace(b: seq<byte>, pos: nat, sq: Square, header: uint32)
    requires IsLeafSize(sq.size) && ParseLeaf(b, pos, sq, header).Ok?
    ensures var (leaf, next) := ParseLeaf(b, pos, sq, header).value;
            var n := PayloadWords(sq.size, LeafMode(header));
            && next == pos + AlignUp(4 * n) <= |b| && b[pos + 4 * n..next] == Zeros(next - (pos + 4 * n))
            && And(And(header, 0xF), 0xE) == 0 && leaf.sq == sq
            && n * CodesPerWord(LeafMode(header)) == sq.size * sq.size
            && leaf.codes == CodesOf(WordsAt(b, pos, n), LeafMode(header), sq.size * sq.size)
  {
    hide And, Shr, LeafMode, HalfFromBits, CodesOf, WordsAt, Zeros, AlignUp;
    CodesFillWords(sq.size, LeafMode(header));
  }

  /** Padded words are those at a place exactly if the words are. */
  lemma PaddedWords(b: seq<byte>, pos: nat, n: nat, written: seq<uint32>)
    requires |written| == n && pos + AlignUp(4 * n) <= |b|
    requires b[pos + 4 * n..pos + AlignUp(4 * n)] == Zeros(AlignUp(4 * n) - 4 * n)
    ensures ZeroPad(WordsBytes(written)) == b[pos..pos + AlignUp(4 * n)] <==> written == WordsAt(b, pos, n)
  {
    hide WordsBytes, WordsAt, Zeros, Padding;
    var words, next := WordsAt(b, pos, n), pos + AlignUp(4 * n);
    WordsSlice(b, pos, n);
    if WordsBytes(written) == WordsBytes(words) { WordsBytesInjective(written, words); }
    SlicePieces(b, pos, pos + 4 * n, next, WordsBytes(written), Zeros(next - (pos + 4 * n)));
  }

  /** One stored payload is the one written for its codes exactly if it uses no reserved symbol. */
  lemma LeafCanonical(b: seq<byte>, pos: nat, sq: Square, header: uint32)
    requires IsLeafSize(sq.size) && ParseLeaf(b, pos, sq, header).Ok?
    ensures var (leaf, next) := ParseLeaf(b, pos, sq, header).value;
            var mode := LeafMode(header);
            var n := PayloadWords(sq.size, mode);
            && pos + 4 * n <= next <= |b| && |RawPayload(RawLeafOf(header, leaf))| == next - pos
            && (RawPayload(RawLeafOf(header, leaf)) == b[pos..next] <==> !Reserved(mode, WordsAt(b, pos, n)))
            && LeafHeader(Shr(header, 16), And(header, 0xFFF0), mode) == header
  {
    hide ParseLeaf, And, Shr, LeafMode, LeafHeader, CodesOf, Payload, WordsBytes, Reserved, WordsAt, AlignUp, Zeros,
         Padding, PayloadWords, ZeroPad;
    var mode := LeafMode(header);
    var n := PayloadWords(sq.size, mode);
    LeafPlace(b, pos, sq, header);
    HeaderParts(header);
    PayloadCanonical(mode, WordsAt(b, pos, n));
    PaddedWords(b, pos, n, Payload(mode, CodesOf(WordsAt(b, pos, n), mode, sq.size * sq.size), n));
  }

  /** The definitions for a non-empty list, one leaf deep. */
  lemma UnfoldRaw(b: seq<byte>, pos: nat, squares: seq<Square>, headers: seq<uint32>)
    requires 0 < |squares| == |headers| && LeafSizes(squares) && ParseLeaves(b, pos, squares, headers).Ok?
    ensures ParseLeaf(b, pos, squares[0], headers[0]).Ok?
    ensures var (leaf, next) := ParseLeaf(b, pos, squares[0], headers[0]).value;
            var mode := LeafMode(headers[0]);
            var n := PayloadWords(squares[0].size, mode);
            var rest := ParseLeaves(b, next, squares[1..], headers[1..]);
            && rest.Ok? && pos + 4 * n <= |b|
            && var r, tail := RawLeaves(b, pos, squares, headers), RawLeaves(b, next, squares[1..], headers[1..]);
               && r.leaves == [RawLeafOf(headers[0], leaf)] + tail.leaves && r.end == tail.end
               && RawPayloads(r.leaves) == RawPayload(RawLeafOf(headers[0], leaf)) + RawPayloads(tail.leaves)
               && HasReserved(b, pos, squares, headers) ==
                  (Reserved(mode, WordsAt(b, pos, n)) || HasReserved(b, next, squares[1..], headers[1..]))
  {
    hide ParseLeaves, Reserved, WordsAt, LeafMode, RawPayload, RawLeafOf, PayloadWords;
    UnfoldLeaves(b, pos, squares, headers);
    LeafCanonical(b, pos, squares[0], headers[0]);
    var (leaf, next) := ParseLeaf(b, pos, squares[0], headers[0]).value;
    var first, tail := RawLeafOf(headers[0], leaf), RawLeaves(b, next, squares[1..], headers[1..]);
    assert ([first] + tail.leaves)[1..] == tail.leaves;
  }

  lemma UnfoldNone(b: seq<byte>, pos: nat, squares: seq<Square>, headers: seq<uint32>)
    requires 0 == |squares| == |headers| && LeafSizes(squares)
    ensures ParseLeaves(b, pos, squares, headers).Ok? && !HasReserved(b, pos, squares, headers)
    ensures RawLeaves(b, pos, squares, headers) == RawRecord([], pos) && RawPayloads([]) == []
  {
  }

  lemma LeafAligned(b: seq<byte>, pos: nat, sq: Square, header: uint32)
    requires IsLeafSize(sq.size) && ParseLeaf(b, pos, sq, header).Ok?
    ensures pos <= ParseLeaf(b, pos, sq, header).value.1 <= |b|
    ensures (ParseLeaf(b, pos, sq, header).value.1 - pos) % 16 == 0
  {
    hide And, Shr, LeafMode, HalfFromBits, CodesOf, WordsAt, Zeros, AlignUp, PayloadWords;
  }

  lemma SumAligned(m: nat, n: nat)
    requires m % 16 == 0 && n % 16 == 0
    ensures (m + n) % 16 == 0
  {
  }

  /** Payloads take up multiples of the alignment. */
  lemma {:induction false} LeavesAligned(b: seq<byte>, pos: nat, squares: seq<Square>, headers: seq<uint32>)
    requires |squares| == |headers| && LeafSizes(squares) && pos <= |b| && ParseLeaves(b, pos, squares, headers).Ok?
    ensures var end := RawLeaves(b, pos, squares, headers).end;
            pos <= end <= |b| && (end - pos) % 16 == 0
    decreases |squares|
  {
    hide ParseLeaves, ParseLeaf, RawLeaves, RawLeafOf, RawPayload, RawPayloads, HasReserved, Reserved, WordsAt,
         LeafMode, PayloadWords;
    if |squares| == 0 {
      UnfoldNone(b, pos, squares, headers);
    } else {
      UnfoldRaw(b, pos, squares, headers);
      LeafAligned(b, pos, squares[0], headers[0]);
      var next := ParseLeaf(b, pos, squares[0], headers[0]).value.1;
      LeavesAligned(b, next, squares[1..], headers[1..]);
      SumAligned(next - pos, RawLeaves(b, next, squares[1..], headers[1..]).end - next);
    }
  }

  /** The stored payloads are those written for their codes exactly if none uses the reserved symbol. */
  lemma {:induction false} LeavesCanonical(b: seq<byte>, pos: nat, squares: seq<Square>, headers: seq<uint32>)
    requires |squares| == |headers| && LeafSizes(squares) && pos <= |b| && ParseLeaves(b, pos, squares, headers).Ok?
    ensures var r := RawLeaves(b, pos, squares, headers);
            && pos <= r.end <= |b| && |RawPayloads(r.leaves)| == r.end - pos
            && (RawPayloads(r.leaves) == b[pos..r.end] <==> !HasReserved(b, pos, squares, headers))
    decreases |squares|
  {
    hide ParseLeaves, ParseLeaf, RawLeaves, RawLeafOf, RawPayload, RawPayloads, HasReserved, Reserved, WordsAt,
         LeafMode, PayloadWords, LeafHeader;
    if |squares| == 0 {
      UnfoldNone(b, pos, squares, headers);
      assert b[pos..pos] == [];
    } else {
      UnfoldRaw(b, pos, squares, headers);
      LeafCanonical(b, pos, squares[0], headers[0]);
      var (leaf, next) := ParseLeaf(b, pos, squares[0], headers[0]).value;
      LeavesCanonical(b, next, squares[1..], headers[1..]);
      var tail := RawLeaves(b, next, squares[1..], headers[1..]);
      SlicePieces(b, pos, next, tail.end, RawPayload(RawLeafOf(headers[0], leaf)), RawPayloads(tail.leaves));
    }
  }

  /** The stored leaves have the parsed squares and, rebuilt from their fields, the stored headers. */
  lemma {:induction false} StoredHeaders(b: seq<byte>, pos: nat, squares: seq<Square>, headers: seq<uint32>)
    requires |squares| == |headers| && LeafSizes(squares) && ParseLeaves(b, pos, squares, headers).Ok?
    ensures var leaves := RawLeaves(b, pos, squares, headers).leaves;
            RawHeaders(leaves) == headers && RawSquares(leaves) == squares
    decreases |squares|
  {
    hide ParseLeaves, ParseLeaf, RawLeaves, RawPayload, RawPayloads, HasReserved, Reserved, WordsAt, LeafMode,
         PayloadWords, LeafHeader, And, Shr;
    if |squares| == 0 {
      UnfoldNone(b, pos, squares, headers);
    } else {
      UnfoldRaw(b, pos, squares, headers);
      LeafCanonical(b, pos, squares[0], headers[0]);
      var (leaf, next) := ParseLeaf(b, pos, squares[0], headers[0]).value;
      StoredHeaders(b, next, squares[1..], headers[1..]);
      var first, tail := RawLeafOf(headers[0], leaf), RawLeaves(b, next, squares[1..], headers[1..]).leaves;
      assert RawHeaders([first] + tail) == [headers[0]] + RawHeaders(tail) == headers;
      assert RawSquares([first] + tail) == [squares[0]] + RawSquares(tail) == squares;
    }
  }

  // --------------------------------------------------------------- records

  function LayoutAt(b: seq<byte>, base: nat): (layout: Layout)
    requires ParseRecord(b, base).Ok?
  {
    LayoutOf(And(U32At(b, base), 0x7))
  }

  /** The leaf geometry of an accepted record, and where its header table starts. */
  function GeometryAt(b: seq<byte>, base: nat): (g: (seq<Square>, nat))
    requires ParseRecord(b, base).Ok?
    ensures RecordLeaves(b, LayoutAt(b, base), base + UINT32_BYTES) == Ok(g)
    ensures LeafSizes(g.0) && g.1 + 4 * |g.0| <= |b|
  {
    RecordLeavesTile(b, LayoutAt(b, base), base + UINT32_BYTES);
    RecordLeaves(b, LayoutAt(b, base), base + UINT32_BYTES).value
  }

  function HeadersAt(b: seq<byte>, base: nat): (headers: seq<uint32>)
    requires ParseRecord(b, base).Ok?
    ensures |headers| == |GeometryAt(b, base).0|
  {
    var (squares, pos) := GeometryAt(b, base);
    WordsAt(b, pos, |squares|)
  }

  lemma ZeroSlice(b: seq<byte>, lo: nat, hi: nat)
    requires lo <= |b| && lo <= hi && PySlice(b, lo, hi) == Zeros(hi - lo)
    ensures hi <= |b| && b[lo..hi] == Zeros(hi - lo)
  {
    assert |PySlice(b, lo, hi)| == hi - lo;
  }

  lemma BodyOf(b: seq<byte>, base: nat, pos: nat, squares: seq<Square>)
    requires LeafSizes(squares) && ParseRecordBody(b, base, pos, squares).Ok?
    ensures var next := pos + 4 * |squares|;
            var start := next + Padding(next - base);
            && start <= |b| && b[next..start] == Zeros(start - next)
            && ParseLeaves(b, start, squares, WordsAt(b, pos, |squares|)) == ParseRecordBody(b, base, pos, squares)
  {
    hide ParseLeaves, WordsAt, PySlice, Zeros, Padding, LeafSizes;
    var next := pos + 4 * |squares|;
    ZeroSlice(b, next, next + Padding(next - base));
  }

  lemma RecordIsBody(b: seq<byte>, base: nat)
    requires ParseRecord(b, base).Ok?
    ensures ParseRecord(b, base) == ParseRecordBody(b, base, GeometryAt(b, base).1, GeometryAt(b, base).0)
  {
    hide ParseRecordBody, RecordLeaves, U32At, And, Shr, LeafSizes;
  }

  /** Where its payloads start, after padding. */
  function PayloadsAt(b: seq<byte>, base: nat): nat
    requires ParseRecord(b, base).Ok?
  {
    var (squares, pos) := GeometryAt(b, base);
    var next := pos + 4 * |squares|;
    next + Padding(next - base)
  }

  lemma UnfoldAt(b: seq<byte>, base: nat)
    requires ParseRecord(b, base).Ok?
    ensures var (squares, pos) := GeometryAt(b, base);
            var next := pos + 4 * |squares|;
            HeadersAt(b, base) == WordsAt(b, pos, |squares|) && PayloadsAt(b, base) == next + Padding(next - base)
  {
    hide ParseRecord, RecordLeaves, GeometryAt, LayoutAt, WordsAt, Padding, LeafSizes;
  }

  lemma BodyBounds(b: seq<byte>, base: nat)
    requires ParseRecord(b, base).Ok?
    ensures var (squares, pos) := GeometryAt(b, base);
            var next := pos + 4 * |squares|;
            && next <= PayloadsAt(b, base) <= |b| && PayloadsAt(b, base) - next == Padding(next - base)
            && b[next..PayloadsAt(b, base)] == Zeros(PayloadsAt(b, base) - next)
  {
    hide *;
    UnfoldAt(b, base);
    RecordIsBody(b, base);
    BodyOf(b, base, GeometryAt(b, base).1, GeometryAt(b, base).0);
  }

  lemma PayloadsAligned(b: seq<byte>, base: nat)
    requires ParseRecord(b, base).Ok?
    ensures (PayloadsAt(b, base) - base) % 16 == 0
  {
    hide ParseRecord, RecordLeaves, GeometryAt, LayoutAt, HeadersAt, PayloadsAt, WordsAt, Padding, LeafSizes;
    UnfoldAt(b, base);
    var next := GeometryAt(b, base).1 + 4 * |GeometryAt(b, base).0|;
    assert PayloadsAt(b, base) - base == (next - base) + Padding(next - base);
  }

  lemma BodyParses(b: seq<byte>, base: nat)
    requires ParseRecord(b, base).Ok?
    ensures ParseLeaves(b, PayloadsAt(b, base), GeometryAt(b, base).0, HeadersAt(b, base)) == ParseRecord(b, base)
  {
    hide *;
    UnfoldAt(b, base);
    RecordIsBody(b, base);
    BodyOf(b, base, GeometryAt(b, base).1, GeometryAt(b, base).0);
  }

  /** An accepted record as it is stored. */
  function StoredRecord(b: seq<byte>, base: nat): RawRecord
    requires ParseRecord(b, base).Ok?
  {
    BodyParses(b, base);
    RawLeaves(b, PayloadsAt(b, base), GeometryAt(b, base).0, HeadersAt(b, base))
  }

  predicate RecordHasReserved(b: seq<byte>, base: nat)
    requires ParseRecord(b, base).Ok?
  {
    BodyParses(b, base);
    HasReserved(b, PayloadsAt(b, base), GeometryAt(b, base).0, HeadersAt(b, base))
  }

  /** The layout word of an accepted record holds its layout and nothing else. */
  lemma LayoutWord(b: seq<byte>, base: nat)
    requires ParseRecord(b, base).Ok?
    ensures base + 4 <= |b| && b[base..base + 4] == LE32(LayoutValue(LayoutAt(b, base)))
  {
    hide ParseRecordBody, RecordLeaves;
    var h := U32At(b, base);
    Powers();
    LowMask(h, 3, 8);
    assert h < 8 && And(h, 0x7) == h;
    LayoutOfValue(h);
    WordBytes(b, base);
  }

  lemma LayoutOfValue(value: nat)
    requires value < 6
    ensures LayoutValue(LayoutOf(value)) == value
  {
  }

  lemma LayoutValueInjective(l: Layout, m: Layout)
    requires LE32(LayoutValue(l)) == LE32(LayoutValue(m))
    ensures l == m
  {
    assert LE32(LayoutValue(l))[0] == LE32(LayoutValue(m))[0];
  }

  /** A row-major geometry is classified as the layout it came from. */
  lemma RowMajorClassified(layout: Layout)
    requires layout != MIXED
    ensures ClassifyLayout(RowMajor(UniformSize(layout))) == layout
  {
    var size := UniformSize(layout);
    var L := RowMajor(size);
    hide GridSquare;
    forall i | 0 <= i < |L|
      ensures L[i].size == size
    {
      GridAligned(size, i);
    }
  }

  /** The bytes between layout word and header table are the split map of the record's own leaves, if
      its layout is the one its leaves call for. */
  lemma MapStored(b: seq<byte>, base: nat)
    requires ParseRecord(b, base).Ok?
    ensures var (squares, pos) := GeometryAt(b, base);
            var layout := LayoutAt(b, base);
            && base + 4 <= pos <= |b|
            && (layout != MIXED ==> pos == base + 4 && ClassifyLayout(squares) == layout)
            && (layout == MIXED ==> SplitMap.BuildSplitMap(squares) == Ok(b[base + 4..pos]))
  {
    hide ParseRecord, RowMajor, ClassifyLayout, SplitMap.ParseSplitMap, SplitMap.BuildSplitMap;
    var (squares, pos) := GeometryAt(b, base);
    var layout := LayoutAt(b, base);
    if layout == MIXED {
      var map12 := PySlice(b, base + 4, base + 16);
      assert SplitMap.ParseSplitMap(map12) == Ok(squares) && pos == base + 16;
      assert map12 == b[base + 4..pos];
      SplitMap.BuildUndoesParse(map12);
    } else {
      RowMajorClassified(layout);
      LayoutWord(b, base);
    }
  }

  /** The stored header section, if its layout is the one its leaves call for, is the one written. */
  lemma HeaderSectionStored(b: seq<byte>, base: nat)
    requires ParseRecord(b, base).Ok? && LayoutAt(b, base) == ClassifyLayout(GeometryAt(b, base).0)
    ensures var (squares, pos) := GeometryAt(b, base);
            var layout := LayoutAt(b, base);
            && base + 4 <= pos <= PayloadsAt(b, base) <= |b|
            && b[base..PayloadsAt(b, base)]
               == ZeroPad(LE32(LayoutValue(layout)) + b[base + 4..pos] + WordsBytes(HeadersAt(b, base)))
  {
    hide *;
    UnfoldAt(b, base);
    BodyBounds(b, base);
    LayoutWord(b, base);
    MapStored(b, base);
    var (squares, pos) := GeometryAt(b, base);
    WordsSlice(b, pos, |squares|);
    PaddedSlice(b, base, pos, pos + 4 * |squares|, PayloadsAt(b, base));
  }

  lemma PaddedSlice(b: seq<byte>, base: nat, pos: nat, next: nat, start: nat)
    requires base + 4 <= pos <= next <= start <= |b|
    requires start - next == Padding(next - base) && b[next..start] == Zeros(start - next)
    ensures ZeroPad(b[base..base + 4] + b[base + 4..pos] + b[pos..next]) == b[base..start]
  {
    hide Padding, Zeros;
    var section := b[base..base + 4] + b[base + 4..pos] + b[pos..next];
    assert section == b[base..next];
    assert b[base..start] == b[base..next] + b[next..start];
  }

  /** A stored leaf, its binary16 patterns read as numbers. */
  function ReadRaw(leaf: RawLeaf): DecodedLeaf {
    DecodedLeaf(leaf.sq, HalfFromBits(leaf.scaleBits), HalfFromBits(leaf.biasBits), leaf.codes)
  }

  lemma {:induction false} LeavesDecode(b: seq<byte>, pos: nat, squares: seq<Square>, headers: seq<uint32>)
    requires |squares| == |headers| && LeafSizes(squares) && ParseLeaves(b, pos, squares, headers).Ok?
    ensures var leaves := RawLeaves(b, pos, squares, headers).leaves;
            ParseLeaves(b, pos, squares, headers).value ==
            seq(|leaves|, i requires 0 <= i < |leaves| => ReadRaw(leaves[i]))
    decreases |squares|
  {
    hide ParseLeaves, RawLeaves, RawPayload, RawPayloads, HasReserved, Reserved, WordsAt, LeafMode, PayloadWords,
         LeafHeader, And, Shr, HalfFromBits, CodesOf;
    UnfoldLeaves(b, pos, squares, headers);
    if |squares| == 0 {
      UnfoldNone(b, pos, squares, headers);
    } else {
      UnfoldRaw(b, pos, squares, headers);
      LeavesDecode(b, ParseLeaf(b, pos, squares[0], headers[0]).value.1, squares[1..], headers[1..]);
    }
  }

  /** What the decoder returns for a record is what is stored in it, read as numbers. */
  lemma StoredDecodes(b: seq<byte>, base: nat)
    ensures ParseRecord(b, base).Ok? ==>
              var leaves := StoredRecord(b, base).leaves;
              ParseRecord(b, base).value == seq(|leaves|, i requires 0 <= i < |leaves| => ReadRaw(leaves[i]))
  {
    hide ParseRecord, RawLeaves, ParseLeaves, GeometryAt, PayloadsAt, HeadersAt;
    if ParseRecord(b, base).Ok? {
      BodyParses(b, base);
      LeavesDecode(b, PayloadsAt(b, base), GeometryAt(b, base).0, HeadersAt(b, base));
    }
  }

  /** A header section and payloads fill a record without further padding. */
  lemma WrittenSection(b: seq<byte>, base: nat, start: nat, end: nat, header: seq<byte>, payloads: seq<byte>)
    requires base <= start <= end <= |b| && (start - base) % 16 == 0 && (end - start) % 16 == 0
    requires |header| == start - base && |payloads| == end - start && header == b[base..start]
    ensures ZeroPad(header + payloads) == b[base..end] <==> payloads == b[start..end]
  {
    assert |header + payloads| % 16 == 0;
    AlignedStays(|header + payloads|);
    assert ZeroPad(header + payloads) == header + payloads;
    SlicePieces(b, base, start, end, header, payloads);
  }

  /** With another layout the first word differs. */
  lemma OtherLayout(b: seq<byte>, base: nat)
    requires ParseRecord(b, base).Ok?
    requires LayoutAt(b, base) != ClassifyLayout(RawSquares(StoredRecord(b, base).leaves))
    requires base <= StoredRecord(b, base).end <= |b|
    ensures WriteRaw(StoredRecord(b, base).leaves) != Ok(b[base..StoredRecord(b, base).end])
  {
    hide ParseRecord, ClassifyLayout, StoredRecord, RawPayloads, RawHeaders, LE32, WordsBytes, LayoutValue, LayoutAt,
         SplitMap.BuildSplitMap;
    var r := StoredRecord(b, base);
    var layout := ClassifyLayout(RawSquares(r.leaves));
    if WriteRaw(r.leaves) == Ok(b[base..r.end]) {
      LayoutWord(b, base);
      var written := b[base..r.end];
      assert written[..4] == LE32(LayoutValue(layout));
      assert b[base..base + 4] == written[..4];
      LayoutValueInjective(LayoutAt(b, base), layout);
    }
  }

  /** With its own layout the written record starts with the stored header section. */
  lemma OwnLayout(b: seq<byte>, base: nat)
    requires ParseRecord(b, base).Ok? && LayoutAt(b, base) == ClassifyLayout(GeometryAt(b, base).0)
    ensures base <= PayloadsAt(b, base) <= |b|
    ensures var leaves := StoredRecord(b, base).leaves;
            RawSquares(leaves) == GeometryAt(b, base).0 &&
            WriteRaw(leaves) == Ok(ZeroPad(b[base..PayloadsAt(b, base)] + RawPayloads(leaves)))
  {
    hide ParseRecord, ClassifyLayout, GeometryAt, PayloadsAt, HeadersAt, LayoutAt, ParseLeaves, RawLeaves, RawPayloads,
         RawHeaders, RawSquares, LE32, ZeroPad, WordsBytes, LayoutValue, SplitMap.BuildSplitMap;
    BodyParses(b, base);
    StoredHeaders(b, PayloadsAt(b, base), GeometryAt(b, base).0, HeadersAt(b, base));
    HeaderSectionStored(b, base);
    MapStored(b, base);
    assert b[base + 4..base + 4] == [];
  }

  /** The stored payloads, where they are. */
  lemma PayloadsStored(b: seq<byte>, base: nat)
    requires ParseRecord(b, base).Ok?
    ensures var start, r := PayloadsAt(b, base), StoredRecord(b, base);
            && base <= start <= r.end <= |b| && |RawPayloads(r.leaves)| == r.end - start
            && (start - base) % 16 == 0 && (r.end - start) % 16 == 0
            && (RawPayloads(r.leaves) == b[start..r.end] <==> !RecordHasReserved(b, base))
            && RawSquares(r.leaves) == GeometryAt(b, base).0
  {
    hide ParseRecord, GeometryAt, PayloadsAt, HeadersAt, ParseLeaves, RawLeaves, RawPayloads, HasReserved, RawSquares;
    var start, squares, headers := PayloadsAt(b, base), GeometryAt(b, base).0, HeadersAt(b, base);
    BodyParses(b, base);
    BodyBounds(b, base);
    MapStored(b, base);
    PayloadsAligned(b, base);
    StoredHeaders(b, start, squares, headers);
    LeavesCanonical(b, start, squares, headers);
    LeavesAligned(b, start, squares, headers);
  }

  /** An accepted record is what the exporter writes for the leaves stored in it exactly when its
      layout is the one these leaves call for and no ternary payload uses the reserved symbol: every
      other byte of it is determined by its content. */
  lemma RecordCanonical(b: seq<byte>, base: nat)
    ensures ParseRecord(b, base).Ok? ==>
              var r := StoredRecord(b, base);
              && base <= r.end <= |b|
              && (WriteRaw(r.leaves) == Ok(b[base..r.end]) <==>
                  LayoutAt(b, base) == ClassifyLayout(RawSquares(r.leaves)) && !RecordHasReserved(b, base))
  {
    hide ParseRecord, StoredRecord, RecordHasReserved, GeometryAt, PayloadsAt, LayoutAt, ClassifyLayout, WriteRaw,
         RawPayloads, RawSquares, ZeroPad;
    if ParseRecord(b, base).Ok? {
      var start, r := PayloadsAt(b, base), StoredRecord(b, base);
      PayloadsStored(b, base);
      if LayoutAt(b, base) == ClassifyLayout(RawSquares(r.leaves)) {
        OwnLayout(b, base);
        WrittenSection(b, base, start, r.end, b[base..start], RawPayloads(r.leaves));
      } else {
        OtherLayout(b, base);
      }
    }
  }
}
