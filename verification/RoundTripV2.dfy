/** Decoding undoes exporting for the SGFP4 v2 container. */
module RoundTripV2 {
  import opened Bits
  import opened Format
  import opened Basics
  import opened Codes
  import opened Half
  import opened Headers
  import opened Quadtree
  import opened Layouts
  import opened ExporterV2
  import opened DecoderV2
  import SplitMap

  /** What the decoder should make of a leaf: its half-precision scale, its truncated bias, its codes. */
  function Decoded(toHalf: HalfEncoder, leaf: Leaf): DecodedLeaf
    requires |leaf.payload| * CodesPerWord(leaf.mode) >= leaf.sq.size * leaf.sq.size
  {
    DecodedLeaf(leaf.sq, HalfFromBits(toHalf(ClipHalf(leaf.scale))),
                HalfFromBits(TruncatedBias(toHalf(ClipHalf(leaf.bias)))),
                CodesOf(leaf.payload, leaf.mode, leaf.sq.size * leaf.sq.size))
  }

  lemma FittingPayload(leaf: Leaf)
    requires IsLeafSize(leaf.sq.size) && |leaf.payload| == PayloadWords(leaf.sq.size, leaf.mode)
    ensures |leaf.payload| * CodesPerWord(leaf.mode) == leaf.sq.size * leaf.sq.size
  {
    CodesFillWords(leaf.sq.size, leaf.mode);
  }

  function DecodedLeaves(toHalf: HalfEncoder, leaves: seq<Leaf>): (r: seq<DecodedLeaf>)
    requires PayloadsFit(leaves)
    ensures |r| == |leaves| && DecodedSquares(r) == Squares(leaves)
  {
    var r := seq(|leaves|, i requires 0 <= i < |leaves| => FittingPayload(leaves[i]); Decoded(toHalf, leaves[i]));
    assert DecodedSquares(r) == Squares(leaves);
    r
  }

  // ------------------------------------------------------------- one record

  lemma LeafModeOfHeader(header: uint32, mode: CodeMode)
    requires And(And(header, 0xF), 0x1) == ModeValue(mode)
    ensures LeafMode(header) == mode
  {
  }

  lemma HeaderFields(toHalf: HalfEncoder, leaf: Leaf)
    ensures var h := HeaderWord(toHalf, leaf);
            && Shr(h, 16) == toHalf(ClipHalf(leaf.scale))
            && And(h, 0xFFF0) == TruncatedBias(toHalf(ClipHalf(leaf.bias)))
            && And(And(h, 0xF), 0xE) == 0 && And(And(h, 0xF), 0x1) == ModeValue(leaf.mode)
  {
    LeafHeaderFields(toHalf(ClipHalf(leaf.scale)), toHalf(ClipHalf(leaf.bias)), leaf.mode);
    hide And, Shr, TruncatedBias;
  }

  /** One padded payload is read back as the leaf that was written. */
  lemma ParseLeafRoundTrip(b: seq<byte>, pos: nat, toHalf: HalfEncoder, leaf: Leaf)
    requires IsLeafSize(leaf.sq.size) && |leaf.payload| == PayloadWords(leaf.sq.size, leaf.mode)
    requires At(b, pos, ZeroPad(WordsBytes(leaf.payload)))
    ensures |leaf.payload| * CodesPerWord(leaf.mode) == leaf.sq.size * leaf.sq.size
    ensures ParseLeaf(b, pos, leaf.sq, HeaderWord(toHalf, leaf))
            == Ok((Decoded(toHalf, leaf), pos + |ZeroPad(WordsBytes(leaf.payload))|))
  {
    hide LeafHeader, And, Shr, TruncatedBias, HalfFromBits, U32At, LE32, WordsBytes, CodesOf, PayloadWords, LeafMode,
         HeaderWord, At, PySlice, CodesPerWord;
    FittingPayload(leaf);
    HeaderFields(toHalf, leaf);
    LeafModeOfHeader(HeaderWord(toHalf, leaf), leaf.mode);
    var bytes := WordsBytes(leaf.payload);
    var pad := Padding(|bytes|);
    AtBounds(b, pos, ZeroPad(bytes));
    AtSplit(b, pos, bytes, Zeros(pad));
    AtWords(b, pos, leaf.payload);
    AtZeros(b, pos + |bytes|, pad);
  }

  lemma {:induction false} ParseLeavesRoundTrip(b: seq<byte>, pos: nat, toHalf: HalfEncoder, leaves: seq<Leaf>)
    requires PayloadsFit(leaves) && At(b, pos, Payloads(leaves))
    ensures LeafSizes(Squares(leaves))
    ensures ParseLeaves(b, pos, Squares(leaves), HeaderWords(toHalf, leaves)) == Ok(DecodedLeaves(toHalf, leaves))
    decreases |leaves|
  {
    hide ParseLeaf, ParseLeaves, Decoded, HeaderWord, ZeroPad, WordsBytes, PayloadWords;
    assert LeafSizes(Squares(leaves));
    UnfoldLeaves(b, pos, Squares(leaves), HeaderWords(toHalf, leaves));
    if |leaves| > 0 {
      var first := ZeroPad(WordsBytes(leaves[0].payload));
      AtSplit(b, pos, first, Payloads(leaves[1..]));
      ParseLeafRoundTrip(b, pos, toHalf, leaves[0]);
      ParseLeavesRoundTrip(b, pos + |first|, toHalf, leaves[1..]);
      assert Squares(leaves)[1..] == Squares(leaves[1..]);
      assert HeaderWords(toHalf, leaves)[1..] == HeaderWords(toHalf, leaves[1..]);
      assert DecodedLeaves(toHalf, leaves) == [Decoded(toHalf, leaves[0])] + DecodedLeaves(toHalf, leaves[1..]);
    }
  }

  /** Header word, geometry, header table, padding and payloads of a record, each in its place. */
  lemma RecordPieces(b: seq<byte>, base: nat, toHalf: HalfEncoder, blocks: seq<Leaf>)
    requires ValidBlocks(blocks) && SplitMapBytes(blocks).Ok? && Record(toHalf, blocks).Ok?
    requires At(b, base, Record(toHalf, blocks).value)
    ensures var layout, leaves := ClassifyLayout(Squares(blocks)), RecordOrder(blocks);
            var map12 := SplitMapBytes(blocks).value;
            var table := base + 4 + |map12|;
            var next := table + 4 * |leaves|;
            && At(b, base, LE32(LayoutValue(layout)))
            && At(b, base + 4, map12)
            && At(b, table, WordsBytes(HeaderWords(toHalf, leaves)))
            && At(b, next, Zeros(Padding(next - base)))
            && At(b, next + Padding(next - base), Payloads(leaves))
  {
    hide ClassifyLayout, RecordOrder, SplitMapBytes, ValidBlocks, Payloads, WordsBytes, HeaderWords, LE32, At;
    var layout, leaves, map12 := ClassifyLayout(Squares(blocks)), RecordOrder(blocks), SplitMapBytes(blocks).value;
    var word, headers := LE32(LayoutValue(layout)), WordsBytes(HeaderWords(toHalf, leaves));
    var section := word + map12 + headers;
    var body := ZeroPad(section) + Payloads(leaves);
    AtSplit(b, base, body, Zeros(Padding(|body|)));
    AtSplit(b, base, ZeroPad(section), Payloads(leaves));
    AtSplit(b, base, section, Zeros(Padding(|section|)));
    AtSplit(b, base, word + map12, headers);
    AtSplit(b, base, word, map12);
  }

  lemma LayoutFields(layout: Layout)
    ensures And(LayoutValue(layout), 0x7) == LayoutValue(layout) < 6 && Shr(LayoutValue(layout), 3) == 0
    ensures LayoutOf(LayoutValue(layout)) == layout
  {
    Powers();
    LowMask(LayoutValue(layout), 3, 8);
  }

  /** The decoder finds the geometry of the record's leaves in the record's own order. */
  lemma GeometryRoundTrip(b: seq<byte>, pos: nat, blocks: seq<Leaf>)
    requires ValidBlocks(blocks) && SplitMapBytes(blocks).Ok? && At(b, pos, SplitMapBytes(blocks).value)
    ensures RecordLeaves(b, ClassifyLayout(Squares(blocks)), pos)
            == Ok((Squares(RecordOrder(blocks)), pos + |SplitMapBytes(blocks).value|))
  {
    hide ClassifyLayout, SortLeaves, RowMajor, ExactTiling, IsLeafList, PayloadsFit, At, PySlice, Squares,
         SplitMap.ParseSplitMap, SplitMap.BuildSplitMap, RecordOrder, ValidBlocks;
    OrderFacts(blocks);
    if ClassifyLayout(Squares(blocks)) == MIXED {
      MixedOrder(blocks);
      SplitMap.ParseUndoesBuild(Squares(blocks));
      SliceAt(b, pos, SplitMapBytes(blocks).value);
    }
  }

  lemma MixedOrder(blocks: seq<Leaf>)
    requires ValidBlocks(blocks) && ClassifyLayout(Squares(blocks)) == MIXED
    ensures IsLeafList(Squares(blocks)) && RecordOrder(blocks) == blocks
  {
  }

  lemma SliceAt(b: seq<byte>, pos: nat, chunk: seq<byte>)
    requires At(b, pos, chunk)
    ensures PySlice(b, pos, pos + |chunk|) == chunk
  {
  }

  /** A record decodes to its leaves, in the record's order. */
  lemma RecordRoundTrip(b: seq<byte>, base: nat, toHalf: HalfEncoder, blocks: seq<Leaf>)
    requires ValidBlocks(blocks) && Record(toHalf, blocks).Ok? && At(b, base, Record(toHalf, blocks).value)
    ensures PayloadsFit(RecordOrder(blocks))
    ensures ParseRecord(b, base) == Ok(DecodedLeaves(toHalf, RecordOrder(blocks)))
  {
    hide ClassifyLayout, RecordOrder, SplitMapBytes, ValidBlocks, Payloads, WordsBytes, LE32, At, ParseLeaves, PySlice,
         DecodedLeaves, RecordLeaves, PayloadsFit, ExactTiling, And, Shr, U32At, LayoutOf, HeaderWords, WordsAt, Record,
         ParseRecordBody, LayoutValue, LeafSizes, Squares;
    var layout, leaves := ClassifyLayout(Squares(blocks)), RecordOrder(blocks);
    OrderFacts(blocks);
    SplitMapLength(blocks);
    RecordPieces(b, base, toHalf, blocks);
    LayoutFields(layout);
    AtWord(b, base, LayoutValue(layout));
    GeometryRoundTrip(b, base + 4, blocks);
    BodyRoundTrip(b, base, base + 4 + |SplitMapBytes(blocks).value|, toHalf, leaves);
  }

  lemma BodyRoundTrip(b: seq<byte>, base: nat, table: nat, toHalf: HalfEncoder, leaves: seq<Leaf>)
    requires PayloadsFit(leaves)
    requires var next := table + 4 * |leaves|;
             && At(b, table, WordsBytes(HeaderWords(toHalf, leaves)))
             && At(b, next, Zeros(Padding(next - base)))
             && At(b, next + Padding(next - base), Payloads(leaves))
    ensures LeafSizes(Squares(leaves))
    ensures ParseRecordBody(b, base, table, Squares(leaves)) == Ok(DecodedLeaves(toHalf, leaves))
  {
    hide ParseLeaves, DecodedLeaves, Payloads, WordsBytes, HeaderWords, At, WordsAt, PayloadsFit, LeafSizes, Squares,
         PySlice;
    var next := table + 4 * |leaves|;
    AtBounds(b, table, WordsBytes(HeaderWords(toHalf, leaves)));
    AtWords(b, table, HeaderWords(toHalf, leaves));
    AtZeros(b, next, Padding(next - base));
    ParseLeavesRoundTrip(b, next + Padding(next - base), toHalf, leaves);
  }

  // -------------------------------------------------------- the whole stream

  ghost predicate AllValid(superblocks: seq<seq<Leaf>>) {
    forall k :: 0 <= k < |superblocks| ==> ValidBlocks(superblocks[k])
  }

  /** The decoded records of a list of superblocks. */
  ghost function DecodedRecords(toHalf: HalfEncoder, superblocks: seq<seq<Leaf>>): (r: seq<seq<DecodedLeaf>>)
    requires AllValid(superblocks)
    ensures |r| == |superblocks|
  {
    seq(|superblocks|, k requires 0 <= k < |superblocks| =>
      OrderFacts(superblocks[k]); DecodedLeaves(toHalf, RecordOrder(superblocks[k])))
  }

  lemma {:induction false} RecordsRoundTrip(b: seq<byte>, region: nat, toHalf: HalfEncoder,
                                            superblocks: seq<seq<Leaf>>, offset: nat, previous: int)
    requires AllValid(superblocks) && offset % 16 == 0 && previous < offset
    requires Records(toHalf, superblocks, offset).Ok?
    requires At(b, region + offset, Records(toHalf, superblocks, offset).value.bytes)
    ensures ParseRecords(b, region, Records(toHalf, superblocks, offset).value.offsets, previous)
            == Ok(DecodedRecords(toHalf, superblocks))
    decreases |superblocks|
  {
    hide Record, Records, ParseRecord, DecodedLeaves, ValidBlocks, RecordOrder, PayloadsFit, At;
    UnfoldRecords(toHalf, superblocks, offset);
    if |superblocks| > 0 {
      assert ValidBlocks(superblocks[0]);
      RecordLength(toHalf, superblocks[0]);
      var record := Record(toHalf, superblocks[0]).value;
      var rest := Records(toHalf, superblocks[1..], offset + |record|).value;
      AtSplit(b, region + offset, record, rest.bytes);
      RecordRoundTrip(b, region + offset, toHalf, superblocks[0]);
      RecordsRoundTrip(b, region, toHalf, superblocks[1..], offset + |record|, offset);
      assert Records(toHalf, superblocks, offset).value.offsets[1..] == rest.offsets;
      assert DecodedRecords(toHalf, superblocks) ==
             [DecodedLeaves(toHalf, RecordOrder(superblocks[0]))] + DecodedRecords(toHalf, superblocks[1..]);
    }
  }

  /** The fixed header, offset table and padding, each in its place. */
  lemma FramingPieces(b: seq<byte>, offsets: seq<uint32>, rest: seq<byte>)
    requires |offsets| < UINT32_LIMIT && b == Framing(offsets) + rest
    ensures At(b, 0, SGFP4_MAGIC) && At(b, 4, [SGFP4_VERSION_V2]) && At(b, 5, LE32(|offsets|))
    ensures At(b, 9, Zeros(7)) && At(b, 16, WordsBytes(offsets))
    ensures var end := 16 + 4 * |offsets|;
            At(b, end, Zeros(Padding(end))) && At(b, end + Padding(end), rest) && AlignUp(end) == end + Padding(end)
  {
    hide WordsBytes, LE32, At;
    var m, v, n := SGFP4_MAGIC, [SGFP4_VERSION_V2], LE32(|offsets|);
    var table := WordsBytes(offsets);
    var head := m + v + n + Zeros(7) + table;
    AtWhole(b);
    AtSplit(b, 0, Framing(offsets), rest);
    AtSplit(b, 0, head, Zeros(Padding(|head|)));
    AtSplit(b, 0, m + v + n + Zeros(7), table);
    AtSplit(b, 0, m + v + n, Zeros(7));
    AtSplit(b, 0, m + v, n);
    AtSplit(b, 0, m, v);
  }

  lemma AtWhole(b: seq<byte>)
    ensures At(b, 0, b)
  {
  }

  /** Decoding undoes exporting: for every tensor shape and every choice of leaves and modes the
      decoder accepts the exported stream and returns every leaf with its own scale, truncated bias
      and codes. */
  lemma StreamRoundTrip(toHalf: HalfEncoder, superblocks: seq<seq<Leaf>>, O: nat, I: nat)
    requires AllValid(superblocks) && |superblocks| == CeilDiv64(O) * CeilDiv64(I)
    ensures Export(toHalf, superblocks).Ok? ==>
              Parse(Export(toHalf, superblocks).value, O, I) == Ok(DecodedRecords(toHalf, superblocks))
  {
    hide Framing, Records, ParseRecords, DecodedRecords, AllValid, CeilDiv64, WordsBytes, LE32, U32At;
    if Export(toHalf, superblocks).Ok? {
      var w := Records(toHalf, superblocks, 0).value;
      var b := Export(toHalf, superblocks).value;
      assert |w.offsets| == |superblocks| by { OffsetCount(toHalf, superblocks, 0); }
      FramingPieces(b, w.offsets, w.bytes);
      var end := 16 + 4 * |w.offsets|;
      AtWord(b, 5, |w.offsets|);
      AtWords(b, 16, w.offsets);
      AtZeros(b, end, Padding(end));
      AtIndex(b, 4, [SGFP4_VERSION_V2], 0);
      RecordsRoundTrip(b, AlignUp(end), toHalf, superblocks, 0, -1);
    }
  }

  lemma {:induction false} OffsetCount(toHalf: HalfEncoder, superblocks: seq<seq<Leaf>>, offset: nat)
    requires Records(toHalf, superblocks, offset).Ok?
    ensures |Records(toHalf, superblocks, offset).value.offsets| == |superblocks|
    decreases |superblocks|
  {
    hide Record;
    if |superblocks| > 0 {
      OffsetCount(toHalf, superblocks[1..], offset + |Record(toHalf, superblocks[0]).value|);
    }
  }

  /** The export succeeds whenever 5136 bytes per superblock fit in 32 bits, and otherwise can only
      fail because an offset does not. */
  lemma ExportFits(toHalf: HalfEncoder, superblocks: seq<seq<Leaf>>)
    requires AllValid(superblocks)
    ensures 5136 * |superblocks| <= UINT32_LIMIT ==> Export(toHalf, superblocks).Ok?
    ensures Export(toHalf, superblocks).Err? ==> Export(toHalf, superblocks).error == OffsetOverflow
  {
    RecordsFit(toHalf, superblocks, 0);
    hide Records, Framing;
  }
}
