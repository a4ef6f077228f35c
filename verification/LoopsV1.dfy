/** The loops of the v1 exporter and decoder. */
module LoopsV1 {
  import opened Bits
  import opened Format
  import opened Basics
  import opened Codes
  import opened Half
  import opened Headers
  import opened Quadtree
  import opened QuadtreeEncoder
  import opened Fit
  import opened DecoderV2
  import opened ReaderV2
  import opened CodecV1

  /** Header and offset arrays filled block by block, payloads appended, the offset advancing. */
  method WriteBlocks(toHalf: HalfEncoder, options: Options, weights: Grid, O: nat, I: nat, blockCount: nat)
    returns (r: Result<Tables, ExportV1Error>)
    requires AllPositive(options.multipliers)
    ensures r == ExportBlocks(toHalf, options, weights, O, I, blockCount)
  {
    hide ChooseBlock, BlockRegion, HeaderV1, OffsetWord, ExportBlocks, AllPositive;
    var headers := new uint32[blockCount](_ => 0);
    var offsets := new uint32[blockCount](_ => 0);
    var words: seq<uint32> := [];
    var currentOffset := 0;
    NoBlocks(toHalf, options, weights, O, I);
    for k := 0 to blockCount
      invariant currentOffset == PAYLOAD_BYTES * k
      invariant ExportBlocks(toHalf, options, weights, O, I, k) == Ok(Tables(headers[..k], offsets[..k], words))
    {
      NextBlock(toHalf, options, weights, O, I, k);
      var block := ChooseBlock(options, BlockRegion(weights, O, I, k));
      var word := OffsetWord(currentOffset, block.mode);
      if word >= UINT32_LIMIT {
        BlockOverflow(toHalf, options, weights, O, I, k + 1, blockCount);
        return Err(PayloadOffsetOverflow);
      }
      ghost var h, o := headers[..k], offsets[..k];
      headers[k] := HeaderV1(toHalf, block);
      offsets[k] := word;
      assert headers[..k + 1] == h + [HeaderV1(toHalf, block)];
      assert offsets[..k + 1] == o + [word];
      words := words + block.fit.payload;
      currentOffset := currentOffset + PAYLOAD_BYTES;
    }
    r := Ok(Tables(headers[..], offsets[..], words));
    assert headers[..] == headers[..blockCount] && offsets[..] == offsets[..blockCount];
  }

  /** The container: headers, offset words, payloads. */
  method WriteV1(toHalf: HalfEncoder, options: Options, weights: Grid, O: nat, I: nat)
    returns (r: Result<seq<byte>, ExportV1Error>)
    requires AllPositive(options.multipliers)
    ensures r == ExportV1(toHalf, options, weights, O, I)
  {
    hide WordsBytes, ExportBlocks, CeilDiv64;
    var tilesY, tilesX := CeilDiv64(O), CeilDiv64(I);
    var tables := WriteBlocks(toHalf, options, weights, O, I, tilesY * tilesX);
    if tables.Err? { return Err(tables.error); }
    r := Ok(WordsBytes(tables.value.headers) + WordsBytes(tables.value.offsets) + WordsBytes(tables.value.words));
  }

  lemma NoBlocks(toHalf: HalfEncoder, options: Options, weights: Grid, O: nat, I: nat)
    requires AllPositive(options.multipliers)
    ensures ExportBlocks(toHalf, options, weights, O, I, 0) == Ok(Tables([], [], []))
  {
  }

  lemma NextBlock(toHalf: HalfEncoder, options: Options, weights: Grid, O: nat, I: nat, k: nat)
    requires AllPositive(options.multipliers) && ExportBlocks(toHalf, options, weights, O, I, k).Ok?
    ensures var before := ExportBlocks(toHalf, options, weights, O, I, k).value;
            var block := ChooseBlock(options, BlockRegion(weights, O, I, k));
            var word := OffsetWord(PAYLOAD_BYTES * k, block.mode);
            ExportBlocks(toHalf, options, weights, O, I, k + 1) ==
              if word >= UINT32_LIMIT then Err(PayloadOffsetOverflow)
              else Ok(Tables(before.headers + [HeaderV1(toHalf, block)], before.offsets + [word],
                             before.words + block.fit.payload))
  {
    hide ChooseBlock, BlockRegion, HeaderV1, OffsetWord;
  }

  /** Once an offset has overflowed the export has failed. */
  lemma {:induction false} BlockOverflow(toHalf: HalfEncoder, options: Options, weights: Grid, O: nat, I: nat, k: nat,
                                         n: nat)
    requires AllPositive(options.multipliers) && k <= n
    requires ExportBlocks(toHalf, options, weights, O, I, k) == Err(PayloadOffsetOverflow)
    ensures ExportBlocks(toHalf, options, weights, O, I, n) == Err(PayloadOffsetOverflow)
    decreases n
  {
    hide ChooseBlock, BlockRegion, HeaderV1, OffsetWord;
    if k < n { BlockOverflow(toHalf, options, weights, O, I, k, n - 1); }
  }

  /** One block: its checks and its codes. */
  method DecodeBlock(blob: seq<byte>, header: uint32, offsetWord: uint32)
    returns (r: Result<DecodedLeaf, FormatV1Error>)
    ensures r == ParseBlock(blob, header, offsetWord)
  {
    hide And, Shr, ClearFlags, WordsAt, HalfFromBits, CodesOf;
    var flags, start := And(offsetWord, 0xF), ClearFlags(offsetWord);
    if And(flags, 0xC) != 0 { return Err(ReservedOffsetFlags); }
    if start % ALIGNMENT != 0 { return Err(MisalignedPayload); }
    if start + PAYLOAD_BYTES > |blob| { return Err(PayloadOutOfRange); }
    LowMask(flags, 1, 2);
    var mode := ModeOf(And(flags, 0x1));
    var words := WordsAt(blob, start, PAYLOAD_U32);
    if mode.T158_AFFINE? && exists j :: T158_RESERVED_WORD_START <= j < PAYLOAD_U32 && words[j] != 0 {
      return Err(NonzeroReservedTail);
    }
    var codes := DecodeCodes(words, mode, 4096);
    r := Ok(DecodedLeaf(MACROBLOCK, HalfFromBits(Shr(header, 16)), HalfFromBits(And(header, 0xFFFF)), codes[..]));
  }

  /** A whole macroblock as one tile. */
  method WriteBlock(leaf: DecodedLeaf, out: array2<Float>, top: nat, left: nat)
    requires leaf.sq == MACROBLOCK && |leaf.codes| == 4096
    requires top + 64 <= out.Length0 && left + 64 <= out.Length1
    modifies out
    ensures BlockWritten(out, top, left, [leaf])
    ensures OutsideUnchanged(out, top, left)
  {
    hide CellOfBlock, Affine, CodeIndex, WellFormed;
    OneLeafWellFormed(leaf);
    OneLeafCells(leaf);
    WriteTile(out, top, left, leaf);
    forall row, col | 0 <= row < 64 && 0 <= col < 64
      ensures out[top + row, left + col] == CellOfBlock([leaf], row, col)
    {
      assert Contains(Square(top, left, 64), top + row, left + col);
      ShiftedIndex(top, left, row, col);
    }
  }

  /** Writing block k adds its cells and leaves the earlier blocks alone. */
  method PlaceBlock(leaf: DecodedLeaf, out: array2<Float>, tilesY: nat, tilesX: nat, k: nat,
                    ghost done: seq<seq<DecodedLeaf>>)
    requires leaf.sq == MACROBLOCK && |leaf.codes| == 4096
    requires out.Length0 == 64 * tilesY && out.Length1 == 64 * tilesX && |done| == k < tilesY * tilesX
    requires BlocksWritten(out, tilesY, tilesX, done)
    modifies out
    ensures BlocksWritten(out, tilesY, tilesX, done + [[leaf]])
  {
    hide WellFormed, CellOfBlock, Top, Left;
    BlockInGrid(k, tilesY, tilesX);
    var top, left := BlockOrigin(k, tilesX);
    WriteBlock(leaf, out, top, left);
    ghost var next := done + [[leaf]];
    forall j | 0 <= j <= k
      ensures GridBlockWritten(out, tilesY, tilesX, j, next[j])
    {
      BlockInGrid(j, tilesY, tilesX);
      if j < k {
        BlocksDisjoint(j, k, tilesX);
        assert old(GridBlockWritten(out, tilesY, tilesX, j, done[j]));
      }
    }
  }

  lemma ShiftedIndex(top: nat, left: nat, row: nat, col: nat)
    requires row < 64 && col < 64
    ensures CodeIndex(Square(top, left, 64), top + row, left + col) == CodeIndex(MACROBLOCK, row, col)
  {
  }

  lemma OneLeafCells(leaf: DecodedLeaf)
    requires leaf.sq == MACROBLOCK && |leaf.codes| == 4096 && WellFormed([leaf])
    ensures forall r, c | 0 <= r < 64 && 0 <= c < 64 ::
              CellOfBlock([leaf], r, c) == Affine(leaf.scale, leaf.codes[CodeIndex(MACROBLOCK, r, c)], leaf.bias)
  {
    assert DecodedSquares([leaf]) == [MACROBLOCK];
    forall r, c | 0 <= r < 64 && 0 <= c < 64
      ensures Locate([MACROBLOCK], r, c) == 0
    {
    }
  }

  /** The decoder: reject, or fill the padded output; the result is its O x I corner. */
  method ReadV1(b: seq<byte>, O: nat, I: nat) returns (r: Result<array2<Float>, FormatV1Error>)
    ensures ParseV1(b, O, I).Err? ==> r == Err(ParseV1(b, O, I).error)
    ensures ParseV1(b, O, I).Ok? ==>
              && r.Ok? && r.value.Length0 == 64 * CeilDiv64(O) && r.value.Length1 == 64 * CeilDiv64(I)
              && |ParseV1(b, O, I).value| == CeilDiv64(O) * CeilDiv64(I)
              && (forall k :: 0 <= k < |ParseV1(b, O, I).value| ==> WellFormed(ParseV1(b, O, I).value[k]))
              && forall row, col | 0 <= row < O && 0 <= col < I ::
                   r.value[row, col] == Cell(ParseV1(b, O, I).value, O, I, row, col)
  {
    hide ParseBlock, ParseBlocks, WordsAt, BlocksWritten, WellFormed, CellOfBlock, CeilDiv64, BlockIndex;
    var tilesY, tilesX := CeilDiv64(O), CeilDiv64(I);
    var blockCount := tilesY * tilesX;
    if |b| != blockCount * (2 * UINT32_BYTES + PAYLOAD_BYTES) { return Err(WrongLength); }
    var headers := WordsAt(b, 0, blockCount);
    var offsets := WordsAt(b, 4 * blockCount, blockCount);
    var blob := b[blockCount * 2 * UINT32_BYTES..];

    ghost var whole := ParseBlocks(blob, headers, offsets);
    assert ParseV1(b, O, I) == whole;
    var out := new Float[64 * tilesY, 64 * tilesX]((i, j) => Finite(0.0));
    NothingWritten(out, tilesY, tilesX);
    ghost var done: seq<seq<DecodedLeaf>> := [];
    assert headers[0..] == headers && offsets[0..] == offsets;
    assert whole.Ok? ==> [] + whole.value == whole.value;
    for k := 0 to blockCount
      invariant |done| == k
      invariant RemainingBlocks(whole, done, ParseBlocks(blob, headers[k..], offsets[k..]))
      invariant BlocksWritten(out, tilesY, tilesX, done)
    {
      UnfoldBlocks(blob, headers[k..], offsets[k..]);
      assert headers[k..][1..] == headers[k + 1..] && offsets[k..][1..] == offsets[k + 1..];
      var read := DecodeBlock(blob, headers[k], offsets[k]);
      if read.Err? { return Err(read.error); }
      var leaf := read.value;
      BlockShape(blob, headers[k], offsets[k]);
      PlaceBlock(leaf, out, tilesY, tilesX, k, done);
      ghost var rest := ParseBlocks(blob, headers[k + 1..], offsets[k + 1..]);
      assert rest.Ok? ==> done + ([[leaf]] + rest.value) == done + [[leaf]] + rest.value;
      done := done + [[leaf]];
    }
    UnfoldBlocks(blob, headers[blockCount..], offsets[blockCount..]);
    assert done + [] == done;
    ParsedBlocksWellFormed(blob, headers, offsets);
    forall row, col | 0 <= row < O && 0 <= col < I
      ensures out[row, col] == Cell(whole.value, O, I, row, col)
    {
      WrittenCell(out, whole.value, O, I, row, col);
    }
    r := Ok(out);
  }

  lemma BlockShape(blob: seq<byte>, header: uint32, offsetWord: uint32)
    requires ParseBlock(blob, header, offsetWord).Ok?
    ensures ParseBlock(blob, header, offsetWord).value.sq == MACROBLOCK
    ensures |ParseBlock(blob, header, offsetWord).value.codes| == 4096
  {
    hide And, Shr, ClearFlags, WordsAt, HalfFromBits;
  }

  ghost predicate RemainingBlocks(whole: Result<seq<seq<DecodedLeaf>>, FormatV1Error>, done: seq<seq<DecodedLeaf>>,
                                  rest: Result<seq<seq<DecodedLeaf>>, FormatV1Error>) {
    whole == if rest.Err? then rest else Ok(done + rest.value)
  }

  lemma UnfoldBlocks(blob: seq<byte>, headers: seq<uint32>, offsets: seq<uint32>)
    requires |headers| == |offsets|
    ensures |headers| == 0 ==> ParseBlocks(blob, headers, offsets) == Ok([])
    ensures |headers| > 0 ==>
              var first := ParseBlock(blob, headers[0], offsets[0]);
              if first.Err? then ParseBlocks(blob, headers, offsets) == Err(first.error)
              else
                var rest := ParseBlocks(blob, headers[1..], offsets[1..]);
                ParseBlocks(blob, headers, offsets) == if rest.Err? then rest else Ok([[first.value]] + rest.value)
  {
    hide ParseBlock;
  }
}
