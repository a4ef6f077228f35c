/** The SGFP4 v1 fixed-payload container: exporter, reference decoder, and their round trip. */
module CodecV1 {
  import opened Bits
  import opened Format
  import opened Basics
  import opened Codes
  import opened Fit
  import opened Half
  import opened Headers
  import opened Quadtree
  import opened DecoderV2
  import opened QuadtreeEncoder
  import opened CodecV2
  import RoundTripV2

  // --------------------------------------------------------------- exporting

  /** Exporter options; the square root of the error comparison is a parameter. */
  datatype Options = Options(preferTernary: bool, ternaryDelta: real, multipliers: seq<real>, sqrt: real -> real)

  datatype Block = Block(mode: CodeMode, fit: FitResult)

  datatype ExportV1Error = PayloadOffsetOverflow

  datatype FormatV1Error =
    | WrongLength | ReservedOffsetFlags | MisalignedPayload | PayloadOutOfRange | NonzeroReservedTail

  function L2Error(options: Options, mode: CodeMode, region: seq<real>, fit: FitResult): real
    requires |region| > 0
  {
    options.sqrt(Mse(region, QuantizedCodes(mode, region, fit.scale, fit.bias), fit.scale, fit.bias))
  }

  /** Ternary only when preferred and within the allowed error ratio. */
  function ChooseBlock(options: Options, region: seq<real>): Block
    requires |region| > 0 && AllPositive(options.multipliers)
  {
    var fp4, t158 := EncodeFp4(region, options.multipliers, PAYLOAD_U32), EncodeT158(region, PAYLOAD_U32);
    if options.preferTernary
       && L2Error(options, T158_AFFINE, region, t158)
          <= (1.0 + options.ternaryDelta) * L2Error(options, FP4_AFFINE, region, fp4)
    then Block(T158_AFFINE, t158) else Block(FP4_AFFINE, fp4)
  }

  function BlockRegion(weights: Grid, O: nat, I: nat, k: nat): (r: seq<real>)
    ensures |r| == 4096
  {
    Region(Superblock(weights, O, I, k), MACROBLOCK)
  }

  /** offset & ~0xF */
  function ClearFlags(offset: nat): nat {
    Shl(Shr(offset, 4), 4)
  }

  /** (current_offset & ~0xF) | (mode & 0xF) */
  function OffsetWord(offset: nat, mode: CodeMode): nat {
    Or(ClearFlags(offset), And(ModeValue(mode), 0xF))
  }

  function HeaderV1(toHalf: HalfEncoder, block: Block): uint32 {
    PackHalf2(toHalf(ClipHalf(block.fit.scale)), toHalf(ClipHalf(block.fit.bias)))
  }

  datatype Tables = Tables(headers: seq<uint32>, offsets: seq<uint32>, words: seq<uint32>)

  /** Headers, offset words and payload words of the first k blocks. */
  function ExportBlocks(toHalf: HalfEncoder, options: Options, weights: Grid, O: nat, I: nat, k: nat)
    : Result<Tables, ExportV1Error>
    requires AllPositive(options.multipliers)
  {
    if k == 0 then Ok(Tables([], [], []))
    else
      var before := ExportBlocks(toHalf, options, weights, O, I, k - 1);
      if before.Err? then before
      else
        var block := ChooseBlock(options, BlockRegion(weights, O, I, k - 1));
        var word := OffsetWord(PAYLOAD_BYTES * (k - 1), block.mode);
        if word >= UINT32_LIMIT then Err(PayloadOffsetOverflow)
        else Ok(Tables(before.value.headers + [HeaderV1(toHalf, block)], before.value.offsets + [word],
                       before.value.words + block.fit.payload))
  }

  function ExportV1(toHalf: HalfEncoder, options: Options, weights: Grid, O: nat, I: nat)
    : Result<seq<byte>, ExportV1Error>
    requires AllPositive(options.multipliers)
  {
    var tables := ExportBlocks(toHalf, options, weights, O, I, CeilDiv64(O) * CeilDiv64(I));
    if tables.Err? then Err(tables.error)
    else Ok(WordsBytes(tables.value.headers) + WordsBytes(tables.value.offsets) + WordsBytes(tables.value.words))
  }

  // ---------------------------------------------------------------- decoding

  /** One decoded block, as a record of a single 64x64 leaf. */
  function ParseBlock(blob: seq<byte>, header: uint32, offsetWord: uint32): Result<DecodedLeaf, FormatV1Error> {
    var flags, start := And(offsetWord, 0xF), ClearFlags(offsetWord);
    if And(flags, 0xC) != 0 then Err(ReservedOffsetFlags)
    else if start % ALIGNMENT != 0 then Err(MisalignedPayload)
    else if start + PAYLOAD_BYTES > |blob| then Err(PayloadOutOfRange)
    else
      LowMask(flags, 1, 2);
      var mode := ModeOf(And(flags, 0x1));
      var words := WordsAt(blob, start, PAYLOAD_U32);
      if mode.T158_AFFINE? && exists j :: T158_RESERVED_WORD_START <= j < PAYLOAD_U32 && words[j] != 0
      then Err(NonzeroReservedTail)
      else Ok(DecodedLeaf(MACROBLOCK, HalfFromBits(Shr(header, 16)), HalfFromBits(And(header, 0xFFFF)),
                          CodesOf(words, mode, 4096)))
  }

  function ParseBlocks(blob: seq<byte>, headers: seq<uint32>, offsets: seq<uint32>)
    : Result<seq<seq<DecodedLeaf>>, FormatV1Error>
    requires |headers| == |offsets|
    decreases |headers|
  {
    if |headers| == 0 then Ok([])
    else
      var first := ParseBlock(blob, headers[0], offsets[0]);
      if first.Err? then Err(first.error)
      else
        var rest := ParseBlocks(blob, headers[1..], offsets[1..]);
        if rest.Err? then rest else Ok([[first.value]] + rest.value)
  }

  function ParseV1(b: seq<byte>, O: nat, I: nat): Result<seq<seq<DecodedLeaf>>, FormatV1Error> {
    var B := CeilDiv64(O) * CeilDiv64(I);
    if |b| != B * (2 * UINT32_BYTES + PAYLOAD_BYTES) then Err(WrongLength)
    else ParseBlocks(b[B * 2 * UINT32_BYTES..], WordsAt(b, 0, B), WordsAt(b, 4 * B, B))
  }

  /** A single macroblock-sized leaf tiles the macroblock. */
  lemma OneLeafWellFormed(leaf: DecodedLeaf)
    requires leaf.sq == MACROBLOCK && |leaf.codes| == 4096
    ensures WellFormed([leaf])
  {
    assert DecodedSquares([leaf]) == [MACROBLOCK];
    LeavesTile(Single, MACROBLOCK);
  }

  lemma {:induction false} ParsedBlocksWellFormed(blob: seq<byte>, headers: seq<uint32>, offsets: seq<uint32>)
    requires |headers| == |offsets| && ParseBlocks(blob, headers, offsets).Ok?
    ensures |ParseBlocks(blob, headers, offsets).value| == |headers|
    ensures forall k :: 0 <= k < |headers| ==> WellFormed(ParseBlocks(blob, headers, offsets).value[k])
    decreases |headers|
  {
    hide WellFormed, CodesOf, HalfFromBits, WordsAt;
    if |headers| > 0 {
      OneLeafWellFormed(ParseBlock(blob, headers[0], offsets[0]).value);
      hide ParseBlock;
      ParsedBlocksWellFormed(blob, headers[1..], offsets[1..]);
    }
  }

  // -------------------------------------------------------------- round trip

  lemma OffsetWordValue(offset: nat, mode: CodeMode)
    requires offset % 16 == 0
    ensures OffsetWord(offset, mode) == offset + ModeValue(mode)
    ensures ClearFlags(OffsetWord(offset, mode)) == offset
    ensures And(OffsetWord(offset, mode), 0xF) == ModeValue(mode)
  {
    Powers();
    LowMask(offset, 4, 0x10);
    ShlScales(offset / 16, 4);
    SmallMode(mode);
    hide And, Or;
    FlagsFit(offset, ModeValue(mode));
    LowMask(offset + ModeValue(mode), 4, 0x10);
    assert (offset + ModeValue(mode)) / 16 == offset / 16 && (offset + ModeValue(mode)) % 16 == ModeValue(mode);
  }

  lemma SmallMode(mode: CodeMode)
    ensures And(ModeValue(mode), 0xF) == ModeValue(mode) && And(ModeValue(mode), 0xC) == 0
    ensures And(ModeValue(mode), 0x1) == ModeValue(mode)
  {
  }

  /** The export fails exactly when a payload offset does not fit in 32 bits: beyond 2^21 blocks. */
  lemma {:induction false} ExportBlocksFit(toHalf: HalfEncoder, options: Options, weights: Grid, O: nat, I: nat, k: nat)
    requires AllPositive(options.multipliers)
    ensures ExportBlocks(toHalf, options, weights, O, I, k).Ok? <==> k <= 0x20_0000
    ensures ExportBlocks(toHalf, options, weights, O, I, k).Ok? ==>
              var t := ExportBlocks(toHalf, options, weights, O, I, k).value;
              |t.headers| == k && |t.offsets| == k && |t.words| == PAYLOAD_U32 * k
    decreases k
  {
    hide ChooseBlock, BlockRegion, HeaderV1, OffsetWord;
    if k > 0 {
      ExportBlocksFit(toHalf, options, weights, O, I, k - 1);
      var block := ChooseBlock(options, BlockRegion(weights, O, I, k - 1));
      assert PAYLOAD_BYTES * (k - 1) % 16 == 0;
      OffsetWordValue(PAYLOAD_BYTES * (k - 1), block.mode);
      ChosenBlock(options, BlockRegion(weights, O, I, k - 1));
    }
  }

  lemma ChosenBlock(options: Options, region: seq<real>)
    requires |region| > 0 && AllPositive(options.multipliers)
    ensures var block := ChooseBlock(options, region);
            && |block.fit.payload| == PAYLOAD_U32
            && block.fit.payload == Payload(block.mode,
                                            QuantizedCodes(block.mode, region, block.fit.scale, block.fit.bias),
                                            PAYLOAD_U32)
  {
    hide L2Error, QuantizedCodes, Mean, FitAffineScale, FitTernaryScale, Payload;
  }

  /** What block number k decodes to. */
  function DecodedBlock(toHalf: HalfEncoder, options: Options, weights: Grid, O: nat, I: nat, k: nat): DecodedLeaf
    requires AllPositive(options.multipliers)
  {
    var region := BlockRegion(weights, O, I, k);
    var block := ChooseBlock(options, region);
    DecodedLeaf(MACROBLOCK, HalfFromBits(toHalf(ClipHalf(block.fit.scale))),
                HalfFromBits(toHalf(ClipHalf(block.fit.bias))),
                QuantizedCodes(block.mode, region, block.fit.scale, block.fit.bias))
  }

  /** What blocks number lo to hi - 1 decode to. */
  function DecodedBlocks(toHalf: HalfEncoder, options: Options, weights: Grid, O: nat, I: nat, lo: nat, hi: nat)
    : (r: seq<seq<DecodedLeaf>>)
    requires AllPositive(options.multipliers) && lo <= hi
    ensures |r| == hi - lo
  {
    seq(hi - lo, j requires 0 <= j < hi - lo => [DecodedBlock(toHalf, options, weights, O, I, lo + j)])
  }

  /** Table entries of block j among those of the first k. */
  lemma {:induction false} TableEntries(toHalf: HalfEncoder, options: Options, weights: Grid, O: nat, I: nat, k: nat,
                                        j: nat)
    requires AllPositive(options.multipliers) && j < k <= 0x20_0000
    ensures ExportBlocks(toHalf, options, weights, O, I, k).Ok?
    ensures var t := ExportBlocks(toHalf, options, weights, O, I, k).value;
            var block := ChooseBlock(options, BlockRegion(weights, O, I, j));
            && |t.headers| == k && |t.offsets| == k && |t.words| == PAYLOAD_U32 * k
            && t.headers[j] == HeaderV1(toHalf, block)
            && t.offsets[j] == OffsetWord(PAYLOAD_BYTES * j, block.mode)
            && PAYLOAD_U32 * j + PAYLOAD_U32 <= |t.words|
            && t.words[PAYLOAD_U32 * j..PAYLOAD_U32 * j + PAYLOAD_U32] == block.fit.payload
    decreases k
  {
    hide ChooseBlock, BlockRegion, HeaderV1, OffsetWord;
    ExportBlocksFit(toHalf, options, weights, O, I, k);
    ExportBlocksFit(toHalf, options, weights, O, I, k - 1);
    var t := ExportBlocks(toHalf, options, weights, O, I, k).value;
    var before := ExportBlocks(toHalf, options, weights, O, I, k - 1).value;
    ChosenBlock(options, BlockRegion(weights, O, I, k - 1));
    if j < k - 1 {
      TableEntries(toHalf, options, weights, O, I, k - 1, j);
      assert t.words[PAYLOAD_U32 * j..PAYLOAD_U32 * j + PAYLOAD_U32]
             == before.words[PAYLOAD_U32 * j..PAYLOAD_U32 * j + PAYLOAD_U32];
    }
  }

  /** The payload of block number k, where the decoder looks for it, with a clear reserved tail. */
  lemma PayloadFound(mode: CodeMode, codes: seq<int>, payload: seq<uint32>, blob: seq<byte>, k: nat)
    requires |codes| == 4096 && AreCodes(mode, codes) && payload == Payload(mode, codes, PAYLOAD_U32)
    requires At(blob, PAYLOAD_BYTES * k, WordsBytes(payload))
    ensures PAYLOAD_BYTES * k + PAYLOAD_BYTES <= |blob| && WordsAt(blob, PAYLOAD_BYTES * k, PAYLOAD_U32) == payload
    ensures mode.T158_AFFINE? ==> forall j :: T158_RESERVED_WORD_START <= j < PAYLOAD_U32 ==> payload[j] == 0
    ensures CodesOf(payload, mode, 4096) == codes
  {
    hide CodesOf, Payload, WordsBytes, At, WordsAt;
    var start := PAYLOAD_BYTES * k;
    AtBounds(blob, start, WordsBytes(payload));
    AtWords(blob, start, payload);
    if mode.T158_AFFINE? {
      forall j | T158_RESERVED_WORD_START <= j < PAYLOAD_U32
        ensures payload[j] == 0
      {
        PayloadTail(mode, codes, PAYLOAD_U32, j);
      }
    }
    CodesRoundTrip(mode, codes, PAYLOAD_U32);
  }

  /** The offset word passes the decoder's checks and yields offset and mode. */
  lemma OffsetAccepted(start: nat, mode: CodeMode)
    requires start % 16 == 0 && start < UINT32_LIMIT
    ensures var word := OffsetWord(start, mode);
            && word < UINT32_LIMIT && ClearFlags(word) == start && And(And(word, 0xF), 0xC) == 0
            && And(And(word, 0xF), 0x1) == ModeValue(mode) < 2 && ModeOf(ModeValue(mode)) == mode
  {
    hide And, OffsetWord, ClearFlags;
    OffsetWordValue(start, mode);
    SmallMode(mode);
  }

  lemma AlignedBlock(k: nat)
    ensures PAYLOAD_BYTES * k % 16 == 0
  {
    assert PAYLOAD_BYTES * k == 16 * (128 * k);
  }

  /** A block of the exported stream decodes without error. */
  lemma BlockRoundTrip(toHalf: HalfEncoder, block: Block, codes: seq<int>, blob: seq<byte>, k: nat)
    requires |codes| == 4096 && AreCodes(block.mode, codes)
    requires block.fit.payload == Payload(block.mode, codes, PAYLOAD_U32)
    requires PAYLOAD_BYTES * k < UINT32_LIMIT && At(blob, PAYLOAD_BYTES * k, WordsBytes(block.fit.payload))
    ensures OffsetWord(PAYLOAD_BYTES * k, block.mode) < UINT32_LIMIT
    ensures ParseBlock(blob, HeaderV1(toHalf, block), OffsetWord(PAYLOAD_BYTES * k, block.mode))
            == Ok(DecodedLeaf(MACROBLOCK, HalfFromBits(toHalf(ClipHalf(block.fit.scale))),
                              HalfFromBits(toHalf(ClipHalf(block.fit.bias))), codes))
  {
    hide And, Shr, PackHalf2, OffsetWord, ClearFlags, HalfFromBits, CodesOf, Payload, WordsBytes, At, WordsAt, ModeOf,
         ModeValue, AreCodes, ClipHalf;
    AlignedBlock(k);
    OffsetAccepted(PAYLOAD_BYTES * k, block.mode);
    PayloadFound(block.mode, codes, block.fit.payload, blob, k);
    PackedFields(toHalf(ClipHalf(block.fit.scale)), toHalf(ClipHalf(block.fit.bias)));
  }

  lemma {:induction false} BlocksRoundTrip(toHalf: HalfEncoder, options: Options, weights: Grid, O: nat, I: nat,
                                           n: nat, k: nat, blob: seq<byte>)
    requires AllPositive(options.multipliers) && k <= n <= 0x20_0000
    requires ExportBlocks(toHalf, options, weights, O, I, n).Ok?
    requires blob == WordsBytes(ExportBlocks(toHalf, options, weights, O, I, n).value.words)
    ensures var t := ExportBlocks(toHalf, options, weights, O, I, n).value;
            && |t.headers| == n && |t.offsets| == n
            && ParseBlocks(blob, t.headers[k..], t.offsets[k..])
               == Ok(DecodedBlocks(toHalf, options, weights, O, I, k, n))
    decreases n - k
  {
    hide ExportBlocks, ChooseBlock, BlockRegion, HeaderV1, OffsetWord, ParseBlock, DecodedBlock, WordsBytes;
    ExportBlocksFit(toHalf, options, weights, O, I, n);
    var t := ExportBlocks(toHalf, options, weights, O, I, n).value;
    if k < n {
      BlocksRoundTrip(toHalf, options, weights, O, I, n, k + 1, blob);
      TableEntries(toHalf, options, weights, O, I, n, k);
      var block := ChooseBlock(options, BlockRegion(weights, O, I, k));
      PayloadInBlob(t.words, block.fit.payload, k, blob);
      BlockOfExport(toHalf, options, weights, O, I, k, blob);
      assert t.headers[k..][1..] == t.headers[k + 1..] && t.offsets[k..][1..] == t.offsets[k + 1..];
      assert DecodedBlocks(toHalf, options, weights, O, I, k, n) ==
             [[DecodedBlock(toHalf, options, weights, O, I, k)]]
             + DecodedBlocks(toHalf, options, weights, O, I, k + 1, n);
    }
  }

  lemma BlockOfExport(toHalf: HalfEncoder, options: Options, weights: Grid, O: nat, I: nat, k: nat, blob: seq<byte>)
    requires AllPositive(options.multipliers) && k < 0x20_0000
    requires At(blob, PAYLOAD_BYTES * k, WordsBytes(ChooseBlock(options, BlockRegion(weights, O, I, k)).fit.payload))
    ensures var block := ChooseBlock(options, BlockRegion(weights, O, I, k));
            && OffsetWord(PAYLOAD_BYTES * k, block.mode) < UINT32_LIMIT
            && ParseBlock(blob, HeaderV1(toHalf, block), OffsetWord(PAYLOAD_BYTES * k, block.mode))
               == Ok(DecodedBlock(toHalf, options, weights, O, I, k))
  {
    hide ParseBlock, HeaderV1, OffsetWord, At, WordsBytes, QuantizedCodes, ChooseBlock, BlockRegion, HalfFromBits;
    var region := BlockRegion(weights, O, I, k);
    var block := ChooseBlock(options, region);
    ChosenBlock(options, region);
    BlockRoundTrip(toHalf, block, QuantizedCodes(block.mode, region, block.fit.scale, block.fit.bias), blob, k);
  }

  lemma PayloadInBlob(words: seq<uint32>, payload: seq<uint32>, k: nat, blob: seq<byte>)
    requires blob == WordsBytes(words) && |payload| == PAYLOAD_U32 && PAYLOAD_U32 * k + PAYLOAD_U32 <= |words|
    requires words[PAYLOAD_U32 * k..PAYLOAD_U32 * k + PAYLOAD_U32] == payload
    ensures At(blob, PAYLOAD_BYTES * k, WordsBytes(payload))
  {
    hide LE32;
    var lo := PAYLOAD_BYTES * k;
    forall i | 0 <= i < PAYLOAD_BYTES
      ensures blob[lo + i] == WordsBytes(payload)[i]
    {
      assert (lo + i) / 4 == PAYLOAD_U32 * k + i / 4 && (lo + i) % 4 == i % 4;
      assert words[PAYLOAD_U32 * k + i / 4] == payload[i / 4];
    }
  }

  /** The decoder accepts every exported v1 stream and finds every block. */
  lemma StreamRoundTripV1(toHalf: HalfEncoder, options: Options, weights: Grid, O: nat, I: nat)
    requires AllPositive(options.multipliers)
    ensures ExportV1(toHalf, options, weights, O, I).Ok? <==> CeilDiv64(O) * CeilDiv64(I) <= 0x20_0000
    ensures ExportV1(toHalf, options, weights, O, I).Ok? ==>
              var B := CeilDiv64(O) * CeilDiv64(I);
              ParseV1(ExportV1(toHalf, options, weights, O, I).value, O, I)
              == Ok(DecodedBlocks(toHalf, options, weights, O, I, 0, B))
  {
    hide ExportBlocks, ParseBlocks, DecodedBlock, CeilDiv64, WordsBytes, At, WordsAt;
    var B := CeilDiv64(O) * CeilDiv64(I);
    ExportBlocksFit(toHalf, options, weights, O, I, B);
    if ExportV1(toHalf, options, weights, O, I).Ok? {
      var t := ExportBlocks(toHalf, options, weights, O, I, B).value;
      var h, o, blob := WordsBytes(t.headers), WordsBytes(t.offsets), WordsBytes(t.words);
      var b := h + o + blob;
      RoundTripV2.AtWhole(b);
      AtSplit(b, 0, h + o, blob);
      AtSplit(b, 0, h, o);
      AtWords(b, 0, t.headers);
      AtWords(b, 4 * B, t.offsets);
      assert b[B * 2 * UINT32_BYTES..] == blob;
      BlocksRoundTrip(toHalf, options, weights, O, I, B, 0, blob);
      assert t.headers[0..] == t.headers && t.offsets[0..] == t.offsets;
    }
  }

  /** The v1 codec end to end: every cell decodes to its weight's code under its block's
      half-precision scale and full half-precision bias. */
  lemma DecodeUndoesExportV1(toHalf: HalfEncoder, options: Options, weights: Grid, O: nat, I: nat, r: nat, c: nat)
    requires AllPositive(options.multipliers) && CeilDiv64(O) * CeilDiv64(I) <= 0x20_0000 && r < O && c < I
    ensures ExportV1(toHalf, options, weights, O, I).Ok?
    ensures var parsed := ParseV1(ExportV1(toHalf, options, weights, O, I).value, O, I);
            && parsed.Ok? && |parsed.value| == CeilDiv64(O) * CeilDiv64(I)
            && (forall k :: 0 <= k < |parsed.value| ==> WellFormed(parsed.value[k]))
            && var block := ChooseBlock(options, BlockRegion(weights, O, I, BlockIndex(O, I, r, c)));
               Cell(parsed.value, O, I, r, c)
               == Affine(HalfFromBits(toHalf(ClipHalf(block.fit.scale))),
                         CodeOf(block.mode, weights(r, c), block.fit.scale, block.fit.bias),
                         HalfFromBits(toHalf(ClipHalf(block.fit.bias))))
  {
    var k, B := BlockIndex(O, I, r, c), CeilDiv64(O) * CeilDiv64(I);
    hide ParseV1, ExportV1, DecodedBlock, ChooseBlock, WellFormed, CellOfBlock, BlockIndex, CeilDiv64, Affine,
         HalfFromBits, CodeOf, BlockRegion;
    StreamRoundTripV1(toHalf, options, weights, O, I);
    var records := ParseV1(ExportV1(toHalf, options, weights, O, I).value, O, I).value;
    forall j | 0 <= j < |records|
      ensures WellFormed(records[j])
    {
      DecodedBlockShape(toHalf, options, weights, O, I, j);
      OneLeafWellFormed(DecodedBlock(toHalf, options, weights, O, I, j));
    }
    BlockCellV1(toHalf, options, weights, O, I, k, r % 64, c % 64);
    SuperblockAt(weights, O, I, r, c);
  }

  lemma DecodedBlockShape(toHalf: HalfEncoder, options: Options, weights: Grid, O: nat, I: nat, k: nat)
    requires AllPositive(options.multipliers)
    ensures DecodedBlock(toHalf, options, weights, O, I, k).sq == MACROBLOCK
    ensures |DecodedBlock(toHalf, options, weights, O, I, k).codes| == 4096
  {
  }

  lemma BlockCellV1(toHalf: HalfEncoder, options: Options, weights: Grid, O: nat, I: nat, k: nat, r: nat, c: nat)
    requires AllPositive(options.multipliers) && r < 64 && c < 64
    ensures WellFormed([DecodedBlock(toHalf, options, weights, O, I, k)])
    ensures var block := ChooseBlock(options, BlockRegion(weights, O, I, k));
            CellOfBlock([DecodedBlock(toHalf, options, weights, O, I, k)], r, c)
            == Affine(HalfFromBits(toHalf(ClipHalf(block.fit.scale))),
                      CodeOf(block.mode, Superblock(weights, O, I, k)(r, c), block.fit.scale, block.fit.bias),
                      HalfFromBits(toHalf(ClipHalf(block.fit.bias))))
  {
    var leaf := DecodedBlock(toHalf, options, weights, O, I, k);
    OneLeafWellFormed(leaf);
    RegionAt(Superblock(weights, O, I, k), MACROBLOCK, r, c);
    assert DecodedSquares([leaf]) == [MACROBLOCK];
    hide ChooseBlock, Affine, HalfFromBits, CodeOf, WellFormed, Region, Superblock, CodeIndex;
    assert Locate([MACROBLOCK], r, c) == 0;
  }

  // ------------------------------------------------- what the stream stands for

  /** Ternary exactly when it is preferred and its root mean squared error is within the allowed ratio. */
  lemma ChooseBlockIs(options: Options, region: seq<real>)
    requires |region| > 0 && AllPositive(options.multipliers)
    ensures var block := ChooseBlock(options, region);
            var fp4, ternary := EncodeFp4(region, options.multipliers, 512), EncodeT158(region, 512);
            var fp4Codes := QuantizedCodes(FP4_AFFINE, region, fp4.scale, fp4.bias);
            var ternaryCodes := QuantizedCodes(T158_AFFINE, region, ternary.scale, ternary.bias);
            && (block.mode == T158_AFFINE <==>
                  && options.preferTernary
                  && options.sqrt(Mse(region, ternaryCodes, ternary.scale, ternary.bias))
                     <= (1.0 + options.ternaryDelta) * options.sqrt(Mse(region, fp4Codes, fp4.scale, fp4.bias)))
            && block.fit == (if block.mode.T158_AFFINE? then ternary else fp4)
  {
    hide Mse, QuantizedCodes, EncodeFp4, EncodeT158;
  }

  /** Block k of an exported stream of B blocks: its header at 4 * k, its offset word at 4 * B + 4 * k and
      its payload at 8 * B + 2048 * k. */
  ghost predicate BlockLaidOut(toHalf: HalfEncoder, block: Block, stream: seq<byte>, B: nat, k: nat) {
    && k < B && |stream| == 2056 * B
    && U32At(stream, 4 * k) == 0x1_0000 * toHalf(ClipHalf(block.fit.scale)) + toHalf(ClipHalf(block.fit.bias))
    && U32At(stream, 4 * B + 4 * k) == 2048 * k + (if block.mode.T158_AFFINE? then 1 else 0)
    && |block.fit.payload| == 512 && WordsAt(stream, 8 * B + 2048 * k, 512) == block.fit.payload
  }

  lemma LayoutV1(toHalf: HalfEncoder, options: Options, weights: Grid, O: nat, I: nat, stream: seq<byte>, k: nat)
    requires AllPositive(options.multipliers) && ExportV1(toHalf, options, weights, O, I) == Ok(stream)
    requires k < CeilDiv64(O) * CeilDiv64(I)
    ensures BlockLaidOut(toHalf, ChooseBlock(options, BlockRegion(weights, O, I, k)), stream,
                         CeilDiv64(O) * CeilDiv64(I), k)
  {
    hide ExportBlocks, CeilDiv64, WordsBytes, At, WordsAt, U32At, ChooseBlock, BlockRegion, OffsetWord, PackHalf2;
    var B := CeilDiv64(O) * CeilDiv64(I);
    ExportBlocksFit(toHalf, options, weights, O, I, B);
    var t := ExportBlocks(toHalf, options, weights, O, I, B).value;
    TableEntries(toHalf, options, weights, O, I, B, k);
    ChosenBlock(options, BlockRegion(weights, O, I, k));
    AlignedBlock(k);
    var block := ChooseBlock(options, BlockRegion(weights, O, I, k));
    OffsetWordValue(2048 * k, block.mode);
    TablesLaidOut(t, B, k, stream, block.fit.payload);
  }

  lemma TablesLaidOut(t: Tables, B: nat, k: nat, stream: seq<byte>, payload: seq<uint32>)
    requires |t.headers| == B && |t.offsets| == B && |t.words| == 512 * B && k < B && |payload| == 512
    requires stream == WordsBytes(t.headers) + WordsBytes(t.offsets) + WordsBytes(t.words)
    requires 512 * k + 512 <= |t.words| && t.words[512 * k..512 * k + 512] == payload
    ensures |stream| == 2056 * B
    ensures U32At(stream, 4 * k) == t.headers[k] && U32At(stream, 4 * B + 4 * k) == t.offsets[k]
    ensures WordsAt(stream, 8 * B + 2048 * k, 512) == payload
  {
    hide WordsBytes, At, WordsAt, U32At;
    var h, o, blob := WordsBytes(t.headers), WordsBytes(t.offsets), WordsBytes(t.words);
    RoundTripV2.AtWhole(stream);
    AtSplit(stream, 0, h + o, blob);
    AtSplit(stream, 0, h, o);
    AtWordOf(stream, 0, t.headers, k);
    AtWordOf(stream, 4 * B, t.offsets, k);
    AtWords(stream, 8 * B, t.words);
    WordsWithin(stream, 8 * B, 512 * B, 512 * k, 512);
  }

  lemma WordsWithin(b: seq<byte>, pos: nat, count: nat, lo: nat, n: nat)
    requires pos + 4 * count <= |b| && lo + n <= count
    ensures WordsAt(b, pos + 4 * lo, n) == WordsAt(b, pos, count)[lo..lo + n]
  {
    hide U32At;
  }

  /** Words 256 to 511 of the payload are zero. */
  predicate ZeroTail(b: seq<byte>, start: nat)
    requires start + 2048 <= |b|
  {
    forall j :: 256 <= j < 512 ==> U32At(b, start + 4 * j) == 0
  }

  /** Offset word k of a stream names a 16-byte aligned payload inside the blob, its two reserved flags
      are clear, and a ternary payload ends in 256 zero words. */
  ghost predicate AcceptableBlock(b: seq<byte>, B: nat, k: nat) {
    && k < B && |b| == 2056 * B
    && var word := U32At(b, 4 * B + 4 * k);
       && word % 16 < 4 && word - word % 16 + 2048 <= 2048 * B
       && (word % 2 == 1 ==> ZeroTail(b, 8 * B + (word - word % 16)))
  }

  /** What block k of an accepted stream decodes to. */
  ghost function AcceptedBlock(b: seq<byte>, B: nat, k: nat): DecodedLeaf
    requires AcceptableBlock(b, B, k)
  {
    var header, word := U32At(b, 4 * k), U32At(b, 4 * B + 4 * k);
    DecodedLeaf(Square(0, 0, 64), HalfFromBits(header / 0x1_0000), HalfFromBits(header % 0x1_0000),
                CodesOf(WordsAt(b, 8 * B + (word - word % 16), 512),
                        if word % 2 == 1 then T158_AFFINE else FP4_AFFINE, 4096))
  }

  lemma OffsetWordReads(word: nat)
    ensures And(word, 0xF) == word % 16 && ClearFlags(word) == word - word % 16
    ensures And(word % 16, 0xC) == 0 <==> word % 16 < 4
    ensures And(word % 16, 0x1) == word % 2
  {
    Powers();
    LowMask(word, 4, 16);
    HighMask(word % 16, 2, 4, 2, 4, 0xC);
    LowMask(word % 16, 1, 2);
    ShlScales(word / 16, 4);
    hide And, Shr, Shl;
    LowBitOf(word);
  }

  lemma LowBitOf(word: nat)
    ensures word % 16 % 2 == word % 2
  {
  }

  lemma HeaderReads(header: uint32)
    ensures Shr(header, 16) == header / 0x1_0000 && And(header, 0xFFFF) == header % 0x1_0000
  {
    Powers();
    LowMask(header, 16, 0x1_0000);
  }

  /** One block: exactly when it is accepted, and what it decodes to. */
  lemma BlockParses(b: seq<byte>, blob: seq<byte>, B: nat, k: nat)
    requires |b| == 2056 * B && k < B && blob == b[8 * B..]
    ensures ParseBlock(blob, U32At(b, 4 * k), U32At(b, 4 * B + 4 * k)).Ok? <==> AcceptableBlock(b, B, k)
    ensures AcceptableBlock(b, B, k) ==>
              ParseBlock(blob, U32At(b, 4 * k), U32At(b, 4 * B + 4 * k)) == Ok(AcceptedBlock(b, B, k))
  {
    hide And, Shr, U32At, WordsAt, ClearFlags, CodesOf, HalfFromBits, ZeroTail;
    var header, word := U32At(b, 4 * k), U32At(b, 4 * B + 4 * k);
    OffsetWordReads(word);
    HeaderReads(header);
    var start: nat := word - word % 16;
    AlignedStart(word);
    if start + 2048 <= |blob| {
      WordsInBlob(b, blob, 8 * B, start);
    }
  }

  lemma AlignedStart(word: nat)
    ensures (word - word % 16) % 16 == 0
  {
  }

  lemma WordsInBlob(b: seq<byte>, blob: seq<byte>, lo: nat, start: nat)
    requires lo <= |b| && blob == b[lo..] && start + 2048 <= |blob|
    ensures WordsAt(blob, start, 512) == WordsAt(b, lo + start, 512)
    ensures (exists j :: 256 <= j < 512 && WordsAt(blob, start, 512)[j] != 0) <==> !ZeroTail(b, lo + start)
  {
    forall j | 0 <= j < 512
      ensures U32At(blob, start + 4 * j) == U32At(b, lo + start + 4 * j)
    {
    }
    hide U32At;
    var words := WordsAt(blob, start, 512);
    if !ZeroTail(b, lo + start) {
      var j :| 256 <= j < 512 && U32At(b, lo + start + 4 * j) != 0;
      assert words[j] != 0;
    }
  }

  /** Blocks number k and on, read from the tables. */
  lemma {:induction false} BlocksParse(b: seq<byte>, B: nat, k: nat)
    requires |b| == 2056 * B && k <= B
    ensures var r := ParseBlocks(b[8 * B..], WordsAt(b, 0, B)[k..], WordsAt(b, 4 * B, B)[k..]);
            && (r.Ok? <==> forall j :: k <= j < B ==> AcceptableBlock(b, B, j))
            && (r.Ok? ==> |r.value| == B - k && forall j :: k <= j < B ==> r.value[j - k] == [AcceptedBlock(b, B, j)])
    decreases B - k
  {
    hide U32At, ParseBlock, AcceptableBlock, AcceptedBlock;
    if k < B {
      BlocksParse(b, B, k + 1);
      BlockParses(b, b[8 * B..], B, k);
      var headers, offsets := WordsAt(b, 0, B), WordsAt(b, 4 * B, B);
      assert headers[k..][1..] == headers[k + 1..] && offsets[k..][1..] == offsets[k + 1..];
      assert headers[k..][0] == U32At(b, 4 * k) && offsets[k..][0] == U32At(b, 4 * B + 4 * k);
    }
  }

  /** The v1 decoder accepts exactly the streams of the right length with acceptable blocks. */
  lemma AcceptedStreamV1(b: seq<byte>, O: nat, I: nat)
    ensures var B := CeilDiv64(O) * CeilDiv64(I);
            && (ParseV1(b, O, I).Ok? <==> |b| == 2056 * B && forall k :: 0 <= k < B ==> AcceptableBlock(b, B, k))
            && (ParseV1(b, O, I).Ok? ==>
                  && |ParseV1(b, O, I).value| == B
                  && forall k :: 0 <= k < B ==> ParseV1(b, O, I).value[k] == [AcceptedBlock(b, B, k)])
  {
    hide ParseBlocks, AcceptableBlock, AcceptedBlock, CeilDiv64, U32At;
    var B := CeilDiv64(O) * CeilDiv64(I);
    if |b| == 2056 * B {
      BlocksParse(b, B, 0);
      assert WordsAt(b, 0, B)[0..] == WordsAt(b, 0, B) && WordsAt(b, 4 * B, B)[0..] == WordsAt(b, 4 * B, B);
    }
  }

  /** Every cell of an exported tensor is half(scale) times its weight's code plus half(bias). */
  lemma CellInNumbersV1(toHalf: HalfEncoder, options: Options, weights: Grid, O: nat, I: nat, stream: seq<byte>,
                        r: nat, c: nat)
    requires AllPositive(options.multipliers) && ExportV1(toHalf, options, weights, O, I) == Ok(stream)
    requires r < O && c < I
    ensures CellStandsForV1(toHalf, ChooseBlock(options, BlockRegion(weights, O, I, BlockIndex(O, I, r, c))), stream,
                            O, I, r, c, weights(r, c))
  {
    hide ExportV1, ParseV1, ChooseBlock, BlockRegion, BlockIndex, CeilDiv64, HalfFromBits, CodeOf, WellFormed, Cell,
         ClipHalf, Affine, IsLevel;
    StreamRoundTripV1(toHalf, options, weights, O, I);
    DecodeUndoesExportV1(toHalf, options, weights, O, I, r, c);
    var block := ChooseBlock(options, BlockRegion(weights, O, I, BlockIndex(O, I, r, c)));
    var scaleBits, biasBits := toHalf(ClipHalf(block.fit.scale)), toHalf(ClipHalf(block.fit.bias));
    FiniteHalf16(scaleBits);
    FiniteHalf16(biasBits);
    AffineIs(HalfFromBits(scaleBits), CodeOf(block.mode, weights(r, c), block.fit.scale, block.fit.bias),
             HalfFromBits(biasBits));
  }

  lemma FiniteHalf16(bits: FiniteHalf)
    ensures HalfFromBits(bits).Finite?
  {
    TruncationError(bits);
  }

  ghost predicate CellStandsForV1(toHalf: HalfEncoder, block: Block, stream: seq<byte>, O: nat, I: nat,
                                  r: nat, c: nat, w: real) {
    var parsed := ParseV1(stream, O, I);
    var scaleBits, biasBits := toHalf(ClipHalf(block.fit.scale)), toHalf(ClipHalf(block.fit.bias));
    && r < O && c < I && parsed.Ok? && |parsed.value| == CeilDiv64(O) * CeilDiv64(I)
    && (forall k :: 0 <= k < |parsed.value| ==> WellFormed(parsed.value[k]))
    && HalfFromBits(scaleBits).Finite? && HalfFromBits(biasBits).Finite?
    && IsLevel(Cell(parsed.value, O, I, r, c), HalfFromBits(scaleBits).v,
               CodeOf(block.mode, w, block.fit.scale, block.fit.bias), HalfFromBits(biasBits).v)
  }
}
