/** The v2 codec end to end: from a weight matrix through leaf selection and the container bytes to
    the decoded matrix. */
module CodecV2 {
  import opened Format
  import opened Basics
  import opened Codes
  import opened Fit
  import opened Half
  import opened Headers
  import opened Quadtree
  import opened Layouts
  import opened QuadtreeEncoder
  import opened ExporterV2
  import opened DecoderV2
  import opened RoundTripV2

  datatype CodecError = EncodeFailed(e: EncodeError) | ExportFailed(x: ExportError)

  /** The fit callbacks return payloads that hold exactly their own codes. */
  ghost predicate ProperFits(enc: Encoder) {
    forall region :: |region| > 0 ==>
      && Encodes(FP4_AFFINE, enc.fitFp4(region), region, |region| / 8)
      && Encodes(T158_AFFINE, enc.fitT158(region), region, |region| / 16)
  }

  /** The encoder the exporter builds: its own fits with the given candidate multipliers. */
  function StandardEncoder(thresholds: map<nat, Threshold>, ternaryDelta: real, minBlockSize: nat,
                           laplacian: (seq<real>, seq<real>, nat) -> real, multipliers: seq<real>): Encoder
    requires AllPositive(multipliers)
  {
    Encoder(thresholds, ternaryDelta,
            region => if |region| == 0 then FitResult(1.0, 0.0, []) else EncodeFp4(region, multipliers, |region| / 8),
            region => if |region| == 0 then FitResult(1.0, 0.0, []) else EncodeT158(region, |region| / 16),
            laplacian, minBlockSize)
  }

  lemma StandardFitsAreProper(thresholds: map<nat, Threshold>, ternaryDelta: real, minBlockSize: nat,
                              laplacian: (seq<real>, seq<real>, nat) -> real, multipliers: seq<real>)
    requires AllPositive(multipliers)
    ensures ProperFits(StandardEncoder(thresholds, ternaryDelta, minBlockSize, laplacian, multipliers))
  {
    hide QuantizedCodes, FitAffineScale, FitTernaryScale, Payload, Mean;
  }

  /** The standard encoder has the given options, and fits every region it cuts out as Fit does. */
  lemma StandardEncoderIs(thresholds: map<nat, Threshold>, ternaryDelta: real, minBlockSize: nat,
                          laplacian: (seq<real>, seq<real>, nat) -> real, multipliers: seq<real>, region: seq<real>)
    requires AllPositive(multipliers) && |region| > 0
    ensures var enc := StandardEncoder(thresholds, ternaryDelta, minBlockSize, laplacian, multipliers);
            && enc.thresholds == thresholds && enc.ternaryDelta == ternaryDelta
            && enc.minBlockSize == minBlockSize && enc.laplacian == laplacian
            && enc.fitFp4(region) == EncodeFp4(region, multipliers, |region| / 8)
            && enc.fitT158(region) == EncodeT158(region, |region| / 16)
  {
    hide EncodeFp4, EncodeT158;
  }

  // --------------------------------------------------------------- exporting

  /** The zero-padded matrix. */
  function Padded(weights: Grid, O: nat, I: nat): Grid {
    (r: nat, c: nat) => if r < O && c < I then weights(r, c) else 0.0
  }

  /** Macroblock number k of the padded matrix, in the exporter's row-major block order. */
  function Superblock(weights: Grid, O: nat, I: nat, k: nat): Grid {
    if I == 0 then (r: nat, c: nat) => 0.0 else
    (r: nat, c: nat) => Padded(weights, O, I)(64 * (k / CeilDiv64(I)) + r, 64 * (k % CeilDiv64(I)) + c)
  }

  function EncodeBlocks(enc: Encoder, weights: Grid, O: nat, I: nat, k: nat): Result<seq<seq<Leaf>>, CodecError>
    requires k <= CeilDiv64(O) * CeilDiv64(I)
  {
    if k == 0 then Ok([])
    else
      var before := EncodeBlocks(enc, weights, O, I, k - 1);
      if before.Err? then before
      else
        var blocks := Encode(enc, Superblock(weights, O, I, k - 1));
        if blocks.Err? then Err(EncodeFailed(blocks.error)) else Ok(before.value + [blocks.value])
  }

  function ExportTensor(toHalf: HalfEncoder, enc: Encoder, weights: Grid, O: nat, I: nat)
    : Result<seq<byte>, CodecError>
  {
    var superblocks := EncodeBlocks(enc, weights, O, I, CeilDiv64(O) * CeilDiv64(I));
    if superblocks.Err? then Err(superblocks.error)
    else
      var r := Export(toHalf, superblocks.value);
      if r.Err? then Err(ExportFailed(r.error)) else Ok(r.value)
  }

  // ------------------------------------------------- what the decoder returns

  /** The leaf square of cell (r, c) of a macroblock, as the encoder splits it. */
  function LeafSquare(enc: Encoder, sb: Grid, r: nat, c: nat): (sq: Square)
    requires IsLeafSize(enc.minBlockSize) && r < 64 && c < 64
    ensures Contains(sq, r, c)
  {
    TryBlockFollowsTree(enc, sb, MACROBLOCK);
    LeavesTile(ChosenTree(enc, sb, MACROBLOCK), MACROBLOCK);
    LocateInTiling(Leaves(ChosenTree(enc, sb, MACROBLOCK), MACROBLOCK), r, c);
    var L := Leaves(ChosenTree(enc, sb, MACROBLOCK), MACROBLOCK);
    L[Locate(L, r, c)]
  }

  /** The value a weight should decode to: its code, under its leaf's half-precision scale and bias. */
  function QuantizedWeight(toHalf: HalfEncoder, choice: Choice, w: real, biasBits: nat): Float {
    Affine(HalfFromBits(toHalf(ClipHalf(choice.fit.scale))),
           CodeOf(choice.mode, w, choice.fit.scale, choice.fit.bias),
           HalfFromBits(biasBits))
  }

  function BiasBits(toHalf: HalfEncoder, choice: Choice): FiniteHalf {
    toHalf(ClipHalf(choice.fit.bias))
  }

  /** What the encoder chose for the leaf of tensor cell (r, c). */
  function CellChoice(enc: Encoder, weights: Grid, O: nat, I: nat, r: nat, c: nat): Choice
    requires IsLeafSize(enc.minBlockSize) && r < O && c < I
  {
    var sb := Superblock(weights, O, I, BlockIndex(O, I, r, c));
    var sq := LeafSquare(enc, sb, r % 64, c % 64);
    Choose(enc, Region(sb, sq), sq.size)
  }

  // ------------------------------------------------------------------ proofs

  lemma ChosenFitIsProper(enc: Encoder, region: seq<real>, size: nat)
    requires ProperFits(enc) && |region| > 0
    ensures var choice := Choose(enc, region, size);
            Encodes(choice.mode, choice.fit, region, |region| / CodesPerWord(choice.mode))
  {
    hide Encodes, Reconstruct, T158HasOutlier;
    assert Encodes(FP4_AFFINE, enc.fitFp4(region), region, |region| / 8);
  }

  lemma AreaPositive(size: nat)
    requires IsLeafSize(size)
    ensures size * size > 0
  {
  }

  lemma LeafPayload(enc: Encoder, sb: Grid, sq: Square)
    requires ProperFits(enc) && IsLeafSize(sq.size)
    ensures var leaf, region := MakeLeaf(enc, sb, sq), Region(sb, sq);
            var choice := Choose(enc, region, sq.size);
            && |region| > 0 && leaf.sq == sq && leaf.mode == choice.mode
            && leaf.payload == Payload(choice.mode,
                                       QuantizedCodes(choice.mode, region, choice.fit.scale, choice.fit.bias),
                                       PayloadWords(sq.size, choice.mode))
  {
    AreaPositive(sq.size);
    ChosenFitIsProper(enc, Region(sb, sq), sq.size);
    hide Payload, QuantizedCodes, Choose, Region;
  }

  /** Encoder output is always valid exporter input. */
  lemma EncodedBlocksValid(enc: Encoder, sb: Grid)
    requires ProperFits(enc) && Encode(enc, sb).Ok?
    ensures ValidBlocks(Encode(enc, sb).value)
  {
    EncodeTiles(enc, sb);
    var blocks := Encode(enc, sb).value;
    var L := Squares(blocks);
    hide Encode, MakeLeaf, ProperFits, IsLeafList;
    forall i | 0 <= i < |blocks|
      ensures IsLeafSize(blocks[i].sq.size) && |blocks[i].payload| == PayloadWords(blocks[i].sq.size, blocks[i].mode)
    {
      assert Aligned(L[i]);
      LeafPayload(enc, sb, L[i]);
    }
  }

  lemma {:induction false} EncodedBlocks(enc: Encoder, weights: Grid, O: nat, I: nat, k: nat)
    requires ProperFits(enc) && k <= CeilDiv64(O) * CeilDiv64(I)
    ensures EncodeBlocks(enc, weights, O, I, k).Ok? <==> k == 0 || IsLeafSize(enc.minBlockSize)
    ensures EncodeBlocks(enc, weights, O, I, k).Ok? ==>
              var superblocks := EncodeBlocks(enc, weights, O, I, k).value;
              && |superblocks| == k && AllValid(superblocks)
              && forall j :: 0 <= j < k ==> Ok(superblocks[j]) == Encode(enc, Superblock(weights, O, I, j))
  {
    hide Encode, ValidBlocks, ProperFits, Superblock, CeilDiv64;
    if k > 0 {
      EncodedBlocks(enc, weights, O, I, k - 1);
      var sb := Superblock(weights, O, I, k - 1);
      EncodeTiles(enc, sb);
      if Encode(enc, sb).Ok? { EncodedBlocksValid(enc, sb); }
    }
  }

  /** The export fails only for a bad minimum block size or an offset beyond 32 bits; it succeeds
      whenever the size is valid and 5136 bytes per macroblock fit. */
  lemma ExportTensorSucceeds(toHalf: HalfEncoder, enc: Encoder, weights: Grid, O: nat, I: nat)
    requires ProperFits(enc)
    ensures IsLeafSize(enc.minBlockSize) && 5136 * (CeilDiv64(O) * CeilDiv64(I)) <= UINT32_LIMIT ==>
              ExportTensor(toHalf, enc, weights, O, I).Ok?
    ensures ExportTensor(toHalf, enc, weights, O, I).Err? ==>
              || (ExportTensor(toHalf, enc, weights, O, I).error == EncodeFailed(BadMinBlockSize) &&
                  !IsLeafSize(enc.minBlockSize))
              || ExportTensor(toHalf, enc, weights, O, I).error == ExportFailed(OffsetOverflow)
  {
    var B := CeilDiv64(O) * CeilDiv64(I);
    hide EncodeBlocks, Export, AllValid, CeilDiv64, ProperFits;
    EncodedBlocks(enc, weights, O, I, B);
    BadSizeError(enc, weights, O, I, B);
    if EncodeBlocks(enc, weights, O, I, B).Ok? {
      ExportFits(toHalf, EncodeBlocks(enc, weights, O, I, B).value);
    }
  }

  lemma {:induction false} BadSizeError(enc: Encoder, weights: Grid, O: nat, I: nat, k: nat)
    requires k <= CeilDiv64(O) * CeilDiv64(I)
    ensures k > 0 && !IsLeafSize(enc.minBlockSize) ==>
              EncodeBlocks(enc, weights, O, I, k) == Err(EncodeFailed(BadMinBlockSize))
  {
    hide Superblock, CeilDiv64;
    if k > 1 { BadSizeError(enc, weights, O, I, k - 1); }
  }

  /** Row-major position inside a leaf against the region the encoder cut out. */
  lemma RegionAt(sb: Grid, sq: Square, r: nat, c: nat)
    requires Contains(sq, r, c)
    ensures Region(sb, sq)[CodeIndex(sq, r, c)] == sb(r, c)
  {
    var row, col := r - sq.y, c - sq.x;
    var k := CodeIndex(sq, r, c);
    RowAndColumn(sq.size, row, col);
  }

  lemma RowAndColumn(size: nat, row: nat, col: nat)
    requires row < size && col < size
    ensures (row * size + col) / size == row && (row * size + col) % size == col
  {
    assert size * row == row * size;
    Bits.DivModUnique(row * size + col, size, row, col);
  }

  /** Every decoded cell of one macroblock. */
  lemma BlockCell(toHalf: HalfEncoder, enc: Encoder, sb: Grid, r: nat, c: nat)
    requires ProperFits(enc) && IsLeafSize(enc.minBlockSize) && r < 64 && c < 64
    ensures Encode(enc, sb).Ok? && ValidBlocks(Encode(enc, sb).value)
    ensures PayloadsFit(RecordOrder(Encode(enc, sb).value))
    ensures WellFormed(DecodedLeaves(toHalf, RecordOrder(Encode(enc, sb).value)))
    ensures var sq := LeafSquare(enc, sb, r, c);
            var choice := Choose(enc, Region(sb, sq), sq.size);
            CellOfBlock(DecodedLeaves(toHalf, RecordOrder(Encode(enc, sb).value)), r, c)
            == QuantizedWeight(toHalf, choice, sb(r, c), TruncatedBias(BiasBits(toHalf, choice)))
  {
    EncodeTiles(enc, sb);
    EncodedBlocksValid(enc, sb);
    var blocks := Encode(enc, sb).value;
    var leaves := RecordOrder(blocks);
    OrderFacts(blocks);
    OrderedCell(toHalf, enc, sb, blocks, leaves, r, c);
  }

  lemma OrderedCell(toHalf: HalfEncoder, enc: Encoder, sb: Grid, blocks: seq<Leaf>, leaves: seq<Leaf>, r: nat, c: nat)
    requires ProperFits(enc) && IsLeafSize(enc.minBlockSize) && r < 64 && c < 64
    requires blocks == MakeLeaves(enc, sb, Leaves(ChosenTree(enc, sb, MACROBLOCK), MACROBLOCK))
    requires multiset(leaves) == multiset(blocks) && PayloadsFit(leaves)
    requires ExactTiling(Squares(blocks), MACROBLOCK) && ExactTiling(Squares(leaves), MACROBLOCK)
    ensures WellFormed(DecodedLeaves(toHalf, leaves))
    ensures var sq := LeafSquare(enc, sb, r, c);
            var choice := Choose(enc, Region(sb, sq), sq.size);
            CellOfBlock(DecodedLeaves(toHalf, leaves), r, c)
            == QuantizedWeight(toHalf, choice, sb(r, c), TruncatedBias(BiasBits(toHalf, choice)))
  {
    hide ProperFits, Leaves, ChosenTree, ExactTiling, MakeLeaf, Choose, Region, TruncatedBias, HalfFromBits, Affine,
         PayloadWords, CodesOf, Locate, Payload, QuantizedCodes, CodeOf, CodeIndex;
    var i := Locate(Squares(leaves), r, c);
    OrderKeepsLeafOfCell(blocks, leaves, r, c);
    var sq := LeafSquare(enc, sb, r, c);
    assert leaves[i] == MakeLeaf(enc, sb, sq);
    LocateInTiling(Squares(leaves), r, c);
    DecodedWellFormed(toHalf, leaves);
    MadeLeafCell(toHalf, enc, sb, sq, r, c);
  }

  lemma DecodedWellFormed(toHalf: HalfEncoder, leaves: seq<Leaf>)
    requires PayloadsFit(leaves) && ExactTiling(Squares(leaves), MACROBLOCK)
    ensures WellFormed(DecodedLeaves(toHalf, leaves))
  {
    hide ExactTiling, PayloadWords, CodesOf, HalfFromBits;
  }

  /** The decoded leaf, at a cell of the leaf, is the quantized weight of that cell. */
  lemma MadeLeafCell(toHalf: HalfEncoder, enc: Encoder, sb: Grid, sq: Square, r: nat, c: nat)
    requires ProperFits(enc) && IsLeafSize(sq.size) && Contains(sq, r, c)
    ensures var leaf := MakeLeaf(enc, sb, sq);
            var choice := Choose(enc, Region(sb, sq), sq.size);
            && |leaf.payload| == PayloadWords(sq.size, leaf.mode)
            && |leaf.payload| * CodesPerWord(leaf.mode) == sq.size * sq.size
            && var d := Decoded(toHalf, leaf);
               Affine(d.scale, d.codes[CodeIndex(sq, r, c)], d.bias)
               == QuantizedWeight(toHalf, choice, sb(r, c), TruncatedBias(BiasBits(toHalf, choice)))
  {
    LeafPayload(enc, sb, sq);
    var region := Region(sb, sq);
    var choice := Choose(enc, region, sq.size);
    CodesFillWords(sq.size, choice.mode);
    CodesRoundTrip(choice.mode, QuantizedCodes(choice.mode, region, choice.fit.scale, choice.fit.bias),
                   PayloadWords(sq.size, choice.mode));
    RegionAt(sb, sq, r, c);
    hide Choose, Payload, CodesOf, Region, CodeOf, TruncatedBias, HalfFromBits, Affine, PayloadWords, CodeIndex;
  }

  /** The decoder accepts the stream, and cell (r, c) is its weight's code under the half-precision
      scale and the truncated bias of the unique leaf the encoder put it in. */
  ghost predicate CellDecodes(toHalf: HalfEncoder, enc: Encoder, weights: Grid, O: nat, I: nat,
                              stream: seq<byte>, r: nat, c: nat)
    requires r < O && c < I
  {
    var parsed := Parse(stream, O, I);
    && IsLeafSize(enc.minBlockSize)
    && parsed.Ok? && |parsed.value| == CeilDiv64(O) * CeilDiv64(I)
    && (forall k :: 0 <= k < |parsed.value| ==> WellFormed(parsed.value[k]))
    && var choice := CellChoice(enc, weights, O, I, r, c);
       Cell(parsed.value, O, I, r, c)
       == QuantizedWeight(toHalf, choice, weights(r, c), TruncatedBias(BiasBits(toHalf, choice)))
  }

  /** A successful export parses to the decoded records of the encoded macroblocks. */
  lemma ExportParses(toHalf: HalfEncoder, enc: Encoder, weights: Grid, O: nat, I: nat)
    returns (superblocks: seq<seq<Leaf>>)
    requires ProperFits(enc) && ExportTensor(toHalf, enc, weights, O, I).Ok?
    ensures |superblocks| == CeilDiv64(O) * CeilDiv64(I) && AllValid(superblocks)
    ensures |superblocks| > 0 ==> IsLeafSize(enc.minBlockSize)
    ensures forall j :: 0 <= j < |superblocks| ==> Ok(superblocks[j]) == Encode(enc, Superblock(weights, O, I, j))
    ensures Parse(ExportTensor(toHalf, enc, weights, O, I).value, O, I) == Ok(DecodedRecords(toHalf, superblocks))
  {
    hide EncodeBlocks, Export, Parse, AllValid, ProperFits, Encode, Superblock, CeilDiv64, DecodedRecords;
    var B := CeilDiv64(O) * CeilDiv64(I);
    EncodedBlocks(enc, weights, O, I, B);
    superblocks := EncodeBlocks(enc, weights, O, I, B).value;
    StreamRoundTrip(toHalf, superblocks, O, I);
  }

  /** The cell of a tensor, in the records decoded from its encoded macroblocks. */
  lemma RecordCell(toHalf: HalfEncoder, enc: Encoder, weights: Grid, O: nat, I: nat,
                   superblocks: seq<seq<Leaf>>, r: nat, c: nat)
    requires ProperFits(enc) && IsLeafSize(enc.minBlockSize) && r < O && c < I && AllValid(superblocks)
    requires |superblocks| == CeilDiv64(O) * CeilDiv64(I)
    requires var k := BlockIndex(O, I, r, c); Ok(superblocks[k]) == Encode(enc, Superblock(weights, O, I, k))
    requires forall k :: 0 <= k < |superblocks| ==> WellFormed(DecodedRecords(toHalf, superblocks)[k])
    ensures var choice := CellChoice(enc, weights, O, I, r, c);
            Cell(DecodedRecords(toHalf, superblocks), O, I, r, c)
            == QuantizedWeight(toHalf, choice, weights(r, c), TruncatedBias(BiasBits(toHalf, choice)))
  {
    hide AllValid, ProperFits, Encode, Superblock, WellFormed, DecodedLeaves, RecordOrder, CellOfBlock, LeafSquare,
         Choose, QuantizedWeight, BlockIndex, CeilDiv64, DecodedRecords, Region, BiasBits, TruncatedBias;
    var k := BlockIndex(O, I, r, c);
    BlockCell(toHalf, enc, Superblock(weights, O, I, k), r % 64, c % 64);
    RecordOfStream(toHalf, superblocks, k);
    SuperblockAt(weights, O, I, r, c);
  }

  /** The whole codec: whenever the export succeeds, every cell of the matrix decodes. */
  lemma DecodeUndoesExport(toHalf: HalfEncoder, enc: Encoder, weights: Grid, O: nat, I: nat, r: nat, c: nat)
    requires ProperFits(enc) && r < O && c < I
    ensures ExportTensor(toHalf, enc, weights, O, I).Ok? ==>
              CellDecodes(toHalf, enc, weights, O, I, ExportTensor(toHalf, enc, weights, O, I).value, r, c)
  {
    hide ExportTensor, EncodeBlocks, Parse, AllValid, ProperFits, Encode, Superblock, WellFormed, Cell, CellChoice,
         QuantizedWeight, BlockIndex, CeilDiv64, DecodedRecords, BiasBits, TruncatedBias;
    if ExportTensor(toHalf, enc, weights, O, I).Ok? {
      var superblocks := ExportParses(toHalf, enc, weights, O, I);
      ParsedWellFormed(ExportTensor(toHalf, enc, weights, O, I).value, O, I);
      assert BlockIndex(O, I, r, c) < |superblocks|;
      RecordCell(toHalf, enc, weights, O, I, superblocks, r, c);
    }
  }

  /** The exporter as it is set up: with a valid minimum block size and at most 2^32 / 5136
      macroblocks every tensor is exported and every cell decodes, whatever the thresholds. */
  lemma StandardCodecRoundTrip(toHalf: HalfEncoder, thresholds: map<nat, Threshold>, ternaryDelta: real,
                               minBlockSize: nat, laplacian: (seq<real>, seq<real>, nat) -> real,
                               multipliers: seq<real>, weights: Grid, O: nat, I: nat, r: nat, c: nat)
    requires AllPositive(multipliers) && IsLeafSize(minBlockSize) && r < O && c < I
    requires 5136 * (CeilDiv64(O) * CeilDiv64(I)) <= UINT32_LIMIT
    ensures var enc := StandardEncoder(thresholds, ternaryDelta, minBlockSize, laplacian, multipliers);
            ExportTensor(toHalf, enc, weights, O, I).Ok? &&
            CellDecodes(toHalf, enc, weights, O, I, ExportTensor(toHalf, enc, weights, O, I).value, r, c)
  {
    hide ExportTensor, CellDecodes, CeilDiv64, ProperFits;
    var enc := StandardEncoder(thresholds, ternaryDelta, minBlockSize, laplacian, multipliers);
    StandardFitsAreProper(thresholds, ternaryDelta, minBlockSize, laplacian, multipliers);
    ExportTensorSucceeds(toHalf, enc, weights, O, I);
    DecodeUndoesExport(toHalf, enc, weights, O, I, r, c);
  }

  lemma RecordOfStream(toHalf: HalfEncoder, superblocks: seq<seq<Leaf>>, k: nat)
    requires AllValid(superblocks) && k < |superblocks|
    ensures ValidBlocks(superblocks[k]) && PayloadsFit(RecordOrder(superblocks[k]))
    ensures DecodedRecords(toHalf, superblocks)[k] == DecodedLeaves(toHalf, RecordOrder(superblocks[k]))
  {
    OrderFacts(superblocks[k]);
    hide DecodedLeaves, RecordOrder, PayloadsFit;
  }

  /** A tensor cell in its macroblock. */
  lemma SuperblockAt(weights: Grid, O: nat, I: nat, r: nat, c: nat)
    requires r < O && c < I
    ensures Superblock(weights, O, I, BlockIndex(O, I, r, c))(r % 64, c % 64) == weights(r, c)
  {
    var k := BlockIndex(O, I, r, c);
    BlockCoordinates(O, I, r, c);
    SuperblockCell(weights, O, I, k, r % 64, c % 64);
    hide Superblock, BlockIndex, CeilDiv64;
    assert 64 * (r / 64) + r % 64 == r && 64 * (c / 64) + c % 64 == c;
  }

  lemma BlockCoordinates(O: nat, I: nat, r: nat, c: nat)
    requires r < O && c < I
    ensures CeilDiv64(I) > 0
    ensures BlockIndex(O, I, r, c) / CeilDiv64(I) == r / 64 && BlockIndex(O, I, r, c) % CeilDiv64(I) == c / 64
  {
    var tilesX := CeilDiv64(I);
    assert c / 64 < tilesX;
    assert tilesX * (r / 64) == r / 64 * tilesX;
    Bits.DivModUnique(BlockIndex(O, I, r, c), tilesX, r / 64, c / 64);
  }

  lemma SuperblockCell(weights: Grid, O: nat, I: nat, k: nat, r: nat, c: nat)
    requires I > 0 && CeilDiv64(I) > 0
    ensures Superblock(weights, O, I, k)(r, c) ==
              var y, x := 64 * (k / CeilDiv64(I)) + r, 64 * (k % CeilDiv64(I)) + c;
              if y < O && x < I then weights(y, x) else 0.0
  {
    var y: nat, x: nat := 64 * (k / CeilDiv64(I)) + r, 64 * (k % CeilDiv64(I)) + c;
    assert Padded(weights, O, I)(y, x) == if y < O && x < I then weights(y, x) else 0.0;
    assert Superblock(weights, O, I, k)(r, c) == Padded(weights, O, I)(y, x);
  }

  // -------------------------------------------------------- finite decoding

  /** Dropping the low four bias bits moves a decoded weight by at most
      max(15/1024 * |half(bias)|, 15 * 2^-24), and decoded weights are finite. */
  lemma TruncationMovesWeight(toHalf: HalfEncoder, choice: Choice, w: real)
    ensures var bits := BiasBits(toHalf, choice);
            var full := QuantizedWeight(toHalf, choice, w, bits);
            var cut := QuantizedWeight(toHalf, choice, w, TruncatedBias(bits));
            && full.Finite? && cut.Finite? && HalfFromBits(bits).Finite?
            && Abs(full.v - cut.v) <= TruncationBound(HalfFromBits(bits).v)
  {
    var bits := BiasBits(toHalf, choice);
    TruncationError(bits);
    TruncationError(toHalf(ClipHalf(choice.fit.scale)));
    hide CodeOf, HalfFromBits, TruncatedBias, TruncationBound;
  }

  /** Every cell of every exported tensor: it decodes to a finite value within that bound of what
      the untruncated bias of its leaf would have given. */
  lemma TruncationMovesCell(toHalf: HalfEncoder, enc: Encoder, weights: Grid, O: nat, I: nat, r: nat, c: nat)
    requires ProperFits(enc) && r < O && c < I
    ensures ExportTensor(toHalf, enc, weights, O, I).Ok? ==>
              var stream := ExportTensor(toHalf, enc, weights, O, I).value;
              CellDecodes(toHalf, enc, weights, O, I, stream, r, c) &&
              var choice := CellChoice(enc, weights, O, I, r, c);
              var cell := Cell(Parse(stream, O, I).value, O, I, r, c);
              var full := QuantizedWeight(toHalf, choice, weights(r, c), BiasBits(toHalf, choice));
              && cell.Finite? && full.Finite? && HalfFromBits(BiasBits(toHalf, choice)).Finite?
              && Abs(full.v - cell.v) <= TruncationBound(HalfFromBits(BiasBits(toHalf, choice)).v)
  {
    hide ExportTensor, Parse, ProperFits, Cell, CellChoice, QuantizedWeight, BiasBits, HalfFromBits, TruncatedBias,
         TruncationBound, WellFormed, CeilDiv64;
    DecodeUndoesExport(toHalf, enc, weights, O, I, r, c);
    if ExportTensor(toHalf, enc, weights, O, I).Ok? {
      TruncationMovesWeight(toHalf, CellChoice(enc, weights, O, I, r, c), weights(r, c));
    }
  }

  // ------------------------------------------------------- cells in numbers

  /** Macroblock number tilesX * i + j holds the weights from row 64 * i and column 64 * j on, and zeros
      beyond the matrix. */
  lemma SuperblockIs(weights: Grid, O: nat, I: nat, i: nat, j: nat, r: nat, c: nat)
    requires I > 0 && j < CeilDiv64(I)
    ensures Superblock(weights, O, I, CeilDiv64(I) * i + j)(r, c) ==
              if 64 * i + r < O && 64 * j + c < I then weights(64 * i + r, 64 * j + c) else 0.0
  {
    hide *;
    var tilesX := CeilDiv64(I);
    Bits.DivModUnique(tilesX * i + j, tilesX, i, j);
    SuperblockCell(weights, O, I, tilesX * i + j, r, c);
  }

  lemma LeafOfCell(enc: Encoder, sb: Grid, r: nat, c: nat)
    requires IsLeafSize(enc.minBlockSize) && r < 64 && c < 64
    ensures Encode(enc, sb).Ok? && MakeLeaf(enc, sb, LeafSquare(enc, sb, r, c)) in Encode(enc, sb).value
  {
    EncodeTiles(enc, sb);
    var L := Leaves(ChosenTree(enc, sb, MACROBLOCK), MACROBLOCK);
    LocateInTiling(L, r, c);
    hide Encode, ChosenTree, Leaves, ExactTiling, MakeLeaf, Locate;
    var i := Locate(L, r, c);
    assert Encode(enc, sb).value[i] == MakeLeaf(enc, sb, L[i]);
  }

  lemma FiniteHalves(scaleBits: FiniteHalf, biasBits: FiniteHalf, code: int)
    ensures HalfFromBits(scaleBits).Finite? && HalfFromBits(biasBits - biasBits % 16).Finite?
    ensures IsLevel(Affine(HalfFromBits(scaleBits), code, HalfFromBits(TruncatedBias(biasBits))),
                    HalfFromBits(scaleBits).v, code, HalfFromBits(biasBits - biasBits % 16).v)
  {
    hide *;
    TruncationError(scaleBits);
    TruncationError(biasBits);
    TruncatedValue(biasBits);
    AffineIs(HalfFromBits(scaleBits), code, HalfFromBits(TruncatedBias(biasBits)));
  }

  lemma QuantizedIs(toHalf: HalfEncoder, choice: Choice, w: real)
    ensures var scaleBits, biasBits := toHalf(ClipHalf(choice.fit.scale)), toHalf(ClipHalf(choice.fit.bias));
            && HalfFromBits(scaleBits).Finite? && HalfFromBits(biasBits - biasBits % 16).Finite?
            && IsLevel(QuantizedWeight(toHalf, choice, w, TruncatedBias(BiasBits(toHalf, choice))),
                       HalfFromBits(scaleBits).v, CodeOf(choice.mode, w, choice.fit.scale, choice.fit.bias),
                       HalfFromBits(biasBits - biasBits % 16).v)
  {
    hide HalfFromBits, ClipHalf, CodeOf, TruncatedBias, Affine, IsLevel;
    FiniteHalves(toHalf(ClipHalf(choice.fit.scale)), toHalf(ClipHalf(choice.fit.bias)),
                 CodeOf(choice.mode, w, choice.fit.scale, choice.fit.bias));
  }

  /** The leaf is one of those the encoder splits the cell's macroblock into, and contains the cell. */
  ghost predicate HoldsCell(enc: Encoder, weights: Grid, O: nat, I: nat, leaf: Leaf, r: nat, c: nat)
    requires r < O && c < I
  {
    var sb := Superblock(weights, O, I, BlockIndex(O, I, r, c));
    && Encode(enc, sb).Ok? && leaf in Encode(enc, sb).value && Contains(leaf.sq, r % 64, c % 64)
    && sb(r % 64, c % 64) == weights(r, c)
  }

  /** half(scale) times the code the leaf's fit gives a weight, plus half(bias) without its low four bits. */
  ghost predicate StandsFor(toHalf: HalfEncoder, enc: Encoder, sb: Grid, leaf: Leaf, w: real, cell: Float) {
    var region := Region(sb, leaf.sq);
    var fit := if leaf.mode.T158_AFFINE? then enc.fitT158(region) else enc.fitFp4(region);
    var scaleBits, biasBits := toHalf(ClipHalf(leaf.scale)), toHalf(ClipHalf(leaf.bias));
    && HalfFromBits(scaleBits).Finite? && HalfFromBits(biasBits - biasBits % 16).Finite?
    && IsLevel(cell, HalfFromBits(scaleBits).v, CodeOf(leaf.mode, w, fit.scale, fit.bias),
               HalfFromBits(biasBits - biasBits % 16).v)
  }

  lemma MadeLeafStandsFor(toHalf: HalfEncoder, enc: Encoder, sb: Grid, sq: Square, w: real)
    ensures var choice := Choose(enc, Region(sb, sq), sq.size);
            StandsFor(toHalf, enc, sb, MakeLeaf(enc, sb, sq), w,
                      QuantizedWeight(toHalf, choice, w, TruncatedBias(BiasBits(toHalf, choice))))
  {
    QuantizedIs(toHalf, Choose(enc, Region(sb, sq), sq.size), w);
    ChooseIs(enc, Region(sb, sq), sq.size);
    hide Region, Choose, HalfFromBits, CodeOf, TernaryWins, QuantizedWeight, TruncatedBias, Reconstruct, IsLevel;
  }

  /** The decoded value of a cell, once the stream is known to decode there. */
  ghost function DecodedCell(toHalf: HalfEncoder, enc: Encoder, weights: Grid, O: nat, I: nat,
                             stream: seq<byte>, r: nat, c: nat): Float
    requires r < O && c < I && CellDecodes(toHalf, enc, weights, O, I, stream, r, c)
  {
    Cell(Parse(stream, O, I).value, O, I, r, c)
  }

  /** Every cell of an exported tensor lies in a leaf of its macroblock and decodes to what stands for
      its weight under that leaf. */
  lemma CellInNumbers(toHalf: HalfEncoder, enc: Encoder, weights: Grid, O: nat, I: nat, stream: seq<byte>,
                      r: nat, c: nat) returns (leaf: Leaf)
    requires ProperFits(enc) && r < O && c < I && ExportTensor(toHalf, enc, weights, O, I) == Ok(stream)
    ensures HoldsCell(enc, weights, O, I, leaf, r, c)
    ensures CellDecodes(toHalf, enc, weights, O, I, stream, r, c)
    ensures StandsFor(toHalf, enc, Superblock(weights, O, I, BlockIndex(O, I, r, c)), leaf, weights(r, c),
                      DecodedCell(toHalf, enc, weights, O, I, stream, r, c))
  {
    var sb := Superblock(weights, O, I, BlockIndex(O, I, r, c));
    DecodeUndoesExport(toHalf, enc, weights, O, I, r, c);
    SuperblockAt(weights, O, I, r, c);
    hide ExportTensor, Parse, Cell, ProperFits, Encode, Superblock, Region, Choose, QuantizedWeight, TruncatedBias,
         BlockIndex, CeilDiv64, WellFormed, StandsFor, BiasBits;
    LeafOfCell(enc, sb, r % 64, c % 64);
    var sq := LeafSquare(enc, sb, r % 64, c % 64);
    leaf := MakeLeaf(enc, sb, sq);
    MadeLeafStandsFor(toHalf, enc, sb, sq, weights(r, c));
  }
}
