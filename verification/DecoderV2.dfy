/** The reference decoder of the SGFP4 v2 container: a rejecting parser, and the tensor its leaves define. */
module DecoderV2 {
  import opened Bits
  import opened Format
  import opened Basics
  import opened Codes
  import opened Half
  import opened Quadtree
  import opened Layouts
  import SplitMap

  datatype FormatError =
    | FixedHeaderTruncated | BadMagic | BadVersion | MissingHeaderPad
    | OffsetTableTruncated | BadOffsetTablePad | RecordRegionTruncated | WrongRecordCount
    | MisalignedOffset | OffsetsNotIncreasing | RecordHeaderTruncated | UnknownLayout | ReservedHeaderBits
    | BadSplitMap(reason: SplitMap.SplitMapError) | LeafTableTruncated | BadHeaderPad
    | ReservedLeafFlags | PayloadTruncated | PayloadPadNonzero

  /** One decoded leaf: its place, its affine parameters and its codes in row-major order. */
  datatype DecodedLeaf = DecodedLeaf(sq: Square, scale: Float, bias: Float, codes: seq<int>)

  function DecodedSquares(leaves: seq<DecodedLeaf>): (r: seq<Square>)
    ensures |r| == |leaves|
  {
    seq(|leaves|, i requires 0 <= i < |leaves| => leaves[i].sq)
  }

  // ------------------------------------------------------------- one record

  predicate LeafSizes(squares: seq<Square>) {
    forall i :: 0 <= i < |squares| ==> IsLeafSize(squares[i].size)
  }

  function LeafMode(header: uint32): CodeMode {
    LowMask(And(header, 0xF), 1, 2);
    ModeOf(And(And(header, 0xF), 0x1))
  }

  /** One leaf at `pos`: its decoding and the position of the next payload. */
  function ParseLeaf(b: seq<byte>, pos: nat, sq: Square, header: uint32): (r: Result<(DecodedLeaf, nat), FormatError>)
    requires IsLeafSize(sq.size)
    ensures r.Ok? ==> r.value.0.sq == sq && |r.value.0.codes| == sq.size * sq.size
  {
    var scale := HalfFromBits(Shr(header, 16));
    var bias := HalfFromBits(And(header, 0xFFF0));
    if And(And(header, 0xF), 0xE) != 0 then Err(ReservedLeafFlags)
    else
      var mode := LeafMode(header);
      var nWords := PayloadWords(sq.size, mode);
      var padded := AlignUp(4 * nWords);
      if pos + padded > |b| then Err(PayloadTruncated)
      else if PySlice(b, pos + 4 * nWords, pos + padded) != Zeros(padded - 4 * nWords) then Err(PayloadPadNonzero)
      else
        CodesFillWords(sq.size, mode);
        Ok((DecodedLeaf(sq, scale, bias, CodesOf(WordsAt(b, pos, nWords), mode, sq.size * sq.size)), pos + padded))
  }

  lemma CodesFillWords(size: nat, mode: CodeMode)
    requires IsLeafSize(size)
    ensures PayloadWords(size, mode) * CodesPerWord(mode) == size * size
  {
    assert size * size == 16 || size * size == 64 || size * size == 256 || size * size == 1024 || size * size == 4096;
  }

  function ParseLeaves(b: seq<byte>, pos: nat, squares: seq<Square>, headers: seq<uint32>)
    : (r: Result<seq<DecodedLeaf>, FormatError>)
    requires |squares| == |headers| && LeafSizes(squares)
    ensures r.Ok? ==> DecodedSquares(r.value) == squares
    ensures r.Ok? ==> forall i :: 0 <= i < |r.value| ==> |r.value[i].codes| == r.value[i].sq.size * r.value[i].sq.size
    decreases |squares|
  {
    if |squares| == 0 then Ok([])
    else
      var first := ParseLeaf(b, pos, squares[0], headers[0]);
      if first.Err? then Err(first.error)
      else
        var rest := ParseLeaves(b, first.value.1, squares[1..], headers[1..]);
        if rest.Err? then rest
        else
          assert squares == [squares[0]] + squares[1..];
          Ok([first.value.0] + rest.value)
  }

  lemma UnfoldLeaves(b: seq<byte>, pos: nat, squares: seq<Square>, headers: seq<uint32>)
    requires |squares| == |headers| && LeafSizes(squares)
    ensures |squares| == 0 ==> ParseLeaves(b, pos, squares, headers) == Ok([])
    ensures |squares| > 0 ==>
              var first := ParseLeaf(b, pos, squares[0], headers[0]);
              if first.Err? then ParseLeaves(b, pos, squares, headers) == Err(first.error)
              else
                var rest := ParseLeaves(b, first.value.1, squares[1..], headers[1..]);
                ParseLeaves(b, pos, squares, headers) == if rest.Err? then rest else Ok([first.value.0] + rest.value)
  {
    hide ParseLeaf;
  }

  /** Leaf geometry of a record and the position of its header table. */
  function RecordLeaves(b: seq<byte>, layout: Layout, pos: nat): Result<(seq<Square>, nat), FormatError> {
    if layout == MIXED then
      var r := SplitMap.ParseSplitMap(PySlice(b, pos, pos + SPLIT_MAP_BYTES));
      if r.Err? then Err(BadSplitMap(r.error)) else Ok((r.value, pos + SPLIT_MAP_BYTES))
    else Ok((RowMajor(UniformSize(layout)), pos))
  }

  /** Whatever the layout, the decoder's leaves tile the macroblock exactly. */
  lemma RecordLeavesTile(b: seq<byte>, layout: Layout, pos: nat)
    ensures RecordLeaves(b, layout, pos).Ok? ==>
              var squares := RecordLeaves(b, layout, pos).value.0;
              ExactTiling(squares, MACROBLOCK) && LeafSizes(squares)
  {
    hide ExactTiling, RowMajor;
    if RecordLeaves(b, layout, pos).Ok? {
      var squares := RecordLeaves(b, layout, pos).value.0;
      if layout == MIXED {
        SplitMap.ParsedLeavesTile(PySlice(b, pos, pos + SPLIT_MAP_BYTES));
      } else {
        RowMajorTiles(UniformSize(layout));
      }
      TilingSizes(squares);
    }
  }

  lemma TilingSizes(squares: seq<Square>)
    requires ExactTiling(squares, MACROBLOCK)
    ensures LeafSizes(squares)
  {
    forall i | 0 <= i < |squares| ensures IsLeafSize(squares[i].size) { assert Aligned(squares[i]); }
  }

  function ParseRecord(b: seq<byte>, base: nat): Result<seq<DecodedLeaf>, FormatError> {
    if base + UINT32_BYTES > |b| then Err(RecordHeaderTruncated)
    else
      var header := U32At(b, base);
      var layoutValue := And(header, 0x7);
      if layoutValue >= 6 then Err(UnknownLayout)
      else if Shr(header, 3) != 0 then Err(ReservedHeaderBits)
      else
        RecordLeavesTile(b, LayoutOf(layoutValue), base + UINT32_BYTES);
        var geometry := RecordLeaves(b, LayoutOf(layoutValue), base + UINT32_BYTES);
        if geometry.Err? then Err(geometry.error)
        else ParseRecordBody(b, base, geometry.value.1, geometry.value.0)
  }

  /** Header table, its padding, and the leaves. */
  function ParseRecordBody(b: seq<byte>, base: nat, pos: nat, squares: seq<Square>)
    : (r: Result<seq<DecodedLeaf>, FormatError>)
    requires LeafSizes(squares)
  {
    if pos + 4 * |squares| > |b| then Err(LeafTableTruncated)
    else
      var headers := WordsAt(b, pos, |squares|);
      var next := pos + 4 * |squares|;
      var pad := Padding(next - base);
      if PySlice(b, next, next + pad) != Zeros(pad) then Err(BadHeaderPad)
      else ParseLeaves(b, next + pad, squares, headers)
  }

  // -------------------------------------------------------- the whole stream

  function ParseRecords(b: seq<byte>, region: nat, offsets: seq<uint32>, previous: int)
    : Result<seq<seq<DecodedLeaf>>, FormatError>
    decreases |offsets|
  {
    if |offsets| == 0 then Ok([])
    else if offsets[0] % ALIGNMENT != 0 then Err(MisalignedOffset)
    else if offsets[0] <= previous then Err(OffsetsNotIncreasing)
    else
      var first := ParseRecord(b, region + offsets[0]);
      if first.Err? then Err(first.error)
      else
        var rest := ParseRecords(b, region, offsets[1..], offsets[0]);
        if rest.Err? then rest else Ok([first.value] + rest.value)
  }

  function Parse(b: seq<byte>, O: nat, I: nat): Result<seq<seq<DecodedLeaf>>, FormatError> {
    if |b| < V2_FIXED_HEADER_BYTES then Err(FixedHeaderTruncated)
    else if b[..4] != SGFP4_MAGIC then Err(BadMagic)
    else if b[4] != SGFP4_VERSION_V2 then Err(BadVersion)
    else
      var blockCount := U32At(b, 5);
      if b[9..V2_FIXED_HEADER_BYTES] != Zeros(V2_HEADER_PAD_BYTES) then Err(MissingHeaderPad)
      else
        var tableEnd := V2_FIXED_HEADER_BYTES + UINT32_BYTES * blockCount;
        if |b| < tableEnd then Err(OffsetTableTruncated)
        else
          var offsets := WordsAt(b, V2_FIXED_HEADER_BYTES, blockCount);
          var region := AlignUp(tableEnd);
          if PySlice(b, tableEnd, region) != Zeros(region - tableEnd) then Err(BadOffsetTablePad)
          else if |b| < region then Err(RecordRegionTruncated)
          else if CeilDiv64(O) * CeilDiv64(I) != blockCount then Err(WrongRecordCount)
          else ParseRecords(b, region, offsets, -1)
  }

  // ------------------------------------------------------------- the tensor

  predicate WellFormed(leaves: seq<DecodedLeaf>) {
    && ExactTiling(DecodedSquares(leaves), MACROBLOCK)
    && forall i :: 0 <= i < |leaves| ==> |leaves[i].codes| == leaves[i].sq.size * leaves[i].sq.size
  }

  /** Index of a cell in its leaf's row-major code sequence. */
  function CodeIndex(sq: Square, r: nat, c: nat): (k: nat)
    requires Contains(sq, r, c)
    ensures k < sq.size * sq.size
  {
    CodeIndexBound(sq.size, r - sq.y, c - sq.x);
    (r - sq.y) * sq.size + (c - sq.x)
  }

  lemma CodeIndexBound(size: nat, row: nat, col: nat)
    requires row < size && col < size
    ensures 0 <= row * size + col < size * size
  {
    assert (row + 1) * size <= size * size;
  }

  /** Value of cell (r, c) of a macroblock: affine in the code its unique leaf holds there. */
  function CellOfBlock(leaves: seq<DecodedLeaf>, r: nat, c: nat): Float
    requires WellFormed(leaves) && r < 64 && c < 64
  {
    var i := Locate(DecodedSquares(leaves), r, c);
    LocateInTiling(DecodedSquares(leaves), r, c);
    var leaf := leaves[i];
    Affine(leaf.scale, leaf.codes[CodeIndex(leaf.sq, r, c)], leaf.bias)
  }

  lemma LocateInTiling(L: seq<Square>, r: nat, c: nat)
    requires ExactTiling(L, MACROBLOCK) && r < 64 && c < 64
    ensures Locate(L, r, c) < |L|
  {
    assert MACROBLOCK.y <= r < MACROBLOCK.y + MACROBLOCK.size;
  }

  /** Records parsed from any accepted stream are well formed. */
  lemma ParsedRecordWellFormed(b: seq<byte>, base: nat)
    requires ParseRecord(b, base).Ok?
    ensures WellFormed(ParseRecord(b, base).value)
  {
    var header := U32At(b, base);
    RecordLeavesTile(b, LayoutOf(And(header, 0x7)), base + UINT32_BYTES);
    hide ParseLeaves, RecordLeaves, ExactTiling;
  }

  lemma {:induction false} ParsedRecordsWellFormed(b: seq<byte>, region: nat, offsets: seq<uint32>, previous: int)
    requires ParseRecords(b, region, offsets, previous).Ok?
    ensures |ParseRecords(b, region, offsets, previous).value| == |offsets|
    ensures forall k :: 0 <= k < |offsets| ==> WellFormed(ParseRecords(b, region, offsets, previous).value[k])
    decreases |offsets|
  {
    if |offsets| > 0 {
      hide ParseRecord, WellFormed;
      ParsedRecordWellFormed(b, region + offsets[0]);
      ParsedRecordsWellFormed(b, region, offsets[1..], offsets[0]);
    }
  }

  /** Number of the macroblock holding tensor cell (r, c). */
  function BlockIndex(O: nat, I: nat, r: nat, c: nat): (k: nat)
    requires r < O && c < I
    ensures k < CeilDiv64(O) * CeilDiv64(I)
  {
    BlockIndexBound(CeilDiv64(O), CeilDiv64(I), r / 64, c / 64);
    r / 64 * CeilDiv64(I) + c / 64
  }

  lemma BlockIndexBound(tilesY: nat, tilesX: nat, row: nat, col: nat)
    requires row < tilesY && col < tilesX
    ensures 0 <= row * tilesX + col < tilesY * tilesX
  {
    assert (row + 1) * tilesX <= tilesY * tilesX;
  }

  lemma ParsedWellFormed(b: seq<byte>, O: nat, I: nat)
    requires Parse(b, O, I).Ok?
    ensures |Parse(b, O, I).value| == CeilDiv64(O) * CeilDiv64(I)
    ensures forall k :: 0 <= k < |Parse(b, O, I).value| ==> WellFormed(Parse(b, O, I).value[k])
  {
    hide ParseRecords, WellFormed, CeilDiv64;
    var blockCount := U32At(b, 5);
    var region := AlignUp(V2_FIXED_HEADER_BYTES + UINT32_BYTES * blockCount);
    ParsedRecordsWellFormed(b, region, WordsAt(b, V2_FIXED_HEADER_BYTES, blockCount), -1);
  }

  /** Value of tensor cell (r, c). */
  function Cell(records: seq<seq<DecodedLeaf>>, O: nat, I: nat, r: nat, c: nat): Float
    requires |records| == CeilDiv64(O) * CeilDiv64(I) && r < O && c < I
    requires forall k :: 0 <= k < |records| ==> WellFormed(records[k])
  {
    CellOfBlock(records[BlockIndex(O, I, r, c)], r % 64, c % 64)
  }
}
