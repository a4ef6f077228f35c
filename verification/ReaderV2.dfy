/** The loops of the v2 reference decoder, filling the output array tile by tile. */
module ReaderV2 {
  import opened Bits
  import opened Format
  import opened Basics
  import opened Half
  import opened Quadtree
  import opened Layouts
  import opened DecoderV2
  import SplitMap

  /** out[top:top+size, left:left+size] = scale * codes + bias, reshaped. */
  method WriteTile(out: array2<Float>, top: nat, left: nat, leaf: DecodedLeaf)
    requires |leaf.codes| == leaf.sq.size * leaf.sq.size
    requires top + leaf.sq.size <= out.Length0 && left + leaf.sq.size <= out.Length1
    modifies out
    ensures forall r, c | 0 <= r < out.Length0 && 0 <= c < out.Length1 ::
              var tile := Square(top, left, leaf.sq.size);
              out[r, c] == if Contains(tile, r, c)
                           then Affine(leaf.scale, leaf.codes[CodeIndex(tile, r, c)], leaf.bias)
                           else old(out[r, c])
  {
    hide Affine;
    var size := leaf.sq.size;
    forall r, c | top <= r < top + size && left <= c < left + size {
      out[r, c] := Affine(leaf.scale, leaf.codes[CodeIndex(Square(top, left, size), r, c)], leaf.bias);
    }
  }

  predicate FullCodes(leaves: seq<DecodedLeaf>) {
    forall i :: 0 <= i < |leaves| ==> |leaves[i].codes| == leaves[i].sq.size * leaves[i].sq.size
  }

  /** Value of a cell located in one of the leaves already decoded. */
  function DoneValue(squares: seq<Square>, done: seq<DecodedLeaf>, r: nat, c: nat): Float
    requires |done| <= |squares| && DecodedSquares(done) == squares[..|done|] && FullCodes(done)
    requires Locate(squares, r, c) < |done|
  {
    var leaf := done[Locate(squares, r, c)];
    DoneLeafContains(squares, done, r, c);
    Affine(leaf.scale, leaf.codes[CodeIndex(leaf.sq, r, c)], leaf.bias)
  }

  /** Every cell of one macroblock located in a decoded leaf holds its value. */
  ghost predicate LeavesWritten(out: array2<Float>, top: nat, left: nat, squares: seq<Square>, done: seq<DecodedLeaf>)
    requires top + 64 <= out.Length0 && left + 64 <= out.Length1
    requires |done| <= |squares| && DecodedSquares(done) == squares[..|done|] && FullCodes(done)
    reads out
  {
    forall r, c | 0 <= r < 64 && 0 <= c < 64 && Locate(squares, r, c) < |done| ::
      out[top + r, left + c] == DoneValue(squares, done, r, c)
  }

  lemma DoneLeafContains(squares: seq<Square>, done: seq<DecodedLeaf>, r: nat, c: nat)
    requires |done| <= |squares| && DecodedSquares(done) == squares[..|done|] && Locate(squares, r, c) < |done|
    ensures Contains(done[Locate(squares, r, c)].sq, r, c)
  {
    var i := Locate(squares, r, c);
    assert done[i].sq == DecodedSquares(done)[i] == squares[i];
  }

  /** Everything outside one macroblock is as before. */
  twostate predicate OutsideUnchanged(out: array2<Float>, top: nat, left: nat)
    reads out
  {
    forall r, c | 0 <= r < out.Length0 && 0 <= c < out.Length1
                  && !(top <= r < top + 64 && left <= c < left + 64) :: out[r, c] == old(out[r, c])
  }

  lemma NoneWritten(out: array2<Float>, top: nat, left: nat, squares: seq<Square>)
    requires top + 64 <= out.Length0 && left + 64 <= out.Length1
    ensures DecodedSquares([]) == squares[..0] && FullCodes([]) && LeavesWritten(out, top, left, squares, [])
  {
  }

  /** The leaves of one record, each decoded and written as a tile. */
  method ReadLeaves(b: seq<byte>, start: nat, squares: seq<Square>, headers: seq<uint32>,
                    out: array2<Float>, top: nat, left: nat) returns (r: Result<(), FormatError>)
    requires |squares| == |headers| && LeafSizes(squares) && ExactTiling(squares, MACROBLOCK)
    requires top + 64 <= out.Length0 && left + 64 <= out.Length1
    modifies out
    ensures var leaves := ParseLeaves(b, start, squares, headers);
            if leaves.Err? then r == Err(leaves.error)
            else r.Ok? && LeavesWritten(out, top, left, squares, leaves.value)
    ensures OutsideUnchanged(out, top, left)
  {
    hide ParseLeaf, ParseLeaves, Affine, ExactTiling, LeavesWritten, DecodedSquares, Remaining, FullCodes, LeafSizes;
    NoneWritten(out, top, left, squares);
    var pos := start;
    ghost var done: seq<DecodedLeaf> := [];
    ghost var whole := ParseLeaves(b, start, squares, headers);
    NothingDone(b, start, squares, headers);
    for m := 0 to |squares|
      invariant |done| == m && DecodedSquares(done) == squares[..m]
      invariant FullCodes(done)
      invariant LeafSizes(squares[m..]) && Remaining(whole, done, ParseLeaves(b, pos, squares[m..], headers[m..]))
      invariant LeavesWritten(out, top, left, squares, done)
      invariant OutsideUnchanged(out, top, left)
    {
      OneMore(b, pos, squares, headers, m, whole, done);
      var leaf := ParseLeaf(b, pos, squares[m], headers[m]);
      if leaf.Err? { return Err(leaf.error); }
      WriteNext(out, top, left, squares, done, leaf.value.0);
      done := done + [leaf.value.0];
      pos := leaf.value.1;
    }
    AllDone(b, pos, squares, headers, whole, done);
    r := Ok(());
  }

  lemma NothingDone(b: seq<byte>, start: nat, squares: seq<Square>, headers: seq<uint32>)
    requires |squares| == |headers| && LeafSizes(squares)
    ensures LeafSizes(squares[0..])
    ensures Remaining(ParseLeaves(b, start, squares, headers), [], ParseLeaves(b, start, squares[0..], headers[0..]))
  {
    hide ParseLeaves;
    var whole := ParseLeaves(b, start, squares, headers);
    assert squares[0..] == squares && headers[0..] == headers;
    assert whole.Ok? ==> [] + whole.value == whole.value;
  }

  /** Moving on by one leaf. */
  lemma OneMore(b: seq<byte>, pos: nat, squares: seq<Square>, headers: seq<uint32>, m: nat,
                whole: Result<seq<DecodedLeaf>, FormatError>, done: seq<DecodedLeaf>)
    requires |squares| == |headers| && m < |squares| && LeafSizes(squares[m..]) && FullCodes(done)
    requires Remaining(whole, done, ParseLeaves(b, pos, squares[m..], headers[m..]))
    ensures IsLeafSize(squares[m].size) && LeafSizes(squares[m + 1..])
    ensures var leaf := ParseLeaf(b, pos, squares[m], headers[m]);
            if leaf.Err? then whole == Err(leaf.error)
            else
              && Remaining(whole, done + [leaf.value.0],
                           ParseLeaves(b, leaf.value.1, squares[m + 1..], headers[m + 1..]))
              && FullCodes(done + [leaf.value.0])
  {
    hide ParseLeaf, ParseLeaves;
    assert squares[m..][0] == squares[m] && headers[m..][0] == headers[m];
    assert squares[m..][1..] == squares[m + 1..] && headers[m..][1..] == headers[m + 1..];
    UnfoldLeaves(b, pos, squares[m..], headers[m..]);
    var leaf := ParseLeaf(b, pos, squares[m], headers[m]);
    if leaf.Ok? {
      var rest := ParseLeaves(b, leaf.value.1, squares[m + 1..], headers[m + 1..]);
      assert rest.Ok? ==> done + ([leaf.value.0] + rest.value) == done + [leaf.value.0] + rest.value;
    }
  }

  lemma AllDone(b: seq<byte>, pos: nat, squares: seq<Square>, headers: seq<uint32>,
                whole: Result<seq<DecodedLeaf>, FormatError>, done: seq<DecodedLeaf>)
    requires |squares| == |headers| && LeafSizes(squares[|squares|..])
    requires Remaining(whole, done, ParseLeaves(b, pos, squares[|squares|..], headers[|squares|..]))
    ensures whole == Ok(done)
  {
    UnfoldLeaves(b, pos, squares[|squares|..], headers[|squares|..]);
    hide ParseLeaves;
    assert done + [] == done;
  }

  /** The tile of the next leaf. */
  method WriteNext(out: array2<Float>, top: nat, left: nat, ghost squares: seq<Square>, ghost done: seq<DecodedLeaf>,
                   leaf: DecodedLeaf)
    requires ExactTiling(squares, MACROBLOCK)
    requires top + 64 <= out.Length0 && left + 64 <= out.Length1
    requires |done| < |squares| && DecodedSquares(done) == squares[..|done|] && FullCodes(done)
    requires leaf.sq == squares[|done|] && |leaf.codes| == leaf.sq.size * leaf.sq.size
    requires LeavesWritten(out, top, left, squares, done)
    modifies out
    ensures DecodedSquares(done + [leaf]) == squares[..|done| + 1]
    ensures LeavesWritten(out, top, left, squares, done + [leaf])
    ensures OutsideUnchanged(out, top, left)
  {
    hide ExactTiling, Affine;
    var n := |done|;
    LeafInside(squares, n);
    NextSquares(squares, done, leaf);
    WriteTile(out, top + leaf.sq.y, left + leaf.sq.x, leaf);
    ghost var tile := Square(top + leaf.sq.y, left + leaf.sq.x, leaf.sq.size);
    // The tile covers exactly the cells located in this leaf; the leaves being disjoint, no earlier ones.
    forall r, c | 0 <= r < 64 && 0 <= c < 64 && Locate(squares, r, c) < n + 1
      ensures out[top + r, left + c] == DoneValue(squares, done + [leaf], r, c)
    {
      DoneLeafContains(squares, done + [leaf], r, c);
      if Locate(squares, r, c) < n {
        NotInLater(squares, n, r, c);
        assert !Contains(tile, top + r, left + c);
        assert old(out[top + r, left + c]) == DoneValue(squares, done, r, c);
      } else {
        assert Contains(tile, top + r, left + c);
      }
    }
  }

  /** The whole parse is what is done so far followed by what remains. */
  ghost predicate Remaining(whole: Result<seq<DecodedLeaf>, FormatError>, done: seq<DecodedLeaf>,
                            rest: Result<seq<DecodedLeaf>, FormatError>) {
    whole == if rest.Err? then rest else Ok(done + rest.value)
  }

  lemma LeafInside(squares: seq<Square>, m: nat)
    requires ExactTiling(squares, MACROBLOCK) && m < |squares|
    ensures squares[m].y + squares[m].size <= 64 && squares[m].x + squares[m].size <= 64
  {
    assert Inside(squares[m], MACROBLOCK);
  }

  lemma NextSquares(squares: seq<Square>, done: seq<DecodedLeaf>, leaf: DecodedLeaf)
    requires |done| < |squares| && DecodedSquares(done) == squares[..|done|] && leaf.sq == squares[|done|]
    ensures DecodedSquares(done + [leaf]) == squares[..|done| + 1]
  {
    forall i | 0 <= i <= |done|
      ensures DecodedSquares(done + [leaf])[i] == squares[..|done| + 1][i]
    {
      assert i < |done| ==> DecodedSquares(done)[i] == squares[i];
    }
  }

  lemma NotInLater(squares: seq<Square>, n: nat, r: nat, c: nat)
    requires ExactTiling(squares, MACROBLOCK) && n < |squares| && Locate(squares, r, c) < n
    ensures !Contains(squares[n], r, c)
  {
    assert Apart(squares[Locate(squares, r, c)], squares[n]);
  }

  // --------------------------------------------------------------- records

  /** One record: header, geometry, header table, padding, leaves. */
  method ReadRecord(b: seq<byte>, base: nat, out: array2<Float>, top: nat, left: nat)
    returns (r: Result<(), FormatError>)
    requires top + 64 <= out.Length0 && left + 64 <= out.Length1
    modifies out
    ensures var leaves := ParseRecord(b, base);
            if leaves.Err? then r == Err(leaves.error)
            else r.Ok? && BlockWritten(out, top, left, leaves.value)
    ensures OutsideUnchanged(out, top, left)
  {
    hide ParseLeaves, ExactTiling, RecordLeaves, And, Shr, U32At, WordsAt, PySlice, LeavesWritten;
    if base + UINT32_BYTES > |b| { return Err(RecordHeaderTruncated); }
    var sbHeader := U32At(b, base);
    var layoutValue := And(sbHeader, 0x7);
    if layoutValue >= 6 { return Err(UnknownLayout); }
    var layout := LayoutOf(layoutValue);
    if Shr(sbHeader, 3) != 0 { return Err(ReservedHeaderBits); }
    var geometry := ReadGeometry(b, layout, base + UINT32_BYTES);
    if geometry.Err? { return Err(geometry.error); }
    RecordLeavesTile(b, layout, base + UINT32_BYTES);
    var squares, pos := geometry.value.0, geometry.value.1;
    var blockHeaderBytes := UINT32_BYTES * |squares|;
    if pos + blockHeaderBytes > |b| { return Err(LeafTableTruncated); }
    var blockHeaders := WordsAt(b, pos, |squares|);
    pos := pos + blockHeaderBytes;
    var headerPad := Padding(pos - base);
    if PySlice(b, pos, pos + headerPad) != Zeros(headerPad) { return Err(BadHeaderPad); }
    r := ReadLeaves(b, pos + headerPad, squares, blockHeaders, out, top, left);
    if r.Ok? { WrittenBlock(out, top, left, squares, ParseLeaves(b, pos + headerPad, squares, blockHeaders).value); }
  }

  method ReadGeometry(b: seq<byte>, layout: Layout, pos: nat) returns (r: Result<(seq<Square>, nat), FormatError>)
    ensures r == RecordLeaves(b, layout, pos)
  {
    hide PySlice, RowMajor;
    if layout == MIXED {
      var leaves := SplitMap.ReadSplitMap(PySlice(b, pos, pos + SPLIT_MAP_BYTES));
      if leaves.Err? { return Err(BadSplitMap(leaves.error)); }
      return Ok((leaves.value, pos + SPLIT_MAP_BYTES));
    }
    r := Ok((RowMajor(UniformSize(layout)), pos));
  }

  /** A macroblock of the output holds the cells of its record. */
  ghost predicate BlockWritten(out: array2<Float>, top: nat, left: nat, leaves: seq<DecodedLeaf>)
    requires top + 64 <= out.Length0 && left + 64 <= out.Length1
    reads out
  {
    WellFormed(leaves) &&
    forall r, c | 0 <= r < 64 && 0 <= c < 64 :: out[top + r, left + c] == CellOfBlock(leaves, r, c)
  }

  lemma WrittenBlock(out: array2<Float>, top: nat, left: nat, squares: seq<Square>, leaves: seq<DecodedLeaf>)
    requires top + 64 <= out.Length0 && left + 64 <= out.Length1
    requires ExactTiling(squares, MACROBLOCK) && DecodedSquares(leaves) == squares
    requires FullCodes(leaves)
    requires squares[..|leaves|] == squares && LeavesWritten(out, top, left, squares, leaves)
    ensures BlockWritten(out, top, left, leaves)
  {
    hide Affine, ExactTiling;
    forall r, c | 0 <= r < 64 && 0 <= c < 64
      ensures out[top + r, left + c] == CellOfBlock(leaves, r, c)
    {
      LocateInTiling(squares, r, c);
      DoneLeafContains(squares, leaves, r, c);
    }
  }

  // ---------------------------------------------------------- whole stream

  /** First row and column of block k in a grid tilesX blocks wide. */
  function Top(k: nat, tilesX: nat): nat
    requires tilesX > 0
  {
    64 * (k / tilesX)
  }

  function Left(k: nat, tilesX: nat): nat
    requires tilesX > 0
  {
    64 * (k % tilesX)
  }

  lemma BlockInGrid(k: nat, tilesY: nat, tilesX: nat)
    requires k < tilesY * tilesX
    ensures tilesX > 0 && Top(k, tilesX) + 64 <= 64 * tilesY && Left(k, tilesX) + 64 <= 64 * tilesX
  {
    assert tilesX != 0;
    QuotientBound(k, tilesY, tilesX);
  }

  lemma QuotientBound(k: nat, n: nat, d: nat)
    requires d > 0 && k < n * d
    ensures k / d < n
  {
    var q := k / d;
    assert q * d <= k;
    assert q >= n ==> (q - n) * d >= 0;
  }

  /** Different blocks lie at least one block apart in one direction. */
  lemma BlocksDisjoint(j: nat, k: nat, tilesX: nat)
    requires tilesX > 0 && j != k
    ensures || Top(j, tilesX) + 64 <= Top(k, tilesX) || Top(k, tilesX) + 64 <= Top(j, tilesX)
            || Left(j, tilesX) + 64 <= Left(k, tilesX) || Left(k, tilesX) + 64 <= Left(j, tilesX)
  {
    assert j == tilesX * (j / tilesX) + j % tilesX && k == tilesX * (k / tilesX) + k % tilesX;
  }

  /** All blocks decoded so far stand in the output. */
  ghost predicate BlocksWritten(out: array2<Float>, tilesY: nat, tilesX: nat, done: seq<seq<DecodedLeaf>>)
    requires out.Length0 == 64 * tilesY && out.Length1 == 64 * tilesX && |done| <= tilesY * tilesX
    reads out
  {
    forall j | 0 <= j < |done| :: GridBlockWritten(out, tilesY, tilesX, j, done[j])
  }

  ghost predicate GridBlockWritten(out: array2<Float>, tilesY: nat, tilesX: nat, j: nat, leaves: seq<DecodedLeaf>)
    requires out.Length0 == 64 * tilesY && out.Length1 == 64 * tilesX && j < tilesY * tilesX
    reads out
  {
    BlockInGrid(j, tilesY, tilesX);
    BlockWritten(out, Top(j, tilesX), Left(j, tilesX), leaves)
  }

  /** Block k: reading it adds its cells and leaves the earlier blocks alone. */
  method ReadBlock(b: seq<byte>, base: nat, out: array2<Float>, tilesY: nat, tilesX: nat, k: nat,
                   ghost done: seq<seq<DecodedLeaf>>)
    returns (r: Result<(), FormatError>)
    requires out.Length0 == 64 * tilesY && out.Length1 == 64 * tilesX && |done| == k < tilesY * tilesX
    requires BlocksWritten(out, tilesY, tilesX, done)
    modifies out
    ensures var leaves := ParseRecord(b, base);
            if leaves.Err? then r == Err(leaves.error)
            else r.Ok? && BlocksWritten(out, tilesY, tilesX, done + [leaves.value])
  {
    hide ParseRecord, WellFormed, CellOfBlock, Top, Left;
    BlockInGrid(k, tilesY, tilesX);
    var top, left := BlockOrigin(k, tilesX);
    r := ReadRecord(b, base, out, top, left);
    if r.Ok? {
      ghost var next := done + [ParseRecord(b, base).value];
      forall j | 0 <= j <= k
        ensures GridBlockWritten(out, tilesY, tilesX, j, next[j])
      {
        BlockInGrid(j, tilesY, tilesX);
        if j < k {
          BlocksDisjoint(j, k, tilesX);
          assert old(GridBlockWritten(out, tilesY, tilesX, j, done[j]));
        }
      }
    }
  }

  /** block_y, block_x = divmod(k, tiles_x) */
  method BlockOrigin(k: nat, tilesX: nat) returns (top: nat, left: nat)
    requires tilesX > 0
    ensures top == Top(k, tilesX) && left == Left(k, tilesX)
  {
    var blockY, blockX := k / tilesX, k % tilesX;
    top, left := 64 * blockY, 64 * blockX;
  }

  /** The decoder: reject, or fill the padded output; the result is its O x I corner. */
  method ReadStream(b: seq<byte>, O: nat, I: nat) returns (r: Result<array2<Float>, FormatError>)
    ensures Parse(b, O, I).Err? ==> r == Err(Parse(b, O, I).error)
    ensures Parse(b, O, I).Ok? ==>
              && r.Ok? && r.value.Length0 == 64 * CeilDiv64(O) && r.value.Length1 == 64 * CeilDiv64(I)
              && |Parse(b, O, I).value| == CeilDiv64(O) * CeilDiv64(I)
              && (forall k :: 0 <= k < |Parse(b, O, I).value| ==> WellFormed(Parse(b, O, I).value[k]))
              && forall row, col | 0 <= row < O && 0 <= col < I ::
                   r.value[row, col] == Cell(Parse(b, O, I).value, O, I, row, col)
  {
    hide ParseRecords, PySlice, U32At, WordsAt, BlocksWritten, WellFormed, CellOfBlock, CeilDiv64, Zeros, BlockIndex;
    if |b| < V2_FIXED_HEADER_BYTES { return Err(FixedHeaderTruncated); }
    if b[..4] != SGFP4_MAGIC { return Err(BadMagic); }
    if b[4] != SGFP4_VERSION_V2 { return Err(BadVersion); }
    var blockCount := U32At(b, 5);
    var pad0 := b[9..V2_FIXED_HEADER_BYTES];
    if pad0 != Zeros(V2_HEADER_PAD_BYTES) { return Err(MissingHeaderPad); }
    var tableEnd := V2_FIXED_HEADER_BYTES + UINT32_BYTES * blockCount;
    if |b| < tableEnd { return Err(OffsetTableTruncated); }
    var recordOffsets := WordsAt(b, V2_FIXED_HEADER_BYTES, blockCount);
    var recordRegion := AlignUp(tableEnd);
    var pad1 := PySlice(b, tableEnd, recordRegion);
    if pad1 != Zeros(recordRegion - tableEnd) { return Err(BadOffsetTablePad); }
    if |b| < recordRegion { return Err(RecordRegionTruncated); }
    var tilesY, tilesX := CeilDiv64(O), CeilDiv64(I);
    if tilesY * tilesX != blockCount { return Err(WrongRecordCount); }

    assert Parse(b, O, I) == ParseRecords(b, recordRegion, recordOffsets, -1);
    var records;
    ghost var whole := ParseRecords(b, recordRegion, recordOffsets, -1);
    records := ReadRecords(b, recordRegion, recordOffsets, tilesY, tilesX);
    if records.Err? { return Err(records.error); }
    r := records;
    ParsedWellFormed(b, O, I);
    forall row, col | 0 <= row < O && 0 <= col < I
      ensures records.value[row, col] == Cell(whole.value, O, I, row, col)
    {
      WrittenCell(records.value, whole.value, O, I, row, col);
    }
  }

  lemma WrittenCell(out: array2<Float>, records: seq<seq<DecodedLeaf>>, O: nat, I: nat, row: nat, col: nat)
    requires row < O && col < I && |records| == CeilDiv64(O) * CeilDiv64(I)
    requires out.Length0 == 64 * CeilDiv64(O) && out.Length1 == 64 * CeilDiv64(I)
    requires forall k :: 0 <= k < |records| ==> WellFormed(records[k])
    requires BlocksWritten(out, CeilDiv64(O), CeilDiv64(I), records)
    ensures out[row, col] == Cell(records, O, I, row, col)
  {
    var k := BlockIndex(O, I, row, col);
    var tilesX := CeilDiv64(I);
    BlockInGrid(k, CeilDiv64(O), tilesX);
    assert tilesX * (row / 64) == row / 64 * tilesX;
    Bits.DivModUnique(k, tilesX, row / 64, col / 64);
    hide BlockIndex, CeilDiv64, WellFormed, CellOfBlock;
    assert GridBlockWritten(out, CeilDiv64(O), tilesX, k, records[k]);
    assert Top(k, tilesX) + row % 64 == row && Left(k, tilesX) + col % 64 == col;
  }

  /** The record loop. */
  method ReadRecords(b: seq<byte>, region: nat, offsets: seq<uint32>, tilesY: nat, tilesX: nat)
    returns (r: Result<array2<Float>, FormatError>)
    requires |offsets| == tilesY * tilesX
    ensures var whole := ParseRecords(b, region, offsets, -1);
            if whole.Err? then r == Err(whole.error)
            else
              && |whole.value| == |offsets| && r.Ok?
              && r.value.Length0 == 64 * tilesY && r.value.Length1 == 64 * tilesX
              && BlocksWritten(r.value, tilesY, tilesX, whole.value)
  {
    hide ParseRecord, ParseRecords, BlocksWritten;
    var out := new Float[64 * tilesY, 64 * tilesX]((i, j) => Finite(0.0));
    NothingWritten(out, tilesY, tilesX);
    var previous: int := -1;
    ghost var done: seq<seq<DecodedLeaf>> := [];
    ghost var whole := ParseRecords(b, region, offsets, -1);
    assert offsets[0..] == offsets;
    assert whole.Ok? ==> [] + whole.value == whole.value;
    for k := 0 to |offsets|
      invariant |done| == k
      invariant RemainingRecords(whole, done, ParseRecords(b, region, offsets[k..], previous))
      invariant BlocksWritten(out, tilesY, tilesX, done)
    {
      UnfoldParse(b, region, offsets[k..], previous);
      assert offsets[k..][1..] == offsets[k + 1..];
      var recordOffset := offsets[k];
      if recordOffset % ALIGNMENT != 0 { return Err(MisalignedOffset); }
      if recordOffset <= previous { return Err(OffsetsNotIncreasing); }
      previous := recordOffset;
      var read := ReadBlock(b, region + recordOffset, out, tilesY, tilesX, k, done);
      if read.Err? { return Err(read.error); }
      ghost var leaves := ParseRecord(b, region + recordOffset).value;
      ghost var rest := ParseRecords(b, region, offsets[k + 1..], recordOffset);
      assert rest.Ok? ==> done + ([leaves] + rest.value) == done + [leaves] + rest.value;
      done := done + [leaves];
    }
    UnfoldParse(b, region, offsets[|offsets|..], previous);
    assert done + [] == done;
    r := Ok(out);
  }

  lemma NothingWritten(out: array2<Float>, tilesY: nat, tilesX: nat)
    requires out.Length0 == 64 * tilesY && out.Length1 == 64 * tilesX
    ensures BlocksWritten(out, tilesY, tilesX, [])
  {
  }

  ghost predicate RemainingRecords(whole: Result<seq<seq<DecodedLeaf>>, FormatError>, done: seq<seq<DecodedLeaf>>,
                                   rest: Result<seq<seq<DecodedLeaf>>, FormatError>) {
    whole == if rest.Err? then rest else Ok(done + rest.value)
  }

  lemma UnfoldParse(b: seq<byte>, region: nat, offsets: seq<uint32>, previous: int)
    ensures |offsets| == 0 ==> ParseRecords(b, region, offsets, previous) == Ok([])
    ensures |offsets| > 0 ==>
              ParseRecords(b, region, offsets, previous) ==
                if offsets[0] % ALIGNMENT != 0 then Err(MisalignedOffset)
                else if offsets[0] <= previous then Err(OffsetsNotIncreasing)
                else
                  var first := ParseRecord(b, region + offsets[0]);
                  if first.Err? then Err(first.error)
                  else
                    var rest := ParseRecords(b, region, offsets[1..], offsets[0]);
                    if rest.Err? then rest else Ok([first.value] + rest.value)
  {
    hide ParseRecord;
  }
}
