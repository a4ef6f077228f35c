/** The loops of the v2 exporter: leaf headers, payload chunks, records, and the running offset. */
module WriterV2 {
  import opened Format
  import opened Basics
  import opened Quadtree
  import opened Layouts
  import opened Headers
  import opened ExporterV2
  import opened QuadtreeEncoder
  import opened CodecV2
  import SplitMap

  /** Leaf headers and padded payloads of one record, leaf by leaf. */
  method WriteLeaves(toHalf: HalfEncoder, leaves: seq<Leaf>) returns (headers: seq<byte>, payloads: seq<byte>)
    ensures headers == WordsBytes(HeaderWords(toHalf, leaves))
    ensures payloads == Payloads(leaves)
  {
    hide Payloads, WordsBytes, LeafHeader, LE32, ZeroPad;
    headers, payloads := [], [];
    NoBytes();
    for i := 0 to |leaves|
      invariant headers + WordsBytes(HeaderWords(toHalf, leaves[i..])) == WordsBytes(HeaderWords(toHalf, leaves))
      invariant payloads + Payloads(leaves[i..]) == Payloads(leaves)
    {
      var leaf := leaves[i];
      var packed := LeafHeader(toHalf(ClipHalf(leaf.scale)), toHalf(ClipHalf(leaf.bias)), leaf.mode);
      assert leaves[i..] == [leaf] + leaves[i + 1..];
      assert HeaderWords(toHalf, leaves[i..]) == [packed] + HeaderWords(toHalf, leaves[i + 1..]);
      WordsBytesCons(packed, HeaderWords(toHalf, leaves[i + 1..]));
      PayloadsCons(leaves[i..]);
      headers := headers + LE32(packed);
      payloads := payloads + ZeroPad(WordsBytes(leaf.payload));
    }
    assert leaves[|leaves|..] == [] && HeaderWords(toHalf, []) == [];
  }

  lemma NoBytes()
    ensures WordsBytes([]) == [] && Payloads([]) == []
  {
  }

  lemma PayloadsCons(leaves: seq<Leaf>)
    requires |leaves| > 0
    ensures Payloads(leaves) == ZeroPad(WordsBytes(leaves[0].payload)) + Payloads(leaves[1..])
  {
    hide ZeroPad, WordsBytes;
  }

  /** One record. */
  method WriteRecord(toHalf: HalfEncoder, blocks: seq<Leaf>) returns (r: Result<seq<byte>, ExportError>)
    ensures r == Record(toHalf, blocks)
  {
    hide ClassifyLayout, SortLeaves, ZeroPad, WordsBytes, Payloads, HeaderWords, LE32;
    var layout := ClassifyLayout(Squares(blocks));
    var splitMap: seq<byte>, leaves := [], blocks;
    if layout == MIXED {
      var built := SplitMap.WriteSplitMap(Squares(blocks));
      if built.Err? { return Err(SplitMapFailed(built.error)); }
      splitMap := built.value;
    } else {
      leaves := SortLeaves(blocks);
    }
    var sbHeader := LE32(LayoutValue(layout));
    var headers, payloads := WriteLeaves(toHalf, leaves);
    var headerSection := ZeroPad(sbHeader + splitMap + headers);
    r := Ok(ZeroPad(headerSection + payloads));
  }

  /** Putting what is written so far in front of what the rest yields. */
  function Prepend(offsets: seq<uint32>, bytes: seq<byte>, rest: Result<Written, ExportError>)
    : Result<Written, ExportError>
  {
    if rest.Err? then rest else Ok(Written(offsets + rest.value.offsets, bytes + rest.value.bytes))
  }

  lemma PrependStep(toHalf: HalfEncoder, superblocks: seq<seq<Leaf>>, index: nat, offset: nat,
                    offsets: seq<uint32>, bytes: seq<byte>)
    requires index < |superblocks|
    ensures var record := Record(toHalf, superblocks[index]);
            Prepend(offsets, bytes, Records(toHalf, superblocks[index..], offset)) ==
              if record.Err? then Err(record.error)
              else if offset % ALIGNMENT != 0 then Err(MisalignedRecord)
              else if offset >= UINT32_LIMIT then Err(OffsetOverflow)
              else Prepend(offsets + [offset as uint32], bytes + record.value,
                           Records(toHalf, superblocks[index + 1..], offset + |record.value|))
  {
    hide Record, Records;
    UnfoldRecords(toHalf, superblocks[index..], offset);
    assert superblocks[index..][1..] == superblocks[index + 1..];
    var record := Record(toHalf, superblocks[index]);
    if record.Ok? && offset % ALIGNMENT == 0 && offset < UINT32_LIMIT {
      var rest := Records(toHalf, superblocks[index + 1..], offset + |record.value|);
      if rest.Ok? {
        var o := [offset as uint32];
        assert offsets + (o + rest.value.offsets) == offsets + o + rest.value.offsets;
        assert bytes + (record.value + rest.value.bytes) == bytes + record.value + rest.value.bytes;
      }
    }
  }

  /** The whole container: records one after the other, then the framing in front. */
  method WriteStream(toHalf: HalfEncoder, superblocks: seq<seq<Leaf>>) returns (r: Result<seq<byte>, ExportError>)
    ensures r == Export(toHalf, superblocks)
  {
    hide Record, Records, Framing;
    var recordOffsets := new uint32[|superblocks|](_ => 0);
    var chunks: seq<byte>, currentOffset := [], 0;
    assert superblocks[0..] == superblocks;
    EmptyPrepend(Records(toHalf, superblocks, 0));
    for index := 0 to |superblocks|
      invariant currentOffset == |chunks|
      invariant Records(toHalf, superblocks, 0) ==
                Prepend(recordOffsets[..index], chunks, Records(toHalf, superblocks[index..], currentOffset))
    {
      PrependStep(toHalf, superblocks, index, currentOffset, recordOffsets[..index], chunks);
      var record := WriteRecord(toHalf, superblocks[index]);
      if record.Err? { return Err(record.error); }
      if currentOffset % ALIGNMENT != 0 { return Err(MisalignedRecord); }
      if currentOffset >= UINT32_LIMIT { return Err(OffsetOverflow); }
      recordOffsets[index] := currentOffset;
      assert recordOffsets[..index + 1] == recordOffsets[..index] + [currentOffset as uint32];
      chunks := chunks + record.value;
      currentOffset := currentOffset + |record.value|;
    }
    NoRecords(toHalf, currentOffset);
    assert superblocks[|superblocks|..] == [];
    assert recordOffsets[..] == recordOffsets[..|superblocks|] + [] && chunks == chunks + [];
    assert Records(toHalf, superblocks, 0) == Ok(Written(recordOffsets[..], chunks));
    if |superblocks| >= UINT32_LIMIT { return Err(OffsetOverflow); }
    r := Ok(Framing(recordOffsets[..]) + chunks);
  }

  lemma EmptyPrepend(rest: Result<Written, ExportError>)
    ensures Prepend([], [], rest) == rest
  {
    if rest.Ok? {
      assert [] + rest.value.offsets == rest.value.offsets && [] + rest.value.bytes == rest.value.bytes;
    }
  }

  lemma NoRecords(toHalf: HalfEncoder, offset: nat)
    ensures Records(toHalf, [], offset) == Ok(Written([], []))
  {
  }

  // ------------------------------------------------------- leaf selection

  /** The leaves of the first n quadrants of a block that was not accepted. */
  function QuadrantLeaves(enc: Encoder, sb: Grid, s: Square, depth: nat, n: nat): Result<seq<Leaf>, EncodeError>
    requires n <= 4
  {
    if n == 0 then Ok([])
    else
      var before := QuadrantLeaves(enc, sb, s, depth, n - 1);
      if before.Err? then before
      else
        var next := TryBlock(enc, sb, Quadrant(s, n - 1), false, depth + 1);
        if next.Err? then next else Ok(before.value + next.value)
  }

  lemma {:induction false} QuadrantError(enc: Encoder, sb: Grid, s: Square, depth: nat, m: nat, n: nat)
    requires m <= n <= 4 && QuadrantLeaves(enc, sb, s, depth, m).Err?
    ensures QuadrantLeaves(enc, sb, s, depth, n) == QuadrantLeaves(enc, sb, s, depth, m)
    decreases n
  {
    hide TryBlock;
    if m < n { QuadrantError(enc, sb, s, depth, m, n - 1); }
  }

  lemma {:induction false} AllQuadrants(enc: Encoder, sb: Grid, s: Square, parentAccepted: bool, depth: nat)
    requires depth <= MAX_RECURSION_DEPTH && !Accepts(enc, Region(sb, s), s.size, parentAccepted)
    ensures TryBlock(enc, sb, s, parentAccepted, depth) == QuadrantLeaves(enc, sb, s, depth, 4)
  {
    TryBlockStep(enc, sb, s, parentAccepted, depth);
    hide TryBlock, Accepts, Region, Quadrant;
    var q1 := QuadrantLeaves(enc, sb, s, depth, 1);
    var r0 := TryBlock(enc, sb, Quadrant(s, 0), false, depth + 1);
    assert QuadrantLeaves(enc, sb, s, depth, 0) == Ok([]);
    assert q1 == r0 by { if r0.Ok? { assert [] + r0.value == r0.value; } }
    var q2, q3 := QuadrantLeaves(enc, sb, s, depth, 2), QuadrantLeaves(enc, sb, s, depth, 3);
    assert q1.Err? ==> q2 == q1;
    assert q2.Err? ==> q3 == q2;
  }

  /** The encoder's recursion: accept the block, or collect the leaves of its four quadrants. */
  method SelectLeaves(enc: Encoder, sb: Grid, s: Square, parentAccepted: bool, depth: nat)
    returns (r: Result<seq<Leaf>, EncodeError>)
    ensures r == TryBlock(enc, sb, s, parentAccepted, depth)
    decreases if depth <= MAX_RECURSION_DEPTH then MAX_RECURSION_DEPTH + 1 - depth else 0
  {
    hide TryBlock, Accepts, MakeLeaf, Region, Quadrant;
    TryBlockStep(enc, sb, s, parentAccepted, depth);
    if depth > MAX_RECURSION_DEPTH { return Err(RecursionTooDeep); }
    var accept := Accepts(enc, Region(sb, s), s.size, parentAccepted);
    if accept { return Ok([MakeLeaf(enc, sb, s)]); }
    AllQuadrants(enc, sb, s, parentAccepted, depth);
    var results: seq<Leaf> := [];
    for dy := 0 to 2
      invariant QuadrantLeaves(enc, sb, s, depth, 2 * dy) == Ok(results)
    {
      for dx := 0 to 2
        invariant QuadrantLeaves(enc, sb, s, depth, 2 * dy + dx) == Ok(results)
      {
        var k := 2 * dy + dx;
        r := SelectLeaves(enc, sb, Quadrant(s, k), accept, depth + 1);
        if r.Err? {
          QuadrantError(enc, sb, s, depth, k + 1, 4);
          return;
        }
        results := results + r.value;
      }
    }
    r := Ok(results);
  }

  /** The exporter: encode every macroblock, then write the container. */
  method WriteTensor(toHalf: HalfEncoder, enc: Encoder, weights: Grid, O: nat, I: nat)
    returns (r: Result<seq<byte>, CodecError>)
    ensures r == ExportTensor(toHalf, enc, weights, O, I)
  {
    hide Export, TryBlock, CeilDiv64, Superblock;
    var blockCount := CeilDiv64(O) * CeilDiv64(I);
    var superblocks: seq<seq<Leaf>> := [];
    for k := 0 to blockCount
      invariant EncodeBlocks(enc, weights, O, I, k) == Ok(superblocks)
    {
      if !IsLeafSize(enc.minBlockSize) {
        BadSizeError(enc, weights, O, I, blockCount);
        return Err(EncodeFailed(BadMinBlockSize));
      }
      var blocks := SelectLeaves(enc, Superblock(weights, O, I, k), MACROBLOCK, false, 0);
      if blocks.Err? {
        FailedBlock(enc, weights, O, I, k + 1, blockCount, EncodeFailed(blocks.error));
        return Err(EncodeFailed(blocks.error));
      }
      superblocks := superblocks + [blocks.value];
    }
    var stream := WriteStream(toHalf, superblocks);
    if stream.Err? { return Err(ExportFailed(stream.error)); }
    r := Ok(stream.value);
  }

  lemma {:induction false} FailedBlock(enc: Encoder, weights: Grid, O: nat, I: nat, k: nat, n: nat, e: CodecError)
    requires k <= n <= CeilDiv64(O) * CeilDiv64(I) && EncodeBlocks(enc, weights, O, I, k) == Err(e)
    ensures EncodeBlocks(enc, weights, O, I, n) == Err(e)
    decreases n
  {
    hide CeilDiv64, Encode, Superblock;
    if k < n { FailedBlock(enc, weights, O, I, k, n - 1, e); }
  }
}
