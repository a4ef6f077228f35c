/** The SGFP4 v2 container as the exporter writes it. */
module ExporterV2 {
  import opened Format
  import opened Basics
  import opened Quadtree
  import opened Layouts
  import opened Headers
  import SplitMap

  datatype ExportError =
    | SplitMapFailed(reason: SplitMap.SplitMapError)
    | MisalignedRecord
    | OffsetOverflow   // a record offset or the block count does not fit in uint32

  // ------------------------------------------------------------- one record

  function HeaderWord(toHalf: HalfEncoder, leaf: Leaf): uint32 {
    LeafHeader(toHalf(ClipHalf(leaf.scale)), toHalf(ClipHalf(leaf.bias)), leaf.mode)
  }

  function HeaderWords(toHalf: HalfEncoder, leaves: seq<Leaf>): (r: seq<uint32>)
    ensures |r| == |leaves|
  {
    seq(|leaves|, i requires 0 <= i < |leaves| => HeaderWord(toHalf, leaves[i]))
  }

  /** The leaf payloads, each zero-padded to the alignment, one after the other. */
  function Payloads(leaves: seq<Leaf>): seq<byte> {
    if |leaves| == 0 then [] else ZeroPad(WordsBytes(leaves[0].payload)) + Payloads(leaves[1..])
  }

  function HeaderSection(toHalf: HalfEncoder, layout: Layout, splitMap: seq<byte>, leaves: seq<Leaf>): seq<byte> {
    ZeroPad(LE32(LayoutValue(layout)) + splitMap + WordsBytes(HeaderWords(toHalf, leaves)))
  }

  /** The split map of a MIXED record; uniform records carry none. */
  function SplitMapBytes(blocks: seq<Leaf>): Result<seq<byte>, ExportError> {
    if ClassifyLayout(Squares(blocks)) != MIXED then Ok([])
    else
      var r := SplitMap.BuildSplitMap(Squares(blocks));
      if r.Err? then Err(SplitMapFailed(r.error)) else Ok(r.value)
  }

  function Record(toHalf: HalfEncoder, blocks: seq<Leaf>): Result<seq<byte>, ExportError> {
    var splitMap := SplitMapBytes(blocks);
    if splitMap.Err? then splitMap
    else
      var leaves := RecordOrder(blocks);
      Ok(ZeroPad(HeaderSection(toHalf, ClassifyLayout(Squares(blocks)), splitMap.value, leaves) + Payloads(leaves)))
  }

  // -------------------------------------------------------- the whole stream

  /** The records written from `offset` on: their offsets and their bytes. */
  datatype Written = Written(offsets: seq<uint32>, bytes: seq<byte>)

  function Records(toHalf: HalfEncoder, superblocks: seq<seq<Leaf>>, offset: nat): Result<Written, ExportError>
    decreases |superblocks|
  {
    if |superblocks| == 0 then Ok(Written([], []))
    else
      var record := Record(toHalf, superblocks[0]);
      if record.Err? then Err(record.error)
      else if offset % ALIGNMENT != 0 then Err(MisalignedRecord)
      else if offset >= UINT32_LIMIT then Err(OffsetOverflow)
      else
        var rest := Records(toHalf, superblocks[1..], offset + |record.value|);
        if rest.Err? then rest
        else Ok(Written([offset as uint32] + rest.value.offsets, record.value + rest.value.bytes))
  }

  function Framing(offsets: seq<uint32>): seq<byte>
    requires |offsets| < UINT32_LIMIT
  {
    ZeroPad(SGFP4_MAGIC + [SGFP4_VERSION_V2] + LE32(|offsets|) + Zeros(V2_HEADER_PAD_BYTES) + WordsBytes(offsets))
  }

  function Export(toHalf: HalfEncoder, superblocks: seq<seq<Leaf>>): Result<seq<byte>, ExportError> {
    var written := Records(toHalf, superblocks, 0);
    if written.Err? then Err(written.error)
    else if |written.value.offsets| >= UINT32_LIMIT then Err(OffsetOverflow)
    else Ok(Framing(written.value.offsets) + written.value.bytes)
  }

  // -------------------------------------------------------- area accounting

  /** Every leaf has the word count its size and mode call for. */
  predicate PayloadsFit(leaves: seq<Leaf>) {
    forall i :: 0 <= i < |leaves| ==>
      IsLeafSize(leaves[i].sq.size) && |leaves[i].payload| == PayloadWords(leaves[i].sq.size, leaves[i].mode)
  }

  /** Bytes of one padded leaf payload: between a quarter and the whole of the leaf's area. */
  lemma PaddedPayload(leaf: Leaf)
    requires IsLeafSize(leaf.sq.size) && |leaf.payload| == PayloadWords(leaf.sq.size, leaf.mode)
    ensures var n, area := |ZeroPad(WordsBytes(leaf.payload))|, leaf.sq.size * leaf.sq.size;
            n % 16 == 0 && area <= 4 * n <= 4 * area
    ensures leaf.sq.size != 4 ==> 2 * |ZeroPad(WordsBytes(leaf.payload))| <= leaf.sq.size * leaf.sq.size
  {
    var area := leaf.sq.size * leaf.sq.size;
    assert area == 16 || area == 64 || area == 256 || area == 1024 || area == 4096;
    if leaf.mode.FP4_AFFINE? {
      assert 4 * |leaf.payload| == area / 2;
    } else {
      assert 4 * |leaf.payload| == area / 4;
    }
  }

  lemma UnfoldPayloads(leaves: seq<Leaf>)
    ensures |leaves| == 0 ==> Payloads(leaves) == [] && Area(Squares(leaves)) == 0
    ensures |leaves| > 0 ==>
              && Payloads(leaves) == ZeroPad(WordsBytes(leaves[0].payload)) + Payloads(leaves[1..])
              && Area(Squares(leaves)) == leaves[0].sq.size * leaves[0].sq.size + Area(Squares(leaves[1..]))
  {
    hide ZeroPad, WordsBytes;
    if |leaves| > 0 { assert Squares(leaves)[1..] == Squares(leaves[1..]); }
  }

  lemma {:induction false} PayloadsBound(leaves: seq<Leaf>)
    requires PayloadsFit(leaves)
    ensures |Payloads(leaves)| % 16 == 0
    ensures Area(Squares(leaves)) <= 4 * |Payloads(leaves)| <= 4 * Area(Squares(leaves))
  {
    hide Payloads, Area, ZeroPad, WordsBytes, PayloadWords, Squares;
    UnfoldPayloads(leaves);
    if |leaves| > 0 {
      PaddedPayload(leaves[0]);
      PayloadsBound(leaves[1..]);
    }
  }

  lemma {:induction false} LeafCountBound(L: seq<Square>)
    requires forall i :: 0 <= i < |L| ==> IsLeafSize(L[i].size)
    ensures 16 * |L| <= Area(L)
  {
    if |L| > 0 { LeafCountBound(L[1..]); }
  }

  /** In a mixed record some leaf is larger than 4x4, so there are fewer than 256. */
  lemma {:induction false} MixedLeafCount(L: seq<Square>)
    requires forall i :: 0 <= i < |L| ==> IsLeafSize(L[i].size)
    requires exists i :: 0 <= i < |L| && L[i].size != 4
    ensures 16 * |L| + 48 <= Area(L)
  {
    if L[0].size != 4 {
      LeafCountBound(L[1..]);
    } else {
      var i :| 0 <= i < |L| && L[i].size != 4;
      assert L[1..][i - 1].size != 4;
      MixedLeafCount(L[1..]);
    }
  }

  /** A superblock as the quadtree encoder leaves it: depth-first leaves with full payloads. */
  ghost predicate ValidBlocks(blocks: seq<Leaf>) {
    IsLeafList(Squares(blocks)) && PayloadsFit(blocks)
  }

  lemma {:induction false} InsertArea(b: Leaf, xs: seq<Leaf>)
    ensures Area(Squares(InsertLeaf(b, xs))) == b.sq.size * b.sq.size + Area(Squares(xs))
  {
    if |xs| == 0 || !Before(xs[0].sq, b.sq) {
      assert Squares([b] + xs)[1..] == Squares(xs);
    } else {
      InsertArea(b, xs[1..]);
      assert Squares(xs)[1..] == Squares(xs[1..]);
      assert Squares([xs[0]] + InsertLeaf(b, xs[1..]))[1..] == Squares(InsertLeaf(b, xs[1..]));
    }
  }

  lemma {:induction false} SortArea(blocks: seq<Leaf>)
    ensures Area(Squares(SortLeaves(blocks))) == Area(Squares(blocks))
  {
    if |blocks| > 0 {
      SortArea(blocks[1..]);
      InsertArea(blocks[0], SortLeaves(blocks[1..]));
      assert Squares(blocks)[1..] == Squares(blocks[1..]);
    }
  }

  /** The order of a record is a permutation of the leaves that tiles the macroblock, too. */
  lemma OrderFacts(blocks: seq<Leaf>)
    requires ValidBlocks(blocks)
    ensures multiset(RecordOrder(blocks)) == multiset(blocks)
    ensures ExactTiling(Squares(blocks), MACROBLOCK) && ExactTiling(Squares(RecordOrder(blocks)), MACROBLOCK)
    ensures PayloadsFit(RecordOrder(blocks))
    ensures ClassifyLayout(Squares(blocks)) != MIXED ==>
              Squares(RecordOrder(blocks)) == RowMajor(UniformSize(ClassifyLayout(Squares(blocks))))
  {
    var t :| FitsIn(t, 64) && Squares(blocks) == Leaves(t, MACROBLOCK);
    LeavesTile(t, MACROBLOCK);
    ClassifyLeafList(Squares(blocks));
    hide Leaves, FitsIn, ClassifyLayout, SortLeaves, ExactTiling, RowMajor, IsLeafList;
    SortSorts(blocks);
    var leaves := RecordOrder(blocks);
    if ClassifyLayout(Squares(blocks)) != MIXED {
      assert blocks[0].sq == Squares(blocks)[0];
      SortedUniformIsRowMajor(blocks);
      RowMajorTiles(blocks[0].sq.size);
    }
    forall i | 0 <= i < |leaves|
      ensures IsLeafSize(leaves[i].sq.size) && |leaves[i].payload| == PayloadWords(leaves[i].sq.size, leaves[i].mode)
    {
      assert leaves[i] in multiset(blocks);
    }
  }

  lemma SplitMapLength(blocks: seq<Leaf>)
    requires ValidBlocks(blocks)
    ensures SplitMapBytes(blocks).Ok?
    ensures |SplitMapBytes(blocks).value| == if ClassifyLayout(Squares(blocks)) == MIXED then SPLIT_MAP_BYTES else 0
  {
    SplitMap.ParseUndoesBuild(Squares(blocks));
  }

  lemma HeaderSectionLength(toHalf: HalfEncoder, layout: Layout, splitMap: seq<byte>, leaves: seq<Leaf>)
    ensures |HeaderSection(toHalf, layout, splitMap, leaves)| == AlignUp(4 + |splitMap| + 4 * |leaves|)
  {
  }

  /** Area accounting: every v2 record is a multiple of 16 bytes, at least 1040 and at most 5136. */
  lemma RecordLength(toHalf: HalfEncoder, blocks: seq<Leaf>)
    requires ValidBlocks(blocks)
    ensures Record(toHalf, blocks).Ok?
    ensures |Record(toHalf, blocks).value| % 16 == 0 && 1040 <= |Record(toHalf, blocks).value| <= 5136
  {
    hide Payloads, SplitMapBytes, ClassifyLayout, SortLeaves, ValidBlocks, PayloadsFit, ExactTiling, HeaderSection,
         Area, Squares, AlignUp, LeafHeader;
    var layout, leaves := ClassifyLayout(Squares(blocks)), RecordOrder(blocks);
    OrderFacts(blocks);
    SplitMapLength(blocks);
    PayloadsBound(leaves);
    SortArea(blocks);
    ValidArea(blocks);
    HeaderLength(layout, |blocks|);
    HeaderSectionLength(toHalf, layout, SplitMapBytes(blocks).value, leaves);
    AlignedStays(|HeaderSection(toHalf, layout, SplitMapBytes(blocks).value, leaves) + Payloads(leaves)|);
  }

  lemma AlignedStays(n: nat)
    ensures n % 16 == 0 ==> AlignUp(n) == n
  {
  }

  lemma HeaderLength(layout: Layout, n: nat)
    requires 1 <= n <= 256 && (layout == MIXED ==> n <= 253)
    ensures var k := AlignUp(4 + (if layout == MIXED then SPLIT_MAP_BYTES else 0) + 4 * n);
            k % 16 == 0 && 16 <= k <= 1040
  {
  }

  /** Leaf areas fill the macroblock; a mixed record has at most 253 leaves. */
  lemma ValidArea(blocks: seq<Leaf>)
    requires ValidBlocks(blocks)
    ensures Area(Squares(blocks)) == 4096 && 1 <= |blocks| <= 256
    ensures ClassifyLayout(Squares(blocks)) == MIXED ==> |blocks| <= 253
  {
    var L := Squares(blocks);
    var t :| FitsIn(t, 64) && L == Leaves(t, MACROBLOCK);
    LeavesArea(t, MACROBLOCK);
    ClassifyLeafList(L);
    hide Leaves, FitsIn, ClassifyLayout, IsLeafList;
    forall i | 0 <= i < |L| ensures IsLeafSize(L[i].size) { assert L[i] == blocks[i].sq; }
    LeafCountBound(L);
    if ClassifyLayout(L) == MIXED {
      var i, j :| 0 <= i < j < |L| && L[i].size != L[j].size;
      assert L[i].size != 4 || L[j].size != 4;
      MixedLeafCount(L);
    }
  }

  /** Aligned offsets from `offset` on, at least 1040 bytes apart and from the end. */
  predicate SpacedOffsets(offsets: seq<uint32>, offset: nat, end: nat) {
    && offset <= end
    && (|offsets| > 0 ==> offsets[0] == offset)
    && (forall k :: 0 <= k < |offsets| ==>
          offsets[k] % 16 == 0 && offset <= offsets[k] && offsets[k] as int + 1040 <= end)
    && (forall j, k :: 0 <= j < k < |offsets| ==> offsets[j] as int + 1040 <= offsets[k])
  }

  lemma SpacedCons(offset: uint32, next: nat, rest: seq<uint32>, end: nat)
    requires SpacedOffsets(rest, next, end) && offset % 16 == 0 && offset as int + 1040 <= next
    ensures SpacedOffsets([offset] + rest, offset, end)
  {
  }

  /** Records follow each other without gaps from `offset` on; their offsets are aligned, strictly
      increasing, and fit in 32 bits whenever 5136 bytes per record do. */
  lemma {:induction false} RecordsFit(toHalf: HalfEncoder, superblocks: seq<seq<Leaf>>, offset: nat)
    requires forall k :: 0 <= k < |superblocks| ==> ValidBlocks(superblocks[k])
    requires offset % 16 == 0
    ensures offset + 5136 * |superblocks| <= UINT32_LIMIT ==> Records(toHalf, superblocks, offset).Ok?
    ensures Records(toHalf, superblocks, offset).Err? ==> Records(toHalf, superblocks, offset).error == OffsetOverflow
    ensures Records(toHalf, superblocks, offset).Ok? ==>
              var w := Records(toHalf, superblocks, offset).value;
              |w.offsets| == |superblocks| && SpacedOffsets(w.offsets, offset, offset + |w.bytes|)
    decreases |superblocks|
  {
    hide Record, ValidBlocks, SpacedOffsets, Records;
    UnfoldRecords(toHalf, superblocks, offset);
    SpacedEmpty(offset);
    if |superblocks| > 0 {
      assert ValidBlocks(superblocks[0]);
      RecordLength(toHalf, superblocks[0]);
      var next := offset + |Record(toHalf, superblocks[0]).value|;
      RecordsFit(toHalf, superblocks[1..], next);
      if Records(toHalf, superblocks, offset).Ok? {
        var rest := Records(toHalf, superblocks[1..], next).value;
        SpacedCons(offset, next, rest.offsets, next + |rest.bytes|);
      }
    }
  }

  lemma SpacedEmpty(offset: nat)
    ensures SpacedOffsets([], offset, offset)
  {
  }

  lemma UnfoldRecords(toHalf: HalfEncoder, superblocks: seq<seq<Leaf>>, offset: nat)
    ensures |superblocks| == 0 ==> Records(toHalf, superblocks, offset) == Ok(Written([], []))
    ensures |superblocks| > 0 ==>
              var record := Record(toHalf, superblocks[0]);
              if record.Err? then Records(toHalf, superblocks, offset) == Err(record.error)
              else if offset % ALIGNMENT != 0 then Records(toHalf, superblocks, offset) == Err(MisalignedRecord)
              else if offset >= UINT32_LIMIT then Records(toHalf, superblocks, offset) == Err(OffsetOverflow)
              else
                var rest := Records(toHalf, superblocks[1..], offset + |record.value|);
                Records(toHalf, superblocks, offset) ==
                  if rest.Err? then rest
                  else Ok(Written([offset as uint32] + rest.value.offsets, record.value + rest.value.bytes))
  {
    hide Record;
  }
}
