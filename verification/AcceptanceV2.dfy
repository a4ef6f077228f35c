/** Which byte strings the v2 reference decoder accepts, field by field, and what it reads from them. */
module AcceptanceV2 {
  import opened Bits
  import opened Format
  import opened Basics
  import opened Codes
  import opened Half
  import opened Quadtree
  import opened Layouts
  import opened DecoderV2
  import SplitMap

  /** The bytes from lo to hi are zero. */
  predicate ZeroBetween(b: seq<byte>, lo: nat, hi: nat) {
    hi <= |b| && forall i :: lo <= i < hi ==> b[i] == 0
  }

  lemma ZeroSlice(b: seq<byte>, lo: nat, hi: nat)
    requires lo <= hi
    ensures PySlice(b, lo, hi) == Zeros(hi - lo) <==> lo == hi || ZeroBetween(b, lo, hi)
  {
    if lo < hi && ZeroBetween(b, lo, hi) {
      assert b[lo..hi] == Zeros(hi - lo);
    }
  }

  // --------------------------------------------------------------- one leaf

  /** Bytes of a payload before padding: half a byte per weight, a quarter of one for ternary. */
  function PayloadBytes(size: nat, header: uint32): nat {
    if header % 2 == 0 then size * size / 2 else size * size / 4
  }

  /** The next multiple of sixteen. */
  function Padded16(n: nat): nat {
    (n + 15) / 16 * 16
  }

  /** The reserved flags are clear, and the payload is there with zero padding. */
  ghost predicate AcceptableLeaf(b: seq<byte>, pos: nat, size: nat, header: uint32) {
    && header % 16 < 2 && pos + Padded16(PayloadBytes(size, header)) <= |b|
    && ZeroBetween(b, pos + PayloadBytes(size, header), pos + Padded16(PayloadBytes(size, header)))
  }

  /** Scale from the high half of the header, bias from the low half without its four lowest bits, codes
      of the mode in the lowest bit. */
  ghost function AcceptedLeaf(b: seq<byte>, pos: nat, sq: Square, header: uint32): DecodedLeaf
    requires AcceptableLeaf(b, pos, sq.size, header) && IsLeafSize(sq.size)
  {
    LeafBytes(sq.size, header);
    DecodedLeaf(sq, HalfFromBits(header / 0x1_0000), HalfFromBits(header % 0x1_0000 - header % 16),
                CodesOf(WordsAt(b, pos, PayloadBytes(sq.size, header) / 4),
                        if header % 2 == 0 then FP4_AFFINE else T158_AFFINE, sq.size * sq.size))
  }

  lemma LeafBytes(size: nat, header: uint32)
    requires IsLeafSize(size)
    ensures PayloadBytes(size, header) % 4 == 0 && PayloadBytes(size, header) <= Padded16(PayloadBytes(size, header))
    ensures PayloadBytes(size, header) / 4 * (if header % 2 == 0 then 8 else 16) == size * size
    ensures PayloadBytes(size, header) == 4 * PayloadWords(size, if header % 2 == 0 then FP4_AFFINE else T158_AFFINE)
  {
    assert size * size == 16 || size * size == 64 || size * size == 256 || size * size == 1024 || size * size == 4096;
  }

  lemma PaddedIs(n: nat)
    ensures Padded16(n) == AlignUp(n)
  {
    var q := (n + 15) / 16;
    assert 16 * q <= n + 15 < 16 * q + 16;
  }

  lemma HeaderFields(header: uint32)
    ensures Shr(header, 16) == header / 0x1_0000 && And(header, 0xFFF0) == header % 0x1_0000 - header % 16
    ensures And(And(header, 0xF), 0xE) == 0 <==> header % 16 < 2
    ensures And(And(header, 0xF), 0x1) == header % 2
  {
    Powers();
    LowMask(header, 16, 0x1_0000);
    ClearBiasFlags(header);
    LowMask(header, 4, 16);
    HighMask(header % 16, 1, 2, 3, 8, 0xE);
    LowMask(header % 16, 1, 2);
    hide And, Shr, Shl;
    LowBits(header);
  }

  lemma LowBits(x: nat)
    ensures x % 16 % 2 == x % 2 && (x % 16 / 2 % 8 == 0 <==> x % 16 < 2)
  {
    var q, r := x / 16, x % 16;
    DivModUnique(x, 2, 8 * q + r / 2, r % 2);
    HighPart(r);
  }

  lemma HighPart(r: nat)
    requires r < 16
    ensures r / 2 % 8 == 0 <==> r < 2
  {
  }

  /** One leaf: exactly when it is accepted, what it decodes to, and where the next one starts. */
  lemma LeafParses(b: seq<byte>, pos: nat, sq: Square, header: uint32)
    requires IsLeafSize(sq.size)
    ensures ParseLeaf(b, pos, sq, header).Ok? <==> AcceptableLeaf(b, pos, sq.size, header)
    ensures AcceptableLeaf(b, pos, sq.size, header) ==>
              ParseLeaf(b, pos, sq, header)
              == Ok((AcceptedLeaf(b, pos, sq, header), pos + Padded16(PayloadBytes(sq.size, header))))
  {
    hide And, Shr, PySlice, Zeros, HalfFromBits, CodesOf, WordsAt, Padded16, PayloadBytes, PayloadWords, AlignUp;
    HeaderFields(header);
    LeafBytes(sq.size, header);
    var n := PayloadBytes(sq.size, header);
    PaddedIs(n);
    ZeroSlice(b, pos + n, pos + Padded16(n));
    if header % 16 < 2 {
      assert LeafMode(header) == if header % 2 == 0 then FP4_AFFINE else T158_AFFINE;
    }
  }

  // ------------------------------------------------------------- one record

  /** Where the payload of leaf i starts when that of the first one starts at `pos`. */
  ghost function PayloadStart(squares: seq<Square>, headers: seq<uint32>, pos: nat, i: nat): nat
    requires |squares| == |headers| && i <= |squares|
    decreases i
  {
    if i == 0 then pos
    else PayloadStart(squares[1..], headers[1..], pos + Padded16(PayloadBytes(squares[0].size, headers[0])), i - 1)
  }

  ghost predicate AcceptableLeaves(b: seq<byte>, pos: nat, squares: seq<Square>, headers: seq<uint32>)
    requires |squares| == |headers|
  {
    forall i :: 0 <= i < |squares| ==>
      AcceptableLeaf(b, PayloadStart(squares, headers, pos, i), squares[i].size, headers[i])
  }

  lemma {:induction false} AcceptableTail(b: seq<byte>, pos: nat, squares: seq<Square>, headers: seq<uint32>)
    requires |squares| == |headers| > 0
    ensures AcceptableLeaves(b, pos, squares, headers) <==>
              && AcceptableLeaf(b, pos, squares[0].size, headers[0])
              && AcceptableLeaves(b, pos + Padded16(PayloadBytes(squares[0].size, headers[0])), squares[1..],
                                  headers[1..])
  {
    hide AcceptableLeaf, Padded16, PayloadBytes;
    var next := pos + Padded16(PayloadBytes(squares[0].size, headers[0]));
    forall i | 0 <= i < |squares[1..]|
      ensures PayloadStart(squares, headers, pos, i + 1) == PayloadStart(squares[1..], headers[1..], next, i)
      ensures AcceptableLeaf(b, PayloadStart(squares, headers, pos, i + 1), squares[i + 1].size, headers[i + 1]) <==>
              AcceptableLeaf(b, PayloadStart(squares[1..], headers[1..], next, i), squares[1..][i].size,
                             headers[1..][i])
    {
    }
    if AcceptableLeaves(b, pos, squares, headers) {
      assert AcceptableLeaf(b, PayloadStart(squares, headers, pos, 0), squares[0].size, headers[0]);
      forall i | 0 <= i < |squares[1..]|
        ensures AcceptableLeaf(b, PayloadStart(squares[1..], headers[1..], next, i), squares[1..][i].size,
                               headers[1..][i])
      {
        assert AcceptableLeaf(b, PayloadStart(squares, headers, pos, i + 1), squares[i + 1].size, headers[i + 1]);
      }
    } else {
      var i :| 0 <= i < |squares|
               && !AcceptableLeaf(b, PayloadStart(squares, headers, pos, i), squares[i].size, headers[i]);
      assert i > 0 ==> !AcceptableLeaf(b, PayloadStart(squares[1..], headers[1..], next, i - 1),
                                       squares[1..][i - 1].size, headers[1..][i - 1]);
    }
  }

  /** The leaves of a record follow one another; leaf i is read from where the ones before it end. */
  lemma {:induction false} LeavesParse(b: seq<byte>, pos: nat, squares: seq<Square>, headers: seq<uint32>)
    requires |squares| == |headers| && LeafSizes(squares)
    ensures ParseLeaves(b, pos, squares, headers).Ok? <==> AcceptableLeaves(b, pos, squares, headers)
    ensures AcceptableLeaves(b, pos, squares, headers) ==>
              && |ParseLeaves(b, pos, squares, headers).value| == |squares|
              && forall i :: 0 <= i < |squares| ==>
                   ParseLeaves(b, pos, squares, headers).value[i]
                   == AcceptedLeaf(b, PayloadStart(squares, headers, pos, i), squares[i], headers[i])
    decreases |squares|
  {
    hide AcceptableLeaf, AcceptedLeaf, ParseLeaf, ParseLeaves, Padded16, PayloadBytes, AcceptableLeaves;
    UnfoldLeaves(b, pos, squares, headers);
    if |squares| == 0 {
      NoLeaves(b, pos, squares, headers);
    } else {
      var next := pos + Padded16(PayloadBytes(squares[0].size, headers[0]));
      AcceptableTail(b, pos, squares, headers);
      LeafParses(b, pos, squares[0], headers[0]);
      LeavesParse(b, next, squares[1..], headers[1..]);
      if AcceptableLeaves(b, pos, squares, headers) {
        EachAcceptable(b, pos, squares, headers);
        EachAcceptable(b, next, squares[1..], headers[1..]);
        forall i | 0 <= i < |squares|
          ensures ParseLeaves(b, pos, squares, headers).value[i]
                  == AcceptedLeaf(b, PayloadStart(squares, headers, pos, i), squares[i], headers[i])
        {
          if i > 0 {
            assert PayloadStart(squares, headers, pos, i)
                   == PayloadStart(squares[1..], headers[1..], next, i - 1);
            assert squares[i] == squares[1..][i - 1] && headers[i] == headers[1..][i - 1];
          }
        }
      }
    }
  }

  lemma NoLeaves(b: seq<byte>, pos: nat, squares: seq<Square>, headers: seq<uint32>)
    requires |squares| == |headers| == 0
    ensures AcceptableLeaves(b, pos, squares, headers)
  {
  }

  lemma EachAcceptable(b: seq<byte>, pos: nat, squares: seq<Square>, headers: seq<uint32>)
    requires |squares| == |headers| && AcceptableLeaves(b, pos, squares, headers)
    ensures forall i :: 0 <= i < |squares| ==>
              AcceptableLeaf(b, PayloadStart(squares, headers, pos, i), squares[i].size, headers[i])
  {
  }

  /** The leaf squares of a record and where its header table starts. Layout 4 carries a split map of
      twelve bytes; 0, 1, 2, 3 and 5 stand for whole grids of 64, 32, 16, 8 and 4. */
  ghost function Geometry(b: seq<byte>, base: nat): (r: Option<(seq<Square>, nat)>)
    requires base + 4 <= |b|
    ensures r.Some? ==> LeafSizes(r.value.0)
  {
    var layout := U32At(b, base);
    if layout == 4 then
      var r := SplitMap.ParseSplitMap(PySlice(b, base + 4, base + 16));
      if r.Err? then None
      else
        MixedSizes(b, base);
        Some((r.value, base + 16))
    else if layout == 0 || layout == 1 || layout == 2 || layout == 3 || layout == 5 then
      var size := if layout == 0 then 64 else if layout == 1 then 32 else if layout == 2 then 16
                  else if layout == 3 then 8 else 4;
      RowMajorTiles(size);
      TilingSizes(RowMajor(size));
      Some((RowMajor(size), base + 4))
    else None
  }

  lemma MixedSizes(b: seq<byte>, base: nat)
    ensures SplitMap.ParseSplitMap(PySlice(b, base + 4, base + 16)).Ok? ==>
              LeafSizes(SplitMap.ParseSplitMap(PySlice(b, base + 4, base + 16)).value)
  {
    hide *;
    if SplitMap.ParseSplitMap(PySlice(b, base + 4, base + 16)).Ok? {
      SplitMap.ParsedLeavesTile(PySlice(b, base + 4, base + 16));
      TilingSizes(SplitMap.ParseSplitMap(PySlice(b, base + 4, base + 16)).value);
    }
  }

  /** A header table at `table`, zero padding up to a multiple of sixteen bytes from `base`, and leaves. */
  ghost predicate AcceptableBody(b: seq<byte>, base: nat, table: nat, squares: seq<Square>)
    requires base <= table
  {
    var end := table + 4 * |squares|;
    && end <= |b|
    && (end == base + Padded16(end - base) || ZeroBetween(b, end, base + Padded16(end - base)))
    && AcceptableLeaves(b, base + Padded16(end - base), squares, WordsAt(b, table, |squares|))
  }

  ghost predicate AcceptableRecord(b: seq<byte>, base: nat) {
    base + 4 <= |b| && Geometry(b, base).Some? &&
    AcceptableBody(b, base, Geometry(b, base).value.1, Geometry(b, base).value.0)
  }

  lemma BodyParses(b: seq<byte>, base: nat, table: nat, squares: seq<Square>)
    requires base <= table && LeafSizes(squares)
    ensures ParseRecordBody(b, base, table, squares).Ok? <==> AcceptableBody(b, base, table, squares)
    ensures AcceptableBody(b, base, table, squares) ==>
              var headers := WordsAt(b, table, |squares|);
              var start := base + Padded16(table + 4 * |squares| - base);
              && |ParseRecordBody(b, base, table, squares).value| == |squares|
              && AcceptableLeaves(b, start, squares, headers)
              && forall i :: 0 <= i < |squares| ==>
                   && AcceptableLeaf(b, PayloadStart(squares, headers, start, i), squares[i].size, headers[i])
                   && ParseRecordBody(b, base, table, squares).value[i]
                      == AcceptedLeaf(b, PayloadStart(squares, headers, start, i), squares[i], headers[i])
  {
    hide ParseLeaves, AcceptableLeaves, PySlice, Zeros, Padded16, WordsAt, AcceptedLeaf, AcceptableLeaf, PayloadStart,
         Padding, ZeroBetween, LeafSizes;
    var end := table + 4 * |squares|;
    PaddedIs(end - base);
    AlignUpIs(end - base);
    ZeroSlice(b, end, base + Padded16(end - base));
    if end <= |b| {
      var headers, start := WordsAt(b, table, |squares|), base + Padded16(end - base);
      LeavesParse(b, start, squares, headers);
      if AcceptableLeaves(b, start, squares, headers) { EachAcceptable(b, start, squares, headers); }
    }
  }

  lemma AlignUpIs(n: nat)
    ensures AlignUp(n) == n + Padding(n)
  {
  }

  lemma RecordWord(word: uint32)
    ensures And(word, 0x7) == word % 8 && (Shr(word, 3) == 0 <==> word < 8)
    ensures word < 8 ==> word % 8 == word
  {
    Powers();
    LowMask(word, 3, 8);
  }

  lemma RecordGeometry(b: seq<byte>, base: nat)
    requires base + 4 <= |b|
    ensures var header := U32At(b, base);
            Geometry(b, base).Some? <==>
              And(header, 0x7) < 6 && Shr(header, 3) == 0 && RecordLeaves(b, LayoutOf(And(header, 0x7)), base + 4).Ok?
    ensures Geometry(b, base).Some? ==>
              RecordLeaves(b, LayoutOf(And(U32At(b, base), 0x7)), base + 4) == Ok(Geometry(b, base).value)
  {
    hide And, Shr, U32At, RowMajor, PySlice, ExactTiling, LeafSizes;
    RecordWord(U32At(b, base));
  }

  /** One record: exactly when it is accepted. */
  lemma RecordParses(b: seq<byte>, base: nat)
    ensures ParseRecord(b, base).Ok? <==> AcceptableRecord(b, base)
    ensures AcceptableRecord(b, base) ==>
              ParseRecord(b, base)
              == ParseRecordBody(b, base, Geometry(b, base).value.1, Geometry(b, base).value.0)
  {
    hide And, Shr, U32At, RecordLeaves, AcceptableBody, ParseRecordBody, LayoutOf, LeafSizes, Geometry, ExactTiling;
    if base + 4 <= |b| {
      RecordGeometry(b, base);
      if And(U32At(b, base), 0x7) < 6 { RecordLeavesTile(b, LayoutOf(And(U32At(b, base), 0x7)), base + 4); }
      if Geometry(b, base).Some? {
        TableBehind(b, base);
        BodyParses(b, base, Geometry(b, base).value.1, Geometry(b, base).value.0);
      }
    }
  }

  lemma TableBehind(b: seq<byte>, base: nat)
    requires base + 4 <= |b| && Geometry(b, base).Some?
    ensures base <= Geometry(b, base).value.1
  {
  }

  // ------------------------------------------------------------- the stream

  /** Magic, version 2, the record count, seven zero bytes, and the offset table with its padding. */
  ghost predicate AcceptableFrame(b: seq<byte>, count: nat) {
    && 16 <= |b| && b[0] == 0x53 && b[1] == 0x47 && b[2] == 0x46 && b[3] == 0x34 && b[4] == 2
    && U32At(b, 5) == count && ZeroBetween(b, 9, 16)
    && Padded16(16 + 4 * count) <= |b| && ZeroBetween(b, 16 + 4 * count, Padded16(16 + 4 * count))
  }

  /** Offset k is a multiple of sixteen beyond the one before it, and an acceptable record stands there. */
  ghost predicate AcceptableOffset(b: seq<byte>, region: nat, offsets: seq<uint32>, previous: int, k: nat)
    requires k < |offsets|
  {
    && offsets[k] % 16 == 0 && (if k == 0 then previous else offsets[k - 1]) < offsets[k]
    && AcceptableRecord(b, region + offsets[k])
  }

  ghost predicate AcceptableRecords(b: seq<byte>, region: nat, offsets: seq<uint32>, previous: int) {
    forall k :: 0 <= k < |offsets| ==> AcceptableOffset(b, region, offsets, previous, k)
  }

  lemma {:induction false} UnfoldRecords(b: seq<byte>, region: nat, offsets: seq<uint32>, previous: int)
    requires |offsets| > 0
    ensures var first, rest :=
              ParseRecord(b, region + offsets[0]), ParseRecords(b, region, offsets[1..], offsets[0]);
            && (ParseRecords(b, region, offsets, previous).Ok? <==>
                  offsets[0] % 16 == 0 && previous < offsets[0] && first.Ok? && rest.Ok?)
            && (ParseRecords(b, region, offsets, previous).Ok? ==>
                  ParseRecords(b, region, offsets, previous).value == [first.value] + rest.value)
  {
    hide ParseRecord;
  }

  lemma {:induction false} RecordsParse(b: seq<byte>, region: nat, offsets: seq<uint32>, previous: int)
    ensures ParseRecords(b, region, offsets, previous).Ok? <==> AcceptableRecords(b, region, offsets, previous)
    ensures ParseRecords(b, region, offsets, previous).Ok? ==>
              && |ParseRecords(b, region, offsets, previous).value| == |offsets|
              && forall k :: 0 <= k < |offsets| ==>
                   Ok(ParseRecords(b, region, offsets, previous).value[k]) == ParseRecord(b, region + offsets[k])
    decreases |offsets|
  {
    hide AcceptableRecord, ParseRecord;
    if |offsets| > 0 {
      hide ParseRecords, AcceptableRecords;
      UnfoldRecords(b, region, offsets, previous);
      RecordParses(b, region + offsets[0]);
      OffsetsTail(b, region, offsets, previous);
      RecordsParse(b, region, offsets[1..], offsets[0]);
    }
  }

  lemma OffsetsTail(b: seq<byte>, region: nat, offsets: seq<uint32>, previous: int)
    requires |offsets| > 0
    ensures AcceptableRecords(b, region, offsets, previous) <==>
              && AcceptableOffset(b, region, offsets, previous, 0)
              && AcceptableRecords(b, region, offsets[1..], offsets[0])
  {
    hide AcceptableRecord;
    forall k | 0 <= k < |offsets[1..]|
      ensures AcceptableOffset(b, region, offsets[1..], offsets[0], k) <==>
              AcceptableOffset(b, region, offsets, previous, k + 1)
    {
    }
    hide AcceptableOffset;
    if AcceptableRecords(b, region, offsets[1..], offsets[0]) {
      forall k | 1 <= k < |offsets|
        ensures AcceptableOffset(b, region, offsets, previous, k)
      {
        assert AcceptableOffset(b, region, offsets[1..], offsets[0], k - 1);
      }
    }
  }

  /** The decoder accepts exactly the streams with an acceptable frame, one record per macroblock, and
      acceptable records at aligned, strictly increasing offsets. */
  lemma AcceptedStream(b: seq<byte>, O: nat, I: nat)
    ensures var B := CeilDiv64(O) * CeilDiv64(I);
            && (Parse(b, O, I).Ok? <==>
                  && AcceptableFrame(b, B)
                  && AcceptableRecords(b, Padded16(16 + 4 * B), WordsAt(b, 16, B), -1))
            && (Parse(b, O, I).Ok? ==>
                  && |Parse(b, O, I).value| == B
                  && forall k :: 0 <= k < B ==>
                       Ok(Parse(b, O, I).value[k]) == ParseRecord(b, Padded16(16 + 4 * B) + WordsAt(b, 16, B)[k]))
  {
    hide ParseRecords, ParseRecord, AcceptableRecords, CeilDiv64, U32At, PySlice, Zeros, Padded16, AlignUp, ZeroBetween;
    var B := CeilDiv64(O) * CeilDiv64(I);
    Frame(b, B);
    PaddedIs(16 + 4 * B);
    AlignUpAtLeast(16 + 4 * B);
    if AcceptableFrame(b, B) { RecordsParse(b, Padded16(16 + 4 * B), WordsAt(b, 16, B), -1); }
  }

  lemma AlignUpAtLeast(n: nat)
    ensures n <= AlignUp(n)
  {
  }

  /** The checks in front of the records. */
  lemma Frame(b: seq<byte>, count: nat)
    ensures AcceptableFrame(b, count) <==>
              && 16 <= |b| && b[..4] == SGFP4_MAGIC && b[4] == SGFP4_VERSION_V2 && U32At(b, 5) == count
              && b[9..16] == Zeros(7) && Padded16(16 + 4 * count) <= |b|
              && PySlice(b, 16 + 4 * count, Padded16(16 + 4 * count))
                 == Zeros(Padded16(16 + 4 * count) - (16 + 4 * count))
  {
    hide U32At, Padded16, AlignUp;
    PaddedIs(16 + 4 * count);
    AlignUpAtLeast(16 + 4 * count);
    ZeroSlice(b, 16 + 4 * count, Padded16(16 + 4 * count));
    if 16 <= |b| {
      ZeroSlice(b, 9, 16);
      assert b[..4] == [b[0], b[1], b[2], b[3]];
    }
  }
}
