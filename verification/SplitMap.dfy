/** The 12-byte split map of a MIXED record: one flag per quadtree node of size 8 or more, in
    depth-first order. Builder of the exporter, parser of the reference decoder, and their
    bijection with quadtrees. */
module SplitMap {
  import opened Bits
  import opened Format
  import opened Basics
  import opened Packing
  import opened Quadtree

  datatype SplitMapError =
    // raised by the builder
    | LeafListExhausted | UnexpectedLeaf | LeavesLeftOver | TooManyBits
    // raised by the parser
    | Truncated | Overrun | NonzeroUnusedBits

  // ------------------------------------------------------------ specification

  /** Split flags of a tree, depth first; nodes at the 4x4 floor have none. */
  function TreeFlags(t: QTree, size: nat): seq<nat> {
    if size <= MIN_LEAF_SIZE then []
    else if t.Single? then [0]
    else [1] + TreeFlags(t.nw, size / 2) + TreeFlags(t.ne, size / 2)
             + TreeFlags(t.sw, size / 2) + TreeFlags(t.se, size / 2)
  }

  /** Nodes of size 8 or more in a full quadtree: 1 + 4 + 16 + 64 = 85 for a macroblock. */
  function NodeBudget(size: nat): nat {
    if size <= MIN_LEAF_SIZE then 0 else 1 + 4 * NodeBudget(size / 2)
  }

  function Ones(flags: seq<nat>): nat {
    if |flags| == 0 then 0 else flags[0] + Ones(flags[1..])
  }

  // ------------------------------------------------------------------ builder

  /** The recursive walk of the builder over the leaf list, from `leafIndex` on. */
  function BuildWalk(blocks: seq<Square>, leafIndex: nat, s: Square): (r: Result<(seq<nat>, nat), SplitMapError>)
    ensures r.Ok? ==> forall k :: 0 <= k < |r.value.0| ==> r.value.0[k] <= 1
    decreases s.size
  {
    if leafIndex >= |blocks| then Err(LeafListExhausted)
    else if s.size <= MIN_LEAF_SIZE then
      if blocks[leafIndex] != s then Err(UnexpectedLeaf) else Ok(([], leafIndex + 1))
    else if blocks[leafIndex] == s then Ok(([0], leafIndex + 1))
    else
      var r0 := BuildWalk(blocks, leafIndex, Quadrant(s, 0));
      if r0.Err? then r0 else
      var r1 := BuildWalk(blocks, r0.value.1, Quadrant(s, 1));
      if r1.Err? then r1 else
      var r2 := BuildWalk(blocks, r1.value.1, Quadrant(s, 2));
      if r2.Err? then r2 else
      var r3 := BuildWalk(blocks, r2.value.1, Quadrant(s, 3));
      if r3.Err? then r3 else
      Ok(([1] + r0.value.0 + r1.value.0 + r2.value.0 + r3.value.0, r3.value.1))
  }

  /** The flags of a leaf list, or the assertion that fails. */
  function BuildFlags(blocks: seq<Square>): (r: Result<seq<nat>, SplitMapError>)
    ensures r.Ok? ==> Fits(r.value, 1) && |r.value| <= SPLIT_MAP_MAX_BITS
  {
    var r := BuildWalk(blocks, 0, MACROBLOCK);
    if r.Err? then Err(r.error)
    else if r.value.1 != |blocks| then Err(LeavesLeftOver)
    else if |r.value.0| > SPLIT_MAP_MAX_BITS then Err(TooManyBits)
    else Ok(r.value.0)
  }

  function BuildSplitMap(blocks: seq<Square>): Result<seq<byte>, SplitMapError> {
    var r := BuildFlags(blocks);
    if r.Err? then Err(r.error)
    else Ok(WordsBytes(PackWords(r.value, 1, SPLIT_MAP_WORDS)))
  }

  // ------------------------------------------------------------------- parser

  /** (words[k / 32] >> (k % 32)) & 1 */
  function Flag(words: seq<uint32>, k: nat): nat
    requires k / 32 < |words|
  {
    And(Shr(words[k / 32], k % 32), 0x1)
  }

  /** The recursive walk of the parser, from bit `pos` on: leaves found and next bit. */
  function ParseWalk(words: seq<uint32>, pos: nat, s: Square): Result<(seq<Square>, nat), SplitMapError>
    requires |words| == SPLIT_MAP_WORDS
    decreases s.size
  {
    if s.size <= MIN_LEAF_SIZE then Ok(([s], pos))
    else if pos >= SPLIT_MAP_MAX_BITS then Err(Overrun)
    else if Flag(words, pos) != 0 then
      var r0 := ParseWalk(words, pos + 1, Quadrant(s, 0));
      if r0.Err? then r0 else
      var r1 := ParseWalk(words, r0.value.1, Quadrant(s, 1));
      if r1.Err? then r1 else
      var r2 := ParseWalk(words, r1.value.1, Quadrant(s, 2));
      if r2.Err? then r2 else
      var r3 := ParseWalk(words, r2.value.1, Quadrant(s, 3));
      if r3.Err? then r3 else
      Ok((r0.value.0 + r1.value.0 + r2.value.0 + r3.value.0, r3.value.1))
    else Ok(([s], pos + 1))
  }

  /** words[0] | (words[1] << 32) | (words[2] << 64) */
  function PackedBits(words: seq<uint32>): nat
    requires |words| == SPLIT_MAP_WORDS
  {
    Or(Or(words[0], Shl(words[1], 32)), Shl(words[2], 64))
  }

  function ParseSplitMap(buf: seq<byte>): Result<seq<Square>, SplitMapError> {
    if |buf| < SPLIT_MAP_BYTES then Err(Truncated)
    else
      var words := WordsAt(buf, 0, SPLIT_MAP_WORDS);
      var r := ParseWalk(words, 0, MACROBLOCK);
      if r.Err? then Err(r.error)
      else if Shr(PackedBits(words), r.value.1) != 0 then Err(NonzeroUnusedBits)
      else Ok(r.value.0)
  }

  // ------------------------------------------------------- trees and flags

  lemma UnfoldFlags(t: QTree, size: nat)
    ensures t.Single? || size <= MIN_LEAF_SIZE ==> TreeFlags(t, size) == if size <= MIN_LEAF_SIZE then [] else [0]
    ensures t.Split? && size > MIN_LEAF_SIZE ==>
              TreeFlags(t, size) == [1] + TreeFlags(t.nw, size / 2) + TreeFlags(t.ne, size / 2)
                                    + TreeFlags(t.sw, size / 2) + TreeFlags(t.se, size / 2)
  {
  }

  lemma {:induction false} FlagsBudget(t: QTree, size: nat)
    requires FitsIn(t, size)
    ensures |TreeFlags(t, size)| <= NodeBudget(size)
    ensures Fits(TreeFlags(t, size), 1)
  {
    if t.Split? {
      FlagsBudget(t.nw, size / 2); FlagsBudget(t.ne, size / 2);
      FlagsBudget(t.sw, size / 2); FlagsBudget(t.se, size / 2);
    }
  }

  lemma BudgetStep(size: nat)
    requires IsLeafSize(size)
    ensures if size == MIN_LEAF_SIZE then NodeBudget(size) == 0
            else IsLeafSize(size / 2) && NodeBudget(size) == 1 + 4 * NodeBudget(size / 2)
  {
  }

  lemma MacroblockBudget()
    ensures NodeBudget(64) == SPLIT_MAP_MAX_BITS
  {
    assert NodeBudget(8) == 1 + 4 * NodeBudget(4) == 1;
    assert NodeBudget(16) == 5;
    assert NodeBudget(32) == 21;
  }

  lemma {:induction false} OnesConcat(a: seq<nat>, b: seq<nat>)
    ensures Ones(a + b) == Ones(a) + Ones(b)
  {
    if |a| == 0 {
      assert a + b == b;
    } else {
      assert (a + b)[1..] == a[1..] + b;
      OnesConcat(a[1..], b);
    }
  }

  /** Each set flag replaces one leaf by four. */
  lemma {:induction false} LeafCount(t: QTree, s: Square)
    requires FitsIn(t, s.size)
    ensures |Leaves(t, s)| == 3 * Ones(TreeFlags(t, s.size)) + 1
  {
    if t.Split? {
      var h := s.size / 2;
      LeafCount(t.nw, Quadrant(s, 0)); LeafCount(t.ne, Quadrant(s, 1));
      LeafCount(t.sw, Quadrant(s, 2)); LeafCount(t.se, Quadrant(s, 3));
      var a, b, c, d := TreeFlags(t.nw, h), TreeFlags(t.ne, h), TreeFlags(t.sw, h), TreeFlags(t.se, h);
      OnesConcat([1] + a + b + c, d);
      OnesConcat([1] + a + b, c);
      OnesConcat([1] + a, b);
      OnesConcat([1], a);
      assert Ones([1]) == 1 + Ones([]) == 1;
    } else {
      assert Ones([0]) == 0 + Ones([]) == 0;
    }
  }

  // ------------------------------------------- builder against trees

  /** `sub` is what stands in `whole` from index i on. */
  predicate Stands<T(==)>(whole: seq<T>, i: nat, sub: seq<T>) {
    i + |sub| <= |whole| && whole[i..i + |sub|] == sub
  }

  lemma StandsSplit<T>(whole: seq<T>, i: nat, a: seq<T>, b: seq<T>)
    ensures Stands(whole, i, a + b) <==> Stands(whole, i, a) && Stands(whole, i + |a|, b)
  {
    if i + |a + b| <= |whole| {
      var s := whole[i..i + |a + b|];
      assert whole[i..i + |a|] == s[..|a|];
      assert whole[i + |a|..i + |a| + |b|] == s[|a|..];
      assert (a + b)[..|a|] == a && (a + b)[|a|..] == b;
      assert s == s[..|a|] + s[|a|..];
    }
  }

  lemma StandsSplit4<T>(whole: seq<T>, i: nat, a: seq<T>, b: seq<T>, c: seq<T>, d: seq<T>)
    ensures Stands(whole, i, a + b + c + d) <==>
              && Stands(whole, i, a) && Stands(whole, i + |a|, b)
              && Stands(whole, i + |a| + |b|, c) && Stands(whole, i + |a| + |b| + |c|, d)
  {
    StandsSplit(whole, i, a, b);
    StandsSplit(whole, i, a + b, c);
    StandsSplit(whole, i, a + b + c, d);
  }

  /** The first leaf of a split region is smaller than the region. */
  lemma {:induction false} FirstLeafSize(t: QTree, s: Square)
    requires FitsIn(t, s.size)
    ensures Leaves(t, s)[0].size <= s.size
    ensures t.Split? ==> Leaves(t, s)[0].size < s.size
  {
    if t.Split? { FirstLeafSize(t.nw, Quadrant(s, 0)); }
  }

  /** One step of the builder's walk. */
  lemma BuildStep(blocks: seq<Square>, i: nat, s: Square)
    ensures i >= |blocks| ==> BuildWalk(blocks, i, s) == Err(LeafListExhausted)
    ensures i < |blocks| && (s.size <= MIN_LEAF_SIZE || blocks[i] == s) ==>
              BuildWalk(blocks, i, s) ==
                if blocks[i] != s then Err(UnexpectedLeaf)
                else Ok((if s.size <= MIN_LEAF_SIZE then [] else [0], i + 1))
    ensures i < |blocks| && s.size > MIN_LEAF_SIZE && blocks[i] != s ==>
            var r0 := BuildWalk(blocks, i, Quadrant(s, 0));
            BuildWalk(blocks, i, s) == if r0.Err? then r0 else
            var r1 := BuildWalk(blocks, r0.value.1, Quadrant(s, 1));
            if r1.Err? then r1 else
            var r2 := BuildWalk(blocks, r1.value.1, Quadrant(s, 2));
            if r2.Err? then r2 else
            var r3 := BuildWalk(blocks, r2.value.1, Quadrant(s, 3));
            if r3.Err? then r3 else
            Ok(([1] + r0.value.0 + r1.value.0 + r2.value.0 + r3.value.0, r3.value.1))
  {
  }

  /** On the leaves of a tree the builder emits the tree's flags and consumes exactly its leaves. */
  lemma {:induction false} BuildFollowsTree(blocks: seq<Square>, i: nat, t: QTree, s: Square)
    requires FitsIn(t, s.size) && Stands(blocks, i, Leaves(t, s))
    ensures BuildWalk(blocks, i, s) == Ok((TreeFlags(t, s.size), i + |Leaves(t, s)|))
    decreases s.size
  {
    hide FitsIn, Leaves, TreeFlags, BuildWalk;
    FirstLeafSize(t, s);
    assert blocks[i] == Leaves(t, s)[0];
    if t.Single? {
      UnfoldSingle(s); UnfoldFlags(Single, s.size);
      BuildStep(blocks, i, s);
    } else {
      UnfoldSplit(t, s); UnfoldFlags(t, s.size);
      var A, B := Leaves(t.nw, Quadrant(s, 0)), Leaves(t.ne, Quadrant(s, 1));
      var C, D := Leaves(t.sw, Quadrant(s, 2)), Leaves(t.se, Quadrant(s, 3));
      StandsSplit4(blocks, i, A, B, C, D);
      BuildFollowsTree(blocks, i, t.nw, Quadrant(s, 0));
      BuildFollowsTree(blocks, i + |A|, t.ne, Quadrant(s, 1));
      BuildFollowsTree(blocks, i + |A| + |B|, t.sw, Quadrant(s, 2));
      BuildFollowsTree(blocks, i + |A| + |B| + |C|, t.se, Quadrant(s, 3));
      BuildStep(blocks, i, s);
    }
  }

  lemma BuildInRange(blocks: seq<Square>, i: nat, s: Square)
    requires BuildWalk(blocks, i, s).Ok?
    ensures i < |blocks|
  {
  }

  /** Whenever the builder's walk succeeds, what it consumed are the leaves of a tree. */
  lemma {:induction false} BuildYieldsTree(blocks: seq<Square>, i: nat, s: Square) returns (t: QTree)
    requires IsLeafSize(s.size) && BuildWalk(blocks, i, s).Ok?
    ensures FitsIn(t, s.size) && Stands(blocks, i, Leaves(t, s))
    ensures BuildWalk(blocks, i, s) == Ok((TreeFlags(t, s.size), i + |Leaves(t, s)|))
    decreases s.size
  {
    hide FitsIn, Leaves, TreeFlags, BuildWalk;
    BuildInRange(blocks, i, s);
    if s.size == MIN_LEAF_SIZE || blocks[i] == s {
      t := Single;
      UnfoldSingle(s); UnfoldFlags(Single, s.size);
      BuildStep(blocks, i, s);
    } else {
      BuildStep(blocks, i, s);
      var t0 := BuildYieldsTree(blocks, i, Quadrant(s, 0));
      var i1 := i + |Leaves(t0, Quadrant(s, 0))|;
      var t1 := BuildYieldsTree(blocks, i1, Quadrant(s, 1));
      var i2 := i1 + |Leaves(t1, Quadrant(s, 1))|;
      var t2 := BuildYieldsTree(blocks, i2, Quadrant(s, 2));
      var i3 := i2 + |Leaves(t2, Quadrant(s, 2))|;
      var t3 := BuildYieldsTree(blocks, i3, Quadrant(s, 3));
      t := Split(t0, t1, t2, t3);
      UnfoldSplit(t, s); UnfoldFlags(t, s.size);
      StandsSplit4(blocks, i, Leaves(t0, Quadrant(s, 0)), Leaves(t1, Quadrant(s, 1)),
                   Leaves(t2, Quadrant(s, 2)), Leaves(t3, Quadrant(s, 3)));
    }
  }

  lemma FlagsOfBuild(blocks: seq<Square>)
    requires BuildFlags(blocks).Ok?
    ensures IsLeafList(blocks) && Fits(BuildFlags(blocks).value, 1)
  {
    var t := BuildYieldsTree(blocks, 0, MACROBLOCK);
    FlagsBudget(t, 64);
    assert blocks == blocks[0..|blocks|] == Leaves(t, MACROBLOCK);
  }

  /** The flags the builder emits for the leaves of a tree. */
  lemma BuildFlagsOfTree(t: QTree)
    requires FitsIn(t, 64)
    ensures BuildFlags(Leaves(t, MACROBLOCK)) == Ok(TreeFlags(t, 64))
  {
    var L := Leaves(t, MACROBLOCK);
    assert L[0..|L|] == L;
    BuildFollowsTree(L, 0, t, MACROBLOCK);
    FlagsBudget(t, 64);
    MacroblockBudget();
  }

  /** The builder's assertions hold exactly on depth-first leaf lists of quadtrees. */
  lemma BuildSucceedsExactlyOnLeafLists(blocks: seq<Square>)
    ensures BuildSplitMap(blocks).Ok? <==> IsLeafList(blocks)
  {
    if BuildFlags(blocks).Ok? {
      FlagsOfBuild(blocks);
    }
    if IsLeafList(blocks) {
      var t :| FitsIn(t, 64) && blocks == Leaves(t, MACROBLOCK);
      BuildFlagsOfTree(t);
    }
  }

  // -------------------------------------------- parser against trees

  /** The flags from bit `pos` on are `flags`. */
  predicate FlagsAt(words: seq<uint32>, pos: nat, flags: seq<nat>)
    requires |words| == SPLIT_MAP_WORDS
  {
    pos + |flags| <= 96 && forall k :: 0 <= k < |flags| ==> Flag(words, pos + k) == flags[k]
  }

  lemma FlagsAtOne(words: seq<uint32>, pos: nat, flag: nat)
    requires |words| == SPLIT_MAP_WORDS
    ensures FlagsAt(words, pos, []) <==> pos <= 96
    ensures FlagsAt(words, pos, [flag]) <==> pos < 96 && Flag(words, pos) == flag
  {
    assert FlagsAt(words, pos, [flag]) ==> Flag(words, pos + 0) == [flag][0];
  }

  lemma FlagsAtSplit(words: seq<uint32>, pos: nat, a: seq<nat>, b: seq<nat>)
    requires |words| == SPLIT_MAP_WORDS
    ensures FlagsAt(words, pos, a + b) <==> FlagsAt(words, pos, a) && FlagsAt(words, pos + |a|, b)
  {
    if FlagsAt(words, pos, a + b) {
      forall k | 0 <= k < |a| ensures Flag(words, pos + k) == a[k] {
        assert (a + b)[k] == a[k];
      }
      forall k | 0 <= k < |b| ensures Flag(words, pos + |a| + k) == b[k] {
        assert (a + b)[|a| + k] == b[k];
      }
    }
    if FlagsAt(words, pos, a) && FlagsAt(words, pos + |a|, b) {
      forall k | 0 <= k < |a + b| ensures Flag(words, pos + k) == (a + b)[k] {
        assert k >= |a| ==> Flag(words, pos + |a| + (k - |a|)) == b[k - |a|];
      }
    }
  }

  lemma FlagsAtSplit5(words: seq<uint32>, pos: nat, f: seq<nat>, a: seq<nat>, b: seq<nat>, c: seq<nat>, d: seq<nat>)
    requires |words| == SPLIT_MAP_WORDS
    ensures FlagsAt(words, pos, f + a + b + c + d) <==>
              && FlagsAt(words, pos, f) && FlagsAt(words, pos + |f|, a)
              && FlagsAt(words, pos + |f| + |a|, b) && FlagsAt(words, pos + |f| + |a| + |b|, c)
              && FlagsAt(words, pos + |f| + |a| + |b| + |c|, d)
  {
    FlagsAtSplit(words, pos, f, a);
    FlagsAtSplit(words, pos, f + a, b);
    FlagsAtSplit(words, pos, f + a + b, c);
    FlagsAtSplit(words, pos, f + a + b + c, d);
  }

  /** One step of the parser's walk. */
  lemma ParseStep(words: seq<uint32>, pos: nat, s: Square)
    requires |words| == SPLIT_MAP_WORDS && (s.size <= MIN_LEAF_SIZE || pos < SPLIT_MAP_MAX_BITS)
    ensures s.size <= MIN_LEAF_SIZE ==> ParseWalk(words, pos, s) == Ok(([s], pos))
    ensures s.size > MIN_LEAF_SIZE ==> Flag(words, pos) == 0 || Flag(words, pos) == 1
    ensures s.size > MIN_LEAF_SIZE && Flag(words, pos) == 0 ==> ParseWalk(words, pos, s) == Ok(([s], pos + 1))
    ensures s.size > MIN_LEAF_SIZE && Flag(words, pos) == 1 ==>
              var r0 := ParseWalk(words, pos + 1, Quadrant(s, 0));
              ParseWalk(words, pos, s) == if r0.Err? then r0 else
              var r1 := ParseWalk(words, r0.value.1, Quadrant(s, 1));
              if r1.Err? then r1 else
              var r2 := ParseWalk(words, r1.value.1, Quadrant(s, 2));
              if r2.Err? then r2 else
              var r3 := ParseWalk(words, r2.value.1, Quadrant(s, 3));
              if r3.Err? then r3 else
              Ok((r0.value.0 + r1.value.0 + r2.value.0 + r3.value.0, r3.value.1))
  {
    if s.size > MIN_LEAF_SIZE { LowMask(Shr(words[pos / 32], pos % 32), 1, 2); }
  }

  /** Within the bit budget the walk never overruns, and what it reads are the flags of a tree. */
  lemma {:induction false} ParseYieldsTree(words: seq<uint32>, pos: nat, s: Square) returns (t: QTree)
    requires |words| == SPLIT_MAP_WORDS && IsLeafSize(s.size)
    requires pos + NodeBudget(s.size) <= SPLIT_MAP_MAX_BITS
    ensures FitsIn(t, s.size) && FlagsAt(words, pos, TreeFlags(t, s.size))
    ensures ParseWalk(words, pos, s) == Ok((Leaves(t, s), pos + |TreeFlags(t, s.size)|))
    decreases s.size
  {
    hide FitsIn, Leaves, TreeFlags, ParseWalk, FlagsAt, Flag, NodeBudget;
    BudgetStep(s.size);
    ParseStep(words, pos, s);
    UnfoldSingle(s); UnfoldFlags(Single, s.size);
    FlagsAtOne(words, pos, 0);
    FlagsAtOne(words, pos, 1);
    if s.size == MIN_LEAF_SIZE || Flag(words, pos) == 0 {
      t := Single;
    } else {
      var h := s.size / 2;
      var t0 := ParseYieldsTree(words, pos + 1, Quadrant(s, 0));
      FlagsBudget(t0, h);
      var p1 := pos + 1 + |TreeFlags(t0, h)|;
      var t1 := ParseYieldsTree(words, p1, Quadrant(s, 1));
      FlagsBudget(t1, h);
      var p2 := p1 + |TreeFlags(t1, h)|;
      var t2 := ParseYieldsTree(words, p2, Quadrant(s, 2));
      FlagsBudget(t2, h);
      var p3 := p2 + |TreeFlags(t2, h)|;
      var t3 := ParseYieldsTree(words, p3, Quadrant(s, 3));
      t := Split(t0, t1, t2, t3);
      UnfoldSplit(t, s); UnfoldFlags(t, s.size);
      FlagsAtSplit5(words, pos, [1], TreeFlags(t0, h), TreeFlags(t1, h), TreeFlags(t2, h), TreeFlags(t3, h));
    }
  }

  /** Two trees whose flags stand at the same place are the same tree. */
  lemma {:induction false} FlagsDetermineTree(words: seq<uint32>, pos: nat, size: nat, t: QTree, u: QTree)
    requires |words| == SPLIT_MAP_WORDS && FitsIn(t, size) && FitsIn(u, size)
    requires FlagsAt(words, pos, TreeFlags(t, size)) && FlagsAt(words, pos, TreeFlags(u, size))
    ensures t == u
    decreases size
  {
    hide TreeFlags, FitsIn, FlagsAt, Flag;
    var s := Square(0, 0, size);
    if t.Single? { UnfoldSingle(s); } else { UnfoldSplit(t, s); }
    if u.Single? { UnfoldSingle(s); } else { UnfoldSplit(u, s); }
    UnfoldFlags(t, size); UnfoldFlags(u, size);
    if size > MIN_LEAF_SIZE {
      var h := size / 2;
      if t.Split? {
        FlagsAtSplit5(words, pos, [1], TreeFlags(t.nw, h), TreeFlags(t.ne, h), TreeFlags(t.sw, h), TreeFlags(t.se, h));
      }
      if u.Split? {
        FlagsAtSplit5(words, pos, [1], TreeFlags(u.nw, h), TreeFlags(u.ne, h), TreeFlags(u.sw, h), TreeFlags(u.se, h));
      }
      FlagsAtOne(words, pos, 0);
      FlagsAtOne(words, pos, 1);
      if t.Split? && u.Split? {
        FlagsDetermineTree(words, pos + 1, h, t.nw, u.nw);
        var p := pos + 1 + |TreeFlags(t.nw, h)|;
        FlagsDetermineTree(words, p, h, t.ne, u.ne);
        p := p + |TreeFlags(t.ne, h)|;
        FlagsDetermineTree(words, p, h, t.sw, u.sw);
        FlagsDetermineTree(words, p + |TreeFlags(t.sw, h)|, h, t.se, u.se);
      }
    }
  }

  // ------------------------------------------------ flags against words

  lemma FlagIsField(words: seq<uint32>, k: nat)
    requires |words| == SPLIT_MAP_WORDS && k < 96
    ensures Flag(words, k) == AllFields(words, 1)[k]
  {
  }

  lemma {:induction false} PackWordConcat(a: seq<nat>, b: seq<nat>)
    ensures PackWord(a + b, 1) == PackWord(a, 1) + Shl(PackWord(b, 1), |a|)
  {
    if |a| == 0 {
      assert a + b == b;
    } else {
      assert (a + b)[1..] == a[1..] + b;
      PackWordConcat(a[1..], b);
      ShlAdd(PackWord(a[1..], 1), Shl(PackWord(b, 1), |a| - 1), 1);
      ShlShl(PackWord(b, 1), |a| - 1, 1);
    }
  }

  lemma FirstFlag(flags: seq<nat>)
    requires |flags| > 0 && flags[0] <= 1
    ensures PackWord(flags, 1) == flags[0] + 2 * PackWord(flags[1..], 1)
    ensures PackWord(flags, 1) / 2 == PackWord(flags[1..], 1)
  {
    assert Shl(PackWord(flags[1..], 1), 1) == 2 * PackWord(flags[1..], 1);
  }

  /** Shifting the packed bits right drops flags; zero means that none is left set. */
  lemma {:induction false} ShrOfPackWord(flags: seq<nat>, n: nat)
    requires Fits(flags, 1) && n <= |flags|
    ensures Shr(PackWord(flags, 1), n) == PackWord(flags[n..], 1)
  {
    hide PackWord;
    if n == 0 {
      assert flags[0..] == flags;
    } else {
      assert flags[0] <= 1 && Fits(flags[1..], 1);
      FirstFlag(flags);
      ShrOfPackWord(flags[1..], n - 1);
      assert flags[1..][n - 1..] == flags[n..];
    }
  }

  lemma {:induction false} PackWordZero(flags: seq<nat>)
    ensures PackWord(flags, 1) == 0 <==> forall k :: 0 <= k < |flags| ==> flags[k] == 0
  {
    if |flags| > 0 {
      PackWordZero(flags[1..]);
      ShlZero(PackWord(flags[1..], 1), 1);
      if forall k :: 0 <= k < |flags| ==> flags[k] == 0 {
        assert forall k :: 0 <= k < |flags[1..]| ==> flags[1..][k] == flags[k + 1] == 0;
      }
      if PackWord(flags, 1) == 0 {
        assert flags[0] == 0;
        assert forall k :: 1 <= k < |flags| ==> flags[k] == flags[1..][k - 1];
      }
    }
  }

  /** The three words, joined, are the number whose binary digits are the 96 flags. */
  lemma PackedBitsAreFlags(words: seq<uint32>)
    requires |words| == SPLIT_MAP_WORDS
    ensures PackedBits(words) == PackWord(AllFields(words, 1), 1)
  {
    hide Shl, Or, AllFields, PackWord;
    var f := AllFields(words, 1);
    Powers();
    FieldsOfWord(words, 1, 0); FieldsOfWord(words, 1, 1); FieldsOfWord(words, 1, 2);
    PackWordOfFields(words[0], 1, 32); PackWordOfFields(words[1], 1, 32); PackWordOfFields(words[2], 1, 32);
    assert f == f[0..32] + f[32..64] + f[64..96];
    PackWordConcat(f[0..32], f[32..64]);
    PackWordConcat(f[0..32] + f[32..64], f[64..96]);
    OrDisjoint(words[0], words[1], 32);
    var low := PackWord(f[0..32] + f[32..64], 1);
    PackWordBound(f[0..32] + f[32..64], 1);
    OrDisjoint(low, words[2], 64);
  }

  lemma UnusedBits(words: seq<uint32>, pos: nat)
    requires |words| == SPLIT_MAP_WORDS && pos <= 96
    ensures Shr(PackedBits(words), pos) == 0 <==> forall k :: pos <= k < 96 ==> AllFields(words, 1)[k] == 0
  {
    var f := AllFields(words, 1);
    PackedBitsAreFlags(words);
    ShrOfPackWord(f, pos);
    PackWordZero(f[pos..]);
    if forall k :: 0 <= k < |f[pos..]| ==> f[pos..][k] == 0 {
      forall k | pos <= k < 96 ensures f[k] == 0 {
        assert f[k] == f[pos..][k - pos];
      }
    }
  }

  /** Three words are the packing of a flag list exactly when their flags are the list, then zeros. */
  lemma PackedFlags(words: seq<uint32>, flags: seq<nat>)
    requires |words| == SPLIT_MAP_WORDS && Fits(flags, 1) && |flags| <= 96
    ensures words == PackWords(flags, 1, 3) <==>
              FlagsAt(words, 0, flags) && forall k :: |flags| <= k < 96 ==> AllFields(words, 1)[k] == 0
  {
    var packed := PackWords(flags, 1, 3);
    var f := AllFields(packed, 1);
    forall k | 0 <= k < 96
      ensures f[k] == if k < |flags| then flags[k] else 0
    {
      FieldOfPackedWord(flags, 1, k);
    }
    forall k | 0 <= k < 96
      ensures Flag(words, k) == AllFields(words, 1)[k]
    {
      FlagIsField(words, k);
    }
    if FlagsAt(words, 0, flags) && forall k :: |flags| <= k < 96 ==> AllFields(words, 1)[k] == 0 {
      forall k | 0 <= k < 96
        ensures AllFields(words, 1)[k] == f[k]
      {
        assert k < |flags| ==> Flag(words, 0 + k) == flags[k];
      }
      assert AllFields(words, 1) == f;
      PackWordsOfFields(words, 1);
      PackWordsOfFields(packed, 1);
    }
  }

  // ------------------------------------------------------------ main results

  /** What parsing any 12-byte map does: it reads at most 85 flags, those of one tree, and
      fails exactly when a later bit is set. The overrun check never fires. */
  lemma ParseAnalysis(buf: seq<byte>) returns (t: QTree)
    requires |buf| >= SPLIT_MAP_BYTES
    ensures FitsIn(t, 64) && |TreeFlags(t, 64)| <= SPLIT_MAP_MAX_BITS
    ensures FlagsAt(WordsAt(buf, 0, 3), 0, TreeFlags(t, 64))
    ensures ParseSplitMap(buf) ==
              if forall k :: |TreeFlags(t, 64)| <= k < 96 ==> AllFields(WordsAt(buf, 0, 3), 1)[k] == 0
              then Ok(Leaves(t, MACROBLOCK)) else Err(NonzeroUnusedBits)
  {
    hide FitsIn, Leaves, TreeFlags, ParseWalk, NodeBudget, FlagsAt, PackedBits, Shr;
    MacroblockBudget();
    t := ParseYieldsTree(WordsAt(buf, 0, 3), 0, MACROBLOCK);
    FlagsBudget(t, 64);
    UnusedBits(WordsAt(buf, 0, 3), |TreeFlags(t, 64)|);
  }

  /** Accepted maps describe exact tilings, with three leaves more than one per set flag. */
  lemma ParsedLeavesTile(buf: seq<byte>)
    requires ParseSplitMap(buf).Ok?
    ensures IsLeafList(ParseSplitMap(buf).value) && ExactTiling(ParseSplitMap(buf).value, MACROBLOCK)
    ensures |ParseSplitMap(buf).value| == 3 * Ones(AllFields(WordsAt(buf, 0, 3), 1)) + 1
  {
    var t := ParseAnalysis(buf);
    LeavesTile(t, MACROBLOCK);
    LeafCount(t, MACROBLOCK);
    var flags, f := TreeFlags(t, 64), AllFields(WordsAt(buf, 0, 3), 1);
    forall k | 0 <= k < |flags|
      ensures f[k] == flags[k]
    {
      FlagIsField(WordsAt(buf, 0, 3), 0 + k);
    }
    assert f == flags + f[|flags|..];
    OnesConcat(flags, f[|flags|..]);
    OnesOfZeros(f[|flags|..]);
  }

  lemma {:induction false} OnesOfZeros(a: seq<nat>)
    requires forall k :: 0 <= k < |a| ==> a[k] == 0
    ensures Ones(a) == 0
  {
    if |a| > 0 { OnesOfZeros(a[1..]); }
  }

  /** The overrun error is unreachable: any 12-byte buffer is accepted or has a nonzero unused bit. */
  lemma NoOverrun(buf: seq<byte>)
    ensures ParseSplitMap(buf) != Err(Overrun)
    ensures |buf| >= SPLIT_MAP_BYTES ==> ParseSplitMap(buf).Ok? || ParseSplitMap(buf) == Err(NonzeroUnusedBits)
  {
    if |buf| >= SPLIT_MAP_BYTES {
      var t := ParseAnalysis(buf);
    }
  }

  /** Parsing undoes building, for every depth-first leaf list. */
  lemma ParseUndoesBuild(blocks: seq<Square>)
    requires IsLeafList(blocks)
    ensures BuildSplitMap(blocks).Ok? && |BuildSplitMap(blocks).value| == SPLIT_MAP_BYTES
    ensures ParseSplitMap(BuildSplitMap(blocks).value) == Ok(blocks)
  {
    var t :| FitsIn(t, 64) && blocks == Leaves(t, MACROBLOCK);
    BuildFlagsOfTree(t);
    FlagsOfBuild(blocks);
    var flags := TreeFlags(t, 64);
    var words := PackWords(flags, 1, 3);
    var buf := WordsBytes(words);
    assert buf[0..|buf|] == buf;
    AtWords(buf, 0, words);
    PackedFlags(words, flags);
    var u := ParseAnalysis(buf);
    FlagsBudget(t, 64);
    MacroblockBudget();
    FlagsDetermineTree(words, 0, 64, t, u);
  }

  /** Bit k of the map, counted from the lowest bit of each little-endian word on, is flag k of the tree
      in depth-first order, and the bits behind the flags are clear. */
  lemma SplitMapBits(t: QTree, k: nat)
    requires FitsIn(t, 64) && k < 96
    ensures BuildSplitMap(Leaves(t, MACROBLOCK)).Ok? && |BuildSplitMap(Leaves(t, MACROBLOCK)).value| == 12
    ensures var words := WordsAt(BuildSplitMap(Leaves(t, MACROBLOCK)).value, 0, 3);
            words[k / 32] / Power2(k % 32) % 2 == if k < |TreeFlags(t, 64)| then TreeFlags(t, 64)[k] else 0
  {
    hide FitsIn, Leaves, TreeFlags, PackedWord, BuildFlags, Shr, And, Power2, Field;
    BuildFlagsOfTree(t);
    FlagsBudget(t, 64);
    MacroblockBudget();
    var flags := TreeFlags(t, 64);
    var words := PackWords(flags, 1, 3);
    var buf := WordsBytes(words);
    assert buf[0..|buf|] == buf;
    AtWords(buf, 0, words);
    FieldOfPackedWord(flags, 1, k);
    FlagPlace(words[k / 32], k % 32);
  }

  lemma FlagPlace(w: nat, i: nat)
    ensures Field(w, 1, i) == w / Power2(i) % 2
  {
    hide And, Shr;
    ShiftsAre(w, i);
    Powers();
    LowMask(w / Power2(i), 1, 2);
  }

  /** A macroblock of which only the upper right quarter is split, and of that only its upper left
      quarter: the flag of a node, then those of its quarters. */
  lemma {:induction false} FlagsExample(four: QTree, ne: QTree, t: QTree)
    requires four == Split(Single, Single, Single, Single) && ne == Split(four, Single, Single, Single)
    requires t == Split(Single, ne, Single, Single)
    ensures FitsIn(t, 64) && BuildFlags(Leaves(t, MACROBLOCK)) == Ok([1, 0, 1, 1, 0, 0, 0, 0, 0, 0, 0, 0, 0])
  {
    hide *;
    FlagsOfLeaf(32); FlagsOfLeaf(16); FlagsOfLeaf(8);
    FlagsOfSplit(four, 16, [0], [0], [0], [0], [1, 0, 0, 0, 0]);
    FlagsOfSplit(ne, 32, [1, 0, 0, 0, 0], [0], [0], [0], [1, 1, 0, 0, 0, 0, 0, 0, 0]);
    FlagsOfSplit(t, 64, [0], [1, 1, 0, 0, 0, 0, 0, 0, 0], [0], [0], [1, 0, 1, 1, 0, 0, 0, 0, 0, 0, 0, 0, 0]);
    BuildFlagsOfTree(t);
  }

  lemma FlagsOfLeaf(size: nat)
    requires size == 8 || size == 16 || size == 32
    ensures TreeFlags(Single, size) == [0] && FitsIn(Single, size)
  {
  }

  lemma {:induction false} FlagsOfSplit(t: QTree, size: nat, a: seq<nat>, b: seq<nat>, c: seq<nat>, d: seq<nat>,
                                        all: seq<nat>)
    requires t.Split? && (size == 16 || size == 32 || size == 64)
    requires TreeFlags(t.nw, size / 2) == a && TreeFlags(t.ne, size / 2) == b
    requires TreeFlags(t.sw, size / 2) == c && TreeFlags(t.se, size / 2) == d
    requires FitsIn(t.nw, size / 2) && FitsIn(t.ne, size / 2) && FitsIn(t.sw, size / 2) && FitsIn(t.se, size / 2)
    requires all == [1] + a + b + c + d
    ensures TreeFlags(t, size) == all && FitsIn(t, size)
  {
    UnfoldFlags(t, size);
  }

  /** Building undoes parsing, bit for bit, on every map the parser accepts. */
  lemma BuildUndoesParse(buf: seq<byte>)
    requires |buf| == SPLIT_MAP_BYTES && ParseSplitMap(buf).Ok?
    ensures BuildSplitMap(ParseSplitMap(buf).value) == Ok(buf)
  {
    hide FitsIn, Leaves, TreeFlags, PackedWord, ParseSplitMap, BuildFlags, FlagsAt, Shl;
    var t := ParseAnalysis(buf);
    var words := WordsAt(buf, 0, 3);
    BuildFlagsOfTree(t);
    FlagsOfBuild(Leaves(t, MACROBLOCK));
    PackedFlags(words, TreeFlags(t, 64));
    WordsOfBytes(buf, 3);
  }

  // --------------------------------------------------- the walks themselves

  /** Builder state: the next leaf and the flags emitted so far. */
  class Builder {
    const blocks: seq<Square>
    var leafIndex: nat
    var bits: seq<nat>

    constructor (blocks: seq<Square>)
      ensures this.blocks == blocks && leafIndex == 0 && bits == []
    {
      this.blocks := blocks;
      leafIndex, bits := 0, [];
    }

    method Walk(s: Square) returns (r: Result<(), SplitMapError>)
      modifies this
      ensures var w := BuildWalk(blocks, old(leafIndex), s);
              if w.Err? then r == Err(w.error)
              else r.Ok? && bits == old(bits) + w.value.0 && leafIndex == w.value.1
      decreases s.size
    {
      hide BuildWalk;
      BuildStep(blocks, leafIndex, s);
      if leafIndex >= |blocks| { return Err(LeafListExhausted); }
      var block := blocks[leafIndex];
      if s.size <= MIN_LEAF_SIZE {
        if block != s { return Err(UnexpectedLeaf); }
        leafIndex := leafIndex + 1;
        return Ok(());
      }
      if block == s {
        bits := bits + [0];
        leafIndex := leafIndex + 1;
        return Ok(());
      }
      bits := bits + [1];
      r := Walk(Quadrant(s, 0));
      if r.Err? { return; }
      r := Walk(Quadrant(s, 1));
      if r.Err? { return; }
      r := Walk(Quadrant(s, 2));
      if r.Err? { return; }
      r := Walk(Quadrant(s, 3));
    }
  }

  /** words[k / 32] |= 1 << (k % 32) for each set flag. */
  method PackFlags(bits: seq<nat>) returns (words: array<uint32>)
    requires Fits(bits, 1) && |bits| <= SPLIT_MAP_MAX_BITS
    ensures fresh(words) && words[..] == PackWords(bits, 1, SPLIT_MAP_WORDS)
  {
    hide PackedWord, Or, Shl;
    words := new uint32[SPLIT_MAP_WORDS](_ => 0);
    SplitWordsEmpty();
    assert bits[..0] == [];
    for k := 0 to |bits|
      invariant words[..] == PackWords(bits[..k], 1, SPLIT_MAP_WORDS)
    {
      SplitWordStep(bits, k);
      if bits[k] != 0 {
        words[k / 32] := Or(words[k / 32], Shl(1, k % 32));
      }
      assert words[..] == PackWords(bits[..k + 1], 1, SPLIT_MAP_WORDS);
    }
    assert bits[..|bits|] == bits;
  }

  lemma SplitWordsEmpty()
    ensures PackWords([], 1, SPLIT_MAP_WORDS) == seq(SPLIT_MAP_WORDS, _ => 0)
  {
  }

  /** The exporter's routine: walk, check, pack. */
  method WriteSplitMap(blocks: seq<Square>) returns (r: Result<seq<byte>, SplitMapError>)
    ensures r == BuildSplitMap(blocks)
  {
    hide BuildWalk, PackWords, Fits;
    var builder := new Builder(blocks);
    var walked := builder.Walk(MACROBLOCK);
    if walked.Err? { return Err(walked.error); }
    if builder.leafIndex != |blocks| { return Err(LeavesLeftOver); }
    var bits := builder.bits;
    assert bits == BuildWalk(blocks, 0, MACROBLOCK).value.0;
    if |bits| > SPLIT_MAP_MAX_BITS { return Err(TooManyBits); }
    assert BuildFlags(blocks) == Ok(bits);
    var words := PackFlags(bits);
    r := Ok(WordsBytes(words[..]));
  }

  lemma SplitWordStep(bits: seq<nat>, k: nat)
    requires Fits(bits, 1) && k < |bits| <= 96
    ensures var before, after := PackWords(bits[..k], 1, 3), PackWords(bits[..k + 1], 1, 3);
            forall j :: 0 <= j < 3 ==>
              after[j] == if j == k / 32 && bits[k] != 0 then Or(before[j], Shl(1, k % 32)) else before[j]
  {
    assert bits[..k + 1] == bits[..k] + [bits[k]];
    ShlZero(0, k % 32);
    forall j | 0 <= j < 3
      ensures PackedWord(bits[..k + 1], 1, j) ==
                if j == k / 32 then Or(PackedWord(bits[..k], 1, j), Shl(bits[k], k % 32))
                else PackedWord(bits[..k], 1, j)
    {
      PackStep(bits[..k], bits[k], 1, j);
    }
  }

  /** Parser state: the next flag and the leaves found so far. */
  class Parser {
    const words: seq<uint32>
    var bitPos: nat
    var leaves: seq<Square>

    constructor (words: seq<uint32>)
      ensures this.words == words && bitPos == 0 && leaves == []
    {
      this.words := words;
      bitPos, leaves := 0, [];
    }

    method Walk(s: Square) returns (r: Result<(), SplitMapError>)
      requires |words| == SPLIT_MAP_WORDS
      modifies this
      ensures var w := ParseWalk(words, old(bitPos), s);
              if w.Err? then r == Err(w.error)
              else r.Ok? && leaves == old(leaves) + w.value.0 && bitPos == w.value.1
      decreases s.size
    {
      hide ParseWalk;
      ParseOverrun(words, bitPos, s);
      if s.size <= MIN_LEAF_SIZE {
        leaves := leaves + [s];
        return Ok(());
      }
      if bitPos >= SPLIT_MAP_MAX_BITS { return Err(Overrun); }
      ParseStep(words, bitPos, s);
      var split := And(Shr(words[bitPos / 32], bitPos % 32), 0x1);
      bitPos := bitPos + 1;
      if split == 0 {
        leaves := leaves + [s];
        return Ok(());
      }
      r := Walk(Quadrant(s, 0));
      if r.Err? { return; }
      r := Walk(Quadrant(s, 1));
      if r.Err? { return; }
      r := Walk(Quadrant(s, 2));
      if r.Err? { return; }
      r := Walk(Quadrant(s, 3));
    }
  }

  lemma ParseOverrun(words: seq<uint32>, pos: nat, s: Square)
    requires |words| == SPLIT_MAP_WORDS
    ensures s.size <= MIN_LEAF_SIZE ==> ParseWalk(words, pos, s) == Ok(([s], pos))
    ensures s.size > MIN_LEAF_SIZE && pos >= SPLIT_MAP_MAX_BITS ==> ParseWalk(words, pos, s) == Err(Overrun)
  {
  }

  /** The decoder's routine. */
  method ReadSplitMap(buf: seq<byte>) returns (r: Result<seq<Square>, SplitMapError>)
    ensures r == ParseSplitMap(buf)
  {
    hide ParseWalk, Or, Shl, Shr;
    if |buf| < SPLIT_MAP_BYTES { return Err(Truncated); }
    var words := WordsAt(buf, 0, SPLIT_MAP_WORDS);
    var parser := new Parser(words);
    var walked := parser.Walk(MACROBLOCK);
    if walked.Err? { return Err(walked.error); }
    assert parser.leaves == ParseWalk(words, 0, MACROBLOCK).value.0;
    var packedBits := Or(Or(words[0], Shl(words[1], 32)), Shl(words[2], 64));
    if Shr(packedBits, parser.bitPos) != 0 { return Err(NonzeroUnusedBits); }
    r := Ok(parser.leaves);
  }
}
