/** Adaptive leaf selection: the quadtree encoder of one macroblock. */
module QuadtreeEncoder {
  import opened Format
  import opened Basics
  import opened Fit
  import opened Quadtree
  import opened Layouts
  import opened Codes
  import Bits
  import Half
  import Headers

  /** A weight matrix without its bounds: the value at (row, column). */
  type Grid = (nat, nat) -> real

  datatype EncodeError = BadMinBlockSize | RecursionTooDeep

  /** Error gates configured for one block size; None stands for a missing key. */
  datatype Threshold = Threshold(maxMse: Option<real>, maxRelative: Option<real>)

  const MAX_RECURSION_DEPTH := 4
  const T158_MAX_PER_WEIGHT_ERROR_SCALE := 5.0
  const HYSTERESIS_IMPROVEMENT := 0.8
  const HYSTERESIS_SLACK := 1.1
  const RELATIVE_EPSILON := 0.000000000001
  const DEFAULT_MAX_MSE := 0.0005

  /** The fields of the encoder, fixed at construction. The Laplacian-weighted error is a
      parameter: any function of region, reconstruction and block size. */
  datatype Encoder = Encoder(
    thresholds: map<nat, Threshold>,
    ternaryDelta: real,
    fitFp4: seq<real> -> FitResult,
    fitT158: seq<real> -> FitResult,
    laplacian: (seq<real>, seq<real>, nat) -> real,
    minBlockSize: nat
  )

  // --------------------------------------------------------- one candidate

  /** superblock[y:y+size, x:x+size].ravel() */
  function Region(sb: Grid, s: Square): (r: seq<real>)
    ensures |r| == s.size * s.size
  {
    if s.size == 0 then [] else
    seq(s.size * s.size, k requires k >= 0 => sb(s.y + k / s.size, s.x + k % s.size))
  }

  /** The candidate's own reconstruction of the region. */
  function Reconstruct(region: seq<real>, fit: FitResult, mode: CodeMode): (r: seq<real>)
    ensures |r| == |region|
  {
    Reconstructed(QuantizedCodes(mode, region, fit.scale, fit.bias), fit.scale, fit.bias)
  }

  /** Some ternary reconstruction error exceeds five scales. */
  predicate T158HasOutlier(region: seq<real>, fit: FitResult) {
    var recon := Reconstruct(region, fit, T158_AFFINE);
    exists i :: 0 <= i < |region| && Half.Abs(region[i] - recon[i]) > T158_MAX_PER_WEIGHT_ERROR_SCALE * fit.scale
  }

  datatype Choice = Choice(mode: CodeMode, fit: FitResult, error: real)

  /** The better of the two code modes for a region. Thresholds play no part in it. */
  function Choose(enc: Encoder, region: seq<real>, size: nat): Choice {
    var fp4, t158 := enc.fitFp4(region), enc.fitT158(region);
    var fp4Error := enc.laplacian(region, Reconstruct(region, fp4, FP4_AFFINE), size);
    var t158Error := enc.laplacian(region, Reconstruct(region, t158, T158_AFFINE), size);
    if t158Error <= (1.0 + enc.ternaryDelta) * fp4Error && !T158HasOutlier(region, t158)
    then Choice(T158_AFFINE, t158, t158Error)
    else Choice(FP4_AFFINE, fp4, fp4Error)
  }

  // ------------------------------------------------------------------ gates

  /** thresholds.get(size, thresholds.get(min_block_size, default)) */
  function ThresholdFor(enc: Encoder, size: nat): Threshold {
    if size in enc.thresholds then enc.thresholds[size]
    else if enc.minBlockSize in enc.thresholds then enc.thresholds[enc.minBlockSize]
    else Threshold(Some(DEFAULT_MAX_MSE), None)
  }

  function MaxMse(t: Threshold): real {
    if t.maxMse.Some? then t.maxMse.value else DEFAULT_MAX_MSE
  }

  function SignalPower(region: seq<real>): real {
    if |region| == 0 then 0.0
    else Mean(seq(|region|, i requires 0 <= i < |region| => region[i] * region[i]))
  }

  /** Both gates on the scale of the absolute one. */
  function CombinedGateError(region: seq<real>, error: real, maxMse: real, maxRelative: Option<real>): real {
    if maxRelative.None? || maxRelative.value <= 0.0 then error
    else if SignalPower(region) <= RELATIVE_EPSILON then error
    else
      var relative := maxMse * ((error / SignalPower(region)) / maxRelative.value);
      if relative > error then relative else error
  }

  predicate Accepts(enc: Encoder, region: seq<real>, size: nat, parentAccepted: bool) {
    var t := ThresholdFor(enc, size);
    var gate := CombinedGateError(region, Choose(enc, region, size).error, MaxMse(t), t.maxRelative);
    || gate <= (if parentAccepted then MaxMse(t) * HYSTERESIS_IMPROVEMENT else MaxMse(t))
    || (size > enc.minBlockSize && gate <= MaxMse(t) * HYSTERESIS_SLACK)
    || size <= enc.minBlockSize
  }

  /** The leaf record of an accepted region. */
  function MakeLeaf(enc: Encoder, sb: Grid, s: Square): Leaf {
    var c := Choose(enc, Region(sb, s), s.size);
    Leaf(s, c.mode, Headers.ClipHalf(c.fit.scale), Headers.ClipHalf(c.fit.bias), c.fit.payload)
  }

  // -------------------------------------------------------------- recursion

  function TryBlock(enc: Encoder, sb: Grid, s: Square, parentAccepted: bool, depth: nat): Result<seq<Leaf>, EncodeError>
    decreases if depth <= MAX_RECURSION_DEPTH then MAX_RECURSION_DEPTH + 1 - depth else 0
  {
    if depth > MAX_RECURSION_DEPTH then Err(RecursionTooDeep)
    else
      var accept := Accepts(enc, Region(sb, s), s.size, parentAccepted);
      if accept then Ok([MakeLeaf(enc, sb, s)])
      else
        var r0 := TryBlock(enc, sb, Quadrant(s, 0), accept, depth + 1);
        if r0.Err? then r0 else
        var r1 := TryBlock(enc, sb, Quadrant(s, 1), accept, depth + 1);
        if r1.Err? then r1 else
        var r2 := TryBlock(enc, sb, Quadrant(s, 2), accept, depth + 1);
        if r2.Err? then r2 else
        var r3 := TryBlock(enc, sb, Quadrant(s, 3), accept, depth + 1);
        if r3.Err? then r3 else
        Ok(r0.value + r1.value + r2.value + r3.value)
  }

  function Encode(enc: Encoder, sb: Grid): Result<seq<Leaf>, EncodeError> {
    if !IsLeafSize(enc.minBlockSize) then Err(BadMinBlockSize)
    else TryBlock(enc, sb, MACROBLOCK, false, 0)
  }

  // ---------------------------------------------------- the tree of choices

  /** The quadtree the gates select when no parent counts as accepted. */
  function ChosenTree(enc: Encoder, sb: Grid, s: Square): QTree
    decreases s.size
  {
    if s.size <= 4 || Accepts(enc, Region(sb, s), s.size, false) then Single
    else Split(ChosenTree(enc, sb, Quadrant(s, 0)), ChosenTree(enc, sb, Quadrant(s, 1)),
               ChosenTree(enc, sb, Quadrant(s, 2)), ChosenTree(enc, sb, Quadrant(s, 3)))
  }

  function MakeLeaves(enc: Encoder, sb: Grid, L: seq<Square>): (r: seq<Leaf>)
    ensures |r| == |L| && Squares(r) == L
  {
    var r := seq(|L|, i requires 0 <= i < |L| => MakeLeaf(enc, sb, L[i]));
    assert Squares(r) == L;
    r
  }

  /** Recursion depth of a block of the given size. */
  function DepthOf(size: nat): nat
    requires IsLeafSize(size)
  {
    match size case 64 => 0 case 32 => 1 case 16 => 2 case 8 => 3 case 4 => 4
  }

  lemma TryBlockStep(enc: Encoder, sb: Grid, s: Square, parentAccepted: bool, depth: nat)
    ensures depth > MAX_RECURSION_DEPTH ==> TryBlock(enc, sb, s, parentAccepted, depth) == Err(RecursionTooDeep)
    ensures depth <= MAX_RECURSION_DEPTH && Accepts(enc, Region(sb, s), s.size, parentAccepted) ==>
              TryBlock(enc, sb, s, parentAccepted, depth) == Ok([MakeLeaf(enc, sb, s)])
    ensures depth <= MAX_RECURSION_DEPTH && !Accepts(enc, Region(sb, s), s.size, parentAccepted) ==>
              var r0 := TryBlock(enc, sb, Quadrant(s, 0), false, depth + 1);
              TryBlock(enc, sb, s, parentAccepted, depth) == if r0.Err? then r0 else
              var r1 := TryBlock(enc, sb, Quadrant(s, 1), false, depth + 1);
              if r1.Err? then r1 else
              var r2 := TryBlock(enc, sb, Quadrant(s, 2), false, depth + 1);
              if r2.Err? then r2 else
              var r3 := TryBlock(enc, sb, Quadrant(s, 3), false, depth + 1);
              if r3.Err? then r3 else
              Ok(r0.value + r1.value + r2.value + r3.value)
  {
    hide Accepts, MakeLeaf;
  }

  lemma TreeStep(enc: Encoder, sb: Grid, s: Square)
    ensures s.size <= 4 || Accepts(enc, Region(sb, s), s.size, false) ==> ChosenTree(enc, sb, s) == Single
    ensures !(s.size <= 4 || Accepts(enc, Region(sb, s), s.size, false)) ==>
              ChosenTree(enc, sb, s) ==
                Split(ChosenTree(enc, sb, Quadrant(s, 0)), ChosenTree(enc, sb, Quadrant(s, 1)),
                      ChosenTree(enc, sb, Quadrant(s, 2)), ChosenTree(enc, sb, Quadrant(s, 3)))
  {
    hide Accepts;
  }

  /** The recursion never exceeds its depth limit, always passes parent_accepted = False down, and
      returns the leaf records of the chosen tree in depth-first order. */
  lemma {:induction false} TryBlockFollowsTree(enc: Encoder, sb: Grid, s: Square)
    requires IsLeafSize(s.size) && IsLeafSize(enc.minBlockSize)
    ensures FitsIn(ChosenTree(enc, sb, s), s.size)
    ensures TryBlock(enc, sb, s, false, DepthOf(s.size)) == Ok(MakeLeaves(enc, sb, Leaves(ChosenTree(enc, sb, s), s)))
    decreases s.size
  {
    var t := ChosenTree(enc, sb, s);
    SmallBlocksAccepted(enc, sb, s);
    TryBlockStep(enc, sb, s, false, DepthOf(s.size));
    TreeStep(enc, sb, s);
    hide TryBlock, ChosenTree, Accepts, Leaves, FitsIn, MakeLeaf, MakeLeaves, Region, DepthOf;
    if t.Single? {
      UnfoldSingle(s);
      MakeLeavesOne(enc, sb, s);
    } else {
      ChildDepth(s.size);
      UnfoldSplit(t, s);
      TryBlockFollowsTree(enc, sb, Quadrant(s, 0));
      TryBlockFollowsTree(enc, sb, Quadrant(s, 1));
      TryBlockFollowsTree(enc, sb, Quadrant(s, 2));
      TryBlockFollowsTree(enc, sb, Quadrant(s, 3));
      var A, B := Leaves(t.nw, Quadrant(s, 0)), Leaves(t.ne, Quadrant(s, 1));
      var C, D := Leaves(t.sw, Quadrant(s, 2)), Leaves(t.se, Quadrant(s, 3));
      MakeLeavesConcat(enc, sb, A, B);
      MakeLeavesConcat(enc, sb, A + B, C);
      MakeLeavesConcat(enc, sb, A + B + C, D);
    }
  }

  lemma SmallBlocksAccepted(enc: Encoder, sb: Grid, s: Square)
    ensures s.size <= enc.minBlockSize ==> Accepts(enc, Region(sb, s), s.size, false)
  {
  }

  lemma ChildDepth(size: nat)
    requires IsLeafSize(size) && size > MIN_LEAF_SIZE
    ensures IsLeafSize(size / 2) && DepthOf(size / 2) == DepthOf(size) + 1 <= MAX_RECURSION_DEPTH
  {
  }

  lemma MakeLeavesOne(enc: Encoder, sb: Grid, s: Square)
    ensures MakeLeaves(enc, sb, [s]) == [MakeLeaf(enc, sb, s)]
  {
    hide MakeLeaf;
  }

  lemma MakeLeavesConcat(enc: Encoder, sb: Grid, A: seq<Square>, B: seq<Square>)
    ensures MakeLeaves(enc, sb, A + B) == MakeLeaves(enc, sb, A) + MakeLeaves(enc, sb, B)
  {
    hide MakeLeaf;
  }

  lemma {:induction false} TreeRespectsMinimum(enc: Encoder, sb: Grid, s: Square)
    requires IsLeafSize(s.size) && IsLeafSize(enc.minBlockSize)
    ensures forall i :: 0 <= i < |Leaves(ChosenTree(enc, sb, s), s)| ==>
              Leaves(ChosenTree(enc, sb, s), s)[i].size
              >= if s.size < enc.minBlockSize then s.size else enc.minBlockSize
    decreases s.size
  {
    var t := ChosenTree(enc, sb, s);
    SmallBlocksAccepted(enc, sb, s);
    TreeStep(enc, sb, s);
    hide ChosenTree, Accepts, Leaves, Region;
    if t.Single? {
      UnfoldSingle(s);
    } else {
      UnfoldSplit(t, s);
      TreeRespectsMinimum(enc, sb, Quadrant(s, 0));
      TreeRespectsMinimum(enc, sb, Quadrant(s, 1));
      TreeRespectsMinimum(enc, sb, Quadrant(s, 2));
      TreeRespectsMinimum(enc, sb, Quadrant(s, 3));
      HalvesAboveMinimum(s.size, enc.minBlockSize);
    }
  }

  lemma HalvesAboveMinimum(size: nat, min: nat)
    requires IsLeafSize(size) && IsLeafSize(min) && size > min
    ensures size / 2 >= min
  {
  }

  /** What encoding a macroblock yields: the error cases, and otherwise one leaf record per leaf of
      a quadtree, in depth-first order, tiling the macroblock exactly, none below the minimum size. */
  lemma EncodeTiles(enc: Encoder, sb: Grid)
    ensures Encode(enc, sb).Ok? <==> IsLeafSize(enc.minBlockSize)
    ensures Encode(enc, sb).Ok? ==>
              var blocks := Encode(enc, sb).value;
              && IsLeafList(Squares(blocks)) && ExactTiling(Squares(blocks), MACROBLOCK)
              && blocks == MakeLeaves(enc, sb, Leaves(ChosenTree(enc, sb, MACROBLOCK), MACROBLOCK))
              && forall i :: 0 <= i < |blocks| ==> blocks[i].sq.size >= enc.minBlockSize
  {
    if IsLeafSize(enc.minBlockSize) {
      TryBlockFollowsTree(enc, sb, MACROBLOCK);
      TreeRespectsMinimum(enc, sb, MACROBLOCK);
      var t := ChosenTree(enc, sb, MACROBLOCK);
      LeavesTile(t, MACROBLOCK);
      hide ChosenTree, Leaves, TryBlock, FitsIn, ExactTiling, MakeLeaf;
      var L := Leaves(t, MACROBLOCK);
      var blocks := MakeLeaves(enc, sb, L);
      assert Encode(enc, sb) == Ok(blocks);
      forall i | 0 <= i < |blocks| ensures blocks[i].sq == L[i] {
        assert Squares(blocks)[i] == L[i];
      }
    }
  }

  // ------------------------------------------------ what each leaf stands for

  lemma RegionIs(sb: Grid, s: Square, r: nat, c: nat)
    requires r < s.size && c < s.size
    ensures s.size * r + c < |Region(sb, s)| && Region(sb, s)[s.size * r + c] == sb(s.y + r, s.x + c)
  {
    var n, k := s.size, s.size * r + c;
    assert k < n * n by { MulAdds(n, r, 1); MulOrder(n, r + 1, n); }
    assert k / n == r && k % n == c by { Bits.DivModUnique(k, n, r, c); }
  }

  /** Every weight is replaced by a level of the fit that no code of the mode comes closer than. */
  lemma ReconstructIs(region: seq<real>, fit: FitResult, mode: CodeMode, i: nat, code: int)
    requires i < |region| && IsCode(mode, code)
    ensures var codes := QuantizedCodes(mode, region, fit.scale, fit.bias);
            && IsCode(mode, codes[i])
            && Reconstruct(region, fit, mode)[i] == fit.scale * codes[i] as real + fit.bias
    ensures Half.Abs(region[i] - Reconstruct(region, fit, mode)[i])
            <= Half.Abs(region[i] - (fit.scale * code as real + fit.bias))
  {
    hide Half.Abs, Level, CodeOf, QuantizedCodes, Reconstruct, IsCode;
    ReconstructAt(region, fit, mode, i);
    NearestLevel(mode, region[i], fit.scale, fit.bias, code);
    LevelIs(fit.scale, code, fit.bias);
    LevelIs(fit.scale, QuantizedCodes(mode, region, fit.scale, fit.bias)[i], fit.bias);
    assert Reconstruct(region, fit, mode)[i]
           == Level(fit.scale, CodeOf(mode, region[i], fit.scale, fit.bias), fit.bias);
    assert Level(fit.scale, code, fit.bias) == fit.scale * code as real + fit.bias;
  }

  lemma ReconstructAt(region: seq<real>, fit: FitResult, mode: CodeMode, i: nat)
    requires i < |region|
    ensures var codes := QuantizedCodes(mode, region, fit.scale, fit.bias);
            && codes[i] == CodeOf(mode, region[i], fit.scale, fit.bias) && IsCode(mode, codes[i])
            && Reconstruct(region, fit, mode)[i] == Level(fit.scale, codes[i], fit.bias)
  {
    hide Level, CodeOf;
  }

  lemma LevelIs(scale: real, code: int, bias: real)
    ensures Level(scale, code, bias) == scale * code as real + bias
  {
  }

  lemma NearestLevel(mode: CodeMode, v: real, scale: PosReal, bias: real, code: int)
    requires IsCode(mode, code)
    ensures Half.Abs(v - Level(scale, CodeOf(mode, v, scale, bias), bias)) <= Half.Abs(v - Level(scale, code, bias))
  {
    hide Half.Abs, Level, Fp4Code, TernaryCode, IsCode;
    if mode.FP4_AFFINE? {
      Fp4IsNearest(v, scale, bias, code);
    } else {
      TernaryIsNearest(v, scale, bias, code);
    }
  }

  /** The ternary error is within the allowed ratio of the FP4 error, and no weight is more than five
      scales from its ternary level. */
  ghost predicate TernaryWins(enc: Encoder, region: seq<real>, size: nat) {
    var fp4, ternary := enc.fitFp4(region), enc.fitT158(region);
    var recon := Reconstruct(region, ternary, T158_AFFINE);
    && enc.laplacian(region, recon, size)
       <= (1.0 + enc.ternaryDelta) * enc.laplacian(region, Reconstruct(region, fp4, FP4_AFFINE), size)
    && forall i :: 0 <= i < |region| ==> -(5.0 * ternary.scale) <= region[i] - recon[i] <= 5.0 * ternary.scale
  }

  lemma OutlierMeans(region: seq<real>, fit: FitResult)
    ensures !T158HasOutlier(region, fit) <==>
              var recon := Reconstruct(region, fit, T158_AFFINE);
              forall i :: 0 <= i < |region| ==> -(5.0 * fit.scale) <= region[i] - recon[i] <= 5.0 * fit.scale
  {
    hide Reconstruct;
    var recon := Reconstruct(region, fit, T158_AFFINE);
    var bound := 5.0 * fit.scale;
    if !T158HasOutlier(region, fit) {
      forall i | 0 <= i < |region|
        ensures -bound <= region[i] - recon[i] <= bound
      {
        assert Half.Abs(region[i] - recon[i]) <= bound;
      }
    }
  }

  lemma ChooseIs(enc: Encoder, region: seq<real>, size: nat)
    ensures var c := Choose(enc, region, size);
            && (c.mode == T158_AFFINE <==> TernaryWins(enc, region, size))
            && c.fit == (if c.mode.T158_AFFINE? then enc.fitT158(region) else enc.fitFp4(region))
            && c.error == enc.laplacian(region, Reconstruct(region, c.fit, c.mode), size)
  {
    OutlierMeans(region, enc.fitT158(region));
    hide Reconstruct, T158HasOutlier;
  }

  /** Leaf k holds the ternary fit of its region exactly when ternary wins, else the FP4 fit. */
  lemma LeafModes(enc: Encoder, sb: Grid, k: nat)
    requires Encode(enc, sb).Ok? && k < |Encode(enc, sb).value|
    ensures var leaf := Encode(enc, sb).value[k];
            var region := Region(sb, leaf.sq);
            var fit := if leaf.mode.T158_AFFINE? then enc.fitT158(region) else enc.fitFp4(region);
            && (leaf.mode.T158_AFFINE? <==> TernaryWins(enc, region, leaf.sq.size))
            && leaf.payload == fit.payload
            && leaf.scale == (if fit.scale > 65504.0 then 65504.0 else fit.scale)
            && leaf.bias == (if fit.bias > 65504.0 then 65504.0 else if fit.bias < -65504.0 then -65504.0 else fit.bias)
  {
    EncodeTiles(enc, sb);
    var L := Leaves(ChosenTree(enc, sb, MACROBLOCK), MACROBLOCK);
    ChooseIs(enc, Region(sb, L[k]), L[k].size);
    hide Encode, ChosenTree, Leaves, TryBlock, Reconstruct, Region, IsLeafList, ExactTiling, Choose, TernaryWins;
    assert Encode(enc, sb).value[k] == MakeLeaf(enc, sb, L[k]);
  }

  /** A bound missing for a size is taken from the minimum size, and is 0.0005 when missing there too. */
  lemma ThresholdIs(enc: Encoder, size: nat, m: real, r: Option<real>)
    ensures size in enc.thresholds ==> ThresholdFor(enc, size) == enc.thresholds[size]
    ensures size !in enc.thresholds && enc.minBlockSize in enc.thresholds ==>
              ThresholdFor(enc, size) == enc.thresholds[enc.minBlockSize]
    ensures size !in enc.thresholds && enc.minBlockSize !in enc.thresholds ==>
              MaxMse(ThresholdFor(enc, size)) == 0.0005 && ThresholdFor(enc, size).maxRelative.None?
    ensures MaxMse(Threshold(None, r)) == 0.0005 && MaxMse(Threshold(Some(m), r)) == m
  {
  }

  /** The signal power times the count is the squared distance of the region from zero. */
  lemma {:induction false} SignalPowerIs(region: seq<real>)
    requires |region| > 0
    ensures SignalPower(region) * |region| as real == SquaredError(region, Flat(0.0, |region|))
  {
    var squares := seq(|region|, i requires 0 <= i < |region| => region[i] * region[i]);
    SumOfSquares(region, squares);
    hide SquaredError, Flat;
    MeanTimesCount(squares);
    hide Mean;
    assert SignalPower(region) == Mean(squares);
  }

  lemma {:induction false} SumOfSquares(region: seq<real>, squares: seq<real>)
    requires |squares| == |region| && forall i :: 0 <= i < |region| ==> squares[i] == region[i] * region[i]
    ensures Sum(squares) == SquaredError(region, Flat(0.0, |region|))
  {
    if |region| > 0 {
      assert Flat(0.0, |region|)[1..] == Flat(0.0, |region[1..]|);
      SumOfSquares(region[1..], squares[1..]);
      SquareIs(region[0] - 0.0);
      hide Fit.Square;
    }
  }

  /** Absolutely within a tenth above the bound and, where the relative gate applies, relative to the
      signal power within a tenth above that bound. */
  predicate WithinBounds(region: seq<real>, error: real, maxMse: real, maxRelative: Option<real>) {
    && error <= 1.1 * maxMse
    && (maxMse > 0.0 && maxRelative.Some? && maxRelative.value > 0.0 && SignalPower(region) > 0.000000000001 ==>
          error <= 1.1 * (maxRelative.value * SignalPower(region)))
  }

  /** The block is of the minimum size, or the error of the fit it keeps is within the bounds of its size. */
  ghost predicate MeetsGates(enc: Encoder, region: seq<real>, size: nat) {
    var t := ThresholdFor(enc, size);
    var fp4, ternary := enc.fitFp4(region), enc.fitT158(region);
    || size <= enc.minBlockSize
    || (if TernaryWins(enc, region, size)
        then WithinBounds(region, enc.laplacian(region, Reconstruct(region, ternary, T158_AFFINE), size),
                          MaxMse(t), t.maxRelative)
        else WithinBounds(region, enc.laplacian(region, Reconstruct(region, fp4, FP4_AFFINE), size),
                          MaxMse(t), t.maxRelative))
  }

  lemma RatioWithin(m: real, error: real, power: real, r: real)
    requires m > 0.0 && power > 0.0 && r > 0.0
    ensures RelativeEquivalent(m, error / power, r) <= 1.1 * m <==> error <= 1.1 * (r * power)
  {
    var q := (error / power) / r;
    assert error == q * (r * power) by {
      assert q * r == error / power && error / power * power == error;
      ProductMoves(q, r, power);
    }
    FactorOrder(m, q, 1.1);
    FactorOrder(r * power, q, 1.1);
  }

  lemma FactorOrder(m: real, x: real, y: real)
    requires m > 0.0
    ensures m * x <= y * m <==> x <= y
    ensures x * m <= y * m <==> x <= y
  {
    assert (y - x) * m == y * m - x * m;
    assert y - x < 0.0 ==> (y - x) * m < 0.0;
    assert y - x >= 0.0 ==> (y - x) * m >= 0.0;
  }

  lemma ProductMoves(q: real, r: real, p: real)
    requires r > 0.0 && p > 0.0
    ensures q * r * p == q * (r * p) && r * p > 0.0
  {
  }

  lemma ZeroBound(m: real, ratio: real, r: real)
    requires r > 0.0
    ensures m == 0.0 ==> RelativeEquivalent(m, ratio, r) == 0.0
  {
  }

  lemma CombinedIs(region: seq<real>, error: real, maxMse: real, maxRelative: Option<real>)
    requires RelativeGateOn(region, maxRelative)
    ensures CombinedGateError(region, error, maxMse, maxRelative) ==
              var relative := RelativeEquivalent(maxMse, error / SignalPower(region), maxRelative.value);
              if relative > error then relative else error
  {
  }

  /** The combined gate is the absolute bound and the relative bound together. */
  lemma GateIs(region: seq<real>, error: real, maxMse: real, maxRelative: Option<real>)
    requires error >= 0.0
    ensures CombinedGateError(region, error, maxMse, maxRelative) <= 1.1 * maxMse
            <==> WithinBounds(region, error, maxMse, maxRelative)
  {
    hide SignalPower, RelativeEquivalent;
    if RelativeGateOn(region, maxRelative) {
      CombinedIs(region, error, maxMse, maxRelative);
      hide CombinedGateError;
      if maxMse > 0.0 {
        RatioWithin(maxMse, error, SignalPower(region), maxRelative.value);
      } else {
        ZeroBound(maxMse, error / SignalPower(region), maxRelative.value);
      }
    }
  }

  /** Whether or not the parent counts as accepted, a block is accepted exactly when it meets its gates. */
  lemma AcceptanceMeans(enc: Encoder, region: seq<real>, size: nat, parentAccepted: bool)
    requires NonNegativeErrors(enc)
    ensures Accepts(enc, region, size, parentAccepted) <==> MeetsGates(enc, region, size)
  {
    ChooseIs(enc, region, size);
    var t, c := ThresholdFor(enc, size), Choose(enc, region, size);
    GateIs(region, c.error, MaxMse(t), t.maxRelative);
    assert c.error >= 0.0;
    assert CombinedGateError(region, c.error, MaxMse(t), t.maxRelative) >= c.error;
    hide CombinedGateError, Choose, TernaryWins, WithinBounds, Reconstruct, ThresholdFor, MaxMse;
  }

  /** What is known of a chosen tree at its root: where its leaves lie, why it stops, and, if it splits,
      which chosen tree each leaf stems from. */
  lemma ChosenRoot(enc: Encoder, sb: Grid, s: Square, q: Square) returns (k: nat)
    requires Aligned(s) && IsLeafSize(enc.minBlockSize) && q in Leaves(ChosenTree(enc, sb, s), s)
    ensures Inside(q, s) && Aligned(q) && k < 4
    ensures ChosenTree(enc, sb, s).Single? ==> q == s && Accepts(enc, Region(sb, s), s.size, false)
    ensures ChosenTree(enc, sb, s).Split? ==>
              && !Accepts(enc, Region(sb, s), s.size, false)
              && s.size > 4 && q in Leaves(ChosenTree(enc, sb, Quadrant(s, k)), Quadrant(s, k))
              && Aligned(Quadrant(s, k)) && Quadrant(s, k).size == s.size / 2
  {
    var t := ChosenTree(enc, sb, s);
    ChosenTreeFits(enc, sb, s);
    LeavesInside(t, s);
    SmallBlocksAccepted(enc, sb, s);
    TreeStep(enc, sb, s);
    hide ChosenTree, Accepts, Leaves, Region, FitsIn, Quadrant;
    if t.Single? {
      UnfoldSingle(s);
      k := 0;
    } else {
      UnfoldSplit(t, s);
      k := if q in Leaves(t.nw, Quadrant(s, 0)) then 0
           else if q in Leaves(t.ne, Quadrant(s, 1)) then 1
           else if q in Leaves(t.sw, Quadrant(s, 2)) then 2 else 3;
      AlignedQuadrants(s, k);
    }
  }

  lemma ChosenTreeFits(enc: Encoder, sb: Grid, s: Square)
    requires Aligned(s) && IsLeafSize(enc.minBlockSize)
    ensures FitsIn(ChosenTree(enc, sb, s), s.size)
  {
    hide ChosenTree, TryBlock, Leaves, MakeLeaves;
    TryBlockFollowsTree(enc, sb, s);
  }

  lemma {:induction false} LeafMeetsGates(enc: Encoder, sb: Grid, s: Square, q: Square)
    requires NonNegativeErrors(enc) && IsLeafSize(enc.minBlockSize) && Aligned(s)
    requires q in Leaves(ChosenTree(enc, sb, s), s)
    ensures MeetsGates(enc, Region(sb, q), q.size)
    decreases s.size
  {
    hide *;
    var k := ChosenRoot(enc, sb, s, q);
    if ChosenTree(enc, sb, s).Single? {
      AcceptanceMeans(enc, Region(sb, s), s.size, false);
    } else {
      LeafMeetsGates(enc, sb, Quadrant(s, k), q);
    }
  }

  /** No aligned square properly containing a leaf is accepted. */
  lemma {:induction false} AncestorsFail(enc: Encoder, sb: Grid, s: Square, q: Square, b: Square)
    requires NonNegativeErrors(enc) && IsLeafSize(enc.minBlockSize) && Aligned(s)
    requires q in Leaves(ChosenTree(enc, sb, s), s)
    requires Aligned(b) && Inside(b, s) && Inside(q, b) && q.size < b.size
    ensures !MeetsGates(enc, Region(sb, b), b.size)
    decreases s.size
  {
    hide *;
    SmallerThan(q, b, s);
    var k := ChosenRoot(enc, sb, s, q);
    if b.size == s.size {
      AcceptanceMeans(enc, Region(sb, s), s.size, false);
    } else {
      var quadrant := Quadrant(s, k);
      var m := ChosenRoot(enc, sb, quadrant, q);
      Nesting(q, b, quadrant, s);
      AncestorsFail(enc, sb, quadrant, q, b);
    }
  }

  lemma SmallerThan(q: Square, b: Square, s: Square)
    requires Inside(b, s) && q.size < b.size
    ensures b == s || b.size < s.size
    ensures b.size <= s.size && q != s
  {
  }

  lemma Nesting(q: Square, b: Square, c: Square, s: Square)
    requires Aligned(q) && Aligned(b) && Aligned(c) && Aligned(s) && c.size == s.size / 2
    requires Inside(q, b) && Inside(q, c) && b.size < s.size
    ensures Inside(b, c)
  {
    assert Contains(q, q.y, q.x);
    AlignedSquaresNest(b, c, q.y, q.x);
  }

  /** Of two aligned squares of which one contains the other's corner, one lies inside the other. */
  lemma NestedEitherWay(s: Square, q: Square)
    requires Aligned(s) && Aligned(q) && Contains(q, s.y, s.x)
    ensures s == q || (s.size < q.size && Inside(s, q)) || (q.size < s.size && Inside(q, s))
  {
    if s.size <= q.size {
      AlignedSquaresNest(s, q, s.y, s.x);
    }
    if q.size <= s.size {
      AlignedSquaresNest(q, s, s.y, s.x);
    }
  }

  lemma LeafAt(L: seq<Square>, s: Square) returns (q: Square)
    requires ExactTiling(L, MACROBLOCK) && Aligned(s) && Inside(s, MACROBLOCK)
    ensures q in L && Aligned(q) && Inside(q, MACROBLOCK) && Contains(q, s.y, s.x)
  {
    assert Contains(MACROBLOCK, s.y, s.x);
    assert Locate(L, s.y, s.x) < |L|;
    q := L[Locate(L, s.y, s.x)];
  }

  /** The leaves are exactly the largest aligned squares that meet their gates. */
  lemma LeavesAreMaximal(enc: Encoder, sb: Grid, s: Square)
    requires Encode(enc, sb).Ok? && NonNegativeErrors(enc) && Aligned(s) && Inside(s, MACROBLOCK)
    ensures s in Squares(Encode(enc, sb).value) <==>
              && MeetsGates(enc, Region(sb, s), s.size)
              && forall b :: Aligned(b) && Inside(b, MACROBLOCK) && Inside(s, b) && s.size < b.size ==>
                   !MeetsGates(enc, Region(sb, b), b.size)
  {
    hide *;
    EncodeTiles(enc, sb);
    var L := Leaves(ChosenTree(enc, sb, MACROBLOCK), MACROBLOCK);
    assert Aligned(MACROBLOCK) by { MacroblockAligned(); }
    if s in L {
      LeafMeetsGates(enc, sb, MACROBLOCK, s);
      forall b | Aligned(b) && Inside(b, MACROBLOCK) && Inside(s, b) && s.size < b.size
        ensures !MeetsGates(enc, Region(sb, b), b.size)
      {
        AncestorsFail(enc, sb, MACROBLOCK, s, b);
      }
    } else if MeetsGates(enc, Region(sb, s), s.size) {
      var q := LeafAt(L, s);
      NestedEitherWay(s, q);
      LeafMeetsGates(enc, sb, MACROBLOCK, q);
      if q.size < s.size {
        AncestorsFail(enc, sb, MACROBLOCK, q, s);
      }
    }
  }

  lemma MacroblockAligned()
    ensures Aligned(MACROBLOCK)
  {
  }

  // -------------------------------------------------------------- coarsening

  /** Gates at least as permissive: a larger absolute bound, and a relative bound that is larger or off. */
  predicate Looser(t: Threshold, u: Threshold) {
    && MaxMse(t) <= MaxMse(u)
    && (u.maxRelative.None? || u.maxRelative.value <= 0.0
        || (t.maxRelative.Some? && 0.0 < t.maxRelative.value <= u.maxRelative.value))
  }

  /** Encoders that differ only in their gates, the second at least as permissive at every size. */
  ghost predicate LooserEncoder(e: Encoder, f: Encoder) {
    && e.ternaryDelta == f.ternaryDelta && e.fitFp4 == f.fitFp4 && e.fitT158 == f.fitT158
    && e.laplacian == f.laplacian
    && IsLeafSize(e.minBlockSize) && IsLeafSize(f.minBlockSize) && e.minBlockSize <= f.minBlockSize
    && forall size :: IsLeafSize(size) ==> Looser(ThresholdFor(e, size), ThresholdFor(f, size))
  }

  ghost predicate NonNegativeErrors(e: Encoder) {
    forall region, recon, size :: e.laplacian(region, recon, size) >= 0.0
  }

  /** maxMse * (ratio / maxRelative), the relative error on the absolute gate's scale. */
  function RelativeEquivalent(maxMse: real, ratio: real, maxRelative: real): real
    requires maxRelative > 0.0
  {
    maxMse * (ratio / maxRelative)
  }

  /** Below 1.1 * maxMse in the first configuration means below 1.1 * maxMse in the looser one. */
  lemma RelativeMonotone(m1: real, m2: real, ratio: real, r1: real, r2: real)
    requires 0.0 <= m1 <= m2 && ratio >= 0.0 && 0.0 < r1 <= r2
    requires m1 == 0.0 ==> ratio == 0.0
    requires RelativeEquivalent(m1, ratio, r1) <= 1.1 * m1
    ensures RelativeEquivalent(m2, ratio, r2) <= 1.1 * m2
  {
    if m1 == 0.0 {
      assert ratio / r2 == 0.0;
    } else {
      CancelFactor(m1, ratio / r1);
      SmallerQuotient(ratio, r1, r2);
      KeepFactor(m2, ratio / r2);
    }
  }

  lemma CancelFactor(m: real, x: real)
    requires m > 0.0 && m * x <= 1.1 * m
    ensures x <= 1.1
  {
    assert x > 1.1 ==> m * (x - 1.1) > 0.0;
  }

  lemma KeepFactor(m: real, x: real)
    requires m >= 0.0 && x <= 1.1
    ensures m * x <= 1.1 * m
  {
    assert m * (1.1 - x) >= 0.0;
  }

  lemma SmallerQuotient(ratio: real, r1: real, r2: real)
    requires ratio >= 0.0 && 0.0 < r1 <= r2
    ensures ratio / r2 <= ratio / r1
  {
    var q1, q2 := ratio / r1, ratio / r2;
    assert q1 * r1 == ratio == q2 * r2;
    assert q1 >= 0.0;
    assert q1 * r2 >= q1 * r1;
    assert q2 > q1 ==> q2 * r2 > q1 * r2;
  }

  predicate RelativeGateOn(region: seq<real>, maxRelative: Option<real>) {
    maxRelative.Some? && maxRelative.value > 0.0 && SignalPower(region) > RELATIVE_EPSILON
  }

  lemma QuotientSign(error: real, power: real)
    requires error >= 0.0 && power > 0.0
    ensures error / power >= 0.0 && (error == 0.0 ==> error / power == 0.0)
  {
  }

  lemma GateMonotone(region: seq<real>, error: real, t: Threshold, u: Threshold)
    requires error >= 0.0 && Looser(t, u)
    requires CombinedGateError(region, error, MaxMse(t), t.maxRelative) <= 1.1 * MaxMse(t)
    ensures CombinedGateError(region, error, MaxMse(u), u.maxRelative) <= 1.1 * MaxMse(u)
  {
    hide SignalPower;
    if RelativeGateOn(region, u.maxRelative) {
      QuotientSign(error, SignalPower(region));
      RelativeMonotone(MaxMse(t), MaxMse(u), error / SignalPower(region), t.maxRelative.value, u.maxRelative.value);
    }
  }

  /** Without an accepted parent, a block above the minimum is accepted exactly within the slack. */
  lemma AcceptsWithinSlack(enc: Encoder, region: seq<real>, size: nat)
    requires Choose(enc, region, size).error >= 0.0
    ensures var t := ThresholdFor(enc, size);
            Accepts(enc, region, size, false) <==>
              size <= enc.minBlockSize
              || CombinedGateError(region, Choose(enc, region, size).error, MaxMse(t), t.maxRelative) <= 1.1 * MaxMse(t)
  {
    var t := ThresholdFor(enc, size);
    var error := Choose(enc, region, size).error;
    assert CombinedGateError(region, error, MaxMse(t), t.maxRelative) >= error;
  }

  lemma LooserFacts(e: Encoder, f: Encoder, region: seq<real>, size: nat)
    requires LooserEncoder(e, f) && NonNegativeErrors(e) && IsLeafSize(size)
    ensures Choose(e, region, size) == Choose(f, region, size) && Choose(e, region, size).error >= 0.0
    ensures Looser(ThresholdFor(e, size), ThresholdFor(f, size)) && e.minBlockSize <= f.minBlockSize
  {
    hide Reconstruct, T158HasOutlier, ThresholdFor, Looser;
  }

  lemma AcceptanceMonotone(e: Encoder, f: Encoder, region: seq<real>, size: nat)
    requires LooserEncoder(e, f) && NonNegativeErrors(e) && IsLeafSize(size)
    requires Accepts(e, region, size, false)
    ensures Accepts(f, region, size, false)
  {
    LooserFacts(e, f, region, size);
    hide *;
    AcceptsWithinSlack(e, region, size);
    AcceptsWithinSlack(f, region, size);
    if size > f.minBlockSize {
      GateMonotone(region, Choose(e, region, size).error, ThresholdFor(e, size), ThresholdFor(f, size));
    }
  }

  /** The second tree is the first with some subtrees collapsed into leaves. */
  predicate Coarser(t: QTree, u: QTree) {
    u.Single? || (t.Split? && Coarser(t.nw, u.nw) && Coarser(t.ne, u.ne) && Coarser(t.sw, u.sw) && Coarser(t.se, u.se))
  }

  lemma {:induction false} LooserIsCoarser(e: Encoder, f: Encoder, sb: Grid, s: Square)
    requires LooserEncoder(e, f) && NonNegativeErrors(e) && IsLeafSize(s.size)
    ensures Coarser(ChosenTree(e, sb, s), ChosenTree(f, sb, s))
    decreases s.size
  {
    TreeStep(e, sb, s);
    TreeStep(f, sb, s);
    hide ChosenTree, LooserEncoder, NonNegativeErrors, Accepts;
    if s.size > 4 {
      if Accepts(e, Region(sb, s), s.size, false) {
        AcceptanceMonotone(e, f, Region(sb, s), s.size);
      } else {
        LooserIsCoarser(e, f, sb, Quadrant(s, 0));
        LooserIsCoarser(e, f, sb, Quadrant(s, 1));
        LooserIsCoarser(e, f, sb, Quadrant(s, 2));
        LooserIsCoarser(e, f, sb, Quadrant(s, 3));
      }
    }
  }

  /** Every square of A lies inside a square of B. */
  ghost predicate Refines(A: seq<Square>, B: seq<Square>) {
    forall a :: a in A ==> exists b :: b in B && Inside(a, b)
  }

  lemma RefinesConcat(A: seq<Square>, B: seq<Square>, C: seq<Square>, D: seq<Square>)
    requires Refines(A, B) && Refines(C, D)
    ensures Refines(A + C, B + D)
  {
    forall a | a in A + C
      ensures exists b :: b in B + D && Inside(a, b)
    {
      if a in A {
        var b :| b in B && Inside(a, b);
        assert b in B + D;
      } else {
        var b :| b in D && Inside(a, b);
        assert b in B + D;
      }
    }
  }

  lemma {:induction false} CoarserLeaves(t: QTree, u: QTree, s: Square)
    requires Aligned(s) && FitsIn(t, s.size) && FitsIn(u, s.size) && Coarser(t, u)
    ensures Refines(Leaves(t, s), Leaves(u, s)) && |Leaves(u, s)| <= |Leaves(t, s)|
  {
    if u.Single? {
      LeavesInside(t, s);
      UnfoldSingle(s);
      hide Leaves;
      assert s in [s];
    } else {
      UnfoldSplit(t, s);
      UnfoldSplit(u, s);
      AlignedQuadrants(s, 0); AlignedQuadrants(s, 1); AlignedQuadrants(s, 2); AlignedQuadrants(s, 3);
      CoarserLeaves(t.nw, u.nw, Quadrant(s, 0));
      CoarserLeaves(t.ne, u.ne, Quadrant(s, 1));
      CoarserLeaves(t.sw, u.sw, Quadrant(s, 2));
      CoarserLeaves(t.se, u.se, Quadrant(s, 3));
      hide Leaves, FitsIn, Refines;
      var A0, A1 := Leaves(t.nw, Quadrant(s, 0)), Leaves(t.ne, Quadrant(s, 1));
      var A2, A3 := Leaves(t.sw, Quadrant(s, 2)), Leaves(t.se, Quadrant(s, 3));
      var B0, B1 := Leaves(u.nw, Quadrant(s, 0)), Leaves(u.ne, Quadrant(s, 1));
      var B2, B3 := Leaves(u.sw, Quadrant(s, 2)), Leaves(u.se, Quadrant(s, 3));
      RefinesConcat(A0, B0, A1, B1);
      RefinesConcat(A0 + A1, B0 + B1, A2, B2);
      RefinesConcat(A0 + A1 + A2, B0 + B1 + B2, A3, B3);
    }
  }

  /** Loosening the gates or raising the minimum block size coarsens the tiling: every old leaf lies
      inside a new leaf, and there are no more leaves than before. */
  lemma LooseningCoarsens(e: Encoder, f: Encoder, sb: Grid)
    requires LooserEncoder(e, f) && NonNegativeErrors(e)
    ensures Encode(e, sb).Ok? && Encode(f, sb).Ok?
    ensures Refines(Squares(Encode(e, sb).value), Squares(Encode(f, sb).value))
    ensures |Encode(f, sb).value| <= |Encode(e, sb).value|
  {
    EncodeTiles(e, sb);
    EncodeTiles(f, sb);
    LooserIsCoarser(e, f, sb, MACROBLOCK);
    TryBlockFollowsTree(e, sb, MACROBLOCK);
    TryBlockFollowsTree(f, sb, MACROBLOCK);
    CoarserLeaves(ChosenTree(e, sb, MACROBLOCK), ChosenTree(f, sb, MACROBLOCK), MACROBLOCK);
  }
}
