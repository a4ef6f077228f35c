/** Record layouts, and the order in which a record lists its leaves: depth first for MIXED,
    row major for the uniform layouts. */
module Layouts {
  import opened Format
  import opened Quadtree

  /** One leaf the quadtree encoder has chosen. */
  datatype Leaf = Leaf(sq: Square, mode: CodeMode, scale: real, bias: real, payload: seq<uint32>)

  function Squares(blocks: seq<Leaf>): (r: seq<Square>)
    ensures |r| == |blocks|
  {
    seq(|blocks|, i requires 0 <= i < |blocks| => blocks[i].sq)
  }

  predicate SameSize(L: seq<Square>) {
    |L| > 0 && forall i :: 0 <= i < |L| ==> L[i].size == L[0].size
  }

  function ClassifyLayout(L: seq<Square>): Layout {
    if SameSize(L) && IsLeafSize(L[0].size)
       && |L| == (MACROBLOCK_SIZE / L[0].size) * (MACROBLOCK_SIZE / L[0].size)
    then
      match L[0].size
      case 64 => UNIFORM_64
      case 32 => UNIFORM_32
      case 16 => UNIFORM_16
      case 8 => UNIFORM_8
      case 4 => FULL_4X4
    else MIXED
  }

  /** A quadtree's leaves are classified MIXED exactly when two of them differ in size. */
  lemma ClassifyLeafList(L: seq<Square>)
    requires IsLeafList(L)
    ensures ClassifyLayout(L) == MIXED <==> exists i, j :: 0 <= i < j < |L| && L[i].size != L[j].size
    ensures ClassifyLayout(L) != MIXED ==> SameSize(L) && UniformSize(ClassifyLayout(L)) == L[0].size
  {
    var t :| FitsIn(t, 64) && L == Leaves(t, MACROBLOCK);
    hide Leaves, FitsIn, Area;
    LeavesInside(t, MACROBLOCK);
    if SameSize(L) {
      LeavesArea(t, MACROBLOCK);
      UniformArea(L, L[0].size);
      assert Aligned(L[0]);
      UniformCount(|L|, L[0].size);
    } else {
      var i :| 0 <= i < |L| && L[i].size != L[0].size;
      assert 0 < i;
    }
  }

  lemma UniformCount(n: nat, size: nat)
    requires IsLeafSize(size) && n * (size * size) == 4096
    ensures n == (MACROBLOCK_SIZE / size) * (MACROBLOCK_SIZE / size)
  {
    if size == 4 { assert n * 16 == 4096; }
    else if size == 8 { assert n * 64 == 4096; }
    else if size == 16 { assert n * 256 == 4096; }
    else if size == 32 { assert n * 1024 == 4096; }
    else { assert n * 4096 == 4096; }
  }

  // -------------------------------------------------------------- row major

  /** Python's order on (y, x) tuples. */
  predicate Before(a: Square, b: Square) {
    a.y < b.y || (a.y == b.y && a.x < b.x)
  }

  predicate StrictlyOrdered(L: seq<Square>) {
    forall i, j :: 0 <= i < j < |L| ==> Before(L[i], L[j])
  }

  /** Squares of a given size along one edge of the macroblock. */
  function PerEdge(size: nat): (n: nat)
    requires IsLeafSize(size)
    ensures n == MACROBLOCK_SIZE / size
  {
    match size case 64 => 1 case 32 => 2 case 16 => 4 case 8 => 8 case 4 => 16
  }

  /** Grid row, grid column and pixel coordinate, for each size with its own literal. */
  function RowOf(size: nat, k: nat): nat
    requires IsLeafSize(size)
  {
    match size case 64 => k case 32 => k / 2 case 16 => k / 4 case 8 => k / 8 case 4 => k / 16
  }

  function ColOf(size: nat, k: nat): nat
    requires IsLeafSize(size)
  {
    match size case 64 => 0 case 32 => k % 2 case 16 => k % 4 case 8 => k % 8 case 4 => k % 16
  }

  function Times(size: nat, k: nat): nat
    requires IsLeafSize(size)
  {
    match size case 64 => 64 * k case 32 => 32 * k case 16 => 16 * k case 8 => 8 * k case 4 => 4 * k
  }

  /** Square number k of the row-major grid. */
  function GridSquare(size: nat, k: nat): Square
    requires IsLeafSize(size)
  {
    Square(Times(size, RowOf(size, k)), Times(size, ColOf(size, k)), size)
  }

  /** [(row, col, size) for row in range(0, 64, size) for col in range(0, 64, size)] */
  function RowMajor(size: nat): (r: seq<Square>)
    requires IsLeafSize(size)
    ensures |r| == PerEdge(size) * PerEdge(size)
  {
    var n := PerEdge(size) * PerEdge(size);
    seq(n, k requires 0 <= k < n => GridSquare(size, k))
  }

  lemma RowColOrder(size: nat, i: nat, j: nat)
    requires IsLeafSize(size) && i < j
    ensures RowOf(size, i) < RowOf(size, j)
            || (RowOf(size, i) == RowOf(size, j) && ColOf(size, i) < ColOf(size, j))
  {
  }

  lemma TimesStep(size: nat, a: nat, b: nat)
    requires IsLeafSize(size)
    ensures a < b ==> Times(size, a) + size <= Times(size, b)
    ensures a < PerEdge(size) ==> Times(size, a) + size <= 64
    ensures Aligned(Square(Times(size, a), Times(size, b), size))
  {
    match size case 64 => {} case 32 => {} case 16 => {} case 8 => {} case 4 => {}
  }

  /** The comprehension's loops visit (row, col) at step row * n + col. */
  lemma GridSquareIsLoopStep(size: nat, row: nat, col: nat) returns (k: nat)
    requires IsLeafSize(size) && row < PerEdge(size) && col < PerEdge(size)
    ensures k == row * PerEdge(size) + col && k < PerEdge(size) * PerEdge(size)
    ensures RowOf(size, k) == row && ColOf(size, k) == col
  {
    match size {
      case 64 => k := row;
      case 32 => k := row * 2 + col;
      case 16 => k := row * 4 + col;
      case 8 => k := row * 8 + col;
      case 4 => k := row * 16 + col;
    }
  }

  lemma RowMajorOrdered(size: nat)
    requires IsLeafSize(size)
    ensures StrictlyOrdered(RowMajor(size))
  {
    forall i, j | 0 <= i < j < |RowMajor(size)|
      ensures Before(GridSquare(size, i), GridSquare(size, j))
    {
      GridOrdered(size, i, j);
    }
  }

  lemma GridOrdered(size: nat, i: nat, j: nat)
    requires IsLeafSize(size) && i < j
    ensures Before(GridSquare(size, i), GridSquare(size, j)) && Apart(GridSquare(size, i), GridSquare(size, j))
  {
    hide RowOf, ColOf, Times;
    RowColOrder(size, i, j);
    TimesStep(size, RowOf(size, i), RowOf(size, j));
    TimesStep(size, ColOf(size, i), ColOf(size, j));
  }

  /** Row major lists exactly the aligned squares of the given size inside the macroblock. */
  lemma RowMajorElements(size: nat, s: Square)
    requires IsLeafSize(size)
    ensures s in RowMajor(size) <==> s.size == size && Aligned(s) && Inside(s, MACROBLOCK)
  {
    if s in RowMajor(size) {
      var k :| 0 <= k < |RowMajor(size)| && RowMajor(size)[k] == s;
      GridAligned(size, k);
    }
    if s.size == size && Aligned(s) && Inside(s, MACROBLOCK) {
      var k := GridIndex(s);
      assert RowMajor(size)[k] == s;
    }
  }

  lemma GridAligned(size: nat, k: nat)
    requires IsLeafSize(size) && k < PerEdge(size) * PerEdge(size)
    ensures GridSquare(size, k).size == size && Aligned(GridSquare(size, k)) && Inside(GridSquare(size, k), MACROBLOCK)
  {
    RowColBound(size, k);
    hide RowOf, ColOf, Times;
    TimesStep(size, RowOf(size, k), ColOf(size, k));
    TimesStep(size, ColOf(size, k), 0);
  }

  lemma RowColBound(size: nat, k: nat)
    requires IsLeafSize(size) && k < PerEdge(size) * PerEdge(size)
    ensures RowOf(size, k) < PerEdge(size) && ColOf(size, k) < PerEdge(size)
  {
  }

  lemma GridIndex(s: Square) returns (k: nat)
    requires Aligned(s) && Inside(s, MACROBLOCK)
    ensures k < PerEdge(s.size) * PerEdge(s.size) && GridSquare(s.size, k) == s
  {
    var row, col := AlignedCoordinates(s);
    k := GridSquareIsLoopStep(s.size, row, col);
  }

  lemma AlignedCoordinates(s: Square) returns (row: nat, col: nat)
    requires Aligned(s) && Inside(s, MACROBLOCK)
    ensures row < PerEdge(s.size) && col < PerEdge(s.size)
    ensures Times(s.size, row) == s.y && Times(s.size, col) == s.x
  {
    match s.size {
      case 64 => row, col := 0, 0;
      case 32 => row, col := s.y / 32, s.x / 32;
      case 16 => row, col := s.y / 16, s.x / 16;
      case 8 => row, col := s.y / 8, s.x / 8;
      case 4 => row, col := s.y / 4, s.x / 4;
    }
  }

  /** An ordered list is determined by its elements. */
  lemma {:induction false} OrderedUnique(A: seq<Square>, B: seq<Square>)
    requires StrictlyOrdered(A) && StrictlyOrdered(B)
    requires forall s :: s in A <==> s in B
    ensures A == B
  {
    assert |A| > 0 ==> A[0] in A;
    assert |B| > 0 ==> B[0] in B;
    if |A| > 0 {
      assert A[0] in B && B[0] in A;
      var i :| 0 <= i < |B| && B[i] == A[0];
      var j :| 0 <= j < |A| && A[j] == B[0];
      assert A[0] == B[0];
      forall s
        ensures s in A[1..] <==> s in B[1..]
      {
        assert s in A <==> s == A[0] || s in A[1..];
        assert s in B <==> s == B[0] || s in B[1..];
        assert A[0] !in A[1..] && B[0] !in B[1..];
      }
      OrderedUnique(A[1..], B[1..]);
      assert A == [A[0]] + A[1..] && B == [B[0]] + B[1..];
    }
  }

  /** The grid of one size tiles the macroblock exactly. */
  lemma RowMajorTiles(size: nat)
    requires IsLeafSize(size)
    ensures ExactTiling(RowMajor(size), MACROBLOCK)
  {
    var L := RowMajor(size);
    forall i | 0 <= i < |L|
      ensures Inside(L[i], MACROBLOCK) && Aligned(L[i])
    {
      GridAligned(size, i);
    }
    forall i, j | 0 <= i < j < |L|
      ensures Apart(L[i], L[j])
    {
      GridOrdered(size, i, j);
    }
    forall r, c | 0 <= r < 0 + 64 && 0 <= c < 0 + 64
      ensures Locate(L, r, c) < |L|
    {
      var row, col := GridCoordinate(size, r), GridCoordinate(size, c);
      TimesStep(size, row, col);
      TimesStep(size, col, row);
      var s := Square(Times(size, row), Times(size, col), size);
      var k := GridIndex(s);
      LocateFirst(L, k, r, c);
    }
  }

  /** The grid row or column holding a pixel coordinate. */
  function GridCoordinate(size: nat, v: nat): (a: nat)
    requires IsLeafSize(size) && v < 64
    ensures a < PerEdge(size) && Times(size, a) <= v < Times(size, a) + size
  {
    match size case 64 => 0 case 32 => v / 32 case 16 => v / 16 case 8 => v / 8 case 4 => v / 4
  }

  // ---------------------------------------------------------------- sorting

  /** sorted(blocks, key=(y, x)): stable insertion. */
  function SortLeaves(blocks: seq<Leaf>): (r: seq<Leaf>)
    ensures |r| == |blocks|
  {
    if |blocks| == 0 then [] else InsertLeaf(blocks[0], SortLeaves(blocks[1..]))
  }

  function InsertLeaf(b: Leaf, xs: seq<Leaf>): (r: seq<Leaf>)
    ensures |r| == |xs| + 1
  {
    if |xs| == 0 || !Before(xs[0].sq, b.sq) then [b] + xs else [xs[0]] + InsertLeaf(b, xs[1..])
  }

  predicate Ordered(xs: seq<Leaf>) {
    forall i, j :: 0 <= i < j < |xs| ==> !Before(xs[j].sq, xs[i].sq)
  }

  lemma {:induction false} InsertIsPermutation(b: Leaf, xs: seq<Leaf>)
    ensures multiset(InsertLeaf(b, xs)) == multiset(xs) + multiset{b}
  {
    if |xs| == 0 || !Before(xs[0].sq, b.sq) {
    } else {
      InsertIsPermutation(b, xs[1..]);
      assert xs == [xs[0]] + xs[1..];
    }
  }

  lemma {:induction false} InsertKeepsOrder(b: Leaf, xs: seq<Leaf>)
    requires Ordered(xs)
    ensures Ordered(InsertLeaf(b, xs))
  {
    if |xs| == 0 || !Before(xs[0].sq, b.sq) {
    } else {
      InsertKeepsOrder(b, xs[1..]);
      var r := InsertLeaf(b, xs[1..]);
      InsertIsPermutation(b, xs[1..]);
      forall j | 0 <= j < |r|
        ensures !Before(r[j].sq, xs[0].sq)
      {
        assert r[j] in multiset(r);
        assert r[j] in xs[1..] || r[j] == b;
      }
    }
  }

  /** Sorting permutes the leaves into order. */
  lemma {:induction false} SortSorts(blocks: seq<Leaf>)
    ensures multiset(SortLeaves(blocks)) == multiset(blocks)
    ensures Ordered(SortLeaves(blocks))
  {
    if |blocks| > 0 {
      SortSorts(blocks[1..]);
      InsertIsPermutation(blocks[0], SortLeaves(blocks[1..]));
      InsertKeepsOrder(blocks[0], SortLeaves(blocks[1..]));
      assert blocks == [blocks[0]] + blocks[1..];
    }
  }

  /** Disjoint leaves stay disjoint, so no two sorted leaves share a corner. */
  lemma SortedStrictly(blocks: seq<Leaf>)
    requires ExactTiling(Squares(blocks), MACROBLOCK)
    ensures StrictlyOrdered(Squares(SortLeaves(blocks)))
  {
    var xs := SortLeaves(blocks);
    SortSorts(blocks);
    forall i, j | 0 <= i < j < |xs|
      ensures Before(xs[i].sq, xs[j].sq)
    {
      if xs[i].sq.y == xs[j].sq.y && xs[i].sq.x == xs[j].sq.x {
        TwoOccurrences(xs, blocks, i, j);
      }
    }
  }

  /** Distinct leaves of a tiling have distinct corners. */
  lemma DistinctCorners(blocks: seq<Leaf>, m: nat, n: nat)
    requires ExactTiling(Squares(blocks), MACROBLOCK) && m < |blocks| && n < |blocks| && m != n
    ensures blocks[m].sq.y != blocks[n].sq.y || blocks[m].sq.x != blocks[n].sq.x
  {
    var L := Squares(blocks);
    assert Aligned(L[m]) && Aligned(L[n]);
    assert Apart(L[if m < n then m else n], L[if m < n then n else m]);
  }

  /** Two positions of a permutation of a tiling hold leaves with distinct corners. */
  lemma TwoOccurrences(xs: seq<Leaf>, blocks: seq<Leaf>, i: nat, j: nat)
    requires multiset(xs) == multiset(blocks) && i < j < |xs|
    requires ExactTiling(Squares(blocks), MACROBLOCK)
    ensures xs[i].sq.y != xs[j].sq.y || xs[i].sq.x != xs[j].sq.x
  {
    assert xs[i] in multiset(blocks) && xs[j] in multiset(blocks);
    var m :| 0 <= m < |blocks| && blocks[m] == xs[i];
    var n :| 0 <= n < |blocks| && blocks[n] == xs[j];
    if m != n {
      DistinctCorners(blocks, m, n);
    } else {
      assert xs == xs[..i] + [xs[i]] + xs[i + 1..j] + [xs[j]] + xs[j + 1..];
      assert multiset(xs)[xs[i]] >= 2;
      OccursOnce(blocks, m);
    }
  }

  lemma OccursOnce(blocks: seq<Leaf>, m: nat)
    requires m < |blocks| && ExactTiling(Squares(blocks), MACROBLOCK)
    ensures multiset(blocks)[blocks[m]] == 1
  {
    forall n | 0 <= n < |blocks| && n != m
      ensures blocks[n] != blocks[m]
    {
      DistinctCorners(blocks, m, n);
    }
    assert blocks == blocks[..m] + [blocks[m]] + blocks[m + 1..];
    assert blocks[m] !in blocks[..m] && blocks[m] !in blocks[m + 1..];
  }

  lemma SameElements(xs: seq<Leaf>, blocks: seq<Leaf>, s: Square)
    requires multiset(xs) == multiset(blocks)
    ensures s in Squares(xs) ==> s in Squares(blocks)
  {
    if s in Squares(xs) {
      var i :| 0 <= i < |xs| && Squares(xs)[i] == s;
      assert xs[i] in multiset(blocks);
      var j :| 0 <= j < |blocks| && blocks[j] == xs[i];
      assert Squares(blocks)[j] == s;
    }
  }

  /** In a tiling by squares of one size every aligned square of that size is a leaf. */
  lemma UniformTilingElements(L: seq<Square>, size: nat, s: Square)
    requires ExactTiling(L, MACROBLOCK) && SameSize(L) && L[0].size == size
    ensures IsLeafSize(size) && (s in L <==> s in RowMajor(size))
  {
    assert Aligned(L[0]);
    RowMajorElements(size, s);
    if s in RowMajor(size) {
      var i := Locate(L, s.y, s.x);
      assert i < |L|;
      SameCorner(L[i], s);
    }
  }

  lemma SameCorner(a: Square, s: Square)
    requires Aligned(a) && Aligned(s) && a.size == s.size && Contains(a, s.y, s.x)
    ensures a == s
  {
    match s.size {
      case 4 => assert a.y / 4 == s.y / 4 && a.x / 4 == s.x / 4;
      case 8 => assert a.y / 8 == s.y / 8 && a.x / 8 == s.x / 8;
      case 16 => assert a.y / 16 == s.y / 16 && a.x / 16 == s.x / 16;
      case 32 => assert a.y / 32 == s.y / 32 && a.x / 32 == s.x / 32;
      case 64 => assert a.y / 64 == s.y / 64 && a.x / 64 == s.x / 64;
    }
  }

  /** For a uniform quadtree, sorting the depth-first leaves gives the decoder's row-major list. */
  lemma {:induction false} SortedUniformIsRowMajor(blocks: seq<Leaf>)
    requires ExactTiling(Squares(blocks), MACROBLOCK) && SameSize(Squares(blocks))
    ensures IsLeafSize(blocks[0].sq.size)
    ensures Squares(SortLeaves(blocks)) == RowMajor(blocks[0].sq.size)
  {
    var L, size := Squares(blocks), blocks[0].sq.size;
    var sorted := Squares(SortLeaves(blocks));
    SortSorts(blocks);
    SortedStrictly(blocks);
    assert Aligned(L[0]);
    RowMajorOrdered(size);
    forall s
      ensures s in sorted <==> s in RowMajor(size)
    {
      SameElements(SortLeaves(blocks), blocks, s);
      SameElements(blocks, SortLeaves(blocks), s);
      UniformTilingElements(L, size, s);
    }
    OrderedUnique(sorted, RowMajor(size));
  }

  /** The order in which a record lists its leaves. */
  function RecordOrder(blocks: seq<Leaf>): (r: seq<Leaf>)
    ensures |r| == |blocks|
  {
    if ClassifyLayout(Squares(blocks)) == MIXED then blocks else SortLeaves(blocks)
  }

  /** Reordering does not change which leaf holds a cell. */
  lemma OrderKeepsLeafOfCell(blocks: seq<Leaf>, xs: seq<Leaf>, r: int, c: int)
    requires multiset(xs) == multiset(blocks)
    requires ExactTiling(Squares(blocks), MACROBLOCK) && ExactTiling(Squares(xs), MACROBLOCK)
    requires 0 <= r < 64 && 0 <= c < 64
    ensures Locate(Squares(xs), r, c) < |xs| && Locate(Squares(blocks), r, c) < |blocks|
    ensures xs[Locate(Squares(xs), r, c)] == blocks[Locate(Squares(blocks), r, c)]
  {
    var L, M := Squares(blocks), Squares(xs);
    assert Locate(M, r, c) < |M|;
    var i := Locate(M, r, c);
    assert xs[i] in multiset(blocks);
    var j :| 0 <= j < |blocks| && blocks[j] == xs[i];
    UniqueLeaf(L, j, r, c);
  }
}
