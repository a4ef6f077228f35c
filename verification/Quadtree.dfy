/** Square regions of a 64x64 macroblock, quadtrees over them, and exact tilings. */
module Quadtree {
  import opened Format

  /** The (y, x, size) triple of a leaf. */
  datatype Square = Square(y: nat, x: nat, size: nat)

  const MACROBLOCK := Square(0, 0, 64)

  predicate Contains(s: Square, r: int, c: int) {
    s.y <= r < s.y + s.size && s.x <= c < s.x + s.size
  }

  predicate Inside(a: Square, b: Square) {
    && b.y <= a.y && a.y + a.size <= b.y + b.size
    && b.x <= a.x && a.x + a.size <= b.x + b.size
  }

  /** No cell belongs to both squares. */
  predicate Apart(a: Square, b: Square) {
    || a.y + a.size <= b.y || b.y + b.size <= a.y
    || a.x + a.size <= b.x || b.x + b.size <= a.x
  }

  /** A power-of-two square standing at a multiple of its own size. */
  predicate Aligned(s: Square) {
    match s.size
    case 4 => s.y % 4 == 0 && s.x % 4 == 0
    case 8 => s.y % 8 == 0 && s.x % 8 == 0
    case 16 => s.y % 16 == 0 && s.x % 16 == 0
    case 32 => s.y % 32 == 0 && s.x % 32 == 0
    case 64 => s.y % 64 == 0 && s.x % 64 == 0
    case _ => false
  }

  function Quadrant(s: Square, k: nat): Square
    requires k < 4
  {
    var half := s.size / 2;
    Square(s.y + (if k < 2 then 0 else half), s.x + (if k % 2 == 0 then 0 else half), half)
  }

  // ----------------------------------------------------------------- trees

  /** The shape of a quadtree: every region is one leaf or split into its four quadrants. */
  datatype QTree = Single | Split(nw: QTree, ne: QTree, sw: QTree, se: QTree)

  /** The tree does not split below the 4x4 floor. */
  predicate FitsIn(t: QTree, size: nat) {
    && IsLeafSize(size)
    && (t.Split? ==> size > MIN_LEAF_SIZE && FitsIn(t.nw, size / 2) && FitsIn(t.ne, size / 2)
                     && FitsIn(t.sw, size / 2) && FitsIn(t.se, size / 2))
  }

  /** Leaves in depth-first order: quadrants left to right, top to bottom. */
  function Leaves(t: QTree, s: Square): (r: seq<Square>)
    ensures |r| > 0
  {
    if t.Single? then [s]
    else Leaves(t.nw, Quadrant(s, 0)) + Leaves(t.ne, Quadrant(s, 1))
         + Leaves(t.sw, Quadrant(s, 2)) + Leaves(t.se, Quadrant(s, 3))
  }

  /** The definitions at a split node, one level deep. */
  lemma UnfoldSplit(t: QTree, s: Square)
    requires t.Split?
    ensures FitsIn(t, s.size) <==>
              && IsLeafSize(s.size) && s.size > MIN_LEAF_SIZE
              && FitsIn(t.nw, s.size / 2) && FitsIn(t.ne, s.size / 2)
              && FitsIn(t.sw, s.size / 2) && FitsIn(t.se, s.size / 2)
    ensures Leaves(t, s) == Leaves(t.nw, Quadrant(s, 0)) + Leaves(t.ne, Quadrant(s, 1))
                            + Leaves(t.sw, Quadrant(s, 2)) + Leaves(t.se, Quadrant(s, 3))
  {
  }

  lemma UnfoldSingle(s: Square)
    ensures FitsIn(Single, s.size) <==> IsLeafSize(s.size)
    ensures Leaves(Single, s) == [s]
  {
  }

  /** A list is the depth-first leaf list of some quadtree of the macroblock. */
  ghost predicate IsLeafList(L: seq<Square>) {
    exists t :: FitsIn(t, 64) && L == Leaves(t, MACROBLOCK)
  }

  // --------------------------------------------------------------- tilings

  predicate AllInside(L: seq<Square>, region: Square) {
    forall i :: 0 <= i < |L| ==> Inside(L[i], region) && Aligned(L[i])
  }

  predicate PairwiseApart(L: seq<Square>) {
    forall i, j :: 0 <= i < j < |L| ==> Apart(L[i], L[j])
  }

  /** Index of the first leaf containing a cell, or |L|. */
  function Locate(L: seq<Square>, r: int, c: int): (i: nat)
    ensures i <= |L|
    ensures i < |L| ==> Contains(L[i], r, c)
  {
    if |L| == 0 || Contains(L[0], r, c) then 0 else 1 + Locate(L[1..], r, c)
  }

  predicate Covers(L: seq<Square>, region: Square) {
    forall r, c | region.y <= r < region.y + region.size && region.x <= c < region.x + region.size ::
      Locate(L, r, c) < |L|
  }

  /** Every cell of the region lies in exactly one leaf, and every leaf is an aligned square of it. */
  predicate ExactTiling(L: seq<Square>, region: Square) {
    AllInside(L, region) && PairwiseApart(L) && Covers(L, region)
  }

  lemma {:induction false} LocateConcat(A: seq<Square>, B: seq<Square>, r: int, c: int)
    ensures Locate(A + B, r, c) == if Locate(A, r, c) < |A| then Locate(A, r, c) else |A| + Locate(B, r, c)
  {
    if |A| == 0 {
      assert A + B == B;
    } else if !Contains(A[0], r, c) {
      assert (A + B)[1..] == A[1..] + B;
      LocateConcat(A[1..], B, r, c);
    }
  }

  lemma ApartConcat(A: seq<Square>, B: seq<Square>)
    requires PairwiseApart(A) && PairwiseApart(B)
    requires forall i, j :: 0 <= i < |A| && 0 <= j < |B| ==> Apart(A[i], B[j])
    ensures PairwiseApart(A + B)
  {
  }

  lemma QuadrantsApart(s: Square, A: seq<Square>, B: seq<Square>, j: nat, k: nat)
    requires s.size % 2 == 0 && j < k < 4
    requires AllInside(A, Quadrant(s, j)) && AllInside(B, Quadrant(s, k))
    ensures forall i, m :: 0 <= i < |A| && 0 <= m < |B| ==> Apart(A[i], B[m])
  {
    forall i, m | 0 <= i < |A| && 0 <= m < |B|
      ensures Apart(A[i], B[m])
    {
      assert Inside(A[i], Quadrant(s, j)) && Inside(B[m], Quadrant(s, k));
    }
  }

  lemma HalfAligned8(v: nat)
    requires v % 8 == 0
    ensures v % 4 == 0 == (v + 4) % 4
  {
  }

  lemma HalfAligned16(v: nat)
    requires v % 16 == 0
    ensures v % 8 == 0 == (v + 8) % 8
  {
  }

  lemma HalfAligned32(v: nat)
    requires v % 32 == 0
    ensures v % 16 == 0 == (v + 16) % 16
  {
  }

  lemma HalfAligned64(v: nat)
    requires v % 64 == 0
    ensures v % 32 == 0 == (v + 32) % 32
  {
  }

  lemma AlignedQuadrants(s: Square, k: nat)
    requires Aligned(s) && s.size > 4 && k < 4
    ensures Aligned(Quadrant(s, k)) && Inside(Quadrant(s, k), s) && Quadrant(s, k).size == s.size / 2
  {
    match s.size {
      case 8 => HalfAligned8(s.y); HalfAligned8(s.x);
      case 16 => HalfAligned16(s.y); HalfAligned16(s.x);
      case 32 => HalfAligned32(s.y); HalfAligned32(s.x);
      case 64 => HalfAligned64(s.y); HalfAligned64(s.x);
    }
  }

  /** The leaves of a quadtree lie inside its region. */
  lemma {:induction false} LeavesInside(t: QTree, s: Square)
    requires Aligned(s) && FitsIn(t, s.size)
    ensures AllInside(Leaves(t, s), s)
  {
    hide Leaves, FitsIn;
    if t.Single? {
      UnfoldSingle(s);
    } else {
      UnfoldSplit(t, s);
      AlignedQuadrants(s, 0); AlignedQuadrants(s, 1); AlignedQuadrants(s, 2); AlignedQuadrants(s, 3);
      LeavesInside(t.nw, Quadrant(s, 0));
      LeavesInside(t.ne, Quadrant(s, 1));
      LeavesInside(t.sw, Quadrant(s, 2));
      LeavesInside(t.se, Quadrant(s, 3));
    }
  }

  lemma {:induction false} LeavesApart(t: QTree, s: Square)
    requires Aligned(s) && FitsIn(t, s.size)
    ensures PairwiseApart(Leaves(t, s))
  {
    hide Leaves, FitsIn;
    if t.Single? {
      UnfoldSingle(s);
    } else {
      UnfoldSplit(t, s);
      var q0, q1, q2, q3 := Quadrant(s, 0), Quadrant(s, 1), Quadrant(s, 2), Quadrant(s, 3);
      AlignedQuadrants(s, 0); AlignedQuadrants(s, 1); AlignedQuadrants(s, 2); AlignedQuadrants(s, 3);
      var A, B, C, D := Leaves(t.nw, q0), Leaves(t.ne, q1), Leaves(t.sw, q2), Leaves(t.se, q3);
      LeavesInside(t.nw, q0); LeavesInside(t.ne, q1); LeavesInside(t.sw, q2); LeavesInside(t.se, q3);
      LeavesApart(t.nw, q0); LeavesApart(t.ne, q1); LeavesApart(t.sw, q2); LeavesApart(t.se, q3);
      QuadrantsApart(s, A, B, 0, 1);
      ApartConcat(A, B);
      QuadrantsApart(s, A, C, 0, 2); QuadrantsApart(s, B, C, 1, 2);
      ApartConcat(A + B, C);
      QuadrantsApart(s, A, D, 0, 3); QuadrantsApart(s, B, D, 1, 3); QuadrantsApart(s, C, D, 2, 3);
      ApartConcat(A + B + C, D);
    }
  }

  lemma {:induction false} LeavesCover(t: QTree, s: Square, r: int, c: int)
    requires Aligned(s) && FitsIn(t, s.size) && Contains(s, r, c)
    ensures Locate(Leaves(t, s), r, c) < |Leaves(t, s)|
  {
    hide Leaves, FitsIn;
    if t.Single? {
      UnfoldSingle(s);
    } else {
      UnfoldSplit(t, s);
      var q0, q1, q2, q3 := Quadrant(s, 0), Quadrant(s, 1), Quadrant(s, 2), Quadrant(s, 3);
      AlignedQuadrants(s, 0); AlignedQuadrants(s, 1); AlignedQuadrants(s, 2); AlignedQuadrants(s, 3);
      var A, B, C, D := Leaves(t.nw, q0), Leaves(t.ne, q1), Leaves(t.sw, q2), Leaves(t.se, q3);
      LocateConcat(A, B, r, c);
      LocateConcat(A + B, C, r, c);
      LocateConcat(A + B + C, D, r, c);
      if Contains(q0, r, c) { LeavesCover(t.nw, q0, r, c); }
      else if Contains(q1, r, c) { LeavesCover(t.ne, q1, r, c); }
      else if Contains(q2, r, c) { LeavesCover(t.sw, q2, r, c); }
      else { LeavesCover(t.se, q3, r, c); }
    }
  }

  /** The leaves of any quadtree of an aligned square tile it exactly. */
  lemma LeavesTile(t: QTree, s: Square)
    requires Aligned(s) && FitsIn(t, s.size)
    ensures ExactTiling(Leaves(t, s), s)
  {
    LeavesInside(t, s);
    LeavesApart(t, s);
    forall r, c | s.y <= r < s.y + s.size && s.x <= c < s.x + s.size
      ensures Locate(Leaves(t, s), r, c) < |Leaves(t, s)|
    {
      LeavesCover(t, s, r, c);
    }
  }

  /** In an exact tiling the leaf containing a cell is unique. */
  lemma UniqueLeaf(L: seq<Square>, i: nat, r: int, c: int)
    requires PairwiseApart(L) && i < |L| && Contains(L[i], r, c)
    ensures Locate(L, r, c) == i
  {
    LocateFirst(L, i, r, c);
    var j := Locate(L, r, c);
    assert j < i ==> Apart(L[j], L[i]);
  }

  lemma {:induction false} LocateFirst(L: seq<Square>, i: nat, r: int, c: int)
    requires i < |L| && Contains(L[i], r, c)
    ensures Locate(L, r, c) <= i
  {
    if i > 0 && !Contains(L[0], r, c) { LocateFirst(L[1..], i - 1, r, c); }
  }

  lemma BlocksNest(n: nat, a: nat, c: nat, q: nat)
    requires n * a < n * c + n * q && n * c < n * a + n
    ensures n * c <= n * a && n * a + n <= n * c + n * q
  {
    assert n * c + n * q == n * (c + q) && n * a + n == n * (a + 1) by { MulAdds(n, c, q); MulAdds(n, a, 1); }
    if a < c {
      MulOrder(n, a + 1, c);
    } else if a >= c + q {
      MulOrder(n, c + q, a);
    } else {
      MulOrder(n, c, a);
      MulOrder(n, a + 1, c + q);
    }
  }

  lemma MulAdds(n: nat, x: nat, y: nat)
    ensures n * (x + y) == n * x + n * y
  {
  }

  lemma MulOrder(n: nat, x: nat, y: nat)
    requires x <= y
    ensures n * x <= n * y
  {
  }

  lemma SideMultiple(z: nat, n: nat, m: nat, q: nat)
    requires n > 0 && q > 0 && m == n * q && z % m == 0
    ensures z == n * (q * (z / m))
  {
    assert z == m * (z / m);
    MulAssociates(n, q, z / m);
  }

  lemma MulAssociates(x: nat, y: nat, z: nat)
    ensures (x * y) * z == x * (y * z)
  {
  }

  lemma NestedSide(y: nat, n: nat, z: nat, m: nat, q: nat)
    requires n > 0 && q > 0 && m == n * q && y % n == 0 && z % m == 0
    requires y < z + m && z < y + n
    ensures z <= y && y + n <= z + m
  {
    SideMultiple(z, n, m, q);
    BlocksNest(n, y / n, q * (z / m), q);
  }

  function Ratio(a: Square, b: Square): (q: nat)
    requires Aligned(a) && Aligned(b) && a.size <= b.size
    ensures q > 0 && b.size == a.size * q
  {
    b.size / a.size
  }

  lemma AlignedBoth(s: Square)
    requires Aligned(s)
    ensures s.size > 0 && s.y % s.size == 0 == s.x % s.size
  {
  }

  /** Of two aligned squares with a common cell the smaller lies inside the larger. */
  lemma AlignedSquaresNest(a: Square, b: Square, r: int, c: int)
    requires Aligned(a) && Aligned(b) && a.size <= b.size && Contains(a, r, c) && Contains(b, r, c)
    ensures Inside(a, b)
  {
    hide Aligned;
    AlignedBoth(a);
    AlignedBoth(b);
    NestedSide(a.y, a.size, b.y, b.size, Ratio(a, b));
    NestedSide(a.x, a.size, b.x, b.size, Ratio(a, b));
  }

  // ------------------------------------------------------------------ area

  function Area(L: seq<Square>): nat {
    if |L| == 0 then 0 else L[0].size * L[0].size + Area(L[1..])
  }

  lemma {:induction false} AreaConcat(A: seq<Square>, B: seq<Square>)
    ensures Area(A + B) == Area(A) + Area(B)
  {
    if |A| == 0 {
      assert A + B == B;
    } else {
      assert (A + B)[1..] == A[1..] + B;
      AreaConcat(A[1..], B);
    }
  }

  lemma QuarterArea(size: nat)
    requires IsLeafSize(size) && size > MIN_LEAF_SIZE
    ensures size * size == 4 * (size / 2 * (size / 2))
  {
  }

  /** Leaf areas add up to the area of the region. */
  lemma {:induction false} LeavesArea(t: QTree, s: Square)
    requires FitsIn(t, s.size)
    ensures Area(Leaves(t, s)) == s.size * s.size
  {
    hide Leaves, FitsIn;
    if t.Single? {
      UnfoldSingle(s);
      assert Area([s]) == s.size * s.size + Area([]);
    } else {
      UnfoldSplit(t, s);
      QuarterArea(s.size);
      hide Area;
      var q0, q1, q2, q3 := Quadrant(s, 0), Quadrant(s, 1), Quadrant(s, 2), Quadrant(s, 3);
      var A, B, C, D := Leaves(t.nw, q0), Leaves(t.ne, q1), Leaves(t.sw, q2), Leaves(t.se, q3);
      LeavesArea(t.nw, q0); LeavesArea(t.ne, q1); LeavesArea(t.sw, q2); LeavesArea(t.se, q3);
      AreaConcat(A, B);
      AreaConcat(A + B, C);
      AreaConcat(A + B + C, D);
    }
  }

  lemma {:induction false} UniformArea(L: seq<Square>, size: nat)
    requires forall i :: 0 <= i < |L| ==> L[i].size == size
    ensures Area(L) == |L| * (size * size)
  {
    if |L| > 0 { UniformArea(L[1..], size); }
  }

  // ----------------------------------------------------------------- order

  /** The bits of row and column interleaved, the row's bit above the column's. */
  function Morton(y: nat, x: nat): nat {
    if y == 0 && x == 0 then 0 else 4 * Morton(y / 2, x / 2) + 2 * (y % 2) + x % 2
  }

  lemma MortonStep(a: nat, b: nat, p: nat, q: nat)
    requires p < 2 && q < 2
    ensures Morton(2 * a + p, 2 * b + q) == 4 * Morton(a, b) + 2 * p + q
  {
    assert (2 * a + p) / 2 == a && (2 * b + q) / 2 == b;
  }

  lemma MortonScales(n: nat, a: nat, b: nat)
    requires n == 1 || n == 2 || n == 4 || n == 8 || n == 16 || n == 32
    ensures Morton(n * a, n * b) == n * n * Morton(a, b)
  {
    hide Morton;
    MortonStep(a, b, 0, 0);
    MortonStep(2 * a, 2 * b, 0, 0);
    MortonStep(4 * a, 4 * b, 0, 0);
    MortonStep(8 * a, 8 * b, 0, 0);
    MortonStep(16 * a, 16 * b, 0, 0);
    match n {
      case 1 =>
      case 2 =>
      case 4 =>
      case 8 =>
      case 16 =>
      case 32 =>
    }
  }

  lemma MortonOfQuadrant(s: Square, k: nat)
    requires Aligned(s) && s.size > 4 && k < 4
    ensures Morton(Quadrant(s, k).y, Quadrant(s, k).x) == Morton(s.y, s.x) + k * (s.size / 2 * (s.size / 2))
  {
    hide Morton;
    var h := s.size / 2;
    var a, b := s.y / s.size, s.x / s.size;
    assert s.y == h * (2 * a) && s.x == h * (2 * b) by { hide Quadrant; }
    var p, q := if k < 2 then 0 else 1, k % 2;
    assert Quadrant(s, k).y == h * (2 * a + p) && Quadrant(s, k).x == h * (2 * b + q);
    MortonScales(h, 2 * a, 2 * b);
    MortonScales(h, 2 * a + p, 2 * b + q);
    MortonStep(a, b, 0, 0);
    MortonStep(a, b, p, q);
    MulAdds(h * h, 4 * Morton(a, b), k);
  }

  /** Square k starts at the Z-order position where the squares before it end. */
  predicate StartsInPlace(L: seq<Square>, start: nat, k: nat)
    requires k < |L|
  {
    Morton(L[k].y, L[k].x) == start + Area(L[..k])
  }

  ghost predicate InZOrder(L: seq<Square>, start: nat) {
    forall k :: 0 <= k < |L| ==> StartsInPlace(L, start, k)
  }

  lemma PrefixArea(A: seq<Square>, B: seq<Square>, k: nat)
    requires k <= |A| + |B|
    ensures Area((A + B)[..k]) == if k < |A| then Area(A[..k]) else Area(A) + Area(B[..k - |A|])
  {
    hide Area;
    if k < |A| {
      assert (A + B)[..k] == A[..k];
    } else {
      assert (A + B)[..k] == A + B[..k - |A|];
      AreaConcat(A, B[..k - |A|]);
    }
  }

  lemma PlaceIs(L: seq<Square>, start: nat, k: nat, sq: Square, before: nat)
    requires k < |L| && L[k] == sq && Area(L[..k]) == before
    ensures StartsInPlace(L, start, k) <==> Morton(sq.y, sq.x) == start + before
  {
    hide Area, Morton;
  }

  lemma PlaceInConcat(A: seq<Square>, B: seq<Square>, start: nat, k: nat)
    requires k < |A| + |B|
    requires if k < |A| then StartsInPlace(A, start, k) else StartsInPlace(B, start + Area(A), k - |A|)
    ensures StartsInPlace(A + B, start, k)
  {
    hide *;
    PrefixArea(A, B, k);
    if k < |A| {
      PlaceIs(A, start, k, A[k], Area(A[..k]));
      PlaceIs(A + B, start, k, A[k], Area(A[..k]));
    } else {
      PlaceIs(B, start + Area(A), k - |A|, B[k - |A|], Area(B[..k - |A|]));
      PlaceIs(A + B, start, k, B[k - |A|], Area(A) + Area(B[..k - |A|]));
    }
  }

  lemma InZOrderConcat(A: seq<Square>, B: seq<Square>, start: nat)
    requires InZOrder(A, start) && InZOrder(B, start + Area(A))
    ensures InZOrder(A + B, start)
  {
    hide StartsInPlace, Area;
    forall k | 0 <= k < |A + B|
      ensures StartsInPlace(A + B, start, k)
    {
      PlaceInConcat(A, B, start, k);
    }
  }

  /** Depth-first order is Z-order. */
  lemma {:induction false} LeavesInZOrder(t: QTree, s: Square)
    requires Aligned(s) && FitsIn(t, s.size)
    ensures InZOrder(Leaves(t, s), Morton(s.y, s.x))
  {
    hide Leaves, FitsIn, Morton;
    if t.Single? {
      UnfoldSingle(s);
      assert [s][..0] == [];
    } else {
      UnfoldSplit(t, s);
      var q0, q1, q2, q3 := Quadrant(s, 0), Quadrant(s, 1), Quadrant(s, 2), Quadrant(s, 3);
      AlignedQuadrants(s, 0); AlignedQuadrants(s, 1); AlignedQuadrants(s, 2); AlignedQuadrants(s, 3);
      hide Aligned, InZOrder, Area;
      var A, B, C, D := Leaves(t.nw, q0), Leaves(t.ne, q1), Leaves(t.sw, q2), Leaves(t.se, q3);
      MortonOfQuadrant(s, 0); MortonOfQuadrant(s, 1); MortonOfQuadrant(s, 2); MortonOfQuadrant(s, 3);
      LeavesInZOrder(t.nw, q0); LeavesInZOrder(t.ne, q1); LeavesInZOrder(t.sw, q2); LeavesInZOrder(t.se, q3);
      LeavesArea(t.nw, q0); LeavesArea(t.ne, q1); LeavesArea(t.sw, q2);
      var start := Morton(s.y, s.x);
      AreaConcat(A, B);
      AreaConcat(A + B, C);
      InZOrderConcat(A, B, start);
      InZOrderConcat(A + B, C, start);
      InZOrderConcat(A + B + C, D, start);
    }
  }
}
