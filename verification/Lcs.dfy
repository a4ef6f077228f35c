/** ROUGE-L scoring: the two-row longest-common-subsequence table against the definition of a
    longest common subsequence, and the score built on it. */
module Lcs {

  // ------------------------------------------------------------- definition

  /** `f` places the words of `c` at increasing positions of `a`. */
  predicate Embeds(c: seq<string>, a: seq<string>, f: seq<nat>) {
    && |f| == |c|
    && (forall k :: 0 <= k < |f| ==> f[k] < |a| && a[f[k]] == c[k])
    && (forall j, k :: 0 <= j < k < |f| ==> f[j] < f[k])
  }

  ghost predicate IsSubsequence(c: seq<string>, a: seq<string>) {
    exists f :: Embeds(c, a, f)
  }

  ghost predicate IsCommonSubsequence(c: seq<string>, a: seq<string>, b: seq<string>) {
    IsSubsequence(c, a) && IsSubsequence(c, b)
  }

  // ----------------------------------------------------------- recurrence

  /** The value of table cell (i, j) is Length(a[..i], b[..j]). */
  function Length(a: seq<string>, b: seq<string>): nat
    decreases |a| + |b|
  {
    if |a| == 0 || |b| == 0 then 0
    else
      var a', b' := a[..|a| - 1], b[..|b| - 1];
      if a[|a| - 1] == b[|b| - 1] then Length(a', b') + 1
      else if Length(a', b) >= Length(a, b') then Length(a', b) else Length(a, b')
  }

  lemma EmbedsPrefix(c: seq<string>, a: seq<string>, f: seq<nat>, n: nat, m: nat)
    requires Embeds(c, a, f) && n <= |c| && m <= |a|
    requires n > 0 ==> f[n - 1] < m
    ensures Embeds(c[..n], a[..m], f[..n])
  {
  }

  /** No common subsequence is longer than the table says. */
  lemma {:induction false} LengthBounds(a: seq<string>, b: seq<string>, c: seq<string>, f: seq<nat>, g: seq<nat>)
    requires Embeds(c, a, f) && Embeds(c, b, g)
    ensures |c| <= Length(a, b)
    decreases |a| + |b|
  {
    if |c| > 0 {
      var m, n, k := |a|, |b|, |c|;
      assert f[k - 1] < m && g[k - 1] < n;
      if a[m - 1] == b[n - 1] {
        EmbedsPrefix(c, a, f, k - 1, m - 1);
        EmbedsPrefix(c, b, g, k - 1, n - 1);
        LengthBounds(a[..m - 1], b[..n - 1], c[..k - 1], f[..k - 1], g[..k - 1]);
      } else if f[k - 1] < m - 1 {
        EmbedsPrefix(c, a, f, k, m - 1);
        assert c[..k] == c && f[..k] == f;
        LengthBounds(a[..m - 1], b, c, f, g);
      } else {
        EmbedsPrefix(c, b, g, k, n - 1);
        assert c[..k] == c && g[..k] == g;
        LengthBounds(a, b[..n - 1], c, f, g);
      }
    }
  }

  lemma EmbedsInLonger(c: seq<string>, a: seq<string>, m: nat, f: seq<nat>)
    requires m <= |a| && Embeds(c, a[..m], f)
    ensures Embeds(c, a, f)
  {
  }

  lemma EmbedsSnoc(c: seq<string>, a: seq<string>, f: seq<nat>)
    requires |a| > 0 && Embeds(c, a[..|a| - 1], f)
    ensures Embeds(c + [a[|a| - 1]], a, f + [|a| - 1])
  {
  }

  /** Some common subsequence is as long as the table says. */
  lemma {:induction false} LengthAttained(a: seq<string>, b: seq<string>)
    returns (c: seq<string>, f: seq<nat>, g: seq<nat>)
    ensures Embeds(c, a, f) && Embeds(c, b, g) && |c| == Length(a, b)
    decreases |a| + |b|
  {
    if |a| == 0 || |b| == 0 {
      c, f, g := [], [], [];
    } else {
      var m, n := |a| - 1, |b| - 1;
      if a[m] == b[n] {
        c, f, g := LengthAttained(a[..m], b[..n]);
        EmbedsSnoc(c, a, f);
        EmbedsSnoc(c, b, g);
        c, f, g := c + [a[m]], f + [m], g + [n];
      } else if Length(a[..m], b) >= Length(a, b[..n]) {
        c, f, g := LengthAttained(a[..m], b);
        EmbedsInLonger(c, a, m, f);
      } else {
        c, f, g := LengthAttained(a, b[..n]);
        EmbedsInLonger(c, b, n, g);
      }
    }
  }

  /** The recurrence is the greatest length of a common subsequence. */
  lemma LengthIsMaximum(a: seq<string>, b: seq<string>)
    ensures exists c :: IsCommonSubsequence(c, a, b) && |c| == Length(a, b)
    ensures forall c :: IsCommonSubsequence(c, a, b) ==> |c| <= Length(a, b)
  {
    var c, f, g := LengthAttained(a, b);
    assert IsCommonSubsequence(c, a, b);
    forall d | IsCommonSubsequence(d, a, b)
      ensures |d| <= Length(a, b)
    {
      var f' :| Embeds(d, a, f');
      var g' :| Embeds(d, b, g');
      LengthBounds(a, b, d, f', g');
    }
  }

  // -------------------------------------------------------- two-row program

  /** Table cell (i, j). */
  function TableCell(a: seq<string>, b: seq<string>, i: nat, j: nat): nat
    requires i <= |a| && j <= |b|
  {
    Length(a[..i], b[..j])
  }

  lemma CellStep(a: seq<string>, b: seq<string>, i: nat, j: nat)
    requires i <= |a| && j <= |b|
    ensures i == 0 || j == 0 ==> TableCell(a, b, i, j) == 0
    ensures i > 0 && j > 0 ==>
              TableCell(a, b, i, j) ==
                if a[i - 1] == b[j - 1] then TableCell(a, b, i - 1, j - 1) + 1
                else if TableCell(a, b, i - 1, j) >= TableCell(a, b, i, j - 1)
                then TableCell(a, b, i - 1, j) else TableCell(a, b, i, j - 1)
  {
    if i > 0 && j > 0 {
      assert a[..i][..i - 1] == a[..i - 1] && b[..j][..j - 1] == b[..j - 1];
    }
  }

  lemma LastCell(a: seq<string>, b: seq<string>)
    ensures TableCell(a, b, |a|, |b|) == Length(a, b)
  {
    assert a[..|a|] == a && b[..|b|] == b;
  }

  /** The first `count` entries of a stored row are those of table row i. */
  ghost predicate RowHolds(dp: array2<nat>, row: nat, a: seq<string>, b: seq<string>, i: nat, count: nat)
    requires row < dp.Length0 && count <= dp.Length1 && i <= |a| && count <= |b| + 1
    reads dp
  {
    forall j :: 0 <= j < count ==> dp[row, j] == TableCell(a, b, i, j)
  }

  /** _lcs_length: only two rows of the table are kept, used in turn. */
  method LcsLength(a: seq<string>, b: seq<string>) returns (r: nat)
    ensures r == Length(a, b)
    ensures exists c :: IsCommonSubsequence(c, a, b) && |c| == r
    ensures forall c :: IsCommonSubsequence(c, a, b) ==> |c| <= r
  {
    hide IsCommonSubsequence, Length, TableCell;
    LengthIsMaximum(a, b);
    LastCell(a, b);
    var m, n := |a|, |b|;
    if m == 0 || n == 0 {
      CellStep(a, b, m, n);
      return 0;
    }
    var dp := new nat[2, n + 1]((_, _) => 0);
    forall j | 0 <= j <= n ensures TableCell(a, b, 0, j) == 0 { CellStep(a, b, 0, j); }
    for i := 1 to m + 1
      invariant RowHolds(dp, (i - 1) % 2, a, b, i - 1, n + 1)
      invariant dp[0, 0] == 0 == dp[1, 0]
    {
      var curr := i % 2;
      var prev := 1 - curr;
      assert prev == (i - 1) % 2;
      CellStep(a, b, i, 0);
      for j := 1 to n + 1
        invariant RowHolds(dp, prev, a, b, i - 1, n + 1)
        invariant RowHolds(dp, curr, a, b, i, j)
        invariant dp[0, 0] == 0 == dp[1, 0]
      {
        CellStep(a, b, i, j);
        if a[i - 1] == b[j - 1] {
          dp[curr, j] := dp[prev, j - 1] + 1;
        } else {
          dp[curr, j] := if dp[prev, j] >= dp[curr, j - 1] then dp[prev, j] else dp[curr, j - 1];
        }
      }
    }
    r := dp[m % 2, n];
  }

  // -------------------------------------------------------------- ROUGE-L

  /** _rouge_l on the lowercased, split word lists. */
  function RougeL(reference: seq<string>, candidate: seq<string>): real {
    if |reference| == 0 || |candidate| == 0 then 0.0
    else
      var lcs := Length(reference, candidate) as real;
      var precision, recall := lcs / |candidate| as real, lcs / |reference| as real;
      if precision + recall == 0.0 then 0.0 else 2.0 * precision * recall / (precision + recall)
  }

  lemma {:induction false} LengthSymmetric(a: seq<string>, b: seq<string>)
    ensures Length(a, b) == Length(b, a)
  {
    var c, f, g := LengthAttained(a, b);
    LengthBounds(b, a, c, g, f);
    var d, p, q := LengthAttained(b, a);
    LengthBounds(a, b, d, q, p);
  }

  /** An increasing list of positions below n has at most n entries, and exactly n only if it lists them all. */
  lemma {:induction false} IncreasingPositions(f: seq<nat>, n: nat)
    requires forall k :: 0 <= k < |f| ==> f[k] < n
    requires forall j, k :: 0 <= j < k < |f| ==> f[j] < f[k]
    ensures |f| <= n
    ensures |f| == n ==> forall k :: 0 <= k < n ==> f[k] == k
    decreases |f|
  {
    if |f| > 0 {
      var last := f[|f| - 1];
      IncreasingPositions(f[..|f| - 1], last);
      assert |f| == n ==> last == n - 1;
    }
  }

  lemma LengthWithin(a: seq<string>, b: seq<string>)
    ensures Length(a, b) <= |a| && Length(a, b) <= |b|
    ensures Length(a, b) == |a| == |b| <==> a == b
  {
    var c, f, g := LengthAttained(a, b);
    IncreasingPositions(f, |a|);
    IncreasingPositions(g, |b|);
    if Length(a, b) == |a| == |b| {
      assert forall k :: 0 <= k < |a| ==> a[k] == c[k] == b[k];
    }
    if a == b {
      var id := seq(|a|, i requires i >= 0 => i);
      assert Embeds(a, a, id);
      LengthBounds(a, b, a, id, id);
    }
  }

  /** 2pr / (p + r) with p = x/n and r = x/m is 2x / (m + n). */
  lemma HarmonicMean(x: real, m: real, n: real)
    requires x > 0.0 && m > 0.0 && n > 0.0
    ensures x / n + x / m > 0.0
    ensures 2.0 * (x / n) * (x / m) / (x / n + x / m) == 2.0 * x / (m + n)
  {
    var p, r := x / n, x / m;
    assert p * n == x && r * m == x;
    assert p > 0.0 && r > 0.0;
    Product(p, r, m, n, x);
    var q := 2.0 * x / (m + n);
    assert q * (m + n) == 2.0 * x;
    QuotientUnique(2.0 * p * r, p + r, x, m + n);
  }

  /** p r (m + n) == x (p + r) */
  lemma Product(p: real, r: real, m: real, n: real, x: real)
    requires p * n == x && r * m == x
    ensures p * r * (m + n) == x * (p + r)
  {
    calc {
      p * r * (m + n);
      p * (r * m) + r * (p * n);
      p * x + r * x;
      x * (p + r);
    }
  }

  lemma QuotientUnique(u: real, v: real, x: real, s: real)
    requires v > 0.0 && s > 0.0 && u * s == 2.0 * x * v
    ensures u / v == 2.0 * x / s
  {
    var a, b := u / v, 2.0 * x / s;
    assert a * v == u && b * s == 2.0 * x;
    assert a * v * s == b * s * v;
    assert (a - b) * (v * s) == 0.0;
    assert v * s > 0.0;
  }

  /** The score is twice the common length over the total length. */
  lemma RougeFormula(a: seq<string>, b: seq<string>)
    requires |a| + |b| > 0
    ensures RougeL(a, b) == 2.0 * Length(a, b) as real / (|a| + |b|) as real
  {
    LengthWithin(a, b);
    hide Length;
    var x, m, n := Length(a, b) as real, |a| as real, |b| as real;
    ZeroOver(m + n);
    if |a| > 0 && |b| > 0 {
      if Length(a, b) > 0 {
        HarmonicMean(x, m, n);
      } else {
        ZeroOver(m);
        ZeroOver(n);
      }
    }
  }

  lemma ZeroOver(x: real)
    requires x >= 0.0
    ensures x > 0.0 ==> 0.0 / x == 0.0
  {
  }

  /** The score is symmetric, lies in [0, 1], and is 1 exactly for equal non-empty word lists. */
  lemma RougeProperties(a: seq<string>, b: seq<string>)
    ensures RougeL(a, b) == RougeL(b, a)
    ensures 0.0 <= RougeL(a, b) <= 1.0
    ensures RougeL(a, b) == 1.0 <==> a == b && |a| > 0
  {
    if |a| + |b| > 0 {
      RougeFormula(a, b);
      RougeFormula(b, a);
      LengthSymmetric(a, b);
      LengthWithin(a, b);
      UnitFraction(Length(a, b), |a| + |b|);
    }
  }

  lemma UnitFraction(x: nat, n: nat)
    requires 2 * x <= n && n > 0
    ensures 0.0 <= 2.0 * x as real / n as real <= 1.0
    ensures 2.0 * x as real / n as real == 1.0 <==> 2 * x == n
  {
    var q := 2.0 * x as real / n as real;
    assert q * n as real == (2 * x) as real;
  }
}
