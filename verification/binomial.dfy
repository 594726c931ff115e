/**
  The binomial coefficient page: the coefficient C(n, k) for the current
  inputs, Pascal's triangle down to row n, and the bar chart of row n.
*/
module Binomial {
  import opened Combinatorics
  import opened InputGuards

  /**
    C(n, k) as the page computes it: n! / (k! (n - k)!), 0 outside 0 <= k <= n.
    The formula is the analyzer's combinations formula, so it is the
    Pascal-rule coefficient, and at least 1 inside the triangle.
  */
  function BinomialCoefficient(n: int, k: int): (r: real)
    ensures n >= 0 ==> r == Choose(n, k) as real
    ensures n < 0 ==> r == 0.0
    ensures 0 <= k <= n ==> r >= 1.0
  {
    if 0 <= k <= n then ChoosePositive(n, k); Combinations(n, k) else Combinations(n, k)
  }

  /** One cell of the triangle: its row, its column and C(row, column). */
  datatype Entry = Entry(n: int, k: int, value: real)

  /** Row n of the triangle, entries in column order. */
  function Row(n: nat): (row: seq<Entry>)
    ensures |row| == n + 1
    ensures forall k :: 0 <= k <= n ==> row[k] == Entry(n, k, Choose(n, k) as real)
  {
    seq(n + 1, k requires 0 <= k <= n => Entry(n, k, BinomialCoefficient(n, k)))
  }

  /**
    Pascal's triangle with rows 0 .. rows (no row when rows < 0). Row n has
    n + 1 entries; entry k of row n is C(n, k); each row starts and ends with
    1, is symmetric, and every inner entry is the sum of the two above it.
  */
  method GeneratePascalTriangle(rows: int) returns (triangle: seq<seq<Entry>>)
    ensures |triangle| == if rows >= 0 then rows + 1 else 0
    ensures forall n :: 0 <= n < |triangle| ==> |triangle[n]| == n + 1
    ensures forall n, k :: 0 <= n < |triangle| && 0 <= k <= n ==>
      triangle[n][k].n == n && triangle[n][k].k == k && triangle[n][k].value == Choose(n, k) as real
    ensures forall n :: 0 <= n < |triangle| ==> triangle[n][0].value == 1.0 && triangle[n][n].value == 1.0
    ensures forall n, k {:trigger triangle[n][k]} :: 0 < n < |triangle| && 0 < k < n ==>
      triangle[n][k].value == triangle[n - 1][k - 1].value + triangle[n - 1][k].value
    ensures forall n, k :: 0 <= n < |triangle| && 0 <= k <= n ==> triangle[n][k].value == triangle[n][n - k].value
  {
    triangle := [];
    var n := 0;
    while n <= rows
      invariant 0 <= n && (rows >= 0 ==> n <= rows + 1) && (rows < 0 ==> n == 0)
      invariant |triangle| == n
      invariant forall m :: 0 <= m < n ==> triangle[m] == Row(m)
    {
      var row := [];
      var k := 0;
      while k <= n
        invariant 0 <= k <= n + 1
        invariant row == Row(n)[..k]
      {
        row := row + [Entry(n, k, BinomialCoefficient(n, k))];
        k := k + 1;
      }
      triangle := triangle + [row];
      n := n + 1;
    }
    forall m, k | 0 <= m < |triangle| && 0 <= k <= m
      ensures triangle[m][k].value == triangle[m][m - k].value
    {
      ChooseSymmetric(m, k);
    }
  }

  // ---------------------------------------------------------------------------
  // The chart of row n

  /** One bar: it is labelled C(n, k) and has height C(n, k). */
  datatype Bar = Bar(n: int, k: int, value: real)

  /** The bars of row n of a triangle, in column order. */
  function ChartData(triangle: seq<seq<Entry>>, n: int): (bars: seq<Bar>)
    requires 0 <= n < |triangle|
    ensures |bars| == |triangle[n]|
    ensures forall i :: 0 <= i < |bars| ==> bars[i] == Bar(n, triangle[n][i].k, triangle[n][i].value)
  {
    seq(|triangle[n]|, i requires 0 <= i < |triangle[n]| => Bar(n, triangle[n][i].k, triangle[n][i].value))
  }

  function Pow2(n: nat): nat {
    if n == 0 then 1 else 2 * Pow2(n - 1)
  }

  /** C(n, 0) + ... + C(n, m - 1). */
  function RowSum(n: nat, m: nat): nat {
    if m == 0 then 0 else RowSum(n, m - 1) + Choose(n, m - 1)
  }

  /** The total height of a chart. */
  function TotalHeight(bars: seq<Bar>): real {
    if bars == [] then 0.0 else TotalHeight(bars[..|bars| - 1]) + bars[|bars| - 1].value
  }

  lemma {:induction false} RowSumPascal(n: nat, m: nat)
    requires n >= 1 && m >= 1
    ensures RowSum(n, m) == RowSum(n - 1, m) + RowSum(n - 1, m - 1)
  {
    if m > 1 {
      RowSumPascal(n, m - 1);
      PascalEverywhere(n, m - 1);
    }
  }

  /** The entries of row n add up to 2^n. */
  lemma {:induction false} RowTotal(n: nat)
    ensures RowSum(n, n + 1) == Pow2(n)
  {
    if n > 0 {
      RowTotal(n - 1);
      RowSumPascal(n, n + 1);
      assert RowSum(n - 1, n + 1) == RowSum(n - 1, n);
    }
  }

  lemma {:induction false} TotalHeightIsRowSum(bars: seq<Bar>, n: nat)
    requires forall i :: 0 <= i < |bars| ==> bars[i].value == Choose(n, i) as real
    ensures TotalHeight(bars) == RowSum(n, |bars|) as real
    decreases |bars|
  {
    if bars != [] {
      TotalHeightIsRowSum(bars[..|bars| - 1], n);
    }
  }

  /**
    What the page shows for inputs with n >= 0: the chart of row n has one bar
    per k = 0 .. n with height C(n, k), the bars add up to 2^n, and when k is in
    range the bar at k is the coefficient the page prints.
  */
  method PageChart(s: Inputs) returns (coefficient: real, bars: seq<Bar>)
    requires s.n >= 0
    ensures |bars| == s.n + 1
    ensures forall i :: 0 <= i < |bars| ==> bars[i] == Bar(s.n, i, Choose(s.n, i) as real)
    ensures TotalHeight(bars) == Pow2(s.n) as real
    ensures coefficient == Choose(s.n, s.k) as real
    ensures Valid(s) ==> bars[s.k].value == coefficient && coefficient >= 1.0
  {
    coefficient := BinomialCoefficient(s.n, s.k);
    var triangle := GeneratePascalTriangle(s.n);
    bars := ChartData(triangle, s.n);
    TotalHeightIsRowSum(bars, s.n);
    RowTotal(s.n);
  }
}
