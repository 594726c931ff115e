/**
  The counting functions of the combinatorial analyzer page: factorial,
  permutations P(n) = n!, arrangements A(n, k) = n! / (n - k)! and
  combinations C(n, k) = n! / (k! (n - k)!), and the table of one of them for
  i = 0 .. n that the page charts.

  The page divides JavaScript numbers; here the quotients are exact rationals
  (`real`), and each quotient is shown to be the integer that an independent
  definition counts: the falling factorial for arrangements, Pascal's rule
  for combinations.
*/
module Combinatorics {

  // ---------------------------------------------------------------------------
  // Factorial and the reference definitions

  /** n! for n >= 0; a negative argument yields 0, the page's value for "undefined". */
  function Factorial(n: int): (r: nat)
    ensures n < 0 ==> r == 0
    ensures n >= 0 ==> r >= 1
    ensures n >= 1 ==> r >= n
    decreases if n < 0 then 0 else n
  {
    if n < 0 then 0
    else if n <= 1 then 1
    else n * Factorial(n - 1)
  }

  /** The falling factorial n (n - 1) ... (n - k + 1): the number of ordered choices of k out of n. */
  function Falling(n: int, k: nat): int {
    if k == 0 then 1 else (n - k + 1) * Falling(n, k - 1)
  }

  /** Binomial coefficients by Pascal's rule, with 0 outside the triangle. */
  function Choose(n: nat, k: int): nat {
    if k < 0 || k > n then 0
    else if k == 0 || k == n then 1
    else Choose(n - 1, k - 1) + Choose(n - 1, k)
  }

  /** The recurrence n! = n (n - 1)! holds for every positive n, including n = 1. */
  lemma {:induction false} FactorialStep(n: int)
    requires n >= 1
    ensures Factorial(n) == n * Factorial(n - 1)
  {
  }

  /** n! counts the orderings of all n elements: it is the falling factorial of length n. */
  lemma {:induction false} FactorialIsFalling(n: nat)
    ensures Factorial(n) == Falling(n, n)
  {
    if n > 0 {
      FallingTimesFactorial(n, n);
    }
  }

  /** (n - k)! times the falling factorial of length k is n!. */
  lemma {:induction false} FallingTimesFactorial(n: int, k: nat)
    requires k <= n
    ensures Factorial(n - k) * Falling(n, k) == Factorial(n)
  {
    if k > 0 {
      FallingTimesFactorial(n, k - 1);
      var m := n - k + 1;
      FactorialStep(m);
      Regroup(Factorial(n - k), m, Falling(n, k - 1));
      assert Factorial(n - k) * (m * Falling(n, k - 1)) == Factorial(m) * Falling(n, k - 1);
    }
  }

  lemma {:induction false} Regroup(f: int, m: int, x: int)
    ensures f * (m * x) == (m * f) * x
  {
  }

  lemma {:induction false} FallingPositive(n: int, k: nat)
    requires k <= n
    ensures Falling(n, k) >= 1
  {
    FallingTimesFactorial(n, k);
  }

  /** Pascal's rule holds on the whole plane, edges of the triangle included. */
  lemma {:induction false} PascalEverywhere(n: nat, k: int)
    requires n >= 1
    ensures Choose(n, k) == Choose(n - 1, k - 1) + Choose(n - 1, k)
  {
  }

  lemma {:induction false} ChoosePositive(n: nat, k: int)
    requires 0 <= k <= n
    ensures Choose(n, k) >= 1
  {
    if 0 < k < n {
      ChoosePositive(n - 1, k);
    }
  }

  /** The triangle is symmetric: choosing k is choosing the n - k to leave out. */
  lemma {:induction false} ChooseSymmetric(n: nat, k: int)
    ensures Choose(n, k) == Choose(n, n - k)
  {
    if 0 < k < n {
      ChooseSymmetric(n - 1, k - 1);
      ChooseSymmetric(n - 1, k);
    }
  }

  /** The factorial formula for binomial coefficients: C(n, k) k! (n - k)! = n!. */
  lemma {:induction false} ChooseTimesFactorials(n: nat, k: int)
    requires 0 <= k <= n
    ensures Choose(n, k) * (Factorial(k) * Factorial(n - k)) == Factorial(n)
  {
    if 0 < k < n {
      ChooseTimesFactorials(n - 1, k - 1);
      ChooseTimesFactorials(n - 1, k);
      FactorialStep(k);
      FactorialStep(n - k);
      FactorialStep(n);
      PascalStepArithmetic(Choose(n - 1, k - 1), Choose(n - 1, k), n, k,
        Factorial(k - 1), Factorial(n - k - 1), Factorial(n - 1));
    }
  }

  /**
    The arithmetic of one Pascal step: if a (k-1)! (n-k)! = (n-1)! and
    b k! (n-k-1)! = (n-1)!, then (a + b) k! (n-k)! = n (n-1)!.
  */
  lemma {:induction false} PascalStepArithmetic(a: int, b: int, n: int, k: int, fk1: int, fnk1: int, fn1: int)
    requires a * (fk1 * ((n - k) * fnk1)) == fn1
    requires b * ((k * fk1) * fnk1) == fn1
    ensures (a + b) * ((k * fk1) * ((n - k) * fnk1)) == n * fn1
  {
    var x := fk1 * fnk1;
    assert a * (fk1 * ((n - k) * fnk1)) == (n - k) * (a * x);
    assert b * ((k * fk1) * fnk1) == k * (b * x);
    assert (k * fk1) * ((n - k) * fnk1) == k * (n - k) * x;
    calc {
      (a + b) * ((k * fk1) * ((n - k) * fnk1));
      (a + b) * (k * (n - k) * x);
      k * ((n - k) * (a * x)) + (n - k) * (k * (b * x));
      k * fn1 + (n - k) * fn1;
      n * fn1;
    }
  }

  /** An exact integer quotient, seen as a quotient of rationals. */
  lemma {:induction false} ExactQuotient(a: int, b: int, q: int)
    requires b != 0 && b * q == a
    ensures a as real / b as real == q as real
  {
    assert a as real == b as real * q as real;
  }

  lemma {:induction false} FactorialMonotone(a: int, b: int)
    requires 0 <= a <= b
    ensures Factorial(a) <= Factorial(b)
  {
    FallingTimesFactorial(b, b - a);
    FallingPositive(b, b - a);
    AtLeastOnce(Factorial(a), Falling(b, b - a));
  }

  lemma {:induction false} AtLeastOnce(x: int, y: int)
    requires x >= 0 && y >= 1
    ensures x * y >= x
  {
  }

  // ---------------------------------------------------------------------------
  // The page's counting functions

  /** P(n) = n!: the orderings of n elements. */
  function Permutations(n: int): (r: nat)
    ensures n >= 0 ==> r == Falling(n, n)
    ensures n < 0 ==> r == 0
  {
    if n >= 0 then FactorialIsFalling(n); Factorial(n) else Factorial(n)
  }

  /**
    A(n, k) = n! / (n - k)!, 0 when k > n. For 0 <= k <= n it is the integer
    number of ordered choices of k out of n. A negative k is not rejected: the
    quotient is then n! / (n + |k|)!, a fraction no greater than 1.
  */
  function Arrangements(n: int, k: int): (r: real)
    ensures k > n ==> r == 0.0
    ensures 0 <= k <= n ==> r == Falling(n, k) as real
    ensures k < 0 ==> 0.0 <= r <= 1.0
  {
    if k > n then 0.0
    else
      var q := Factorial(n) as real / Factorial(n - k) as real;
      if 0 <= k then
        ArrangementsQuotient(n, k);
        q
      else
        if n >= 0 then
          FactorialMonotone(n, n - k);
          QuotientAtMostOne(Factorial(n), Factorial(n - k));
          q
        else q
  }

  lemma {:induction false} ArrangementsQuotient(n: int, k: int)
    requires 0 <= k <= n
    ensures Factorial(n) as real / Factorial(n - k) as real == Falling(n, k) as real
  {
    FallingTimesFactorial(n, k);
    ExactQuotient(Factorial(n), Factorial(n - k), Falling(n, k));
  }

  lemma {:induction false} QuotientAtMostOne(a: int, b: int)
    requires 0 <= a <= b && b > 0
    ensures 0.0 <= a as real / b as real <= 1.0
  {
  }

  /** C(n, k) = n! / (k! (n - k)!), 0 outside 0 <= k <= n; the quotient is the Pascal-rule coefficient. */
  function Combinations(n: int, k: int): (r: real)
    ensures n >= 0 ==> r == Choose(n, k) as real
    ensures n < 0 ==> r == 0.0
  {
    if k < 0 || k > n then 0.0
    else
      CombinationsQuotient(n, k);
      Factorial(n) as real / (Factorial(k) * Factorial(n - k)) as real
  }

  lemma {:induction false} CombinationsQuotient(n: nat, k: int)
    requires 0 <= k <= n
    ensures Factorial(k) * Factorial(n - k) > 0
    ensures Factorial(n) as real / (Factorial(k) * Factorial(n - k)) as real == Choose(n, k) as real
  {
    var d := Factorial(k) * Factorial(n - k);
    ChooseTimesFactorials(n, k);
    Rotate(Choose(n, k), Factorial(k), Factorial(n - k));
    Regroup(1, Factorial(k), Factorial(n - k));
    ExactQuotient(Factorial(n), d, Choose(n, k));
  }

  /** Arranging all n elements is permuting them: A(n, n) = P(n). */
  lemma {:induction false} ArrangeAllIsPermute(n: nat)
    ensures Arrangements(n, n) == Permutations(n) as real
  {
  }

  /** C(n, k) = C(n, n - k). */
  lemma {:induction false} CombinationsSymmetric(n: int, k: int)
    ensures Combinations(n, k) == Combinations(n, n - k)
  {
    if n >= 0 {
      ChooseSymmetric(n, k);
    }
  }

  /**
    Every ordered choice is an unordered choice in one of its k! orders: the
    integer that A(n, k) yields is k! times the one C(n, k) yields.
  */
  lemma {:induction false} FallingIsOrdersTimesChoose(n: nat, k: nat)
    requires k <= n
    ensures Falling(n, k) == Factorial(k) * Choose(n, k)
  {
    var f, falling, c, kf := Factorial(n - k), Falling(n, k), Choose(n, k), Factorial(k);
    FallingTimesFactorial(n, k);
    ChooseTimesFactorials(n, k);
    Rotate(c, kf, f);
    CancelPositive(f, falling, kf * c);
  }

  lemma {:induction false} Rotate(c: int, kf: int, f: int)
    ensures c * (kf * f) == f * (kf * c)
  {
  }

  lemma {:induction false} CancelPositive(f: int, x: int, y: int)
    requires f > 0 && f * x == f * y
    ensures x == y
  {
    assert f * (x - y) == 0;
  }

  // ---------------------------------------------------------------------------
  // The charted table

  datatype AnalysisType = PermutationsAnalysis | ArrangementsAnalysis | CombinationsAnalysis

  /** One bar of the chart: the argument i and the value of the selected formula at i. */
  datatype DataPoint = DataPoint(n: int, value: real)

  /** The selected formula at i, with the page's current k. */
  function Formula(t: AnalysisType, i: int, k: int): real {
    match t
    case PermutationsAnalysis => Permutations(i) as real
    case ArrangementsAnalysis => Arrangements(i, k)
    case CombinationsAnalysis => Combinations(i, k)
  }

  /**
    The table for i = 0 .. n (empty when n < 0). Row i holds the count the
    selected formula gives for i elements: i! for permutations, the falling
    factorial for arrangements (for a negative k, the page's quotient, which
    lies in [0, 1]) and the binomial coefficient for combinations; with k >= 0 the arrangement and combination rows are 0 exactly for i < k.
  */
  method ComputeResults(n: int, k: int, t: AnalysisType) returns (data: seq<DataPoint>)
    ensures |data| == if n >= 0 then n + 1 else 0
    ensures forall i :: 0 <= i < |data| ==> data[i].n == i
    ensures t == PermutationsAnalysis ==> forall i :: 0 <= i < |data| ==> data[i].value == Falling(i, i) as real
    ensures t == ArrangementsAnalysis && k >= 0 ==> forall i :: 0 <= i < |data| ==> data[i].value == if k <= i then Falling(i, k) as real else 0.0
    ensures t == ArrangementsAnalysis && k < 0 ==> forall i :: 0 <= i < |data| ==>
      data[i].value == Arrangements(i, k) && 0.0 <= data[i].value <= 1.0
    ensures t == CombinationsAnalysis ==> forall i :: 0 <= i < |data| ==> data[i].value == Choose(i, k) as real
    ensures k >= 0 && t != PermutationsAnalysis ==> forall i :: 0 <= i < |data| ==> (data[i].value == 0.0 <==> i < k)
  {
    data := [];
    var i := 0;
    while i <= n
      invariant 0 <= i && (n >= 0 ==> i <= n + 1) && (n < 0 ==> i == 0) && |data| == i
      invariant forall j :: 0 <= j < i ==> data[j] == DataPoint(j, Formula(t, j, k))
    {
      data := data + [DataPoint(i, Formula(t, i, k))];
      i := i + 1;
    }
    forall j | 0 <= j < |data| && k >= 0
      ensures k <= j ==> Falling(j, k) >= 1 && Choose(j, k) >= 1
    {
      if k <= j {
        FallingPositive(j, k);
        ChoosePositive(j, k);
      }
    }
  }
}
