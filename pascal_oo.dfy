/** ex_2_pascal_oo.cpp: Pascal's triangle from factorials. `factorial` and
    `nChooseK` are pure; a `PascalRow` and a `PascalTriangle` fill their vectors
    in loops when constructed and are read-only afterwards. */
module PascalOO {
  import opened Binomial
  import opened MachineWords

  /** `factorial`: 1 for 0 and 1, otherwise `n * factorial(n - 1)`. Negative
      arguments never reach the base case, so the source needs `n >= 0`. */
  function Factorial(n: nat): (r: nat)
    ensures r >= 1
  {
    if n == 1 || n == 0 then 1 else n * Factorial(n - 1)
  }

  /** `nChooseK`: `factorial(n) / (factorial(k) * factorial(n - k))`, which
      is the binomial coefficient of Pascal's rule. */
  function NChooseK(n: nat, k: nat): (r: nat)
    requires k <= n
    ensures r == Binom(n, k)
  {
    FactorialSplit(n, k);
    ExactQuotient(Factorial(n), Binom(n, k), Factorial(k) * Factorial(n - k));
    Factorial(n) / (Factorial(k) * Factorial(n - k))
  }

  /** `n! == C(n, k) * k! * (n - k)!`: the division in `nChooseK` is exact. */
  lemma {:induction false} FactorialSplit(n: nat, k: nat)
    requires k <= n
    ensures Factorial(n) == Binom(n, k) * (Factorial(k) * Factorial(n - k))
    decreases n
  {
    if k == 0 {
      assert Binom(n, 0) == 1;
    } else if k == n {
      BinomDiagonal(n);
    } else {
      // n! = n * (n-1)!, and (n-1)! splits both at k-1 and at k.
      FactorialSplit(n - 1, k - 1);
      FactorialSplit(n - 1, k);
      SplitStep(n, k, Factorial(n - 1), Binom(n - 1, k - 1), Binom(n - 1, k),
        Factorial(k - 1), Factorial(k), Factorial(n - k - 1), Factorial(n - k));
    }
  }

  /** The arithmetic of the inductive step of `FactorialSplit`. */
  lemma SplitStep(n: int, k: int, f: int, a: int, b: int, fk1: int, fk: int, fnk1: int, fnk: int)
    requires f == a * (fk1 * fnk) && f == b * (fk * fnk1)
    requires fk == k * fk1 && fnk == (n - k) * fnk1
    ensures n * f == (a + b) * (fk * fnk)
  {
    calc {
      n * f;
      k * f + (n - k) * f;
      k * (a * (fk1 * fnk)) + (n - k) * (b * (fk * fnk1));
      a * ((k * fk1) * fnk) + b * (fk * ((n - k) * fnk1));
      a * (fk * fnk) + b * (fk * fnk);
      (a + b) * (fk * fnk);
    }
  }

  lemma ExactQuotient(x: int, q: int, d: int)
    requires d > 0 && x == q * d
    ensures x / d == q
  {
    var r, m := x / d, x % d;
    assert x == d * r + m && 0 <= m < d;
    var e := r - q;
    assert d * e == -m by {
      assert d * e == d * r - d * q;
    }
    if e >= 1 {
      MulAtLeast(d, e);
    } else if e <= -1 {
      MulAtLeast(d, -e);
    }
  }

  lemma MulAtLeast(d: int, e: int)
    requires d > 0 && e >= 1
    ensures d * e >= d
  {
  }

  lemma {:induction false} FactorialMonotone(m: nat, n: nat)
    requires m <= n
    ensures Factorial(m) <= Factorial(n)
    decreases n - m
  {
    if m < n {
      FactorialMonotone(m, n - 1);
    }
  }

  /** With `NUM_ROWS = 13` the largest factorial taken is `factorial(12)`, and
      every factorial up to it, and every product in the denominator of
      `nChooseK`, fits in a 32-bit `int`; `factorial(13)` would not. */
  lemma FactorialsFitInInt(n: nat, k: nat)
    requires k <= n <= 12
    ensures Factorial(n) <= IntMax
    ensures Factorial(k) * Factorial(n - k) <= IntMax
    ensures Factorial(13) > IntMax
  {
    DenominatorBelowFactorial(n, k);
    FactorialMonotone(n, 12);
    FactorialValues();
  }

  /** The denominator of `nChooseK` never exceeds its numerator. */
  lemma DenominatorBelowFactorial(n: nat, k: nat)
    requires k <= n
    ensures Factorial(k) * Factorial(n - k) <= Factorial(n)
  {
    FactorialSplit(n, k);
    BinomPositive(n, k);
    ProductBound(Factorial(n), Binom(n, k), Factorial(k) * Factorial(n - k));
  }

  lemma ProductBound(x: int, q: int, d: int)
    requires q >= 1 && d >= 0 && x == q * d
    ensures d <= x
  {
  }

  lemma FactorialValues()
    ensures Factorial(12) == 479001600
    ensures Factorial(13) == 6227020800
  {
  }

  /** One row of the triangle. `terms` is filled by the constructor and never
      changed afterwards. */
  class PascalRow {
    const terms: seq<int>

    /** `PascalRow()`: the empty row, used when the triangle's vector is
        resized. */
    constructor Empty()
      ensures terms == []
    {
      terms := [];
    }

    /** `PascalRow(nth)`: row `nth` (counted from 1) holds
        `nChooseK(nth - 1, k)` for `k = 0 .. nth - 1`. A row number below 1
        gives no terms, since the loop does not run. Past row 13 `factorial`
        overflows an `int` (see `FactorialsFitInInt`), which is undefined
        behaviour. */
    constructor Nth(nth: int)
      requires nth <= 13
      ensures |terms| == if nth < 0 then 0 else nth
      ensures forall k :: 0 <= k < |terms| ==> terms[k] == NChooseK(nth - 1, k)
    {
      var n := nth - 1;
      var ts: seq<int> := [];
      var k := 0;
      while k <= n
        invariant 0 <= k && (n >= 0 ==> k <= n + 1) && (n < 0 ==> k == 0)
        invariant |ts| == k
        invariant forall j :: 0 <= j < k ==> ts[j] == NChooseK(n, j)
        decreases n + 1 - k
      {
        ts := ts + [NChooseK(n, k)];
        k := k + 1;
      }
      terms := ts;
    }

    /** `termsAsInts`: a copy of the terms. */
    function TermsAsInts(): (r: seq<int>)
      ensures r == terms
    {
      terms
    }

    /** `size`: the number of terms. */
    function Size(): (r: nat)
      ensures r == |terms|
    {
      |terms|
    }
  }

  /** Row `i` (counted from 0) of a triangle, as the rows of a `PascalTriangle`
      hold it: `i + 1` binomial coefficients, starting and ending with 1. */
  lemma RowIsBinomial(row: PascalRow, i: nat)
    requires |row.terms| == i + 1
    requires forall k :: 0 <= k < |row.terms| ==> row.terms[k] == NChooseK(i, k)
    ensures forall k :: 0 <= k <= i ==> row.terms[k] == Binom(i, k)
    ensures row.terms[0] == 1 && row.terms[i] == 1
  {
    BinomDiagonal(i);
  }

  class PascalTriangle {
    const pascalRows: seq<PascalRow>

    /** `PascalTriangle(nRows)`: `nRows` rows, row `i` being `PascalRow(i + 1)`.
        A negative count makes `resize` fail, so the source needs
        `nRows >= 0`; past 13 rows `factorial` overflows. */
    constructor (nRows: nat)
      requires nRows <= 13
      ensures |pascalRows| == nRows
      ensures forall i :: 0 <= i < nRows ==>
        |pascalRows[i].terms| == i + 1 &&
        forall k :: 0 <= k <= i ==> pascalRows[i].terms[k] == Binom(i, k)
    {
      var empty := new PascalRow.Empty();
      var rs: seq<PascalRow> := seq(nRows, _ => empty);
      for i := 0 to nRows
        invariant |rs| == nRows
        invariant forall j :: 0 <= j < i ==>
          |rs[j].terms| == j + 1 &&
          forall k :: 0 <= k <= j ==> rs[j].terms[k] == Binom(j, k)
      {
        var row := new PascalRow.Nth(i + 1);
        RowIsBinomial(row, i);
        rs := rs[i := row];
      }
      pascalRows := rs;
    }
  }
}
