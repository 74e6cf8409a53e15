/** Binomial coefficients defined by Pascal's rule. Both Pascal's-triangle
    programs of the repository are proved against this one definition. */
module Binomial {
  import opened MachineWords

  /** The entry in row `n`, column `k` of Pascal's triangle (0 outside it). */
  function Binom(n: nat, k: nat): nat
    decreases n
  {
    if k == 0 then 1
    else if n == 0 then 0
    else Binom(n - 1, k - 1) + Binom(n - 1, k)
  }

  lemma {:induction false} BinomOutside(n: nat, k: nat)
    requires k > n
    ensures Binom(n, k) == 0
    decreases n
  {
    if n > 0 {
      BinomOutside(n - 1, k - 1);
      BinomOutside(n - 1, k);
    }
  }

  lemma {:induction false} BinomDiagonal(n: nat)
    ensures Binom(n, n) == 1
  {
    if n > 0 {
      BinomDiagonal(n - 1);
      BinomOutside(n - 1, n);
    }
  }

  lemma {:induction false} BinomPositive(n: nat, k: nat)
    requires k <= n
    ensures Binom(n, k) >= 1
    decreases n
  {
    if k > 0 {
      if k == n { BinomDiagonal(n); } else { BinomPositive(n - 1, k); }
    }
  }

  /* The first eight rows, 1 / 1 1 / 1 2 1 / ... / 1 7 21 35 35 21 7 1, as
     the comment of `drawFancy` in ex_2_pascal_oo.cpp draws them; each row is
     computed from the previous one. */
  lemma RowValues0()
    ensures Binom(0, 0) == 1 && Binom(0, 1) == 0
  {
  }
  lemma RowValues1()
    ensures Binom(1, 0) == 1 && Binom(1, 1) == 1 && Binom(1, 2) == 0
  {
    RowValues0();
  }
  lemma RowValues2()
    ensures Binom(2, 0) == 1 && Binom(2, 1) == 2 && Binom(2, 2) == 1 && Binom(2, 3) == 0
  {
    RowValues1();
  }
  lemma RowValues3()
    ensures Binom(3, 0) == 1 && Binom(3, 1) == 3 && Binom(3, 2) == 3 && Binom(3, 3) == 1 && Binom(3, 4) == 0
  {
    RowValues2();
  }
  lemma RowValues4()
    ensures Binom(4, 0) == 1 && Binom(4, 1) == 4 && Binom(4, 2) == 6 && Binom(4, 3) == 4 && Binom(4, 4) == 1 && Binom(4, 5) == 0
  {
    RowValues3();
  }
  lemma RowValues5()
    ensures Binom(5, 0) == 1 && Binom(5, 1) == 5 && Binom(5, 2) == 10 && Binom(5, 3) == 10 && Binom(5, 4) == 5 && Binom(5, 5) == 1 && Binom(5, 6) == 0
  {
    RowValues4();
  }
  lemma RowValues6()
    ensures Binom(6, 0) == 1 && Binom(6, 1) == 6 && Binom(6, 2) == 15 && Binom(6, 3) == 20 && Binom(6, 4) == 15 && Binom(6, 5) == 6 && Binom(6, 6) == 1 && Binom(6, 7) == 0
  {
    RowValues5();
  }
  lemma RowValues7()
    ensures Binom(7, 0) == 1 && Binom(7, 1) == 7 && Binom(7, 2) == 21 && Binom(7, 3) == 35 && Binom(7, 4) == 35 && Binom(7, 5) == 21 && Binom(7, 6) == 7 && Binom(7, 7) == 1 && Binom(7, 8) == 0
  {
    RowValues6();
  }

  /* Rows 8 and 9, the start of the bound below. */
  lemma RowValues8()
    ensures Binom(8, 0) == 1 && Binom(8, 1) == 8 && Binom(8, 2) == 28 && Binom(8, 3) == 56 && Binom(8, 4) == 70
    ensures Binom(8, 5) == 56 && Binom(8, 6) == 28 && Binom(8, 7) == 8 && Binom(8, 8) == 1 && Binom(8, 9) == 0
  {
    RowValues7();
  }
  lemma RowValues9()
    ensures Binom(9, 0) == 1 && Binom(9, 1) == 9 && Binom(9, 2) == 36 && Binom(9, 3) == 84 && Binom(9, 4) == 126
    ensures Binom(9, 5) == 126 && Binom(9, 6) == 84 && Binom(9, 7) == 36 && Binom(9, 8) == 9 && Binom(9, 9) == 1
  {
    RowValues8();
  }

  /** An entry never shrinks from one row to the next. */
  lemma BinomGrows(n: nat, k: nat)
    ensures Binom(n, k) <= Binom(n + 1, k)
  {
  }

  /** A bound on every entry of row `n`: the largest entry of row 9, doubled
      for every row after it (each entry is the sum of two entries above). */
  function RowBound(n: nat): nat {
    if n <= 9 then 126 else 2 * RowBound(n - 1)
  }

  /** No entry of row 9 exceeds 126. */
  lemma Row9Bound(k: nat)
    ensures Binom(9, k) <= 126
  {
    if k > 9 {
      BinomOutside(9, k);
    } else {
      RowValues9();
      assert k == 0 || k == 1 || k == 2 || k == 3 || k == 4 || k == 5 || k == 6 || k == 7 || k == 8 || k == 9;
    }
  }

  /** Rows 0 to 9 stay within row 9's largest entry. */
  lemma {:induction false} UpToRow9(n: nat, k: nat)
    requires n <= 9
    ensures Binom(n, k) <= 126
    decreases 9 - n
  {
    if n == 9 {
      Row9Bound(k);
    } else {
      BinomGrows(n, k);
      UpToRow9(n + 1, k);
    }
  }

  lemma {:induction false} BinomBelowRowBound(n: nat, k: nat)
    ensures Binom(n, k) <= RowBound(n)
  {
    if n <= 9 {
      UpToRow9(n, k);
    } else if k > 0 {
      BinomBelowRowBound(n - 1, k - 1);
      BinomBelowRowBound(n - 1, k);
      assert Binom(n, k) == Binom(n - 1, k - 1) + Binom(n - 1, k);
      assert RowBound(n) == 2 * RowBound(n - 1);
    } else {
      RowBoundGrows(9, n);
    }
  }

  lemma {:induction false} RowBoundGrows(m: nat, n: nat)
    requires m <= n
    ensures RowBound(m) <= RowBound(n)
    decreases n - m
  {
    if m < n {
      RowBoundGrows(m + 1, n);
    }
  }

  /** Every entry of rows 0 to 33 fits in a 32-bit `int` (row 34 holds
      C(34, 17) = 2333606220, which does not). */
  lemma BinomFitsInInt(n: nat, k: nat)
    requires n <= 33
    ensures Binom(n, k) <= IntMax
  {
    BinomBelowRowBound(n, k);
    RowBoundGrows(n, 33);
    RowBound33();
  }

  lemma RowBound33()
    ensures RowBound(33) == 2113929216
  {
    assert RowBound(21) == 516096;
  }
}
