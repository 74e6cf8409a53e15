/** Euclid's algorithm as the repository writes it, in two spellings: one with
    C++'s `%` and one with the remainder written out as `a - b*(a/b)`. C++ integer
    division truncates toward zero, so both are modelled with truncating
    operators rather than Dafny's Euclidean ones. */
module Gcd {
  import opened MachineWords

  function Abs(x: int): nat { if x < 0 then -x else x }

  /** Dividing naturals gives a natural. */
  lemma DivNonNegative(n: nat, d: nat)
    requires d > 0
    ensures n / d >= 0
  {
  }

  /** The signs of products of naturals and their negations. */
  lemma MulSigns(x: int, y: int)
    requires x >= 0 && y >= 0
    ensures x * y >= 0
    ensures (-x) * y == -(x * y) && x * (-y) == -(x * y) && (-x) * (-y) == x * y
  {
  }

  /** C++ `a / b` on integers: the quotient of the magnitudes, negative when
      exactly one operand is (truncation toward zero). */
  function TruncDiv(a: int, b: int): (q: int)
    requires b != 0
    ensures Abs(q) == Abs(a) / Abs(b)
    ensures q < 0 ==> (a < 0) != (b < 0)
    ensures a >= 0 && b > 0 ==> q == a / b
  {
    var m := Abs(a) / Abs(b);
    DivNonNegative(Abs(a), Abs(b));
    if (a < 0) == (b < 0) then m else -m
  }

  /** C++ `a % b`: the remainder of the magnitudes, with the sign of `a`. */
  function TruncRem(a: int, b: int): (r: int)
    requires b != 0
    ensures Abs(r) < Abs(b)
    ensures r == 0 || (r < 0) == (a < 0)
    ensures a >= 0 && b > 0 ==> r == a % b
  {
    if a < 0 then -(Abs(a) % Abs(b)) else Abs(a) % Abs(b)
  }

  /** The two operators go together as the C++ standard demands:
      `a == b * (a / b) + a % b`, and `b * (a / b)` is the largest multiple of
      `b` not exceeding `a` in magnitude. */
  lemma TruncDivIsQuotient(a: int, b: int)
    requires b != 0
    ensures a == b * TruncDiv(a, b) + TruncRem(a, b)
    ensures Abs(b * TruncDiv(a, b)) <= Abs(a) < Abs(b * TruncDiv(a, b)) + Abs(b)
  {
    var qa := Abs(a) / Abs(b);
    DivNonNegative(Abs(a), Abs(b));
    MulSigns(Abs(b), qa);
    assert Abs(a) == Abs(b) * qa + Abs(a) % Abs(b);
  }

  /** The remainder as 5_SFINAE_enable_if.cpp, 5_templates_w_concepts.cpp and
      checklist.cpp write it, `a - b*(a/b)`: the same as C++ `a % b`. */
  function RemBySubtraction(a: int, b: int): (r: int)
    requires b != 0
    ensures r == TruncRem(a, b)
  {
    TruncDivIsQuotient(a, b);
    a - b * TruncDiv(a, b)
  }

  /** `gcd` of 5_constexpr.cpp: `b == 0 ? a : gcd(b, a % b)`. The truncated
      remainder is smaller than `b` in absolute value, so the recursion ends for
      every pair of integers, negative ones included. The result is 0 only for
      `gcd(0, 0)`, and it is non-negative for non-negative arguments. */
  function GcdRem(a: int, b: int): (r: int)
    ensures r == 0 <==> a == 0 && b == 0
    ensures a >= 0 && b >= 0 ==> r >= 0
    decreases Abs(b)
  {
    if b == 0 then a else GcdRem(b, TruncRem(a, b))
  }

  /** `gcd` of the other three files: the same recursion with the remainder
      written `a - b*(a/b)`. On every pair of integers it computes what the
      `%` spelling computes. */
  function GcdSub(a: int, b: int): (r: int)
    ensures r == GcdRem(a, b)
    decreases Abs(b)
  {
    if b == 0 then a else GcdSub(b, RemBySubtraction(a, b))
  }

  /** `square` of 5_constexpr.cpp: an `int` product, whose overflow is
      undefined behaviour, so the square must fit in an `int`. */
  function Square(x: int): (r: int)
    requires InInt(x * x)
    ensures r >= 0
    ensures r == 0 <==> x == 0
    ensures Abs(x) <= r
  {
    if x == 0 then 0 else
      assert Abs(x) * Abs(x) >= Abs(x);
      assert x * x == Abs(x) * Abs(x);
      x * x
  }

  lemma MulMonotone(a: int, b: int, c: int)
    requires 0 <= a <= b && c >= 0
    ensures a * c <= b * c
  {
  }

  /** The arguments `square` is defined for: exactly those of magnitude at
      most 46340. */
  lemma SquareFitsInInt(x: int)
    ensures InInt(x * x) <==> Abs(x) <= 46340
  {
    var a := Abs(x);
    assert x * x == a * a;
    if a <= 46340 {
      MulMonotone(a, 46340, a);
      MulMonotone(a, 46340, 46340);
    } else {
      MulMonotone(46341, a, a);
      MulMonotone(46341, a, 46341);
    }
  }

  /** `d` divides `x`. */
  ghost predicate Divides(d: int, x: int) {
    exists k :: Times(d, k) == x
  }

  function Times(a: int, b: int): int { a * b }

  lemma DividesZero(d: int)
    ensures Divides(d, 0)
  {
    assert Times(d, 0) == 0;
  }

  lemma DividesSelf(d: int)
    ensures Divides(d, d)
  {
    assert Times(d, 1) == d;
  }

  lemma MulAssociates(x: int, y: int, z: int)
    ensures x * (y * z) == (x * y) * z
  {
  }

  lemma MulDistributes(x: int, y: int, z: int)
    ensures x * (y + z) == x * y + x * z
  {
  }

  /** If `d` divides `b` and `r`, it divides `b * q + r`, and conversely if it
      divides `b` and `b * q + r`, it divides `r`. */
  lemma DividesLinear(d: int, b: int, q: int, r: int)
    requires Divides(d, b)
    ensures Divides(d, r) <==> Divides(d, b * q + r)
  {
    var kb :| Times(d, kb) == b;
    MulAssociates(d, kb, q);
    if Divides(d, r) {
      var kr :| Times(d, kr) == r;
      MulDistributes(d, kb * q, kr);
      assert Times(d, kb * q + kr) == b * q + r;
    }
    if Divides(d, b * q + r) {
      var ka :| Times(d, ka) == b * q + r;
      MulDistributes(d, ka, -(kb * q));
      assert d * -(kb * q) == -(d * (kb * q));
      assert Times(d, ka - kb * q) == r;
    }
  }

  /** Euclid's step keeps the set of common divisors. */
  lemma StepKeepsDivisors(a: int, b: int, d: int)
    requires b != 0
    ensures Divides(d, a) && Divides(d, b) <==> Divides(d, b) && Divides(d, TruncRem(a, b))
  {
    var q := TruncDiv(a, b);
    TruncDivIsQuotient(a, b);
    if Divides(d, b) {
      DividesLinear(d, b, q, TruncRem(a, b));
    }
  }

  /** The result is a common divisor of both arguments, and every common divisor
      of the arguments divides it: it is a greatest common divisor (up to sign,
      for negative arguments). */
  lemma {:induction false} GcdIsGreatestCommonDivisor(a: int, b: int, d: int)
    ensures Divides(GcdRem(a, b), a) && Divides(GcdRem(a, b), b)
    ensures Divides(d, a) && Divides(d, b) ==> Divides(d, GcdRem(a, b))
    decreases Abs(b)
  {
    if b == 0 {
      DividesSelf(a);
      DividesZero(a);
    } else {
      var g := GcdRem(a, b);
      GcdIsGreatestCommonDivisor(b, TruncRem(a, b), d);
      StepKeepsDivisors(a, b, g);
      StepKeepsDivisors(a, b, d);
    }
  }

  /** The worked examples: `gcd(34, 55)` of 5_constexpr.cpp, `gcd(4, 6)` of
      5_SFINAE_enable_if.cpp and `square(3)` used as a template argument. */
  lemma DocumentedValues()
    ensures GcdRem(34, 55) == 1
    ensures GcdSub(4, 6) == 2
    ensures Square(3) == 9
  {
    assert GcdRem(5, 3) == 1;
    assert GcdRem(34, 21) == 1;
  }
}
