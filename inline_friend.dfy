/** 3_inline_friend.cpp: a Pascal's triangle built row by row from adjacent
    sums, with the decimal-width arithmetic used to centre its entries. */
module InlineFriend {
  import opened Binomial
  import opened MachineWords

  function Pow10(e: nat): (r: nat)
    ensures r >= 1
  {
    if e == 0 then 1 else 10 * Pow10(e - 1)
  }

  /** The character of a decimal digit. */
  function DigitChar(d: nat): (c: char)
    requires d < 10
    ensures '0' <= c <= '9'
    ensures DigitValue(c) == d
  {
    (('0' as int) + d) as char
  }

  function DigitValue(c: char): nat
    requires '0' <= c <= '9'
  {
    (c as int) - ('0' as int)
  }

  /** The decimal digits of a non-negative number, most significant first, with
      no leading zeros: what `os << i` writes for `i >= 0`. The number of
      digits is the one `n` lies between the powers of ten for. */
  function DecimalDigits(n: nat): (s: string)
    ensures |s| >= 1
    ensures forall j :: 0 <= j < |s| ==> '0' <= s[j] <= '9'
    ensures n < Pow10(|s|)
    ensures |s| == 1 || Pow10(|s| - 1) <= n
  {
    if n < 10 then [DigitChar(n)] else DecimalDigits(n / 10) + [DigitChar(n % 10)]
  }

  /** Reads a string of decimal digits back as a number. */
  function ParseDigits(s: string): nat
    requires forall j :: 0 <= j < |s| ==> '0' <= s[j] <= '9'
  {
    if s == [] then 0 else 10 * ParseDigits(s[..|s| - 1]) + DigitValue(s[|s| - 1])
  }

  /** Reading the digits back gives the number. */
  lemma {:induction false} DecimalDigitsRoundTrip(n: nat)
    ensures ParseDigits(DecimalDigits(n)) == n
  {
    var s := DecimalDigits(n);
    if n >= 10 {
      DecimalDigitsRoundTrip(n / 10);
      assert s[..|s| - 1] == DecimalDigits(n / 10);
    }
  }

  /** The text `os << i` writes: a minus sign for negative numbers, then the
      digits of the magnitude. */
  function DecimalText(i: int): (s: string)
    ensures |s| >= 1
  {
    if i < 0 then "-" + DecimalDigits(-i) else DecimalDigits(i)
  }

  /** `numDigits(i)`: the length of `i`'s decimal text. */
  function NumDigits(i: int): (n: nat)
    ensures n >= 1
    ensures i >= 0 ==> i < Pow10(n) && (n == 1 || Pow10(n - 1) <= i)
    ensures i < 0 ==> -i < Pow10(n - 1) && (n == 2 || Pow10(n - 2) <= -i)
  {
    var text := DecimalText(i);
    assert i < 0 ==> |text| == 1 + |DecimalDigits(-i)|;
    |text|
  }

  /** The row `addRow` appends after `row`: entry `k` is the sum of the entries
      `k - 1` and `k` above it, an entry outside the row counting as 0. */
  function AdjacentSums(row: seq<int>): (r: seq<int>)
  {
    seq(|row| + 1, k requires 0 <= k <= |row| =>
      (if k == 0 then 0 else row[k - 1]) + (if k < |row| then row[k] else 0))
  }

  /** Row `i` of Pascal's rule. */
  ghost predicate IsBinomialRow(row: seq<int>, i: nat) {
    |row| == i + 1 && forall k :: 0 <= k <= i ==> row[k] == Binom(i, k)
  }

  /** `addRow` keeps the first and last entries, makes every interior entry the
      sum of the two above it, and so turns row `i` of Pascal's rule into row
      `i + 1`. */
  lemma AdjacentSumsIsNextRow(row: seq<int>, i: nat)
    requires IsBinomialRow(row, i)
    ensures var r := AdjacentSums(row);
      |r| == |row| + 1 && r[0] == row[0] && r[|row|] == row[|row| - 1] &&
      (forall k :: 0 < k < |row| ==> r[k] == row[k - 1] + row[k]) &&
      IsBinomialRow(r, i + 1)
  {
    var r := AdjacentSums(row);
    forall k | 0 <= k <= i + 1
      ensures r[k] == Binom(i + 1, k)
    {
      if k == i + 1 {
        BinomOutside(i, i + 1);
      }
    }
  }

  /** Row `i` of `rows` is row `i` of Pascal's rule, for every `i`: the
      invariant of a `Triangle`. */
  ghost predicate IsTriangle(rows: seq<seq<int>>) {
    |rows| >= 1 && forall i :: 0 <= i < |rows| ==> IsBinomialRow(rows[i], i)
  }

  /** Appending the adjacent sums of the last row keeps a triangle a
      triangle. */
  lemma AddRowKeepsTriangle(rows: seq<seq<int>>)
    requires IsTriangle(rows)
    ensures IsTriangle(rows + [AdjacentSums(rows[|rows| - 1])])
  {
    var n := |rows|;
    var after := rows + [AdjacentSums(rows[n - 1])];
    AdjacentSumsIsNextRow(rows[n - 1], n - 1);
    forall j | 0 <= j < |after|
      ensures IsBinomialRow(after[j], j)
    {
      if j < n {
        assert after[j] == rows[j];
      }
    }
  }

  /** A triangle of at most 34 rows holds only values of an `int`. */
  lemma TriangleFitsInInt(rows: seq<seq<int>>)
    requires IsTriangle(rows) && |rows| <= 34
    ensures forall i, j :: 0 <= i < |rows| && 0 <= j < |rows[i]| ==> InInt(rows[i][j])
  {
    forall i, j | 0 <= i < |rows| && 0 <= j < |rows[i]|
      ensures InInt(rows[i][j])
    {
      assert IsBinomialRow(rows[i], i);
      BinomFitsInInt(i, j);
    }
  }

  lemma LastRowNonEmpty(rows: seq<seq<int>>)
    requires IsTriangle(rows)
    ensures |rows[|rows| - 1]| >= 1
  {
    assert IsBinomialRow(rows[|rows| - 1], |rows| - 1);
  }

  /** The largest entry of a non-empty row, as `*max_element` gives it. */
  function MaxOf(s: seq<int>): (m: int)
    requires |s| >= 1
    ensures m in s
    ensures forall j :: 0 <= j < |s| ==> s[j] <= m
  {
    if |s| == 1 then s[0]
    else
      var rest := MaxOf(s[1..]);
      if s[0] >= rest then s[0] else rest
  }

  function Spaces(n: nat): (s: string)
    ensures |s| == n && forall j :: 0 <= j < n ==> s[j] == ' '
  {
    seq(n, _ => ' ')
  }

  class Triangle {
    var rows: seq<seq<int>>
    var eltSize: nat

    /** Every row `i` is row `i` of Pascal's rule: `i + 1` entries, the first
        and the last being 1. */
    ghost predicate Valid()
      reads this
    {
      IsTriangle(rows)
    }

    /** `addRow`: appends the adjacent sums of the last row. Each sum
        `previous + current` is an `int` addition, whose overflow is undefined
        behaviour, so every entry of the new row must fit in an `int`. */
    method AddRow()
      requires |rows| >= 1
      requires var sums := AdjacentSums(rows[|rows| - 1]);
        forall j :: 0 <= j < |sums| ==> InInt(sums[j])
      modifies this
      ensures rows == old(rows) + [AdjacentSums(old(rows[|rows| - 1]))]
      ensures eltSize == old(eltSize)
    {
      var row := rows[|rows| - 1];
      var result: seq<int> := [];
      var previous := 0;
      for k := 0 to |row|
        invariant |result| == k
        invariant previous == if k == 0 then 0 else row[k - 1]
        invariant forall j :: 0 <= j < k ==> result[j] == AdjacentSums(row)[j]
      {
        var current := row[k];
        result := result + [previous + current];
        previous := current;
      }
      result := result + [previous];
      assert result == AdjacentSums(row);
      rows := rows + [result];
    }

    /** `maxElement`: the largest entry of the last row. */
    function MaxElement(): (m: int)
      requires |rows| >= 1 && |rows[|rows| - 1]| >= 1
      reads this
      ensures m in rows[|rows| - 1]
      ensures var last := rows[|rows| - 1]; forall j :: 0 <= j < |last| ==> last[j] <= m
    {
      MaxOf(rows[|rows| - 1])
    }

    /** `centeredInt(i)`: the decimal text of `i` behind half of the space
        left over in a field of `eltSize` characters. */
    function CenteredInt(i: int): (s: string)
      requires NumDigits(i) <= eltSize
      reads this
      ensures |DecimalText(i)| <= |s| <= eltSize
      ensures s[|s| - |DecimalText(i)|..] == DecimalText(i)
      ensures forall j :: 0 <= j < |s| - |DecimalText(i)| ==> s[j] == ' '
      ensures var pad := |s| - |DecimalText(i)|;
        2 * pad <= eltSize - NumDigits(i) < 2 * pad + 2
    {
      var str := DecimalText(i);
      Spaces((eltSize - |str|) / 2) + str
    }

    /** `Triangle(n)`: starts from the row `[1]` and adds rows until there are
        `n` of them (one when `n <= 1`); `eltSize` is the width of the largest
        entry of the last row. Row 34 (counted from 0) would hold C(34, 17),
        which overflows an `int`, so at most 34 rows are built. */
    constructor (n: int)
      requires n <= 34
      ensures Valid()
      ensures |rows| == if n < 1 then 1 else n
      ensures forall i, j :: 0 <= i < |rows| && 0 <= j < |rows[i]| ==> InInt(rows[i][j])
      ensures eltSize == NumDigits(MaxOf(rows[|rows| - 1]))
    {
      rows := [[1]];
      new;
      var i := 1;
      while i < n
        invariant 1 <= i && (if n >= 1 then i <= n else i == 1)
        invariant |rows| == i
        invariant Valid()
        decreases n - i
      {
        ghost var before := rows;
        AddRowKeepsTriangle(before);
        ghost var after := before + [AdjacentSums(before[|before| - 1])];
        TriangleFitsInInt(after);
        assert after[|before|] == AdjacentSums(before[|before| - 1]);
        AddRow();
        assert rows == before + [AdjacentSums(before[|before| - 1])];
        i := i + 1;
      }
      TriangleFitsInInt(rows);
      LastRowNonEmpty(rows);
      var largest := MaxElement();
      eltSize := NumDigits(largest);
    }
  }
}
