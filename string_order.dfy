/** The order `std::string`'s `operator<` puts strings in, which `std::map`
    and `std::set` keep their keys in: character by character, a proper prefix
    coming first. Characters compare by code, as `std::char_traits<char>`
    compares them. */
module StringOrder {

  predicate LexLess(a: string, b: string) {
    if a == [] then b != []
    else if b == [] then false
    else if a[0] != b[0] then a[0] < b[0]
    else LexLess(a[1..], b[1..])
  }

  /** The definition by the first difference: `a` comes before `b` when it is
      a proper prefix of `b`, or when at the first position where they differ
      `a` has the smaller character. */
  ghost predicate ComesFirst(a: string, b: string) {
    exists i :: 0 <= i <= |a| && i <= |b| && a[..i] == b[..i] &&
      ((i == |a| && i < |b|) || (i < |a| && i < |b| && a[i] < b[i]))
  }

  lemma {:induction false} LexLessIsFirstDifference(a: string, b: string)
    ensures LexLess(a, b) <==> ComesFirst(a, b)
  {
    if LexLess(a, b) {
      LexLessComesFirst(a, b);
    }
    if ComesFirst(a, b) {
      ComesFirstLexLess(a, b);
    }
  }

  lemma {:induction false} LexLessComesFirst(a: string, b: string)
    requires LexLess(a, b)
    ensures ComesFirst(a, b)
  {
    if a == [] || a[0] != b[0] {
      assert a[..0] == b[..0];
    } else {
      LexLessComesFirst(a[1..], b[1..]);
      var i :| 0 <= i <= |a[1..]| && i <= |b[1..]| && a[1..][..i] == b[1..][..i] &&
        ((i == |a[1..]| && i < |b[1..]|) || (i < |a[1..]| && i < |b[1..]| && a[1..][i] < b[1..][i]));
      assert a[..i + 1] == [a[0]] + a[1..][..i];
      assert b[..i + 1] == [b[0]] + b[1..][..i];
    }
  }

  lemma {:induction false} ComesFirstLexLess(a: string, b: string)
    requires ComesFirst(a, b)
    ensures LexLess(a, b)
  {
    var i :| 0 <= i <= |a| && i <= |b| && a[..i] == b[..i] &&
      ((i == |a| && i < |b|) || (i < |a| && i < |b| && a[i] < b[i]));
    if a != [] && b != [] && a[0] == b[0] {
      assert i >= 1;
      assert a[1..][..i - 1] == a[..i][1..] == b[..i][1..] == b[1..][..i - 1];
      ComesFirstLexLess(a[1..], b[1..]);
    } else if a != [] && b != [] {
      assert i == 0;
    }
  }

  lemma {:induction false} LexLessIrreflexive(a: string)
    ensures !LexLess(a, a)
  {
    if a != [] {
      LexLessIrreflexive(a[1..]);
    }
  }

  lemma {:induction false} LexLessAsymmetric(a: string, b: string)
    ensures LexLess(a, b) ==> !LexLess(b, a)
  {
    if a != [] && b != [] && a[0] == b[0] {
      LexLessAsymmetric(a[1..], b[1..]);
    }
  }

  lemma {:induction false} LexLessTransitive(a: string, b: string, c: string)
    requires LexLess(a, b) && LexLess(b, c)
    ensures LexLess(a, c)
  {
    if a != [] && a[0] == b[0] && b[0] == c[0] {
      LexLessTransitive(a[1..], b[1..], c[1..]);
    }
  }

  /** Any two different strings are ordered one way or the other. */
  lemma {:induction false} LexLessTotal(a: string, b: string)
    ensures a == b || LexLess(a, b) || LexLess(b, a)
  {
    if a != [] && b != [] && a[0] == b[0] {
      LexLessTotal(a[1..], b[1..]);
      if a[1..] == b[1..] {
        assert a == [a[0]] + a[1..] && b == [b[0]] + b[1..];
      }
    }
  }

  /** `*s.begin()` of a non-empty `std::set<std::string>`: its least element.
      Found by one pass over the set. */
  method Least(s: set<string>) returns (m: string)
    requires s != {}
    ensures m in s
    ensures forall x :: x in s && x != m ==> LexLess(m, x)
  {
    m :| m in s;
    var rest := s - {m};
    while rest != {}
      invariant m in s && rest <= s && m !in rest
      invariant forall x :: x in s && x !in rest && x != m ==> LexLess(m, x)
      decreases rest
    {
      var y :| y in rest;
      LexLessTotal(y, m);
      if LexLess(y, m) {
        forall x | x in s && x !in rest && x != y
          ensures LexLess(y, x)
        {
          if x != m {
            LexLessTransitive(y, m, x);
          }
        }
        m := y;
      }
      rest := rest - {y};
    }
  }

  /** A strictly increasing sequence: the order `std::map` and `std::set` are
      iterated in. */
  ghost predicate StrictlySorted(s: seq<string>) {
    forall i, j :: 0 <= i < j < |s| ==> LexLess(s[i], s[j])
  }
}
