/** Go's ordering of strings. Go compares strings byte-wise; UTF-8 byte order
    coincides with code-point order, so comparing the characters of a Dafny
    `string` element-wise is the same order. Dafny's own `<` on sequences means
    "proper prefix", so the order is defined here. */
module StringOrder {

  /** Go's `a <= b` on strings. */
  predicate LessEq(a: string, b: string)
    decreases |a|
  {
    |a| == 0 || (|b| > 0 && (a[0] < b[0] || (a[0] == b[0] && LessEq(a[1..], b[1..]))))
  }

  /** Go's `a < b` on strings (and `b > a`). */
  predicate Less(a: string, b: string) {
    !LessEq(b, a)
  }

  /** The textbook definition of lexicographic order: `a` is a prefix of `b`,
      or at the first position where they differ `a` has the smaller character. */
  predicate Lexicographic(a: string, b: string) {
    || (|a| <= |b| && a == b[..|a|])
    || exists i | 0 <= i < |a| && i < |b| :: a[..i] == b[..i] && a[i] < b[i]
  }

  lemma {:induction false} LessEqIsLexicographic(a: string, b: string)
    ensures LessEq(a, b) <==> Lexicographic(a, b)
    decreases |a|
  {
    if |a| == 0 || |b| == 0 {
    } else {
      LessEqIsLexicographic(a[1..], b[1..]);
      if LessEq(a, b) {
        if a[0] < b[0] {
          assert a[..0] == b[..0];
        } else if |a[1..]| <= |b[1..]| && a[1..] == b[1..][..|a[1..]|] {
          assert a == b[..|a|];
        } else {
          var i :| 0 <= i < |a[1..]| && i < |b[1..]| && a[1..][..i] == b[1..][..i] && a[1..][i] < b[1..][i];
          assert a[..i + 1] == [a[0]] + a[1..][..i];
          assert b[..i + 1] == [b[0]] + b[1..][..i];
        }
      }
      if Lexicographic(a, b) {
        if |a| <= |b| && a == b[..|a|] {
          assert a[0] == b[0];
          assert a[1..] == b[1..][..|a[1..]|];
        } else {
          var i :| 0 <= i < |a| && i < |b| && a[..i] == b[..i] && a[i] < b[i];
          if i > 0 {
            assert a[0] == a[..i][0] == b[..i][0] == b[0];
            assert a[1..][..i - 1] == a[..i][1..];
            assert b[1..][..i - 1] == b[..i][1..];
          }
        }
      }
    }
  }

  lemma {:induction false} LessEqReflexive(a: string)
    ensures LessEq(a, a)
    decreases |a|
  {
    if |a| > 0 {
      LessEqReflexive(a[1..]);
    }
  }

  lemma {:induction false} LessEqAntisymmetric(a: string, b: string)
    requires LessEq(a, b) && LessEq(b, a)
    ensures a == b
    decreases |a|
  {
    if |a| > 0 {
      LessEqAntisymmetric(a[1..], b[1..]);
      assert a == [a[0]] + a[1..];
      assert b == [b[0]] + b[1..];
    }
  }

  lemma {:induction false} LessEqTransitive(a: string, b: string, c: string)
    requires LessEq(a, b) && LessEq(b, c)
    ensures LessEq(a, c)
    decreases |a|
  {
    if |a| > 0 && a[0] == b[0] && b[0] == c[0] {
      LessEqTransitive(a[1..], b[1..], c[1..]);
    }
  }

  lemma {:induction false} LessEqTotal(a: string, b: string)
    ensures LessEq(a, b) || LessEq(b, a)
    decreases |a|
  {
    if |a| > 0 && |b| > 0 && a[0] == b[0] {
      LessEqTotal(a[1..], b[1..]);
    }
  }

  /** `Less` is the strict part of `LessEq`: Go's `<` means "`<=` and not equal". */
  lemma LessIsStrict(a: string, b: string)
    ensures Less(a, b) <==> LessEq(a, b) && a != b
  {
    LessEqTotal(a, b);
    LessEqReflexive(a);
    if LessEq(a, b) && LessEq(b, a) {
      LessEqAntisymmetric(a, b);
    }
  }
}
