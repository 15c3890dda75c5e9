/** Generic facts about sequences used by the proofs. Stating them over an
    arbitrary element type keeps the solver from looking inside the rows. */
module Sequences {

  function Reverse<T>(s: seq<T>): (r: seq<T>)
    ensures |r| == |s|
    ensures forall i | 0 <= i < |s| :: r[i] == s[|s| - 1 - i]
    ensures multiset(r) == multiset(s)
  {
    if |s| == 0 then []
    else
      assert s == [s[0]] + s[1..];
      Reverse(s[1..]) + [s[0]]
  }

  lemma ReverseReverse<T>(s: seq<T>)
    ensures Reverse(Reverse(s)) == s
  {
    var r := Reverse(Reverse(s));
    assert forall i | 0 <= i < |s| :: r[i] == Reverse(s)[|s| - 1 - i] == s[i];
  }

  lemma ReverseSingle<T>(h: seq<T>, s: seq<T>)
    requires |h| <= 1
    ensures Reverse(h + s) == Reverse(s) + h
  {
    if |h| == 1 {
      assert (h + s)[1..] == s;
    } else {
      assert h + s == s;
    }
  }

  lemma MultisetCons<T>(s: seq<T>)
    requires |s| > 0
    ensures multiset(s) == multiset{s[0]} + multiset(s[1..])
  {
    assert s == [s[0]] + s[1..];
  }

  /** Regrouping a four-part concatenation. Stated over any element type, so
      that the proofs using it need not look inside nested sequences. */
  lemma AppendRegroup<T>(a: seq<T>, b: seq<T>, c: seq<T>, d: seq<T>)
    ensures (a + b) + c + d == a + (b + c + d)
  {
  }

  /** Moving `c` to the front of `a + b + (c + d)` is harmless when `c` or
      both of `a` and `b` are empty. */
  lemma MoveEmptyFront<T>(a: seq<T>, b: seq<T>, c: seq<T>, d: seq<T>)
    requires (a == [] && b == []) || c == []
    ensures a + b + (c + d) == c + (a + b + d)
  {
  }

  /** Rewriting `a` through `b == p + (h + t)` and `q == p + h` gives `q + t`. */
  lemma RewriteAppend<T>(a: seq<T>, b: seq<T>, p: seq<T>, h: seq<T>, t: seq<T>, q: seq<T>)
    requires a == b && b == p + (h + t) && q == p + h
    ensures a == q + t
  {
  }

  /** Two non-empty sequences are equal exactly when heads and tails are. */
  lemma ConsEqual<T>(x: T, y: T, xs: seq<T>, ys: seq<T>)
    requires [x] + xs == [y] + ys
    ensures x == y && xs == ys
  {
    assert xs == ([x] + xs)[1..];
    assert ys == ([y] + ys)[1..];
  }
}
