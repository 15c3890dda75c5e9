/** Rows of the table and orderings of sequences of rows by one key field. */
module Rows {
  import opened StringOrder
  import opened Sequences

  /** One input record: the comma-separated fields of one line. */
  type Row = seq<string>

  /** Every row has a field at index `f`, so `row[f]` does not panic. */
  predicate Keyed(s: seq<Row>, f: nat) {
    forall i | 0 <= i < |s| :: f < |s[i]|
  }

  /** The comparison handed to `sort.Slice`: Go's `x[f] < y[f]`, or
      `x[f] > y[f]` when the order is reversed. */
  predicate KeyLess(x: Row, y: Row, f: nat, reverse: bool)
    requires f < |x| && f < |y|
  {
    if reverse then Less(y[f], x[f]) else Less(x[f], y[f])
  }

  /** `s` is sorted with respect to `KeyLess`: no row is "less" than a row
      before it. This is what `sort.Slice` promises of its result; with
      `reverse == false` it reads `s[i][f] <= s[j][f]` for every `i < j`. */
  predicate Ordered(s: seq<Row>, f: nat, reverse: bool)
    requires Keyed(s, f)
  {
    forall i, j | 0 <= i < j < |s| :: !KeyLess(s[j], s[i], f, reverse)
  }

  /** Rows that share a key are the same row; pairwise-distinct keys are the
      common special case. Under it a sorted order is unique. */
  predicate KeyIdentifiesRow(s: seq<Row>, f: nat)
    requires Keyed(s, f)
  {
    forall i, j | 0 <= i < |s| && 0 <= j < |s| && s[i][f] == s[j][f] :: s[i] == s[j]
  }

  /** The rows of `s` whose field `f` is `k`, in their order in `s`. */
  function RowsWithKey(s: seq<Row>, f: nat, k: string): seq<Row> {
    if |s| == 0 then []
    else (if f < |s[0]| && s[0][f] == k then [s[0]] else []) + RowsWithKey(s[1..], f, k)
  }

  lemma KeyedPermutation(a: seq<Row>, b: seq<Row>, f: nat)
    requires multiset(a) == multiset(b) && Keyed(b, f)
    ensures Keyed(a, f)
  {
    forall i | 0 <= i < |a|
      ensures f < |a[i]|
    {
      assert a[i] in multiset(b);
    }
  }

  /** "Rows sharing a key are identical" depends only on which rows occur. */
  lemma KeyIdentifiesRowPermutation(a: seq<Row>, b: seq<Row>, f: nat)
    requires multiset(a) == multiset(b) && Keyed(b, f) && KeyIdentifiesRow(b, f)
    ensures Keyed(a, f) && KeyIdentifiesRow(a, f)
  {
    KeyedPermutation(a, b, f);
    forall i, j | 0 <= i < |a| && 0 <= j < |a| && a[i][f] == a[j][f]
      ensures a[i] == a[j]
    {
      assert a[i] in multiset(b) && a[j] in multiset(b);
      var p :| 0 <= p < |b| && b[p] == a[i];
      var q :| 0 <= q < |b| && b[q] == a[j];
    }
  }

  /** Reversing a sorted sequence sorts it in the opposite direction. */
  lemma ReverseOrdered(s: seq<Row>, f: nat, reverse: bool)
    requires Keyed(s, f) && Ordered(s, f, reverse)
    ensures Keyed(Reverse(s), f) && Ordered(Reverse(s), f, !reverse)
  {
    var r := Reverse(s);
    forall i, j | 0 <= i < j < |r|
      ensures !KeyLess(r[j], r[i], f, !reverse)
    {
      assert r[j] == s[|s| - 1 - j] && r[i] == s[|s| - 1 - i];
    }
  }

  /** Two sorted arrangements of the same rows coincide when no two different
      rows share a key: the sort result does not depend on the algorithm. */
  lemma {:induction false} OrderedUnique(a: seq<Row>, b: seq<Row>, f: nat, reverse: bool)
    requires Keyed(a, f) && Keyed(b, f)
    requires Ordered(a, f, reverse) && Ordered(b, f, reverse)
    requires multiset(a) == multiset(b)
    requires KeyIdentifiesRow(a, f)
    ensures a == b
    decreases |a|
  {
    assert |a| == |multiset(a)| == |multiset(b)| == |b|;
    if |a| > 0 {
      OrderedHeads(a, b, f, reverse);
      assert multiset(a[1..]) == multiset(a) - multiset{a[0]} by {
        assert a == [a[0]] + a[1..];
      }
      assert multiset(b[1..]) == multiset(b) - multiset{b[0]} by {
        assert b == [b[0]] + b[1..];
      }
      OrderedTail(a, f, reverse);
      OrderedTail(b, f, reverse);
      OrderedUnique(a[1..], b[1..], f, reverse);
      assert a == [a[0]] + a[1..];
      assert b == [b[0]] + b[1..];
    }
  }

  /** The first rows of two sorted arrangements of the same rows agree. */
  lemma OrderedHeads(a: seq<Row>, b: seq<Row>, f: nat, reverse: bool)
    requires Keyed(a, f) && Keyed(b, f)
    requires Ordered(a, f, reverse) && Ordered(b, f, reverse)
    requires multiset(a) == multiset(b) && |a| > 0
    requires KeyIdentifiesRow(a, f)
    ensures |b| > 0 && a[0] == b[0]
  {
    assert |a| == |multiset(a)| == |multiset(b)| == |b|;
    assert b[0] in multiset(a) && a[0] in multiset(b);
    var i :| 0 <= i < |a| && a[i] == b[0];
    var j :| 0 <= j < |b| && b[j] == a[0];
    LessEqReflexive(a[0][f]);
    assert !KeyLess(a[i], a[0], f, reverse);
    assert !KeyLess(b[j], b[0], f, reverse);
    if reverse {
      LessEqAntisymmetric(b[0][f], a[0][f]);
    } else {
      LessEqAntisymmetric(a[0][f], b[0][f]);
    }
  }

  lemma OrderedTail(s: seq<Row>, f: nat, reverse: bool)
    requires Keyed(s, f) && Ordered(s, f, reverse) && |s| > 0
    ensures Keyed(s[1..], f) && Ordered(s[1..], f, reverse)
    ensures KeyIdentifiesRow(s, f) ==> KeyIdentifiesRow(s[1..], f)
  {
  }

  lemma {:induction false} RowsWithKeyConcat(a: seq<Row>, b: seq<Row>, f: nat, k: string)
    ensures RowsWithKey(a + b, f, k) == RowsWithKey(a, f, k) + RowsWithKey(b, f, k)
    decreases |a|
  {
    if |a| > 0 {
      assert (a + b)[0] == a[0];
      assert (a + b)[1..] == a[1..] + b;
      RowsWithKeyConcat(a[1..], b, f, k);
      calc {
        RowsWithKey(a + b, f, k);
        (if f < |a[0]| && a[0][f] == k then [a[0]] else []) + RowsWithKey(a[1..] + b, f, k);
        (if f < |a[0]| && a[0][f] == k then [a[0]] else []) + (RowsWithKey(a[1..], f, k) + RowsWithKey(b, f, k));
        ((if f < |a[0]| && a[0][f] == k then [a[0]] else []) + RowsWithKey(a[1..], f, k)) + RowsWithKey(b, f, k);
        RowsWithKey(a, f, k) + RowsWithKey(b, f, k);
      }
    } else {
      assert a + b == b;
    }
  }

  lemma {:induction false} RowsWithKeyNone(s: seq<Row>, f: nat, k: string)
    requires Keyed(s, f)
    requires forall i | 0 <= i < |s| :: s[i][f] != k
    ensures RowsWithKey(s, f, k) == []
    decreases |s|
  {
    if |s| > 0 {
      RowsWithKeyNone(s[1..], f, k);
    }
  }

  lemma {:induction false} RowsWithKeyAll(s: seq<Row>, f: nat, k: string)
    requires Keyed(s, f)
    requires forall i | 0 <= i < |s| :: s[i][f] == k
    ensures RowsWithKey(s, f, k) == s
    decreases |s|
  {
    if |s| > 0 {
      RowsWithKeyAll(s[1..], f, k);
      assert s == [s[0]] + s[1..];
    }
  }

  /** Every row the filter keeps occurs in `s` and has key `k`. */
  lemma {:induction false} RowsWithKeyMember(s: seq<Row>, f: nat, k: string, x: Row)
    requires x in RowsWithKey(s, f, k)
    ensures x in s && f < |x| && x[f] == k
    decreases |s|
  {
    if x != s[0] || !(f < |s[0]| && s[0][f] == k) {
      RowsWithKeyMember(s[1..], f, k, x);
    }
  }

  /** A sorted sequence is determined by its rows of each key: two sorted
      sequences that agree key by key, including the order of equal-key rows,
      are equal. */
  lemma {:induction false} OrderedByKeys(a: seq<Row>, b: seq<Row>, f: nat, reverse: bool)
    requires Keyed(a, f) && Keyed(b, f)
    requires Ordered(a, f, reverse) && Ordered(b, f, reverse)
    requires forall k :: RowsWithKey(a, f, k) == RowsWithKey(b, f, k)
    ensures a == b
    decreases |a| + |b|
  {
    if |a| == 0 && |b| > 0 {
      RowsWithKeyHead(b, f);
    } else if |a| > 0 && |b| == 0 {
      RowsWithKeyHead(a, f);
    } else if |a| > 0 {
      OrderedHeadsByKeys(a, b, f, reverse);
      var ka := a[0][f];
      forall k
        ensures RowsWithKey(a[1..], f, k) == RowsWithKey(b[1..], f, k)
      {
        assert RowsWithKey(a, f, k) == RowsWithKey(b, f, k);
        if ka == k {
          assert RowsWithKey(a, f, k) == [a[0]] + RowsWithKey(a[1..], f, k);
          assert RowsWithKey(b, f, k) == [a[0]] + RowsWithKey(b[1..], f, k);
          ConsEqual(a[0], a[0], RowsWithKey(a[1..], f, k), RowsWithKey(b[1..], f, k));
        } else {
          assert RowsWithKey(a, f, k) == RowsWithKey(a[1..], f, k);
          assert RowsWithKey(b, f, k) == RowsWithKey(b[1..], f, k);
        }
      }
      OrderedTail(a, f, reverse);
      OrderedTail(b, f, reverse);
      OrderedByKeys(a[1..], b[1..], f, reverse);
      assert a == [a[0]] + a[1..];
      assert b == [b[0]] + b[1..];
    }
  }

  /** The first rows of two sorted sequences that agree key by key are equal. */
  lemma OrderedHeadsByKeys(a: seq<Row>, b: seq<Row>, f: nat, reverse: bool)
    requires Keyed(a, f) && Keyed(b, f) && |a| > 0 && |b| > 0
    requires Ordered(a, f, reverse) && Ordered(b, f, reverse)
    requires forall k :: RowsWithKey(a, f, k) == RowsWithKey(b, f, k)
    ensures a[0] == b[0]
  {
    var ka, kb := a[0][f], b[0][f];
    assert RowsWithKey(a, f, ka) == [a[0]] + RowsWithKey(a[1..], f, ka);
    assert RowsWithKey(b, f, kb) == [b[0]] + RowsWithKey(b[1..], f, kb);
    assert RowsWithKey(a, f, kb) == RowsWithKey(b, f, kb);
    RowsWithKeyMember(b, f, ka, a[0]);
    RowsWithKeyMember(a, f, kb, b[0]);
    NotBelowHead(b, f, reverse, a[0]);
    NotBelowHead(a, f, reverse, b[0]);
    if reverse {
      LessEqAntisymmetric(kb, ka);
    } else {
      LessEqAntisymmetric(ka, kb);
    }
    ConsEqual(a[0], b[0], RowsWithKey(a[1..], f, ka), RowsWithKey(b[1..], f, kb));
  }

  /** The first row of `s` is kept by the filter on its own key. */
  lemma RowsWithKeyHead(s: seq<Row>, f: nat)
    requires Keyed(s, f) && |s| > 0
    ensures RowsWithKey(s, f, s[0][f]) == [s[0]] + RowsWithKey(s[1..], f, s[0][f])
  {
  }

  /** No row of a sorted sequence is "less" than its first row. */
  lemma NotBelowHead(s: seq<Row>, f: nat, reverse: bool, x: Row)
    requires Keyed(s, f) && Ordered(s, f, reverse) && x in s
    ensures f < |x| && !KeyLess(x, s[0], f, reverse)
  {
    var j :| 0 <= j < |s| && s[j] == x;
    if j == 0 {
      LessEqReflexive(x[f]);
    }
  }
}
