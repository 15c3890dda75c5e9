/** The tree sort of `Lab1.go`: an unbalanced binary search tree keyed on one
    field, filled by repeated insertion and read back by an in-order walk. */
module SearchTree {
  import opened StringOrder
  import opened Rows
  import opened Sequences

  /** `Leaf` is a nil `*Node` (an empty tree or a missing child); a `Node`
      owns its row and both subtrees. */
  datatype Tree = Leaf | Node(row: Row, left: Tree, right: Tree)

  /** The rows in left-node-right order, as `rewriteTree` appends them. */
  function InOrder(t: Tree): seq<Row> {
    match t
    case Leaf => []
    case Node(x, l, r) => InOrder(l) + [x] + InOrder(r)
  }

  /** Every row in the tree has the key field `f`. */
  predicate KeyedTree(t: Tree, f: nat) {
    match t
    case Leaf => true
    case Node(x, l, r) => f < |x| && KeyedTree(l, f) && KeyedTree(r, f)
  }

  /** Every key in `t` is `<= k`. */
  predicate KeysAtMost(t: Tree, k: string, f: nat)
    requires KeyedTree(t, f)
  {
    match t
    case Leaf => true
    case Node(x, l, r) => LessEq(x[f], k) && KeysAtMost(l, k, f) && KeysAtMost(r, k, f)
  }

  /** Every key in `t` is `> k`. */
  predicate KeysAbove(t: Tree, k: string, f: nat)
    requires KeyedTree(t, f)
  {
    match t
    case Leaf => true
    case Node(x, l, r) => Less(k, x[f]) && KeysAbove(l, k, f) && KeysAbove(r, k, f)
  }

  /** The search-tree invariant with ties routed left: keys in a node's left
      subtree are `<=` its key, keys in its right subtree are `>` it. */
  predicate IsBST(t: Tree, f: nat)
    requires KeyedTree(t, f)
  {
    match t
    case Leaf => true
    case Node(x, l, r) =>
      && IsBST(l, f) && IsBST(r, f)
      && KeysAtMost(l, x[f], f) && KeysAbove(r, x[f], f)
  }

  /** `Tree.insert` and `Node.insert`: an empty tree (or a nil child) becomes a
      one-node tree; otherwise descend left when the new key is `<=` the
      node's key and right when it is greater. No rebalancing. */
  function Insert(t: Tree, x: Row, f: nat): (r: Tree)
    requires KeyedTree(t, f) && f < |x|
    ensures r.Node? && KeyedTree(r, f)
    ensures t.Node? ==> r.row == t.row
  {
    match t
    case Leaf => Node(x, Leaf, Leaf)
    case Node(y, l, r) =>
      if LessEq(x[f], y[f]) then Node(y, Insert(l, x, f), r)
      else Node(y, l, Insert(r, x, f))
  }

  /** The insertion loop of `sortContent`: insert each row in turn, in input
      order, starting from tree `t`. */
  function Build(t: Tree, rows: seq<Row>, f: nat): (r: Tree)
    requires KeyedTree(t, f) && Keyed(rows, f)
    ensures KeyedTree(r, f)
    decreases |rows|
  {
    if |rows| == 0 then t
    else
      var x, rest := rows[0], rows[1..];
      assert Keyed(rest, f);
      Build(Insert(t, x, f), rest, f)
  }

  /** Strategy 2: insert every row into an empty tree, then walk it in order. */
  function TreeSort(rows: seq<Row>, f: nat): (r: seq<Row>)
    requires Keyed(rows, f)
    ensures multiset(r) == multiset(rows)
    ensures Keyed(r, f) && Ordered(r, f, false)
  {
    var t := Build(Leaf, rows, f);
    BuildMultiset(Leaf, rows, f);
    BuildIsBST(Leaf, rows, f);
    InOrderOrdered(t, f);
    InOrder(t)
  }

  lemma {:induction false} KeyedInOrder(t: Tree, f: nat)
    requires KeyedTree(t, f)
    ensures Keyed(InOrder(t), f)
  {
    match t
    case Leaf =>
    case Node(x, l, r) =>
      KeyedInOrder(l, f);
      KeyedInOrder(r, f);
  }

  lemma {:induction false} KeysAtMostInOrder(t: Tree, k: string, f: nat)
    requires KeyedTree(t, f) && KeysAtMost(t, k, f)
    ensures Keyed(InOrder(t), f)
    ensures forall i | 0 <= i < |InOrder(t)| :: LessEq(InOrder(t)[i][f], k)
  {
    KeyedInOrder(t, f);
    match t
    case Leaf =>
    case Node(x, l, r) =>
      KeysAtMostInOrder(l, k, f);
      KeysAtMostInOrder(r, k, f);
  }

  lemma {:induction false} KeysAboveInOrder(t: Tree, k: string, f: nat)
    requires KeyedTree(t, f) && KeysAbove(t, k, f)
    ensures Keyed(InOrder(t), f)
    ensures forall i | 0 <= i < |InOrder(t)| :: Less(k, InOrder(t)[i][f])
  {
    KeyedInOrder(t, f);
    match t
    case Leaf =>
    case Node(x, l, r) =>
      KeysAboveInOrder(l, k, f);
      KeysAboveInOrder(r, k, f);
  }

  lemma {:induction false} InsertKeysAtMost(t: Tree, x: Row, k: string, f: nat)
    requires KeyedTree(t, f) && f < |x|
    requires KeysAtMost(t, k, f) && LessEq(x[f], k)
    ensures KeysAtMost(Insert(t, x, f), k, f)
  {
    match t
    case Leaf =>
    case Node(y, l, r) =>
      if LessEq(x[f], y[f]) {
        InsertKeysAtMost(l, x, k, f);
      } else {
        InsertKeysAtMost(r, x, k, f);
      }
  }

  lemma {:induction false} InsertKeysAbove(t: Tree, x: Row, k: string, f: nat)
    requires KeyedTree(t, f) && f < |x|
    requires KeysAbove(t, k, f) && Less(k, x[f])
    ensures KeysAbove(Insert(t, x, f), k, f)
  {
    match t
    case Leaf =>
    case Node(y, l, r) =>
      if LessEq(x[f], y[f]) {
        InsertKeysAbove(l, x, k, f);
      } else {
        InsertKeysAbove(r, x, k, f);
      }
  }

  /** Insertion keeps the search-tree invariant. */
  lemma {:induction false} InsertPreservesBST(t: Tree, x: Row, f: nat)
    requires KeyedTree(t, f) && f < |x| && IsBST(t, f)
    ensures IsBST(Insert(t, x, f), f)
  {
    match t
    case Leaf =>
    case Node(y, l, r) =>
      if LessEq(x[f], y[f]) {
        InsertPreservesBST(l, x, f);
        InsertKeysAtMost(l, x, y[f], f);
      } else {
        InsertPreservesBST(r, x, f);
        InsertKeysAbove(r, x, y[f], f);
      }
  }

  /** Insertion adds exactly the new row: the rows of the tree grow by `x`
      and nothing else is lost or changed. */
  lemma {:induction false} InsertMultiset(t: Tree, x: Row, f: nat)
    requires KeyedTree(t, f) && f < |x|
    ensures multiset(InOrder(Insert(t, x, f))) == multiset(InOrder(t)) + multiset{x}
  {
    match t
    case Leaf =>
    case Node(y, l, r) =>
      if LessEq(x[f], y[f]) {
        InsertMultiset(l, x, f);
      } else {
        InsertMultiset(r, x, f);
      }
  }

  lemma {:induction false} BuildMultiset(t: Tree, rows: seq<Row>, f: nat)
    requires KeyedTree(t, f) && Keyed(rows, f)
    ensures multiset(InOrder(Build(t, rows, f))) == multiset(InOrder(t)) + multiset(rows)
    decreases |rows|
  {
    if |rows| > 0 {
      InsertMultiset(t, rows[0], f);
      BuildMultiset(Insert(t, rows[0], f), rows[1..], f);
      BuildCons(t, rows, f);
      MultisetCons(rows);
    }
  }

  /** The same fact read on the in-order sequence itself. */
  lemma InsertAddsRow(t: Tree, x: Row, f: nat)
    requires KeyedTree(t, f) && f < |x|
    ensures |InOrder(Insert(t, x, f))| == |InOrder(t)| + 1
    ensures x in InOrder(Insert(t, x, f))
    ensures forall y | y in InOrder(t) :: y in InOrder(Insert(t, x, f))
    ensures forall y | y in InOrder(Insert(t, x, f)) :: y == x || y in InOrder(t)
  {
    InsertMultiset(t, x, f);
    var s, s' := InOrder(t), InOrder(Insert(t, x, f));
    assert |s'| == |multiset(s')| == |multiset(s)| + 1 == |s| + 1;
    assert x in multiset(s');
    forall y | y in s
      ensures y in s'
    {
      assert multiset(s)[y] > 0;
      assert multiset(s')[y] > 0;
    }
    forall y | y in s'
      ensures y == x || y in s
    {
      assert multiset(s')[y] > 0;
      assert y != x ==> multiset(s)[y] > 0;
    }
  }

  lemma {:induction false} BuildIsBST(t: Tree, rows: seq<Row>, f: nat)
    requires KeyedTree(t, f) && Keyed(rows, f) && IsBST(t, f)
    ensures IsBST(Build(t, rows, f), f)
    decreases |rows|
  {
    if |rows| > 0 {
      InsertPreservesBST(t, rows[0], f);
      BuildIsBST(Insert(t, rows[0], f), rows[1..], f);
    }
  }

  /** The in-order walk of a search tree is sorted by key. */
  lemma {:induction false} InOrderOrdered(t: Tree, f: nat)
    requires KeyedTree(t, f) && IsBST(t, f)
    ensures Keyed(InOrder(t), f) && Ordered(InOrder(t), f, false)
  {
    KeyedInOrder(t, f);
    match t
    case Leaf =>
    case Node(x, l, r) =>
      InOrderOrdered(l, f);
      InOrderOrdered(r, f);
      KeysAtMostInOrder(l, x[f], f);
      KeysAboveInOrder(r, x[f], f);
      var L, R := InOrder(l), InOrder(r);
      var s := InOrder(t);
      assert s == L + [x] + R;
      LessEqReflexive(x[f]);
      forall i, j | 0 <= i < j < |s|
        ensures LessEq(s[i][f], s[j][f])
      {
        if j < |L| {
          assert s[i] == L[i] && s[j] == L[j];
        } else if i > |L| {
          assert s[i] == R[i - |L| - 1] && s[j] == R[j - |L| - 1];
        } else if i == |L| {
          assert s[i] == x && s[j] == R[j - |L| - 1];
          LessEqTotal(x[f], s[j][f]);
        } else if j == |L| {
          assert s[i] == L[i] && s[j] == x;
        } else {
          assert s[i] == L[i] && s[j] == R[j - |L| - 1];
          LessEqTotal(x[f], s[j][f]);
          LessEqTransitive(s[i][f], x[f], s[j][f]);
        }
      }
  }

  /** Filtering the in-order walk of a node filters each part. */
  lemma RowsWithKeyNode(x: Row, l: Tree, r: Tree, f: nat, k: string)
    ensures RowsWithKey(InOrder(Node(x, l, r)), f, k)
         == RowsWithKey(InOrder(l), f, k) + RowsWithKey([x], f, k) + RowsWithKey(InOrder(r), f, k)
  {
    RowsWithKeyConcat(InOrder(l), [x], f, k);
    RowsWithKeyConcat(InOrder(l) + [x], InOrder(r), f, k);
  }

  /** Among rows with key `k`, a newly inserted row comes first in the
      in-order walk: it is placed to the left of every equal key. */
  lemma {:induction false} InsertRowsWithKey(t: Tree, x: Row, f: nat, k: string)
    requires KeyedTree(t, f) && f < |x| && IsBST(t, f)
    ensures RowsWithKey(InOrder(Insert(t, x, f)), f, k)
         == RowsWithKey([x], f, k) + RowsWithKey(InOrder(t), f, k)
  {
    match t
    case Leaf =>
      assert InOrder(Insert(t, x, f)) == [x] + [];
    case Node(y, l, r) =>
      if LessEq(x[f], y[f]) {
        InsertRowsWithKey(l, x, f, k);
        InsertLeftRowsWithKey(y, l, r, x, f, k);
      } else {
        InsertRowsWithKey(r, x, f, k);
        InsertRightRowsWithKey(y, l, r, x, f, k);
      }
  }

  lemma InsertLeftRowsWithKey(y: Row, l: Tree, r: Tree, x: Row, f: nat, k: string)
    requires KeyedTree(Node(y, l, r), f) && f < |x| && LessEq(x[f], y[f])
    requires RowsWithKey(InOrder(Insert(l, x, f)), f, k) == RowsWithKey([x], f, k) + RowsWithKey(InOrder(l), f, k)
    ensures RowsWithKey(InOrder(Insert(Node(y, l, r), x, f)), f, k)
         == RowsWithKey([x], f, k) + RowsWithKey(InOrder(Node(y, l, r)), f, k)
  {
    var l' := Insert(l, x, f);
    assert Insert(Node(y, l, r), x, f) == Node(y, l', r);
    RowsWithKeyNode(y, l, r, f, k);
    RowsWithKeyNode(y, l', r, f, k);
    AppendRegroup(RowsWithKey([x], f, k), RowsWithKey(InOrder(l), f, k), RowsWithKey([y], f, k), RowsWithKey(InOrder(r), f, k));
  }

  lemma InsertRightRowsWithKey(y: Row, l: Tree, r: Tree, x: Row, f: nat, k: string)
    requires KeyedTree(Node(y, l, r), f) && f < |x| && IsBST(Node(y, l, r), f) && !LessEq(x[f], y[f])
    requires RowsWithKey(InOrder(Insert(r, x, f)), f, k) == RowsWithKey([x], f, k) + RowsWithKey(InOrder(r), f, k)
    ensures RowsWithKey(InOrder(Insert(Node(y, l, r), x, f)), f, k)
         == RowsWithKey([x], f, k) + RowsWithKey(InOrder(Node(y, l, r)), f, k)
  {
    var r' := Insert(r, x, f);
    assert Insert(Node(y, l, r), x, f) == Node(y, l, r');
    RowsWithKeyNode(y, l, r, f, k);
    RowsWithKeyNode(y, l, r', f, k);
    var X := RowsWithKey([x], f, k);
    if x[f] == k {
      LeftOfGreaterKey(y, l, f, k);
    } else {
      assert X == [] + RowsWithKey([x][1..], f, k);
    }
    MoveEmptyFront(RowsWithKey(InOrder(l), f, k), RowsWithKey([y], f, k), X, RowsWithKey(InOrder(r), f, k));
  }

  /** When `k` is above a node's key, no row left of or at the node has key `k`. */
  lemma LeftOfGreaterKey(y: Row, l: Tree, f: nat, k: string)
    requires KeyedTree(l, f) && f < |y| && KeysAtMost(l, y[f], f) && !LessEq(k, y[f])
    ensures Keyed(InOrder(l), f)
    ensures RowsWithKey(InOrder(l), f, k) == [] && RowsWithKey([y], f, k) == []
  {
    KeysAtMostInOrder(l, y[f], f);
    RowsWithKeyNone(InOrder(l), f, k);
    LessEqReflexive(y[f]);
    assert RowsWithKey([y], f, k) == [] + RowsWithKey([y][1..], f, k);
  }

  lemma {:induction false} BuildRowsWithKey(t: Tree, rows: seq<Row>, f: nat, k: string)
    requires KeyedTree(t, f) && Keyed(rows, f) && IsBST(t, f)
    ensures RowsWithKey(InOrder(Build(t, rows, f)), f, k)
         == Reverse(RowsWithKey(rows, f, k)) + RowsWithKey(InOrder(t), f, k)
    decreases |rows|
  {
    if |rows| > 0 {
      InsertPreservesBST(t, rows[0], f);
      InsertRowsWithKey(t, rows[0], f, k);
      BuildRowsWithKey(Insert(t, rows[0], f), rows[1..], f, k);
      BuildStepRowsWithKey(t, rows, f, k);
    }
  }

  lemma BuildStepRowsWithKey(t: Tree, rows: seq<Row>, f: nat, k: string)
    requires KeyedTree(t, f) && Keyed(rows, f) && |rows| > 0
    requires RowsWithKey(InOrder(Insert(t, rows[0], f)), f, k)
          == RowsWithKey([rows[0]], f, k) + RowsWithKey(InOrder(t), f, k)
    requires RowsWithKey(InOrder(Build(Insert(t, rows[0], f), rows[1..], f)), f, k)
          == Reverse(RowsWithKey(rows[1..], f, k)) + RowsWithKey(InOrder(Insert(t, rows[0], f)), f, k)
    ensures RowsWithKey(InOrder(Build(t, rows, f)), f, k)
         == Reverse(RowsWithKey(rows, f, k)) + RowsWithKey(InOrder(t), f, k)
  {
    var x, rest := rows[0], rows[1..];
    var H, T, P := RowsWithKey([x], f, k), RowsWithKey(InOrder(t), f, k), RowsWithKey(rest, f, k);
    BuildCons(t, rows, f);
    RowsWithKeyCons(rows, f, k);
    ReverseSingle(H, P);
    RewriteAppend(RowsWithKey(InOrder(Build(t, rows, f)), f, k),
                  RowsWithKey(InOrder(Build(Insert(t, x, f), rest, f)), f, k),
                  Reverse(P), H, T, Reverse(RowsWithKey(rows, f, k)));
  }

  lemma BuildCons(t: Tree, rows: seq<Row>, f: nat)
    requires KeyedTree(t, f) && Keyed(rows, f) && |rows| > 0
    ensures Build(t, rows, f) == Build(Insert(t, rows[0], f), rows[1..], f)
  {
  }

  lemma RowsWithKeyCons(rows: seq<Row>, f: nat, k: string)
    requires |rows| > 0
    ensures RowsWithKey(rows, f, k) == RowsWithKey([rows[0]], f, k) + RowsWithKey(rows[1..], f, k)
    ensures |RowsWithKey([rows[0]], f, k)| <= 1
  {
    assert rows == [rows[0]] + rows[1..];
    RowsWithKeyConcat([rows[0]], rows[1..], f, k);
    assert [rows[0]][1..] == [];
  }

  /** Ties go left, so rows with equal keys come out of the tree sort in the
      reverse of their input order. */
  lemma TreeSortTiesReversed(rows: seq<Row>, f: nat, k: string)
    requires Keyed(rows, f)
    ensures RowsWithKey(TreeSort(rows, f), f, k) == Reverse(RowsWithKey(rows, f, k))
  {
    BuildRowsWithKey(Leaf, rows, f, k);
  }

  /** When every key is the same, the tree sort reverses its input. */
  lemma TreeSortEqualKeys(rows: seq<Row>, f: nat, k: string)
    requires Keyed(rows, f)
    requires forall i | 0 <= i < |rows| :: rows[i][f] == k
    ensures TreeSort(rows, f) == Reverse(rows)
  {
    var s := TreeSort(rows, f);
    TreeSortTiesReversed(rows, f, k);
    RowsWithKeyAll(rows, f, k);
    forall i | 0 <= i < |s|
      ensures s[i][f] == k
    {
      assert s[i] in multiset(rows);
    }
    RowsWithKeyAll(s, f, k);
  }

  /** An input that is already sorted, with no two different rows sharing a
      key, comes back unchanged. */
  lemma TreeSortKeepsOrdered(rows: seq<Row>, f: nat)
    requires Keyed(rows, f) && Ordered(rows, f, false) && KeyIdentifiesRow(rows, f)
    ensures TreeSort(rows, f) == rows
  {
    OrderedUnique(rows, TreeSort(rows, f), f, false);
  }

  /** With no two different rows sharing a key, sorting twice is sorting once. */
  lemma TreeSortIdempotent(rows: seq<Row>, f: nat)
    requires Keyed(rows, f) && KeyIdentifiesRow(rows, f)
    ensures TreeSort(TreeSort(rows, f), f) == TreeSort(rows, f)
  {
    var once := TreeSort(rows, f);
    KeyIdentifiesRowPermutation(once, rows, f);
    TreeSortKeepsOrdered(once, f);
  }

  /** Two different rows with the same key swap places on every pass. */
  lemma TreeSortNotIdempotent(x: Row, y: Row, f: nat)
    requires f < |x| && f < |y| && x[f] == y[f] && x != y
    ensures Keyed([x, y], f)
    ensures TreeSort([x, y], f) == [y, x]
    ensures TreeSort(TreeSort([x, y], f), f) == [x, y] != TreeSort([x, y], f)
  {
    TreeSortEqualKeys([x, y], f, x[f]);
    assert Reverse([x, y]) == [y, x];
    TreeSortEqualKeys([y, x], f, x[f]);
    assert Reverse([y, x]) == [x, y];
  }

  /** For every key, the rows with that key read the same forwards and
      backwards. */
  ghost predicate TiesPalindromic(rows: seq<Row>, f: nat) {
    forall k :: RowsWithKey(rows, f, k) == Reverse(RowsWithKey(rows, f, k))
  }

  /** The exact condition: sorting twice equals sorting once exactly when,
      for every key, the input's rows with that key read the same forwards
      and backwards. Rows sharing a key being identical is one way to meet it. */
  lemma {:induction false} TreeSortIdempotentExactly(rows: seq<Row>, f: nat)
    requires Keyed(rows, f)
    ensures TreeSort(TreeSort(rows, f), f) == TreeSort(rows, f) <==> TiesPalindromic(rows, f)
  {
    if TiesPalindromic(rows, f) {
      TreeSortIdempotentIfPalindromic(rows, f);
    }
    if TreeSort(TreeSort(rows, f), f) == TreeSort(rows, f) {
      TreeSortPalindromicIfIdempotent(rows, f);
    }
  }

  lemma {:induction false} TreeSortIdempotentIfPalindromic(rows: seq<Row>, f: nat)
    requires Keyed(rows, f)
    requires TiesPalindromic(rows, f)
    ensures TreeSort(TreeSort(rows, f), f) == TreeSort(rows, f)
  {
    var once := TreeSort(rows, f);
    var twice := TreeSort(once, f);
    forall k
      ensures RowsWithKey(twice, f, k) == RowsWithKey(once, f, k)
    {
      TreeSortTwiceByKey(rows, f, k);
    }
    OrderedByKeys(twice, once, f, false);
  }

  lemma {:induction false} TreeSortPalindromicIfIdempotent(rows: seq<Row>, f: nat)
    requires Keyed(rows, f)
    requires TreeSort(TreeSort(rows, f), f) == TreeSort(rows, f)
    ensures TiesPalindromic(rows, f)
  {
    forall k
      ensures RowsWithKey(rows, f, k) == Reverse(RowsWithKey(rows, f, k))
    {
      TreeSortTwiceByKey(rows, f, k);
    }
  }

  /** A second pass reverses every key's rows back into input order. */
  lemma TreeSortTwiceByKey(rows: seq<Row>, f: nat, k: string)
    requires Keyed(rows, f)
    ensures RowsWithKey(TreeSort(rows, f), f, k) == Reverse(RowsWithKey(rows, f, k))
    ensures RowsWithKey(TreeSort(TreeSort(rows, f), f), f, k) == RowsWithKey(rows, f, k)
  {
    TreeSortTiesReversed(rows, f, k);
    TreeSortTiesReversed(TreeSort(rows, f), f, k);
    ReverseReverse(RowsWithKey(rows, f, k));
  }
}
