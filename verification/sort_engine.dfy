/** `sortContent`: skip `h` header rows, then sort the rest by one field with
    the library sort (strategy 1) or the tree sort (strategy 2). The Go code
    leaves its result in a package-level variable; here it is returned. */
module SortEngine {
  import opened Errors
  import opened Rows
  import opened SearchTree
  import opened Sequences

  /** `h` in `sortContent`: one header row when the header flag is set. */
  function HeaderRows(header: bool): nat {
    if header then 1 else 0
  }

  /** The field index can be used on every row after the header. Go checks
      nothing and panics on an out-of-range index, so callers must ensure it. */
  predicate FieldValid(content: seq<Row>, h: nat, field: int) {
    0 <= field && (h <= |content| ==> Keyed(content[h..], field))
  }

  /** What `sort.Slice` promises for strategy 1: the header rows stay where
      they are, and the other rows are permuted into `KeyLess` order
      (non-decreasing keys, or non-increasing when `reverse`). Nothing is
      promised about the order of rows with equal keys. */
  ghost predicate LibrarySorted(content: seq<Row>, h: nat, f: nat, reverse: bool, r: seq<Row>)
    requires h <= |content|
  {
    && |r| == |content|
    && r[..h] == content[..h]
    && multiset(r[h..]) == multiset(content[h..])
    && Keyed(r[h..], f)
    && Ordered(r[h..], f, reverse)
  }

  /** `sortContent(content, header, field, reverse, sortAlgorithm)`. Strategy 1
      is specified only by `LibrarySorted`; the body picks one admissible
      order. Strategy 2 drops the header, ignores `reverse`, and panics when
      no row is left to insert. Any other selector leaves the result empty. */
  method SortContent(content: seq<Row>, header: bool, field: int, reverse: bool, algorithm: int)
    returns (r: Result<seq<Row>>)
    requires algorithm == 1 || algorithm == 2 ==> FieldValid(content, HeaderRows(header), field)
    ensures algorithm == 1 ==>
      if |content| < HeaderRows(header) then r == Failure(SliceOutOfRange)
      else r.Success? && LibrarySorted(content, HeaderRows(header), field, reverse, r.value)
    ensures algorithm == 2 ==>
      if |content| <= HeaderRows(header) then r == Failure(NilDereference)
      else
        && r.Success?
        && multiset(r.value) == multiset(content[HeaderRows(header)..])
        && Keyed(r.value, field)
        && Ordered(r.value, field, false)
        && r.value == TreeSort(content[HeaderRows(header)..], field)
    ensures algorithm != 1 && algorithm != 2 ==> r == Success([])
  {
    var h := HeaderRows(header);
    if algorithm == 1 {
      if |content| < h {
        r := Failure(SliceOutOfRange);
      } else {
        var rest := TreeSort(content[h..], field);
        if reverse {
          ReverseOrdered(rest, field, false);
          rest := Reverse(rest);
        }
        var sorted := content[..h] + rest;
        assert sorted[..h] == content[..h] && sorted[h..] == rest;
        r := Success(sorted);
      }
    } else if algorithm == 2 {
      if |content| <= h {
        r := Failure(NilDereference);
      } else {
        r := Success(TreeSort(content[h..], field));
      }
    } else {
      r := Success([]);
    }
  }

  /** When no two different rows share a key, the library sort has only one
      admissible result. */
  lemma LibrarySortDeterminate(content: seq<Row>, h: nat, f: nat, reverse: bool, r1: seq<Row>, r2: seq<Row>)
    requires h <= |content| && Keyed(content[h..], f) && KeyIdentifiesRow(content[h..], f)
    requires LibrarySorted(content, h, f, reverse, r1) && LibrarySorted(content, h, f, reverse, r2)
    ensures r1 == r2
  {
    KeyIdentifiesRowPermutation(r1[h..], content[h..], f);
    OrderedUnique(r1[h..], r2[h..], f, reverse);
    assert r1 == r1[..h] + r1[h..];
    assert r2 == r2[..h] + r2[h..];
  }

  /** Both strategies sort the non-header rows the same way when no two
      different rows share a key and `reverse` is off; strategy 1 keeps the
      header row in front, strategy 2 drops it. */
  lemma StrategiesAgree(content: seq<Row>, h: nat, f: nat, r: seq<Row>)
    requires h <= |content| && Keyed(content[h..], f) && KeyIdentifiesRow(content[h..], f)
    requires LibrarySorted(content, h, f, false, r)
    ensures r == content[..h] + TreeSort(content[h..], f)
  {
    var t := TreeSort(content[h..], f);
    KeyIdentifiesRowPermutation(r[h..], content[h..], f);
    OrderedUnique(r[h..], t, f, false);
    assert r == r[..h] + r[h..];
  }

  /** The worked example: rows `b,1`, `a,2`, `c,0` sorted on field 1. */
  function ExampleInput(): seq<Row> {
    [["b", "1"], ["a", "2"], ["c", "0"]]
  }

  lemma ExampleAscending(r: seq<Row>)
    requires LibrarySorted(ExampleInput(), 0, 1, false, r)
    ensures r == [["c", "0"], ["b", "1"], ["a", "2"]]
  {
    var e: seq<Row> := [["c", "0"], ["b", "1"], ["a", "2"]];
    assert r[0..] == r;
    assert ExampleInput()[0..] == ExampleInput();
    assert multiset(e) == multiset(ExampleInput());
    assert Ordered(e, 1, false);
    OrderedUnique(e, r, 1, false);
  }

  lemma ExampleDescending(r: seq<Row>)
    requires LibrarySorted(ExampleInput(), 0, 1, true, r)
    ensures r == [["a", "2"], ["b", "1"], ["c", "0"]]
  {
    var e: seq<Row> := [["a", "2"], ["b", "1"], ["c", "0"]];
    assert r[0..] == r;
    assert ExampleInput()[0..] == ExampleInput();
    assert multiset(e) == multiset(ExampleInput());
    assert Ordered(e, 1, true);
    OrderedUnique(e, r, 1, true);
  }
}
