/** The pure part of `readContent`: lines become rows by splitting on `,`;
    reading stops at the first empty line; every row must have as many fields
    as the first. Line scanning itself (`bufio.Scanner`) is not modelled: the
    input is the sequence of lines it would produce. */
module Reader {
  import opened Errors
  import opened Rows
  import opened Sequences

  /** Go's `strings.Split(s, ",")`: the pieces between commas, so always one
      more piece than there are commas (`""` gives `[""]`). */
  function Split(s: string): (r: seq<string>)
    ensures |r| > 0
  {
    if |s| == 0 then [""]
    else
      var rest := Split(s[1..]);
      if s[0] == ',' then [""] + rest
      else [[s[0]] + rest[0]] + rest[1..]
  }

  /** A line with `c` commas splits into `c + 1` comma-free fields. */
  lemma {:induction false} SplitPieces(s: string)
    ensures |Split(s)| == multiset(s)[','] + 1
    ensures forall i | 0 <= i < |Split(s)| :: ',' !in Split(s)[i]
  {
    if |s| > 0 {
      SplitPieces(s[1..]);
      assert s == [s[0]] + s[1..];
      assert multiset(s) == multiset{s[0]} + multiset(s[1..]);
    }
  }

  /** Go's `strings.Join(parts, ",")`, the inverse of `Split`. */
  function Join(parts: seq<string>): string
    requires |parts| > 0
  {
    if |parts| == 1 then parts[0] else parts[0] + "," + Join(parts[1..])
  }

  lemma {:induction false} JoinSplit(s: string)
    ensures Join(Split(s)) == s
  {
    if |s| > 0 {
      JoinSplit(s[1..]);
      if s[0] == ',' {
        JoinSplitComma(s);
      } else {
        JoinSplitOther(s);
      }
    }
  }

  lemma JoinSplitComma(s: string)
    requires |s| > 0 && s[0] == ',' && Join(Split(s[1..])) == s[1..]
    ensures Join(Split(s)) == s
  {
    var rest := Split(s[1..]);
    var parts := [""] + rest;
    assert Split(s) == parts;
    assert parts[1..] == rest;
    assert Join(parts) == "" + "," + Join(rest);
    assert s == [s[0]] + s[1..];
  }

  lemma JoinSplitOther(s: string)
    requires |s| > 0 && s[0] != ',' && Join(Split(s[1..])) == s[1..]
    ensures Join(Split(s)) == s
  {
    var rest := Split(s[1..]);
    var first := [s[0]] + rest[0];
    var parts := [first] + rest[1..];
    assert Split(s) == parts;
    assert s == [s[0]] + s[1..];
    if |rest| == 1 {
      assert Join(parts) == first;
    } else {
      var tail := Join(rest[1..]);
      assert Join(parts) == first + "," + tail by {
        assert parts[1..] == rest[1..];
      }
      assert s[1..] == rest[0] + "," + tail;
      AppendRegroup(s[..1], rest[0], ",", tail);
    }
  }

  /** Splitting a comma-free prefix glues it onto the first piece. */
  lemma {:induction false} SplitPrefix(p: string, s: string)
    requires ',' !in p
    ensures Split(p + s) == [p + Split(s)[0]] + Split(s)[1..]
  {
    if |p| > 0 {
      SplitPrefix(p[1..], s);
      assert (p + s)[0] == p[0];
      assert (p + s)[1..] == p[1..] + s;
      assert [p[0]] + (p[1..] + Split(s)[0]) == p + Split(s)[0];
    } else {
      assert p + s == s;
      assert p + Split(s)[0] == Split(s)[0];
      assert Split(s) == [Split(s)[0]] + Split(s)[1..];
    }
  }

  lemma {:induction false} SplitJoin(parts: seq<string>)
    requires |parts| > 0
    requires forall i | 0 <= i < |parts| :: ',' !in parts[i]
    ensures Split(Join(parts)) == parts
  {
    if |parts| == 1 {
      SplitPrefix(parts[0], "");
      assert parts[0] + "" == parts[0];
    } else {
      SplitJoin(parts[1..]);
      var tail := "," + Join(parts[1..]);
      assert tail[0] == ',' && tail[1..] == Join(parts[1..]);
      assert Split(tail) == [""] + parts[1..];
      SplitPrefix(parts[0], tail);
      assert Join(parts) == parts[0] + tail;
      assert parts[0] + "" == parts[0];
      assert parts == [parts[0]] + parts[1..];
    }
  }

  /** The number of lines read before the first empty line (all of them if
      there is none). */
  function FirstEmpty(lines: seq<string>): (n: nat)
    ensures n <= |lines|
    ensures forall i | 0 <= i < n :: lines[i] != ""
    ensures n < |lines| ==> lines[n] == ""
  {
    if |lines| == 0 || lines[0] == "" then 0 else 1 + FirstEmpty(lines[1..])
  }

  /** The scanning loop of `readContent` from the given remaining lines, where
      `n` is the column count fixed by the first row (0 before any row). */
  function ReadRows(lines: seq<string>, n: nat): (r: Result<seq<Row>>)
    ensures r.Success? ==> |r.value| == FirstEmpty(lines)
    ensures r.Success? ==> forall i | 0 <= i < |r.value| :: r.value[i] == Split(lines[i])
    ensures r.Failure? ==> r.error == ColumnMismatch
    ensures n > 0 ==>
      (r.Success? <==> forall i | 0 <= i < FirstEmpty(lines) :: |Split(lines[i])| == n)
    ensures n == 0 ==>
      (r.Success? <==> forall i | 0 <= i < FirstEmpty(lines) :: |Split(lines[i])| == |Split(lines[0])|)
    decreases |lines|
  {
    if |lines| == 0 then Success([])
    else
      var line := lines[0];
      var row := Split(line);
      if line == "" then Success([])
      else
        var n' := if n == 0 then |row| else n;
        if n' != |row| then Failure(ColumnMismatch)
        else
          match ReadRows(lines[1..], n')
          case Failure(e) => Failure(e)
          case Success(rest) => Success([row] + rest)
  }

  /** `readContent` on a whole input. It succeeds exactly when every row
      before the first empty line has the first row's field count, and then
      returns those rows, each the comma-split of its line. */
  function ReadContent(lines: seq<string>): (r: Result<seq<Row>>)
    ensures r.Success? <==>
      forall i | 0 <= i < FirstEmpty(lines) :: |Split(lines[i])| == |Split(lines[0])|
    ensures r.Success? ==>
      && |r.value| == FirstEmpty(lines)
      && (forall i | 0 <= i < |r.value| :: r.value[i] == Split(lines[i]))
      && (forall i | 0 <= i < |r.value| :: |r.value[i]| == |r.value[0]|)
    ensures r.Failure? ==> r.error == ColumnMismatch
  {
    ReadRows(lines, 0)
  }
}
