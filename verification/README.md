# Tree sort and row sorter of LAB1_GO, in Dafny

This project models the sorting core of `Lab1.go`, a command-line tool. The tool reads comma-separated lines, sorts the rows by one field and prints them. The model covers three parts of that file:

- **Row reading** (`readContent`). Each line is split on `,`. Reading stops at the first empty line. Every row must have the first row's field count, otherwise the program stops with a fatal error.
- **Tree sort** (`Tree.insert`, `Node.insert`, `rewriteTree`). Rows are inserted into an unbalanced binary search tree keyed on one field. Ties go left. An in-order walk then emits the rows.
- **The dispatcher** (`sortContent`). It skips `h` header rows (0 or 1). Strategy 1 is the library sort `sort.Slice`, ascending or descending. Strategy 2 is the tree sort, which drops the header and ignores the reverse flag. Any other selector yields nothing.

Go compares strings byte-wise. For valid UTF-8 that is the same as code-point order, so `StringOrder.LessEq` compares characters element-wise and is proved to be a total order. The Go code keeps its result in a package-level variable; the model returns it instead. The fatal column-count error and the two runtime panics on empty input become `Errors.Failure` values. The index-out-of-range panic that a bad field index causes in the comparisons (Lab1.go:121, 123, 148) is not modelled as a failure: a precondition on the field index excludes it (see "## Left out").

Files, one module each: `errors.dfy` (failure values), `string_order.dfy` (Go's string order), `sequences.dfy` (generic sequence facts), `rows.dfy` (rows, key order, sortedness), `search_tree.dfy` (the tree sort), `reader.dfy` (row reading), `sort_engine.dfy` (the dispatcher).

Behaviour of the code worth knowing, each proved in the model:

- **Ties in the tree sort.** Rows with equal keys always come out in exactly the reverse of their input order (`SearchTree.TreeSortTiesReversed`). Equal-key rows are never interleaved out of that order.
- **Empty input.** Empty input, or a header row alone, gives empty output only in two cases: strategy 1 on empty input without the header flag, and an unknown selector. Otherwise:
  - strategy 2 with no row to insert calls `rewriteTree` on a nil root and panics;
  - strategy 1 with the header flag on empty input panics on `content[1:]`;
  - strategy 1 on a header row alone returns that header row.
- **The header.** Strategy 1 puts the header row back in front; strategy 2 drops it.
- **Idempotence.** Tree-sorting twice equals tree-sorting once exactly when, for every key, the input's rows with that key read the same forwards and backwards (`SearchTree.TreeSortIdempotentExactly`). Rows sharing a key being identical is enough (`SearchTree.TreeSortIdempotent`). Two different rows with the same key swap places on every pass (`SearchTree.TreeSortNotIdempotent`).

## Model

| member | source | states |
|---|---|---|
| StringOrder.LessEqIsLexicographic | Lab1.go:148 | Go's `<=` on strings holds exactly when the first string is a prefix of the second, or is smaller at the first position where they differ |
| StringOrder.LessEqReflexive | Lab1.go:148 | every string is `<=` itself, so an equal key routes left |
| StringOrder.LessEqAntisymmetric | Lab1.go:148 | two strings that are each `<=` the other are equal |
| StringOrder.LessEqTransitive | Lab1.go:148 | `<=` on strings is transitive |
| StringOrder.LessEqTotal | Lab1.go:148 | any two strings are comparable by `<=` |
| StringOrder.LessIsStrict | Lab1.go:121-123 | Go's `<` (and `>`) on strings is `<=` without equality |
| Rows.OrderedUnique | Lab1.go:119-124 | two sorted arrangements of the same rows are equal when rows sharing a key are identical, in either direction |
| Rows.ReverseOrdered | Lab1.go:120-123 | reversing a sequence sorted under the `<` comparator sorts it under the `>` comparator, and vice versa |
| SearchTree.Insert | Lab1.go:136-161 | inserting into any tree gives a non-empty tree whose rows all carry the key field; an existing root stays the root |
| SearchTree.InsertMultiset | Lab1.go:136-161 | the in-order rows after an insert are the old ones plus exactly the new row |
| SearchTree.InsertAddsRow | Lab1.go:136-161 | after an insert the walk is one row longer, contains the new row and every old row, and contains nothing else |
| SearchTree.InsertPreservesBST | Lab1.go:145-161 | insert keeps the search-tree invariant: left-subtree keys are `<=` the node's key, right-subtree keys are `>` it |
| SearchTree.BuildMultiset | Lab1.go:128-131 | the insertion loop yields a tree holding exactly the starting tree's rows plus the inserted rows |
| SearchTree.BuildIsBST | Lab1.go:128-131 | the insertion loop keeps the search-tree invariant |
| SearchTree.InOrderOrdered | Lab1.go:163-171 | the in-order walk of a search tree is non-decreasing in the key field |
| SearchTree.TreeSort | Lab1.go:126-133 | the tree sort returns a permutation of its input, sorted non-decreasing by the key field |
| SearchTree.InsertRowsWithKey | Lab1.go:148-153 | a newly inserted row lands before every row with an equal key in the walk, and keeps the rows of every other key in the same order |
| SearchTree.TreeSortTiesReversed | Lab1.go:145-171 | the rows with any given key come out of the tree sort in the reverse of their input order |
| SearchTree.TreeSortEqualKeys | Lab1.go:145-171 | when all keys are equal, the tree sort reverses its input |
| SearchTree.TreeSortKeepsOrdered | Lab1.go:126-133 | a sorted input whose rows sharing a key are identical comes back unchanged |
| SearchTree.TreeSortIdempotent | Lab1.go:126-133 | when rows sharing a key are identical, tree-sorting twice equals tree-sorting once |
| SearchTree.TreeSortIdempotentExactly | Lab1.go:126-171 | tree-sorting twice equals tree-sorting once if and only if, for every key, the input's rows with that key form a palindrome, because each pass reverses them |
| SearchTree.TreeSortNotIdempotent | Lab1.go:126-171 | two different rows with the same key are swapped by one tree sort and swapped back by a second, so tree-sorting twice differs from tree-sorting once |
| Reader.Split | Lab1.go:97 | `strings.Split` on `,` never returns an empty list |
| Reader.SplitPieces | Lab1.go:97 | a line with `c` commas splits into `c + 1` fields, none containing a comma |
| Reader.JoinSplit | Lab1.go:97 | joining the fields of a line with `,` gives back the line |
| Reader.SplitJoin | Lab1.go:97 | splitting a `,`-join of comma-free fields gives back those fields |
| Reader.FirstEmpty | Lab1.go:95-100 | the count of lines read is the index of the first empty line, or all lines if none is empty |
| Reader.ReadRows | Lab1.go:95-108 | the scanning loop succeeds exactly when every row before the first empty line has the fixed column count, or the first row's count before one is fixed; on success it returns each line's split; otherwise it fails with a column mismatch |
| Reader.ReadContent | Lab1.go:86-110 | reading succeeds exactly when every row before the first empty line has the first row's field count; on success it returns those rows, each the split of its line, all of one arity; otherwise it fails with a column mismatch |
| SortEngine.SortContent | Lab1.go:112-134 | strategy 1 panics when the header flag is set on empty content, otherwise it keeps the header rows and returns the rest as a sorted permutation, descending when reversed; strategy 2 panics when no row follows the header, otherwise it drops the header and returns the tree sort, ascending whatever the reverse flag; any other selector returns an empty result |
| SortEngine.LibrarySortDeterminate | Lab1.go:118-125 | when rows sharing a key are identical, strategy 1 has exactly one admissible result |
| SortEngine.StrategiesAgree | Lab1.go:117-133 | with `reverse` off and rows sharing a key identical, every admissible strategy-1 result is the header rows followed by the tree sort of the rest; that tree sort is strategy 2's result whenever at least one row follows the header, so with no header and non-empty content the two strategies agree (on empty content strategy 1 returns nothing and strategy 2 panics) |
| SortEngine.ExampleAscending | Lab1.go:119-125 | rows `b,1`, `a,2`, `c,0` sorted on field 1 come out as `c,0`, `b,1`, `a,2` |
| SortEngine.ExampleDescending | Lab1.go:119-125 | the same rows sorted on field 1 in reverse come out as `a,2`, `b,1`, `c,0` |

## Left out

- Flag parsing and `isFlagPassed` (Lab1.go:25-30, 47-55): command-line state held by the `flag` package. The flag values are parameters of `SortEngine.SortContent`.
- `inputAsFile` and `output` (Lab1.go:57-84): opening, creating and closing files, and `%v` printing. These are I/O with nothing to state.
- `main` (Lab1.go:33-45): it only wires flags, reading, sorting and output together.
- `bufio.Scanner` (Lab1.go:89-95): the input is taken to be the list of lines the scanner yields. Its line splitting, `\r` stripping and token-size limit are not modelled. The only scanner error check runs before any scanning (Lab1.go:91-93), so it has no effect on the model.
- The algorithm inside `sort.Slice`: it is a library routine, and it is not stable. Strategy 1 is specified only by what the library promises (`SortEngine.LibrarySorted`). The method body returns one admissible order, built from the tree sort, to show that such an order exists.
- `log.Fatal` and runtime panics: they end the process in Go. Here they are `Failure(ColumnMismatch)`, `Failure(SliceOutOfRange)` and `Failure(NilDereference)`.
- SortEngine.SortContent: requires the field index to be valid on every row after the header, and to be non-negative. Go panics on a bad index only when a comparison touches that row. With zero or one row after the header, neither strategy compares anything, so Go does not panic there, even for a negative field (strategy 1 on empty content with field -1 returns an empty result). Those inputs are outside the model.
- SearchTree.Insert: requires the key field on the inserted row even when the tree is empty. Go indexes the row only when it is compared with a node.
- SearchTree.TreeSort: requires the key field on every row, including a lone row that Go never indexes.
- Strings that are not valid UTF-8: Go would compare their raw bytes. The model compares characters, which matches byte order only for valid UTF-8.
