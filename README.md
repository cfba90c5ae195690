# ts-leetcode in Dafny

ts-leetcode solves programming puzzles entirely inside TypeScript's type
system. Every "function" is a recursive conditional type alias. The
compiler evaluates it over string literals, tuples and integer literals,
and the result is either a value type or `never`. This project models
that core as pure Dafny functions, one module per source file:

- `TypeLevel`: the `never` outcome (`Ty<T> = Never | Val(value)`) and the
  rule that `never` passes every `extends` test (`ExtendsTrue`).
- `Numbers` (utils/numbers.ts): sign tests and signed add/subtract.
  Integer literals are rendered with `ToDecimal` and read back with
  `ParseNumber`.
- `Strings` (utils/strings.ts): `Split`, token counting, partial-group
  detection and balanced-group splitting.
- `ArrayUtil` (utils/array.ts): index replacement on a tuple.
- `Sorting` (utils/sorting.ts): heap sort on `{value, item}` records.
  It covers index arithmetic, swap, sift-up, sift-down, heapify and the
  extraction loop.
- `Regex` (utils/regex.ts): the restricted regular-expression engine. It
  has a tokenizer over a 98-character table, a merge pass that attaches
  quantifiers to the token before them, and a single-pass matcher that
  never backtracks.
- `SudokuCommon`, `SudokuValidation`, `SudokuGraph`, `SudokuState` and
  `SudokuSolver` (problems/sudoku/*.ts): the board, the move-legality
  checks, the per-digit candidate graph, the per-digit placement state
  and the digit-by-digit, row-by-row backtracking search.
- `TwoSumProblem` (problems/1_twosum.ts): single-pass two-sum with a
  complement map.
- `RegexExamples` and `StringsExamples`: concrete evaluations that pin
  the behaviour on small inputs, quirks included.

`never` and the source's error strings are explicit constructors. Those
include `Outcome.RangeExceeded` and `Search.NoSolution`, and
`Answer.TooFew` and `Answer.Exhausted` for two-sum. The quirks of the
code are modelled as written; the lemmas about them say so.

## Model

| member | source | states |
|---|---|---|
| Numbers.IsNegative | utils/numbers.ts:10-12 | holds exactly for negative numbers |
| Numbers.Abs | utils/numbers.ts:17-19 | strips the sign: -n for negative n, n otherwise |
| Numbers.UnsignedAdd | utils/numbers.ts:38-40 | `_Add` is left + right for a non-negative right; a negative right walks off the table (`never`) |
| Numbers.UnsignedSubtract | utils/numbers.ts:45-49 | `_Subtract` of two naturals is their signed difference |
| Numbers.Subtract | utils/numbers.ts:54-64 | left - right in all four sign cases |
| Numbers.Add | utils/numbers.ts:69-80 | left + right when either operand is non-negative; two negatives give `never` |
| Numbers.ParseToDecimal | utils/numbers.ts:54-80 | reading back a rendered integer gives the integer |
| Numbers.ToDecimalOfParse | utils/numbers.ts:54-80 | rendering a parsed integer gives back the text |
| Strings.FirstOccurrence | utils/strings.ts:9-11 | the split at the first occurrence: s == left + t + right, with no earlier occurrence |
| Strings.Split | utils/strings.ts:6-11 | cuts at every occurrence of the token, empty pieces kept; no contract of its own, `SplitJoin`, `SplitPiecesClean`, `SplitAt` and `SplitWithout` state what the pieces are |
| Strings.SplitJoin | utils/strings.ts:6-11 | joining the pieces of `Split` with the token gives back the string |
| Strings.SplitPiecesClean | utils/strings.ts:6-11 | for a non-empty token, no piece contains the token |
| Strings.SplitAt | utils/strings.ts:6-11 | when the token occurs, the first piece is the text before its first occurrence and the rest split the text after it |
| Strings.SplitWithout | utils/strings.ts:6-11 | a text in which the token does not occur splits into itself alone |
| Strings.LeftClean | utils/strings.ts:6-11 | the text before the first occurrence of a non-empty token does not contain it |
| Strings.CountTokens | utils/strings.ts:64-70 | counts the occurrences of the token; no contract of its own, `SplitCount` and `CountWithoutToken` tie it to `Split` |
| Strings.SplitCount | utils/strings.ts:64-70 | `CountTokens` is one less than the number of `Split` pieces |
| Strings.CountWithoutToken | utils/strings.ts:64-70 | a string without the token counts zero |
| Strings.IsPartialGroup | utils/strings.ts:53-59 | compares the open and close counts; no contract of its own, `PartialGroupBySplit` states it |
| Strings.PartialGroupBySplit | utils/strings.ts:53-59 | a group is partial iff the open and close tokens split the string into different numbers of pieces |
| Strings.SplitGroups | utils/strings.ts:16-48 | top-level group contents in order; no contract of its own, `SplitGroupsNoTokens`, `SplitGroupsTopLevel`, `SplitGroupsNested`, `SplitGroupsLeftover` and the per-depth steps state it |
| Strings.SplitGroupsNoTokens | utils/strings.ts:44-47 | with neither token present the result is [s], or [] for "" |
| Strings.SplitGroupsTopLevel | utils/strings.ts:16-48 | text before a top-level group, the group without delimiters and the text after it are emitted in order |
| Strings.OpenInside | utils/strings.ts:27-33 | inside a group, an open token raises the depth by one and joins the group's text with the text before it |
| Strings.CloseInside | utils/strings.ts:37-43 | below depth 1, a close token lowers the depth by one and joins the group's text with the text before it |
| Strings.CloseGroup | utils/strings.ts:35-36 | at depth 1, a close token emits the gathered text and restarts at depth 0 |
| Strings.SplitGroupsNested | utils/strings.ts:22-43 | a group holding one nested group is emitted whole, the inner delimiters kept and the outer ones dropped |
| Strings.SplitGroupsLeftover | utils/strings.ts:44-48 | with neither token left, text still gathered for an open group makes the whole result `never`, at any depth |
| Strings.SplitGroupsUnclosedInner | utils/strings.ts:16-48 | an inner group that is never closed leaves its gathered text over, so the result is `never` |
| Strings.SplitGroupsUnclosedOuter | utils/strings.ts:16-48 | an outer group that is never closed gathers nothing, so its text comes back as an ordinary piece and the imbalance is not reported |
| StringsExamples.SplitKeepsEmptyPieces | utils/strings.ts:6-11 | "a,b,,c" splits into four pieces, one of them empty |
| StringsExamples.OneGroup | utils/strings.ts:16-48 | "x(a)y" gives ["x", "a", "y"] |
| StringsExamples.NestedGroup | utils/strings.ts:22-43 | "(a(b)c)" gives ["a(b)c"] |
| StringsExamples.AdjacentGroups | utils/strings.ts:22-36 | "(a)(b)" gives `never`: the open token is searched across the whole remainder before the close token |
| ArrayUtil.Replace | utils/array.ts:6-17 | empty input gives `never`; an in-range index replaces exactly that element; an out-of-range index drops the last element |
| Sorting.MapItems | utils/sorting.ts:21-31 | same length and order, each value paired with its key; `never` iff empty |
| Sorting.ExtractItems | utils/sorting.ts:36-45 | the items of the records in order; `never` iff empty |
| Sorting.ExtractMapItems | utils/sorting.ts:21-45 | extracting the items of mapped values gives the values back |
| Sorting.Replace | utils/sorting.ts:50-61 | an in-range index replaces that entry only; an out-of-range index leaves the array unchanged |
| Sorting.Swap | utils/sorting.ts:66-70 | exchanges exactly the two entries; a permutation |
| Sorting.DivBy2 | utils/sorting.ts:84-93 | floor of index / 2 for a non-negative index |
| Sorting.LeftChild | utils/sorting.ts:98-103 | 2 * index + 1 through `TwoN` and `Add`; no contract of its own, `ChildrenOfParent` states it |
| Sorting.RightChild | utils/sorting.ts:108-113 | 2 * index + 2 through `TwoN` and `Add`; no contract of its own, `ChildrenOfParent` states it |
| Sorting.Parent | utils/sorting.ts:118-123 | (index - 1) / 2 for a non-negative index |
| Sorting.ChildrenOfParent | utils/sorting.ts:75-123 | the children of i are 2i+1 and 2i+2, and both have parent i |
| Sorting.SiftUp | utils/sorting.ts:128-136 | a permutation that leaves every entry after the index alone |
| Sorting.SiftTarget | utils/sorting.ts:141-167 | sift-down stops at idx exactly when no child below the limit is larger; otherwise it takes a largest child below the limit, strictly larger than idx, the right one on a tie |
| Sorting.SiftDown | utils/sorting.ts:141-167 | a permutation that touches only indices from idx up to the limit; each step swaps with the child `SiftTarget` describes |
| Sorting.Heapify | utils/sorting.ts:172-180 | a permutation of its input |
| Sorting.SiftUpRestores | utils/sorting.ts:128-136 | sifting up the one out-of-place entry restores the heap property |
| Sorting.HeapifyBuildsHeap | utils/sorting.ts:172-180 | heapify extends a heap prefix to the whole limit |
| Sorting.HeapifyIsHeap | utils/sorting.ts:172-180 | after heapify, no value exceeds its parent's |
| Sorting.HeapSort | utils/sorting.ts:185-199 | the output is a permutation of the items |
| Sorting.Sort | utils/sorting.ts:204-215 | a permutation of the input; `never` iff empty |
| Sorting.ThreeTwoOne | utils/sorting.ts:185-199 | sorting [3,2,1] by value gives [2,1,3], because of the N-1 limit |
| Sorting.HeapifyThreeTwoOne | utils/sorting.ts:172-180 | heapify leaves [3,2,1] as it is |
| Sorting.FirstRound | utils/sorting.ts:185-199 | the first extraction round on [3,2,1] |
| Sorting.SecondRound | utils/sorting.ts:185-199 | the second extraction round, where sift-down stops short |
| Regex.TableLayout | utils/regex.ts:285-384 | 98 entries: tab, newline and carriage return, then ' ' to '~' in code order |
| Regex.NToC | utils/regex.ts:278-280 | the table entry at N, none outside 0..97 |
| Regex.CToN | utils/regex.ts:273 | the table index of a one-character string, none otherwise; no contract of its own, `CharIndexInverse` and `CharIndexSamples` state it |
| Regex.CharIndexInverse | utils/regex.ts:273-488 | `CToN` and `NToC` are inverse on the table |
| Regex.CharIndexSamples | utils/regex.ts:389-488 | sample indices: '0' is 19, 'A' is 36, 'a' is 68, '~' is 97; strings not of length one have none |
| Regex.BuildRange | utils/regex.ts:223-233 | the table characters from an index on, at most 28 steps; no contract of its own, `BuildRangeSize`, `BuildRangeSpan` and `BuildRangeUnbounded` state it |
| Regex.BuildRangeSize | utils/regex.ts:223-233 | a range never holds more than 28 characters |
| Regex.BuildRangeSpan | utils/regex.ts:223-233 | a range whose ends are at most 27 apart holds exactly the table characters between them |
| Regex.BuildRangeUnbounded | utils/regex.ts:223-233 | with no end, or an end before the start, the table characters from the start up to 27 places on |
| Regex.VerifyRange | utils/regex.ts:209-218 | a start that is not one table character gives no characters; at most 28 |
| Regex.ParseRange | utils/regex.ts:193-204 | the character set of a class text; no contract of its own, `ParseRangePlain`, `ParseRangeStep`, `SimpleRange` and the class-member lemmas state it |
| Regex.ParseRangePlain | utils/regex.ts:193-204 | a class without '-' is the set of its characters |
| Regex.PrintableSpan | utils/regex.ts:285-384 | a table span between printable characters is exactly the characters between them |
| Regex.SimpleRange | utils/regex.ts:209-233 | a printable range spanning at most 27 steps is that span |
| Regex.DigitClassMembers | utils/regex.ts:145-152 | `\d` is exactly '0'..'9' |
| Regex.WordClassMembers | utils/regex.ts:145-152 | `\w` is exactly letters, digits and '_' |
| Regex.ParseRangeStep | utils/regex.ts:193-204 | a class reads its first `start-end` piece, then the rest |
| Regex.CheckSpecial | utils/regex.ts:157-165 | '.' is any character, '+' is {1,}, '*' is {0,}, '?' is {0,1} |
| Regex.CheckLiteral | utils/regex.ts:170-176 | an escaped character is a class or else that character as a literal |
| Regex.EscapeClasses | utils/regex.ts:145-176 | `\w` is `ParseRange<"a-zA-Z0-9_">`, `\s` is tab and space, `\d` is `ParseRange<"0-9">` |
| Regex.NextToken | utils/regex.ts:128-141 | every token takes at least one character, leaves a suffix of the pattern and is a raw token; a `never` token needs a leading '{'; a plain character is a literal |
| Regex.CharToken | utils/regex.ts:128-141 | without a closed `{...}` or `[...]` in front: one character or one escape is taken, the token is raw and not `never`, and a plain character is a literal |
| Regex.NextTokenRepeat | utils/regex.ts:128-141 | a closed `{...}` is read first, as `ParseRepeating` of its text, which is `never` for a malformed spec |
| Regex.NextTokenClass | utils/regex.ts:128-141 | a closed `[...]` is a class of `ParseRange` of its text |
| Regex.NextTokenSpecial | utils/regex.ts:128-141 | `. + * ?` are read by `CheckSpecial` |
| Regex.NextTokenEscape | utils/regex.ts:128-141 | a backslash reads the next character with `CheckLiteral` |
| Regex.ParseRepeating | utils/regex.ts:181-188 | a spec text gives an unattached repeat or `never`; `RepeatSpecForms` and `RepeatSpecOnlyForms` state which texts give which bounds |
| Regex.RepeatSpecForms | utils/regex.ts:181-188 | `{n,m}` gives (n,m), `{n,}` gives (n,-1), `{n}` gives (n,n) |
| Regex.RepeatToken | utils/regex.ts:128-141 | a pattern starting `{n,m}` reads as a quantifier from n to m followed by the rest |
| Regex.RepeatSpecOnlyForms | utils/regex.ts:181-188 | those three are the only spec texts that parse; any other text is `never` |
| Regex.NoCommaInDecimal | utils/regex.ts:181-188 | a rendered integer has no comma, so the three forms cannot be confused |
| Regex.ParseRegex | utils/regex.ts:115-123 | no more tokens than characters, at least one for a non-empty pattern, all raw, and a `never` token only in a pattern containing '{' |
| Regex.ParseCons | utils/regex.ts:115-123 | a pattern parses as its first token followed by the parse of the rest |
| Regex.Literals | utils/regex.ts:128-141 | one literal token per character, in order |
| Regex.ParsePlain | utils/regex.ts:115-141 | a pattern without metacharacters parses to its literals |
| Regex.ParsePlainPrefix | utils/regex.ts:115-141 | a plain prefix parses to its literals in front of the rest's tokens |
| Regex.LiteralHead | utils/regex.ts:128-141 | a plain first character is read as a literal |
| Regex.Collapse | utils/regex.ts:98-110 | a merged list is never longer than the input |
| Regex.ExpandRaw | utils/regex.ts:98-110 | splitting repeats back is the identity on raw tokens |
| Regex.CollapseExpand | utils/regex.ts:98-110 | without `never` tokens the merge gives a list free of them, and splitting its repeats back gives the tokenizer's list: order kept, only quantifiers folded in |
| Regex.CollapseLiteralPrefix | utils/regex.ts:98-110 | literals followed by a token that is neither a quantifier nor `never` pass through unchanged |
| Regex.CollapsePair | utils/regex.ts:98-110 | a token followed by a quantifier becomes one repeat with the quantifier's bounds |
| Regex.CollapseNoRepeats | utils/regex.ts:98-110 | without quantifiers or `never` tokens the merge is the identity |
| Regex.Compile | utils/regex.ts:27-30 | tokenize, then merge; no contract of its own, `CollapseExpand`, `NeverNeedsSpec` and `OptionalCharCompiles` state what it yields |
| Regex.IsMatch | utils/regex.ts:17-22 | `never` from the merge, else the state machine from count 0; no contract of its own, `IsMatchCompiled`, `PlainMatchesItself`, `OptionalChar` and `NeverNeedsSpec` state it |
| Regex.CheckMatch | utils/regex.ts:82-93 | a literal matches its character, a class its members; no contract of its own, `RepeatTakes` and `NeverTakesAnyChar` use it for repeats and `never` |
| Regex.InRange | utils/regex.ts:68-77 | Min <= N, and N <= Max unless Max is -1; no contract of its own, `RepeatWhole` states where the matcher checks it |
| Regex.Run | utils/regex.ts:35-63 | the single-pass state machine; no contract of its own, `RunAnswers`, `NoTokens`, `NeverTakesAnyChar`, `RepeatTakes`, `RepeatWhole`, `PrefixAccepted` and `AnyCharOfPattern` state it |
| Regex.IsMatchCompiled | utils/regex.ts:17-22 | `IsMatch` runs the state machine on the compiled tokens from count 0 |
| Regex.NeverNeedsSpec | utils/regex.ts:17-141 | `IsMatch` is `never` only for a pattern containing '{', because only a malformed repeat spec yields a `never` token |
| Regex.RunAnswers | utils/regex.ts:35-63 | on tokens without `never` the state machine always gives an answer |
| Regex.NeverTakesAnyChar | utils/regex.ts:43-48 | a leading `never` token consumes any one character |
| Regex.ValidateRegEx | utils/regex.ts:7-12 | the candidate is accepted iff `IsMatch` is true or `never`; otherwise it is rejected |
| Regex.NoTokens | utils/regex.ts:39-42 | with no tokens left, or only `never` tokens, the matcher succeeds iff the candidate is empty |
| Regex.RepeatTakes | utils/regex.ts:49-54 | a repeat takes every character its token matches, counting them |
| Regex.RepeatWhole | utils/regex.ts:49-61 | a lone repeat over matching text succeeds iff its length is within the bounds, checked only at the end |
| Regex.PrefixAccepted | utils/regex.ts:43-47 | any non-empty prefix of a plain pattern is accepted, because the machine stops at the candidate's last character |
| Regex.AnyCharOfPattern | utils/regex.ts:43-55 | any single character of a plain pattern is accepted, because mismatching literals are skipped |
| Regex.RunLiteralPrefix | utils/regex.ts:43-47 | a literal prefix consumes the same candidate prefix |
| Regex.OptionalChar | utils/regex.ts:17-63 | `p u? q` compiles to a {0,1} repeat and accepts both p q and p u q |
| Regex.OptionalCharCompiles | utils/regex.ts:98-141 | `p u? q` compiles to the literals of p, a {0,1} repeat of u and the literals of q |
| Regex.PlainMatchesItself | utils/regex.ts:7-63 | a plain pattern matches and validates itself |
| RegexExamples.OnePlusParse | utils/regex.ts:115-141 | "a+" parses to a literal and a {1,} quantifier |
| RegexExamples.OnePlusCompiles | utils/regex.ts:98-110 | "a+" compiles to one {1,} repeat |
| RegexExamples.OnePlusRun | utils/regex.ts:35-63 | "a+" on a run of a's succeeds iff the run is non-empty |
| RegexExamples.OnePlus | utils/regex.ts:7-63 | "a+" matches "aaa"; "" gives the unmet-range error and is rejected |
| RegexExamples.Colour | utils/regex.ts:17-63 | "colou?r" matches "color" and "colour" |
| RegexExamples.DigitClassToken | utils/regex.ts:128-152 | "[0-9]" reads as the digit class |
| RegexExamples.TwoToThreeToken | utils/regex.ts:181-188 | "{2,3}" reads as a (2,3) quantifier |
| RegexExamples.DigitsParse | utils/regex.ts:115-141 | "[0-9]{2,3}" parses to a class and a quantifier |
| RegexExamples.DigitsCompile | utils/regex.ts:98-110 | "[0-9]{2,3}" compiles to one (2,3) repeat of the class |
| RegexExamples.DigitsRun | utils/regex.ts:35-77 | on digit strings, "[0-9]{2,3}" succeeds iff the length is 2 or 3 |
| RegexExamples.TwoOrThreeDigits | utils/regex.ts:49-61 | accepts "42" and "123"; rejects "4" and "1234" |
| RegexExamples.SkippingQuirks | utils/regex.ts:43-55 | "abc" matches "c", "ab" matches "a", and "a" does not match "ab" |
| RegexExamples.BadSpecToken | utils/regex.ts:128-130 | "{x}" reads as a `never` token, followed by the rest of the pattern |
| RegexExamples.BadSpecParse | utils/regex.ts:115-123 | "{x}" parses to a single `never` token |
| RegexExamples.BadSpecAlone | utils/regex.ts:35-42 | with "{x}" alone the token list counts as empty: "" matches and "anything" is rejected |
| RegexExamples.BadSpecFirstCompiles | utils/regex.ts:98-123 | "{x}b" compiles to a `never` token followed by the literal b |
| RegexExamples.CollapseLeadingNever | utils/regex.ts:98-110 | a leading `never` token followed by one plain token is kept as it is |
| RegexExamples.BadSpecFirst | utils/regex.ts:35-63 | "{x}b" matches "zb" but not "zz"; on "" the outcome is `never`, so "" is accepted |
| RegexExamples.BadSpecLastCompiles | utils/regex.ts:98-123 | "ab{x}" compiles to the literals of "ab" |
| RegexExamples.CollapseTrailingNever | utils/regex.ts:103-108 | a trailing `never` after two plain tokens is dropped |
| RegexExamples.PlainCompiles | utils/regex.ts:27-30 | a pattern without metacharacters compiles to its literals |
| RegexExamples.BadSpecLast | utils/regex.ts:17-30 | "ab{x}" decides every candidate as "ab" does |
| RegexExamples.BadSpecAfterToken | utils/regex.ts:98-110 | "a{x}" compiles to `never`, so every candidate is accepted |
| SudokuCommon.AllDigits | problems/sudoku/common.ts:14 | nine digits, '1' to '9' in order |
| SudokuCommon.AllDigitsListsDigits | problems/sudoku/common.ts:8-14 | the list holds exactly the digits, strictly ascending |
| SudokuCommon.Cell | problems/sudoku/common.ts:19 | a cell exists iff the indices are on the board, and holds the board's value there |
| SudokuCommon.UpdateBoard | problems/sudoku/common.ts:78-90 | an empty board gives `never` |
| SudokuCommon.UpdateBoardInRange | problems/sudoku/common.ts:78-90 | an in-range row changes only that row, at that column |
| SudokuCommon.UpdateBoardPastEnd | problems/sudoku/common.ts:88 | a row past the end drops the board's last row |
| SudokuValidation.Contains | problems/sudoku/validation.ts:82-98 | whether a position is among the placements; no contract of its own, `ContainsIsMembership` states it |
| SudokuValidation.RowColumnCollision | problems/sudoku/validation.ts:47-61 | whether a placement shares the row or column; no contract of its own, `CollisionIsSharedLine` states it |
| SudokuValidation.SubMatrixContains | problems/sudoku/validation.ts:66-77 | whether a placement lies in the block; no contract of its own, `SubMatrixContainsIsOverlap` states it |
| SudokuValidation.BuildSubMatrix | problems/sudoku/validation.ts:103-116 | the nine cells of a block, row-major; no contract of its own, `BuildSubMatrixFrom`, `BuildSubMatrixSize` and `SubMatrixCells` state it |
| SudokuValidation.CheckValidMove | problems/sudoku/validation.ts:32-42 | a move is allowed iff nothing placed shares its row, column or block; no contract of its own, `CheckValidMoveAnswers` and `AllowedIffFree` state it |
| SudokuValidation.ContainsIsMembership | problems/sudoku/validation.ts:82-98 | on a non-empty list, exact (row, column) membership |
| SudokuValidation.CollisionIsSharedLine | problems/sudoku/validation.ts:47-61 | on a non-empty list, some placement shares the row or the column |
| SudokuValidation.SubMatrixContainsIsOverlap | problems/sudoku/validation.ts:66-77 | on non-empty lists, some placement lies in the sub-grid |
| SudokuValidation.BuildSubMatrixFrom | problems/sudoku/validation.ts:103-116 | the positions still to be listed from (r, c) on, in row-major order |
| SudokuValidation.BuildSubMatrixSize | problems/sudoku/validation.ts:103-116 | the number of positions still to be listed |
| SudokuValidation.SubMatrixCells | problems/sudoku/validation.ts:103-116 | a sub-grid is exactly its 9 cells, 3 rows by 3 columns |
| SudokuValidation.SubMatrixMap | problems/sudoku/validation.ts:130 | nine entries |
| SudokuValidation.SubMatrixMapDivides | problems/sudoku/validation.ts:130 | entry i is i / 3 |
| SudokuValidation.SubMatrixPositions | problems/sudoku/validation.ts:121-125 | defined exactly for sub-grid indices 0..2 by 0..2 |
| SudokuValidation.SubMatrixOfCell | problems/sudoku/validation.ts:121-130 | the sub-grid of a board cell is the 3x3 block holding it |
| SudokuValidation.CheckValidMoveAnswers | problems/sudoku/validation.ts:32-42 | no placements gives "already placed"; otherwise the sub-grid test, then the row/column test, then true |
| SudokuValidation.AllowedIffFree | problems/sudoku/validation.ts:32-42 | a move passes iff there are placements and none shares its block, row or column |
| SudokuValidation.CheckNotUsed | problems/sudoku/validation.ts:10-27 | exactly the listed columns whose cell is "." and whose move passes; `never` iff no columns |
| SudokuValidation.CheckNotUsedAscending | problems/sudoku/validation.ts:10-27 | input order is kept |
| SudokuGraph.ContainsRow | problems/sudoku/graph.ts:100-111 | whether a placement is on the row; no contract of its own, `ContainsRowIsTaken` states it |
| SudokuGraph.ContainsColumn | problems/sudoku/graph.ts:116-127 | whether a placement is on the column; no contract of its own, `ContainsColumnIsTaken` states it |
| SudokuGraph.GetValidRows | problems/sudoku/graph.ts:82-86 | the free rows from n up; no contract of its own, `ValidRows` states it |
| SudokuGraph.GetValidColumns | problems/sudoku/graph.ts:91-95 | the free columns from n up; no contract of its own, `ValidColumns` states it |
| SudokuGraph.GetCandidates | problems/sudoku/graph.ts:43-57 | the free rows of a digit with their free columns; no contract of its own, `CandidatesOfDigit` and `GraphReady` state it |
| SudokuGraph.ContainsRowIsTaken | problems/sudoku/graph.ts:100-111 | on a non-empty list, some placement is in the row |
| SudokuGraph.ContainsColumnIsTaken | problems/sudoku/graph.ts:116-127 | on a non-empty list, some placement is in the column |
| SudokuGraph.ValidRows | problems/sudoku/graph.ts:100-111 | ascending rows n..8 with no placement; none when there are no placements |
| SudokuGraph.ValidColumns | problems/sudoku/graph.ts:116-127 | ascending columns n..8 with no placement; none when there are no placements |
| SudokuGraph.GetGraphPlacements | problems/sudoku/graph.ts:62-77 | one entry per row, each `CheckNotUsed` of that row; `never` iff no rows |
| SudokuGraph.CandidatesOfDigit | problems/sudoku/graph.ts:43-77 | the candidate rows are the free rows, and each row's columns are exactly the free, blank and legal ones |
| SudokuGraph.BuildGraph | problems/sudoku/graph.ts:24-38 | one entry per listed digit, each its candidates; `never` iff no digits |
| SudokuGraph.GraphHasEveryDigit | problems/sudoku/graph.ts:24-38 | the graph of all digits has exactly the nine digit keys |
| SudokuState.DigitSet | problems/sudoku/common.ts:8 | exactly the nine digits |
| SudokuState.UpdateStatePosition | problems/sudoku/state.ts:77-92 | records one digit cell; no contract of its own, `UpdateLookups` states its effect on every digit |
| SudokuState.UpdateLookups | problems/sudoku/state.ts:77-92 | after a record, each digit keeps its list and counter, except the placed digit: its list gains the position and its counter drops by one |
| SudokuState.UpdateCounter | problems/sudoku/state.ts:114-122 | all digits keyed; only the placed digit's counter drops, missing counters start at 9 |
| SudokuState.AddPosition | problems/sudoku/state.ts:97-109 | all digits keyed; the position is appended to that digit's list only |
| SudokuState.CheckState | problems/sudoku/state.ts:54-65 | every digit has a counter and a list, existing entries kept, defaults 9 and [] |
| SudokuState.MissingKeys | problems/sudoku/state.ts:70-72 | the digits not among the keys |
| SudokuState.ExtractState | problems/sudoku/state.ts:17-35 | the row-major walk over the board; no contract of its own, `ExtractRecords` and `InitialStateRecordsBoard` state it |
| SudokuState.ExtractRecords | problems/sudoku/state.ts:17-35 | the walk from any cell keeps each digit's list and counter in step with the board |
| SudokuState.InitialStateRecordsBoard | problems/sudoku/state.ts:17-35 | every digit is keyed, counter + placements is 9, lists are row-major, and a position is listed iff it holds that digit |
| SudokuState.ExtractCounters | problems/sudoku/state.ts:135-142 | each digit paired with its counter, in order; `never` iff no digits |
| SudokuState.ExtractDigits | problems/sudoku/state.ts:147-156 | the digits of the pairs, in order; `never` iff none |
| SudokuState.SortDigitsReorders | problems/sudoku/state.ts:135-156 | heap-sorting digits by counter gives a reordering of them |
| SudokuState.SortState | problems/sudoku/state.ts:40-49 | the digits by remaining count; no contract of its own, `SortStateReorders` states it |
| SudokuState.SortStateReorders | problems/sudoku/state.ts:40-49 | the digit order is a permutation of the nine digits |
| SudokuSolver.WriteFillsBlank | problems/sudoku/solver.ts:109-111 | writing a digit into a "." cell puts it there and changes no given |
| SudokuSolver.ListsAfterWrite | problems/sudoku/solver.ts:141 | after a write, the written digit's placement list gains the cell and every other digit's list still lists exactly its cells |
| SudokuSolver.ReadyAfterWrite | problems/sudoku/solver.ts:139-160 | the digits still to come keep exact placement lists across a write of the current digit |
| SudokuSolver.AllowedNoClash | problems/sudoku/solver.ts:110 | a move that passed `CheckValidMove` shares no row, column or block with any listed placement |
| SudokuSolver.WrittenLastClean | problems/sudoku/solver.ts:109-160 | the cell just written shares no row, column or block with any other cell that ends up holding its digit |
| SudokuSolver.WritesCleanStep | problems/sudoku/solver.ts:109-160 | a checked write followed by clean writes leaves only clean writes |
| SudokuSolver.CrossHatchingBacktrack | problems/sudoku/solver.ts:38-58 | digit by digit in the given order; no contract of its own, `BacktrackSolved` states it |
| SudokuSolver.RecursiveBackfillDigit | problems/sudoku/solver.ts:65-89 | row by row over a digit's candidate rows; no contract of its own, `BackfillDigitSolved` states it |
| SudokuSolver.RecursiveBackfillRow | problems/sudoku/solver.ts:97-190 | tries each candidate column of a row; no contract of its own, `BackfillRowSolved` states it |
| SudokuSolver.Solve | problems/sudoku/solver.ts:20-32 | graph, order and search on the board; no contract of its own, `SolvedBoard`, `SolvedSudoku` and the not-solved lemmas state it |
| SudokuSolver.BacktrackSolved | problems/sudoku/solver.ts:38-58 | a solved board keeps the givens, completes every digit in the order, and every cell it wrote clashes with no other cell of its digit |
| SudokuSolver.BackfillDigitSolved | problems/sudoku/solver.ts:65-89 | a solved board fills every candidate row of the digit, completes the remaining digits, and writes only clean cells |
| SudokuSolver.BackfillRowSolved | problems/sudoku/solver.ts:97-190 | the digit went into a "." cell of the row whose move passed, the later rows and digits are done, and every write is clean |
| SudokuSolver.SolvedDigitRows | problems/sudoku/solver.ts:65-89 | a completed digit appears in every row |
| SudokuSolver.SolvedDigitRowData | problems/sudoku/solver.ts:38-58 | a completed digit had placements and a free row |
| SudokuSolver.GivenDigit | problems/sudoku/graph.ts:43-57 | such a digit is on the board and missing from some row |
| SudokuSolver.OrderReady | problems/sudoku/solver.ts:20-32 | the sorted order lists each digit once, and each digit's initial placements list exactly its cells |
| SudokuSolver.GraphReady | problems/sudoku/graph.ts:43-57 | the graph offers only cells of the 9x9 grid |
| SudokuSolver.SolvedBoard | problems/sudoku/solver.ts:20-32 | a solution keeps the givens, holds every digit in every row, and every written cell clashes with no other cell of its digit; every digit was given and missing from some row |
| SudokuSolver.EveryDigitOnce | problems/sudoku/solver.ts:20-32 | nine cells holding all nine digits hold each exactly once and nothing else |
| SudokuSolver.NineDistinctDigits | problems/sudoku/solver.ts:20-32 | nine digits of which none repeats are the nine digits, each once |
| SudokuSolver.SolvedRow | problems/sudoku/solver.ts:20-32 | a row that holds every digit is a rearrangement of the nine digits |
| SudokuSolver.SolvedPairClean | problems/sudoku/solver.ts:97-190 | on a returned board, two cells with the same digit share no row, column or block, when the givens repeat none |
| SudokuSolver.FullColumns | problems/sudoku/solver.ts:20-32 | a full board without repeats has each digit exactly once in every column |
| SudokuSolver.FullBlocks | problems/sudoku/solver.ts:20-32 | a full board without repeats has each digit exactly once in every 3x3 block |
| SudokuSolver.CleanFillIsSudoku | problems/sudoku/solver.ts:20-32 | a clean fill of a 9x9 board whose givens repeat nothing, with every digit in every row, is a solved sudoku |
| SudokuSolver.SolvedSudoku | problems/sudoku/solver.ts:20-32 | on a 9x9 board whose givens repeat no digit in a row, column or block, a returned board keeps the givens and every row, column and block holds each digit exactly once |
| SudokuSolver.RowRepeatNotSolved | problems/sudoku/solver.ts:20-32 | a 9x9 board with a digit twice in one row yields no solution |
| SudokuSolver.FullDigitNotSolved | problems/sudoku/solver.ts:20-58 | a board on which some digit is already complete yields no solution |
| SudokuSolver.AbsentDigitNotSolved | problems/sudoku/solver.ts:20-58 | a board lacking some digit entirely yields no solution |
| TwoSumProblem.Complement | problems/1_twosum.ts:38 | target - value |
| TwoSumProblem.Insert | problems/1_twosum.ts:39 | adds the complement's index, `never` on a repeated key; no contract of its own, `InsertKeepsMap` and `RepeatedValue` state it |
| TwoSumProblem.InsertKeepsMap | problems/1_twosum.ts:39 | adding a complement keeps the map exact (each complement of the values seen, under its index), or makes it `never` exactly when the value repeats an earlier one |
| TwoSumProblem.KeyMeansPair | problems/1_twosum.ts:33 | on an exact map, a value is a key iff an earlier value completes it |
| TwoSumProblem.FirstMap | problems/1_twosum.ts:15-16 | the starting map holds exactly the first value's complement, at index 0 |
| TwoSumProblem.SinglePass | problems/1_twosum.ts:27-42 | the single pass with the complement map; no contract of its own, `SinglePassStep`, `SinglePassResult` and `ExactPassResult` state it |
| TwoSumProblem.SinglePassStep | problems/1_twosum.ts:27-42 | one step: a `never` map answers with `never` at once, a found value answers, the last value exhausts, otherwise the pass moves on with the complement added |
| TwoSumProblem.ExpectedOutcome | problems/1_twosum.ts:27-42 | the reference answer is the first position where a value has repeated or an earlier value completes the current one; `never` for the index exactly in the first case |
| TwoSumProblem.ExpectedSkips | problems/1_twosum.ts:35-39 | where no value has repeated and nothing completes the value, the answer is the one from the next position |
| TwoSumProblem.HitIndex | problems/1_twosum.ts:33-34 | with no value repeated, the stored index is the only earlier index completing the value |
| TwoSumProblem.MissStep | problems/1_twosum.ts:35-39 | a value not found, before the last, hands on to the rest of the pass with its complement added |
| TwoSumProblem.MissResult | problems/1_twosum.ts:35-39 | a value not found passes on the answer of the rest of the pass |
| TwoSumProblem.CollapsedResult | problems/1_twosum.ts:33-34 | on a `never` map the pass answers `never` for the index at once, where a value has already repeated, as the reference does |
| TwoSumProblem.HitResult | problems/1_twosum.ts:33-34 | a value found among the keys answers with the one earlier index completing it |
| TwoSumProblem.LastResult | problems/1_twosum.ts:35-36 | the last value, not found, gives "exhausted" |
| TwoSumProblem.MapResult | problems/1_twosum.ts:32-42 | on an exact map, one step of the pass agrees with the reference answer |
| TwoSumProblem.ExactPassResult | problems/1_twosum.ts:27-42 | from an exact map of the values before position n, the pass gives the reference answer |
| TwoSumProblem.SinglePassResult | problems/1_twosum.ts:27-42 | from each position, with the map of the values before it, the pass gives the reference answer |
| TwoSumProblem.NextOutcome | problems/1_twosum.ts:35-39 | a position where the pass does not stop does not change its outcome |
| TwoSumProblem.TwoSum | problems/1_twosum.ts:8-19 | the entry point; no contract of its own, `TwoSumOutcome`, `FoundPair`, `ExhaustedIffNoPair` and `AlwaysAnswers` state it |
| TwoSumProblem.TwoSumOutcome | problems/1_twosum.ts:8-19 | for two or more values the answer is the first stop, or exhaustion when there is none |
| TwoSumProblem.FoundPair | problems/1_twosum.ts:8-42 | for [i, j], no earlier position has a partner; i is a real index iff no value repeats before j, and then it is the one index below j with values[i] + values[j] == target; otherwise the value at j - 1 repeats an earlier one |
| TwoSumProblem.ExhaustedIffNoPair | problems/1_twosum.ts:34-36 | "exhausted" iff no two values sum to the target and no value before the last repeats |
| TwoSumProblem.DistinctValuesAnswer | problems/1_twosum.ts:8-42 | on values that are all different, a pair answer carries a real index |
| TwoSumProblem.AlwaysAnswers | problems/1_twosum.ts:8-19 | `never` iff empty; "too few" iff one value |
| TwoSumProblem.FirstFixture | solutions/1_twosum.ts:6 | [2,7,11,15], 9 gives [0,1] |
| TwoSumProblem.SecondFixture | solutions/1_twosum.ts:8 | [3,2,4], 6 gives [1,2] |
| TwoSumProblem.ThirdFixture | solutions/1_twosum.ts:10 | [3,3], 6 gives [0,1] |
| TwoSumProblem.FourthFixture | solutions/1_twosum.ts:12-13 | [1,2,3,4,5], 12 is exhausted |
| TwoSumProblem.FifthFixture | solutions/1_twosum.ts:15 | [-1,2,-3], -1 gives [1,2] |
| TwoSumProblem.RepeatedValue | problems/1_twosum.ts:39 | [1,1,5], 100 gives [never, 2]: the repeated 1 makes the map `never` |
| TwoSumProblem.RepeatedValueHidesPair | problems/1_twosum.ts:33-39 | [1,1,2,3], 5 gives [never, 2], although 2 + 3 == 5 |

## Left out

- The arithmetic helpers of utils/math.js and utils/numberArrays.js are not part of this model. `Increment`/`Decrement` are n + 1 and n - 1. `GT`, `LT`, `GTE`, `LTE` and math `Add` are ordinary integer operations.
- Numbers.UnsignedAdd: a negative right operand is `never`. The source steps `Decrement` down a finite table that is not part of this model.
- Integer literals are read back only in canonical decimal form (`ParseNumber`). Type-level inference of other numeric spellings is not modelled.
- utils/objects.ts (`Flatten`) is a type-level identity; records are modelled directly.
- main.ts is not modelled. The fixtures of solutions/1_twosum.ts appear only as example lemmas.
- Error message text is not modelled. Each error string is a distinct constructor.
- Regex: a `never` token follows TypeScript's rules for `never`, written out case by case: it passes a test on a non-generic check type, a conditional whose check type is an inferred variable bound to it gives `never`, a tuple that spreads `never` is `never`, and a list of only `never`s extends `never[]`. The compiler's own reasoning is not modelled.
- Regex: the "invalid range" branch of `ParseRange` cannot be reached from any pattern, so it is not modelled.
- Regex: an unclosed `[` or `{` is read as a literal character, as the code does; it is not reported as an error.
- Regex: the "exhausted tokens" and "failed to match regex" results of `RunStateMachine` are not modelled. They need a token that is not a `RegexToken`.
- Regex: strings are sequences of Unicode scalar values, not UTF-16 code units. The source's template-literal inference steps one code unit at a time, so a character outside the Basic Multilingual Plane (a surrogate pair) is one step in this model and two in the source. Patterns and candidates containing such characters are not modelled.
- The 98-entry character tables of utils/regex.ts are written as a formula: tab, newline and carriage return, then ' '..'~'. They are not listed entry by entry.
- SudokuCommon.UpdateBoard: a `never` from `Replace` inside the row update is propagated as `never`.
- SudokuValidation.BuildSubMatrix: requires the row and column offsets to lie in 0..3, as every caller's do.
- SudokuValidation.CheckValidMoveAnswers: off the 9x9 board the sub-grid lookup is `never`; the lemmas cover on-board cells.
- SudokuState.SortState: requires a counter for every digit. After `CheckState` that always holds; a missing counter is ill-typed in the source.
- SudokuState.ExtractState: the walk also visits row 9, which lies off a 9-row board, and stops at (9, 9), as the code does.
- SudokuGraph.GetGraphPlacements: with duplicate rows, the first row's entry is kept. The rows from `GetValidRows` are always distinct.
- SudokuSolver: a graph entry that is `never` passes `extends infer … RowData`. It is modelled as the whole search yielding `never`.
- SudokuSolver: a digit missing from the positions map gives `never`.
- SudokuSolver.SolvedBoard: a board on which some digit already fills every row, a complete board included, yields `never`, not the board itself: that digit has no candidate rows, so its graph entry is `never` (FullDigitNotSolved).
- SudokuSolver: the lemmas prove what a returned board satisfies. Completeness, meaning that a board is found whenever one exists, is not stated.
- SudokuSolver.SolvedSudoku: requires givens that repeat no digit in a column or a block. The search never checks the givens against each other, so with such a repeat a board may come back whose columns or blocks repeat it; only a repeat in a row is ruled out (RowRepeatNotSolved).
- TwoSumProblem.Insert: an existing key makes the map `never`, following TypeScript's reduction of an intersection whose property holds two different literal types. The compiler's own reduction is not modelled.
- TypeScript compiler recursion limits are not modelled; every recursion runs to completion.
