/**
 * The backtracking search (problems/sudoku/solver.ts): digit by digit in
 * the sorted order, each digit's candidate rows in graph order, each row's
 * candidate columns in order, retrying the next column with the board from
 * before the tentative write when the rest of the search fails.
 */
module SudokuSolver {
  import opened TypeLevel
  import opened SudokuCommon
  import opened SudokuValidation
  import opened SudokuState
  import opened SudokuGraph

  /** The non-`never` results: a board, `"No Solution"` or `false`. */
  datatype Search = Solved(board: Board) | NoSolution | Unplaced

  /** `X extends infer Completed extends Board`: a board, or `never`. */
  predicate Yields(x: Ty<Search>)
  {
    x.Never? || x.value.Solved?
  }

  /**
   * `CrossHatchingBacktrack<Current, Graph, Positions, Order>`: start the
   * first digit of the order on its candidate rows.  A row data of `never`
   * (a digit without placements or without free rows) gives `never`.
   */
  function CrossHatchingBacktrack(current: Board, graph: Graph, positions: map<char, seq<Pos>>, order: seq<char>): Ty<Search>
    decreases |order|, 1, 0, 0, 0
  {
    if order == [] then Never
    else
      var d := order[0];
      if d !in graph || !IsDigit(d) || d !in positions then Never
      else
        match graph[d]
        case Never => Never
        case Val(data) => RecursiveBackfillDigit(d, current, graph, positions, positions[d], data, order[1..], data.rows)
  }

  /** `RecursiveBackfillDigit<...>`: fill the first remaining row of the digit. */
  function RecursiveBackfillDigit(d: char, current: Board, graph: Graph, positions: map<char, seq<Pos>>,
                                  placed: seq<Pos>, data: RowData, remainingDigits: seq<char>, rows: seq<int>): Ty<Search>
    decreases |remainingDigits|, 2, |rows|, 1, 0
  {
    if rows == [] then Never
    else
      var row := rows[0];
      if row !in data.columns then Never
      else
        match data.columns[row]
        case Never => Never
        case Val(columns) =>
          RecursiveBackfillRow(d, current, graph, positions, placed, data, row, remainingDigits, rows[1..], columns)
  }

  /**
   * `RecursiveBackfillRow<...>`: try the digit in the first column; on a
   * write, go on with the next row (or the next digit), and fall back to the
   * remaining columns with the old board and placements when that fails.
   */
  function RecursiveBackfillRow(d: char, current: Board, graph: Graph, positions: map<char, seq<Pos>>,
                                placed: seq<Pos>, data: RowData, row: int,
                                remainingDigits: seq<char>, remainingRows: seq<int>, columns: seq<int>): Ty<Search>
    decreases |remainingDigits|, 2, |remainingRows|, 2, |columns|
  {
    if columns == [] then Never
    else
      var column := columns[0];
      var remainingColumns := columns[1..];
      if Cell(current, row, column) == Some('.') then
        if Allowed(CheckValidMove(placed, row, column)) then
          match UpdateBoard(current, row, column, d, 0)
          case Never => Never
          case Val(updated) =>
            if remainingRows == [] && remainingDigits == [] then Val(Solved(updated))
            else
              var deeper :=
                if remainingRows == [] then CrossHatchingBacktrack(updated, graph, positions, remainingDigits)
                else RecursiveBackfillDigit(d, updated, graph, positions, [Pos(row, column)] + placed, data, remainingDigits, remainingRows);
              if Yields(deeper) then deeper
              else if remainingColumns == [] then Val(NoSolution)
              else RecursiveBackfillRow(d, current, graph, positions, placed, data, row, remainingDigits, remainingRows, remainingColumns)
        else if remainingColumns == [] then Val(Unplaced)
        else RecursiveBackfillRow(d, current, graph, positions, placed, data, row, remainingDigits, remainingRows, remainingColumns)
      else if remainingColumns == [] then Val(NoSolution)
      else RecursiveBackfillRow(d, current, graph, positions, placed, data, row, remainingDigits, remainingRows, remainingColumns)
  }

  /**
   * `SudokuSolver<Current>`: extract the state, build the graph from the
   * initial board, sort the digits, and search from each digit's initial
   * placements.
   */
  function Solve(current: Board): Ty<Search>
  {
    var s := InitialState(current);
    InitialStateRecordsBoard(current);
    match BuildGraph(current, s, AllDigits())
    case Never => Never
    case Val(graph) =>
      match SortState(s)
      case Never => Never
      case Val(order) => CrossHatchingBacktrack(current, graph, s.placed, order)
  }

  // ---------------------------------------------------------------------
  // What a solved board satisfies
  // ---------------------------------------------------------------------

  /**
   * `b` has the shape of `a`, keeps every cell of `a` other than ".", and
   * holds a digit wherever it differs from `a`.
   */
  ghost predicate FillsBlanks(a: Board, b: Board)
  {
    && |b| == |a|
    && (forall r :: 0 <= r < |a| ==> |b[r]| == |a[r]|)
    && forall r, c :: 0 <= r < |a| && 0 <= c < |a[r]| && b[r][c] != a[r][c] ==> a[r][c] == '.' && IsDigit(b[r][c])
  }

  lemma FillsBlanksTransitive(a: Board, m: Board, b: Board)
    requires FillsBlanks(a, m) && FillsBlanks(m, b)
    ensures FillsBlanks(a, b)
  {
    forall r, c | 0 <= r < |a| && 0 <= c < |a[r]| && b[r][c] != a[r][c]
      ensures a[r][c] == '.' && IsDigit(b[r][c])
    {
      if m[r][c] == a[r][c] {
        assert b[r][c] != m[r][c];
      } else {
        assert m[r][c] != '.';
      }
    }
  }

  /** Row `r` got digit d, in one of `columns`, at a cell that was "." in `current`. */
  ghost predicate FilledRow(current: Board, b: Board, d: char, r: int, columns: seq<int>)
  {
    exists c :: c in columns && Cell(current, r, c) == Some('.') && Cell(b, r, c) == Some(d)
  }

  /** Every candidate row of the digit got the digit in one of its candidate columns. */
  ghost predicate DigitDone(current: Board, b: Board, graph: Graph, d: char)
  {
    && d in graph && graph[d].Val?
    && forall r :: r in graph[d].value.rows ==>
      r in graph[d].value.columns && graph[d].value.columns[r].Val? &&
      FilledRow(current, b, d, r, graph[d].value.columns[r].value)
  }

  /** A fill found on a filled-in board is one on the board before. */
  lemma FilledRowEarlier(current: Board, m: Board, b: Board, d: char, r: int, columns: seq<int>)
    requires FillsBlanks(current, m) && FilledRow(m, b, d, r, columns)
    ensures FilledRow(current, b, d, r, columns)
  {
    var c :| c in columns && Cell(m, r, c) == Some('.') && Cell(b, r, c) == Some(d);
    assert Cell(current, r, c) == Some('.');
  }

  lemma DigitDoneEarlier(current: Board, m: Board, b: Board, graph: Graph, d: char)
    requires FillsBlanks(current, m) && DigitDone(m, b, graph, d)
    ensures DigitDone(current, b, graph, d)
  {
    forall r | r in graph[d].value.rows
      ensures FilledRow(current, b, d, r, graph[d].value.columns[r].value)
    {
      FilledRowEarlier(current, m, b, d, r, graph[d].value.columns[r].value);
    }
  }

  /** Writing a digit into a "." cell fills a blank. */
  lemma WriteFillsBlank(current: Board, row: int, column: int, d: char)
    requires IsDigit(d) && Cell(current, row, column) == Some('.')
    ensures UpdateBoard(current, row, column, d, 0).Val?
    ensures FillsBlanks(current, UpdateBoard(current, row, column, d, 0).value)
    ensures Cell(UpdateBoard(current, row, column, d, 0).value, row, column) == Some(d)
  {
    UpdateBoardInRange(current, row, column, d, 0);
  }

  // ---------------------------------------------------------------------
  // Every write passes the move check
  // ---------------------------------------------------------------------

  /** A cell of the 9x9 grid. */
  predicate OnGrid(p: Pos)
  {
    0 <= p.row < 9 && 0 <= p.column < 9
  }

  /** Two cells sharing a row, a column, or a 3x3 block of the grid. */
  predicate Clash(p: Pos, q: Pos)
  {
    || p.row == q.row
    || p.column == q.column
    || (OnGrid(p) && OnGrid(q) && p.row / 3 == q.row / 3 && p.column / 3 == q.column / 3)
  }

  /** `placed` lists exactly the visited cells of the board that hold d. */
  ghost predicate Lists(board: Board, d: char, placed: seq<Pos>)
  {
    forall p :: p in placed <==> Visited(p) && Cell(board, p.row, p.column) == Some(d)
  }

  /** Each digit still to come is a digit, has its cells listed, and comes once. */
  ghost predicate Ready(board: Board, positions: map<char, seq<Pos>>, digits: seq<char>)
  {
    && (forall i :: 0 <= i < |digits| ==> IsDigit(digits[i]) && digits[i] in positions && Lists(board, digits[i], positions[digits[i]]))
    && forall i, j :: 0 <= i < j < |digits| ==> digits[i] != digits[j]
  }

  /** The row data offers cells of the grid only. */
  ghost predicate DataOnGrid(data: RowData)
  {
    forall r, c :: r in data.columns && data.columns[r].Val? && c in data.columns[r].value ==> OnGrid(Pos(r, c))
  }

  ghost predicate GraphOnGrid(graph: Graph)
  {
    forall d :: d in graph && graph[d].Val? ==> DataOnGrid(graph[d].value)
  }

  /** Cell p was "." on `a` and holds something else on `b`: it was written. */
  ghost predicate Written(a: Board, b: Board, p: Pos)
  {
    Cell(a, p.row, p.column) == Some('.') && Cell(b, p.row, p.column).Some? && Cell(b, p.row, p.column) != Some('.')
  }

  /**
   * No cell written on the way from `a` to `b` shares a row, a column or a
   * block with another visited cell that holds the same digit on `b`.
   */
  ghost predicate WritesClean(a: Board, b: Board)
  {
    forall p, q :: Visited(p) && Visited(q) && p != q && Written(a, b, p) && Cell(b, q.row, q.column) == Cell(b, p.row, p.column) ==> !Clash(p, q)
  }

  /** A write into a cell of the board changes that cell only. */
  lemma CellAfterWrite(current: Board, row: int, column: int, x: char)
    requires Cell(current, row, column).Some?
    ensures UpdateBoard(current, row, column, x, 0).Val?
    ensures forall r, c ::
              Cell(UpdateBoard(current, row, column, x, 0).value, r, c) == if r == row && c == column then Some(x) else Cell(current, r, c)
  {
    UpdateBoardInRange(current, row, column, x, 0);
  }

  /** Writing x into a "." cell of the grid adds the cell to x's list and keeps every other list. */
  lemma ListsAfterWrite(current: Board, row: int, column: int, x: char, e: char, placed: seq<Pos>)
    requires OnGrid(Pos(row, column)) && Cell(current, row, column) == Some('.') && e != '.'
    requires Lists(current, e, placed)
    ensures UpdateBoard(current, row, column, x, 0).Val?
    ensures e == x ==> Lists(UpdateBoard(current, row, column, x, 0).value, e, [Pos(row, column)] + placed)
    ensures e != x ==> Lists(UpdateBoard(current, row, column, x, 0).value, e, placed)
  {
    CellAfterWrite(current, row, column, x);
  }

  /** Writing d into a "." cell of the grid keeps the lists of the digits still to come. */
  lemma ReadyAfterWrite(current: Board, row: int, column: int, d: char, positions: map<char, seq<Pos>>, digits: seq<char>)
    requires OnGrid(Pos(row, column)) && Cell(current, row, column) == Some('.')
    requires Ready(current, positions, digits) && d !in digits
    ensures UpdateBoard(current, row, column, d, 0).Val?
    ensures Ready(UpdateBoard(current, row, column, d, 0).value, positions, digits)
  {
    CellAfterWrite(current, row, column, d);
    forall i | 0 <= i < |digits|
      ensures Lists(UpdateBoard(current, row, column, d, 0).value, digits[i], positions[digits[i]])
    {
      ListsAfterWrite(current, row, column, d, digits[i], positions[digits[i]]);
    }
  }

  /** A cell that passed the move check clashes with no listed cell. */
  lemma AllowedNoClash(placed: seq<Pos>, w: Pos, q: Pos)
    requires OnGrid(w) && q in placed && Allowed(CheckValidMove(placed, w.row, w.column))
    ensures !Clash(w, q)
  {
    AllowedIffFree(placed, w.row, w.column);
    var i :| 0 <= i < |placed| && placed[i] == q;
    assert !SameBlock(placed[i], w.row, w.column);
    assert !(placed[i].row == w.row || placed[i].column == w.column);
  }

  /** The cell written last clashes with no other cell holding its digit. */
  lemma WrittenLastClean(current: Board, updated: Board, b: Board, d: char, placed: seq<Pos>, w: Pos, q: Pos)
    requires OnGrid(w) && Visited(q) && q != w && IsDigit(d)
    requires Lists(current, d, placed) && Allowed(CheckValidMove(placed, w.row, w.column))
    requires Cell(updated, w.row, w.column) == Some(d) && Cell(updated, q.row, q.column) == Cell(current, q.row, q.column)
    requires FillsBlanks(updated, b) && WritesClean(updated, b)
    requires Cell(b, q.row, q.column) == Some(d)
    ensures !Clash(w, q)
  {
    var u := Cell(updated, q.row, q.column);
    if u == Some(d) {
      assert q in placed;
      AllowedNoClash(placed, w, q);
    } else {
      assert 0 <= q.row < |updated| && 0 <= q.column < |updated[q.row]|;
      assert b[q.row][q.column] == d != updated[q.row][q.column];
      assert Written(updated, b, q);
      assert Cell(b, w.row, w.column) == Some(d);
      CleanAt(updated, b, q, w);
    }
  }

  lemma CleanAt(a: Board, b: Board, p: Pos, q: Pos)
    requires WritesClean(a, b) && Visited(p) && Visited(q) && p != q
    requires Written(a, b, p) && Cell(b, q.row, q.column) == Cell(b, p.row, p.column)
    ensures !Clash(p, q)
  {
  }

  /**
   * A write of d that passed the move check against d's list, followed by
   * clean writes, leaves only clean writes.
   */
  lemma WritesCleanStep(current: Board, updated: Board, b: Board, d: char, placed: seq<Pos>, w: Pos)
    requires OnGrid(w) && Cell(current, w.row, w.column) == Some('.') && IsDigit(d)
    requires Lists(current, d, placed) && Allowed(CheckValidMove(placed, w.row, w.column))
    requires UpdateBoard(current, w.row, w.column, d, 0) == Val(updated)
    requires FillsBlanks(updated, b) && WritesClean(updated, b)
    ensures WritesClean(current, b)
  {
    CellAfterWrite(current, w.row, w.column, d);
    forall p, q | Visited(p) && Visited(q) && p != q && Written(current, b, p) && Cell(b, q.row, q.column) == Cell(b, p.row, p.column)
      ensures !Clash(p, q)
    {
      if p == w {
        assert Cell(b, w.row, w.column) == Some(d);
        WrittenLastClean(current, updated, b, d, placed, w, q);
      } else {
        assert Written(updated, b, p);
      }
    }
  }

  /**
   * A board from the search fills blanks of the board it started from,
   * every digit of the order filled every one of its candidate rows, and
   * every cell it wrote passed the move check: it shares no row, column or
   * block with another cell holding its digit.
   */
  lemma {:induction false} BacktrackSolved(current: Board, graph: Graph, positions: map<char, seq<Pos>>, order: seq<char>, b: Board)
    requires CrossHatchingBacktrack(current, graph, positions, order) == Val(Solved(b))
    requires Ready(current, positions, order) && GraphOnGrid(graph)
    ensures FillsBlanks(current, b)
    ensures forall i :: 0 <= i < |order| ==> DigitDone(current, b, graph, order[i])
    ensures WritesClean(current, b)
    decreases |order|, 1, 0, 0, 0
  {
    var d := order[0];
    var data := graph[d].value;
    assert order == [d] + order[1..];
    BackfillDigitSolved(d, current, graph, positions, positions[d], data, order[1..], data.rows, b);
  }

  lemma {:induction false} BackfillDigitSolved(d: char, current: Board, graph: Graph, positions: map<char, seq<Pos>>,
                                               placed: seq<Pos>, data: RowData, remainingDigits: seq<char>, rows: seq<int>, b: Board)
    requires IsDigit(d)
    requires RecursiveBackfillDigit(d, current, graph, positions, placed, data, remainingDigits, rows) == Val(Solved(b))
    requires Lists(current, d, placed) && Ready(current, positions, remainingDigits) && d !in remainingDigits
    requires GraphOnGrid(graph) && DataOnGrid(data)
    ensures FillsBlanks(current, b)
    ensures forall r :: r in rows ==> r in data.columns && data.columns[r].Val? && FilledRow(current, b, d, r, data.columns[r].value)
    ensures forall i :: 0 <= i < |remainingDigits| ==> DigitDone(current, b, graph, remainingDigits[i])
    ensures WritesClean(current, b)
    decreases |remainingDigits|, 2, |rows|, 1, 0
  {
    var row := rows[0];
    var columns := data.columns[row].value;
    BackfillRowSolved(d, current, graph, positions, placed, data, row, remainingDigits, rows[1..], columns, b);
    assert rows == [row] + rows[1..];
  }

  lemma {:induction false} BackfillRowSolved(d: char, current: Board, graph: Graph, positions: map<char, seq<Pos>>,
                                             placed: seq<Pos>, data: RowData, row: int,
                                             remainingDigits: seq<char>, remainingRows: seq<int>, columns: seq<int>, b: Board)
    requires IsDigit(d)
    requires RecursiveBackfillRow(d, current, graph, positions, placed, data, row, remainingDigits, remainingRows, columns) == Val(Solved(b))
    requires Lists(current, d, placed) && Ready(current, positions, remainingDigits) && d !in remainingDigits
    requires GraphOnGrid(graph) && DataOnGrid(data) && forall c :: c in columns ==> OnGrid(Pos(row, c))
    ensures FillsBlanks(current, b)
    ensures exists c :: c in columns && Cell(current, row, c) == Some('.') && Allowed(CheckValidMove(placed, row, c)) && Cell(b, row, c) == Some(d)
    ensures forall r :: r in remainingRows ==> r in data.columns && data.columns[r].Val? && FilledRow(current, b, d, r, data.columns[r].value)
    ensures forall i :: 0 <= i < |remainingDigits| ==> DigitDone(current, b, graph, remainingDigits[i])
    ensures WritesClean(current, b)
    decreases |remainingDigits|, 2, |remainingRows|, 2, |columns|
  {
    var column := columns[0];
    var remainingColumns := columns[1..];
    var result := RecursiveBackfillRow(d, current, graph, positions, placed, data, row, remainingDigits, remainingRows, columns);
    var next := RecursiveBackfillRow(d, current, graph, positions, placed, data, row, remainingDigits, remainingRows, remainingColumns);
    if Cell(current, row, column) == Some('.') && Allowed(CheckValidMove(placed, row, column)) {
      assert column in columns;
      WriteFillsBlank(current, row, column, d);
      var updated := UpdateBoard(current, row, column, d, 0).value;
      if remainingRows == [] && remainingDigits == [] {
        assert b == updated;
        assert WritesClean(updated, updated);
        assert FillsBlanks(updated, updated);
        WritesCleanStep(current, updated, updated, d, placed, Pos(row, column));
      } else {
        var deeper :=
          if remainingRows == [] then CrossHatchingBacktrack(updated, graph, positions, remainingDigits)
          else RecursiveBackfillDigit(d, updated, graph, positions, [Pos(row, column)] + placed, data, remainingDigits, remainingRows);
        if Yields(deeper) {
          assert deeper == Val(Solved(b));
          ReadyAfterWrite(current, row, column, d, positions, remainingDigits);
          if remainingRows == [] {
            BacktrackSolved(updated, graph, positions, remainingDigits, b);
          } else {
            ListsAfterWrite(current, row, column, d, d, placed);
            BackfillDigitSolved(d, updated, graph, positions, [Pos(row, column)] + placed, data, remainingDigits, remainingRows, b);
            forall r | r in remainingRows ensures FilledRow(current, b, d, r, data.columns[r].value) {
              FilledRowEarlier(current, updated, b, d, r, data.columns[r].value);
            }
          }
          FillsBlanksTransitive(current, updated, b);
          forall i | 0 <= i < |remainingDigits| ensures DigitDone(current, b, graph, remainingDigits[i]) {
            DigitDoneEarlier(current, updated, b, graph, remainingDigits[i]);
          }
          assert Cell(b, row, column) == Some(d);
          WritesCleanStep(current, updated, b, d, placed, Pos(row, column));
        } else {
          assert result == next;
          BackfillRowSolved(d, current, graph, positions, placed, data, row, remainingDigits, remainingRows, remainingColumns, b);
        }
      }
    } else {
      assert result == next;
      BackfillRowSolved(d, current, graph, positions, placed, data, row, remainingDigits, remainingRows, remainingColumns, b);
    }
  }

  // ---------------------------------------------------------------------
  // The whole solver
  // ---------------------------------------------------------------------

  /** Row r of the board holds digit d in one of the nine columns. */
  ghost predicate RowHas(board: Board, r: int, d: char)
  {
    exists c :: 0 <= c < 9 && Cell(board, r, c) == Some(d)
  }

  /** The digit stands somewhere in the area the state walk visits. */
  ghost predicate OnBoard(board: Board, d: char)
  {
    exists p :: Visited(p) && Cell(board, p.row, p.column) == Some(d)
  }

  /** The facts about one digit that a solved board rests on. */
  ghost predicate DigitSolved(current: Board, b: Board, graph: Graph, s: State, d: char)
  {
    && IsDigit(d) && d in s.placed && FillsBlanks(current, b)
    && (forall p :: p in s.placed[d] <==> Visited(p) && Cell(current, p.row, p.column) == Some(d))
    && d in graph && graph[d] == GetCandidates(current, s, d) && DigitDone(current, b, graph, d)
  }

  /** Every row of the solved board holds the digit. */
  lemma SolvedDigitRows(current: Board, b: Board, graph: Graph, s: State, d: char)
    requires DigitSolved(current, b, graph, s, d)
    ensures forall r :: 0 <= r < 9 ==> RowHas(b, r, d)
  {
    CandidatesOfDigit(current, s, d);
    var placed := s.placed[d];
    var data := graph[d].value;
    forall r | 0 <= r < 9 ensures RowHas(b, r, d) {
      if RowTaken(placed, r) {
        var i :| 0 <= i < |placed| && placed[i].row == r;
        assert placed[i] in placed;
        assert Cell(b, r, placed[i].column) == Some(d);
      } else {
        assert r in data.rows;
        var c :| c in data.columns[r].value && Cell(current, r, c) == Some('.') && Cell(b, r, c) == Some(d);
        assert Candidate(current, placed, r, c);
      }
    }
  }

  /** The digit had row data: it has free rows, and so placements. */
  lemma SolvedDigitRowData(current: Board, b: Board, graph: Graph, s: State, d: char)
    requires DigitSolved(current, b, graph, s, d)
    ensures s.placed[d] != []
    ensures exists r :: 0 <= r < 9 && !RowTaken(s.placed[d], r)
  {
    var placed := s.placed[d];
    var rows := GetValidRows(placed, 0);
    ValidRows(placed, 0);
    assert GetGraphPlacements(current, rows, GetValidColumns(placed, 0), placed).Val?;
    assert rows[0] in rows;
  }

  /** A digit with placements and a free row stands on the board and misses some row. */
  lemma GivenDigit(current: Board, placed: seq<Pos>, d: char)
    requires forall p :: p in placed <==> Visited(p) && Cell(current, p.row, p.column) == Some(d)
    requires placed != [] && exists r :: 0 <= r < 9 && !RowTaken(placed, r)
    ensures OnBoard(current, d)
    ensures exists r :: 0 <= r < 9 && !RowHas(current, r, d)
  {
    assert placed[0] in placed;
    var r :| 0 <= r < 9 && !RowTaken(placed, r);
    assert !RowHas(current, r, d) by {
      forall c | 0 <= c < 9 ensures Cell(current, r, c) != Some(d) {
        assert Visited(Pos(r, c));
      }
    }
  }

  /** Each value occurs at most once in a list without repeats. */
  lemma {:induction false} CountAtMostOne(ys: seq<char>, x: char)
    requires forall i, j :: 0 <= i < j < |ys| ==> ys[i] != ys[j]
    ensures multiset(ys)[x] <= 1
  {
    if ys != [] {
      CountAtMostOne(ys[1..], x);
      assert ys == [ys[0]] + ys[1..];
      if x == ys[0] {
        assert x !in ys[1..];
      }
    }
  }

  /** A rearrangement of a list without repeats has none. */
  lemma NoRepeatsByCount(xs: seq<char>, ys: seq<char>)
    requires multiset(xs) == multiset(ys)
    requires forall i, j :: 0 <= i < j < |ys| ==> ys[i] != ys[j]
    ensures forall i, j :: 0 <= i < j < |xs| ==> xs[i] != xs[j]
  {
    forall i, j | 0 <= i < j < |xs| ensures xs[i] != xs[j] {
      CountAtMostOne(ys, xs[i]);
      assert xs == xs[..i] + [xs[i]] + xs[i + 1..j] + [xs[j]] + xs[j + 1..];
    }
  }

  /** The sorted order, with the initial placements, is ready for the search. */
  lemma OrderReady(current: Board, order: seq<char>)
    requires multiset(order) == multiset(AllDigits())
    ensures Ready(current, InitialState(current).placed, order)
  {
    var placed := InitialState(current).placed;
    InitialStateRecordsBoard(current);
    AllDigitsListsDigits();
    NoRepeatsByCount(order, AllDigits());
    forall i | 0 <= i < |order|
      ensures IsDigit(order[i]) && order[i] in placed && Lists(current, order[i], placed[order[i]])
    {
      assert order[i] in multiset(AllDigits());
      assert order[i] in AllDigits();
    }
  }

  /** The graph offers cells of the grid only. */
  lemma GraphReady(current: Board, s: State)
    requires DigitSet() <= s.placed.Keys
    ensures BuildGraph(current, s, AllDigits()).Val?
    ensures GraphOnGrid(BuildGraph(current, s, AllDigits()).value)
  {
    GraphHasEveryDigit(current, s);
    var graph := BuildGraph(current, s, AllDigits()).value;
    forall d | d in graph && graph[d].Val? ensures DataOnGrid(graph[d].value) {
      CandidatesOfDigit(current, s, d);
    }
  }

  /**
   * A board returned by the solver keeps every given cell, writes digits
   * only into "." cells, and has every digit in every one of rows 0 to 8.
   * As the search needs row data for every digit, it is only ever returned
   * when each digit already stands on the board and is missing from some
   * row.
   */
  lemma SolvedBoard(current: Board, b: Board)
    requires Solve(current) == Val(Solved(b))
    ensures FillsBlanks(current, b)
    ensures forall d, r :: IsDigit(d) && 0 <= r < 9 ==> RowHas(b, r, d)
    ensures forall d :: IsDigit(d) ==> OnBoard(current, d)
    ensures forall d :: IsDigit(d) ==> exists r :: 0 <= r < 9 && !RowHas(current, r, d)
    ensures WritesClean(current, b)
  {
    var s := InitialState(current);
    InitialStateRecordsBoard(current);
    GraphHasEveryDigit(current, s);
    AllDigitsListsDigits();
    var graph := BuildGraph(current, s, AllDigits()).value;
    SortStateReorders(s);
    var order := SortState(s).value;
    OrderReady(current, order);
    GraphReady(current, s);
    BacktrackSolved(current, graph, s.placed, order, b);
    forall d | IsDigit(d)
      ensures (forall r :: 0 <= r < 9 ==> RowHas(b, r, d)) && OnBoard(current, d)
      ensures exists r :: 0 <= r < 9 && !RowHas(current, r, d)
    {
      assert d in multiset(order);
      var i :| 0 <= i < |order| && order[i] == d;
      assert DigitSolved(current, b, graph, s, d);
      SolvedDigitRows(current, b, graph, s, d);
      SolvedDigitRowData(current, b, graph, s, d);
      GivenDigit(current, s.placed[d], d);
    }
  }

  /** A board on which some digit fills all of rows 0 to 8 (a complete board, say) is never solved. */
  lemma FullDigitNotSolved(current: Board, d: char)
    requires IsDigit(d) && forall r :: 0 <= r < 9 ==> RowHas(current, r, d)
    ensures !(Solve(current).Val? && Solve(current).value.Solved?)
  {
    if Solve(current).Val? && Solve(current).value.Solved? {
      SolvedBoard(current, Solve(current).value.board);
    }
  }

  /** A board on which some digit does not stand at all is never solved. */
  lemma AbsentDigitNotSolved(current: Board, d: char)
    requires IsDigit(d) && !OnBoard(current, d)
    ensures !(Solve(current).Val? && Solve(current).value.Solved?)
  {
    if Solve(current).Val? && Solve(current).value.Solved? {
      SolvedBoard(current, Solve(current).value.board);
    }
  }

  // ---------------------------------------------------------------------
  // A solved 9x9 board is a sudoku
  // ---------------------------------------------------------------------

  /** Nine rows of nine cells. */
  predicate Square(board: Board)
  {
    |board| == 9 && forall r :: 0 <= r < 9 ==> |board[r]| == 9
  }

  /** No digit stands twice in a row, a column or a block of the grid. */
  ghost predicate NoRepeats(board: Board)
    requires Square(board)
  {
    forall p, q :: OnGrid(p) && OnGrid(q) && p != q && IsDigit(board[p.row][p.column]) && board[q.row][q.column] == board[p.row][p.column] ==> !Clash(p, q)
  }

  /** Column c, top to bottom. */
  function Column(board: Board, c: int): (col: seq<char>)
    requires Square(board) && 0 <= c < 9
    ensures |col| == 9 && forall r :: 0 <= r < 9 ==> col[r] == board[r][c]
  {
    seq(9, r requires 0 <= r < 9 => board[r][c])
  }

  /** Cell i, in reading order, of block k, blocks also in reading order. */
  function BlockCell(k: int, i: int): (p: Pos)
    requires 0 <= k < 9 && 0 <= i < 9
    ensures OnGrid(p) && p.row / 3 == k / 3 && p.column / 3 == k % 3
  {
    Pos(3 * (k / 3) + i / 3, 3 * (k % 3) + i % 3)
  }

  /** Block k, in reading order. */
  function Block(board: Board, k: int): (blk: seq<char>)
    requires Square(board) && 0 <= k < 9
    ensures |blk| == 9 && forall i :: 0 <= i < 9 ==> blk[i] == board[BlockCell(k, i).row][BlockCell(k, i).column]
  {
    seq(9, i requires 0 <= i < 9 => board[BlockCell(k, i).row][BlockCell(k, i).column])
  }

  /** The values of a list, as a set. */
  function Elements(xs: seq<char>): (e: set<char>)
    ensures forall x :: x in e <==> x in xs
  {
    if xs == [] then {} else {xs[0]} + Elements(xs[1..])
  }

  /** A list has at most as many values as entries, exactly as many when none repeats. */
  lemma {:induction false} ElementsCount(xs: seq<char>)
    ensures |Elements(xs)| <= |xs|
    ensures |Elements(xs)| == |xs| <==> forall i, j :: 0 <= i < j < |xs| ==> xs[i] != xs[j]
  {
    if xs != [] {
      ElementsCount(xs[1..]);
      if xs[0] in xs[1..] {
        RepeatedHead(xs);
      } else {
        FreshHead(xs);
      }
    }
  }

  /** A first value that occurs again adds no value, and the list has a repeat. */
  lemma RepeatedHead(xs: seq<char>)
    requires xs != [] && xs[0] in xs[1..]
    ensures |Elements(xs)| == |Elements(xs[1..])|
    ensures !forall i, j :: 0 <= i < j < |xs| ==> xs[i] != xs[j]
  {
    assert Elements(xs) == Elements(xs[1..]);
    var k :| 0 <= k < |xs[1..]| && xs[1..][k] == xs[0];
    assert xs[0] == xs[k + 1];
  }

  /** A first value that does not occur again adds one value and no repeat. */
  lemma FreshHead(xs: seq<char>)
    requires xs != [] && xs[0] !in xs[1..]
    ensures |Elements(xs)| == |Elements(xs[1..])| + 1
    ensures (forall i, j :: 0 <= i < j < |xs| ==> xs[i] != xs[j])
        <==> (forall i, j :: 0 <= i < j < |xs[1..]| ==> xs[1..][i] != xs[1..][j])
  {
    assert Elements(xs) == {xs[0]} + Elements(xs[1..]);
    if forall i, j :: 0 <= i < j < |xs[1..]| ==> xs[1..][i] != xs[1..][j] {
      FreshHeadDistinct(xs);
    } else {
      var i, j :| 0 <= i < j < |xs[1..]| && xs[1..][i] == xs[1..][j];
      assert xs[i + 1] == xs[j + 1];
    }
  }

  lemma FreshHeadDistinct(xs: seq<char>)
    requires xs != [] && xs[0] !in xs[1..]
    requires forall i, j :: 0 <= i < j < |xs[1..]| ==> xs[1..][i] != xs[1..][j]
    ensures forall i, j :: 0 <= i < j < |xs| ==> xs[i] != xs[j]
  {
    forall i, j | 0 <= i < j < |xs| ensures xs[i] != xs[j] {
      assert xs[j] == xs[1..][j - 1];
      if i > 0 {
        assert xs[i] == xs[1..][i - 1];
      }
    }
  }

  /** A subset at least as large as its superset is the superset. */
  lemma SubsetFull(a: set<char>, b: set<char>)
    requires a <= b && |b| <= |a|
    ensures a == b
  {
    assert b == a + (b - a);
    assert a * (b - a) == {};
    assert |b - a| == 0;
  }

  /** Two lists without repeats and with the same values are rearrangements of each other. */
  lemma SameValuesRearranged(xs: seq<char>, ys: seq<char>)
    requires forall i, j :: 0 <= i < j < |xs| ==> xs[i] != xs[j]
    requires forall i, j :: 0 <= i < j < |ys| ==> ys[i] != ys[j]
    requires forall x :: x in xs <==> x in ys
    ensures multiset(xs) == multiset(ys)
  {
    forall x ensures multiset(xs)[x] == multiset(ys)[x] {
      CountAtMostOne(xs, x);
      CountAtMostOne(ys, x);
      if x in xs {
        assert x in multiset(xs) && x in multiset(ys);
      } else {
        assert x !in multiset(xs) && x !in multiset(ys);
      }
    }
    assert multiset(xs) == multiset(ys);
  }

  /**
   * A list as long as a list without repeats and holding each of its values
   * holds nothing else and repeats nothing.
   */
  lemma EveryValueOnce(xs: seq<char>, ys: seq<char>)
    requires |xs| == |ys| && forall i, j :: 0 <= i < j < |ys| ==> ys[i] != ys[j]
    requires forall y :: y in ys ==> y in xs
    ensures forall i :: 0 <= i < |xs| ==> xs[i] in ys
    ensures forall i, j :: 0 <= i < j < |xs| ==> xs[i] != xs[j]
    ensures multiset(xs) == multiset(ys)
  {
    ElementsCount(ys);
    ElementsCount(xs);
    SubsetFull(Elements(ys), Elements(xs));
    SameValuesRearranged(xs, ys);
  }

  /** A list without repeats, as long as another and drawn from it, holds all of it. */
  lemma DistinctValuesAll(xs: seq<char>, ys: seq<char>)
    requires |xs| == |ys| && forall i, j :: 0 <= i < j < |ys| ==> ys[i] != ys[j]
    requires forall i, j :: 0 <= i < j < |xs| ==> xs[i] != xs[j]
    requires forall i :: 0 <= i < |xs| ==> xs[i] in ys
    ensures multiset(xs) == multiset(ys)
  {
    ElementsCount(ys);
    ElementsCount(xs);
    SubsetFull(Elements(xs), Elements(ys));
    SameValuesRearranged(xs, ys);
  }

  /** The nine digits, none repeated. */
  lemma DigitsDistinct()
    ensures forall x :: x in AllDigits() <==> IsDigit(x)
    ensures forall i, j :: 0 <= i < j < |AllDigits()| ==> AllDigits()[i] != AllDigits()[j]
  {
    AllDigitsListsDigits();
  }

  /** Nine cells that hold every digit hold each digit exactly once and nothing else. */
  lemma EveryDigitOnce(xs: seq<char>)
    requires |xs| == 9 && forall d :: IsDigit(d) ==> d in xs
    ensures forall i :: 0 <= i < 9 ==> IsDigit(xs[i])
    ensures forall i, j :: 0 <= i < j < 9 ==> xs[i] != xs[j]
    ensures multiset(xs) == multiset(AllDigits())
  {
    DigitsDistinct();
    EveryValueOnce(xs, AllDigits());
  }

  /** Nine digits of which none repeats are each digit exactly once. */
  lemma NineDistinctDigits(xs: seq<char>)
    requires |xs| == 9 && forall i :: 0 <= i < 9 ==> IsDigit(xs[i])
    requires forall i, j :: 0 <= i < j < 9 ==> xs[i] != xs[j]
    ensures multiset(xs) == multiset(AllDigits())
  {
    DigitsDistinct();
    DistinctValuesAll(xs, AllDigits());
  }

  /** Two cells of a solved board with the same digit clash only if both were given and clash there. */
  lemma SolvedPairClean(current: Board, b: Board, p: Pos, q: Pos)
    requires Square(current) && NoRepeats(current) && FillsBlanks(current, b) && WritesClean(current, b)
    requires OnGrid(p) && OnGrid(q) && p != q
    requires IsDigit(b[p.row][p.column]) && b[q.row][q.column] == b[p.row][p.column]
    ensures !Clash(p, q)
  {
    if current[p.row][p.column] == '.' {
      assert Written(current, b, p);
      CleanAt(current, b, p, q);
    } else if current[q.row][q.column] == '.' {
      assert Written(current, b, q);
      CleanAt(current, b, q, p);
    } else {
      assert current[p.row][p.column] == b[p.row][p.column];
      assert current[q.row][q.column] == b[q.row][q.column];
    }
  }

  /** Row r of a solved board holds each digit exactly once. */
  lemma SolvedRow(b: Board, r: int)
    requires Square(b) && 0 <= r < 9 && forall d :: IsDigit(d) ==> RowHas(b, r, d)
    ensures forall c :: 0 <= c < 9 ==> IsDigit(b[r][c])
    ensures forall i, j :: 0 <= i < j < 9 ==> b[r][i] != b[r][j]
    ensures multiset(b[r]) == multiset(AllDigits())
  {
    forall d | IsDigit(d) ensures d in b[r] {
      assert RowHas(b, r, d);
      var c :| 0 <= c < 9 && Cell(b, r, c) == Some(d);
      assert b[r][c] == d;
    }
    EveryDigitOnce(b[r]);
  }

  /** Two distinct cells of a board without repeats that clash do not hold the same digit. */
  lemma NoRepeatsAt(board: Board, p: Pos, q: Pos)
    requires Square(board) && NoRepeats(board)
    requires OnGrid(p) && OnGrid(q) && p != q && IsDigit(board[p.row][p.column]) && Clash(p, q)
    ensures board[q.row][q.column] != board[p.row][p.column]
  {
  }

  /** Column c of a full board without repeats holds each digit exactly once. */
  lemma ColumnOnce(b: Board, c: int)
    requires Square(b) && NoRepeats(b) && forall r, c :: 0 <= r < 9 && 0 <= c < 9 ==> IsDigit(b[r][c])
    requires 0 <= c < 9
    ensures multiset(Column(b, c)) == multiset(AllDigits())
  {
    var col := Column(b, c);
    forall i, j | 0 <= i < j < 9 ensures col[i] != col[j] {
      NoRepeatsAt(b, Pos(i, c), Pos(j, c));
    }
    NineDistinctDigits(col);
  }

  /** A full board without repeats has each digit exactly once in every column. */
  lemma FullColumns(b: Board)
    requires Square(b) && NoRepeats(b) && forall r, c :: 0 <= r < 9 && 0 <= c < 9 ==> IsDigit(b[r][c])
    ensures forall c :: 0 <= c < 9 ==> multiset(Column(b, c)) == multiset(AllDigits())
  {
    forall c | 0 <= c < 9 ensures multiset(Column(b, c)) == multiset(AllDigits()) {
      ColumnOnce(b, c);
    }
  }

  /** Block k of a full board without repeats holds each digit exactly once. */
  lemma BlockOnce(b: Board, k: int)
    requires Square(b) && NoRepeats(b) && forall r, c :: 0 <= r < 9 && 0 <= c < 9 ==> IsDigit(b[r][c])
    requires 0 <= k < 9
    ensures multiset(Block(b, k)) == multiset(AllDigits())
  {
    var blk := Block(b, k);
    forall i, j | 0 <= i < j < 9 ensures blk[i] != blk[j] {
      var p, q := BlockCell(k, i), BlockCell(k, j);
      assert p != q;
      NoRepeatsAt(b, p, q);
    }
    forall i | 0 <= i < 9 ensures IsDigit(blk[i]) {
      var p := BlockCell(k, i);
      assert IsDigit(b[p.row][p.column]);
    }
    NineDistinctDigits(blk);
  }

  /** A full board without repeats has each digit exactly once in every block. */
  lemma FullBlocks(b: Board)
    requires Square(b) && NoRepeats(b) && forall r, c :: 0 <= r < 9 && 0 <= c < 9 ==> IsDigit(b[r][c])
    ensures forall k :: 0 <= k < 9 ==> multiset(Block(b, k)) == multiset(AllDigits())
  {
    forall k | 0 <= k < 9 ensures multiset(Block(b, k)) == multiset(AllDigits()) {
      BlockOnce(b, k);
    }
  }

  /**
   * On a 9x9 board whose givens repeat no digit in a row, a column or a
   * block, a board returned by the solver is a solved sudoku: it keeps the
   * givens, and every row, every column and every block holds each of the
   * nine digits exactly once.
   */
  lemma SolvedSudoku(current: Board, b: Board)
    requires Solve(current) == Val(Solved(b))
    requires Square(current) && NoRepeats(current)
    ensures Square(b) && FillsBlanks(current, b) && NoRepeats(b)
    ensures forall r :: 0 <= r < 9 ==> multiset(b[r]) == multiset(AllDigits())
    ensures forall c :: 0 <= c < 9 ==> multiset(Column(b, c)) == multiset(AllDigits())
    ensures forall k :: 0 <= k < 9 ==> multiset(Block(b, k)) == multiset(AllDigits())
  {
    SolvedBoard(current, b);
    CleanFillIsSudoku(current, b);
  }

  /** A clean fill of a 9x9 board without repeats that has every digit in every row is a sudoku. */
  lemma CleanFillIsSudoku(current: Board, b: Board)
    requires Square(current) && NoRepeats(current) && FillsBlanks(current, b) && WritesClean(current, b)
    requires forall d, r :: IsDigit(d) && 0 <= r < 9 ==> RowHas(b, r, d)
    ensures Square(b) && NoRepeats(b)
    ensures forall r :: 0 <= r < 9 ==> multiset(b[r]) == multiset(AllDigits())
    ensures forall c :: 0 <= c < 9 ==> multiset(Column(b, c)) == multiset(AllDigits())
    ensures forall k :: 0 <= k < 9 ==> multiset(Block(b, k)) == multiset(AllDigits())
  {
    assert Square(b);
    forall r | 0 <= r < 9
      ensures (forall c :: 0 <= c < 9 ==> IsDigit(b[r][c])) && multiset(b[r]) == multiset(AllDigits())
    {
      SolvedRow(b, r);
    }
    forall p, q | OnGrid(p) && OnGrid(q) && p != q && IsDigit(b[p.row][p.column]) && b[q.row][q.column] == b[p.row][p.column]
      ensures !Clash(p, q)
    {
      SolvedPairClean(current, b, p, q);
    }
    FullColumns(b);
    FullBlocks(b);
  }

  /** A 9x9 board with a digit twice in one row is never solved. */
  lemma RowRepeatNotSolved(current: Board, r: int, c1: int, c2: int)
    requires Square(current) && 0 <= r < 9 && 0 <= c1 < c2 < 9
    requires IsDigit(current[r][c1]) && current[r][c2] == current[r][c1]
    ensures !(Solve(current).Val? && Solve(current).value.Solved?)
  {
    if Solve(current).Val? && Solve(current).value.Solved? {
      var b := Solve(current).value.board;
      SolvedBoard(current, b);
      RowRepeatKept(current, b, r, c1, c2);
    }
  }

  /** A fill of a board with a digit twice in row r does not have every digit in that row. */
  lemma RowRepeatKept(current: Board, b: Board, r: int, c1: int, c2: int)
    requires Square(current) && FillsBlanks(current, b) && 0 <= r < 9 && 0 <= c1 < c2 < 9
    requires IsDigit(current[r][c1]) && current[r][c2] == current[r][c1]
    ensures !forall d :: IsDigit(d) ==> RowHas(b, r, d)
  {
    assert b[r][c1] == current[r][c1] && b[r][c2] == current[r][c2];
    if forall d :: IsDigit(d) ==> RowHas(b, r, d) {
      SolvedRow(b, r);
    }
  }
}
