/**
 * The candidate graph (problems/sudoku/graph.ts): for each digit, the rows
 * it still has to fill and, per row, the columns where it may go, computed
 * once from the initial board.
 */
module SudokuGraph {
  import opened TypeLevel
  import opened SudokuCommon
  import opened SudokuValidation
  import opened SudokuState

  /** `ContainsRow<Placed, Row>`: no case for the empty list. */
  function ContainsRow(placed: seq<Pos>, row: int): Ty<bool>
  {
    if placed == [] then Never
    else if placed[0].row == row then Val(true)
    else if |placed| == 1 then Val(false)
    else ContainsRow(placed[1..], row)
  }

  /** `ContainsColumn<Placed, Column>`: no case for the empty list. */
  function ContainsColumn(placed: seq<Pos>, column: int): Ty<bool>
  {
    if placed == [] then Never
    else if placed[0].column == column then Val(true)
    else if |placed| == 1 then Val(false)
    else ContainsColumn(placed[1..], column)
  }

  /** Some placement lies in the row. */
  predicate RowTaken(placed: seq<Pos>, row: int)
  {
    exists i :: 0 <= i < |placed| && placed[i].row == row
  }

  /** Some placement lies in the column. */
  predicate ColumnTaken(placed: seq<Pos>, column: int)
  {
    exists i :: 0 <= i < |placed| && placed[i].column == column
  }

  lemma {:induction false} ContainsRowIsTaken(placed: seq<Pos>, row: int)
    requires placed != []
    ensures ContainsRow(placed, row) == Val(RowTaken(placed, row))
  {
    if placed[0].row == row {
      assert placed[0].row == row;
    } else if |placed| > 1 {
      ContainsRowIsTaken(placed[1..], row);
      if RowTaken(placed, row) {
        var i :| 0 <= i < |placed| && placed[i].row == row;
        assert placed[1..][i - 1] == placed[i];
      }
      if RowTaken(placed[1..], row) {
        var i :| 0 <= i < |placed| - 1 && placed[1..][i].row == row;
        assert placed[i + 1] == placed[1..][i];
      }
    }
  }

  lemma {:induction false} ContainsColumnIsTaken(placed: seq<Pos>, column: int)
    requires placed != []
    ensures ContainsColumn(placed, column) == Val(ColumnTaken(placed, column))
  {
    if placed[0].column == column {
      assert placed[0].column == column;
    } else if |placed| > 1 {
      ContainsColumnIsTaken(placed[1..], column);
      if ColumnTaken(placed, column) {
        var i :| 0 <= i < |placed| && placed[i].column == column;
        assert placed[1..][i - 1] == placed[i];
      }
      if ColumnTaken(placed[1..], column) {
        var i :| 0 <= i < |placed| - 1 && placed[1..][i].column == column;
        assert placed[i + 1] == placed[1..][i];
      }
    }
  }

  /** `GetValidRows<Placed, N>`: the rows from n to 8 that `ContainsRow` does not claim. */
  function GetValidRows(placed: seq<Pos>, n: int): seq<int>
    requires 0 <= n <= 9
    decreases 9 - n
  {
    if n == 9 then []
    else if ExtendsTrue(ContainsRow(placed, n)) then GetValidRows(placed, n + 1)
    else [n] + GetValidRows(placed, n + 1)
  }

  /** `GetValidColumns<Placed, N>`: the columns from n to 8 that `ContainsColumn` does not claim. */
  function GetValidColumns(placed: seq<Pos>, n: int): seq<int>
    requires 0 <= n <= 9
    decreases 9 - n
  {
    if n == 9 then []
    else if ExtendsTrue(ContainsColumn(placed, n)) then GetValidColumns(placed, n + 1)
    else [n] + GetValidColumns(placed, n + 1)
  }

  /**
   * For a digit that has placements, the valid rows are, in ascending
   * order, the rows from n to 8 holding none of them; for a digit with no
   * placements the `never` of the scan counts as "taken" and there are none.
   */
  lemma {:induction false} ValidRows(placed: seq<Pos>, n: int)
    requires 0 <= n <= 9
    ensures Ascending(GetValidRows(placed, n))
    ensures forall r :: r in GetValidRows(placed, n) <==> n <= r < 9 && placed != [] && !RowTaken(placed, r)
    decreases 9 - n
  {
    if n < 9 {
      ValidRows(placed, n + 1);
      if placed != [] {
        ContainsRowIsTaken(placed, n);
      }
      var rest := GetValidRows(placed, n + 1);
      assert forall k :: 0 <= k < |rest| ==> rest[k] in rest;
    }
  }

  /** The same for columns. */
  lemma {:induction false} ValidColumns(placed: seq<Pos>, n: int)
    requires 0 <= n <= 9
    ensures Ascending(GetValidColumns(placed, n))
    ensures forall c :: c in GetValidColumns(placed, n) <==> n <= c < 9 && placed != [] && !ColumnTaken(placed, c)
    decreases 9 - n
  {
    if n < 9 {
      ValidColumns(placed, n + 1);
      if placed != [] {
        ContainsColumnIsTaken(placed, n);
      }
      var rest := GetValidColumns(placed, n + 1);
      assert forall k :: 0 <= k < |rest| ==> rest[k] in rest;
    }
  }

  /**
   * `GetGraphPlacements<Current, Rows, Columns, Placements>`: each row
   * keyed to its filtered columns.  An empty row list gives `never`.
   */
  function GetGraphPlacements(current: Board, rows: seq<int>, columns: seq<int>, placements: seq<Pos>): (r: Ty<map<int, Ty<seq<int>>>>)
    ensures rows == [] <==> r.Never?
    ensures r.Val? ==> forall row :: row in r.value <==> row in rows
    ensures r.Val? ==> forall row :: row in r.value ==> r.value[row] == CheckNotUsed(current, row, columns, placements)
  {
    if rows == [] then Never
    else
      var entry := CheckNotUsed(current, rows[0], columns, placements);
      if |rows| == 1 then Val(map[rows[0] := entry])
      else
        match GetGraphPlacements(current, rows[1..], columns, placements)
        case Never => Never
        case Val(rest) =>
          Val(rest[rows[0] := entry])
  }

  /**
   * `GetCandidates<Current, InitialState, D>`: the digit's valid rows and,
   * per row, the valid columns that pass `CheckNotUsed`.  A digit without a
   * list, or without valid rows, has `never` for its row data.
   */
  function GetCandidates(current: Board, s: State, d: char): Ty<RowData>
  {
    if d !in s.placed then Never
    else
      var placed := s.placed[d];
      var rows := GetValidRows(placed, 0);
      var columns := GetValidColumns(placed, 0);
      match GetGraphPlacements(current, rows, columns, placed)
      case Never => Never
      case Val(m) => Val(RowData(rows, m))
  }

  /** A column the digit may take in the row: free line, empty cell, allowed move. */
  predicate Candidate(current: Board, placed: seq<Pos>, row: int, column: int)
  {
    0 <= column < 9 && !ColumnTaken(placed, column) && Usable(current, row, column, placed)
  }

  /**
   * A digit absent from the board has no row data; otherwise its rows are
   * the free rows in ascending order, each keyed, and each row lists, in
   * ascending order, exactly the candidate columns of that row.
   */
  lemma CandidatesOfDigit(current: Board, s: State, d: char)
    requires d in s.placed
    ensures s.placed[d] == [] ==> GetCandidates(current, s, d) == Never
    ensures match GetCandidates(current, s, d)
      case Never => true
      case Val(rd) =>
        && Ascending(rd.rows)
        && (forall r :: r in rd.rows <==> 0 <= r < 9 && !RowTaken(s.placed[d], r))
        && (forall r :: r in rd.columns <==> r in rd.rows)
        && forall r :: r in rd.columns && rd.columns[r].Val? ==>
          && Ascending(rd.columns[r].value)
          && forall c :: c in rd.columns[r].value <==> Candidate(current, s.placed[d], r, c)
  {
    var placed := s.placed[d];
    ValidRows(placed, 0);
    ValidColumns(placed, 0);
    var columns := GetValidColumns(placed, 0);
    if columns != [] {
      forall r ensures Ascending(CheckNotUsed(current, r, columns, placed).value) {
        CheckNotUsedAscending(current, r, columns, placed);
      }
    }
  }

  /**
   * `BuildGraph<Current, InitialState, D>`: one entry per listed digit.  An
   * empty digit list gives `never`.
   */
  function BuildGraph(current: Board, s: State, ds: seq<char>): (g: Ty<Graph>)
    ensures ds == [] <==> g.Never?
    ensures g.Val? ==> forall d :: d in g.value <==> d in ds
    ensures g.Val? ==> forall d :: d in g.value ==> g.value[d] == GetCandidates(current, s, d)
  {
    if ds == [] then Never
    else
      var entry := GetCandidates(current, s, ds[0]);
      if |ds| == 1 then Val(map[ds[0] := entry])
      else
        match BuildGraph(current, s, ds[1..])
        case Never => Never
        case Val(rest) =>
          Val(rest[ds[0] := entry])
  }

  /** The graph of `AllDigits` has exactly one entry for each digit. */
  lemma GraphHasEveryDigit(current: Board, s: State)
    ensures BuildGraph(current, s, AllDigits()).Val?
    ensures BuildGraph(current, s, AllDigits()).value.Keys == DigitSet()
  {
    AllDigitsListsDigits();
  }
}
