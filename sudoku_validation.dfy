/**
 * Legality of a move for one digit (problems/sudoku/validation.ts): the
 * 3x3 sub-grid test, the row/column test, and the column filter used by
 * the candidate graph.
 */
module SudokuValidation {
  import opened TypeLevel
  import opened SudokuCommon

  // ---------------------------------------------------------------------
  // List scans.  None of them has a case for the empty list, so on `[]`
  // they give `never`, which then passes the caller's `extends true`.
  // ---------------------------------------------------------------------

  /** `Contains<Placed, Row, Column>`. */
  function Contains(placed: seq<Pos>, row: int, column: int): Ty<bool>
  {
    if placed == [] then Never
    else if placed[0].row == row && placed[0].column == column then Val(true)
    else if |placed| == 1 then Val(false)
    else Contains(placed[1..], row, column)
  }

  /** On a non-empty list, `Contains` is membership of the position. */
  lemma {:induction false} ContainsIsMembership(placed: seq<Pos>, row: int, column: int)
    requires placed != []
    ensures Contains(placed, row, column) == Val(Pos(row, column) in placed)
  {
    if placed[0] != Pos(row, column) && |placed| > 1 {
      ContainsIsMembership(placed[1..], row, column);
      assert placed == [placed[0]] + placed[1..];
    }
  }

  /** `RowColumnCollision<Positions, Row, Column>`. */
  function RowColumnCollision(positions: seq<Pos>, row: int, column: int): Ty<bool>
  {
    if positions == [] then Never
    else if positions[0].row == row then Val(true)
    else if positions[0].column == column then Val(true)
    else if |positions| == 1 then Val(false)
    else RowColumnCollision(positions[1..], row, column)
  }

  /** Some position shares the row or the column. */
  predicate SharesLine(positions: seq<Pos>, row: int, column: int)
  {
    exists i :: 0 <= i < |positions| && (positions[i].row == row || positions[i].column == column)
  }

  /** On a non-empty list, the collision test is "some position shares the row or column". */
  lemma {:induction false} CollisionIsSharedLine(positions: seq<Pos>, row: int, column: int)
    requires positions != []
    ensures RowColumnCollision(positions, row, column) == Val(SharesLine(positions, row, column))
  {
    if positions[0].row != row && positions[0].column != column {
      if |positions| > 1 {
        CollisionIsSharedLine(positions[1..], row, column);
        if SharesLine(positions[1..], row, column) {
          var i :| 0 <= i < |positions| - 1 && (positions[1..][i].row == row || positions[1..][i].column == column);
          assert positions[i + 1] == positions[1..][i];
        }
        if SharesLine(positions, row, column) {
          var i :| 0 <= i < |positions| && (positions[i].row == row || positions[i].column == column);
          assert positions[1..][i - 1] == positions[i];
        }
      }
    } else {
      assert positions[0].row == row || positions[0].column == column;
    }
  }

  /** `SubMatrixContains<SubMatrix, Positions>`. */
  function SubMatrixContains(subMatrix: seq<Pos>, positions: seq<Pos>): Ty<bool>
  {
    if positions == [] then Never
    else if ExtendsTrue(Contains(subMatrix, positions[0].row, positions[0].column)) then Val(true)
    else if |positions| == 1 then Val(false)
    else SubMatrixContains(subMatrix, positions[1..])
  }

  /** On non-empty lists, the sub-grid test is "some position lies in the sub-grid". */
  lemma {:induction false} SubMatrixContainsIsOverlap(subMatrix: seq<Pos>, positions: seq<Pos>)
    requires subMatrix != [] && positions != []
    ensures SubMatrixContains(subMatrix, positions) ==
      Val(exists i :: 0 <= i < |positions| && positions[i] in subMatrix)
  {
    ContainsIsMembership(subMatrix, positions[0].row, positions[0].column);
    if positions[0] !in subMatrix && |positions| > 1 {
      SubMatrixContainsIsOverlap(subMatrix, positions[1..]);
      if exists i :: 0 <= i < |positions| && positions[i] in subMatrix {
        var i :| 0 <= i < |positions| && positions[i] in subMatrix;
        assert positions[1..][i - 1] == positions[i];
      }
    } else if positions[0] in subMatrix {
      assert 0 <= 0 < |positions| && positions[0] in subMatrix;
    }
  }

  // ---------------------------------------------------------------------
  // The sub-grid tables
  // ---------------------------------------------------------------------

  /**
   * `BuildSubMatrix<Row, Column, R, C>`: the positions (Row + r, Column + c)
   * for r, c in 0..2, row by row; `r` and `c` are the loop counters.
   */
  function BuildSubMatrix(row: int, column: int, r: int, c: int): seq<Pos>
    requires 0 <= r <= 3 && 0 <= c <= 3
    decreases 3 - r, 3 - c
  {
    if r == 3 then []
    else if c == 3 then BuildSubMatrix(row, column, r + 1, 0)
    else [Pos(row + r, column + c)] + BuildSubMatrix(row, column, r, c + 1)
  }

  /** The part of the sub-grid from loop position (r, c) on. */
  lemma {:induction false} BuildSubMatrixFrom(row: int, column: int, r: int, c: int, p: Pos)
    requires 0 <= r <= 3 && 0 <= c <= 3
    ensures p in BuildSubMatrix(row, column, r, c) <==>
      (r < 3 && row + r <= p.row < row + 3 && column <= p.column < column + 3 && (p.row == row + r ==> column + c <= p.column))
    decreases 3 - r, 3 - c
  {
    if r < 3 && c == 3 {
      assert BuildSubMatrix(row, column, r, c) == BuildSubMatrix(row, column, r + 1, 0);
      BuildSubMatrixFrom(row, column, r + 1, 0, p);
    } else if r < 3 {
      var rest := BuildSubMatrix(row, column, r, c + 1);
      assert BuildSubMatrix(row, column, r, c) == [Pos(row + r, column + c)] + rest;
      assert p in [Pos(row + r, column + c)] + rest <==> p == Pos(row + r, column + c) || p in rest;
      BuildSubMatrixFrom(row, column, r, c + 1, p);
      if p.row == row + r {
        assert p in rest <==> column + c + 1 <= p.column < column + 3;
      } else {
        assert p in rest <==> row + r <= p.row < row + 3 && column <= p.column < column + 3;
      }
    }
  }

  lemma {:induction false} BuildSubMatrixSize(row: int, column: int, r: int, c: int)
    requires 0 <= r <= 3 && 0 <= c <= 3
    ensures |BuildSubMatrix(row, column, r, c)| == (if r == 3 then 0 else 3 * (3 - r) - c)
    decreases 3 - r, 3 - c
  {
    if r < 3 && c == 3 {
      BuildSubMatrixSize(row, column, r + 1, 0);
    } else if r < 3 {
      BuildSubMatrixSize(row, column, r, c + 1);
    }
  }

  /** `BuildSubMatrix<R0, C0>` is the nine cells of the 3x3 block at (R0, C0). */
  lemma SubMatrixCells(row: int, column: int)
    ensures |BuildSubMatrix(row, column, 0, 0)| == 9
    ensures forall p :: p in BuildSubMatrix(row, column, 0, 0) <==>
      row <= p.row < row + 3 && column <= p.column < column + 3
  {
    BuildSubMatrixSize(row, column, 0, 0);
    forall p ensures p in BuildSubMatrix(row, column, 0, 0) <==> row <= p.row < row + 3 && column <= p.column < column + 3 {
      BuildSubMatrixFrom(row, column, 0, 0, p);
    }
  }

  /** `SubMatrixMap`: the sub-grid index of a row or column. */
  function SubMatrixMap(): (m: seq<int>)
    ensures |m| == 9
  {
    [0, 0, 0, 1, 1, 1, 2, 2, 2]
  }

  /** `SubMatrixMap[i]` is i divided by three. */
  lemma SubMatrixMapDivides()
    ensures forall i :: 0 <= i < 9 ==> SubMatrixMap()[i] == i / 3
  {
  }

  /** `SubMatrixPositions[i][j]`: the block whose top-left cell is (3i, 3j). */
  function SubMatrixPositions(i: int, j: int): (sm: Ty<seq<Pos>>)
    ensures (0 <= i < 3 && 0 <= j < 3) <==> sm.Val?
  {
    if 0 <= i < 3 && 0 <= j < 3 then Val(BuildSubMatrix(3 * i, 3 * j, 0, 0)) else Never
  }

  /** The sub-grid of a cell, looked up through the two tables. */
  function SubMatrixOf(row: int, column: int): Ty<seq<Pos>>
  {
    if 0 <= row < 9 && 0 <= column < 9 then SubMatrixPositions(SubMatrixMap()[row], SubMatrixMap()[column])
    else Never
  }

  /** The block of an on-board cell holds exactly the cells sharing its 3x3 block. */
  lemma SubMatrixOfCell(row: int, column: int)
    requires 0 <= row < 9 && 0 <= column < 9
    ensures SubMatrixOf(row, column).Val?
    ensures forall p :: p in SubMatrixOf(row, column).value <==>
      0 <= p.row < 9 && 0 <= p.column < 9 && p.row / 3 == row / 3 && p.column / 3 == column / 3
  {
    SubMatrixMapDivides();
    SubMatrixCells(3 * (row / 3), 3 * (column / 3));
  }

  // ---------------------------------------------------------------------
  // The move check
  // ---------------------------------------------------------------------

  /** The answers of `CheckValidMove` other than `never`. */
  datatype MoveCheck = AlreadyPlaced | Collision | Legal

  /**
   * `CheckValidMove<Placed, Row, Column>`: the sub-grid test first, then the
   * row/column test.  A position off the 9x9 board has no sub-grid and
   * gives `never`.
   */
  function CheckValidMove(placed: seq<Pos>, row: int, column: int): Ty<MoveCheck>
  {
    match SubMatrixOf(row, column)
    case Never => Never
    case Val(subMatrix) =>
      if ExtendsTrue(SubMatrixContains(subMatrix, placed)) then Val(AlreadyPlaced)
      else if ExtendsTrue(RowColumnCollision(placed, row, column)) then Val(Collision)
      else Val(Legal)
  }

  /** `CheckValidMove<...> extends true` holds for `true` and for `never`. */
  predicate Allowed(m: Ty<MoveCheck>)
  {
    m.Never? || m.value == Legal
  }

  /** Two positions in the same 3x3 block of the board. */
  predicate SameBlock(p: Pos, row: int, column: int)
  {
    0 <= p.row < 9 && 0 <= p.column < 9 && p.row / 3 == row / 3 && p.column / 3 == column / 3
  }

  /**
   * For an on-board cell: with no placements the answer is "already
   * placed"; otherwise "already placed" exactly when a placement shares the
   * block, else "row/column collision" exactly when one shares the row or
   * column, else true.
   */
  lemma CheckValidMoveAnswers(placed: seq<Pos>, row: int, column: int)
    requires 0 <= row < 9 && 0 <= column < 9
    ensures placed == [] ==> CheckValidMove(placed, row, column) == Val(AlreadyPlaced)
    ensures placed != [] ==>
      CheckValidMove(placed, row, column) ==
        if exists i :: 0 <= i < |placed| && SameBlock(placed[i], row, column) then Val(AlreadyPlaced)
        else if SharesLine(placed, row, column) then Val(Collision)
        else Val(Legal)
  {
    SubMatrixOfCell(row, column);
    var sm := SubMatrixOf(row, column).value;
    assert Pos(row, column) in sm;
    if placed != [] {
      BlockOverlap(sm, placed, row, column);
      CollisionIsSharedLine(placed, row, column);
    }
  }

  /** The sub-grid test against a block: some placement shares the block. */
  lemma BlockOverlap(sm: seq<Pos>, placed: seq<Pos>, row: int, column: int)
    requires sm != [] && placed != []
    requires forall p :: p in sm <==> SameBlock(p, row, column)
    ensures SubMatrixContains(sm, placed) == Val(exists i :: 0 <= i < |placed| && SameBlock(placed[i], row, column))
  {
    SubMatrixContainsIsOverlap(sm, placed);
    if exists i :: 0 <= i < |placed| && placed[i] in sm {
      var i :| 0 <= i < |placed| && placed[i] in sm;
      assert SameBlock(placed[i], row, column);
    }
  }


  /** A move is allowed on the board exactly when no placement shares its block, row or column. */
  lemma AllowedIffFree(placed: seq<Pos>, row: int, column: int)
    requires 0 <= row < 9 && 0 <= column < 9
    ensures Allowed(CheckValidMove(placed, row, column)) <==>
      placed != [] && !SharesLine(placed, row, column) &&
      forall i :: 0 <= i < |placed| ==> !SameBlock(placed[i], row, column)
  {
    CheckValidMoveAnswers(placed, row, column);
  }

  // ---------------------------------------------------------------------
  // The column filter
  // ---------------------------------------------------------------------

  /** A column of `row` that the filter keeps: an empty cell and an allowed move. */
  predicate Usable(current: Board, row: int, column: int, placements: seq<Pos>)
  {
    Cell(current, row, column) == Some('.') && Allowed(CheckValidMove(placements, row, column))
  }

  /**
   * `CheckNotUsed<Current, Row, Columns, Placements>`: keeps, in order, the
   * columns whose cell is "." and whose move is allowed.  An empty column
   * list gives `never`.
   */
  function CheckNotUsed(current: Board, row: int, columns: seq<int>, placements: seq<Pos>): (r: Ty<seq<int>>)
    ensures columns == [] <==> r.Never?
    ensures r.Val? ==> forall c :: c in r.value <==> c in columns && Usable(current, row, c, placements)
    decreases |columns|
  {
    if columns == [] then Never
    else
      var next := columns[0];
      var rest := columns[1..];
      assert forall c :: c in columns <==> c == next || c in rest;
      if Usable(current, row, next, placements) then
        if rest == [] then Val([next])
        else
          match CheckNotUsed(current, row, rest, placements)
          case Never => Never
          case Val(kept) => Val([next] + kept)
      else if rest == [] then Val([])
      else CheckNotUsed(current, row, rest, placements)
  }

  /** Strictly ascending. */
  predicate Ascending(s: seq<int>)
  {
    forall i, j :: 0 <= i < j < |s| ==> s[i] < s[j]
  }

  /** The filter keeps the input order: ascending columns stay ascending. */
  lemma {:induction false} CheckNotUsedAscending(current: Board, row: int, columns: seq<int>, placements: seq<Pos>)
    requires columns != [] && Ascending(columns)
    ensures Ascending(CheckNotUsed(current, row, columns, placements).value)
    decreases |columns|
  {
    if |columns| > 1 {
      CheckNotUsedAscending(current, row, columns[1..], placements);
      var kept := CheckNotUsed(current, row, columns[1..], placements).value;
      assert forall c :: c in kept ==> c in columns[1..];
      assert forall k :: 0 <= k < |kept| ==> columns[0] < kept[k] by {
        forall k | 0 <= k < |kept| ensures columns[0] < kept[k] {
          assert kept[k] in columns[1..];
          var i :| 0 <= i < |columns[1..]| && columns[1..][i] == kept[k];
          assert columns[i + 1] == kept[k];
        }
      }
    }
  }
}
