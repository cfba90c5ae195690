/**
 * The vocabulary of the Sudoku solver (problems/sudoku/common.ts): cell
 * values, positions, the per-digit state and the persistent board update.
 */
module SudokuCommon {
  import opened TypeLevel
  import ArrayUtil

  /** `Digits`: the characters "1" to "9". */
  predicate IsDigit(c: char)
  {
    '1' <= c <= '9'
  }

  /** `BoardValues`: a digit or the empty cell ".". */
  predicate IsCellValue(c: char)
  {
    IsDigit(c) || c == '.'
  }

  /** `AllDigits`: the nine digits in ascending order. */
  function AllDigits(): (ds: seq<char>)
    ensures |ds| == 9
    ensures forall i :: 0 <= i < 9 ==> ds[i] as int == '1' as int + i
  {
    ['1', '2', '3', '4', '5', '6', '7', '8', '9']
  }

  /** `AllDigits` is exactly the digits, each once and in ascending order. */
  lemma AllDigitsListsDigits()
    ensures forall c :: c in AllDigits() <==> IsDigit(c)
    ensures forall i, j :: 0 <= i < j < 9 ==> AllDigits()[i] < AllDigits()[j]
  {
    var ds := AllDigits();
    forall c | IsDigit(c) ensures c in ds {
      assert ds[c as int - '1' as int] == c;
    }
  }

  /** A board is a list of rows of cell values; nothing fixes its shape. */
  type Board = seq<seq<char>>

  /** `BoardPosition<Row, Column>`. */
  datatype Pos = Pos(row: int, column: int)

  /**
   * `State<Counter, Placed>`: how many of each digit remain to be placed
   * and where each digit already stands.  The keys are the digit
   * characters.
   */
  datatype State = State(counter: map<char, int>, placed: map<char, seq<Pos>>)

  /**
   * `RowData`: the candidate rows of one digit, and for each of those rows
   * the columns where the digit may go (a `CheckNotUsed` result, hence a
   * `Ty`).
   */
  datatype RowData = RowData(rows: seq<int>, columns: map<int, Ty<seq<int>>>)

  /** `PositionGraph`: the row data of each digit. */
  type Graph = map<char, Ty<RowData>>

  /** `Current[Row][Column]`: a lookup past either end finds nothing. */
  function Cell(board: Board, row: int, column: int): (r: Option<char>)
    ensures r.Some? <==> 0 <= row < |board| && 0 <= column < |board[row]|
    ensures r.Some? ==> r.value == board[row][column]
  {
    if 0 <= row < |board| && 0 <= column < |board[row]| then Some(board[row][column]) else None
  }

  /**
   * `UpdateBoard<Current, Row, Column, Value, R>`: rebuilds the row list,
   * replacing row `Row` by `Replace<Next, Column, Value>`; `r` is the index
   * that `current[0]` had in the original board.  As with `Replace`, a row
   * index past the end drops the last row, and an empty board gives `never`.
   */
  function UpdateBoard(current: Board, row: int, column: int, value: char, r: int): (u: Ty<Board>)
    ensures current == [] ==> u == Never
    decreases |current|
  {
    if current == [] then Never
    else if r == row then
      match ArrayUtil.Replace(current[0], column, value, 0)
      case Never => Never
      case Val(next) => Val([next] + current[1..])
    else if |current| == 1 then Val([])
    else
      match UpdateBoard(current[1..], row, column, value, r + 1)
      case Never => Never
      case Val(rest) => Val([current[0]] + rest)
  }

  /**
   * For a cell inside the board, `UpdateBoard` writes that one cell and
   * leaves every other cell, and the shape of the board, as it was.
   */
  lemma {:induction false} UpdateBoardInRange(current: Board, row: int, column: int, value: char, r: int)
    requires r <= row < r + |current| && 0 <= column < |current[row - r]|
    ensures UpdateBoard(current, row, column, value, r) == Val(current[row - r := current[row - r][column := value]])
    decreases |current|
  {
    if r == row {
      assert [current[0][column := value]] + current[1..] == current[0 := current[0][column := value]];
    } else {
      assert |current| > 1;
      UpdateBoardInRange(current[1..], row, column, value, r + 1);
      assert current[1..][row - r - 1] == current[row - r];
      assert [current[0]] + current[1..][row - r - 1 := current[row - r][column := value]]
        == current[row - r := current[row - r][column := value]];
    }
  }

  /** A row index past the end gives the board without its last row. */
  lemma {:induction false} UpdateBoardPastEnd(current: Board, row: int, column: int, value: char, r: int)
    requires current != [] && !(r <= row < r + |current|)
    ensures UpdateBoard(current, row, column, value, r) == Val(current[..|current| - 1])
    decreases |current|
  {
    if |current| > 1 {
      UpdateBoardPastEnd(current[1..], row, column, value, r + 1);
      assert [current[0]] + current[1..][..|current| - 2] == current[..|current| - 1];
    }
  }
}
