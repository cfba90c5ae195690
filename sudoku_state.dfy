/**
 * The initial per-digit state of a board (problems/sudoku/state.ts): how
 * many of each digit remain and where each one already stands, and the
 * order in which the solver takes the digits.
 */
module SudokuState {
  import opened TypeLevel
  import opened SudokuCommon
  import Sorting

  /** The digits as a set, the key set of the mapped types over `Digits`. */
  function DigitSet(): (ds: set<char>)
    ensures forall c :: c in ds <==> IsDigit(c)
  {
    AllDigitsListsDigits();
    set i | 0 <= i < 9 :: AllDigits()[i]
  }

  /** `Counter[Key]` for a digit key, if the key is present. */
  function CounterOf(s: State, d: char): int
  {
    if d in s.counter then s.counter[d] else 9
  }

  /** `Placed[Key]` for a digit key, if the key is present. */
  function PlacedOf(s: State, d: char): seq<Pos>
  {
    if d in s.placed then s.placed[d] else []
  }

  /**
   * `UpdateCounter<Counter, Value>`: one entry per digit; the placed digit
   * counts down, an absent key starts at 9 (8 for the placed digit).
   */
  function UpdateCounter(counter: map<char, int>, value: char): (r: map<char, int>)
    ensures r.Keys == DigitSet()
    ensures forall k :: k in r ==> r[k] == (if k in counter then counter[k] else 9) - (if k == value then 1 else 0)
  {
    map k | k in DigitSet() ::
      if k in counter then (if value == k then counter[k] - 1 else counter[k])
      else if value == k then 8 else 9
  }

  /**
   * `AddPosition<Positions, Value, P>`: one list per digit; the placed
   * digit's list gets `p` appended, an absent key starts empty.
   */
  function AddPosition(positions: map<char, seq<Pos>>, value: char, p: Pos): (r: map<char, seq<Pos>>)
    ensures r.Keys == DigitSet()
    ensures forall k :: k in r ==> r[k] == (if k in positions then positions[k] else []) + (if k == value then [p] else [])
  {
    map k | k in DigitSet() ::
      if k in positions then (if value == k then positions[k] + [p] else positions[k])
      else if value == k then [p] else []
  }

  /** `UpdateStatePosition<InitialState, Value, Row, Column>`. */
  function UpdateStatePosition(s: State, value: char, row: int, column: int): State
  {
    State(UpdateCounter(s.counter, value), AddPosition(s.placed, value, Pos(row, column)))
  }

  /** `CheckState<Counter, Placed>`: every missing digit key gets 9 and []. */
  function CheckState(counter: map<char, int>, placed: map<char, seq<Pos>>): (s: State)
    ensures DigitSet() <= s.counter.Keys && DigitSet() <= s.placed.Keys
    ensures forall d :: d in counter ==> d in s.counter && s.counter[d] == counter[d]
    ensures forall d :: d in placed ==> d in s.placed && s.placed[d] == placed[d]
    ensures forall d :: d in DigitSet() && d !in counter ==> s.counter[d] == 9
    ensures forall d :: d in DigitSet() && d !in placed ==> s.placed[d] == []
  {
    var missingCounter := MissingKeys(counter.Keys);
    var missingPlaced := MissingKeys(placed.Keys);
    State(counter + map k | k in missingCounter :: 9, placed + map k | k in missingPlaced :: [])
  }

  /** `MissingKeys<CurrentKeys>`: the digits that are not keys. */
  function MissingKeys(keys: set<char>): (r: set<char>)
    ensures forall c :: c in r <==> IsDigit(c) && c !in keys
  {
    set c | c in DigitSet() && c !in keys
  }

  /**
   * `ExtractState<Current, InitialState, Row, Column>`: visits the cells in
   * row-major order, rows 0 to 9 and columns 0 to 8, updating the state for
   * each digit cell; at (9, 9) it completes the state with `CheckState`.
   */
  function ExtractState(current: Board, s: State, row: int, column: int): State
    requires 0 <= row <= 9 && 0 <= column <= 9
    decreases 9 - row, 9 - column
  {
    if column == 9 then
      if row == 9 then CheckState(s.counter, s.placed)
      else ExtractState(current, s, row + 1, 0)
    else
      match Cell(current, row, column)
      case Some(d) =>
        if IsDigit(d) then ExtractState(current, UpdateStatePosition(s, d, row, column), row, column + 1)
        else ExtractState(current, s, row, column + 1)
      case None => ExtractState(current, s, row, column + 1)
  }

  // ---------------------------------------------------------------------
  // What the walk records
  // ---------------------------------------------------------------------

  /** The cells the walk visits: rows 0 to 9, columns 0 to 8. */
  predicate Visited(p: Pos)
  {
    0 <= p.row <= 9 && 0 <= p.column < 9
  }

  /** Row-major order of positions. */
  predicate RowMajorBefore(p: Pos, q: Pos)
  {
    p.row < q.row || (p.row == q.row && p.column < q.column)
  }

  /** A digit's list is in strictly increasing row-major order. */
  predicate RowMajor(ps: seq<Pos>)
  {
    forall i, j :: 0 <= i < j < |ps| ==> RowMajorBefore(ps[i], ps[j])
  }

  /**
   * One digit's record after the walk has reached (row, column): the list
   * holds exactly the visited cells before (row, column) holding the digit,
   * in row-major order, and counter plus list length is 9.
   */
  ghost predicate DigitRecord(current: Board, ps: seq<Pos>, count: int, d: char, row: int, column: int)
  {
    && count + |ps| == 9
    && RowMajor(ps)
    && (forall i :: 0 <= i < |ps| ==> RowMajorBefore(ps[i], Pos(row, column)))
    && (forall p :: p in ps <==> Visited(p) && RowMajorBefore(p, Pos(row, column)) && Cell(current, p.row, p.column) == Some(d))
  }

  /** The whole state after the walk has reached (row, column). */
  ghost predicate RecordsBefore(current: Board, s: State, row: int, column: int)
  {
    && s.counter.Keys == s.placed.Keys && s.counter.Keys <= DigitSet()
    && forall d :: IsDigit(d) ==> DigitRecord(current, PlacedOf(s, d), CounterOf(s, d), d, row, column)
  }

  /** Visiting one cell: the digit found there is appended and counted down. */
  lemma ExtendRecord(current: Board, ps: seq<Pos>, count: int, d: char, row: int, column: int)
    requires 0 <= row <= 9 && 0 <= column < 9 && DigitRecord(current, ps, count, d, row, column)
    ensures Cell(current, row, column) == Some(d) ==> DigitRecord(current, ps + [Pos(row, column)], count - 1, d, row, column + 1)
    ensures Cell(current, row, column) != Some(d) ==> DigitRecord(current, ps, count, d, row, column + 1)
  {
    var here := Pos(row, column);
    assert forall p :: Visited(p) ==> (RowMajorBefore(p, Pos(row, column + 1)) <==> RowMajorBefore(p, here) || p == here);
    if Cell(current, row, column) == Some(d) {
      var ps' := ps + [here];
      assert forall p :: p in ps' <==> p in ps || p == here;
      assert forall i :: 0 <= i < |ps| ==> ps'[i] == ps[i];
    }
  }

  /** After an update, each digit's entries are its old ones, the placed digit's extended. */
  lemma UpdateLookups(s: State, d: char, row: int, column: int, e: char)
    requires IsDigit(e)
    ensures PlacedOf(UpdateStatePosition(s, d, row, column), e) == PlacedOf(s, e) + (if e == d then [Pos(row, column)] else [])
    ensures CounterOf(UpdateStatePosition(s, d, row, column), e) == CounterOf(s, e) - (if e == d then 1 else 0)
  {
  }

  /** Recording a digit cell keeps every digit's record exact. */
  lemma RecordDigitCell(current: Board, s: State, row: int, column: int, d: char)
    requires 0 <= row <= 9 && 0 <= column < 9 && RecordsBefore(current, s, row, column)
    requires Cell(current, row, column) == Some(d) && IsDigit(d)
    ensures RecordsBefore(current, UpdateStatePosition(s, d, row, column), row, column + 1)
  {
    var s' := UpdateStatePosition(s, d, row, column);
    forall e | IsDigit(e) ensures DigitRecord(current, PlacedOf(s', e), CounterOf(s', e), e, row, column + 1) {
      RecordOneDigit(current, s, row, column, d, e);
    }
  }

  lemma RecordOneDigit(current: Board, s: State, row: int, column: int, d: char, e: char)
    requires 0 <= row <= 9 && 0 <= column < 9 && IsDigit(e)
    requires DigitRecord(current, PlacedOf(s, e), CounterOf(s, e), e, row, column)
    requires Cell(current, row, column) == Some(d)
    ensures var s' := UpdateStatePosition(s, d, row, column);
      DigitRecord(current, PlacedOf(s', e), CounterOf(s', e), e, row, column + 1)
  {
    var s' := UpdateStatePosition(s, d, row, column);
    ExtendRecord(current, PlacedOf(s, e), CounterOf(s, e), e, row, column);
    UpdateLookups(s, d, row, column, e);
    if e == d {
      assert PlacedOf(s', e) == PlacedOf(s, e) + [Pos(row, column)] && CounterOf(s', e) == CounterOf(s, e) - 1;
    } else {
      assert PlacedOf(s', e) == PlacedOf(s, e) && CounterOf(s', e) == CounterOf(s, e);
    }
  }

  /** Passing a cell that holds no digit keeps every record exact. */
  lemma RecordOtherCell(current: Board, s: State, row: int, column: int)
    requires 0 <= row <= 9 && 0 <= column < 9 && RecordsBefore(current, s, row, column)
    requires Cell(current, row, column).None? || !IsDigit(Cell(current, row, column).value)
    ensures RecordsBefore(current, s, row, column + 1)
  {
    forall e | IsDigit(e) ensures DigitRecord(current, PlacedOf(s, e), CounterOf(s, e), e, row, column + 1) {
      ExtendRecord(current, PlacedOf(s, e), CounterOf(s, e), e, row, column);
    }
  }

  /** Moving to the next row keeps the record. */
  lemma RecordRowEnd(current: Board, s: State, row: int)
    requires 0 <= row < 9 && RecordsBefore(current, s, row, 9)
    ensures RecordsBefore(current, s, row + 1, 0)
  {
    forall d | IsDigit(d) ensures DigitRecord(current, PlacedOf(s, d), CounterOf(s, d), d, row + 1, 0) {
      var ps := PlacedOf(s, d);
      assert forall p :: Visited(p) ==> (RowMajorBefore(p, Pos(row + 1, 0)) <==> RowMajorBefore(p, Pos(row, 9)));
      assert forall i :: 0 <= i < |ps| ==> RowMajorBefore(ps[i], Pos(row + 1, 0));
    }
  }

  /**
   * The finished walk: every digit has a counter and a list, the list holds
   * exactly the visited cells holding the digit, in row-major order, and
   * counter plus list length is 9.
   */
  ghost predicate Extracted(current: Board, t: State)
  {
    && DigitSet() <= t.counter.Keys && DigitSet() <= t.placed.Keys
    && forall d :: IsDigit(d) ==>
      && t.counter[d] + |t.placed[d]| == 9
      && RowMajor(t.placed[d])
      && (forall p :: p in t.placed[d] <==> Visited(p) && Cell(current, p.row, p.column) == Some(d))
  }

  /** At (9, 9) the completed state holds every record. */
  lemma RecordsComplete(current: Board, s: State)
    requires RecordsBefore(current, s, 9, 9)
    ensures Extracted(current, CheckState(s.counter, s.placed))
  {
    var t := CheckState(s.counter, s.placed);
    forall d | IsDigit(d) ensures t.counter[d] == CounterOf(s, d) && t.placed[d] == PlacedOf(s, d) {
    }
    forall d | IsDigit(d)
      ensures forall p :: p in t.placed[d] <==> Visited(p) && Cell(current, p.row, p.column) == Some(d)
    {
      assert DigitRecord(current, PlacedOf(s, d), CounterOf(s, d), d, 9, 9);
      assert forall p :: Visited(p) ==> RowMajorBefore(p, Pos(9, 9));
    }
  }

  /** The walk from (row, column) completes a record of the whole visited area. */
  lemma {:induction false} ExtractRecords(current: Board, s: State, row: int, column: int)
    requires 0 <= row <= 9 && 0 <= column <= 9 && RecordsBefore(current, s, row, column)
    ensures Extracted(current, ExtractState(current, s, row, column))
    decreases 9 - row, 9 - column
  {
    if column == 9 {
      if row == 9 {
        RecordsComplete(current, s);
      } else {
        RecordRowEnd(current, s, row);
        ExtractRecords(current, s, row + 1, 0);
      }
    } else {
      match Cell(current, row, column)
      case Some(d) =>
        if IsDigit(d) {
          RecordDigitCell(current, s, row, column, d);
          ExtractRecords(current, UpdateStatePosition(s, d, row, column), row, column + 1);
        } else {
          RecordOtherCell(current, s, row, column);
          ExtractRecords(current, s, row, column + 1);
        }
      case None =>
        RecordOtherCell(current, s, row, column);
        ExtractRecords(current, s, row, column + 1);
    }
  }

  /** The state the solver starts from. */
  function InitialState(current: Board): State
  {
    ExtractState(current, State(map[], map[]), 0, 0)
  }

  /**
   * Every digit has a counter and a list; the list holds exactly the cells
   * of the visited area holding that digit, in row-major order, and the
   * counter is 9 minus their number.
   */
  lemma InitialStateRecordsBoard(current: Board)
    ensures var t := InitialState(current);
      && DigitSet() <= t.counter.Keys && DigitSet() <= t.placed.Keys
      && forall d :: IsDigit(d) ==>
        && t.counter[d] + |t.placed[d]| == 9
        && RowMajor(t.placed[d])
        && (forall p :: p in t.placed[d] <==> Visited(p) && Cell(current, p.row, p.column) == Some(d))
  {
    var s := State(map[], map[]);
    forall d | IsDigit(d) ensures PlacedOf(s, d) == [] {
    }
    ExtractRecords(current, s, 0, 0);
  }

  // ---------------------------------------------------------------------
  // The digit order
  // ---------------------------------------------------------------------

  /** `CounterValues<D, V>`. */
  datatype CounterValue = CounterValue(digit: char, value: int)

  /** `ExtractCounters<Counter, Values>`: pairs each listed digit with its counter. */
  function ExtractCounters(counter: map<char, int>, values: seq<char>): (r: Ty<seq<CounterValue>>)
    requires forall i :: 0 <= i < |values| ==> values[i] in counter
    ensures values == [] <==> r.Never?
    ensures r.Val? ==> |r.value| == |values|
    ensures r.Val? ==> forall i :: 0 <= i < |values| ==> r.value[i] == CounterValue(values[i], counter[values[i]])
  {
    if values == [] then Never
    else if |values| == 1 then Val([CounterValue(values[0], counter[values[0]])])
    else
      match ExtractCounters(counter, values[1..])
      case Never => Never
      case Val(rest) => Val([CounterValue(values[0], counter[values[0]])] + rest)
  }

  /** `ExtractDigits<V>`: the digit of each counter value. */
  function ExtractDigits(v: seq<CounterValue>): (r: Ty<seq<char>>)
    ensures v == [] <==> r.Never?
    ensures r.Val? ==> |r.value| == |v| && forall i :: 0 <= i < |v| ==> r.value[i] == v[i].digit
  {
    if v == [] then Never
    else if |v| == 1 then Val([v[0].digit])
    else
      match ExtractDigits(v[1..])
      case Never => Never
      case Val(rest) => Val([v[0].digit] + rest)
  }

  function ByCount(c: CounterValue): int
  {
    c.value
  }

  /**
   * `SortState<Current>`: the digits heap-sorted on their counters.  A
   * missing counter leaves the pairing ill-typed; the states the solver
   * sorts carry every digit.
   */
  function SortState(s: State): Ty<seq<char>>
    requires DigitSet() <= s.counter.Keys
  {
    AllDigitsListsDigits();
    SortDigits(s.counter, AllDigits())
  }

  /** The body of `SortState`, for any list of digits with counters. */
  function SortDigits(counter: map<char, int>, ds: seq<char>): Ty<seq<char>>
    requires forall i :: 0 <= i < |ds| ==> ds[i] in counter
  {
    match ExtractCounters(counter, ds)
    case Never => Never
    case Val(c) =>
      // A `never` sort passes the `extends infer S` test, and `ExtractDigits`
      // of `never` is `never`; the `AllDigits` fallback is never taken.
      match Sorting.Sort(c, ByCount)
      case Never => Never
      case Val(sorted) => ExtractDigits(sorted)
  }

  /** The digit of each pair, as a multiset. */
  function Digits(v: seq<CounterValue>): multiset<char>
  {
    if v == [] then multiset{} else multiset{v[0].digit} + Digits(v[1..])
  }

  lemma {:induction false} DigitsOfPermutation(a: seq<CounterValue>, b: seq<CounterValue>)
    requires multiset(a) == multiset(b)
    ensures Digits(a) == Digits(b)
    decreases |a|
  {
    if a != [] {
      var x, rest := a[0], a[1..];
      assert a == [x] + rest;
      assert multiset(a) == multiset{x} + multiset(rest);
      var k := IndexIn(b, x);
      var b' := b[..k] + b[k + 1..];
      RemoveOne(b, k);
      RemoveOneDigit(b, k);
      assert multiset(rest) == multiset(b');
      DigitsOfPermutation(rest, b');
      assert Digits(a) == multiset{x.digit} + Digits(rest);
    }
  }

  /** A position of an element of b. */
  lemma IndexIn(b: seq<CounterValue>, x: CounterValue) returns (k: int)
    requires x in multiset(b)
    ensures 0 <= k < |b| && b[k] == x
  {
    assert x in b;
    k :| 0 <= k < |b| && b[k] == x;
  }

  /** Taking out the element at k. */
  lemma RemoveOne(b: seq<CounterValue>, k: int)
    requires 0 <= k < |b|
    ensures multiset(b[..k] + b[k + 1..]) == multiset(b) - multiset{b[k]}
  {
    assert b == b[..k] + [b[k]] + b[k + 1..];
  }

  /** The digits of b are b[k]'s digit and the digits of the rest. */
  lemma RemoveOneDigit(b: seq<CounterValue>, k: int)
    requires 0 <= k < |b|
    ensures Digits(b) == multiset{b[k].digit} + Digits(b[..k] + b[k + 1..])
  {
    var x, front, back := b[k], b[..k], b[k + 1..];
    var tail := [x] + back;
    assert b == front + tail;
    DigitsSplit(front, tail);
    assert tail[0] == x && tail[1..] == back;
    DigitsSplit(front, back);
  }

  lemma {:induction false} DigitsSplit(a: seq<CounterValue>, b: seq<CounterValue>)
    ensures Digits(a + b) == Digits(a) + Digits(b)
    decreases |a|
  {
    if a == [] {
      assert a + b == b;
    } else {
      assert (a + b)[0] == a[0];
      assert (a + b)[1..] == a[1..] + b;
      DigitsSplit(a[1..], b);
    }
  }

  lemma {:induction false} DigitsOfSeq(v: seq<CounterValue>, ds: seq<char>)
    requires |ds| == |v| && forall i :: 0 <= i < |v| ==> ds[i] == v[i].digit
    ensures multiset(ds) == Digits(v)
    decreases |v|
  {
    if v != [] {
      DigitsOfSeq(v[1..], ds[1..]);
      assert ds == [ds[0]] + ds[1..];
    }
  }

  /** Sorting a non-empty digit list rearranges it. */
  lemma SortDigitsReorders(counter: map<char, int>, ds: seq<char>)
    requires ds != [] && forall i :: 0 <= i < |ds| ==> ds[i] in counter
    ensures SortDigits(counter, ds).Val?
    ensures multiset(SortDigits(counter, ds).value) == multiset(ds)
  {
    var c := ExtractCounters(counter, ds).value;
    var sorted := Sorting.Sort(c, ByCount).value;
    DigitsOfPermutation(sorted, c);
    DigitsOfSeq(sorted, ExtractDigits(sorted).value);
    DigitsOfSeq(c, ds);
  }

  /** The order is a rearrangement of the nine digits, each exactly once. */
  lemma SortStateReorders(s: State)
    requires DigitSet() <= s.counter.Keys
    ensures SortState(s).Val?
    ensures multiset(SortState(s).value) == multiset(AllDigits())
  {
    AllDigitsListsDigits();
    SortDigitsReorders(s.counter, AllDigits());
  }
}
