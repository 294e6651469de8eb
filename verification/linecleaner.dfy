/** The line cleaner (BitLogicLineCleaner): which rows `check_clearing`
    selects from the landed pieces' cells, the shared cleared-row counter, and
    the re-marking of the pieces' cells that ends `clear_rows`. */
module LineClearing {
  import opened PyRuntime
  import opened Cells
  import opened Board
  import opened Tetrominoes

  /** The set `check_clearing` gathers: every cell of every landed piece. */
  function LandedCells(pieces: seq<Tetromino>): (s: set<Cell>)
    ensures forall c :: c in s <==> exists i :: 0 <= i < |pieces| && pieces[i].landed && c in pieces[i].coords
  {
    if |pieces| == 0 then {}
    else
      var rest := LandedCells(pieces[1..]);
      assert forall i :: 1 <= i < |pieces| ==> pieces[i] == pieces[1..][i - 1];
      var own := if pieces[0].landed then set c | c in pieces[0].coords else {};
      own + rest
  }

  /** Every column of row y is a landed cell (vacuously so with no columns). */
  predicate RowCovered(landed: set<Cell>, y: int, cols: int)
  {
    forall x :: 0 <= x < cols ==> (x, y) in landed
  }

  /** The covered rows among [from, rows), ascending. */
  function CoveredRows(landed: set<Cell>, rows: int, cols: int, from: int): (r: seq<int>)
    ensures forall i, j :: 0 <= i < j < |r| ==> r[i] < r[j]
    ensures forall y :: y in r <==> from <= y < rows && RowCovered(landed, y, cols)
    decreases rows - from
  {
    if from >= rows then []
    else
      var rest := CoveredRows(landed, rows, cols, from + 1);
      assert forall j :: 0 <= j < |rest| ==> rest[j] in rest;
      if RowCovered(landed, from, cols) then [from] + rest else rest
  }

  /** `check_clearing`: the rows to clear, ascending, and the counter
      `num_cleared_rows`, which is written only when some row qualifies. */
  function CheckClearing(pieces: seq<Tetromino>, rows: int, cols: int, num: int): (r: (seq<int>, int))
    ensures forall i, j :: 0 <= i < j < |r.0| ==> r.0[i] < r.0[j]
    ensures forall y :: y in r.0 <==> 0 <= y < rows && RowCovered(LandedCells(pieces), y, cols)
    ensures r.1 == if |r.0| > 0 then |r.0| else num
  {
    var selected := CoveredRows(LandedCells(pieces), rows, cols, 0);
    (selected, if |selected| > 0 then |selected| else num)
  }

  /** A piece that has not landed never makes a row count as full. */
  lemma FallingPieceIgnored(pieces: seq<Tetromino>, t: Tetromino, rows: int, cols: int, num: int)
    requires !t.landed
    ensures CheckClearing(pieces + [t], rows, cols, num) == CheckClearing(pieces, rows, cols, num)
  {
    var all := pieces + [t];
    assert forall i :: 0 <= i < |pieces| ==> all[i] == pieces[i];
    assert LandedCells(all) == LandedCells(pieces);
  }

  /** With no columns every row from `from` on is covered. */
  lemma {:induction false} NoColumnsCoversFrom(landed: set<Cell>, rows: int, from: int)
    requires from <= rows
    ensures CoveredRows(landed, rows, 0, from) == seq(rows - from, i => from + i)
    decreases rows - from
  {
    if from < rows {
      NoColumnsCoversFrom(landed, rows, from + 1);
      assert RowCovered(landed, from, 0);
      var tail := seq(rows - from - 1, i => from + 1 + i);
      assert [from] + tail == seq(rows - from, i => from + i);
    }
  }

  /** With zero columns Python's all() over no cells is true, so every row
      is selected, whatever the pieces. */
  lemma NoColumnsSelectsEveryRow(pieces: seq<Tetromino>, rows: nat, num: int)
    ensures CheckClearing(pieces, rows, 0, num).0 == seq(rows, y => y)
    ensures rows > 0 ==> CheckClearing(pieces, rows, 0, num).1 == rows
  {
    NoColumnsCoversFrom(LandedCells(pieces), rows, 0);
    assert seq(rows - 0, i => 0 + i) == seq(rows, y => y);
  }

  /** The last loop of `clear_rows`: every cell of every piece, as `remove_rows`
      and `shift_down` left them, is set to 1, stopping at a bad index. */
  function Restamp(b: Board, pieces: seq<seq<Cell>>): (r: Result<Board>)
    ensures r.Ok? ==> SameShape(r.value, b)
    ensures r.Err? ==> r.fault == IndexError
    decreases |pieces|
  {
    if |pieces| == 0 then Ok(b)
    else
      match Stamp(b, pieces[0], 1)
      case Err(e) => Err(e)
      case Ok(b1) => Restamp(b1, pieces[1..])
  }

  /** On a rows x cols board, re-marking goes through exactly when every
      cell of every piece can be indexed. */
  lemma {:induction false} RestampSucceeds(b: Board, pieces: seq<seq<Cell>>, rows: int, cols: int)
    requires WellFormed(b, rows, cols)
    ensures Restamp(b, pieces).Ok? <==> forall i :: 0 <= i < |pieces| ==> Indexable(pieces[i], rows, cols)
    decreases |pieces|
  {
    if |pieces| > 0 {
      StampSucceeds(b, pieces[0], 1, rows, cols);
      assert forall i :: 1 <= i < |pieces| ==> pieces[1..][i - 1] == pieces[i];
      if Stamp(b, pieces[0], 1).Ok? {
        RestampSucceeds(Stamp(b, pieces[0], 1).value, pieces[1..], rows, cols);
      }
    }
  }

  /** In bounds, re-marking sets exactly the pieces' cells to 1. */
  lemma {:induction false} RestampInBounds(b: Board, pieces: seq<seq<Cell>>, rows: int, cols: int)
    requires WellFormed(b, rows, cols)
    requires forall i :: 0 <= i < |pieces| ==> InBounds(pieces[i], rows, cols)
    ensures Restamp(b, pieces).Ok?
    ensures WellFormed(Restamp(b, pieces).value, rows, cols)
    decreases |pieces|
    ensures forall y, x :: 0 <= y < rows && 0 <= x < cols ==>
      Restamp(b, pieces).value[y][x] == if exists i :: 0 <= i < |pieces| && (x, y) in pieces[i] then 1 else b[y][x]
  {
    if |pieces| > 0 {
      StampInBounds(b, pieces[0], 1, rows, cols);
      var b1 := Stamp(b, pieces[0], 1).value;
      assert forall i :: 1 <= i < |pieces| ==> pieces[1..][i - 1] == pieces[i];
      RestampInBounds(b1, pieces[1..], rows, cols);
      forall y, x | 0 <= y < rows && 0 <= x < cols
        ensures Restamp(b, pieces).value[y][x] ==
          if exists i :: 0 <= i < |pieces| && (x, y) in pieces[i] then 1 else b[y][x]
      {
        if exists i :: 1 <= i < |pieces| && (x, y) in pieces[i] {
          var i :| 1 <= i < |pieces| && (x, y) in pieces[i];
          assert (x, y) in pieces[1..][i - 1];
        }
      }
    }
  }

  /** `clear_rows` with the pieces' cells after `remove_rows` and
      `shift_down` supplied: the board with all of them marked. */
  function ClearRows(g: Grid, remaining: seq<seq<Cell>>): (r: Result<Grid>)
    ensures r.Ok? ==> r.value.rows == g.rows && r.value.columns == g.columns && SameShape(r.value.cells, g.cells)
    ensures r.Err? ==> r.fault == IndexError
  {
    match Restamp(g.cells, remaining)
    case Err(e) => Err(e)
    case Ok(b) => Ok(g.(cells := b))
  }

  /** After `clear_rows`, every remaining cell of every piece is 1 and the
      other cells are as before. */
  lemma ClearRowsMarks(g: Grid, remaining: seq<seq<Cell>>)
    requires g.Valid()
    requires forall i :: 0 <= i < |remaining| ==> InBounds(remaining[i], g.rows, g.columns)
    ensures ClearRows(g, remaining).Ok? && ClearRows(g, remaining).value.Valid()
    ensures forall i, j :: 0 <= i < |remaining| && 0 <= j < |remaining[i]| ==>
      Read(ClearRows(g, remaining).value.cells, remaining[i][j].0, remaining[i][j].1) == Ok(1)
  {
    RestampInBounds(g.cells, remaining, g.rows, g.columns);
    forall i, j | 0 <= i < |remaining| && 0 <= j < |remaining[i]|
      ensures Read(ClearRows(g, remaining).value.cells, remaining[i][j].0, remaining[i][j].1) == Ok(1)
    {
      var c := remaining[i][j];
      assert c in remaining[i];
    }
  }
}
