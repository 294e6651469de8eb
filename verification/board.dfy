/** The playing field: a rows x columns grid of integer cells, 0 meaning
    empty (BitLogicGrid), with Python's indexing rules for reads and writes,
    the full-row test and the text form written by `format_board`. */
module Board {
  import opened PyRuntime
  import opened Cells
  import Text

  /** `cell_coordinates`: the list of rows, indexed board[y][x]. */
  type Board = seq<seq<int>>

  /** `rows` rows of `cols` cells each. */
  predicate WellFormed(b: Board, rows: int, cols: int)
  {
    |b| == rows && 0 <= cols && forall y :: 0 <= y < |b| ==> |b[y]| == cols
  }

  /** Two boards with the same row count and row lengths. */
  predicate SameShape(a: Board, b: Board)
  {
    |a| == |b| && forall y :: 0 <= y < |a| ==> |a[y]| == |b[y]|
  }

  datatype Grid = Grid(rows: nat, columns: nat, cells: Board)
  {
    predicate Valid()
    {
      WellFormed(cells, rows, columns)
    }
  }

  /** `BitLogicGrid(window, rows, columns)`: every cell starts empty. */
  function NewGrid(rows: nat, columns: nat): (g: Grid)
    ensures g.rows == rows && g.columns == columns && g.Valid()
    ensures forall y, x :: 0 <= y < rows && 0 <= x < columns ==> g.cells[y][x] == 0
  {
    Grid(rows, columns, seq(rows, _ => seq(columns, _ => 0)))
  }

  /** `get_board_state`: the grid's own cell list, not a copy. */
  function BoardState(g: Grid): Board
  {
    g.cells
  }

  lemma NewGridState(rows: nat, columns: nat)
    ensures WellFormed(BoardState(NewGrid(rows, columns)), rows, columns)
    ensures forall y, x :: 0 <= y < rows && 0 <= x < columns ==> BoardState(NewGrid(rows, columns))[y][x] == 0
  {
  }

  /** `board[y][x]`. */
  function Read(b: Board, x: int, y: int): (r: Result<int>)
    ensures 0 <= y < |b| && 0 <= x < |b[y]| ==> r == Ok(b[y][x])
    ensures r.Err? ==> r.fault == IndexError
  {
    match ResolveIndex(y, |b|)
    case None => Err(IndexError)
    case Some(row) =>
      match ResolveIndex(x, |b[row]|)
      case None => Err(IndexError)
      case Some(col) => Ok(b[row][col])
  }

  /** `board[y][x] = v`. */
  function Write(b: Board, x: int, y: int, v: int): (r: Result<Board>)
    ensures r.Ok? ==> SameShape(r.value, b)
    ensures r.Err? ==> r.fault == IndexError
    ensures 0 <= y < |b| && 0 <= x < |b[y]| ==> r.Ok?
    ensures 0 <= y < |b| && 0 <= x < |b[y]| ==>
      forall j, i :: 0 <= j < |b| && 0 <= i < |b[j]| ==>
        r.value[j][i] == if i == x && j == y then v else b[j][i]
  {
    match ResolveIndex(y, |b|)
    case None => Err(IndexError)
    case Some(row) =>
      match ResolveIndex(x, |b[row]|)
      case None => Err(IndexError)
      case Some(col) => Ok(b[row := b[row][col := v]])
  }

  /** `for x, y in cells: board[y][x] = v`, stopping at the first bad index. */
  function Stamp(b: Board, cs: seq<Cell>, v: int): (r: Result<Board>)
    ensures r.Ok? ==> SameShape(r.value, b)
    ensures r.Err? ==> r.fault == IndexError
    decreases |cs|
  {
    if |cs| == 0 then Ok(b)
    else
      match Write(b, cs[0].0, cs[0].1, v)
      case Err(e) => Err(e)
      case Ok(b1) => Stamp(b1, cs[1..], v)
  }

  /** Every cell is an index pair Python accepts on a rows x cols list of
      lists: negative coordinates count back from the end. */
  predicate Indexable(cs: seq<Cell>, rows: int, cols: int)
  {
    forall i :: 0 <= i < |cs| ==> -rows <= cs[i].1 < rows && -cols <= cs[i].0 < cols
  }

  /** On a rows x cols board, stamping goes through exactly when every cell
      can be indexed, and raises IndexError otherwise. */
  lemma {:induction false} StampSucceeds(b: Board, cs: seq<Cell>, v: int, rows: int, cols: int)
    requires WellFormed(b, rows, cols)
    ensures Stamp(b, cs, v).Ok? <==> Indexable(cs, rows, cols)
    ensures Stamp(b, cs, v).Err? ==> Stamp(b, cs, v).fault == IndexError
    decreases |cs|
  {
    if |cs| > 0 {
      var w := Write(b, cs[0].0, cs[0].1, v);
      assert w.Ok? <==> -rows <= cs[0].1 < rows && -cols <= cs[0].0 < cols;
      assert Indexable(cs, rows, cols) <==>
        (-rows <= cs[0].1 < rows && -cols <= cs[0].0 < cols) && Indexable(cs[1..], rows, cols) by {
        assert forall i :: 1 <= i < |cs| ==> cs[i] == cs[1..][i - 1];
      }
      if w.Ok? {
        StampSucceeds(w.value, cs[1..], v, rows, cols);
      }
    }
  }

  /** Stamping in-range cells sets exactly those cells to `v`. */
  lemma {:induction false} StampInBounds(b: Board, cs: seq<Cell>, v: int, rows: int, cols: int)
    requires WellFormed(b, rows, cols) && InBounds(cs, rows, cols)
    ensures Stamp(b, cs, v).Ok?
    ensures WellFormed(Stamp(b, cs, v).value, rows, cols)
    ensures forall y, x :: 0 <= y < rows && 0 <= x < cols ==>
      Stamp(b, cs, v).value[y][x] == if (x, y) in cs then v else b[y][x]
    decreases |cs|
  {
    if |cs| > 0 {
      var b1 := Write(b, cs[0].0, cs[0].1, v).value;
      assert InBounds(cs[1..], rows, cols);
      StampInBounds(b1, cs[1..], v, rows, cols);
      forall y, x | 0 <= y < rows && 0 <= x < cols
        ensures Stamp(b, cs, v).value[y][x] == if (x, y) in cs then v else b[y][x]
      {
        assert (x, y) in cs <==> (x, y) == cs[0] || (x, y) in cs[1..] by {
          assert cs == [cs[0]] + cs[1..];
        }
      }
    }
  }

  /** Every cell of row y, among the first `cols`, is non-zero. */
  predicate RowFull(b: Board, y: int, cols: int)
    requires 0 <= y < |b| && 0 <= cols <= |b[y]|
  {
    forall x :: 0 <= x < cols ==> b[y][x] != 0
  }

  ghost function FullRowSet(b: Board, cols: int, k: int): set<int>
    requires WellFormed(b, |b|, cols) && 0 <= k <= |b|
  {
    set y | 0 <= y < k && RowFull(b, y, cols)
  }

  /** The spawner's count of rows whose every cell is occupied, over rows [0, k). */
  function FullRowCount(b: Board, cols: int, k: nat): (n: nat)
    requires WellFormed(b, |b|, cols) && k <= |b|
    ensures n == |FullRowSet(b, cols, k)|
    ensures n <= k
  {
    if k == 0 then
      assert FullRowSet(b, cols, 0) == {};
      0
    else
      var prev := FullRowCount(b, cols, k - 1);
      assert k - 1 !in FullRowSet(b, cols, k - 1);
      if RowFull(b, k - 1, cols) then
        assert FullRowSet(b, cols, k) == FullRowSet(b, cols, k - 1) + {k - 1};
        prev + 1
      else
        assert FullRowSet(b, cols, k) == FullRowSet(b, cols, k - 1);
        prev
  }

  /** One row as `"[" + ",".join(str(c) for c in row) + "]"`. */
  function FormatRow(row: seq<int>): (s: string)
    ensures |s| >= 2 && s[0] == '[' && s[|s| - 1] == ']'
  {
    "[" + Text.Join(seq(|row|, i requires 0 <= i < |row| => Text.IntToString(row[i])), ',') + "]"
  }

  /** `format_board`: one string per row, in row order. */
  function FormatBoard(b: Board): (lines: seq<string>)
    ensures |lines| == |b|
    ensures forall y :: 0 <= y < |b| ==> lines[y] == FormatRow(b[y])
  {
    seq(|b|, y requires 0 <= y < |b| => FormatRow(b[y]))
  }

  function ParseCells(parts: seq<string>): Option<seq<int>>
  {
    if |parts| == 0 then Some([])
    else
      match Text.ParseInt(parts[0])
      case None => None
      case Some(c) =>
        match ParseCells(parts[1..])
        case None => None
        case Some(rest) => Some([c] + rest)
  }

  /** Reads one formatted row back. */
  function ParseRow(s: string): Option<seq<int>>
  {
    if |s| >= 2 && s[0] == '[' && s[|s| - 1] == ']' then
      var inner := s[1..|s| - 1];
      if inner == "" then Some([]) else ParseCells(Text.Split(inner, ','))
    else None
  }

  /** One more part that parses puts its value in front. */
  lemma ParseCellsCons(p: string, rest: seq<string>, v: int, vs: seq<int>)
    requires Text.ParseInt(p) == Some(v) && ParseCells(rest) == Some(vs)
    ensures ParseCells([p] + rest) == Some([v] + vs)
  {
    assert ([p] + rest)[1..] == rest;
  }

  lemma {:induction false} ParseCellsOfStrings(row: seq<int>)
    ensures ParseCells(seq(|row|, i requires 0 <= i < |row| => Text.IntToString(row[i]))) == Some(row)
  {
    var parts := seq(|row|, i requires 0 <= i < |row| => Text.IntToString(row[i]));
    if |row| > 0 {
      var tail := seq(|row[1..]|, i requires 0 <= i < |row[1..]| => Text.IntToString(row[1..][i]));
      assert parts == [Text.IntToString(row[0])] + tail;
      ParseCellsOfStrings(row[1..]);
      Text.ParseIntToString(row[0]);
      ParseCellsCons(Text.IntToString(row[0]), tail, row[0], row[1..]);
      assert [row[0]] + row[1..] == row;
    }
  }

  /** `format_board` loses nothing: every row parses back to itself. */
  lemma ParseFormatRow(row: seq<int>)
    ensures ParseRow(FormatRow(row)) == Some(row)
  {
    var parts := seq(|row|, i requires 0 <= i < |row| => Text.IntToString(row[i]));
    var s := FormatRow(row);
    assert s[1..|s| - 1] == Text.Join(parts, ',');
    if |row| > 0 {
      Text.SplitJoin(parts, ',');
      ParseCellsOfStrings(row);
    }
  }
}
