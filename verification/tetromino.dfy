/** A live piece (BitLogicTetromino): its bounding box and pivot, the
    collision probe, the move-or-land rule, time-gated gravity and the
    mean-pivot rotation. The shared grid is passed in and handed back. */
module Tetrominoes {
  import opened PyRuntime
  import opened Cells
  import opened Board
  import NGrams

  datatype Tetromino = Tetromino(
    piece: string,
    coords: seq<Cell>,
    landed: bool,
    width: int,
    height: int,
    minX: int,
    maxX: int,
    minY: int,
    maxY: int,
    pivot: Cell,
    gravityDelay: int,
    lastGravityTime: int,
    suggestion: Option<NGrams.Suggestion>)

  // ------------------------------------------------------------ bounding box

  /** [lo, hi] is the tight range of the cells' x coordinates. */
  predicate TightX(cs: seq<Cell>, lo: int, hi: int)
  {
    && (forall i :: 0 <= i < |cs| ==> lo <= cs[i].0 <= hi)
    && (exists i :: 0 <= i < |cs| && cs[i].0 == lo)
    && (exists i :: 0 <= i < |cs| && cs[i].0 == hi)
  }

  /** [lo, hi] is the tight range of the cells' y coordinates. */
  predicate TightY(cs: seq<Cell>, lo: int, hi: int)
  {
    && (forall i :: 0 <= i < |cs| ==> lo <= cs[i].1 <= hi)
    && (exists i :: 0 <= i < |cs| && cs[i].1 == lo)
    && (exists i :: 0 <= i < |cs| && cs[i].1 == hi)
  }

  /** `_get_width`: one more than the largest horizontal distance between two
      cells; max() of no cells raises ValueError. */
  function Width(cs: seq<Cell>): (r: Result<int>)
    ensures r.Err? <==> |cs| == 0
    ensures r.Err? ==> r.fault == ValueError
    ensures r.Ok? ==> r.value >= 1
    ensures r.Ok? ==> forall i, j :: 0 <= i < |cs| && 0 <= j < |cs| ==> cs[i].0 - cs[j].0 < r.value
    ensures r.Ok? ==> exists i, j :: 0 <= i < |cs| && 0 <= j < |cs| && cs[i].0 - cs[j].0 == r.value - 1
  {
    if |cs| == 0 then Err(ValueError)
    else
      Extremes(cs);
      Ok(MaxX(cs) - MinX(cs) + 1)
  }

  /** `_get_height`: one more than the largest vertical distance between two
      cells; ValueError for no cells. */
  function Height(cs: seq<Cell>): (r: Result<int>)
    ensures r.Err? <==> |cs| == 0
    ensures r.Err? ==> r.fault == ValueError
    ensures r.Ok? ==> r.value >= 1
    ensures r.Ok? ==> forall i, j :: 0 <= i < |cs| && 0 <= j < |cs| ==> cs[i].1 - cs[j].1 < r.value
    ensures r.Ok? ==> exists i, j :: 0 <= i < |cs| && 0 <= j < |cs| && cs[i].1 - cs[j].1 == r.value - 1
  {
    if |cs| == 0 then Err(ValueError)
    else
      Extremes(cs);
      Ok(MaxY(cs) - MinY(cs) + 1)
  }

  /** `_get_block_pivot`: the centre of the bounding box snapped to a cell,
      a half-way centre going to the even neighbour as Python's round() does. */
  function BlockPivot(cs: seq<Cell>): (r: Result<Cell>)
    ensures r.Err? <==> |cs| == 0
    ensures r.Err? ==> r.fault == ValueError
    ensures r.Ok? ==> MinX(cs) <= r.value.0 <= MaxX(cs) && MinY(cs) <= r.value.1 <= MaxY(cs)
    ensures r.Ok? ==> -1 <= 2 * r.value.0 - (MinX(cs) + MaxX(cs)) <= 1
    ensures r.Ok? ==> -1 <= 2 * r.value.1 - (MinY(cs) + MaxY(cs)) <= 1
    ensures r.Ok? && 2 * r.value.0 != MinX(cs) + MaxX(cs) ==> r.value.0 % 2 == 0
    ensures r.Ok? && 2 * r.value.1 != MinY(cs) + MaxY(cs) ==> r.value.1 % 2 == 0
  {
    if |cs| == 0 then Err(ValueError)
    else
      Extremes(cs);
      var cx := (MinX(cs) + MaxX(cs)) as real / 2.0;
      var cy := (MinY(cs) + MaxY(cs)) as real / 2.0;
      Ok((RoundHalfEven(cx), RoundHalfEven(cy)))
  }

  /** `BitLogicTetromino(grid, piece_shape, coordinates, tick_speed)` with the
      clock reading `now`: not landed, with its box, size and pivot computed
      from the cells; no cells make min() raise ValueError. */
  function NewTetromino(piece: string, cs: seq<Cell>, tickSpeed: int, now: int): (r: Result<Tetromino>)
    ensures r.Err? <==> |cs| == 0
    ensures r.Err? ==> r.fault == ValueError
    ensures r.Ok? ==>
      var t := r.value;
      && t.piece == piece && t.coords == cs && !t.landed
      && TightX(cs, t.minX, t.maxX) && TightY(cs, t.minY, t.maxY)
      && t.width == t.maxX - t.minX + 1 && t.height == t.maxY - t.minY + 1
      && Ok(t.pivot) == BlockPivot(cs)
      && t.gravityDelay == tickSpeed && t.lastGravityTime == now
      && t.suggestion.None?
  {
    if |cs| == 0 then Err(ValueError)
    else
      Extremes(cs);
      Ok(Tetromino(piece, cs, false, Width(cs).value, Height(cs).value,
                   MinX(cs), MaxX(cs), MinY(cs), MaxY(cs), BlockPivot(cs).value,
                   tickSpeed, now, None))
  }

  // --------------------------------------------------------------- collision

  /** Cell c moved by (dx, dy) is below the floor, or on a non-zero cell that
      is not one of the piece's own. */
  predicate HitAt(b: Board, own: seq<Cell>, c: Cell, rows: int, dx: int, dy: int)
  {
    var x, y := c.0 + dx, c.1 + dy;
    y >= rows || (Read(b, x, y).Ok? && Read(b, x, y).value != 0 && (x, y) !in own)
  }

  /** Cell c moved by (dx, dy) is above the floor and readable, and empty or
      one of the piece's own cells. */
  predicate FreeAt(b: Board, own: seq<Cell>, c: Cell, rows: int, dx: int, dy: int)
  {
    var x, y := c.0 + dx, c.1 + dy;
    y < rows && Read(b, x, y).Ok? && (Read(b, x, y).value == 0 || (x, y) in own)
  }

  /** The loop of `check_collision` over the cells still to look at. */
  function Probe(b: Board, own: seq<Cell>, cs: seq<Cell>, rows: int, dx: int, dy: int): (r: Result<bool>)
    ensures r == Ok(false) <==> forall i :: 0 <= i < |cs| ==> FreeAt(b, own, cs[i], rows, dx, dy)
    ensures r == Ok(true) ==> exists i :: 0 <= i < |cs| && HitAt(b, own, cs[i], rows, dx, dy)
    ensures r.Err? ==> r.fault == IndexError
    ensures r.Err? ==> exists i :: 0 <= i < |cs| && cs[i].1 + dy < rows && Read(b, cs[i].0 + dx, cs[i].1 + dy).Err?
  {
    if |cs| == 0 then Ok(false)
    else
      var x, y := cs[0].0 + dx, cs[0].1 + dy;
      if y >= rows then
        assert HitAt(b, own, cs[0], rows, dx, dy);
        Ok(true)
      else
        match Read(b, x, y)
        case Err(e) => Err(e)
        case Ok(v) =>
          if v != 0 && (x, y) !in own then
            assert HitAt(b, own, cs[0], rows, dx, dy);
            Ok(true)
          else
            var rest := Probe(b, own, cs[1..], rows, dx, dy);
            assert forall i :: 1 <= i < |cs| ==> cs[i] == cs[1..][i - 1];
            rest
  }

  /** `check_collision(dx, dy)`: reads the board only; there is no left or
      right edge test, and Python's negative indices wrap. */
  function CheckCollision(t: Tetromino, g: Grid, dx: int, dy: int): (r: Result<bool>)
    ensures r == Ok(false) <==> forall i :: 0 <= i < |t.coords| ==> FreeAt(g.cells, t.coords, t.coords[i], g.rows, dx, dy)
    ensures r == Ok(true) ==> exists i :: 0 <= i < |t.coords| && HitAt(g.cells, t.coords, t.coords[i], g.rows, dx, dy)
    ensures r.Err? ==> r.fault == IndexError
  {
    Probe(g.cells, t.coords, t.coords, g.rows, dx, dy)
  }

  /** With every moved x inside the columns and every moved y non-negative,
      the probe answers exactly "some moved cell is below the floor or on an
      occupied cell of another piece". */
  lemma ProbeInRange(b: Board, own: seq<Cell>, cs: seq<Cell>, rows: int, cols: int, dx: int, dy: int)
    requires WellFormed(b, rows, cols)
    requires forall i :: 0 <= i < |cs| ==> 0 <= cs[i].0 + dx < cols && 0 <= cs[i].1 + dy
    ensures
      var hit :=
        exists i :: 0 <= i < |cs| &&
          (cs[i].1 + dy >= rows || (b[cs[i].1 + dy][cs[i].0 + dx] != 0 && (cs[i].0 + dx, cs[i].1 + dy) !in own));
      Probe(b, own, cs, rows, dx, dy) == Ok(hit)
  {
    forall i | 0 <= i < |cs| && cs[i].1 + dy < rows
      ensures Read(b, cs[i].0 + dx, cs[i].1 + dy) == Ok(b[cs[i].1 + dy][cs[i].0 + dx])
    {
    }
  }

  lemma CollisionInRange(t: Tetromino, g: Grid, dx: int, dy: int)
    requires g.Valid()
    requires forall i :: 0 <= i < |t.coords| ==> 0 <= t.coords[i].0 + dx < g.columns && 0 <= t.coords[i].1 + dy
    ensures
      var cs := t.coords;
      var hit :=
        exists i :: 0 <= i < |cs| &&
          (cs[i].1 + dy >= g.rows || (g.cells[cs[i].1 + dy][cs[i].0 + dx] != 0 && (cs[i].0 + dx, cs[i].1 + dy) !in cs));
      CheckCollision(t, g, dx, dy) == Ok(hit)
  {
    ProbeInRange(g.cells, t.coords, t.coords, g.rows, g.columns, dx, dy);
  }

  // ---------------------------------------------------------- move or land

  /** `change_coordinates(new, falling_skip)`: clear the piece's cells, probe
      its CURRENT cells moved down by `skip`, adopt `new` only when that probe
      is free (otherwise the piece lands and keeps its cells), then mark the
      resulting cells. The proposed cells themselves are never checked. */
  function ChangeCoordinates(t: Tetromino, g: Grid, proposed: seq<Cell>, skip: int): (r: Result<(Tetromino, Grid)>)
    ensures r.Ok? ==> r.value.0.coords == proposed || (r.value.0.coords == t.coords && r.value.0.landed)
    ensures r.Ok? && t.landed ==> r.value.0.landed
    ensures r.Ok? ==> r.value.0.(coords := t.coords, landed := t.landed) == t
    ensures r.Ok? ==> r.value.1.rows == g.rows && r.value.1.columns == g.columns && SameShape(r.value.1.cells, g.cells)
    ensures r.Err? ==> r.fault == IndexError
  {
    match Stamp(g.cells, t.coords, 0)
    case Err(e) => Err(e)
    case Ok(cleared) =>
      match Probe(cleared, t.coords, t.coords, g.rows, 0, skip)
      case Err(e) => Err(e)
      case Ok(hit) =>
        var t1 := if hit then t.(landed := true) else t.(coords := proposed);
        match Stamp(cleared, t1.coords, 1)
        case Err(e) => Err(e)
        case Ok(marked) => Ok((t1, g.(cells := marked)))
  }

  /** The fall probe of `change_coordinates`, stated on the board before the
      piece's own cells are cleared. */
  ghost predicate FallBlocked(g: Grid, cs: seq<Cell>, skip: int)
    requires g.Valid() && InBounds(cs, g.rows, g.columns) && skip >= 0
  {
    exists i :: 0 <= i < |cs| &&
      (cs[i].1 + skip >= g.rows || (g.cells[cs[i].1 + skip][cs[i].0] != 0 && (cs[i].0, cs[i].1 + skip) !in cs))
  }

  /** Two boards that agree on every cell the fall probe can hit give the
      same answer. */
  lemma SameFallHits(b1: Board, b2: Board, cs: seq<Cell>, rows: int, cols: int, skip: int)
    requires WellFormed(b1, rows, cols) && WellFormed(b2, rows, cols) && InBounds(cs, rows, cols) && skip >= 0
    requires forall i :: 0 <= i < |cs| && cs[i].1 + skip < rows && (cs[i].0, cs[i].1 + skip) !in cs ==>
      b1[cs[i].1 + skip][cs[i].0] == b2[cs[i].1 + skip][cs[i].0]
    ensures
      (exists i :: 0 <= i < |cs| &&
        (cs[i].1 + skip >= rows || (b1[cs[i].1 + skip][cs[i].0 + 0] != 0 && (cs[i].0 + 0, cs[i].1 + skip) !in cs)))
      ==
      (exists i :: 0 <= i < |cs| &&
        (cs[i].1 + skip >= rows || (b2[cs[i].1 + skip][cs[i].0] != 0 && (cs[i].0, cs[i].1 + skip) !in cs)))
  {
  }

  /** Clearing the piece's own cells does not change what the fall probe sees. */
  lemma ProbeCleared(g: Grid, cs: seq<Cell>, skip: int)
    requires g.Valid() && InBounds(cs, g.rows, g.columns) && skip >= 0
    ensures Stamp(g.cells, cs, 0).Ok?
    ensures Probe(Stamp(g.cells, cs, 0).value, cs, cs, g.rows, 0, skip) == Ok(FallBlocked(g, cs, skip))
  {
    StampInBounds(g.cells, cs, 0, g.rows, g.columns);
    var cleared := Stamp(g.cells, cs, 0).value;
    ProbeInRange(cleared, cs, cs, g.rows, g.columns, 0, skip);
    forall i | 0 <= i < |cs| && cs[i].1 + skip < g.rows && (cs[i].0, cs[i].1 + skip) !in cs
      ensures cleared[cs[i].1 + skip][cs[i].0] == g.cells[cs[i].1 + skip][cs[i].0]
    {
    }
    SameFallHits(cleared, g.cells, cs, g.rows, g.columns, skip);
  }

  /** With the piece on the board, and the proposed cells on it whenever the
      fall is free, `change_coordinates` never fails; the piece moves exactly
      when the fall probe is free and lands otherwise. A blocked piece never
      looks at the proposed cells, so they may lie anywhere. */
  lemma ChangeInBounds(t: Tetromino, g: Grid, proposed: seq<Cell>, skip: int)
    requires g.Valid() && InBounds(t.coords, g.rows, g.columns) && skip >= 0
    requires !FallBlocked(g, t.coords, skip) ==> InBounds(proposed, g.rows, g.columns)
    ensures ChangeCoordinates(t, g, proposed, skip).Ok?
    ensures var r := ChangeCoordinates(t, g, proposed, skip).value;
      && r.0.landed == (t.landed || FallBlocked(g, t.coords, skip))
      && r.0.coords == (if FallBlocked(g, t.coords, skip) then t.coords else proposed)
      && r.1.Valid()
  {
    ProbeCleared(g, t.coords, skip);
    var cleared := Stamp(g.cells, t.coords, 0).value;
    StampInBounds(g.cells, t.coords, 0, g.rows, g.columns);
    var cs1 := if FallBlocked(g, t.coords, skip) then t.coords else proposed;
    StampInBounds(cleared, cs1, 1, g.rows, g.columns);
  }

  /** On the board, the piece's resulting cells become 1, its vacated cells
      0, and nothing else changes. */
  lemma ChangeCells(t: Tetromino, g: Grid, proposed: seq<Cell>, skip: int)
    requires g.Valid() && InBounds(t.coords, g.rows, g.columns) && skip >= 0
    requires !FallBlocked(g, t.coords, skip) ==> InBounds(proposed, g.rows, g.columns)
    ensures ChangeCoordinates(t, g, proposed, skip).Ok?
    ensures var r := ChangeCoordinates(t, g, proposed, skip).value;
      forall y, x :: 0 <= y < g.rows && 0 <= x < g.columns ==>
        r.1.cells[y][x] == if (x, y) in r.0.coords then 1 else if (x, y) in t.coords then 0 else g.cells[y][x]
  {
    ChangeInBounds(t, g, proposed, skip);
    StampInBounds(g.cells, t.coords, 0, g.rows, g.columns);
    var cleared := Stamp(g.cells, t.coords, 0).value;
    var r := ChangeCoordinates(t, g, proposed, skip).value;
    StampInBounds(cleared, r.0.coords, 1, g.rows, g.columns);
  }

  /** A piece whose fall is blocked, on a board that already shows it, keeps
      its cells and leaves the board as it was. */
  lemma BlockedChangeKeepsBoard(t: Tetromino, g: Grid, proposed: seq<Cell>, skip: int)
    requires g.Valid() && InBounds(t.coords, g.rows, g.columns) && skip >= 0
    requires forall i :: 0 <= i < |t.coords| ==> g.cells[t.coords[i].1][t.coords[i].0] == 1
    requires FallBlocked(g, t.coords, skip)
    ensures ChangeCoordinates(t, g, proposed, skip).Ok?
    ensures ChangeCoordinates(t, g, proposed, skip).value.0 == t.(landed := true)
    ensures ChangeCoordinates(t, g, proposed, skip).value.1 == g
  {
    ChangeInBounds(t, g, proposed, skip);
    ChangeCells(t, g, proposed, skip);
    var g1 := ChangeCoordinates(t, g, proposed, skip).value.1;
    forall y | 0 <= y < g.rows
      ensures g1.cells[y] == g.cells[y]
    {
      forall x | 0 <= x < g.columns
        ensures g1.cells[y][x] == g.cells[y][x]
      {
        if (x, y) in t.coords {
          var i :| 0 <= i < |t.coords| && t.coords[i] == (x, y);
        }
      }
    }
  }

  // ----------------------------------------------------------------- gravity

  /** `apply_gravity(falling_skip)` at clock reading `now`. */
  function ApplyGravity(t: Tetromino, g: Grid, now: int, skip: int): (r: Result<(Tetromino, Grid)>)
    ensures |t.coords| == 0 || now - t.lastGravityTime < t.gravityDelay ==> r == Ok((t, g))
    ensures |t.coords| > 0 && now - t.lastGravityTime >= t.gravityDelay && r.Ok? ==>
      && r.value.0.lastGravityTime == now
      && (r.value.0.coords == Translate(t.coords, 0, skip) || (r.value.0.coords == t.coords && r.value.0.landed))
      && r.value.0.(coords := t.coords, landed := t.landed, lastGravityTime := t.lastGravityTime) == t
    ensures r.Ok? && t.landed ==> r.value.0.landed
    ensures r.Err? ==> r.fault == IndexError
  {
    if |t.coords| == 0 then Ok((t, g))
    else if now - t.lastGravityTime >= t.gravityDelay then
      match ChangeCoordinates(t, g, Translate(t.coords, 0, skip), skip)
      case Err(e) => Err(e)
      case Ok(moved) => Ok((moved.0.(lastGravityTime := now), moved.1))
    else Ok((t, g))
  }

  /** A free fall fits on the board: every cell moved down by `skip` stays in it. */
  lemma FreeFallInBounds(g: Grid, cs: seq<Cell>, skip: int)
    requires g.Valid() && InBounds(cs, g.rows, g.columns) && skip >= 0
    requires !FallBlocked(g, cs, skip)
    ensures InBounds(Translate(cs, 0, skip), g.rows, g.columns)
  {
    forall i | 0 <= i < |cs|
      ensures cs[i].1 + skip < g.rows
    {
    }
  }

  /** Once the delay has passed, gravity on a piece that is on the board
      never fails: the piece moves down by `skip` exactly when the fall probe
      on its current cells is free and lands otherwise, including on the
      floor, where the proposed cells lie below the last row. Its vacated
      cells are cleared, its resulting cells marked, and nothing else on the
      board changes. */
  lemma GravityExact(t: Tetromino, g: Grid, now: int, skip: int)
    requires g.Valid() && InBounds(t.coords, g.rows, g.columns) && skip >= 0
    requires |t.coords| > 0 && now - t.lastGravityTime >= t.gravityDelay
    ensures ApplyGravity(t, g, now, skip).Ok?
    ensures var r := ApplyGravity(t, g, now, skip).value;
      && r.0.landed == (t.landed || FallBlocked(g, t.coords, skip))
      && r.0.coords == (if FallBlocked(g, t.coords, skip) then t.coords else Translate(t.coords, 0, skip))
      && r.0.lastGravityTime == now
      && r.1.Valid()
    ensures var r := ApplyGravity(t, g, now, skip).value;
      forall y, x :: 0 <= y < g.rows && 0 <= x < g.columns ==>
        r.1.cells[y][x] == if (x, y) in r.0.coords then 1 else if (x, y) in t.coords then 0 else g.cells[y][x]
  {
    var proposed := Translate(t.coords, 0, skip);
    if !FallBlocked(g, t.coords, skip) {
      FreeFallInBounds(g, t.coords, skip);
    }
    ChangeInBounds(t, g, proposed, skip);
    ChangeCells(t, g, proposed, skip);
  }

  /** `update`: gravity one row at a time, then the width recomputed. */
  function Update(t: Tetromino, g: Grid, now: int): (r: Result<(Tetromino, Grid)>)
    ensures |t.coords| == 0 ==> r == Err(ValueError)
    ensures |t.coords| > 0 ==> (r.Ok? <==> ApplyGravity(t, g, now, 1).Ok?)
    ensures r.Err? ==> r.fault == IndexError || r.fault == ValueError
    ensures r.Ok? ==>
      var fell := ApplyGravity(t, g, now, 1).value;
      r.value.1 == fell.1 && r.value.0.(width := fell.0.width) == fell.0
    ensures r.Ok? ==> Ok(r.value.0.width) == Width(r.value.0.coords)
    ensures r.Ok? && t.landed ==> r.value.0.landed
  {
    match ApplyGravity(t, g, now, 1)
    case Err(e) => Err(e)
    case Ok(moved) =>
      match Width(moved.0.coords)
      case Err(e) => Err(e)
      case Ok(w) => Ok((moved.0.(width := w), moved.1))
  }

  /** A due `update` on a piece on the board falls one row or lands, by the
      one-row probe, and never fails. */
  lemma UpdateFalls(t: Tetromino, g: Grid, now: int)
    requires g.Valid() && InBounds(t.coords, g.rows, g.columns)
    requires |t.coords| > 0 && now - t.lastGravityTime >= t.gravityDelay
    ensures Update(t, g, now).Ok?
    ensures var r := Update(t, g, now).value;
      && r.0.landed == (t.landed || FallBlocked(g, t.coords, 1))
      && r.0.coords == (if FallBlocked(g, t.coords, 1) then t.coords else Translate(t.coords, 0, 1))
      && r.0.lastGravityTime == now
      && r.1.Valid()
  {
    GravityExact(t, g, now, 1);
  }

  // ---------------------------------------------------------------- rotation

  function MeanX(cs: seq<Cell>): real
    requires |cs| > 0
  {
    SumX(cs) as real / |cs| as real
  }

  function MeanY(cs: seq<Cell>): real
    requires |cs| > 0
  {
    SumY(cs) as real / |cs| as real
  }

  /** One cell of `rotate`: its offset from the mean pivot (px, py), turned
      for "cw" or "ccw" and kept for any other string, each coordinate
      rounded after adding the pivot back. */
  function TurnCell(c: Cell, px: real, py: real, dir: string): Cell
  {
    var x, y := c.0 as real - px, c.1 as real - py;
    var tx, ty :=
      if dir == "cw" then y else if dir == "ccw" then -y else x,
      if dir == "cw" then -x else if dir == "ccw" then x else y;
    (RoundHalfEven(tx + px), RoundHalfEven(ty + py))
  }

  /** The cells `rotate(direction)` proposes. */
  function RotatedCells(cs: seq<Cell>, dir: string): (r: seq<Cell>)
    ensures |r| == |cs|
  {
    if |cs| == 0 then []
    else
      var px, py := MeanX(cs), MeanY(cs);
      seq(|cs|, i requires 0 <= i < |cs| => TurnCell(cs[i], px, py, dir))
  }

  /** `rotate(direction)`: nothing for a piece with no cells, otherwise the
      rotated cells go through `change_coordinates` with a one-row probe. */
  function Rotate(t: Tetromino, g: Grid, dir: string): (r: Result<(Tetromino, Grid)>)
    ensures |t.coords| == 0 ==> r == Ok((t, g))
    ensures |t.coords| > 0 && r.Ok? ==>
      r.value.0.coords == RotatedCells(t.coords, dir) || (r.value.0.coords == t.coords && r.value.0.landed)
    ensures r.Ok? && t.landed ==> r.value.0.landed
    ensures r.Err? ==> r.fault == IndexError
  {
    if |t.coords| == 0 then Ok((t, g))
    else ChangeCoordinates(t, g, RotatedCells(t.coords, dir), 1)
  }

  /** Only the literal strings "cw" and "ccw" turn anything: any other
      direction proposes the cells the piece already has. */
  lemma OtherDirectionKeepsCells(cs: seq<Cell>, dir: string)
    requires dir != "cw" && dir != "ccw"
    ensures RotatedCells(cs, dir) == cs
  {
    if |cs| > 0 {
      var px, py := MeanX(cs), MeanY(cs);
      forall i | 0 <= i < |cs|
        ensures TurnCell(cs[i], px, py, dir) == cs[i]
      {
        RoundIntegral(cs[i].0 as real);
        RoundIntegral(cs[i].1 as real);
      }
    }
  }

  /** The mean pivot sits on a cell centre or a cell corner in the sense that
      both px - py and px + py are whole numbers. */
  predicate EvenPivot(cs: seq<Cell>)
  {
    |cs| > 0 && IsIntegral(MeanX(cs) - MeanY(cs)) && IsIntegral(MeanX(cs) + MeanY(cs))
  }

  /** With such a pivot "cw" is an exact quarter turn: (x, y) goes to
      (y + d, s - x) with d = px - py and s = px + py. */
  lemma CwExact(cs: seq<Cell>)
    requires EvenPivot(cs)
    ensures var d, s := (MeanX(cs) - MeanY(cs)).Floor, (MeanX(cs) + MeanY(cs)).Floor;
      forall i :: 0 <= i < |cs| ==> RotatedCells(cs, "cw")[i] == (cs[i].1 + d, s - cs[i].0)
  {
    var px, py := MeanX(cs), MeanY(cs);
    var d, s := (px - py).Floor, (px + py).Floor;
    forall i | 0 <= i < |cs|
      ensures TurnCell(cs[i], px, py, "cw") == (cs[i].1 + d, s - cs[i].0)
    {
      var x, y := cs[i].0, cs[i].1;
      assert (y as real - py) + px == (y + d) as real;
      assert -(x as real - px) + py == (s - x) as real;
      RoundIntegral((y + d) as real);
      RoundIntegral((s - x) as real);
    }
  }

  /** With such a pivot "ccw" is the exact inverse turn: (x, y) goes to
      (s - y, x - d). */
  lemma CcwExact(cs: seq<Cell>)
    requires EvenPivot(cs)
    ensures var d, s := (MeanX(cs) - MeanY(cs)).Floor, (MeanX(cs) + MeanY(cs)).Floor;
      forall i :: 0 <= i < |cs| ==> RotatedCells(cs, "ccw")[i] == (s - cs[i].1, cs[i].0 - d)
  {
    var px, py := MeanX(cs), MeanY(cs);
    var d, s := (px - py).Floor, (px + py).Floor;
    forall i | 0 <= i < |cs|
      ensures TurnCell(cs[i], px, py, "ccw") == (s - cs[i].1, cs[i].0 - d)
    {
      var x, y := cs[i].0, cs[i].1;
      assert -(y as real - py) + px == (s - y) as real;
      assert (x as real - px) + py == (x - d) as real;
      RoundIntegral((s - y) as real);
      RoundIntegral((x - d) as real);
    }
  }

  /** Sums of the cells of an exact quarter turn. */
  lemma {:induction false} SumsOfTurn(cs: seq<Cell>, r: seq<Cell>, d: int, s: int)
    requires |r| == |cs|
    requires forall i :: 0 <= i < |cs| ==> r[i] == (cs[i].1 + d, s - cs[i].0)
    ensures SumX(r) == SumY(cs) + |cs| * d
    ensures SumY(r) == |cs| * s - SumX(cs)
  {
    if |cs| > 0 {
      SumsOfTurn(cs[1..], r[1..], d, s);
    }
  }

  /** Adding n copies of d to a sum of n terms moves their mean by d. */
  lemma MeanShift(sumR: int, sumC: int, n: int, d: int)
    requires n > 0 && sumR == sumC + n * d
    ensures sumR as real / n as real == sumC as real / n as real + d as real
  {
    var k := n as real;
    assert sumR as real == sumC as real + k * d as real;
    assert (sumC as real + k * d as real) / k == sumC as real / k + d as real;
  }

  /** Taking n terms from n copies of s reflects their mean about s. */
  lemma MeanFlip(sumR: int, sumC: int, n: int, s: int)
    requires n > 0 && sumR == n * s - sumC
    ensures sumR as real / n as real == s as real - sumC as real / n as real
  {
    var k := n as real;
    assert sumR as real == k * s as real - sumC as real;
    assert (k * s as real - sumC as real) / k == s as real - sumC as real / k;
  }

  /** The means of an exact quarter turn's cells. */
  lemma MeansOfTurn(cs: seq<Cell>, r: seq<Cell>, d: int, s: int)
    requires |r| == |cs| > 0
    requires forall i :: 0 <= i < |cs| ==> r[i] == (cs[i].1 + d, s - cs[i].0)
    ensures MeanX(r) == MeanY(cs) + d as real
    ensures MeanY(r) == s as real - MeanX(cs)
  {
    SumsOfTurn(cs, r, d, s);
    MeanShift(SumX(r), SumY(cs), |cs|, d);
    MeanFlip(SumY(r), SumX(cs), |cs|, s);
  }

  /** An exact quarter turn keeps the mean pivot where it was. */
  lemma CwKeepsMean(cs: seq<Cell>)
    requires EvenPivot(cs)
    ensures MeanX(RotatedCells(cs, "cw")) == MeanX(cs)
    ensures MeanY(RotatedCells(cs, "cw")) == MeanY(cs)
  {
    var d, s := (MeanX(cs) - MeanY(cs)).Floor, (MeanX(cs) + MeanY(cs)).Floor;
    CwExact(cs);
    MeansOfTurn(cs, RotatedCells(cs, "cw"), d, s);
  }

  /** Turning "cw" then "ccw" gives the cells back when the pivot is even;
      the I piece lying flat has px + py = 1.5 and is not covered. */
  lemma CwThenCcw(cs: seq<Cell>)
    requires EvenPivot(cs)
    ensures RotatedCells(RotatedCells(cs, "cw"), "ccw") == cs
  {
    var d, s := (MeanX(cs) - MeanY(cs)).Floor, (MeanX(cs) + MeanY(cs)).Floor;
    var r := RotatedCells(cs, "cw");
    CwExact(cs);
    CwKeepsMean(cs);
    assert EvenPivot(r);
    CcwExact(r);
    TurnBack(cs, r, RotatedCells(r, "ccw"), d, s);
  }

  /** The inverse turn undoes the turn, cell by cell. */
  lemma TurnBack(cs: seq<Cell>, r: seq<Cell>, back: seq<Cell>, d: int, s: int)
    requires |r| == |cs| == |back|
    requires forall i :: 0 <= i < |cs| ==> r[i] == (cs[i].1 + d, s - cs[i].0)
    requires forall i :: 0 <= i < |r| ==> back[i] == (s - r[i].1, r[i].0 - d)
    ensures back == cs
  {
    assert forall i :: 0 <= i < |cs| ==> back[i] == cs[i];
  }

  /** No two cells coincide. */
  predicate Distinct(cs: seq<Cell>)
  {
    forall i, j :: 0 <= i < j < |cs| ==> cs[i] != cs[j]
  }

  /** The flat I piece turned "cw" about its mean (1.5, 0): every cell is
      rounded separately, and two of the four cells land on (2, 0). */
  lemma FlatICollapses()
    ensures RotatedCells([(0, 0), (1, 0), (2, 0), (3, 0)], "cw") == [(2, 2), (2, 0), (2, 0), (2, -2)]
    ensures Distinct([(0, 0), (1, 0), (2, 0), (3, 0)])
    ensures !Distinct(RotatedCells([(0, 0), (1, 0), (2, 0), (3, 0)], "cw"))
  {
    var cs: seq<Cell> := [(0, 0), (1, 0), (2, 0), (3, 0)];
    assert SumX(cs) == 6 && SumY(cs) == 0;
    var px, py := MeanX(cs), MeanY(cs);
    assert px == 1.5 && py == 0.0;
    RoundHalfEvenUnique(1.5, 2);
    RoundHalfEvenUnique(0.5, 0);
    RoundHalfEvenUnique(-0.5, 0);
    RoundHalfEvenUnique(-1.5, -2);
    var r := RotatedCells(cs, "cw");
    assert r[0] == TurnCell((0, 0), px, py, "cw") == (2, 2);
    assert r[1] == TurnCell((1, 0), px, py, "cw") == (2, 0);
    assert r[2] == TurnCell((2, 0), px, py, "cw") == (2, 0);
    assert r[3] == TurnCell((3, 0), px, py, "cw") == (2, -2);
  }
}
