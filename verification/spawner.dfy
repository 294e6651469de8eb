/** The spawner (BitLogicTetrominoGridSpawner): placing a new piece on the
    board with the predictor's suggestion attached, and the per-tick update
    that records a landed piece and spawns the next one from the queue.
    `random.randint` is replaced by the value it returned, the clock by
    `now`; the engine's object list is outside the model. */
module Spawning {
  import opened PyRuntime
  import opened Cells
  import opened Board
  import opened Shapes
  import NGrams
  import opened Tetrominoes
  import PieceQueue

  /** The spawner's state: the tick speed new pieces get, the predictor, the
      piece it spawned last, and whether a controller has attached itself
      (a controller does so on its first `control` call). */
  datatype Spawner = Spawner(
    tickSpeed: int,
    predictor: NGrams.Model,
    spawned: Option<Tetromino>,
    controllerLinked: bool)

  /** `BitLogicTetrominoGridSpawner(engine, grid, queue, tick_speed)`; the
      predictor is whatever `PatternNGrams()` loaded. */
  function NewSpawner(tickSpeed: int, predictor: NGrams.Model): (sp: Spawner)
    ensures sp.spawned.None? && !sp.controllerLinked
    ensures sp.tickSpeed == tickSpeed && sp.predictor == predictor
  {
    Spawner(tickSpeed, predictor, None, false)
  }

  /** The keyword arguments the update passes to `write_pattern`. */
  datatype PlacementRecord = PlacementRecord(
    piece: string,
    landedCoords: seq<Cell>,
    rotation: int,
    linesCleared: int,
    nextQueue: seq<string>,
    reason: string)

  /** The start column after the over-the-edge correction: a piece whose
      right edge would reach the last column or beyond is pulled left until
      its right edge is one column short of the board's width. */
  function StartX(sx: int, maxX: int, columns: int): (r: int)
    ensures r + maxX < columns
    ensures r <= sx
    ensures sx + maxX < columns ==> r == sx
    ensures sx + maxX >= columns ==> r + maxX == columns - 1
  {
    if sx + maxX >= columns then columns - maxX - 1 else sx
  }

  /** A start column drawn from [0, columns] always leaves a piece narrower
      than the board wholly inside it. */
  lemma StartXInside(sx: int, maxX: int, columns: int)
    requires 0 <= sx <= columns && 0 <= maxX < columns
    ensures 0 <= StartX(sx, maxX, columns) && StartX(sx, maxX, columns) + maxX < columns
  {
  }

  /** The suggestion and predictor state `spawn` keeps: a failing `predict`
      is caught and leaves both as they were. */
  function Consult(m: NGrams.Model, g: Grid, name: string): (r: (Option<NGrams.Suggestion>, NGrams.Model))
    requires g.Valid()
    ensures NGrams.Predict(m, g.cells, name, g.columns, g.rows, None).Err? ==> r == (None, m)
    ensures NGrams.Predict(m, g.cells, name, g.columns, g.rows, None).Ok? ==>
      r == NGrams.Predict(m, g.cells, name, g.columns, g.rows, None).value
    ensures KindOf(name).None? ==> r == (None, m)
  {
    match NGrams.Predict(m, g.cells, name, g.columns, g.rows, None)
    case Err(_) => (None, m)
    case Ok(found) => found
  }

  /** The cells a spawned piece of kind k occupies: the template's cells, in
      the template's order, moved right by the corrected start column and
      down by the start row (x and y when given, else the random column and
      row 0). */
  function SpawnCells(k: PieceKind, g: Grid, x: Option<int>, y: Option<int>, randomX: int): (cs: seq<Cell>)
    ensures |cs| == |Template(k)| == 4
    ensures var dx := StartX(if x.Some? then x.value else randomX, MaxX(Template(k)), g.columns);
      var dy := if y.Some? then y.value else 0;
      forall i :: 0 <= i < |Template(k)| ==> cs[i] == (Template(k)[i].0 + dx, Template(k)[i].1 + dy)
    ensures MaxX(cs) <= g.columns - 1
  {
    var sx := if x.Some? then x.value else randomX;
    var sy := if y.Some? then y.value else 0;
    var t := Template(k);
    TemplatesNormalized(k);
    BoundsTranslate(t, StartX(sx, MaxX(t), g.columns), sy);
    Translate(t, StartX(sx, MaxX(t), g.columns), sy)
  }

  /** `spawn(piece_shape, x, y)`: the name is upper-cased; an unknown name
      gives the new piece no cells, which raises TypeError; the predictor is
      asked on the board as it is; the piece is translated to its start
      position and its cells are marked on the board. The piece keeps the
      template's bounding box, since nothing recomputes it after the move. */
  function Spawn(sp: Spawner, g: Grid, piece: string, x: Option<int>, y: Option<int>, randomX: int, now: int)
    : (r: Result<(Spawner, Grid)>)
    requires g.Valid()
    ensures KindOf(AsciiUpper(piece)).None? <==> r == Err(TypeError)
    ensures r.Err? ==> r.fault == TypeError || r.fault == IndexError
    ensures r == Err(IndexError) <==>
      && KindOf(AsciiUpper(piece)).Some?
      && Stamp(g.cells, SpawnCells(KindOf(AsciiUpper(piece)).value, g, x, y, randomX), 1).Err?
    ensures r.Ok? ==>
      var name := AsciiUpper(piece);
      var k := KindOf(name).value;
      var (sp1, g1) := r.value;
      && sp1.tickSpeed == sp.tickSpeed && sp1.controllerLinked == sp.controllerLinked
      && sp1.spawned.Some?
      && var t := sp1.spawned.value;
      && t.piece == name && !t.landed
      && t.coords == SpawnCells(k, g, x, y, randomX)
      && t.maxX == MaxX(Template(k)) && t.minX == 0 && t.minY == 0
      && t.gravityDelay == sp.tickSpeed && t.lastGravityTime == now
      && g1.rows == g.rows && g1.columns == g.columns
      && Stamp(g.cells, t.coords, 1) == Ok(g1.cells)
  {
    var name := AsciiUpper(piece);
    match ShapeOf(name)
    case None => Err(TypeError)
    case Some(shape) =>
      var k := KindOf(name).value;
      TemplatesNormalized(k);
      Extremes(shape);
      var created := NewTetromino(name, shape, sp.tickSpeed, now).value;
      var (suggestion, predictor) := Consult(sp.predictor, g, name);
      var cs := SpawnCells(k, g, x, y, randomX);
      match Stamp(g.cells, cs, 1)
      case Err(e) => Err(e)
      case Ok(marked) =>
        var t := created.(coords := cs, suggestion := suggestion);
        Ok((sp.(predictor := predictor, spawned := Some(t)), g.(cells := marked)))
  }

  /** A known piece fails to spawn exactly when one of its start cells
      cannot be indexed on the board; it then raises IndexError. */
  lemma SpawnIndexError(sp: Spawner, g: Grid, piece: string, x: Option<int>, y: Option<int>, randomX: int, now: int)
    requires g.Valid()
    requires KindOf(AsciiUpper(piece)).Some?
    ensures var cs := SpawnCells(KindOf(AsciiUpper(piece)).value, g, x, y, randomX);
      Spawn(sp, g, piece, x, y, randomX, now) == Err(IndexError) <==> !Indexable(cs, g.rows, g.columns)
    ensures var cs := SpawnCells(KindOf(AsciiUpper(piece)).value, g, x, y, randomX);
      Spawn(sp, g, piece, x, y, randomX, now).Ok? <==> Indexable(cs, g.rows, g.columns)
  {
    var cs := SpawnCells(KindOf(AsciiUpper(piece)).value, g, x, y, randomX);
    StampSucceeds(g.cells, cs, 1, g.rows, g.columns);
  }

  /** The spawned piece carries the predictor's suggestion, and the spawner
      keeps the predictor's new state; a failing prediction changes neither. */
  lemma SpawnConsults(sp: Spawner, g: Grid, piece: string, x: Option<int>, y: Option<int>, randomX: int, now: int)
    requires g.Valid()
    ensures var r := Spawn(sp, g, piece, x, y, randomX, now);
      r.Ok? ==> (r.value.0.spawned.value.suggestion, r.value.0.predictor) == Consult(sp.predictor, g, AsciiUpper(piece))
  {
  }

  /** A known piece whose start position lies on the board is always placed:
      its cells become 1 whatever they held before, and every other cell is
      kept. */
  lemma SpawnInBounds(sp: Spawner, g: Grid, piece: string, x: Option<int>, y: Option<int>, randomX: int, now: int)
    requires g.Valid()
    requires KindOf(AsciiUpper(piece)).Some?
    requires InBounds(SpawnCells(KindOf(AsciiUpper(piece)).value, g, x, y, randomX), g.rows, g.columns)
    ensures Spawn(sp, g, piece, x, y, randomX, now).Ok?
    ensures var r := Spawn(sp, g, piece, x, y, randomX, now).value;
      && r.1.Valid()
      && forall yy, xx :: 0 <= yy < g.rows && 0 <= xx < g.columns ==>
           r.1.cells[yy][xx] == if (xx, yy) in r.0.spawned.value.coords then 1 else g.cells[yy][xx]
  {
    var r := Spawn(sp, g, piece, x, y, randomX, now);
    assert r.Ok? by {
      StampInBounds(g.cells, SpawnCells(KindOf(AsciiUpper(piece)).value, g, x, y, randomX), 1, g.rows, g.columns);
    }
    MarkedBoard(g, r.value.1, r.value.0.spawned.value.coords);
  }

  /** A board obtained by marking in-range cells with 1. */
  lemma MarkedBoard(g: Grid, g1: Grid, cs: seq<Cell>)
    requires g.Valid() && InBounds(cs, g.rows, g.columns)
    requires g1.rows == g.rows && g1.columns == g.columns && Stamp(g.cells, cs, 1) == Ok(g1.cells)
    ensures g1.Valid()
    ensures forall yy, xx :: 0 <= yy < g.rows && 0 <= xx < g.columns ==>
      g1.cells[yy][xx] == if (xx, yy) in cs then 1 else g.cells[yy][xx]
  {
    StampInBounds(g.cells, cs, 1, g.rows, g.columns);
  }

  /** With the start column drawn from [0, columns], row 0, and a board at
      least four cells wide and tall, every piece fits. */
  lemma RandomSpawnFits(k: PieceKind, g: Grid, randomX: int)
    requires 0 <= randomX <= g.columns && 4 <= g.columns && 4 <= g.rows
    ensures InBounds(SpawnCells(k, g, None, None, randomX), g.rows, g.columns)
  {
    var t := Template(k);
    TemplatesNormalized(k);
    Extremes(t);
    StartXInside(randomX, MaxX(t), g.columns);
  }

  /** The table's keys are already upper-case. */
  lemma UpperName(k: PieceKind)
    ensures AsciiUpper(Name(k)) == Name(k)
  {
  }

  /** Whether `update` has to spawn: no piece yet, or the last one landed. */
  predicate NeedsPiece(sp: Spawner)
  {
    sp.spawned.None? || sp.spawned.value.landed
  }

  /** Pop the queue's front and spawn it at a random column on row 0. */
  function SpawnNext(sp: Spawner, g: Grid, q: PieceQueue.Queue, randomX: int, now: int)
    : (r: Result<(Spawner, Grid, PieceQueue.Queue)>)
    requires g.Valid()
    ensures |q.items| == 0 ==> r == Err(IndexError)
    ensures |q.items| > 0 ==> (r.Ok? <==> Spawn(sp, g, q.items[0], None, None, randomX, now).Ok?)
    ensures r.Ok? ==> (r.value.0, r.value.1) == Spawn(sp, g, q.items[0], None, None, randomX, now).value
    ensures r.Ok? ==> |q.items| > 0 && r.value.0.tickSpeed == sp.tickSpeed && r.value.2.items == q.items[1..]
    ensures r.Ok? && PieceQueue.AllNames(q.items) ==>
      r.value.0.spawned.Some? && r.value.0.spawned.value.piece == q.items[0]
    ensures r.Err? ==> r.fault == IndexError || r.fault == TypeError
  {
    match PieceQueue.GetPiece(q)
    case Err(e) => Err(e)
    case Ok((name, rest)) =>
      assert PieceQueue.AllNames(q.items) ==> KindOf(name).Some? by {
        assert name == q.items[0];
      }
      assert KindOf(name).Some? ==> AsciiUpper(name) == name by {
        if KindOf(name).Some? {
          UpperName(KindOf(name).value);
        }
      }
      match Spawn(sp, g, name, None, None, randomX, now)
      case Err(e) => Err(e)
      case Ok((sp1, g1)) => Ok((sp1, g1, rest))
  }

  /** `update`, as written: a landed piece makes it read the controller's
      `rotation_index` (AttributeError while no controller is attached) and
      call the predictor's `write_pattern`, which PatternNGrams does not
      define (AttributeError again); otherwise it spawns the queue's front
      when it has no piece. */
  function Update(sp: Spawner, g: Grid, q: PieceQueue.Queue, randomX: int, now: int)
    : (r: Result<(Spawner, Grid, PieceQueue.Queue)>)
    requires g.Valid()
    ensures !NeedsPiece(sp) ==> r == Ok((sp, g, q))
    ensures sp.spawned.Some? && sp.spawned.value.landed ==> r == Err(AttributeError)
    ensures sp.spawned.None? ==> r == SpawnNext(sp, g, q, randomX, now)
  {
    if !NeedsPiece(sp) then Ok((sp, g, q))
    else if sp.spawned.Some? then Err(AttributeError)
    else SpawnNext(sp, g, q, randomX, now)
  }

  /** `update` with the placement handed to a recorder that exists: the
      record holds the landed piece, the controller's rotation index, the
      number of full rows on the board, the queue's first entry and the
      reason "auto"; then the queue's front is spawned. */
  function UpdateRecorded(sp: Spawner, g: Grid, q: PieceQueue.Queue, rotation: int, randomX: int, now: int)
    : (r: Result<(Option<PlacementRecord>, Spawner, Grid, PieceQueue.Queue)>)
    requires g.Valid()
    ensures !NeedsPiece(sp) ==> r == Ok((None, sp, g, q))
    ensures sp.spawned.Some? && sp.spawned.value.landed && !sp.controllerLinked ==> r == Err(AttributeError)
    ensures r.Ok? && r.value.0.Some? ==> sp.spawned.Some? && sp.spawned.value.landed && |q.items| > 0
    ensures r.Ok? && r.value.0.Some? && sp.spawned.Some? && |q.items| > 0 ==>
      var t := sp.spawned.value;
      var rec := r.value.0.value;
      && rec.piece == t.piece && rec.landedCoords == t.coords && rec.rotation == rotation
      && rec.linesCleared == |FullRowSet(g.cells, g.columns, g.rows)|
      && rec.nextQueue == [q.items[0]] && rec.reason == "auto"
    ensures r.Ok? && NeedsPiece(sp) ==> |q.items| > 0 && r.value.3.items == q.items[1..]
  {
    if !NeedsPiece(sp) then Ok((None, sp, g, q))
    else if sp.spawned.Some? && !sp.controllerLinked then Err(AttributeError)
    else
      var record :=
        if sp.spawned.Some? then
          var t := sp.spawned.value;
          var lines := FullRowCount(g.cells, g.columns, g.rows);
          Some(PlacementRecord(t.piece, t.coords, rotation, lines, PieceQueue.PeekNext(q, 1), "auto"))
        else None;
      match SpawnNext(sp, g, q, randomX, now)
      case Err(e) => Err(e)
      case Ok((sp1, g1, rest)) => Ok((record, sp1, g1, rest))
  }

  /** The two updates agree on every tick that has no landed piece to
      record; with one, the version as written always fails. */
  lemma UpdatesAgreeUntilLanding(sp: Spawner, g: Grid, q: PieceQueue.Queue, rotation: int, randomX: int, now: int)
    requires g.Valid()
    ensures !(sp.spawned.Some? && sp.spawned.value.landed) ==>
      match UpdateRecorded(sp, g, q, rotation, randomX, now)
      case Ok((_, sp1, g1, q1)) => Update(sp, g, q, randomX, now) == Ok((sp1, g1, q1))
      case Err(e) => Update(sp, g, q, randomX, now) == Err(e)
    ensures sp.spawned.Some? && sp.spawned.value.landed ==> Update(sp, g, q, randomX, now).Err?
  {
  }

  /** A landed piece on a linked spawner with pieces queued is recorded and
      replaced by the queue's front, which the version as written cannot do. */
  lemma LandingIsRecorded(sp: Spawner, g: Grid, q: PieceQueue.Queue, rotation: int, randomX: int, now: int)
    requires g.Valid() && 4 <= g.columns && 4 <= g.rows && 0 <= randomX <= g.columns
    requires sp.spawned.Some? && sp.spawned.value.landed && sp.controllerLinked
    requires |q.items| > 0 && PieceQueue.AllNames(q.items)
    ensures UpdateRecorded(sp, g, q, rotation, randomX, now).Ok?
    ensures UpdateRecorded(sp, g, q, rotation, randomX, now).value.0.Some?
    ensures UpdateRecorded(sp, g, q, rotation, randomX, now).value.1.spawned.value.piece == q.items[0]
    ensures Update(sp, g, q, randomX, now) == Err(AttributeError)
  {
    var name := q.items[0];
    assert KindOf(name).Some?;
    var k := KindOf(name).value;
    UpperName(k);
    RandomSpawnFits(k, g, randomX);
    SpawnInBounds(sp, g, name, None, None, randomX, now);
  }

  /** On a board at least 4 x 4, the first `update` with no piece yet pops
      the queue's front and spawns it at the random column, whatever the
      board holds: the spawned cells are on the board and become 1. */
  lemma FirstSpawn(sp: Spawner, g: Grid, q: PieceQueue.Queue, randomX: int, now: int)
    requires g.Valid() && 4 <= g.columns && 4 <= g.rows && 0 <= randomX <= g.columns
    requires sp.spawned.None?
    requires |q.items| > 0 && PieceQueue.AllNames(q.items)
    ensures Update(sp, g, q, randomX, now).Ok?
    ensures var r := Update(sp, g, q, randomX, now).value;
      && r.0.spawned.Some? && r.0.spawned.value.piece == q.items[0]
      && r.2.items == q.items[1..]
      && InBounds(r.0.spawned.value.coords, g.rows, g.columns)
      && forall i :: 0 <= i < |r.0.spawned.value.coords| ==>
           r.1.cells[r.0.spawned.value.coords[i].1][r.0.spawned.value.coords[i].0] == 1
  {
    var name := q.items[0];
    assert KindOf(name).Some?;
    var k := KindOf(name).value;
    UpperName(k);
    RandomSpawnFits(k, g, randomX);
    SpawnInBounds(sp, g, name, None, None, randomX, now);
    var r := Update(sp, g, q, randomX, now).value;
    var cs := r.0.spawned.value.coords;
    forall i | 0 <= i < |cs|
      ensures r.1.cells[cs[i].1][cs[i].0] == 1
    {
      assert (cs[i].0, cs[i].1) in cs;
    }
  }
}
