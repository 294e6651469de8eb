/** The player controller (BitLogicController): it attaches itself to the
    spawner, takes the spawner's current piece and applies the frame's key
    events to it. Pygame's event queue becomes a sequence of `Event`s. */
module Control {
  import opened PyRuntime
  import opened Cells
  import opened Board
  import opened Tetrominoes
  import opened Spawning

  /** The keys the controller distinguishes; every other key is `OtherKey`. */
  datatype Key = Left | Right | Down | Space | KeyX | KeyZ | OtherKey

  /** A key press, or any other pygame event. */
  datatype Event = KeyDown(key: Key) | OtherEvent

  datatype Controller = Controller(name: string, rotationIndex: int)

  /** `BitLogicController(spawner, controller_name)`. */
  function NewController(name: string): (c: Controller)
    ensures c.name == name && c.rotationIndex == 0
  {
    Controller(name, 0)
  }

  /** The direction strings the rotate keys hand to the piece's `rotate`. */
  datatype Directions = Directions(clockwise: string, counterClockwise: string)

  /** The strings the controller passes. */
  const AsWritten := Directions("clock_wise", "counter_clock_wise")

  /** The strings `rotate` recognises. */
  const Recognised := Directions("cw", "ccw")

  predicate IsArrow(e: Event)
  {
    e.KeyDown? && (e.key == Left || e.key == Right || e.key == Down)
  }

  /** How far one event moves the rotation index: X up, Z down. */
  function Step(e: Event): int
  {
    if e == KeyDown(KeyX) then 1 else if e == KeyDown(KeyZ) then -1 else 0
  }

  /** X presses minus Z presses. */
  function Net(events: seq<Event>): int
  {
    if |events| == 0 then 0 else Step(events[0]) + Net(events[1..])
  }

  /** The piece's side of one event of `apply_controls`. An arrow key calls
      `move`, whose call to `change_coordinates` passes keyword arguments
      that method does not take, so it raises TypeError. Space does nothing
      because pieces have no `hard_drop`. X and Z hand the piece to
      `rotate` with the controller's direction strings. */
  function PieceEvent(t: Tetromino, g: Grid, e: Event, dirs: Directions): (r: Result<(Tetromino, Grid)>)
    ensures IsArrow(e) <==> r == Err(TypeError)
    ensures r.Err? ==> r.fault == TypeError || r.fault == IndexError
    ensures e == KeyDown(KeyX) ==> r == Rotate(t, g, dirs.clockwise)
    ensures e == KeyDown(KeyZ) ==> r == Rotate(t, g, dirs.counterClockwise)
    ensures Step(e) == 0 && !IsArrow(e) ==> r == Ok((t, g))
  {
    if IsArrow(e) then Err(TypeError)
    else if e == KeyDown(KeyX) then Rotate(t, g, dirs.clockwise)
    else if e == KeyDown(KeyZ) then Rotate(t, g, dirs.counterClockwise)
    else Ok((t, g))
  }

  /** The piece's side of `apply_controls(events)`: the events in order, the
      first exception ending the frame. */
  function PieceControls(t: Tetromino, g: Grid, events: seq<Event>, dirs: Directions): (r: Result<(Tetromino, Grid)>)
    ensures r.Ok? ==> forall i :: 0 <= i < |events| ==> !IsArrow(events[i])
    ensures r.Err? ==> r.fault == TypeError || r.fault == IndexError
    decreases |events|
  {
    if |events| == 0 then Ok((t, g))
    else
      match PieceEvent(t, g, events[0], dirs)
      case Err(f) => Err(f)
      case Ok((t1, g1)) =>
        var rest := PieceControls(t1, g1, events[1..], dirs);
        assert rest.Ok? ==> forall i :: 1 <= i < |events| ==> events[i] == events[1..][i - 1];
        rest
  }

  /** The rotation index after the events: `(rotation_index + 1) % 4` for X
      and `(rotation_index - 1) % 4` for Z, each taken once the rotation has
      gone through. Python's `%` by 4 is never negative, like Dafny's. */
  function IndexAfter(index: int, events: seq<Event>): (r: int)
    ensures |events| > 0 ==> 0 <= r < 4
    decreases |events|
  {
    if |events| == 0 then index
    else IndexAfter((index + Step(events[0])) % 4, events[1..])
  }

  /** `apply_controls(events)`. An exception ends the frame and the model
      keeps nothing of it, so a frame that goes through has had every X and
      Z rotation go through, and the index has stepped for each of them. */
  function ApplyControls(c: Controller, t: Tetromino, g: Grid, events: seq<Event>, dirs: Directions)
    : (r: Result<(Controller, Tetromino, Grid)>)
    ensures r.Ok? <==> PieceControls(t, g, events, dirs).Ok?
    ensures r.Err? ==> r.fault == PieceControls(t, g, events, dirs).fault
    ensures r.Ok? ==> r.value.0.name == c.name && Ok((r.value.1, r.value.2)) == PieceControls(t, g, events, dirs)
    ensures r.Ok? ==> r.value.0.rotationIndex == IndexAfter(c.rotationIndex, events)
  {
    match PieceControls(t, g, events, dirs)
    case Err(f) => Err(f)
    case Ok((t1, g1)) => Ok((c.(rotationIndex := IndexAfter(c.rotationIndex, events)), t1, g1))
  }

  /** `control(events)`: the controller attaches itself to the spawner and
      takes its current piece; with no piece the validation raises
      CantControlObject, whatever the events. */
  function ControlWith(c: Controller, sp: Spawner, g: Grid, events: seq<Event>, dirs: Directions)
    : (r: Result<(Controller, Spawner, Grid)>)
    ensures sp.spawned.None? ==> r == Err(CantControlObject)
    ensures sp.spawned.Some? ==> (r.Ok? <==> ApplyControls(c, sp.spawned.value, g, events, dirs).Ok?)
    ensures r.Ok? ==>
      && sp.spawned.Some? && r.value.1.spawned.Some? && r.value.1.controllerLinked
      && r.value.1.(spawned := sp.spawned, controllerLinked := sp.controllerLinked) == sp
      && ApplyControls(c, sp.spawned.value, g, events, dirs) == Ok((r.value.0, r.value.1.spawned.value, r.value.2))
    ensures r.Err? ==> r.fault == CantControlObject || r.fault == TypeError || r.fault == IndexError
  {
    match sp.spawned
    case None => Err(CantControlObject)
    case Some(t) =>
      match ApplyControls(c, t, g, events, dirs)
      case Err(f) => Err(f)
      case Ok((c1, t1, g1)) => Ok((c1, sp.(spawned := Some(t1), controllerLinked := true), g1))
  }

  /** `control` as written, passing "clock_wise" and "counter_clock_wise". */
  function Control(c: Controller, sp: Spawner, g: Grid, events: seq<Event>): (r: Result<(Controller, Spawner, Grid)>)
    ensures sp.spawned.None? ==> r == Err(CantControlObject)
    ensures r.Ok? ==> r.value.1.spawned.Some? && r.value.1.spawned.value.coords == sp.spawned.value.coords
  {
    var r := ControlWith(c, sp, g, events, AsWritten);
    if r.Ok? then
      AsWrittenKeepsCells(sp.spawned.value, g, events);
      r
    else r
  }

  /** `control` with the rotate keys passing "cw" and "ccw". */
  function ControlCorrected(c: Controller, sp: Spawner, g: Grid, events: seq<Event>): (r: Result<(Controller, Spawner, Grid)>)
    ensures sp.spawned.None? ==> r == Err(CantControlObject)
    ensures sp.spawned.Some? ==> (r.Ok? <==> ApplyControls(c, sp.spawned.value, g, events, Recognised).Ok?)
    ensures r.Ok? ==> sp.spawned.Some? && r.value.1.spawned.Some? && r.value.1.controllerLinked
    ensures r.Ok? && sp.spawned.Some? && r.value.1.spawned.Some? ==>
      ApplyControls(c, sp.spawned.value, g, events, Recognised) == Ok((r.value.0, r.value.1.spawned.value, r.value.2))
  {
    ControlWith(c, sp, g, events, Recognised)
  }

  // ---------------------------------------------------------------- lemmas

  /** With the strings as written, rotation never proposes new cells, so no
      sequence of events ever changes the piece's cells: it can only land. */
  lemma {:induction false} AsWrittenKeepsCells(t: Tetromino, g: Grid, events: seq<Event>)
    ensures var r := PieceControls(t, g, events, AsWritten);
      r.Ok? ==> r.value.0.coords == t.coords
    decreases |events|
  {
    if |events| > 0 {
      OtherDirectionKeepsCells(t.coords, AsWritten.clockwise);
      OtherDirectionKeepsCells(t.coords, AsWritten.counterClockwise);
      match PieceEvent(t, g, events[0], AsWritten)
      case Err(_) =>
      case Ok((t1, g1)) =>
        assert t1.coords == t.coords;
        AsWrittenKeepsCells(t1, g1, events[1..]);
    }
  }

  lemma ModShift(x: int, q: int)
    ensures (x + 4 * q) % 4 == x % 4
  {
  }

  /** Two steps modulo 4 make one. */
  lemma ModStep(a: int, step: int, later: int)
    ensures ((a + step) % 4 + later) % 4 == (a + step + later) % 4
  {
    var q := (a + step) / 4;
    assert (a + step) % 4 + later + 4 * q == a + step + later;
    ModShift((a + step) % 4 + later, q);
  }

  /** The rotation index moves up for every X and down for every Z, modulo 4. */
  lemma {:induction false} ControlsIndex(index: int, events: seq<Event>)
    requires 0 <= index < 4
    ensures IndexAfter(index, events) == (index + Net(events)) % 4
    decreases |events|
  {
    if |events| > 0 {
      var next := (index + Step(events[0])) % 4;
      ControlsIndex(next, events[1..]);
      ModStep(index, Step(events[0]), Net(events[1..]));
    }
  }

  /** A frame whose X and Z presses balance modulo 4, such as X then Z,
      leaves the rotation index where it was. */
  lemma BalancedKeepsIndex(index: int, events: seq<Event>)
    requires 0 <= index < 4 && Net(events) % 4 == 0
    ensures IndexAfter(index, events) == index
  {
    ControlsIndex(index, events);
    var q := Net(events) / 4;
    assert Net(events) == 4 * q;
    ModShift(index, q);
  }

  lemma XThenZBalances()
    ensures Net([KeyDown(KeyX), KeyDown(KeyZ)]) == 0
  {
    var events := [KeyDown(KeyX), KeyDown(KeyZ)];
    assert events[1..] == [KeyDown(KeyZ)];
    assert events[1..][1..] == [];
  }

  /** With "cw" the X key proposes the quarter turn of CwExact and, when
      the turned cells are on the board and the one-row fall is free, the
      piece takes them. */
  lemma XTurnsWhenRecognised(t: Tetromino, g: Grid)
    requires g.Valid() && InBounds(t.coords, g.rows, g.columns) && |t.coords| > 0
    requires InBounds(RotatedCells(t.coords, "cw"), g.rows, g.columns)
    requires !FallBlocked(g, t.coords, 1)
    ensures PieceEvent(t, g, KeyDown(KeyX), Recognised).Ok?
    ensures PieceEvent(t, g, KeyDown(KeyX), Recognised).value.0.coords == RotatedCells(t.coords, "cw")
  {
    ChangeInBounds(t, g, RotatedCells(t.coords, "cw"), 1);
  }

  /** With the strings as written, the same key press on the same piece goes
      through and leaves its cells where they were. */
  lemma XKeepsCellsAsWritten(t: Tetromino, g: Grid)
    requires g.Valid() && InBounds(t.coords, g.rows, g.columns)
    ensures PieceEvent(t, g, KeyDown(KeyX), AsWritten).Ok?
    ensures PieceEvent(t, g, KeyDown(KeyX), AsWritten).value.0.coords == t.coords
  {
    OtherDirectionKeepsCells(t.coords, "clock_wise");
    if |t.coords| > 0 {
      ChangeInBounds(t, g, t.coords, 1);
    }
  }
}
