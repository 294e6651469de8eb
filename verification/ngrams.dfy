/** The placement predictor (PatternNGrams): a (previous piece, current piece)
    to leftmost-column frequency table built from the placement corpus, a
    simulated vertical drop, the line-completion test, and `predict`, which
    returns the first line-completing (rotation, column) or else the n-gram
    column. */
module NGrams {
  import opened PyRuntime
  import opened Cells
  import opened Shapes
  import opened Board

  // ---------------------------------------------------------------- corpus

  /** One corpus entry as `_load` reads it: `entry.get("piece")` (None when the
      key is missing or null) and `entry.get("landed_coordinates", [])`. */
  datatype Entry = Entry(piece: Option<string>, coords: seq<Cell>)

  type Key = (string, string)

  /** A `Counter` of columns: (column, count) pairs in insertion order. */
  type Counter = seq<(int, nat)>

  /** `col_model` and `last_piece_seen`. */
  datatype Model = Model(table: map<Key, Counter>, lastPieceSeen: Option<string>)

  predicate WellCounted(c: Counter)
  {
    && (forall i :: 0 <= i < |c| ==> c[i].1 > 0)
    && (forall i, j :: 0 <= i < j < |c| ==> c[i].0 != c[j].0)
  }

  /** `counter[col]`: 0 for a column never seen. */
  function CountOf(c: Counter, col: int): nat
  {
    if |c| == 0 then 0
    else if c[0].0 == col then c[0].1
    else CountOf(c[1..], col)
  }

  function Columns(c: Counter): (cols: seq<int>)
    ensures |cols| == |c|
    ensures forall i :: 0 <= i < |c| ==> cols[i] == c[i].0
  {
    seq(|c|, i requires 0 <= i < |c| => c[i].0)
  }

  /** `counter[col] += 1`: a known column keeps its place, a new one goes last. */
  function Bump(c: Counter, col: int): (r: Counter)
    ensures |r| > 0
  {
    if |c| == 0 then [(col, 1)]
    else if c[0].0 == col then [(col, c[0].1 + 1)] + c[1..]
    else [c[0]] + Bump(c[1..], col)
  }

  /** Bumping adds one to `col` and leaves every other column's count alone. */
  lemma {:induction false} BumpCount(c: Counter, col: int, k: int)
    ensures CountOf(Bump(c, col), k) == CountOf(c, k) + (if k == col then 1 else 0)
  {
    if |c| > 0 && c[0].0 != col {
      BumpCount(c[1..], col, k);
    }
  }

  /** Bumping keeps the columns in insertion order, adding `col` last when new. */
  lemma {:induction false} BumpColumns(c: Counter, col: int)
    ensures Columns(Bump(c, col)) == Columns(c) || Columns(Bump(c, col)) == Columns(c) + [col]
  {
    if |c| > 0 && c[0].0 != col {
      BumpColumns(c[1..], col);
      assert Columns(c) == [c[0].0] + Columns(c[1..]);
      assert Columns(Bump(c, col)) == [c[0].0] + Columns(Bump(c[1..], col));
    }
  }

  /** Bumping keeps every count positive and the columns distinct. */
  lemma {:induction false} BumpWell(c: Counter, col: int)
    requires WellCounted(c)
    ensures WellCounted(Bump(c, col))
  {
    if |c| > 0 && c[0].0 != col {
      var rest := Bump(c[1..], col);
      BumpWell(c[1..], col);
      BumpColumns(c[1..], col);
      assert forall i :: 0 <= i < |rest| ==> rest[i].0 == Columns(rest)[i];
      assert forall i :: 0 <= i < |rest| ==> rest[i].0 != c[0].0;
    }
  }

  function Lookup(t: map<Key, Counter>, key: Key): Counter
  {
    if key in t then t[key] else []
  }

  predicate TableOk(t: map<Key, Counter>)
  {
    forall key :: key in t ==> WellCounted(t[key]) && |t[key]| > 0
  }

  /** One iteration of `_load`'s loop: `prev` always becomes this entry's
      piece; a count is added only for an entry with coordinates and a piece
      that follows an entry with a piece. */
  function LoadStep(t: map<Key, Counter>, prev: Option<string>, e: Entry): (r: (map<Key, Counter>, Option<string>))
    requires TableOk(t)
    ensures TableOk(r.0) && r.1 == e.piece
  {
    if |e.coords| == 0 || e.piece.None? then (t, e.piece)
    else
      var col := MinX(e.coords);
      if prev.Some? then
        var key := (prev.value, e.piece.value);
        BumpWell(Lookup(t, key), col);
        (t[key := Bump(Lookup(t, key), col)], e.piece)
      else (t, e.piece)
  }

  /** `_load` over the first n entries. */
  function LoadPrefix(es: seq<Entry>, n: nat): (r: (map<Key, Counter>, Option<string>))
    requires n <= |es|
    ensures TableOk(r.0)
  {
    if n == 0 then (map[], None)
    else
      var acc := LoadPrefix(es, n - 1);
      LoadStep(acc.0, acc.1, es[n - 1])
  }

  /** `PatternNGrams()` over a corpus already read; an unreadable file reads as []. */
  function Load(es: seq<Entry>): Model
  {
    var r := LoadPrefix(es, |es|);
    Model(r.0, r.1)
  }

  /** Entry i records `col` as the leftmost column under `key`. */
  predicate Observed(es: seq<Entry>, i: int, key: Key, col: int)
    requires 0 <= i < |es|
  {
    && 1 <= i
    && |es[i].coords| > 0
    && es[i].piece == Some(key.1)
    && es[i - 1].piece == Some(key.0)
    && MinX(es[i].coords) == col
  }

  ghost function Observations(es: seq<Entry>, n: int, key: Key, col: int): set<int>
    requires 0 <= n <= |es|
  {
    set i | 0 <= i < n && Observed(es, i, key, col)
  }

  /** One loop iteration adds one to exactly the (key, column) it observes. */
  lemma StepCount(t: map<Key, Counter>, prev: Option<string>, e: Entry, key: Key, col: int)
    requires TableOk(t)
    ensures CountOf(Lookup(LoadStep(t, prev, e).0, key), col) ==
      CountOf(Lookup(t, key), col) +
      (if |e.coords| > 0 && e.piece == Some(key.1) && prev == Some(key.0) && MinX(e.coords) == col then 1 else 0)
  {
    if |e.coords| > 0 && e.piece.Some? && prev.Some? {
      BumpCount(Lookup(t, (prev.value, e.piece.value)), MinX(e.coords), col);
    }
  }

  lemma ObservationsStep(es: seq<Entry>, n: nat, key: Key, col: int)
    requires 0 < n <= |es|
    ensures |Observations(es, n, key, col)| ==
      |Observations(es, n - 1, key, col)| + (if Observed(es, n - 1, key, col) then 1 else 0)
  {
    var before := Observations(es, n - 1, key, col);
    var after := Observations(es, n, key, col);
    var added := if Observed(es, n - 1, key, col) then {n - 1} else {};
    forall i
      ensures i in after <==> i in before + added
    {
    }
    assert after == before + added;
    assert before !! added;
  }

  /** After loading, the count of `col` under `key` is the number of
      consecutive record pairs that observed it. */
  lemma {:induction false} LoadCount(es: seq<Entry>, n: nat, key: Key, col: int)
    requires n <= |es|
    ensures CountOf(Lookup(LoadPrefix(es, n).0, key), col) == |Observations(es, n, key, col)|
  {
    if n > 0 {
      LoadCount(es, n - 1, key, col);
      LoadLast(es, n - 1);
      var acc := LoadPrefix(es, n - 1);
      StepCount(acc.0, acc.1, es[n - 1], key, col);
      ObservationsStep(es, n, key, col);
    }
  }

  /** `last_piece_seen` ends as the last entry's piece, whatever it holds. */
  lemma LoadLast(es: seq<Entry>, n: nat)
    requires n <= |es|
    ensures LoadPrefix(es, n).1 == if n == 0 then None else es[n - 1].piece
  {
  }

  /** `_load` as a whole: counts of every key and column, and the last piece. */
  lemma LoadSpec(es: seq<Entry>)
    ensures forall key, col :: CountOf(Lookup(Load(es).table, key), col) == |Observations(es, |es|, key, col)|
    ensures Load(es).lastPieceSeen == if |es| == 0 then None else es[|es| - 1].piece
    ensures forall key :: key in Load(es).table ==> |Load(es).table[key]| > 0
  {
    forall key, col
      ensures CountOf(Lookup(Load(es).table, key), col) == |Observations(es, |es|, key, col)|
    {
      LoadCount(es, |es|, key, col);
    }
    LoadLast(es, |es|);
  }

  /** Index of the most frequent column, the earliest inserted among ties
      (`most_common(1)` keeps the first maximal entry). */
  function MostCommonIndex(c: Counter): (k: nat)
    requires |c| > 0
    ensures k < |c|
    ensures forall j :: 0 <= j < |c| ==> c[j].1 <= c[k].1
    ensures forall j :: 0 <= j < k ==> c[j].1 < c[k].1
  {
    if |c| == 1 then 0
    else
      var k := MostCommonIndex(c[..|c| - 1]);
      if c[|c| - 1].1 > c[k].1 then |c| - 1 else k
  }

  // ------------------------------------------------------------ simulation

  /** The drop test at one cell: below the floor, or a non-zero cell. */
  predicate Hits(b: Board, c: Cell, rows: int)
  {
    c.1 >= rows || (0 <= c.1 && Read(b, c.0, c.1).Ok? && Read(b, c.0, c.1).value != 0)
  }

  /** A cell the piece may pass through: above the floor and empty (cells
      above the board are not looked at). */
  predicate Open(b: Board, c: Cell, rows: int)
  {
    c.1 < rows && (c.1 < 0 || Read(b, c.0, c.1) == Ok(0))
  }

  predicate AllOpen(b: Board, cs: seq<Cell>, rows: int)
  {
    forall i :: 0 <= i < |cs| ==> Open(b, cs[i], rows)
  }

  predicate SomeHit(b: Board, cs: seq<Cell>, rows: int)
  {
    exists i :: 0 <= i < |cs| && Hits(b, cs[i], rows)
  }

  /** `_drop`'s inner scan: the cells in order, stopping at the first one that
      is blocked; reading a cell outside the lists raises IndexError. */
  function Blocked(b: Board, cs: seq<Cell>, rows: int): (r: Result<bool>)
    ensures r == Ok(false) <==> AllOpen(b, cs, rows)
    ensures r == Ok(true) ==> SomeHit(b, cs, rows)
    ensures |cs| > 0 && cs[0].1 >= rows ==> r == Ok(true)
    ensures r.Err? ==> r.fault == IndexError
  {
    if |cs| == 0 then Ok(false)
    else
      var c := cs[0];
      if c.1 >= rows then
        assert Hits(b, cs[0], rows);
        Ok(true)
      else if 0 <= c.1 then
        match Read(b, c.0, c.1)
        case Err(e) =>
          assert !Open(b, cs[0], rows);
          Err(e)
        case Ok(v) =>
          if v != 0 then
            assert Hits(b, cs[0], rows);
            Ok(true)
          else
            var rest := Blocked(b, cs[1..], rows);
            assert AllOpen(b, cs, rows) <==> AllOpen(b, cs[1..], rows) by {
              assert forall i :: 1 <= i < |cs| ==> cs[i] == cs[1..][i - 1];
            }
            assert SomeHit(b, cs[1..], rows) ==> SomeHit(b, cs, rows) by {
              assert forall i :: 1 <= i < |cs| ==> cs[i] == cs[1..][i - 1];
            }
            rest
      else
        var rest := Blocked(b, cs[1..], rows);
        assert AllOpen(b, cs, rows) <==> AllOpen(b, cs[1..], rows) by {
          assert forall i :: 1 <= i < |cs| ==> cs[i] == cs[1..][i - 1];
        }
        assert SomeHit(b, cs[1..], rows) ==> SomeHit(b, cs, rows) by {
          assert forall i :: 1 <= i < |cs| ==> cs[i] == cs[1..][i - 1];
        }
        rest
  }

  /** `_drop`'s loop from `y_offset = off`: the offset at which the next step
      down is blocked. */
  function Settle(b: Board, base: seq<Cell>, rows: int, off: nat): (r: Result<nat>)
    requires |base| > 0
    ensures r.Ok? ==> off <= r.value
    ensures r.Err? ==> r.fault == IndexError
    decreases rows - base[0].1 - off
  {
    var next := Translate(base, 0, off + 1);
    match Blocked(b, next, rows)
    case Err(e) => Err(e)
    case Ok(blocked) =>
      if blocked then Ok(off)
      else
        assert next[0].1 < rows by {
          assert Open(b, next[0], rows);
        }
        Settle(b, base, rows, off + 1)
  }

  /** Where `_drop`'s loop stops: every step past `off` up to the result is
      open, and the step after it is blocked. */
  lemma {:induction false} SettleRests(b: Board, base: seq<Cell>, rows: int, off: nat)
    requires |base| > 0 && Settle(b, base, rows, off).Ok?
    ensures forall k :: off < k <= Settle(b, base, rows, off).value ==> AllOpen(b, Translate(base, 0, k), rows)
    ensures SomeHit(b, Translate(base, 0, Settle(b, base, rows, off).value + 1), rows)
    decreases rows - base[0].1 - off
  {
    var next := Translate(base, 0, off + 1);
    if Blocked(b, next, rows) == Ok(false) {
      assert next[0].1 < rows by {
        assert Open(b, next[0], rows);
      }
      SettleRests(b, base, rows, off + 1);
      var d := Settle(b, base, rows, off).value;
      assert d == Settle(b, base, rows, off + 1).value;
      forall k | off < k <= d
        ensures AllOpen(b, Translate(base, 0, k), rows)
      {
        if k == off + 1 {
          assert Translate(base, 0, k) == next;
        }
      }
    }
  }

  /** Every x is a column index Python accepts on a row of `cols` cells. */
  predicate ColumnsIndexable(cs: seq<Cell>, cols: int)
  {
    forall i :: 0 <= i < |cs| ==> -cols <= cs[i].0 < cols
  }

  /** On a rows x cols board, the scan never raises when every x is an
      index a row accepts: rows below the floor stop it and rows above the
      board are skipped. */
  lemma {:induction false} BlockedOk(b: Board, cs: seq<Cell>, rows: int, cols: int)
    requires WellFormed(b, rows, cols) && ColumnsIndexable(cs, cols)
    ensures Blocked(b, cs, rows).Ok?
  {
    if |cs| > 0 && cs[0].1 < rows {
      assert 0 <= cs[0].1 ==> Read(b, cs[0].0, cs[0].1).Ok?;
      assert ColumnsIndexable(cs[1..], cols) by {
        assert forall i :: 1 <= i < |cs| ==> cs[i] == cs[1..][i - 1];
      }
      BlockedOk(b, cs[1..], rows, cols);
    }
  }

  /** Under the same condition `_drop`'s loop always stops without raising. */
  lemma {:induction false} SettleOk(b: Board, base: seq<Cell>, rows: int, cols: int, off: nat)
    requires WellFormed(b, rows, cols) && |base| > 0 && ColumnsIndexable(base, cols)
    ensures Settle(b, base, rows, off).Ok?
    decreases rows - base[0].1 - off
  {
    var next := Translate(base, 0, off + 1);
    BlockedOk(b, next, rows, cols);
    if Blocked(b, next, rows) == Ok(false) {
      assert next[0].1 < rows by {
        assert Open(b, next[0], rows);
      }
      SettleOk(b, base, rows, cols, off + 1);
    }
  }

  /** `_drop`'s clamp: a piece reaching past the last column is shifted left
      until its rightmost cell is in the last column. */
  function Clamp(base: seq<Cell>, columns: int): (r: seq<Cell>)
    requires |base| > 0
    ensures |r| == |base|
    ensures MaxX(base) >= columns ==> r == Translate(base, columns - 1 - MaxX(base), 0) && MaxX(r) == columns - 1
    ensures MaxX(base) < columns ==> r == base
  {
    var m := MaxX(base);
    if m >= columns then
      MaxXTranslate(base, columns - 1 - m, 0);
      Translate(base, columns - 1 - m, 0)
    else base
  }

  /** The clamped cells moved down by `d`, with every step up to `d` open and
      step `d + 1` blocked. */
  ghost predicate RestsAt(b: Board, base: seq<Cell>, rows: int, d: nat)
  {
    && (forall k :: 1 <= k <= d ==> AllOpen(b, Translate(base, 0, k), rows))
    && SomeHit(b, Translate(base, 0, d + 1), rows)
  }

  /** `_drop`: simulate a straight drop from where the cells are. */
  function Drop(b: Board, base: seq<Cell>, columns: int, rows: int): (r: Result<seq<Cell>>)
    ensures |base| == 0 ==> r == Err(ValueError)
    ensures |base| > 0 && r.Err? ==> r.fault == IndexError
    ensures r.Ok? ==> |base| > 0 && exists d: nat ::
      r.value == Translate(Clamp(base, columns), 0, d) && RestsAt(b, Clamp(base, columns), rows, d)
  {
    if |base| == 0 then Err(ValueError)
    else
      var c := Clamp(base, columns);
      match Settle(b, c, rows, 0)
      case Err(e) => Err(e)
      case Ok(d) =>
        SettleRests(b, c, rows, 0);
        assert RestsAt(b, c, rows, d);
        Ok(Translate(c, 0, d))
  }

  /** On a rows x columns board, `_drop` returns a placement whenever the
      clamped cells' x are all indexes a row accepts, that is, when the
      clamped piece does not reach further left than -columns. */
  lemma DropOk(b: Board, base: seq<Cell>, columns: int, rows: int)
    requires WellFormed(b, rows, columns) && |base| > 0
    requires -columns <= MinX(Clamp(base, columns))
    ensures Drop(b, base, columns, rows).Ok?
  {
    var c := Clamp(base, columns);
    Extremes(base);
    Extremes(c);
    assert MaxX(c) < columns;
    SettleOk(b, c, rows, columns, 0);
  }

  /** The placement cells that lie on the board. */
  function Visible(cs: seq<Cell>, rows: int, cols: int): (r: seq<Cell>)
    ensures InBounds(r, rows, cols)
    ensures forall c :: c in r <==> c in cs && 0 <= c.0 < cols && 0 <= c.1 < rows
  {
    if |cs| == 0 then []
    else
      var rest := Visible(cs[1..], rows, cols);
      assert forall c :: c in cs <==> c == cs[0] || c in cs[1..] by {
        assert cs == [cs[0]] + cs[1..];
      }
      if 0 <= cs[0].0 < cols && 0 <= cs[0].1 < rows then [cs[0]] + rest else rest
  }

  /** Row y is entirely occupied once the placement is added to the board. */
  predicate FilledWith(b: Board, placement: seq<Cell>, y: int, cols: int)
    requires 0 <= y < |b| && 0 <= cols <= |b[y]|
  {
    forall x :: 0 <= x < cols ==> b[y][x] != 0 || (x, y) in placement
  }

  function AnyFullFrom(sim: Board, cols: int, y: nat): (r: bool)
    requires WellFormed(sim, |sim|, cols) && y <= |sim|
    ensures r <==> exists j :: y <= j < |sim| && RowFull(sim, j, cols)
    decreases |sim| - y
  {
    if y == |sim| then false
    else if RowFull(sim, y, cols) then true
    else AnyFullFrom(sim, cols, y + 1)
  }

  /** `_completes_line`: stamp the on-board placement cells onto a copy and
      look for a full row; the board itself is not changed. */
  function CompletesLine(b: Board, placement: seq<Cell>, rows: int, cols: int): (r: bool)
    requires WellFormed(b, rows, cols)
    ensures r <==> exists y :: 0 <= y < rows && FilledWith(b, placement, y, cols)
  {
    var vis := Visible(placement, rows, cols);
    StampInBounds(b, vis, 1, rows, cols);
    var sim := Stamp(b, vis, 1).value;
    assert forall y :: 0 <= y < rows ==> (RowFull(sim, y, cols) <==> FilledWith(b, placement, y, cols));
    AnyFullFrom(sim, cols, 0)
  }

  /** A board that already has a full row makes every placement complete a line. */
  lemma FullRowCompletes(b: Board, placement: seq<Cell>, rows: int, cols: int, y: int)
    requires WellFormed(b, rows, cols) && 0 <= y < rows && RowFull(b, y, cols)
    ensures CompletesLine(b, placement, rows, cols)
  {
    assert FilledWith(b, placement, y, cols);
  }

  // ------------------------------------------------------------ prediction

  datatype Reason = LineClear | NgramFallback

  /** The dict `predict` returns. */
  datatype Suggestion = Suggestion(placement: seq<Cell>, rotation: int, column: int, reason: Reason)

  /** The placement tried for (rotation, column) in the line-completion search. */
  function Candidate(b: Board, k: PieceKind, columns: int, rows: int, rot: int, col: int): Result<seq<Cell>>
  {
    match RotateShape(Template(k), rot)
    case Err(e) => Err(e)
    case Ok(shape) => Drop(b, Translate(shape, col, 0), columns, rows)
  }

  /** One step of the search: the candidate's placement when it completes a
      row, None when it does not. */
  function Attempt(b: Board, k: PieceKind, columns: int, rows: int, rot: int, col: int): (r: Result<Option<seq<Cell>>>)
    requires WellFormed(b, rows, columns)
    ensures r.Ok? && r.value.Some? ==>
      Candidate(b, k, columns, rows, rot, col) == Ok(r.value.value) && CompletesLine(b, r.value.value, rows, columns)
    ensures r == Ok(None) ==>
      Candidate(b, k, columns, rows, rot, col).Ok? && !CompletesLine(b, Candidate(b, k, columns, rows, rot, col).value, rows, columns)
    ensures r.Ok? <==> Candidate(b, k, columns, rows, rot, col).Ok?
    ensures r.Err? ==> r.fault == IndexError
  {
    TemplatesNormalized(k);
    match Candidate(b, k, columns, rows, rot, col)
    case Err(e) =>
      assert |Translate(RotateShape(Template(k), rot).value, col, 0)| == 4;
      Err(e)
    case Ok(p) => if CompletesLine(b, p, rows, columns) then Ok(Some(p)) else Ok(None)
  }

  /** On a well-formed board at least two columns wide, every rotation of
      every template placed at a column no further left than -columns drops
      without raising: a piece clamped at the right edge starts at column
      columns - 4 or further right. */
  lemma CandidateOk(b: Board, k: PieceKind, columns: int, rows: int, rot: int, col: int)
    requires WellFormed(b, rows, columns) && columns >= 2 && -columns <= col
    ensures Candidate(b, k, columns, rows, rot, col).Ok?
  {
    TemplateInBox(k);
    RotateInBox(Template(k), 4, rot);
    var shape := RotateShape(Template(k), rot).value;
    var base := Translate(shape, col, 0);
    Extremes(shape);
    BoundsTranslate(shape, col, 0);
    if MaxX(base) >= columns {
      BoundsTranslate(base, columns - 1 - MaxX(base), 0);
    }
    DropOk(b, base, columns, rows);
  }

  /** (rotation, column) pairs are tried rotation-outer, column-inner. */
  predicate Precedes(r1: int, c1: int, r2: int, c2: int)
  {
    r1 < r2 || (r1 == r2 && c1 < c2)
  }

  /** The nested `for rotation in range(4): for col in range(columns)` loops
      from (rot, col) on: the first pair whose attempt does not come back
      Ok(None), stopping at the first exception. */
  function FirstHit<P>(attempt: (int, int) -> Result<Option<P>>, columns: int, rot: nat, col: nat)
    : (r: Result<Option<(int, int, P)>>)
    requires rot <= 4
    ensures r.Ok? && r.value.Some? ==>
      var (r1, c1, p) := r.value.value;
      && rot <= r1 < 4 && 0 <= c1 < columns && !Precedes(r1, c1, rot, col)
      && attempt(r1, c1) == Ok(Some(p))
      && forall r2, c2 :: 0 <= r2 < 4 && 0 <= c2 < columns && !Precedes(r2, c2, rot, col) && Precedes(r2, c2, r1, c1)
           ==> attempt(r2, c2) == Ok(None)
    ensures r.Ok? && r.value.None? ==>
      forall r2, c2 :: 0 <= r2 < 4 && 0 <= c2 < columns && !Precedes(r2, c2, rot, col) ==> attempt(r2, c2) == Ok(None)
    ensures r.Err? ==> exists r2, c2 :: 0 <= r2 < 4 && 0 <= c2 < columns && attempt(r2, c2) == Err(r.fault)
    decreases 4 - rot, columns - col
  {
    if rot == 4 then Ok(None)
    else if col >= columns then FirstHit(attempt, columns, rot + 1, 0)
    else
      match attempt(rot, col)
      case Err(e) => Err(e)
      case Ok(found) =>
        if found.Some? then Ok(Some((rot, col, found.value)))
        else FirstHit(attempt, columns, rot, col + 1)
  }

  /** When no attempt raises, neither do the nested loops: an exception
      they pass on always comes from some attempt. */
  lemma FirstHitOk<P>(attempt: (int, int) -> Result<Option<P>>, columns: int, rot: nat, col: nat)
    requires rot <= 4
    requires forall r2, c2 :: 0 <= r2 < 4 && 0 <= c2 < columns ==> attempt(r2, c2).Ok?
    ensures FirstHit(attempt, columns, rot, col).Ok?
  {
  }

  /** `predict`'s search loop for piece kind `k`: the first (rotation,
      column) in search order whose placement completes a row. */
  function Search(b: Board, k: PieceKind, columns: int, rows: int): (r: Result<Option<(int, int, seq<Cell>)>>)
    requires WellFormed(b, rows, columns)
    ensures r.Ok? && r.value.Some? ==>
      var (rot, col, p) := r.value.value;
      && 0 <= rot < 4 && 0 <= col < columns
      && Attempt(b, k, columns, rows, rot, col) == Ok(Some(p))
      && forall r2, c2 :: 0 <= r2 < 4 && 0 <= c2 < columns && Precedes(r2, c2, rot, col) ==>
           Attempt(b, k, columns, rows, r2, c2) == Ok(None)
    ensures r.Ok? && r.value.None? ==>
      forall r2, c2 :: 0 <= r2 < 4 && 0 <= c2 < columns ==> Attempt(b, k, columns, rows, r2, c2) == Ok(None)
    ensures r.Err? ==> r.fault == IndexError
  {
    var attempt := (rot: int, col: int) => Attempt(b, k, columns, rows, rot, col);
    var r := FirstHit(attempt, columns, 0, 0);
    assert forall r2, c2 :: attempt(r2, c2) == Attempt(b, k, columns, rows, r2, c2);
    r
  }

  /** On a well-formed board at least two columns wide the search never
      raises: it finds the first line-completing pair or reports none. */
  lemma SearchOk(b: Board, k: PieceKind, columns: int, rows: int)
    requires WellFormed(b, rows, columns) && columns >= 2
    ensures Search(b, k, columns, rows).Ok?
  {
    var attempt := (rot: int, col: int) => Attempt(b, k, columns, rows, rot, col);
    forall r2, c2 | 0 <= r2 < 4 && 0 <= c2 < columns
      ensures attempt(r2, c2).Ok?
    {
      CandidateOk(b, k, columns, rows, r2, c2);
    }
    FirstHitOk(attempt, columns, 0, 0);
  }

  /** The n-gram key: (prev_piece, piece), else (last_piece_seen, piece), else none. */
  function FallbackKey(m: Model, piece: string, prev: Option<string>): Option<Key>
  {
    if prev.Some? then Some((prev.value, piece))
    else if m.lastPieceSeen.Some? then Some((m.lastPieceSeen.value, piece))
    else None
  }

  /** The n-gram column: the key's most frequent column, else 0. */
  function FallbackColumn(m: Model, piece: string, prev: Option<string>): (col: int)
    ensures var key := FallbackKey(m, piece, prev);
      if key.Some? && key.value in m.table && |m.table[key.value]| > 0 then
        var c := m.table[key.value];
        exists i :: 0 <= i < |c| && col == c[i].0
          && (forall j :: 0 <= j < |c| ==> c[j].1 <= c[i].1)
          && (forall j :: 0 <= j < i ==> c[j].1 < c[i].1)
      else col == 0
  {
    var key := FallbackKey(m, piece, prev);
    if key.Some? && key.value in m.table && |m.table[key.value]| > 0 then
      var c := m.table[key.value];
      var i := MostCommonIndex(c);
      c[i].0
    else 0
  }

  /** `predict(board, piece, columns, rows, prev_piece)`: the suggestion (None
      for an unknown piece) and the predictor's updated state. */
  function Predict(m: Model, b: Board, piece: string, columns: int, rows: int, prev: Option<string>)
    : (r: Result<(Option<Suggestion>, Model)>)
    requires WellFormed(b, rows, columns)
    ensures KindOf(piece).None? ==> r == Ok((None, m))
    ensures KindOf(piece).Some? && r.Ok? ==> r.value.0.Some?
    ensures r.Ok? && r.value.0.Some? && r.value.0.value.reason == LineClear ==>
      var s := r.value.0.value;
      var k := KindOf(piece).value;
      && r.value.1 == m
      && 0 <= s.rotation < 4 && 0 <= s.column < columns
      && Attempt(b, k, columns, rows, s.rotation, s.column) == Ok(Some(s.placement))
      && forall r2, c2 :: 0 <= r2 < 4 && 0 <= c2 < columns && Precedes(r2, c2, s.rotation, s.column) ==>
           Attempt(b, k, columns, rows, r2, c2) == Ok(None)
    ensures r.Ok? && r.value.0.Some? && r.value.0.value.reason == NgramFallback ==>
      var s := r.value.0.value;
      var k := KindOf(piece).value;
      && r.value.1 == m.(lastPieceSeen := Some(piece))
      && s.rotation == 0
      && s.column == FallbackColumn(m, piece, prev)
      && Drop(b, Translate(Template(k), s.column, 0), columns, rows) == Ok(s.placement)
      && forall r2, c2 :: 0 <= r2 < 4 && 0 <= c2 < columns ==> Attempt(b, k, columns, rows, r2, c2) == Ok(None)
    ensures r.Err? ==> r.fault == IndexError
  {
    match KindOf(piece)
    case None => Ok((None, m))
    case Some(k) =>
      match Search(b, k, columns, rows)
      case Err(e) => Err(e)
      case Ok(found) =>
        if found.Some? then
          var (rot, col, p) := found.value;
          Ok((Some(Suggestion(p, rot, col, LineClear)), m))
        else
          var col := FallbackColumn(m, piece, prev);
          TemplatesNormalized(k);
          match Drop(b, Translate(Template(k), col, 0), columns, rows)
          case Err(e) => Err(e)
          case Ok(p) => Ok((Some(Suggestion(p, 0, col, NgramFallback)), m.(lastPieceSeen := Some(piece))))
  }

  /** On a well-formed board at least two columns wide, `predict` for a
      known piece returns a suggestion: the first line-completing placement
      when there is one, else the n-gram fallback, provided the fallback
      column is not further left than -columns. */
  lemma PredictOk(m: Model, b: Board, piece: string, columns: int, rows: int, prev: Option<string>)
    requires WellFormed(b, rows, columns) && columns >= 2
    requires KindOf(piece).Some? && FallbackColumn(m, piece, prev) >= -columns
    ensures Predict(m, b, piece, columns, rows, prev).Ok?
    ensures Predict(m, b, piece, columns, rows, prev).value.0.Some?
    ensures (exists r2, c2 :: 0 <= r2 < 4 && 0 <= c2 < columns && Attempt(b, KindOf(piece).value, columns, rows, r2, c2).Ok?
               && Attempt(b, KindOf(piece).value, columns, rows, r2, c2).value.Some?)
      <==> Predict(m, b, piece, columns, rows, prev).value.0.value.reason == LineClear
  {
    var k := KindOf(piece).value;
    SearchOk(b, k, columns, rows);
    CandidateOk(b, k, columns, rows, 0, FallbackColumn(m, piece, prev));
    assert RotateShape(Template(k), 0) == Ok(Template(k));
  }
}
