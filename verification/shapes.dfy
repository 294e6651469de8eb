/** The seven piece kinds, their canonical cell templates (the same table is
    held by the predictor and by the piece queue) and the predictor's template
    rotation: a quarter turn counter-clockwise followed by a shift back to
    non-negative offsets. */
module Shapes {
  import opened PyRuntime
  import opened Cells

  datatype PieceKind = O | I | T | L | J | S | Z

  /** The table's keys in insertion order. */
  const Kinds: seq<PieceKind> := [O, I, T, L, J, S, Z]

  function Name(k: PieceKind): string
  {
    match k
    case O => "O"
    case I => "I"
    case T => "T"
    case L => "L"
    case J => "J"
    case S => "S"
    case Z => "Z"
  }

  /** Looking a name up among the table's keys. */
  function KindOf(name: string): (r: Option<PieceKind>)
    ensures r.Some? ==> Name(r.value) == name
    ensures r.None? ==> forall k :: Name(k) != name
  {
    if name == "O" then Some(O)
    else if name == "I" then Some(I)
    else if name == "T" then Some(T)
    else if name == "L" then Some(L)
    else if name == "J" then Some(J)
    else if name == "S" then Some(S)
    else if name == "Z" then Some(Z)
    else None
  }

  lemma KindOfName(k: PieceKind)
    ensures KindOf(Name(k)) == Some(k)
  {
  }

  function Template(k: PieceKind): (cs: seq<Cell>)
    ensures |cs| == 4
  {
    match k
    case O => [(0, 0), (1, 0), (0, 1), (1, 1)]
    case I => [(0, 0), (1, 0), (2, 0), (3, 0)]
    case T => [(1, 0), (0, 1), (1, 1), (2, 1)]
    case L => [(0, 0), (0, 1), (0, 2), (1, 2)]
    case J => [(1, 0), (1, 1), (1, 2), (0, 2)]
    case S => [(1, 0), (2, 0), (0, 1), (1, 1)]
    case Z => [(0, 0), (1, 0), (1, 1), (2, 1)]
  }

  /** `SHAPES.get(name)` / `piece.get(name)`. */
  function ShapeOf(name: string): (r: Option<seq<Cell>>)
    ensures r.Some? <==> KindOf(name).Some?
    ensures r.Some? ==> r.value == Template(KindOf(name).value)
  {
    match KindOf(name)
    case Some(k) => Some(Template(k))
    case None => None
  }

  /** Offsets whose smallest x and smallest y are both zero. */
  predicate Normalized(cs: seq<Cell>)
  {
    |cs| > 0 && MinX(cs) == 0 && MinY(cs) == 0
  }

  lemma TemplatesNormalized(k: PieceKind)
    ensures Normalized(Template(k))
    ensures MaxX(Template(k)) < 4 && MaxY(Template(k)) < 4
  {
    var cs := Template(k);
    Extremes(cs);
    forall i | 0 <= i < |cs|
      ensures 0 <= cs[i].0 < 4 && 0 <= cs[i].1 < 4
    {
      assert i == 0 || i == 1 || i == 2 || i == 3;
    }
    assert cs[0].1 == 0;
    match k {
      case T => assert cs[1].0 == 0;
      case J => assert cs[3].0 == 0;
      case S => assert cs[2].0 == 0;
      case _ => assert cs[0].0 == 0;
    }
  }

  /** A quarter turn counter-clockwise about the origin: (x, y) to (-y, x). */
  function TurnCcw(cs: seq<Cell>): (r: seq<Cell>)
    ensures |r| == |cs|
    ensures forall i :: 0 <= i < |cs| ==> r[i] == (-cs[i].1, cs[i].0)
  {
    seq(|cs|, i requires 0 <= i < |cs| => (-cs[i].1, cs[i].0))
  }

  /** Shift so the smallest x and the smallest y become zero. */
  function Normalize(cs: seq<Cell>): (r: seq<Cell>)
    requires |cs| > 0
    ensures Normalized(r)
    ensures |r| == |cs|
    ensures forall i :: 0 <= i < |cs| ==> r[i] == (cs[i].0 - MinX(cs), cs[i].1 - MinY(cs))
  {
    MinXTranslate(cs, -MinX(cs), -MinY(cs));
    MinYTranslate(cs, -MinX(cs), -MinY(cs));
    Translate(cs, -MinX(cs), -MinY(cs))
  }

  /** `_rotate_shape(coords, times)`: `times` counter-clockwise quarter turns,
      each re-normalised; min() of an empty list raises ValueError. */
  function RotateShape(cs: seq<Cell>, times: int): (r: Result<seq<Cell>>)
    ensures times <= 0 ==> r == Ok(cs)
    ensures times > 0 ==> (r.Ok? <==> |cs| > 0)
    ensures r.Ok? ==> |r.value| == |cs|
    ensures times > 0 && r.Ok? ==> Normalized(r.value)
    decreases times
  {
    if times <= 0 then Ok(cs)
    else if |cs| == 0 then Err(ValueError)
    else RotateShape(Normalize(TurnCcw(cs)), times - 1)
  }

  lemma TurnTranslate(cs: seq<Cell>, a: int, b: int)
    ensures TurnCcw(Translate(cs, a, b)) == Translate(TurnCcw(cs), -b, a)
  {
  }

  lemma NormalizeTranslate(cs: seq<Cell>, a: int, b: int)
    requires |cs| > 0
    ensures Normalize(Translate(cs, a, b)) == Normalize(cs)
  {
    var m, n := MinX(cs), MinY(cs);
    BoundsTranslate(cs, a, b);
    TranslateTwice(cs, a, b, -m - a, -n - b);
  }

  lemma TurnFour(cs: seq<Cell>)
    ensures TurnCcw(TurnCcw(TurnCcw(TurnCcw(cs)))) == cs
  {
  }

  /** One rotation step does not see where the offsets started. */
  lemma StepTranslate(cs: seq<Cell>, a: int, b: int)
    requires |cs| > 0
    ensures Normalize(TurnCcw(Translate(cs, a, b))) == Normalize(TurnCcw(cs))
  {
    TurnTranslate(cs, a, b);
    NormalizeTranslate(TurnCcw(cs), -b, a);
  }

  lemma StepNormalize(u: seq<Cell>)
    requires |u| > 0
    ensures Normalize(TurnCcw(Normalize(u))) == Normalize(TurnCcw(u))
  {
    StepTranslate(u, -MinX(u), -MinY(u));
  }

  lemma NormalizeNormalized(cs: seq<Cell>)
    requires Normalized(cs)
    ensures Normalize(cs) == cs
  {
    TranslateZero(cs);
  }

  /** Four quarter turns bring a normalised template back to itself. */
  lemma {:induction false} RotateFourTimes(cs: seq<Cell>)
    requires Normalized(cs)
    ensures RotateShape(cs, 4) == Ok(cs)
  {
    var t1 := TurnCcw(cs);
    var t2 := TurnCcw(t1);
    var t3 := TurnCcw(t2);
    var s1 := Normalize(t1);
    var s2 := Normalize(TurnCcw(s1));
    var s3 := Normalize(TurnCcw(s2));
    var s4 := Normalize(TurnCcw(s3));
    StepNormalize(t1);
    assert s2 == Normalize(t2);
    StepNormalize(t2);
    assert s3 == Normalize(t3);
    StepNormalize(t3);
    TurnFour(cs);
    assert s4 == Normalize(cs);
    NormalizeNormalized(cs);
    assert RotateShape(s4, 0) == Ok(cs);
    assert RotateShape(s3, 1) == Ok(cs);
    assert RotateShape(s2, 2) == Ok(cs);
    assert RotateShape(s1, 3) == Ok(cs);
  }

  /** Every offset lies in the n x n box [0, n) x [0, n). */
  predicate InBox(cs: seq<Cell>, n: int)
  {
    forall i :: 0 <= i < |cs| ==> 0 <= cs[i].0 < n && 0 <= cs[i].1 < n
  }

  lemma TemplateInBox(k: PieceKind)
    ensures Normalized(Template(k)) && InBox(Template(k), 4)
  {
    TemplatesNormalized(k);
    Extremes(Template(k));
  }

  /** A quarter turn of an n x n box, shifted back to zero, stays in it. */
  lemma TurnKeepsBox(cs: seq<Cell>, n: int)
    requires |cs| > 0 && InBox(cs, n)
    ensures InBox(Normalize(TurnCcw(cs)), n)
  {
    var tc := TurnCcw(cs);
    Extremes(tc);
    var a :| 0 <= a < |tc| && tc[a].0 == MinX(tc);
    var c :| 0 <= c < |tc| && tc[c].1 == MinY(tc);
    assert -n < MinX(tc) <= 0 && 0 <= MinY(tc) < n;
  }

  /** Any number of `_rotate_shape` steps keeps a normalised shape in its
      box: the rotation never fails and its result is normalised again. */
  lemma {:induction false} RotateInBox(cs: seq<Cell>, n: int, times: int)
    requires Normalized(cs) && InBox(cs, n)
    ensures RotateShape(cs, times).Ok?
    ensures Normalized(RotateShape(cs, times).value) && InBox(RotateShape(cs, times).value, n)
    decreases times
  {
    if times > 0 {
      TurnKeepsBox(cs, n);
      RotateInBox(Normalize(TurnCcw(cs)), n, times - 1);
    }
  }
}
