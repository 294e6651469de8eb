/** Grid cells as (x, y) pairs, x counting columns to the right and y counting
    rows downward, and the bounding-box arithmetic over lists of them. */
module Cells {

  type Cell = (int, int)

  /** Every cell moved by (dx, dy), order kept. */
  function Translate(cs: seq<Cell>, dx: int, dy: int): (r: seq<Cell>)
    ensures |r| == |cs|
    ensures forall i :: 0 <= i < |cs| ==> r[i] == (cs[i].0 + dx, cs[i].1 + dy)
  {
    seq(|cs|, i requires 0 <= i < |cs| => (cs[i].0 + dx, cs[i].1 + dy))
  }

  lemma TranslateTwice(cs: seq<Cell>, a: int, b: int, c: int, d: int)
    ensures Translate(Translate(cs, a, b), c, d) == Translate(cs, a + c, b + d)
  {
  }

  lemma TranslateZero(cs: seq<Cell>)
    ensures Translate(cs, 0, 0) == cs
  {
  }

  function MinX(cs: seq<Cell>): int
    requires |cs| > 0
  {
    if |cs| == 1 then cs[0].0
    else
      var m := MinX(cs[1..]);
      if cs[0].0 < m then cs[0].0 else m
  }

  function MaxX(cs: seq<Cell>): int
    requires |cs| > 0
  {
    if |cs| == 1 then cs[0].0
    else
      var m := MaxX(cs[1..]);
      if cs[0].0 > m then cs[0].0 else m
  }

  function MinY(cs: seq<Cell>): int
    requires |cs| > 0
  {
    if |cs| == 1 then cs[0].1
    else
      var m := MinY(cs[1..]);
      if cs[0].1 < m then cs[0].1 else m
  }

  function MaxY(cs: seq<Cell>): int
    requires |cs| > 0
  {
    if |cs| == 1 then cs[0].1
    else
      var m := MaxY(cs[1..]);
      if cs[0].1 > m then cs[0].1 else m
  }

  /** MinX, MaxX, MinY and MaxY are the extremes Python's min() and max()
      return: bounds of every cell, each reached by some cell. */
  lemma {:induction false} Extremes(cs: seq<Cell>)
    requires |cs| > 0
    ensures forall i :: 0 <= i < |cs| ==> MinX(cs) <= cs[i].0 <= MaxX(cs)
    ensures forall i :: 0 <= i < |cs| ==> MinY(cs) <= cs[i].1 <= MaxY(cs)
    ensures exists i :: 0 <= i < |cs| && cs[i].0 == MinX(cs)
    ensures exists i :: 0 <= i < |cs| && cs[i].0 == MaxX(cs)
    ensures exists i :: 0 <= i < |cs| && cs[i].1 == MinY(cs)
    ensures exists i :: 0 <= i < |cs| && cs[i].1 == MaxY(cs)
  {
    if |cs| > 1 {
      Extremes(cs[1..]);
      forall i | 1 <= i < |cs|
        ensures cs[i] == cs[1..][i - 1]
      {
      }
      var a :| 0 <= a < |cs[1..]| && cs[1..][a].0 == MinX(cs[1..]);
      var b :| 0 <= b < |cs[1..]| && cs[1..][b].0 == MaxX(cs[1..]);
      var c :| 0 <= c < |cs[1..]| && cs[1..][c].1 == MinY(cs[1..]);
      var d :| 0 <= d < |cs[1..]| && cs[1..][d].1 == MaxY(cs[1..]);
      assert cs[a + 1] == cs[1..][a] && cs[b + 1] == cs[1..][b];
      assert cs[c + 1] == cs[1..][c] && cs[d + 1] == cs[1..][d];
    }
  }

  /** Bounds move with a translation. */
  lemma BoundsTranslate(cs: seq<Cell>, dx: int, dy: int)
    requires |cs| > 0
    ensures MinX(Translate(cs, dx, dy)) == MinX(cs) + dx
    ensures MaxX(Translate(cs, dx, dy)) == MaxX(cs) + dx
    ensures MinY(Translate(cs, dx, dy)) == MinY(cs) + dy
    ensures MaxY(Translate(cs, dx, dy)) == MaxY(cs) + dy
  {
    MinXTranslate(cs, dx, dy);
    MaxXTranslate(cs, dx, dy);
    MinYTranslate(cs, dx, dy);
    MaxYTranslate(cs, dx, dy);
  }

  lemma MinXTranslate(cs: seq<Cell>, dx: int, dy: int)
    requires |cs| > 0
    ensures MinX(Translate(cs, dx, dy)) == MinX(cs) + dx
  {
    var t := Translate(cs, dx, dy);
    Extremes(cs);
    Extremes(t);
    var i :| 0 <= i < |t| && t[i].0 == MinX(t);
    assert MinX(cs) <= cs[i].0;
    var j :| 0 <= j < |cs| && cs[j].0 == MinX(cs);
    assert MinX(t) <= t[j].0;
  }

  lemma MaxXTranslate(cs: seq<Cell>, dx: int, dy: int)
    requires |cs| > 0
    ensures MaxX(Translate(cs, dx, dy)) == MaxX(cs) + dx
  {
    var t := Translate(cs, dx, dy);
    Extremes(cs);
    Extremes(t);
    var i :| 0 <= i < |t| && t[i].0 == MaxX(t);
    assert cs[i].0 <= MaxX(cs);
    var j :| 0 <= j < |cs| && cs[j].0 == MaxX(cs);
    assert t[j].0 <= MaxX(t);
  }

  lemma MinYTranslate(cs: seq<Cell>, dx: int, dy: int)
    requires |cs| > 0
    ensures MinY(Translate(cs, dx, dy)) == MinY(cs) + dy
  {
    var t := Translate(cs, dx, dy);
    Extremes(cs);
    Extremes(t);
    var i :| 0 <= i < |t| && t[i].1 == MinY(t);
    assert MinY(cs) <= cs[i].1;
    var j :| 0 <= j < |cs| && cs[j].1 == MinY(cs);
    assert MinY(t) <= t[j].1;
  }

  lemma MaxYTranslate(cs: seq<Cell>, dx: int, dy: int)
    requires |cs| > 0
    ensures MaxY(Translate(cs, dx, dy)) == MaxY(cs) + dy
  {
    var t := Translate(cs, dx, dy);
    Extremes(cs);
    Extremes(t);
    var i :| 0 <= i < |t| && t[i].1 == MaxY(t);
    assert cs[i].1 <= MaxY(cs);
    var j :| 0 <= j < |cs| && cs[j].1 == MaxY(cs);
    assert t[j].1 <= MaxY(t);
  }

  function SumX(cs: seq<Cell>): int
  {
    if |cs| == 0 then 0 else cs[0].0 + SumX(cs[1..])
  }

  function SumY(cs: seq<Cell>): int
  {
    if |cs| == 0 then 0 else cs[0].1 + SumY(cs[1..])
  }

  /** True when every cell lies in columns [0, cols) and rows [0, rows). */
  predicate InBounds(cs: seq<Cell>, rows: int, cols: int)
  {
    forall i :: 0 <= i < |cs| ==> 0 <= cs[i].0 < cols && 0 <= cs[i].1 < rows
  }
}
