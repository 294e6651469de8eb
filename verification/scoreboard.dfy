/** The scoreboard (BitLogicScoreboard): the points table, the combo
    multiplier and timer, and the level derived from the lines cleared. The
    line cleaner's shared `num_cleared_rows` counter is passed in and the
    scoreboard's write to it is handed back. */
module Scoring {
  import opened PyRuntime

  datatype Scoreboard = Scoreboard(
    score: int,
    level: int,
    lines: int,
    combo: int,
    timer: real,
    duration: real)

  /** `BitLogicScoreboard(line_cleaner, combo_duration)`. */
  function NewScoreboard(duration: real): (sb: Scoreboard)
    ensures sb.score == 0 && sb.level == 1 && sb.lines == 0 && sb.combo == 0
    ensures sb.timer == 0.0 && sb.duration == duration
    ensures Valid(sb)
  {
    Scoreboard(0, 1, 0, 0, 0.0, duration)
  }

  /** Non-negative score, lines and combo, and the level the line total gives. */
  predicate Valid(sb: Scoreboard)
  {
    sb.score >= 0 && sb.lines >= 0 && sb.combo >= 0 && sb.level == 1 + sb.lines / 10
  }

  /** `points_per_line.get(lines, lines * 100)`. */
  function PointsPerLine(n: int): (p: int)
  {
    if n == 1 then 100
    else if n == 2 then 300
    else if n == 3 then 500
    else if n == 4 then 800
    else n * 100
  }

  /** Every cleared row is worth at least 100 points, and the classic counts
      pay a bonus for clearing rows together. */
  lemma PointsAtLeastPerRow(n: int)
    requires n >= 0
    ensures PointsPerLine(n) >= 100 * n
    ensures 2 <= n <= 4 ==> PointsPerLine(n) > 100 * n
    ensures n > 4 ==> PointsPerLine(n) == 100 * n
  {
  }

  /** The combo multiplier for the combo count after the increment. */
  function Multiplier(combo: int): real
  {
    1.0 + (combo - 1) as real * 0.5
  }

  lemma ScaleAtLeast(a: real, m: real)
    requires a >= 0.0 && m >= 1.0
    ensures a * m >= a
  {
    assert a * m == a + a * (m - 1.0);
  }

  /** Scaling whole points by a multiplier of at least 1 and truncating
      loses none of them. */
  lemma ScaledAtLeast(base: int, m: real)
    requires base >= 0 && m >= 1.0
    ensures Truncate(base as real * m) >= base
  {
    ScaleAtLeast(base as real, m);
  }

  /** The points a clear pays at combo count `c + 1`: the base plus half
      the base for every earlier clear of the streak, truncated. */
  lemma ComboPoints(base: int, c: int)
    requires base >= 0 && c >= 0
    ensures Truncate(base as real * Multiplier(c + 1)) == base + (base * c) / 2
  {
  }

  /** `apply_domino_scoring(combo_duration)` for `lines` cleared rows. */
  function ApplyDominoScoring(sb: Scoreboard, lines: int): (r: Scoreboard)
    ensures r.combo == sb.combo + 1 && r.timer == sb.duration && r.duration == sb.duration
    ensures r.lines == sb.lines + lines
    ensures Valid(sb) && lines >= 0 ==> Valid(r)
    ensures sb.combo >= 0 && lines >= 0 ==> r.score - sb.score >= PointsPerLine(lines)
    ensures sb.combo >= 0 && lines >= 0 ==>
      r.score == sb.score + PointsPerLine(lines) + (PointsPerLine(lines) * sb.combo) / 2
  {
    var combo := sb.combo + 1;
    var base := PointsPerLine(lines);
    var gained := Truncate(base as real * Multiplier(combo));
    assert sb.combo >= 0 && lines >= 0 ==> gained >= base && gained == base + (base * sb.combo) / 2 by {
      if sb.combo >= 0 && lines >= 0 {
        PointsAtLeastPerRow(lines);
        ScaledAtLeast(base, Multiplier(combo));
        ComboPoints(base, sb.combo);
      }
    }
    var total := sb.lines + lines;
    Scoreboard(sb.score + gained, 1 + total / 10, total, combo, sb.duration, sb.duration)
  }

  /** `apply_scoring`: reads the line cleaner's counter `cleared` and returns
      the scoreboard with the counter's new value, reset to 0 after a clear. */
  function ApplyScoring(sb: Scoreboard, cleared: int): (r: (Scoreboard, int))
    ensures cleared > 0 ==> r.1 == 0 && r.0.combo == sb.combo + 1 && r.0.timer == sb.duration
    ensures cleared > 0 ==> r.0.lines == sb.lines + cleared
    ensures cleared > 0 && sb.combo >= 0 ==>
      r.0.score == sb.score + PointsPerLine(cleared) + (PointsPerLine(cleared) * sb.combo) / 2
    ensures cleared <= 0 ==> r.1 == cleared
    ensures cleared <= 0 ==>
      && r.0.score == sb.score && r.0.level == sb.level && r.0.lines == sb.lines
      && (sb.timer > 0.0 ==> r.0.timer == sb.timer - sb.duration && r.0.combo == sb.combo)
      && (sb.timer <= 0.0 ==> r.0.timer == sb.timer && r.0.combo == 0)
    ensures Valid(sb) ==> Valid(r.0)
    ensures Valid(sb) ==> r.0.score >= sb.score && r.0.level >= sb.level && r.0.lines >= sb.lines
  {
    if cleared > 0 then (ApplyDominoScoring(sb, cleared), 0)
    else if sb.timer > 0.0 then (sb.(timer := sb.timer - sb.duration), cleared)
    else (sb.(combo := 0), cleared)
  }

  /** A four-row clear from a fresh board pays 800; a one-row clear on the
      next tick, at combo 2, pays 100 * 1.5 = 150. */
  lemma TetrisThenSingle(duration: real)
    ensures var first := ApplyScoring(NewScoreboard(duration), 4);
      var second := ApplyScoring(first.0, 1);
      && first.0.score == 800 && first.0.combo == 1
      && second.0.score == 950 && second.0.combo == 2
      && second.0.lines == 5 && second.0.level == 1
  {
    var first := ApplyScoring(NewScoreboard(duration), 4).0;
    assert Multiplier(1) == 1.0;
    assert Truncate(800.0) == 800;
    assert Multiplier(2) == 1.5;
    assert 100 as real * 1.5 == 150.0;
    assert Truncate(150.0) == 150;
  }

  /** Right after a clear the combo survives exactly one idle tick and is
      reset on the second one, whatever the (positive) combo duration. */
  lemma ComboLapses(sb: Scoreboard, cleared: int)
    requires cleared > 0 && sb.duration > 0.0
    ensures var hit := ApplyScoring(sb, cleared);
      var idle1 := ApplyScoring(hit.0, hit.1);
      var idle2 := ApplyScoring(idle1.0, idle1.1);
      && idle1.0.combo == sb.combo + 1
      && idle2.0.combo == 0
  {
  }
}
