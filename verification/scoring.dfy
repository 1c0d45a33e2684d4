/**
 `Game.calculate_score`: the lines counter, the score and the level. The level
 test divides the lines by ten in floating point; it is modelled with exact
 rationals, which agree with the float division for every count the game can
 reach.
 */
module Scoring {
  import opened Types

  /** `current_level`, `current_lines`, `current_score`. */
  datatype Stats = Stats(level: int, lines: int, score: int)

  /** The counters at game start. */
  function Initial(): (s: Stats)
    ensures s.level == 1 && s.lines == 0 && s.score == 0
  {
    Stats(1, 0, 0)
  }

  /** The level-up test `current_lines / 10 > current_level`. */
  predicate LevelsUp(lines: int, level: int) {
    (lines as real) / 10.0 > level as real
  }

  /** The test compares the lines with ten times the level: exactly ten lines at
      level 1 do not level up, eleven do. */
  lemma LevelsUpExactly(lines: int, level: int)
    ensures LevelsUp(lines, level) <==> lines > 10 * level
  {
    assert (lines as real) / 10.0 * 10.0 == lines as real;
  }

  /** `calculate_score(n)`: adds `n` lines and `SCORE_DATA[n]` times the level to
      the score, then moves up one level when the lines pass ten times the level.
      A count missing from the score table raises KeyError (`None`). */
  function CalculateScore(scoreData: map<int, int>, s: Stats, n: int): (r: Option<Stats>)
    ensures r.None? <==> n !in scoreData
    ensures r.Some? ==> r.value.lines == s.lines + n
    ensures r.Some? ==> r.value.score == s.score + scoreData[n] * s.level
    ensures r.Some? ==> r.value.level == if s.lines + n > 10 * s.level then s.level + 1 else s.level
    ensures r.Some? && s.level >= 0 && scoreData[n] >= 0 ==> r.value.score >= s.score
  {
    if n !in scoreData then None
    else
      var lines := s.lines + n;
      var score := s.score + scoreData[n] * s.level;
      LevelsUpExactly(lines, s.level);
      Some(Stats(if LevelsUp(lines, s.level) then s.level + 1 else s.level, lines, score))
  }

  /** The level the lines counter calls for: one up to ten lines, then one more
      for every further ten lines or part of ten. */
  function LevelFor(lines: int): (level: int)
    ensures level >= 1
    ensures lines > 10 ==> 10 * (level - 1) < lines <= 10 * level
  {
    if lines <= 10 then 1 else (lines + 9) / 10
  }

  /** What the counters keep between clears. */
  predicate Consistent(s: Stats) {
    s.lines >= 0 && s.score >= 0 && s.level == LevelFor(s.lines)
  }

  /** Clearing up to ten rows at once keeps the level in step with the lines: a
      single clear never has to skip a level. */
  lemma {:induction false} ScoreKeepsConsistent(scoreData: map<int, int>, s: Stats, n: int)
    requires Consistent(s) && 0 <= n <= 10 && n in scoreData && scoreData[n] >= 0
    ensures CalculateScore(scoreData, s, n).Some?
    ensures Consistent(CalculateScore(scoreData, s, n).value)
  {
    var r := CalculateScore(scoreData, s, n).value;
    assert r.score >= s.score;
    if s.lines + n > 10 * s.level {
      assert r.level == s.level + 1;
      if s.lines > 10 {
        assert s.lines <= 10 * s.level;
      } else {
        assert s.level == 1;
      }
      assert 10 * (r.level - 1) < r.lines <= 10 * r.level;
      assert (r.lines + 9) / 10 == r.level;
    } else {
      assert r.level == s.level;
      if r.lines > 10 {
        assert s.level >= 2 || s.lines + n <= 10;
        assert 10 * (s.level - 1) < r.lines;
        assert (r.lines + 9) / 10 == r.level;
      }
    }
  }

  /** Ten lines at level 1 leave the level at 1; the eleventh line raises it. */
  lemma TenLinesStayAtLevelOne(scoreData: map<int, int>)
    requires 4 in scoreData && 1 in scoreData
    ensures CalculateScore(scoreData, Stats(1, 6, 0), 4).value.level == 1
    ensures CalculateScore(scoreData, Stats(1, 10, 0), 1).value.level == 2
  {
  }
}
