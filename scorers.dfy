/** Score fusion (calculate_final_score in fastapi-backend/core/scorers.py):
    a fixed weighted sum of the equation score and the two text-similarity
    scores, scaled to 10 and rounded to one decimal place. Scores are exact
    reals here. */
module Scorers {

  const EquationWeight: real := 0.5
  const SbertWeight: real := 0.25
  const E5Weight: real := 0.25

  /** The score before rounding. */
  function WeightedScore(equationScore: real, sbertScore: real, e5Score: real): real {
    (EquationWeight * equationScore + SbertWeight * sbertScore + E5Weight * e5Score) * 10.0
  }

  /** Python's round(y): the nearest integer, and on a tie the even one. */
  function RoundHalfEven(y: real): (n: int)
    ensures n as real - y <= 0.5 && y - n as real <= 0.5
    ensures (n as real - y == 0.5 || y - n as real == 0.5) ==> n % 2 == 0
  {
    var f := y.Floor;
    var frac := y - f as real;
    if frac < 0.5 then f
    else if frac > 0.5 then f + 1
    else if f % 2 == 0 then f
    else f + 1
  }

  /** Rounding never reverses the order of two values. */
  lemma RoundHalfEvenMonotone(x: real, y: real)
    requires x <= y
    ensures RoundHalfEven(x) <= RoundHalfEven(y)
  {
    var m, n := RoundHalfEven(x), RoundHalfEven(y);
    if x < y {
      assert m as real <= x + 0.5 && y - 0.5 <= n as real;
      assert m <= n + 1;
      assert m == n + 1 ==> m as real - x == 0.5 && y - n as real == 0.5;
    }
  }

  /** An integer rounds to itself. */
  lemma RoundHalfEvenOfInteger(k: int)
    ensures RoundHalfEven(k as real) == k
  {
  }

  /** round(x, 1): x rounded half-to-even to a multiple of 0.1. */
  function RoundTenths(x: real): (r: real)
    ensures -0.05 <= r - x <= 0.05
    ensures r * 10.0 == (r * 10.0).Floor as real
    ensures (r - x == 0.05 || x - r == 0.05) ==> (r * 10.0).Floor % 2 == 0
  {
    var n := RoundHalfEven(x * 10.0);
    var r := n as real / 10.0;
    assert r * 10.0 == n as real;
    assert (n as real).Floor == n;
    assert r - x == (n as real - x * 10.0) / 10.0;
    r
  }

  /** calculate_final_score */
  function CalculateFinalScore(equationScore: real, sbertScore: real, e5Score: real): (r: real)
    ensures -0.05 <= r - WeightedScore(equationScore, sbertScore, e5Score) <= 0.05
    ensures r * 10.0 == (r * 10.0).Floor as real
    ensures (r - WeightedScore(equationScore, sbertScore, e5Score) == 0.05
             || WeightedScore(equationScore, sbertScore, e5Score) - r == 0.05) ==> (r * 10.0).Floor % 2 == 0
  {
    RoundTenths(WeightedScore(equationScore, sbertScore, e5Score))
  }

  /** Full marks on every metric give 10.0, nothing on every metric gives 0.0. */
  lemma FinalScoreExtremes()
    ensures CalculateFinalScore(1.0, 1.0, 1.0) == 10.0
    ensures CalculateFinalScore(0.0, 0.0, 0.0) == 0.0
  {
    RoundHalfEvenOfInteger(100);
    RoundHalfEvenOfInteger(0);
  }

  /** Raising any of the three inputs never lowers the final score. */
  lemma FinalScoreMonotone(eq1: real, sbert1: real, e51: real, eq2: real, sbert2: real, e52: real)
    requires eq1 <= eq2 && sbert1 <= sbert2 && e51 <= e52
    ensures CalculateFinalScore(eq1, sbert1, e51) <= CalculateFinalScore(eq2, sbert2, e52)
  {
    RoundHalfEvenMonotone(WeightedScore(eq1, sbert1, e51) * 10.0, WeightedScore(eq2, sbert2, e52) * 10.0);
  }

  /** With the equation score in [0, 1] and both similarities in [-1, 1], the
      weighted score lies in [-5, 10] and so does its rounding. */
  lemma FinalScoreBounds(equationScore: real, sbertScore: real, e5Score: real)
    requires 0.0 <= equationScore <= 1.0
    requires -1.0 <= sbertScore <= 1.0 && -1.0 <= e5Score <= 1.0
    ensures -5.0 <= WeightedScore(equationScore, sbertScore, e5Score) <= 10.0
    ensures -5.0 <= CalculateFinalScore(equationScore, sbertScore, e5Score) <= 10.0
  {
    var w := WeightedScore(equationScore, sbertScore, e5Score);
    RoundHalfEvenMonotone(-50.0, w * 10.0);
    RoundHalfEvenMonotone(w * 10.0, 100.0);
    RoundHalfEvenOfInteger(-50);
    RoundHalfEvenOfInteger(100);
  }
}
