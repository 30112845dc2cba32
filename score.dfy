/** `puzzle_calculate_score`: a base score chosen by whole minutes since the
    09:00 UTC release of the puzzle's date, minus 5 per incorrect guess and 10
    for a used hint, floored at 10. The date-to-instant conversion (`sscanf` of
    Y-M-D, then `timegm`) is an input: `release` is the release instant in
    seconds, or None when the date string does not parse. */
module PuzzleScore {
  import opened Common

  const MinScore: int := 10
  const GuessPenalty: int := 5
  const HintPenalty: int := 10

  /** Whole minutes from release to solve; a solve before release counts as 0. */
  function ElapsedMinutes(solveTime: int, release: int): (m: nat)
    ensures solveTime <= release ==> m == 0
    ensures solveTime >= release ==> 60 * m <= solveTime - release < 60 * (m + 1)
  {
    var diff := solveTime - release;
    if diff < 0 then 0 else diff / 60
  }

  /** The time bonus for a solve `minutes` after release: at most 100, which
      only the first ten minutes earn, never below 70 within three hours, and
      always a multiple of 5. */
  function BaseScore(minutes: nat): (b: int)
    ensures b <= 100 && b % 5 == 0
    ensures b == 100 <==> minutes <= 10
    ensures minutes <= 180 ==> b >= 70
  {
    if minutes <= 10 then 100
    else if minutes <= 30 then 90
    else if minutes <= 60 then 80
    else if minutes <= 120 then 75
    else if minutes <= 180 then 70
    else 70 - 5 * ((minutes - 180) / 60)
  }

  /** What wrong guesses and a hint cost: a multiple of 5, zero exactly when
      there were neither. */
  function Penalty(incorrectGuesses: nat, hintUsed: bool): (p: nat)
    ensures p % 5 == 0 && p >= GuessPenalty * incorrectGuesses
    ensures p == 0 <==> incorrectGuesses == 0 && !hintUsed
  {
    GuessPenalty * incorrectGuesses + (if hintUsed then HintPenalty else 0)
  }

  /** The score before the floor is applied: at most 100, 5 less for each
      wrong guess, at most 90 with a hint, and a multiple of 5. */
  function RawScore(solveTime: int, release: int, incorrectGuesses: nat, hintUsed: bool): (r: int)
    ensures r <= 100 - GuessPenalty * incorrectGuesses && r % 5 == 0
    ensures hintUsed ==> r <= 90
  {
    BaseScore(ElapsedMinutes(solveTime, release)) - Penalty(incorrectGuesses, hintUsed)
  }

  function CalculateScore(solveTime: int, release: Option<int>, incorrectGuesses: nat, hintUsed: bool): (score: int)
    ensures score >= MinScore
    ensures release.None? ==> score == MinScore
    ensures release.Some? ==> score >= RawScore(solveTime, release.value, incorrectGuesses, hintUsed)
    ensures release.Some? && RawScore(solveTime, release.value, incorrectGuesses, hintUsed) >= MinScore ==>
      score == RawScore(solveTime, release.value, incorrectGuesses, hintUsed)
    ensures release.Some? && RawScore(solveTime, release.value, incorrectGuesses, hintUsed) < MinScore ==>
      score == MinScore
  {
    match release
    case None => MinScore
    case Some(r) =>
      var score := RawScore(solveTime, r, incorrectGuesses, hintUsed);
      if score < MinScore then MinScore else score
  }

  /** The brackets of `puzzle_calculate_score`: 100 / 90 / 80 / 75 / 70, then 5 less per
      full hour past three hours. */
  lemma BaseScoreBrackets(m: nat)
    ensures m <= 10 ==> BaseScore(m) == 100
    ensures 10 < m <= 30 ==> BaseScore(m) == 90
    ensures 30 < m <= 60 ==> BaseScore(m) == 80
    ensures 60 < m <= 120 ==> BaseScore(m) == 75
    ensures 120 < m <= 180 ==> BaseScore(m) == 70
    ensures m > 180 ==> BaseScore(m) == 70 - 5 * ((m - 180) / 60)
    ensures m > 180 ==> BaseScore(m) <= 70
  {
  }

  lemma DivMonotone(a: int, b: int)
    requires 0 <= a <= b
    ensures a / 60 <= b / 60
  {
    var qa, qb := a / 60, b / 60;
    assert a == 60 * qa + a % 60 && 0 <= a % 60 < 60;
    assert b == 60 * qb + b % 60 && 0 <= b % 60 < 60;
  }

  /** A later solve never gets a higher base score. */
  lemma {:induction false} BaseScoreNonIncreasing(m1: nat, m2: nat)
    requires m1 <= m2
    ensures BaseScore(m2) <= BaseScore(m1)
  {
    if m1 > 180 {
      DivMonotone(m1 - 180, m2 - 180);
    } else if m2 > 180 {
      assert (m2 - 180) / 60 >= 0;
    }
  }

  lemma ElapsedMinutesMonotone(t1: int, t2: int, release: int)
    requires t1 <= t2
    ensures ElapsedMinutes(t1, release) <= ElapsedMinutes(t2, release)
  {
    if t1 - release >= 0 {
      DivMonotone(t1 - release, t2 - release);
    }
  }

  /** The score never rises with a later solve, more wrong guesses, or a hint. */
  lemma ScoreNonIncreasing(t1: int, t2: int, release: Option<int>, g1: nat, g2: nat, h1: bool, h2: bool)
    requires t1 <= t2 && g1 <= g2 && (h1 ==> h2)
    ensures CalculateScore(t2, release, g2, h2) <= CalculateScore(t1, release, g1, h1)
  {
    if release.Some? {
      ElapsedMinutesMonotone(t1, t2, release.value);
      BaseScoreNonIncreasing(ElapsedMinutes(t1, release.value), ElapsedMinutes(t2, release.value));
    }
  }

  /** The values the test suite pins, with `r` the release instant. */
  lemma ScoreExamples(r: int)
    ensures CalculateScore(r + 5 * 60, Some(r), 0, false) == 100
    ensures CalculateScore(r + 15 * 60, Some(r), 0, false) == 90
    ensures CalculateScore(r + 45 * 60, Some(r), 0, false) == 80
    ensures CalculateScore(r + 90 * 60, Some(r), 0, false) == 75
    ensures CalculateScore(r + 150 * 60, Some(r), 0, false) == 70
    ensures CalculateScore(r + 240 * 60, Some(r), 0, false) == 65
    ensures CalculateScore(r + 5 * 60, Some(r), 3, false) == 85
    ensures CalculateScore(r + 5 * 60, Some(r), 0, true) == 90
    ensures CalculateScore(r + 15 * 60, Some(r), 2, true) == 70
    ensures CalculateScore(r + 11 * 3600, Some(r), 20, true) == 10
    ensures CalculateScore(r - 3600, Some(r), 0, false) == 100
    ensures CalculateScore(r, None, 0, false) == 10
  {
    assert ElapsedMinutes(r + 5 * 60, r) == 5;
    assert ElapsedMinutes(r + 15 * 60, r) == 15;
    assert ElapsedMinutes(r + 45 * 60, r) == 45;
    assert ElapsedMinutes(r + 90 * 60, r) == 90;
    assert ElapsedMinutes(r + 150 * 60, r) == 150;
    assert ElapsedMinutes(r + 240 * 60, r) == 240;
    assert ElapsedMinutes(r + 11 * 3600, r) == 660;
  }
}

/** The result page of main.c rebuilds the time bonus from the stored score and
    the attempt's penalties, and names a time bracket for it. */
module ResultPage {
  import opened Common
  import opened PuzzleScore

  /** The page's time bonus: the stored score with the penalties added back,
      never below the score and equal to it exactly when nothing was charged. */
  function ReconstructedBase(score: int, incorrectGuesses: nat, hintUsed: bool): (r: int)
    ensures r >= score
    ensures r == score <==> incorrectGuesses == 0 && !hintUsed
  {
    score + GuessPenalty * incorrectGuesses + (if hintUsed then HintPenalty else 0)
  }

  /** The page's bracket for a time bonus: "within 10 min" only for a full
      100, "3+ hours" only below 70, "2-3 hours" for 70 to 74. */
  function TimeLabel(base: int): (l: string)
    ensures l == "within 10 min" <==> base >= 100
    ensures l == "2-3 hours" <==> 70 <= base < 75
    ensures l == "3+ hours" <==> base < 70
  {
    if base >= 100 then "within 10 min"
    else if base >= 90 then "10-30 min"
    else if base >= 80 then "30-60 min"
    else if base >= 75 then "1-2 hours"
    else if base >= 70 then "2-3 hours"
    else "3+ hours"
  }

  /** The bracket an elapsed time actually falls in. */
  function BracketLabel(minutes: nat): string {
    if minutes <= 10 then "within 10 min"
    else if minutes <= 30 then "10-30 min"
    else if minutes <= 60 then "30-60 min"
    else if minutes <= 120 then "1-2 hours"
    else if minutes <= 180 then "2-3 hours"
    else "3+ hours"
  }

  /** Adding the penalties back never under-estimates the base score; it is
      exact unless the floor of 10 was applied. */
  lemma ReconstructionBounds(t: int, release: int, g: nat, h: bool)
    ensures ReconstructedBase(CalculateScore(t, Some(release), g, h), g, h) >= BaseScore(ElapsedMinutes(t, release))
    ensures RawScore(t, release, g, h) >= MinScore <==>
      ReconstructedBase(CalculateScore(t, Some(release), g, h), g, h) == BaseScore(ElapsedMinutes(t, release))
  {
  }

  /** Without the floor, the label names the real bracket, except between three
      and four hours, where the base score is still 70. */
  lemma {:induction false} LabelMatchesBracket(t: int, release: int, g: nat, h: bool)
    requires RawScore(t, release, g, h) >= MinScore
    ensures var m := ElapsedMinutes(t, release);
      (m <= 180 || m >= 240) ==>
        TimeLabel(ReconstructedBase(CalculateScore(t, Some(release), g, h), g, h)) == BracketLabel(m)
  {
    var m := ElapsedMinutes(t, release);
    ReconstructionBounds(t, release, g, h);
    BaseScoreBrackets(m);
    if m >= 240 {
      assert (m - 180) / 60 >= 1;
    }
  }

  /** As written: a solve 3h30m after release is labelled "2-3 hours". */
  lemma LabelBetweenThreeAndFourHours(release: int)
    ensures var t := release + 210 * 60;
      TimeLabel(ReconstructedBase(CalculateScore(t, Some(release), 0, false), 0, false)) == "2-3 hours" &&
      BracketLabel(ElapsedMinutes(t, release)) == "3+ hours"
  {
    assert ElapsedMinutes(release + 210 * 60, release) == 210;
  }

  /** As written: a floored score makes the page claim a faster bracket. Solved
      45 minutes after release with 20 wrong guesses and a hint, the score is
      10, the rebuilt base is 120 and the label says "within 10 min". */
  lemma FlooredScoreShowsFasterBracket(release: int)
    ensures var t := release + 45 * 60;
      CalculateScore(t, Some(release), 20, true) == 10 &&
      TimeLabel(ReconstructedBase(CalculateScore(t, Some(release), 20, true), 20, true)) == "within 10 min" &&
      BracketLabel(ElapsedMinutes(t, release)) == "30-60 min"
  {
    assert ElapsedMinutes(release + 45 * 60, release) == 45;
  }

  /** The label the page evidently means: the bracket of the recorded solve
      time, which is stored with the attempt. */
  function SolveTimeLabel(completedAt: int, release: int): (l: string)
    ensures l == TimeLabel(BaseScore(ElapsedMinutes(completedAt, release))) ||
            180 < ElapsedMinutes(completedAt, release) < 240
  {
    var m := ElapsedMinutes(completedAt, release);
    BaseScoreBrackets(m);
    assert m >= 240 ==> (m - 180) / 60 >= 1;
    BracketLabel(m)
  }

  /** The corrected label does not depend on the penalties, and it agrees with
      the page's label whenever the page's reconstruction is exact. */
  lemma {:induction false} SolveTimeLabelAgrees(t: int, release: int, g: nat, h: bool)
    ensures var m := ElapsedMinutes(t, release);
      RawScore(t, release, g, h) >= MinScore && (m <= 180 || m >= 240) ==>
        SolveTimeLabel(t, release) ==
        TimeLabel(ReconstructedBase(CalculateScore(t, Some(release), g, h), g, h))
    ensures var d, l := t - release, SolveTimeLabel(t, release);
      (l == "within 10 min" <==> d < 11 * 60) &&
      (l == "10-30 min" <==> 11 * 60 <= d < 31 * 60) &&
      (l == "30-60 min" <==> 31 * 60 <= d < 61 * 60) &&
      (l == "1-2 hours" <==> 61 * 60 <= d < 121 * 60) &&
      (l == "2-3 hours" <==> 121 * 60 <= d < 181 * 60) &&
      (l == "3+ hours" <==> 181 * 60 <= d)
  {
    if RawScore(t, release, g, h) >= MinScore {
      LabelMatchesBracket(t, release, g, h);
    }
  }
}
