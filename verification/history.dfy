/**
  The answer history and the final results (scripts.js: the records
  pushed at lines 68 and 101-104, the correct/incorrect counters of lines
  164-165 and 279-280, and the metrics of `showResults`, lines 301-308).
 */
module History {

  /** One resolved question: whether it was answered correctly and the seconds used. */
  datatype AnswerRecord = AnswerRecord(correct: bool, time: int)

  /** Seconds allowed per question. */
  const TimeLimit: int := 20

  /** Points for a correct answer. */
  const Points: int := 10

  /** The record a timeout leaves: wrong, with the whole time used. */
  const TimedOut: AnswerRecord := AnswerRecord(false, TimeLimit)

  /** Number of correct records (`filter(a => a.correct).length`). */
  function CountCorrect(h: seq<AnswerRecord>): nat
    decreases |h|
  {
    if |h| == 0 then 0
    else CountCorrect(h[..|h| - 1]) + (if h[|h| - 1].correct then 1 else 0)
  }

  /** Number of wrong records (`filter(a => a.correct === false).length`). */
  function CountIncorrect(h: seq<AnswerRecord>): nat
    decreases |h|
  {
    if |h| == 0 then 0
    else CountIncorrect(h[..|h| - 1]) + (if !h[|h| - 1].correct then 1 else 0)
  }

  /** Sum of the recorded times (`reduce((acc, a) => acc + a.time, 0)`). */
  function TotalTime(h: seq<AnswerRecord>): int
    decreases |h|
  {
    if |h| == 0 then 0 else TotalTime(h[..|h| - 1]) + h[|h| - 1].time
  }

  /** Every recorded time lies within the time limit. */
  predicate TimesInRange(h: seq<AnswerRecord>) {
    forall i :: 0 <= i < |h| ==> 0 <= h[i].time <= TimeLimit
  }

  /** Appending one record adds one to exactly the matching counter. */
  lemma CountAppend(h: seq<AnswerRecord>, r: AnswerRecord)
    ensures CountCorrect(h + [r]) == CountCorrect(h) + (if r.correct then 1 else 0)
    ensures CountIncorrect(h + [r]) == CountIncorrect(h) + (if r.correct then 0 else 1)
    ensures TotalTime(h + [r]) == TotalTime(h) + r.time
  {
    assert (h + [r])[..|h|] == h;
  }

  /** The on-screen counters always add up to the number of records. */
  lemma {:induction false} CountsPartition(h: seq<AnswerRecord>)
    ensures CountCorrect(h) + CountIncorrect(h) == |h|
    decreases |h|
  {
    if |h| > 0 {
      CountsPartition(h[..|h| - 1]);
    }
  }

  /** The set of positions holding a correct record. */
  function CorrectPositions(h: seq<AnswerRecord>): set<nat> {
    set i: nat | i < |h| && h[i].correct
  }

  /** The counter equals the number of positions holding a correct record. */
  lemma {:induction false} CountCorrectIsCardinality(h: seq<AnswerRecord>)
    ensures CountCorrect(h) == |CorrectPositions(h)|
    decreases |h|
  {
    if |h| > 0 {
      var init := h[..|h| - 1];
      CountCorrectIsCardinality(init);
      var last: nat := |h| - 1;
      if h[last].correct {
        assert CorrectPositions(h) == CorrectPositions(init) + {last};
      } else {
        assert CorrectPositions(h) == CorrectPositions(init);
      }
    }
  }

  /** Time used per question is bounded, so is the total. */
  lemma {:induction false} TotalTimeBounds(h: seq<AnswerRecord>)
    requires TimesInRange(h)
    ensures 0 <= TotalTime(h) <= TimeLimit * |h|
    decreases |h|
  {
    if |h| > 0 {
      TotalTimeBounds(h[..|h| - 1]);
    }
  }

  lemma TotalTimeWithinLimit(h: seq<AnswerRecord>)
    ensures TimesInRange(h) ==> 0 <= TotalTime(h) <= TimeLimit * |h|
  {
    if TimesInRange(h) {
      TotalTimeBounds(h);
    }
  }

  /**
    `Math.round(correct / total * 100)`, or 0 without questions, computed
    exactly: the nearest integer to 100 * correct / total, halves rounded up.
   */
  function Percentage(correct: nat, total: nat): (p: nat)
    ensures total == 0 ==> p == 0
    ensures total > 0 ==> 2 * total * p <= 200 * correct + total < 2 * total * (p + 1)
    ensures correct <= total ==> p <= 100
  {
    if total == 0 then 0
    else
      var p := (200 * correct + total) / (2 * total);
      RoundBounds(200 * correct + total, 2 * total, p);
      PercentageAtMost100(correct, total, p);
      p
  }

  lemma PercentageAtMost100(correct: nat, total: nat, p: nat)
    requires total > 0 && 2 * total * p <= 200 * correct + total
    ensures correct <= total ==> p <= 100
  {
    if correct <= total {
      assert 2 * total * p < 2 * total * 101;
      CancelFactor(2 * total, p, 101);
    }
  }

  lemma CancelFactor(c: nat, a: nat, b: nat)
    requires c > 0 && c * a < c * b
    ensures a < b
  {
  }

  lemma MulMonotone(c: nat, a: nat, b: nat)
    requires a <= b
    ensures c * a <= c * b
  {
  }

  lemma RoundBounds(n: nat, d: nat, p: nat)
    requires d > 0 && p == n / d
    ensures d * p <= n < d * (p + 1)
  {
  }

  /** The game is won when the rounded percentage is at least one half. */
  predicate IsWin(percentage: nat) {
    percentage >= 50
  }

  /**
    Rounding helps the player: the game is won exactly when at least 49.5%
    of the questions were answered correctly.
   */
  lemma WinThreshold(correct: nat, total: nat)
    ensures IsWin(Percentage(correct, total)) <==> total > 0 && 200 * correct >= 99 * total
  {
    var p := Percentage(correct, total);
    if total > 0 {
      var d := 2 * total;
      assert d * p <= 200 * correct + total < d * (p + 1);
      if p >= 50 {
        MulMonotone(d, 50, p);
        assert d * 50 == 100 * total;
      } else {
        MulMonotone(d, p + 1, 50);
        assert d * 50 == 100 * total;
      }
    }
  }

  /** The figures on the results screen (the average time is not modelled). */
  datatype Summary = Summary(score: int, correct: nat, total: nat, totalTime: int, percentage: nat, win: bool)

  /** The results of a game of `total` questions with history `h` and final `score`. */
  function Summarize(total: nat, h: seq<AnswerRecord>, score: int): (r: Summary)
    ensures r.correct == CountCorrect(h) && r.total == total && r.score == score
    ensures r.percentage == Percentage(r.correct, total) && r.totalTime == TotalTime(h)
    ensures r.win <==> IsWin(r.percentage)
    ensures r.win <==> total > 0 && 200 * r.correct >= 99 * total
    ensures |h| == total ==> r.percentage <= 100
    ensures TimesInRange(h) ==> 0 <= r.totalTime <= TimeLimit * |h|
  {
    var correct := CountCorrect(h);
    var percentage := Percentage(correct, total);
    WinThreshold(correct, total);
    CountsPartition(h);
    TotalTimeWithinLimit(h);
    Summary(score, correct, total, TotalTime(h), percentage, IsWin(percentage))
  }

  /**
    Five questions, three answered correctly and two timed out, scored 10
    points per correct record as every reachable session is: 30 points,
    60%, a win.
   */
  lemma ThreeOfFiveScenario()
    ensures var h := [AnswerRecord(true, 4), AnswerRecord(true, 7), TimedOut, AnswerRecord(true, 12), TimedOut];
            var r := Summarize(5, h, Points * CountCorrect(h));
            r.score == 30 && r.correct == 3 && r.percentage == 60 && r.win && r.totalTime == 63
  {
    var a, b, c := AnswerRecord(true, 4), AnswerRecord(true, 7), AnswerRecord(true, 12);
    CountAppend([], a);
    assert [] + [a] == [a];
    CountAppend([a], b);
    assert [a] + [b] == [a, b];
    CountAppend([a, b], TimedOut);
    assert [a, b] + [TimedOut] == [a, b, TimedOut];
    CountAppend([a, b, TimedOut], c);
    assert [a, b, TimedOut] + [c] == [a, b, TimedOut, c];
    CountAppend([a, b, TimedOut, c], TimedOut);
    assert [a, b, TimedOut, c] + [TimedOut] == [a, b, TimedOut, c, TimedOut];
    assert Percentage(3, 5) == 60;
  }
}
