/**
  Properties of the quiz session: the invariant every event preserves,
  the countdown, one resolution per question, the empty-batch guard and
  the results.
 */
module QuizProperties {
  import Fetch
  import Query
  import Prepare
  import opened History
  import opened Quiz

  /**
    What holds of every session the game can reach: the score is ten
    points per correct record, times and the clock stay within 0..20, and
    the history has one record per question already resolved.
   */
  predicate Valid(env: Env, s: Session) {
    && s.score == Points * CountCorrect(s.history)
    && TimesInRange(s.history)
    && 0 <= s.timeLeft <= TimeLimit
    && s.index <= |s.questions|
    && match s.phase
       case Configuring => s.history == [] && s.index == 0
       case Asking =>
         && s.index < |s.questions| && |s.history| == s.index && 1 <= s.timeLeft
         && OnScreen(env, s)
       case Resolved =>
         && s.index < |s.questions| && |s.history| == s.index + 1
         && OnScreen(env, s)
       case Finished(summary) =>
         && s.index == |s.questions| && |s.history| == |s.questions|
         && summary == Summarize(|s.questions|, s.history, s.score)
  }

  /**
    The prepared question on screen is the current record, decoded: its
    text, its correct answer, and as answers exactly the decoded correct
    and wrong answers in some order.
   */
  predicate OnScreen(env: Env, s: Session)
    requires s.index < |s.questions|
  {
    var item := s.questions[s.index];
    && s.current.Some?
    && s.current.value.questionText == env.decode(item.question)
    && s.current.value.correct == env.decode(item.correctAnswer)
    && multiset(s.current.value.answers)
       == multiset{env.decode(item.correctAnswer)} + multiset(Prepare.DecodeAll(env.decode, item.incorrectAnswers))
    && s.current.value.correct in s.current.value.answers
  }

  lemma InitialValid(env: Env)
    ensures Valid(env, Initial)
  {
  }

  lemma AppendKeepsTimes(h: seq<AnswerRecord>, r: AnswerRecord)
    requires TimesInRange(h) && 0 <= r.time <= TimeLimit
    ensures TimesInRange(h + [r])
  {
  }

  /** Starting a game keeps the invariant, whatever the server answers. */
  lemma StartValid(env: Env, s: Session, amount: string, category: string, difficulty: string,
                   server: string -> Fetch.Response, picks: seq<nat>)
    requires Valid(env, s)
    ensures Valid(env, StartGame(env, s, amount, category, difficulty, server, picks))
  {
  }

  /** A tick keeps the invariant. */
  lemma TickValid(env: Env, s: Session)
    requires Valid(env, s)
    ensures Valid(env, TickTimer(s))
  {
    var t := TickTimer(s);
    if s.phase.Asking? && t.phase.Resolved? {
      CountAppend(s.history, TimedOut);
      AppendKeepsTimes(s.history, TimedOut);
    }
  }

  /** Answering keeps the invariant. */
  lemma AnswerValid(env: Env, s: Session, card: nat)
    requires Valid(env, s)
    ensures Valid(env, AnswerCard(s, card))
  {
    var t := AnswerCard(s, card);
    if t != s {
      var r := t.history[|s.history|];
      assert t.history == s.history + [r];
      AppendKeepsTimes(s.history, r);
    }
  }

  /** Advancing keeps the invariant, both to the next question and to the results. */
  lemma AdvanceValid(env: Env, s: Session, picks: seq<nat>)
    requires Valid(env, s) && s.phase.Resolved?
    ensures Valid(env, NextQuestion(env, s, picks))
  {
  }

  lemma StepValid(env: Env, s: Session, e: Event)
    requires Valid(env, s)
    ensures Valid(env, Step(env, s, e))
  {
    match e
    case Start(amount, category, difficulty, server, picks) =>
      if s.phase.Configuring? || s.phase.Finished? {
        StartValid(env, s, amount, category, difficulty, server, picks);
      }
    case Tick => TickValid(env, s);
    case Answer(card) => AnswerValid(env, s, card);
    case Advance(picks) =>
      if s.phase.Resolved? {
        AdvanceValid(env, s, picks);
      }
  }

  /** Every session reachable from the page load satisfies the invariant. */
  lemma {:induction false} RunValid(env: Env, s: Session, events: seq<Event>)
    requires Valid(env, s)
    ensures Valid(env, Run(env, s, events))
    decreases |events|
  {
    if |events| > 0 {
      StepValid(env, s, events[0]);
      RunValid(env, Step(env, s, events[0]), events[1..]);
    }
  }

  /** The score, the counters and the times of every reachable session. */
  lemma Reachable(env: Env, events: seq<Event>)
    ensures var s := Run(env, Initial, events);
            && s.score == Points * CountCorrect(s.history)
            && CountCorrect(s.history) + CountIncorrect(s.history) == |s.history|
            && TimesInRange(s.history)
            && 0 <= s.timeLeft <= TimeLimit
  {
    InitialValid(env);
    RunValid(env, Initial, events);
    CountsPartition(Run(env, Initial, events).history);
  }

  /**
    The countdown: while fewer ticks than the seconds left have passed,
    the question stays open with the clock down by exactly the ticks, and
    nothing is recorded.
   */
  lemma {:induction false} CountdownRunning(s: Session, k: nat)
    requires s.phase.Asking? && k < s.timeLeft
    ensures Ticks(s, k) == s.(timeLeft := s.timeLeft - k)
    decreases k
  {
    if k > 0 {
      var t := TickTimer(s);
      assert t == s.(timeLeft := s.timeLeft - 1);
      CountdownRunning(t, k - 1);
    }
  }

  /**
    The tick that empties the clock resolves the question with exactly one
    timeout record and no points; further ticks change nothing.
   */
  lemma {:induction false} CountdownExpires(s: Session, extra: nat)
    requires s.phase.Asking? && s.timeLeft >= 1
    ensures var t := Ticks(s, s.timeLeft + extra);
            && t.phase.Resolved? && t.timeLeft == 0
            && t.history == s.history + [TimedOut] && t.score == s.score
  {
    CountdownRunning(s, s.timeLeft - 1);
    var last := Ticks(s, s.timeLeft - 1);
    assert last == s.(timeLeft := 1);
    TicksSplit(s, s.timeLeft - 1, 1 + extra);
    var expired := TickTimer(last);
    assert Ticks(last, 1 + extra) == Ticks(expired, extra);
    ResolvedIgnoresTicks(expired, extra);
  }

  lemma {:induction false} TicksSplit(s: Session, a: nat, b: nat)
    ensures Ticks(s, a + b) == Ticks(Ticks(s, a), b)
    decreases a
  {
    if a > 0 {
      TicksSplit(TickTimer(s), a - 1, b);
    }
  }

  /** Once resolved, no tick changes the session: the interval has been cleared. */
  lemma {:induction false} ResolvedIgnoresTicks(s: Session, n: nat)
    requires s.phase.Resolved?
    ensures Ticks(s, n) == s
    decreases n
  {
    if n > 0 {
      ResolvedIgnoresTicks(TickTimer(s), n - 1);
    }
  }

  /**
    A freshly shown question (clock at 20, see `ShowQuestion`) times out on
    exactly its twentieth tick: after 19 ticks it is still open with one
    second left, and the twentieth appends the single timeout record.
   */
  lemma {:induction false} TwentyTicks(q: Session)
    requires q.phase.Asking? && q.timeLeft == TimeLimit
    ensures Ticks(q, 19) == q.(timeLeft := 1)
    ensures Ticks(q, 20).phase.Resolved? && Ticks(q, 20).history == q.history + [TimedOut]
    ensures Ticks(q, 20).score == q.score
  {
    CountdownRunning(q, 19);
    CountdownExpires(q, 0);
  }

  /**
    Answering an open question stops the clock and appends exactly one
    record, correct when the chosen card holds the correct answer, timed
    20 - timeLeft; the score rises by 10 exactly when the answer is correct.
   */
  lemma AnswerRecorded(env: Env, s: Session, card: nat)
    requires Valid(env, s) && s.phase.Asking? && card < |s.current.value.answers|
    ensures var t := AnswerCard(s, card);
            var ok := s.current.value.answers[card] == s.current.value.correct;
            && t.phase.Resolved?
            && t.history == s.history + [AnswerRecord(ok, TimeLimit - s.timeLeft)]
            && 0 <= TimeLimit - s.timeLeft < TimeLimit
            && (t.score == s.score + Points <==> ok)
            && (!ok ==> t.score == s.score)
  {
    var t := AnswerCard(s, card);
    var ok := s.current.value.answers[card] == s.current.value.correct;
    assert t != s by {
      assert |t.history| == |s.history| + 1;
    }
    CountAppend(s.history, AnswerRecord(ok, TimeLimit - s.timeLeft));
  }

  /**
    One resolution per question: once resolved, neither a click nor a tick
    changes the session.
   */
  lemma ResolvedIsFinal(s: Session, card: nat)
    requires s.phase.Resolved?
    ensures AnswerCard(s, card) == s && TickTimer(s) == s
  {
  }

  /** The correct answer is always on a card of an open question. */
  lemma CorrectCardExists(env: Env, s: Session)
    requires Valid(env, s) && s.phase.Asking?
    ensures exists card :: 0 <= card < |s.current.value.answers|
                           && s.current.value.answers[card] == env.decode(s.questions[s.index].correctAnswer)
  {
    var q := s.current.value;
    var card :| 0 <= card < |q.answers| && q.answers[card] == q.correct;
  }

  /**
    When the server fails or reports a non-zero code, starting returns to
    `Configuring` with an empty history and no running question.
   */
  lemma FailedFetchNeverAsks(env: Env, s: Session, amount: string, category: string, difficulty: string,
                             server: string -> Fetch.Response, picks: seq<nat>)
    requires !Fetch.Succeeded(server(Query.Endpoint(Query.Settings(amount, category, difficulty, AnswerType))))
    ensures var t := StartGame(env, s, amount, category, difficulty, server, picks);
            t.phase.Configuring? && t.history == [] && t.score == 0 && t.questions == []
  {
  }

  /**
    Advancing from a resolved question: the index moves on by one and the
    next question is shown exactly when there is one; otherwise the results
    show every question answered, 10 points per correct one, and a win
    exactly when at least 49.5% were right.
   */
  lemma AdvanceOutcome(env: Env, s: Session, picks: seq<nat>)
    requires Valid(env, s) && s.phase.Resolved?
    ensures var t := NextQuestion(env, s, picks);
            && t.index == s.index + 1
            && (t.phase.Asking? <==> t.index < |s.questions|)
            && (t.phase.Finished? <==>  t.index == |s.questions|)
            && (t.phase.Finished? ==>
                  && |t.history| == |t.questions|
                  && t.phase.summary.score == Points * t.phase.summary.correct
                  && t.phase.summary.percentage <= 100
                  && (t.phase.summary.win <==> 200 * t.phase.summary.correct >= 99 * |t.questions|))
  {
    AdvanceValid(env, s, picks);
  }

  /** The batch is fixed between starts: only `Start` loads questions. */
  lemma QuestionsFixed(env: Env, s: Session, e: Event)
    requires !e.Start?
    ensures Step(env, s, e).questions == s.questions
  {
  }

  /**
    The history is append-only: apart from starting a new game, an event
    either leaves it alone or appends exactly one record, never rewriting
    an earlier one.
   */
  lemma HistoryAppendOnly(env: Env, s: Session, e: Event)
    requires !e.Start?
    ensures var t := Step(env, s, e);
            || t.history == s.history
            || (|t.history| == |s.history| + 1 && t.history[..|s.history|] == s.history)
  {
  }
}
