/**
  The quiz session (scripts.js: `startTimer`, `stopTimer`, `handleAnswer`,
  `nextQuestion`, `startGame`, `showQuestion`, `showResults`).

  The source keeps the session in globals and lets DOM callbacks mutate
  them; here a session is an immutable value and each callback is an
  event:
  - `Start`   the settings form (or "play again") calling `startGame`;
  - `Tick`    one firing of the one-second interval of `startTimer`;
  - `Answer`  a click (or Enter/Space) on the answer card at a position;
  - `Advance` the delayed `nextQuestion` after a question is resolved.
  An event whose callback cannot fire in the current phase (no interval
  running, card handlers removed, no pending `nextQuestion`) leaves the
  session unchanged. The random choices of each shuffle travel with the
  event that shows a question.
 */
module Quiz {
  import Query
  import Fetch
  import Prepare
  import opened History

  datatype Option<T> = None | Some(value: T)

  /** The outside world that stays fixed for the whole page: the browser's HTML decoder. */
  datatype Env = Env(decode: string -> string)

  /**
    Where the game is: settings shown, a question on screen with the timer
    running, a question resolved (timer stopped, cards disabled, the next
    question pending), or the results screen.
   */
  datatype Phase =
    | Configuring
    | Asking
    | Resolved
    | Finished(summary: Summary)

  datatype Session = Session(
    questions: seq<Fetch.QuestionRecord>,
    index: nat,
    score: int,
    history: seq<AnswerRecord>,
    timeLeft: int,
    current: Option<Prepare.PreparedQuestion>,
    phase: Phase)

  datatype Event =
    | Start(amount: string, category: string, difficulty: string, server: string -> Fetch.Response, picks: seq<nat>)
    | Tick
    | Answer(card: nat)
    | Advance(picks: seq<nat>)

  /** The globals as the page loads them. */
  const Initial: Session := Session([], 0, 0, [], TimeLimit, None, Configuring)

  /** The answer type the game always asks for. */
  const AnswerType: string := "multiple"

  /** `showQuestion`: prepares the question at the current index and starts a fresh timer. */
  function ShowQuestion(env: Env, s: Session, picks: seq<nat>): (t: Session)
    requires s.index < |s.questions|
    ensures t.phase == Asking && t.timeLeft == TimeLimit
    ensures t.current == Some(Prepare.PrepareQuestion(s.questions[s.index], env.decode, picks))
    ensures t.questions == s.questions && t.index == s.index
    ensures t.score == s.score && t.history == s.history
  {
    var q := Prepare.PrepareQuestion(s.questions[s.index], env.decode, picks);
    s.(current := Some(q), timeLeft := TimeLimit, phase := Asking)
  }

  /**
    `startGame`: clears score and history, loads a batch from `server` and
    shows its first question; an empty batch returns to `Configuring` and
    starts no timer.
   */
  function StartGame(env: Env, s: Session, amount: string, category: string, difficulty: string,
                     server: string -> Fetch.Response, picks: seq<nat>): (t: Session)
    ensures t.score == 0 && t.history == [] && t.index == 0
    ensures t.questions == Fetch.FetchQuestions(Query.Settings(amount, category, difficulty, AnswerType), server)
    ensures t.phase == Asking <==> t.questions != []
    ensures t.questions != [] ==>
              && t.timeLeft == TimeLimit
              && t.current == Some(Prepare.PrepareQuestion(t.questions[0], env.decode, picks))
    ensures t.questions == [] ==> t.phase == Configuring && t.timeLeft == s.timeLeft && t.current == s.current
  {
    var settings := Query.Settings(amount, category, difficulty, AnswerType);
    var loaded := s.(score := 0, history := [], questions := Fetch.FetchQuestions(settings, server), index := 0);
    if |loaded.questions| == 0 then loaded.(phase := Configuring)
    else ShowQuestion(env, loaded, picks)
  }

  /**
    One second of the interval: the clock goes down by one; at zero the
    interval stops, the cards are disabled and a timeout is recorded.
   */
  function TickTimer(s: Session): (t: Session)
    ensures t.score == s.score && t.questions == s.questions && t.index == s.index && t.current == s.current
    ensures !s.phase.Asking? ==> t == s
    ensures s.phase.Asking? ==> t.timeLeft == s.timeLeft - 1
    ensures s.phase.Asking? && s.timeLeft > 1 ==> t == s.(timeLeft := s.timeLeft - 1)
    ensures t.phase.Resolved? <==> s.phase.Resolved? || (s.phase.Asking? && s.timeLeft <= 1)
    ensures t.history == (if s.phase.Asking? && t.phase.Resolved? then s.history + [TimedOut] else s.history)
  {
    if !s.phase.Asking? then s
    else
      var left := s.timeLeft - 1;
      if left <= 0 then s.(timeLeft := left, history := s.history + [TimedOut], phase := Resolved)
      else s.(timeLeft := left)
  }

  /**
    `handleAnswer` for the card at position `card`: stops the timer,
    records whether the card holds the correct answer and the seconds used,
    and scores 10 points for a correct answer.
   */
  function AnswerCard(s: Session, card: nat): (t: Session)
    ensures t.questions == s.questions && t.index == s.index && t.timeLeft == s.timeLeft && t.current == s.current
    ensures t.score - s.score == Points * (CountCorrect(t.history) - CountCorrect(s.history))
    ensures s.phase.Asking? && s.current.Some? && card < |s.current.value.answers| ==>
              && t.phase.Resolved?
              && t.history == s.history + [AnswerRecord(s.current.value.answers[card] == s.current.value.correct,
                                                        TimeLimit - s.timeLeft)]
    ensures !(s.phase.Asking? && s.current.Some? && card < |s.current.value.answers|) ==> t == s
  {
    if !s.phase.Asking? || s.current.None? || card >= |s.current.value.answers| then s
    else
      var q := s.current.value;
      var ok := q.answers[card] == q.correct;
      var record := AnswerRecord(ok, TimeLimit - s.timeLeft);
      CountAppend(s.history, record);
      s.(history := s.history + [record],
         score := if ok then s.score + Points else s.score,
         phase := Resolved)
  }

  /** `showResults`: the results screen with the summary of the game. */
  function ShowResults(s: Session): (t: Session)
    ensures t.phase == Finished(Summarize(|s.questions|, s.history, s.score))
    ensures t.phase.summary.score == s.score
    ensures t.phase.summary.correct == CountCorrect(s.history) && t.phase.summary.total == |s.questions|
    ensures t.phase.summary.percentage == Percentage(CountCorrect(s.history), |s.questions|)
    ensures t.history == s.history && t.score == s.score && t.questions == s.questions && t.index == s.index
  {
    s.(phase := Finished(Summarize(|s.questions|, s.history, s.score)))
  }

  /** `nextQuestion`: moves to the next index, showing it if it exists and the results otherwise. */
  function NextQuestion(env: Env, s: Session, picks: seq<nat>): (t: Session)
    ensures t.index == s.index + 1 && t.questions == s.questions && t.history == s.history && t.score == s.score
    ensures t.phase.Asking? <==> s.index + 1 < |s.questions|
    ensures t.phase.Finished? <==> s.index + 1 >= |s.questions|
    ensures s.index + 1 < |s.questions| ==>
              && t.timeLeft == TimeLimit
              && t.current == Some(Prepare.PrepareQuestion(s.questions[s.index + 1], env.decode, picks))
    ensures s.index + 1 >= |s.questions| ==> t == ShowResults(s.(index := s.index + 1))
  {
    var moved := s.(index := s.index + 1);
    if moved.index < |moved.questions| then ShowQuestion(env, moved, picks)
    else ShowResults(moved)
  }

  /** The effect of one event. */
  function Step(env: Env, s: Session, e: Event): Session {
    match e
    case Start(amount, category, difficulty, server, picks) =>
      if s.phase.Configuring? || s.phase.Finished? then StartGame(env, s, amount, category, difficulty, server, picks) else s
    case Tick => TickTimer(s)
    case Answer(card) => AnswerCard(s, card)
    case Advance(picks) => if s.phase.Resolved? then NextQuestion(env, s, picks) else s
  }

  /** The effect of a sequence of events, in order. */
  function Run(env: Env, s: Session, events: seq<Event>): Session
    decreases |events|
  {
    if |events| == 0 then s else Run(env, Step(env, s, events[0]), events[1..])
  }

  /** The effect of `n` ticks. */
  function Ticks(s: Session, n: nat): Session
    decreases n
  {
    if n == 0 then s else Ticks(TickTimer(s), n - 1)
  }
}
