# Trivia Frenzy quiz session, modelled in Dafny

This project models the game logic of the Trivia Frenzy browser quiz
(`scripts.js`). The game asks the Open Trivia DB for a batch of
multiple-choice questions and shows them one at a time with a 20-second
countdown. It keeps a score of 10 points per correct answer and a history
of one record per question. At the end it shows the number of correct
answers, a rounded percentage and a win/lose verdict.

The source keeps the session in page globals and changes them from DOM
callbacks. The model turns the session into an immutable `Quiz.Session`
value and each callback into an event:

- `Start`: the settings form, or "play again", calling `startGame`. It carries the server's behaviour for this one request.
- `Tick`: one firing of the one-second interval.
- `Answer(card)`: a click, Enter or Space on the answer card at position `card`.
- `Advance`: the delayed `nextQuestion`.

An event whose callback cannot fire in the current phase leaves the
session unchanged. This covers a tick with no interval running, a click
after the card handlers were removed, and an advance with no pending
timeout.

Modules, one per part of the game:

| file | module | what |
|---|---|---|
| query.dfy | `Query` | the request URL and the proof that its query string splits back into the parameters, in order |
| fetch.dfy | `Fetch` | the API response and the fall-back to an empty batch |
| shuffle.dfy | `Shuffle` | the answer shuffle as a choice-driven permutation |
| prepare.dfy | `Prepare` | decoding and shuffling one question |
| history.dfy | `History` | answer records, the counters, total time, percentage, win/lose, results summary |
| quiz.dfy | `Quiz` | session, phases, events and transitions |
| quiz_properties.dfy | `QuizProperties` | the session invariant and the properties of the countdown, answers, start and advance |

Some behaviour comes from outside the code and becomes a parameter:

- The browser's HTML-entity decoder (`decodeHtml`) is `Env.decode`. It is an arbitrary function.
- The trivia server's answer to one request is an arbitrary function from URL to `Fetch.Response`, carried by the `Start` event that sends the request. Each request gets its own function, so replaying the same settings may load a different batch. `Failed` stands for a network error or a body that is not JSON.
- The random numbers of the shuffle become a sequence of picks carried by the event that shows a question.
- The one-second interval and the 1200 ms delay become the `Tick` and `Advance` events.

## Model

| member | source | states |
|---|---|---|
| Query.Endpoint | scripts.js:6-9 | The URL starts with `https://opentdb.com/api.php?amount=N` and ends with `&difficulty=D&type=T`. Between them is `&category=C` when the category is not `any`, and nothing exactly when it is `any`. |
| Query.DefaultEndpoint | scripts.js:6-9 | With the defaults of `fetchQuestions` (10 questions, any category, medium, multiple choice) the URL is the address, `amount=10` and the difficulty/type tail, with no category parameter. |
| Query.QueryParameters | scripts.js:7-9 | If no setting contains `&`, the part after `?` splits on `&` into exactly `amount=N`, `category=C` (only when the category is not `any`), `difficulty=D` and `type=T`, in that order. |
| Query.SplitJoin | scripts.js:7-9 | Splitting on the separator undoes joining when no part contains the separator. This is the parser that `QueryParameters` relies on. |
| Fetch.Batch | scripts.js:15-22 | The batch is the API results when the response arrived with `response_code` 0. It is empty otherwise, including on failure. |
| Fetch.FetchQuestions | scripts.js:11-23 | The batch for the settings' URL is non-empty exactly when the server answered that URL with code 0 and some results. A non-empty batch is exactly those results. |
| Shuffle.Shuffle | scripts.js:34-36 | The shuffled answers are a permutation of the input: same length, same multiset. |
| Shuffle.EveryPermutationReachable | scripts.js:34-36 | Every permutation of the input is the result of some picks, so the model does not limit which orders can occur. |
| Prepare.PrepareQuestion | scripts.js:39-47 | The question text is the decoded question. The correct answer is the decoded correct answer. The answers list has length 1 + the number of wrong answers. As a multiset it equals {decoded correct answer} plus the decoded wrong answers, so the correct answer is always on offer. |
| Prepare.EveryOrderingPossible | scripts.js:39-47 | Every list holding exactly the decoded answers is the answer list of some preparation. |
| History.CountAppend | scripts.js:101-104 | Appending a record adds one to the correct counter if it is correct, and to the incorrect counter otherwise. It adds its time to the total. |
| History.CountsPartition | scripts.js:164-165 | The correct and incorrect counters always add up to the number of records. |
| History.CountCorrectIsCardinality | scripts.js:302 | The correct counter equals the number of positions that hold a correct record. |
| History.TotalTimeBounds | scripts.js:303 | When every record's time lies in 0..20, the total time lies in 0..20 × the number of records. |
| History.Percentage | scripts.js:304 | With no questions the percentage is 0. Otherwise it is 100·correct/total rounded to the nearest integer, halves up, and it is at most 100 when correct ≤ total. |
| History.WinThreshold | scripts.js:304-308 | The game is won, i.e. the percentage is at least 50, exactly when there are questions and at least 49.5% were answered correctly (200·correct ≥ 99·total). |
| History.Summarize | scripts.js:301-308 | The summary carries the score, the correct count, the number of questions, the sum of the recorded times and the rounded percentage of correct answers. The verdict is a win exactly when that percentage is at least 50, that is exactly when 200·correct ≥ 99·total. The percentage is at most 100 and the total time is bounded. |
| History.ThreeOfFiveScenario | scripts.js:301-308 | Five questions with three right and two timed out, scored 10 points per correct record, give 30 points, 3 correct, 60%, a total time of 63 seconds and a win. |
| Quiz.ShowQuestion | scripts.js:255-291 | Showing a question opens it with the clock at 20. What is on screen is the preparation of the current record: decoded text, decoded correct answer, and the decoded answers in shuffled order, the correct one among them. Score, history and index are untouched. |
| Quiz.StartGame | scripts.js:217-236 | Starting resets the score to 0, the history to empty and the index to 0, and loads the batch that this request's server answer gives for the settings with type `multiple`. A question is open exactly when the batch is non-empty, and then it is the preparation of the first record with the clock at 20. An empty batch returns to `Configuring` and starts no timer. |
| Quiz.TickTimer | scripts.js:60-86 | With no question open (no interval running) a tick changes nothing. While a question is open, a tick lowers the clock by exactly 1; with more than 1 second left, nothing else changes. The question becomes resolved exactly when the clock had 1 second left, and then exactly one timeout record (wrong, 20 seconds) is appended. The question on screen is never re-prepared. The score never changes. |
| Quiz.AnswerCard | scripts.js:97-124 | Answering an open question on an existing card resolves it and appends exactly one record: correct iff the card holds the correct answer, time 20 − timeLeft. The question on screen stays as it is. Any other click changes nothing. The score changes by 10 × the change in the number of correct records. |
| Quiz.ShowResults | scripts.js:294-308 | The results screen shows the summary of the session: its score, its correct count, the number of questions, the rounded percentage and the verdict of `Summarize`. History, score and index are untouched. |
| Quiz.NextQuestion | scripts.js:195-202 | Advancing adds one to the index and keeps the batch, the history and the score. The next question opens exactly when the new index is within the batch, as the preparation of the record at the new index with the clock at 20. Otherwise the results screen shows the summary of the session. |
| QuizProperties.InitialValid | scripts.js:387-390 | The session as the page loads it satisfies the invariant. |
| QuizProperties.StartValid | scripts.js:217-236 | Starting a game preserves the invariant whatever the server answers. |
| QuizProperties.TickValid | scripts.js:60-68 | A tick preserves the invariant. |
| QuizProperties.AnswerValid | scripts.js:98-124 | Answering preserves the invariant. |
| QuizProperties.AdvanceValid | scripts.js:195-202 | Advancing preserves the invariant, whether it goes to the next question or to the results. |
| QuizProperties.StepValid | scripts.js:195-236 | Every event preserves the invariant. |
| QuizProperties.RunValid | scripts.js:195-236 | Every sequence of events preserves the invariant. In every reachable state the score is 10 × the correct records and all times are in 0..20. An open question shows the decoded text and exactly the decoded answers of the current record, and has one record per earlier question; a resolved question adds its own. At the results, the history has one record per question. |
| QuizProperties.Reachable | scripts.js:164-165 | From the page load, after any events, the score is 10 × the correct records and the two counters add up to the history length. Every time and the clock stay in 0..20. |
| QuizProperties.CountdownRunning | scripts.js:60-65 | After k ticks with k below the seconds left, the question is still open. The clock is down by exactly k and nothing else has changed. |
| QuizProperties.CountdownExpires | scripts.js:65-68 | The tick that empties the clock resolves the question with the clock at 0 and exactly one timeout record, and the score is unchanged. Any further ticks change nothing. |
| QuizProperties.TicksSplit | scripts.js:60-86 | a + b ticks are a ticks followed by b ticks. |
| QuizProperties.ResolvedIgnoresTicks | scripts.js:66 | After the interval is cleared, no number of ticks changes the session. |
| QuizProperties.TwentyTicks | scripts.js:55-68 | From a freshly started clock, 19 ticks leave the question open with 1 second left. The 20th tick resolves it with the single timeout record and the same score. |
| QuizProperties.AnswerRecorded | scripts.js:98-124 | Answering an open question on an existing card resolves it and appends exactly the record (card holds the correct answer, 20 − timeLeft) with a time in 0..19. The score rises by 10 exactly when the answer is correct and is unchanged otherwise. |
| QuizProperties.ResolvedIsFinal | scripts.js:66-74 | Once a question is resolved, neither a click nor a tick changes the session, so each question is resolved at most once. |
| QuizProperties.CorrectCardExists | scripts.js:265-273 | While a question is open, some card shows the decoded correct answer of the current record. |
| QuizProperties.FailedFetchNeverAsks | scripts.js:229-236 | When the server fails or reports a non-zero code, starting returns to `Configuring` with no questions, an empty history and score 0. |
| QuizProperties.AdvanceOutcome | scripts.js:195-201 | Advancing from a resolved question adds one to the index and opens the next question exactly when the new index is within the batch. Otherwise the results follow: every question has a record, the score is 10 × the correct count, the percentage is at most 100, and the verdict is a win exactly when 200·correct ≥ 99·total. |
| QuizProperties.QuestionsFixed | scripts.js:195-229 | Only starting a game replaces the question batch; ticks, answers and advances keep it. |
| QuizProperties.HistoryAppendOnly | scripts.js:68 | Apart from starting a game, an event leaves the history alone or appends exactly one record, keeping the earlier ones. |

## Left out

- DOM work is not modelled: element lookups, `innerHTML`, CSS classes, the "+10" badge, the vignette and shake effects, and the red timer colour at 10 seconds or less. These are presentation only.
- Wall-clock timing is not modelled. The one-second interval and the 1200 ms delay before `nextQuestion` are the `Tick` and `Advance` events, so the model says nothing about when they fire. The other timeouts (400, 500, 700 and 1100 ms, and the 1200 ms vignette removal on the results screen) only touch the page and are dropped.
- `decodeHtml` needs a browser `textarea`, so it is the uninterpreted parameter `Env.decode`.
- `fetch`, `response.json()` and the category catalogue loader (`loadCategoriesAndDifficulties`) are network and DOM code. The server's answer to each request is the function carried by the `Start` event.
- A success code whose body has no `results` field is not modelled. The response type always carries a results list.
- Shuffle.Shuffle: stands in for `array.sort(() => Math.random() - 0.5)` by selecting elements with arbitrary picks. It proves only the set of possible outcomes (every permutation, nothing else). It claims nothing about their probabilities.
- History.Summarize: the average time (`totalTime / total` formatted with `toFixed(2)`) is floating point and is not computed. Only the integer total time is.
- History.Percentage: `Math.round(correct / total * 100)` is computed in exact arithmetic, rounding halves up as `Math.round` does. Floating-point error in the division is not modelled. For example, with 23 correct out of 40 the browser computes `Math.round(57.49999999999999)`, which is 57, while the model gives 58. The verdict is the same either way.
- The screen navigation handlers (exit to name, give up, play with new settings, end game), audio and video are not modelled. The exit and give-up handlers do not stop a running timer, so the model makes no claim about leaving in the middle of a question. A `Start` event while a question is open or resolved is ignored, because the settings form is not on screen then.
- The player name and the difficulty label on screen are display only.
- After an empty batch, `startGame` shows the `settings-form` element again (scripts.js:234), but not the `settings-form-container` that the submit handler hid (scripts.js:395). Whether the form is visible again depends on the page markup, which is not part of this model. The model returns to `Configuring` and accepts a further `Start` there.

Two further facts about the code:

- Questions are prepared, and so shuffled, only when shown through `startGame` or `nextQuestion`. A timeout does not re-render or reshuffle the question.
- The answers are kept as a list and may contain duplicates. Every property is stated with multisets, so nothing assumes the answers are distinct.
