/**
  Preparing a question for display (scripts.js, `prepareQuestion`,
  lines 39-47).

  The HTML-entity decoder relies on the browser, so it is a parameter
  `decode` about which nothing is assumed. The answer list is the decoded
  correct answer followed by the decoded wrong answers, then shuffled.
 */
module Prepare {
  import Fetch
  import Shuffle

  /** A question ready to be shown: decoded text, shuffled answers, decoded correct answer. */
  datatype PreparedQuestion = PreparedQuestion(questionText: string, answers: seq<string>, correct: string)

  /** Decodes every element of `xs`. */
  function DecodeAll(decode: string -> string, xs: seq<string>): (ys: seq<string>)
    ensures |ys| == |xs|
    ensures forall i :: 0 <= i < |xs| ==> ys[i] == decode(xs[i])
  {
    seq(|xs|, i requires 0 <= i < |xs| => decode(xs[i]))
  }

  /** The answers before shuffling: correct answer first, then the wrong ones. */
  function Candidates(item: Fetch.QuestionRecord, decode: string -> string): seq<string> {
    [decode(item.correctAnswer)] + DecodeAll(decode, item.incorrectAnswers)
  }

  /** Prepares `item`; `picks` stands for the random choices of the shuffle. */
  function PrepareQuestion(item: Fetch.QuestionRecord, decode: string -> string, picks: seq<nat>): (q: PreparedQuestion)
    ensures q.questionText == decode(item.question)
    ensures q.correct == decode(item.correctAnswer)
    ensures |q.answers| == 1 + |item.incorrectAnswers|
    ensures multiset(q.answers)
            == multiset{decode(item.correctAnswer)} + multiset(DecodeAll(decode, item.incorrectAnswers))
    ensures q.correct in q.answers
  {
    var answers := Shuffle.Shuffle(Candidates(item, decode), picks);
    assert decode(item.correctAnswer) in multiset(answers);
    PreparedQuestion(decode(item.question), answers, decode(item.correctAnswer))
  }

  /**
    The shuffle may produce any ordering: every list holding exactly the
    decoded answers is the answer list of some preparation of `item`.
   */
  lemma EveryOrderingPossible(item: Fetch.QuestionRecord, decode: string -> string, answers: seq<string>)
    requires multiset(answers)
             == multiset{decode(item.correctAnswer)} + multiset(DecodeAll(decode, item.incorrectAnswers))
    ensures exists picks :: PrepareQuestion(item, decode, picks).answers == answers
  {
    Shuffle.EveryPermutationReachable(Candidates(item, decode), answers);
    var picks :| Shuffle.Shuffle(Candidates(item, decode), picks) == answers;
    assert PrepareQuestion(item, decode, picks).answers == answers;
  }
}
