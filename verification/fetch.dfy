/**
  Fetching a batch of questions (scripts.js, `fetchQuestions`, lines 6-24).

  The network round trip and the JSON decoding are not modelled: the
  server's behaviour is a function from request URL to `Response`, where
  `Failed` stands for a transport error or a body that is not JSON.
  Whatever goes wrong, the caller receives an empty batch.
 */
module Fetch {
  import Query

  /** One question as the API sends it (text still HTML-escaped). */
  datatype QuestionRecord = QuestionRecord(question: string, correctAnswer: string, incorrectAnswers: seq<string>)

  /** What one request yields: a failure, or the decoded JSON body. */
  datatype Response =
    | Failed
    | Received(responseCode: int, results: seq<QuestionRecord>)

  /** The API's `response_code` for success. */
  const Success: int := 0

  /** True when the body reports success. */
  predicate Succeeded(resp: Response) {
    resp.Received? && resp.responseCode == Success
  }

  /** The batch handed to the caller: the results on success, empty otherwise. */
  function Batch(resp: Response): (qs: seq<QuestionRecord>)
    ensures Succeeded(resp) ==> qs == resp.results
    ensures !Succeeded(resp) ==> qs == []
  {
    match resp
    case Failed => []
    case Received(code, results) => if code != Success then [] else results
  }

  /** Asks the server (`respond`) at the settings' endpoint and falls back to an empty batch. */
  function FetchQuestions(s: Query.Settings, respond: string -> Response): (qs: seq<QuestionRecord>)
    ensures qs != [] <==> Succeeded(respond(Query.Endpoint(s))) && respond(Query.Endpoint(s)).results != []
    ensures qs == [] || qs == respond(Query.Endpoint(s)).results
  {
    Batch(respond(Query.Endpoint(s)))
  }
}
