/**
 * The `POST /ask` handler as a decision: given the `question` field of the
 * request body, the chunk list built at start-up and the outcome of the call
 * to the question-answering service, which response is sent.
 *
 * The call itself is not modelled; `Plan` says whether it is made and with
 * which question and context, and `Upstream` is what it produced.
 */
module Ask {

  import opened Wrappers
  import opened Text
  import opened Chunker
  import opened Selector


  /** The `question` property of the parsed JSON body. */
  datatype QuestionField =
    | Absent                      // missing, `undefined`
    | JsonString(text: string)
    | JsonOther(truthy: bool)     // `null`, a number, a boolean, an array or an object

  /** What the awaited service call produced. */
  datatype Upstream =
    | Threw                                                // the request failed or reading its reply threw
    | Replied(error: Option<string>, answer: Option<string>) // `response.data.error` and `.answer`

  /** The `error` text of an error response. */
  datatype ErrorText =
    | MissingQuestion        // "Please provide a question"
    | UpstreamFailure        // "Error fetching answer from Hugging Face API"
    | Passthrough(text: string)

  /** The characters each error text stands for. */
  function Message(e: ErrorText): string {
    match e
    case MissingQuestion => "Please provide a question"
    case UpstreamFailure => "Error fetching answer from Hugging Face API"
    case Passthrough(text) => text
  }

  datatype Body =
    | ErrorBody(error: ErrorText)
    | AnswerBody(answer: Option<string>, context: Option<string>)  // `None` fields are dropped from the JSON

  datatype Response =
    | Sent(status: nat, body: Body)
    | Unhandled   // the handler threw before its `try`; it sends nothing itself

  /** What the handler does before awaiting the service. */
  datatype Step =
    | Reject
    | Call(question: string, context: Option<string>)
    | Crash

  /** JavaScript truthiness of the field: `!question` rejects exactly the falsy ones. */
  predicate Truthy(q: QuestionField) {
    match q
    case Absent => false
    case JsonString(s) => s != ""
    case JsonOther(t) => t
  }

  /** `response.data.error` is truthy: present and not the empty string. */
  predicate ErrorReported(u: Upstream) {
    u.Replied? && u.error.Some? && u.error.value != ""
  }

  /**
   * The part of the handler before the service call: reject a falsy question,
   * otherwise select the context; a truthy non-string has no `toLowerCase`,
   * so selection throws.
   */
  function Plan(q: QuestionField, chunks: seq<string>): (step: Step)
    ensures step == Reject <==> !Truthy(q)
    ensures step == Crash <==> q.JsonOther? && q.truthy
    ensures step.Call? ==>
      q == JsonString(step.question) && step.question != "" && step.context == BestChunk(step.question, chunks)
  {
    if !Truthy(q) then Reject
    else if q.JsonString? then Call(q.text, BestChunk(q.text, chunks))
    else Crash
  }

  /** The part of the handler after the service call, inside and after the `try`. */
  function Respond(step: Step, u: Upstream): (r: Response)
    ensures r == Unhandled <==> step == Crash
    ensures step == Reject ==> r == Sent(400, ErrorBody(MissingQuestion))
    ensures step.Call? ==> r.Sent? && (r.status == 500 <==> u.Threw? || ErrorReported(u))
    ensures step.Call? && r.Sent? && r.status != 500 ==> r == Sent(200, AnswerBody(u.answer, step.context))
  {
    match step
    case Reject => Sent(400, ErrorBody(MissingQuestion))
    case Crash => Unhandled
    case Call(_, context) =>
      if u.Threw? then Sent(500, ErrorBody(UpstreamFailure))
      else if ErrorReported(u) then Sent(500, ErrorBody(Passthrough(u.error.value)))
      else Sent(200, AnswerBody(u.answer, context))
  }

  /** The whole `/ask` handler. */
  function HandleAsk(q: QuestionField, chunks: seq<string>, u: Upstream): (r: Response)
    ensures !Truthy(q) <==> r == Sent(400, ErrorBody(MissingQuestion))
    ensures r == Unhandled <==> q.JsonOther? && q.truthy
    ensures r.Sent? ==> r.status in {200, 400, 500}
    ensures r.Sent? && r.status == 500 <==> Truthy(q) && q.JsonString? && (u.Threw? || ErrorReported(u))
    ensures Truthy(q) && q.JsonString? && u.Threw? ==> r == Sent(500, ErrorBody(UpstreamFailure))
    ensures Truthy(q) && q.JsonString? && ErrorReported(u) ==> r == Sent(500, ErrorBody(Passthrough(u.error.value)))
    ensures r.Sent? && r.status == 200 <==> Truthy(q) && q.JsonString? && u.Replied? && !ErrorReported(u)
    ensures r.Sent? && r.status == 200 ==> r.body == AnswerBody(u.answer, BestChunk(q.text, chunks))
  {
    Respond(Plan(q, chunks), u)
  }

  /**
   * A falsy question is answered with 400 before any chunk is selected and
   * whatever the service would have done: no call is planned.
   */
  lemma MissingQuestionSkipsCall(q: QuestionField, chunks: seq<string>, u1: Upstream, u2: Upstream)
    requires !Truthy(q)
    ensures Plan(q, chunks) == Reject
    ensures HandleAsk(q, chunks, u1) == HandleAsk(q, chunks, u2) == Sent(400, ErrorBody(MissingQuestion))
  {
  }

  /** The service is asked about the question itself, with the selected chunk as context. */
  lemma CallCarriesBestChunk(question: string, chunks: seq<string>)
    requires question != ""
    ensures Plan(JsonString(question), chunks) == Call(question, BestChunk(question, chunks))
    ensures chunks != [] ==> Plan(JsonString(question), chunks).context.Some?
  {
  }

  /**
   * With the chunks of a resume, the context sent back is one of its
   * 500-character slices, and it is absent only for an empty resume.
   */
  lemma ContextIsResumeSlice(resume: string, question: string, u: Upstream)
    requires question != ""
    requires u.Replied? && !ErrorReported(u)
    ensures var r := HandleAsk(JsonString(question), Chunks(resume), u);
      r.Sent? && r.body.AnswerBody? &&
      (r.body.context == None <==> resume == []) &&
      (r.body.context.Some? ==>
        0 < |r.body.context.value| <= ChunkSize &&
        exists k: nat :: k * ChunkSize < |resume| && r.body.context.value == ChunkAt(resume, k))
  {
    var chunks := Chunks(resume);
    ChunksCount(resume);
    ChunksLengths(resume);
    ChunkPositions(resume);
    if chunks != [] {
      var k := ArgMax(Scores(Tokenize(question), chunks));
      assert chunks[k] == ChunkAt(resume, k);
      assert chunks[k] in chunks;
    }
  }

  /**
   * A resume of at most 500 characters is a single chunk, so every non-empty
   * question gets the whole resume back as context with the service's answer.
   */
  lemma ShortResumeIsWholeContext(resume: string, question: string, answer: string)
    requires 0 < |resume| <= ChunkSize
    requires question != ""
    ensures HandleAsk(JsonString(question), Chunks(resume), Replied(None, Some(answer)))
         == Sent(200, AnswerBody(Some(answer), Some(resume)))
  {
    var chunks := Chunks(resume);
    assert chunks == [resume];
    var best := BestChunk(question, chunks);
    assert best == Some(resume) by {
      assert best.Some? && best.value in chunks;
    }
    assert Plan(JsonString(question), chunks) == Call(question, best);
  }
}
