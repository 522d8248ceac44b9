/** The document question-and-answer view: one question at a time about the
    combined text of every loaded document. */
module DocQna {
  import opened Wrappers
  import opened Text
  import opened DocumentStore
  import opened Gateway

  /** The view's state; `notice` is the error message slot `onError` fills. */
  datatype Qna = Qna(question: string, answer: string, loading: bool, notice: Option<string>)

  const NoContent := "No document content available. Please upload and process documents first."

  /** What the model is asked. */
  datatype QuestionRequest = QuestionRequest(docText: string, question: string)

  /** The first half of `handleAsk`: refused with a notice, ignored silently,
      or sent with the view marked busy. */
  datatype AskStart = AskRefused(refused: Qna) | AskIgnored | AskSent(busy: Qna, request: QuestionRequest)

  function StartAsk(q: Qna, combined: string): (s: AskStart)
    ensures s.AskRefused? <==> combined == []
    ensures s.AskRefused? ==> s.refused == q.(notice := Some(NoContent))
    ensures s.AskIgnored? <==> combined != [] && IsBlank(q.question)
    ensures s.AskSent? ==> s.busy == q.(loading := true, answer := [])
    ensures s.AskSent? ==> s.request == QuestionRequest(combined, q.question)
  {
    if combined == [] then AskRefused(q.(notice := Some(NoContent)))
    else if Trim(q.question) == [] then AskIgnored
    else AskSent(q.(loading := true, answer := []), QuestionRequest(combined, q.question))
  }

  function FinishAsk(busy: Qna, reply: Result<string>): (r: Qna)
    ensures !r.loading && r.question == busy.question
    ensures reply.Ok? ==> r == busy.(answer := reply.value, loading := false)
    ensures reply.Err? ==> r == busy.(notice := Some(reply.msg), loading := false)
  {
    match reply
    case Ok(a) => busy.(answer := a, loading := false)
    case Err(m) => busy.(notice := Some(m), loading := false)
  }

  /** `handleAsk` as one step, the model's outcome given. */
  function Ask(q: Qna, combined: string, outcome: Outcome): (r: Qna)
    ensures r.question == q.question
  {
    match StartAsk(q, combined)
    case AskRefused(refused) => refused
    case AskIgnored => q
    case AskSent(busy, _) => FinishAsk(busy, AnswerResult(outcome))
  }

  /** The checks run in order: missing content is reported even for a blank
      question, a blank question is then ignored without a notice, and only
      then is the model asked; the answer is cleared first, so a failure
      leaves it empty. */
  lemma AskCases(q: Qna, combined: string, outcome: Outcome)
    ensures combined == [] ==> Ask(q, combined, outcome) == q.(notice := Some(NoContent))
    ensures combined != [] && IsBlank(q.question) ==> Ask(q, combined, outcome) == q
    ensures combined != [] && !IsBlank(q.question) && outcome.Responded? ==>
      Ask(q, combined, outcome) == q.(answer := OrElse(outcome.text, NoResponse), loading := false)
    ensures combined != [] && !IsBlank(q.question) && outcome.Threw? ==>
      Ask(q, combined, outcome) == q.(answer := [], notice := Some(OrElse(outcome.message, AnswerFailed)), loading := false)
  {
  }

  /** A request that went out always ends with `loading` false, and a
      success always leaves a non-empty answer. */
  lemma AskEndsIdle(q: Qna, combined: string, outcome: Outcome)
    requires combined != [] && !IsBlank(q.question)
    ensures !Ask(q, combined, outcome).loading
    ensures outcome.Responded? ==> Ask(q, combined, outcome).answer != []
  {
  }

  /** Asked from the shell: the content check fails exactly for an empty
      store or a store holding one empty document. */
  lemma AskRefusedIff(q: Qna, docs: seq<Document>, outcome: Outcome)
    ensures StartAsk(q, CombinedText(docs)).AskRefused? <==>
      |docs| == 0 || (|docs| == 1 && docs[0].content == [])
  {
    CombinedTextEmptyIff(docs);
  }

  /** The send button is disabled while loading or with a blank question. */
  predicate SendEnabled(q: Qna) {
    !q.loading && !IsBlank(q.question)
  }

  /** When idle and there is text to ask about, the button is on exactly
      when a click sends the question. Without any text it can still be on,
      and a click reports the missing content. */
  lemma SendGuard(q: Qna, combined: string)
    ensures !q.loading && combined != [] ==> (SendEnabled(q) <==> StartAsk(q, combined).AskSent?)
    ensures combined == [] ==> StartAsk(q, combined).AskRefused?
  {
  }

  datatype KeyPress = KeyPress(key: string, shift: bool)

  const EnterKey := "Enter"

  /** Enter without Shift submits; any other key does nothing here. */
  function KeyDown(q: Qna, combined: string, k: KeyPress, outcome: Outcome): (r: Qna)
    ensures k.key == EnterKey && !k.shift ==> r == Ask(q, combined, outcome)
    ensures k.key != EnterKey || k.shift ==> r == q
  {
    if k.key == EnterKey && !k.shift then Ask(q, combined, outcome) else q
  }

  /** The keyboard path has no loading guard: Enter sends a second question
      while the first is still loading, which the disabled button would not. */
  lemma EnterBypassesLoadingGuard(q: Qna, combined: string, outcome: Outcome)
    requires q.loading && combined != [] && !IsBlank(q.question)
    ensures !SendEnabled(q)
    ensures StartAsk(q, combined).AskSent?
    ensures KeyDown(q, combined, KeyPress(EnterKey, false), outcome) == Ask(q, combined, outcome)
  {
  }
}
