/** The model gateway: four calls to a hosted language model.  The network
    call itself is an oracle; what is modelled is how each call turns the
    oracle's outcome into the text it returns or the error it throws. */
module Gateway {
  import opened Wrappers

  /** What the SDK call did: it answered with a response whose `text` may be
      missing, or it threw an error whose `message` may be missing. */
  datatype Outcome = Responded(text: Option<string>) | Threw(message: Option<string>)

  const NoTextDetected := "No text detected."
  const OcrFailed := "Failed to perform OCR. Please check your API Key and file content."
  const EmptyJson := "{}"
  const SmartNoteFailed := "Failed to generate Smart Note."
  const NoResponse := "No response generated."
  const AnswerFailed := "Failed to get answer from AI."
  const NoAnalysis := "No analysis generated."
  const AnalysisFailed := "Failed to analyze text."

  /** `text || fallback`: a missing or empty string falls back. */
  function OrElse(text: Option<string>, fallback: string): (r: string)
    ensures text.Some? && text.value != [] ==> r == text.value
    ensures text.None? || text.value == [] ==> r == fallback
  {
    if text.Some? && text.value != [] then text.value else fallback
  }

  /** `performOCR`: the recognised text, a fixed notice when the model said
      nothing, a fixed error when the call failed. */
  function OcrResult(o: Outcome): (r: Result<string>)
    ensures r.Ok? <==> o.Responded?
    ensures r.Ok? ==> r.value != [] && r.value == OrElse(o.text, NoTextDetected)
    ensures r.Err? ==> r.msg == OcrFailed
  {
    match o
    case Responded(t) => Ok(OrElse(t, NoTextDetected))
    case Threw(_) => Err(OcrFailed)
  }

  /** `generateSmartNote`: the response text (or `{}` when empty) handed to
      `JSON.parse`; a parse failure is reported like a failed call. */
  function SmartNoteResult<T>(o: Outcome, parse: string -> Option<T>): (r: Result<T>)
    ensures r.Ok? <==> o.Responded? && parse(OrElse(o.text, EmptyJson)).Some?
    ensures r.Ok? ==> parse(OrElse(o.text, EmptyJson)) == Some(r.value)
    ensures r.Err? ==> r.msg == SmartNoteFailed
  {
    match o
    case Threw(_) => Err(SmartNoteFailed)
    case Responded(t) =>
      match parse(OrElse(t, EmptyJson))
      case Some(data) => Ok(data)
      case None => Err(SmartNoteFailed)
  }

  /** `askDocumentQuestion`: like the others, except that a failure passes
      the thrown message on when it has one. */
  function AnswerResult(o: Outcome): (r: Result<string>)
    ensures r.Ok? <==> o.Responded?
    ensures r.Ok? ==> r.value != [] && r.value == OrElse(o.text, NoResponse)
    ensures r.Err? ==> r.msg != [] && r.msg == OrElse(o.message, AnswerFailed)
  {
    match o
    case Responded(t) => Ok(OrElse(t, NoResponse))
    case Threw(m) => Err(OrElse(m, AnswerFailed))
  }

  /** `analyzeDocumentText`. */
  function AnalysisResult(o: Outcome): (r: Result<string>)
    ensures r.Ok? <==> o.Responded?
    ensures r.Ok? ==> r.value != [] && r.value == OrElse(o.text, NoAnalysis)
    ensures r.Err? ==> r.msg == AnalysisFailed
  {
    match o
    case Responded(t) => Ok(OrElse(t, NoAnalysis))
    case Threw(_) => Err(AnalysisFailed)
  }

  /** Every call's error message is non-empty, so the shell always has
      something to show. */
  lemma ErrorsAreNonEmpty<T>(o: Outcome, parse: string -> Option<T>)
    ensures OcrResult(o).Err? ==> OcrResult(o).msg != []
    ensures SmartNoteResult(o, parse).Err? ==> SmartNoteResult(o, parse).msg != []
    ensures AnswerResult(o).Err? ==> AnswerResult(o).msg != []
    ensures AnalysisResult(o).Err? ==> AnalysisResult(o).msg != []
  {
  }
}
