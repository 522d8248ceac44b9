/** The OCR workspace: it picks an image or PDF document, sends it to the
    recogniser, stores the text, and runs an analysis agent on that text.
    Each handler is one atomic transition over the workspace state together
    with the shell's document store and notice slot. */
module OcrWorkspace {
  import opened Wrappers
  import opened Text
  import opened DocumentStore
  import opened Gateway

  datatype Tab = OcrTab | AgentTab
  datatype ViewMode = Markdown | RawText

  /** `selected` is the selected id, `None` for `null`. `notice` is the
      shell's error message slot that `onError` fills. */
  datatype Workspace = Workspace(
    docs: seq<Document>,
    selected: Option<string>,
    tab: Tab,
    view: ViewMode,
    processing: bool,
    analyzing: bool,
    agentResult: string,
    notice: Option<string>)

  const PngMime := "image/png"
  const NoTextForAgent := "No text content available. Run OCR first."

  /** The state the component mounts with. */
  function Initial(docs: seq<Document>): (w: Workspace)
    ensures w.docs == docs && w.selected == None && !w.processing && !w.analyzing
  {
    Workspace(docs, None, OcrTab, Markdown, false, false, [], None)
  }

  /** Images (by kind or by an `image/` type) and PDFs can be recognised. */
  predicate IsOcrKind(kind: string) {
    kind == ImageKind || StartsWith(kind, ImageMimePrefix) || kind == PdfKind
  }

  /** The documents offered for recognition, in store order. */
  function OcrDocs(docs: seq<Document>): (r: seq<Document>)
    ensures forall d :: d in r <==> d in docs && IsOcrKind(d.kind)
    ensures |r| <= |docs|
  {
    if |docs| == 0 then []
    else
      var rest := OcrDocs(docs[1..]);
      assert forall d :: d in docs <==> d == docs[0] || d in docs[1..];
      if IsOcrKind(docs[0].kind) then [docs[0]] + rest else rest
  }

  /** The filter works piecewise, so the list keeps the store's order. */
  lemma {:induction false} OcrDocsAppend(a: seq<Document>, b: seq<Document>)
    ensures OcrDocs(a + b) == OcrDocs(a) + OcrDocs(b)
  {
    if |a| > 0 {
      assert (a + b)[1..] == a[1..] + b;
      OcrDocsAppend(a[1..], b);
    } else {
      assert a + b == b;
    }
  }

  /** An uploaded file is offered for recognition exactly when it was read
      as a data URL, that is, when it is an image or a PDF. */
  lemma UploadIsOcrDoc(l: Loaded)
    ensures IsOcrKind(Record(l).kind) <==> ReadsAsDataUrl(l.file.mime)
  {
    var k := Record(l).kind;
    if !ReadsAsDataUrl(l.file.mime) {
      assert k == TextKind;
      assert !StartsWith(k, ImageMimePrefix) by {
        assert |k| < |ImageMimePrefix|;
      }
    }
  }

  /** A pasted document is never offered for recognition. */
  lemma PasteIsNotOcrDoc(value: string, now: nat, iso: string)
    ensures !IsOcrKind(PastedDoc(value, now, iso).kind)
  {
    var k := PastedDoc(value, now, iso).kind;
    assert !StartsWith(k, ImageMimePrefix) by {
      assert |k| < |ImageMimePrefix|;
    }
  }

  /** `selectedDocId` as a condition: `null` and the empty id are both false. */
  predicate HasSelection(w: Workspace) {
    w.selected.Some? && w.selected.value != []
  }

  /** `documents.find(d => d.id === selectedDocId)`. */
  function ActiveDoc(w: Workspace): (r: Option<Document>)
    ensures w.selected.None? ==> r.None?
    ensures w.selected.Some? ==> r == Find(w.docs, w.selected.value)
  {
    if w.selected.None? then None else Find(w.docs, w.selected.value)
  }

  /** The effect that runs whenever the documents change: with nothing
      selected, the first recognisable document becomes the selection. */
  function SyncSelection(w: Workspace): (r: Workspace)
    ensures r.(selected := w.selected) == w
    ensures HasSelection(w) ==> r == w
    ensures !HasSelection(w) && |OcrDocs(w.docs)| > 0 ==> r.selected == Some(OcrDocs(w.docs)[0].id)
    ensures !HasSelection(w) && |OcrDocs(w.docs)| == 0 ==> r == w
  {
    var candidates := OcrDocs(w.docs);
    if !HasSelection(w) && |candidates| > 0 then w.(selected := Some(candidates[0].id)) else w
  }

  /** A selection survives the removal of its document: nothing clears it,
      and the active document is then absent. */
  lemma SelectionOutlivesRemoval(w: Workspace, id: string)
    requires w.selected == Some(id) && id != []
    ensures SyncSelection(w.(docs := Remove(w.docs, id))).selected == Some(id)
    ensures ActiveDoc(SyncSelection(w.(docs := Remove(w.docs, id)))).None?
  {
  }

  /** Clicking a document in the list selects it. */
  function Select(w: Workspace, i: nat): (r: Workspace)
    requires i < |OcrDocs(w.docs)|
    ensures r.(selected := w.selected) == w
    ensures ActiveDoc(r) == Find(w.docs, OcrDocs(w.docs)[i].id)
    ensures ActiveDoc(r).Some?
  {
    var d := OcrDocs(w.docs)[i];
    assert d in w.docs;
    assert d.id in Ids(w.docs) by {
      var j :| 0 <= j < |w.docs| && w.docs[j] == d;
      assert Ids(w.docs)[j] == d.id;
    }
    w.(selected := Some(d.id))
  }

  // ---------------------------------------------------------------------------
  // Recognition

  /** `base64` as a condition: absent and empty are both false. */
  predicate HasPayload(d: Document) {
    d.base64.Some? && d.base64.value != []
  }

  /** The MIME type sent with the payload. */
  function OcrMime(d: Document): (m: string)
    ensures m == PdfMime <==> d.kind == PdfKind
    ensures m == PngMime <==> d.kind != PdfKind
  {
    if d.kind == PdfKind then PdfMime else PngMime
  }

  /** What the recogniser is asked: the raw base64 payload and its type. */
  datatype OcrRequest = OcrRequest(payload: string, mime: string)

  /** The first half of `handleRunOCR`: either nothing happens, or the
      workspace is marked busy and a request for the captured document goes
      out. */
  datatype OcrStart = OcrSkipped | OcrSent(busy: Workspace, doc: Document, request: OcrRequest)

  function StartOcr(w: Workspace): (s: OcrStart)
    ensures s.OcrSkipped? <==> ActiveDoc(w).None? || !HasPayload(ActiveDoc(w).value)
    ensures s.OcrSent? ==> s.doc == ActiveDoc(w).value && s.busy == w.(processing := true)
    ensures s.OcrSent? ==> s.request == OcrRequest(s.doc.base64.value, OcrMime(s.doc))
  {
    var a := ActiveDoc(w);
    if a.None? || !HasPayload(a.value) then OcrSkipped
    else OcrSent(w.(processing := true), a.value, OcrRequest(a.value.base64.value, OcrMime(a.value)))
  }

  /** The second half: the reply lands on the captured document. */
  function FinishOcr(busy: Workspace, doc: Document, reply: Result<string>): (r: Workspace)
    ensures !r.processing
    ensures reply.Ok? ==> r == busy.(docs := Update(busy.docs, doc.(content := reply.value)),
                                     tab := OcrTab, view := Markdown, processing := false)
    ensures reply.Err? ==> r == busy.(notice := Some(reply.msg), processing := false)
  {
    match reply
    case Ok(text) =>
      busy.(docs := Update(busy.docs, doc.(content := text)), tab := OcrTab, view := Markdown, processing := false)
    case Err(msg) => busy.(notice := Some(msg), processing := false)
  }

  /** `handleRunOCR` as one step, the recogniser's outcome given. */
  function RunOcr(w: Workspace, outcome: Outcome): (r: Workspace)
    ensures ActiveDoc(w).None? || !HasPayload(ActiveDoc(w).value) ==> r == w
    ensures !r.processing || r == w
  {
    match StartOcr(w)
    case OcrSkipped => w
    case OcrSent(busy, doc, _) => FinishOcr(busy, doc, OcrResult(outcome))
  }

  /** A successful recognition replaces only the active document's content:
      every other field and every other record is untouched. */
  lemma RunOcrSuccess(w: Workspace, text: Option<string>)
    requires ActiveDoc(w).Some? && HasPayload(ActiveDoc(w).value)
    ensures var a := ActiveDoc(w).value;
      var r := RunOcr(w, Responded(text));
      && |r.docs| == |w.docs|
      && (forall i :: 0 <= i < |w.docs| && w.docs[i].id != a.id ==> r.docs[i] == w.docs[i])
      && (forall i :: 0 <= i < |w.docs| && w.docs[i].id == a.id ==>
            r.docs[i] == a.(content := OrElse(text, NoTextDetected)))
      && r.tab == OcrTab && r.view == Markdown && !r.processing
      && r.selected == w.selected && r.notice == w.notice && r.agentResult == w.agentResult
  {
  }

  /** A failed recognition forwards the fixed message and keeps the
      documents. */
  lemma RunOcrFailure(w: Workspace, message: Option<string>)
    requires ActiveDoc(w).Some? && HasPayload(ActiveDoc(w).value)
    ensures RunOcr(w, Threw(message)) == w.(notice := Some(OcrFailed), processing := false)
  {
  }

  /** After a successful recognition the agent has text to work on. */
  lemma RunOcrEnablesAgent(w: Workspace, text: Option<string>)
    requires ActiveDoc(w).Some? && HasPayload(ActiveDoc(w).value)
    ensures var r := RunOcr(w, Responded(text));
      ActiveDoc(r).Some? && ActiveDoc(r).value.content != []
  {
    var a := ActiveDoc(w).value;
    var updated := a.(content := OrElse(text, NoTextDetected));
    assert w.selected == Some(a.id);
    UpdateThenFind(w.docs, updated);
  }

  /** The Run OCR button is disabled while busy or with no active document. */
  predicate OcrButtonEnabled(w: Workspace) {
    !w.processing && ActiveDoc(w).Some?
  }

  /** The button is off while a recognition runs; without an active document
      it is off too, and a click would change nothing anyway. An enabled
      button on a document with data sends the request. */
  lemma OcrButtonGuard(w: Workspace, outcome: Outcome)
    ensures w.processing ==> !OcrButtonEnabled(w)
    ensures ActiveDoc(w).None? ==> !OcrButtonEnabled(w) && RunOcr(w, outcome) == w
    ensures OcrButtonEnabled(w) && HasPayload(ActiveDoc(w).value) ==> StartOcr(w).OcrSent?
  {
  }

  // ---------------------------------------------------------------------------
  // Analysis agent

  /** What the agent is asked: the active document's text and the prompt. */
  datatype AgentRequest = AgentRequest(text: string, prompt: string)

  datatype AgentStart = AgentRefused(refused: Workspace) | AgentSent(busy: Workspace, request: AgentRequest)

  /** The first half of `handleRunAgent`. */
  function StartAgent(w: Workspace, prompt: string): (s: AgentStart)
    ensures s.AgentRefused? <==> ActiveDoc(w).None? || ActiveDoc(w).value.content == []
    ensures s.AgentRefused? ==> s.refused == w.(notice := Some(NoTextForAgent))
    ensures s.AgentSent? ==> s.busy == w.(analyzing := true)
    ensures s.AgentSent? ==> s.request == AgentRequest(ActiveDoc(w).value.content, prompt)
  {
    var a := ActiveDoc(w);
    if a.None? || a.value.content == [] then AgentRefused(w.(notice := Some(NoTextForAgent)))
    else AgentSent(w.(analyzing := true), AgentRequest(a.value.content, prompt))
  }

  function FinishAgent(busy: Workspace, reply: Result<string>): (r: Workspace)
    ensures !r.analyzing && r.docs == busy.docs
    ensures reply.Ok? ==> r == busy.(agentResult := reply.value, analyzing := false)
    ensures reply.Err? ==> r == busy.(notice := Some(reply.msg), analyzing := false)
  {
    match reply
    case Ok(result) => busy.(agentResult := result, analyzing := false)
    case Err(msg) => busy.(notice := Some(msg), analyzing := false)
  }

  /** `handleRunAgent` as one step. */
  function RunAgent(w: Workspace, prompt: string, outcome: Outcome): (r: Workspace)
    ensures r.docs == w.docs && r.selected == w.selected && r.processing == w.processing
  {
    match StartAgent(w, prompt)
    case AgentRefused(refused) => refused
    case AgentSent(busy, _) => FinishAgent(busy, AnalysisResult(outcome))
  }

  /** Without text the agent reports the fixed notice and sends nothing; with
      text, success stores the result and failure the fixed message. */
  lemma RunAgentCases(w: Workspace, prompt: string, outcome: Outcome)
    ensures ActiveDoc(w).None? || ActiveDoc(w).value.content == [] ==>
      RunAgent(w, prompt, outcome) == w.(notice := Some(NoTextForAgent))
    ensures ActiveDoc(w).Some? && ActiveDoc(w).value.content != [] && outcome.Responded? ==>
      RunAgent(w, prompt, outcome) == w.(agentResult := OrElse(outcome.text, NoAnalysis), analyzing := false)
    ensures ActiveDoc(w).Some? && ActiveDoc(w).value.content != [] && outcome.Threw? ==>
      RunAgent(w, prompt, outcome) == w.(notice := Some(AnalysisFailed), analyzing := false)
  {
  }

  /** The "run agent" shortcut on the OCR tab switches to the agent tab and
      then runs the agent. */
  function RunAgentFromOcrTab(w: Workspace, prompt: string, outcome: Outcome): (r: Workspace)
    ensures r.tab == AgentTab
    ensures r.docs == w.docs && r.selected == w.selected
    ensures r.(tab := w.tab) == RunAgent(w, prompt, outcome)
  {
    RunAgent(w.(tab := AgentTab), prompt, outcome)
  }

  /** The agent button is disabled only while the agent runs. */
  predicate AgentButtonEnabled(w: Workspace) {
    !w.analyzing
  }

  /** The button is off only while the agent runs: with no recognised text
      it stays on, and a click reports the fixed notice. */
  lemma AgentButtonGuard(w: Workspace, prompt: string, outcome: Outcome)
    ensures w.analyzing ==> !AgentButtonEnabled(w)
    ensures !w.analyzing && (ActiveDoc(w).None? || ActiveDoc(w).value.content == []) ==>
      AgentButtonEnabled(w) && RunAgent(w, prompt, outcome) == w.(notice := Some(NoTextForAgent))
  {
  }

  // ---------------------------------------------------------------------------
  // Editing the recognised text

  /** Typing in the raw editor rewrites the active document's content. */
  function EditContent(w: Workspace, content: string): (r: Workspace)
    ensures ActiveDoc(w).None? ==> r == w
    ensures ActiveDoc(w).Some? ==> r == w.(docs := Update(w.docs, ActiveDoc(w).value.(content := content)))
  {
    match ActiveDoc(w)
    case None => w
    case Some(a) => w.(docs := Update(w.docs, a.(content := content)))
  }

  /** After an edit the active document holds exactly the typed text. */
  lemma EditContentShows(w: Workspace, content: string)
    requires ActiveDoc(w).Some?
    ensures ActiveDoc(EditContent(w, content)) == Some(ActiveDoc(w).value.(content := content))
  {
    var a := ActiveDoc(w).value;
    UpdateThenFind(w.docs, a.(content := content));
  }
}
