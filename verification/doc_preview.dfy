/** The document preview modal: what it shows for each kind of document,
    the page navigation of the PDF viewer, and the loading/error bracketing
    of a PDF render. */
module DocPreview {
  import opened Wrappers
  import opened Text
  import opened DocumentStore
  import opened OcrWorkspace

  /** The viewer state; `page` is an `int` because the unguarded next-page
      step can leave the range. */
  datatype Preview = Preview(numPages: nat, page: int, loading: bool, error: string)

  const NoPdfData := "No PDF data available."
  const RenderFailed := "Failed to render PDF. It might be corrupted or password protected."

  function Opened(): (s: Preview)
    ensures s.page == 1 && s.numPages == 0 && !s.loading && s.error == []
  {
    Preview(0, 1, false, [])
  }

  // ---------------------------------------------------------------------------
  // Content dispatch

  datatype Content =
    | NoPdfNotice(text: string)
    | PdfViewer
    | ImageView(payload: Option<string>)
    | TextView(text: string)

  /** `renderContent`: PDFs go to the viewer when they have data, images to an
      image element, everything else shows its text. */
  function ViewOf(d: Document): (c: Content)
    ensures c.NoPdfNotice? <==> d.kind == PdfKind && !HasPayload(d)
    ensures c.NoPdfNotice? ==> c.text == NoPdfData
    ensures c.PdfViewer? <==> d.kind == PdfKind && HasPayload(d)
    ensures c.ImageView? <==> d.kind != PdfKind && (d.kind == ImageKind || StartsWith(d.kind, ImageMimePrefix))
    ensures c.ImageView? ==> c.payload == d.base64
    ensures c.TextView? ==> c.text == d.content
  {
    if d.kind == PdfKind then
      if HasPayload(d) then PdfViewer else NoPdfNotice(NoPdfData)
    else if d.kind == ImageKind || StartsWith(d.kind, ImageMimePrefix) then ImageView(d.base64)
    else TextView(d.content)
  }

  /** The preview shows text for exactly the documents the OCR workspace
      does not offer. */
  lemma TextViewIffNotOcr(d: Document)
    ensures ViewOf(d).TextView? <==> !IsOcrKind(d.kind)
  {
  }

  /** The render effect fires only for PDFs with data, which are exactly the
      documents shown in the viewer. */
  predicate RenderWanted(d: Document) {
    d.kind == PdfKind && HasPayload(d)
  }

  lemma RenderWantedIffViewer(d: Document)
    ensures RenderWanted(d) <==> ViewOf(d) == PdfViewer
  {
  }

  // ---------------------------------------------------------------------------
  // Page navigation

  /** `Math.max(1, prev - 1)`. */
  function PrevPage(s: Preview): (r: Preview)
    ensures r.page >= 1 && r.page >= s.page - 1 && r.page <= (if s.page > 1 then s.page - 1 else 1)
    ensures r.(page := s.page) == s
  {
    s.(page := if s.page - 1 > 1 then s.page - 1 else 1)
  }

  /** `Math.min(numPages, prev + 1)`. */
  function NextPage(s: Preview): (r: Preview)
    ensures r.page <= s.numPages && r.page <= s.page + 1
    ensures r.page == s.page + 1 || r.page == s.numPages
    ensures r.(page := s.page) == s
  {
    s.(page := if s.page + 1 < s.numPages then s.page + 1 else s.numPages)
  }

  predicate PrevEnabled(s: Preview) {
    !(s.page <= 1)
  }

  predicate NextEnabled(s: Preview) {
    !(s.page >= s.numPages)
  }

  /** The page is a real page, or page 1 before the page count is known. */
  predicate PageInRange(s: Preview) {
    1 <= s.page && (s.numPages >= 1 ==> s.page <= s.numPages)
  }

  /** The enabled buttons keep the page in range and move it by one. */
  lemma NavigationKeepsRange(s: Preview)
    requires PageInRange(s)
    ensures PrevEnabled(s) ==> PageInRange(PrevPage(s)) && PrevPage(s).page == s.page - 1
    ensures NextEnabled(s) ==> PageInRange(NextPage(s)) && NextPage(s).page == s.page + 1
  {
  }

  /** The previous-page step is safe even without its guard; the next-page
      step is not: before the page count is known it would go to page 0. */
  lemma NextNeedsItsGuard()
    ensures PageInRange(PrevPage(Opened()))
    ensures NextPage(Opened()).page == 0 && !PageInRange(NextPage(Opened()))
    ensures !NextEnabled(Opened())
  {
  }

  // ---------------------------------------------------------------------------
  // Rendering

  /** What pdf.js did: the document failed to load, or it loaded with this
      many pages and the page then failed or rendered. */
  datatype RenderOutcome = LoadFailed | PageFailed(pages: nat) | Rendered(pages: nat)

  /** `renderPdf`: without a mounted canvas or data nothing happens;
      otherwise the error is cleared, the page count recorded once the file
      loads, the fixed message set on failure, and loading ends false. */
  function RenderPdf(s: Preview, d: Document, canvasMounted: bool, outcome: RenderOutcome): (r: Preview)
    ensures !canvasMounted || !HasPayload(d) ==> r == s
    ensures canvasMounted && HasPayload(d) ==> !r.loading && r.page == s.page
    ensures canvasMounted && HasPayload(d) ==> (r.error == [] <==> outcome.Rendered?)
    ensures canvasMounted && HasPayload(d) && !outcome.Rendered? ==> r.error == RenderFailed
    ensures canvasMounted && HasPayload(d) && !outcome.LoadFailed? ==> r.numPages == outcome.pages
    ensures canvasMounted && HasPayload(d) && outcome.LoadFailed? ==> r.numPages == s.numPages
  {
    if !canvasMounted || !HasPayload(d) then s
    else
      var started := s.(loading := true, error := []);
      var done := match outcome
        case LoadFailed => started.(error := RenderFailed)
        case PageFailed(n) => started.(numPages := n, error := RenderFailed)
        case Rendered(n) => started.(numPages := n);
      done.(loading := false)
  }

  /** As written the canvas is in the page only while there is no error, and
      the render returns early without it. */
  predicate CanvasMountedAsWritten(s: Preview, d: Document) {
    RenderWanted(d) && s.error == []
  }

  /** The effect run on every change of document, page or zoom, as written. */
  function RenderEffectAsWritten(s: Preview, d: Document, outcome: RenderOutcome): (r: Preview)
    ensures s.error != [] ==> r == s
    ensures !RenderWanted(d) ==> r == s
  {
    if RenderWanted(d) then RenderPdf(s, d, CanvasMountedAsWritten(s, d), outcome) else s
  }

  /** Once a render has failed, no later page move, zoom change or render
      attempt clears the error, whatever pdf.js would now do. */
  lemma {:induction false} ErrorIsSticky(s: Preview, d: Document, outcomes: seq<RenderOutcome>, moves: seq<Move>)
    requires s.error != [] && |moves| == |outcomes|
    ensures Replay(s, d, outcomes, moves).error == s.error
    decreases |outcomes|
  {
    if |outcomes| > 0 {
      var t := Step(s, moves[0]);
      ErrorIsSticky(RenderEffectAsWritten(t, d, outcomes[0]), d, outcomes[1..], moves[1..]);
    }
  }

  /** What re-runs the render effect: a page button, or a zoom button, which
      changes the scale (not modelled) and leaves the page alone. */
  datatype Move = Back | Forward | Rezoom

  function Step(s: Preview, m: Move): (r: Preview)
    ensures r.error == s.error && r.numPages == s.numPages
    ensures m.Rezoom? ==> r == s
  {
    match m
    case Back => PrevPage(s)
    case Forward => NextPage(s)
    case Rezoom => s
  }

  /** A sequence of moves, each followed by the effect's render. */
  function Replay(s: Preview, d: Document, outcomes: seq<RenderOutcome>, moves: seq<Move>): Preview
    requires |moves| == |outcomes|
    decreases |outcomes|
  {
    if |outcomes| == 0 then s
    else Replay(RenderEffectAsWritten(Step(s, moves[0]), d, outcomes[0]), d, outcomes[1..], moves[1..])
  }

  /** A concrete run: a two-page file loads but its first page fails to
      render; the next-page button is enabled, page 2 would render fine, yet
      the error stays. */
  lemma StickyErrorExample(d: Document)
    requires RenderWanted(d)
    ensures var failed := RenderEffectAsWritten(Opened(), d, PageFailed(2));
      && failed.error == RenderFailed && failed.numPages == 2
      && NextEnabled(failed)
      && var moved := NextPage(failed);
      && moved.page == 2
      && RenderEffectAsWritten(moved, d, Rendered(2)).error == RenderFailed
  {
  }

  /** When the file itself fails to load the page count stays 0, so both
      page buttons are disabled; only a zoom change re-runs the effect, and
      that render cannot clear the error either. */
  lemma FailedLoadStrandsViewer(d: Document, pages: nat)
    requires RenderWanted(d)
    ensures var failed := RenderEffectAsWritten(Opened(), d, LoadFailed);
      && failed.error == RenderFailed && failed.numPages == 0
      && !NextEnabled(failed) && !PrevEnabled(failed)
      && RenderEffectAsWritten(Step(failed, Rezoom), d, Rendered(pages)).error == RenderFailed
  {
  }

  /** Corrected: the canvas stays mounted (the error is drawn over it), so
      every wanted render runs. */
  function RenderEffect(s: Preview, d: Document, outcome: RenderOutcome): (r: Preview)
    ensures !RenderWanted(d) ==> r == s
    ensures RenderWanted(d) ==> !r.loading && (r.error == [] <==> outcome.Rendered?)
  {
    if RenderWanted(d) then RenderPdf(s, d, true, outcome) else s
  }

  /** With the correction a successful render clears an earlier error. */
  lemma RenderEffectRecovers(s: Preview, d: Document, pages: nat)
    requires RenderWanted(d) && s.error != []
    ensures RenderEffect(s, d, Rendered(pages)).error == []
    ensures RenderEffect(s, d, Rendered(pages)).numPages == pages
  {
  }

  /** The two agree while no error is showing. */
  lemma RenderEffectAgrees(s: Preview, d: Document, outcome: RenderOutcome)
    requires s.error == []
    ensures RenderEffect(s, d, outcome) == RenderEffectAsWritten(s, d, outcome)
  {
  }
}
