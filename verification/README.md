# Word analyzer workbench — a Dafny model of its core

The workbench is a browser application that loads documents (uploaded files
and pasted text) into one shared store and offers several views over them:
an OCR workspace that sends images and PDFs to a hosted language model and
stores the recognised text, an analysis agent that works on that text, a
smart-note view that turns text into a structured JSON note, a
question-and-answer view over the combined text of all documents, a
preview modal with a paged PDF viewer, and a word-frequency chart.

This project models that core as pure Dafny functions over immutable
datatypes, one module per component:

- `Text` — the JavaScript string operations the handlers use: `trim`,
  ASCII `toLowerCase`, `split` on a character, `split(/\s+/)`, `join`,
  `Number.prototype.toString` for natural numbers.
- `Gateway` — the four model calls (`performOCR`, `generateSmartNote`,
  `askDocumentQuestion`, `analyzeDocumentText`). The network call is an
  oracle (`Outcome`: a response whose text may be missing, or a thrown error
  whose message may be missing); the model states how each call turns it
  into a result or an error.
- `DocumentStore` — the shell's document list: upload (one reader
  completion, or several in arrival order), paste, update by id, remove by
  id, lookup, and the combined text.
- `OcrWorkspace` — selection, the default-selection effect, `handleRunOCR`,
  `handleRunAgent`, the tab shortcut and the raw-text editor.
- `DocPreview` — what the preview shows for each kind of document, page
  navigation, the `renderPdf` loading/error bracket and the render effect.
- `DocQna` — `handleAsk`, the Enter key handler and the send button guard.
- `SmartNote` — `handleGenerate`, `handleRawUpdate`, and the parsing of the
  follow-up question list.
- `WordGraph` — the `wordData` memo: tokenizer, frequency map,
  `Object.entries` order, the stable sort by count and the top-20 cut,
  specified by the predicate `IsRanking` and proved of the implementation.
- `WordGraphAsWritten` — the frequency map exactly as the chart code builds
  it on a plain object, with its prototype lookup (see Findings).
- `WordGraphExamples` — concrete charts for concrete texts.

Each asynchronous handler is modelled as two halves joined in one step:
a `Start…` function for everything before the `await` (guards, the busy
flag, the request sent) and a `Finish…` function for the settled promise,
so the state between the halves is visible too. Clock readings, random
numbers, ISO timestamps, file contents read by `FileReader`, the model's
replies and the JSON parser/printer are parameters.

## Model

| member | source | states |
|---|---|---|
| Text.Trim | components/DocQnA.tsx:27 | `trim()` yields the text between the leading and trailing white space (ECMAScript white space and line terminators), neither end of the result is white space, and the result is empty exactly when the input is blank |
| Text.LowerIdempotent | components/WordGraph.tsx:17 | lower-casing an already lower-cased text changes nothing |
| Text.Split | App.tsx:64 | `split(c)` gives at least one piece, no piece holds the separator, and joining the pieces with the separator rebuilds the input |
| Text.SplitFirstPiece | App.tsx:64 | the first piece of a split is the text up to the first separator, or all of it when there is none |
| Text.SplitJoin | components/SmartNote.tsx:293 | splitting a join of separator-free parts gives exactly those parts back |
| Text.SplitWs | components/WordGraph.tsx:19 | `split(/\s+/)` gives pieces free of white space, every inner piece non-empty, whose concatenation is exactly the non-space characters of the input in order |
| Text.SplitWsAtRun | components/WordGraph.tsx:19 | a word without white space is a single piece, and a word followed by any non-empty run of white space and then a non-space character (or the end) is cut off as the first piece, the pieces of the rest following |
| Text.NatToString | App.tsx:57 | `Date.now().toString()` is a non-empty digit string without a leading zero |
| Text.NatToStringValue | App.tsx:57 | the digits `toString` writes spell the number itself |
| Gateway.OcrResult | services/geminiService.ts:8-42 | a response always gives a non-empty text (the fixed "No text detected." when the model said nothing); any failure gives the fixed OCR error |
| Gateway.SmartNoteResult | services/geminiService.ts:45-74 | an empty response is parsed as `{}`; success exactly when the call answered and the text parses; a parse failure is reported like a failed call |
| Gateway.AnswerResult | services/geminiService.ts:77-107 | success gives a non-empty answer; a failure passes the thrown message on when it has one and the fixed message otherwise |
| Gateway.AnalysisResult | services/geminiService.ts:110-137 | success gives a non-empty analysis; any failure gives the fixed message |
| Gateway.ErrorsAreNonEmpty | services/geminiService.ts:41-136 | every error any of the four calls throws has a non-empty message |
| DocumentStore.KindOf | App.tsx:49-59 | the record type is "image" exactly for `image/` MIME types, "pdf" exactly for `application/pdf`, and "text" exactly for files read as text |
| DocumentStore.DataUrlPayload | App.tsx:64 | `split(',')[1]` is missing exactly when there is no comma; otherwise it is exactly the text after the first comma, up to the next comma or the end |
| DocumentStore.DataUrlPayloadOfPair | App.tsx:64 | a data URL `header,payload` yields its payload |
| DocumentStore.NewUpload | App.tsx:56-66 | an image or PDF record has empty content and the data URL's payload; a text record has the file's text and no payload |
| DocumentStore.Upload | App.tsx:67 | one reader completion appends the new record and keeps every earlier record in place |
| DocumentStore.UploadAll | App.tsx:44-75 | several completions append their records in arrival order after the untouched store |
| DocumentStore.UploadIdNotPaste | App.tsx:57 | an upload id starts with a digit, so it never starts with "paste-" |
| DocumentStore.UploadId | App.tsx:57 | the id `Date.now().toString() + Math.random()` is non-empty and starts with a digit |
| DocumentStore.Update | App.tsx:78-80 | the records with the updated id are replaced, every other record is untouched, the length is kept |
| DocumentStore.UpdateKeepsIds | App.tsx:78-80 | an update never changes the list of ids |
| DocumentStore.UpdateUnknownIsNoop | App.tsx:78-80 | an update for an id not in the store changes nothing |
| DocumentStore.UpdateIdempotent | App.tsx:78-80 | applying an update twice equals applying it once |
| DocumentStore.UpdateThenFind | App.tsx:78-80 | after an update of a stored id, a lookup returns the updated record |
| DocumentStore.Remove | App.tsx:234 | the removed id is gone and exactly the records with other ids remain |
| DocumentStore.RemoveAppend | App.tsx:234 | removal works piecewise over concatenation, so survivors keep their order |
| DocumentStore.RemoveUnknownIsNoop | App.tsx:234 | removing an id that is not stored changes nothing |
| DocumentStore.RemoveUndoesUpload | App.tsx:234 | removing a freshly uploaded record with a new id restores the store exactly |
| DocumentStore.Find | components/OCRWorkspace.tsx:42 | the lookup fails exactly when the id is absent, and otherwise returns the first record with that id |
| DocumentStore.PastedDoc | App.tsx:195-201 | a pasted record has a "paste-" id, type "text", the pasted text as content and no payload |
| DocumentStore.Paste | App.tsx:193-203 | text of ten characters or fewer changes nothing; longer text drops every earlier paste, keeps the other records in order and appends the new paste |
| DocumentStore.PasteLeavesOne | App.tsx:202 | after a stored paste exactly one paste record exists |
| DocumentStore.PasteKeepsOthers | App.tsx:202 | a paste never changes the non-paste records or their order |
| DocumentStore.PasteKeepsUploads | App.tsx:202 | no uploaded record is ever removed by a paste |
| DocumentStore.CombinedTextAppend | App.tsx:90 | adding a document to a non-empty store extends the combined text by a blank line and its content |
| DocumentStore.CombinedText | App.tsx:90 | no documents give the empty text and one document gives its own content (longer stores by `DocumentStore.CombinedTextAppend`) |
| DocumentStore.CombinedTextEmptyIff | App.tsx:90 | the combined text is empty exactly for an empty store or a store holding one empty document |
| OcrWorkspace.Initial | components/OCRWorkspace.tsx:26-38 | the workspace mounts with no selection and neither recognition nor analysis running |
| OcrWorkspace.OcrDocs | components/OCRWorkspace.tsx:44 | the offered documents are exactly the stored images (by type or `image/` MIME) and PDFs |
| OcrWorkspace.OcrDocsAppend | components/OCRWorkspace.tsx:44 | the filter works piecewise, so the list keeps store order |
| OcrWorkspace.UploadIsOcrDoc | components/OCRWorkspace.tsx:44 | an uploaded file is offered for recognition exactly when it was read as a data URL |
| OcrWorkspace.PasteIsNotOcrDoc | components/OCRWorkspace.tsx:44 | a pasted document is never offered for recognition |
| OcrWorkspace.ActiveDoc | components/OCRWorkspace.tsx:42 | the active document is the first record with the selected id, none without a selection |
| OcrWorkspace.SyncSelection | components/OCRWorkspace.tsx:46-50 | with no (or an empty) selection the first offered document becomes selected; an existing selection and every other field stay |
| OcrWorkspace.SelectionOutlivesRemoval | components/OCRWorkspace.tsx:46-50 | removing the selected document leaves the selection in place and no active document |
| OcrWorkspace.Select | components/OCRWorkspace.tsx:178 | clicking an offered document makes it the active document; nothing else changes |
| OcrWorkspace.OcrMime | components/OCRWorkspace.tsx:88 | PDFs are sent as `application/pdf`, everything else as `image/png` |
| OcrWorkspace.StartOcr | components/OCRWorkspace.tsx:84-89 | nothing happens exactly when there is no active document or it has no payload; otherwise the workspace is busy and the payload goes out with its MIME type |
| OcrWorkspace.FinishOcr | components/OCRWorkspace.tsx:90-97 | the reply lands on the document captured at the start; success shows it on the OCR tab in markdown, failure reports the message; busy ends either way |
| OcrWorkspace.RunOcr | components/OCRWorkspace.tsx:83-98 | a skipped run changes nothing and a run that went out never stays busy |
| OcrWorkspace.OcrButtonGuard | components/OCRWorkspace.tsx:148 | `OcrButtonEnabled`: off while recognising and without an active document, where a click would change nothing; on for a document with data, where a click sends the request |
| OcrWorkspace.RunOcrSuccess | components/OCRWorkspace.tsx:89-92 | a successful recognition replaces only the active document's content; other records, the selection, the notice and the agent result are untouched |
| OcrWorkspace.RunOcrFailure | components/OCRWorkspace.tsx:93-97 | a failed recognition reports the fixed message and leaves the documents untouched |
| OcrWorkspace.RunOcrEnablesAgent | components/OCRWorkspace.tsx:90 | after a successful recognition the active document has non-empty content, so the agent will run |
| OcrWorkspace.StartAgent | components/OCRWorkspace.tsx:101-108 | the agent refuses with the fixed notice exactly when there is no active document or it has no content; otherwise it sends that content with the prompt |
| OcrWorkspace.FinishAgent | components/OCRWorkspace.tsx:109-114 | success stores the result, failure reports the message; the documents never change and analysis ends |
| OcrWorkspace.RunAgent | components/OCRWorkspace.tsx:100-115 | the agent never touches the documents, the selection or the recognition flag |
| OcrWorkspace.RunAgentCases | components/OCRWorkspace.tsx:100-115 | the three outcomes: refusal without text, the result (or the fixed fallback) on success, the fixed message on failure |
| OcrWorkspace.RunAgentFromOcrTab | components/OCRWorkspace.tsx:247 | the shortcut always ends on the agent tab, never touches the documents or the selection, and apart from the tab does exactly what running the agent does |
| OcrWorkspace.AgentButtonGuard | components/OCRWorkspace.tsx:302 | `AgentButtonEnabled`: off only while the agent runs; with no recognised text it is on, and a click reports the fixed notice |
| OcrWorkspace.EditContent | components/OCRWorkspace.tsx:257 | typing without an active document does nothing; otherwise it updates that document's content in the store |
| OcrWorkspace.EditContentShows | components/OCRWorkspace.tsx:257 | after an edit the active document holds exactly the typed text |
| DocPreview.Opened | components/DocPreviewModal.tsx:17-21 | the modal opens on page 1 with an unknown page count, not loading and no error |
| DocPreview.ViewOf | components/DocPreviewModal.tsx:70-133 | PDFs with data get the viewer and without data the fixed notice; images (by type or MIME) get an image of the payload; everything else shows its text |
| DocPreview.TextViewIffNotOcr | components/DocPreviewModal.tsx:120-133 | the preview shows plain text exactly for the documents the OCR workspace does not offer |
| DocPreview.RenderWantedIffViewer | components/DocPreviewModal.tsx:23-26 | the render effect fires exactly for the documents shown in the PDF viewer |
| DocPreview.PrevPage | components/DocPreviewModal.tsx:79 | the previous page is never below 1 and at most one page back; nothing else changes |
| DocPreview.NextPage | components/DocPreviewModal.tsx:87 | the next page is one further, capped at the page count; nothing else changes |
| DocPreview.NavigationKeepsRange | components/DocPreviewModal.tsx:78-92 | the enabled buttons keep the page within the document and move it by exactly one |
| DocPreview.NextNeedsItsGuard | components/DocPreviewModal.tsx:87-88 | without its disabled guard the next button would move a freshly opened viewer to page 0; the previous step is safe unguarded |
| DocPreview.RenderPdf | components/DocPreviewModal.tsx:29-68 | without a canvas or data nothing happens; otherwise loading ends false, the error is empty exactly when the render succeeded, and the page count is recorded once the file loaded |
| DocPreview.RenderEffectAsWritten | components/DocPreviewModal.tsx:23-27 | while an error is shown, the effect changes nothing |
| DocPreview.ErrorIsSticky | components/DocPreviewModal.tsx:112-116 | after one failed render, no sequence of page moves, zoom changes and render attempts clears the error |
| DocPreview.StickyErrorExample | components/DocPreviewModal.tsx:30 | a two-page file whose first page fails to render: next-page is enabled, page 2 would render, yet the error stays |
| DocPreview.FailedLoadStrandsViewer | components/DocPreviewModal.tsx:78-90 | after a failed load the page count is 0 and both page buttons are disabled; the render a zoom change triggers keeps the error too |
| DocPreview.RenderEffect | components/DocPreviewModal.tsx:23-27 | with the canvas kept mounted every wanted render ends idle with an error exactly when it failed |
| DocPreview.RenderEffectRecovers | components/DocPreviewModal.tsx:29-68 | with the canvas kept mounted a successful render clears an earlier error and records the page count |
| DocPreview.RenderEffectAgrees | components/DocPreviewModal.tsx:23-27 | while no error is shown the corrected effect is the effect as written |
| DocQna.StartAsk | components/DocQnA.tsx:22-31 | missing content is refused with the fixed notice whatever the question; a blank question is ignored silently; otherwise the view is busy with the answer cleared and the combined text goes out with the question |
| DocQna.FinishAsk | components/DocQnA.tsx:32-39 | success shows the answer, failure reports the message; loading ends and the question stays |
| DocQna.Ask | components/DocQnA.tsx:22-40 | asking never changes the question |
| DocQna.AskCases | components/DocQnA.tsx:22-40 | the four outcomes in the order the checks run; a failed request leaves the answer empty |
| DocQna.AskEndsIdle | components/DocQnA.tsx:37-39 | a request that went out always ends with loading false, and a success leaves a non-empty answer |
| DocQna.AskRefusedIff | components/DocQnA.tsx:23-26 | asked from the shell, the content check fails exactly for an empty store or a store holding one empty document |
| DocQna.KeyDown | components/DocQnA.tsx:155-160 | Enter without Shift asks; any other key changes nothing |
| DocQna.EnterBypassesLoadingGuard | components/DocQnA.tsx:155-164 | while a question is loading the send button is disabled, yet Enter sends another request |
| DocQna.SendGuard | components/DocQnA.tsx:164 | `SendEnabled`: when idle with text to ask about, the button is on exactly when a click sends the question; with no text at all a click reports the missing content |
| SmartNote.Generate | components/SmartNote.tsx:46-72 | a blank input only reports the fixed notice; any other run ends not loading and keeps the input |
| SmartNote.GenerateGuard | components/SmartNote.tsx:185 | `GenerateEnabled`: off only while a generation runs; with a blank input it is on, and a click shows the notice and sends nothing |
| SmartNote.GenerateSuccess | components/SmartNote.tsx:53-66 | a successful run records the input as the original text and the clock reading, copies the parsed fields, prints them as the raw JSON and shows the formatted tab |
| SmartNote.GenerateFailure | components/SmartNote.tsx:67-71 | a failed run reports the fixed message and keeps the previous note and raw JSON |
| SmartNote.RawUpdate | components/SmartNote.tsx:75-90 | unparsable JSON reports the fixed notice and changes nothing else; parsable JSON shows the formatted tab and never creates or deletes a note |
| SmartNote.RawUpdateKeepsIdentity | components/SmartNote.tsx:78-85 | a raw update keeps the note's id, timestamp and original text and replaces exactly its content fields |
| SmartNote.RawUpdateAfterGenerate | components/SmartNote.tsx:75-90 | submitting the generated JSON unedited changes nothing when the parser reads back what the printer wrote |
| SmartNote.LeadingDigits | components/SmartNote.tsx:296 | the count of leading digits: all of them digits and the next character not |
| SmartNote.StripNumber | components/SmartNote.tsx:296 | removing `^\d+\.\s*` yields a suffix of the line, leaves an unnumbered line alone, and removes only the number, the dot and blank space, so what remains does not start with white space |
| SmartNote.StripNumberOfPrefixed | components/SmartNote.tsx:296 | a digit run, a dot, blank space and a question strip to exactly the question |
| SmartNote.StripNumberOfNumbered | components/SmartNote.tsx:296 | `n. question` strips to the question for every number `n` |
| SmartNote.NonBlankLines | components/SmartNote.tsx:293 | the lines present in the result are exactly the non-blank ones (order and repeats by `SmartNote.NonBlankLinesAppend`) |
| SmartNote.NonBlankLinesAppend | components/SmartNote.tsx:293 | the filter works line by line over concatenation, so kept lines keep their order and their repeats |
| SmartNote.NonBlankLinesCons | components/SmartNote.tsx:293 | one line in front drops out exactly when it is blank and is kept otherwise |
| SmartNote.StripAll | components/SmartNote.tsx:296 | every listed line has its number stripped, one for one |
| SmartNote.QuestionItems | components/SmartNote.tsx:293-296 | the list never has more items than the text has lines |
| SmartNote.QuestionItemsByLine | components/SmartNote.tsx:293-296 | for every text: a line without a break gives one item with its number stripped, or none when blank, followed by the items of the rest of the text |
| SmartNote.StripAllCons | components/SmartNote.tsx:296 | stripping numbers works line by line, the first line first |
| SmartNote.NumberedLinesAreNonBlank | components/SmartNote.tsx:293 | numbered lines start with a digit, so the blank-line filter keeps them all |
| SmartNote.NumberedQuestionsRoundTrip | components/SmartNote.tsx:293-296 | questions written one per line as "1. …", "2. …" come back as exactly those questions, in order |
| SmartNote.QuestionsTabAsWritten | components/SmartNote.tsx:293 | the tab crashes exactly when there is a note whose questions field is missing |
| SmartNote.QuestionsTab | components/SmartNote.tsx:293 | the corrected tab never crashes, agrees with the code wherever the field is present, and lists nothing where it is missing |
| SmartNote.EmptyReplyCrashesQuestions | components/SmartNote.tsx:293 | an empty model reply, parsed as `{}`, yields a note that crashes the questions tab as written and lists nothing when corrected |
| WordGraph.StripPunct | components/WordGraph.tsx:18 | the characters present in the stripped text are exactly the input's characters outside the punctuation set (order and repeats by `WordGraph.StripPunctAppend`) |
| WordGraph.StripPunctAppend | components/WordGraph.tsx:18 | stripping works character by character over concatenation, so the kept characters keep their order and their repeats |
| WordGraph.StripPunctCons | components/WordGraph.tsx:18 | one character in front drops out exactly when it is in the punctuation set and is kept otherwise |
| WordGraph.Keep | components/WordGraph.tsx:20-21 | the pieces present in the result are exactly those longer than three characters that are not stop words (order and repeats by `WordGraph.KeepAppend`) |
| WordGraph.KeepAppend | components/WordGraph.tsx:20-21 | the filters work piece by piece over concatenation, so every occurrence of a qualifying word is kept, in order |
| WordGraph.KeepCons | components/WordGraph.tsx:20-21 | one piece in front stays exactly when it is longer than three characters and not a stop word |
| WordGraph.TokensAreWords | components/WordGraph.tsx:17-21 | every token is lower-case, longer than three characters, not a stop word, and free of white space and stripped punctuation |
| WordGraph.Tokens | components/WordGraph.tsx:17-21 | every token passes both filters (order and repeats by `WordGraph.KeepAppend`, shape by `WordGraph.TokensAreWords`) |
| WordGraph.Tally | components/WordGraph.tsx:23-26 | the frequency map has one entry per distinct token holding its number of occurrences, keys in order of first occurrence |
| WordGraph.TallySize | components/WordGraph.tsx:23-26 | the frequency map has exactly as many entries as there are distinct tokens |
| WordGraph.ObjectEntries | components/WordGraph.tsx:28 | `Object.entries` lists the same entries, array-index keys first in ascending numeric order, then the other keys in insertion order |
| WordGraph.SortByCount | components/WordGraph.tsx:30 | the sort is a permutation, descending by count, and keeps the order of entries with equal counts |
| WordGraph.StableSortUnique | components/WordGraph.tsx:30 | two descending orders that keep every equal-count class in the same order are equal, so any stable sort gives this result |
| WordGraph.Rank | components/WordGraph.tsx:28-31 | the chart shows the twenty (or fewer) most frequent distinct tokens with their counts, most frequent first, ties in `Object.entries` order, and no omitted token beats a shown one |
| WordGraph.WordData | components/WordGraph.tsx:13-32 | an empty text charts nothing; otherwise the chart is the ranking of its tokens and every bar is a qualifying word |
| WordGraphExamples.RankingOfThree | components/WordGraph.tsx:28-31 | three distinct tokens with counts 3, 2 and 1 have exactly one chart |
| WordGraphExamples.AnimalsExample | components/WordGraph.tsx:13-32 | "elephant elephant tiger tiger tiger lion" charts tiger 3, elephant 2, lion 1 |
| WordGraphExamples.ShortWordsExample | components/WordGraph.tsx:20 | "the cat sat on the mat" charts nothing, every word being three letters or fewer |
| WordGraphAsWritten.Get | components/WordGraph.tsx:25 | a key that is no own property reads the inherited value, which is defined only for "constructor" |
| WordGraphAsWritten.GetFirstOwn | components/WordGraph.tsx:25 | a key that is an own property reads its value |
| WordGraphAsWritten.Put | components/WordGraph.tsx:25 | assigning an existing key stores the new value in that key's slot, keeping the length; a new key is appended; every other property is left alone |
| WordGraphAsWritten.GetPut | components/WordGraph.tsx:25 | reading a key just assigned gives the assigned value, and reading any other key gives what it gave before |
| WordGraphAsWritten.PlusOne | components/WordGraph.tsx:25 | `+ 1` adds to a number but concatenates "1" to a string or function |
| WordGraphAsWritten.OrZero | components/WordGraph.tsx:25 | the logical-or fallback to 0 keeps a truthy value and turns every falsy one into 0 |
| WordGraphAsWritten.BumpAgrees | components/WordGraph.tsx:25 | away from "constructor" one step of the loop as written is one step of the corrected count |
| WordGraphAsWritten.TallyAgrees | components/WordGraph.tsx:23-26 | on token lists without "constructor" the loop as written counts correctly |
| WordGraphAsWritten.BumpAsWritten | components/WordGraph.tsx:25 | after `freqMap[w] = (freqMap[w] or 0) + 1` reading `w` gives `+ 1` of its truthy-or-0 old value, the object grows by at most one property, and every other property is untouched |
| WordGraphAsWritten.TallyAsWritten | components/WordGraph.tsx:23-26 | the loop over no tokens leaves the object empty (on lists without "constructor" it agrees with the correct count by `WordGraphAsWritten.TallyAgrees`) |
| WordGraphAsWritten.ConstructorCounterexample | components/WordGraph.tsx:25 | the text "constructor" makes the loop as written store a string where the count 1 belongs |

## Left out

- File reading (`FileReader`, data URLs), `atob`, pdf.js, the canvas and the network: these are I/O; their results are parameters (`read`, `RenderOutcome`, `Outcome`).
- `Date.now()`, `Math.random()` and `new Date().toISOString()`: values supplied as parameters (`now`, `random`, `iso`).
- `JSON.parse` and `JSON.stringify`: an oracle pair (`SmartNote.JsonCodec`). A reply that parses to `null` or to a value whose fields are not strings (which makes the field accesses in the view throw) is not modelled.
- The OCR workspace's own page-1 PDF preview (components/OCRWorkspace.tsx:53-81): canvas rendering only.
- The zoom factor of the preview: the scale is floating point and is not modelled. A zoom change re-runs the render effect through the `scale` dependency (components/DocPreviewModal.tsx:27); that re-run is modelled as the `Rezoom` move, which leaves the page alone.
- The mind-graph SVG layout, the chart drawing, themes, locales, the theme wheel and the model/max-token settings: presentation only.
- Concurrency: every handler is one atomic transition. Interleavings of two requests in flight (possible in the question view, see `DocQna.EnterBypassesLoadingGuard`) are not explored; reader completions are taken in the order they arrive.
- Text.Lower: lower-cases ASCII letters only; `toLowerCase` also folds non-ASCII letters.
- Text.Trim: lengths and indices are over code points, while JavaScript counts UTF-16 code units; this matters wherever a length is compared, for characters outside the Basic Multilingual Plane (the paste threshold and the word-length filter below).
- WordGraph.Keep: the length filter `w.length > 3` is modelled as more than three code points; a word of two characters outside the Basic Multilingual Plane has length 4 in JavaScript and is charted by the program but dropped by the model.
- DocumentStore.Paste: the threshold counts code points, not UTF-16 code units.
- SmartNote.QuestionItems: its own contract only bounds the list's length; its contents for every text are stated line by line by `SmartNote.QuestionItemsByLine`, and for numbered lists by `SmartNote.NumberedQuestionsRoundTrip`.
- WordGraphAsWritten.TallyAsWritten: stated only through `WordGraphAsWritten.TallyAgrees` and the counterexample; the loop is not characterised on token lists containing "constructor" in general.

## Findings

| source | as written | input that shows it | evidently intended | confidence | as-written member | corrected member |
|---|---|---|---|---|---|---|
| components/WordGraph.tsx:25 | the fallback `(freqMap[w] or 0)` on a plain object literal reads `Object.prototype.constructor` for the token "constructor", so the count becomes the string "function Object() { [native code] }1" | a document whose text is "constructor" | every token counted from 0 (an object without a prototype, or an own-property check) | not executed | WordGraphAsWritten.ConstructorCounterexample | WordGraph.Tally |
| components/DocPreviewModal.tsx:112-116 | the canvas is unmounted while an error is shown, and `renderPdf` returns early without a canvas (line 30), so the error can never be cleared | open a two-page PDF whose first page fails to render, then go to page 2, which renders (after a failed load no page button is enabled, and a zoom change gives the same result) | a later successful render clears the error | not executed | DocPreview.ErrorIsSticky | DocPreview.RenderEffect |
| components/SmartNote.tsx:293 | `note?.questions.split(...)` guards the note but not its `questions` field, so a note without questions crashes the tab | an empty model reply (parsed as `{}`), then open the questions tab | a missing field lists no questions, as the keywords are guarded at line 207 | not executed | SmartNote.EmptyReplyCrashesQuestions | SmartNote.QuestionsTab |
