/** The smart-note view: it turns input text into a structured note through
    the model gateway, lets the user edit the note as raw JSON, and lists
    the note's follow-up questions. */
module SmartNote {
  import opened Wrappers
  import opened Text
  import opened Gateway

  /** A JSON value the view passes through without looking inside (the
      mind graph), kept as its serialised text. */
  datatype Json = Json(text: string)

  /** The five content fields read from the parsed response; a field the
      response lacks is `None` (`undefined`). */
  datatype NoteBody = NoteBody(
    formattedText: Option<string>,
    entities: Option<string>,
    mindGraph: Option<Json>,
    keywords: Option<seq<string>>,
    questions: Option<string>)

  /** What `JSON.parse("{}")` gives: every field missing. */
  const EmptyBody := NoteBody(None, None, None, None, None)

  datatype Note = Note(id: string, timestamp: string, originalText: string, body: NoteBody)

  datatype NoteTab = FormatTab | EntitiesTab | GraphTab | QuestionsTab | RawTab

  /** The view's state; `notice` is the error message slot `onError` fills. */
  datatype View = View(
    input: string,
    note: Option<Note>,
    rawJson: string,
    loading: bool,
    tab: NoteTab,
    notice: Option<string>)

  const NoInput := "No text provided. Please paste text or upload a file."
  const InvalidJson := "Invalid JSON format. Please correct it before updating."

  /** The oracles the view depends on: the JSON parser (which may reject its
      input) and the pretty printer `JSON.stringify(data, null, 2)`. */
  datatype JsonCodec = JsonCodec(parse: string -> Option<NoteBody>, stringify: NoteBody -> string)

  /** `handleGenerate` as one step: the gateway's outcome, the clock reading
      and its ISO form are given. */
  function Generate(v: View, codec: JsonCodec, outcome: Outcome, now: nat, iso: string): (r: View)
    ensures IsBlank(v.input) ==> r == v.(notice := Some(NoInput))
    ensures !IsBlank(v.input) ==> !r.loading && r.input == v.input
  {
    if Trim(v.input) == [] then v.(notice := Some(NoInput))
    else
      match SmartNoteResult(outcome, codec.parse)
      case Ok(data) =>
        v.(rawJson := codec.stringify(data),
           note := Some(Note(NatToString(now), iso, v.input, data)),
           tab := FormatTab,
           loading := false)
      case Err(msg) => v.(notice := Some(msg), loading := false)
  }

  /** A successful generation records the input as the original text, copies
      the parsed fields, shows the formatted tab and prints the data as the
      raw JSON. */
  lemma GenerateSuccess(v: View, codec: JsonCodec, outcome: Outcome, now: nat, iso: string)
    requires !IsBlank(v.input)
    requires outcome.Responded? && codec.parse(OrElse(outcome.text, EmptyJson)).Some?
    ensures var data := codec.parse(OrElse(outcome.text, EmptyJson)).value;
      var r := Generate(v, codec, outcome, now, iso);
      && r.note.Some?
      && r.note.value.originalText == v.input
      && r.note.value.body == data
      && r.note.value.timestamp == iso
      && r.rawJson == codec.stringify(data)
      && r.tab == FormatTab && !r.loading && r.notice == v.notice
  {
  }

  /** A failed generation reports the gateway's fixed message and keeps the
      previous note and raw JSON. */
  lemma GenerateFailure(v: View, codec: JsonCodec, outcome: Outcome, now: nat, iso: string)
    requires !IsBlank(v.input)
    requires outcome.Threw? || codec.parse(OrElse(outcome.text, EmptyJson)).None?
    ensures Generate(v, codec, outcome, now, iso) == v.(notice := Some(SmartNoteFailed), loading := false)
  {
  }

  /** `handleRawUpdate`: parse the edited JSON; on success replace the five
      fields of the current note (there may be none) and show the formatted
      tab. */
  function RawUpdate(v: View, codec: JsonCodec): (r: View)
    ensures codec.parse(v.rawJson).None? ==> r == v.(notice := Some(InvalidJson))
    ensures codec.parse(v.rawJson).Some? ==> r.tab == FormatTab && r.notice == v.notice
    ensures codec.parse(v.rawJson).Some? ==> r.input == v.input && r.rawJson == v.rawJson && r.loading == v.loading
    ensures r.note.None? <==> v.note.None?
  {
    match codec.parse(v.rawJson)
    case None => v.(notice := Some(InvalidJson))
    case Some(data) =>
      var updated := if v.note.Some? then Some(v.note.value.(body := data)) else None;
      v.(note := updated, tab := FormatTab)
  }

  /** A raw update keeps the note's identity and original text and replaces
      exactly its content fields. */
  lemma RawUpdateKeepsIdentity(v: View, codec: JsonCodec)
    requires v.note.Some? && codec.parse(v.rawJson).Some?
    ensures var n := RawUpdate(v, codec).note.value;
      && n.id == v.note.value.id
      && n.timestamp == v.note.value.timestamp
      && n.originalText == v.note.value.originalText
      && n.body == codec.parse(v.rawJson).value
  {
  }

  /** Submitting the generated JSON unedited changes nothing but the tab,
      provided the parser reads back what the printer wrote. */
  lemma RawUpdateAfterGenerate(v: View, codec: JsonCodec, outcome: Outcome, now: nat, iso: string)
    requires !IsBlank(v.input)
    requires outcome.Responded? && codec.parse(OrElse(outcome.text, EmptyJson)).Some?
    requires var data := codec.parse(OrElse(outcome.text, EmptyJson)).value;
      codec.parse(codec.stringify(data)) == Some(data)
    ensures var g := Generate(v, codec, outcome, now, iso);
      RawUpdate(g, codec) == g
  {
    GenerateSuccess(v, codec, outcome, now, iso);
  }

  /** The transform button is disabled while a generation runs. */
  predicate GenerateEnabled(v: View) {
    !v.loading
  }

  /** The button is off only while a generation runs: with a blank input it
      stays on, and a click shows the notice and sends nothing. */
  lemma GenerateGuard(v: View, codec: JsonCodec, outcome: Outcome, now: nat, iso: string)
    ensures v.loading ==> !GenerateEnabled(v)
    ensures !v.loading && IsBlank(v.input) ==>
      GenerateEnabled(v) && Generate(v, codec, outcome, now, iso) == v.(notice := Some(NoInput))
  {
  }

  // ---------------------------------------------------------------------------
  // Follow-up questions

  /** The number of leading ASCII digits. */
  function LeadingDigits(s: string): (k: nat)
    ensures k <= |s|
    ensures forall i :: 0 <= i < k ==> IsDigit(s[i])
    ensures k < |s| ==> !IsDigit(s[k])
  {
    if |s| > 0 && IsDigit(s[0]) then 1 + LeadingDigits(s[1..]) else 0
  }

  /** The line starts like "12." , the match of `^\d+\.`. */
  predicate Numbered(q: string) {
    var k := LeadingDigits(q);
    0 < k < |q| && q[k] == '.'
  }

  /** Drop a leading number, its dot and the white space after it: the
      replacement of the pattern `^\d+\.\s*` by nothing. */
  function StripNumber(q: string): (r: string)
    ensures |r| <= |q| && r == q[|q| - |r|..]
    ensures !Numbered(q) ==> r == q
    ensures Numbered(q) ==> LeadingDigits(q) + 1 <= |q| - |r|
    ensures Numbered(q) ==> IsBlank(q[LeadingDigits(q) + 1..|q| - |r|])
    ensures Numbered(q) ==> r == [] || !IsJsSpace(r[0])
  {
    if Numbered(q) then q[SkipSpaces(q, LeadingDigits(q) + 1)..] else q
  }

  lemma {:induction false} LeadingDigitsOf(digits: string, rest: string)
    requires forall i :: 0 <= i < |digits| ==> IsDigit(digits[i])
    requires rest == [] || !IsDigit(rest[0])
    ensures LeadingDigits(digits + rest) == |digits|
  {
    if |digits| > 0 {
      assert (digits + rest)[1..] == digits[1..] + rest;
      LeadingDigitsOf(digits[1..], rest);
    } else {
      assert digits + rest == rest;
    }
  }

  /** A digit run, a dot, a blank gap and a question strip to the question. */
  lemma StripNumberOfPrefixed(d: string, gap: string, t: string)
    requires |d| > 0 && forall i :: 0 <= i < |d| ==> IsDigit(d[i])
    requires IsBlank(gap)
    requires t == [] || (!IsJsSpace(t[0]) && !IsDigit(t[0]))
    ensures StripNumber(d + "." + gap + t) == t
  {
    var tail := "." + gap + t;
    var q := d + tail;
    assert d + "." + gap + t == q;
    LeadingDigitsOf(d, tail);
    assert q[|d|] == '.';
    var start := |d| + 1;
    var stop := start + |gap|;
    assert q[start..stop] == gap;
    assert q[stop..] == t;
    SkipSpacesOverRun(q, start, stop);
  }

  /** Numbering a question and stripping the number gives the question back. */
  lemma StripNumberOfNumbered(n: nat, gap: string, t: string)
    requires IsBlank(gap)
    requires t == [] || (!IsJsSpace(t[0]) && !IsDigit(t[0]))
    ensures StripNumber(NatToString(n) + "." + gap + t) == t
  {
    StripNumberOfPrefixed(NatToString(n), gap, t);
  }

  /** The follow-up question list: the non-blank lines, numbers stripped, in
      order. */
  function QuestionItems(questions: string): (r: seq<string>)
    ensures |r| <= |Split(questions, '\n')|
  {
    StripAll(NonBlankLines(Split(questions, '\n')))
  }

  /** `.filter(q => q.trim().length > 0)`: by the contract of `Trim` the
      trimmed line is empty exactly when the line is blank. */
  function NonBlankLines(lines: seq<string>): (r: seq<string>)
    ensures forall x :: x in r <==> x in lines && !IsBlank(x)
    ensures |r| <= |lines|
  {
    if |lines| == 0 then []
    else
      var rest := NonBlankLines(lines[1..]);
      assert forall x :: x in lines <==> x == lines[0] || x in lines[1..];
      if !IsBlank(lines[0]) then [lines[0]] + rest else rest
  }

  /** The filter works line by line: a blank line drops out, any other
      stays, and the kept lines keep their order and repeats. */
  lemma {:induction false} NonBlankLinesAppend(a: seq<string>, b: seq<string>)
    ensures NonBlankLines(a + b) == NonBlankLines(a) + NonBlankLines(b)
  {
    if |a| == 0 {
      assert a + b == b;
    } else {
      var t := a[1..];
      calc {
        NonBlankLines(a + b);
        { assert a + b == [a[0]] + (t + b); NonBlankLinesCons(a[0], t + b); }
        NonBlankLines([a[0]]) + NonBlankLines(t + b);
        { NonBlankLinesAppend(t, b); }
        NonBlankLines([a[0]]) + (NonBlankLines(t) + NonBlankLines(b));
        (NonBlankLines([a[0]]) + NonBlankLines(t)) + NonBlankLines(b);
        { assert a == [a[0]] + t; NonBlankLinesCons(a[0], t); }
        NonBlankLines(a) + NonBlankLines(b);
      }
    }
  }

  /** One line in front: it drops out exactly when it is blank. */
  lemma NonBlankLinesCons(x: string, s: seq<string>)
    ensures NonBlankLines([x]) == (if IsBlank(x) then [] else [x])
    ensures NonBlankLines([x] + s) == NonBlankLines([x]) + NonBlankLines(s)
  {
  }

  function StripAll(lines: seq<string>): (r: seq<string>)
    ensures |r| == |lines|
    ensures forall i :: 0 <= i < |lines| ==> r[i] == StripNumber(lines[i])
  {
    if |lines| == 0 then []
    else [StripNumber(lines[0])] + StripAll(lines[1..])
  }

  /** The question list is built line by line: a line without a break is
      one item with its number stripped, or none when it is blank, and the
      rest of the text continues the list. */
  lemma QuestionItemsByLine(line: string, rest: string)
    requires '\n' !in line
    ensures QuestionItems(line) == LineItem(line)
    ensures QuestionItems(line + "\n" + rest) == LineItem(line) + QuestionItems(rest)
  {
    var s := line + "\n" + rest;
    var tail := Split(rest, '\n');
    NonBlankLinesCons(line, tail);
    LineItemOf(line);
    assert s[..|line|] == line && s[|line| + 1..] == rest;
    SplitAt(s, '\n', |line|);
    if !IsBlank(line) {
      StripAllCons(line, NonBlankLines(tail));
    }
  }

  /** The items one line contributes. */
  function LineItem(line: string): seq<string> {
    if IsBlank(line) then [] else [StripNumber(line)]
  }

  lemma LineItemOf(line: string)
    requires '\n' !in line
    ensures StripAll(NonBlankLines([line])) == LineItem(line)
    ensures QuestionItems(line) == LineItem(line)
  {
  }

  lemma StripAllCons(x: string, t: seq<string>)
    ensures StripAll([x] + t) == [StripNumber(x)] + StripAll(t)
  {
  }

  /** Questions written one per line, numbered "1. ", "2. " and so on, come
      back as the questions themselves. */
  lemma {:induction false} NumberedQuestionsRoundTrip(qs: seq<string>)
    requires |qs| >= 1
    requires forall i :: 0 <= i < |qs| ==> '\n' !in qs[i]
    requires forall i :: 0 <= i < |qs| ==> qs[i] != [] && !IsJsSpace(qs[i][0]) && !IsDigit(qs[i][0])
    ensures QuestionItems(Join(Numbering(qs, 1), "\n")) == qs
  {
    var lines := Numbering(qs, 1);
    NumberingHasNoBreaks(qs, 1);
    SplitJoin(lines, '\n');
    NumberedLinesAreNonBlank(qs, 1);
    StripNumbering(qs, 1);
  }

  lemma NumberingHasNoBreaks(qs: seq<string>, first: nat)
    requires forall i :: 0 <= i < |qs| ==> '\n' !in qs[i]
    ensures forall k :: 0 <= k < |qs| ==> '\n' !in Numbering(qs, first)[k]
  {
    forall k | 0 <= k < |qs| ensures '\n' !in Numbering(qs, first)[k] {
      NumberedLineHasNoBreak(first + k, qs[k]);
    }
  }

  lemma {:induction false} StripNumbering(qs: seq<string>, first: nat)
    requires forall i :: 0 <= i < |qs| ==> qs[i] != [] && !IsJsSpace(qs[i][0]) && !IsDigit(qs[i][0])
    ensures StripAll(Numbering(qs, first)) == qs
  {
    var lines := Numbering(qs, first);
    var r := StripAll(lines);
    forall i | 0 <= i < |qs| ensures r[i] == qs[i] {
      StripNumberedLine(first + i, qs[i]);
    }
  }

  lemma StripNumberedLine(n: nat, t: string)
    requires t != [] && !IsJsSpace(t[0]) && !IsDigit(t[0])
    ensures StripNumber(NatToString(n) + "." + " " + t) == t
  {
    assert IsBlank(" ");
    StripNumberOfNumbered(n, " ", t);
  }

  /** "n. q" for each question, counting from `first`. */
  function Numbering(qs: seq<string>, first: nat): (r: seq<string>)
    ensures |r| == |qs|
    ensures forall i :: 0 <= i < |qs| ==> r[i] == NatToString(first + i) + "." + " " + qs[i]
  {
    seq(|qs|, i requires 0 <= i < |qs| => NatToString(first + i) + "." + " " + qs[i])
  }

  lemma NumberedLineHasNoBreak(n: nat, q: string)
    requires '\n' !in q
    ensures '\n' !in NatToString(n) + "." + " " + q
  {
    var d := NatToString(n);
    assert forall i :: 0 <= i < |d| ==> d[i] != '\n';
  }

  /** Numbered lines start with a digit, so none is blank. */
  lemma {:induction false} NumberedLinesAreNonBlank(qs: seq<string>, first: nat)
    ensures NonBlankLines(Numbering(qs, first)) == Numbering(qs, first)
  {
    var lines := Numbering(qs, first);
    forall i | 0 <= i < |lines| ensures !IsBlank(lines[i]) {
      var d := NatToString(first + i);
      assert lines[i][0] == d[0];
    }
    NonBlankKept(lines);
  }

  lemma {:induction false} NonBlankKept(lines: seq<string>)
    requires forall i | 0 <= i < |lines| :: !IsBlank(lines[i])
    ensures NonBlankLines(lines) == lines
  {
    if |lines| > 0 {
      assert forall i | 0 <= i < |lines| - 1 :: lines[1..][i] == lines[i + 1];
      NonBlankKept(lines[1..]);
      assert lines == [lines[0]] + lines[1..];
    }
  }

  // ---------------------------------------------------------------------------
  // The questions tab

  /** What the questions tab renders: nothing without a note, a list, or a
      render error that takes the view down. */
  datatype QuestionsRender = NoNote | Items(items: seq<string>) | RenderCrash

  /** As written, `note?.questions.split(...)` guards only the note: a note
      whose response had no `questions` field crashes the tab. */
  function QuestionsTabAsWritten(note: Option<Note>): (r: QuestionsRender)
    ensures r == RenderCrash <==> note.Some? && note.value.body.questions.None?
  {
    match note
    case None => NoNote
    case Some(n) =>
      match n.body.questions
      case None => RenderCrash
      case Some(q) => Items(QuestionItems(q))
  }

  /** Corrected: the field is guarded like the keywords are, so a missing
      field renders an empty list. */
  function QuestionsTab(note: Option<Note>): (r: QuestionsRender)
    ensures r != RenderCrash
    ensures note.Some? && note.value.body.questions.Some? ==> r == QuestionsTabAsWritten(note)
    ensures note.Some? && note.value.body.questions.None? ==> r == Items([])
  {
    match note
    case None => NoNote
    case Some(n) =>
      match n.body.questions
      case None => Items([])
      case Some(q) => Items(QuestionItems(q))
  }

  /** An empty model reply is parsed as `{}`, and the note built from it
      crashes the questions tab as written. */
  lemma EmptyReplyCrashesQuestions(v: View, codec: JsonCodec, now: nat, iso: string)
    requires !IsBlank(v.input)
    requires codec.parse(EmptyJson) == Some(EmptyBody)
    ensures var r := Generate(v, codec, Responded(None), now, iso);
      && r.note.Some?
      && QuestionsTabAsWritten(r.note) == RenderCrash
      && QuestionsTab(r.note) == Items([])
  {
    GenerateSuccess(v, codec, Responded(None), now, iso);
  }
}
