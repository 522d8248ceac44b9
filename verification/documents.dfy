/** The document store of the application shell: an ordered sequence of
    document records, grown by uploads and pastes, edited by id, and read
    as one combined text by the analysis views. */
module DocumentStore {
  import opened Wrappers
  import opened Text

  /** One loaded document. `kind` is the record's `type` field: "image",
      "pdf" or "text" for uploads and pastes, though any string is allowed. */
  datatype Document = Document(
    id: string,
    name: string,
    kind: string,
    content: string,
    timestamp: string,
    base64: Option<string>)

  /** A file picked in the browser: its name and its MIME type. */
  datatype PickedFile = PickedFile(name: string, mime: string)

  const ImageKind := "image"
  const PdfKind := "pdf"
  const TextKind := "text"
  const PdfMime := "application/pdf"
  const ImageMimePrefix := "image/"
  const PastePrefix := "paste-"
  const PasteName := "Pasted Text"

  /** The shortest pasted text that is stored: anything longer than this. */
  const PasteThreshold: nat := 10

  /** The separator placed between documents in the combined text. */
  const DocSeparator := "\n\n"

  function Ids(docs: seq<Document>): (r: seq<string>)
    ensures |r| == |docs| && forall i :: 0 <= i < |docs| ==> r[i] == docs[i].id
  {
    seq(|docs|, i requires 0 <= i < |docs| => docs[i].id)
  }

  function Contents(docs: seq<Document>): (r: seq<string>)
    ensures |r| == |docs| && forall i :: 0 <= i < |docs| ==> r[i] == docs[i].content
  {
    seq(|docs|, i requires 0 <= i < |docs| => docs[i].content)
  }

  // ---------------------------------------------------------------------------
  // Upload

  predicate IsImageMime(mime: string) {
    StartsWith(mime, ImageMimePrefix)
  }

  /** Images and PDFs are read as data URLs, everything else as text. */
  predicate ReadsAsDataUrl(mime: string) {
    IsImageMime(mime) || mime == PdfMime
  }

  /** The record kind for a MIME type. */
  function KindOf(mime: string): (k: string)
    ensures k == ImageKind <==> IsImageMime(mime)
    ensures k == PdfKind <==> !IsImageMime(mime) && mime == PdfMime
    ensures k == TextKind <==> !ReadsAsDataUrl(mime)
  {
    if IsImageMime(mime) then ImageKind
    else if mime == PdfMime then PdfKind
    else TextKind
  }

  /** `dataUrl.split(',')[1]`: the text between the first and the second
      comma, `undefined` when there is no comma. */
  function DataUrlPayload(dataUrl: string): (r: Option<string>)
    ensures r.None? <==> ',' !in dataUrl
    ensures r.Some? ==> ',' !in r.value
    ensures r.Some? ==>
      var start := IndexOf(dataUrl, ',') + 1;
      var stop := start + |r.value|;
      && stop <= |dataUrl|
      && dataUrl[start..stop] == r.value
      && (stop == |dataUrl| || dataUrl[stop] == ',')
  {
    var pieces := Split(dataUrl, ',');
    if |pieces| > 1 then
      var start := IndexOf(dataUrl, ',') + 1;
      var tail := dataUrl[start..];
      assert pieces == [dataUrl[..start - 1]] + Split(tail, ',');
      SplitFirstPiece(tail, ',');
      assert tail[..|pieces[1]|] == dataUrl[start..start + |pieces[1]|];
      Some(pieces[1])
    else None
  }

  /** A data URL `header,payload` gives back its payload. */
  lemma {:induction false} DataUrlPayloadOfPair(header: string, payload: string)
    requires ',' !in header && ',' !in payload
    ensures DataUrlPayload(header + "," + payload) == Some(payload)
  {
    var s := header + "," + payload;
    assert s[|header|] == ',';
    var i := IndexOf(s, ',');
    assert forall k | 0 <= k < |header| :: s[k] == header[k];
    assert forall k | 0 <= k < i :: s[..i][k] == s[k];
    assert i == |header|;
    assert s[..i] == header && s[i + 1..] == payload;
    assert Split(payload, ',') == [payload];
    assert Split(s, ',') == [header, payload];
  }

  /** The upload id: `Date.now().toString()` followed by the text of
      `Math.random()`. */
  function UploadId(now: nat, random: string): (id: string)
    ensures |id| > 0 && IsDigit(id[0])
  {
    NatToString(now) + random
  }

  /** The record built when the reader finishes; `read` is the data URL for
      images and PDFs and the file's text otherwise. */
  function NewUpload(file: PickedFile, read: string, now: nat, random: string, iso: string): (d: Document)
    ensures d.id == UploadId(now, random) && d.name == file.name && d.timestamp == iso
    ensures d.kind == KindOf(file.mime)
    ensures ReadsAsDataUrl(file.mime) ==> d.content == [] && d.base64 == DataUrlPayload(read)
    ensures !ReadsAsDataUrl(file.mime) ==> d.content == read && d.base64 == None
  {
    var dataUrl := ReadsAsDataUrl(file.mime);
    Document(
      UploadId(now, random),
      file.name,
      KindOf(file.mime),
      if dataUrl then [] else read,
      iso,
      if dataUrl then DataUrlPayload(read) else None)
  }

  /** One reader completion: the new record goes at the end. */
  function Upload(docs: seq<Document>, file: PickedFile, read: string, now: nat, random: string, iso: string): (r: seq<Document>)
    ensures |r| == |docs| + 1
    ensures r[..|docs|] == docs
    ensures r[|docs|] == NewUpload(file, read, now, random, iso)
  {
    docs + [NewUpload(file, read, now, random, iso)]
  }

  /** A loaded file as the reader delivers it, with the clock and random
      values of that moment. */
  datatype Loaded = Loaded(file: PickedFile, read: string, now: nat, random: string, iso: string)

  function Record(l: Loaded): Document {
    NewUpload(l.file, l.read, l.now, l.random, l.iso)
  }

  /** Several reader completions, in the order they arrive. */
  function UploadAll(docs: seq<Document>, loaded: seq<Loaded>): (r: seq<Document>)
    ensures |r| == |docs| + |loaded|
    ensures r[..|docs|] == docs
    ensures forall j :: |docs| <= j < |r| ==> r[j] == Record(loaded[j - |docs|])
  {
    if |loaded| == 0 then docs
    else
      var l := loaded[|loaded| - 1];
      var front := UploadAll(docs, loaded[..|loaded| - 1]);
      var r := Upload(front, l.file, l.read, l.now, l.random, l.iso);
      UploadAllStep(docs, loaded, front, r);
      r
  }

  lemma UploadAllStep(docs: seq<Document>, loaded: seq<Loaded>, front: seq<Document>, r: seq<Document>)
    requires |loaded| > 0 && |front| == |docs| + |loaded| - 1 && front[..|docs|] == docs
    requires forall j :: |docs| <= j < |front| ==> front[j] == Record(loaded[..|loaded| - 1][j - |docs|])
    requires r == front + [Record(loaded[|loaded| - 1])]
    ensures r[..|docs|] == docs
    ensures forall j :: |docs| <= j < |r| ==> r[j] == Record(loaded[j - |docs|])
  {
    var n := |loaded| - 1;
    assert r[..|docs|] == front[..|docs|];
    forall j | |docs| <= j < |r| ensures r[j] == Record(loaded[j - |docs|]) {
      var k := j - |docs|;
      if j < |front| {
        assert r[j] == front[j];
        assert loaded[..n][k] == loaded[k];
      } else {
        assert k == n && r[j] == Record(loaded[n]);
      }
    }
  }

  /** An upload id begins with a digit, so it never looks like a paste id. */
  lemma UploadIdNotPaste(now: nat, random: string)
    ensures !StartsWith(UploadId(now, random), PastePrefix)
  {
    var id := UploadId(now, random);
    assert |id| >= |PastePrefix| ==> id[..|PastePrefix|][0] == id[0];
  }

  // ---------------------------------------------------------------------------
  // Update and remove

  /** `prev.map(d => d.id === updated.id ? updated : d)`. */
  function Update(docs: seq<Document>, updated: Document): (r: seq<Document>)
    ensures |r| == |docs|
    ensures forall i :: 0 <= i < |docs| && docs[i].id != updated.id ==> r[i] == docs[i]
    ensures forall i :: 0 <= i < |docs| && docs[i].id == updated.id ==> r[i] == updated
  {
    seq(|docs|, i requires 0 <= i < |docs| => if docs[i].id == updated.id then updated else docs[i])
  }

  /** An update keeps every id in place. */
  lemma UpdateKeepsIds(docs: seq<Document>, updated: Document)
    ensures Ids(Update(docs, updated)) == Ids(docs)
  {
  }

  /** An update naming no stored id changes nothing. */
  lemma UpdateUnknownIsNoop(docs: seq<Document>, updated: Document)
    requires updated.id !in Ids(docs)
    ensures Update(docs, updated) == docs
  {
    forall i | 0 <= i < |docs| ensures docs[i].id != updated.id {
      assert Ids(docs)[i] == docs[i].id;
    }
  }

  /** Applying the same update twice is applying it once. */
  lemma UpdateIdempotent(docs: seq<Document>, updated: Document)
    ensures Update(Update(docs, updated), updated) == Update(docs, updated)
  {
  }

  /** After an update the record found under the id is the new one. */
  lemma UpdateThenFind(docs: seq<Document>, updated: Document)
    requires updated.id in Ids(docs)
    ensures Find(Update(docs, updated), updated.id) == Some(updated)
  {
    UpdateKeepsIds(docs, updated);
  }

  /** `prev.filter(d => d.id !== id)`. */
  function Remove(docs: seq<Document>, id: string): (r: seq<Document>)
    ensures id !in Ids(r)
    ensures forall d :: d in r <==> d in docs && d.id != id
    ensures |r| <= |docs|
  {
    if |docs| == 0 then []
    else
      var rest := Remove(docs[1..], id);
      assert forall d :: d in docs <==> d == docs[0] || d in docs[1..];
      if docs[0].id == id then rest
      else
        assert Ids([docs[0]] + rest) == [docs[0].id] + Ids(rest);
        [docs[0]] + rest
  }

  /** Removal works piecewise, so the survivors keep their order. */
  lemma {:induction false} RemoveAppend(a: seq<Document>, b: seq<Document>, id: string)
    ensures Remove(a + b, id) == Remove(a, id) + Remove(b, id)
  {
    if |a| > 0 {
      assert (a + b)[1..] == a[1..] + b;
      RemoveAppend(a[1..], b, id);
    } else {
      assert a + b == b;
    }
  }

  /** Removing an id that is not stored changes nothing. */
  lemma {:induction false} RemoveUnknownIsNoop(docs: seq<Document>, id: string)
    requires id !in Ids(docs)
    ensures Remove(docs, id) == docs
  {
    if |docs| > 0 {
      assert Ids(docs) == [docs[0].id] + Ids(docs[1..]);
      RemoveUnknownIsNoop(docs[1..], id);
    }
  }

  /** Removing a freshly uploaded record restores the store. */
  lemma RemoveUndoesUpload(docs: seq<Document>, file: PickedFile, read: string, now: nat, random: string, iso: string)
    requires UploadId(now, random) !in Ids(docs)
    ensures Remove(Upload(docs, file, read, now, random, iso), UploadId(now, random)) == docs
  {
    var d := NewUpload(file, read, now, random, iso);
    RemoveAppend(docs, [d], d.id);
    RemoveUnknownIsNoop(docs, d.id);
    assert Remove([d], d.id) == [];
  }

  /** `docs.find(d => d.id === id)`: the first record with that id. */
  function Find(docs: seq<Document>, id: string): (r: Option<Document>)
    ensures r.None? <==> id !in Ids(docs)
    ensures r.Some? ==> exists i :: 0 <= i < |docs| && docs[i] == r.value && IsFirstId(docs, id, i)
  {
    if |docs| == 0 then None
    else if docs[0].id == id then
      assert IsFirstId(docs, id, 0);
      Some(docs[0])
    else
      var rest := Find(docs[1..], id);
      assert Ids(docs)[1..] == Ids(docs[1..]);
      if rest.Some? then
        var i :| 0 <= i < |docs[1..]| && docs[1..][i] == rest.value && IsFirstId(docs[1..], id, i);
        assert IsFirstId(docs, id, i + 1);
        rest
      else rest
  }

  /** Position `i` holds the first record with that id. */
  predicate IsFirstId(docs: seq<Document>, id: string, i: nat) {
    i < |docs| && docs[i].id == id && forall j | 0 <= j < i :: docs[j].id != id
  }

  // ---------------------------------------------------------------------------
  // Paste

  predicate IsPasteId(id: string) {
    StartsWith(id, PastePrefix)
  }

  /** The records that are not pastes, in order. */
  function NonPastes(docs: seq<Document>): (r: seq<Document>)
    ensures forall d :: d in r <==> d in docs && !IsPasteId(d.id)
    ensures |r| <= |docs|
  {
    if |docs| == 0 then []
    else
      var rest := NonPastes(docs[1..]);
      assert forall d :: d in docs <==> d == docs[0] || d in docs[1..];
      if IsPasteId(docs[0].id) then rest else [docs[0]] + rest
  }

  /** How many records carry a paste id. */
  function PasteCount(docs: seq<Document>): nat {
    if |docs| == 0 then 0
    else (if IsPasteId(docs[0].id) then 1 else 0) + PasteCount(docs[1..])
  }

  /** The record a paste creates. */
  function PastedDoc(value: string, now: nat, iso: string): (d: Document)
    ensures IsPasteId(d.id) && d.kind == TextKind && d.content == value && d.base64 == None
  {
    Document(PastePrefix + NatToString(now), PasteName, TextKind, value, iso, None)
  }

  /** The paste box's change handler: text longer than ten characters
      replaces every earlier paste with one new record at the end. */
  function Paste(docs: seq<Document>, value: string, now: nat, iso: string): (r: seq<Document>)
    ensures |value| <= PasteThreshold ==> r == docs
    ensures |value| > PasteThreshold ==> |r| > 0 && r[|r| - 1] == PastedDoc(value, now, iso)
    ensures |value| > PasteThreshold ==> r[..|r| - 1] == NonPastes(docs)
  {
    if |value| > PasteThreshold then NonPastes(docs) + [PastedDoc(value, now, iso)] else docs
  }

  lemma {:induction false} PasteCountAppend(a: seq<Document>, b: seq<Document>)
    ensures PasteCount(a + b) == PasteCount(a) + PasteCount(b)
  {
    if |a| > 0 {
      assert (a + b)[1..] == a[1..] + b;
      PasteCountAppend(a[1..], b);
    } else {
      assert a + b == b;
    }
  }

  lemma {:induction false} NonPastesHaveNoPaste(docs: seq<Document>)
    ensures PasteCount(NonPastes(docs)) == 0
  {
    if |docs| > 0 {
      NonPastesHaveNoPaste(docs[1..]);
      if !IsPasteId(docs[0].id) {
        PasteCountAppend([docs[0]], NonPastes(docs[1..]));
      }
    }
  }

  /** After a stored paste exactly one paste record exists. */
  lemma PasteLeavesOne(docs: seq<Document>, value: string, now: nat, iso: string)
    requires |value| > PasteThreshold
    ensures PasteCount(Paste(docs, value, now, iso)) == 1
  {
    NonPastesHaveNoPaste(docs);
    PasteCountAppend(NonPastes(docs), [PastedDoc(value, now, iso)]);
  }

  /** Pasting keeps the non-paste records and their order. */
  lemma {:induction false} NonPastesAppend(a: seq<Document>, b: seq<Document>)
    ensures NonPastes(a + b) == NonPastes(a) + NonPastes(b)
  {
    if |a| > 0 {
      assert (a + b)[1..] == a[1..] + b;
      NonPastesAppend(a[1..], b);
    } else {
      assert a + b == b;
    }
  }

  lemma PasteKeepsOthers(docs: seq<Document>, value: string, now: nat, iso: string)
    ensures NonPastes(Paste(docs, value, now, iso)) == NonPastes(docs)
  {
    if |value| > PasteThreshold {
      var d := PastedDoc(value, now, iso);
      NonPastesAppend(NonPastes(docs), [d]);
      NonPastesIdempotent(docs);
      assert NonPastes([d]) == [];
    }
  }

  lemma {:induction false} NonPastesIdempotent(docs: seq<Document>)
    ensures NonPastes(NonPastes(docs)) == NonPastes(docs)
  {
    if |docs| > 0 {
      NonPastesIdempotent(docs[1..]);
      if !IsPasteId(docs[0].id) {
        NonPastesAppend([docs[0]], NonPastes(docs[1..]));
      }
    }
  }

  /** No uploaded record is ever removed by a paste. */
  lemma PasteKeepsUploads(docs: seq<Document>, l: Loaded, value: string, now: nat, iso: string)
    requires Record(l) in docs
    ensures Record(l) in Paste(docs, value, now, iso)
  {
    UploadIdNotPaste(l.now, l.random);
  }

  // ---------------------------------------------------------------------------
  // Combined text

  /** Every document's content, in store order, separated by a blank line. */
  function CombinedText(docs: seq<Document>): (r: string)
    ensures |docs| == 0 ==> r == []
    ensures |docs| == 1 ==> r == docs[0].content
  {
    Join(Contents(docs), DocSeparator)
  }

  /** Adding a document adds a separator and its content at the end. */
  lemma {:induction false} CombinedTextAppend(docs: seq<Document>, d: Document)
    requires |docs| > 0
    ensures CombinedText(docs + [d]) == CombinedText(docs) + DocSeparator + d.content
  {
    JoinAppend(Contents(docs), d.content, DocSeparator);
    assert Contents(docs + [d]) == Contents(docs) + [d.content];
  }

  lemma {:induction false} JoinAppend(parts: seq<string>, last: string, sep: string)
    requires |parts| > 0
    ensures Join(parts + [last], sep) == Join(parts, sep) + sep + last
  {
    if |parts| > 1 {
      assert (parts + [last])[1..] == parts[1..] + [last];
      JoinAppend(parts[1..], last, sep);
    } else {
      assert parts + [last] == [parts[0], last];
      assert [parts[0], last][1..] == [last];
    }
  }

  /** The combined text is empty exactly when the store is empty or holds a
      single empty document: two empty documents already give a separator. */
  lemma CombinedTextEmptyIff(docs: seq<Document>)
    ensures CombinedText(docs) == [] <==> |docs| == 0 || (|docs| == 1 && docs[0].content == [])
  {
    if |docs| > 1 {
      var c := Contents(docs);
      assert Join(c, DocSeparator) == c[0] + DocSeparator + Join(c[1..], DocSeparator);
    }
  }
}
