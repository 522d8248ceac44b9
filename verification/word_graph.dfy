/** The word-frequency ranking behind the word graph tab
    (components/WordGraph.tsx, `wordData`).

    The combined document text is lower-cased, stripped of a fixed set of
    punctuation characters and split on runs of white space; tokens of at most
    three characters and eleven stop words are dropped. The remaining tokens
    are counted into a plain object, whose entries are listed in the order
    `Object.entries` gives (array-index keys first, ascending, then the other
    keys in insertion order), sorted by count with a stable sort, descending,
    and cut to the first twenty. */
module WordGraph {
  import opened Text

  /** One bar of the chart: a word and its number of occurrences. */
  datatype WordCount = WordCount(name: string, value: nat)

  /** The number of bars the chart shows. */
  const TopCount: nat := 20

  const StopWords: seq<string> :=
    ["that", "this", "with", "from", "have", "were", "will", "your", "they", "could", "which"]

  /** The characters the regular expression `/[.,/#!$%^&*;:{}=\-_`~()]/g` removes. */
  predicate IsStripped(c: char) {
    c in ".,/#!$%^&*;:{}=-_`~()"
  }

  /** A token that survives both filters. */
  predicate Qualifies(w: string) {
    |w| > 3 && w !in StopWords
  }

  /** What every ranked word looks like. */
  predicate IsWord(w: string) {
    && Qualifies(w)
    && forall c :: c in w ==> !IsAsciiUpper(c) && !IsJsSpace(c) && !IsStripped(c)
  }

  function Min(a: nat, b: nat): nat {
    if a <= b then a else b
  }

  // ---------------------------------------------------------------------------
  // Tokenizer

  function StripPunct(s: string): (r: string)
    ensures forall c :: c in r <==> c in s && !IsStripped(c)
  {
    if |s| == 0 then []
    else
      var rest := StripPunct(s[1..]);
      assert forall c :: c in s <==> c == s[0] || c in s[1..];
      if IsStripped(s[0]) then rest else [s[0]] + rest
  }

  /** `.filter(w => w.length > 3).filter(w => !stopWords.includes(w))`. */
  function Keep(pieces: seq<string>): (r: seq<string>)
    ensures forall w :: w in r <==> w in pieces && Qualifies(w)
  {
    if |pieces| == 0 then []
    else
      var rest := Keep(pieces[1..]);
      assert forall w :: w in pieces <==> w == pieces[0] || w in pieces[1..];
      if Qualifies(pieces[0]) then [pieces[0]] + rest else rest
  }

  /** Stripping works character by character: a stripped character drops
      out, any other stays, and the survivors keep their order and repeats. */
  lemma {:induction false} StripPunctAppend(a: string, b: string)
    ensures StripPunct(a + b) == StripPunct(a) + StripPunct(b)
  {
    if |a| == 0 {
      assert a + b == b;
    } else {
      var t := a[1..];
      calc {
        StripPunct(a + b);
        { assert a + b == [a[0]] + (t + b); StripPunctCons(a[0], t + b); }
        StripPunct([a[0]]) + StripPunct(t + b);
        { StripPunctAppend(t, b); }
        StripPunct([a[0]]) + (StripPunct(t) + StripPunct(b));
        (StripPunct([a[0]]) + StripPunct(t)) + StripPunct(b);
        { assert a == [a[0]] + t; StripPunctCons(a[0], t); }
        StripPunct(a) + StripPunct(b);
      }
    }
  }

  /** One character in front: it drops out exactly when it is stripped. */
  lemma StripPunctCons(c: char, s: string)
    ensures StripPunct([c]) == (if IsStripped(c) then [] else [c])
    ensures StripPunct([c] + s) == StripPunct([c]) + StripPunct(s)
  {
    assert ([c] + s)[1..] == s;
  }

  /** The filters work piece by piece: a qualifying piece stays, any other
      drops out, and the survivors keep their order and repeats. */
  lemma {:induction false} KeepAppend(a: seq<string>, b: seq<string>)
    ensures Keep(a + b) == Keep(a) + Keep(b)
  {
    if |a| == 0 {
      assert a + b == b;
    } else {
      var t := a[1..];
      calc {
        Keep(a + b);
        { assert a + b == [a[0]] + (t + b); KeepCons(a[0], t + b); }
        Keep([a[0]]) + Keep(t + b);
        { KeepAppend(t, b); }
        Keep([a[0]]) + (Keep(t) + Keep(b));
        (Keep([a[0]]) + Keep(t)) + Keep(b);
        { assert a == [a[0]] + t; KeepCons(a[0], t); }
        Keep(a) + Keep(b);
      }
    }
  }

  /** One piece in front: it stays exactly when it qualifies. */
  lemma KeepCons(w: string, s: seq<string>)
    ensures Keep([w]) == (if Qualifies(w) then [w] else [])
    ensures Keep([w] + s) == Keep([w]) + Keep(s)
  {
    assert ([w] + s)[1..] == s;
  }

  /** The tokens that are counted, in text order. */
  function Tokens(text: string): (r: seq<string>)
    ensures forall w :: w in r ==> Qualifies(w)
  {
    Keep(SplitWs(StripPunct(Lower(text))))
  }

  lemma InConcat(parts: seq<string>, k: nat, c: char)
    requires k < |parts| && c in parts[k]
    ensures c in Concat(parts)
  {
    if k > 0 {
      InConcat(parts[1..], k - 1, c);
    }
  }

  /** Every token is lower-case, longer than three characters, not a stop
      word, and holds neither white space nor a stripped character. */
  lemma TokensAreWords(text: string)
    ensures forall w :: w in Tokens(text) ==> IsWord(w)
  {
    var s := StripPunct(Lower(text));
    var pieces := SplitWs(s);
    forall w | w in Tokens(text) ensures IsWord(w) {
      var k :| 0 <= k < |pieces| && pieces[k] == w;
      forall c | c in w ensures !IsAsciiUpper(c) && !IsJsSpace(c) && !IsStripped(c) {
        InConcat(pieces, k, c);
        var i :| 0 <= i < |w| && w[i] == c;
        assert !HasSpace(w);
      }
    }
  }

  lemma EmptyTextHasNoTokens()
    ensures Tokens("") == []
  {
    assert Lower("") == "";
    assert StripPunct("") == "";
    assert !HasSpace("");
    assert SplitWs("") == [""];
  }

  // ---------------------------------------------------------------------------
  // Counting

  function Names(m: seq<WordCount>): (r: seq<string>)
    ensures |r| == |m|
    ensures forall i :: 0 <= i < |m| ==> r[i] == m[i].name
  {
    seq(|m|, i requires 0 <= i < |m| => m[i].name)
  }

  predicate DistinctNames(m: seq<WordCount>) {
    forall i, j :: 0 <= i < j < |m| ==> m[i].name != m[j].name
  }

  /** The position of the first occurrence of `w`, or `|ws|` when absent. */
  function FirstPos(ws: seq<string>, w: string): (p: nat)
    ensures p <= |ws|
    ensures p < |ws| ==> ws[p] == w && w !in ws[..p]
    ensures p == |ws| <==> w !in ws
  {
    if |ws| == 0 then 0
    else
      var front := ws[..|ws| - 1];
      assert ws == front + [ws[|ws| - 1]];
      if w in front then
        var p := FirstPos(front, w);
        assert ws[..p] == front[..p];
        p
      else if ws[|ws| - 1] == w then |ws| - 1
      else |ws|
  }

  /** `r` is `m` after one more occurrence of `w`: the entry for `w` goes up
      by one, or a new entry `w: 1` is added at the end. */
  ghost predicate Bumped(m: seq<WordCount>, w: string, r: seq<WordCount>) {
    && (w in Names(m) <==> |r| == |m|)
    && (w !in Names(m) <==> |r| == |m| + 1)
    && (forall i :: 0 <= i < |m| ==>
         r[i].name == m[i].name && r[i].value == m[i].value + (if m[i].name == w then 1 else 0))
    && (|r| == |m| + 1 ==> r[|m|] == WordCount(w, 1))
  }

  /** `freqMap[w] = (freqMap[w] || 0) + 1` on an association list that keeps
      the keys in insertion order. */
  function Bump(m: seq<WordCount>, w: string): (r: seq<WordCount>)
    requires DistinctNames(m)
    ensures DistinctNames(r)
    ensures Bumped(m, w, r)
  {
    if |m| == 0 then [WordCount(w, 1)]
    else if m[0].name == w then
      assert forall i :: 1 <= i < |m| ==> m[i].name != w;
      [m[0].(value := m[0].value + 1)] + m[1..]
    else
      assert DistinctNames(m[1..]) by {
        assert forall i | 0 <= i < |m| - 1 :: m[1..][i] == m[i + 1];
      }
      var rest := Bump(m[1..], w);
      BumpedCons(m, w, rest);
      [m[0]] + rest
  }

  /** A bump that misses the head entry is a bump of the tail. */
  lemma BumpedCons(m: seq<WordCount>, w: string, rest: seq<WordCount>)
    requires |m| > 0 && m[0].name != w && DistinctNames(m)
    requires DistinctNames(rest) && Bumped(m[1..], w, rest)
    ensures Bumped(m, w, [m[0]] + rest)
    ensures DistinctNames([m[0]] + rest)
  {
    var r := [m[0]] + rest;
    assert w in Names(m) <==> w in Names(m[1..]) by {
      assert Names(m) == [m[0].name] + Names(m[1..]);
    }
    forall i | 0 < i < |m|
      ensures r[i].name == m[i].name && r[i].value == m[i].value + (if m[i].name == w then 1 else 0)
    {
      assert r[i] == rest[i - 1] && m[i] == m[1..][i - 1];
    }
    if |r| == |m| + 1 {
      assert r[|m|] == rest[|m| - 1];
    }
    assert |r| == |rest| + 1 && |m| == |m[1..]| + 1;
    assert w in Names(m) <==> |r| == |m|;
    assert w !in Names(m) <==> |r| == |m| + 1;
    BumpedConsDistinct(m, w, rest);
  }

  lemma BumpedConsDistinct(m: seq<WordCount>, w: string, rest: seq<WordCount>)
    requires |m| > 0 && m[0].name != w && DistinctNames(m)
    requires DistinctNames(rest) && Bumped(m[1..], w, rest)
    ensures DistinctNames([m[0]] + rest)
  {
    var r := [m[0]] + rest;
    forall j | 0 <= j < |rest| ensures rest[j].name != m[0].name {
      if j < |m| - 1 {
        assert rest[j].name == m[1..][j].name == m[j + 1].name;
      }
    }
    assert forall i | 0 < i < |r| :: r[i] == rest[i - 1];
  }

  /** The frequency map built by `words.forEach`, keys in first-occurrence
      order. */
  function Tally(ws: seq<string>): (m: seq<WordCount>)
    ensures IsTally(ws, m)
  {
    if |ws| == 0 then []
    else
      var front := ws[..|ws| - 1];
      var w := ws[|ws| - 1];
      assert ws == front + [w];
      var prev := Tally(front);
      var m := Bump(prev, w);
      TallyStepNames(front, w, prev, m);
      TallyStepValues(front, w, prev, m);
      TallyStepOrder(front, w, prev, m);
      m
  }

  /** `m` counts `ws`: one entry per distinct token, holding its number of
      occurrences, keys in the order of their first occurrence. */
  ghost predicate IsTally(ws: seq<string>, m: seq<WordCount>) {
    && DistinctNames(m)
    && (forall w :: w in Names(m) <==> w in ws)
    && (forall i :: 0 <= i < |m| ==> m[i].value == multiset(ws)[m[i].name])
    && (forall i, j :: 0 <= i < j < |m| ==> FirstPos(ws, m[i].name) < FirstPos(ws, m[j].name))
  }

  lemma TallyStepNames(front: seq<string>, w: string, prev: seq<WordCount>, m: seq<WordCount>)
    requires DistinctNames(prev) && Bumped(prev, w, m)
    requires forall x :: x in Names(prev) <==> x in front
    ensures forall x :: x in Names(m) <==> x in front + [w]
  {
    forall x ensures x in Names(m) <==> x in front + [w] {
      if x in Names(m) {
        var i :| 0 <= i < |m| && Names(m)[i] == x;
        if i < |prev| {
          assert Names(prev)[i] == x;
        }
      }
      if x in front + [w] && x != w {
        var i :| 0 <= i < |prev| && Names(prev)[i] == x;
        assert Names(m)[i] == x;
      }
      if x == w && w in Names(prev) {
        var i :| 0 <= i < |prev| && Names(prev)[i] == x;
        assert Names(m)[i] == x;
      }
    }
  }

  lemma TallyStepValues(front: seq<string>, w: string, prev: seq<WordCount>, m: seq<WordCount>)
    requires DistinctNames(prev) && Bumped(prev, w, m)
    requires forall x :: x in Names(prev) <==> x in front
    requires forall i :: 0 <= i < |prev| ==> prev[i].value == multiset(front)[prev[i].name]
    ensures forall i :: 0 <= i < |m| ==> m[i].value == multiset(front + [w])[m[i].name]
  {
    assert multiset(front + [w]) == multiset(front) + multiset{w};
    if |m| == |prev| + 1 {
      assert w !in front;
    }
  }

  lemma TallyStepOrder(front: seq<string>, w: string, prev: seq<WordCount>, m: seq<WordCount>)
    requires DistinctNames(prev) && Bumped(prev, w, m)
    requires forall x :: x in Names(prev) <==> x in front
    requires forall i, j :: 0 <= i < j < |prev| ==> FirstPos(front, prev[i].name) < FirstPos(front, prev[j].name)
    ensures forall i, j :: 0 <= i < j < |m| ==> FirstPos(front + [w], m[i].name) < FirstPos(front + [w], m[j].name)
  {
    var ws := front + [w];
    assert ws[..|ws| - 1] == front;
    forall i | 0 <= i < |prev| ensures FirstPos(ws, m[i].name) == FirstPos(front, prev[i].name) < |front| {
      assert Names(prev)[i] == prev[i].name;
    }
    if |m| == |prev| + 1 {
      assert w !in front;
      assert FirstPos(ws, m[|prev|].name) == |front|;
    }
  }

  /** The number of distinct tokens. */
  function Vocabulary(ws: seq<string>): set<string> {
    set w | w in ws
  }

  lemma DistinctNamesCardinality(m: seq<WordCount>)
    requires DistinctNames(m)
    ensures |set x | x in Names(m)| == |m|
  {
    if |m| > 0 {
      DistinctNamesCardinality(m[1..]);
      assert (set x | x in Names(m)) == {m[0].name} + (set x | x in Names(m[1..]));
      assert m[0].name !in Names(m[1..]);
    } else {
      assert (set x | x in Names(m)) == {};
    }
  }

  /** The frequency map has one entry per distinct token. */
  lemma TallySize(ws: seq<string>)
    ensures |Tally(ws)| == |Vocabulary(ws)|
  {
    var m := Tally(ws);
    DistinctNamesCardinality(m);
    assert (set x | x in Names(m)) == Vocabulary(ws);
  }

  // ---------------------------------------------------------------------------
  // Object.entries order

  /** Lexicographic order on code points. */
  predicate LexLe(a: string, b: string) {
    if |a| == 0 then true
    else if |b| == 0 then false
    else a[0] < b[0] || (a[0] == b[0] && LexLe(a[1..], b[1..]))
  }

  lemma LexLeTotal(a: string, b: string)
    ensures LexLe(a, b) || LexLe(b, a)
  {
    if |a| > 0 && |b| > 0 && a[0] == b[0] {
      LexLeTotal(a[1..], b[1..]);
    }
  }

  lemma LexLeTransitive(a: string, b: string, c: string)
    requires LexLe(a, b) && LexLe(b, c)
    ensures LexLe(a, c)
  {
    if |a| > 0 && |b| > 0 && |c| > 0 && a[0] == b[0] == c[0] {
      LexLeTransitive(a[1..], b[1..], c[1..]);
    }
  }

  /** Numeric order on canonical decimal numerals: a shorter numeral is
      smaller, numerals of one length compare digit by digit. */
  predicate NumLe(a: string, b: string) {
    |a| < |b| || (|a| == |b| && LexLe(a, b))
  }

  /** A canonical array index: the decimal numeral of an integer from 0 to
      2^32 - 2, with no leading zero. `Object.entries` lists such keys first. */
  predicate IsArrayIndex(s: string) {
    || s == "0"
    || (&& |s| >= 1 && s[0] != '0'
        && (forall i :: 0 <= i < |s| ==> IsDigit(s[i]))
        && DigitsValue(s) <= 4294967294)
  }

  /** The entries whose key is (or is not) an array index, in their order. */
  function KeyFilter(m: seq<WordCount>, index: bool): (r: seq<WordCount>)
    ensures forall x :: x in r <==> x in m && IsArrayIndex(x.name) == index
    ensures multiset(r) <= multiset(m)
    ensures forall x, y :: Precedes(r, x, y) ==> Precedes(m, x, y)
  {
    if |m| == 0 then []
    else
      var rest := KeyFilter(m[1..], index);
      assert m == [m[0]] + m[1..];
      assert forall x :: x in m <==> x == m[0] || x in m[1..];
      forall x, y | Precedes(rest, x, y) ensures Precedes(m, x, y) {
        PrecedesCons(m[0], m[1..], x, y);
      }
      if IsArrayIndex(m[0].name) == index then
        var r := [m[0]] + rest;
        forall x, y | Precedes(r, x, y) ensures Precedes(m, x, y) {
          PrecedesCons(m[0], rest, x, y);
          PrecedesCons(m[0], m[1..], x, y);
        }
        r
      else rest
  }

  predicate KeysAscending(m: seq<WordCount>) {
    forall i, j :: 0 <= i < j < |m| ==> NumLe(m[i].name, m[j].name)
  }

  lemma NumLeTransitive(a: string, b: string, c: string)
    requires NumLe(a, b) && NumLe(b, c)
    ensures NumLe(a, c)
  {
    if |a| == |b| == |c| {
      LexLeTransitive(a, b, c);
    }
  }

  lemma NumLeTotal(a: string, b: string)
    ensures NumLe(a, b) || NumLe(b, a)
  {
    LexLeTotal(a, b);
  }

  function InsertKey(e: WordCount, xs: seq<WordCount>): (r: seq<WordCount>)
    requires KeysAscending(xs)
    ensures KeysAscending(r)
    ensures multiset(r) == multiset{e} + multiset(xs)
  {
    if |xs| == 0 || NumLe(e.name, xs[0].name) then
      KeyInFront(e, xs);
      [e] + xs
    else
      NumLeTotal(e.name, xs[0].name);
      var rest := InsertKey(e, xs[1..]);
      KeyBehindHead(e, xs, rest);
      [xs[0]] + rest
  }

  lemma KeyInFront(e: WordCount, xs: seq<WordCount>)
    requires KeysAscending(xs) && (|xs| == 0 || NumLe(e.name, xs[0].name))
    ensures KeysAscending([e] + xs)
  {
    var r := [e] + xs;
    forall j | 0 <= j < |xs| ensures NumLe(e.name, xs[j].name) {
      if j > 0 {
        NumLeTransitive(e.name, xs[0].name, xs[j].name);
      }
    }
    assert forall i | 0 < i < |r| :: r[i] == xs[i - 1];
  }

  lemma KeyBehindHead(e: WordCount, xs: seq<WordCount>, rest: seq<WordCount>)
    requires |xs| > 0 && NumLe(xs[0].name, e.name) && KeysAscending(xs)
    requires KeysAscending(rest) && multiset(rest) == multiset{e} + multiset(xs[1..])
    ensures KeysAscending([xs[0]] + rest)
    ensures multiset([xs[0]] + rest) == multiset{e} + multiset(xs)
  {
    var r := [xs[0]] + rest;
    assert xs == [xs[0]] + xs[1..];
    forall j | 0 <= j < |rest| ensures NumLe(xs[0].name, rest[j].name) {
      assert rest[j] in multiset(rest);
      if rest[j] != e {
        assert rest[j] in xs[1..];
      }
    }
    assert forall i | 0 < i < |r| :: r[i] == rest[i - 1];
  }

  /** The array-index keys in ascending numeric order. */
  function SortKeys(m: seq<WordCount>): (r: seq<WordCount>)
    ensures KeysAscending(r)
    ensures multiset(r) == multiset(m)
  {
    if |m| == 0 then []
    else
      assert m == [m[0]] + m[1..];
      InsertKey(m[0], SortKeys(m[1..]))
  }

  /** `Object.entries(freqMap)`. */
  function ObjectEntries(m: seq<WordCount>): (r: seq<WordCount>)
    ensures multiset(r) == multiset(m)
    ensures forall i, j :: 0 <= i < j < |r| && IsArrayIndex(r[j].name) ==> IsArrayIndex(r[i].name)
    ensures forall i, j :: 0 <= i < j < |r| && IsArrayIndex(r[i].name) && IsArrayIndex(r[j].name) ==>
      NumLe(r[i].name, r[j].name)
    ensures forall i, j :: 0 <= i < j < |r| && !IsArrayIndex(r[i].name) && !IsArrayIndex(r[j].name) ==>
      Precedes(m, r[i], r[j])
  {
    var indices := SortKeys(KeyFilter(m, true));
    var others := KeyFilter(m, false);
    MultisetFilterSplit(m);
    IndexKeysOnly(m, indices);
    OtherKeysOnly(m, others);
    EntriesLayout(m, indices, others);
    indices + others
  }

  lemma EntriesLayout(m: seq<WordCount>, indices: seq<WordCount>, others: seq<WordCount>)
    requires forall k :: 0 <= k < |indices| ==> IsArrayIndex(indices[k].name)
    requires KeysAscending(indices)
    requires forall k :: 0 <= k < |others| ==> !IsArrayIndex(others[k].name)
    requires forall x, y :: Precedes(others, x, y) ==> Precedes(m, x, y)
    ensures var r := indices + others;
      && (forall i, j :: 0 <= i < j < |r| && IsArrayIndex(r[j].name) ==> IsArrayIndex(r[i].name))
      && (forall i, j :: 0 <= i < j < |r| && IsArrayIndex(r[i].name) && IsArrayIndex(r[j].name) ==>
           NumLe(r[i].name, r[j].name))
      && (forall i, j :: 0 <= i < j < |r| && !IsArrayIndex(r[i].name) && !IsArrayIndex(r[j].name) ==>
           Precedes(m, r[i], r[j]))
  {
    var r := indices + others;
    forall i, j | 0 <= i < j < |r| && !IsArrayIndex(r[i].name) && !IsArrayIndex(r[j].name)
      ensures Precedes(m, r[i], r[j])
    {
      assert i >= |indices|;
      assert r[i] == others[i - |indices|] && r[j] == others[j - |indices|];
      assert Precedes(others, r[i], r[j]);
    }
  }

  lemma IndexKeysOnly(m: seq<WordCount>, indices: seq<WordCount>)
    requires indices == SortKeys(KeyFilter(m, true))
    ensures forall k :: 0 <= k < |indices| ==> IsArrayIndex(indices[k].name)
  {
    forall k | 0 <= k < |indices| ensures IsArrayIndex(indices[k].name) {
      assert indices[k] in multiset(KeyFilter(m, true));
    }
  }

  lemma OtherKeysOnly(m: seq<WordCount>, others: seq<WordCount>)
    requires others == KeyFilter(m, false)
    ensures forall k :: 0 <= k < |others| ==> !IsArrayIndex(others[k].name)
  {
    forall k | 0 <= k < |others| ensures !IsArrayIndex(others[k].name) {
      assert others[k] in others;
    }
  }

  lemma MultisetFilterSplit(m: seq<WordCount>)
    ensures multiset(KeyFilter(m, true)) + multiset(KeyFilter(m, false)) == multiset(m)
  {
    if |m| > 0 {
      MultisetFilterSplit(m[1..]);
      var h := [m[0]];
      assert m == h + m[1..];
      if IsArrayIndex(m[0].name) {
        assert KeyFilter(m, true) == h + KeyFilter(m[1..], true);
        assert KeyFilter(m, false) == KeyFilter(m[1..], false);
      } else {
        assert KeyFilter(m, true) == KeyFilter(m[1..], true);
        assert KeyFilter(m, false) == h + KeyFilter(m[1..], false);
      }
    }
  }

  // ---------------------------------------------------------------------------
  // Stable sort by count, descending

  predicate CountsDescending(s: seq<WordCount>) {
    forall i, j :: 0 <= i < j < |s| ==> s[i].value >= s[j].value
  }

  /** The entries with count `v`, in their order: a stable sort keeps each of
      these subsequences as it was. */
  function WithValue(s: seq<WordCount>, v: nat): (r: seq<WordCount>)
    ensures forall x :: x in r <==> x in s && x.value == v
  {
    if |s| == 0 then []
    else
      var rest := WithValue(s[1..], v);
      assert s == [s[0]] + s[1..];
      assert forall x :: x in s <==> x == s[0] || x in s[1..];
      if s[0].value == v then [s[0]] + rest else rest
  }

  /** Order within one class is order in the whole sequence. */
  lemma {:induction false} WithValuePrecedes(s: seq<WordCount>, v: nat, x: WordCount, y: WordCount)
    requires Precedes(WithValue(s, v), x, y)
    ensures Precedes(s, x, y)
  {
    assert |s| > 0;
    var rest := WithValue(s[1..], v);
    assert s == [s[0]] + s[1..];
    WithValueCons(s[0], s[1..], v);
    if s[0].value == v {
      PrecedesCons(s[0], rest, x, y);
    }
    if Precedes(rest, x, y) {
      WithValuePrecedes(s[1..], v, x, y);
    }
    PrecedesCons(s[0], s[1..], x, y);
  }

  lemma WithValueCons(h: WordCount, t: seq<WordCount>, v: nat)
    ensures WithValue([h] + t, v) == (if h.value == v then [h] else []) + WithValue(t, v)
  {
    assert ([h] + t)[1..] == t;
  }

  /** Stable insertion: `e` goes before the first entry whose count is not
      larger than its own. */
  function InsertByCount(e: WordCount, xs: seq<WordCount>): (r: seq<WordCount>)
    requires CountsDescending(xs)
    ensures CountsDescending(r)
    ensures multiset(r) == multiset{e} + multiset(xs)
    ensures forall v :: WithValue(r, v) == WithValue([e] + xs, v)
  {
    if |xs| == 0 || e.value >= xs[0].value then
      InFront(e, xs);
      [e] + xs
    else
      var rest := InsertByCount(e, xs[1..]);
      BelowHead(e, xs, rest);
      InsertBehind(e, xs, rest);
      [xs[0]] + rest
  }

  /** An entry no smaller than the head may go in front. */
  lemma InFront(e: WordCount, xs: seq<WordCount>)
    requires CountsDescending(xs) && (|xs| == 0 || e.value >= xs[0].value)
    ensures CountsDescending([e] + xs)
  {
    var r := [e] + xs;
    assert forall i | 0 < i < |r| :: r[i] == xs[i - 1];
  }

  /** What is inserted behind a larger head stays below it. */
  lemma BelowHead(e: WordCount, xs: seq<WordCount>, rest: seq<WordCount>)
    requires |xs| > 0 && e.value < xs[0].value && CountsDescending(xs)
    requires CountsDescending(rest) && multiset(rest) == multiset{e} + multiset(xs[1..])
    ensures CountsDescending([xs[0]] + rest)
    ensures multiset([xs[0]] + rest) == multiset{e} + multiset(xs)
  {
    var r := [xs[0]] + rest;
    assert xs == [xs[0]] + xs[1..];
    forall j | 0 <= j < |rest| ensures xs[0].value >= rest[j].value {
      assert rest[j] in multiset(rest);
      if rest[j] != e {
        assert rest[j] in xs[1..];
      }
    }
    assert forall i | 0 < i < |r| :: r[i] == rest[i - 1];
  }

  /** Inserting behind a head with a larger count does not reorder any
      class of equal counts. */
  lemma InsertBehind(e: WordCount, xs: seq<WordCount>, rest: seq<WordCount>)
    requires |xs| > 0 && e.value < xs[0].value
    requires forall v :: WithValue(rest, v) == WithValue([e] + xs[1..], v)
    ensures forall v :: WithValue([xs[0]] + rest, v) == WithValue([e] + xs, v)
  {
    forall v ensures WithValue([xs[0]] + rest, v) == WithValue([e] + xs, v) {
      assert xs == [xs[0]] + xs[1..];
      WithValueCons(xs[0], rest, v);
      WithValueCons(e, xs[1..], v);
      WithValueCons(e, xs, v);
      WithValueCons(xs[0], xs[1..], v);
    }
  }

  /** `.sort((a, b) => b.value - a.value)`: the engine's sort is stable, so
      entries with equal counts keep their order. */
  function SortByCount(s: seq<WordCount>): (r: seq<WordCount>)
    ensures CountsDescending(r)
    ensures multiset(r) == multiset(s)
    ensures forall v :: WithValue(r, v) == WithValue(s, v)
  {
    if |s| == 0 then []
    else
      var sorted := SortByCount(s[1..]);
      var r := InsertByCount(s[0], sorted);
      assert s == [s[0]] + s[1..];
      forall v ensures WithValue(r, v) == WithValue(s, v) {
        WithValueCons(s[0], sorted, v);
        WithValueCons(s[0], s[1..], v);
      }
      r
  }

  /** A stable descending sort has exactly one possible result, so the
      insertion sort above gives the same sequence as the engine's sort. */
  lemma {:induction false} StableSortUnique(a: seq<WordCount>, b: seq<WordCount>)
    requires CountsDescending(a) && CountsDescending(b)
    requires forall v :: WithValue(a, v) == WithValue(b, v)
    ensures a == b
    decreases |a|
  {
    EmptyTogether(a, b);
    if |a| > 0 {
      SameHead(a, b);
      SameTailClasses(a, b);
      StableSortUnique(a[1..], b[1..]);
      assert a == [a[0]] + a[1..] && b == [b[0]] + b[1..];
    }
  }

  /** Two stable descending orders of the same classes start alike. */
  lemma SameHead(a: seq<WordCount>, b: seq<WordCount>)
    requires |a| > 0 && |b| > 0
    requires CountsDescending(a) && CountsDescending(b)
    requires forall v :: WithValue(a, v) == WithValue(b, v)
    ensures a[0] == b[0]
  {
    var v0 := a[0].value;
    HeadLeads(a, b);
    HeadLeads(b, a);
    HeadOfClass(a);
    HeadOfClass(b);
    assert WithValue(a, v0) == WithValue(b, v0);
  }

  /** The head entry is the first of its class. */
  lemma HeadOfClass(s: seq<WordCount>)
    requires |s| > 0
    ensures |WithValue(s, s[0].value)| > 0 && WithValue(s, s[0].value)[0] == s[0]
  {
    WithValueCons(s[0], s[1..], s[0].value);
    assert s == [s[0]] + s[1..];
  }

  /** The head of one descending order has a count no smaller than the
      other's head, when both hold the same entries by count. */
  lemma HeadLeads(a: seq<WordCount>, b: seq<WordCount>)
    requires |a| > 0 && |b| > 0 && CountsDescending(b)
    requires forall v :: WithValue(a, v) == WithValue(b, v)
    ensures b[0].value >= a[0].value
  {
    var v0 := a[0].value;
    assert a[0] in WithValue(a, v0);
    assert a[0] in WithValue(b, v0);
    var k :| 0 <= k < |b| && b[k] == a[0];
  }

  /** Removing the same head from both leaves the same classes. */
  lemma SameTailClasses(a: seq<WordCount>, b: seq<WordCount>)
    requires |a| > 0 && |b| > 0 && a[0] == b[0]
    requires forall v :: WithValue(a, v) == WithValue(b, v)
    ensures forall v :: WithValue(a[1..], v) == WithValue(b[1..], v)
  {
    assert a == [a[0]] + a[1..] && b == [b[0]] + b[1..];
    forall v ensures WithValue(a[1..], v) == WithValue(b[1..], v) {
      WithValueCons(a[0], a[1..], v);
      WithValueCons(b[0], b[1..], v);
      var h := if a[0].value == v then [a[0]] else [];
      assert WithValue(a[1..], v) == WithValue(a, v)[|h|..];
      assert WithValue(b[1..], v) == WithValue(b, v)[|h|..];
    }
  }

  /** Sequences with the same classes are empty together. */
  lemma EmptyTogether(a: seq<WordCount>, b: seq<WordCount>)
    requires forall v :: WithValue(a, v) == WithValue(b, v)
    ensures |a| == 0 <==> |b| == 0
  {
    WithValueHead(a);
    WithValueHead(b);
    if |a| > 0 {
      assert WithValue(a, a[0].value) == WithValue(b, a[0].value);
    }
    if |b| > 0 {
      assert WithValue(a, b[0].value) == WithValue(b, b[0].value);
    }
  }

  lemma WithValueHead(s: seq<WordCount>)
    ensures |s| > 0 ==> s[0] in WithValue(s, s[0].value)
  {
  }

  lemma {:induction false} PrecedesWithValue(s: seq<WordCount>, i: nat, j: nat)
    requires i < j < |s| && s[i].value == s[j].value
    ensures Precedes(WithValue(s, s[i].value), s[i], s[j])
  {
    var v := s[i].value;
    var t := s[1..];
    var w := WithValue(t, v);
    assert s == [s[0]] + t;
    WithValueCons(s[0], t, v);
    assert s[j] == t[j - 1];
    if i == 0 {
      assert WithValue(s, v) == [s[0]] + w;
      assert s[j] in w;
      PrecedesCons(s[0], w, s[i], s[j]);
    } else {
      assert s[i] == t[i - 1];
      PrecedesWithValue(t, i - 1, j - 1);
      assert Precedes(w, s[i], s[j]);
      if s[0].value == v {
        assert WithValue(s, v) == [s[0]] + w;
        PrecedesCons(s[0], w, s[i], s[j]);
      } else {
        assert WithValue(s, v) == w;
      }
    }
  }

  // ---------------------------------------------------------------------------
  // Distinct entries

  lemma {:induction false} TwiceCounted(s: seq<WordCount>, i: nat, j: nat)
    requires i < j < |s| && s[i] == s[j]
    ensures multiset(s)[s[i]] >= 2
  {
    assert s == s[..i] + [s[i]] + s[i + 1..j] + [s[j]] + s[j + 1..];
  }

  lemma {:induction false} OnceCounted(s: seq<WordCount>, x: WordCount)
    requires DistinctNames(s)
    ensures multiset(s)[x] <= 1
  {
    if |s| > 0 {
      assert s == [s[0]] + s[1..];
      OnceCounted(s[1..], x);
      if x == s[0] {
        assert x !in s[1..];
      }
    }
  }

  /** Reordering keeps the names distinct. */
  lemma DistinctNamesPermutation(a: seq<WordCount>, b: seq<WordCount>)
    requires multiset(a) == multiset(b) && DistinctNames(a)
    ensures DistinctNames(b)
  {
    forall i, j | 0 <= i < j < |b| ensures b[i].name != b[j].name {
      if b[i].name == b[j].name {
        assert b[i] in multiset(a) && b[j] in multiset(a);
        var p :| 0 <= p < |a| && a[p] == b[i];
        var q :| 0 <= q < |a| && a[q] == b[j];
        assert p == q;
        TwiceCounted(b, i, j);
        OnceCounted(a, b[i]);
      }
    }
  }

  // ---------------------------------------------------------------------------
  // The ranking

  /** The order `Object.entries` lists two keys in: array indices first in
      ascending numeric order, then the other keys by first occurrence. */
  predicate EntryOrder(a: string, b: string, ws: seq<string>) {
    if IsArrayIndex(a) then IsArrayIndex(b) ==> NumLe(a, b)
    else !IsArrayIndex(b) && FirstPos(ws, a) < FirstPos(ws, b)
  }

  /** What the chart shows for the tokens `ws`: the twenty (or fewer) most
      frequent distinct tokens with their counts, most frequent first, equal
      counts in `Object.entries` order, and nothing left out that beats a
      shown word. */
  ghost predicate IsRanking(ws: seq<string>, r: seq<WordCount>) {
    && |r| == Min(TopCount, |Vocabulary(ws)|)
    && DistinctNames(r)
    && (forall i :: 0 <= i < |r| ==> r[i].name in ws && r[i].value == multiset(ws)[r[i].name])
    && CountsDescending(r)
    && (forall i, j :: 0 <= i < j < |r| && r[i].value == r[j].value ==>
         EntryOrder(r[i].name, r[j].name, ws))
    && (forall w, i :: w in ws && w !in Names(r) && 0 <= i < |r| ==>
         && multiset(ws)[w] <= r[i].value
         && (multiset(ws)[w] == r[i].value ==> EntryOrder(r[i].name, w, ws)))
  }

  /** All entries, sorted; the chart keeps a prefix of this. */
  function Sorted(ws: seq<string>): seq<WordCount> {
    SortByCount(ObjectEntries(Tally(ws)))
  }

  lemma {:induction false} SortedTies(ws: seq<string>, i: nat, j: nat)
    requires i < j
    ensures j < |Sorted(ws)| && Sorted(ws)[i].value == Sorted(ws)[j].value ==>
      EntryOrder(Sorted(ws)[i].name, Sorted(ws)[j].name, ws)
  {
    var m := Tally(ws);
    var e := ObjectEntries(m);
    var s := SortByCount(e);
    if j < |s| && s[i].value == s[j].value {
      var x, y := s[i], s[j];
      PrecedesWithValue(s, i, j);
      assert WithValue(s, x.value) == WithValue(e, x.value);
      WithValuePrecedes(e, x.value, x, y);
      var p, q :| 0 <= p < q < |e| && e[p] == x && e[q] == y;
      if !IsArrayIndex(x.name) {
        assert !IsArrayIndex(y.name);
        assert Precedes(m, x, y);
        var p', q' :| 0 <= p' < q' < |m| && m[p'] == x && m[q'] == y;
      }
    }
  }

  lemma SortedEntries(ws: seq<string>)
    ensures |Sorted(ws)| == |Vocabulary(ws)|
    ensures DistinctNames(Sorted(ws))
    ensures forall x :: x in Sorted(ws) <==> x in Tally(ws)
  {
    var m := Tally(ws);
    var s := Sorted(ws);
    TallySize(ws);
    assert |s| == |multiset(s)| == |multiset(m)| == |m|;
    DistinctNamesPermutation(m, s);
    forall x ensures x in s <==> x in m {
      assert x in s <==> x in multiset(s);
      assert x in m <==> x in multiset(m);
    }
  }

  /** Equal counts in `s` appear in `Object.entries` order. */
  ghost predicate TiesInEntryOrder(ws: seq<string>, s: seq<WordCount>) {
    forall i, j :: 0 <= i < j < |s| && s[i].value == s[j].value ==> EntryOrder(s[i].name, s[j].name, ws)
  }

  lemma SortedTiesAll(ws: seq<string>)
    ensures TiesInEntryOrder(ws, Sorted(ws))
  {
    forall i, j | 0 <= i < j < |Sorted(ws)| && Sorted(ws)[i].value == Sorted(ws)[j].value
      ensures EntryOrder(Sorted(ws)[i].name, Sorted(ws)[j].name, ws)
    {
      SortedTies(ws, i, j);
    }
  }

  /** `.slice(0, 20)` of the sorted entries. */
  function Rank(ws: seq<string>): (r: seq<WordCount>)
    ensures IsRanking(ws, r)
  {
    var s := Sorted(ws);
    var r := s[..Min(TopCount, |s|)];
    SortedEntries(ws);
    SortedTiesAll(ws);
    PrefixRanking(ws, Tally(ws), s, r);
    r
  }

  /** A prefix of the sorted entries is a ranking. */
  lemma PrefixRanking(ws: seq<string>, m: seq<WordCount>, s: seq<WordCount>, r: seq<WordCount>)
    requires IsTally(ws, m)
    requires |s| == |Vocabulary(ws)| && DistinctNames(s)
    requires forall x :: x in s <==> x in m
    requires CountsDescending(s) && TiesInEntryOrder(ws, s)
    requires r == s[..Min(TopCount, |s|)]
    ensures IsRanking(ws, r)
  {
    PrefixCounts(ws, m, s, r);
    PrefixTopK(ws, m, s, r);
  }

  lemma PrefixCounts(ws: seq<string>, m: seq<WordCount>, s: seq<WordCount>, r: seq<WordCount>)
    requires IsTally(ws, m)
    requires forall x :: x in s <==> x in m
    requires |r| <= |s| && r == s[..|r|]
    ensures forall i :: 0 <= i < |r| ==> r[i].name in ws && r[i].value == multiset(ws)[r[i].name]
  {
    forall i | 0 <= i < |r| ensures r[i].name in ws && r[i].value == multiset(ws)[r[i].name] {
      assert r[i] == s[i];
      assert r[i] in s;
      assert r[i] in m;
      var p :| 0 <= p < |m| && m[p] == r[i];
      assert Names(m)[p] == r[i].name;
    }
  }

  lemma PrefixTopK(ws: seq<string>, m: seq<WordCount>, s: seq<WordCount>, r: seq<WordCount>)
    requires IsTally(ws, m)
    requires forall x :: x in s <==> x in m
    requires CountsDescending(s) && TiesInEntryOrder(ws, s)
    requires |r| <= |s| && r == s[..|r|]
    ensures forall w, i :: w in ws && w !in Names(r) && 0 <= i < |r| ==>
      && multiset(ws)[w] <= r[i].value
      && (multiset(ws)[w] == r[i].value ==> EntryOrder(r[i].name, w, ws))
  {
    forall w, i | w in ws && w !in Names(r) && 0 <= i < |r|
      ensures multiset(ws)[w] <= r[i].value
      ensures multiset(ws)[w] == r[i].value ==> EntryOrder(r[i].name, w, ws)
    {
      assert w in Names(m);
      var p :| 0 <= p < |m| && Names(m)[p] == w;
      assert m[p] in s;
      var q :| 0 <= q < |s| && s[q] == m[p];
      assert q >= |r|;
      assert s[i] == r[i];
    }
  }

  /** The `wordData` memo: an empty text shows nothing; otherwise the ranking
      of its tokens, every shown word being a qualifying token. */
  function WordData(text: string): (r: seq<WordCount>)
    ensures text == [] ==> r == []
    ensures IsRanking(Tokens(text), r)
    ensures forall i :: 0 <= i < |r| ==> IsWord(r[i].name)
  {
    TokensAreWords(text);
    if text == [] then
      EmptyTextHasNoTokens();
      assert Vocabulary(Tokens(text)) == {};
      []
    else Rank(Tokens(text))
  }

  // ---------------------------------------------------------------------------
  // Ordered pairs of elements

  /** `a` occurs in `s` at some position before an occurrence of `b`. */
  predicate Precedes<T(==)>(s: seq<T>, a: T, b: T) {
    exists i, j :: 0 <= i < j < |s| && s[i] == a && s[j] == b
  }

  lemma PrecedesCons<T>(h: T, t: seq<T>, a: T, b: T)
    ensures Precedes([h] + t, a, b) <==> (h == a && b in t) || Precedes(t, a, b)
  {
    var s := [h] + t;
    if Precedes(s, a, b) {
      var i, j :| 0 <= i < j < |s| && s[i] == a && s[j] == b;
      if i > 0 {
        assert t[i - 1] == a && t[j - 1] == b;
      } else {
        assert t[j - 1] == b;
      }
    }
    if h == a && b in t {
      var j :| 0 <= j < |t| && t[j] == b;
      assert s[0] == a && s[j + 1] == b;
    }
    if Precedes(t, a, b) {
      var i, j :| 0 <= i < j < |t| && t[i] == a && t[j] == b;
      assert s[i + 1] == a && s[j + 1] == b;
    }
  }
}
