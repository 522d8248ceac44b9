/** The JavaScript string operations the workbench relies on, over Dafny
    strings (`seq<char>`, one element per code point).

    Case folding is modelled on ASCII only; `\s` and `trim()` use the exact
    ECMAScript WhiteSpace and LineTerminator code points. */
module Text {

  // ---------------------------------------------------------------------------
  // Characters

  /** The code points matched by the regular-expression class `\s` and removed
      by `String.prototype.trim`. */
  predicate IsJsSpace(c: char) {
    || c == '\t' || c == '\n' || c == '\U{000B}' || c == '\U{000C}' || c == '\r'
    || c == ' ' || c == '\U{00A0}' || c == '\U{1680}'
    || ('\U{2000}' <= c <= '\U{200A}')
    || c == '\U{2028}' || c == '\U{2029}' || c == '\U{202F}' || c == '\U{205F}'
    || c == '\U{3000}' || c == '\U{FEFF}'
  }

  predicate IsAsciiUpper(c: char) {
    'A' <= c <= 'Z'
  }

  predicate IsDigit(c: char) {
    '0' <= c <= '9'
  }

  function LowerChar(c: char): (r: char)
    ensures !IsAsciiUpper(r)
    ensures IsAsciiUpper(c) ==> r as int == c as int + 32
    ensures !IsAsciiUpper(c) ==> r == c
  {
    if IsAsciiUpper(c) then (c as int + 32) as char else c
  }

  /** `s.toLowerCase()`, restricted to the ASCII letters. */
  function Lower(s: string): (r: string)
    ensures |r| == |s|
    ensures forall i :: 0 <= i < |s| ==> r[i] == LowerChar(s[i])
    ensures forall c :: c in r ==> !IsAsciiUpper(c)
  {
    seq(|s|, i requires 0 <= i < |s| => LowerChar(s[i]))
  }

  /** Lower-casing twice is lower-casing once. */
  lemma LowerIdempotent(s: string)
    ensures Lower(Lower(s)) == Lower(s)
  {
    assert forall i :: 0 <= i < |s| ==> Lower(Lower(s))[i] == Lower(s)[i];
  }

  // ---------------------------------------------------------------------------
  // Prefixes, blanks and trimming

  predicate StartsWith(s: string, prefix: string) {
    |prefix| <= |s| && s[..|prefix|] == prefix
  }

  /** Every character is white space, so `s.trim()` is empty. */
  predicate IsBlank(s: string) {
    forall i :: 0 <= i < |s| ==> IsJsSpace(s[i])
  }

  /** The index just past the last character before `j` that is not white
      space, or 0 when there is none. */
  function TrimEndIndex(s: string, j: nat): (e: nat)
    requires j <= |s|
    ensures e <= j
    ensures forall k | e <= k < j :: IsJsSpace(s[k])
    ensures e == 0 || !IsJsSpace(s[e - 1])
    decreases j
  {
    if j > 0 && IsJsSpace(s[j - 1]) then TrimEndIndex(s, j - 1) else j
  }

  /** `s.trim()`: the text between the leading and the trailing white
      space; only a blank text trims to nothing. */
  function Trim(s: string): (r: string)
    ensures var lead := SkipSpaces(s, 0);
      && lead + |r| <= |s|
      && r == s[lead..lead + |r|]
      && forall k | lead + |r| <= k < |s| :: IsJsSpace(s[k])
    ensures r == [] <==> IsBlank(s)
    ensures r == [] || (!IsJsSpace(r[0]) && !IsJsSpace(r[|r| - 1]))
  {
    var lead := SkipSpaces(s, 0);
    var end := TrimEndIndex(s, |s|);
    assert s[0..|s|] == s;
    if lead == |s| then [] else s[lead..end]
  }

  // ---------------------------------------------------------------------------
  // Joining and splitting

  /** `parts.join(sep)`. */
  function Join(parts: seq<string>, sep: string): (r: string)
    ensures |parts| == 0 ==> r == []
    ensures |parts| == 1 ==> r == parts[0]
  {
    if |parts| == 0 then []
    else if |parts| == 1 then parts[0]
    else parts[0] + sep + Join(parts[1..], sep)
  }

  /** The index of the first occurrence of `c`. */
  function IndexOf(s: string, c: char): (i: nat)
    requires c in s
    ensures i < |s| && s[i] == c && c !in s[..i]
  {
    if s[0] == c then 0 else 1 + IndexOf(s[1..], c)
  }

  /** `s.split(sep)` for a one-character separator: the pieces between the
      separators, empty ones included. Joining them back gives `s`. */
  function Split(s: string, sep: char): (r: seq<string>)
    ensures |r| >= 1
    ensures forall k :: 0 <= k < |r| ==> sep !in r[k]
    ensures Join(r, [sep]) == s
    decreases |s|
  {
    if sep !in s then [s]
    else
      var i := IndexOf(s, sep);
      var rest := Split(s[i + 1..], sep);
      assert s == s[..i] + [sep] + s[i + 1..];
      [s[..i]] + rest
  }

  /** The first piece of a split is the text up to the first separator, or
      all of it when there is none. */
  lemma SplitFirstPiece(s: string, sep: char)
    ensures var p := Split(s, sep)[0];
      && |p| <= |s| && s[..|p|] == p
      && (|p| == |s| || s[|p|] == sep)
  {
  }

  /** A separator with none before it is the first one. */
  lemma IndexOfAt(s: string, c: char, i: nat)
    requires i < |s| && s[i] == c && c !in s[..i]
    ensures IndexOf(s, c) == i
  {
    var f := IndexOf(s, c);
    assert forall k | 0 <= k < i :: s[..i][k] == s[k];
    assert forall k | 0 <= k < f :: s[..f][k] == s[k];
  }

  /** One step of `Split` at the first separator. */
  lemma SplitAt(s: string, sep: char, i: nat)
    requires i < |s| && s[i] == sep && sep !in s[..i]
    ensures Split(s, sep) == [s[..i]] + Split(s[i + 1..], sep)
  {
    IndexOfAt(s, sep, i);
  }

  /** Splitting a join gives the parts back when none holds the separator. */
  lemma {:induction false} SplitJoin(parts: seq<string>, sep: char)
    requires |parts| >= 1
    requires forall k :: 0 <= k < |parts| ==> sep !in parts[k]
    ensures Split(Join(parts, [sep]), sep) == parts
  {
    if |parts| > 1 {
      var head := parts[0];
      var tail := Join(parts[1..], [sep]);
      var s := head + [sep] + tail;
      assert Join(parts, [sep]) == s;
      assert s[..|head|] == head;
      SplitAt(s, sep, |head|);
      assert s[|head| + 1..] == tail;
      SplitJoin(parts[1..], sep);
      assert parts == [head] + parts[1..];
    }
  }

  /** The first index at or after `i` that does not hold white space. */
  function SkipSpaces(s: string, i: nat): (j: nat)
    requires i <= |s|
    ensures i <= j <= |s|
    ensures IsBlank(s[i..j])
    ensures j == |s| || !IsJsSpace(s[j])
    decreases |s| - i
  {
    if i < |s| && IsJsSpace(s[i]) then
      var j := SkipSpaces(s, i + 1);
      assert s[i..j] == [s[i]] + s[i + 1..j];
      j
    else i
  }

  predicate HasSpace(s: string) {
    exists i :: 0 <= i < |s| && IsJsSpace(s[i])
  }

  function FirstSpace(s: string): (i: nat)
    requires HasSpace(s)
    ensures i < |s| && IsJsSpace(s[i]) && !HasSpace(s[..i])
  {
    if IsJsSpace(s[0]) then 0
    else
      var i := FirstSpace(s[1..]);
      assert s[..i + 1] == [s[0]] + s[1..][..i];
      1 + i
  }

  /** The characters of `s` that are not white space, in order. */
  function NonSpace(s: string): (r: string)
    ensures forall c :: c in r ==> c in s && !IsJsSpace(c)
  {
    if |s| == 0 then []
    else (if IsJsSpace(s[0]) then [] else [s[0]]) + NonSpace(s[1..])
  }

  function Concat(parts: seq<string>): string {
    if |parts| == 0 then [] else parts[0] + Concat(parts[1..])
  }

  lemma NonSpaceAppend(a: string, b: string)
    ensures NonSpace(a + b) == NonSpace(a) + NonSpace(b)
  {
    if |a| > 0 {
      assert (a + b)[1..] == a[1..] + b;
      NonSpaceAppend(a[1..], b);
    } else {
      assert a + b == b;
    }
  }

  lemma NonSpaceOfWord(s: string)
    requires !HasSpace(s)
    ensures NonSpace(s) == s
  {
    if |s| > 0 {
      assert !HasSpace(s[1..]) by {
        forall i | 0 <= i < |s[1..]| ensures !IsJsSpace(s[1..][i]) {
          assert s[1..][i] == s[i + 1];
        }
      }
      NonSpaceOfWord(s[1..]);
    }
  }

  lemma NonSpaceOfBlank(s: string)
    requires IsBlank(s)
    ensures NonSpace(s) == []
  {
    if |s| > 0 {
      NonSpaceOfBlank(s[1..]);
    }
  }

  /** Cutting `s` at a run of white space `s[i..j]` that follows a word. */
  lemma NonSpaceAtRun(s: string, i: nat, j: nat)
    requires i <= j <= |s|
    requires !HasSpace(s[..i]) && IsBlank(s[i..j])
    ensures NonSpace(s) == s[..i] + NonSpace(s[j..])
  {
    var word, gap, rest := s[..i], s[i..j], s[j..];
    assert s == (word + gap) + rest;
    NonSpaceOfWord(word);
    NonSpaceOfBlank(gap);
    NonSpaceAppend(word, gap);
    assert NonSpace(word + gap) == word;
    NonSpaceAppend(word + gap, rest);
  }

  /** `s.split(/\s+/)`: the pieces between maximal runs of white space. A
      leading or trailing run gives an empty first or last piece; every other
      piece is a non-empty word. */
  function SplitWs(s: string): (r: seq<string>)
    ensures |r| >= 1
    ensures forall k :: 0 <= k < |r| ==> !HasSpace(r[k])
    ensures forall k :: 0 < k < |r| - 1 ==> r[k] != []
    ensures |s| > 0 && !IsJsSpace(s[0]) ==> r[0] != []
    ensures Concat(r) == NonSpace(s)
    decreases |s|
  {
    if !HasSpace(s) then
      NonSpaceOfWord(s);
      [s]
    else
      var i := FirstSpace(s);
      var j := SkipSpaces(s, i);
      var rest := SplitWs(s[j..]);
      NonSpaceAtRun(s, i, j);
      [s[..i]] + rest
  }

  /** A space with no space before it is the first one. */
  lemma FirstSpaceAt(s: string, i: nat)
    requires i < |s| && IsJsSpace(s[i]) && !HasSpace(s[..i])
    ensures FirstSpace(s) == i
  {
    var f := FirstSpace(s);
    assert forall k | 0 <= k < i :: s[..i][k] == s[k];
    assert forall k | 0 <= k < f :: s[..f][k] == s[k];
    assert forall k | 0 <= k < i :: !IsJsSpace(s[k]);
    assert forall k | 0 <= k < f :: !IsJsSpace(s[k]);
  }

  /** Skipping from the start of a run of white space lands just past it. */
  lemma SkipSpacesOverRun(s: string, i: nat, j: nat)
    requires i <= j <= |s|
    requires IsBlank(s[i..j]) && (j == |s| || !IsJsSpace(s[j]))
    ensures SkipSpaces(s, i) == j
  {
    var e := SkipSpaces(s, i);
    assert forall k | i <= k < j :: s[i..j][k - i] == s[k];
    assert forall k | i <= k < e :: s[i..e][k - i] == s[k];
  }

  /** Where `split(/\s+/)` cuts: a word without white space is one piece, and
      a word followed by a run of white space and then a non-space character
      (or the end) is cut off as the first piece, whatever the run is. */
  lemma {:induction false} SplitWsAtRun(w: string, gap: string, rest: string)
    requires !HasSpace(w)
    requires gap != [] && IsBlank(gap)
    requires rest == [] || !IsJsSpace(rest[0])
    ensures SplitWs(w) == [w]
    ensures SplitWs(w + gap + rest) == [w] + SplitWs(rest)
  {
    var s := w + gap + rest;
    var i, j := |w|, |w| + |gap|;
    assert s[..i] == w;
    assert s[i] == gap[0];
    FirstSpaceAt(s, i);
    assert s[i..j] == gap;
    assert s[j..] == rest;
    SkipSpacesOverRun(s, i, j);
  }

  // ---------------------------------------------------------------------------
  // Numbers

  /** The value of a string of decimal digits. */
  function DigitsValue(s: string): nat
    requires forall i :: 0 <= i < |s| ==> IsDigit(s[i])
  {
    if |s| == 0 then 0
    else
      assert IsDigit(s[|s| - 1]);
      DigitsValue(s[..|s| - 1]) * 10 + (s[|s| - 1] as int - '0' as int)
  }

  function DigitChar(d: nat): (c: char)
    requires d < 10
    ensures IsDigit(c)
  {
    ('0' as int + d) as char
  }

  /** `n.toString()` for a natural number. */
  function NatToString(n: nat): (r: string)
    ensures |r| >= 1
    ensures forall i :: 0 <= i < |r| ==> IsDigit(r[i])
    ensures n >= 10 ==> r[0] != '0'
  {
    if n < 10 then [DigitChar(n)]
    else NatToString(n / 10) + [DigitChar(n % 10)]
  }

  /** The digits `n.toString()` writes spell `n`. */
  lemma {:induction false} NatToStringValue(n: nat)
    ensures DigitsValue(NatToString(n)) == n
  {
    var r := NatToString(n);
    if n < 10 {
      assert r[..0] == [];
    } else {
      var front := NatToString(n / 10);
      assert r[..|r| - 1] == front;
      NatToStringValue(n / 10);
    }
  }
}
