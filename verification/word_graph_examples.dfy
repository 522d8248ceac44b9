/** The two worked examples of the word-frequency ranking. */
module WordGraphExamples {
  import opened Text
  import opened WordGraph

  /** Lower-case ASCII letters only. */
  predicate Letters(s: string) {
    forall i | 0 <= i < |s| :: 'a' <= s[i] <= 'z'
  }

  /** Lower-case ASCII letters and plain spaces only. */
  predicate LowerWords(s: string) {
    forall i | 0 <= i < |s| :: 'a' <= s[i] <= 'z' || s[i] == ' '
  }

  /** Lower-casing and punctuation stripping leave such text alone. */
  lemma LowerWordsUnchanged(s: string)
    requires LowerWords(s)
    ensures Lower(s) == s && StripPunct(s) == s
  {
    assert forall i | 0 <= i < |s| :: Lower(s)[i] == s[i];
    StripPunctKeeps(s);
  }

  lemma {:induction false} StripPunctKeeps(s: string)
    requires LowerWords(s)
    ensures StripPunct(s) == s
  {
    if |s| > 0 {
      assert LowerWords(s[1..]) by {
        assert forall i | 0 <= i < |s| - 1 :: s[1..][i] == s[i + 1];
      }
      StripPunctKeeps(s[1..]);
      LetterKept(s[0]);
      assert s == [s[0]] + s[1..];
    }
  }

  lemma LetterKept(c: char)
    requires 'a' <= c <= 'z' || c == ' '
    ensures !IsStripped(c)
  {
  }

  lemma LettersHaveNoSpace(w: string)
    requires Letters(w)
    ensures !HasSpace(w)
  {
  }

  /** A word followed by one space and more text splits off as one piece. */
  lemma SplitWsWord(w: string, rest: string)
    requires w != [] && Letters(w) && |rest| > 0 && 'a' <= rest[0] <= 'z'
    ensures SplitWs(w + " " + rest) == [w] + SplitWs(rest)
  {
    LettersHaveNoSpace(w);
    SplitWsAtRun(w, " ", rest);
  }

  /** A word with no space in it is a single piece. */
  lemma SplitWsLast(w: string)
    requires Letters(w)
    ensures SplitWs(w) == [w]
  {
    LettersHaveNoSpace(w);
  }

  const AnimalText := "elephant elephant tiger tiger tiger lion"
  const AnimalPieces: seq<string> := ["elephant", "elephant", "tiger", "tiger", "tiger", "lion"]

  /** Non-empty lower-case words joined by single spaces split back into those words. */
  lemma {:induction false} SplitJoined(ws: seq<string>)
    requires |ws| > 0
    requires forall i | 0 <= i < |ws| :: ws[i] != [] && Letters(ws[i])
    ensures SplitWs(Join(ws, " ")) == ws
  {
    if |ws| == 1 {
      SplitWsLast(ws[0]);
    } else {
      var rest := Join(ws[1..], " ");
      SplitJoined(ws[1..]);
      JoinStartsWithFirst(ws[1..]);
      assert 'a' <= rest[0] <= 'z';
      SplitWsWord(ws[0], rest);
      assert [ws[0]] + ws[1..] == ws;
    }
  }

  lemma {:induction false} JoinStartsWithFirst(ws: seq<string>)
    requires |ws| > 0 && ws[0] != []
    ensures |Join(ws, " ")| > 0 && Join(ws, " ")[0] == ws[0][0]
  {
  }

  /** Words that all pass both filters survive `Keep` unchanged. */
  lemma {:induction false} KeepAll(ws: seq<string>)
    requires forall i | 0 <= i < |ws| :: Qualifies(ws[i])
    ensures Keep(ws) == ws
  {
    if |ws| > 0 {
      KeepAll(ws[1..]);
      KeepCons(ws[0], ws[1..]);
      assert [ws[0]] + ws[1..] == ws;
    }
  }

  lemma AnimalTextIsLowerWords()
    ensures LowerWords(AnimalText)
  {
  }

  lemma AnimalTextIsJoined()
    ensures Join(AnimalPieces, " ") == AnimalText
  {
  }

  lemma AnimalPiecesAreLetters()
    ensures forall i | 0 <= i < |AnimalPieces| :: AnimalPieces[i] != [] && Letters(AnimalPieces[i])
  {
  }

  lemma AnimalPiecesQualify()
    ensures forall i | 0 <= i < |AnimalPieces| :: Qualifies(AnimalPieces[i])
  {
  }

  lemma AnimalsUnchanged()
    ensures Lower(AnimalText) == AnimalText && StripPunct(AnimalText) == AnimalText
  {
    AnimalTextIsLowerWords();
    LowerWordsUnchanged(AnimalText);
  }

  lemma AnimalsSplit()
    ensures SplitWs(AnimalText) == AnimalPieces
  {
    AnimalTextIsJoined();
    AnimalPiecesAreLetters();
    SplitJoined(AnimalPieces);
  }

  lemma AnimalsKeep()
    ensures Keep(AnimalPieces) == AnimalPieces
  {
    AnimalPiecesQualify();
    KeepAll(AnimalPieces);
  }

  /** "elephant elephant tiger tiger tiger lion" tokenizes to its six words. */
  lemma AnimalsTokens()
    ensures Tokens(AnimalText) == AnimalPieces
  {
    AnimalsUnchanged();
    AnimalsSplit();
    AnimalsKeep();
  }

  /** Three words with counts 3, 2 and 1 leave exactly one ranking. */
  lemma {:induction false} RankingOfThree(ws: seq<string>, r: seq<WordCount>, a: string, b: string, c: string)
    requires IsRanking(ws, r)
    requires Vocabulary(ws) == {a, b, c} && a != b && b != c && a != c
    requires multiset(ws)[a] == 3 && multiset(ws)[b] == 2 && multiset(ws)[c] == 1
    ensures r == [WordCount(a, 3), WordCount(b, 2), WordCount(c, 1)]
  {
    assert |Vocabulary(ws)| == 3;
    assert |r| == 3;
    forall i | 0 <= i < 3
      ensures || (r[i].name == a && r[i].value == 3)
              || (r[i].name == b && r[i].value == 2)
              || (r[i].name == c && r[i].value == 1)
    {
      assert r[i].name in Vocabulary(ws);
    }
    ThreeInOrder(r, a, b, c);
  }

  /** Three entries with counts 3, 2 and 1, in descending order. */
  lemma ThreeInOrder(r: seq<WordCount>, a: string, b: string, c: string)
    requires |r| == 3 && a != b && b != c && a != c
    requires forall i | 0 <= i < 3 ::
      || (r[i].name == a && r[i].value == 3)
      || (r[i].name == b && r[i].value == 2)
      || (r[i].name == c && r[i].value == 1)
    requires r[0].value >= r[1].value >= r[2].value
    requires r[0].name != r[1].name && r[1].name != r[2].name
    ensures r == [WordCount(a, 3), WordCount(b, 2), WordCount(c, 1)]
  {
    assert r[0] == WordCount(a, 3);
    assert r[1] == WordCount(b, 2);
  }

  lemma AnimalCounts()
    ensures Vocabulary(AnimalPieces) == {"elephant", "tiger", "lion"}
    ensures multiset(AnimalPieces)["tiger"] == 3
    ensures multiset(AnimalPieces)["elephant"] == 2
    ensures multiset(AnimalPieces)["lion"] == 1
  {
    assert multiset(AnimalPieces) == multiset{"elephant", "elephant", "tiger", "tiger", "tiger", "lion"};
  }

  lemma {:induction false} WordDataOfThree(text: string, a: string, b: string, c: string)
    requires Vocabulary(Tokens(text)) == {a, b, c} && a != b && b != c && a != c
    requires multiset(Tokens(text))[a] == 3 && multiset(Tokens(text))[b] == 2
    requires multiset(Tokens(text))[c] == 1
    ensures WordData(text) == [WordCount(a, 3), WordCount(b, 2), WordCount(c, 1)]
  {
    RankingOfThree(Tokens(text), WordData(text), a, b, c);
  }

  /** The chart for "elephant elephant tiger tiger tiger lion" is tiger 3,
      elephant 2, lion 1. */
  lemma AnimalsExample()
    ensures WordData(AnimalText) == [WordCount("tiger", 3), WordCount("elephant", 2), WordCount("lion", 1)]
  {
    AnimalsTokens();
    AnimalCounts();
    WordDataOfThree(AnimalText, "tiger", "elephant", "lion");
  }

  const ShortText := "the cat sat on the mat"
  const ShortPieces: seq<string> := ["the", "cat", "sat", "on", "the", "mat"]

  /** Words of three letters or fewer are all dropped. */
  lemma {:induction false} KeepNone(ws: seq<string>)
    requires forall i | 0 <= i < |ws| :: |ws[i]| <= 3
    ensures Keep(ws) == []
  {
    if |ws| > 0 {
      KeepNone(ws[1..]);
      KeepCons(ws[0], ws[1..]);
      assert [ws[0]] + ws[1..] == ws;
    }
  }

  lemma ShortTextIsLowerWords()
    ensures LowerWords(ShortText)
  {
  }

  lemma ShortTextIsJoined()
    ensures Join(ShortPieces, " ") == ShortText
  {
  }

  lemma ShortPiecesAreLetters()
    ensures forall i | 0 <= i < |ShortPieces| :: ShortPieces[i] != [] && Letters(ShortPieces[i])
    ensures forall i | 0 <= i < |ShortPieces| :: |ShortPieces[i]| <= 3
  {
  }

  lemma ShortTokens()
    ensures Tokens(ShortText) == []
  {
    ShortTextIsLowerWords();
    LowerWordsUnchanged(ShortText);
    ShortTextIsJoined();
    ShortPiecesAreLetters();
    SplitJoined(ShortPieces);
    KeepNone(ShortPieces);
  }

  lemma {:induction false} WordDataOfNone(text: string)
    requires Tokens(text) == []
    ensures WordData(text) == []
  {
    assert Vocabulary(Tokens(text)) == {};
  }

  /** "the cat sat on the mat" has no word longer than three letters, so the
      chart is empty. */
  lemma ShortWordsExample()
    ensures WordData(ShortText) == []
  {
    ShortTokens();
    WordDataOfNone(ShortText);
  }
}
