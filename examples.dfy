/** Worked questions: what the featuriser makes of a few concrete inputs,
    each an instance of a general lemma. */
module Examples {
  import opened Text
  import opened BagOfWords

  /** An apostrophe is deleted, not treated as a separator: "what's" is the
      single token "whats". */
  lemma ApostropheJoinsWord()
    ensures Tokens("what's") == ["whats"]
  {
    var u, v := "what", "s";
    assert "what's" == u + ['\''] + v && u + v == "whats";
    assert IsWord(u) && IsWord(v) && IsDeleted('\'');
    TokensAcrossDeleted(u, '\'', v);
  }

  /** A run of spaces separates two words like a single space does. */
  lemma SpacesCollapse()
    ensures Tokens("blue   blue") == ["blue", "blue"]
  {
    var w, gap := "blue", "   ";
    assert "blue   blue" == w + gap + w;
    assert IsWord(w) && AllWhiteSpace(gap);
    TokensOfWords(w, gap, w);
  }

  /** So a word written twice with three spaces between counts 2. */
  lemma RepeatedWordCountsTwice(wordIndex: map<string, nat>)
    requires SlotsInRange(wordIndex)
    requires "blue" in wordIndex
    ensures BagOf("blue   blue", wordIndex)[wordIndex["blue"]] == 2
  {
    var w, gap := "blue", "   ";
    assert "blue   blue" == w + gap + w;
    assert IsWord(w) && AllWhiteSpace(gap);
    BagOfRepeatedWord(w, gap, wordIndex);
  }

  /** Upper case and a trailing question mark make no difference. */
  lemma CaseAndPunctuation(wordIndex: map<string, nat>)
    requires SlotsInRange(wordIndex)
    ensures BagOf("Is there a BLUE shape?", wordIndex) == BagOf("is there a blue shape", wordIndex)
  {
    TrailingMarkDropped();
    UpperCaseIgnored();
  }

  lemma TrailingMarkDropped()
    ensures Normalise("Is there a BLUE shape?") == Normalise("Is there a BLUE shape")
  {
    var a := "Is there a BLUE shape";
    assert "Is there a BLUE shape?" == a + ['?'] + [] && a + [] == a;
    NormaliseDropsDeleted(a, '?', []);
  }

  lemma UpperCaseIgnored()
    ensures Normalise("Is there a BLUE shape") == Normalise("is there a blue shape")
  {
    var a, b := "Is there a BLUE shape", "is there a blue shape";
    assert SameUpToCase(a, b) by {
      forall i | 0 <= i < |a| ensures CaseVariants(a[i], b[i]) {
      }
    }
    NormaliseIgnoresCase(a, b);
  }

  /** Trimming happens before punctuation is deleted, so the spaces that
      stood next to the deleted question marks survive as empty tokens. */
  lemma TrimBeforeStrip()
    ensures Tokens("? blue ?") == ["", "blue", ""]
  {
    var w := "blue";
    assert "? blue ?" == ['?', ' '] + w + [' ', '?'];
    assert IsWord(w) && IsDeleted('?');
    TokensOfMarkedWord('?', w, '?');
  }
}
