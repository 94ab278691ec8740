/** The question featuriser `getBagOfWords`: a free-text question becomes a
    vector of word counts over a vocabulary that maps each word to a slot.
    The vocabulary is a parameter here; the vector has one slot more than the
    vocabulary has words. */
module BagOfWords {
  import opened Text

  /** Every slot a word maps to is an index of a vector of length
      |keys| + 1. */
  predicate SlotsInRange(wordIndex: map<string, nat>)
  {
    forall w :: w in wordIndex ==> wordIndex[w] <= |wordIndex|
  }

  /** No two words share a slot. */
  predicate Injective(wordIndex: map<string, nat>)
  {
    forall v, w :: v in wordIndex && w in wordIndex && v != w ==> wordIndex[v] != wordIndex[w]
  }

  function Zeros(n: nat): seq<nat>
  {
    seq(n, _ => 0)
  }

  /** The tokens of a question: its normalised form split on single
      spaces. */
  function Tokens(question: string): seq<string>
  {
    Split(Normalise(question))
  }

  /** Tokens hold only lower-case ASCII letters and digits, and only the first
      and the last token can be empty. */
  lemma TokensShape(question: string)
    ensures forall i :: 0 <= i < |Tokens(question)| ==> IsLowerAlnum(Tokens(question)[i])
    ensures forall i :: 0 < i < |Tokens(question)| - 1 ==> Tokens(question)[i] != []
  {
    NormaliseShape(question);
    SplitNormal(Normalise(question));
  }

  /** A question that is already one normalised word is that single token. */
  lemma TokensOfWord(w: string)
    requires IsWord(w)
    ensures Tokens(w) == [w]
  {
    forall i | 0 <= i < |w| ensures w[i] != ' ' && !IsWhiteSpace(w[i]) {
      AsciiClasses(w[i]);
    }
    NoSpaceNoDoubleSpace(w);
    NormaliseKeepsNormal(w);
    SplitJoin([w]);
  }

  /** Two words separated by any non-empty run of white space are two
      tokens, however long the run is and whichever white-space characters
      it holds. */
  lemma TokensOfWords(u: string, gap: string, v: string)
    requires IsWord(u) && IsWord(v)
    requires gap != [] && AllWhiteSpace(gap)
    ensures Tokens(u + gap + v) == [u, v]
  {
    var pieces := [u, v];
    assert ' ' !in u && ' ' !in v;
    assert Join(pieces) == u + [' '] + Join([v]) by {
      assert pieces[1..] == [v];
    }
    SplitJoin(pieces);
    NormaliseWords(u, gap, v);
    assert Tokens(u + gap + v) == Split(u + [' '] + v);
  }

  /** A deleted character between two words joins them into one token: an
      apostrophe is not a separator. */
  lemma TokensAcrossDeleted(u: string, c: char, v: string)
    requires IsWord(u) && IsWord(v) && IsDeleted(c)
    ensures Tokens(u + [c] + v) == [u + v]
  {
    AsciiClasses(u[0]);
    AsciiClasses(v[|v| - 1]);
    assert IsTrimmed(u + [c] + v) && IsTrimmed(u + v) by {
      assert (u + [c] + v)[0] == (u + v)[0] == u[0];
      assert (u + [c] + v)[|u| + 1 + |v| - 1] == (u + v)[|u| + |v| - 1] == v[|v| - 1];
    }
    NormaliseDropsDeleted(u, c, v);
    assert IsWord(u + v) by {
      forall i | 0 <= i < |u + v| ensures IsAsciiLower((u + v)[i]) || IsAsciiDigit((u + v)[i]) {
        if i >= |u| {
          assert (u + v)[i] == v[i - |u|];
        }
      }
    }
    TokensOfWord(u + v);
  }

  /** A word between spaces with a deleted character at each end of the
      question gives an empty token on either side of the word. */
  lemma TokensOfMarkedWord(c: char, w: string, d: char)
    requires IsDeleted(c) && IsDeleted(d) && IsWord(w)
    ensures Tokens([c, ' '] + w + [' ', d]) == ["", w, ""]
  {
    var pieces: seq<string> := ["", w, ""];
    assert ' ' !in w;
    assert Join(pieces) == [' '] + w + [' '] by {
      assert pieces[1..] == [w, ""] && pieces[1..][1..] == [""];
      assert Join(pieces[1..]) == w + [' '] + [];
      assert Join(pieces) == [] + [' '] + (w + [' '] + []);
    }
    SplitJoin(pieces);
    NormaliseMarkedWord(c, w, d);
    assert Tokens([c, ' '] + w + [' ', d]) == Split([' '] + w + [' ']);
  }

  // ------------------------------------------------------------- counting

  /** The count vector after the tokens have been processed in order: start
      from zeros, and for each token that is a key add one at its slot. */
  function Tally(tokens: seq<string>, wordIndex: map<string, nat>): (r: seq<nat>)
    requires SlotsInRange(wordIndex)
    ensures |r| == |wordIndex| + 1
    ensures forall k :: 0 <= k < |r| ==> r[k] <= |tokens|
    decreases |tokens|
  {
    if tokens == [] then Zeros(|wordIndex| + 1)
    else
      var prev := Tally(tokens[..|tokens| - 1], wordIndex);
      var t := tokens[|tokens| - 1];
      if t in wordIndex then prev[wordIndex[t] := prev[wordIndex[t]] + 1] else prev
  }

  /** Reference count: how many tokens are keys that map to slot `k`. */
  function SlotCount(tokens: seq<string>, wordIndex: map<string, nat>, k: nat): nat
    decreases |tokens|
  {
    if tokens == [] then 0
    else
      (if tokens[0] in wordIndex && wordIndex[tokens[0]] == k then 1 else 0)
      + SlotCount(tokens[1..], wordIndex, k)
  }

  lemma {:induction false} SlotCountAppend(a: seq<string>, b: seq<string>, wordIndex: map<string, nat>, k: nat)
    ensures SlotCount(a + b, wordIndex, k) == SlotCount(a, wordIndex, k) + SlotCount(b, wordIndex, k)
    decreases |a|
  {
    if a == [] {
      assert a + b == b;
    } else {
      assert (a + b)[1..] == a[1..] + b;
      SlotCountAppend(a[1..], b, wordIndex, k);
    }
  }

  /** Each slot of the tally holds the number of tokens that map to it. */
  lemma {:induction false} TallyCountsSlot(tokens: seq<string>, wordIndex: map<string, nat>, k: nat)
    requires SlotsInRange(wordIndex)
    requires k <= |wordIndex|
    ensures Tally(tokens, wordIndex)[k] == SlotCount(tokens, wordIndex, k)
    decreases |tokens|
  {
    if tokens != [] {
      var init, t := tokens[..|tokens| - 1], tokens[|tokens| - 1];
      TallyCountsSlot(init, wordIndex, k);
      SlotCountAppend(init, [t], wordIndex, k);
      assert init + [t] == tokens;
      assert SlotCount([t], wordIndex, k) == if t in wordIndex && wordIndex[t] == k then 1 else 0;
    }
  }

  /** Taking the token at position `j` out of the sequence. */
  lemma RemoveAt(b: seq<string>, j: nat, wordIndex: map<string, nat>, k: nat)
    requires j < |b|
    ensures SlotCount(b, wordIndex, k) == SlotCount([b[j]], wordIndex, k) + SlotCount(b[..j] + b[j + 1..], wordIndex, k)
  {
    assert b == b[..j] + [b[j]] + b[j + 1..];
    SlotCountAppend(b[..j] + [b[j]], b[j + 1..], wordIndex, k);
    SlotCountAppend(b[..j], [b[j]], wordIndex, k);
    SlotCountAppend(b[..j], b[j + 1..], wordIndex, k);
  }

  /** When the first token of `a` sits at position `j` of a permutation `b`,
      the rest of `a` is a permutation of `b` without position `j`. */
  lemma PermutationTail(a: seq<string>, b: seq<string>, j: nat)
    requires multiset(a) == multiset(b)
    requires a != [] && j < |b| && b[j] == a[0]
    ensures multiset(a[1..]) == multiset(b[..j] + b[j + 1..])
  {
    calc {
      multiset(a[1..]);
      { assert a[..0] + a[1..] == a[1..]; MultisetRemoveAt(a, 0); }
      multiset(a) - multiset{a[0]};
      multiset(b) - multiset{b[j]};
      { MultisetRemoveAt(b, j); }
      multiset(b[..j] + b[j + 1..]);
    }
  }

  lemma MultisetRemoveAt(b: seq<string>, j: nat)
    requires j < |b|
    ensures multiset(b[..j] + b[j + 1..]) == multiset(b) - multiset{b[j]}
  {
    assert b == b[..j] + [b[j]] + b[j + 1..];
  }

  /** The reference count depends on the multiset of tokens only. */
  lemma {:induction false} SlotCountPermutation(a: seq<string>, b: seq<string>, wordIndex: map<string, nat>, k: nat)
    requires multiset(a) == multiset(b)
    ensures SlotCount(a, wordIndex, k) == SlotCount(b, wordIndex, k)
    decreases |a|
  {
    if a == [] {
      assert |b| == |multiset(b)| == 0;
    } else {
      assert a[0] in multiset(b);
      var j :| 0 <= j < |b| && b[j] == a[0];
      var rest := b[..j] + b[j + 1..];
      PermutationTail(a, b, j);
      SlotCountPermutation(a[1..], rest, wordIndex, k);
      RemoveAt(b, j, wordIndex, k);
      assert SlotCount([b[j]], wordIndex, k) == if a[0] in wordIndex && wordIndex[a[0]] == k then 1 else 0;
    }
  }

  /** Token order does not matter: any permutation of the tokens gives the
      same vector. */
  lemma TallyPermutation(a: seq<string>, b: seq<string>, wordIndex: map<string, nat>)
    requires SlotsInRange(wordIndex)
    requires multiset(a) == multiset(b)
    ensures Tally(a, wordIndex) == Tally(b, wordIndex)
  {
    forall k | 0 <= k <= |wordIndex|
      ensures Tally(a, wordIndex)[k] == Tally(b, wordIndex)[k]
    {
      TallyCountsSlot(a, wordIndex, k);
      TallyCountsSlot(b, wordIndex, k);
      SlotCountPermutation(a, b, wordIndex, k);
    }
  }

  /** A token that is not a key changes no slot, wherever it stands. */
  lemma TallyIgnoresUnknown(a: seq<string>, t: string, b: seq<string>, wordIndex: map<string, nat>)
    requires SlotsInRange(wordIndex)
    requires t !in wordIndex
    ensures Tally(a + [t] + b, wordIndex) == Tally(a + b, wordIndex)
  {
    forall k | 0 <= k <= |wordIndex|
      ensures Tally(a + [t] + b, wordIndex)[k] == Tally(a + b, wordIndex)[k]
    {
      TallyCountsSlot(a + [t] + b, wordIndex, k);
      TallyCountsSlot(a + b, wordIndex, k);
      SlotCountAppend(a + [t], b, wordIndex, k);
      SlotCountAppend(a, [t], wordIndex, k);
      SlotCountAppend(a, b, wordIndex, k);
      assert SlotCount([t], wordIndex, k) == 0;
    }
  }

  /** With no two words sharing a slot, the slot of word `w` counts the
      tokens equal to `w`. */
  lemma {:induction false} SlotCountOfWord(tokens: seq<string>, wordIndex: map<string, nat>, w: string)
    requires Injective(wordIndex)
    requires w in wordIndex
    ensures SlotCount(tokens, wordIndex, wordIndex[w]) == multiset(tokens)[w]
    decreases |tokens|
  {
    if tokens != [] {
      SlotCountOfWord(tokens[1..], wordIndex, w);
      assert tokens == [tokens[0]] + tokens[1..];
    }
  }

  /** A slot that no word maps to counts nothing. */
  lemma {:induction false} SlotCountUnused(tokens: seq<string>, wordIndex: map<string, nat>, k: nat)
    requires forall w :: w in wordIndex ==> wordIndex[w] != k
    ensures SlotCount(tokens, wordIndex, k) == 0
    decreases |tokens|
  {
    if tokens != [] {
      SlotCountUnused(tokens[1..], wordIndex, k);
    }
  }

  /** The tally is all zeros exactly when no token is a key. */
  lemma TallyZeroIff(tokens: seq<string>, wordIndex: map<string, nat>)
    requires SlotsInRange(wordIndex)
    ensures Tally(tokens, wordIndex) == Zeros(|wordIndex| + 1)
            <==> forall i :: 0 <= i < |tokens| ==> tokens[i] !in wordIndex
  {
    var r := Tally(tokens, wordIndex);
    if forall i :: 0 <= i < |tokens| ==> tokens[i] !in wordIndex {
      forall k | 0 <= k <= |wordIndex| ensures r[k] == 0 {
        TallyCountsSlot(tokens, wordIndex, k);
        SlotCountNoKeys(tokens, wordIndex, k);
      }
    } else {
      var i :| 0 <= i < |tokens| && tokens[i] in wordIndex;
      var k := wordIndex[tokens[i]];
      TallyCountsSlot(tokens, wordIndex, k);
      SlotCountOfKey(tokens, wordIndex, i);
      assert r[k] != Zeros(|wordIndex| + 1)[k];
    }
  }

  /** A token that is a key counts at least once at its slot. */
  lemma {:induction false} SlotCountOfKey(tokens: seq<string>, wordIndex: map<string, nat>, i: nat)
    requires i < |tokens| && tokens[i] in wordIndex
    ensures SlotCount(tokens, wordIndex, wordIndex[tokens[i]]) >= 1
    decreases i
  {
    if i > 0 {
      SlotCountOfKey(tokens[1..], wordIndex, i - 1);
    }
  }

  lemma {:induction false} SlotCountNoKeys(tokens: seq<string>, wordIndex: map<string, nat>, k: nat)
    requires forall i :: 0 <= i < |tokens| ==> tokens[i] !in wordIndex
    ensures SlotCount(tokens, wordIndex, k) == 0
    decreases |tokens|
  {
    if tokens != [] {
      SlotCountNoKeys(tokens[1..], wordIndex, k);
    }
  }

  // --------------------------------------------------------- the featuriser

  /** The vector `getBagOfWords` returns for `question`. */
  function BagOf(question: string, wordIndex: map<string, nat>): (r: seq<nat>)
    requires SlotsInRange(wordIndex)
    ensures |r| == |wordIndex| + 1
    ensures forall k :: 0 <= k < |r| ==> r[k] <= |Tokens(question)|
  {
    Tally(Tokens(question), wordIndex)
  }

  /** One more token adds one at its slot when it is a key. */
  lemma TallyStep(tokens: seq<string>, i: nat, wordIndex: map<string, nat>)
    requires SlotsInRange(wordIndex)
    requires i < |tokens|
    ensures var prev := Tally(tokens[..i], wordIndex);
            Tally(tokens[..i + 1], wordIndex)
            == if tokens[i] in wordIndex then prev[wordIndex[tokens[i]] := prev[wordIndex[tokens[i]]] + 1] else prev
  {
    assert tokens[..i + 1][..i] == tokens[..i];
  }

  lemma TallyOfAll(tokens: seq<string>, wordIndex: map<string, nat>)
    requires SlotsInRange(wordIndex)
    ensures Tally(tokens[..|tokens|], wordIndex) == Tally(tokens, wordIndex)
  {
    assert tokens[..|tokens|] == tokens;
  }

  /** The counting loop of `getBagOfWords`: allocates a zero vector of
      |keys| + 1 slots and adds one at the slot of every token that is a
      key, in order. */
  method CountTokens(tokens: seq<string>, wordIndex: map<string, nat>) returns (bagOfWords: array<nat>)
    requires SlotsInRange(wordIndex)
    ensures fresh(bagOfWords)
    ensures bagOfWords[..] == Tally(tokens, wordIndex)
  {
    bagOfWords := new nat[|wordIndex| + 1](_ => 0);
    assert bagOfWords[..] == Zeros(|wordIndex| + 1);
    for i := 0 to |tokens|
      invariant bagOfWords.Length == |wordIndex| + 1
      invariant bagOfWords[..] == Tally(tokens[..i], wordIndex)
    {
      var token := tokens[i];
      TallyStep(tokens, i, wordIndex);
      if token in wordIndex {
        var slot := wordIndex[token];
        bagOfWords[slot] := bagOfWords[slot] + 1;
      }
    }
    TallyOfAll(tokens, wordIndex);
  }

  /** `getBagOfWords`: normalises the question, splits it on spaces and
      counts the tokens that are keys. */
  method GetBagOfWords(question: string, wordIndex: map<string, nat>) returns (bagOfWords: array<nat>)
    requires SlotsInRange(wordIndex)
    ensures fresh(bagOfWords)
    ensures bagOfWords.Length == |wordIndex| + 1
    ensures bagOfWords[..] == BagOf(question, wordIndex)
  {
    var str := Normalise(question);
    var tokens := Split(str);
    bagOfWords := CountTokens(tokens, wordIndex);
  }

  /** With no two words sharing a slot, the slot of vocabulary word `w` holds
      the number of tokens equal to `w`. */
  lemma BagOfCountsWord(question: string, wordIndex: map<string, nat>, w: string)
    requires SlotsInRange(wordIndex) && Injective(wordIndex)
    requires w in wordIndex
    ensures BagOf(question, wordIndex)[wordIndex[w]] == multiset(Tokens(question))[w]
  {
    TallyCountsSlot(Tokens(question), wordIndex, wordIndex[w]);
    SlotCountOfWord(Tokens(question), wordIndex, w);
  }

  /** Slots that no word maps to (slot 0 among them when slots start at 1)
      stay zero. */
  lemma BagOfUnusedSlot(question: string, wordIndex: map<string, nat>, k: nat)
    requires SlotsInRange(wordIndex)
    requires k <= |wordIndex|
    requires forall w :: w in wordIndex ==> wordIndex[w] != k
    ensures BagOf(question, wordIndex)[k] == 0
  {
    TallyCountsSlot(Tokens(question), wordIndex, k);
    SlotCountUnused(Tokens(question), wordIndex, k);
  }

  /** Out-of-vocabulary words are dropped silently: the vector is all zeros
      exactly when no token is a vocabulary word. */
  lemma BagOfZeroIff(question: string, wordIndex: map<string, nat>)
    requires SlotsInRange(wordIndex)
    ensures BagOf(question, wordIndex) == Zeros(|wordIndex| + 1)
            <==> forall i :: 0 <= i < |Tokens(question)| ==> Tokens(question)[i] !in wordIndex
  {
    TallyZeroIff(Tokens(question), wordIndex);
  }

  /** Letter case does not matter: questions that differ only in the case of
      ASCII letters give the same vector. */
  lemma BagOfIgnoresCase(s: string, t: string, wordIndex: map<string, nat>)
    requires SlotsInRange(wordIndex)
    requires SameUpToCase(s, t)
    ensures BagOf(s, wordIndex) == BagOf(t, wordIndex)
  {
    NormaliseIgnoresCase(s, t);
  }

  /** Punctuation anywhere in the question leaves the vector alone, as long as
      the empty token is not a key: a deleted character only ever moves where
      the empty tokens fall. */
  lemma BagOfIgnoresDeleted(a: string, c: char, b: string, wordIndex: map<string, nat>)
    requires SlotsInRange(wordIndex) && "" !in wordIndex && IsDeleted(c)
    ensures BagOf(a + [c] + b, wordIndex) == BagOf(a + b, wordIndex)
  {
    NormaliseIgnoresDeleted(a, c, b);
    TallyNonEmpty(Tokens(a + [c] + b), wordIndex);
    TallyNonEmpty(Tokens(a + b), wordIndex);
  }

  /** Empty tokens do not count when the empty string is not a key. */
  lemma TallyNonEmpty(tokens: seq<string>, wordIndex: map<string, nat>)
    requires SlotsInRange(wordIndex) && "" !in wordIndex
    ensures Tally(NonEmpty(tokens), wordIndex) == Tally(tokens, wordIndex)
  {
    forall k | 0 <= k <= |wordIndex|
      ensures Tally(NonEmpty(tokens), wordIndex)[k] == Tally(tokens, wordIndex)[k]
    {
      TallyCountsSlot(NonEmpty(tokens), wordIndex, k);
      TallyCountsSlot(tokens, wordIndex, k);
      SlotCountNonEmpty(tokens, wordIndex, k);
    }
  }

  lemma {:induction false} SlotCountNonEmpty(tokens: seq<string>, wordIndex: map<string, nat>, k: nat)
    requires "" !in wordIndex
    ensures SlotCount(NonEmpty(tokens), wordIndex, k) == SlotCount(tokens, wordIndex, k)
    decreases |tokens|
  {
    if tokens != [] {
      var head := if tokens[0] == [] then [] else [tokens[0]];
      SlotCountNonEmpty(tokens[1..], wordIndex, k);
      SlotCountAppend(head, NonEmpty(tokens[1..]), wordIndex, k);
      assert SlotCount(head, wordIndex, k) == if tokens[0] in wordIndex && wordIndex[tokens[0]] == k then 1 else 0;
    }
  }

  /** A vocabulary word written twice, with any run of white space between,
      counts 2 at its slot. */
  lemma BagOfRepeatedWord(w: string, gap: string, wordIndex: map<string, nat>)
    requires SlotsInRange(wordIndex)
    requires IsWord(w) && w in wordIndex
    requires gap != [] && AllWhiteSpace(gap)
    ensures BagOf(w + gap + w, wordIndex)[wordIndex[w]] == 2
  {
    TokensOfWords(w, gap, w);
    TallyCountsSlot([w, w], wordIndex, wordIndex[w]);
    assert [w, w][1..] == [w];
    assert [w][1..] == [];
  }

  /** An empty or all-white-space question has the single token "". */
  lemma TokensOfBlank(question: string)
    requires AllWhiteSpace(question)
    ensures Tokens(question) == [""]
  {
    TrimBlank(question);
    assert Normalise(question) == [];
  }

  /** So the vector of a blank question is zero unless "" is itself a
      vocabulary key, in which case "" counts once. */
  lemma BagOfBlank(question: string, wordIndex: map<string, nat>)
    requires SlotsInRange(wordIndex)
    requires AllWhiteSpace(question)
    ensures BagOf(question, wordIndex)
            == if "" in wordIndex then Zeros(|wordIndex| + 1)[wordIndex[""] := 1]
               else Zeros(|wordIndex| + 1)
  {
    TokensOfBlank(question);
    TallyOne("", wordIndex);
  }

  /** A single token counts once at its slot when it is a key. */
  lemma TallyOne(w: string, wordIndex: map<string, nat>)
    requires SlotsInRange(wordIndex)
    ensures Tally([w], wordIndex)
            == if w in wordIndex then Zeros(|wordIndex| + 1)[wordIndex[w] := 1]
               else Zeros(|wordIndex| + 1)
  {
    assert [w][..0] == [];
  }
}
