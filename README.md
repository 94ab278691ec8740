# Bag-of-words question featuriser

This project models `getBagOfWords`, the function of the easy-VQA demo that
turns a free-text question into the bag-of-words vector the classifier
reads. It works in two stages.

- **Normalisation.** The question is trimmed. Every character that is
  neither `\w` nor `\s`, and every underscore, is deleted. Each run of white
  space becomes one space. The result is lower-cased.
- **Counting.** A vector of `|keys(WORD_INDEX)| + 1` zeros is allocated. The
  normalised string is split on single spaces. Every token that is a key of
  `WORD_INDEX` adds one at its slot.

The model has three modules.

- `Text` (`text.dfy`) holds the character classes and each string transform
  as a pure function:
  - `IsWhiteSpace` is the ECMAScript white-space and line-terminator set
    that both `trim` and `\s` use.
  - `IsDeleted` is the class `/[^\w\s]|_/`, where `\w` is ASCII
    `[A-Za-z0-9_]`.
  - The transforms are `Trim`, `StripPunctuation`, `CollapseWhiteSpace`,
    `ToLowerAscii`, their composition `Normalise`, and `Split`, which is
    `split(" ")`.
  - `Join` is the inverse of `Split`.
- `BagOfWords` (`bag_of_words.dfy`) models the counting stage.
  - `Tokens` is `Split(Normalise(question))`.
  - `Tally` is the specification of the counting loop: zeros, then one token
    at a time.
  - `SlotCount` is an independent reference count: how many tokens map to a
    given slot.
  - `CountTokens` is the `forEach` loop. It works on a freshly allocated
    `array<nat>`, and its loop invariant ties the array to `Tally` of the
    tokens seen so far.
  - `GetBagOfWords` chains the normalisation, the split and `CountTokens`,
    as the source does. Its result is `BagOf(question, wordIndex)`.
- `Examples` (`examples.dfy`) works through concrete questions, each as an
  instance of a general lemma.

`WORD_INDEX` is a parameter, `wordIndex: map<string, nat>`. The vocabulary
file is not part of this model.

An empty question might be expected to give the zero vector. The code
splits the empty string into the single token `""`, so the slot of `""`
gets 1 when `""` is a key. The model follows the code: see
`BagOfWords.BagOfBlank`.

Trimming happens before punctuation is deleted. So a question such as
`"? blue ?"` normalises to `" blue "`, and its tokens are
`["", "blue", ""]` (see `Examples.TrimBeforeStrip`). For the same reason
`Normalise` is not idempotent. What trimming first can change is only where
empty tokens fall, so when `""` is not a key, a punctuation character
anywhere in a question leaves its vector unchanged (see
`BagOfWords.BagOfIgnoresDeleted`).

## Model

| member | source | states |
|---|---|---|
| Text.IsWhiteSpace | src/model.js:13-15 | A predicate, no contract of its own: the ECMAScript WhiteSpace and LineTerminator code points, which `trim` removes and `\s` matches. TrimStart, TrimEnd and CollapseWhiteSpaceRun state what the transforms do with them |
| Text.IsDeleted | src/model.js:14 | A predicate, no contract of its own: the class `/[^\w\s]\|_/` with ASCII `\w`. StripPunctuation and StripPunctuationCounts state that exactly these characters are removed |
| Text.Trim | src/model.js:13 | No contract of its own: `TrimEnd(TrimStart(s))`. TrimIsSlice, TrimEnds and TrimBlank state what it does |
| Text.TrimStart | src/model.js:13 | The result is a suffix of the input, everything removed is white space, and the result does not start with white space: the longest white-space prefix is dropped |
| Text.TrimEnd | src/model.js:13 | The result is a prefix of the input, everything removed is white space, and the result does not end with white space |
| Text.TrimIsSlice | src/model.js:13 | `trim` keeps one contiguous slice of the input, and everything cut from either side of it is white space |
| Text.TrimEnds | src/model.js:13 | A non-empty trimmed string neither starts nor ends with white space |
| Text.TrimBlank | src/model.js:13 | A string made only of white space trims to the empty string |
| Text.StripPunctuation | src/model.js:14 | The result is no longer than the input, and no character of the class `[^\w\s]` and no underscore is left in it |
| Text.StripPunctuationCounts | src/model.js:14 | Each deleted character occurs 0 times in the result, and every other character occurs exactly as often as in the input |
| Text.StripPunctuationConcat | src/model.js:14 | The global replace works character by character: stripping a concatenation is the concatenation of the stripped parts |
| Text.StripPunctuationJoins | src/model.js:14 | Removing one deleted character from between two strings gives the same result as when it was never there, so a deleted character joins its neighbours rather than separating them |
| Text.NormaliseDropsDeleted | src/model.js:12-16 | In a question that is trimmed with or without the deleted character, that character makes no difference to the normalised form |
| Text.CollapseWhiteSpace | src/model.js:15 | No contract of its own. CollapseWhiteSpaceRun, CollapseShape, CollapseLast and CollapseKeepsWords state what it does |
| Text.CollapseWhiteSpaceRun | src/model.js:15 | A non-empty run of any white space between two non-white-space neighbours becomes exactly one space |
| Text.CollapseShape | src/model.js:15 | After collapsing, the only white space is `' '` and no two spaces are adjacent. The result is empty exactly when the input is, and it starts with a space exactly when the input starts with white space |
| Text.CollapseLast | src/model.js:15 | A collapsed non-empty string ends in a space exactly when the input ends in white space |
| Text.CollapseKeepsWords | src/model.js:15 | Collapsing changes white space only: the non-white-space characters stay the same and in the same order |
| Text.CollapseChars | src/model.js:15 | Every character of the collapsed string is a space or a character of the input |
| Text.CollapseKeepsCollapsed | src/model.js:15 | A string whose only white space is single spaces is left unchanged |
| Text.ToLowerAscii | src/model.js:16 | Lower-casing keeps the length, leaves no ASCII upper-case letter, and maps each character to a case variant of itself |
| Text.ToLowerAsciiEqualIff | src/model.js:16 | Two strings lower-case to the same string exactly when they differ in ASCII letter case only |
| Text.ToLowerAsciiKeepsSpacing | src/model.js:16 | Lower-casing creates no adjacent spaces |
| Text.Normalise | src/model.js:12-16 | No contract of its own: the four stages in the source's order. NormaliseShape, NormaliseIgnoresCase and NormaliseKeepsNormal state what it does |
| Text.NormaliseShape | src/model.js:12-16 | A normalised question holds only lower-case ASCII letters, digits and spaces, and no two spaces are adjacent |
| Text.NormaliseIgnoresCase | src/model.js:12-16 | Questions that differ only in ASCII letter case normalise to the same string |
| Text.NormaliseKeepsNormal | src/model.js:12-16 | A trimmed string of lower-case letters, digits and single spaces is a fixed point of the chain |
| Text.NormaliseWords | src/model.js:12-16 | Two words with any non-empty run of white space between them normalise to the two words joined by one space |
| Text.NormaliseMarkedWord | src/model.js:12-16 | `c + " " + w + " " + d`, where `c` and `d` are deleted characters, normalises to `" " + w + " "`: the trim comes before the deletion, so the spaces survive |
| Text.Split | src/model.js:22 | `split(" ")` always gives at least one piece |
| Text.SplitPieces | src/model.js:22 | No piece holds a space, and every character of a piece comes from the input |
| Text.JoinSplit | src/model.js:22 | Joining the pieces with single spaces gives back the input |
| Text.SplitJoin | src/model.js:22 | Splitting the join of space-free pieces gives back the pieces |
| Text.SplitEnds | src/model.js:22 | The first piece is empty exactly when the input is empty or starts with a space. The last piece is empty exactly when the input is empty or ends with one |
| Text.SplitInteriorNonEmpty | src/model.js:22 | With no two adjacent spaces, only the first and the last piece can be empty |
| Text.SplitNormal | src/model.js:22 | Splitting a normalised string gives pieces of lower-case letters and digits, where only the first and the last can be empty |
| Text.CollapseBlank | src/model.js:15 | A non-empty string of white space collapses to one space |
| Text.CollapseTrimStart | src/model.js:15 | A string that starts with white space collapses to one space followed by the collapse of the rest after its leading white space |
| Text.CollapseWhitePrefix | src/model.js:15 | White space in front of a string merges with the string's own leading white space into one space |
| Text.CollapseAfterWhite | src/model.js:15 | Putting white space in front of a string adds at most one leading space to its collapsed form |
| Text.CollapseBeforeWhite | src/model.js:15 | Putting white space after a string adds at most one trailing space to its collapsed form |
| Text.SplitAfterSpace | src/model.js:22 | A leading space adds one empty piece in front |
| Text.SplitBeforeSpace | src/model.js:22 | A trailing space adds one empty piece at the end |
| Text.WordsAfterWhite | src/model.js:15-22 | White space in front of a string changes none of the non-empty pieces of its collapsed, lower-cased split |
| Text.WordsBeforeWhite | src/model.js:15-22 | White space after a string changes none of those non-empty pieces |
| Text.WordsOfPadded | src/model.js:15-22 | White space at both ends changes none of those non-empty pieces |
| Text.StripPadded | src/model.js:14 | Deleting punctuation leaves white space at both ends in place |
| Text.NormaliseWordsOf | src/model.js:12-22 | Trimming only removes empty tokens: the non-empty tokens of a question are those of the question with its punctuation deleted and nothing trimmed |
| Text.NormaliseIgnoresDeleted | src/model.js:12-22 | A deleted character anywhere in a question changes none of the non-empty tokens |
| BagOfWords.Tokens | src/model.js:12-22 | No contract of its own: `Split(Normalise(question))`. TokensShape, TokensOfBlank and the other Tokens lemmas state what it gives |
| BagOfWords.TokensShape | src/model.js:12-22 | Every token of a question holds only lower-case ASCII letters and digits, and only the first and the last token can be empty |
| BagOfWords.TokensOfWord | src/model.js:12-22 | A question that is a single normalised word has that word as its only token |
| BagOfWords.TokensOfWords | src/model.js:15-22 | Two words with any non-empty run of white space between them are exactly two tokens |
| BagOfWords.TokensAcrossDeleted | src/model.js:14-22 | A deleted character between two words gives the one token made of both words (`what's` gives `whats`) |
| BagOfWords.TokensOfMarkedWord | src/model.js:13-22 | `c + " " + w + " " + d`, where `c` and `d` are deleted characters, has the tokens `["", w, ""]` |
| BagOfWords.TokensOfBlank | src/model.js:13-22 | An empty or all-white-space question has the single token `""` |
| BagOfWords.Tally | src/model.js:20-27 | The count vector has `|keys| + 1` entries, and no entry exceeds the number of tokens |
| BagOfWords.TallyCountsSlot | src/model.js:22-27 | Each slot of the count vector equals the reference count of tokens whose key maps to that slot |
| BagOfWords.TallyOne | src/model.js:20-27 | A single token gives zeros with a 1 at its slot when it is a key, and zeros otherwise |
| BagOfWords.SlotCountPermutation | src/model.js:23-27 | The reference count depends only on the multiset of tokens |
| BagOfWords.TallyPermutation | src/model.js:23-27 | Any permutation of the tokens gives the same count vector |
| BagOfWords.TallyIgnoresUnknown | src/model.js:24 | A token that is not a key changes no slot, wherever it stands |
| BagOfWords.SlotCountOfWord | src/model.js:24-25 | When no two words share a slot, the reference count at a word's slot is the number of tokens equal to that word |
| BagOfWords.SlotCountUnused | src/model.js:24-25 | A slot that no word maps to has reference count 0 |
| BagOfWords.SlotCountOfKey | src/model.js:24-25 | A token that is a key counts at least once at its slot |
| BagOfWords.TallyZeroIff | src/model.js:24-25 | The count vector is all zeros exactly when no token is a key |
| BagOfWords.BagOf | src/model.js:11-29 | The vector of a question has `|keys| + 1` entries, each at most the number of tokens |
| BagOfWords.CountTokens | src/model.js:20-27 | The loop returns a fresh array whose contents are the count vector `Tally` of the tokens |
| BagOfWords.GetBagOfWords | src/model.js:11-29 | The result is a fresh array of `|keys| + 1` natural numbers whose contents are `BagOf(question, wordIndex)`. It is a function of the question and the vocabulary only, so equal inputs give equal vectors |
| BagOfWords.BagOfCountsWord | src/model.js:22-27 | When no two words share a slot, the slot of a vocabulary word holds the number of tokens equal to that word |
| BagOfWords.BagOfUnusedSlot | src/model.js:20-27 | A slot that no key maps to, such as slot 0 when the slots start at 1, stays 0 |
| BagOfWords.BagOfZeroIff | src/model.js:24-25 | A question gives the zero vector exactly when none of its tokens is a vocabulary word, so unknown words are dropped silently |
| BagOfWords.BagOfIgnoresCase | src/model.js:14-16 | Questions that differ only in ASCII letter case give the same vector |
| BagOfWords.BagOfRepeatedWord | src/model.js:15-25 | A vocabulary word written twice, with any white space between, counts 2 at its slot |
| BagOfWords.BagOfBlank | src/model.js:13-27 | A blank question gives the zero vector, except for a 1 at the slot of `""` when `""` is a key |
| BagOfWords.SlotCountNonEmpty | src/model.js:22-27 | With `""` not a key, dropping the empty tokens leaves every reference count unchanged |
| BagOfWords.TallyNonEmpty | src/model.js:22-27 | With `""` not a key, dropping the empty tokens leaves the count vector unchanged |
| BagOfWords.BagOfIgnoresDeleted | src/model.js:12-27 | With `""` not a key, a deleted character anywhere in a question leaves its vector unchanged |
| Examples.ApostropheJoinsWord | src/model.js:14-22 | `"what's"` has the single token `"whats"` |
| Examples.SpacesCollapse | src/model.js:15-22 | `"blue   blue"` has the tokens `["blue", "blue"]` |
| Examples.RepeatedWordCountsTwice | src/model.js:15-25 | `"blue   blue"` counts 2 at the slot of `blue` |
| Examples.TrailingMarkDropped | src/model.js:14 | A trailing question mark does not change the normalised form |
| Examples.UpperCaseIgnored | src/model.js:16 | `"Is there a BLUE shape"` and `"is there a blue shape"` normalise alike |
| Examples.CaseAndPunctuation | src/model.js:12-29 | `"Is there a BLUE shape?"` and `"is there a blue shape"` give the same vector |
| Examples.TrimBeforeStrip | src/model.js:13-22 | `"? blue ?"` has the tokens `["", "blue", ""]` |

## Left out

- `getInference` (src/model.js:31-48) is not modelled. It builds the image tensor, calls `model.predict`, takes `argMax` and looks up the answer. These are TensorFlow.js calls and floating-point pixel arithmetic.
- `loadModelPromise` (src/model.js:5-9) is not modelled. It is an asynchronous network load of the serialised model.
- The `.catch(console.error)` error swallowing is not modelled. It is logging around asynchronous code.
- The user interface in src/App.js is not part of this model. It is React state, canvas drawing, image loading and random question choice.
- The contents of `WORD_INDEX` and `ANSWERS` are not part of this model. The vocabulary is an arbitrary map parameter.
- GetBagOfWords: requires every slot of the vocabulary to be at most `|keys|`. The vocabulary's slots are meant to lie in 1..V. With a larger slot, JavaScript would grow the array and store `NaN` there, and that behaviour is not modelled.
- BagOfCountsWord: requires that no two words share a slot, because the vocabulary gives each word a unique slot. Without that, `TallyCountsSlot` still holds: a slot counts every token whose word maps to it.
- JavaScript's `in` also finds keys inherited from the prototype chain, such as the token `constructor`. The model uses own-key map membership only. Such a token writes a non-index property and leaves the slots unchanged anyway.
- Counts are unbounded naturals. JavaScript numbers are exact only up to 2^53, which no question reaches.
- JavaScript strings are UTF-16 code units, while Dafny characters are Unicode scalar values. Every character outside ASCII letters, digits and the white-space set is deleted either way, so the normalised string is the same.
- `toLowerCase` is modelled for ASCII letters only. That is exact here: after the deletion and the collapse, only ASCII letters, digits and spaces reach it.
