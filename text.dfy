/** Character classes and the string transforms that the question featuriser
    applies before it counts words: trim, delete punctuation and underscores,
    collapse white space, lower-case, split on single spaces. */
module Text {

  /** ECMAScript WhiteSpace and LineTerminator code points: what `trim`
      removes and what the regular-expression class `\s` matches. */
  predicate IsWhiteSpace(c: char)
  {
    var n := c as int;
    (0x09 <= n <= 0x0D) || n == 0x20 || n == 0xA0 || n == 0x1680
    || (0x2000 <= n <= 0x200A) || n == 0x2028 || n == 0x2029
    || n == 0x202F || n == 0x205F || n == 0x3000 || n == 0xFEFF
  }

  predicate IsAsciiUpper(c: char) { 'A' <= c <= 'Z' }

  predicate IsAsciiLower(c: char) { 'a' <= c <= 'z' }

  predicate IsAsciiDigit(c: char) { '0' <= c <= '9' }

  /** The class `\w`: ASCII letters, digits and the underscore. */
  predicate IsWordChar(c: char)
  {
    IsAsciiUpper(c) || IsAsciiLower(c) || IsAsciiDigit(c) || c == '_'
  }

  /** The characters matched by `/[^\w\s]|_/`, which the featuriser deletes. */
  predicate IsDeleted(c: char)
  {
    !(IsWordChar(c) || IsWhiteSpace(c)) || c == '_'
  }

  predicate AllWhiteSpace(s: string)
  {
    forall i :: 0 <= i < |s| ==> IsWhiteSpace(s[i])
  }

  // ---------------------------------------------------------------- trim

  /** Drops the longest white-space prefix. */
  function TrimStart(s: string): (r: string)
    ensures |r| <= |s| && r == s[|s| - |r|..]
    ensures AllWhiteSpace(s[..|s| - |r|])
    ensures r != [] ==> !IsWhiteSpace(r[0])
    decreases |s|
  {
    if s != [] && IsWhiteSpace(s[0]) then
      var r := TrimStart(s[1..]);
      assert AllWhiteSpace(s[..|s| - |r|]) by {
        forall i | 1 <= i < |s| - |r| ensures IsWhiteSpace(s[i]) {
          assert s[i] == s[1..][..|s| - 1 - |r|][i - 1];
        }
      }
      r
    else
      s
  }

  /** Drops the longest white-space suffix. */
  function TrimEnd(s: string): (r: string)
    ensures |r| <= |s| && r == s[..|r|]
    ensures AllWhiteSpace(s[|r|..])
    ensures r != [] ==> !IsWhiteSpace(r[|r| - 1])
    decreases |s|
  {
    if s != [] && IsWhiteSpace(s[|s| - 1]) then
      var r := TrimEnd(s[..|s| - 1]);
      assert s[|r|..] == s[..|s| - 1][|r|..] + [s[|s| - 1]];
      r
    else
      s
  }

  /** `String.prototype.trim`: leading and then trailing white space
      removed. */
  function Trim(s: string): string
  {
    TrimEnd(TrimStart(s))
  }

  /** `r` is what is left of `s` once its first `i` characters and the
      rest after `r` are cut off, and everything cut off is white space. */
  predicate IsTrimmedSliceOf(s: string, i: int, r: string)
  {
    0 <= i <= |s| - |r| && r == s[i..i + |r|]
    && AllWhiteSpace(s[..i]) && AllWhiteSpace(s[i + |r|..])
  }

  /** The trimmed string is the slice of `s` left once all leading and all
      trailing white space is removed. */
  lemma TrimIsSlice(s: string)
    ensures exists i :: IsTrimmedSliceOf(s, i, Trim(s))
  {
    var t := TrimStart(s);
    var r := TrimEnd(t);
    var i := |s| - |t|;
    SliceOfSuffix(s, i, t, r);
    assert IsTrimmedSliceOf(s, i, r);
    assert Trim(s) == r;
    assert IsTrimmedSliceOf(s, i, Trim(s));
  }

  /** A prefix of a suffix is a slice, and what follows it is the rest of the
      suffix. */
  lemma SliceOfSuffix(s: string, i: nat, t: string, r: string)
    requires i <= |s| && t == s[i..] && |r| <= |t| && r == t[..|r|]
    ensures i + |r| <= |s| && r == s[i..i + |r|] && s[i + |r|..] == t[|r|..]
  {
  }

  /** The trimmed string neither starts nor ends with white space. */
  lemma TrimEnds(s: string)
    requires Trim(s) != []
    ensures !IsWhiteSpace(Trim(s)[0]) && !IsWhiteSpace(Trim(s)[|Trim(s)| - 1])
  {
    var t := TrimStart(s);
    assert Trim(s)[0] == t[0];
  }

  /** A blank string loses all of its characters to the leading trim. */
  lemma {:induction false} TrimStartBlank(s: string)
    requires AllWhiteSpace(s)
    ensures TrimStart(s) == []
    decreases |s|
  {
    if s != [] {
      assert AllWhiteSpace(s[1..]) by {
        forall i | 0 <= i < |s| - 1 ensures IsWhiteSpace(s[1..][i]) {
          assert s[1..][i] == s[i + 1];
        }
      }
      TrimStartBlank(s[1..]);
    }
  }

  /** A blank string trims to nothing. */
  lemma TrimBlank(s: string)
    requires AllWhiteSpace(s)
    ensures Trim(s) == []
  {
    TrimStartBlank(s);
  }

  // ------------------------------------------------- punctuation removal

  /** `replace(/[^\w\s]|_/g, "")`: every matched character is deleted, and
      the others keep their order. */
  function StripPunctuation(s: string): (r: string)
    ensures |r| <= |s|
    ensures forall i :: 0 <= i < |r| ==> !IsDeleted(r[i])
    decreases |s|
  {
    if s == [] then []
    else (if IsDeleted(s[0]) then [] else [s[0]]) + StripPunctuation(s[1..])
  }

  /** Every character that is not deleted is kept as often as it occurs. */
  lemma {:induction false} StripPunctuationCounts(s: string, c: char)
    ensures multiset(StripPunctuation(s))[c] == if IsDeleted(c) then 0 else multiset(s)[c]
    decreases |s|
  {
    if s != [] {
      StripPunctuationCounts(s[1..], c);
      assert s == [s[0]] + s[1..];
    }
  }

  /** Deletion works character by character, so it distributes over
      concatenation. */
  lemma {:induction false} StripPunctuationConcat(a: string, b: string)
    ensures StripPunctuation(a + b) == StripPunctuation(a) + StripPunctuation(b)
    decreases |a|
  {
    if a != [] {
      assert (a + b)[1..] == a[1..] + b;
      StripPunctuationConcat(a[1..], b);
    } else {
      assert a + b == b;
    }
  }

  /** Deleted characters glue their neighbours together instead of separating
      them: removing one from the input changes nothing. */
  lemma StripPunctuationJoins(a: string, c: char, b: string)
    requires IsDeleted(c)
    ensures StripPunctuation(a + [c] + b) == StripPunctuation(a + b)
  {
    StripPunctuationConcat(a + [c], b);
    StripPunctuationConcat(a, [c]);
    StripPunctuationConcat(a, b);
    assert StripPunctuation([c]) == [];
  }

  // ------------------------------------------------ white-space collapse

  /** No two spaces are adjacent. */
  predicate NoDoubleSpace(s: string)
    decreases |s|
  {
    |s| < 2 || (!(s[0] == ' ' && s[1] == ' ') && NoDoubleSpace(s[1..]))
  }

  lemma {:induction false} NoSpaceNoDoubleSpace(s: string)
    requires forall i :: 0 <= i < |s| - 1 ==> s[i] != ' '
    ensures NoDoubleSpace(s)
    decreases |s|
  {
    if |s| >= 2 {
      NoSpaceNoDoubleSpace(s[1..]);
    }
  }

  /** The only white space is ' ', and no two spaces are adjacent. */
  predicate IsCollapsed(s: string)
  {
    (forall i :: 0 <= i < |s| && IsWhiteSpace(s[i]) ==> s[i] == ' ') && NoDoubleSpace(s)
  }

  /** `replace(/\s+/g, " ")`, one character at a time: a white-space
      character followed by more white space is dropped, the last one of a
      run becomes a space, and every other character is kept. */
  function CollapseWhiteSpace(s: string): string
    decreases |s|
  {
    if s == [] then []
    else if IsWhiteSpace(s[0]) && |s| > 1 && IsWhiteSpace(s[1]) then CollapseWhiteSpace(s[1..])
    else [if IsWhiteSpace(s[0]) then ' ' else s[0]] + CollapseWhiteSpace(s[1..])
  }

  /** A run of white space in front of a word becomes a single space. */
  lemma {:induction false} CollapseLeadingRun(w: string, b: string)
    requires w != [] && AllWhiteSpace(w)
    requires b == [] || !IsWhiteSpace(b[0])
    ensures CollapseWhiteSpace(w + b) == [' '] + CollapseWhiteSpace(b)
    decreases |w|
  {
    var x := w + b;
    assert x[0] == w[0];
    if |w| == 1 {
      assert x[1..] == b;
    } else {
      assert x[1] == w[1] && x[1..] == w[1..] + b;
      CollapseLeadingRun(w[1..], b);
    }
  }

  /** Collapsing distributes over a cut that follows a character that is
      not white space. */
  lemma {:induction false} CollapseConcat(a: string, t: string)
    requires a == [] || !IsWhiteSpace(a[|a| - 1])
    ensures CollapseWhiteSpace(a + t) == CollapseWhiteSpace(a) + CollapseWhiteSpace(t)
    decreases |a|
  {
    if a == [] {
      assert a + t == t;
    } else {
      var x := a + t;
      assert x[0] == a[0] && x[1..] == a[1..] + t;
      assert IsWhiteSpace(a[0]) ==> |a| > 1 && x[1] == a[1];
      CollapseConcat(a[1..], t);
    }
  }

  /** A run of white space between two words becomes a single space. */
  lemma CollapseWhiteSpaceRun(a: string, w: string, b: string)
    requires a == [] || !IsWhiteSpace(a[|a| - 1])
    requires w != [] && AllWhiteSpace(w)
    requires b == [] || !IsWhiteSpace(b[0])
    ensures CollapseWhiteSpace(a + w + b) == CollapseWhiteSpace(a) + [' '] + CollapseWhiteSpace(b)
  {
    AppendAssoc(a, w, b);
    CollapseConcat(a, w + b);
    CollapseLeadingRun(w, b);
    AppendAssoc(CollapseWhiteSpace(a), [' '], CollapseWhiteSpace(b));
  }

  lemma AppendAssoc(x: string, y: string, z: string)
    ensures x + y + z == x + (y + z)
  {
  }

  /** The collapsed string has single spaces as its only white space, is
      empty only for the empty input, and starts with a space exactly when
      the input starts with white space. */
  lemma {:induction false} CollapseShape(s: string)
    ensures IsCollapsed(CollapseWhiteSpace(s))
    ensures CollapseWhiteSpace(s) == [] <==> s == []
    ensures s != [] ==> (CollapseWhiteSpace(s)[0] == ' ' <==> IsWhiteSpace(s[0]))
    decreases |s|
  {
    if s != [] {
      var r, c := CollapseWhiteSpace(s), CollapseWhiteSpace(s[1..]);
      CollapseShape(s[1..]);
      if !(IsWhiteSpace(s[0]) && |s| > 1 && IsWhiteSpace(s[1])) {
        assert r[1..] == c;
        assert forall i :: 1 <= i < |r| ==> r[i] == c[i - 1];
      }
    }
  }

  /** A collapsed string ends in a space exactly when the input ends in white
      space. */
  lemma {:induction false} CollapseLast(s: string)
    requires s != []
    ensures CollapseWhiteSpace(s) != []
    ensures var r := CollapseWhiteSpace(s);
            r[|r| - 1] == ' ' <==> IsWhiteSpace(s[|s| - 1])
    decreases |s|
  {
    if |s| > 1 {
      CollapseLast(s[1..]);
    }
  }

  /** Collapsing leaves the words alone: only white space changes. */
  lemma {:induction false} CollapseKeepsWords(s: string)
    ensures RemoveWhiteSpace(CollapseWhiteSpace(s)) == RemoveWhiteSpace(s)
    decreases |s|
  {
    if s != [] {
      CollapseKeepsWords(s[1..]);
      var c := CollapseWhiteSpace(s[1..]);
      assert ([if IsWhiteSpace(s[0]) then ' ' else s[0]] + c)[1..] == c;
    }
  }

  /** The non-white-space characters of `s`, in order. */
  function RemoveWhiteSpace(s: string): string
    decreases |s|
  {
    if s == [] then []
    else (if IsWhiteSpace(s[0]) then [] else [s[0]]) + RemoveWhiteSpace(s[1..])
  }

  /** Every character of the collapsed string is a space or comes from `s`. */
  lemma {:induction false} CollapseChars(s: string)
    ensures forall i :: 0 <= i < |CollapseWhiteSpace(s)| ==>
              CollapseWhiteSpace(s)[i] == ' ' || CollapseWhiteSpace(s)[i] in s
    decreases |s|
  {
    if s != [] {
      var r, c := CollapseWhiteSpace(s), CollapseWhiteSpace(s[1..]);
      CollapseChars(s[1..]);
      assert forall x :: x in s[1..] ==> x in s;
      if !(IsWhiteSpace(s[0]) && |s| > 1 && IsWhiteSpace(s[1])) {
        assert forall i :: 1 <= i < |r| ==> r[i] == c[i - 1];
      }
    }
  }

  lemma {:induction false} CollapseKeepsCollapsed(s: string)
    requires IsCollapsed(s)
    ensures CollapseWhiteSpace(s) == s
    decreases |s|
  {
    if s != [] {
      assert IsCollapsed(s[1..]);
      CollapseKeepsCollapsed(s[1..]);
      assert [s[0]] + s[1..] == s;
    }
  }

  // ----------------------------------------------------------- lower case

  /** `a` and `b` are the same character up to ASCII letter case. */
  predicate CaseVariants(a: char, b: char)
  {
    || a == b
    || (IsAsciiUpper(a) && b as int == a as int + 32)
    || (IsAsciiUpper(b) && a as int == b as int + 32)
  }

  predicate SameUpToCase(s: string, t: string)
  {
    |s| == |t| && forall i :: 0 <= i < |s| ==> CaseVariants(s[i], t[i])
  }

  function LowerChar(c: char): char
  {
    if IsAsciiUpper(c) then (c as int + 32) as char else c
  }

  /** `toLowerCase` on the characters that can reach it here (ASCII letters,
      digits and the space): each character becomes its lower-case variant. */
  function ToLowerAscii(s: string): (r: string)
    ensures |r| == |s|
    ensures forall i :: 0 <= i < |r| ==> !IsAsciiUpper(r[i]) && CaseVariants(s[i], r[i])
  {
    seq(|s|, i requires 0 <= i < |s| => LowerChar(s[i]))
  }

  /** Two strings lower-case to the same string exactly when they differ in
      ASCII letter case only. */
  lemma ToLowerAsciiEqualIff(s: string, t: string)
    ensures ToLowerAscii(s) == ToLowerAscii(t) <==> SameUpToCase(s, t)
  {
    if ToLowerAscii(s) == ToLowerAscii(t) {
      forall i | 0 <= i < |s| ensures CaseVariants(s[i], t[i]) {
        assert ToLowerAscii(s)[i] == ToLowerAscii(t)[i];
      }
    }
    if SameUpToCase(s, t) {
      forall i | 0 <= i < |s| ensures ToLowerAscii(s)[i] == ToLowerAscii(t)[i] {
        assert CaseVariants(s[i], t[i]);
      }
    }
  }

  /** Lower-casing keeps spaces where they are. */
  lemma {:induction false} ToLowerAsciiKeepsSpacing(s: string)
    requires NoDoubleSpace(s)
    ensures NoDoubleSpace(ToLowerAscii(s))
    decreases |s|
  {
    if |s| >= 2 {
      ToLowerAsciiKeepsSpacing(s[1..]);
      assert ToLowerAscii(s)[1..] == ToLowerAscii(s[1..]);
      assert ToLowerAscii(s)[0] == ' ' <==> s[0] == ' ';
    }
  }

  // ------------------------------------------------- letter case is lost

  lemma CaseVariantsAgree(a: char, b: char)
    requires CaseVariants(a, b)
    ensures IsWhiteSpace(a) <==> IsWhiteSpace(b)
    ensures IsDeleted(a) <==> IsDeleted(b)
  {
  }

  lemma {:induction false} TrimStartIgnoresCase(s: string, t: string)
    requires SameUpToCase(s, t)
    ensures SameUpToCase(TrimStart(s), TrimStart(t))
    decreases |s|
  {
    if s != [] {
      CaseVariantsAgree(s[0], t[0]);
      if IsWhiteSpace(s[0]) {
        TrimStartIgnoresCase(s[1..], t[1..]);
      }
    }
  }

  lemma {:induction false} TrimEndIgnoresCase(s: string, t: string)
    requires SameUpToCase(s, t)
    ensures SameUpToCase(TrimEnd(s), TrimEnd(t))
    decreases |s|
  {
    if s != [] {
      CaseVariantsAgree(s[|s| - 1], t[|t| - 1]);
      if IsWhiteSpace(s[|s| - 1]) {
        TrimEndIgnoresCase(s[..|s| - 1], t[..|t| - 1]);
      }
    }
  }

  lemma {:induction false} StripPunctuationIgnoresCase(s: string, t: string)
    requires SameUpToCase(s, t)
    ensures SameUpToCase(StripPunctuation(s), StripPunctuation(t))
    decreases |s|
  {
    if s != [] {
      CaseVariantsAgree(s[0], t[0]);
      StripPunctuationIgnoresCase(s[1..], t[1..]);
      var a, b := StripPunctuation(s[1..]), StripPunctuation(t[1..]);
      if !IsDeleted(s[0]) {
        assert forall i :: 1 <= i < |a| + 1 ==> ([s[0]] + a)[i] == a[i - 1];
        assert forall i :: 1 <= i < |b| + 1 ==> ([t[0]] + b)[i] == b[i - 1];
      }
    }
  }

  lemma {:induction false} CollapseWhiteSpaceIgnoresCase(s: string, t: string)
    requires SameUpToCase(s, t)
    ensures SameUpToCase(CollapseWhiteSpace(s), CollapseWhiteSpace(t))
    decreases |s|
  {
    if s != [] {
      CaseVariantsAgree(s[0], t[0]);
      if |s| > 1 {
        CaseVariantsAgree(s[1], t[1]);
      }
      CollapseWhiteSpaceIgnoresCase(s[1..], t[1..]);
      var a, b := CollapseWhiteSpace(s[1..]), CollapseWhiteSpace(t[1..]);
      if !(IsWhiteSpace(s[0]) && |s| > 1 && IsWhiteSpace(s[1])) {
        assert forall i :: 1 <= i < |a| + 1 ==> CollapseWhiteSpace(s)[i] == a[i - 1];
        assert forall i :: 1 <= i < |b| + 1 ==> CollapseWhiteSpace(t)[i] == b[i - 1];
      }
    }
  }

  // -------------------------------------------------------- normalisation

  /** The whole normalisation chain: trim, delete punctuation and
      underscores, collapse white space, lower-case. */
  function Normalise(s: string): string
  {
    ToLowerAscii(CollapseWhiteSpace(StripPunctuation(Trim(s))))
  }

  /** A normalised question is made of lower-case ASCII letters, digits and
      single spaces. */
  lemma NormaliseShape(s: string)
    ensures IsNormalChars(Normalise(s))
    ensures NoDoubleSpace(Normalise(s))
  {
    var p := StripPunctuation(Trim(s));
    var c := CollapseWhiteSpace(p);
    CollapseShape(p);
    CollapseChars(p);
    forall i | 0 <= i < |c| && c[i] != ' '
      ensures IsAsciiUpper(c[i]) || IsAsciiLower(c[i]) || IsAsciiDigit(c[i])
    {
      var j :| 0 <= j < |p| && p[j] == c[i];
      assert !IsDeleted(p[j]);
    }
    ToLowerAsciiKeepsSpacing(c);
  }

  /** Letter case does not matter: two questions that differ only in the case
      of ASCII letters normalise to the same string. */
  lemma NormaliseIgnoresCase(s: string, t: string)
    requires SameUpToCase(s, t)
    ensures Normalise(s) == Normalise(t)
  {
    TrimStartIgnoresCase(s, t);
    TrimEndIgnoresCase(TrimStart(s), TrimStart(t));
    StripPunctuationIgnoresCase(Trim(s), Trim(t));
    var p, q := StripPunctuation(Trim(s)), StripPunctuation(Trim(t));
    CollapseWhiteSpaceIgnoresCase(p, q);
    ToLowerAsciiEqualIff(CollapseWhiteSpace(p), CollapseWhiteSpace(q));
  }

  /** Neither end is white space. */
  predicate IsTrimmed(s: string)
  {
    s == [] || (!IsWhiteSpace(s[0]) && !IsWhiteSpace(s[|s| - 1]))
  }

  lemma TrimKeepsTrimmed(s: string)
    requires IsTrimmed(s)
    ensures Trim(s) == s
  {
  }

  lemma {:induction false} StripPunctuationKeeps(s: string)
    requires forall i :: 0 <= i < |s| ==> !IsDeleted(s[i])
    ensures StripPunctuation(s) == s
    decreases |s|
  {
    if s != [] {
      StripPunctuationKeeps(s[1..]);
      assert [s[0]] + s[1..] == s;
    }
  }

  lemma ToLowerAsciiKeepsLower(s: string)
    requires forall i :: 0 <= i < |s| ==> !IsAsciiUpper(s[i])
    ensures ToLowerAscii(s) == s
  {
  }

  /** Only lower-case ASCII letters, digits and spaces. */
  predicate IsNormalChars(s: string)
  {
    forall i :: 0 <= i < |s| ==> IsAsciiLower(s[i]) || IsAsciiDigit(s[i]) || s[i] == ' '
  }

  /** A trimmed string of lower-case letters, digits and single spaces is a
      fixed point of normalisation. */
  lemma NormaliseKeepsNormal(s: string)
    requires IsTrimmed(s)
    requires IsNormalChars(s)
    requires NoDoubleSpace(s)
    ensures Normalise(s) == s
  {
    ToLowerAsciiKeepsLower(s);
    FirstStagesKeepNormal(s);
  }

  lemma FirstStagesKeepNormal(s: string)
    requires IsTrimmed(s)
    requires IsNormalChars(s)
    requires NoDoubleSpace(s)
    ensures CollapseWhiteSpace(StripPunctuation(Trim(s))) == s
  {
    TrimKeepsTrimmed(s);
    StripKeepsNormalChars(s);
    CollapseKeepsNormalChars(s);
  }

  lemma StripKeepsNormalChars(s: string)
    requires IsNormalChars(s)
    ensures StripPunctuation(s) == s
  {
    forall i | 0 <= i < |s| ensures !IsDeleted(s[i]) {
      AsciiClasses(s[i]);
    }
    StripPunctuationKeeps(s);
  }

  lemma CollapseKeepsNormalChars(s: string)
    requires IsNormalChars(s)
    requires NoDoubleSpace(s)
    ensures CollapseWhiteSpace(s) == s
  {
    forall i | 0 <= i < |s| && IsWhiteSpace(s[i]) ensures s[i] == ' ' {
      AsciiClasses(s[i]);
    }
    CollapseKeepsCollapsed(s);
  }

  /** A lower-case letter, digit or space is kept by every stage. */
  lemma AsciiClasses(c: char)
    requires IsAsciiLower(c) || IsAsciiDigit(c) || c == ' '
    ensures !IsDeleted(c) && !IsAsciiUpper(c) && (IsWhiteSpace(c) ==> c == ' ')
  {
  }

  /** Only lower-case ASCII letters and digits. */
  predicate IsLowerAlnum(w: string)
  {
    forall i :: 0 <= i < |w| ==> IsAsciiLower(w[i]) || IsAsciiDigit(w[i])
  }

  /** A non-empty run of lower-case ASCII letters and digits: what a
      vocabulary word looks like after normalisation. */
  predicate IsWord(w: string)
  {
    w != [] && IsLowerAlnum(w)
  }

  /** Two words with a run of white space between them normalise to the two
      words with one space between them. */
  lemma NormaliseWords(u: string, gap: string, v: string)
    requires IsWord(u) && IsWord(v)
    requires gap != [] && AllWhiteSpace(gap)
    ensures Normalise(u + gap + v) == u + [' '] + v
  {
    var q, c := u + gap + v, u + [' '] + v;
    forall i | 0 <= i < |u| ensures u[i] != ' ' && !IsWhiteSpace(u[i]) && !IsDeleted(u[i]) && !IsAsciiUpper(u[i]) {
      AsciiClasses(u[i]);
    }
    forall i | 0 <= i < |v| ensures v[i] != ' ' && !IsWhiteSpace(v[i]) && !IsDeleted(v[i]) && !IsAsciiUpper(v[i]) {
      AsciiClasses(v[i]);
    }
    assert IsTrimmed(q) by {
      assert q[0] == u[0] && q[|q| - 1] == v[|v| - 1];
    }
    assert forall i :: 0 <= i < |q| ==> !IsDeleted(q[i]) by {
      forall i | 0 <= i < |q| ensures !IsDeleted(q[i]) {
        if i < |u| {
          assert q[i] == u[i];
        } else if i < |u| + |gap| {
          assert q[i] == gap[i - |u|];
        } else {
          assert q[i] == v[i - |u| - |gap|];
        }
      }
    }
    assert forall i :: 0 <= i < |c| ==> !IsAsciiUpper(c[i]) by {
      forall i | 0 <= i < |c| ensures !IsAsciiUpper(c[i]) {
        if i < |u| {
          assert c[i] == u[i];
        } else if i > |u| {
          assert c[i] == v[i - |u| - 1];
        }
      }
    }
    NoSpaceNoDoubleSpace(u);
    NoSpaceNoDoubleSpace(v);
    calc {
      Normalise(q);
      { TrimKeepsTrimmed(q); }
      ToLowerAscii(CollapseWhiteSpace(StripPunctuation(q)));
      { StripPunctuationKeeps(q); }
      ToLowerAscii(CollapseWhiteSpace(q));
      { CollapseWhiteSpaceRun(u, gap, v); CollapseKeepsCollapsed(u); CollapseKeepsCollapsed(v); }
      ToLowerAscii(c);
      { ToLowerAsciiKeepsLower(c); }
      c;
    }
  }

  /** A word between two spaces, with a deleted character at each end of the
      question, keeps both spaces: trimming has already happened when the
      deleted characters go, so nothing removes the spaces they uncover. */
  lemma NormaliseMarkedWord(c: char, w: string, d: char)
    requires IsDeleted(c) && IsDeleted(d) && IsWord(w)
    ensures Normalise([c, ' '] + w + [' ', d]) == [' '] + w + [' ']
  {
    var q, m := [c, ' '] + w + [' ', d], [' '] + w + [' '];
    forall i | 0 <= i < |w| ensures w[i] != ' ' && !IsWhiteSpace(w[i]) && !IsDeleted(w[i]) && !IsAsciiUpper(w[i]) {
      AsciiClasses(w[i]);
    }
    assert forall i :: 0 <= i < |m| ==> !IsDeleted(m[i]) && !IsAsciiUpper(m[i]) && (IsWhiteSpace(m[i]) ==> m[i] == ' ') by {
      forall i | 0 <= i < |m| ensures !IsDeleted(m[i]) && !IsAsciiUpper(m[i]) && (IsWhiteSpace(m[i]) ==> m[i] == ' ') {
        if 0 < i < |m| - 1 {
          assert m[i] == w[i - 1];
        }
      }
    }
    assert NoDoubleSpace(m) by {
      var t := w + [' '];
      assert forall i :: 0 <= i < |t| - 1 ==> t[i] == w[i];
      NoSpaceNoDoubleSpace(t);
      assert m[1..] == t;
    }
    assert StripPunctuation(q) == m by {
      assert q == [c] + m + [d];
      StripPunctuationConcat([c] + m, [d]);
      StripPunctuationConcat([c], m);
      StripPunctuationKeeps(m);
    }
    calc {
      Normalise(q);
      { assert q[0] == c && q[|q| - 1] == d; TrimKeepsTrimmed(q); }
      ToLowerAscii(CollapseWhiteSpace(StripPunctuation(q)));
      ToLowerAscii(CollapseWhiteSpace(m));
      { CollapseKeepsCollapsed(m); }
      ToLowerAscii(m);
      { ToLowerAsciiKeepsLower(m); }
      m;
    }
  }

  /** A deleted character inside a trimmed question is dropped without
      leaving a gap: the words on either side of it join. */
  lemma NormaliseDropsDeleted(a: string, c: char, b: string)
    requires IsDeleted(c)
    requires IsTrimmed(a + [c] + b) && IsTrimmed(a + b)
    ensures Normalise(a + [c] + b) == Normalise(a + b)
  {
    TrimKeepsTrimmed(a + [c] + b);
    TrimKeepsTrimmed(a + b);
    StripPunctuationJoins(a, c, b);
  }

  // --------------------------------------------------------- split / join

  /** `split(" ")`: the pieces between consecutive spaces; the empty string
      gives one empty piece. */
  function Split(s: string): (r: seq<string>)
    ensures |r| >= 1
    decreases |s|
  {
    if s == [] then [[]]
    else
      var rest := Split(s[1..]);
      if s[0] == ' ' then [[]] + rest
      else [[s[0]] + rest[0]] + rest[1..]
  }

  /** No piece holds a space, and every character of a piece comes from
      `s`. */
  lemma {:induction false} SplitPieces(s: string)
    ensures forall i, j :: 0 <= i < |Split(s)| && 0 <= j < |Split(s)[i]| ==>
              Split(s)[i][j] != ' ' && Split(s)[i][j] in s
    decreases |s|
  {
    if s != [] {
      var r, rest := Split(s), Split(s[1..]);
      SplitPieces(s[1..]);
      assert forall x :: x in s[1..] ==> x in s;
      if s[0] != ' ' {
        forall i, j | 0 <= i < |r| && 0 <= j < |r[i]| ensures r[i][j] != ' ' && r[i][j] in s {
          if i == 0 && j > 0 {
            assert r[i][j] == rest[0][j - 1];
          } else if i > 0 {
            assert r[i] == rest[i];
          }
        }
      }
    }
  }

  /** The pieces separated by single spaces: the inverse of `Split`. */
  function Join(pieces: seq<string>): string
    requires |pieces| >= 1
    decreases |pieces|
  {
    if |pieces| == 1 then pieces[0] else pieces[0] + [' '] + Join(pieces[1..])
  }

  lemma {:induction false} JoinSplit(s: string)
    ensures Join(Split(s)) == s
    decreases |s|
  {
    if s != [] {
      JoinSplit(s[1..]);
      var rest := Split(s[1..]);
      if s[0] == ' ' {
        assert ([[]] + rest)[1..] == rest;
      } else if |rest| == 1 {
      } else {
        assert ([[s[0]] + rest[0]] + rest[1..])[1..] == rest[1..];
        assert Join(rest) == rest[0] + [' '] + Join(rest[1..]);
      }
    }
  }

  /** Splitting a word without spaces followed by `tail` extends the first
      piece of `tail`. */
  lemma {:induction false} SplitWordPrefix(w: string, tail: string)
    requires ' ' !in w
    ensures Split(w + tail) == [w + Split(tail)[0]] + Split(tail)[1..]
    decreases |w|
  {
    if w != [] {
      var s, t := w + tail, Split(tail);
      assert s[0] == w[0] && w[0] != ' ';
      assert s[1..] == w[1..] + tail;
      assert ' ' !in w[1..] by {
        forall x | x in w[1..] ensures x in w { }
      }
      SplitWordPrefix(w[1..], tail);
      var rest := Split(s[1..]);
      assert rest == [w[1..] + t[0]] + t[1..];
      assert Split(s) == [[w[0]] + rest[0]] + rest[1..];
      assert [w[0]] + (w[1..] + t[0]) == w + t[0];
    } else {
      var t := Split(tail);
      assert w + tail == tail && w + t[0] == t[0] && [t[0]] + t[1..] == t;
    }
  }

  lemma {:induction false} SplitJoin(pieces: seq<string>)
    requires |pieces| >= 1
    requires forall i :: 0 <= i < |pieces| ==> ' ' !in pieces[i]
    ensures Split(Join(pieces)) == pieces
    decreases |pieces|
  {
    if |pieces| == 1 {
      SplitWordPrefix(pieces[0], []);
      assert pieces[0] + [] == pieces[0];
    } else {
      var tail := [' '] + Join(pieces[1..]);
      SplitJoin(pieces[1..]);
      assert tail[1..] == Join(pieces[1..]);
      assert Split(tail) == [[]] + pieces[1..];
      SplitWordPrefix(pieces[0], tail);
      assert pieces[0] + [' '] + Join(pieces[1..]) == pieces[0] + tail;
      assert pieces[0] + [] == pieces[0];
    }
  }

  /** A piece is empty at the front exactly when `s` is empty or starts with
      a space, and at the back exactly when `s` is empty or ends with one. */
  lemma {:induction false} SplitEnds(s: string)
    ensures Split(s)[0] == [] <==> (s == [] || s[0] == ' ')
    ensures Split(s)[|Split(s)| - 1] == [] <==> (s == [] || s[|s| - 1] == ' ')
    decreases |s|
  {
    if s != [] {
      SplitEnds(s[1..]);
      var rest := Split(s[1..]);
      if s[0] != ' ' && |rest| == 1 {
        assert s[1..] == [] || s[|s| - 1] == s[1..][|s[1..]| - 1];
      }
    }
  }

  /** In a string without two adjacent spaces, only the first and the last
      piece can be empty. */
  lemma {:induction false} SplitInteriorNonEmpty(s: string)
    requires NoDoubleSpace(s)
    ensures forall i :: 0 < i < |Split(s)| - 1 ==> Split(s)[i] != []
    decreases |s|
  {
    if s != [] {
      var r, rest := Split(s), Split(s[1..]);
      SplitInteriorNonEmpty(s[1..]);
      if s[0] == ' ' {
        if |rest| >= 2 {
          SplitEnds(s[1..]);
          assert s[1..][0] == s[1];
        }
        forall i | 0 < i < |r| - 1 ensures r[i] != [] {
          assert r[i] == rest[i - 1];
        }
      } else {
        forall i | 0 < i < |r| - 1 ensures r[i] != [] {
          assert r[i] == rest[i];
        }
      }
    }
  }

  /** Splitting a normalised string gives pieces of letters and digits, and
      only the first and the last can be empty. */
  lemma SplitNormal(s: string)
    requires IsNormalChars(s) && NoDoubleSpace(s)
    ensures forall i :: 0 <= i < |Split(s)| ==> IsLowerAlnum(Split(s)[i])
    ensures forall i :: 0 < i < |Split(s)| - 1 ==> Split(s)[i] != []
  {
    var r := Split(s);
    SplitInteriorNonEmpty(s);
    SplitPieces(s);
    forall i | 0 <= i < |r| ensures IsLowerAlnum(r[i]) {
      forall j | 0 <= j < |r[i]| ensures IsAsciiLower(r[i][j]) || IsAsciiDigit(r[i][j]) {
        var k :| 0 <= k < |s| && s[k] == r[i][j];
      }
    }
  }

  // ------------------------------------------------ white space at the ends

  /** The pieces that are not empty, in order. */
  function NonEmpty(pieces: seq<string>): seq<string>
    decreases |pieces|
  {
    if pieces == [] then []
    else (if pieces[0] == [] then [] else [pieces[0]]) + NonEmpty(pieces[1..])
  }

  lemma {:induction false} NonEmptyAppend(p: seq<string>, q: seq<string>)
    ensures NonEmpty(p + q) == NonEmpty(p) + NonEmpty(q)
    decreases |p|
  {
    if p == [] {
      assert p + q == q;
    } else {
      assert (p + q)[1..] == p[1..] + q;
      NonEmptyAppend(p[1..], q);
    }
  }

  /** The words of `s`: the non-empty pieces left once white space is
      collapsed, the letters lower-cased and the result split on spaces. */
  function Words(s: string): seq<string>
  {
    NonEmpty(Split(ToLowerAscii(CollapseWhiteSpace(s))))
  }

  /** A non-empty run of white space collapses to one space. */
  lemma CollapseBlank(w: string)
    requires w != [] && AllWhiteSpace(w)
    ensures CollapseWhiteSpace(w) == [' ']
  {
    assert w + [] == w;
    CollapseLeadingRun(w, []);
  }

  /** White space in front of a string adds at most one leading space to its
      collapsed form. */
  lemma CollapseAfterWhite(w: string, x: string)
    requires AllWhiteSpace(w)
    ensures CollapseWhiteSpace(w + x) == CollapseWhiteSpace(x)
            || CollapseWhiteSpace(w + x) == [' '] + CollapseWhiteSpace(x)
  {
    if w == [] {
      assert w + x == x;
    } else {
      CollapseWhitePrefix(w, x);
      CollapseTrimStart(x);
    }
  }

  /** When `x` starts with white space, that leading white space becomes one
      space. */
  lemma CollapseTrimStart(x: string)
    ensures TrimStart(x) == x || CollapseWhiteSpace(x) == [' '] + CollapseWhiteSpace(TrimStart(x))
  {
    var t := TrimStart(x);
    if |t| < |x| {
      var v := x[..|x| - |t|];
      assert x == v + t by { assert t == x[|x| - |t|..]; }
      CollapseLeadingRun(v, t);
    }
  }

  /** A non-empty run of white space in front of `x` becomes one space in
      front of the collapsed rest once the white space `x` starts with is
      dropped as well. */
  lemma CollapseWhitePrefix(w: string, x: string)
    requires w != [] && AllWhiteSpace(w)
    ensures CollapseWhiteSpace(w + x) == [' '] + CollapseWhiteSpace(TrimStart(x))
  {
    var t := TrimStart(x);
    var v := x[..|x| - |t|];
    assert w + x == (w + v) + t by {
      assert x == v + t;
      AppendAssoc(w, v, t);
    }
    AllWhiteSpaceConcat(w, v);
    CollapseLeadingRun(w + v, t);
  }

  lemma AllWhiteSpaceConcat(v: string, w: string)
    requires AllWhiteSpace(v) && AllWhiteSpace(w)
    ensures AllWhiteSpace(v + w)
  {
    forall i | 0 <= i < |v + w| ensures IsWhiteSpace((v + w)[i]) {
      if i >= |v| {
        assert (v + w)[i] == w[i - |v|];
      } else {
        assert (v + w)[i] == v[i];
      }
    }
  }

  /** White space after a string adds at most one trailing space to its
      collapsed form. */
  lemma CollapseBeforeWhite(x: string, w: string)
    requires AllWhiteSpace(w)
    ensures CollapseWhiteSpace(x + w) == CollapseWhiteSpace(x)
            || CollapseWhiteSpace(x + w) == CollapseWhiteSpace(x) + [' ']
  {
    var e := TrimEnd(x);
    var v := x[|e|..];
    assert x == e + v;
    AppendAssoc(e, v, w);
    CollapseConcat(e, v + w);
    CollapseConcat(e, v);
    AllWhiteSpaceConcat(v, w);
    if v + w != [] {
      CollapseBlank(v + w);
    }
    if v != [] {
      CollapseBlank(v);
    } else {
      assert CollapseWhiteSpace(e) + [] == CollapseWhiteSpace(e);
    }
  }

  lemma ToLowerAsciiConcat(x: string, y: string)
    ensures ToLowerAscii(x + y) == ToLowerAscii(x) + ToLowerAscii(y)
  {
  }

  lemma SplitAfterSpace(y: string)
    ensures Split([' '] + y) == [[]] + Split(y)
  {
    assert ([' '] + y)[1..] == y;
  }

  lemma {:induction false} SplitBeforeSpace(y: string)
    ensures Split(y + [' ']) == Split(y) + [[]]
    decreases |y|
  {
    if y == [] {
      assert y + [' '] == [' '];
      SplitAfterSpace([]);
    } else {
      assert (y + [' '])[1..] == y[1..] + [' '];
      SplitBeforeSpace(y[1..]);
    }
  }

  /** White space in front of a string changes none of its words. */
  lemma WordsAfterWhite(w: string, x: string)
    requires AllWhiteSpace(w)
    ensures Words(w + x) == Words(x)
  {
    var c := CollapseWhiteSpace(x);
    CollapseAfterWhite(w, x);
    if CollapseWhiteSpace(w + x) != c {
      assert ToLowerAscii([' ']) == [' '];
      ToLowerAsciiConcat([' '], c);
      SplitAfterSpace(ToLowerAscii(c));
      NonEmptyAppend([[]], Split(ToLowerAscii(c)));
      assert NonEmpty([[]]) == [];
    }
  }

  /** White space after a string changes none of its words. */
  lemma WordsBeforeWhite(x: string, w: string)
    requires AllWhiteSpace(w)
    ensures Words(x + w) == Words(x)
  {
    var c := CollapseWhiteSpace(x);
    CollapseBeforeWhite(x, w);
    if CollapseWhiteSpace(x + w) != c {
      assert ToLowerAscii([' ']) == [' '];
      ToLowerAsciiConcat(c, [' ']);
      SplitBeforeSpace(ToLowerAscii(c));
      NonEmptyAppend(Split(ToLowerAscii(c)), [[]]);
      assert NonEmpty([[]]) == [];
      assert NonEmpty(Split(ToLowerAscii(c))) + [] == NonEmpty(Split(ToLowerAscii(c)));
    }
  }

  /** Deletion keeps every white-space character. */
  lemma StripKeepsWhite(w: string)
    requires AllWhiteSpace(w)
    ensures StripPunctuation(w) == w
  {
    StripPunctuationKeeps(w);
  }

  /** Trimming only ever removes empty pieces: the non-empty tokens of a
      question are the words of the question with only its punctuation
      deleted. */
  lemma NormaliseWordsOf(s: string)
    ensures NonEmpty(Split(Normalise(s))) == Words(StripPunctuation(s))
  {
    TrimIsSlice(s);
    var m := Trim(s);
    var i :| IsTrimmedSliceOf(s, i, m);
    var w1, w2 := s[..i], s[i + |m|..];
    SliceParts(s, i, i + |m|);
    StripPadded(w1, m, w2);
    WordsOfPadded(w1, StripPunctuation(m), w2);
  }

  lemma SliceParts(s: string, i: nat, j: nat)
    requires i <= j <= |s|
    ensures s == s[..i] + s[i..j] + s[j..]
  {
  }

  /** Punctuation deletion leaves white space at either end in place. */
  lemma StripPadded(w1: string, m: string, w2: string)
    requires AllWhiteSpace(w1) && AllWhiteSpace(w2)
    ensures StripPunctuation(w1 + m + w2) == w1 + StripPunctuation(m) + w2
  {
    StripPunctuationConcat(w1 + m, w2);
    StripPunctuationConcat(w1, m);
    StripKeepsWhite(w1);
    StripKeepsWhite(w2);
  }

  /** White space at either end adds no words. */
  lemma WordsOfPadded(w1: string, p: string, w2: string)
    requires AllWhiteSpace(w1) && AllWhiteSpace(w2)
    ensures Words(w1 + p + w2) == Words(p)
  {
    AppendAssoc(w1, p, w2);
    WordsAfterWhite(w1, p + w2);
    WordsBeforeWhite(p, w2);
  }

  /** A deleted character anywhere in a question changes none of the
      non-empty tokens. */
  lemma NormaliseIgnoresDeleted(a: string, c: char, b: string)
    requires IsDeleted(c)
    ensures NonEmpty(Split(Normalise(a + [c] + b))) == NonEmpty(Split(Normalise(a + b)))
  {
    NormaliseWordsOf(a + [c] + b);
    NormaliseWordsOf(a + b);
    StripPunctuationJoins(a, c, b);
  }
}
