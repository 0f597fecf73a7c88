/** Word counting for the dashboard: the number of matches of the regular
    expression `\b[\p{L}\p{N}]+\b` in a text, as .NET's backtracking matcher
    finds them, and a plain characterisation of that number. Character
    classes are those of Latin-1 (code points up to U+00FF). */
module Words {
  import opened Wrappers
  import opened Strings

  // ---------------------------------------------------------------- character classes

  /** Unicode category L (letters), restricted to Latin-1. */
  predicate IsLetter(c: char) {
    ('A' <= c <= 'Z') || ('a' <= c <= 'z') || c == '\U{AA}' || c == '\U{B5}' || c == '\U{BA}'
    || ('\U{C0}' <= c <= '\U{D6}') || ('\U{D8}' <= c <= '\U{F6}') || ('\U{F8}' <= c <= '\U{FF}')
  }

  /** Unicode category N (numbers), restricted to Latin-1: the decimal digits
      and the superscripts and vulgar fractions. */
  predicate IsNumber(c: char) {
    ('0' <= c <= '9') || c == '\U{B2}' || c == '\U{B3}' || c == '\U{B9}' || ('\U{BC}' <= c <= '\U{BE}')
  }

  /** The class `[\p{L}\p{N}]`. */
  predicate IsLetterOrNumber(c: char) {
    IsLetter(c) || IsNumber(c)
  }

  /** .NET's `\w` (letters, non-spacing marks, decimal digits and connector
      punctuation), restricted to Latin-1. */
  predicate IsWordChar(c: char) {
    IsLetter(c) || ('0' <= c <= '9') || c == '_'
  }

  /** `\b` at position `i`: exactly one of the characters on either side is a
      word character. */
  predicate IsBoundary(t: string, i: int)
    requires 0 <= i <= |t|
  {
    (i > 0 && IsWordChar(t[i - 1])) != (i < |t| && IsWordChar(t[i]))
  }

  // ---------------------------------------------------------------- the matcher

  /** The length of the run of letters and numbers that starts at `i`. */
  function LetterRun(t: string, i: nat): (n: nat)
    requires i <= |t|
    ensures i + n <= |t|
    ensures forall k :: i <= k < i + n ==> IsLetterOrNumber(t[k])
    ensures i + n == |t| || !IsLetterOrNumber(t[i + n])
    decreases |t| - i
  {
    if i < |t| && IsLetterOrNumber(t[i]) then 1 + LetterRun(t, i + 1) else 0
  }

  /** The greedy quantifier backing off: the largest `l <= L` at which `\b`
      holds after `l` characters, or 0 when there is none. */
  function BackOff(t: string, i: nat, L: nat): (l: nat)
    requires i + L <= |t|
    ensures l <= L
    ensures l > 0 ==> IsBoundary(t, i + l)
    ensures forall p :: i + l < p <= i + L ==> !IsBoundary(t, p)
  {
    if L == 0 then 0 else if IsBoundary(t, i + L) then L else BackOff(t, i, L - 1)
  }

  /** `\b[\p{L}\p{N}]+\b` matches the `L` characters at `i`. */
  predicate MatchesAt(t: string, i: nat, L: nat) {
    && 1 <= L && i + L <= |t|
    && (forall k :: i <= k < i + L ==> IsLetterOrNumber(t[k]))
    && IsBoundary(t, i) && IsBoundary(t, i + L)
  }

  /** The length of the match the engine takes at `i` (0 for none): the
      longest match that starts there. */
  function MatchLength(t: string, i: nat): (l: nat)
    requires i <= |t|
    ensures l > 0 ==> MatchesAt(t, i, l)
    ensures forall m :: l < m ==> !MatchesAt(t, i, m)
  {
    var run := LetterRun(t, i);
    var l := if IsBoundary(t, i) then BackOff(t, i, run) else 0;
    assert forall m :: run < m ==> !MatchesAt(t, i, m) by {
      forall m | run < m && i + m <= |t| ensures !MatchesAt(t, i, m) {
        assert !IsLetterOrNumber(t[i + run]);
      }
    }
    l
  }

  /** `Regex.Matches(t, ...).Count` from position `i` on: the engine tries each
      position in turn and resumes after every match it takes. */
  function MatchCount(t: string, i: nat): nat
    requires i <= |t|
    decreases |t| - i
  {
    if i == |t| then 0
    else
      var l := MatchLength(t, i);
      if l > 0 then 1 + MatchCount(t, i + l) else MatchCount(t, i + 1)
  }

  /** `CountWords`: 0 for a null or blank text, otherwise the number of
      matches. The blank test only short-cuts the matcher, and where every
      letter and number is a word character the count is the number of words
      made of letters and numbers. */
  function CountWords(text: Option<string>): (n: nat)
    ensures text.None? ==> n == 0
    ensures text.Some? ==> n == MatchCount(text.value, 0)
    ensures text.Some? && NumbersAreWordChars(text.value) ==> n == PlainWords(text.value, 0)
  {
    match text
    case None => 0
    case Some(t) =>
      assert NumbersAreWordChars(t) ==> MatchCount(t, 0) == PlainWords(t, 0) by {
        if NumbersAreWordChars(t) { MatchCountIsPlainWords(t, 0); }
      }
      if IsBlank(t) then BlankHasNoMatch(t, 0); 0 else MatchCount(t, 0)
  }

  // ---------------------------------------------------------------- the characterisation

  /** The length of the run of word characters that starts at `i`. */
  function WordRun(t: string, i: nat): (n: nat)
    requires i <= |t|
    ensures i + n <= |t|
    ensures forall k :: i <= k < i + n ==> IsWordChar(t[k])
    ensures i + n == |t| || !IsWordChar(t[i + n])
    decreases |t| - i
  {
    if i < |t| && IsWordChar(t[i]) then 1 + WordRun(t, i + 1) else 0
  }

  /** A word (a maximal run of word characters) starts at `i` and consists of
      letters and numbers only. */
  predicate StartsPlainWord(t: string, i: nat)
    requires i <= |t|
  {
    i < |t| && IsWordChar(t[i]) && (i == 0 || !IsWordChar(t[i - 1]))
    && LetterRun(t, i) == WordRun(t, i)
  }

  /** The number of words of `t`, from position `i` on, made of letters and
      numbers only. */
  function PlainWords(t: string, i: nat): nat
    requires i <= |t|
    decreases |t| - i
  {
    if i == |t| then 0 else (if StartsPlainWord(t, i) then 1 else 0) + PlainWords(t, i + 1)
  }

  /** Every letter and number of `t` is a word character (which fails in
      Latin-1 only for the superscripts and vulgar fractions). */
  predicate NumbersAreWordChars(t: string) {
    forall k :: 0 <= k < |t| && IsLetterOrNumber(t[k]) ==> IsWordChar(t[k])
  }

  lemma {:induction false} PlainWordsSkip(t: string, i: nat, j: nat)
    requires i <= j <= |t|
    requires forall k :: i <= k < j ==> !StartsPlainWord(t, k)
    ensures PlainWords(t, i) == PlainWords(t, j)
    decreases j - i
  {
    if i < j {
      PlainWordsSkip(t, i + 1, j);
    }
  }

  /** Inside a run of letters and numbers that are word characters there is no
      word boundary. */
  lemma NoInnerBoundary(t: string, i: nat)
    requires i < |t|
    requires NumbersAreWordChars(t)
    ensures forall p :: i < p < i + LetterRun(t, i) ==> !IsBoundary(t, p)
  {
    var run := LetterRun(t, i);
    forall p | i < p < i + run ensures !IsBoundary(t, p) {
      assert IsLetterOrNumber(t[p - 1]) && IsLetterOrNumber(t[p]);
    }
  }

  /** Where numbers are word characters, the matcher takes a match at `i`
      exactly where a word of letters and numbers starts, and the match is the
      whole word. */
  lemma MatchAtPlainWord(t: string, i: nat)
    requires i < |t|
    requires NumbersAreWordChars(t)
    ensures MatchLength(t, i) > 0 <==> StartsPlainWord(t, i)
    ensures StartsPlainWord(t, i) ==> MatchLength(t, i) == LetterRun(t, i)
  {
    var run := LetterRun(t, i);
    var w := WordRun(t, i);
    if IsBoundary(t, i) && run > 0 {
      NoInnerBoundary(t, i);
      assert IsWordChar(t[i]);
      if IsBoundary(t, i + run) {
      } else {
        assert i + run < |t| && IsWordChar(t[i + run]);
      }
    }
  }

  /** Where numbers are word characters, the matcher counts exactly the words
      made of letters and numbers only: a word touching `_` is not counted. */
  lemma {:induction false} MatchCountIsPlainWords(t: string, i: nat)
    requires i <= |t|
    requires NumbersAreWordChars(t)
    ensures MatchCount(t, i) == PlainWords(t, i)
    decreases |t| - i
  {
    if i < |t| {
      MatchAtPlainWord(t, i);
      if StartsPlainWord(t, i) {
        var run := LetterRun(t, i);
        MatchCountIsPlainWords(t, i + run);
        forall k | i + 1 <= k < i + run ensures !StartsPlainWord(t, k) {
          assert IsWordChar(t[k - 1]);
        }
        PlainWordsSkip(t, i + 1, i + run);
      } else {
        MatchCountIsPlainWords(t, i + 1);
      }
    }
  }

  /** A blank text has no match, so the blank test in `CountWords` only
      short-cuts the matcher. */
  lemma {:induction false} BlankHasNoMatch(t: string, i: nat)
    requires i <= |t|
    requires IsBlank(t)
    ensures MatchCount(t, i) == 0
    decreases |t| - i
  {
    if i < |t| {
      assert IsWhiteSpace(t[i]);
      assert LetterRun(t, i) == 0;
      BlankHasNoMatch(t, i + 1);
    }
  }

  /** A short sentence with a number. */
  const Sentence: string := "Hello, world! 123"

  lemma SentenceRuns()
    ensures LetterRun(Sentence, 0) == 5 && LetterRun(Sentence, 5) == 0
    ensures LetterRun(Sentence, 7) == 5 && LetterRun(Sentence, 12) == 0
    ensures LetterRun(Sentence, 14) == 3
  {
    var t := Sentence;
    assert LetterRun(t, 17) == 0;
    assert LetterRun(t, 16) == 1;
    assert LetterRun(t, 15) == 2;
    assert LetterRun(t, 12) == 0;
    assert LetterRun(t, 11) == 1;
    assert LetterRun(t, 10) == 2;
    assert LetterRun(t, 9) == 3;
    assert LetterRun(t, 8) == 4;
    assert LetterRun(t, 5) == 0;
    assert LetterRun(t, 4) == 1;
    assert LetterRun(t, 3) == 2;
    assert LetterRun(t, 2) == 3;
    assert LetterRun(t, 1) == 4;
  }

  lemma SentenceMatches()
    ensures MatchLength(Sentence, 0) == 5 && MatchLength(Sentence, 5) == 0
    ensures MatchLength(Sentence, 6) == 0 && MatchLength(Sentence, 7) == 5
    ensures MatchLength(Sentence, 12) == 0 && MatchLength(Sentence, 13) == 0
    ensures MatchLength(Sentence, 14) == 3
  {
    SentenceRuns();
  }

  lemma SentenceCount()
    ensures MatchCount(Sentence, 0) == 3
  {
    var t := Sentence;
    SentenceMatches();
    assert MatchCount(t, 17) == 0;
    assert MatchCount(t, 14) == 1;
    assert MatchCount(t, 13) == 1;
    assert MatchCount(t, 12) == 1;
    assert MatchCount(t, 7) == 2;
    assert MatchCount(t, 6) == 2;
    assert MatchCount(t, 5) == 2;
  }

  /** The count the dashboard shows for a short sentence with a number. */
  lemma CountWordsExample()
    ensures CountWords(Some(Sentence)) == 3
  {
    assert !IsWhiteSpace(Sentence[0]);
    SentenceCount();
  }
}
