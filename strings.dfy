/** The few .NET string operations the services rely on: white-space tests,
    `Trim`, the ordinal case-insensitive comparison and the ordinal order.
    Character classes are those of ASCII and Latin-1 (see README). */
module Strings {

  /** `char.IsWhiteSpace` over ASCII and Latin-1. */
  predicate IsWhiteSpace(c: char) {
    c == ' ' || ('\t' <= c <= '\r') || c == '\U{85}' || c == '\U{A0}'
  }

  /** `string.IsNullOrWhiteSpace` of a non-null string. */
  predicate IsBlank(s: string) {
    forall i :: 0 <= i < |s| ==> IsWhiteSpace(s[i])
  }

  lemma BlankConcat(a: string, b: string)
    ensures IsBlank(a + b) <==> IsBlank(a) && IsBlank(b)
  {
    if IsBlank(a) && IsBlank(b) {
      forall i | 0 <= i < |a + b| ensures IsWhiteSpace((a + b)[i]) {
        if i >= |a| { assert (a + b)[i] == b[i - |a|]; }
      }
    }
    if IsBlank(a + b) {
      forall i | 0 <= i < |a| ensures IsWhiteSpace(a[i]) {
        assert (a + b)[i] == a[i];
      }
      forall i | 0 <= i < |b| ensures IsWhiteSpace(b[i]) {
        assert (a + b)[|a| + i] == b[i];
      }
    }
  }

  /** `TrimStart()`: the suffix left after dropping leading white space. */
  function TrimStart(s: string): (r: string)
    ensures |r| <= |s| && r == s[|s| - |r|..]
    ensures IsBlank(s[..|s| - |r|])
    ensures r == [] || !IsWhiteSpace(r[0])
  {
    if s != [] && IsWhiteSpace(s[0]) then TrimStart(s[1..]) else s
  }

  /** `TrimEnd()`: the prefix left after dropping trailing white space. */
  function TrimEnd(s: string): (r: string)
    ensures |r| <= |s| && r == s[..|r|]
    ensures IsBlank(s[|r|..])
    ensures r == [] || !IsWhiteSpace(r[|r| - 1])
  {
    if s != [] && IsWhiteSpace(s[|s| - 1]) then
      var p := s[..|s| - 1];
      var r := TrimEnd(p);
      assert r == s[..|r|] by {
        assert p[..|r|] == s[..|r|];
      }
      assert s[|r|..] == p[|r|..] + [s[|s| - 1]];
      BlankConcat(p[|r|..], [s[|s| - 1]]);
      r
    else
      assert s[..|s|] == s;
      s
  }

  /** `Trim()`: a factor of `s` framed by white space on both sides, which
      neither starts nor ends with white space; it is empty exactly when `s`
      is blank. */
  function Trim(s: string): (r: string)
    ensures r == [] <==> IsBlank(s)
    ensures r != [] ==> !IsWhiteSpace(r[0]) && !IsWhiteSpace(r[|r| - 1])
    ensures IsTrimmedAt(s, r, |s| - |TrimStart(s)|)
  {
    TrimBlank(s);
    TrimFrame(s);
    TrimEnd(TrimStart(s))
  }

  /** `r` sits in `s` at `lead` with only white space around it. */
  predicate IsTrimmedAt(s: string, r: string, lead: int) {
    0 <= lead <= |s| - |r| && s[lead..lead + |r|] == r
    && IsBlank(s[..lead]) && IsBlank(s[lead + |r|..])
  }

  lemma TrimBlank(s: string)
    ensures TrimEnd(TrimStart(s)) == [] <==> IsBlank(s)
  {
    var t := TrimStart(s);
    var lead := |s| - |t|;
    if TrimEnd(t) == [] {
      assert IsBlank(t[0..]);
      assert t[0..] == t;
      assert s == s[..lead] + t;
      BlankConcat(s[..lead], t);
    }
  }

  lemma TrimFrame(s: string)
    ensures IsTrimmedAt(s, TrimEnd(TrimStart(s)), |s| - |TrimStart(s)|)
  {
    var t := TrimStart(s);
    var r := TrimEnd(t);
    var lead := |s| - |t|;
    assert s[lead..lead + |r|] == t[..|r|];
    assert s[lead + |r|..] == t[|r|..];
  }

  /** Trimming twice is trimming once. */
  lemma TrimIdempotent(s: string)
    ensures Trim(Trim(s)) == Trim(s)
  {
    var r := Trim(s);
    assert TrimStart(r) == r;
    assert TrimEnd(r) == r;
  }

  /** The upper-case mapping that `StringComparison.OrdinalIgnoreCase` uses,
      for ASCII letters. */
  function ToUpper(c: char): char {
    if 'a' <= c <= 'z' then (c as int - 32) as char else c
  }

  /** The case-folded form of a string; two strings are equal under
      `OrdinalIgnoreCase` exactly when their folded forms are equal. */
  function Fold(s: string): (r: string)
    ensures |r| == |s|
  {
    seq(|s|, i requires 0 <= i < |s| => ToUpper(s[i]))
  }

  predicate EqualsIgnoreCase(a: string, b: string) {
    Fold(a) == Fold(b)
  }

  /** `hay.Contains(needle, StringComparison.OrdinalIgnoreCase)`. */
  predicate ContainsIgnoreCase(hay: string, needle: string) {
    var h, n := Fold(hay), Fold(needle);
    exists i :: 0 <= i <= |h| - |n| && OccursAt(h, n, i)
  }

  predicate OccursAt(h: string, n: string, i: int) {
    0 <= i <= |h| - |n| && h[i..i + |n|] == n
  }

  /** Ordinal (code-point) lexicographic order on strings, `a` at or before `b`. */
  predicate OrdinalLe(a: string, b: string)
    decreases |a|
  {
    |a| == 0 || (|b| > 0 && (a[0] < b[0] || (a[0] == b[0] && OrdinalLe(a[1..], b[1..]))))
  }

  lemma {:induction false} OrdinalLeTotal(a: string, b: string)
    ensures OrdinalLe(a, b) || OrdinalLe(b, a)
    decreases |a|
  {
    if |a| > 0 && |b| > 0 && a[0] == b[0] {
      OrdinalLeTotal(a[1..], b[1..]);
    }
  }

  lemma {:induction false} OrdinalLeAntisymmetric(a: string, b: string)
    ensures OrdinalLe(a, b) && OrdinalLe(b, a) ==> a == b
    decreases |a|
  {
    if |a| > 0 && |b| > 0 && a[0] == b[0] {
      OrdinalLeAntisymmetric(a[1..], b[1..]);
      if OrdinalLe(a, b) && OrdinalLe(b, a) {
        assert a == [a[0]] + a[1..] && b == [b[0]] + b[1..];
      }
    }
  }

  lemma {:induction false} OrdinalLeTransitive(a: string, b: string, c: string)
    ensures OrdinalLe(a, b) && OrdinalLe(b, c) ==> OrdinalLe(a, c)
    decreases |a|
  {
    if |a| > 0 && |b| > 0 && |c| > 0 && a[0] == b[0] == c[0] {
      OrdinalLeTransitive(a[1..], b[1..], c[1..]);
    }
  }
}
