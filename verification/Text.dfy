/** The string primitives the domain code relies on: string.IsNullOrWhiteSpace,
    string.Trim and an ordinal case-insensitive string.Contains. */
module Text {
  import opened Common

  /** Char.IsWhiteSpace: the Unicode space separators, line and paragraph
      separators, and the control characters U+0009..U+000D, U+0085. */
  predicate IsWhiteSpace(c: char)
  {
    || ('\t' <= c <= '\r') || c == ' ' || c == '\U{0085}' || c == '\U{00A0}'
    || c == '\U{1680}' || ('\U{2000}' <= c <= '\U{200A}') || c == '\U{2028}'
    || c == '\U{2029}' || c == '\U{202F}' || c == '\U{205F}' || c == '\U{3000}'
  }

  predicate AllWhiteSpace(s: string)
  {
    forall i | 0 <= i < |s| :: IsWhiteSpace(s[i])
  }

  /** string.IsNullOrWhiteSpace: null, empty, or made of white space only. */
  predicate IsNullOrWhiteSpace(s: Nullable<string>)
  {
    s.Null? || AllWhiteSpace(s.value)
  }

  /** The number of white-space characters at the start of `s`. */
  function LeadingWhiteSpace(s: string): (n: nat)
    ensures n <= |s|
    ensures AllWhiteSpace(s[..n])
    ensures n < |s| ==> !IsWhiteSpace(s[n])
  {
    if s != [] && IsWhiteSpace(s[0]) then 1 + LeadingWhiteSpace(s[1..]) else 0
  }

  /** The number of white-space characters at the end of `s`. */
  function TrailingWhiteSpace(s: string): (n: nat)
    ensures n <= |s|
    ensures AllWhiteSpace(s[|s| - n..])
    ensures n < |s| ==> !IsWhiteSpace(s[|s| - 1 - n])
  {
    if s != [] && IsWhiteSpace(s[|s| - 1]) then 1 + TrailingWhiteSpace(s[..|s| - 1]) else 0
  }

  /** string.Trim: `s` without its leading and trailing white space. */
  function Trim(s: string): (r: string)
    ensures LeadingWhiteSpace(s) + |r| <= |s|
    ensures r == s[LeadingWhiteSpace(s)..LeadingWhiteSpace(s) + |r|]
    ensures AllWhiteSpace(s[LeadingWhiteSpace(s) + |r|..])
    ensures r != [] ==> !IsWhiteSpace(r[0]) && !IsWhiteSpace(r[|r| - 1])
    ensures r == [] <==> AllWhiteSpace(s)
  {
    var rest := s[LeadingWhiteSpace(s)..];
    rest[..|rest| - TrailingWhiteSpace(rest)]
  }

  /** Trimming twice is the same as trimming once. */
  lemma TrimIdempotent(s: string)
    ensures Trim(Trim(s)) == Trim(s)
  {
    var r := Trim(s);
    if r != [] {
      assert LeadingWhiteSpace(r) == 0;
      assert TrailingWhiteSpace(r) == 0;
    }
  }

  /** Ordinal case folding, restricted to the ASCII letters. */
  function FoldCase(c: char): (f: char)
    ensures 'a' <= c <= 'z' ==> f as int == c as int - 32
    ensures !('a' <= c <= 'z') ==> f == c
  {
    if 'a' <= c <= 'z' then (c as int - 32) as char else c
  }

  /** `c` and `d` are the lower-case and upper-case forms of one ASCII letter. */
  predicate SameLetterOtherCase(c: char, d: char)
  {
    || ('a' <= c <= 'z' && d as int == c as int - 32)
    || ('a' <= d <= 'z' && c as int == d as int - 32)
  }

  /** Two characters compare equal under OrdinalIgnoreCase exactly when they
      are equal or are the two cases of one ASCII letter. */
  lemma FoldCaseEquivalence(c: char, d: char)
    ensures FoldCase(c) == FoldCase(d) <==> c == d || SameLetterOtherCase(c, d)
  {
  }

  /** Folding a folded character changes nothing. */
  lemma FoldCaseIdempotent(c: char)
    ensures FoldCase(FoldCase(c)) == FoldCase(c)
    ensures !('a' <= FoldCase(c) <= 'z')
  {
  }

  function FoldString(s: string): (f: string)
    ensures |f| == |s|
    ensures forall i | 0 <= i < |s| :: f[i] == FoldCase(s[i])
  {
    seq(|s|, i requires 0 <= i < |s| => FoldCase(s[i]))
  }

  /** Two strings fold alike exactly when they have the same length and
      agree position by position up to the case of ASCII letters. */
  lemma FoldStringEquivalence(s: string, t: string)
    ensures FoldString(s) == FoldString(t) <==>
              |s| == |t| && forall i | 0 <= i < |s| :: s[i] == t[i] || SameLetterOtherCase(s[i], t[i])
  {
    if |s| == |t| {
      forall i | 0 <= i < |s| {
        FoldCaseEquivalence(s[i], t[i]);
      }
      if forall i | 0 <= i < |s| :: s[i] == t[i] || SameLetterOtherCase(s[i], t[i]) {
        assert forall i | 0 <= i < |s| :: FoldString(s)[i] == FoldString(t)[i];
      }
    }
  }

  /** Folding a folded string changes nothing. */
  lemma FoldStringIdempotent(s: string)
    ensures FoldString(FoldString(s)) == FoldString(s)
  {
    forall i | 0 <= i < |s| {
      FoldCaseIdempotent(s[i]);
    }
  }

  /** Folding commutes with taking a slice. */
  lemma FoldStringSlice(s: string, i: int, j: int)
    requires 0 <= i <= j <= |s|
    ensures FoldString(s)[i..j] == FoldString(s[i..j])
  {
  }

  /** `keyword` occurs in `s` at position `i`, up to case. */
  predicate MatchesAt(s: string, keyword: string, i: int)
  {
    0 <= i <= |s| - |keyword| && FoldString(s[i..i + |keyword|]) == FoldString(keyword)
  }

  /** string.Contains(keyword, StringComparison.OrdinalIgnoreCase). */
  predicate ContainsIgnoreCase(s: string, keyword: string)
  {
    exists i | 0 <= i <= |s| - |keyword| :: MatchesAt(s, keyword, i)
  }

  /** The empty keyword is contained in every string. */
  lemma EmptyKeywordContained(s: string)
    ensures ContainsIgnoreCase(s, [])
  {
    assert MatchesAt(s, [], 0);
  }

  /** A literal occurrence of the keyword is an occurrence up to case. */
  lemma LiteralOccurrenceContained(s: string, keyword: string, i: int)
    requires 0 <= i <= |s| - |keyword| && s[i..i + |keyword|] == keyword
    ensures ContainsIgnoreCase(s, keyword)
  {
    assert MatchesAt(s, keyword, i);
  }

  /** Containment depends on the keyword only up to case. */
  lemma ContainsRespectsFolding(s: string, keyword: string, other: string)
    requires FoldString(keyword) == FoldString(other)
    ensures ContainsIgnoreCase(s, keyword) <==> ContainsIgnoreCase(s, other)
  {
    assert |keyword| == |other|;
    forall i | 0 <= i <= |s| - |keyword|
      ensures MatchesAt(s, keyword, i) <==> MatchesAt(s, other, i)
    {
    }
  }

  /** Containment depends on the searched string only up to case, and a
      keyword is contained exactly when its folded form is. */
  lemma ContainsIgnoresCase(s: string, keyword: string)
    ensures ContainsIgnoreCase(s, keyword) <==> ContainsIgnoreCase(s, FoldString(keyword))
    ensures ContainsIgnoreCase(s, keyword) <==> ContainsIgnoreCase(FoldString(s), keyword)
  {
    FoldStringIdempotent(keyword);
    ContainsRespectsFolding(s, keyword, FoldString(keyword));
    forall i | 0 <= i <= |s| - |keyword|
      ensures MatchesAt(s, keyword, i) <==> MatchesAt(FoldString(s), keyword, i)
    {
      FoldStringSlice(s, i, i + |keyword|);
      FoldStringIdempotent(s[i..i + |keyword|]);
    }
  }
}
