/** The string operations the pipelines use: Python's `str.strip()`, and
    literal single-character deletion and substitution (`str.replace`). */
module Text {

  /** Exactly the characters for which Python's `str.isspace()` holds, i.e. what
      `str.strip()` without arguments removes. */
  predicate IsWhitespace(c: char) {
    || c == ' '
    || ('\t' <= c <= '\r')
    || ('\U{1C}' <= c <= '\U{1F}')
    || c == '\U{85}' || c == '\U{A0}' || c == '\U{1680}'
    || ('\U{2000}' <= c <= '\U{200A}')
    || c == '\U{2028}' || c == '\U{2029}' || c == '\U{202F}'
    || c == '\U{205F}' || c == '\U{3000}'
  }

  predicate AllWhitespace(s: string) {
    forall i :: 0 <= i < |s| ==> IsWhitespace(s[i])
  }

  /** `s.lstrip()`: the suffix left after the longest all-whitespace prefix. */
  function TrimStart(s: string): (r: string)
    ensures |r| <= |s| && r == s[|s| - |r|..]
    ensures AllWhitespace(s[..|s| - |r|])
    ensures |r| > 0 ==> !IsWhitespace(r[0])
  {
    if |s| > 0 && IsWhitespace(s[0]) then TrimStart(s[1..]) else s
  }

  /** `s.rstrip()`: the prefix left after the longest all-whitespace suffix. */
  function TrimEnd(s: string): (r: string)
    ensures |r| <= |s| && r == s[..|r|]
    ensures AllWhitespace(s[|r|..])
    ensures |r| > 0 ==> !IsWhitespace(r[|r| - 1])
  {
    if |s| > 0 && IsWhitespace(s[|s| - 1]) then TrimEnd(s[..|s| - 1]) else s
  }

  /** `s.strip()`: cut the all-whitespace runs off both ends. The result
      neither starts nor ends with whitespace; `StripInfix` shows it is the
      infix left between those runs. */
  function Strip(s: string): (r: string)
    ensures |r| <= |s|
    ensures |r| > 0 ==> !IsWhitespace(r[0]) && !IsWhitespace(r[|r| - 1])
  {
    var t := TrimStart(s);
    var r := TrimEnd(t);
    assert |r| > 0 ==> r[0] == t[0];
    r
  }

  /** `r` is the infix of `s` starting at `lo`, with only whitespace before
      and after it. */
  predicate InfixBetweenBlanks(s: string, lo: int, r: string) {
    && 0 <= lo <= |s| - |r| && r == s[lo..lo + |r|]
    && AllWhitespace(s[..lo]) && AllWhitespace(s[lo + |r|..])
  }

  /** The stripped string is the infix of `s` that starts after the leading
      whitespace run and has only whitespace after it. */
  lemma StripInfix(s: string)
    ensures InfixBetweenBlanks(s, |s| - |TrimStart(s)|, Strip(s))
  {
    StripIsTrim(s);
    TrimInfix(s);
  }

  lemma StripIsTrim(s: string)
    ensures Strip(s) == TrimEnd(TrimStart(s))
  {
  }

  lemma TrimInfix(s: string)
    ensures InfixBetweenBlanks(s, |s| - |TrimStart(s)|, TrimEnd(TrimStart(s)))
  {
    TrimStartShape(s);
    TrimEndShape(TrimStart(s));
    InfixAt(s, TrimStart(s), TrimEnd(TrimStart(s)));
  }

  /** `t` is a suffix of `s` with only whitespace before it. */
  predicate SuffixAfterBlanks(s: string, t: string) {
    |t| <= |s| && t == s[|s| - |t|..] && AllWhitespace(s[..|s| - |t|])
  }

  /** `r` is a prefix of `t` with only whitespace after it. */
  predicate PrefixBeforeBlanks(t: string, r: string) {
    |r| <= |t| && r == t[..|r|] && AllWhitespace(t[|r|..])
  }

  lemma TrimStartShape(s: string)
    ensures SuffixAfterBlanks(s, TrimStart(s))
  {
  }

  lemma TrimEndShape(t: string)
    ensures PrefixBeforeBlanks(t, TrimEnd(t))
  {
  }

  lemma InfixAt(s: string, t: string, r: string)
    requires SuffixAfterBlanks(s, t) && PrefixBeforeBlanks(t, r)
    ensures InfixBetweenBlanks(s, |s| - |t|, r)
  {
    var lo := |s| - |t|;
    assert r == s[lo..lo + |r|];
    assert s[lo + |r|..] == t[|r|..];
  }

  /** A stripped string is blank exactly when the original was all whitespace. */
  lemma StripBlank(s: string)
    ensures Strip(s) == [] <==> AllWhitespace(s)
  {
    var t := TrimStart(s);
    if |t| == 0 {
      assert s[..|s| - |t|] == s;
    } else {
      assert s[|s| - |t|] == t[0];
    }
  }

  /** Stripping twice is the same as stripping once. */
  lemma StripIdempotent(s: string)
    ensures Strip(Strip(s)) == Strip(s)
  {
    var r := Strip(s);
    assert TrimStart(r) == r;
    assert TrimEnd(r) == r;
  }

  /** `s.replace(c, '')` for a one-character `c`: every `c` is deleted and every
      other character keeps its multiplicity; `RemoveCharConcat` shows that
      the relative order is kept. */
  function RemoveChar(s: string, c: char): (r: string)
    ensures c !in r
    ensures forall d :: d != c ==> multiset(r)[d] == multiset(s)[d]
    ensures |r| <= |s|
    ensures c !in s ==> r == s
  {
    if |s| == 0 then []
    else
      assert s == [s[0]] + s[1..];
      (if s[0] == c then [] else [s[0]]) + RemoveChar(s[1..], c)
  }

  /** `s.replace(a, b)` for one-character `a` and `b`: position-wise substitution. */
  function ReplaceChar(s: string, a: char, b: char): (r: string)
    ensures |r| == |s|
    ensures forall i :: 0 <= i < |s| ==> r[i] == (if s[i] == a then b else s[i])
  {
    if |s| == 0 then [] else [if s[0] == a then b else s[0]] + ReplaceChar(s[1..], a, b)
  }

  /** Encoding spaces as '+' and later deleting every '+' removes exactly the
      spaces, provided the string held no '+' of its own. */
  lemma {:induction false} PlusRoundTrip(s: string)
    requires '+' !in s
    ensures RemoveChar(ReplaceChar(s, ' ', '+'), '+') == RemoveChar(s, ' ')
  {
    if |s| > 0 {
      var e := ReplaceChar(s, ' ', '+');
      assert e == [e[0]] + ReplaceChar(s[1..], ' ', '+');
      assert '+' !in s[1..] by { assert forall i :: 0 <= i < |s[1..]| ==> s[1..][i] == s[i + 1]; }
      PlusRoundTrip(s[1..]);
    }
  }

  /** A '+' already present in a postcode is lost as well, so the round trip
      differs from deleting spaces. */
  lemma PlusInRawPostcodeIsLost()
    ensures RemoveChar(ReplaceChar("A+B", ' ', '+'), '+') == "AB"
    ensures RemoveChar("A+B", ' ') == "A+B"
  {
    assert ReplaceChar("A+B", ' ', '+') == "A+B";
    assert "A+B"[1..] == "+B";
    assert "+B"[1..] == "B";
  }

  /** Deleting spaces from a non-blank stripped string leaves it non-empty. */
  lemma DespacedStrippedNonEmpty(s: string)
    requires |s| > 0 && !IsWhitespace(s[0])
    ensures |RemoveChar(s, ' ')| > 0
  {
    assert multiset(s)[s[0]] > 0;
  }

  /** A string that neither starts nor ends with whitespace is its own strip. */
  lemma StripTrimmed(s: string)
    requires |s| > 0 && !IsWhitespace(s[0]) && !IsWhitespace(s[|s| - 1])
    ensures Strip(s) == s
  {
  }

  /** Deleting a character distributes over concatenation. */
  lemma {:induction false} RemoveCharConcat(a: string, b: string, c: char)
    ensures RemoveChar(a + b, c) == RemoveChar(a, c) + RemoveChar(b, c)
    decreases |a|
  {
    if |a| > 0 {
      assert (a + b)[1..] == a[1..] + b;
      assert (a + b)[0] == a[0];
      RemoveCharConcat(a[1..], b, c);
    } else {
      assert a + b == b;
    }
  }

  /** Deleting the spaces of `a + " " + c` joins the two space-free halves. */
  lemma RemoveSpaceBetween(a: string, c: string)
    requires ' ' !in a && ' ' !in c
    ensures RemoveChar(a + " " + c, ' ') == a + c
  {
    RemoveCharConcat(a + " ", c, ' ');
    RemoveCharConcat(a, " ", ' ');
    RemoveSingleSpace();
  }

  lemma RemoveSingleSpace()
    ensures RemoveChar(" ", ' ') == []
  {
  }

  /** A trailing space is stripped off a string that is otherwise trimmed. */
  lemma StripTrailingSpace(s: string)
    requires |s| > 0 && !IsWhitespace(s[0]) && !IsWhitespace(s[|s| - 1])
    ensures Strip(s + " ") == s
  {
    TrimStartKeeps(s + " ");
    TrimEndSpace(s);
  }

  lemma TrimStartKeeps(t: string)
    requires |t| > 0 && !IsWhitespace(t[0])
    ensures TrimStart(t) == t
  {
  }

  lemma TrimEndSpace(s: string)
    requires |s| > 0 && !IsWhitespace(s[|s| - 1])
    ensures TrimEnd(s + " ") == s
  {
    var t := s + " ";
    assert t[|t| - 1] == ' ';
    assert t[..|t| - 1] == s;
  }
}
