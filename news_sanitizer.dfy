/**
 * The text computation of the news writer's share button: trimming, and
 * truncation to a configured limit with a "..." marker.
 */
module NewsSanitizer {
  import opened Wrappers

  /** Why a share press sends nothing. `SubstringOutOfRange` is the
      exception thrown when truncation asks for more characters than the
      trimmed text has. */
  datatype Rejection = EmptyName | EmptyContent | SubstringOutOfRange

  /** The white-space characters of .NET's char.IsWhiteSpace, which String.Trim removes. */
  predicate IsWhiteSpace(c: char)
  {
    || '\t' <= c <= '\r'
    || c == ' ' || c == '\U{85}' || c == '\U{A0}' || c == '\U{1680}'
    || '\U{2000}' <= c <= '\U{200A}'
    || c == '\U{2028}' || c == '\U{2029}' || c == '\U{202F}' || c == '\U{205F}' || c == '\U{3000}'
  }

  predicate AllWhiteSpace(s: string)
  {
    forall k :: 0 <= k < |s| ==> IsWhiteSpace(s[k])
  }

  /** The number of white-space characters at the start of `s`. */
  function Leading(s: string): (n: nat)
    ensures n <= |s|
    ensures forall k :: 0 <= k < n ==> IsWhiteSpace(s[k])
    ensures n == |s| || !IsWhiteSpace(s[n])
  {
    if s != [] && IsWhiteSpace(s[0]) then 1 + Leading(s[1..]) else 0
  }

  /** The number of white-space characters at the end of `s`. */
  function Trailing(s: string): (n: nat)
    ensures n <= |s|
    ensures forall k :: |s| - n <= k < |s| ==> IsWhiteSpace(s[k])
    ensures n == |s| || !IsWhiteSpace(s[|s| - n - 1])
  {
    if s != [] && IsWhiteSpace(s[|s| - 1]) then 1 + Trailing(s[..|s| - 1]) else 0
  }

  /** String.Trim: `s` without its leading white space, then without its trailing white space. */
  function Trim(s: string): (r: string)
    ensures |r| <= |s|
  {
    var rest := s[Leading(s)..];
    rest[..|rest| - Trailing(rest)]
  }

  /** Trimming removes only white space, and only at the two ends: `s` is
      white space, then the trimmed text, then white space; the trimmed text
      neither starts nor ends with white space. */
  lemma TrimShape(s: string)
    ensures var lead := Leading(s);
            && lead + |Trim(s)| <= |s|
            && Trim(s) == s[lead..lead + |Trim(s)|]
            && (forall k :: 0 <= k < lead ==> IsWhiteSpace(s[k]))
            && (forall k :: lead + |Trim(s)| <= k < |s| ==> IsWhiteSpace(s[k]))
            && (Trim(s) == [] || (!IsWhiteSpace(Trim(s)[0]) && !IsWhiteSpace(Trim(s)[|Trim(s)| - 1])))
  {
    TrimTail(s);
    TrimEnds(s);
  }

  lemma TrimTail(s: string)
    ensures Leading(s) + |Trim(s)| <= |s|
    ensures Trim(s) == s[Leading(s)..Leading(s) + |Trim(s)|]
    ensures forall k :: Leading(s) + |Trim(s)| <= k < |s| ==> IsWhiteSpace(s[k])
  {
    var lead := Leading(s);
    var rest := s[lead..];
    var n := Trailing(rest);
    assert Trim(s) == rest[..|rest| - n];
    forall k | lead + |rest| - n <= k < |s| ensures IsWhiteSpace(s[k]) {
      assert s[k] == rest[k - lead];
    }
  }

  lemma TrimEnds(s: string)
    ensures Trim(s) == [] || (!IsWhiteSpace(Trim(s)[0]) && !IsWhiteSpace(Trim(s)[|Trim(s)| - 1]))
  {
    var lead := Leading(s);
    var rest := s[lead..];
    var n := Trailing(rest);
    var r := Trim(s);
    assert r == rest[..|rest| - n];
    if r != [] {
      assert r[0] == rest[0] == s[lead];
      assert r[|r| - 1] == rest[|rest| - n - 1];
    }
  }

  /** Trimming gives the empty string exactly when `s` is all white space. */
  lemma TrimEmpty(s: string)
    ensures Trim(s) == [] <==> AllWhiteSpace(s)
  {
    TrimShape(s);
  }

  /** The value sent for one input field: the trimmed text when the raw text
      fits the limit; otherwise the first `maxLength` characters of the
      trimmed text followed by "...", which fails when the trimmed text is
      shorter than the limit (or the limit is negative). */
  function Shorten(raw: string, maxLength: int): (r: Result<string, Rejection>)
    ensures r.Success? <==> |raw| <= maxLength || 0 <= maxLength <= |Trim(raw)|
    ensures r.Failure? ==> r.error == SubstringOutOfRange
    ensures r.Success? && |raw| <= maxLength ==> r.value == Trim(raw) && |r.value| <= maxLength
    ensures r.Success? && maxLength < |raw| ==>
              && |r.value| == maxLength + 3
              && r.value[..maxLength] == Trim(raw)[..maxLength]
              && r.value[maxLength..] == "..."
  {
    if |raw| <= maxLength then Success(Trim(raw))
    else if 0 <= maxLength <= |Trim(raw)| then Success(Trim(raw)[..maxLength] + "...")
    else Failure(SubstringOutOfRange)
  }

  /** The (name, content) pair a share press sends, or why it sends nothing.
      Emptiness is checked on the raw name and content, before trimming. */
  function Submission(name: string, content: string, maxNameLength: int, maxContentLength: int)
    : (r: Result<(string, string), Rejection>)
    ensures r == Failure(EmptyName) <==> name == []
    ensures r == Failure(EmptyContent) <==> name != [] && content == []
    ensures r.Success? <==>
              name != [] && content != [] &&
              Shorten(name, maxNameLength).Success? && Shorten(content, maxContentLength).Success?
    ensures r.Success? ==> |r.value.0| <= maxNameLength + 3 && |r.value.1| <= maxContentLength + 3
    ensures r.Success? ==> |r.value.0| <= |name| + 3 && |r.value.1| <= |content| + 3
  {
    if |name| == 0 then Failure(EmptyName)
    else if |content| == 0 then Failure(EmptyContent)
    else
      match Shorten(name, maxNameLength)
      case Failure(e) => Failure(e)
      case Success(n) =>
        match Shorten(content, maxContentLength)
        case Failure(e) => Failure(e)
        case Success(c) => Success((n, c))
  }

  // ---------------------------------------------------------------------
  // Properties of the computation
  // ---------------------------------------------------------------------

  /** Text without white space at either end is unchanged by trimming. */
  lemma TrimUnpadded(s: string)
    requires s == [] || (!IsWhiteSpace(s[0]) && !IsWhiteSpace(s[|s| - 1]))
    ensures Trim(s) == s
  {
    assert Leading(s) == 0;
    assert s[0..] == s;
    assert Trailing(s) == 0;
  }

  /** A field that fits its limit is sent as what was typed, starting after
      the leading white space, with no white space at either end. */
  lemma SentFieldUnpadded(raw: string, maxLength: int)
    requires |raw| <= maxLength
    ensures Shorten(raw, maxLength).Success?
    ensures var v := Shorten(raw, maxLength).value;
            && (v == [] || (!IsWhiteSpace(v[0]) && !IsWhiteSpace(v[|v| - 1])))
            && Leading(raw) + |v| <= |raw| && v == raw[Leading(raw)..Leading(raw) + |v|]
  {
    TrimShape(raw);
  }

  /** A name of white space only passes the emptiness check and, when it
      fits the limit, is sent as the empty string. */
  lemma WhiteSpaceNameSentEmpty(name: string, content: string, maxNameLength: int, maxContentLength: int)
    requires name != [] && AllWhiteSpace(name) && |name| <= maxNameLength
    requires content != [] && Shorten(content, maxContentLength).Success?
    ensures Submission(name, content, maxNameLength, maxContentLength).Success?
    ensures Submission(name, content, maxNameLength, maxContentLength).value.0 == []
  {
    TrimEmpty(name);
  }

  /** A field of white space only that is longer than its limit is not sent
      empty: it trims to nothing, so a positive limit makes the cut fail and
      a limit of zero sends the bare marker. */
  lemma WhiteSpaceOverLimit(raw: string, maxLength: int)
    requires raw != [] && AllWhiteSpace(raw) && maxLength < |raw|
    ensures maxLength == 0 ==> Shorten(raw, maxLength) == Success("...")
    ensures maxLength != 0 ==> Shorten(raw, maxLength) == Failure(SubstringOutOfRange)
  {
    TrimEmpty(raw);
  }

  /** The same for content: "   " is sent as the empty string, not rejected. */
  lemma WhiteSpaceContentSentEmpty()
    ensures Submission("name", "   ", 10, 10) == Success(("name", ""))
  {
    TrimUnpadded("name");
    assert AllWhiteSpace("   ");
    TrimEmpty("   ");
  }

  /** Truncation keeps `maxLength` characters and adds three: fifteen
      characters without white space and a limit of ten give thirteen. */
  lemma TruncationAddsMarker(body: string)
    requires |body| == 15 && forall k :: 0 <= k < |body| ==> !IsWhiteSpace(body[k])
    ensures Shorten(body, 10).Success?
    ensures Shorten(body, 10).value == body[..10] + "..."
    ensures |Shorten(body, 10).value| == 13
  {
    TrimUnpadded(body);
  }

  /** The raw length decides truncation but the trimmed text is cut: a raw
      text longer than the limit whose trimmed form is shorter than the limit
      makes the cut fail; "ab   " with a limit of 3 is one. */
  lemma PaddedTextOverLimitFails()
    ensures Shorten("ab   ", 3) == Failure(SubstringOutOfRange)
    ensures Submission("ab   ", "text", 3, 10) == Failure(SubstringOutOfRange)
  {
    assert Leading("ab   ") == 0;
    assert "ab   "[0..] == "ab   ";
    assert Trailing("ab   ") == 3 by {
      assert "ab   "[..4] == "ab  ";
      assert "ab  "[..3] == "ab ";
      assert "ab "[..2] == "ab";
    }
  }
}
