/** The plain-text part of the raw MIME message (server.js webhook handler):
    `email.match(/Content-Type: text\/plain[^]*?\r?\n\r?\n([^]*?)(?=\r?\n--|\r?\n$)/)`,
    group 1 trimmed, or a fixed text when the regex does not match. */
module PlainTextBody {

  import opened Optional
  import opened JsText

  const PlainTextHeader: string := "Content-Type: text/plain"
  const NoTextFallback: string := "No text content found"

  /** The case-sensitive literal header starts at `i`. */
  predicate HeaderAt(s: string, i: int) {
    0 <= i && i + |PlainTextHeader| <= |s| && s[i..i + |PlainTextHeader|] == PlainTextHeader
  }

  /** `\r?\n\r?\n` matches exactly `s[p..q]`. */
  ghost predicate BlankLine(s: string, p: int, q: int) {
    && 0 <= p <= q <= |s|
    && (s[p..q] == "\n\n" || s[p..q] == "\r\n\n" || s[p..q] == "\n\r\n" || s[p..q] == "\r\n\r\n")
  }

  /** The lookahead `(?=\r?\n--|\r?\n$)` holds at `e`: a boundary delimiter
      line follows, or only a final line break is left (`$` is the end of the
      input, since the regex has no multiline flag). */
  predicate BoundaryAt(s: string, e: int) {
    && 0 <= e <= |s|
    && (|| StartsWith(s[e..], "\n--") || StartsWith(s[e..], "\r\n--")
        || s[e..] == "\n" || s[e..] == "\r\n")
  }

  /** After the header: a blank line at `s[p..q]`, then a capture `s[q..e]`
      that stops where the lookahead holds. */
  ghost predicate GapMatch(s: string, p: int, q: int, e: int) {
    BlankLine(s, p, q) && q <= e && BoundaryAt(s, e)
  }

  /** One way for the whole regex to match: header at `i`, the lazy gap
      `[^]*?` up to `p`, the blank line up to `q`, and group 1 = `s[q..e]`. */
  ghost predicate MatchAt(s: string, i: int, p: int, q: int, e: int) {
    HeaderAt(s, i) && i + |PlainTextHeader| <= p && GapMatch(s, p, q, e)
  }

  /** The match the regex engine reports: start positions are tried from the
      left, the lazy gap shortest first, then the lazy capture shortest first.
      So it is the least match in the order (i, p, e); `q` follows from `p`
      (BlankLineUnique). */
  ghost predicate LeftmostMatch(s: string, i: int, p: int, q: int, e: int) {
    && MatchAt(s, i, p, q, e)
    && forall i', p', q', e' :: MatchAt(s, i', p', q', e') ==>
         i < i' || (i == i' && (p < p' || (p == p' && e <= e')))
  }

  /** Matches `\r?\n\r?\n` at `p`, each `\r?` greedy. Taking an `\r` and not
      taking it cannot both succeed (one needs `\r` next, the other `\n`), so
      backtracking among the four alternatives finds at most one end. */
  function BlankLineEnd(s: string, p: nat): (r: Option<nat>)
    ensures r.Some? ==> BlankLine(s, p, r.value)
    ensures forall q :: BlankLine(s, p, q) ==> r == Some(q)
  {
    BlankLineByChars(s, p);
    var a := if p < |s| && s[p] == '\r' then p + 1 else p;
    if a < |s| && s[a] == '\n' then
      var b := if a + 1 < |s| && s[a + 1] == '\r' then a + 2 else a + 1;
      if b < |s| && s[b] == '\n' then Some(b + 1) else None
    else None
  }

  /** The four alternatives of `\r?\n\r?\n`, character by character. */
  predicate BlankLineChars(s: string, p: int, q: int) {
    && 0 <= p <= q <= |s|
    && (|| (q == p + 2 && s[p] == '\n' && s[p + 1] == '\n')
        || (q == p + 3 && s[p] == '\r' && s[p + 1] == '\n' && s[p + 2] == '\n')
        || (q == p + 3 && s[p] == '\n' && s[p + 1] == '\r' && s[p + 2] == '\n')
        || (q == p + 4 && s[p] == '\r' && s[p + 1] == '\n' && s[p + 2] == '\r' && s[p + 3] == '\n'))
  }

  /** The literal alternatives of BlankLine and their character-level reading
      agree. */
  lemma BlankLineAtChars(s: string, p: int, q: int)
    ensures BlankLine(s, p, q) <==> BlankLineChars(s, p, q)
  {
    if 0 <= p <= q <= |s| {
      var t := s[p..q];
      assert forall i :: 0 <= i < |t| ==> t[i] == s[p + i];
    }
  }

  /** BlankLineAtChars at every end position. */
  lemma BlankLineByChars(s: string, p: int)
    ensures forall q :: BlankLine(s, p, q) <==> BlankLineChars(s, p, q)
  {
    forall q ensures BlankLine(s, p, q) <==> BlankLineChars(s, p, q) {
      BlankLineAtChars(s, p, q);
    }
  }

  /** The lazy capture: the first position from `e` on where the lookahead
      holds. */
  function NextBoundary(s: string, e: nat): (r: Option<nat>)
    decreases |s| + 1 - e
    ensures r.Some? ==> e <= r.value && BoundaryAt(s, r.value)
    ensures r.Some? ==> forall e' :: e <= e' < r.value ==> !BoundaryAt(s, e')
    ensures r.None? ==> forall e' :: e <= e' ==> !BoundaryAt(s, e')
  {
    if e > |s| then None
    else if BoundaryAt(s, e) then Some(e)
    else NextBoundary(s, e + 1)
  }

  /** The lazy gap: tries blank lines starting at `p`, `p + 1`, ... and keeps
      the first one after which the capture can end. */
  function FirstGap(s: string, p: nat): (r: Option<(nat, nat, nat)>)
    decreases |s| + 1 - p
    ensures r.Some? ==> p <= r.value.0 && GapMatch(s, r.value.0, r.value.1, r.value.2)
    ensures r.Some? ==> forall e' :: r.value.1 <= e' < r.value.2 ==> !BoundaryAt(s, e')
    ensures r.Some? ==> forall p', q', e' :: p <= p' < r.value.0 ==> !GapMatch(s, p', q', e')
    ensures r.None? ==> forall p', q', e' :: p <= p' ==> !GapMatch(s, p', q', e')
  {
    if p > |s| then None
    else
      match BlankLineEnd(s, p)
      case Some(q) =>
        (match NextBoundary(s, q)
         case Some(e) => Some((p, q, e))
         case None => NoGapAt(s, p); FirstGap(s, p + 1))
      case None => NoGapAt(s, p); FirstGap(s, p + 1)
  }

  /** No match of the gap's blank line and capture starts at `p` when no
      blank line starts there, or when no boundary follows it. */
  lemma NoGapAt(s: string, p: nat)
    ensures BlankLineEnd(s, p).None? ==> forall q, e :: !GapMatch(s, p, q, e)
    ensures BlankLineEnd(s, p).Some? && NextBoundary(s, BlankLineEnd(s, p).value).None? ==>
              forall q, e :: !GapMatch(s, p, q, e)
  {
  }

  /** The regex search: tries each start from `i` on. */
  function FirstMatch(s: string, i: nat): (r: Option<(nat, nat, nat, nat)>)
    decreases |s| + 1 - i
    ensures r.Some? ==> i <= r.value.0 && MatchAt(s, r.value.0, r.value.1, r.value.2, r.value.3)
    ensures r.Some? ==> forall p', q', e' :: r.value.0 + |PlainTextHeader| <= p' < r.value.1 ==> !GapMatch(s, p', q', e')
    ensures r.Some? ==> forall e' :: r.value.2 <= e' < r.value.3 ==> !BoundaryAt(s, e')
    ensures r.Some? ==> forall i', p', q', e' :: i <= i' < r.value.0 ==> !MatchAt(s, i', p', q', e')
    ensures r.None? ==> forall i', p', q', e' :: i <= i' ==> !MatchAt(s, i', p', q', e')
  {
    if i > |s| then None
    else if HeaderAt(s, i) then
      match FirstGap(s, i + |PlainTextHeader|)
      case Some((p, q, e)) => Some((i, p, q, e))
      case None => FirstMatch(s, i + 1)
    else FirstMatch(s, i + 1)
  }

  /** Group 1 of the match, untrimmed, if the regex matches. */
  function PlainTextCapture(email: string): (r: Option<string>)
  {
    match FirstMatch(email, 0)
    case Some((i, p, q, e)) => Some(email[q..e])
    case None => None
  }

  /** `emailText`. */
  function EmailText(email: string): (r: string)
  {
    match PlainTextCapture(email)
    case Some(capture) => Trim(capture)
    case None => NoTextFallback
  }

  /** At most one blank line starts at a given position. */
  lemma BlankLineUnique(s: string, p: nat, q: int, q': int)
    requires BlankLine(s, p, q) && BlankLine(s, p, q')
    ensures q == q'
  {
    var r := BlankLineEnd(s, p);
    assert r == Some(q) && r == Some(q');
  }

  /** There is only one leftmost match. */
  lemma LeftmostMatchUnique(s: string, i: int, p: int, q: int, e: int, i': int, p': int, q': int, e': int)
    requires LeftmostMatch(s, i, p, q, e) && LeftmostMatch(s, i', p', q', e')
    ensures i == i' && p == p' && q == q' && e == e'
  {
    assert i == i' && p == p';
    BlankLineUnique(s, p, q, q');
  }

  /** What the search finds is the leftmost match. */
  lemma {:induction false} FirstMatchLeftmost(s: string)
    requires FirstMatch(s, 0).Some?
    ensures var (i, p, q, e) := FirstMatch(s, 0).value; LeftmostMatch(s, i, p, q, e)
  {
    var (i, p, q, e) := FirstMatch(s, 0).value;
    forall i', p', q', e' | MatchAt(s, i', p', q', e')
      ensures i < i' || (i == i' && (p < p' || (p == p' && e <= e')))
    {
      if i == i' && p == p' {
        BlankLineUnique(s, p, q, q');
      }
    }
  }

  /** When the regex matches, the text is the trimmed capture of the leftmost
      match: it begins right after the first blank line that follows the
      header and stops at the first boundary after that. */
  lemma EmailTextMatched(email: string, i: int, p: int, q: int, e: int)
    requires LeftmostMatch(email, i, p, q, e)
    ensures PlainTextCapture(email) == Some(email[q..e])
    ensures EmailText(email) == Trim(email[q..e])
  {
    var r := FirstMatch(email, 0);
    assert r.Some?;
    FirstMatchLeftmost(email);
    var (i', p', q', e') := r.value;
    LeftmostMatchUnique(email, i, p, q, e, i', p', q', e');
  }

  /** The fixed text is used exactly when the regex matches nowhere. */
  lemma EmailTextUnmatched(email: string)
    ensures PlainTextCapture(email).None? <==> forall i, p, q, e :: !MatchAt(email, i, p, q, e)
    ensures PlainTextCapture(email).None? ==> EmailText(email) == NoTextFallback
  {
    if PlainTextCapture(email).Some? {
      var (i, p, q, e) := FirstMatch(email, 0).value;
      assert MatchAt(email, i, p, q, e);
    }
  }

  /** Without the case-sensitive header there is no match: "text/plain" in
      other letter cases, or no plain-text part at all, gives the fixed
      text. */
  lemma EmailTextWithoutHeader(email: string)
    requires forall i :: !HeaderAt(email, i)
    ensures EmailText(email) == NoTextFallback
  {
    EmailTextUnmatched(email);
  }

  /** "\n--", the start of a MIME boundary line, occurs at `j` in `c`. */
  predicate DelimiterAt(c: string, j: int) {
    0 <= j && j + 3 <= |c| && c[j..j + 3] == "\n--"
  }

  /** A "\n--" inside `s[q..e]` is a place where the lookahead holds in `s`. */
  lemma DelimiterIsBoundary(s: string, q: int, e: int, j: int)
    requires 0 <= q <= e <= |s|
    ensures DelimiterAt(s[q..e], j) ==> BoundaryAt(s, q + j)
  {
    if DelimiterAt(s[q..e], j) {
      var c := s[q..e];
      var k := q + j;
      var d := c[j..j + 3];
      assert d[0] == c[j] && d[1] == c[j + 1] && d[2] == c[j + 2];
      var t := s[k..][..3];
      assert |t| == 3 && t[0] == '\n' && t[1] == '-' && t[2] == '-';
      assert t == "\n--";
    }
  }

  /** The untrimmed capture never runs across a MIME boundary line: it holds
      no "\n--", because the lazy capture stops at the first one. */
  lemma CaptureHasNoBoundary(email: string)
    requires PlainTextCapture(email).Some?
    ensures forall j :: !DelimiterAt(PlainTextCapture(email).value, j)
  {
    var (i, p, q, e) := FirstMatch(email, 0).value;
    assert q <= e <= |email|;
    forall j ensures !DelimiterAt(email[q..e], j) {
      DelimiterIsBoundary(email, q, e, j);
    }
  }

  /** The lookahead only holds at a carriage return or a line feed. */
  lemma BoundaryAtLineBreak(s: string, e: int)
    ensures BoundaryAt(s, e) ==> e < |s| && (s[e] == '\n' || s[e] == '\r')
  {
    if BoundaryAt(s, e) {
      assert s[e..][0] == s[e];
    }
  }

  /** The message of EmailTextExample, and where its match lies. */
  lemma ExampleMatch(s: string)
    requires s == "Content-Type: text/plain\r\n\r\nHi there\r\n--b\r\n"
    ensures MatchAt(s, 0, 24, 28, 36)
    ensures forall e :: 28 <= e < 36 ==> !BoundaryAt(s, e)
    ensures s[28..36] == "Hi there"
  {
    assert s[..24] == PlainTextHeader;
    assert s[24..28] == "\r\n\r\n";
    assert s[36..][..4] == "\r\n--";
    forall e | 28 <= e < 36 ensures !BoundaryAt(s, e) {
      BoundaryAtLineBreak(s, e);
    }
  }

  /** A one-part message: the text between the blank line and the closing
      boundary, trimmed. */
  lemma EmailTextExample(s: string)
    requires s == "Content-Type: text/plain\r\n\r\nHi there\r\n--b\r\n"
    ensures EmailText(s) == "Hi there"
  {
    ExampleLeftmost(s);
    EmailTextMatched(s, 0, 24, 28, 36);
    ExampleTrimmed(s[28..36]);
  }

  /** The match of ExampleMatch is the leftmost one. */
  lemma ExampleLeftmost(s: string)
    requires s == "Content-Type: text/plain\r\n\r\nHi there\r\n--b\r\n"
    ensures LeftmostMatch(s, 0, 24, 28, 36) && s[28..36] == "Hi there"
  {
    ExampleMatch(s);
    forall i', p', q', e' | MatchAt(s, i', p', q', e')
      ensures 0 < i' || (0 == i' && (24 < p' || (24 == p' && 36 <= e')))
    {
      if i' == 0 && p' == 24 {
        BlankLineUnique(s, 24, 28, q');
      }
    }
  }

  /** "Hi there" has no white space to trim. */
  lemma ExampleTrimmed(c: string)
    requires c == "Hi there"
    ensures Trim(c) == "Hi there"
  {
    TrimUnique(c, 0, 8);
  }

}
