/** The name the completion prompt greets the sender by (server.js
    `getClaudeResponse`): the display part of a "Name <address>" field, the
    local part of a bare address, or a fixed placeholder. */
module SenderName {

  import opened Optional
  import opened JsText

  const PlaceholderName: string := "Esteemed Correspondent"

  /** `s` is the whole-string form that /^([^<]+)<[^>]+>$/ accepts, split as
      `prefix + "<" + inner + ">"`. Without the multiline flag `^` and `$` are
      the ends of the input, so nothing may precede or follow. */
  ghost predicate FullForm(s: string, prefix: string, inner: string) {
    && s == prefix + "<" + inner + ">"
    && prefix != [] && '<' !in prefix
    && inner != [] && '>' !in inner
  }

  /** The split of a full-form string is unique, so group 1 of the regex is
      determined whatever order the engine backtracks in. */
  lemma FullFormUnique(s: string, p: string, i: string, p': string, i': string)
    requires FullForm(s, p, i) && FullForm(s, p', i')
    ensures p == p' && i == i'
  {
    // Each prefix ends at the first `<` of s.
    assert s[|p|] == '<' && s[|p'|] == '<';
    assert forall j :: 0 <= j < |p| ==> s[j] == p[j];
    assert forall j :: 0 <= j < |p'| ==> s[j] == p'[j];
    assert p == s[..|p|] == p';
    assert i == s[|p| + 1..|s| - 1] == i';
  }

  /** The matcher for /^([^<]+)<[^>]+>$/, with greedy groups: group 1 runs to
      the first `<` and must be non-empty; the second run must then reach the
      first `>` after it, which must be the last character. */
  function NameGroup(s: string): (r: Option<string>)
    ensures r.Some? ==> |r.value| + 2 <= |s| && FullForm(s, r.value, s[|r.value| + 1..|s| - 1])
  {
    match IndexFrom(s, '<', 0)
    case None => None
    case Some(k) =>
      if 1 <= k && k + 2 < |s| && IndexFrom(s, '>', k + 1) == Some(|s| - 1) then
        assert s == s[..k] + "<" + s[k + 1..|s| - 1] + ">";
        Some(s[..k])
      else None
  }

  /** The matcher accepts every full-form string, with its prefix as group 1;
      together with NameGroup's contract, it matches exactly the full-form
      strings. */
  lemma NameGroupComplete(s: string, prefix: string, inner: string)
    requires FullForm(s, prefix, inner)
    ensures NameGroup(s) == Some(prefix)
  {
    var k := |prefix|;
    assert s[k] == '<';
    forall j | 0 <= j < k ensures s[j] != '<' {
      assert s[j] == prefix[j];
    }
    assert IndexFrom(s, '<', 0) == Some(k);
    forall j | k + 1 <= j < |s| - 1 ensures s[j] != '>' {
      assert s[j] == inner[j - k - 1];
    }
    assert s[|s| - 1] == '>';
    assert IndexFrom(s, '>', k + 1) == Some(|s| - 1);
    assert s[..k] == prefix;
  }

  /** `senderName`. */
  function GreetingName(from: string): (r: string)
  {
    match NameGroup(from)
    case Some(prefix) => Trim(prefix)
    case None => if '<' !in from then SplitHead(from, '@') else PlaceholderName
  }

  /** "Name <address>" as the whole field greets by the trimmed name, which
      is empty when the name is all white space. */
  lemma GreetingNameFullForm(from: string, prefix: string, inner: string)
    requires FullForm(from, prefix, inner)
    ensures GreetingName(from) == Trim(prefix)
    ensures GreetingName(from) == [] <==> AllSpace(prefix)
  {
    NameGroupComplete(from, prefix, inner);
    TrimEmptyIffAllSpace(prefix);
  }

  /** A field without `<` greets by the text before its first `@` (all of
      it when there is no `@`). */
  lemma GreetingNameBare(from: string)
    requires '<' !in from
    ensures GreetingName(from) == SplitHead(from, '@')
    ensures GreetingName(from) <= from && '@' !in GreetingName(from)
    ensures '@' !in from ==> GreetingName(from) == from
  {
  }

  /** A field that has a `<` but is not exactly of the full form gets the
      placeholder. */
  lemma GreetingNamePlaceholder(from: string)
    requires '<' in from
    requires forall p, i :: !FullForm(from, p, i)
    ensures GreetingName(from) == PlaceholderName
  {
  }

  /** Three fields: a bare address greets by its local part, an address in
      brackets with nothing before it gets the placeholder, and a name that is
      only a space greets by the empty string. The fields are parameters
      equal to the literals, because the verifier unrolls recursive
      functions applied to literals, which is far costlier. */
  lemma GreetingNameExamples(bare: string, bracketsOnly: string, blankName: string)
    requires bare == "a@b.com" && bracketsOnly == "<a@b.com>" && blankName == " <a@b.com>"
    ensures GreetingName(bare) == "a"
    ensures GreetingName(bracketsOnly) == PlaceholderName
    ensures GreetingName(blankName) == []
  {
    assert '<' !in bare;
    GreetingNameBare(bare);
    var h := SplitHead(bare, '@');
    assert bare[0] != '@' && bare[1] == '@';
    assert |h| == 1 && h[0] == bare[0];

    assert bracketsOnly[0] == '<';
    GreetingNamePlaceholder(bracketsOnly);

    assert blankName == " " + "<" + "a@b.com" + ">";
    GreetingNameFullForm(blankName, " ", "a@b.com");
    assert IsJsSpace(" "[0]);
  }

}
