/** The subject line of the reply (server.js `sendReply`): the original
    subject, prefixed with "Re: " unless it already starts with exactly that
    text. */
module ReplySubject {

  import opened JsText

  const ReplyPrefix: string := "Re: "

  function ReplySubject(subject: string): (r: string)
  {
    if StartsWith(subject, ReplyPrefix) then subject else ReplyPrefix + subject
  }

  /** The reply subject always starts with "Re: " and ends with the original
      subject; it is the original exactly when that already had the prefix. */
  lemma ReplySubjectShape(subject: string)
    ensures StartsWith(ReplySubject(subject), ReplyPrefix)
    ensures ReplySubject(subject)[|ReplySubject(subject)| - |subject|..] == subject
    ensures ReplySubject(subject) == subject <==> StartsWith(subject, ReplyPrefix)
    ensures !StartsWith(subject, ReplyPrefix) ==> ReplySubject(subject) == ReplyPrefix + subject
  {
    var r := ReplySubject(subject);
    if !StartsWith(subject, ReplyPrefix) {
      assert r[..|ReplyPrefix|] == ReplyPrefix;
      assert r[|r| - |subject|..] == subject;
    }
  }

  /** Threading a reply's subject again does not add a second prefix. */
  lemma ReplySubjectIdempotent(subject: string)
    ensures ReplySubject(ReplySubject(subject)) == ReplySubject(subject)
  {
    ReplySubjectShape(subject);
  }

  /** A subject that differs from "Re: " in any of its first four
      characters gets the prefix. */
  lemma ReplySubjectMismatch(subject: string, k: nat)
    requires k < |ReplyPrefix| && k < |subject| && subject[k] != ReplyPrefix[k]
    ensures ReplySubject(subject) == ReplyPrefix + subject
  {
    assert |ReplyPrefix| <= |subject| ==> subject[..|ReplyPrefix|][k] == subject[k];
  }

  /** The prefix test is exact and case-sensitive: "RE: x" and "re: x"
      receive a fresh "Re: " in front, and so does "Re:x" when no space
      follows the colon. */
  lemma ReplySubjectCaseSensitive(rest: string)
    ensures ReplySubject("RE: " + rest) == "Re: RE: " + rest
    ensures ReplySubject("re: " + rest) == "Re: re: " + rest
    ensures rest == [] || rest[0] != ' ' ==> ReplySubject("Re:" + rest) == "Re: Re:" + rest
  {
    ReplySubjectMismatch("RE: " + rest, 1);
    ReplySubjectMismatch("re: " + rest, 0);
    if rest == [] {
      assert !StartsWith("Re:", ReplyPrefix);
    } else if rest[0] != ' ' {
      ReplySubjectMismatch("Re:" + rest, 3);
    }
  }

}
