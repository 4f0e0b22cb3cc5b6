/** The delivery address of the reply (server.js `sendReply`):
    `toEmail.match(/<([^>]+)>/) || [null, toEmail]`, group 1. */
module BareAddress {

  import opened Optional
  import opened JsText

  /** The regex /<([^>]+)>/ matches at `i` with its bracketed group ending
      before `j`: a `<` at `i`, one or more characters other than `>`, then the
      `>` at `j`. Since `[^>]+` cannot cross a `>`, `j` is the first `>` after
      `i`, and backtracking to a shorter group never helps. */
  ghost predicate AngleMatchAt(s: string, i: int, j: int) {
    && 0 <= i && i + 1 < j < |s|
    && s[i] == '<' && s[j] == '>'
    && forall k :: i < k < j ==> s[k] != '>'
  }

  /** JavaScript reports the match that starts leftmost. */
  ghost predicate LeftmostAngleMatch(s: string, i: int, j: int) {
    AngleMatchAt(s, i, j) && forall i', j' :: AngleMatchAt(s, i', j') ==> i <= i'
  }

  /** The scanner for /<([^>]+)>/: tries each start from `i` on, in order,
      exactly as the regex engine does. */
  function FindAngle(s: string, i: nat): (r: Option<(nat, nat)>)
    decreases |s| - i
    ensures r.Some? ==> i <= r.value.0 && AngleMatchAt(s, r.value.0, r.value.1)
    ensures r.Some? ==> forall i', j' :: i <= i' < r.value.0 ==> !AngleMatchAt(s, i', j')
    ensures r.None? ==> forall i', j' :: i <= i' ==> !AngleMatchAt(s, i', j')
  {
    if i >= |s| then None
    else if s[i] == '<' then
      match IndexFrom(s, '>', i + 1)
      case Some(j) => if j >= i + 2 then Some((i, j)) else FindAngle(s, i + 1)
      case None => FindAngle(s, i + 1)
    else FindAngle(s, i + 1)
  }

  /** `cleanEmail`: the text inside the leftmost `<...>` pair, or the whole
      field when there is none. */
  function CleanEmail(from: string): (r: string)
  {
    match FindAngle(from, 0)
    case Some((i, j)) => from[i + 1..j]
    case None => from
  }

  /** For a fixed start the match is determined, so there is one leftmost
      match. */
  lemma LeftmostAngleMatchUnique(s: string, i: int, j: int, i': int, j': int)
    requires LeftmostAngleMatch(s, i, j) && LeftmostAngleMatch(s, i', j')
    ensures i == i' && j == j'
  {
    assert i == i';
  }

  /** When the regex matches, the address is the text strictly between the
      leftmost qualifying `<` and the next `>`: non-empty and free of `>`. */
  lemma CleanEmailMatched(from: string, i: int, j: int)
    requires LeftmostAngleMatch(from, i, j)
    ensures CleanEmail(from) == from[i + 1..j]
    ensures CleanEmail(from) != [] && '>' !in CleanEmail(from)
  {
    var r := FindAngle(from, 0);
    assert r.Some?;
    LeftmostAngleMatchUnique(from, i, j, r.value.0, r.value.1);
    var c := from[i + 1..j];
    forall k | 0 <= k < |c| ensures c[k] != '>' {
      assert c[k] == from[i + 1 + k];
    }
  }

  /** When the regex does not match, the field is used as it is: no
      trimming and no other change. */
  lemma CleanEmailUnmatched(from: string)
    requires forall i, j :: !AngleMatchAt(from, i, j)
    ensures CleanEmail(from) == from
  {
  }

  /** The scanner finds a match exactly when one exists, and then the
      leftmost one. */
  lemma FindAngleLeftmost(s: string)
    ensures FindAngle(s, 0).Some? ==> LeftmostAngleMatch(s, FindAngle(s, 0).value.0, FindAngle(s, 0).value.1)
    ensures FindAngle(s, 0).None? <==> forall i, j :: !AngleMatchAt(s, i, j)
  {
    var r := FindAngle(s, 0);
    if r.Some? {
      assert AngleMatchAt(s, r.value.0, r.value.1);
    }
  }

  /** A "Name <address>" field yields the address when the name has no `<`
      and the address is non-empty and has no `>`; whatever follows the `>`
      does not matter. */
  lemma CleanEmailOfNamedAddress(name: string, address: string, rest: string)
    requires '<' !in name && address != [] && '>' !in address
    ensures CleanEmail(name + "<" + address + ">" + rest) == address
  {
    var s := name + "<" + address + ">" + rest;
    var i, j := |name|, |name| + 1 + |address|;
    assert s[i] == '<' && s[j] == '>';
    forall k | i < k < j ensures s[k] != '>' {
      assert s[k] == address[k - i - 1];
    }
    CleanEmailMatched(s, i, j);
    assert s[i + 1..j] == address;
  }

  /** Cleaning an already clean address changes nothing. */
  lemma CleanEmailIdempotent(from: string)
    ensures CleanEmail(CleanEmail(from)) == CleanEmail(from)
  {
    FindAngleLeftmost(from);
    var r := CleanEmail(from);
    match FindAngle(from, 0)
    case Some((i, j)) =>
      CleanEmailMatched(from, i, j);
      assert forall k :: 0 <= k < |r| ==> r[k] != '>';
      CleanEmailUnmatched(r);
    case None =>
      CleanEmailUnmatched(from);
  }

}
