/** The few String.prototype operations the webhook server relies on
    (trim, startsWith, split(...)[0]) and the first-occurrence search behind
    split and the regex matchers, over Dafny strings. A `char` here is a
    Unicode scalar value, not a UTF-16 code unit as in JavaScript: a lone
    surrogate cannot occur, and a character outside the Basic Multilingual
    Plane is one `char` where JavaScript counts two code units. */
module JsText {

  import opened Optional

  /** The characters String.prototype.trim removes: ECMAScript's WhiteSpace
      (tab, vertical tab, form feed, space, no-break space, the byte order mark
      and the Unicode space separators of category Zs) and its LineTerminator
      set (line feed, carriage return, line and paragraph separators). */
  predicate IsJsSpace(c: char) {
    var n := c as int;
    || n == 0x09 || n == 0x0A || n == 0x0B || n == 0x0C || n == 0x0D
    || n == 0x20 || n == 0xA0 || n == 0x1680 || (0x2000 <= n <= 0x200A)
    || n == 0x2028 || n == 0x2029 || n == 0x202F || n == 0x205F
    || n == 0x3000 || n == 0xFEFF
  }

  /** Every character of `s` from position `lo` up to (not including) `hi`
      is white space. */
  predicate SpaceBetween(s: string, lo: int, hi: int) {
    forall k :: lo <= k < hi && 0 <= k < |s| ==> IsJsSpace(s[k])
  }

  predicate AllSpace(s: string) {
    SpaceBetween(s, 0, |s|)
  }

  /** `s.startsWith(p)`. */
  predicate StartsWith(s: string, p: string) {
    |p| <= |s| && s[..|p|] == p
  }

  /** Drops the leading white space: the result is the suffix of `s` that
      starts at its first non-space character. */
  function TrimStart(s: string): (r: string)
    ensures |r| <= |s| && r == s[|s| - |r|..]
    ensures SpaceBetween(s, 0, |s| - |r|)
    ensures r != [] ==> !IsJsSpace(r[0])
  {
    if s != [] && IsJsSpace(s[0]) then TrimStart(s[1..]) else s
  }

  /** Drops the trailing white space: the result is the prefix of `s` that
      ends at its last non-space character. */
  function TrimEnd(s: string): (r: string)
    ensures |r| <= |s| && r == s[..|r|]
    ensures SpaceBetween(s, |r|, |s|)
    ensures r != [] ==> !IsJsSpace(r[|r| - 1])
  {
    if s != [] && IsJsSpace(s[|s| - 1]) then TrimEnd(s[..|s| - 1]) else s
  }

  /** `s.trim()`: the slice `s[a..a + |r|]` left once the white space at both
      ends is removed; it starts and ends with a non-space character. */
  function Trim(s: string): (r: string)
    ensures exists a :: 0 <= a && a + |r| <= |s| && r == s[a..a + |r|]
                        && SpaceBetween(s, 0, a) && SpaceBetween(s, a + |r|, |s|)
    ensures r != [] ==> !IsJsSpace(r[0]) && !IsJsSpace(r[|r| - 1])
  {
    var t := TrimStart(s);
    var r := TrimEnd(t);
    var a := |s| - |t|;
    PrefixOfSuffix(s, a, a + |r|);
    SuffixSpace(s, a, |r|);
    r
  }

  /** White space at the end of `s[a..]` is white space at the end of `s`. */
  lemma SuffixSpace(s: string, a: nat, lo: nat)
    requires a <= |s| && SpaceBetween(s[a..], lo, |s| - a)
    ensures SpaceBetween(s, a + lo, |s|)
  {
    forall k | a + lo <= k < |s| ensures IsJsSpace(s[k]) {
      assert s[k] == s[a..][k - a];
    }
  }

  /** A suffix of `s` after only white space and starting with a non-space
      character is `TrimStart(s)`. */
  lemma TrimStartUnique(s: string, a: nat)
    requires a <= |s| && SpaceBetween(s, 0, a)
    requires a < |s| ==> !IsJsSpace(s[a])
    ensures TrimStart(s) == s[a..]
  {
    var r := TrimStart(s);
    var a' := |s| - |r|;
    if a' < |s| {
      assert s[a'] == r[0];
    }
    assert a' == a;
  }

  /** A prefix of `s` before only white space and ending with a non-space
      character is `TrimEnd(s)`. */
  lemma TrimEndUnique(s: string, b: nat)
    requires b <= |s| && SpaceBetween(s, b, |s|)
    requires 0 < b ==> !IsJsSpace(s[b - 1])
    ensures TrimEnd(s) == s[..b]
  {
    var r := TrimEnd(s);
  }

  /** The two properties of Trim's contract pin the result down: any slice
      of `s` with only white space outside it and non-space characters at
      both of its ends is `s.trim()`. */
  lemma TrimUnique(s: string, a: nat, b: nat)
    requires a <= b <= |s|
    requires SpaceBetween(s, 0, a) && SpaceBetween(s, b, |s|)
    requires a < b ==> !IsJsSpace(s[a]) && !IsJsSpace(s[b - 1])
    requires a == b ==> AllSpace(s)
    ensures Trim(s) == s[a..b]
  {
    if a == b {
      TrimStartUnique(s, |s|);
      assert TrimStart(s) == [];
    } else {
      var t := s[a..];
      TrimStartUnique(s, a);
      SpaceBetweenSuffix(s, a, b);
      var last := s[b - 1];
      assert t[b - a - 1] == last && !IsJsSpace(last);
      TrimEndUnique(t, b - a);
      PrefixOfSuffix(s, a, b);
    }
  }

  /** Slicing a suffix is slicing the whole. */
  lemma PrefixOfSuffix(s: string, a: nat, b: nat)
    requires a <= b <= |s|
    ensures s[a..][..b - a] == s[a..b]
  {
  }

  /** White space in `s` from `b` on is white space in `s[a..]` from `b - a` on. */
  lemma SpaceBetweenSuffix(s: string, a: nat, b: nat)
    requires a <= b <= |s| && SpaceBetween(s, b, |s|)
    ensures SpaceBetween(s[a..], b - a, |s| - a)
  {
    var t := s[a..];
    forall k | b - a <= k < |t| ensures IsJsSpace(t[k]) {
      assert t[k] == s[a + k];
    }
  }

  /** Trimming twice is trimming once. */
  lemma TrimIdempotent(s: string)
    ensures Trim(Trim(s)) == Trim(s)
  {
    var r := Trim(s);
    if r == [] {
      TrimUnique(r, 0, 0);
    } else {
      TrimUnique(r, 0, |r|);
    }
  }

  /** `s.trim()` is empty exactly when `s` is all white space. */
  lemma TrimEmptyIffAllSpace(s: string)
    ensures Trim(s) == [] <==> AllSpace(s)
  {
    if AllSpace(s) {
      TrimUnique(s, 0, 0);
    }
    if Trim(s) == [] {
      var t := TrimStart(s);
      var a := |s| - |t|;
      assert TrimEnd(t) == [];
      forall k | 0 <= k < |s| ensures IsJsSpace(s[k]) {
        if k >= a {
          assert s[k] == t[k - a];
        }
      }
    }
  }

  /** The first position at or after `k` holding `c`, if any. */
  function IndexFrom(s: string, c: char, k: nat): (r: Option<nat>)
    decreases |s| - k
    ensures r.Some? ==> k <= r.value < |s| && s[r.value] == c
                        && forall j :: k <= j < r.value ==> s[j] != c
    ensures r.None? ==> forall j :: k <= j < |s| ==> s[j] != c
  {
    if k >= |s| then None
    else if s[k] == c then Some(k)
    else IndexFrom(s, c, k + 1)
  }

  /** `s.split(sep)[0]`: the text before the first `sep`, or all of `s` when
      there is none. */
  function SplitHead(s: string, sep: char): (r: string)
    ensures r <= s && sep !in r
    ensures r == s || s[|r|] == sep
  {
    match IndexFrom(s, sep, 0)
    case Some(k) =>
      assert forall j :: 0 <= j < k ==> s[..k][j] == s[j];
      s[..k]
    case None => s
  }

}
