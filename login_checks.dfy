/**
 * The text checks inside `ESBDataApi.__login`: reading the `SETTINGS` token
 * out of the portal's first page, and the two tests that decide whether the
 * login got through. The pages are given as text; fetching them and finding
 * elements in them is not part of this model.
 *
 * A failed test only logs and closes the session; the login then carries on,
 * so each test is a classifier, not an error.
 */
module LoginChecks {
  import opened Wrappers

  /** Python's `str.isspace`, which is what `\s` means in a `str` pattern; `\S` is its negation. */
  predicate IsSpace(c: char) {
    ('\t' <= c <= '\r') || ('\U{1c}' <= c <= ' ') || c == '\U{85}' || c == '\U{a0}'
    || c == '\U{1680}' || ('\U{2000}' <= c <= '\U{200a}') || c == '\U{2028}' || c == '\U{2029}'
    || c == '\U{202f}' || c == '\U{205f}' || c == '\U{3000}'
  }

  /** The text the lookbehind `(?<=var SETTINGS = )` asks for just before a match. */
  const Marker: string := "var SETTINGS = "

  /**
   * `s[i..j]` is a match of `(?<=var SETTINGS = )\S*;`: preceded by the
   * marker, made of non-space characters, and ending in `;`.
   */
  predicate IsMatch(s: string, i: int, j: int) {
    |Marker| <= i < j <= |s| && s[i - |Marker|..i] == Marker && s[j - 1] == ';'
    && forall k :: i <= k < j ==> !IsSpace(s[k])
  }

  /** Where the run of non-space characters starting at `i` ends. */
  function RunEnd(s: string, i: nat): (e: nat)
    requires i <= |s|
    ensures i <= e <= |s| && (e == |s| || IsSpace(s[e]))
    ensures forall k :: i <= k < e ==> !IsSpace(s[k])
    decreases |s| - i
  {
    if i == |s| || IsSpace(s[i]) then i else RunEnd(s, i + 1)
  }

  /** The last `;` in `s[i..e]`. */
  function LastSemicolon(s: string, i: nat, e: nat): (r: Option<nat>)
    requires i <= e <= |s|
    ensures r.Some? ==> i <= r.value < e && s[r.value] == ';'
                        && forall k :: r.value < k < e ==> s[k] != ';'
    ensures r.None? ==> forall k :: i <= k < e ==> s[k] != ';'
    decreases e
  {
    if e == i then None
    else if s[e - 1] == ';' then Some(e - 1)
    else LastSemicolon(s, i, e - 1)
  }

  /**
   * The regular expression tried at position `i`: the greedy `\S*` takes the
   * whole run of non-space characters and gives back characters until a `;`
   * follows, so the match ends at the run's last `;`. Gives the end of the
   * longest match at `i`.
   */
  function MatchEnd(s: string, i: nat): (r: Option<nat>)
    requires i <= |s|
    ensures r.Some? ==> IsMatch(s, i, r.value)
    ensures r.Some? ==> forall j :: r.value < j <= |s| ==> !IsMatch(s, i, j)
    ensures r.None? ==> forall j :: !IsMatch(s, i, j)
  {
    if i < |Marker| || s[i - |Marker|..i] != Marker then None
    else
      match LastSemicolon(s, i, RunEnd(s, i))
      case None => None
      case Some(k) => Some(k + 1)
  }

  /** No match starts at position `i`. */
  ghost predicate NoMatchAt(s: string, i: int) {
    forall j :: !IsMatch(s, i, j)
  }

  /** No match starts at any position from `lo` up to, not including, `hi`. */
  ghost predicate NoMatchIn(s: string, lo: int, hi: int)
    decreases hi - lo
  {
    lo >= hi || (NoMatchAt(s, lo) && NoMatchIn(s, lo + 1, hi))
  }

  lemma {:induction false} NoMatchInEvery(s: string, lo: int, hi: int)
    ensures NoMatchIn(s, lo, hi) <==> forall i :: lo <= i < hi ==> NoMatchAt(s, i)
    decreases hi - lo
  {
    if lo < hi {
      NoMatchInEvery(s, lo + 1, hi);
    }
  }

  lemma NoMatchAnywhere(s: string)
    requires NoMatchIn(s, 0, |s|)
    ensures forall i, j :: !IsMatch(s, i, j)
  {
    NoMatchInEvery(s, 0, |s|);
    forall i, j
      ensures !IsMatch(s, i, j)
    {
      if 0 <= i < |s| {
        assert NoMatchAt(s, i);
      }
    }
  }

  /**
   * The first match `re.findall` reports, searching from `from` on: the
   * leftmost position where the pattern matches, with its longest match.
   */
  function FirstMatch(s: string, from: nat): (r: Option<(nat, nat)>)
    requires from <= |s|
    ensures r.Some? ==> from <= r.value.0 && IsMatch(s, r.value.0, r.value.1)
    ensures r.Some? ==> forall j :: r.value.1 < j <= |s| ==> !IsMatch(s, r.value.0, j)
    ensures r.Some? ==> NoMatchIn(s, from, r.value.0)
    ensures r.None? ==> NoMatchIn(s, from, |s|)
    decreases |s| - from
  {
    match MatchEnd(s, from)
    case Some(j) => Some((from, j))
    case None =>
      if from == |s| then None else FirstMatch(s, from + 1)
  }

  /**
   * `re.findall(r"(?<=var SETTINGS = )\S*;", page)[0][:-1]`: the first match
   * without its closing `;`. `None` where there is no match and Python
   * raises `IndexError`.
   */
  function SettingsText(page: string): (r: Option<string>)
    ensures r.Some? <==> exists i, j :: IsMatch(page, i, j)
    ensures r.Some? ==> exists i, j :: IsMatch(page, i, j) && NoMatchIn(page, 0, i)
                                       && (forall j' :: j < j' <= |page| ==> !IsMatch(page, i, j'))
                                       && r.value + ";" == page[i..j]
    ensures r.Some? ==> forall k :: 0 <= k < |r.value| ==> !IsSpace(r.value[k])
    ensures r.None? ==> forall i, j :: !IsMatch(page, i, j)
  {
    match FirstMatch(page, 0)
    case None =>
      NoMatchAnywhere(page);
      None
    case Some((i, j)) =>
      assert page[i..j] == page[i..j - 1] + [page[j - 1]];
      Some(page[i..j - 1])
  }

  /**
   * A page carrying `var SETTINGS = ` then a token of non-space characters
   * and `;`, then a space or the end of the page, gives back that token, even
   * when the token holds `;` itself.
   */
  lemma SettingsTextOf(token: string, rest: string)
    requires forall k :: 0 <= k < |token| ==> !IsSpace(token[k])
    requires rest == [] || IsSpace(rest[0])
    ensures SettingsText(Marker + token + ";" + rest) == Some(token)
  {
    var page := Marker + token + ";" + rest;
    var i, j := |Marker|, |Marker| + |token| + 1;
    TokenMatches(token, rest);
    forall i' | 0 <= i' < i
      ensures NoMatchAt(page, i')
    {
    }
    FirstMatchIs(page, i, j);
    assert page[i..j - 1] == token;
  }

  /**
   * A match followed by a space or the end of the text, with no match
   * starting before it, is the first match.
   */
  lemma FirstMatchIs(page: string, i: int, j: int)
    requires IsMatch(page, i, j) && (j == |page| || IsSpace(page[j]))
    requires forall i' :: 0 <= i' < i ==> NoMatchAt(page, i')
    ensures FirstMatch(page, 0) == Some((i, j))
  {
    var m := FirstMatch(page, 0);
    assert !NoMatchAt(page, i);
    NoMatchInEvery(page, 0, |page|);
    assert m.Some?;
    NoMatchInEvery(page, 0, m.value.0);
    assert !NoMatchAt(page, m.value.0);
    assert m.value.0 == i;
    assert m.value.1 == j;
  }

  /** The token and its `;` are a match right after the marker, and the longest there. */
  lemma TokenMatches(token: string, rest: string)
    requires forall k :: 0 <= k < |token| ==> !IsSpace(token[k])
    requires rest == [] || IsSpace(rest[0])
    ensures var page, i, j := Marker + token + ";" + rest, |Marker|, |Marker| + |token| + 1;
            IsMatch(page, i, j) && (j == |page| || IsSpace(page[j]))
  {
    var page, i, j := Marker + token + ";" + rest, |Marker|, |Marker| + |token| + 1;
    assert page[i - |Marker|..i] == Marker;
    assert forall k :: i <= k < j - 1 ==> page[k] == token[k - i];
  }

  /** `text[0:n]`, which stops at the end of a shorter text. */
  function Head(text: string, n: nat): (r: string)
    ensures |r| <= n && r <= text
    ensures |r| == n || r == text
  {
    if |text| <= n then text else text[..n]
  }

  const Doctype: string := "<!DOCTYPE html PUBLIC"

  /** Step 3 of the login: the reply's first 21 characters are `<!DOCTYPE html PUBLIC`. */
  predicate IsConfirmedPage(text: string) {
    Head(text, 21) == Doctype
  }

  /** The step-3 test passes exactly for the texts that start with the doctype; a shorter text fails. */
  lemma ConfirmedPageIff(text: string)
    ensures IsConfirmedPage(text) <==> Doctype <= text
    ensures |text| < 21 ==> !IsConfirmedPage(text)
  {
    assert |Doctype| == 21;
    if Doctype <= text {
      assert text[..21] == Doctype;
    }
  }

  /** Step 5 of the login: the `esb-title-h1` heading's first two characters are `We`. */
  predicate IsWelcomeHeading(heading: string) {
    Head(heading, 2) == "We"
  }

  /** The step-5 test passes exactly for the headings that start with `We`. */
  lemma WelcomeHeadingIff(heading: string)
    ensures IsWelcomeHeading(heading) <==> |heading| >= 2 && heading[0] == 'W' && heading[1] == 'e'
  {
    if |heading| >= 2 && heading[0] == 'W' && heading[1] == 'e' {
      assert heading[..2] == "We";
    }
  }
}
