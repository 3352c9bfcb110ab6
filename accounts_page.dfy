/** `AccountsPage._extractAccountIdFromUrl`, taken as a function of the page URL: the URL is
    matched against `/\/accounts\/([^/?#]+)/` and the captured group is the account id; with
    no match an error naming the URL is thrown. */
module AccountsPage {
  import opened Wrappers

  /** The literal part of the pattern. */
  const Marker: string := "/accounts/"

  /** The start of the message of the error thrown when the URL holds no account id. */
  const ErrorPrefix: string := "Cannot extract account ID from URL: "

  /** A character of the class `[^/?#]`. */
  predicate IsIdChar(c: char) {
    c != '/' && c != '?' && c != '#'
  }

  /** The pattern can match at position p: `/accounts/` starts there and is followed by at
      least one character of the class. */
  predicate MatchesAt(url: string, p: nat) {
    p + |Marker| < |url| && url[p..p + |Marker|] == Marker && IsIdChar(url[p + |Marker|])
  }

  /** The greedy `[^/?#]+` (or `*`) at the start of t: the longest prefix of t made of
      characters of the class. */
  function IdRun(t: string): (r: string)
    ensures |r| <= |t| && r == t[..|r|]
    ensures forall k :: 0 <= k < |r| ==> IsIdChar(r[k])
    ensures |r| == |t| || !IsIdChar(t[|r|])
  {
    if t == [] || !IsIdChar(t[0]) then [] else [t[0]] + IdRun(t[1..])
  }

  /** The regular-expression search from position p on: the first position where the
      pattern matches, trying each start in turn. */
  function Search(url: string, p: nat): (r: Option<nat>)
    requires p <= |url|
    ensures r.Some? ==> p <= r.value && MatchesAt(url, r.value)
    ensures r.Some? ==> forall q: nat :: p <= q < r.value ==> !MatchesAt(url, q)
    ensures r.None? ==> forall q: nat :: p <= q ==> !MatchesAt(url, q)
    decreases |url| - p
  {
    if p + |Marker| >= |url| then None
    else if MatchesAt(url, p) then Some(p)
    else Search(url, p + 1)
  }

  /** `_extractAccountIdFromUrl` on the URL `url`: the captured id, or the error thrown. */
  function ExtractAccountId(url: string): (r: Result<string, string>)
    ensures r.Failure? <==> forall p: nat :: !MatchesAt(url, p)
    ensures r.Failure? ==> r.error == ErrorPrefix + url
    ensures r.Success? ==> |r.value| > 0
    ensures r.Success? ==> forall k :: 0 <= k < |r.value| ==> IsIdChar(r.value[k])
  {
    match Search(url, 0)
    case None => Failure(ErrorPrefix + url)
    case Some(p) =>
      var id := IdRun(url[p + |Marker|..]);
      assert url[p + |Marker|..][0] == url[p + |Marker|];
      Success(id)
  }

  /** Where a returned id was found: at the leftmost position p where the pattern can match,
      right after `/accounts/`, and it runs up to the end of the URL or up to the first `/`,
      `?` or `#` after it. */
  lemma {:induction false} ExtractedIdLocated(url: string) returns (p: nat)
    requires ExtractAccountId(url).Success?
    ensures MatchesAt(url, p)
    ensures forall q: nat :: q < p ==> !MatchesAt(url, q)
    ensures var id := ExtractAccountId(url).value;
      var e := p + |Marker| + |id|;
      e <= |url| && url[p..p + |Marker|] == Marker && url[p + |Marker|..e] == id
      && (e == |url| || !IsIdChar(url[e]))
  {
    p := Search(url, 0).value;
    var t := url[p + |Marker|..];
    var id := IdRun(t);
    assert ExtractAccountId(url).value == id;
    assert url[p + |Marker|..p + |Marker| + |id|] == t[..|id|];
    assert p + |Marker| + |id| < |url| ==> url[p + |Marker| + |id|] == t[|id|];
  }

  /** The search stops at the first position where the pattern matches. */
  lemma {:induction false} SearchFindsFirst(url: string, from: nat, p: nat)
    requires from <= p && MatchesAt(url, p)
    requires forall q: nat :: from <= q < p ==> !MatchesAt(url, q)
    ensures Search(url, from) == Some(p)
    decreases p - from
  {
    if from < p {
      SearchFindsFirst(url, from + 1, p);
    }
  }

  /** The URL of an account page gives back the account id it was built from: a URL made of
      some text, `/accounts/`, a nonempty id of the class and a rest that starts with `/`, `?`,
      `#` or is empty, where the pattern cannot match inside the leading text. */
  lemma {:induction false} ExtractFromAccountUrl(head: string, id: string, rest: string)
    requires |id| > 0 && forall k :: 0 <= k < |id| ==> IsIdChar(id[k])
    requires rest == [] || !IsIdChar(rest[0])
    requires forall q: nat :: q < |head| ==> !MatchesAt(head + Marker + id + rest, q)
    ensures ExtractAccountId(head + Marker + id + rest) == Success(id)
  {
    var url := head + Marker + id + rest;
    var p := |head|;
    var start := p + |Marker|;
    assert url[p..start] == Marker;
    assert url[start..] == id + rest;
    assert MatchesAt(url, p) by {
      assert url[start] == id[0];
    }
    SearchFindsFirst(url, 0, p);
    IdRunOfRun(id, rest);
  }

  /** The greedy run stops exactly at the end of a run of class characters followed by a
      character outside the class, or by nothing. */
  lemma {:induction false} IdRunOfRun(id: string, rest: string)
    requires forall k :: 0 <= k < |id| ==> IsIdChar(id[k])
    requires rest == [] || !IsIdChar(rest[0])
    ensures IdRun(id + rest) == id
  {
    if id != [] {
      assert (id + rest)[1..] == id[1..] + rest;
      IdRunOfRun(id[1..], rest);
    } else {
      assert id + rest == rest;
    }
  }
}
