/**
 * The part of `urllib.parse.urlsplit` the pipeline uses: the scheme and the
 * network location (`netloc`) of a URL, and the ValueError it raises for an
 * unbalanced IPv6 bracket.
 */
module Urls {
  import opened Wrappers
  import opened Text
  import opened Seqs

  /** A C0 control character or a space: what `urlsplit` strips from the front of a URL. */
  predicate IsC0OrSpace(c: char) {
    c <= ' '
  }

  /** `url.lstrip(C0 controls and space)`. */
  function StripC0Start(s: string): (r: string)
    ensures |r| <= |s| && EndsWith(s, r)
    ensures r != [] ==> !IsC0OrSpace(r[0])
    ensures s != [] && !IsC0OrSpace(s[0]) ==> r == s
    decreases |s|
  {
    if s != [] && IsC0OrSpace(s[0]) then StripC0Start(s[1..]) else s
  }

  /** Tab, carriage return and line feed, which `urlsplit` deletes wherever they occur. */
  predicate IsUnsafe(c: char) {
    c == '\t' || c == '\r' || c == '\n'
  }

  predicate Kept(c: char) {
    !IsUnsafe(c)
  }

  predicate IsAsciiAlpha(c: char) {
    'a' <= c <= 'z' || 'A' <= c <= 'Z'
  }

  /** `scheme_chars`: ASCII letters, digits and `+-.`. */
  predicate IsSchemeChar(c: char) {
    IsAsciiAlpha(c) || IsDigit(c) || c == '+' || c == '-' || c == '.'
  }

  /** `s.find(c)`, with |s| for "not found". */
  function IndexOf(s: string, c: char): (i: nat)
    ensures i <= |s| && c !in s[..i]
    ensures i < |s| ==> s[i] == c
    decreases |s|
  {
    if s == [] then 0
    else if s[0] == c then 0
    else
      assert s[..1 + IndexOf(s[1..], c)] == [s[0]] + s[1..][..IndexOf(s[1..], c)];
      1 + IndexOf(s[1..], c)
  }

  predicate IsNetlocEnd(c: char) {
    c == '/' || c == '?' || c == '#'
  }

  /** Where the network location ends: the first `/`, `?` or `#`, or |s|. */
  function NetlocLength(s: string): (k: nat)
    ensures k <= |s|
    ensures forall j :: 0 <= j < k ==> !IsNetlocEnd(s[j])
    ensures k < |s| ==> IsNetlocEnd(s[k])
    decreases |s|
  {
    if s == [] || IsNetlocEnd(s[0]) then 0 else 1 + NetlocLength(s[1..])
  }

  /** The components of a split URL; `rest` is the path, query and fragment as one string. */
  datatype UrlParts = UrlParts(scheme: string, netloc: string, rest: string)

  /** The text `urlsplit` works on after cleaning its argument. */
  function Cleaned(url: string): (u: string)
    ensures forall c :: c in u ==> !IsUnsafe(c)
  {
    Filter(StripC0Start(url), Kept)
  }

  /** Where a scheme ends: the first `:` if everything before it is a scheme that starts with a letter. */
  function SchemeLength(u: string): (r: Option<nat>)
    ensures r.Some? ==> 0 < r.value < |u| && u[r.value] == ':' && IsAsciiAlpha(u[0])
    ensures r.Some? ==> forall j :: 0 <= j < r.value ==> IsSchemeChar(u[j])
  {
    var i := IndexOf(u, ':');
    if 0 < i < |u| && IsAsciiAlpha(u[0]) && (forall j :: 0 <= j < i ==> IsSchemeChar(u[j])) then Some(i)
    else None
  }

  /** The lower-cased scheme and what follows its `:`, or no scheme and all of `u`. */
  function SchemeAndRest(u: string): (r: (string, string))
    ensures EndsWith(u, r.1)
    ensures r.0 == "" <==> SchemeLength(u).None?
    ensures SchemeLength(u).Some? ==> u == u[..SchemeLength(u).value] + ":" + r.1 && r.0 == Lower(u[..SchemeLength(u).value])
  {
    match SchemeLength(u)
    case Some(i) =>
      assert u == u[..i] + ":" + u[i + 1..];
      (Lower(u[..i]), u[i + 1..])
    case None => ("", u)
  }

  /**
   * `_splitnetloc` after the scheme: the netloc and the rest when `after`
   * starts with `//`; `None` for an unbalanced bracket.
   */
  function SplitNetloc(after: string): (r: Option<(string, string)>)
    ensures r.Some? && StartsWith(after, "//") ==> after == "//" + r.value.0 + r.value.1
    ensures r.Some? && !StartsWith(after, "//") ==> r.value == ("", after)
    ensures r.Some? ==> forall j :: 0 <= j < |r.value.0| ==> !IsNetlocEnd(r.value.0[j])
    ensures r.Some? ==> ('[' in r.value.0 <==> ']' in r.value.0)
    ensures r.None? <==> StartsWith(after, "//") && (('[' in after[2..][..NetlocLength(after[2..])]) != (']' in after[2..][..NetlocLength(after[2..])]))
  {
    if StartsWith(after, "//") then
      var tail := after[2..];
      var k := NetlocLength(tail);
      var netloc := tail[..k];
      if ('[' in netloc) != (']' in netloc) then None
      else
        assert after == "//" + netloc + tail[k..];
        Some((netloc, tail[k..]))
    else Some(("", after))
  }

  /**
   * `urlsplit(url)`, reduced to scheme, netloc and the remainder; `None` is
   * the ValueError for a netloc with `[` but no `]` or the other way round.
   */
  function UrlSplit(url: string): (r: Option<UrlParts>)
    ensures r.Some? ==> forall j :: 0 <= j < |r.value.netloc| ==> !IsNetlocEnd(r.value.netloc[j])
    ensures r.Some? ==> ('[' in r.value.netloc <==> ']' in r.value.netloc)
    ensures r.None? <==> SplitNetloc(SchemeAndRest(Cleaned(url)).1).None?
  {
    var (scheme, after) := SchemeAndRest(Cleaned(url));
    match SplitNetloc(after)
    case Some((netloc, rest)) => Some(UrlParts(scheme, netloc, rest))
    case None => None
  }

  /** `urlparse(url).netloc`, `None` when `urlparse` raises. */
  function Netloc(url: string): Option<string> {
    match UrlSplit(url)
    case Some(p) => Some(p.netloc)
    case None => None
  }

  lemma CleanedUnchanged(url: string)
    requires url != [] && !IsC0OrSpace(url[0])
    requires forall j :: 0 <= j < |url| ==> !IsUnsafe(url[j])
    ensures Cleaned(url) == url
  {
    FilterAll(url, Kept);
  }

  lemma IndexOfAt(s: string, c: char, i: nat)
    requires i < |s| && s[i] == c && forall j :: 0 <= j < i ==> s[j] != c
    ensures IndexOf(s, c) == i
  {
  }

  lemma NetlocLengthAt(s: string, k: nat)
    requires k <= |s| && (k < |s| ==> IsNetlocEnd(s[k]))
    requires forall j :: 0 <= j < k ==> !IsNetlocEnd(s[j])
    ensures NetlocLength(s) == k
  {
  }

  lemma SchemeAndRestOf(scheme: string, after: string)
    requires scheme != [] && IsAsciiAlpha(scheme[0])
    requires forall j :: 0 <= j < |scheme| ==> IsSchemeChar(scheme[j])
    ensures SchemeAndRest(scheme + ":" + after) == (Lower(scheme), after)
  {
    var u := scheme + ":" + after;
    forall j | 0 <= j < |scheme| ensures u[j] != ':' {
      assert u[j] == scheme[j];
    }
    IndexOfAt(u, ':', |scheme|);
    assert u[..|scheme|] == scheme;
    assert u[|scheme| + 1..] == after;
  }

  lemma SplitNetlocOf(host: string, path: string)
    requires forall j :: 0 <= j < |host| ==> !IsNetlocEnd(host[j]) && host[j] != '[' && host[j] != ']'
    requires path == [] || IsNetlocEnd(path[0])
    ensures SplitNetloc("//" + host + path) == Some((host, path))
  {
    var after := "//" + host + path;
    var tail := after[2..];
    assert tail == host + path;
    forall j | 0 <= j < |host| ensures !IsNetlocEnd(tail[j]) {
      assert tail[j] == host[j];
    }
    NetlocLengthAt(tail, |host|);
    assert tail[..|host|] == host && tail[|host|..] == path;
  }

  lemma NoUnsafe(a: string, b: string)
    requires forall j :: 0 <= j < |a| ==> !IsUnsafe(a[j])
    requires forall j :: 0 <= j < |b| ==> !IsUnsafe(b[j])
    ensures forall j :: 0 <= j < |a + b| ==> !IsUnsafe((a + b)[j])
  {
    forall j | 0 <= j < |a + b| ensures !IsUnsafe((a + b)[j]) {
      if j >= |a| {
        assert (a + b)[j] == b[j - |a|];
      }
    }
  }

  /**
   * An absolute URL `scheme://host path` whose host has no separator or
   * bracket has exactly that host as its netloc.
   */
  lemma NetlocOfAbsolute(scheme: string, host: string, path: string)
    requires scheme != [] && IsAsciiAlpha(scheme[0])
    requires forall j :: 0 <= j < |scheme| ==> IsSchemeChar(scheme[j])
    requires forall j :: 0 <= j < |host| ==> !IsNetlocEnd(host[j]) && !IsUnsafe(host[j]) && host[j] != '[' && host[j] != ']'
    requires path == [] || IsNetlocEnd(path[0])
    requires forall j :: 0 <= j < |path| ==> !IsUnsafe(path[j])
    ensures UrlSplit(scheme + "://" + host + path) == Some(UrlParts(Lower(scheme), host, path))
  {
    var after := "//" + host + path;
    var url := scheme + ":" + after;
    assert url == scheme + "://" + host + path;
    NoUnsafe("//", host);
    NoUnsafe("//" + host, path);
    NoUnsafe(scheme, ":");
    NoUnsafe(scheme + ":", after);
    assert url[0] == scheme[0];
    CleanedUnchanged(url);
    SchemeAndRestOf(scheme, after);
    SplitNetlocOf(host, path);
  }
}
