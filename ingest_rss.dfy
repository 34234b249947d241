/**
 * RSS ingest: for each configured source, find its feed (given or
 * discovered from the home page), turn the feed's entries into articles,
 * keep the eight newest whose URL was not seen before, and write all kept
 * rows sorted newest first.
 */
module IngestRss {
  import opened Wrappers
  import opened Text
  import opened Seqs
  import opened Articles

  /** How many new items one source may add per run. */
  const N_PER_SOURCE: nat := 8

  /** The language of a source that names none. */
  const DEFAULT_LANG: string := "English"

  /** The text `url_hash` digests: the URL trimmed and lower-cased (the digest itself is taken as injective). */
  function UrlKey(u: string): string {
    Lower(Strip(u))
  }

  /** URLs that differ only in letter case or in surrounding whitespace have the same key. */
  lemma UrlKeyCollisions(u: string, v: string, pre: string, post: string)
    requires AllSpace(pre) && AllSpace(post)
    ensures UrlKey(pre + u + post) == UrlKey(u)
    ensures Lower(u) == Lower(v) ==> UrlKey(u) == UrlKey(v)
  {
    StripPadded(pre, u, post);
    StripLower(u);
    StripLower(v);
  }

  // ---------- html_to_text ----------

  /** `" ".join(s.strip() for s in strings)`. */
  function JoinStripped(strings: seq<string>): string
    decreases |strings|
  {
    if strings == [] then ""
    else if |strings| == 1 then Strip(strings[0])
    else Strip(strings[0]) + " " + JoinStripped(strings[1..])
  }

  /** The ellipsis appended to a truncated text. */
  const ELLIPSIS: char := '\U{2026}'

  /** A text longer than `maxLen` cut to its first `maxLen` characters followed by an ellipsis. */
  function Truncate(text: string, maxLen: nat): (r: string)
    ensures |r| <= maxLen + 1
    ensures |text| <= maxLen ==> r == text
    ensures |text| > maxLen ==> |r| == maxLen + 1 && r[..maxLen] == text[..maxLen] && r[maxLen] == ELLIPSIS
  {
    if |text| > maxLen then text[..maxLen] + [ELLIPSIS] else text
  }

  /**
   * `html_to_text(html, max_len)`; `strings` is the tag stripper, giving the
   * text pieces of a fragment in document order.
   */
  function HtmlToText(html: string, maxLen: nat, strings: string -> seq<string>): (r: string)
    ensures html == "" ==> r == ""
    ensures |r| <= maxLen + 1
    ensures html != "" ==> r == Truncate(JoinStripped(strings(html)), maxLen)
  {
    if html == "" then "" else Truncate(JoinStripped(strings(html)), maxLen)
  }

  // ---------- entries ----------

  /** A feed entry; an attribute that is absent, None or empty is `""`. */
  datatype Entry = Entry(title: string, link: string, summary: string, description: string, published: string, updated: string)

  /** `parse_date(val)`: `None` for an empty value; `parseIso` gives the ISO form of a parsable date. */
  function ParseDate(val: string, parseIso: string -> Option<string>): Option<string> {
    if val == "" then None else parseIso(val)
  }

  /** `a or b` on strings. */
  function Or(a: string, b: string): (r: string)
    ensures a != "" ==> r == a
    ensures a == "" ==> r == b
  {
    if a != "" then a else b
  }

  /** The environment an ingest run works in: tag stripping, date parsing and the clock. */
  datatype Env = Env(strings: string -> seq<string>, parseIso: string -> Option<string>, nowIso: string)

  /** The dict an entry becomes, `None` for an entry with no link. */
  function ItemOf(e: Entry, lang: string, name: string, env: Env): (r: Option<Article>)
    ensures r.Some? <==> e.link != ""
    ensures r.Some? ==> r.value.url == Strip(e.link) && r.value.language == lang && r.value.source == name
    ensures r.Some? ==> r.value.body == Strip(HtmlToText(Or(e.summary, e.description), 800, env.strings))
    ensures r.Some? ==> r.value.title == Strip(HtmlToText(e.title, 180, env.strings))
    ensures r.Some? ==>
      var parsed := ParseDate(Or(e.published, e.updated), env.parseIso);
      r.value.date == if parsed.Some? && parsed.value != "" then parsed.value else env.nowIso
  {
    if e.link == "" then None
    else
      var summary := Or(e.summary, e.description);
      var pub := Or(e.published, e.updated);
      var date := Or(ParseDate(pub, env.parseIso).GetOr(""), env.nowIso);
      Some(Article(Strip(HtmlToText(e.title, 180, env.strings)), Strip(HtmlToText(summary, 800, env.strings)),
                   lang, date, name, Strip(e.link)))
  }

  /** The items of a feed, in entry order. */
  function Items(entries: seq<Entry>, lang: string, name: string, env: Env): (r: seq<Article>)
    ensures |r| <= |entries|
  {
    Choose(entries, e => ItemOf(e, lang, name, env))
  }

  /** The entry loop of `main`: entries without a link are skipped, the rest appended. */
  method CollectItems(entries: seq<Entry>, lang: string, name: string, env: Env) returns (items: seq<Article>)
    ensures items == Items(entries, lang, name, env)
  {
    items := [];
    for i := 0 to |entries|
      invariant items == Items(entries[..i], lang, name, env)
    {
      assert entries[..i + 1][..i] == entries[..i];
      var it := ItemOf(entries[i], lang, name, env);
      if it.Some? {
        items := items + [it.value];
      }
    }
    assert entries[..|entries|] == entries;
  }

  /** Every item comes from an entry with a link, and carries the source's name and language. */
  lemma ItemsFromEntries(entries: seq<Entry>, lang: string, name: string, env: Env)
    ensures forall a :: a in Items(entries, lang, name, env) ==>
      a.language == lang && a.source == name && exists i :: 0 <= i < |entries| && entries[i].link != "" && a.url == Strip(entries[i].link)
  {
    ChooseMembers(entries, e => ItemOf(e, lang, name, env));
    forall a | a in Items(entries, lang, name, env)
      ensures a.language == lang && a.source == name
      ensures exists i :: 0 <= i < |entries| && entries[i].link != "" && a.url == Strip(entries[i].link)
    {
      var e :| e in entries && ItemOf(e, lang, name, env) == Some(a);
      var i :| 0 <= i < |entries| && entries[i] == e;
    }
  }

  // ---------- autodiscover_rss ----------

  /** A `<link>` element: its `rel` tokens, its `type` and its `href` (`""` when absent). */
  datatype Link = Link(rel: seq<string>, linkType: string, href: string)

  /** The link filter: some `rel` token contains `alternate` and the lower-cased type names rss, atom or xml. */
  predicate IsFeedLink(l: Link) {
    (exists t :: t in l.rel && Contains(t, "alternate"))
    && (Contains(Lower(l.linkType), "rss") || Contains(Lower(l.linkType), "atom") || Contains(Lower(l.linkType), "xml"))
  }

  /** A feed link with an `href`: the loop returns the first of these. */
  predicate Usable(l: Link) {
    IsFeedLink(l) && l.href != ""
  }

  /** The position of the first usable feed link, or |links| when there is none. */
  function FirstFeedLink(links: seq<Link>): (k: nat)
    ensures k <= |links|
    ensures forall j :: 0 <= j < k ==> !Usable(links[j])
    ensures k < |links| ==> Usable(links[k])
    decreases |links|
  {
    if links == [] || Usable(links[0]) then 0 else 1 + FirstFeedLink(links[1..])
  }

  /** `k` is a usable link that no usable link precedes. */
  predicate IsFirstFeedLink(links: seq<Link>, k: int) {
    0 <= k < |links| && Usable(links[k]) && forall j :: 0 <= j < k ==> !Usable(links[j])
  }

  /**
   * What `autodiscover_rss(home)` returns; `fetchHome` gives the links of
   * the home page, `None` when fetching or parsing it fails, and `join` is
   * `urljoin`, `None` when it raises (`ValueError` from `urlsplit`), which
   * the `except` of `autodiscover_rss` also turns into `None`.
   */
  function Discovered(home: string, fetchHome: string -> Option<seq<Link>>, join: (string, string) -> Option<string>): Option<string> {
    match fetchHome(home)
    case None => None
    case Some(links) =>
      var k := FirstFeedLink(links);
      if k < |links| then join(home, links[k].href) else None
  }

  /** The link loop of `autodiscover_rss`: the first feed link with an `href`, a feed link without one skipped. */
  method Autodiscover(home: string, fetchHome: string -> Option<seq<Link>>, join: (string, string) -> Option<string>)
    returns (feed: Option<string>)
    ensures feed == Discovered(home, fetchHome, join)
  {
    var page := fetchHome(home);
    if page.None? {
      return None;
    }
    var links := page.value;
    for i := 0 to |links|
      invariant forall j :: 0 <= j < i ==> !Usable(links[j])
    {
      var link := links[i];
      if IsFeedLink(link) {
        if link.href == "" {
          continue;
        }
        return join(home, link.href);
      }
    }
    return None;
  }

  /**
   * The discovered feed is the resolved `href` of a usable link that no
   * usable link precedes; nothing is found exactly when the page is
   * unavailable, has no usable link, or resolving the first usable link's
   * `href` raises. Later usable links are never tried.
   */
  lemma DiscoveredIsFirst(home: string, fetchHome: string -> Option<seq<Link>>, join: (string, string) -> Option<string>)
    ensures Discovered(home, fetchHome, join).Some? ==>
      && fetchHome(home).Some?
      && exists k :: IsFirstFeedLink(fetchHome(home).value, k)
                     && Discovered(home, fetchHome, join) == join(home, fetchHome(home).value[k].href)
    ensures Discovered(home, fetchHome, join).None? <==>
      || fetchHome(home).None?
      || (forall k :: 0 <= k < |fetchHome(home).value| ==> !Usable(fetchHome(home).value[k]))
      || exists k :: IsFirstFeedLink(fetchHome(home).value, k) && join(home, fetchHome(home).value[k].href).None?
  {
    if fetchHome(home).Some? {
      var links := fetchHome(home).value;
      var k := FirstFeedLink(links);
      if k < |links| {
        assert Usable(links[k]);
      }
    }
  }

  // ---------- per-source selection ----------

  function ItemKey(a: Article): string {
    UrlKey(a.url)
  }

  /**
   * The selection loop of `main` over the items sorted newest first: stop
   * once eight are kept, skip an item whose key (`url_hash` of its URL) is
   * in `seen`, and record each kept key.
   */
  method SelectUnseen(items: seq<Article>, key: Article -> string, seen: set<string>)
    returns (kept: seq<Article>, seen': set<string>)
    ensures kept == TakeFresh(items, key, seen, N_PER_SOURCE)
    ensures seen' == seen + KeySet(kept, key)
  {
    kept := [];
    seen' := seen;
    var i := 0;
    while i < |items|
      invariant 0 <= i <= |items| && |kept| <= N_PER_SOURCE
      invariant kept + TakeFresh(items[i..], key, seen', N_PER_SOURCE - |kept|) == TakeFresh(items, key, seen, N_PER_SOURCE)
      invariant seen' == seen + KeySet(kept, key)
    {
      if |kept| >= N_PER_SOURCE {
        break;
      }
      var it := items[i];
      var h := key(it);
      TakeFreshStep(items, i, key, seen', N_PER_SOURCE - |kept|, kept);
      if h in seen' {
        i := i + 1;
        continue;
      }
      KeySetAppend(kept, [it], key);
      assert KeySet([it], key) == {h};
      seen' := seen' + {h};
      kept := kept + [it];
      i := i + 1;
    }
  }

  // ---------- main ----------

  /**
   * `(name or url or "source").strip()`: the fallback is decided before
   * stripping, so a name of only whitespace gives the empty name.
   */
  function SourceName(src: map<string, string>): (r: string)
    ensures Field(src, "name") != "" ==> r == Strip(Field(src, "name"))
    ensures Field(src, "name") == "" && Field(src, "url") != "" ==> r == Strip(Field(src, "url"))
    ensures Field(src, "name") == "" && Field(src, "url") == "" ==> r == "source"
  {
    StripAt("source", 0, 6);
    Strip(Or(Field(src, "name"), Or(Field(src, "url"), "source")))
  }

  /** A name of only whitespace is kept, and strips to the empty name. */
  lemma SourceNameBlank(src: map<string, string>)
    requires Field(src, "name") != "" && AllSpace(Field(src, "name"))
    ensures SourceName(src) == ""
  {
    var n := Field(src, "name");
    StripAt(n, |n|, |n|);
  }

  /** `language or DEFAULT_LANG`. */
  function SourceLanguage(src: map<string, string>): (r: string)
    ensures r != ""
    ensures Field(src, "language") != "" ==> r == Field(src, "language")
    ensures Field(src, "language") == "" ==> r == DEFAULT_LANG
  {
    Or(Field(src, "language"), DEFAULT_LANG)
  }

  /**
   * The network as the ingest sees it: the home page's links, `urljoin`
   * (`None` where it raises), and the entries of a feed URL (none when the feed is empty or unreadable).
   */
  datatype Net = Net(fetchHome: string -> Option<seq<Link>>, join: (string, string) -> Option<string>, entries: string -> seq<Entry>)

  /** The feed of a source: its `rss`, else the one discovered from its `url`; `None` when the source is skipped. */
  function FeedOf(src: map<string, string>, net: Net): (r: Option<string>)
    ensures r.Some? ==> r.value != ""
    ensures Field(src, "rss") != "" ==> r == Some(Field(src, "rss"))
    ensures Field(src, "rss") == "" && Field(src, "url") == "" ==> r.None?
    ensures Field(src, "rss") == "" && Field(src, "url") != "" ==>
      var d := Discovered(Field(src, "url"), net.fetchHome, net.join);
      && (r.Some? <==> d.Some? && d.value != "")
      && (r.Some? ==> r == d)
  {
    if Field(src, "rss") != "" then Some(Field(src, "rss"))
    else if Field(src, "url") == "" then None
    else
      match Discovered(Field(src, "url"), net.fetchHome, net.join)
      case Some(f) => if f != "" then Some(f) else None
      case None => None
  }

  /** The items of a source's feed, newest first (Python's sort is stable). */
  function Candidates(src: map<string, string>, net: Net, env: Env): seq<Article> {
    match FeedOf(src, net)
    case None => []
    case Some(f) => Sort(Items(net.entries(f), SourceLanguage(src), SourceName(src), env), NewerFirst)
  }

  /** The rows collected from `sources`, in order: each source adds its first eight items with unseen URL keys. */
  function Ingested(sources: seq<map<string, string>>, net: Net, env: Env): seq<Article> {
    FreshRuns(sources, src => Candidates(src, net, env), ItemKey, N_PER_SOURCE)
  }

  /** One iteration of `main`'s source loop: the items it appends and the keys it adds to `seen`. */
  method IngestSource(src: map<string, string>, net: Net, env: Env, seen: set<string>)
    returns (kept: seq<Article>, seen': set<string>)
    ensures kept == TakeFresh(Candidates(src, net, env), ItemKey, seen, N_PER_SOURCE)
    ensures seen' == seen + KeySet(kept, ItemKey)
  {
    var name := SourceName(src);
    var lang := SourceLanguage(src);
    var rss := Field(src, "rss");
    if rss == "" {
      var baseUrl := Field(src, "url");
      if baseUrl == "" {
        return [], seen;
      }
      var found := Autodiscover(baseUrl, net.fetchHome, net.join);
      if found.None? || found.value == "" {
        return [], seen;
      }
      rss := found.value;
    }
    assert FeedOf(src, net) == Some(rss);
    var entries := net.entries(rss);
    if entries == [] {
      return [], seen;
    }
    var items := CollectItems(entries, lang, name, env);
    items := Sort(items, NewerFirst);
    kept, seen' := SelectUnseen(items, ItemKey, seen);
  }

  function ArticleUrl(a: Article): string {
    a.url
  }

  /** The written frame: `drop_duplicates(subset=["url"])` then the sort by date, newest first; nothing for no rows. */
  function Output(rows: seq<Article>): seq<Article> {
    if rows == [] then [] else Sort(DedupBy(rows, ArticleUrl), NewerFirst)
  }

  /** `main` of the RSS ingest: the rows of the CSV it writes. */
  method IngestRss(sources: seq<map<string, string>>, net: Net, env: Env) returns (out: seq<Article>)
    ensures out == Output(Ingested(sources, net, env))
  {
    var rows: seq<Article> := [];
    var seen: set<string> := {};
    for s := 0 to |sources|
      invariant rows == Ingested(sources[..s], net, env)
      invariant seen == KeySet(rows, ItemKey)
    {
      assert sources[..s + 1][..s] == sources[..s];
      var kept, seen' := IngestSource(sources[s], net, env, seen);
      KeySetAppend(rows, kept, ItemKey);
      rows := rows + kept;
      seen := seen';
    }
    assert sources[..|sources|] == sources;
    if rows != [] {
      out := Sort(DedupBy(rows, ArticleUrl), NewerFirst);
    } else {
      out := [];
    }
  }

  /**
   * No two collected rows share a URL key, there are at most eight per
   * source in total, and every row carries the name and language of a
   * source. IngestedPerSource bounds each source's own rows.
   */
  lemma IngestedProps(sources: seq<map<string, string>>, net: Net, env: Env)
    ensures UniqueBy(Ingested(sources, net, env), ItemKey)
    ensures |Ingested(sources, net, env)| <= N_PER_SOURCE * |sources|
    ensures forall a :: a in Ingested(sources, net, env) ==>
      exists k :: 0 <= k < |sources| && a.source == SourceName(sources[k]) && a.language == SourceLanguage(sources[k])
  {
    var cands := src => Candidates(src, net, env);
    FreshRunsProps(sources, cands, ItemKey, N_PER_SOURCE);
    forall a: Article | a in Ingested(sources, net, env)
      ensures exists k :: 0 <= k < |sources| && a.source == SourceName(sources[k]) && a.language == SourceLanguage(sources[k])
    {
      var k :| 0 <= k < |sources| && a in cands(sources[k]);
      CandidatesFromSource(sources[k], net, env);
    }
  }

  /**
   * Source `n` appends at most eight rows after those of the sources
   * before it, the first of its newest-first candidates in their order,
   * each with its name and language and a URL key not collected before.
   */
  lemma IngestedPerSource(sources: seq<map<string, string>>, net: Net, env: Env, n: nat)
    requires n < |sources|
    ensures var before := Ingested(sources[..n], net, env);
            var after := Ingested(sources[..n + 1], net, env);
            && |before| <= |after| <= |before| + N_PER_SOURCE
            && after[..|before|] == before
            && IsSubseq(after[|before|..], Candidates(sources[n], net, env))
            && forall a :: a in after[|before|..] ==>
                 a.source == SourceName(sources[n]) && a.language == SourceLanguage(sources[n])
                 && ItemKey(a) !in KeySet(before, ItemKey)
  {
    var cands := src => Candidates(src, net, env);
    FreshRunsStep(sources, cands, ItemKey, N_PER_SOURCE, n);
    var before := Ingested(sources[..n], net, env);
    var after := Ingested(sources[..n + 1], net, env);
    SubseqMembers(after[|before|..], Candidates(sources[n], net, env));
    CandidatesFromSource(sources[n], net, env);
  }

  /** A source's candidates carry its name and language. */
  lemma CandidatesFromSource(src: map<string, string>, net: Net, env: Env)
    ensures forall a :: a in Candidates(src, net, env) ==> a.source == SourceName(src) && a.language == SourceLanguage(src)
  {
    if FeedOf(src, net).Some? {
      var items := Items(net.entries(FeedOf(src, net).value), SourceLanguage(src), SourceName(src), env);
      ItemsFromEntries(net.entries(FeedOf(src, net).value), SourceLanguage(src), SourceName(src), env);
      SortMembers(items, NewerFirst, ItemKey);
    }
  }

  /**
   * The written CSV: the collected rows newest first, with no URL key twice,
   * at most eight per source in total. Distinct keys make `drop_duplicates` a no-op.
   */
  lemma OutputProps(sources: seq<map<string, string>>, net: Net, env: Env)
    ensures multiset(Output(Ingested(sources, net, env))) == multiset(Ingested(sources, net, env))
    ensures SortedBy(Output(Ingested(sources, net, env)), NewerFirst)
    ensures UniqueBy(Output(Ingested(sources, net, env)), ItemKey)
    ensures |Output(Ingested(sources, net, env))| <= N_PER_SOURCE * |sources|
  {
    var rows := Ingested(sources, net, env);
    IngestedProps(sources, net, env);
    NewerFirstIsPreorder();
    if rows != [] {
      RowsUniqueByUrl(rows);
      DedupUnique(rows, ArticleUrl, {});
      SortSorted(rows, NewerFirst);
      SortUnique(rows, NewerFirst, ItemKey);
    }
  }

  /** Distinct URL keys mean distinct URLs. */
  lemma RowsUniqueByUrl(rows: seq<Article>)
    requires UniqueBy(rows, ItemKey)
    ensures UniqueBy(rows, ArticleUrl)
  {
    forall i, j | 0 <= i < j < |rows| ensures ArticleUrl(rows[i]) != ArticleUrl(rows[j]) {
      assert ItemKey(rows[i]) != ItemKey(rows[j]);
    }
  }
}
