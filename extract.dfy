/**
 * Content extraction: for each page's JSONL records pick the best block,
 * derive the article's title, body, URL, source, language and date, and
 * collect one row per page that has a record.
 */
module Extract {
  import opened Wrappers
  import opened Text
  import opened Seqs
  import opened Articles
  import Preprocess

  // ---------- pick_best_block ----------

  /**
   * A JSONL record as read back: `meta.title_guess` and the block's
   * `p_count`, `length` and `text`, each `None` when the key is missing
   * (or, for the title guess, null).
   */
  datatype Rec = Rec(titleGuess: Option<string>, pCount: Option<int>, length: Option<int>, text: Option<string>)

  /** `(block.get("p_count", 0), block.get("length", 0))` compared with `reverse=True`. */
  predicate RecBefore(a: Rec, b: Rec) {
    var (pa, la, pb, lb) := (a.pCount.GetOr(0), a.length.GetOr(0), b.pCount.GetOr(0), b.length.GetOr(0));
    pa > pb || (pa == pb && la >= lb)
  }

  lemma RecBeforeIsPreorder()
    ensures TotalPreorder(RecBefore)
  {
  }

  /** `pick_best_block(records)`: the head of the stable descending sort, `None` for no records. */
  function PickBest(records: seq<Rec>): (r: Option<Rec>)
    ensures r.None? <==> records == []
    ensures r.Some? ==> r.value in records
  {
    if records == [] then None
    else
      var s := Sort(records, RecBefore);
      assert s[0] in multiset(records);
      Some(s[0])
  }

  /**
   * The picked record has the greatest `(p_count, length)`, missing keys
   * counting as 0, and is the earliest record with that pair.
   */
  lemma PickBestIsFirstBest(records: seq<Rec>) returns (k: nat)
    requires records != []
    ensures 0 <= k < |records| && PickBest(records) == Some(records[k])
    ensures forall j :: 0 <= j < |records| ==> RecBefore(records[k], records[j])
    ensures forall j :: 0 <= j < k ==> !RecBefore(records[j], records[k])
  {
    RecBeforeIsPreorder();
    k := SortHeadIsFirstBest(records, RecBefore);
  }

  /** A record that `preprocess_one` writes, as read back. */
  function FromBlock(meta: Option<string>): Preprocess.Block -> Rec {
    (b: Preprocess.Block) => Rec(meta, Some(b.pCount), Some(b.length), Some(b.text))
  }

  /**
   * The records of a preprocessed page are already best first, so the
   * picked record is the first one written.
   */
  lemma PickBestOfPreprocessed(meta: Option<string>, blocks: seq<Preprocess.Block>)
    requires blocks != []
    ensures PickBest(Map(Preprocess.TopBlocks(blocks), FromBlock(meta))) == Some(FromBlock(meta)(Preprocess.TopBlocks(blocks)[0]))
  {
    var top := Preprocess.TopBlocks(blocks);
    Preprocess.TopBlocksProps(blocks, blocks[0]);
    var recs := Map(top, FromBlock(meta));
    assert |top| > 0;
    var k := PickBestIsFirstBest(recs);
    if k > 0 {
      assert Preprocess.RankBefore(top[0], top[k]);
      assert RecBefore(recs[0], recs[k]);
    }
  }

  // ---------- the derived fields ----------

  /** The cap on the fallback title. */
  const TITLE_CAP: nat := 140

  /** The cap on the body. */
  const BODY_CAP: nat := 2000

  /** `block.get("text", "")`. */
  function TextOf(best: Rec): string {
    best.text.GetOr("")
  }

  /** The title: the title guess, else the block text up to its first `.`, cut to 140 characters and stripped. */
  function Title(best: Rec): (r: string)
    ensures best.titleGuess.Some? && best.titleGuess.value != "" ==> r == best.titleGuess.value
    ensures best.titleGuess.None? || best.titleGuess.value == "" ==>
      |r| <= TITLE_CAP && '.' !in r && r == Strip(Prefix(BeforeFirst(TextOf(best), '.'), TITLE_CAP))
  {
    var guess := best.titleGuess.GetOr("");
    if guess != "" then guess
    else
      var r := Strip(Prefix(BeforeFirst(TextOf(best), '.'), TITLE_CAP));
      StripIsSlice(Prefix(BeforeFirst(TextOf(best), '.'), TITLE_CAP));
      r
  }

  /** Strip returns a window of its argument. */
  lemma StripIsSlice(s: string)
    ensures forall c :: c in Strip(s) ==> c in s
  {
    var i, j := StripStart(s), StripEnd(s);
    if i < j {
      forall c | c in s[i..j] ensures c in s {
        var m :| 0 <= m < j - i && s[i..j][m] == c;
        assert s[i + m] == c;
      }
    }
  }

  /** The body: the first 2000 characters of the block text. */
  function Body(best: Rec): (r: string)
    ensures |r| <= BODY_CAP && StartsWith(TextOf(best), r)
    ensures |TextOf(best)| <= BODY_CAP ==> r == TextOf(best)
  {
    Prefix(TextOf(best), BODY_CAP)
  }

  /** The sidecar `.meta.json`: what `read_meta_for` returns, empty when it is missing or unreadable. */
  datatype Sidecar = Sidecar(fields: map<string, string>, headers: map<string, string>)

  /** `meta.get("final_url") or meta.get("requested_url") or ""`. */
  function Url(meta: Sidecar): (r: string)
    ensures Field(meta.fields, "final_url") != "" ==> r == Field(meta.fields, "final_url")
    ensures Field(meta.fields, "final_url") == "" ==> r == Field(meta.fields, "requested_url")
  {
    if Field(meta.fields, "final_url") != "" then Field(meta.fields, "final_url") else Field(meta.fields, "requested_url")
  }

  /** `re.sub(r"^https?://(www\.)?", "", url)`. */
  function DropScheme(url: string): (r: string)
    ensures EndsWith(url, r)
  {
    if StartsWith(url, "http://") then DropWww(url[7..])
    else if StartsWith(url, "https://") then DropWww(url[8..])
    else url
  }

  function DropWww(s: string): (r: string)
    ensures EndsWith(s, r)
  {
    if StartsWith(s, "www.") then s[4..] else s
  }

  /** The source: the URL without `http(s)://` and `www.`, up to its first `/`; empty for an empty URL. */
  function Source(url: string): (r: string)
    ensures url == "" ==> r == ""
    ensures '/' !in r
  {
    if url == "" then "" else BeforeFirst(DropScheme(url), '/')
  }

  /** The source of `https://www.<host><path>` (or `http://`, with or without `www.`) is its host when the path starts with `/` or is empty. */
  lemma SourceOfUrl(scheme: string, www: string, host: string, path: string)
    requires scheme == "http://" || scheme == "https://"
    requires www == "www." || (www == "" && !StartsWith(host, "www."))
    requires '/' !in host && (path == [] || path[0] == '/')
    ensures Source(scheme + www + host + path) == host
  {
    var hp := host + path;
    WwwPrefixOfHost(host, path);
    DropWwwOf(www, hp);
    DropSchemeOf(scheme, www + hp);
    UrlJoin(scheme, www, host, path);
    SourceOfHost(scheme + (www + hp), host, path);
  }

  lemma UrlJoin(scheme: string, www: string, host: string, path: string)
    ensures scheme + www + host + path == scheme + (www + (host + path))
  {
  }

  /** A path starting with `/` cannot complete a `www.` prefix. */
  lemma WwwPrefixOfHost(host: string, path: string)
    requires path == [] || path[0] == '/'
    ensures StartsWith(host + path, "www.") == StartsWith(host, "www.")
  {
    if |host| >= 4 {
      assert (host + path)[..4] == host[..4];
    } else if path != [] {
      assert (host + path)[|host|] == '/';
    } else {
      assert host + path == host;
    }
  }

  /** A URL whose scheme and `www.` drop off to `<host><path>` has the source `<host>`. */
  lemma SourceOfHost(url: string, host: string, path: string)
    requires url != "" && DropScheme(url) == host + path
    requires '/' !in host && (path == [] || path[0] == '/')
    ensures Source(url) == host
  {
    var hp := host + path;
    assert hp[..|host|] == host;
    BeforeFirstAt(hp, '/', |host|);
  }

  lemma DropSchemeOf(scheme: string, rest: string)
    requires scheme == "http://" || scheme == "https://"
    ensures DropScheme(scheme + rest) == DropWww(rest)
  {
    var url := scheme + rest;
    assert url[..|scheme|] == scheme && url[|scheme|..] == rest;
    if scheme == "http://" {
      assert StartsWith(url, "http://");
    } else {
      assert url[4] == 's';
      assert !StartsWith(url, "http://");
      assert StartsWith(url, "https://");
    }
  }

  lemma DropWwwOf(pre: string, s: string)
    requires pre == "www." || (pre == "" && !StartsWith(s, "www."))
    ensures DropWww(pre + s) == s
  {
    var t := pre + s;
    if pre == "www." {
      assert t[..4] == "www." && t[4..] == s;
    } else {
      assert t == s;
    }
  }

  lemma BeforeFirstAt(s: string, c: char, i: nat)
    requires i <= |s| && (i < |s| ==> s[i] == c) && c !in s[..i]
    ensures BeforeFirst(s, c) == s[..i]
  {
  }

  const ARABIC_HINTS: seq<string> := ["aljazeera", "skynewsarabia", "alarabiya", "akhbaar", "arabic.cnn", "bbc.com"]
  const RUSSIAN_HINTS: seq<string> := ["rbc.ru", "rt.com", "tass.com", "meduza.io", "echo.msk.ru", "sputniknews"]

  /** `any(k in source for k in hints)`. */
  predicate AnyIn(hints: seq<string>, source: string) {
    exists k :: k in hints && Contains(source, k)
  }

  /** The language guessed from the source, the Arabic hints tried first. */
  function Language(source: string): (r: string)
    ensures r == "Arabic" || r == "Russian" || r == "English"
    ensures r == "Arabic" <==> AnyIn(ARABIC_HINTS, source)
    ensures r == "Russian" <==> !AnyIn(ARABIC_HINTS, source) && AnyIn(RUSSIAN_HINTS, source)
  {
    if AnyIn(ARABIC_HINTS, source) then "Arabic"
    else if AnyIn(RUSSIAN_HINTS, source) then "Russian"
    else "English"
  }

  /** `bbc.com` is an Arabic hint, and an Arabic hint wins over a Russian one. */
  lemma LanguageArabicFirst(source: string)
    ensures Contains(source, "bbc.com") ==> Language(source) == "Arabic"
    ensures Language("bbc.com.rt.com") == "Arabic"
  {
    assert "bbc.com" in ARABIC_HINTS;
    ContainsAt("bbc.com.rt.com", "bbc.com", 0);
  }

  /**
   * The hints are plain substrings: any host ending in `rt.com` that has no
   * Arabic hint counts as Russian, `www.sport.com` among them.
   */
  lemma LanguageRussianSuffix(source: string)
    ensures !AnyIn(ARABIC_HINTS, source) && EndsWith(source, "rt.com") ==> Language(source) == "Russian"
    ensures Language("www.sport.com") == "Russian"
  {
    assert "rt.com" in RUSSIAN_HINTS;
    if EndsWith(source, "rt.com") {
      ContainsAt(source, "rt.com", |source| - 6);
    }
    ContainsAt("www.sport.com", "rt.com", 7);
    NotAnyIn(ARABIC_HINTS, "www.sport.com", "akaaab");
  }

  /** A source matching no hint is English. */
  lemma LanguageDefault()
    ensures Language("example.org") == "English"
  {
    NotAnyIn(ARABIC_HINTS, "example.org", "jsikbb");
    NotAnyIn(RUSSIAN_HINTS, "example.org", "bttdcs");
  }

  /** No hint occurs when each has a character (`wit[i]`) that `s` lacks. */
  lemma NotAnyIn(hints: seq<string>, s: string, wit: string)
    requires |wit| == |hints|
    requires forall i :: 0 <= i < |hints| ==> wit[i] in hints[i] && wit[i] !in s
    ensures !AnyIn(hints, s)
  {
    forall k | k in hints ensures !Contains(s, k) {
      var i :| 0 <= i < |hints| && hints[i] == k;
      NotContained(s, k, wit[i]);
    }
  }

  /** `sub` is not in `s` when it has a character `s` lacks. */
  lemma NotContained(s: string, sub: string, c: char)
    requires c in sub && c !in s
    ensures !Contains(s, sub)
  {
    if Contains(s, sub) {
      var i := ContainsWhere(s, sub);
    }
  }

  // ---------- find_date_in_html ----------

  /** An element of the original page: its tag and attributes. */
  datatype HtmlElement = HtmlElement(tag: string, attrs: map<string, string>)

  /**
   * A date candidate: the tag, the attribute the element must have (with
   * this value, or any value when `value` is `None`) and the attribute
   * holding the date.
   */
  datatype Candidate = Candidate(tag: string, key: string, value: Option<string>, attrName: string)

  /** The candidates in the order they are tried. */
  const CANDIDATES: seq<Candidate> := [
    Candidate("meta", "property", Some("article:published_time"), "content"),
    Candidate("meta", "name", Some("pubdate"), "content"),
    Candidate("meta", "name", Some("date"), "content"),
    Candidate("time", "datetime", None, "datetime")
  ]

  /** Whether `soup.find(tag, attrs=...)` matches `el`. */
  predicate Matches(c: Candidate, el: HtmlElement) {
    el.tag == c.tag && c.key in el.attrs && (c.value.None? || el.attrs[c.key] == c.value.value)
  }

  /** `soup.find`: the position of the first matching element, or |els|. */
  function FindFirst(c: Candidate, els: seq<HtmlElement>): (k: nat)
    ensures k <= |els| && (k < |els| ==> Matches(c, els[k]))
    ensures forall j :: 0 <= j < k ==> !Matches(c, els[j])
    decreases |els|
  {
    if els == [] || Matches(c, els[0]) then 0 else 1 + FindFirst(c, els[1..])
  }

  /**
   * The date a candidate gives: the date attribute of the first element it
   * matches, when that element has it. A later element is never looked at.
   */
  function CandidateDate(c: Candidate, els: seq<HtmlElement>): Option<string> {
    var k := FindFirst(c, els);
    if k < |els| && c.attrName in els[k].attrs then Some(els[k].attrs[c.attrName]) else None
  }

  /** The first candidate's date that exists, trying `cands` in order; `""` when none does. */
  function DateFrom(cands: seq<Candidate>, els: seq<HtmlElement>): string
    decreases |cands|
  {
    if cands == [] then ""
    else match CandidateDate(cands[0], els)
      case Some(d) => d
      case None => DateFrom(cands[1..], els)
  }

  /** `find_date_in_html`: `page` is the parsed original page, `None` when it cannot be read. */
  method FindDateInHtml(page: Option<seq<HtmlElement>>) returns (date: string)
    ensures page.None? ==> date == ""
    ensures page.Some? ==> date == DateFrom(CANDIDATES, page.value)
  {
    if page.None? {
      return "";
    }
    var els := page.value;
    for i := 0 to |CANDIDATES|
      invariant DateFrom(CANDIDATES[i..], els) == DateFrom(CANDIDATES, els)
    {
      var c := CANDIDATES[i];
      assert CANDIDATES[i..][0] == c && CANDIDATES[i..][1..] == CANDIDATES[i + 1..];
      var k := FindFirst(c, els);
      if k < |els| && c.attrName in els[k].attrs {
        return els[k].attrs[c.attrName];
      }
    }
    return "";
  }

  /** Candidate `i` gives a date and none before it does. */
  predicate IsFirstDated(cands: seq<Candidate>, els: seq<HtmlElement>, i: int) {
    0 <= i < |cands| && CandidateDate(cands[i], els).Some?
    && forall j :: 0 <= j < i ==> CandidateDate(cands[j], els).None?
  }

  /** The first candidate that gives a date decides it; the ones before gave none. */
  lemma {:induction false} DateFromIsFirst(cands: seq<Candidate>, els: seq<HtmlElement>)
    ensures DateFrom(cands, els) == "" || exists i :: 0 <= i < |cands| && CandidateDate(cands[i], els) == Some(DateFrom(cands, els))
    ensures (forall i :: 0 <= i < |cands| ==> CandidateDate(cands[i], els).None?) ==> DateFrom(cands, els) == ""
    ensures forall i :: IsFirstDated(cands, els, i) ==> DateFrom(cands, els) == CandidateDate(cands[i], els).value
    decreases |cands|
  {
    if cands != [] {
      DateFromIsFirst(cands[1..], els);
      if CandidateDate(cands[0], els).None? {
        forall i | 1 <= i && IsFirstDated(cands, els, i)
          ensures DateFrom(cands, els) == CandidateDate(cands[i], els).value
        {
          assert cands[1..][i - 1] == cands[i];
          forall j | 0 <= j < i - 1 ensures CandidateDate(cands[1..][j], els).None? {
            assert cands[1..][j] == cands[j + 1];
          }
        }
        if DateFrom(cands, els) != "" {
          var i :| 0 <= i < |cands[1..]| && CandidateDate(cands[1..][i], els) == Some(DateFrom(cands, els));
          assert cands[1..][i] == cands[i + 1];
        }
        if forall i :: 0 <= i < |cands| ==> CandidateDate(cands[i], els).None? {
          forall i | 0 <= i < |cands[1..]| ensures CandidateDate(cands[1..][i], els).None? {
            assert cands[1..][i] == cands[i + 1];
          }
        }
      }
    }
  }

  /** The date: the page's own date, else the `Last-Modified` header, else `""`. */
  function Date(htmlDate: string, meta: Sidecar): (r: string)
    ensures htmlDate != "" ==> r == htmlDate
    ensures htmlDate == "" ==> r == Field(meta.headers, "Last-Modified")
  {
    if htmlDate != "" then htmlDate else Field(meta.headers, "Last-Modified")
  }

  // ---------- main ----------

  /** The row of a page whose best record is `best`. */
  function RowOf(best: Rec, meta: Sidecar, htmlDate: string): (a: Article)
    ensures a.title == Title(best) && a.body == Body(best) && a.url == Url(meta)
    ensures a.source == Source(Url(meta)) && a.language == Language(a.source) && a.date == Date(htmlDate, meta)
  {
    var url := Url(meta);
    var source := Source(url);
    Article(Title(best), Body(best), Language(source), Date(htmlDate, meta), source, url)
  }

  /** A page to extract: its parsed JSONL records, its sidecar and its original HTML (`None` when unreadable). */
  datatype Page = Page(records: seq<Rec>, meta: Sidecar, html: Option<seq<HtmlElement>>)

  function HtmlDate(p: Page): string {
    if p.html.None? then "" else DateFrom(CANDIDATES, p.html.value)
  }

  /** The row a page gives: none without records, else the row of its best record. */
  function RowFor(p: Page): (r: seq<Article>)
    ensures |r| == if p.records == [] then 0 else 1
  {
    match PickBest(p.records)
    case None => []
    case Some(best) => [RowOf(best, p.meta, HtmlDate(p))]
  }

  /** The rows of the pages in order. */
  function Rows(pages: seq<Page>): seq<Article>
  {
    FlatMap(pages, RowFor)
  }

  /** `main` of the extraction: walks the pages in order and collects a row per page with records. */
  method ExtractContent(pages: seq<Page>) returns (rows: seq<Article>)
    ensures rows == Rows(pages)
  {
    rows := [];
    for i := 0 to |pages|
      invariant rows == Rows(pages[..i])
    {
      assert pages[..i + 1][..i] == pages[..i];
      var p := pages[i];
      var best := PickBest(p.records);
      if best.None? {
        continue;
      }
      var htmlDate := FindDateInHtml(p.html);
      rows := rows + [RowOf(best.value, p.meta, htmlDate)];
    }
    assert pages[..|pages|] == pages;
  }

  /** One row per page that has records, in page order. */
  lemma RowsCount(pages: seq<Page>)
    ensures |Rows(pages)| == |Filter(pages, HasRecords)|
  {
    FlatMapCount(pages, RowFor, HasRecords);
  }

  /** Each row's language is one of the three and its source has no `/`. */
  lemma {:induction false} RowsFields(pages: seq<Page>)
    ensures forall a :: a in Rows(pages) ==> (a.language == "Arabic" || a.language == "Russian" || a.language == "English") && '/' !in a.source
    decreases |pages|
  {
    if pages != [] {
      RowsFields(pages[..|pages| - 1]);
    }
  }

  predicate HasRecords(p: Page) {
    p.records != []
  }
}
