/**
 * The query layer of the web application: loading the article CSVs, the
 * language / source / free-text filters, the relative date window, the
 * 24-per-page slice, the facet lists and the grouped counts behind the
 * metrics endpoints.
 */
module Query {
  import opened Wrappers
  import opened Text
  import opened Seqs
  import opened Articles
  import opened Urls

  // ---------- load_articles ----------

  function RowId(r: Row): Row {
    r
  }

  /** The six-column rows of one file, its missing columns filled with `""`. */
  function FileRows(t: Table): seq<Row> {
    RowsOf(t, set c | c in REQUIRED_COLS && c !in t.header)
  }

  /** The frames of the files that could be read, in file order. */
  function Frames(files: seq<Option<Table>>): seq<seq<Row>>
    decreases |files|
  {
    if files == [] then []
    else
      var init := Frames(files[..|files| - 1]);
      match files[|files| - 1]
      case Some(t) => init + [FileRows(t)]
      case None => init
  }

  /** `pd.concat(frames).drop_duplicates()`: every distinct row once, at its first position. */
  function LoadedRows(files: seq<Option<Table>>): seq<Row> {
    DedupBy(Concat(Frames(files)), RowId)
  }

  function AsLoaded(r: Row): Article {
    ToArticle(r, "nan")
  }

  /**
   * `load_articles`: reads every file (`None` is one that failed to read and
   * is skipped), keeps the six columns, adds the missing ones as `""`, drops
   * identical rows and turns the date column into strings, a NaN date into
   * `"nan"`.
   */
  method LoadArticles(files: seq<Option<Table>>) returns (out: seq<Article>)
    ensures out == Map(LoadedRows(files), AsLoaded)
  {
    var frames: seq<seq<Row>> := [];
    for i := 0 to |files|
      invariant frames == Frames(files[..i])
    {
      assert files[..i + 1][..i] == files[..i];
      match files[i]
      case Some(t) =>
        var filled: set<string> := {};
        for k := 0 to |REQUIRED_COLS|
          invariant filled == set c | c in REQUIRED_COLS[..k] && c !in t.header
        {
          assert forall c :: c in REQUIRED_COLS[..k + 1] <==> c in REQUIRED_COLS[..k] || c == REQUIRED_COLS[k];
          if REQUIRED_COLS[k] !in t.header {
            filled := filled + {REQUIRED_COLS[k]};
          }
        }
        assert REQUIRED_COLS[..|REQUIRED_COLS|] == REQUIRED_COLS;
        frames := frames + [RowsOf(t, filled)];
      case None =>
    }
    assert files[..|files|] == files;
    if frames != [] {
      out := Map(DedupBy(Concat(frames), RowId), AsLoaded);
    } else {
      out := [];
    }
  }

  /** The loaded rows are distinct, come from the readable files, and include every row of them. */
  lemma LoadedRowsProps(files: seq<Option<Table>>)
    ensures UniqueBy(LoadedRows(files), RowId)
    ensures IsSubseq(LoadedRows(files), Concat(Frames(files)))
    ensures forall r :: r in LoadedRows(files) <==> r in Concat(Frames(files))
  {
    var all := Concat(Frames(files));
    DedupFromProps(all, RowId, {});
    forall r | r in all ensures r in LoadedRows(files) {
      assert RowId(r) in KeySet(all, RowId);
      var k := FirstIndex(all, RowId, RowId(r));
      assert all[k] == r;
      assert RowId(r) in KeySet(LoadedRows(files), RowId);
    }
    SubseqMembers(LoadedRows(files), all);
  }

  /** No readable file: an empty table. */
  lemma NoFilesNoArticles(files: seq<Option<Table>>)
    requires forall i :: 0 <= i < |files| ==> files[i].None?
    ensures LoadedRows(files) == []
  {
    assert Frames(files) == [] by {
      FramesOfUnreadable(files);
    }
  }

  lemma {:induction false} FramesOfUnreadable(files: seq<Option<Table>>)
    requires forall i :: 0 <= i < |files| ==> files[i].None?
    ensures Frames(files) == []
    decreases |files|
  {
    if files != [] {
      FramesOfUnreadable(files[..|files| - 1]);
    }
  }

  /** A loaded date is `"nan"` exactly where the file held no date, and `""` where it had no date column. */
  lemma LoadedDate(t: Table, line: map<string, string>)
    ensures AsLoaded(RowOf(t, line, set c | c in REQUIRED_COLS && c !in t.header)).date ==
      if "date" !in t.header then "" else if "date" in line && line["date"] !in NA_VALUES then line["date"] else "nan"
  {
    var filled := set c | c in REQUIRED_COLS && c !in t.header;
    assert REQUIRED_COLS[3] == "date";
    assert "date" in filled <==> "date" !in t.header;
    var r := RowOf(t, line, filled);
    assert r.date == (if "date" in filled then Some("") else ReadCell(t, line, "date"));
  }

  // ---------- filter_df ----------

  /** A parameter that constrains: present and not `All` in any case. */
  predicate Wanted(param: string) {
    param != "" && Lower(param) != "all"
  }

  predicate LanguageOk(a: Article, language: string) {
    !Wanted(language) || Lower(a.language) == Lower(language)
  }

  predicate SourceOk(a: Article, source: string) {
    !Wanted(source) || Contains(Lower(a.source), Lower(source))
  }

  predicate TextOk(a: Article, q: string) {
    q == "" || Contains(Lower(a.title), Lower(q)) || Contains(Lower(a.body), Lower(q))
  }

  predicate Matches(a: Article, q: string, language: string, source: string) {
    LanguageOk(a, language) && SourceOk(a, source) && TextOk(a, q)
  }

  function LanguageMask(language: string): Article -> bool {
    a => LanguageOk(a, language)
  }

  function SourceMask(source: string): Article -> bool {
    a => SourceOk(a, source)
  }

  function TextMask(q: string): Article -> bool {
    a => TextOk(a, q)
  }

  function MatchMask(q: string, language: string, source: string): Article -> bool {
    a => Matches(a, q, language, source)
  }

  /**
   * `filter_df(df, q, language, source)`, an empty string standing for a
   * missing parameter. Each filter is applied only when its parameter is set.
   */
  function FilterDf(df: seq<Article>, q: string, language: string, source: string): (r: seq<Article>)
    ensures df == [] ==> r == df
    ensures forall a :: a in r <==> a in df && Matches(a, q, language, source)
  {
    if df == [] then df
    else
      var byLanguage := if Wanted(language) then Filter(df, LanguageMask(language)) else df;
      var bySource := if Wanted(source) then Filter(byLanguage, SourceMask(source)) else byLanguage;
      if q != "" then Filter(bySource, TextMask(q)) else bySource
  }

  /** The three filters together are one mask: order and repetitions of the kept rows are those of `df`. */
  lemma FilterDfIsOneMask(df: seq<Article>, q: string, language: string, source: string)
    ensures FilterDf(df, q, language, source) == Filter(df, MatchMask(q, language, source))
    ensures IsSubseq(FilterDf(df, q, language, source), df)
  {
    if df != [] {
      var byLanguage := if Wanted(language) then Filter(df, LanguageMask(language)) else df;
      if !Wanted(language) {
        FilterAll(df, LanguageMask(language));
      }
      assert byLanguage == Filter(df, LanguageMask(language));
      var bySource := if Wanted(source) then Filter(byLanguage, SourceMask(source)) else byLanguage;
      if !Wanted(source) {
        FilterAll(byLanguage, SourceMask(source));
      }
      assert bySource == Filter(byLanguage, SourceMask(source));
      var both: Article -> bool := a => LanguageOk(a, language) && SourceOk(a, source);
      FilterFilter(df, LanguageMask(language), SourceMask(source), both);
      if q == "" {
        FilterAll(bySource, TextMask(q));
      }
      FilterFilter(df, both, TextMask(q), MatchMask(q, language, source));
    }
    FilterIsSubseq(df, MatchMask(q, language, source));
  }

  /** `All` in any case and a missing parameter are the same: no constraint. */
  lemma AllMeansNoFilter(df: seq<Article>, q: string, language: string, source: string)
    requires Lower(language) == "all" || language == ""
    requires Lower(source) == "all" || source == ""
    ensures FilterDf(df, q, language, source) == Filter(df, TextMask(q))
  {
    FilterDfIsOneMask(df, q, language, source);
    FilterExt(df, MatchMask(q, language, source), TextMask(q));
  }

  // ---------- apply_date_filter ----------

  /** One day, in microseconds. */
  const DAY: int := 86_400_000_000

  /** The largest day count a `timedelta` holds. */
  const MAX_DAYS: int := 999_999_999

  /** `datetime.min` (1 January of year 1, UTC), in microseconds since the epoch. */
  const MIN_INSTANT: int := -62_135_596_800_000_000

  /** The `<digits>d` form of a date key, with its day count. */
  function DaysKey(dateKey: string): (r: Option<nat>)
    ensures r.Some? <==> EndsWith(dateKey, "d") && IsDigits(dateKey[..|dateKey| - 1])
  {
    if EndsWith(dateKey, "d") && IsDigits(dateKey[..|dateKey| - 1]) then Some(DigitsValue(dateKey[..|dateKey| - 1]))
    else None
  }

  /**
   * The start of the window a date key selects, or `None` when the filter
   * returns the frame unchanged: an empty or unrecognised key, or a day count
   * that overflows `timedelta` or `datetime` (the OverflowError is caught).
   */
  function WindowStart(dateKey: string, now: int): (r: Option<int>)
    requires now >= MIN_INSTANT
    ensures dateKey == "" ==> r.None?
    ensures dateKey == "today" ==> r.Some? && r.value % DAY == 0 && r.value <= now < r.value + DAY
    ensures dateKey != "today" && DaysKey(dateKey).Some? ==>
      var n := DaysKey(dateKey).value;
      r == if n <= MAX_DAYS && now - n * DAY >= MIN_INSTANT then Some(now - n * DAY) else None
    ensures dateKey != "today" && DaysKey(dateKey).None? ==> r.None?
    ensures r.Some? ==> MIN_INSTANT <= r.value <= now
  {
    if dateKey == "" then None
    else if dateKey == "today" then Some(now - now % DAY)
    else match DaysKey(dateKey)
      case Some(n) =>
        if n > MAX_DAYS then None
        else if now - n * DAY < MIN_INSTANT then None
        else Some(now - n * DAY)
      case None => None
  }

  /** `_ok(d)`: a non-blank date that parses to an instant at or after `start`. */
  predicate Recent(a: Article, start: int, parse: string -> Option<int>) {
    var s := Strip(a.date);
    s != "" && parse(s).Some? && parse(s).value >= start
  }

  function RecentMask(start: int, parse: string -> Option<int>): Article -> bool {
    a => Recent(a, start, parse)
  }

  /**
   * `apply_date_filter(df, date_key)` with the clock reading `now` and the
   * date parser `parse` (microseconds since the epoch, UTC).
   */
  function ApplyDateFilter(df: seq<Article>, dateKey: string, now: int, parse: string -> Option<int>): (r: seq<Article>)
    requires now >= MIN_INSTANT
    ensures df == [] || WindowStart(dateKey, now).None? ==> r == df
    ensures WindowStart(dateKey, now).Some? ==>
      forall a :: a in r <==> a in df && Recent(a, WindowStart(dateKey, now).value, parse)
  {
    if df == [] then df
    else match WindowStart(dateKey, now)
      case None => df
      case Some(start) => Filter(df, RecentMask(start, parse))
  }

  /** The date filter keeps rows in order: its result is a subsequence of the frame. */
  lemma DateFilterIsSubseq(df: seq<Article>, dateKey: string, now: int, parse: string -> Option<int>)
    requires now >= MIN_INSTANT
    ensures IsSubseq(ApplyDateFilter(df, dateKey, now, parse), df)
  {
    if df != [] && WindowStart(dateKey, now).Some? {
      FilterIsSubseq(df, RecentMask(WindowStart(dateKey, now).value, parse));
    } else {
      SubseqRefl(df);
    }
  }

  /**
   * Every `<n>d` key, `n` written in decimal, starts its window `n` days
   * before now, unless that is more than `MAX_DAYS` or before `datetime.min`.
   */
  lemma DaysKeyWindow(n: nat, now: int)
    requires now >= MIN_INSTANT
    ensures WindowStart(Decimal(n) + "d", now) ==
      if n <= MAX_DAYS && now - n * DAY >= MIN_INSTANT then Some(now - n * DAY) else None
  {
    var k := Decimal(n) + "d";
    assert k[|k| - 1] == 'd' && "today"[4] == 'y';
    assert k[|k| - 1..] == "d";
    assert k[..|k| - 1] == Decimal(n);
    DecimalRoundTrip(n);
  }

  /** `7d` keeps what parsed to the last seven days, `d` alone changes nothing. */
  lemma DateKeyExamples(df: seq<Article>, now: int, parse: string -> Option<int>)
    requires now >= MIN_INSTANT + 7 * DAY
    ensures WindowStart("7d", now) == Some(now - 7 * DAY)
    ensures ApplyDateFilter(df, "d", now, parse) == df
    ensures ApplyDateFilter(df, "week", now, parse) == df
  {
    assert "7d"[..1] == "7";
    assert DigitsValue("7") == 7 by {
      assert "7"[..0] == "";
    }
    assert !IsDigits("d"[..0]);
    assert !EndsWith("week", "d");
  }

  // ---------- pagination ----------

  const PER_PAGE: int := 24

  /** A Python slice bound resolved against a length `n`. */
  function SliceIndex(i: int, n: nat): (k: nat)
    ensures k <= n
    ensures 0 <= i <= n ==> k == i
  {
    if i < 0 then (if i + n < 0 then 0 else i + n) else if i > n then n else i
  }

  /** `s[lo:hi]` with Python's rules for negative and out-of-range bounds. */
  function PySlice<T>(s: seq<T>, lo: int, hi: int): (r: seq<T>)
    ensures |r| <= |s|
  {
    var a, b := SliceIndex(lo, |s|), SliceIndex(hi, |s|);
    if a < b then s[a..b] else []
  }

  /** `urlparse(url).netloc or source`, the source also when `urlparse` raises. */
  function Host(a: Article): string {
    match Netloc(a.url)
    case Some(h) => if h != "" then h else a.source
    case None => a.source
  }

  /** An article on a page, with the host shown for its favicon. */
  datatype Item = Item(article: Article, host: string)

  function ItemArticle(it: Item): Article {
    it.article
  }

  /** Rows `(page-1)*24` up to `page*24` of `filtered`, as a Python slice. */
  function PageSlice(filtered: seq<Article>, page: int): seq<Article> {
    PySlice(filtered, PageStart(page), PageStart(page) + PER_PAGE)
  }

  /** `(page - 1) * per_page`. */
  function PageStart(page: int): int {
    (page - 1) * PER_PAGE
  }

  /**
   * The pagination of the `articles` route: the page's slice of the filtered
   * frame (a page below 1 counts from the end, as Python slices do), each row
   * given its host; and the unpaginated total.
   */
  method Paginate(filtered: seq<Article>, page: int) returns (items: seq<Item>, total: nat)
    ensures total == |filtered|
    ensures Map(items, ItemArticle) == PageSlice(filtered, page)
    ensures forall k :: 0 <= k < |items| ==> items[k].host == Host(items[k].article)
  {
    total := |filtered|;
    items := WithHosts(PageSlice(filtered, page), Host);
  }

  /** The loop of the `articles` route that gives each row of a page its host, computed by `host`. */
  method WithHosts(rows: seq<Article>, host: Article -> string) returns (items: seq<Item>)
    ensures Map(items, ItemArticle) == rows
    ensures forall k :: 0 <= k < |items| ==> items[k].host == host(items[k].article)
  {
    items := [];
    for i := 0 to |rows|
      invariant |items| == i
      invariant forall k :: 0 <= k < i ==> items[k] == Item(rows[k], host(rows[k]))
    {
      items := items + [Item(rows[i], host(rows[i]))];
    }
    assert forall k :: 0 <= k < |items| ==> ItemArticle(items[k]) == rows[k];
  }

  /** A page holds at most 24 rows; from page 1 on they are the rows at `(page-1)*24 + k`. */
  lemma PageContents(filtered: seq<Article>, page: int)
    ensures |PageSlice(filtered, page)| <= PER_PAGE
    ensures page >= 1 ==>
      var lo := (page - 1) * PER_PAGE;
      var p := PageSlice(filtered, page);
      |p| == (if lo >= |filtered| then 0 else if lo + PER_PAGE <= |filtered| then PER_PAGE else |filtered| - lo)
      && forall k :: 0 <= k < |p| ==> p[k] == filtered[lo + k]
  {
  }

  /** The favicon host of an article with an absolute URL is the URL's host. */
  lemma HostOfAbsoluteUrl(a: Article, scheme: string, host: string, path: string)
    requires a.url == scheme + "://" + host + path && host != ""
    requires scheme != [] && IsAsciiAlpha(scheme[0])
    requires forall j :: 0 <= j < |scheme| ==> IsSchemeChar(scheme[j])
    requires forall j :: 0 <= j < |host| ==> !IsNetlocEnd(host[j]) && !IsUnsafe(host[j]) && host[j] != '[' && host[j] != ']'
    requires path == [] || IsNetlocEnd(path[0])
    requires forall j :: 0 <= j < |path| ==> !IsUnsafe(path[j])
    ensures Host(a) == host
  {
    NetlocOfAbsolute(scheme, host, path);
  }

  // ---------- facets ----------

  function StrId(s: string): string {
    s
  }

  predicate NonEmpty(s: string) {
    s != ""
  }

  /** `["All"] + sorted(v for v in values.unique() if v)`. */
  function Facets(values: seq<string>): seq<string> {
    ["All"] + Sort(Filter(DedupBy(values, StrId), NonEmpty), LexLe)
  }

  lemma LexLeIsPreorder()
    ensures TotalPreorder(LexLe)
  {
    forall a: string, b: string ensures LexLe(a, b) || LexLe(b, a) {
      LexLeTotal(a, b);
    }
    forall a: string, b: string, c: string | LexLe(a, b) && LexLe(b, c) ensures LexLe(a, c) {
      LexLeTrans(a, b, c);
    }
  }

  /**
   * A facet list is `All` followed by each distinct non-empty value exactly
   * once, in increasing string order.
   */
  lemma FacetsProps(values: seq<string>)
    ensures Facets(values)[0] == "All"
    ensures forall x :: x in Facets(values)[1..] <==> x in values && x != ""
    ensures forall i, j :: 1 <= i < j < |Facets(values)| ==> LexLe(Facets(values)[i], Facets(values)[j]) && Facets(values)[i] != Facets(values)[j]
  {
    var d := DedupBy(values, StrId);
    DedupFromProps(values, StrId, {});
    SubseqMembers(d, values);
    var f := Filter(d, NonEmpty);
    var s := Sort(f, LexLe);
    assert Facets(values)[1..] == s;
    LexLeIsPreorder();
    SortSorted(f, LexLe);
    FilterIsSubseq(d, NonEmpty);
    SubseqUnique(f, d, StrId);
    SortUnique(f, LexLe, StrId);
    forall x | x in values && x != "" ensures x in d {
      assert StrId(x) in KeySet(values, StrId);
      assert StrId(x) in KeySet(d, StrId);
    }
    assert forall x :: x in s <==> x in multiset(s);
    assert forall x :: x in f <==> x in multiset(f);
    forall i, j | 1 <= i < j < |Facets(values)| ensures Facets(values)[i] != Facets(values)[j] {
      assert StrId(s[i - 1]) != StrId(s[j - 1]);
    }
  }

  // ---------- metrics ----------

  /** `value_counts()` orders its pairs by count, largest first. */
  predicate MoreFrequent<T>(a: (T, nat), b: (T, nat)) {
    a.1 >= b.1
  }

  lemma MoreFrequentIsPreorder<T(!new)>()
    ensures TotalPreorder(MoreFrequent<T>)
  {
  }

  /** `value_counts()`: each distinct value with its number of occurrences, most frequent first. */
  function ValueCounts(xs: seq<string>): seq<(string, nat)> {
    Sort(Tally(xs), MoreFrequent)
  }

  /**
   * `value_counts()` lists every value once, with how often it occurs, most
   * frequent first; the counts add up to the number of values.
   */
  lemma ValueCountsProps(xs: seq<string>)
    ensures UniqueBy(ValueCounts(xs), Label)
    ensures forall x :: x in KeySet(ValueCounts(xs), Label) <==> x in xs
    ensures forall p :: p in ValueCounts(xs) ==> p.1 == multiset(xs)[p.0] && p.1 > 0
    ensures SortedBy(ValueCounts(xs), MoreFrequent)
    ensures Sum(ValueCounts(xs)) == |xs|
  {
    var t := Tally(xs);
    TallyProps(xs);
    SortUnique(t, MoreFrequent, Label);
    MoreFrequentIsPreorder<string>();
    SortSorted(t, MoreFrequent);
    SortSum(t, MoreFrequent);
    var v := ValueCounts(xs);
    assert forall p :: p in v <==> p in multiset(v);
    assert forall p :: p in t <==> p in multiset(t);
    forall x ensures x in KeySet(v, Label) <==> x in KeySet(t, Label) {
      if x in KeySet(v, Label) {
        var p :| p in v && Label(p) == x;
        assert p in t;
      }
      if x in KeySet(t, Label) {
        var p :| p in t && Label(p) == x;
        assert p in v;
      }
    }
  }

  /** `""` is reported as `Unknown`. */
  function Labelled(s: string): (r: string)
    ensures r != ""
    ensures s != "" ==> r == s
  {
    if s == "" then "Unknown" else s
  }

  function LanguageLabel(a: Article): string {
    Labelled(a.language)
  }

  function SourceLabel(a: Article): string {
    Labelled(a.source)
  }

  /** `api_metrics_languages`: language counts over the date-filtered frame. */
  function LanguageMetrics(df: seq<Article>): seq<(string, nat)> {
    if df == [] then [] else ValueCounts(Map(df, LanguageLabel))
  }

  /** `api_metrics_sources`: the `max(1, top)` most frequent sources. */
  function SourceMetrics(df: seq<Article>, top: int): seq<(string, nat)> {
    if df == [] then [] else Take(ValueCounts(Map(df, SourceLabel)), if top < 1 then 1 else top)
  }

  lemma LanguageMetricsProps(df: seq<Article>)
    ensures Sum(LanguageMetrics(df)) == |df|
    ensures SortedBy(LanguageMetrics(df), MoreFrequent)
    ensures forall p :: p in LanguageMetrics(df) ==> p.0 != "" && p.1 == multiset(Map(df, LanguageLabel))[p.0]
    ensures forall a :: a in df ==> LanguageLabel(a) in KeySet(LanguageMetrics(df), Label)
  {
    if df != [] {
      var xs := Map(df, LanguageLabel);
      ValueCountsProps(xs);
      forall p | p in LanguageMetrics(df) ensures p.0 != "" {
        assert p.0 in KeySet(LanguageMetrics(df), Label);
        var i :| 0 <= i < |xs| && xs[i] == p.0;
      }
      forall a | a in df ensures LanguageLabel(a) in xs {
        var i :| 0 <= i < |df| && df[i] == a;
        assert xs[i] == LanguageLabel(a);
      }
    }
  }

  lemma SourceMetricsProps(df: seq<Article>, top: int)
    ensures |SourceMetrics(df, top)| <= if top < 1 then 1 else top
    ensures df != [] ==> SourceMetrics(df, top) == ValueCounts(Map(df, SourceLabel))[..|SourceMetrics(df, top)|]
    ensures df != [] ==> Sum(ValueCounts(Map(df, SourceLabel))) == |df|
    ensures SortedBy(SourceMetrics(df, top), MoreFrequent)
    ensures forall p :: p in SourceMetrics(df, top) ==> p.0 != "" && p.1 == multiset(Map(df, SourceLabel))[p.0]
  {
    if df != [] {
      var xs := Map(df, SourceLabel);
      ValueCountsProps(xs);
      TopCounts(xs, if top < 1 then 1 else top);
      forall p | p in SourceMetrics(df, top) ensures p.0 != "" {
        var k :| 0 <= k < |xs| && xs[k] == p.0;
      }
    }
  }

  /** The first `n` value counts: sorted, and each the count of a value that occurs. */
  lemma TopCounts(xs: seq<string>, n: nat)
    ensures SortedBy(Take(ValueCounts(xs), n), MoreFrequent)
    ensures forall p :: p in Take(ValueCounts(xs), n) ==> p.0 in xs && p.1 == multiset(xs)[p.0]
  {
    var v := ValueCounts(xs);
    var r := Take(v, n);
    ValueCountsProps(xs);
    forall p | p in r ensures p in v && p.0 in KeySet(v, Label) {
      var i :| 0 <= i < |r| && r[i] == p;
      assert v[i] == p;
    }
  }

  // ---------- the volume metric ----------

  /** The calendar day (UTC) of an instant: days since the epoch, rounded down. */
  function DayOf(t: int): int {
    t / DAY
  }

  /** `_as_date` over a column, its NaT values dropped as `value_counts` drops them. */
  function Days(dates: seq<string>, parse: string -> Option<int>): (r: seq<int>)
    ensures |r| <= |dates|
    decreases |dates|
  {
    if dates == [] then []
    else
      var init := Days(dates[..|dates| - 1], parse);
      match parse(dates[|dates| - 1])
      case Some(t) => init + [DayOf(t)]
      case None => init
  }

  predicate EarlierDay(a: (int, nat), b: (int, nat)) {
    a.0 <= b.0
  }

  function Date(a: Article): string {
    a.date
  }

  /** `api_metrics_volume`: articles per calendar day, earliest day first. */
  function Volume(df: seq<Article>, parse: string -> Option<int>): seq<(int, nat)> {
    if df == [] then [] else Sort(Tally(Days(Map(df, Date), parse)), EarlierDay)
  }

  lemma {:induction false} DaysMembers(dates: seq<string>, parse: string -> Option<int>)
    ensures forall d :: d in Days(dates, parse) <==> exists i :: 0 <= i < |dates| && parse(dates[i]).Some? && DayOf(parse(dates[i]).value) == d
    decreases |dates|
  {
    if dates != [] {
      var init := dates[..|dates| - 1];
      DaysMembers(init, parse);
      forall d ensures d in Days(dates, parse) <==> exists i :: 0 <= i < |dates| && parse(dates[i]).Some? && DayOf(parse(dates[i]).value) == d {
        if d in Days(init, parse) {
          var i :| 0 <= i < |init| && parse(init[i]).Some? && DayOf(parse(init[i]).value) == d;
          assert dates[i] == init[i];
        }
        if exists i :: 0 <= i < |dates| && parse(dates[i]).Some? && DayOf(parse(dates[i]).value) == d {
          var i :| 0 <= i < |dates| && parse(dates[i]).Some? && DayOf(parse(dates[i]).value) == d;
          if i < |init| {
            assert init[i] == dates[i];
          }
        }
      }
    }
  }

  /** The volume series lists each day once, in strictly increasing order. */
  lemma VolumeAscending(df: seq<Article>, parse: string -> Option<int>)
    ensures forall i, j :: 0 <= i < j < |Volume(df, parse)| ==> Volume(df, parse)[i].0 < Volume(df, parse)[j].0
  {
    if df != [] {
      var t := Tally(Days(Map(df, Date), parse));
      var v := Volume(df, parse);
      TallyProps(Days(Map(df, Date), parse));
      SortUnique(t, EarlierDay, Label);
      assert TotalPreorder(EarlierDay);
      SortSorted(t, EarlierDay);
      forall i, j | 0 <= i < j < |v| ensures v[i].0 < v[j].0 {
        assert EarlierDay(v[i], v[j]) && Label(v[i]) != Label(v[j]);
      }
    }
  }

  /**
   * Each count is the number of dates that parse to that day, and the counts
   * add up to the number of parsable dates.
   */
  lemma VolumeCounts(df: seq<Article>, parse: string -> Option<int>)
    ensures forall p :: p in Volume(df, parse) ==> p.1 == multiset(Days(Map(df, Date), parse))[p.0] && p.1 > 0
    ensures Sum(Volume(df, parse)) == |Days(Map(df, Date), parse)|
  {
    if df != [] {
      var t := Tally(Days(Map(df, Date), parse));
      TallyProps(Days(Map(df, Date), parse));
      SortMembers(t, EarlierDay, Label);
      SortSum(t, EarlierDay);
    }
  }

  /** The days listed are exactly the days some date parses to; unparsable dates add no day. */
  lemma VolumeDays(df: seq<Article>, parse: string -> Option<int>)
    ensures forall d :: d in KeySet(Volume(df, parse), Label) <==>
      exists a :: a in df && parse(a.date).Some? && DayOf(parse(a.date).value) == d
  {
    if df != [] {
      var dates := Map(df, Date);
      var days := Days(dates, parse);
      var t := Tally(days);
      TallyProps(days);
      SortMembers(t, EarlierDay, Label);
      DaysMembers(dates, parse);
      forall d ensures d in days <==> exists a :: a in df && parse(a.date).Some? && DayOf(parse(a.date).value) == d {
        if d in days {
          var i :| 0 <= i < |dates| && parse(dates[i]).Some? && DayOf(parse(dates[i]).value) == d;
          assert df[i] in df && df[i].date == dates[i];
        }
        if exists a :: a in df && parse(a.date).Some? && DayOf(parse(a.date).value) == d {
          var a :| a in df && parse(a.date).Some? && DayOf(parse(a.date).value) == d;
          var i :| 0 <= i < |df| && df[i] == a;
          assert dates[i] == a.date;
        }
      }
    }
  }
}
