/**
 * The final merge of the publish pipeline: the RSS table and then the HTML
 * table are concatenated, columns no table has are added as `""`, rows are
 * deduplicated on `url` keeping the first, and the result is sorted by date,
 * newest first.
 */
module Publish {
  import opened Wrappers
  import opened Text
  import opened Seqs
  import opened Articles

  /** One input CSV: not there, there but unreadable, or read. */
  datatype Input = Absent | Unreadable | Read(table: Table)

  /** The columns kept in the merged file. */
  const KEEP_COLS: seq<string> := REQUIRED_COLS

  /** The kept columns that no table has; they are added holding `""`. */
  function Missing(frames: seq<Table>): set<string> {
    set c | c in KEEP_COLS && forall k :: 0 <= k < |frames| ==> c !in frames[k].header
  }

  /** Projects a frame onto the kept columns, `filled` being the ones added as `""`. */
  function Projection(filled: set<string>): Table -> seq<Row> {
    t => RowsOf(t, filled)
  }

  /** The rows of every frame, in order, over the columns of all frames together. */
  function Concatenated(frames: seq<Table>): seq<Row> {
    Concat(Map(frames, Projection(Missing(frames))))
  }

  function Lines(t: Table): seq<map<string, string>> {
    t.rows
  }

  function Url(r: Row): Cell {
    r.url
  }

  /** The merged frame: deduplicated on `url`, then sorted by date, newest first, NaN last. */
  function Merged(frames: seq<Table>): seq<Row> {
    Sort(DedupBy(Concatenated(frames), Url), RowNewerFirst)
  }

  /** A row as `to_csv` writes it: NaN as an empty field. */
  function Written(r: Row): Article {
    ToArticle(r, "")
  }

  /** The total number of rows read. */
  function RowCount(frames: seq<Table>): nat {
    TotalLength(Map(frames, Lines))
  }

  /** The tables that could be read, the RSS one first. */
  function ReadFrames(rss: Input, html: Input): (frames: seq<Table>)
    ensures frames == [] <==> !rss.Read? && !html.Read?
    ensures rss.Read? ==> frames[0] == rss.table
    ensures html.Read? ==> frames[|frames| - 1] == html.table
    ensures |frames| == (if rss.Read? then 1 else 0) + (if html.Read? then 1 else 0)
  {
    (if rss.Read? then [rss.table] else []) + (if html.Read? then [html.table] else [])
  }

  /** The loop that adds the missing columns: it adds exactly the kept columns no frame has. */
  method MissingColumns(frames: seq<Table>) returns (filled: set<string>)
    ensures filled == Missing(frames)
  {
    filled := {};
    for k := 0 to |KEEP_COLS|
      invariant filled == set c | c in KEEP_COLS[..k] && forall f :: 0 <= f < |frames| ==> c !in frames[f].header
    {
      assert forall c :: c in KEEP_COLS[..k + 1] <==> c in KEEP_COLS[..k] || c == KEEP_COLS[k];
      if forall f :: 0 <= f < |frames| ==> KEEP_COLS[k] !in frames[f].header {
        filled := filled + {KEEP_COLS[k]};
      }
    }
    assert KEEP_COLS[..|KEEP_COLS|] == KEEP_COLS;
  }

  /**
   * The final-merge block. `None` is "nothing written" (no table could be
   * read); otherwise the rows of the merged file and the number of rows read.
   */
  method FinalMerge(rss: Input, html: Input) returns (out: Option<seq<Article>>, read: nat)
    ensures out.None? <==> ReadFrames(rss, html) == []
    ensures out.Some? ==> out.value == Map(Merged(ReadFrames(rss, html)), Written) && read == RowCount(ReadFrames(rss, html))
  {
    var frames: seq<Table> := [];
    if rss.Read? {
      frames := frames + [rss.table];
    }
    if html.Read? {
      frames := frames + [html.table];
    }
    assert frames == ReadFrames(rss, html);
    read := 0;
    if frames == [] {
      out := None;
      return;
    }
    var filled := MissingColumns(frames);
    var df := Concat(Map(frames, Projection(filled)));
    df := DedupBy(df, Url);
    df := Sort(df, RowNewerFirst);
    out := Some(Map(df, Written));
    read := RowCount(frames);
  }

  /**
   * Every url of the input appears once in the merge, on the row where it
   * first occurs (RSS rows before HTML rows); the merge is sorted newest first
   * and is the URL-deduplicated input reordered, so it has at most as many
   * rows as were read.
   */
  lemma MergedProps(frames: seq<Table>)
    ensures UniqueBy(Merged(frames), Url)
    ensures KeySet(Merged(frames), Url) == KeySet(Concatenated(frames), Url)
    ensures forall r :: r in Merged(frames) ==> Url(r) in KeySet(Concatenated(frames), Url)
    ensures forall r :: r in Merged(frames) ==> r == Concatenated(frames)[FirstIndex(Concatenated(frames), Url, Url(r))]
    ensures SortedBy(Merged(frames), RowNewerFirst)
    ensures multiset(Merged(frames)) == multiset(DedupBy(Concatenated(frames), Url))
    ensures |Merged(frames)| <= RowCount(frames)
  {
    var all := Concatenated(frames);
    var d := DedupBy(all, Url);
    DedupFromProps(all, Url, {});
    SortUnique(d, RowNewerFirst, Url);
    SortMembers(d, RowNewerFirst, Url);
    RowNewerFirstIsPreorder();
    SortSorted(d, RowNewerFirst);
    SubseqLength(d, all);
    ConcatLength(frames);
  }

  lemma ConcatLength(frames: seq<Table>)
    ensures |Concatenated(frames)| == RowCount(frames)
  {
    var rows := Map(frames, Projection(Missing(frames)));
    ConcatProps(rows);
    TotalLengthSame(rows, Map(frames, Lines));
  }

  lemma {:induction false} TotalLengthSame<T, U>(a: seq<seq<T>>, b: seq<seq<U>>)
    requires |a| == |b| && forall i :: 0 <= i < |a| ==> |a[i]| == |b[i]|
    ensures TotalLength(a) == TotalLength(b)
    decreases |a|
  {
    if a != [] {
      TotalLengthSame(a[..|a| - 1], b[..|b| - 1]);
    }
  }

  /** `(Concatenated(frames))` holds the rows of frame `k`, projected, at its place. */
  lemma {:induction false} RowFromFrame(frames: seq<Table>, r: Row)
    requires r in Concatenated(frames)
    ensures exists k, i :: 0 <= k < |frames| && 0 <= i < |frames[k].rows| && r == RowOf(frames[k], frames[k].rows[i], Missing(frames))
  {
    var rows := Map(frames, Projection(Missing(frames)));
    ConcatProps(rows);
    var k :| 0 <= k < |rows| && r in rows[k];
    var i :| 0 <= i < |rows[k]| && rows[k][i] == r;
  }

  /**
   * A column no table has holds `""` in every row; another column holds what
   * the row's own table has there, NaN if that table lacks the column.
   */
  lemma MissingColumnsFilled(frames: seq<Table>, r: Row, c: string)
    requires r in Concatenated(frames) && c in KEEP_COLS
    ensures c in Missing(frames) ==> Get(r, c) == Some("")
    ensures c !in Missing(frames) ==> exists k, i :: 0 <= k < |frames| && 0 <= i < |frames[k].rows| && Get(r, c) == ReadCell(frames[k], frames[k].rows[i], c)
  {
    RowFromFrame(frames, r);
  }

  /**
   * The written file has no two rows with the same url either: an empty url
   * comes either from a column no table has (then every url is empty and all
   * but one row are gone) or from NaN, never from both.
   */
  lemma WrittenUrlsUnique(frames: seq<Table>)
    ensures UniqueBy(Map(Merged(frames), Written), (a: Article) => a.url)
  {
    var m := Merged(frames);
    MergedProps(frames);
    var w := Map(m, Written);
    forall i, j | 0 <= i < j < |w| ensures w[i].url != w[j].url {
      assert m[i] in m && m[j] in m;
      assert Url(m[i]) != Url(m[j]);
      UrlCell(frames, m[i]);
      UrlCell(frames, m[j]);
    }
  }

  lemma UrlCell(frames: seq<Table>, r: Row)
    requires r in Merged(frames)
    ensures "url" in Missing(frames) ==> r.url == Some("")
    ensures "url" !in Missing(frames) ==> r.url.None? || r.url.value != ""
  {
    var all := Concatenated(frames);
    DedupFromProps(all, Url, {});
    var d := DedupBy(all, Url);
    SortMembers(d, RowNewerFirst, Url);
    SubseqMembers(d, all);
    assert KEEP_COLS[5] == "url";
    MissingColumnsFilled(frames, r, "url");
  }

  /** The written dates are in descending string order: a NaN date is written as `""`, the smallest string. */
  lemma WrittenNewestFirst(frames: seq<Table>)
    ensures SortedBy(Map(Merged(frames), Written), NewerFirst)
  {
    var m := Merged(frames);
    MergedProps(frames);
    var w := Map(m, Written);
    forall i, j | 0 <= i < j < |w| ensures NewerFirst(w[i], w[j]) {
      assert RowNewerFirst(m[i], m[j]);
    }
  }
}
