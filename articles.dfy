/**
 * The article record every stage of the pipeline reads and writes, and the
 * way a CSV table of articles is seen through pandas: cells that are missing
 * or spelled like a missing value become NaN, and columns a file lacks are
 * added as empty strings.
 */
module Articles {
  import opened Wrappers
  import opened Text
  import opened Seqs

  /** One row of an articles CSV, in the column order `title, body, language, date, source, url`. */
  datatype Article = Article(title: string, body: string, language: string, date: string, source: string, url: string)

  /** The six article columns, in the order every CSV of the pipeline uses. */
  const REQUIRED_COLS: seq<string> := ["title", "body", "language", "date", "source", "url"]

  /** The value of an article in the column named `c` (`""` for a name that is not one of the six). */
  function Column(a: Article, c: string): string {
    match c
    case "title" => a.title
    case "body" => a.body
    case "language" => a.language
    case "date" => a.date
    case "source" => a.source
    case "url" => a.url
    case _ => ""
  }

  /** The cells of an article in REQUIRED_COLS order, as a CSV writer emits them: each under its own column name. */
  function Fields(a: Article): (r: seq<string>)
    ensures |r| == |REQUIRED_COLS|
    ensures forall i :: 0 <= i < |REQUIRED_COLS| ==> r[i] == Column(a, REQUIRED_COLS[i])
  {
    [a.title, a.body, a.language, a.date, a.source, a.url]
  }

  /** A CSV file as read: its header and, per line, the cells by column name. */
  datatype Table = Table(header: seq<string>, rows: seq<map<string, string>>)

  /** The strings `read_csv` reads as NaN by default (an empty field among them). */
  const NA_VALUES: set<string> := {
    "", "#N/A", "#N/A N/A", "#NA", "-1.#IND", "-1.#QNAN", "-NaN", "-nan", "1.#IND",
    "1.#QNAN", "<NA>", "N/A", "NA", "NULL", "NaN", "None", "n/a", "nan", "null" }

  /** A data-frame cell: `None` is NaN. */
  type Cell = Option<string>

  /** The cell a line of `t` holds in column `c`, every column read as text: NaN when the column or the field is missing or reads as NaN. */
  function ReadCell(t: Table, line: map<string, string>, c: string): (v: Cell)
    ensures v.Some? <==> c in t.header && c in line && line[c] !in NA_VALUES
    ensures v.Some? ==> v.value == line[c] && v.value != ""
  {
    if c in t.header && c in line && line[c] !in NA_VALUES then Some(line[c]) else None
  }

  /** A row of a data frame restricted to the six article columns. */
  datatype Row = Row(title: Cell, body: Cell, language: Cell, date: Cell, source: Cell, url: Cell)

  /** The cell of a row in column `c` (NaN for a column that is not one of the six). */
  function Get(r: Row, c: string): Cell {
    if c == "title" then r.title
    else if c == "body" then r.body
    else if c == "language" then r.language
    else if c == "date" then r.date
    else if c == "source" then r.source
    else if c == "url" then r.url
    else None
  }

  /**
   * The six-column row for one line of `t`. The columns in `filled` were
   * added with `df[c] = ""` and hold the empty string; the others come from
   * the file.
   */
  function RowOf(t: Table, line: map<string, string>, filled: set<string>): (r: Row)
    ensures forall c :: c in REQUIRED_COLS ==> Get(r, c) == FilledCell(t, line, filled, c)
  {
    Row(FilledCell(t, line, filled, "title"), FilledCell(t, line, filled, "body"),
        FilledCell(t, line, filled, "language"), FilledCell(t, line, filled, "date"),
        FilledCell(t, line, filled, "source"), FilledCell(t, line, filled, "url"))
  }

  /** Column `c` of a line: `""` when it was added empty, else the file's cell. */
  function FilledCell(t: Table, line: map<string, string>, filled: set<string>, c: string): Cell {
    if c in filled then Some("") else ReadCell(t, line, c)
  }

  /** The rows of a table, each projected with `RowOf`. */
  function RowsOf(t: Table, filled: set<string>): (r: seq<Row>)
    ensures |r| == |t.rows|
  {
    Map(t.rows, line => RowOf(t, line, filled))
  }

  /**
   * The article a row stands for once its NaN cells are spelled out: every
   * NaN becomes `""`, except the date, which becomes `nanDate`.
   */
  function ToArticle(r: Row, nanDate: string): (a: Article)
    ensures a.url == r.url.GetOr("") && a.date == r.date.GetOr(nanDate)
    ensures a.title == r.title.GetOr("") && a.source == r.source.GetOr("")
    ensures a.body == r.body.GetOr("") && a.language == r.language.GetOr("")
  {
    Article(r.title.GetOr(""), r.body.GetOr(""), r.language.GetOr(""), r.date.GetOr(nanDate),
            r.source.GetOr(""), r.url.GetOr(""))
  }

  // ---------- the date orders ----------

  /** `sort_values("date", ascending=False)` on a column of strings. */
  predicate NewerFirst(a: Article, b: Article) {
    LexLe(b.date, a.date)
  }

  lemma NewerFirstIsPreorder()
    ensures TotalPreorder(NewerFirst)
  {
    forall a: Article, b: Article ensures NewerFirst(a, b) || NewerFirst(b, a) {
      LexLeTotal(a.date, b.date);
    }
    forall a: Article, b: Article, c: Article | NewerFirst(a, b) && NewerFirst(b, c)
      ensures NewerFirst(a, c)
    {
      LexLeTrans(c.date, b.date, a.date);
    }
  }

  /** `sort_values("date", ascending=False)` on a column that may hold NaN: NaN goes last. */
  predicate RowNewerFirst(a: Row, b: Row) {
    match (a.date, b.date)
    case (_, None) => true
    case (None, Some(_)) => false
    case (Some(x), Some(y)) => LexLe(y, x)
  }

  lemma RowNewerFirstIsPreorder()
    ensures TotalPreorder(RowNewerFirst)
  {
    forall a: Row, b: Row | a.date.Some? && b.date.Some?
      ensures RowNewerFirst(a, b) || RowNewerFirst(b, a)
    {
      LexLeTotal(a.date.value, b.date.value);
    }
    forall a: Row, b: Row, c: Row | RowNewerFirst(a, b) && RowNewerFirst(b, c)
      ensures RowNewerFirst(a, c)
    {
      if a.date.Some? && b.date.Some? && c.date.Some? {
        LexLeTrans(c.date.value, b.date.value, a.date.value);
      }
    }
  }
}
