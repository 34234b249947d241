/**
 * HTML ingest bookkeeping: the normalised source list, the robots rule,
 * the file name a page is saved under, the manifest file and the order in
 * which each source's status is decided.
 */
module IngestUrls {
  import opened Wrappers
  import opened Text
  import opened Seqs
  import opened Urls

  // ---------- load_sources ----------

  /** The keys of a normalised source. */
  const SOURCE_KEYS: set<string> := {"name", "url", "language", "group"}

  /** One normalised source: exactly `name`, `url`, `language` and `group`, `""` for a missing one. */
  function Normalize(it: map<string, string>): (r: map<string, string>)
    ensures r.Keys == SOURCE_KEYS
    ensures forall k :: k in SOURCE_KEYS ==> r[k] == Field(it, k)
  {
    map["name" := Field(it, "name"), "url" := Field(it, "url"), "language" := Field(it, "language"), "group" := Field(it, "group")]
  }

  /** `load_sources` after the YAML is read: one normalised entry per configured item, in order. */
  method LoadSources(items: seq<map<string, string>>) returns (out: seq<map<string, string>>)
    ensures |out| == |items|
    ensures forall i :: 0 <= i < |items| ==> out[i].Keys == SOURCE_KEYS
    ensures forall i, k :: 0 <= i < |items| && k in SOURCE_KEYS ==> out[i][k] == Field(items[i], k)
  {
    out := [];
    for i := 0 to |items|
      invariant |out| == i
      invariant forall j :: 0 <= j < i ==> out[j] == Normalize(items[j])
    {
      out := out + [Normalize(items[i])];
    }
  }

  // ---------- robots_allows ----------

  /**
   * `robots_allows(url, ignore)`. `robots(robotsUrl, url)` is what the
   * parser of the robots file at `robotsUrl` says of `url`, `None` when
   * fetching or reading it fails.
   */
  function RobotsAllows(url: string, ignore: bool, robots: (string, string) -> Option<bool>): (r: bool)
    ensures ignore ==> r
    ensures !ignore && UrlSplit(url).None? ==> !r
    ensures !ignore && UrlSplit(url).Some? ==> r == robots(RobotsUrl(UrlSplit(url).value), url).GetOr(false)
  {
    if ignore then true
    else match UrlSplit(url)
      case None => false
      case Some(parts) => robots(RobotsUrl(parts), url).GetOr(false)
  }

  /** `f"{scheme}://{netloc}/robots.txt"`. */
  function RobotsUrl(parts: UrlParts): string {
    parts.scheme + "://" + parts.netloc + "/robots.txt"
  }

  /** A robots file that cannot be read blocks the URL unless robots are ignored. */
  lemma RobotsFailClosed(url: string, robots: (string, string) -> Option<bool>)
    requires UrlSplit(url).Some? && robots(RobotsUrl(UrlSplit(url).value), url).None?
    ensures !RobotsAllows(url, false, robots)
  {
  }

  // ---------- safe_filename ----------

  /**
   * `safe_filename(url)`: the netloc with `:` replaced by `_`, `unknown` for
   * an empty netloc, then `.html`; `None` when `urlparse` raises.
   */
  function SafeFilename(url: string): (r: Option<string>)
    ensures r.None? <==> UrlSplit(url).None?
    ensures r.Some? ==> ':' !in r.value && '/' !in r.value && EndsWith(r.value, ".html") && |r.value| > |".html"|
  {
    match UrlSplit(url)
    case None => None
    case Some(parts) => Some(FileName(parts.netloc))
  }

  /** The file name for a netloc. */
  function FileName(netloc: string): (r: string)
    requires forall j :: 0 <= j < |netloc| ==> !IsNetlocEnd(netloc[j])
    ensures ':' !in r && '/' !in r && EndsWith(r, ".html") && |r| > |".html"|
  {
    var safe := ReplaceChar(netloc, ':', '_');
    var base := if safe == "" then "unknown" else safe;
    forall j | 0 <= j < |safe| ensures safe[j] != ':' && safe[j] != '/' {
      assert !IsNetlocEnd(netloc[j]);
    }
    var r := base + ".html";
    assert r[|base|..] == ".html";
    assert forall c :: c in r ==> c in base || c in ".html";
    r
  }

  /** The file name of `host:port` is `host_port.html`. */
  lemma FileNameOfHostPort(host: string, port: string)
    requires forall j :: 0 <= j < |host + ":" + port| ==> !IsNetlocEnd((host + ":" + port)[j])
    requires ':' !in host && ':' !in port
    ensures FileName(host + ":" + port) == host + "_" + port + ".html"
  {
    var n := host + ":" + port;
    var m := ReplaceChar(n, ':', '_');
    assert |m| == |host + "_" + port|;
    forall j | 0 <= j < |m| ensures m[j] == (host + "_" + port)[j] {
      if j < |host| {
        assert n[j] == host[j];
      } else if j > |host| {
        assert n[j] == port[j - |host| - 1];
      }
    }
    assert m == host + "_" + port;
  }

  /** The file name of `scheme://host:port/path` is `host_port.html`. */
  lemma SafeFilenameOf(scheme: string, host: string, port: string, path: string)
    requires scheme != [] && IsAsciiAlpha(scheme[0])
    requires forall j :: 0 <= j < |scheme| ==> IsSchemeChar(scheme[j])
    requires forall j :: 0 <= j < |host + ":" + port| ==>
      var c := (host + ":" + port)[j];
      !IsNetlocEnd(c) && !IsUnsafe(c) && c != '[' && c != ']'
    requires path == [] || IsNetlocEnd(path[0])
    requires forall j :: 0 <= j < |path| ==> !IsUnsafe(path[j])
    requires ':' !in host && ':' !in port
    ensures SafeFilename(scheme + "://" + (host + ":" + port) + path) == Some(host + "_" + port + ".html")
  {
    NetlocOfAbsolute(scheme, host + ":" + port, path);
    FileNameOfHostPort(host, port);
  }

  // ---------- the manifest ----------

  /** The manifest's columns, in order. */
  const MANIFEST_HEADER: seq<string> := ["name", "url", "language", "group", "status", "http_status", "path", "timestamp", "final_url"]

  /** The CSV line `DictWriter` writes for a row: one cell per header field, `""` for a missing key. */
  function ManifestLine(row: map<string, string>): (r: seq<string>)
    ensures |r| == |MANIFEST_HEADER|
    ensures forall i :: 0 <= i < |MANIFEST_HEADER| ==> r[i] == Field(row, MANIFEST_HEADER[i])
  {
    seq(|MANIFEST_HEADER|, i requires 0 <= i < |MANIFEST_HEADER| => Field(row, MANIFEST_HEADER[i]))
  }

  /** Keys outside the header are not written. */
  lemma ManifestLineProjects(row: map<string, string>, extra: map<string, string>)
    requires forall k :: k in extra ==> k !in MANIFEST_HEADER
    ensures ManifestLine(row + extra) == ManifestLine(row)
  {
    forall i | 0 <= i < |MANIFEST_HEADER| ensures Field(row + extra, MANIFEST_HEADER[i]) == Field(row, MANIFEST_HEADER[i]) {
      assert MANIFEST_HEADER[i] !in extra;
    }
  }

  /**
   * The `_manifest.csv` file: whether it exists, and the lines it holds.
   * A file that exists but is empty gets no header, as
   * `os.path.exists` decides.
   */
  class Manifest {
    var onDisk: bool
    var lines: seq<seq<string>>

    /** The manifest as found on disk: `None` when there is no file. */
    constructor (file: Option<seq<seq<string>>>)
      ensures onDisk == file.Some?
      ensures lines == file.GetOr([])
    {
      onDisk := file.Some?;
      lines := file.GetOr([]);
    }

    /** `write_manifest_row`: the header first when the file is new, then the row's line. */
    method WriteRow(row: map<string, string>)
      modifies this
      ensures onDisk
      ensures lines == old(lines) + (if old(onDisk) then [] else [MANIFEST_HEADER]) + [ManifestLine(row)]
    {
      if !onDisk {
        lines := lines + [MANIFEST_HEADER];
      }
      lines := lines + [ManifestLine(row)];
      onDisk := true;
    }
  }

  /**
   * The lines a manifest holds after writing `rows`, starting from the
   * lines `existing` of a file that exists when `present`: the header once,
   * before the first row, only when the file did not exist.
   */
  function ManifestAfter(existing: seq<seq<string>>, present: bool, rows: seq<map<string, string>>): seq<seq<string>>
  {
    existing + (if present || rows == [] then [] else [MANIFEST_HEADER]) + Map(rows, ManifestLine)
  }

  // ---------- main ----------

  /** `os.path.join(dir, name)` for a `name` that is not absolute. */
  function PathJoin(dir: string, name: string): string {
    if dir == "" || EndsWith(dir, "/") then dir + name else dir + "/" + name
  }

  /** What `session.get` gives: the final URL and the status code; `None` for a request exception. */
  datatype Response = Response(finalUrl: string, statusCode: int)

  /** The environment of a run: the robots oracle, the fetcher and the clock (`clock(i)` is the ISO time of source `i`). */
  datatype Env = Env(robots: (string, string) -> Option<bool>, fetch: string -> Option<Response>, clock: nat -> string)

  /** The status values. */
  const SKIP := "skip_invalid_url"
  const BLOCKED := "blocked_by_robots"
  const ERROR := "error"
  const OK := "ok"

  /** The manifest row before its status is known. */
  function BaseRow(s: map<string, string>, ts: string): map<string, string> {
    var url := Strip(Field(s, "url"));
    var name := Strip(Field(s, "name"));
    map["name" := if name != "" then name else url, "url" := url, "language" := Field(s, "language"),
        "group" := Field(s, "group"), "timestamp" := ts]
  }

  function WithStatus(row: map<string, string>, status: string, httpStatus: string, path: string, finalUrl: string): map<string, string> {
    row["status" := status]["http_status" := httpStatus]["path" := path]["final_url" := finalUrl]
  }

  /** How a source ends: its status, `http_status`, `path` and `final_url`. */
  datatype Outcome = Outcome(status: string, httpStatus: string, path: string, finalUrl: string)

  /**
   * The outcome for one source, `None` when `safe_filename` raises (which
   * ends the run). The checks run in order: the URL scheme, then robots,
   * then the file name, then the request.
   */
  function Decide(s: map<string, string>, ignore: bool, outDir: string, env: Env): Option<Outcome> {
    var url := Strip(Field(s, "url"));
    if !StartsWith(url, "http") then Some(Outcome(SKIP, "", "", ""))
    else if !RobotsAllows(url, ignore, env.robots) then Some(Outcome(BLOCKED, "", "", ""))
    else match SafeFilename(url)
      case None => None
      case Some(fn) =>
        match env.fetch(url)
        case None => Some(Outcome(ERROR, "", "", ""))
        case Some(resp) => Some(Outcome(OK, IntToString(resp.statusCode), PathJoin(outDir, fn), resp.finalUrl))
  }

  /** The manifest row for one source, `None` when the run ends at it. */
  function SourceRow(s: map<string, string>, ignore: bool, outDir: string, env: Env, ts: string): Option<map<string, string>> {
    match Decide(s, ignore, outDir, env)
    case None => None
    case Some(o) => Some(WithStatus(BaseRow(s, ts), o.status, o.httpStatus, o.path, o.finalUrl))
  }

  /** The rows of a run over `sources` (numbered from 1), and whether it stopped at a raising `safe_filename`. */
  function RunRows(sources: seq<map<string, string>>, ignore: bool, outDir: string, env: Env): (seq<map<string, string>>, bool)
    decreases |sources|
  {
    if sources == [] then ([], false)
    else
      var (rows, crashed) := RunRows(sources[..|sources| - 1], ignore, outDir, env);
      if crashed then (rows, true)
      else match SourceRow(sources[|sources| - 1], ignore, outDir, env, env.clock(|sources|))
        case None => (rows, true)
        case Some(row) => (rows + [row], false)
  }

  /** One iteration of `main`'s loop: the outcome for a source, `None` when `safe_filename` raises. */
  method DecideSource(s: map<string, string>, ignore: bool, outDir: string, env: Env)
    returns (done: Option<Outcome>)
    ensures done == Decide(s, ignore, outDir, env)
  {
    var url := Strip(Field(s, "url"));
    if !StartsWith(url, "http") {
      return Some(Outcome(SKIP, "", "", ""));
    }
    if !RobotsAllows(url, ignore, env.robots) {
      return Some(Outcome(BLOCKED, "", "", ""));
    }
    var fn := SafeFilename(url);
    if fn.None? {
      return None;
    }
    var resp := env.fetch(url);
    if resp.None? {
      return Some(Outcome(ERROR, "", "", ""));
    }
    return Some(Outcome(OK, IntToString(resp.value.statusCode), PathJoin(outDir, fn.value), resp.value.finalUrl));
  }

  /** The body of `main`'s loop for one source: the row it writes, `None` when the run ends there. */
  method SourceStep(s: map<string, string>, ignore: bool, outDir: string, env: Env, ts: string)
    returns (row: Option<map<string, string>>)
    ensures row == SourceRow(s, ignore, outDir, env, ts)
  {
    var done := DecideSource(s, ignore, outDir, env);
    if done.None? {
      return None;
    }
    var o := done.value;
    return Some(WithStatus(BaseRow(s, ts), o.status, o.httpStatus, o.path, o.finalUrl));
  }

  /**
   * `main` of the HTML ingest: one manifest row per source until
   * `safe_filename` raises. Returns whether the run ended that way.
   */
  method IngestUrls(sources: seq<map<string, string>>, ignore: bool, outDir: string, env: Env, man: Manifest)
    returns (crashed: bool)
    modifies man
    ensures crashed == RunRows(sources, ignore, outDir, env).1
    ensures man.lines == ManifestAfter(old(man.lines), old(man.onDisk), RunRows(sources, ignore, outDir, env).0)
    ensures man.onDisk == (old(man.onDisk) || RunRows(sources, ignore, outDir, env).0 != [])
  {
    crashed := false;
    ghost var rows: seq<map<string, string>> := [];
    var i := 0;
    while i < |sources| && !crashed
      invariant 0 <= i <= |sources|
      invariant RunRows(sources[..i], ignore, outDir, env) == (rows, crashed)
      invariant man.lines == ManifestAfter(old(man.lines), old(man.onDisk), rows)
      invariant man.onDisk == (old(man.onDisk) || rows != [])
    {
      RunRowsStep(sources, i, ignore, outDir, env);
      var row := SourceStep(sources[i], ignore, outDir, env, env.clock(i + 1));
      if row.None? {
        crashed := true;
      } else {
        ManifestAfterSnoc(old(man.lines), old(man.onDisk), rows, row.value);
        man.WriteRow(row.value);
        rows := rows + [row.value];
      }
      i := i + 1;
    }
    if crashed {
      CrashStops(sources, i, ignore, outDir, env);
    } else {
      assert sources[..|sources|] == sources;
    }
  }

  /** Writing one more row appends its line, after the header when nothing was written to a new file. */
  lemma ManifestAfterSnoc(existing: seq<seq<string>>, present: bool, rows: seq<map<string, string>>, row: map<string, string>)
    ensures ManifestAfter(existing, present, rows + [row]) ==
      ManifestAfter(existing, present, rows) + (if present || rows != [] then [] else [MANIFEST_HEADER]) + [ManifestLine(row)]
  {
    assert Map(rows + [row], ManifestLine) == Map(rows, ManifestLine) + [ManifestLine(row)];
  }

  /** The run over one more source. */
  lemma RunRowsStep(sources: seq<map<string, string>>, i: nat, ignore: bool, outDir: string, env: Env)
    requires i < |sources|
    ensures RunRows(sources[..i + 1], ignore, outDir, env) ==
      var (rows, crashed) := RunRows(sources[..i], ignore, outDir, env);
      if crashed then (rows, true)
      else match SourceRow(sources[i], ignore, outDir, env, env.clock(i + 1))
        case None => (rows, true)
        case Some(row) => (rows + [row], false)
  {
    assert sources[..i + 1][..i] == sources[..i];
  }

  /** Once a prefix of the run has crashed, the whole run has, with the same rows. */
  lemma {:induction false} CrashStops(sources: seq<map<string, string>>, n: nat, ignore: bool, outDir: string, env: Env)
    requires n <= |sources| && RunRows(sources[..n], ignore, outDir, env).1
    ensures RunRows(sources, ignore, outDir, env) == RunRows(sources[..n], ignore, outDir, env)
    decreases |sources| - n
  {
    if n < |sources| {
      assert sources[..n + 1][..n] == sources[..n];
      CrashStops(sources, n + 1, ignore, outDir, env);
    } else {
      assert sources[..n] == sources;
    }
  }

  /**
   * The status of a source: `skip_invalid_url` exactly when the URL does
   * not start with `http`, whatever robots say; `blocked_by_robots` exactly
   * when it does and robots refuse it; `error` when the request fails;
   * otherwise `ok` with the status code as a string and the page saved
   * under `outDir`. Only a run that ignores robots can stop at
   * `safe_filename`, since robots refuse a URL that `urlparse` rejects.
   */
  lemma DecideOrder(s: map<string, string>, ignore: bool, outDir: string, env: Env)
    ensures var url := Strip(Field(s, "url"));
      && (!StartsWith(url, "http") <==> Decide(s, ignore, outDir, env) == Some(Outcome(SKIP, "", "", "")))
      && (StartsWith(url, "http") && !RobotsAllows(url, ignore, env.robots) <==> Decide(s, ignore, outDir, env) == Some(Outcome(BLOCKED, "", "", "")))
      && (Decide(s, ignore, outDir, env).None? ==> ignore && StartsWith(url, "http") && UrlSplit(url).None?)
      && (StartsWith(url, "http") && RobotsAllows(url, ignore, env.robots) && SafeFilename(url).Some? ==>
            Decide(s, ignore, outDir, env) ==
              if env.fetch(url).None? then Some(Outcome(ERROR, "", "", ""))
              else Some(Outcome(OK, IntToString(env.fetch(url).value.statusCode), PathJoin(outDir, SafeFilename(url).value),
                                env.fetch(url).value.finalUrl)))
  {
  }

  /** A run that respects robots never stops early. */
  lemma {:induction false} NoCrashWithRobots(sources: seq<map<string, string>>, outDir: string, env: Env)
    ensures !RunRows(sources, false, outDir, env).1
    ensures |RunRows(sources, false, outDir, env).0| == |sources|
    decreases |sources|
  {
    if sources != [] {
      NoCrashWithRobots(sources[..|sources| - 1], outDir, env);
      DecideOrder(sources[|sources| - 1], false, outDir, env);
    }
  }

  /** A row with a status has exactly the manifest's fields; a blank name shows the URL. */
  lemma RowFields(s: map<string, string>, ts: string, o: Outcome)
    ensures WithStatus(BaseRow(s, ts), o.status, o.httpStatus, o.path, o.finalUrl).Keys == set k | k in MANIFEST_HEADER
    ensures Strip(Field(s, "name")) == "" ==> WithStatus(BaseRow(s, ts), o.status, o.httpStatus, o.path, o.finalUrl)["name"] == Strip(Field(s, "url"))
    ensures WithStatus(BaseRow(s, ts), o.status, o.httpStatus, o.path, o.finalUrl)["timestamp"] == ts
    ensures WithStatus(BaseRow(s, ts), o.status, o.httpStatus, o.path, o.finalUrl)["status"] == o.status
  {
    HeaderKeys();
    RowKeys(s, ts, o);
    RowName(s, ts, o);
    BaseName(s, ts);
  }

  lemma BaseName(s: map<string, string>, ts: string)
    ensures Strip(Field(s, "name")) == "" ==> BaseRow(s, ts)["name"] == Strip(Field(s, "url"))
  {
  }

  lemma RowKeys(s: map<string, string>, ts: string, o: Outcome)
    ensures WithStatus(BaseRow(s, ts), o.status, o.httpStatus, o.path, o.finalUrl).Keys
      == {"name", "url", "language", "group", "status", "http_status", "path", "timestamp", "final_url"}
  {
  }

  lemma RowName(s: map<string, string>, ts: string, o: Outcome)
    ensures WithStatus(BaseRow(s, ts), o.status, o.httpStatus, o.path, o.finalUrl)["name"] == BaseRow(s, ts)["name"]
    ensures WithStatus(BaseRow(s, ts), o.status, o.httpStatus, o.path, o.finalUrl)["timestamp"] == ts
    ensures WithStatus(BaseRow(s, ts), o.status, o.httpStatus, o.path, o.finalUrl)["status"] == o.status
  {
    assert "status" != "http_status" && "status" != "path" && "status" != "final_url";
    assert "name" != "status" && "name" != "http_status" && "name" != "path" && "name" != "final_url";
    assert "timestamp" != "status" && "timestamp" != "http_status" && "timestamp" != "path" && "timestamp" != "final_url";
  }

  lemma HeaderKeys()
    ensures (set k | k in MANIFEST_HEADER) == {"name", "url", "language", "group", "status", "http_status", "path", "timestamp", "final_url"}
  {
    assert forall k :: k in MANIFEST_HEADER <==> k in {"name", "url", "language", "group", "status", "http_status", "path", "timestamp", "final_url"};
  }
}
