/**
 * The two writers of `outputs.py`: the CSV log of newly found jobs and the
 * HTML page listing the most recent jobs of the database.
 *
 * Files, the clock and SQLite are abstract: the CSV writer returns the
 * records it would hand to `csv.writer`; the HTML builder takes the clock
 * reading and the database rows already ordered newest first, and returns
 * the text it would write.
 */
module Outputs {
  import opened Wrappers
  import opened Strings
  import opened Jobs

  // ---------------------------------------------------------- timestamps

  /** A clock reading, as `datetime.now()` gives it. */
  datatype Timestamp = Timestamp(year: nat, month: nat, day: nat, hour: nat, minute: nat, second: nat)

  predicate ValidTimestamp(t: Timestamp) {
    && 1000 <= t.year <= 9999 && 1 <= t.month <= 12 && 1 <= t.day <= 31
    && t.hour < 24 && t.minute < 60 && t.second < 60
  }

  /** Two zero-padded digits (`%m`, `%d`, `%H`, `%M`, `%S`). */
  function Digits2(n: nat): (s: string)
    requires n < 100
    ensures |s| == 2 && AllDigits(s) && DecimalValue(s) == n
  {
    var s := [DigitChar(n / 10), DigitChar(n % 10)];
    assert s[..1][..0] == [];
    assert DecimalValue(s[..1]) == n / 10;
    s
  }

  /** Four digits (`%Y` for years 1000 to 9999). */
  function Digits4(n: nat): (s: string)
    requires 1000 <= n < 10000
    ensures |s| == 4 && AllDigits(s) && DecimalValue(s) == n
  {
    var hi, lo := Digits2(n / 100), Digits2(n % 100);
    var s := hi + lo;
    assert s[..3] == hi + lo[..1];
    assert s[..3][..2] == hi;
    assert lo[..1][..0] == [];
    s
  }

  /** The clock reading as year, month, day, hour, minute and second, zero-padded and separated by '-', ' ' and ':'. */
  function FormatTimestamp(t: Timestamp): (s: string)
    requires ValidTimestamp(t)
    ensures |s| == 19
  {
    DateText(t) + " " + ClockText(t)
  }

  /** The date half of the timestamp text: year, month and day separated by '-'. */
  function DateText(t: Timestamp): (s: string)
    requires ValidTimestamp(t)
    ensures |s| == 10 && s[4] == '-' && s[7] == '-'
    ensures s[0..4] == Digits4(t.year) && s[5..7] == Digits2(t.month) && s[8..10] == Digits2(t.day)
  {
    var y, mo, d := Digits4(t.year), Digits2(t.month), Digits2(t.day);
    var s := y + "-" + mo + "-" + d;
    assert s[5..7] == mo by { assert s[5] == mo[0] && s[6] == mo[1]; }
    assert s[8..10] == d by { assert s[8] == d[0] && s[9] == d[1]; }
    s
  }

  /** The clock half of the timestamp text: hour, minute and second separated by ':'. */
  function ClockText(t: Timestamp): (s: string)
    requires ValidTimestamp(t)
    ensures |s| == 8 && s[2] == ':' && s[5] == ':'
    ensures s[0..2] == Digits2(t.hour) && s[3..5] == Digits2(t.minute) && s[6..8] == Digits2(t.second)
  {
    var h, mi, sc := Digits2(t.hour), Digits2(t.minute), Digits2(t.second);
    var s := h + ":" + mi + ":" + sc;
    assert s[3..5] == mi by { assert s[3] == mi[0] && s[4] == mi[1]; }
    assert s[6..8] == sc by { assert s[6] == sc[0] && s[7] == sc[1]; }
    s
  }

  /** Reads a "YYYY-MM-DD HH:MM:SS" text back into its six fields. */
  function ParseTimestamp(s: string): Option<Timestamp> {
    if |s| == 19 && s[10] == ' ' then
      match (ParseDate(s[..10]), ParseClock(s[11..]))
      case (Some((y, mo, d)), Some((h, mi, sc))) => Some(Timestamp(y, mo, d, h, mi, sc))
      case _ => None
    else None
  }

  /** Reads a "YYYY-MM-DD" text back into year, month and day. */
  function ParseDate(s: string): Option<(nat, nat, nat)> {
    if |s| == 10 && s[4] == '-' && s[7] == '-'
       && AllDigits(s[0..4]) && AllDigits(s[5..7]) && AllDigits(s[8..10])
    then Some((DecimalValue(s[0..4]), DecimalValue(s[5..7]), DecimalValue(s[8..10])))
    else None
  }

  /** Reads a "HH:MM:SS" text back into hour, minute and second. */
  function ParseClock(s: string): Option<(nat, nat, nat)> {
    if |s| == 8 && s[2] == ':' && s[5] == ':'
       && AllDigits(s[0..2]) && AllDigits(s[3..5]) && AllDigits(s[6..8])
    then Some((DecimalValue(s[0..2]), DecimalValue(s[3..5]), DecimalValue(s[6..8])))
    else None
  }

  /** The timestamp text determines the clock reading: parsing it gives the reading back. */
  lemma TimestampRoundTrip(t: Timestamp)
    requires ValidTimestamp(t)
    ensures ParseTimestamp(FormatTimestamp(t)) == Some(t)
  {
    var s := FormatTimestamp(t);
    assert s[..10] == DateText(t);
    assert s[11..] == ClockText(t);
    assert ParseDate(s[..10]) == Some((t.year, t.month, t.day));
    assert ParseClock(s[11..]) == Some((t.hour, t.minute, t.second));
  }

  /** Concatenation is associative; the two output loops append to a list that already has a head. */
  lemma AppendAssoc<T>(a: seq<T>, b: seq<T>, c: seq<T>)
    ensures (a + b) + c == a + (b + c)
  {
  }

  // ----------------------------------------------------------------- CSV

  const CsvHeader: seq<string> := ["seen_at", "job_id", "title", "company", "location", "link"]

  /** The record's value for `key`, or the empty text when the key is missing. */
  function Get(j: map<string, string>, key: string): string {
    if key in j then j[key] else ""
  }

  /** The record for one new job: the time, then each header column's value (blank when missing). */
  function CsvRow(now: string, j: map<string, string>): (row: seq<string>)
    ensures |row| == |CsvHeader| && row[0] == now
    ensures forall k :: 1 <= k < |CsvHeader| ==> row[k] == Get(j, CsvHeader[k])
  {
    [now, Get(j, "job_id"), Get(j, "title"), Get(j, "company"), Get(j, "location"), Get(j, "link")]
  }

  /** The records for `jobs`, in order. */
  function CsvRows(now: string, jobs: seq<map<string, string>>): seq<seq<string>> {
    if jobs == [] then []
    else CsvRows(now, jobs[..|jobs| - 1]) + [CsvRow(now, jobs[|jobs| - 1])]
  }

  /** What one call appends: the header if the file is new, then one record per job. */
  function CsvAppended(fileExists: bool, now: string, jobs: seq<map<string, string>>): seq<seq<string>> {
    (if fileExists then [] else [CsvHeader]) + CsvRows(now, jobs)
  }

  /** One record per job, the `i`-th one for the `i`-th job. */
  lemma {:induction false} CsvRowsAt(now: string, jobs: seq<map<string, string>>, i: nat)
    requires i < |jobs|
    ensures |CsvRows(now, jobs)| == |jobs|
    ensures CsvRows(now, jobs)[i] == CsvRow(now, jobs[i])
    decreases |jobs|
  {
    var init := jobs[..|jobs| - 1];
    if i < |init| {
      CsvRowsAt(now, init, i);
    } else if init != [] {
      CsvRowsAt(now, init, 0);
    }
  }

  lemma {:induction false} CsvRowsLength(now: string, jobs: seq<map<string, string>>)
    ensures |CsvRows(now, jobs)| == |jobs|
    decreases |jobs|
  {
    if jobs != [] {
      CsvRowsLength(now, jobs[..|jobs| - 1]);
    }
  }

  /** A job record from an adapter is written column for column under the header. */
  lemma CsvRowOfJob(now: string, j: Job)
    ensures CsvRow(now, AsDict(j)) == [now, j.jobId, j.title, j.company, j.location, j.link]
  {
  }

  /**
   * The header is written exactly once per file: a record of a call is the
   * header exactly when the file was new and it is the first record.
   */
  lemma HeaderOnlyWhenNew(fileExists: bool, now: Timestamp, jobs: seq<map<string, string>>, i: nat)
    requires ValidTimestamp(now)
    requires i < |CsvAppended(fileExists, FormatTimestamp(now), jobs)|
    ensures CsvAppended(fileExists, FormatTimestamp(now), jobs)[i] == CsvHeader <==> !fileExists && i == 0
  {
    var ts := FormatTimestamp(now);
    assert |ts| != |CsvHeader[0]|;
    HeaderFirstOnly(fileExists, ts, jobs, i);
  }

  /** The same for any time text other than the header's first cell. */
  lemma HeaderFirstOnly(fileExists: bool, ts: string, jobs: seq<map<string, string>>, i: nat)
    requires ts != CsvHeader[0]
    requires i < |CsvAppended(fileExists, ts, jobs)|
    ensures CsvAppended(fileExists, ts, jobs)[i] == CsvHeader <==> !fileExists && i == 0
  {
    var head: seq<seq<string>> := if fileExists then [] else [CsvHeader];
    var rows := CsvRows(ts, jobs);
    assert CsvAppended(fileExists, ts, jobs) == head + rows;
    CsvRowsLength(ts, jobs);
    if i >= |head| {
      CsvRowsAt(ts, jobs, i - |head|);
      assert (head + rows)[i] == rows[i - |head|];
      assert rows[i - |head|][0] == ts;
    }
  }

  /** The records of one more job are the records so far and that job's record. */
  lemma CsvRowsSnoc(now: string, jobs: seq<map<string, string>>, i: nat)
    requires i < |jobs|
    ensures CsvRows(now, jobs[..i + 1]) == CsvRows(now, jobs[..i]) + [CsvRow(now, jobs[i])]
  {
    assert jobs[..i + 1][..i] == jobs[..i];
  }

  /** `append_new_jobs_csv`: the records handed to the CSV writer. */
  method AppendNewJobsCsv(fileExists: bool, now: Timestamp, newJobs: seq<map<string, string>>)
    returns (records: seq<seq<string>>)
    requires ValidTimestamp(now)
    ensures records == CsvAppended(fileExists, FormatTimestamp(now), newJobs)
  {
    records := [];
    if !fileExists {
      records := records + [CsvHeader];
    }
    var head := records;
    var ts := FormatTimestamp(now);
    var i := 0;
    while i < |newJobs|
      invariant 0 <= i <= |newJobs|
      invariant records == head + CsvRows(ts, newJobs[..i])
    {
      CsvRowsSnoc(ts, newJobs, i);
      AppendAssoc(head, CsvRows(ts, newJobs[..i]), [CsvRow(ts, newJobs[i])]);
      records := records + [CsvRow(ts, newJobs[i])];
      i := i + 1;
    }
    assert newJobs[..i] == newJobs;
  }

  // ---------------------------------------------------------------- HTML

  /** A row of `SELECT job_id, title, link, seen_at FROM jobs`; any column may be NULL. */
  datatype DbRow = DbRow(jobId: Option<string>, title: Option<string>, link: Option<string>, seenAt: Option<string>)

  /** SQL `LIMIT n` over rows already in `ORDER BY` order; a negative limit means no bound. */
  function LimitRows(ordered: seq<DbRow>, limit: int): (rows: seq<DbRow>)
    ensures limit < 0 || |ordered| <= limit ==> rows == ordered
    ensures 0 <= limit < |ordered| ==> |rows| == limit
    ensures rows == ordered[..|rows|]
  {
    if limit < 0 || limit >= |ordered| then ordered else ordered[..limit]
  }

  /** A value inside an f-string: NULL shows as "None". */
  function PyStr(s: Option<string>): string {
    if s.None? then "None" else s.value
  }

  /**
   * The title escaping of the page builder: every '<' becomes "&lt;", then
   * every '>' becomes "&gt;". The result has no angle brackets, so a title
   * cannot open or close a tag, and it is never shorter than the title.
   */
  function EscapeText(s: string): (r: string)
    ensures '<' !in r && '>' !in r
    ensures |r| >= |s|
  {
    ReplaceChar(ReplaceChar(s, '<', "&lt;"), '>', "&gt;")
  }

  /** What the escaping does to one character. */
  function EscChar(c: char): string {
    if c == '<' then "&lt;" else if c == '>' then "&gt;" else [c]
  }

  /** Escaping defined character by character. */
  function EscapedChars(s: string): (r: string)
    ensures '<' !in r && '>' !in r
  {
    if s == [] then [] else EscChar(s[0]) + EscapedChars(s[1..])
  }

  /** The two chained replacements escape each character on its own. */
  lemma {:induction false} EscapeIsPerChar(s: string)
    ensures EscapeText(s) == EscapedChars(s)
  {
    if s != [] {
      var c, rest := s[0], s[1..];
      assert s == [c] + rest;
      ReplaceAppend([c], rest, '<', "&lt;");
      var r1 := ReplaceChar([c], '<', "&lt;");
      ReplaceAppend(r1, ReplaceChar(rest, '<', "&lt;"), '>', "&gt;");
      assert [c][1..] == [];
      if c == '<' {
        assert r1 == "&lt;";
        assert ReplaceChar(r1, '>', "&gt;") == "&lt;" by {
          ReplaceAbsent("&lt;", '>', "&gt;");
        }
      } else {
        assert r1 == [c];
      }
      EscapeIsPerChar(rest);
    }
  }

  /** Text without angle brackets is left as it is. */
  lemma EscapeIdentity(s: string)
    requires '<' !in s && '>' !in s
    ensures EscapeText(s) == s
  {
    ReplaceAbsent(s, '<', "&lt;");
    ReplaceAbsent(s, '>', "&gt;");
  }

  /** Escaping twice is escaping once. */
  lemma EscapeIdempotent(s: string)
    ensures EscapeText(EscapeText(s)) == EscapeText(s)
  {
    EscapeIdentity(EscapeText(s));
  }

  /** How a browser reads the escaped text back: the two entities become brackets again. */
  function Unescape(s: string): string {
    if s == [] then []
    else if |s| >= 4 && s[..4] == "&lt;" then "<" + Unescape(s[4..])
    else if |s| >= 4 && s[..4] == "&gt;" then ">" + Unescape(s[4..])
    else [s[0]] + Unescape(s[1..])
  }

  /** A title without '&' is shown exactly as it is stored. */
  lemma {:induction false} UnescapeEscape(s: string)
    requires '&' !in s
    ensures Unescape(EscapeText(s)) == s
  {
    EscapeIsPerChar(s);
    UnescapeChars(s);
  }

  lemma {:induction false} UnescapeChars(s: string)
    requires '&' !in s
    ensures Unescape(EscapedChars(s)) == s
  {
    if s != [] {
      var e, rest := EscChar(s[0]), EscapedChars(s[1..]);
      var t := e + rest;
      assert s[1..] == s[1..];
      assert '&' !in s[1..];
      UnescapeChars(s[1..]);
      if s[0] == '<' || s[0] == '>' {
        assert t[..4] == e && t[4..] == rest;
      } else {
        assert t[0] == s[0] && t[1..] == rest;
      }
    }
  }

  /** The escaped title of a row; a NULL or empty title is the empty text. */
  function SafeTitle(title: Option<string>): string {
    EscapeText(Or(title, ""))
  }

  /** The `<li>` line for a link, an escaped title and a time. */
  function ItemLine(link: string, safeTitle: string, seenAt: string): (line: string)
    ensures |line| >= 9 && line[..4] == "<li>" && line[|line| - 5..] == "</li>"
  {
    var open, close := ItemOpen(link), ItemClose(seenAt);
    ConcatEnds(open, safeTitle, close, 4, 5);
    open + safeTitle + close
  }

  function ItemOpen(link: string): (s: string)
    ensures |s| >= 4 && s[..4] == "<li>"
  {
    var s := "<li><a href='" + link + "' target='_blank'>";
    assert s[..4] == "<li><a href='"[..4];
    s
  }

  function ItemClose(seenAt: string): (s: string)
    ensures |s| >= 5 && s[|s| - 5..] == "</li>"
  {
    var tail := "</span></li>";
    var s := "</a> <span class='time'>&nbsp;•&nbsp;" + seenAt + tail;
    assert s[|s| - 5..] == tail[|tail| - 5..];
    s
  }

  /** The list item for one database row: a single `<li>` element. */
  function ListItem(r: DbRow): (item: string)
    ensures |item| >= 9 && item[..4] == "<li>" && item[|item| - 5..] == "</li>"
  {
    ItemLine(Or(r.link, "#"), SafeTitle(r.title), PyStr(r.seenAt))
  }

  /** The first `m` elements of `a + b + c` are those of `a`, the last `n` those of `c`. */
  lemma ConcatEnds<T>(a: seq<T>, b: seq<T>, c: seq<T>, m: nat, n: nat)
    requires m <= |a| && n <= |c|
    ensures (a + b + c)[..m] == a[..m]
    ensures (a + b + c)[|a + b + c| - n..] == c[|c| - n..]
  {
    var s := a + b + c;
    assert forall i :: 0 <= i < m ==> s[..m][i] == a[i];
    var k := |a + b|;
    assert forall i :: 0 <= i < |c| ==> s[k + i] == c[i];
  }

  /** A row without title or link shows an empty title that links to "#". */
  lemma ListItemDefaults(r: DbRow)
    requires Or(r.title, "") == "" && Or(r.link, "") == ""
    ensures ListItem(r) == ItemLine("#", "", PyStr(r.seenAt))
  {
    assert SafeTitle(r.title) == "";
    assert Or(r.link, "#") == "#";
  }

  /** The page's style sheet line. */
  const StyleLine := "<style>body{font-family: -apple-system, Segoe UI, Roboto, Arial; padding:16px;} a{color:#0b5fff;text-decoration:none} .time{color:#666;font-size:12px} li{margin:.5rem 0}</style>"

  /**
   * The seven lines before the list items: doctype, charset, title, style
   * sheet, the heading with the limit, the generation time, and "<ol>".
   */
  function Prelude(limit: int, generatedAt: string): (lines: seq<string>)
    ensures |lines| == 7 && lines[0] == "<!doctype html>" && lines[6] == "<ol>"
  {
    ["<!doctype html>", "<meta charset='utf-8'>", "<title>Latest Jobs</title>", StyleLine,
     "<h1>Latest Jobs (top " + IntToDecimal(limit) + ")</h1>",
     "<p class='time'>Generated at " + generatedAt + "</p>",
     "<ol>"]
  }

  /** The list items for `rows`, in order. */
  function Items(rows: seq<DbRow>): seq<string> {
    if rows == [] then []
    else Items(rows[..|rows| - 1]) + [ListItem(rows[|rows| - 1])]
  }

  /** One list item per row, the `i`-th one for the `i`-th row. */
  lemma {:induction false} ItemsAt(rows: seq<DbRow>, i: nat)
    requires i < |rows|
    ensures |Items(rows)| == |rows|
    ensures Items(rows)[i] == ListItem(rows[i])
    decreases |rows|
  {
    var init, last := rows[..|rows| - 1], rows[|rows| - 1];
    var front := Items(init);
    assert Items(rows) == front + [ListItem(last)];
    if i < |init| {
      ItemsAt(init, i);
      assert init[i] == rows[i];
      assert Items(rows)[i] == front[i];
    } else {
      if init != [] {
        ItemsAt(init, 0);
      }
      assert i == |front| && rows[i] == last;
    }
  }

  /** The items of one more row are the items so far and that row's item. */
  lemma ItemsSnoc(rows: seq<DbRow>, i: nat)
    requires i < |rows|
    ensures Items(rows[..i + 1]) == Items(rows[..i]) + [ListItem(rows[i])]
  {
    assert rows[..i + 1][..i] == rows[..i];
  }

  /** All lines of the page for the selected rows. */
  function HtmlLines(limit: int, generatedAt: string, rows: seq<DbRow>): seq<string> {
    Prelude(limit, generatedAt) + Items(rows) + ["</ol>"]
  }

  /**
   * The page lists the `limit` newest rows, in order, between "<ol>" and
   * "</ol>", and a row's title appears with its angle brackets escaped.
   */
  lemma PageLayout(limit: int, generatedAt: string, ordered: seq<DbRow>, i: nat)
    requires i < |LimitRows(ordered, limit)|
    ensures var rows := LimitRows(ordered, limit);
      var lines := HtmlLines(limit, generatedAt, rows);
      && |lines| == |rows| + 8
      && lines[6] == "<ol>" && lines[|lines| - 1] == "</ol>"
      && lines[7 + i] == ListItem(ordered[i])
      && '<' !in SafeTitle(ordered[i].title) && '>' !in SafeTitle(ordered[i].title)
  {
    var rows := LimitRows(ordered, limit);
    var pre, items := Prelude(limit, generatedAt), Items(rows);
    ItemsAt(rows, i);
    assert |pre| == 7 && pre[6] == "<ol>";
    var lines := pre + items + ["</ol>"];
    assert lines == HtmlLines(limit, generatedAt, rows);
    assert lines[6] == pre[6];
    assert lines[7 + i] == items[i];
    assert rows[i] == ordered[i];
  }

  /** `build_html_from_db`: the text written to the page file. */
  method BuildHtmlFromDb(limit: int, ordered: seq<DbRow>, now: Timestamp) returns (text: string)
    requires ValidTimestamp(now)
    ensures text == JoinWith("\n", HtmlLines(limit, FormatTimestamp(now), LimitRows(ordered, limit)))
  {
    var rows := LimitRows(ordered, limit);
    var prelude := Prelude(limit, FormatTimestamp(now));
    var html := prelude;
    var i := 0;
    while i < |rows|
      invariant 0 <= i <= |rows|
      invariant html == prelude + Items(rows[..i])
    {
      ItemsSnoc(rows, i);
      AppendAssoc(prelude, Items(rows[..i]), [ListItem(rows[i])]);
      html := html + [ListItem(rows[i])];
      i := i + 1;
    }
    assert rows[..i] == rows;
    html := html + ["</ol>"];
    assert html == HtmlLines(limit, FormatTimestamp(now), rows);
    text := JoinWith("\n", html);
  }
}
