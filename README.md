# Job-board scraper: record extraction and output, in Dafny

The repository is a job-listing bot built on a headless browser. Its site
modules turn listing pages into records with the keys `job_id`, `title`,
`company`, `location` and `link`:
- `extract_seek_jobs` reads a Seek (seek.co.nz) search page;
- `extract_linkedin_jobs` reads a LinkedIn jobs search page.

Its output module provides two writers:
- `append_new_jobs_csv` appends records to a CSV log;
- `build_html_from_db` renders the most recent rows of a `jobs` table as an
  HTML page.

The entry point `main.py` calls only `extract_seek_jobs` and sends a
notification for each record it returns (`main.py:40-46`). It creates a
`jobs` table in `init_db` (`main.py:20-31`) but never reads or writes it, so
there is no ledger of jobs already seen and no policy for keeping them.

This project models the part of that code which is logic rather than
browser automation:

- **normalise.** `_norm` collapses runs of whitespace, trims the text and
  maps blank input to `None` (module `Normalize`). The two adapters carry
  identical copies of it, at `sites/seek_adapter.py:208-211` and
  `sites/linkedin_adapter.py:10-14`. The model defines it once.
- **Seek adapter** (module `SeekAdapter`):
  - extracts the job id from a link, the digits after the leftmost "/job/"
    (the regular-expression search is modelled in module `Regex`);
  - makes links absolute;
  - collects anchors over three selector passes, keeping the first anchor
    for each link;
  - builds one record per kept anchor, with placeholder texts.
- **LinkedIn adapter** (module `LinkedinAdapter`):
  - detects the login wall;
  - takes company and location from the first selector that yields text;
  - extracts the job id from the `currentJobId` query value or from the
    `/jobs/view/<digits>` path. Query parsing and `urljoin` are modelled in
    module `Urls`.
  - builds one record per card that has a title link.
- **outputs** (module `Outputs`):
  - the CSV records of `append_new_jobs_csv`, with a header only for a new
    file and one timestamped row per job;
  - the HTML page of `build_html_from_db`, with its fixed prelude, one
    escaped `<li>` per database row and the closing `</ol>`.

Module `Strings` holds the Python string built-ins the code relies on:
`split()`, `" ".join`, `in`, `lower()`, `replace`, `startswith` and `str(int)`.
Module `Jobs` holds the record datatype and its dict view.

The browser and the page are inputs:
- A Seek selector pass is the sequence of anchors it returned. Each anchor
  has its `href`, its inner text, and the company and location that the
  in-page script found.
- A LinkedIn card has its title link, if any. For each company and location
  selector it has the inner text of the element found, or `None` when no
  element was found or reading its text raised.
- The page URL and HTML are strings.
- The clock reading, whether the CSV file exists, and the database rows in
  `ORDER BY` order are parameters.

The imperative parts of the source are methods with loops, proved against
specification functions:
- `CollectAnchors` (nested loops with the `seen` set);
- `BuildSeekJobs`, `TextFirst` (early return) and `ExtractLinkedinJobs`;
- `AppendNewJobsCsv` and `BuildHtmlFromDb`.

## Model

| member | source | states |
|---|---|---|
| Normalize.Norm | sites/seek_adapter.py:208-211 | `None` exactly when the input is `None`, empty or whitespace-only; otherwise a non-empty text without leading, trailing or doubled spaces, whose only whitespace is ' ', with the same words as the input (the LinkedIn copy at sites/linkedin_adapter.py:10-14 is the same function) |
| Normalize.NormKeepsCharacters | sites/seek_adapter.py:210-211 | the non-whitespace characters of the result are those of the input, in order |
| Normalize.NormFixesNormal | sites/seek_adapter.py:208-211 | a text already in normal form is returned unchanged |
| Normalize.NormIsUnique | sites/seek_adapter.py:210 | the result is the only normal-form text with the input's words |
| Normalize.NormIdempotent | sites/seek_adapter.py:208-211 | `_norm(_norm(s)) == _norm(s)` |
| Strings.Words | sites/seek_adapter.py:210 | `str.split()`: every piece is non-empty and free of whitespace |
| Regex.SearchDigits | sites/seek_adapter.py:214 | no group exactly when the prefix is never followed by a digit; otherwise the maximal digit run after the leftmost such occurrence |
| Regex.SearchFindsPlanted | sites/seek_adapter.py:214 | a prefix followed by a maximal digit run, with no earlier match, yields exactly those digits |
| SeekAdapter.JobIdFromUrl | sites/seek_adapter.py:213-215 | `""` for `None`/empty; the URL unchanged when nothing matches; else the maximal digit run after the leftmost "/job/" followed by a digit, which is non-empty and all digits |
| SeekAdapter.JobIdOfSeekUrl | sites/seek_adapter.py:213-215 | the link "https://www.seek.co.nz/job/<digits><rest>", rest not starting with a digit, has id `<digits>` |
| SeekAdapter.Canonical | sites/seek_adapter.py:237 | the link starts with "http"; an href starting with "http" is kept as it is |
| SeekAdapter.KeepFirst | sites/seek_adapter.py:235-241 | every kept anchor has an href, and its link was not seen before |
| SeekAdapter.Collected | sites/seek_adapter.py:230-241 | every collected anchor was returned by some pass and has an href |
| SeekAdapter.CollectAnchors | sites/seek_adapter.py:230-241 | the loops over the passes compute the specification `Collected(passes)` |
| SeekAdapter.KeepFirstSelects | sites/seek_adapter.py:232-241 | the kept anchors are exactly those at the first-occurrence indices of each unseen link, in increasing index order |
| SeekAdapter.CollectedAreFirstOccurrences | sites/seek_adapter.py:230-241 | the collected anchors are the first occurrence of each link over all passes, in pass order |
| SeekAdapter.CollectedLinksDistinct | sites/seek_adapter.py:238-240 | no two collected anchors have the same link |
| SeekAdapter.EveryLinkCollected | sites/seek_adapter.py:232-241 | every link offered by any pass is the link of some collected anchor |
| SeekAdapter.SeekJob | sites/seek_adapter.py:249-252 | no field of a Seek record is empty and the link starts with "http" |
| SeekAdapter.SeekJobFields | sites/seek_adapter.py:250-252 | the link starts with "http" and the id is non-empty; title, company and location are the normalised texts or "Unknown title"/"Unknown"/"Unknown" |
| SeekAdapter.SeekJobsInOrder | sites/seek_adapter.py:366-372 | one job per anchor: the n-th job is built from the n-th anchor |
| SeekAdapter.SeekJobs | sites/seek_adapter.py:248-252 | the record loop builds one job per anchor |
| SeekAdapter.BuildSeekJobs | sites/seek_adapter.py:248-252 | the record loop computes the specification `SeekJobs(anchors)` |
| SeekAdapter.ExtractSeekJobs | sites/seek_adapter.py:230-252 | the adapter's jobs are `SeekJobs(Collected(passes))` |
| Urls.FirstValue | sites/linkedin_adapter.py:23 | the first value given for the key, `None` exactly when the key is absent |
| Urls.QueryOf | sites/linkedin_adapter.py:21-22 | the query part has no '#', and a URL without '?' has an empty query |
| Urls.ParseQuery | sites/linkedin_adapter.py:22 | no parsed pair has a blank value, and a query without '=' has no pairs |
| Urls.QueryValue | sites/linkedin_adapter.py:21-23 | a value found in the query is never blank (`parse_qs` drops blank values) |
| Urls.NoQueryNoValue | sites/linkedin_adapter.py:22 | a URL without '?' has a value for no key |
| Urls.ParseEncodeQuery | sites/linkedin_adapter.py:22 | parsing an encoded query of plain pairs gives the pairs back, in order |
| Urls.QueryOfJoined | sites/linkedin_adapter.py:21 | the query of `base?query` (no '?' or '#' in base, no '#' in query) is `query` |
| Urls.CleanRef | sites/linkedin_adapter.py:100 | the href as `urljoin` reads it has no tab, carriage return or line feed and does not start with a control character or a space |
| Urls.JoinToOrigin | sites/linkedin_adapter.py:100 | joining onto a non-empty origin gives a non-empty link; a ref with neither a scheme nor a host stays on the origin |
| Urls.JoinEmptyHost | sites/linkedin_adapter.py:100 | a ref of "//" with an empty host keeps the origin's host: what follows the slashes is appended to the origin |
| Urls.JoinRootRelative | sites/linkedin_adapter.py:100 | a root-relative href is appended to the origin once its tabs and line breaks are deleted |
| Urls.JoinSkipsLeading | sites/linkedin_adapter.py:100 | leading control characters and spaces do not change where an href without ':' leads |
| LinkedinAdapter.JobIdFromLink | sites/linkedin_adapter.py:16-29 | `""` exactly for `None`/empty; a non-blank `currentJobId` value wins; else the digits after the leftmost "/jobs/view/" followed by a digit; else the href unchanged |
| LinkedinAdapter.JobIdFromQuery | sites/linkedin_adapter.py:20-25 | a link whose query holds `currentJobId` yields its first value, whatever the path |
| LinkedinAdapter.JobIdFromViewPath | sites/linkedin_adapter.py:28-29 | "https://www.linkedin.com/jobs/view/<digits><rest>" without a query yields `<digits>` |
| LinkedinAdapter.FirstText | sites/linkedin_adapter.py:31-42 | `None` exactly when no candidate normalises to a text; else the normalised text of the first candidate that does |
| LinkedinAdapter.TextFirst | sites/linkedin_adapter.py:31-42 | the early-return loop computes `FirstText` |
| LinkedinAdapter.LoginWall | sites/linkedin_adapter.py:54-56 | a URL containing "linkedin.com/checkpoint" or "linkedin.com/login", or HTML containing "sign in", makes the page a login wall |
| LinkedinAdapter.SignInAnyCase | sites/linkedin_adapter.py:54-56 | a page whose HTML contains "sign in" in any letter case is a login wall |
| LinkedinAdapter.CardJob | sites/linkedin_adapter.py:97-127 | no field of a LinkedIn record is empty |
| LinkedinAdapter.CardJobs | sites/linkedin_adapter.py:88-127 | at most one job per card, and each job is the job of a card that has a title link |
| LinkedinAdapter.ViewCardJob | sites/linkedin_adapter.py:98-119 | a title href "/jobs/view/" followed by digits and a rest (without '?', '#', ';' or '.') becomes the absolute LinkedIn link with those digits as job id; tabs and line breaks anywhere after the prefix, even between the digits, are deleted first |
| LinkedinAdapter.CardJobsAppend | sites/linkedin_adapter.py:88-127 | the jobs of `a + b` are those of `a`, then those of `b` (card order is kept) |
| LinkedinAdapter.CardJobsSingle | sites/linkedin_adapter.py:90-95 | a card yields one job if it has a title link and none otherwise |
| LinkedinAdapter.CardJobFields | sites/linkedin_adapter.py:97-119 | the link is the href joined onto the origin and the id is taken from that link; the title is the normalised title text; company and location are the `FirstText` results; each falls back to "Unknown title"/"Unknown"/"Unknown" |
| LinkedinAdapter.ExtractLinkedinJobs | sites/linkedin_adapter.py:54-129 | no jobs on a login wall; otherwise the specification `CardJobs(cards)` |
| Outputs.FormatTimestamp | outputs.py:22 | the timestamp text has 19 characters |
| Outputs.TimestampRoundTrip | outputs.py:22 | reading the "YYYY-MM-DD HH:MM:SS" text back gives the clock reading |
| Outputs.CsvRow | outputs.py:24-25 | six cells: the time, then each header column's value, "" when the key is missing |
| Outputs.CsvRowsAt | outputs.py:23-25 | one record per job, in order, all with the same time |
| Outputs.CsvRowOfJob | outputs.py:24-25 | an adapter's record is written as time, id, title, company, location, link |
| Outputs.HeaderOnlyWhenNew | outputs.py:17-21 | a record is the header exactly when the file was new and it is the first record |
| Outputs.HeaderFirstOnly | outputs.py:20-25 | for any time text other than "seen_at", a record is the header exactly when the file was new and it is the first record |
| Outputs.AppendNewJobsCsv | outputs.py:14-25 | the records handed to the writer are `CsvAppended(fileExists, time, jobs)` |
| Outputs.LimitRows | outputs.py:41 | `LIMIT n` keeps the first `min(n, rows)` rows; a negative limit keeps all |
| Outputs.EscapedChars | outputs.py:57 | the per-character escape has no '<' or '>' |
| Outputs.EscapeIsPerChar | outputs.py:57 | the two chained replacements escape each character on its own: '<' and '>' become entities, all else ('&', quotes) is kept |
| Outputs.EscapeText | outputs.py:57 | an escaped title has no '<' or '>' and is never shorter than the title |
| Outputs.EscapeIdentity | outputs.py:57 | a title without '<' and '>' is unchanged |
| Outputs.EscapeIdempotent | outputs.py:57 | escaping twice is escaping once |
| Outputs.UnescapeEscape | outputs.py:57 | a title without '&' reads back as itself once the entities are decoded |
| Outputs.ListItem | outputs.py:56-59 | each database row becomes one `<li>` element |
| Outputs.ListItemDefaults | outputs.py:56-59 | a row whose title and link are NULL or empty shows an empty title linking to "#" |
| Outputs.ItemsAt | outputs.py:55-59 | one list item per row, the i-th for the i-th row |
| Outputs.Prelude | outputs.py:46-54 | seven lines, from "<!doctype html>" to "<ol>" |
| Outputs.PageLayout | outputs.py:46-60 | 7 prelude lines ending with "<ol>", one item per selected row in order, then "</ol>"; the titles carry no angle brackets |
| Outputs.BuildHtmlFromDb | outputs.py:46-62 | the page text is the lines of `HtmlLines` joined with newlines |
| Strings.DecimalRoundTrip | outputs.py:51 | the decimal text of a non-negative limit reads back as the limit |
| Strings.IntDecimalRoundTrip | outputs.py:51 | the limit text in the heading starts with "-" exactly when the limit is negative, and its digits read back as the limit |

## Left out

- Browser automation is not modelled: waiting, scrolling, clicking "show more", and querying selectors on a live page. Its results are inputs.
- The in-page script that finds a Seek anchor's company and location runs in JavaScript on a live page. Its results are fields of `Anchor`.
- The commented-out first version of the Seek adapter is dead code and not modelled.
- Debug output is not modelled: the `debug_cards` files and the login-wall message.
- File and clock effects are not modelled: creating the output directory, opening and appending to the CSV, and writing the HTML file. The file's existence and the clock reading are parameters.
- `csv.writer` quoting and the file encodings are not modelled. The CSV model stops at the cell lists handed to the writer.
- The SQLite query `ORDER BY datetime(seen_at) DESC` is not modelled; its rows are an input in that order. `LIMIT` is modelled.
- `init_db`, the main loop, the sleep and the notifications of `main.py` are outside this model.
- SeekAdapter.BuildSeekJobs: the record loop reads each anchor's `href` a second time; the model assumes it gets the same value as the collection loop.
- Urls.ParseQuery: splits on '&' only, as Python 3.9.2 and later do. It does no percent-decoding.
- Urls.QueryOf: does not apply `urlsplit`'s clean-up of control characters. The joined links it reads are already clean, except a link with a scheme other than https, which `urljoin` returns as given.
- Urls.JoinToOrigin: handles `urljoin` only against an origin with an empty path. It models the clean-up `urlsplit` does (leading control characters and spaces stripped, tabs and line breaks deleted) and the lower-casing of the scheme. It does not rebuild the link the way `urlunparse` does:
  - an empty query or fragment is kept, where Python drops the '?' or '#' (so the ref "?" gives the origin followed by '?', and "https://www.linkedin.com/jobs/view/1?" keeps its '?');
  - an empty parameter part after ';' is kept, where Python drops the ';';
  - dot segments are not removed and empty segments are not filtered;
  - a ref such as "https:x", with the origin's scheme but no host, is not resolved against the origin;
  - a ref with a malformed host, for example "//[::1" with '[' but no ']', makes `urlsplit` raise `ValueError`. Nothing in the LinkedIn adapter catches it, so it ends the whole extraction. The model returns a link instead.
- LinkedinAdapter.ViewCardJob: covers only a rest without '?', '#', ';' or '.', because for those characters the model's `JoinToOrigin` does not build the link Python does (see the Urls.JoinToOrigin line).
- Normalize.Norm: uses the full set of characters that Python's `str.isspace` accepts.
- Regex.SearchDigits: `\d` matches only the ASCII digits.
- Strings.Lower: changes only the ASCII letters.
- Outputs.FormatTimestamp: requires a year from 1000 to 9999. How `%Y` pads earlier years depends on the platform.
