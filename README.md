# ig2hugo export core, modelled in Dafny

ig2hugo pages through an account's media list from the Instagram Graph API.
For each post it writes one Hugo content file. The file holds front matter
and an `{{< instagram … >}}` embed. All of this happens in one Go function,
`getAndProcessPosts` in `main.go`. This project models what that function
computes and proves properties of the model:

- `Text` (text.dfy): the two functions of Go's `strings` package that the
  function calls, `Split` and `TrimRight`, for one-character separators.
  `TrimRight`'s contract pins down its result. `Split`'s contract says there
  is at least one piece and no piece holds the separator; `JoinSplit` proves
  that joining the pieces gives the input back. `Join` is a reference
  definition with no contract of its own: it states that round trip and puts
  the lines of an output file together. `Split` is also tied to two
  reference definitions: `PrefixBefore` for its first piece and
  `LastSegment` for its last.
- `Posts` (posts.dfy): what is derived from one record.
  - the post id (the part of the raw id before the first `_`);
  - the two fixed patterns `instagram\.com/p/([^/]+)` and
    `instagram\.com/reel/([^/]+)`, modelled as a search for the leftmost
    literal marker followed by a non-slash, with the longest run of
    non-slash characters as the capture;
  - the shortcode fallback chain, whose last resort is `PathFallback`;
  - the file name `<day>-<id>.md`;
  - the file content.
- `Export` (export.dfy): the paging loop and the per-page record loop.
  - Each HTTP request's outcome is an input, given in request order as a
    `PageOutcome`: `FetchFailed`, `DecodeFailed`, or a `Page` with its
    records and `paging.next`.
  - Each record comes as an `Entry`. Besides the post, it carries the
    record's formatted dates and whether its write succeeded.
  - `ExportFile` is the file one record gives.
  - `Paginate` (the paging loop) and `ExportPage` (the record loop) are
    proved against the specification functions `Exported` and `Written`.
    `ExportPosts` runs the paging loop from `SeedUrl`. `Apply` gives the
    output directory after the writes.

Notes on the code's behaviour:

- `strings.TrimRight(p, "/")` strips all trailing slashes, not just one.
- The id can be empty: a raw id that is empty or starts with `_` gives an
  empty id. Nothing in the code rules this out.
- The `/p/` and `/reel/` captures stop only at a slash, so they include any
  `?query` text that follows the code.
- The guard `len(parts) > 0` at main.go:113 is always true, because
  `strings.Split` returns at least one piece (`Split`'s first ensures).

## Model

| member | source | states |
|---|---|---|
| `Text.PrefixBefore` | main.go:81 | the text before the first separator is a separator-free prefix that is the whole input or stops just before a separator |
| `Text.PrefixBeforeUnique` | main.go:81 | the text before the first separator is the only separator-free prefix that ends at the end of the input or just before a separator |
| `Text.LastSegmentSuffix` | main.go:114 | the text after the last separator is a suffix of the input |
| `Text.LastSegmentNoSep` | main.go:114 | the text after the last separator holds no separator |
| `Text.LastSegmentStart` | main.go:114 | the text after the last separator is the whole input or starts just after a separator |
| `Text.Split` | main.go:81 | `strings.Split` always returns at least one piece, and no piece holds the separator |
| `Text.JoinSplit` | main.go:81 | joining the pieces of a split with the separator gives the input back; with `Split`'s contract this fixes the pieces |
| `Text.SplitFirst` | main.go:81 | the first piece of a split is the text before the first separator (all of it when there is none) |
| `Text.SplitLast` | main.go:112-114 | the last piece of a split is the text after the last separator |
| `Text.SplitJoin` | main.go:130-141 | splitting undoes joining when no part holds the separator; this is how the rendered file reads back line by line |
| `Text.TrimRight` | main.go:112 | the result is a prefix of the input that does not end in the cut character, and everything removed was that character |
| `Posts.DeriveId` | main.go:81 | the id is a prefix of the raw id without `_`; it is the whole raw id or stops just before the first `_` |
| `Posts.FindFrom` | main.go:36-37 | returns the first index at or after the start where the pattern matches, with no match before it; returns None only when no match exists from the start on |
| `Posts.Submatch` | main.go:97 | there is no submatch exactly when the pattern matches nowhere; otherwise the submatch is the capture at the leftmost match, non-empty and slash-free |
| `Posts.Shortcode` | main.go:82-121 | an empty permalink gives the id; the shortcode is always the id or a non-empty text without a slash |
| `Posts.PathFallback` | main.go:111-119 | the last resort gives the id or a non-empty text without a slash |
| `Posts.PathFallbackIsLastSegment` | main.go:112-118 | the last resort takes the last segment of the permalink with trailing slashes trimmed, unless that segment is empty or equals the id, in which case it gives the id |
| `Posts.PostRule` | main.go:97-98 | the leftmost `/p/` match decides the shortcode, whatever `/reel/` matches the permalink also holds |
| `Posts.ReelRule` | main.go:102-103 | when `/p/` matches nowhere, the leftmost `/reel/` match decides the shortcode |
| `Posts.FallbackRule` | main.go:107-119 | when neither pattern matches a non-empty permalink, the shortcode is the last segment of the permalink with trailing slashes trimmed; if that segment is empty or equals the id, the shortcode is the id |
| `Posts.AllSlashes` | main.go:112-118 | a permalink made only of slashes gives the id |
| `Posts.MatchAfter` | main.go:36-37 | a marker that follows an `i`-free prefix and is followed by a slash-free code and then nothing or a path is the leftmost match, and its capture is the code |
| `Posts.CanonicalPostUrl` | main.go:97-98 | `https://www.instagram.com/p/<code>` followed by nothing or by a path gives `<code>` |
| `Posts.CanonicalReelUrl` | main.go:102-103 | `https://www.instagram.com/reel/<code>` followed by nothing or by a path gives `<code>` when `/p/` matches nowhere in it |
| `Posts.FileName` | main.go:129 | the name is `<day>-<id>.md`: the day, a dash, the id and `.md` can each be read back at fixed positions |
| `Posts.FileNameInjective` | main.go:129 | for days of equal length, equal file names mean equal days and equal ids |
| `Posts.Render` | main.go:130-141 | the file content starts with the front-matter opener `---` and a newline |
| `Posts.RenderEndsWithEmbed` | main.go:138-141 | the content ends with `{{< instagram <sc> >}}` for the same shortcode as its `shortcode:` line |
| `Posts.RenderLines` | main.go:130-141 | when no field holds a newline, the content splits back into exactly the twelve template lines: the front matter, the empty line and the embed |
| `Export.SeedUrl` | main.go:35 | the first URL is the v22.0 Graph API base, the user, the media query with its five fields and `access_token=`, then the token, each readable back at its position |
| `Export.StopsCases` | main.go:46-151 | `Stops`, the loop's exit test, holds exactly for a failed request (line 53), a body that does not decode (line 76) and a page whose `paging.next` is empty (lines 151 and 39) |
| `Export.ExportFile` | main.go:81-141 | a record's file is named `<day>-<id>.md` for its post id (a `_`-free prefix of the raw id), and its content opens the front matter and ends with the embed of the record's shortcode |
| `Export.Successes` | main.go:143-144 | a page has at most as many successful writes as records, so its records raise the counter by at most their number |
| `Export.FirstStop` | main.go:39-155 | the index of the first request outcome that ends the loop is within the outcomes and ends it, or is the number of outcomes when none ends it |
| `Export.FirstStopIsFirst` | main.go:39-155 | no outcome before that index ends the loop |
| `Export.FirstStopFound` | main.go:39-155 | some outcome ends the loop exactly when the first stop lies within the outcomes |
| `Export.WrittenCount` | main.go:80-149 | a page gives exactly one file per successful write, so never more files than records |
| `Export.AllSucceed` | main.go:143-148 | the counter rises by the page's record count exactly when every write on it succeeds |
| `Export.ExportedCount` | main.go:39-155 | the run never writes more files than it processes records |
| `Export.ExportPage` | main.go:80-149 | the record loop appends exactly the page's successful writes, in record order, and the counter rises by one for each of them |
| `Export.Paginate` | main.go:39-155 | the paging loop makes requests up to and including the first one that fails, does not decode or has no next URL, and none after it; the files written are exactly those `Exported` describes; the counter is their number |
| `Export.CollectedIsExported` | main.go:39-155 | gathering the files page by page until the first stopping outcome gives exactly `Exported` |
| `Export.ExportPosts` | main.go:34-156 | starting from the seed URL, the function makes `FirstStop(outcomes) + 1` requests, writes exactly the files `Exported(outcomes, ExportFile)` names (each file's name and content derived from its record), and returns their number |
| `Export.ExportedStopsAt` | main.go:39-155 | outcomes after one that stops the run do not change what is written or processed; records from later pages are never counted |
| `Export.Apply` | main.go:143 | the output directory afterwards holds the paths it held before plus the path of every successful write |
| `Export.LastWriteWins` | main.go:143 | a path holds the content of the last successful write to it |
| `Export.RunFiles` | main.go:129-144 | a run adds at most `count` new files to the output directory, since posts with the same day and id overwrite each other |

## Left out

- `main`, flag parsing, `os.MkdirAll` and the exit status (main.go:16-32): configuration and process plumbing.
- `http.Get`, the status check, `io.ReadAll` and `json.Unmarshal` (main.go:45-77). The outcome of each request is an input. On a transport error, line 47 reads `resp.StatusCode` from a nil response, which would panic in Go. The model treats that case as a plain stop (`FetchFailed`), like a non-200 status.
- `time.Parse`, the `time.Now` fallback and `t.Format` (main.go:123-129, 141): each `Entry` carries the two formatted date strings as opaque text.
- `os.WriteFile` (main.go:143): the `writeOk` flag of each `Entry` says whether it succeeded. `Apply` models the effect of the successful writes on the directory.
- RunFiles, Apply: a failed write is taken to leave the directory untouched. The Go call opens the file with create and truncate before it writes, so a write or close that fails after the open can leave a new or emptied file that `count` does not include.
- `filepath.Join` (main.go:129): only the base name is modelled. The output directory and the path cleaning are not.
- `time.Sleep` between pages and every `fmt.Printf` (main.go:42-153): no effect on what is computed.
- ExportPosts, Paginate: require that some outcome in their input stops the run. The Go loop would go on forever against a server that always returns a next URL, and that run is not modelled.
- ExportPosts: the URL of a request is not tied to the outcome that answers it, neither for the first request (`SeedUrl`, which the model uses only as a non-empty start) nor for the later ones (`paging.next`). Outcomes are given in request order.
- The general regular-expression engine: only the two fixed patterns are modelled. Text is a sequence of characters, not UTF-8 bytes. A non-slash is a non-slash either way, so the matches are the same.
- `Post.timestamp` is carried but not used: the code parses it with `time.Parse` (main.go:123) to get the file's date, and the model replaces that parse by the opaque `day` and `stamp` of each `Entry`. `Post.mediaUrl` is carried but not used, as in the code outside its debug output.
- Paginate, ExportPage: the loops are proved for any per-record derivation of a file (`derive`). `ExportPosts` instantiates it with `ExportFile`, the id, shortcode, name and content of main.go:81-141. The record loop is its own method rather than a loop nested in the paging loop; it is the same computation.
