/** The export run of `getAndProcessPosts` (main.go): fetch a page, write one
    file per record of the page, follow the page's `paging.next` URL, and
    count the files written successfully.

    The HTTP request, the body read and the JSON decoding of each page are
    not modelled; what each fetch gives is an input, one `PageOutcome` per
    request in the order the requests are made. Likewise the formatted dates
    of a record (from `time.Parse`, or `time.Now` when that fails) and the
    success of its `os.WriteFile` are carried by the record's `Entry`. */
module Export {
  import opened Text
  import opened Posts

  /** A record of the `data` array; fields missing in the JSON are empty. */
  datatype Post = Post(rawId: string, permalink: string, timestamp: string, mediaType: string, mediaUrl: string)

  /** A record together with what the environment answers while it is
      processed: the date formatted as `2006-01-02` (`day`) and as
      `2006-01-02T15:04:05-07:00` (`stamp`), and whether the write succeeded. */
  datatype Entry = Entry(post: Post, day: string, stamp: string, writeOk: bool)

  /** What one request gives: a transport error or non-200 status, a body that
      does not decode, or a decoded page with its records and `paging.next`. */
  datatype PageOutcome =
    | FetchFailed
    | DecodeFailed
    | Page(entries: seq<Entry>, next: string)

  /** A file as written: its base name and its content. */
  datatype File = File(name: string, content: string)

  /** The API endpoint and the query of the first request. */
  const ApiBase: string := "https://graph.instagram.com/v22.0/"
  const MediaQuery: string := "/media?fields=id,permalink,timestamp,media_type,media_url&access_token="

  /** The URL of the first request: the account's media list with the five
      fields the export reads, authorised by the token. */
  function SeedUrl(user: string, token: string): (url: string)
    ensures |url| == |ApiBase| + |user| + |MediaQuery| + |token|
    ensures url[..|ApiBase|] == ApiBase && url[|ApiBase|..|ApiBase| + |user|] == user
    ensures url[|ApiBase| + |user|..|url| - |token|] == MediaQuery && url[|url| - |token|..] == token
  {
    ApiBase + user + MediaQuery + token
  }

  /** Whether the run ends with this outcome: on an error, or on a page
      without a next URL. */
  predicate Stops(o: PageOutcome)
  {
    !o.Page? || o.next == ""
  }

  /** The three ways the loop ends: a failed request, a body that does not
      decode, or a page without `paging.next`; a page with a next URL goes on. */
  lemma StopsCases(o: PageOutcome)
    ensures Stops(o) <==> o.FetchFailed? || o.DecodeFailed? || (o.Page? && o.next == "")
  {
  }

  /** The file that one record produces: its name is `<day>-<id>.md` for the
      record's post id, and its content opens the front matter and ends with
      the embed of the record's shortcode. */
  function ExportFile(e: Entry): (f: File)
    ensures var id := DeriveId(e.post.rawId);
      |f.name| == |e.day| + |id| + 4 && f.name[..|e.day|] == e.day && f.name[|e.day|] == '-'
      && f.name[|e.day| + 1..|f.name| - 3] == id && f.name[|f.name| - 3..] == ".md"
    ensures |f.content| >= 4 && f.content[..4] == "---\n"
    ensures var embed := "{{< instagram " + Shortcode(e.post.permalink, DeriveId(e.post.rawId)) + " >}}";
      |embed| <= |f.content| && f.content[|f.content| - |embed|..] == embed
  {
    var id := DeriveId(e.post.rawId);
    var sc := Shortcode(e.post.permalink, id);
    RenderEndsWithEmbed(e.stamp, id, e.post.permalink, e.post.mediaType, sc);
    File(FileName(e.day, id), Render(e.stamp, id, e.post.permalink, e.post.mediaType, sc))
  }

  /** How many of the records' writes succeed. */
  function Successes(entries: seq<Entry>): (n: nat)
    ensures n <= |entries|
    decreases |entries|
  {
    if entries == [] then 0
    else Successes(entries[..|entries| - 1]) + (if entries[|entries| - 1].writeOk then 1 else 0)
  }

  /** The files written for the records of one page, in order: one for each
      record whose write succeeded, made from it by `derive` (which the run
      instantiates with `ExportFile`). */
  function Written(entries: seq<Entry>, derive: Entry -> File): seq<File>
    decreases |entries|
  {
    if entries == [] then []
    else
      var last := entries[|entries| - 1];
      Written(entries[..|entries| - 1], derive) + (if last.writeOk then [derive(last)] else [])
  }

  /** The records of the pages the run fetches and decodes, in order. */
  function Processed(outcomes: seq<PageOutcome>): seq<Entry>
  {
    if outcomes == [] then []
    else
      match outcomes[0]
      case Page(entries, next) =>
        entries + (if next == "" then [] else Processed(outcomes[1..]))
      case _ => []
  }

  /** The files the run writes, in order, when the requests give `outcomes`. */
  function Exported(outcomes: seq<PageOutcome>, derive: Entry -> File): seq<File>
  {
    if outcomes == [] then []
    else
      match outcomes[0]
      case Page(entries, next) =>
        Written(entries, derive) + (if next == "" then [] else Exported(outcomes[1..], derive))
      case _ => []
  }

  /** The index of the first outcome that stops the run, or the number of
      outcomes when none of them does. */
  function FirstStop(outcomes: seq<PageOutcome>): (n: nat)
    ensures n <= |outcomes|
    ensures n < |outcomes| ==> Stops(outcomes[n])
  {
    if outcomes == [] || Stops(outcomes[0]) then 0
    else 1 + FirstStop(outcomes[1..])
  }

  /** No outcome before `FirstStop` stops the run. */
  lemma {:induction false} FirstStopIsFirst(outcomes: seq<PageOutcome>, j: nat)
    requires j < FirstStop(outcomes)
    ensures !Stops(outcomes[j])
  {
    if j > 0 {
      FirstStopIsFirst(outcomes[1..], j - 1);
      assert outcomes[1..][j - 1] == outcomes[j];
    }
  }

  /** Some outcome stops the run exactly when the first stop lies within the
      outcomes. */
  lemma FirstStopFound(outcomes: seq<PageOutcome>)
    ensures (exists j :: 0 <= j < |outcomes| && Stops(outcomes[j])) <==> FirstStop(outcomes) < |outcomes|
  {
    if FirstStop(outcomes) == |outcomes| {
      forall j | 0 <= j < |outcomes| ensures !Stops(outcomes[j]) {
        FirstStopIsFirst(outcomes, j);
      }
    }
  }

  /** The whole export for an account: the first request goes to the seed
      URL, and the run then follows `paging.next`. */
  method ExportPosts(user: string, token: string, outcomes: seq<PageOutcome>)
    returns (count: nat, fetches: nat, written: seq<File>)
    requires exists j :: 0 <= j < |outcomes| && Stops(outcomes[j])
    ensures fetches == FirstStop(outcomes) + 1
    ensures written == Exported(outcomes, ExportFile)
    ensures count == |written|
  {
    count, fetches, written := Paginate(SeedUrl(user, token), outcomes, ExportFile);
  }

  /** The paging loop from a non-empty first URL: the run makes requests up
      to and including the first outcome that stops it, writes exactly the
      files `Exported` describes, and counts them. The requests are assumed
      to stop eventually: some outcome in `outcomes` stops the run. */
  method Paginate(seed: string, outcomes: seq<PageOutcome>, derive: Entry -> File)
    returns (count: nat, fetches: nat, written: seq<File>)
    requires seed != ""
    requires exists j :: 0 <= j < |outcomes| && Stops(outcomes[j])
    ensures fetches == FirstStop(outcomes) + 1
    ensures written == Exported(outcomes, derive)
    ensures count == |written|
  {
    FirstStopFound(outcomes);
    count, fetches, written := 0, 0, [];
    var url := seed;
    while url != ""
      invariant url != "" ==> fetches <= FirstStop(outcomes)
      invariant url == "" ==> fetches == FirstStop(outcomes) + 1
      invariant written == Collected(outcomes, fetches, derive)
      invariant count == |written|
      decreases |outcomes| - fetches
    {
      var outcome := outcomes[fetches];
      if fetches < FirstStop(outcomes) {
        FirstStopIsFirst(outcomes, fetches);
      }
      fetches := fetches + 1;
      if !outcome.Page? {
        break;
      }
      count, written := ExportPage(outcome.entries, derive, count, written);
      url := outcome.next;
    }
    CollectedIsExported(outcomes, derive);
  }

  /** The files of a page outcome: none for an error. */
  function PageFiles(outcome: PageOutcome, derive: Entry -> File): seq<File>
  {
    if outcome.Page? then Written(outcome.entries, derive) else []
  }

  /** The files of the first `n` outcomes, in the order the loop gathers them. */
  function Collected(outcomes: seq<PageOutcome>, n: nat, derive: Entry -> File): seq<File>
    requires n <= |outcomes|
  {
    if n == 0 then [] else Collected(outcomes, n - 1, derive) + PageFiles(outcomes[n - 1], derive)
  }

  /** Gathering pages up to and including the first one that stops the run
      gives exactly the files `Exported` describes. */
  lemma {:induction false} CollectedIsExported(outcomes: seq<PageOutcome>, derive: Entry -> File)
    requires FirstStop(outcomes) < |outcomes|
    ensures Collected(outcomes, FirstStop(outcomes) + 1, derive) == Exported(outcomes, derive)
  {
    var n := FirstStop(outcomes);
    CollectedShift(outcomes, n + 1, derive);
    ExportedFirst(outcomes, derive);
    if n > 0 {
      CollectedIsExported(outcomes[1..], derive);
    }
  }

  /** The files of a run: those of its first page, then, unless that page
      stops the run, those of the rest. */
  lemma ExportedFirst(outcomes: seq<PageOutcome>, derive: Entry -> File)
    requires outcomes != []
    ensures Exported(outcomes, derive)
      == PageFiles(outcomes[0], derive) + (if Stops(outcomes[0]) then [] else Exported(outcomes[1..], derive))
  {
  }

  /** Gathering from the second outcome on misses only the first page. */
  lemma {:induction false} CollectedShift(outcomes: seq<PageOutcome>, n: nat, derive: Entry -> File)
    requires 1 <= n <= |outcomes|
    ensures Collected(outcomes, n, derive) == PageFiles(outcomes[0], derive) + Collected(outcomes[1..], n - 1, derive)
  {
    if n > 1 {
      CollectedShift(outcomes, n - 1, derive);
      assert outcomes[1..][n - 2] == outcomes[n - 1];
    }
  }

  /** The inner loop of the run: one write per record of a page, the counter
      rising exactly on the writes that succeed. */
  method ExportPage(entries: seq<Entry>, derive: Entry -> File, count0: nat, written0: seq<File>)
    returns (count: nat, written: seq<File>)
    requires count0 == |written0|
    ensures written == written0 + Written(entries, derive)
    ensures count == count0 + Successes(entries) && count == |written|
  {
    count, written := count0, written0;
    var k := 0;
    while k < |entries|
      invariant k <= |entries|
      invariant written == written0 + Written(entries[..k], derive)
      invariant count == |written|
    {
      var e := entries[k];
      WrittenSnoc(entries, k, derive);
      if e.writeOk {
        var file := derive(e);
        written := written + [file];
        count := count + 1;
      }
      k := k + 1;
    }
    assert entries[..k] == entries;
    WrittenCount(entries, derive);
  }

  /** Processing one more record appends its file when its write succeeds. */
  lemma WrittenSnoc(entries: seq<Entry>, k: nat, derive: Entry -> File)
    requires k < |entries|
    ensures Written(entries[..k + 1], derive)
      == Written(entries[..k], derive) + (if entries[k].writeOk then [derive(entries[k])] else [])
  {
    assert entries[..k + 1][..k] == entries[..k];
  }

  /** A page gives one file per successful write, so never more files than
      records. */
  lemma {:induction false} WrittenCount(entries: seq<Entry>, derive: Entry -> File)
    ensures |Written(entries, derive)| == Successes(entries) <= |entries|
    decreases |entries|
  {
    if entries != [] {
      WrittenCount(entries[..|entries| - 1], derive);
    }
  }

  /** The run never writes more files than it processes records. */
  lemma {:induction false} ExportedCount(outcomes: seq<PageOutcome>, derive: Entry -> File)
    ensures |Exported(outcomes, derive)| <= |Processed(outcomes)|
  {
    if outcomes != [] && outcomes[0].Page? {
      WrittenCount(outcomes[0].entries, derive);
      if outcomes[0].next != "" {
        ExportedCount(outcomes[1..], derive);
      }
    }
  }

  /** A page's writes all succeed exactly when it produces one file per
      record. */
  lemma {:induction false} AllSucceed(entries: seq<Entry>)
    ensures Successes(entries) == |entries| <==> forall k :: 0 <= k < |entries| ==> entries[k].writeOk
    decreases |entries|
  {
    if entries != [] {
      var init := entries[..|entries| - 1];
      var last := entries[|entries| - 1];
      AllSucceed(init);
      if forall k :: 0 <= k < |entries| ==> entries[k].writeOk {
        assert forall k :: 0 <= k < |init| ==> init[k].writeOk by {
          forall k | 0 <= k < |init| ensures init[k].writeOk {
            assert init[k] == entries[k];
          }
        }
      }
      if Successes(entries) == |entries| {
        assert Successes(init) == |init| && last.writeOk;
        forall k | 0 <= k < |entries| ensures entries[k].writeOk {
          if k < |init| {
            assert init[k] == entries[k];
          }
        }
      }
    }
  }

  /** Nothing after the first outcome that stops the run matters: the pages
      that come after an error or a page without a next URL are never
      fetched, and none of their records is written or counted. */
  lemma {:induction false} ExportedStopsAt(outcomes: seq<PageOutcome>, j: nat, derive: Entry -> File)
    requires j < |outcomes| && Stops(outcomes[j])
    ensures Exported(outcomes, derive) == Exported(outcomes[..j + 1], derive)
    ensures Processed(outcomes) == Processed(outcomes[..j + 1])
  {
    if j > 0 {
      ExportedStopsAt(outcomes[1..], j - 1, derive);
      assert outcomes[1..][..j] == outcomes[..j + 1][1..];
    }
  }

  /** The set of file names in a sequence of writes. */
  function Names(files: seq<File>): (names: set<string>)
    ensures |names| <= |files|
    ensures forall k :: 0 <= k < |files| ==> files[k].name in names
  {
    if files == [] then {} else {files[0].name} + Names(files[1..])
  }

  /** The output directory after the writes `files`, applied in order to
      `disk`; a write replaces what the path held before. */
  function Apply(disk: map<string, string>, files: seq<File>): (after: map<string, string>)
    ensures after.Keys == disk.Keys + Names(files)
    decreases |files|
  {
    if files == [] then disk
    else Apply(disk[files[0].name := files[0].content], files[1..])
  }

  /** Last write wins: a path holds the content of the last write to it. */
  lemma {:induction false} LastWriteWins(disk: map<string, string>, files: seq<File>, k: nat)
    requires k < |files|
    requires forall j :: k < j < |files| ==> files[j].name != files[k].name
    ensures files[k].name in Apply(disk, files)
    ensures Apply(disk, files)[files[k].name] == files[k].content
    decreases |files|
  {
    var next := disk[files[0].name := files[0].content];
    if k == 0 {
      Untouched(next, files[1..], files[0].name);
    } else {
      LastWriteWins(next, files[1..], k - 1);
    }
  }

  /** Writes to other paths leave a path as it was. */
  lemma {:induction false} Untouched(disk: map<string, string>, files: seq<File>, name: string)
    requires name in disk
    requires forall j :: 0 <= j < |files| ==> files[j].name != name
    ensures Apply(disk, files)[name] == disk[name]
    decreases |files|
  {
    if files != [] {
      Untouched(disk[files[0].name := files[0].content], files[1..], name);
    }
  }

  /** A run leaves at most `count` new files in the output directory: posts
      with the same day and id overwrite each other. */
  lemma RunFiles(outcomes: seq<PageOutcome>, disk: map<string, string>)
    ensures |Apply(disk, Exported(outcomes, ExportFile)).Keys - disk.Keys| <= |Exported(outcomes, ExportFile)|
  {
  }
}
