/** What the exporter derives from one post record (main.go, the body of the
    inner loop of `getAndProcessPosts`): the post id, the shortcode, the name
    of the output file and the text written into it. */
module Posts {
  import opened Wrappers
  import opened Text

  /** The literal text of the two fixed patterns `instagram\.com/p/([^/]+)`
      and `instagram\.com/reel/([^/]+)`, without their capture group. */
  const PostMarker: string := "instagram.com/p/"
  const ReelMarker: string := "instagram.com/reel/"

  /** The post id: the first `_`-separated component of the raw id. It is a
      prefix of the raw id without `_`, and it stops either at the end of the
      raw id or just before its first `_`. */
  function DeriveId(rawId: string): (id: string)
    ensures id <= rawId && '_' !in id
    ensures id == rawId || (|id| < |rawId| && rawId[|id|] == '_')
  {
    SplitFirst(rawId, '_');
    Split(rawId, '_')[0]
  }

  /** Whether a pattern `marker([^/]+)` matches `s` starting at index `k`: the
      marker sits at `k` and at least one character follows it, which is not
      a slash. */
  predicate MatchesAt(s: string, marker: string, k: nat)
  {
    k + |marker| < |s| && s[k..k + |marker|] == marker && s[k + |marker|] != '/'
  }

  /** `k` is where the leftmost match of `marker([^/]+)` in `s` starts. */
  predicate Leftmost(s: string, marker: string, k: nat)
  {
    MatchesAt(s, marker, k) && forall j :: 0 <= j < k ==> !MatchesAt(s, marker, j)
  }

  /** The text the capture group `([^/]+)` takes for a match at `k`: the
      longest slash-free run after the marker. */
  function Capture(s: string, marker: string, k: nat): string
    requires k + |marker| <= |s|
  {
    PrefixBefore(s[k + |marker|..], '/')
  }

  /** The first index at or after `i` where the pattern matches, if any. */
  function FindFrom(s: string, marker: string, i: nat): (r: Option<nat>)
    requires i <= |s|
    ensures r.Some? ==> i <= r.value && MatchesAt(s, marker, r.value)
    ensures r.Some? ==> forall j :: i <= j < r.value ==> !MatchesAt(s, marker, j)
    ensures r.None? ==> forall j :: i <= j ==> !MatchesAt(s, marker, j)
    decreases |s| - i
  {
    if i + |marker| >= |s| then None
    else if MatchesAt(s, marker, i) then Some(i)
    else FindFrom(s, marker, i + 1)
  }

  /** `FindStringSubmatch(s)[1]` for the pattern `marker([^/]+)`: the capture
      of the leftmost match, or `None` when the pattern does not match. */
  function Submatch(s: string, marker: string): (m: Option<string>)
    ensures m.None? <==> forall k :: !MatchesAt(s, marker, k)
    ensures forall k :: Leftmost(s, marker, k) ==> m == Some(Capture(s, marker, k))
    ensures m.Some? ==> m.value != [] && '/' !in m.value
  {
    match FindFrom(s, marker, 0)
    case Some(k) => Some(Capture(s, marker, k))
    case None => None
  }

  /** The shortcode of a post with permalink `permalink` and id `id`: the
      `/p/` capture, else the `/reel/` capture, else the last path segment
      when it is non-empty and not the id, else the id. It is always the id
      or a non-empty text without a slash. */
  function Shortcode(permalink: string, id: string): (sc: string)
    ensures permalink == [] ==> sc == id
    ensures sc == id || (sc != [] && '/' !in sc)
  {
    if permalink == [] then id
    else
      match Submatch(permalink, PostMarker)
      case Some(c) => c
      case None =>
        match Submatch(permalink, ReelMarker)
        case Some(c) => c
        case None => PathFallback(permalink, id)
  }

  /** The last resort for a permalink neither pattern matches: the last
      `/`-separated piece of the permalink without its trailing slashes, when
      that piece is non-empty and differs from the id; otherwise the id. */
  function PathFallback(permalink: string, id: string): (sc: string)
    ensures sc == id || (sc != [] && '/' !in sc)
  {
    var parts := Split(TrimRight(permalink, '/'), '/');
    var candidate := parts[|parts| - 1];
    if candidate != [] && candidate != id then candidate else id
  }

  /** The piece `PathFallback` looks at is the last segment of the trimmed
      permalink. */
  lemma PathFallbackIsLastSegment(permalink: string, id: string)
    ensures var seg := LastSegment(TrimRight(permalink, '/'), '/');
      PathFallback(permalink, id) == if seg != [] && seg != id then seg else id
  {
    var t := TrimRight(permalink, '/');
    var parts := Split(t, '/');
    var candidate := parts[|parts| - 1];
    SplitLast(t, '/');
    assert candidate == LastSegment(t, '/');
    if candidate != [] && candidate != id {
      assert PathFallback(permalink, id) == candidate;
    } else {
      assert PathFallback(permalink, id) == id;
    }
  }

  /** A `/p/` match decides the shortcode, whatever else the permalink holds
      (a `/reel/` match included, before or after it). */
  lemma PostRule(permalink: string, id: string, k: nat)
    requires Leftmost(permalink, PostMarker, k)
    ensures Shortcode(permalink, id) == Capture(permalink, PostMarker, k)
  {
  }

  /** Without a `/p/` match, a `/reel/` match decides the shortcode. */
  lemma ReelRule(permalink: string, id: string, k: nat)
    requires forall j :: !MatchesAt(permalink, PostMarker, j)
    requires Leftmost(permalink, ReelMarker, k)
    ensures Shortcode(permalink, id) == Capture(permalink, ReelMarker, k)
  {
  }

  /** Without either match, a non-empty permalink gives the last segment of
      the permalink stripped of its trailing slashes, unless that segment is
      empty or equal to the id, in which case it gives the id. */
  lemma FallbackRule(permalink: string, id: string)
    requires permalink != []
    requires forall j :: !MatchesAt(permalink, PostMarker, j)
    requires forall j :: !MatchesAt(permalink, ReelMarker, j)
    ensures var seg := LastSegment(TrimRight(permalink, '/'), '/');
      Shortcode(permalink, id) == if seg != [] && seg != id then seg else id
  {
    assert Submatch(permalink, PostMarker).None?;
    assert Submatch(permalink, ReelMarker).None?;
    PathFallbackIsLastSegment(permalink, id);
  }

  /** Neither pattern can match a text without the letter `i`. */
  lemma NoMatchWithoutI(s: string, marker: string, k: nat)
    requires marker != [] && marker[0] == 'i'
    requires MatchesAt(s, marker, k)
    ensures s[k] == 'i'
  {
  }

  /** A permalink made of slashes only gives the id. */
  lemma AllSlashes(permalink: string, id: string)
    requires permalink != []
    requires forall k :: 0 <= k < |permalink| ==> permalink[k] == '/'
    ensures Shortcode(permalink, id) == id
  {
  }

  /** A marker placed after a prefix without the letter `i`, followed by a
      slash-free code and then nothing or a path, matches there first and
      captures the code. */
  lemma {:induction false} MatchAfter(prefix: string, marker: string, code: string, rest: string)
    requires marker != [] && marker[0] == 'i' && 'i' !in prefix
    requires code != [] && '/' !in code
    requires rest == [] || rest[0] == '/'
    ensures |prefix| + |marker| <= |prefix + marker + code + rest|
    ensures Leftmost(prefix + marker + code + rest, marker, |prefix|)
    ensures Capture(prefix + marker + code + rest, marker, |prefix|) == code
  {
    var s := prefix + marker + code + rest;
    var k := |prefix|;
    assert s[k..k + |marker|] == marker;
    assert s[k + |marker|] == code[0];
    forall j | 0 <= j < k ensures !MatchesAt(s, marker, j) {
      assert s[j] == prefix[j];
      if MatchesAt(s, marker, j) {
        NoMatchWithoutI(s, marker, j);
      }
    }
    assert s[k + |marker|..] == code + rest;
    PrefixBeforeUnique(code + rest, '/', code);
  }

  /** The canonical post URL `https://www.instagram.com/p/<code>/...` gives
      `<code>`, whatever path follows it. */
  lemma CanonicalPostUrl(code: string, rest: string, id: string)
    requires code != [] && '/' !in code
    requires rest == [] || rest[0] == '/'
    ensures Shortcode("https://www." + PostMarker + code + rest, id) == code
  {
    MatchAfter("https://www.", PostMarker, code, rest);
    PostRule("https://www." + PostMarker + code + rest, id, |"https://www."|);
  }

  /** The canonical reel URL `https://www.instagram.com/reel/<code>/...` gives
      `<code>` when no `/p/` match occurs anywhere in it. */
  lemma CanonicalReelUrl(code: string, rest: string, id: string)
    requires code != [] && '/' !in code
    requires rest == [] || rest[0] == '/'
    requires forall j :: !MatchesAt("https://www." + ReelMarker + code + rest, PostMarker, j)
    ensures Shortcode("https://www." + ReelMarker + code + rest, id) == code
  {
    MatchAfter("https://www.", ReelMarker, code, rest);
    ReelRule("https://www." + ReelMarker + code + rest, id, |"https://www."|);
  }

  /** The base name of the output file, `<day>-<id>.md`. The day and the id
      can be read back from it. */
  function FileName(day: string, id: string): (name: string)
    ensures |name| == |day| + |id| + 4
    ensures name[..|day|] == day && name[|day|] == '-'
    ensures name[|day| + 1..|name| - 3] == id && name[|name| - 3..] == ".md"
  {
    day + "-" + id + ".md"
  }

  /** Two posts of the same day get the same file name only when their ids
      agree (and then the later write replaces the earlier one). */
  lemma FileNameInjective(day1: string, id1: string, day2: string, id2: string)
    requires |day1| == |day2|
    requires FileName(day1, id1) == FileName(day2, id2)
    ensures day1 == day2 && id1 == id2
  {
  }

  /** The lines of the output file: the front matter between two `---`
      lines, an empty line, and the embed of the shortcode. */
  function Lines(stamp: string, id: string, permalink: string, mediaType: string, sc: string): seq<string>
  {
    [ "---",
      "date: " + stamp,
      "draft: false",
      "tags:",
      "  - instagram",
      "instagram_id: " + id,
      "instagram_permalink: " + permalink,
      "media_type: " + mediaType,
      "shortcode: " + sc,
      "---",
      "",
      "{{< instagram " + sc + " >}}" ]
  }

  /** The text written to the output file: the lines joined by newlines,
      without a final newline. */
  function Render(stamp: string, id: string, permalink: string, mediaType: string, sc: string): (content: string)
    ensures |content| >= 4 && content[..4] == "---\n"
  {
    var lines := Lines(stamp, id, permalink, mediaType, sc);
    assert Join(lines, '\n') == "---" + "\n" + Join(lines[1..], '\n');
    Join(lines, '\n')
  }

  /** The last line of a joined text is a suffix of it. */
  lemma {:induction false} JoinEndsWith(lines: seq<string>, sep: char)
    requires |lines| >= 1
    ensures var j := Join(lines, sep); var last := lines[|lines| - 1];
      |last| <= |j| && j[|j| - |last|..] == last
  {
    if |lines| > 1 {
      JoinEndsWith(lines[1..], sep);
    }
  }

  /** The file ends with the embed of the same shortcode as its front matter. */
  lemma RenderEndsWithEmbed(stamp: string, id: string, permalink: string, mediaType: string, sc: string)
    ensures var content := Render(stamp, id, permalink, mediaType, sc);
      var embed := "{{< instagram " + sc + " >}}";
      |embed| <= |content| && content[|content| - |embed|..] == embed
  {
    JoinEndsWith(Lines(stamp, id, permalink, mediaType, sc), '\n');
  }

  /** When no field holds a newline, reading the file back line by line gives
      exactly the twelve lines of the template: the front matter is
      well-formed and its `shortcode:` line and the embed carry `sc`. */
  lemma RenderLines(stamp: string, id: string, permalink: string, mediaType: string, sc: string)
    requires '\n' !in stamp && '\n' !in id && '\n' !in permalink
    requires '\n' !in mediaType && '\n' !in sc
    ensures Split(Render(stamp, id, permalink, mediaType, sc), '\n') == Lines(stamp, id, permalink, mediaType, sc)
  {
    var lines := Lines(stamp, id, permalink, mediaType, sc);
    forall k | 0 <= k < |lines| ensures '\n' !in lines[k] {
    }
    SplitJoin(lines, '\n');
  }
}
