/** The two functions of Go's `strings` package that the exporter calls,
    `Split` and `TrimRight`, for one-character separators, and `Join`, a
    reference definition (with no contract of its own) used to state that a
    split gives its input back and to put the lines of an output file
    together. `Split` is also tied to two independent reference definitions:
    `PrefixBefore` for its first piece and `LastSegment` for its last. */
module Text {

  /** The part of `s` before the first `sep`, or all of `s` when `sep` does
      not occur in it. */
  function PrefixBefore(s: string, sep: char): (r: string)
    ensures r <= s
    ensures sep !in r
    ensures r == s || (|r| < |s| && s[|r|] == sep)
  {
    if s == [] || s[0] == sep then [] else [s[0]] + PrefixBefore(s[1..], sep)
  }

  /** The contract of `PrefixBefore` determines its result: any prefix of `s`
      free of `sep` that ends at the end of `s` or just before a `sep` is it. */
  lemma PrefixBeforeUnique(s: string, sep: char, p: string)
    requires p <= s && sep !in p
    requires p == s || (|p| < |s| && s[|p|] == sep)
    ensures p == PrefixBefore(s, sep)
  {
  }

  /** The part of `s` after the last `sep`, or all of `s` when `sep` does not
      occur in it. */
  function LastSegment(s: string, sep: char): string
  {
    if s == [] || s[|s| - 1] == sep then []
    else LastSegment(s[..|s| - 1], sep) + [s[|s| - 1]]
  }

  /** `LastSegment` is a suffix of `s`. */
  lemma {:induction false} LastSegmentSuffix(s: string, sep: char)
    ensures |LastSegment(s, sep)| <= |s| && LastSegment(s, sep) == s[|s| - |LastSegment(s, sep)|..]
    decreases |s|
  {
    if s != [] && s[|s| - 1] != sep {
      var init := s[..|s| - 1];
      LastSegmentSuffix(init, sep);
      var r0 := LastSegment(init, sep);
      assert s[|s| - |r0| - 1..] == init[|init| - |r0|..] + [s[|s| - 1]];
    }
  }

  /** `LastSegment` holds no `sep`. */
  lemma {:induction false} LastSegmentNoSep(s: string, sep: char)
    ensures sep !in LastSegment(s, sep)
    decreases |s|
  {
    if s != [] && s[|s| - 1] != sep {
      LastSegmentNoSep(s[..|s| - 1], sep);
    }
  }

  /** `LastSegment` is all of `s`, or starts just after a `sep`. */
  lemma {:induction false} LastSegmentStart(s: string, sep: char)
    ensures LastSegment(s, sep) == s
      || (|LastSegment(s, sep)| < |s| && s[|s| - |LastSegment(s, sep)| - 1] == sep)
    decreases |s|
  {
    if s != [] && s[|s| - 1] != sep {
      var init := s[..|s| - 1];
      LastSegmentStart(init, sep);
      var r0 := LastSegment(init, sep);
      assert s[..|s| - 1] == init;
    }
  }

  /** The parts with one `sep` between each neighbouring pair (what Go's
      `strings.Join` computes); no parts give the empty string. */
  function Join(parts: seq<string>, sep: char): string
  {
    if |parts| == 0 then []
    else if |parts| == 1 then parts[0]
    else parts[0] + [sep] + Join(parts[1..], sep)
  }

  /** `strings.Split(s, sep)`: the maximal `sep`-free pieces of `s`, in order.
      There is always at least one piece (the empty string splits into `[""]`)
      and no piece contains `sep`; `JoinSplit` shows that joining the pieces
      gives `s` back. */
  function Split(s: string, sep: char): (parts: seq<string>)
    ensures |parts| >= 1
    ensures forall k :: 0 <= k < |parts| ==> sep !in parts[k]
    decreases |s|
  {
    var head := PrefixBefore(s, sep);
    if head == s then [s]
    else [head] + Split(s[|head| + 1..], sep)
  }

  /** Joining the pieces of a split with the same separator gives the text
      back. */
  lemma {:induction false} JoinSplit(s: string, sep: char)
    ensures Join(Split(s, sep), sep) == s
    decreases |s|
  {
    var head := PrefixBefore(s, sep);
    if head != s {
      var t := s[|head| + 1..];
      SplitStep(s, sep);
      JoinSplit(t, sep);
      JoinCons(head, Split(t, sep), sep);
    }
  }

  /** One step of `Split` on a text that holds the separator: the first piece,
      then the split of what follows the first separator. */
  lemma SplitStep(s: string, sep: char)
    requires PrefixBefore(s, sep) != s
    ensures |PrefixBefore(s, sep)| < |s|
    ensures s == PrefixBefore(s, sep) + [sep] + s[|PrefixBefore(s, sep)| + 1..]
    ensures Split(s, sep) == [PrefixBefore(s, sep)] + Split(s[|PrefixBefore(s, sep)| + 1..], sep)
  {
  }

  /** Joining a first part in front of at least one more. */
  lemma JoinCons(head: string, rest: seq<string>, sep: char)
    requires |rest| >= 1
    ensures Join([head] + rest, sep) == head + [sep] + Join(rest, sep)
  {
    assert ([head] + rest)[1..] == rest;
  }

  /** The first piece of `Split` is the part before the first separator. */
  lemma SplitFirst(s: string, sep: char)
    ensures Split(s, sep)[0] == PrefixBefore(s, sep)
  {
  }

  /** Splitting undoes joining, for parts free of the separator. */
  lemma {:induction false} SplitJoin(parts: seq<string>, sep: char)
    requires |parts| >= 1
    requires forall k :: 0 <= k < |parts| ==> sep !in parts[k]
    ensures Split(Join(parts, sep), sep) == parts
  {
    var s := Join(parts, sep);
    if |parts| == 1 {
      PrefixBeforeUnique(s, sep, parts[0]);
    } else {
      var tail := Join(parts[1..], sep);
      assert s == parts[0] + [sep] + tail;
      PrefixBeforeUnique(s, sep, parts[0]);
      SplitStep(s, sep);
      assert s[|parts[0]| + 1..] == tail;
      SplitJoin(parts[1..], sep);
      assert parts == [parts[0]] + parts[1..];
    }
  }

  /** The last piece of `Split` is the part after the last separator. */
  lemma {:induction false} SplitLast(s: string, sep: char)
    ensures var parts := Split(s, sep); parts[|parts| - 1] == LastSegment(s, sep)
    decreases |s|
  {
    var parts := Split(s, sep);
    var head := PrefixBefore(s, sep);
    if head == s {
      assert parts == [s];
      LastSegmentWhole(s, sep);
    } else {
      var t := s[|head| + 1..];
      SplitStep(s, sep);
      SplitLast(t, sep);
      LastSegmentOfTail(s, sep, |head| + 1);
    }
  }

  /** A string free of the separator is its own last segment. */
  lemma LastSegmentWhole(s: string, sep: char)
    requires sep !in s
    ensures LastSegment(s, sep) == s
  {
  }

  /** Dropping a prefix that ends with a separator keeps the last segment. */
  lemma {:induction false} LastSegmentOfTail(s: string, sep: char, n: nat)
    requires 0 < n <= |s| && s[n - 1] == sep
    ensures LastSegment(s[n..], sep) == LastSegment(s, sep)
    decreases |s|
  {
    if |s| > n && s[|s| - 1] != sep {
      assert s[n..][..|s[n..]| - 1] == s[..|s| - 1][n..];
      LastSegmentOfTail(s[..|s| - 1], sep, n);
    }
  }

  /** `strings.TrimRight(s, cutset)` for a one-character cutset: `s` without
      its trailing run of `c`. */
  function TrimRight(s: string, c: char): (r: string)
    ensures r <= s
    ensures r == [] || r[|r| - 1] != c
    ensures forall k :: |r| <= k < |s| ==> s[k] == c
  {
    if s != [] && s[|s| - 1] == c then TrimRight(s[..|s| - 1], c) else s
  }
}
