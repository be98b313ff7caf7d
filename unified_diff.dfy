/**
 * The pieces of `git diff` output the summarizers look at: the lines of the
 * text, the per-file header lines `diff --git a/<old> b/<new>`, the path taken
 * from a header, and the added and removed lines of a hunk.
 */
module UnifiedDiff {
  import opened PyText

  const HeaderPrefix: string := "diff --git"
  /** The separator whose last occurrence in a header precedes the new path. */
  const PathMarker: string := " b/"

  /** `text.split('\n')`: the lines of the text, none holding a newline. */
  function Lines(text: string): (r: seq<string>)
    ensures |r| >= 1
    ensures forall k :: 0 <= k < |r| ==> '\n' !in r[k]
  {
    var r := Split(text, "\n");
    forall k | 0 <= k < |r| ensures '\n' !in r[k] {
      forall j | 0 <= j < |r[k]| ensures r[k][j] != '\n' {
        OccursOneChar(r[k], '\n', j);
      }
    }
    r
  }

  /** Joined back with newlines, the lines give the text again. */
  lemma LinesRejoin(text: string)
    ensures Join(Lines(text), "\n") == text
  {
    SplitRejoin(text, "\n");
  }

  /** A line that opens the section of one file. */
  predicate IsHeader(line: string) {
    StartsWith(line, HeaderPrefix)
  }

  /** A line counted as added: it starts with `+` but not with `+++`. */
  predicate IsAddition(line: string) {
    StartsWith(line, "+") && !StartsWith(line, "+++")
  }

  /** A line counted as removed: it starts with `-` but not with `---`. */
  predicate IsDeletion(line: string) {
    StartsWith(line, "-") && !StartsWith(line, "---")
  }

  /** `line.split(' b/')[-1]`: the text after the last " b/" of a header, or
      the whole line when it has none. */
  function HeaderPath(line: string): (r: string)
    ensures NoOccurrence(r, PathMarker) && EndsWith(line, r)
    ensures NoOccurrence(line, PathMarker) ==> r == line
  {
    AfterLast(line, PathMarker)
  }

  lemma PathMarkerNonOverlapping()
    ensures NonOverlapping(PathMarker)
  {
    UniqueLastNonOverlapping(PathMarker);
  }

  /** The path of `diff --git a/<old> b/<new>` is `<new>` whenever `<new>`
      itself holds no " b/", whatever `<old>` holds. */
  lemma HeaderPathOfGitHeader(oldPath: string, newPath: string)
    requires NoOccurrence(newPath, PathMarker)
    ensures HeaderPath(HeaderPrefix + " a/" + oldPath + PathMarker + newPath) == newPath
  {
    PathMarkerNonOverlapping();
    AfterLastOfJoined(HeaderPrefix + " a/" + oldPath, PathMarker, newPath);
  }

  /** The header lines, in the order they appear. */
  function Headers(lines: seq<string>): (r: seq<string>)
    ensures |r| <= |lines|
    ensures forall k :: 0 <= k < |r| ==> IsHeader(r[k]) && r[k] in lines
  {
    if lines == [] then []
    else
      var last := lines[|lines| - 1];
      Headers(lines[..|lines| - 1]) + (if IsHeader(last) then [last] else [])
  }

  /** Every line of `lines` that is a header appears in `Headers(lines)`. */
  lemma {:induction false} HeadersComplete(lines: seq<string>, i: nat)
    requires i < |lines| && IsHeader(lines[i])
    ensures lines[i] in Headers(lines)
  {
    var init := lines[..|lines| - 1];
    if i < |lines| - 1 {
      assert init[i] == lines[i];
      HeadersComplete(init, i);
    }
  }

  /** Lines none of which is a header have no header lines. */
  lemma {:induction false} NoHeaders(lines: seq<string>)
    requires forall k :: 0 <= k < |lines| ==> !IsHeader(lines[k])
    ensures Headers(lines) == []
  {
    if lines != [] {
      NoHeaders(lines[..|lines| - 1]);
    }
  }

  lemma {:induction false} HeadersAppend(a: seq<string>, b: seq<string>)
    ensures Headers(a + b) == Headers(a) + Headers(b)
    decreases |b|
  {
    if b == [] {
      assert a + b == a;
    } else {
      var init := b[..|b| - 1];
      assert (a + b)[..|a + b| - 1] == a + init;
      HeadersAppend(a, init);
    }
  }

  /** The paths of the header lines, in order. */
  function HeaderPaths(lines: seq<string>): (r: seq<string>)
    ensures |r| == |Headers(lines)|
    ensures forall k :: 0 <= k < |r| ==> r[k] == HeaderPath(Headers(lines)[k])
  {
    var hs := Headers(lines);
    seq(|hs|, k requires 0 <= k < |hs| => HeaderPath(hs[k]))
  }

  /** The number of added lines. */
  function CountAdditions(lines: seq<string>): (n: nat)
    ensures n <= |lines|
  {
    if lines == [] then 0
    else CountAdditions(lines[..|lines| - 1]) + (if IsAddition(lines[|lines| - 1]) then 1 else 0)
  }

  /** The number of removed lines. */
  function CountDeletions(lines: seq<string>): (n: nat)
    ensures n <= |lines|
  {
    if lines == [] then 0
    else CountDeletions(lines[..|lines| - 1]) + (if IsDeletion(lines[|lines| - 1]) then 1 else 0)
  }

  /** Counting added and removed lines distributes over concatenation. */
  lemma {:induction false} CountsAppend(a: seq<string>, b: seq<string>)
    ensures CountAdditions(a + b) == CountAdditions(a) + CountAdditions(b)
    ensures CountDeletions(a + b) == CountDeletions(a) + CountDeletions(b)
    decreases |b|
  {
    if b == [] {
      assert a + b == a;
    } else {
      var init := b[..|b| - 1];
      assert (a + b)[..|a + b| - 1] == a + init;
      CountsAppend(a, init);
    }
  }

  /** A header line is neither an added nor a removed line. */
  lemma HeaderIsNotAChange(line: string)
    requires IsHeader(line)
    ensures !IsAddition(line) && !IsDeletion(line)
  {
    assert line[0] == HeaderPrefix[0];
  }

  /** No line is counted both as added and as removed. */
  lemma AdditionIsNotDeletion(line: string)
    requires StartsWith(line, "+")
    ensures !IsDeletion(line)
  {
    assert line[0] == '+';
  }

  /** A path taken from a line of the diff holds no newline. */
  lemma HeaderPathsOneLine(text: string)
    ensures forall k :: 0 <= k < |HeaderPaths(Lines(text))| ==> '\n' !in HeaderPaths(Lines(text))[k]
  {
    var lines := Lines(text);
    var paths := HeaderPaths(lines);
    forall k | 0 <= k < |paths| ensures '\n' !in paths[k] {
      var h := Headers(lines)[k];
      var i :| 0 <= i < |lines| && lines[i] == h;
      assert EndsWith(h, paths[k]);
      forall j | 0 <= j < |paths[k]| ensures paths[k][j] != '\n' {
        assert paths[k][j] == h[|h| - |paths[k]| + j];
      }
    }
  }
}
