/**
 * `DiffAnalyzer` of the `ghpush` package: it turns a `git diff` and the
 * commit messages of a branch into a pull request title and description.
 * Diffs too large for the token budget get a fixed summary; otherwise the AI
 * summarizer is asked first, and when it gives no usable pair a heuristic
 * summary is built from the changed files: one record per file section of the
 * diff, a title chosen from the first commit or the file extensions, and a
 * Markdown description with commit, file and statistics sections.
 */
module DiffAnalysis {
  import opened PyText
  import opened PathName
  import opened UnifiedDiff
  import opened SummaryPrompt
  import GhpushSummarizer

  /** `MAX_TOKENS`: diffs with more estimated tokens get the fixed summary. */
  const MaxTokens: nat := 10000

  /** `estimate_tokens`: the number of whitespace-separated words. */
  function EstimateTokens(text: string): (n: nat)
    ensures n == RunStarts(text, true) && n <= |text|
  {
    WordsCountRuns(text);
    RunStartsAtMost(text, true);
    |Words(text)|
  }

  /** Empty and all-whitespace text has no tokens. */
  lemma BlankTextHasNoTokens(text: string)
    requires AllSpace(text)
    ensures EstimateTokens(text) == 0
  {
    NoWordsIffBlank(text);
  }

  // ---------------------------------------------------------------------------
  // changed files

  /** The record `_analyze_changed_files` keeps per file. */
  datatype FileChange = FileChange(path: string, extension: string, additions: nat, deletions: nat)

  /** One file's part of the diff: its header line and the lines after it, up
      to the next header. */
  datatype Section = Section(header: string, body: seq<string>)

  /** How one more line changes the sections: a header opens a new one, any
      other line joins the body of the last one, or is dropped before the
      first header. */
  function Extend(s: seq<Section>, line: string): seq<Section> {
    if IsHeader(line) then s + [Section(line, [])]
    else if s == [] then s
    else s[..|s| - 1] + [Section(s[|s| - 1].header, s[|s| - 1].body + [line])]
  }

  /** The sections of a diff, in order. Lines before the first header belong
      to none. */
  function Sections(lines: seq<string>): (r: seq<Section>)
    ensures |r| == |Headers(lines)|
  {
    if lines == [] then [] else Extend(Sections(lines[..|lines| - 1]), lines[|lines| - 1])
  }

  lemma SectionsSnoc(init: seq<string>, line: string)
    ensures Sections(init + [line]) == Extend(Sections(init), line)
  {
    assert (init + [line])[..|init|] == init;
  }

  /** The sections of a prefix of the lines, one line longer. */
  lemma SectionsOfPrefix(lines: seq<string>, i: nat)
    requires i < |lines|
    ensures Sections(lines[..i + 1]) == Extend(Sections(lines[..i]), lines[i])
  {
    assert lines[..i] + [lines[i]] == lines[..i + 1];
    SectionsSnoc(lines[..i], lines[i]);
  }

  /** The sections open with the header lines, in order, and no header is
      left inside a section's body. */
  lemma {:induction false} SectionsFollowHeaders(lines: seq<string>)
    ensures forall k :: 0 <= k < |Sections(lines)| ==> Sections(lines)[k].header == Headers(lines)[k]
    ensures forall k, j :: 0 <= k < |Sections(lines)| && 0 <= j < |Sections(lines)[k].body| ==>
      !IsHeader(Sections(lines)[k].body[j])
  {
    if lines != [] {
      SectionsFollowHeaders(lines[..|lines| - 1]);
    }
  }

  /** The lines before the first header. */
  function Preamble(lines: seq<string>): (r: seq<string>)
    ensures |r| <= |lines| && r == lines[..|r|]
    ensures forall k :: 0 <= k < |r| ==> !IsHeader(r[k])
    ensures Headers(lines) == [] ==> r == lines
  {
    if Headers(lines) == [] then
      forall k | 0 <= k < |lines| ensures !IsHeader(lines[k]) {
        if IsHeader(lines[k]) {
          HeadersComplete(lines, k);
        }
      }
      lines
    else
      Preamble(lines[..|lines| - 1])
  }

  /** The lines of the sections laid end to end again. */
  function Flatten(sections: seq<Section>): seq<string> {
    if sections == [] then []
    else
      var last := sections[|sections| - 1];
      Flatten(sections[..|sections| - 1]) + [last.header] + last.body
  }

  /** The sections partition the lines after the preamble: nothing is lost,
      duplicated or reordered. */
  lemma {:induction false} SectionsPartition(lines: seq<string>)
    ensures lines == Preamble(lines) + Flatten(Sections(lines))
  {
    if lines != [] && Headers(lines) != [] {
      var init := lines[..|lines| - 1];
      var last := lines[|lines| - 1];
      assert init + [last] == lines;
      SectionsPartition(init);
      if IsHeader(last) {
        PartitionHeaderStep(init, last);
      } else {
        PartitionBodyStep(init, last);
      }
    }
  }

  /** A header line opens a new section holding just itself. */
  lemma PartitionHeaderStep(init: seq<string>, last: string)
    requires IsHeader(last)
    requires init == Preamble(init) + Flatten(Sections(init))
    ensures init + [last] == Preamble(init + [last]) + Flatten(Sections(init + [last]))
  {
    var lines := init + [last];
    assert lines[..|lines| - 1] == init;
    SectionsSnoc(init, last);
    var s := Sections(init);
    var t := s + [Section(last, [])];
    assert t[..|s|] == s;
    assert Flatten(t) == Flatten(s) + [last] + [];
    assert Flatten(t) == Flatten(s) + [last];
    assert Preamble(lines) == Preamble(init);
    AppendOne(init, Preamble(init), Flatten(s), last);
  }

  /** Any other line after the first header joins the body of the last
      section. */
  lemma PartitionBodyStep(init: seq<string>, last: string)
    requires !IsHeader(last) && Headers(init) != []
    requires init == Preamble(init) + Flatten(Sections(init))
    ensures init + [last] == Preamble(init + [last]) + Flatten(Sections(init + [last]))
  {
    var lines := init + [last];
    assert lines[..|lines| - 1] == init;
    SectionsSnoc(init, last);
    var s := Sections(init);
    var n := |s| - 1;
    var ext := Section(s[n].header, s[n].body + [last]);
    var t := s[..n] + [ext];
    assert t[..n] == s[..n];
    assert s[..n] + [s[n]] == s;
    assert Flatten(t) == Flatten(s[..n]) + [s[n].header] + (s[n].body + [last]);
    assert Flatten(s) == Flatten(s[..n]) + [s[n].header] + s[n].body;
    AppendOne(Flatten(s), Flatten(s[..n]) + [s[n].header], s[n].body, last);
    assert Preamble(lines) == Preamble(init);
    AppendOne(init, Preamble(init), Flatten(s), last);
  }

  /** Lines that hold no header, put in front of a diff, change none of its
      sections. */
  lemma {:induction false} PreambleIgnored(pre: seq<string>, rest: seq<string>)
    requires forall k :: 0 <= k < |pre| ==> !IsHeader(pre[k])
    ensures Sections(pre + rest) == Sections(rest)
    decreases |rest|
  {
    if rest == [] {
      assert pre + rest == pre;
      NoHeaders(pre);
    } else {
      var init := rest[..|rest| - 1];
      var last := rest[|rest| - 1];
      assert init + [last] == rest;
      assert (pre + init) + [last] == pre + rest;
      SectionsSnoc(pre + init, last);
      SectionsSnoc(init, last);
      PreambleIgnored(pre, init);
    }
  }

  /** The record of one section: the path and suffix of its header, and the
      added and removed lines of its body. */
  function Record(sec: Section): FileChange {
    var path := HeaderPath(sec.header);
    FileChange(path, Suffix(path), CountAdditions(sec.body), CountDeletions(sec.body))
  }

  function Records(sections: seq<Section>): (r: seq<FileChange>)
    ensures |r| == |sections|
    ensures forall k {:trigger r[k]} :: 0 <= k < |r| ==> r[k] == Record(sections[k])
  {
    seq(|sections|, k requires 0 <= k < |sections| => Record(sections[k]))
  }

  /** The files `_analyze_changed_files` reports. */
  function ChangedFiles(diff: string): (r: seq<FileChange>)
    ensures |r| == |Headers(Lines(diff))|
    ensures forall k :: 0 <= k < |r| ==>
      r[k].path == HeaderPaths(Lines(diff))[k] && r[k].extension == Suffix(r[k].path)
  {
    SectionsFollowHeaders(Lines(diff));
    Records(Sections(Lines(diff)))
  }

  /** Lines from a header on leave the sections before it as they were. */
  lemma {:induction false} SectionsKeepClosed(x: seq<string>, rest: seq<string>)
    requires rest != [] ==> IsHeader(rest[0])
    ensures |Sections(x + rest)| >= |Sections(x)|
    ensures rest != [] ==> |Sections(x + rest)| > |Sections(x)|
    ensures Sections(x + rest)[..|Sections(x)|] == Sections(x)
    decreases |rest|
  {
    if rest == [] {
      assert x + rest == x;
    } else {
      var init, last := rest[..|rest| - 1], rest[|rest| - 1];
      assert init + [last] == rest;
      assert x + rest == (x + init) + [last];
      SectionsKeepClosed(x, init);
      SectionsSnoc(x + init, last);
      if !IsHeader(last) {
        assert init != [];
      }
    }
  }

  /** A diff of one header followed by lines that are not headers has one
      record, that of its only section. */
  lemma ChangedFilesOfOneSection(diff: string, h: string, body: seq<string>)
    requires Lines(diff) == [h] + body
    requires IsHeader(h) && forall k :: 0 <= k < |body| ==> !IsHeader(body[k])
    ensures ChangedFiles(diff) == [Record(Section(h, body))]
  {
    SingleSection(h, body);
  }

  lemma {:induction false} SingleSection(h: string, body: seq<string>)
    requires IsHeader(h) && forall k :: 0 <= k < |body| ==> !IsHeader(body[k])
    ensures Sections([h] + body) == [Section(h, body)]
    decreases |body|
  {
    if body == [] {
      assert [h] + body == [] + [h];
      SectionsSnoc([], h);
    } else {
      var init, last := body[..|body| - 1], body[|body| - 1];
      assert [h] + body == ([h] + init) + [last];
      SingleSection(h, init);
      SectionsSnoc([h] + init, last);
      assert init + [last] == body;
    }
  }

  /** A header directly followed by another header, or by the end of the
      diff, still gives its record, with no added and no removed lines. */
  lemma QuietSection(lines: seq<string>, h: string, rest: seq<string>)
    requires IsHeader(h) && (rest != [] ==> IsHeader(rest[0]))
    ensures var r := Records(Sections(lines + [h] + rest));
      |Headers(lines)| < |r| &&
      r[|Headers(lines)|] == FileChange(HeaderPath(h), Suffix(HeaderPath(h)), 0, 0)
  {
    var started := Sections(lines + [h]);
    SectionsSnoc(lines, h);
    assert started == Sections(lines) + [Section(h, [])];
    SectionsKeepClosed(lines + [h], rest);
    var all := Sections(lines + [h] + rest);
    assert all[|Sections(lines)|] == started[|Sections(lines)|];
  }

  /** The record after one more line of its section: a line counts as
      added or removed exactly as `IsAddition` and `IsDeletion` say. */
  function Grow(f: FileChange, line: string): FileChange {
    f.(additions := f.additions + (if IsAddition(line) then 1 else 0),
       deletions := f.deletions + (if IsDeletion(line) then 1 else 0))
  }

  /** A header line adds a record with no added or removed lines. */
  lemma RecordsOpen(s: seq<Section>, line: string)
    requires IsHeader(line)
    ensures Records(Extend(s, line)) ==
      Records(s) + [FileChange(HeaderPath(line), Suffix(HeaderPath(line)), 0, 0)]
  {
  }

  /** Any other line after a header updates the last record only. */
  lemma RecordsGrow(s: seq<Section>, line: string)
    requires !IsHeader(line) && s != []
    ensures Records(Extend(s, line)) == Records(s)[..|s| - 1] + [Grow(Records(s)[|s| - 1], line)]
  {
    var n := |s| - 1;
    var grown := Section(s[n].header, s[n].body + [line]);
    assert Extend(s, line) == s[..n] + [grown];
    RecordsReplaceLast(s, grown);
    RecordGrow(s[n], line);
  }

  lemma RecordsReplaceLast(s: seq<Section>, x: Section)
    requires s != []
    ensures Records(s[..|s| - 1] + [x]) == Records(s)[..|s| - 1] + [Record(x)]
  {
    MapReplaceLast(s, x, Record, Records(s), Records(s[..|s| - 1] + [x]));
  }

  /** Mapping a list whose last element is replaced replaces the last
      image. */
  lemma MapReplaceLast<A, B>(s: seq<A>, x: A, f: A -> B, image: seq<B>, image': seq<B>)
    requires s != []
    requires |image| == |s| && forall k :: 0 <= k < |s| ==> image[k] == f(s[k])
    requires |image'| == |s| && forall k :: 0 <= k < |s| ==> image'[k] == f((s[..|s| - 1] + [x])[k])
    ensures image' == image[..|s| - 1] + [f(x)]
  {
    var n := |s| - 1;
    var t := s[..n] + [x];
    forall k | 0 <= k < n ensures image'[k] == image[k] {
      assert t[k] == s[k];
    }
    assert image'[n] == f(t[n]);
  }

  lemma RecordGrow(sec: Section, line: string)
    ensures Record(Section(sec.header, sec.body + [line])) == Grow(Record(sec), line)
  {
    assert (sec.body + [line])[..|sec.body|] == sec.body;
  }

  /** The record under construction, as a list of zero or one element. */
  function Pending(current: Option<FileChange>): seq<FileChange> {
    if current.Some? then [current.value] else []
  }

  /** At a header, the pending record is moved to the finished ones and a
      new one is started. */
  lemma OpenStep(files: seq<FileChange>, current: Option<FileChange>, s: seq<Section>, line: string)
    requires IsHeader(line) && files + Pending(current) == Records(s)
    ensures (files + Pending(current)) + Pending(Some(FileChange(HeaderPath(line), Suffix(HeaderPath(line)), 0, 0))) ==
      Records(Extend(s, line))
  {
    RecordsOpen(s, line);
  }

  /** Any other line after a header updates the pending record only. */
  lemma GrowStep(files: seq<FileChange>, f: FileChange, s: seq<Section>, line: string)
    requires !IsHeader(line) && files + [f] == Records(s)
    ensures files + [Grow(f, line)] == Records(Extend(s, line))
  {
    var r := Records(s);
    assert files == r[..|r| - 1] && f == r[|r| - 1] by {
      assert r[..|r| - 1] == (files + [f])[..|files|];
    }
    RecordsGrow(s, line);
  }

  /** `_analyze_changed_files`: one pass over the lines with the record of
      the current file kept aside until the next header or the end. */
  method AnalyzeChangedFiles(diff: string) returns (files: seq<FileChange>)
    ensures files == ChangedFiles(diff)
  {
    var lines := Lines(diff);
    files := [];
    var current: Option<FileChange> := None;
    for i := 0 to |lines|
      invariant files + Pending(current) == Records(Sections(lines[..i]))
      invariant current.Some? <==> Sections(lines[..i]) != []
    {
      var line := lines[i];
      ghost var s := Sections(lines[..i]);
      SectionsOfPrefix(lines, i);
      if StartsWith(line, "diff --git") {
        OpenStep(files, current, s, line);
        files := files + Pending(current);
        var filePath := AfterLast(line, " b/");
        current := Some(FileChange(filePath, Suffix(filePath), 0, 0));
      } else if current.Some? {
        GrowStep(files, current.value, s, line);
        ghost var grown := Grow(current.value, line);
        if StartsWith(line, "+") && !StartsWith(line, "+++") {
          AdditionIsNotDeletion(line);
          current := Some(current.value.(additions := current.value.additions + 1));
        } else if StartsWith(line, "-") && !StartsWith(line, "---") {
          current := Some(current.value.(deletions := current.value.deletions + 1));
        }
        assert current.value == grown;
      }
    }
    assert lines[..|lines|] == lines;
    files := files + Pending(current);
  }

  /** The total of added and of removed lines over the records. */
  function TotalAdditions(files: seq<FileChange>): (n: nat)
    ensures n == 0 <==> forall k :: 0 <= k < |files| ==> files[k].additions == 0
  {
    if files == [] then 0 else TotalAdditions(files[..|files| - 1]) + files[|files| - 1].additions
  }

  function TotalDeletions(files: seq<FileChange>): (n: nat)
    ensures n == 0 <==> forall k :: 0 <= k < |files| ==> files[k].deletions == 0
  {
    if files == [] then 0 else TotalDeletions(files[..|files| - 1]) + files[|files| - 1].deletions
  }

  lemma TotalsAppend(files: seq<FileChange>, f: FileChange)
    ensures TotalAdditions(files + [f]) == TotalAdditions(files) + f.additions
    ensures TotalDeletions(files + [f]) == TotalDeletions(files) + f.deletions
  {
    assert (files + [f])[..|files|] == files;
  }

  /** The records count every added and removed line of the diff except
      those before the first header. */
  lemma {:induction false} TotalsCountSectionLines(lines: seq<string>)
    ensures TotalAdditions(Records(Sections(lines))) + CountAdditions(Preamble(lines)) == CountAdditions(lines)
    ensures TotalDeletions(Records(Sections(lines))) + CountDeletions(Preamble(lines)) == CountDeletions(lines)
  {
    if lines != [] && Headers(lines) != [] {
      var init := lines[..|lines| - 1];
      var last := lines[|lines| - 1];
      assert init + [last] == lines;
      TotalsCountSectionLines(init);
      TotalsStep(init, last);
    }
  }

  /** One line more adds to the totals exactly what it adds to the counts of
      the lines after the first header. */
  lemma TotalsStep(init: seq<string>, last: string)
    requires Headers(init + [last]) != []
    requires TotalAdditions(Records(Sections(init))) + CountAdditions(Preamble(init)) == CountAdditions(init)
    requires TotalDeletions(Records(Sections(init))) + CountDeletions(Preamble(init)) == CountDeletions(init)
    ensures TotalAdditions(Records(Sections(init + [last]))) + CountAdditions(Preamble(init + [last])) ==
      CountAdditions(init + [last])
    ensures TotalDeletions(Records(Sections(init + [last]))) + CountDeletions(Preamble(init + [last])) ==
      CountDeletions(init + [last])
  {
    var lines := init + [last];
    assert lines[..|lines| - 1] == init;
    SectionsSnoc(init, last);
    assert Preamble(lines) == Preamble(init);
    if IsHeader(last) {
      TotalsOpenStep(Sections(init), last);
    } else {
      TotalsGrowStep(Sections(init), last);
    }
  }

  /** A header adds a record with nothing counted, and is itself neither an
      added nor a removed line. */
  lemma TotalsOpenStep(s: seq<Section>, last: string)
    requires IsHeader(last)
    ensures TotalAdditions(Records(Extend(s, last))) == TotalAdditions(Records(s))
    ensures TotalDeletions(Records(Extend(s, last))) == TotalDeletions(Records(s))
    ensures !IsAddition(last) && !IsDeletion(last)
  {
    HeaderIsNotAChange(last);
    RecordsOpen(s, last);
    TotalsAppend(Records(s), FileChange(HeaderPath(last), Suffix(HeaderPath(last)), 0, 0));
  }

  /** Any other line, once a section is open, adds what it counts to the
      last record. */
  lemma TotalsGrowStep(s: seq<Section>, last: string)
    requires !IsHeader(last) && s != []
    ensures TotalAdditions(Records(Extend(s, last))) ==
      TotalAdditions(Records(s)) + (if IsAddition(last) then 1 else 0)
    ensures TotalDeletions(Records(Extend(s, last))) ==
      TotalDeletions(Records(s)) + (if IsDeletion(last) then 1 else 0)
  {
    var r := Records(s);
    RecordsGrow(s, last);
    TotalsReplaceLast(r, Grow(r[|r| - 1], last));
  }

  lemma TotalsReplaceLast(r: seq<FileChange>, g: FileChange)
    requires r != []
    ensures TotalAdditions(r[..|r| - 1] + [g]) + r[|r| - 1].additions == TotalAdditions(r) + g.additions
    ensures TotalDeletions(r[..|r| - 1] + [g]) + r[|r| - 1].deletions == TotalDeletions(r) + g.deletions
  {
    var n := |r| - 1;
    assert (r[..n] + [g])[..n] == r[..n];
  }

  /** When the lines open with a header, the records' totals are all their
      added and removed lines. */
  lemma TotalsFromFirstHeader(lines: seq<string>)
    requires lines != [] && IsHeader(lines[0])
    ensures TotalAdditions(Records(Sections(lines))) == CountAdditions(lines)
    ensures TotalDeletions(Records(Sections(lines))) == CountDeletions(lines)
  {
    TotalsCountSectionLines(lines);
    assert Preamble(lines) == [];
  }

  /** When the diff opens with a header, the records' totals are the diff's
      added and removed lines. */
  lemma TotalsOfDiff(diff: string)
    requires IsHeader(Lines(diff)[0])
    ensures TotalAdditions(ChangedFiles(diff)) == CountAdditions(Lines(diff))
    ensures TotalDeletions(ChangedFiles(diff)) == CountDeletions(Lines(diff))
  {
    TotalsFromFirstHeader(Lines(diff));
  }

  // ---------------------------------------------------------------------------
  // title

  /** The length of the leading run of decimal digits. */
  function DigitRun(s: string): (n: nat)
    ensures n <= |s|
  {
    if s == [] || !IsDigit(s[0]) then 0 else 1 + DigitRun(s[1..])
  }

  lemma {:induction false} DigitRunOfDigits(d: string, rest: string)
    requires forall i :: 0 <= i < |d| ==> IsDigit(d[i])
    requires rest == [] || !IsDigit(rest[0])
    ensures DigitRun(d + rest) == |d|
  {
    if d != [] {
      assert (d + rest)[1..] == d[1..] + rest;
      DigitRunOfDigits(d[1..], rest);
    } else {
      assert d + rest == rest;
    }
  }

  /** `re.sub(r'^#\d+:\s*', '', title)`: an issue reference `#<digits>:` at
      the very start, and the whitespace after it, are removed once. The
      digit run is taken whole, since a digit cannot match the colon. */
  function StripIssueRef(t: string): (r: string)
    ensures |r| <= |t|
  {
    if t != [] && t[0] == '#' then
      var n := DigitRun(t[1..]);
      if 0 < n && n + 1 < |t| && t[n + 1] == ':' then LStrip(t[n + 2..]) else t
    else t
  }

  /** Only a prefix is ever removed, and a title that does not open with
      `#` is kept as it is. */
  lemma StripIssueRefKeepsTail(t: string)
    ensures EndsWith(t, StripIssueRef(t))
    ensures (t == [] || t[0] != '#') ==> StripIssueRef(t) == t
    ensures (t == [] || t[0] != '#' || DigitRun(t[1..]) == 0 || DigitRun(t[1..]) + 1 >= |t| ||
      t[DigitRun(t[1..]) + 1] != ':') ==> StripIssueRef(t) == t
  {
    if t != [] && t[0] == '#' {
      var n := DigitRun(t[1..]);
      if 0 < n && n + 1 < |t| && t[n + 1] == ':' {
        var r := LStrip(t[n + 2..]);
        assert t[|t| - |r|..] == t[n + 2..][|t| - n - 2 - |r|..];
      }
    }
  }

  /** An issue reference and the whitespace after it are removed, and nothing
      more: the subject is kept whole, even when it opens with another
      reference. */
  lemma IssueRefRemoved(n: nat, spaces: string, subject: string)
    requires AllSpace(spaces) && (subject == [] || !IsSpace(subject[0]))
    ensures StripIssueRef("#" + Decimal(n) + ":" + spaces + subject) == subject
  {
    var d := Decimal(n);
    var rest := spaces + subject;
    ConcatAssoc("#" + d + ":", spaces, subject);
    IssueRefShape(d, rest);
    StripIssueRefAt("#" + d + ":" + rest, d, rest);
    LStripAfterSpace(spaces, subject);
  }

  /** Where the parts of `#<digits>:<rest>` sit. */
  lemma IssueRefShape(d: string, rest: string)
    ensures var t := "#" + d + ":" + rest;
      |t| == |d| + 2 + |rest| && t[0] == '#' &&
      t[1..] == d + (":" + rest) && t[|d| + 1] == ':' && t[|d| + 2..] == rest
  {
    var tail := ":" + rest;
    ConcatAssoc("#" + d, ":", rest);
    ConcatAssoc("#", d, tail);
    DropPrefix("#", d + tail);
    DropPrefix(d, tail);
    DropPrefix(":", rest);
  }

  /** A text `#<digits>:<rest>` loses the reference and the whitespace that
      opens `rest`. */
  lemma StripIssueRefAt(t: string, d: string, rest: string)
    requires d != [] && forall i :: 0 <= i < |d| ==> IsDigit(d[i])
    requires |t| == |d| + 2 + |rest| && t[0] == '#'
    requires t[1..] == d + (":" + rest) && t[|d| + 1] == ':' && t[|d| + 2..] == rest
    ensures StripIssueRef(t) == LStrip(rest)
  {
    IssueRefDigits(d, rest);
  }

  lemma IssueRefDigits(d: string, rest: string)
    requires forall i :: 0 <= i < |d| ==> IsDigit(d[i])
    ensures DigitRun(d + (":" + rest)) == |d|
  {
    var tail := ":" + rest;
    assert tail[0] == ':' && !IsDigit(':');
    DigitRunOfDigits(d, tail);
  }

  /** `{f['extension'] for f in changed_files if f['extension']}` */
  function ExtensionSet(files: seq<FileChange>): set<string> {
    set k | 0 <= k < |files| && files[k].extension != "" :: files[k].extension
  }

  lemma ExtensionSetSnoc(files: seq<FileChange>, f: FileChange)
    ensures ExtensionSet(files + [f]) == ExtensionSet(files) + (if f.extension != "" then {f.extension} else {})
  {
    var g := files + [f];
    forall e | e in ExtensionSet(g) ensures e in ExtensionSet(files) || (f.extension != "" && e == f.extension) {
      var k :| 0 <= k < |g| && g[k].extension != "" && g[k].extension == e;
      if k < |files| {
        assert files[k] == g[k];
      }
    }
    forall e | e in ExtensionSet(files) ensures e in ExtensionSet(g) {
      var k :| 0 <= k < |files| && files[k].extension != "" && files[k].extension == e;
      assert g[k] == files[k];
    }
    if f.extension != "" {
      assert g[|files|] == f;
    }
  }

  /** The distinct non-empty extensions in order of first appearance: the
      set comprehension of `_generate_title` as a list without repeats. */
  function DistinctExtensions(files: seq<FileChange>): (r: seq<string>)
    ensures forall i, j :: 0 <= i < j < |r| ==> r[i] != r[j]
    ensures forall e :: e in r <==> e in ExtensionSet(files)
  {
    if files == [] then []
    else
      var init := files[..|files| - 1];
      var f := files[|files| - 1];
      var d := DistinctExtensions(init);
      assert init + [f] == files;
      ExtensionSetSnoc(init, f);
      if f.extension != "" && f.extension !in d then d + [f.extension] else d
  }

  /** A list without repeats has as many elements as the set of them. */
  lemma {:induction false} DistinctCount(r: seq<string>)
    requires forall i, j :: 0 <= i < j < |r| ==> r[i] != r[j]
    ensures |set x | x in r| == |r|
  {
    if r != [] {
      var init := r[..|r| - 1];
      DistinctCount(init);
      assert (set x | x in r) == (set x | x in init) + {r[|r| - 1]};
      assert r[|r| - 1] !in init;
    }
  }

  /** The list has exactly as many extensions as `len(main_extensions)`. */
  lemma ExtensionCount(files: seq<FileChange>)
    ensures |DistinctExtensions(files)| == |ExtensionSet(files)|
  {
    var d := DistinctExtensions(files);
    DistinctCount(d);
    assert (set x | x in d) == ExtensionSet(files);
  }

  /** `_generate_title` */
  function GenerateTitle(msgs: seq<string>, files: seq<FileChange>): (r: string)
    ensures msgs == [] ==> StartsWith(r, "Update ")
  {
    if |msgs| > 0 then
      StripIssueRef(Split(msgs[0], "\n")[0])
    else
      var exts := DistinctExtensions(files);
      if |exts| == 1 then "Update " + LStripChar(exts[0], '.') + " files"
      else if |files| == 1 then "Update " + Name(files[0].path)
      else "Update " + Decimal(|files|) + " files"
  }

  /** With commits, the title is the first line of the first message with its
      issue reference removed; the files play no part. */
  lemma TitleFromFirstLine(msgs: seq<string>, files: seq<FileChange>, line: string, rest: string)
    requires msgs != [] && '\n' !in line
    requires msgs[0] == line || msgs[0] == line + "\n" + rest
    ensures GenerateTitle(msgs, files) == StripIssueRef(line)
  {
    AbsentCharNoOccurrence(line, '\n');
    if msgs[0] == line {
      SplitWithoutSeparator(line, "\n");
    } else {
      SplitFirstPiece(msgs[0], "\n");
      SplitOnceAtFirst(line, "\n", rest);
    }
  }

  /** Records whose extensions are those of their paths, as
      `_analyze_changed_files` makes them. */
  predicate SuffixedRecords(files: seq<FileChange>) {
    forall k :: 0 <= k < |files| ==> files[k].extension == Suffix(files[k].path)
  }

  /** Without commits, when all files with an extension share one, the title
      names it without its dot. */
  lemma TitleOfSingleExtension(files: seq<FileChange>, e: string)
    requires SuffixedRecords(files) && ExtensionSet(files) == {e}
    ensures GenerateTitle([], files) == "Update " + e[1..] + " files"
  {
    ExtensionCount(files);
    var exts := DistinctExtensions(files);
    assert exts[0] in ExtensionSet(files);
    assert e in ExtensionSet(files);
    var k :| 0 <= k < |files| && files[k].extension != "" && files[k].extension == e;
    SuffixLosesOneDot(files[k].path);
  }

  /** `lstrip('.')` of a suffix removes its one leading dot. */
  lemma SuffixLosesOneDot(p: string)
    requires Suffix(p) != ""
    ensures LStripChar(Suffix(p), '.') == Suffix(p)[1..]
  {
    var e := Suffix(p);
    assert e[1..][0] == e[1];
    assert LStripChar(e[1..], '.') == e[1..];
  }

  /** Without commits, a single file without an extension is named. */
  lemma TitleOfSingleFile(files: seq<FileChange>)
    requires |files| == 1 && files[0].extension == ""
    ensures GenerateTitle([], files) == "Update " + Name(files[0].path)
  {
    ExtensionCount(files);
    assert ExtensionSet(files) == {};
  }

  /** Otherwise the title counts the files. */
  lemma TitleCountsFiles(files: seq<FileChange>)
    requires |ExtensionSet(files)| != 1 && |files| != 1
    ensures GenerateTitle([], files) == "Update " + Decimal(|files|) + " files"
  {
    ExtensionCount(files);
  }

  // ---------------------------------------------------------------------------
  // description

  /** `splitlines()[0]` exists for every message. */
  predicate NonEmptyMessages(msgs: seq<string>) {
    forall i :: 0 <= i < |msgs| ==> msgs[i] != ""
  }

  /** `f"{k} {word}{'s' if k > 1 else ''}"` */
  function CountPhrase(k: nat, word: string): string {
    Decimal(k) + " " + word + (if k > 1 then "s" else "")
  }

  /** The parenthesised parts of a file's bullet: its added and its removed
      lines, each only when there are some. */
  function ChangeParts(f: FileChange): (r: seq<string>)
    ensures |r| == (if f.additions > 0 then 1 else 0) + (if f.deletions > 0 then 1 else 0)
    ensures r == [] <==> f.additions == 0 && f.deletions == 0
    ensures f.additions > 0 ==> r[0] == CountPhrase(f.additions, "addition")
    ensures f.deletions > 0 ==> r[|r| - 1] == CountPhrase(f.deletions, "deletion")
  {
    (if f.additions > 0 then [CountPhrase(f.additions, "addition")] else []) +
    (if f.deletions > 0 then [CountPhrase(f.deletions, "deletion")] else [])
  }

  /** `f"* {file['path']} ({', '.join(changes)})"` */
  function FileBullet(f: FileChange): string {
    "* " + f.path + " (" + Join(ChangeParts(f), ", ") + ")"
  }

  /** `f"* {msg.splitlines()[0]}"` */
  function CommitBullet(msg: string): string
    requires msg != ""
  {
    "* " + FirstLine(msg)
  }

  function CommitBullets(msgs: seq<string>): (r: seq<string>)
    requires NonEmptyMessages(msgs)
    ensures |r| == |msgs| && forall i {:trigger r[i]} :: 0 <= i < |r| ==> r[i] == CommitBullet(msgs[i])
  {
    seq(|msgs|, i requires 0 <= i < |msgs| && msgs[i] != "" => CommitBullet(msgs[i]))
  }

  function FileBullets(files: seq<FileChange>): (r: seq<string>)
    ensures |r| == |files| && forall k {:trigger r[k]} :: 0 <= k < |r| ==> r[k] == FileBullet(files[k])
  {
    seq(|files|, k requires 0 <= k < |files| => FileBullet(files[k]))
  }

  /** The commit summary section: absent without commits. */
  function CommitSummaryLines(msgs: seq<string>): seq<string>
    requires NonEmptyMessages(msgs)
  {
    if msgs == [] then [] else ["## Commit Summary"] + CommitBullets(msgs) + [""]
  }

  /** The statistics section. */
  function StatisticsLines(files: seq<FileChange>): seq<string> {
    ["", "## Statistics",
     "* Files changed: " + Decimal(|files|),
     "* Lines added: " + Decimal(TotalAdditions(files)),
     "* Lines removed: " + Decimal(TotalDeletions(files))]
  }

  /** The lines of the description `_generate_description` builds. */
  function DescriptionLines(msgs: seq<string>, files: seq<FileChange>): (r: seq<string>)
    requires NonEmptyMessages(msgs)
    ensures |r| == SummaryLength(msgs) + |files| + 6
  {
    CommitSummaryLength(msgs);
    CommitSummaryLines(msgs) + ["## Changes"] + FileBullets(files) + StatisticsLines(files)
  }

  /** `"\n".join(description)` */
  function Description(msgs: seq<string>, files: seq<FileChange>): (r: string)
    requires NonEmptyMessages(msgs)
    ensures r != ""
  {
    JoinOfSeveral(DescriptionLines(msgs, files), "\n");
    Join(DescriptionLines(msgs, files), "\n")
  }

  lemma CommitBulletsSnoc(msgs: seq<string>, i: nat)
    requires i < |msgs| && NonEmptyMessages(msgs[..i + 1])
    ensures CommitBullets(msgs[..i + 1]) == CommitBullets(msgs[..i]) + [CommitBullet(msgs[i])]
  {
  }

  lemma FileBulletsSnoc(files: seq<FileChange>, k: nat)
    requires k < |files|
    ensures FileBullets(files[..k + 1]) == FileBullets(files[..k]) + [FileBullet(files[k])]
  {
  }

  /** `_generate_description`, appending the lines one section at a time. */
  method GenerateDescription(msgs: seq<string>, files: seq<FileChange>) returns (text: Option<string>)
    ensures text.None? <==> !NonEmptyMessages(msgs)
    ensures text.Some? ==> text.value == Description(msgs, files)
  {
    var description: seq<string> := [];
    if |msgs| > 0 {
      description := description + ["## Commit Summary"];
      for i := 0 to |msgs|
        invariant NonEmptyMessages(msgs[..i])
        invariant description == ["## Commit Summary"] + CommitBullets(msgs[..i])
      {
        if msgs[i] == "" {
          // `"".splitlines()[0]` raises IndexError
          return None;
        }
        assert msgs[..i + 1] == msgs[..i] + [msgs[i]];
        CommitBulletsSnoc(msgs, i);
        AppendOne(description, ["## Commit Summary"], CommitBullets(msgs[..i]), CommitBullet(msgs[i]));
        description := description + ["* " + FirstLine(msgs[i])];
      }
      assert msgs[..|msgs|] == msgs;
      description := description + [""];
    }
    assert description == CommitSummaryLines(msgs);
    description := description + ["## Changes"];
    ghost var head := description;
    for k := 0 to |files|
      invariant description == head + FileBullets(files[..k])
    {
      var file := files[k];
      var changes: seq<string> := [];
      if file.additions > 0 {
        changes := changes + [CountPhrase(file.additions, "addition")];
      }
      if file.deletions > 0 {
        changes := changes + [CountPhrase(file.deletions, "deletion")];
      }
      assert changes == ChangeParts(file);
      FileBulletsSnoc(files, k);
      AppendOne(description, head, FileBullets(files[..k]), FileBullet(file));
      description := description + ["* " + file.path + " (" + Join(changes, ", ") + ")"];
    }
    assert files[..|files|] == files;
    var totalAdditions := TotalAdditions(files);
    var totalDeletions := TotalDeletions(files);
    description := description + [
      "", "## Statistics",
      "* Files changed: " + Decimal(|files|),
      "* Lines added: " + Decimal(totalAdditions),
      "* Lines removed: " + Decimal(totalDeletions)];
    text := Some(Join(description, "\n"));
  }

  /** How many lines the commit summary takes: none without commits,
      otherwise a heading, one bullet per commit and a blank line. */
  function SummaryLength(msgs: seq<string>): nat {
    if msgs == [] then 0 else |msgs| + 2
  }

  lemma CommitSummaryLayout(msgs: seq<string>)
    requires NonEmptyMessages(msgs)
    ensures |CommitSummaryLines(msgs)| == SummaryLength(msgs)
    ensures msgs != [] ==> CommitSummaryLines(msgs)[0] == "## Commit Summary"
    ensures msgs != [] ==> CommitSummaryLines(msgs)[|msgs| + 1] == ""
    ensures forall i :: 0 <= i < |msgs| ==> CommitSummaryLines(msgs)[1 + i] == CommitBullet(msgs[i])
  {
  }

  /** The description's layout: the commit summary (heading, one bullet per
      commit in order, blank line) only when there are commits, then the
      changes heading, one bullet per file in order, and the statistics. */
  lemma DescriptionLayout(msgs: seq<string>, files: seq<FileChange>)
    requires NonEmptyMessages(msgs)
    ensures |DescriptionLines(msgs, files)| == SummaryLength(msgs) + |files| + 6
    ensures forall j :: 0 <= j < SummaryLength(msgs) ==>
      DescriptionLines(msgs, files)[j] == CommitSummaryLines(msgs)[j]
    ensures DescriptionLines(msgs, files)[SummaryLength(msgs)] == "## Changes"
    ensures forall k :: 0 <= k < |files| ==>
      DescriptionLines(msgs, files)[SummaryLength(msgs) + 1 + k] == FileBullet(files[k])
    ensures forall j :: 0 <= j < 5 ==>
      DescriptionLines(msgs, files)[SummaryLength(msgs) + 1 + |files| + j] == StatisticsLines(files)[j]
  {
    DescriptionParts(msgs, files);
    DescriptionFileBullets(msgs, files);
    DescriptionStatistics(msgs, files);
  }

  lemma DescriptionParts(msgs: seq<string>, files: seq<FileChange>)
    requires NonEmptyMessages(msgs)
    ensures |DescriptionLines(msgs, files)| == SummaryLength(msgs) + |files| + 6
    ensures forall j :: 0 <= j < SummaryLength(msgs) ==>
      DescriptionLines(msgs, files)[j] == CommitSummaryLines(msgs)[j]
    ensures DescriptionLines(msgs, files)[SummaryLength(msgs)] == "## Changes"
  {
    var cs := CommitSummaryLines(msgs);
    CommitSummaryLayout(msgs);
    ConcatLayout(cs, "## Changes", FileBullets(files), StatisticsLines(files));
  }

  lemma DescriptionFileBullets(msgs: seq<string>, files: seq<FileChange>)
    requires NonEmptyMessages(msgs)
    ensures forall k :: 0 <= k < |files| ==>
      |DescriptionLines(msgs, files)| > SummaryLength(msgs) + 1 + k &&
      DescriptionLines(msgs, files)[SummaryLength(msgs) + 1 + k] == FileBullet(files[k])
  {
    CommitSummaryLength(msgs);
    ConcatLayout(CommitSummaryLines(msgs), "## Changes", FileBullets(files), StatisticsLines(files));
  }

  lemma DescriptionStatistics(msgs: seq<string>, files: seq<FileChange>)
    requires NonEmptyMessages(msgs)
    ensures forall j :: 0 <= j < 5 ==>
      |DescriptionLines(msgs, files)| > SummaryLength(msgs) + 1 + |files| + j &&
      DescriptionLines(msgs, files)[SummaryLength(msgs) + 1 + |files| + j] == StatisticsLines(files)[j]
  {
    var cs, fb, st := CommitSummaryLines(msgs), FileBullets(files), StatisticsLines(files);
    CommitSummaryLength(msgs);
    ConcatLayout(cs, "## Changes", fb, st);
    assert |fb| == |files| && |st| == 5;
    assert DescriptionLines(msgs, files) == cs + ["## Changes"] + fb + st;
    forall j | 0 <= j < 5
      ensures DescriptionLines(msgs, files)[SummaryLength(msgs) + 1 + |files| + j] == st[j]
    {
      var i := SummaryLength(msgs) + 1 + |files| + j;
      assert DescriptionLines(msgs, files)[i] == st[i - |cs| - 1 - |fb|];
    }
  }

  lemma CommitSummaryLength(msgs: seq<string>)
    requires NonEmptyMessages(msgs)
    ensures |CommitSummaryLines(msgs)| == SummaryLength(msgs)
  {
  }

  /** Where each part of `a + [x] + b + c` lands. */
  lemma ConcatLayout<T>(a: seq<T>, x: T, b: seq<T>, c: seq<T>)
    ensures |a + [x] + b + c| == |a| + 1 + |b| + |c|
    ensures forall i :: 0 <= i < |a| ==> (a + [x] + b + c)[i] == a[i]
    ensures (a + [x] + b + c)[|a|] == x
    ensures forall i :: |a| + 1 <= i < |a| + 1 + |b| ==> (a + [x] + b + c)[i] == b[i - |a| - 1]
    ensures forall i :: |a| + 1 + |b| <= i < |a| + 1 + |b| + |c| ==> (a + [x] + b + c)[i] == c[i - |a| - 1 - |b|]
  {
    var r := a + [x] + b + c;
    forall i | |a| + 1 <= i < |a| + 1 + |b| ensures r[i] == b[i - |a| - 1] {
      assert r[i] == (a + [x] + b)[i];
    }
  }

  /** The commit summary heading appears exactly when there are commits. */
  lemma CommitSummaryIff(msgs: seq<string>, files: seq<FileChange>)
    requires NonEmptyMessages(msgs)
    ensures "## Commit Summary" in DescriptionLines(msgs, files) <==> msgs != []
  {
    if msgs == [] {
      NoCommitHeading(files);
    } else {
      var cs := CommitSummaryLines(msgs);
      assert cs[0] == "## Commit Summary";
      assert DescriptionLines(msgs, files)[0] == cs[0];
    }
  }

  lemma NoCommitHeading(files: seq<FileChange>)
    ensures "## Commit Summary" !in DescriptionLines([], files)
  {
    var fb, st := FileBullets(files), StatisticsLines(files);
    assert DescriptionLines([], files) == ["## Changes"] + fb + st;
    FileBulletsNotHeading(files);
    StatisticsNotHeading(files);
  }

  lemma FileBulletsNotHeading(files: seq<FileChange>)
    ensures "## Commit Summary" !in FileBullets(files)
  {
    var fb := FileBullets(files);
    forall k | 0 <= k < |fb| ensures fb[k] != "## Commit Summary" {
      BulletNotHeading(fb[k]);
    }
  }

  lemma StatisticsNotHeading(files: seq<FileChange>)
    ensures "## Commit Summary" !in StatisticsLines(files)
  {
    var st := StatisticsLines(files);
    BulletNotHeading(st[2]);
    BulletNotHeading(st[3]);
    BulletNotHeading(st[4]);
  }

  lemma BulletNotHeading(line: string)
    requires line != [] && line[0] == '*'
    ensures line != "## Commit Summary"
  {
  }

  /** A count reads `<k> <word>`, with an `s` added exactly when `k > 1`. */
  lemma CountPhrasePlural(k: nat, word: string)
    requires word != [] && word[|word| - 1] != 's'
    ensures StartsWith(CountPhrase(k, word), Decimal(k) + " " + word)
    ensures EndsWith(CountPhrase(k, word), "s") <==> k > 1
  {
    var r := CountPhrase(k, word);
    var stem := Decimal(k) + " " + word;
    assert r == stem + (if k > 1 then "s" else "");
    assert r[..|stem|] == stem;
    assert r[|r| - 1] == if k > 1 then 's' else word[|word| - 1];
  }

  /** A file with neither added nor removed lines reads `* <path> ()`. */
  lemma QuietFileBullet(f: FileChange)
    requires f.additions == 0 && f.deletions == 0
    ensures FileBullet(f) == "* " + f.path + " ()"
  {
    assert Join(ChangeParts(f), ", ") == "";
    ConcatAssoc("* " + f.path, " (", "");
    ConcatAssoc("* " + f.path, " (", ")");
  }

  lemma DecimalHasNoNewline(n: nat)
    ensures '\n' !in Decimal(n)
  {
    var d := Decimal(n);
    assert forall i :: 0 <= i < |d| ==> IsDigit(d[i]);
  }

  lemma FileBulletOneLine(f: FileChange)
    requires '\n' !in f.path
    ensures '\n' !in FileBullet(f)
  {
    var parts := ChangeParts(f);
    DecimalHasNoNewline(f.additions);
    DecimalHasNoNewline(f.deletions);
    forall k | 0 <= k < |parts| ensures '\n' !in parts[k] {
    }
    JoinAvoids(parts, ", ", '\n');
  }

  /** No line of `lines` holds a newline. */
  predicate OneLineEach(lines: seq<string>) {
    forall j :: 0 <= j < |lines| ==> '\n' !in lines[j]
  }

  lemma OneLineEachConcat(a: seq<string>, b: seq<string>)
    requires OneLineEach(a) && OneLineEach(b)
    ensures OneLineEach(a + b)
  {
    forall j | 0 <= j < |a + b| ensures '\n' !in (a + b)[j] {
      if j >= |a| {
        assert (a + b)[j] == b[j - |a|];
      }
    }
  }

  /** Read back line by line, the description gives its lines again, as long
      as no path holds a newline. */
  lemma DescriptionLinesRecoverable(msgs: seq<string>, files: seq<FileChange>)
    requires NonEmptyMessages(msgs)
    requires forall k :: 0 <= k < |files| ==> '\n' !in files[k].path
    ensures Split(Description(msgs, files), "\n") == DescriptionLines(msgs, files)
  {
    var cs, fb, st := CommitSummaryLines(msgs), FileBullets(files), StatisticsLines(files);
    CommitSummaryLayout(msgs);
    forall j | 0 <= j < |cs| ensures '\n' !in cs[j] {
      CommitSummaryOneLine(msgs, j);
    }
    forall k | 0 <= k < |fb| ensures '\n' !in fb[k] {
      FileBulletOneLine(files[k]);
    }
    forall j | 0 <= j < |st| ensures '\n' !in st[j] {
      StatisticsOneLine(files, j);
    }
    assert OneLineEach(["## Changes"]);
    OneLineEachConcat(cs, ["## Changes"]);
    OneLineEachConcat(cs + ["## Changes"], fb);
    OneLineEachConcat(cs + ["## Changes"] + fb, st);
    SplitJoin(DescriptionLines(msgs, files), '\n');
  }

  lemma CommitSummaryOneLine(msgs: seq<string>, j: nat)
    requires NonEmptyMessages(msgs) && j < SummaryLength(msgs)
    ensures '\n' !in CommitSummaryLines(msgs)[j]
  {
    var bullets := CommitBullets(msgs);
    var lines := ["## Commit Summary"] + bullets + [""];
    assert CommitSummaryLines(msgs) == lines;
    if 0 < j <= |msgs| {
      assert lines[j] == bullets[j - 1];
      CommitBulletOneLine(msgs[j - 1]);
    } else if j == 0 {
      assert lines[j] == "## Commit Summary";
    } else {
      assert lines[j] == "";
    }
  }

  lemma CommitBulletOneLine(msg: string)
    requires msg != ""
    ensures '\n' !in CommitBullet(msg)
  {
    var first := FirstLine(msg);
    assert forall i :: 0 <= i < |first| ==> first[i] != '\n';
    assert CommitBullet(msg) == "* " + first;
  }

  lemma StatisticsOneLine(files: seq<FileChange>, j: nat)
    requires j < 5
    ensures '\n' !in StatisticsLines(files)[j]
  {
    DecimalHasNoNewline(|files|);
    DecimalHasNoNewline(TotalAdditions(files));
    DecimalHasNoNewline(TotalDeletions(files));
  }

  /** When the diff opens with a header, the statistics give the number of
      header lines and all added and removed lines of the diff. */
  lemma StatisticsOfDiff(diff: string)
    requires IsHeader(Lines(diff)[0])
    ensures StatisticsLines(ChangedFiles(diff)) ==
      ["", "## Statistics",
       "* Files changed: " + Decimal(|Headers(Lines(diff))|),
       "* Lines added: " + Decimal(CountAdditions(Lines(diff))),
       "* Lines removed: " + Decimal(CountDeletions(Lines(diff)))]
  {
    TotalsOfDiff(diff);
  }

  // ---------------------------------------------------------------------------
  // the analyzer

  /** `_generate_large_diff_pr` */
  const LargeDiffSummary: Summary :=
    Summary("Large code change", "This PR contains extensive changes. Please review carefully.")

  /** What `_generate_pr_content` returns: the changed files, then the title
      and the description made from them. */
  function PrContent(diff: string, msgs: seq<string>): (r: Summary)
    requires NonEmptyMessages(msgs)
    ensures r.description != ""
    ensures msgs == [] ==> StartsWith(r.title, "Update ")
  {
    var files := ChangedFiles(diff);
    Summary(GenerateTitle(msgs, files), Description(msgs, files))
  }

  /** The description of the fallback reads back, line by line, as its
      lines: the paths of a diff never hold a newline. It is never empty. */
  lemma PrContentLines(diff: string, msgs: seq<string>)
    requires NonEmptyMessages(msgs)
    ensures Split(PrContent(diff, msgs).description, "\n") ==
      DescriptionLines(msgs, ChangedFiles(diff))
    ensures PrContent(diff, msgs).description != ""
  {
    var files := ChangedFiles(diff);
    HeaderPathsOneLine(diff);
    DescriptionLinesRecoverable(msgs, files);
  }

  /** `_generate_pr_content`; `None` when the description raises on an empty
      commit message. */
  method GeneratePrContent(diff: string, msgs: seq<string>) returns (r: Option<Summary>)
    ensures r.None? <==> !NonEmptyMessages(msgs)
    ensures r.Some? ==> r.value == PrContent(diff, msgs)
  {
    var files := AnalyzeChangedFiles(diff);
    var title := GenerateTitle(msgs, files);
    var description := GenerateDescription(msgs, files);
    match description
    case None => r := None;
    case Some(text) => r := Some(Summary(title, text));
  }

  /** `if ai_title and ai_description`: both present and non-empty. */
  predicate Accepted(ai: Option<Summary>) {
    ai.Some? && ai.value.title != "" && ai.value.description != ""
  }

  /** `DiffAnalyzer`, holding the `ghpush` summarizer it makes. */
  class DiffAnalyzer {
    const aiSummarizer: GhpushSummarizer.AISummarizer

    /** `__init__`: the summarizer reads the key from the environment. */
    constructor(envApiKey: Option<string>)
      ensures aiSummarizer.apiKey == envApiKey
      ensures aiSummarizer.hasClient == KeyPresent(envApiKey)
    {
      aiSummarizer := new GhpushSummarizer.AISummarizer(envApiKey);
    }

    /** What `analyze_diff` returns; `None` when the fallback raises. */
    function Analysis(diff: string, msgs: seq<string>, service: string -> Reply): (r: Option<Summary>)
      ensures EstimateTokens(diff) > MaxTokens ==> r == Some(LargeDiffSummary)
      ensures r.Some? ==> r.value.description != ""
      ensures EstimateTokens(diff) <= MaxTokens && Accepted(aiSummarizer.GenerateSummary(diff, msgs, service)) ==>
        r == aiSummarizer.GenerateSummary(diff, msgs, service)
      ensures (EstimateTokens(diff) <= MaxTokens && !Accepted(aiSummarizer.GenerateSummary(diff, msgs, service)) &&
        NonEmptyMessages(msgs)) ==> r == Some(PrContent(diff, msgs))
      ensures r.None? <==>
        EstimateTokens(diff) <= MaxTokens &&
        !Accepted(aiSummarizer.GenerateSummary(diff, msgs, service)) &&
        !NonEmptyMessages(msgs)
    {
      if EstimateTokens(diff) > MaxTokens then
        Some(LargeDiffSummary)
      else
        var ai := aiSummarizer.GenerateSummary(diff, msgs, service);
        if Accepted(ai) then
          ai
        else if !NonEmptyMessages(msgs) then
          None
        else
          Some(PrContent(diff, msgs))
    }

    /** `analyze_diff`: the size gate, then the summarizer, then the
        summary made from the diff itself. */
    method AnalyzeDiff(diff: string, msgs: seq<string>, service: string -> Reply) returns (r: Option<Summary>)
      ensures r == Analysis(diff, msgs, service)
    {
      if EstimateTokens(diff) > MaxTokens {
        return Some(LargeDiffSummary);
      }
      var ai := aiSummarizer.GenerateSummary(diff, msgs, service);
      if ai.Some? && ai.value.title != "" && ai.value.description != "" {
        return ai;
      }
      r := GeneratePrContent(diff, msgs);
    }
  }

  /** Over the limit the diff is never sent: any two services give the
      generic summary. */
  lemma LargeDiffIgnoresService(a: DiffAnalyzer, diff: string, msgs: seq<string>, s1: string -> Reply, s2: string -> Reply)
    requires EstimateTokens(diff) > MaxTokens
    ensures a.Analysis(diff, msgs, s1) == a.Analysis(diff, msgs, s2) == Some(LargeDiffSummary)
  {
  }

  /** At or under the limit (10000 words included) an answer in the
      instructed format, with a non-empty title and description, is what
      the analyzer returns. */
  lemma AnswerAccepted(a: DiffAnalyzer, diff: string, msgs: seq<string>, service: string -> Reply, t: string, d: string)
    requires EstimateTokens(diff) <= MaxTokens
    requires a.aiSummarizer.hasClient == KeyPresent(a.aiSummarizer.apiKey) && KeyPresent(a.aiSummarizer.apiKey)
    requires service(Prompt(diff, msgs)) == Content(Some("TITLE: " + t + "\nDESCRIPTION:\n" + d))
    requires NoOccurrence(t, TitleMarker) && NoOccurrence(t, DescriptionMarker)
    requires IsStripped(t) && IsStripped(d) && t != "" && d != ""
    ensures a.Analysis(diff, msgs, service) == Some(Summary(t, d))
  {
    GhpushSummarizer.AnswerRoundTrip(a.aiSummarizer, diff, msgs, service, t, d);
  }

  /** Without a key the basic summary of the summarizer is what comes back:
      its title and description are never empty. */
  lemma NoKeyGivesBasicSummary(a: DiffAnalyzer, diff: string, msgs: seq<string>, service: string -> Reply)
    requires EstimateTokens(diff) <= MaxTokens && !KeyPresent(a.aiSummarizer.apiKey)
    ensures a.Analysis(diff, msgs, service) == Some(GhpushSummarizer.BasicSummary(diff))
  {
  }

  /** Under the limit, the summary made from the diff itself is reached
      exactly when there is a key and the service answered, but with no
      content or with an empty title or description: a missing key and a
      raising call are caught by the summarizer's own basic summary. */
  lemma FallbackIff(a: DiffAnalyzer, diff: string, msgs: seq<string>, service: string -> Reply)
    requires a.aiSummarizer.hasClient == KeyPresent(a.aiSummarizer.apiKey)
    ensures !Accepted(a.aiSummarizer.GenerateSummary(diff, msgs, service)) <==>
      KeyPresent(a.aiSummarizer.apiKey) && service(Prompt(diff, msgs)).Content? &&
      !Accepted(ParseResponse(service(Prompt(diff, msgs)).text))
  {
  }

  /** An answer without a `DESCRIPTION:` marker leads to the fallback: its
      description parses empty. */
  lemma UnformattedAnswerFallsBack(a: DiffAnalyzer, diff: string, msgs: seq<string>, service: string -> Reply, text: string)
    requires EstimateTokens(diff) <= MaxTokens && NonEmptyMessages(msgs)
    requires a.aiSummarizer.hasClient == KeyPresent(a.aiSummarizer.apiKey) && KeyPresent(a.aiSummarizer.apiKey)
    requires service(Prompt(diff, msgs)) == Content(Some(text)) && NoOccurrence(text, DescriptionMarker)
    ensures a.Analysis(diff, msgs, service) == Some(PrContent(diff, msgs))
  {
    FallbackIff(a, diff, msgs, service);
  }
}
