/**
 * A worked case: a diff of one Python file with one added and one removed
 * line, and no commit messages. It shows the record `_analyze_changed_files`
 * reports for it, the summary made from the diff itself, and what
 * `analyze_diff` of `ghpush` returns for it when no API key is set.
 */
module WorkedExample {
  import opened PyText
  import opened PathName
  import opened UnifiedDiff
  import opened SummaryPrompt
  import opened DiffAnalysis
  import GhpushSummarizer

  const Header: string := "diff --git a/x.py b/x.py"
  const Body: seq<string> := ["--- a/x.py", "+++ b/x.py", "+print(1)", "-print(0)", ""]

  /** The diff text
      `diff --git a/x.py b/x.py\n--- a/x.py\n+++ b/x.py\n+print(1)\n-print(0)\n`:
      its lines joined by newlines, the last one empty after the final
      newline. */
  const ExampleDiff: string := Join([Header] + Body, "\n")

  lemma ExampleLines()
    ensures Lines(ExampleDiff) == [Header] + Body
  {
    var lines := [Header] + Body;
    forall k | 0 <= k < |lines| ensures '\n' !in lines[k] {
    }
    SplitJoin(lines, '\n');
  }

  lemma ExamplePath()
    ensures HeaderPath(Header) == "x.py" && Suffix("x.py") == ".py"
  {
    ExampleHeaderPath();
    ExampleSuffix();
  }

  lemma ExampleHeaderPath()
    ensures HeaderPath(Header) == "x.py"
  {
    assert Header == HeaderPrefix + " a/" + "x.py" + PathMarker + "x.py";
    FirstCharAbsent("x.py", PathMarker);
    HeaderPathOfGitHeader("x.py", "x.py");
  }

  lemma ExampleSuffix()
    ensures Suffix("x.py") == ".py"
  {
    assert "x" + "." + "py" == "x.py";
    SuffixOfDottedName("x", "py");
  }

  /** Counting one more line. */
  lemma CountSnoc(lines: seq<string>, line: string)
    ensures CountAdditions(lines + [line]) == CountAdditions(lines) + (if IsAddition(line) then 1 else 0)
    ensures CountDeletions(lines + [line]) == CountDeletions(lines) + (if IsDeletion(line) then 1 else 0)
  {
    assert (lines + [line])[..|lines|] == lines;
  }

  lemma ExampleCounts()
    ensures CountAdditions(Body) == 1 && CountDeletions(Body) == 1
  {
    var b := Body;
    DiffersAt(b[0], "+", 0);
    assert b[0][..3] == "---";
    assert b[1][..3] == "+++";
    DiffersAt(b[1], "-", 0);
    StartsWithFirst(b[2], '+');
    DiffersAt(b[2], "+++", 1);
    DiffersAt(b[2], "-", 0);
    StartsWithFirst(b[3], '-');
    DiffersAt(b[3], "---", 1);
    DiffersAt(b[3], "+", 0);
    CountSnoc([], b[0]);
    CountSnoc([b[0]], b[1]);
    CountSnoc([b[0], b[1]], b[2]);
    CountSnoc([b[0], b[1], b[2]], b[3]);
    CountSnoc([b[0], b[1], b[2], b[3]], b[4]);
    assert [b[0], b[1], b[2], b[3]] + [b[4]] == b;
    assert [] + [b[0]] == [b[0]];
    assert [b[0]] + [b[1]] == [b[0], b[1]];
    assert [b[0], b[1]] + [b[2]] == [b[0], b[1], b[2]];
    assert [b[0], b[1], b[2]] + [b[3]] == [b[0], b[1], b[2], b[3]];
  }

  /** One record: `x.py`, extension `.py`, one addition and one deletion;
      the `---` and `+++` lines are not counted. */
  lemma ExampleChangedFiles(diff: string)
    requires diff == ExampleDiff
    ensures ChangedFiles(diff) == [FileChange("x.py", ".py", 1, 1)]
  {
    ExampleLines();
    HeaderOpensExample();
    BodyHasNoHeader();
    ChangedFilesOfOneSection(diff, Header, Body);
    ExamplePath();
    ExampleCounts();
  }

  lemma HeaderOpensExample()
    ensures IsHeader(Header)
  {
    assert Header[..|HeaderPrefix|] == HeaderPrefix;
  }

  lemma BodyHasNoHeader()
    ensures forall k :: 0 <= k < |Body| ==> !IsHeader(Body[k])
  {
    var b := Body;
    DiffersAt(b[0], HeaderPrefix, 0);
    DiffersAt(b[1], HeaderPrefix, 0);
    DiffersAt(b[2], HeaderPrefix, 0);
    DiffersAt(b[3], HeaderPrefix, 0);
    forall k | 0 <= k < |b| ensures !IsHeader(b[k]) {
      if k == 0 {
      } else if k == 1 {
      } else if k == 2 {
      } else if k == 3 {
      }
    }
  }

  const ExampleFile: FileChange := FileChange("x.py", ".py", 1, 1)

  lemma DecimalOne()
    ensures Decimal(1) == "1"
  {
    assert DigitChar(1) == '1';
  }

  lemma CountPhraseOne(word: string)
    ensures CountPhrase(1, word) == "1 " + word
  {
    DecimalOne();
    assert CountPhrase(1, word) == "1" + " " + word + "";
  }

  lemma JoinTwo(p: string, q: string, sep: string)
    ensures Join([p, q], sep) == p + sep + q
  {
    assert [p, q][1..] == [q];
  }

  lemma ExampleBullet(f: FileChange)
    requires f == ExampleFile
    ensures FileBullet(f) == "* x.py (1 addition, 1 deletion)"
  {
    var parts := ChangeParts(f);
    var add, del := CountPhrase(1, "addition"), CountPhrase(1, "deletion");
    assert parts == [add, del];
    CountPhraseOne("addition");
    CountPhraseOne("deletion");
    JoinTwo(add, del, ", ");
    BulletText();
  }

  lemma BulletText()
    ensures "* " + "x.py" + " (" + ("1 addition" + ", " + "1 deletion") + ")" ==
      "* x.py (1 addition, 1 deletion)"
  {
    assert "1 addition" + ", " + "1 deletion" == "1 addition, 1 deletion";
  }

  lemma ExampleStatistics(files: seq<FileChange>)
    requires files == [ExampleFile]
    ensures StatisticsLines(files) ==
      ["", "## Statistics", "* Files changed: 1", "* Lines added: 1", "* Lines removed: 1"]
  {
    DecimalOne();
    assert files[..|files| - 1] == [];
    assert TotalAdditions(files) == 1;
    assert TotalDeletions(files) == 1;
    assert "* Files changed: " + "1" == "* Files changed: 1";
    assert "* Lines added: " + "1" == "* Lines added: 1";
    assert "* Lines removed: " + "1" == "* Lines removed: 1";
  }

  lemma ExampleExtensions()
    ensures ExtensionSet([ExampleFile]) == {".py"}
  {
    var files := [ExampleFile];
    forall e | e in ExtensionSet(files) ensures e == ".py" {
      var k :| 0 <= k < |files| && files[k].extension != "" && files[k].extension == e;
    }
    assert files[0].extension in ExtensionSet(files);
  }

  lemma ExampleTitle(files: seq<FileChange>)
    requires files == [ExampleFile]
    ensures GenerateTitle([], files) == "Update py files"
  {
    ExampleSuffix();
    assert SuffixedRecords(files);
    ExampleExtensions();
    TitleOfSingleExtension(files, ".py");
    UpdatePyFiles();
  }

  lemma UpdatePyFiles()
    ensures "Update " + ".py"[1..] + " files" == "Update py files"
  {
    assert ".py"[1..] == "py";
  }

  /** A joined text is no longer than its parts, each with a separator. */
  lemma {:induction false} JoinBound(parts: seq<string>, sep: string, bound: nat)
    requires forall k :: 0 <= k < |parts| ==> |parts[k]| <= bound
    ensures |Join(parts, sep)| <= |parts| * (bound + |sep|)
    decreases |parts|
  {
    if |parts| >= 2 {
      JoinBound(parts[1..], sep, bound);
      assert |parts| * (bound + |sep|) == (bound + |sep|) + (|parts| - 1) * (bound + |sep|);
    }
  }

  /** The example's few words are far under the size limit. */
  lemma ExampleIsSmall(diff: string)
    requires diff == ExampleDiff
    ensures EstimateTokens(diff) <= MaxTokens
  {
    var lines := [Header] + Body;
    forall k | 0 <= k < |lines| ensures |lines[k]| <= 24 {
    }
    JoinBound(lines, "\n", 24);
  }

  /** The summary made from the diff: the title names the one extension and
      the description lists the file with its counts, then the totals. */
  lemma ExampleHeuristicSummary(diff: string)
    requires diff == ExampleDiff
    ensures PrContent(diff, []).title == "Update py files"
    ensures DescriptionLines([], ChangedFiles(diff)) ==
      ["## Changes", "* x.py (1 addition, 1 deletion)",
       "", "## Statistics", "* Files changed: 1", "* Lines added: 1", "* Lines removed: 1"]
  {
    ExampleChangedFiles(diff);
    var files := ChangedFiles(diff);
    ExampleTitle(files);
    ExampleDescription(files);
  }

  lemma ExampleDescription(files: seq<FileChange>)
    requires files == [ExampleFile]
    ensures DescriptionLines([], files) ==
      ["## Changes", "* x.py (1 addition, 1 deletion)",
       "", "## Statistics", "* Files changed: 1", "* Lines added: 1", "* Lines removed: 1"]
  {
    ExampleBullet(files[0]);
    ExampleStatistics(files);
    var bullets := FileBullets(files);
    assert bullets == ["* x.py (1 addition, 1 deletion)"];
    assert DescriptionLines([], files) == [] + ["## Changes"] + bullets + StatisticsLines(files);
  }

  lemma ExampleBasicSummary(diff: string)
    requires diff == ExampleDiff
    ensures GhpushSummarizer.BasicSummary(diff) == Summary("Update 1 file", "Changes include:\nx.py")
  {
    ExampleLines();
    ExampleHeaderPath();
    var lines := Lines(diff);
    assert Headers(lines) == [Header] by {
      ExampleChangedFiles(diff);
    }
    assert HeaderPaths(lines) == ["x.py"];
    BasicTexts();
  }

  lemma BasicTexts()
    ensures GhpushSummarizer.BasicTitle(1) == "Update 1 file"
    ensures GhpushSummarizer.BasicHeading + Join(["x.py"], "\n") == "Changes include:\nx.py"
  {
    DecimalOne();
    assert "Update " + "1" + " file" + "" == "Update 1 file";
  }

  /** Without an API key the summarizer's own basic summary is returned, not
      the summary above: `generate_summary` never reports a failure when the
      key is missing. */
  lemma ExampleWithoutKey(a: DiffAnalyzer, service: string -> Reply, diff: string)
    requires diff == ExampleDiff && !KeyPresent(a.aiSummarizer.apiKey)
    ensures a.Analysis(diff, [], service) == Some(Summary("Update 1 file", "Changes include:\nx.py"))
  {
    ExampleIsSmall(diff);
    NoKeyGivesBasicSummary(a, diff, [], service);
    ExampleBasicSummary(diff);
  }
}
