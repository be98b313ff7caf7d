# ghpush: from a diff to a pull request summary

A Dafny model of the part of `ghpush` that turns a `git diff` and a branch's
commit messages into a pull request title and description, and of the
helpers that build the page address that opens the pull request.

- `DiffAnalysis` models `DiffAnalyzer` (`ghpush/diff_analyzer.py`).
  - Above `MAX_TOKENS` (10000 whitespace-separated words) it returns a fixed
    summary.
  - Otherwise it asks the AI summarizer. It keeps the answer when both the
    title and the description are non-empty.
  - Failing that, it builds a summary from the diff. It keeps one record per
    `diff --git` section (path, suffix, added and removed lines). The title
    comes from the first commit or from the extensions. The description is in
    Markdown, with commit, change and statistics sections.
  - `_analyze_changed_files` and `_generate_description` are methods with
    loops, proved equal to the specification functions `ChangedFiles` and
    `Description`. `analyze_diff` is a method that chooses among the fixed
    summary, the AI answer and the summary from the diff; it is proved equal
    to `DiffAnalyzer.Analysis`. Lemmas state what those functions promise:
    - the sections partition the lines after the preamble;
    - the totals are the added and removed lines of the diff;
    - the description reads back line by line;
    - the title takes the form each of its four branches gives it: the
      first commit, a single extension, a single file, or the file count.
- `SummaryPrompt` models the prompt and the parsing of the answer. Both AI
  summarizers, `ghpush/ai_summarizer.py` and `src/gpush/ai_summarizer.py`,
  hold identical copies of `_create_prompt` and `_parse_ai_response`, so they
  are defined once. The main result is a round trip: an answer in the
  instructed `TITLE:` / `DESCRIPTION:` format parses back to its parts.
- `GhpushSummarizer` and `GpushSummarizer` model the two `AISummarizer`
  classes. The `ghpush` one falls back to a basic summary, built from the
  header lines, when the key is missing or the call raises. The `gpush` one
  gives `(None, None)` instead, written `None` here.
- `GitUrls` models `get_remote_url` and `create_pr_url` of
  `ghpush/git_operations.py`.
- `PathName` models `pathlib`'s `name` and `suffix`.
- `UnifiedDiff` models the lines, header lines and counted lines of a diff.
- `PyText` models the Python `str` operations the code uses.
- `WorkedExample` works through a one-file diff end to end.

Some things are parameters:
- The chat completion service is `service: string -> Reply`, from the prompt
  to `Raised` or to `Content` of an optional text.
- The `OPENAI_API_KEY` variable is an `Option<string>` given to the
  constructors.
- The URL of `origin` and the current branch name are arguments.

Where the code and its description differ, the model follows the code:
- In `ghpush`, with no API key, `generate_summary` already returns the basic
  summary: "Update <n> file(s)", then the header paths. Its title and
  description are never empty, so `analyze_diff` does not build the summary
  from the diff in that case (`NoKeyGivesBasicSummary`). For the one-file
  diff, the result without a key is "Update 1 file" (`ExampleWithoutKey`),
  not "Update py files" (`ExampleHeuristicSummary`).
- A title from a commit can be empty, for a first line such as `#12:`.
- Lines starting with `+++` or `---` are counted as neither added nor
  removed, wherever they occur in a section.
- Lines before the first `diff --git` header are ignored entirely
  (`PreambleIgnored`).
- An empty commit message makes `_generate_description` raise `IndexError` at
  `msg.splitlines()[0]`. Nothing in the analyzer catches it, so `analyze_diff`
  raises; here that is the `None` result of `GenerateDescription`,
  `GeneratePrContent` and `DiffAnalyzer.Analysis`.

## Model

| member | source | states |
|---|---|---|
| PyText.Split | ghpush/diff_analyzer.py:49 | `split(sep)` gives at least one piece, and no piece holds the separator |
| PyText.SplitRejoin | ghpush/diff_analyzer.py:49 | joining the pieces of `split(sep)` with `sep` gives the text back |
| PyText.SplitJoin | ghpush/ai_summarizer.py:56-60 | for a one-character separator, splitting a join of pieces that hold no separator gives the pieces back |
| PyText.SplitOnce | ghpush/ai_summarizer.py:87 | `split(sep, 1)` gives one piece exactly when the separator is absent; otherwise the text is `before + sep + after`, split at the first occurrence |
| PyText.SplitOnceAtFirst | ghpush/ai_summarizer.py:87 | for a non-empty, non-overlapping `p` (such as `DESCRIPTION:`): when `x` holds no `p`, `split(p, 1)` of `x + p + y` is `[x, y]` whatever `y` holds |
| PyText.AfterLast | ghpush/diff_analyzer.py:53 | `split(sep)[-1]` holds no separator, ends the text, and is the whole text when there is no separator |
| PyText.AfterLastOfJoined | ghpush/diff_analyzer.py:53 | for a non-overlapping separator absent from `y`, `(x + p + y).split(p)[-1]` is `y` |
| PyText.Replace | ghpush/ai_summarizer.py:88 | `replace` leaves a text without the target unchanged |
| PyText.ReplaceSingle | ghpush/ai_summarizer.py:88 | a single occurrence of a non-overlapping target is replaced in place, with the text around it kept |
| PyText.Strip | ghpush/ai_summarizer.py:88-89 | `strip()` gives a text with no surrounding whitespace and leaves such a text unchanged |
| PyText.StripSurrounded | ghpush/ai_summarizer.py:88-89 | whitespace around a stripped text is removed, and nothing more |
| PyText.LStrip | ghpush/diff_analyzer.py:76 | `lstrip()` removes exactly the leading whitespace: a suffix of the text remains, and it does not start with whitespace |
| PyText.LStripChar | ghpush/diff_analyzer.py:82 | `lstrip(c)` removes exactly the leading run of `c` |
| PyText.FirstLine | ghpush/diff_analyzer.py:97 | `splitlines()[0]` is the prefix before the first line boundary, and holds no boundary |
| PyText.WordsAreWords | ghpush/diff_analyzer.py:16 | every piece of `split()` is a non-empty run without whitespace |
| PyText.Words | ghpush/diff_analyzer.py:16 | `split()` gives at most one word per character; `WordsAreWords`, `WordsCountRuns` and `NoWordsIffBlank` say how many words there are, and that each is a non-empty run without whitespace |
| PyText.WordsCountRuns | ghpush/diff_analyzer.py:16 | `len(split())` equals the number of maximal non-whitespace runs, counted independently |
| PyText.NoWordsIffBlank | ghpush/diff_analyzer.py:16 | `split()` gives no words exactly when the text is blank |
| PyText.Decimal | ghpush/diff_analyzer.py:116-118 | `f"{n}"` is a non-empty string of digits with no leading zero |
| PyText.DecimalRoundTrip | ghpush/diff_analyzer.py:116-118 | reading the rendered digits back gives the number |
| PathName.Name | ghpush/diff_analyzer.py:85 | `Path(p).name` is empty or a single component: not `.` and without `/` |
| PathName.NameOfNestedPath | ghpush/diff_analyzer.py:85 | the name of `dir/base` is `base`, whatever the directories |
| PathName.Suffix | ghpush/diff_analyzer.py:56 | `Path(p).suffix` is empty, or a dot followed by at least one character and no other dot, ending the name |
| PathName.SuffixOfDottedName | ghpush/diff_analyzer.py:56 | the suffix of `stem.ext` is `.ext` |
| PathName.NoSuffixWithoutInnerDot | ghpush/diff_analyzer.py:56 | a name with no dot, or with only a leading dot, has no suffix |
| UnifiedDiff.Lines | ghpush/diff_analyzer.py:49 | `split('\n')` gives at least one line, none holding a newline |
| UnifiedDiff.LinesRejoin | ghpush/diff_analyzer.py:49 | the lines joined by newlines give the diff back |
| UnifiedDiff.HeaderPath | ghpush/diff_analyzer.py:53 | the path of a header holds no ` b/`, ends the line, and is the whole line when the line has no ` b/` |
| UnifiedDiff.HeaderPathOfGitHeader | ghpush/diff_analyzer.py:53 | the path of `diff --git a/<old> b/<new>` is `<new>` whatever `<old>` holds |
| UnifiedDiff.Headers | ghpush/ai_summarizer.py:53 | the header lines are header lines of the diff, at most as many as its lines |
| UnifiedDiff.HeadersComplete | ghpush/ai_summarizer.py:53 | every header line of the diff is among them |
| UnifiedDiff.NoHeaders | ghpush/ai_summarizer.py:53 | lines with no header line have none |
| UnifiedDiff.HeadersAppend | ghpush/ai_summarizer.py:53 | the header lines of two parts of a diff are those of the first followed by those of the second |
| UnifiedDiff.HeaderPathsOneLine | ghpush/ai_summarizer.py:56-60 | no header path holds a newline |
| UnifiedDiff.CountAdditions | ghpush/diff_analyzer.py:60-61 | the added lines are at most all of the lines |
| UnifiedDiff.CountDeletions | ghpush/diff_analyzer.py:62-63 | the removed lines are at most all of the lines |
| UnifiedDiff.CountsAppend | ghpush/diff_analyzer.py:112-113 | both counts add up over concatenated lines |
| UnifiedDiff.HeaderIsNotAChange | ghpush/diff_analyzer.py:50-63 | a header line is counted neither as added nor as removed |
| UnifiedDiff.AdditionIsNotDeletion | ghpush/diff_analyzer.py:60-63 | no line counts both as added and as removed |
| DiffAnalysis.EstimateTokens | ghpush/diff_analyzer.py:13-16 | the token estimate is the number of non-whitespace runs, at most the length of the text |
| DiffAnalysis.BlankTextHasNoTokens | ghpush/diff_analyzer.py:13-16 | blank text has no tokens |
| DiffAnalysis.Sections | ghpush/diff_analyzer.py:49-59 | there are as many sections as header lines |
| DiffAnalysis.SectionsFollowHeaders | ghpush/diff_analyzer.py:50-59 | the k-th section opens with the k-th header line, and no body holds a header |
| DiffAnalysis.Preamble | ghpush/diff_analyzer.py:47-63 | the lines before the first header are a prefix with no header, and the whole diff when there is no header |
| DiffAnalysis.SectionsPartition | ghpush/diff_analyzer.py:49-63 | the preamble followed by the sections laid end to end gives the lines back: nothing lost, duplicated or reordered |
| DiffAnalysis.PreambleIgnored | ghpush/diff_analyzer.py:51-63 | lines without a header, put in front, change no section |
| DiffAnalysis.SectionsKeepClosed | ghpush/diff_analyzer.py:50-52 | lines from a header on leave the earlier sections unchanged and add at least one |
| DiffAnalysis.ChangedFiles | ghpush/diff_analyzer.py:44-68 | one record per header line, with that header's path and the suffix of that path |
| DiffAnalysis.ChangedFilesOfOneSection | ghpush/diff_analyzer.py:44-68 | a header followed by lines without a header gives a single record for all of them |
| DiffAnalysis.SingleSection | ghpush/diff_analyzer.py:50-63 | a header and lines without a header form one section |
| DiffAnalysis.QuietSection | ghpush/diff_analyzer.py:50-59 | a header followed at once by another header, or by the end, still gives its record, with zero counts |
| DiffAnalysis.AnalyzeChangedFiles | ghpush/diff_analyzer.py:44-68 | the loop that keeps the current record aside returns exactly `ChangedFiles` |
| DiffAnalysis.TotalsCountSectionLines | ghpush/diff_analyzer.py:112-113 | the records' totals plus the preamble's counts are all added and removed lines |
| DiffAnalysis.TotalsOfDiff | ghpush/diff_analyzer.py:112-113 | when the diff opens with a header, the totals are its added and removed lines |
| DiffAnalysis.TotalAdditions | ghpush/diff_analyzer.py:112 | the total of added lines is zero exactly when no record has an added line |
| DiffAnalysis.TotalDeletions | ghpush/diff_analyzer.py:113 | the total of removed lines is zero exactly when no record has a removed line |
| DiffAnalysis.TotalsAppend | ghpush/diff_analyzer.py:112-113 | one more record adds its own counts to the totals |
| DiffAnalysis.DigitRunOfDigits | ghpush/diff_analyzer.py:76 | `\d+` takes the whole leading run of digits |
| DiffAnalysis.StripIssueRef | ghpush/diff_analyzer.py:76 | the substitution never lengthens the title; `StripIssueRefKeepsTail` and `StripIssueRefAt` state when it applies and what it removes |
| DiffAnalysis.StripIssueRefKeepsTail | ghpush/diff_analyzer.py:76 | only a prefix is ever removed, and the title is unchanged unless it starts with `#`, a run of digits and `:` |
| DiffAnalysis.StripIssueRefAt | ghpush/diff_analyzer.py:76 | when it does start so, `#<digits>:<rest>` becomes `rest` without its leading whitespace |
| DiffAnalysis.IssueRefRemoved | ghpush/diff_analyzer.py:76 | `#<n>:<spaces><subject>` becomes `<subject>`, even when the subject opens with another reference |
| DiffAnalysis.ExtensionSetSnoc | ghpush/diff_analyzer.py:80 | one more record adds its non-empty extension to the set |
| DiffAnalysis.DistinctExtensions | ghpush/diff_analyzer.py:80 | the list holds no repeats and has the same elements as the set of non-empty extensions |
| DiffAnalysis.ExtensionCount | ghpush/diff_analyzer.py:80-81 | the list is as long as `len(main_extensions)` |
| DiffAnalysis.GenerateTitle | ghpush/diff_analyzer.py:70-87 | without commits the title starts with `Update ` |
| DiffAnalysis.TitleFromFirstLine | ghpush/diff_analyzer.py:72-77 | with commits, the title is the first line of the first message, stripped of its issue reference; the files do not matter |
| DiffAnalysis.TitleOfSingleExtension | ghpush/diff_analyzer.py:80-83 | when exactly one extension occurs, the title is `Update <ext without dot> files` |
| DiffAnalysis.SuffixLosesOneDot | ghpush/diff_analyzer.py:82 | `lstrip('.')` of a suffix removes exactly its one dot |
| DiffAnalysis.TitleOfSingleFile | ghpush/diff_analyzer.py:84-85 | one file without an extension gives `Update <name>` |
| DiffAnalysis.TitleCountsFiles | ghpush/diff_analyzer.py:86-87 | otherwise the title is `Update <count> files` |
| DiffAnalysis.ChangeParts | ghpush/diff_analyzer.py:103-107 | the change phrases are present exactly for non-zero counts: additions first, then deletions |
| DiffAnalysis.CountPhrasePlural | ghpush/diff_analyzer.py:105-107 | a count reads `<k> <word>` and ends in `s` exactly when k > 1 |
| DiffAnalysis.QuietFileBullet | ghpush/diff_analyzer.py:109 | a file without counted lines reads `* <path> ()` |
| DiffAnalysis.FileBulletOneLine | ghpush/diff_analyzer.py:109 | a file's bullet holds no newline when its path holds none |
| DiffAnalysis.CommitBulletOneLine | ghpush/diff_analyzer.py:97 | a commit's bullet holds no newline |
| DiffAnalysis.CommitSummaryLayout | ghpush/diff_analyzer.py:95-98 | the commit section is its heading, one bullet per commit, then a blank line |
| DiffAnalysis.DescriptionLines | ghpush/diff_analyzer.py:92-118 | the description has the commit section's lines, one line per file and six more |
| DiffAnalysis.Description | ghpush/diff_analyzer.py:120 | the joined description is never empty |
| DiffAnalysis.GenerateDescription | ghpush/diff_analyzer.py:89-120 | the loops build exactly `Description`, and fail (IndexError) exactly when some commit message is empty |
| DiffAnalysis.DescriptionLayout | ghpush/diff_analyzer.py:92-118 | the description's lines: the commit section only with commits, then `## Changes`, one bullet per file in order, then the five statistics lines |
| DiffAnalysis.CommitSummaryIff | ghpush/diff_analyzer.py:95-98 | the `## Commit Summary` heading appears exactly when there are commits |
| DiffAnalysis.NoCommitHeading | ghpush/diff_analyzer.py:101-118 | without commits, no line is the commit heading |
| DiffAnalysis.DescriptionLinesRecoverable | ghpush/diff_analyzer.py:120 | when no path holds a newline, splitting the description on newlines gives its lines back |
| DiffAnalysis.StatisticsOfDiff | ghpush/diff_analyzer.py:112-118 | for a diff that opens with a header, the statistics report its header lines and all its added and removed lines |
| DiffAnalysis.PrContent | ghpush/diff_analyzer.py:31-42 | the summary from the diff has a non-empty description and, without commits, a title starting with `Update ` |
| DiffAnalysis.PrContentLines | ghpush/diff_analyzer.py:31-42 | the fallback description is never empty and reads back as its lines |
| DiffAnalysis.GeneratePrContent | ghpush/diff_analyzer.py:31-42 | returns the title and description of the changed files, or fails exactly when a commit message is empty |
| DiffAnalysis.DiffAnalyzer.constructor | ghpush/diff_analyzer.py:10-11 | the analyzer's summarizer holds the environment's key, and has a client exactly when the key is present |
| DiffAnalysis.DiffAnalyzer.Analysis | ghpush/diff_analyzer.py:18-29 | over the limit, the fixed summary; within it, the AI answer when both of its parts are non-empty, otherwise the summary from the diff; no result exactly when that summary raises on an empty commit message; any result has a non-empty description |
| DiffAnalysis.DiffAnalyzer.AnalyzeDiff | ghpush/diff_analyzer.py:18-29 | the method returns exactly `Analysis` |
| DiffAnalysis.LargeDiffIgnoresService | ghpush/diff_analyzer.py:20-21 | over the limit the service is never consulted: any two services give the fixed summary |
| DiffAnalysis.AnswerAccepted | ghpush/diff_analyzer.py:24-26 | within the limit, a well-formed answer with a non-empty title and description is returned as given |
| DiffAnalysis.NoKeyGivesBasicSummary | ghpush/diff_analyzer.py:24-26 | without a key, the summarizer's basic summary is returned |
| DiffAnalysis.FallbackIff | ghpush/diff_analyzer.py:25-29 | the fallback is taken exactly when there is a key, the service answers, and the parsed answer lacks a title or a description |
| DiffAnalysis.UnformattedAnswerFallsBack | ghpush/diff_analyzer.py:25-29 | an answer without `DESCRIPTION:` leads to the summary built from the diff |
| SummaryPrompt.TruncatedDiff | ghpush/ai_summarizer.py:75 | a diff of at most 3000 characters is kept whole; a longer one becomes its first 3000 characters followed by `...` |
| SummaryPrompt.CommitLinesAppend | ghpush/ai_summarizer.py:70-71 | the commit lines follow the order of the messages |
| SummaryPrompt.Prompt | ghpush/ai_summarizer.py:64-81 | however long the diff, the prompt is the fixed parts and the commit section plus at most 3003 characters of it |
| SummaryPrompt.CreatePrompt | ghpush/ai_summarizer.py:64-81 | the method's accumulated prompt is exactly `Prompt` |
| SummaryPrompt.PromptFrame | ghpush/ai_summarizer.py:66-79 | the prompt opens with the request and closes with the format instruction |
| SummaryPrompt.PromptCommitSectionIff | ghpush/ai_summarizer.py:68-74 | the commit heading follows the request exactly when there are commits; otherwise the diff heading follows at once |
| SummaryPrompt.ParseResponse | ghpush/ai_summarizer.py:83-93 | content that is not a string gives `(None, None)`, and only then; both parts are stripped; without `DESCRIPTION:` the description is empty, and without either marker the title is the stripped answer; `TitleOnly` gives the title when only `TITLE:` is present |
| SummaryPrompt.ParseSplitsAtFirstMarker | ghpush/ai_summarizer.py:87-89 | the answer splits at its first `DESCRIPTION:`: the title is the stripped text before it with every `TITLE:` removed, the description the stripped rest, later markers included |
| SummaryPrompt.TitleOfFormat | ghpush/ai_summarizer.py:88 | the title line `TITLE: <t>` parses back to `t` |
| SummaryPrompt.TitleOnly | ghpush/ai_summarizer.py:87-89 | an answer without `DESCRIPTION:` has an empty description, and its title is the whole answer with every `TITLE:` removed, stripped |
| SummaryPrompt.TitleOnlyRoundTrip | ghpush/ai_summarizer.py:87-89 | a half-formatted answer `TITLE: <t>` with no description parses back to `t` and an empty description |
| SummaryPrompt.ParseRoundTrip | ghpush/ai_summarizer.py:78-89 | an answer in the instructed format parses back to its title and description |
| GhpushSummarizer.BasicTitle | ghpush/ai_summarizer.py:55 | `Update <n> file…` ends in `s` exactly when n ≠ 1 |
| GhpushSummarizer.BasicSummary | ghpush/ai_summarizer.py:50-62 | neither part is empty; the title counts the header lines; the description opens with `Changes include:` |
| GhpushSummarizer.BasicDescriptionListsPaths | ghpush/ai_summarizer.py:56-60 | after the heading, the description's lines are exactly the header paths, in order |
| GhpushSummarizer.AISummarizer.constructor | ghpush/ai_summarizer.py:14-18 | the key is stored; a client exists exactly when the key is present |
| GhpushSummarizer.AISummarizer.GenerateSummary | ghpush/ai_summarizer.py:20-48 | without a key, the basic summary; with a key and a client, the parse of whatever content the service gives, or the basic summary when it raises; `(None, None)` only when the content is absent |
| GhpushSummarizer.NoKeyIgnoresService | ghpush/ai_summarizer.py:22-24 | without a key the service is never consulted |
| GhpushSummarizer.FailureFallsBack | ghpush/ai_summarizer.py:46-48 | a raising call gives the basic summary |
| GhpushSummarizer.NoSummaryIff | ghpush/ai_summarizer.py:20-48 | `(None, None)` exactly when a key is present and the answer has no content |
| GhpushSummarizer.AnswerRoundTrip | ghpush/ai_summarizer.py:28-44 | a well-formed answer comes back as its title and description |
| GpushSummarizer.AISummarizer.constructor | src/gpush/ai_summarizer.py:14-18 | the key is stored |
| GpushSummarizer.AISummarizer.GenerateSummary | src/gpush/ai_summarizer.py:20-47 | without a key, `(None, None)`; any summary is the parse of a content the service gave |
| GpushSummarizer.NoKeyIgnoresService | src/gpush/ai_summarizer.py:22-23 | without a key the service is never consulted |
| GpushSummarizer.FailureGivesNone | src/gpush/ai_summarizer.py:45-47 | a raising call gives `(None, None)` |
| GpushSummarizer.NoSummaryIff | src/gpush/ai_summarizer.py:20-47 | `(None, None)` exactly when the key is missing, the call raises, or the answer has no content |
| GpushSummarizer.AnswerRoundTrip | src/gpush/ai_summarizer.py:27-43 | a well-formed answer comes back as its title and description |
| GitUrls.RemoteUrl | ghpush/git_operations.py:37-45 | an address that is not SSH loses exactly one trailing `.git`, and is otherwise unchanged |
| GitUrls.SshBecomesHttps | ghpush/git_operations.py:40-44 | `git@github.com:<rest>` becomes `https://github.com/<rest>` without a trailing `.git` |
| GitUrls.GitSuffixDroppedOnce | ghpush/git_operations.py:43-44 | only one `.git` is dropped |
| GitUrls.PrUrl | ghpush/git_operations.py:47-51 | the page address is the remote's address, `/compare/`, `base...current`, then `?expand=1` |
| GitUrls.PrUrlBranches | ghpush/git_operations.py:47-51 | for a base branch git accepts, splitting the compare range at its first `...` gives back the base and the current branch |
| GitUrls.RangeSplitsAtBase | ghpush/git_operations.py:51 | `base...current` splits at its first `...` into `base` and `current` when the base holds no `..` and does not end with `.` |
| GitUrls.RemoteUrlOfSshRemote | ghpush/git_operations.py:37-45 | `git@github.com:o/r.git` becomes `https://github.com/o/r` |
| GitUrls.PrUrlOfSshRemote | ghpush/git_operations.py:37-51 | that remote with `main` and `feat` gives `https://github.com/o/r/compare/main...feat?expand=1` |
| WorkedExample.ExampleChangedFiles | ghpush/diff_analyzer.py:44-68 | the one-file diff gives the single record `x.py`, `.py`, 1 addition, 1 deletion |
| WorkedExample.ExampleIsSmall | ghpush/diff_analyzer.py:13-20 | that diff is within the token limit |
| WorkedExample.ExampleHeuristicSummary | ghpush/diff_analyzer.py:31-42 | its summary built from the diff is titled `Update py files`, with the bullet `* x.py (1 addition, 1 deletion)` and the statistics 1/1/1 |
| WorkedExample.ExampleBasicSummary | ghpush/ai_summarizer.py:50-62 | its basic summary is `Update 1 file` / `Changes include:\nx.py` |
| WorkedExample.ExampleWithoutKey | ghpush/diff_analyzer.py:18-29 | without a key, `analyze_diff` returns the basic summary for it |

## Left out

- Text is ASCII. `str.split()`, `strip()` and `splitlines()` treat only the ASCII whitespace and line-break characters as such. Unicode spaces, and `\x85`, `\u2028` and `\u2029` as line boundaries, are not modelled.
- The OpenAI client is not modelled: the model name, temperature, token limit and system message. The chat completion is the `service` parameter. Being a function, the service answers the same prompt the same way every time.
- `load_dotenv`, `os.getenv` and the console warnings are left out. The key is a constructor argument.
- GpushSummarizer.AISummarizer.constructor: `OpenAI(api_key=None)` may raise when no key is set. This is a foreign call and is not modelled.
- The other operations of `ghpush/git_operations.py` are not part of this model: the GitPython repository, commits, pushing and opening the browser. The remote URL and the branch name are arguments. The command line (`cli.py`), the configuration and the validators are not part of this model.
- `src/gpush/diff_analyzer.py` is not part of this model.
- The records of `_analyze_changed_files` are Python dictionaries updated in place. The model holds them as `FileChange` values; aliasing of the dictionaries plays no part in the code.
- An empty commit message raises `IndexError` in `_generate_description`. The model gives `None` for it; the exception's propagation to the caller is not modelled further.
- PyText.Replace: stated for a text without the target and, in `ReplaceSingle`, for a single occurrence of a non-overlapping target. Several occurrences are not characterised.
- GitUrls.RemoteUrl: the SSH case is proved in `SshBecomesHttps` only when `git@github.com:` occurs once, at the start. A remote URL holding the prefix a second time is not characterised.
- DiffAnalysis.IssueRefRemoved: stated for a reference written as a number without leading zeros. `StripIssueRefAt` covers any run of digits.
- DiffAnalysis.StripIssueRef: its own contract gives only the length bound. The regular expression's behaviour is stated in both directions by `StripIssueRefKeepsTail` and `StripIssueRefAt`.
- GitUrls.PrUrlBranches: stated for a base branch without `..` and not ending in `.`, which git's reference-name rules guarantee. Other names are not characterised.
- DiffAnalysis.GenerateTitle: its own contract gives only the `Update ` prefix without commits. The full title is stated by `TitleFromFirstLine`, `TitleOfSingleExtension`, `TitleOfSingleFile` and `TitleCountsFiles`.
- DiffAnalysis.TotalsOfDiff: the totals equal the diff's counts when the diff opens with a header. Otherwise `TotalsCountSectionLines` states that the lines before the first header are excluded.
