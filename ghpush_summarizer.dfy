/**
 * The `AISummarizer` of the `ghpush` package. Without an API key, and
 * whenever the chat completion call raises, it falls back to a basic summary
 * built from the diff's header lines. The completion service is a parameter:
 * a function from the prompt to the reply it gives.
 */
module GhpushSummarizer {
  import opened PyText
  import opened UnifiedDiff
  import opened SummaryPrompt

  const BasicHeading: string := "Changes include:\n"

  /** `f"Update {n} file{'s' if n != 1 else ''}"` */
  function BasicTitle(n: nat): (r: string)
    ensures StartsWith(r, "Update ") && StartsWith(r[|"Update "|..], Decimal(n))
    ensures EndsWith(r, "s") <==> n != 1
  {
    var r := "Update " + Decimal(n) + " file" + (if n != 1 then "s" else "");
    assert r[..|"Update "|] == "Update ";
    assert r[|"Update "|..][..|Decimal(n)|] == Decimal(n);
    assert r[|r| - 1] == if n != 1 then 's' else 'e';
    r
  }

  /** `generate_basic_summary`: the number of files in the title, the path of
      every header line in the description, one per line. */
  function BasicSummary(diff: string): (r: Summary)
    ensures r.title != "" && r.description != ""
    ensures r.title == BasicTitle(|Headers(Lines(diff))|)
    ensures StartsWith(r.description, BasicHeading)
  {
    var lines := Lines(diff);
    var description := BasicHeading + Join(HeaderPaths(lines), "\n");
    assert description[..|BasicHeading|] == BasicHeading;
    Summary(BasicTitle(|Headers(lines)|), description)
  }

  /** The description lists exactly the header paths, in order: reading its
      lines back after the heading gives them again. */
  lemma BasicDescriptionListsPaths(diff: string)
    requires |Headers(Lines(diff))| >= 1
    ensures Split(BasicSummary(diff).description[|BasicHeading|..], "\n") == HeaderPaths(Lines(diff))
  {
    var paths := HeaderPaths(Lines(diff));
    HeaderPathsOneLine(diff);
    SplitJoin(paths, '\n');
    DropPrefix(BasicHeading, Join(paths, "\n"));
  }

  /** `AISummarizer` of `ghpush`: the key read from `OPENAI_API_KEY` and
      whether a client was made for it. */
  class AISummarizer {
    const apiKey: Option<string>
    const hasClient: bool

    /** `__init__`: a client is made exactly when the key is present. */
    constructor(envApiKey: Option<string>)
      ensures apiKey == envApiKey && hasClient == KeyPresent(envApiKey)
    {
      apiKey := envApiKey;
      hasClient := KeyPresent(envApiKey);
    }

    /** `generate_summary`: `None` stands for the `(None, None)` pair. */
    function GenerateSummary(diff: string, msgs: seq<string>, service: string -> Reply): (r: Option<Summary>)
      ensures !KeyPresent(apiKey) ==> r == Some(BasicSummary(diff))
      ensures r.None? ==> KeyPresent(apiKey) && service(Prompt(diff, msgs)) == Content(None)
      ensures KeyPresent(apiKey) && hasClient && service(Prompt(diff, msgs)).Content? ==>
        r == ParseResponse(service(Prompt(diff, msgs)).text)
      ensures KeyPresent(apiKey) && hasClient && service(Prompt(diff, msgs)) == Raised ==>
        r == Some(BasicSummary(diff))
    {
      if !KeyPresent(apiKey) || !hasClient then
        Some(BasicSummary(diff))
      else
        match service(Prompt(diff, msgs))
        case Raised => Some(BasicSummary(diff))
        case Content(content) => ParseResponse(content)
    }
  }

  /** Without a key the service is never consulted: any two services give
      the same, basic, summary. */
  lemma NoKeyIgnoresService(s: AISummarizer, diff: string, msgs: seq<string>, a: string -> Reply, b: string -> Reply)
    requires !KeyPresent(s.apiKey)
    ensures s.GenerateSummary(diff, msgs, a) == s.GenerateSummary(diff, msgs, b) == Some(BasicSummary(diff))
  {
  }

  /** A call that raises falls back to the basic summary. */
  lemma FailureFallsBack(s: AISummarizer, diff: string, msgs: seq<string>, service: string -> Reply)
    requires service(Prompt(diff, msgs)) == Raised
    ensures s.GenerateSummary(diff, msgs, service) == Some(BasicSummary(diff))
  {
  }

  /** The pair is `(None, None)` exactly when the client exists and answers
      with no content; every other outcome is a title and a description. */
  lemma NoSummaryIff(s: AISummarizer, diff: string, msgs: seq<string>, service: string -> Reply)
    requires s.hasClient == KeyPresent(s.apiKey)
    ensures s.GenerateSummary(diff, msgs, service).None? <==>
      KeyPresent(s.apiKey) && service(Prompt(diff, msgs)) == Content(None)
  {
  }

  /** An answer in the instructed format comes back as the summary it states. */
  lemma AnswerRoundTrip(s: AISummarizer, diff: string, msgs: seq<string>, service: string -> Reply, t: string, d: string)
    requires s.hasClient == KeyPresent(s.apiKey) && KeyPresent(s.apiKey)
    requires service(Prompt(diff, msgs)) == Content(Some("TITLE: " + t + "\nDESCRIPTION:\n" + d))
    requires NoOccurrence(t, TitleMarker) && NoOccurrence(t, DescriptionMarker)
    requires IsStripped(t) && IsStripped(d)
    ensures s.GenerateSummary(diff, msgs, service) == Some(Summary(t, d))
  {
    ParseRoundTrip(t, d);
  }
}
