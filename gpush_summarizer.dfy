/**
 * The `AISummarizer` of the `gpush` package. It builds the same prompt and
 * parses the answer the same way as the `ghpush` one, but it has no fallback:
 * without an API key, and whenever the chat completion call raises, it gives
 * `(None, None)`. The completion service is a parameter: a function from the
 * prompt to the reply it gives.
 */
module GpushSummarizer {
  import opened PyText
  import opened SummaryPrompt

  /** `AISummarizer` of `gpush`: the key read from `OPENAI_API_KEY`. */
  class AISummarizer {
    const apiKey: Option<string>

    /** `__init__` */
    constructor(envApiKey: Option<string>)
      ensures apiKey == envApiKey
    {
      apiKey := envApiKey;
    }

    /** `generate_summary`: `None` stands for the `(None, None)` pair. */
    function GenerateSummary(diff: string, msgs: seq<string>, service: string -> Reply): (r: Option<Summary>)
      ensures !KeyPresent(apiKey) ==> r.None?
      ensures r.Some? ==>
        KeyPresent(apiKey) && service(Prompt(diff, msgs)).Content? &&
        service(Prompt(diff, msgs)).text.Some? && r == ParseResponse(service(Prompt(diff, msgs)).text)
    {
      if !KeyPresent(apiKey) then
        None
      else
        match service(Prompt(diff, msgs))
        case Raised => None
        case Content(content) => ParseResponse(content)
    }
  }

  /** Without a key the service is never consulted: any two services give
      `(None, None)`. */
  lemma NoKeyIgnoresService(s: AISummarizer, diff: string, msgs: seq<string>, a: string -> Reply, b: string -> Reply)
    requires !KeyPresent(s.apiKey)
    ensures s.GenerateSummary(diff, msgs, a) == s.GenerateSummary(diff, msgs, b) == None
  {
  }

  /** A call that raises gives `(None, None)`; nothing propagates. */
  lemma FailureGivesNone(s: AISummarizer, diff: string, msgs: seq<string>, service: string -> Reply)
    requires service(Prompt(diff, msgs)) == Raised
    ensures s.GenerateSummary(diff, msgs, service).None?
  {
  }

  /** The pair is `(None, None)` exactly when there is no key, the call
      raises, or the answer has no content. */
  lemma NoSummaryIff(s: AISummarizer, diff: string, msgs: seq<string>, service: string -> Reply)
    ensures s.GenerateSummary(diff, msgs, service).None? <==>
      !KeyPresent(s.apiKey) || service(Prompt(diff, msgs)) == Raised || service(Prompt(diff, msgs)) == Content(None)
  {
  }

  /** An answer in the instructed format comes back as the summary it states. */
  lemma AnswerRoundTrip(s: AISummarizer, diff: string, msgs: seq<string>, service: string -> Reply, t: string, d: string)
    requires KeyPresent(s.apiKey)
    requires service(Prompt(diff, msgs)) == Content(Some("TITLE: " + t + "\nDESCRIPTION:\n" + d))
    requires NoOccurrence(t, TitleMarker) && NoOccurrence(t, DescriptionMarker)
    requires IsStripped(t) && IsStripped(d)
    ensures s.GenerateSummary(diff, msgs, service) == Some(Summary(t, d))
  {
    ParseRoundTrip(t, d);
  }
}
