/**
 * What both AI summarizer variants share: the prompt sent to the chat
 * completion service and the parsing of its answer into a title and a
 * description. The two variants hold identical copies of `_create_prompt` and
 * `_parse_ai_response`; they are modelled once here.
 */
module SummaryPrompt {
  import opened PyText

  /** A pull request title and description. */
  datatype Summary = Summary(title: string, description: string)

  /** What the chat completion call gives back: it raised, or it answered
      with a message whose content may be absent (`None`). */
  datatype Reply = Raised | Content(text: Option<string>)

  /** `if self.api_key`: a key was found and is not the empty string. */
  predicate KeyPresent(key: Option<string>) {
    key.Some? && key.value != ""
  }

  const Request: string := "Please generate a Pull Request title and description based on the following information:\n\n"
  const CommitsHeading: string := "Commit Messages:\n"
  const DiffHeading: string := "Git Diff Summary:\n"
  /** How many characters of the diff the prompt carries. */
  const DiffLimit: nat := 3000
  const Ellipsis: string := "..."
  const TitleMarker: string := "TITLE:"
  const DescriptionMarker: string := "DESCRIPTION:"
  const FormatLead: string := "\n\nPlease provide your response in the following format:\n"
  const FormatTitle: string := "TITLE: <concise title>\n"
  const FormatDescription: string := "DESCRIPTION:\n<detailed description with markdown formatting>"
  /** The closing paragraph that asks for the `TITLE:` / `DESCRIPTION:` layout. */
  const FormatInstruction: string := FormatLead + FormatTitle + FormatDescription

  function Min(a: nat, b: nat): nat {
    if a <= b then a else b
  }

  /** `diff_text[:3000] + ("..." if len(diff_text) > 3000 else "")` */
  function TruncatedDiff(diff: string): (r: string)
    ensures |diff| <= DiffLimit ==> r == diff
    ensures |diff| > DiffLimit ==>
      |r| == DiffLimit + |Ellipsis| && StartsWith(diff, r[..DiffLimit]) && EndsWith(r, Ellipsis)
  {
    diff[..Min(|diff|, DiffLimit)] + (if |diff| > DiffLimit then Ellipsis else "")
  }

  /** `f"- {msg}\n"` */
  function CommitLine(msg: string): string {
    "- " + msg + "\n"
  }

  /** The commit lines of the prompt, one per message. */
  function CommitLines(msgs: seq<string>): string {
    if msgs == [] then ""
    else CommitLines(msgs[..|msgs| - 1]) + CommitLine(msgs[|msgs| - 1])
  }

  /** The commit lines follow the order of the messages: the lines of a list
      are those of its first part followed by those of the rest. */
  lemma {:induction false} CommitLinesAppend(a: seq<string>, b: seq<string>)
    ensures CommitLines(a + b) == CommitLines(a) + CommitLines(b)
    decreases |b|
  {
    if b == [] {
      assert a + b == a;
    } else {
      var init, last := b[..|b| - 1], CommitLine(b[|b| - 1]);
      assert (a + b)[..|a + b| - 1] == a + init;
      assert CommitLines(a + b) == CommitLines(a + init) + last;
      CommitLinesAppend(a, init);
      assert CommitLines(b) == CommitLines(init) + last;
      ConcatAssoc(CommitLines(a), CommitLines(init), last);
    }
  }

  /** The commit section: empty without commits, otherwise the heading, one
      line per message and a blank line. */
  function CommitSection(msgs: seq<string>): string {
    if msgs == [] then "" else CommitsHeading + CommitLines(msgs) + "\n"
  }

  /** The prompt `_create_prompt` builds. However long the diff, it adds at
      most `DiffLimit` characters and the ellipsis to the fixed parts. */
  function Prompt(diff: string, msgs: seq<string>): (r: string)
    ensures |Request| + |DiffHeading| + |FormatInstruction| <= |r|
    ensures |r| <= |Request| + |CommitSection(msgs)| + |DiffHeading| + DiffLimit + |Ellipsis| + |FormatInstruction|
  {
    Request + CommitSection(msgs) + DiffHeading + TruncatedDiff(diff) + FormatInstruction
  }

  /** `_create_prompt`, accumulating the prompt piece by piece. */
  method CreatePrompt(diff: string, msgs: seq<string>) returns (prompt: string)
    ensures prompt == Prompt(diff, msgs)
  {
    prompt := Request;
    if |msgs| > 0 {
      prompt := prompt + CommitsHeading;
      ghost var start := prompt;
      for i := 0 to |msgs|
        invariant prompt == start + CommitLines(msgs[..i])
      {
        assert msgs[..i + 1][..i] == msgs[..i];
        ConcatAssoc(start, CommitLines(msgs[..i]), CommitLine(msgs[i]));
        prompt := prompt + CommitLine(msgs[i]);
      }
      assert msgs[..|msgs|] == msgs;
      ConcatAssoc(Request, CommitsHeading, CommitLines(msgs));
      ConcatAssoc(Request, CommitsHeading + CommitLines(msgs), "\n");
      prompt := prompt + "\n";
    }
    assert prompt == Request + CommitSection(msgs);
    prompt := prompt + DiffHeading;
    ghost var beforeDiff := prompt;
    prompt := prompt + diff[..Min(|diff|, DiffLimit)] + (if |diff| > DiffLimit then Ellipsis else "");
    ConcatAssoc(beforeDiff, diff[..Min(|diff|, DiffLimit)], if |diff| > DiffLimit then Ellipsis else "");
    ghost var beforeFormat := prompt;
    prompt := prompt + FormatLead;
    prompt := prompt + FormatTitle;
    prompt := prompt + FormatDescription;
    ConcatAssoc(beforeFormat, FormatLead, FormatTitle);
    ConcatAssoc(beforeFormat, FormatLead + FormatTitle, FormatDescription);
  }

  /** The prompt opens with the fixed request and closes with the format
      instruction, whatever the diff and the commits. */
  lemma PromptFrame(diff: string, msgs: seq<string>)
    ensures StartsWith(Prompt(diff, msgs), Request)
    ensures EndsWith(Prompt(diff, msgs), FormatInstruction)
  {
    var p := Prompt(diff, msgs);
    var cs, td := CommitSection(msgs), TruncatedDiff(diff);
    ConcatAssoc(Request, cs, DiffHeading);
    ConcatAssoc(Request, cs + DiffHeading, td);
    var body := Request + (cs + DiffHeading + td);
    assert p == body + FormatInstruction;
    DropPrefix(body, FormatInstruction);
    ConcatAssoc(Request, cs + DiffHeading + td, FormatInstruction);
    DropPrefix(Request, cs + DiffHeading + td + FormatInstruction);
  }

  /** Right after the request comes the commit section exactly when there are
      commits; otherwise the diff heading follows at once. */
  lemma PromptCommitSectionIff(diff: string, msgs: seq<string>)
    ensures StartsWith(Prompt(diff, msgs)[|Request|..], CommitsHeading) <==> msgs != []
    ensures msgs == [] ==> StartsWith(Prompt(diff, msgs)[|Request|..], DiffHeading)
  {
    var p := Prompt(diff, msgs);
    var cs, td := CommitSection(msgs), TruncatedDiff(diff);
    ConcatAssoc(Request, cs, DiffHeading);
    ConcatAssoc(Request, cs + DiffHeading, td);
    ConcatAssoc(Request, cs + DiffHeading + td, FormatInstruction);
    var rest := cs + DiffHeading + td + FormatInstruction;
    assert p == Request + rest;
    DropPrefix(Request, rest);
    ConcatAssoc(cs, DiffHeading, td);
    ConcatAssoc(cs, DiffHeading + td, FormatInstruction);
    var afterCs := DiffHeading + td + FormatInstruction;
    assert rest == cs + afterCs;
    if msgs == [] {
      assert rest == afterCs;
      ConcatAssoc(DiffHeading, td, FormatInstruction);
      DropPrefix(DiffHeading, td + FormatInstruction);
      assert rest[0] == DiffHeading[0] != CommitsHeading[0];
    } else {
      var lines := CommitLines(msgs) + "\n";
      ConcatAssoc(CommitsHeading, CommitLines(msgs), "\n");
      assert cs == CommitsHeading + lines;
      ConcatAssoc(CommitsHeading, lines, afterCs);
      DropPrefix(CommitsHeading, lines + afterCs);
    }
  }

  /** `_parse_ai_response`: the text before the first `DESCRIPTION:` with every
      `TITLE:` removed, then stripped, is the title; the stripped text after
      it is the description, empty when the marker is missing. Content that
      is not a string makes the parse fail, which yields `(None, None)`. */
  function ParseResponse(content: Option<string>): (r: Option<Summary>)
    ensures r.None? <==> content.None?
    ensures r.Some? ==> IsStripped(r.value.title) && IsStripped(r.value.description)
    ensures content.Some? && NoOccurrence(content.value, DescriptionMarker) ==>
      r.value.description == ""
    ensures (content.Some? && NoOccurrence(content.value, DescriptionMarker) &&
      NoOccurrence(content.value, TitleMarker)) ==> r.value.title == Strip(content.value)
  {
    match content
    case None => None
    case Some(text) =>
      var parts := SplitOnce(text, DescriptionMarker);
      var title := Strip(Replace(parts[0], TitleMarker, ""));
      var description := if |parts| > 1 then Strip(parts[1]) else "";
      Some(Summary(title, description))
  }

  lemma MarkersNonOverlapping()
    ensures NonOverlapping(TitleMarker) && NonOverlapping(DescriptionMarker)
  {
    UniqueLastNonOverlapping(TitleMarker);
    UniqueLastNonOverlapping(DescriptionMarker);
  }

  /** Only the first `DESCRIPTION:` separates title from description: the
      title is the text before it without any `TITLE:`, and later markers
      stay in the description. */
  lemma ParseSplitsAtFirstMarker(before: string, after: string)
    requires NoOccurrence(before, DescriptionMarker)
    ensures ParseResponse(Some(before + DescriptionMarker + after)).value.title ==
      Strip(Replace(before, TitleMarker, ""))
    ensures ParseResponse(Some(before + DescriptionMarker + after)).value.description == Strip(after)
  {
    MarkersNonOverlapping();
    SplitOnceAtFirst(before, DescriptionMarker, after);
  }

  /** An answer with no `DESCRIPTION:` is all title: every `TITLE:` is
      removed, the rest is stripped, and the description is empty. */
  lemma TitleOnly(text: string)
    requires NoOccurrence(text, DescriptionMarker)
    ensures ParseResponse(Some(text)) == Some(Summary(Strip(Replace(text, TitleMarker, "")), ""))
  {
  }

  /** A half-formatted answer, `TITLE: <t>` without a description, gives
      back `t` and an empty description. */
  lemma TitleOnlyRoundTrip(t: string)
    requires NoOccurrence(t, TitleMarker) && NoOccurrence(t, DescriptionMarker)
    requires IsStripped(t)
    ensures ParseResponse(Some("TITLE: " + t)) == Some(Summary(t, ""))
  {
    MarkersNonOverlapping();
    var padded := " " + t;
    NoOccurrenceAround("", ' ', t, TitleMarker);
    assert padded == "" + [' '] + t;
    assert "TITLE: " + t == "" + TitleMarker + padded;
    NoOccurrenceAround(TitleMarker, ' ', t, DescriptionMarker);
    assert "TITLE: " + t == TitleMarker + [' '] + t;
    TitleOnly("TITLE: " + t);
    assert NoOccurrence("", TitleMarker);
    ReplaceSingle("", TitleMarker, padded, "");
    assert "" + "" + padded == " " + t + "";
    StripSurrounded(" ", t, "");
  }

  /** The title line of the instructed format parses back to the title. */
  lemma TitleOfFormat(t: string)
    requires NoOccurrence(t, TitleMarker) && IsStripped(t)
    ensures Strip(Replace("TITLE: " + t + "\n", TitleMarker, "")) == t
  {
    var padded := PaddedTitle(t);
    MarkersNonOverlapping();
    assert NoOccurrence("", TitleMarker);
    assert "TITLE: " + t + "\n" == "" + TitleMarker + padded;
    ReplaceSingle("", TitleMarker, padded, "");
    assert "" + "" + padded == " " + t + "\n";
    StripSurrounded(" ", t, "\n");
  }

  /** The title as the instructed format surrounds it, after `TITLE:`. */
  lemma PaddedTitle(t: string) returns (padded: string)
    requires NoOccurrence(t, TitleMarker)
    ensures padded == " " + t + "\n" && NoOccurrence(padded, TitleMarker)
  {
    var tn := t + "\n";
    NoOccurrenceAppend(t, '\n', TitleMarker);
    NoOccurrenceAround("", ' ', tn, TitleMarker);
    padded := " " + tn;
    assert padded == "" + [' '] + tn;
  }

  /** Round trip: an answer written in the instructed format gives back its
      title and description, provided the title holds neither marker and
      neither part has surrounding whitespace. */
  lemma ParseRoundTrip(t: string, d: string)
    requires NoOccurrence(t, TitleMarker) && NoOccurrence(t, DescriptionMarker)
    requires IsStripped(t) && IsStripped(d)
    ensures ParseResponse(Some("TITLE: " + t + "\nDESCRIPTION:\n" + d)) == Some(Summary(t, d))
  {
    MarkersNonOverlapping();
    var tn := t + "\n";
    var head := "TITLE: " + t + "\n";
    var tail := "\n" + d;
    assert "TITLE: " + t + "\nDESCRIPTION:\n" + d == head + DescriptionMarker + tail;
    NoOccurrenceAppend(t, '\n', DescriptionMarker);
    NoOccurrenceAround(TitleMarker, ' ', tn, DescriptionMarker);
    assert head == TitleMarker + [' '] + tn;
    SplitOnceAtFirst(head, DescriptionMarker, tail);
    TitleOfFormat(t);
    assert tail == "\n" + d + "";
    StripSurrounded("\n", d, "");
  }
}
