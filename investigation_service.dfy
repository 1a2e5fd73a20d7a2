/**
 * The investigation service: the fixed prompts sent over the one chat session,
 * and the case bootstrap, which cuts the JSON object out of the model's first
 * reply (from the first `{` to the last `}`) and parses it, reporting every
 * parse failure as one error.
 *
 * The chat session itself is remote. A round-trip is an input to the model,
 * and `JSON.parse` is an oracle passed in by the caller.
 */
module InvestigationService {
  import opened Wrappers
  import opened JsString
  import opened Types
  import opened ClueExtraction

  /** What one `chat.sendMessage` call produced: a reply whose `text` is present,
      a reply without `text`, or a thrown error with its message. */
  datatype RoundTrip = Reply(text: string) | NoText | Failure(message: string)

  /** The round-trip completed and its text is truthy (present and non-empty). */
  predicate IsTruthy(r: RoundTrip) {
    r.Reply? && r.text != ""
  }

  /** `response.text || ''`: a missing text reads as the empty string. */
  function ReplyText(r: RoundTrip): string {
    match r
    case Reply(t) => t
    case _ => ""
  }

  /** The single error every unparsable bootstrap reply is reported as. */
  const InvalidCaseFormat: string := "Invalid case format."

  /** The opening request for a case in JSON form. */
  const NewCasePrompt: string := "Generate a new murder mystery. \n    Output strictly in JSON format:\n    {\n"
    + "      \"title\": \"Case Name\",\n"
    + "      \"scene\": \"Atmospheric description of the crime scene\",\n"
    + "      \"suspects\": [\n"
    + "        {\"id\": \"1\", \"name\": \"Name\", \"role\": \"Role\", \"description\": \"Personality/Motive hint\", \"image\": \"https://picsum.photos/seed/[random]/400/400\"},\n"
    + "        ... 4 total suspects ...\n"
    + "      ],\n"
    + "      \"initialClue\": \"First piece of physical evidence\"\n"
    + "    }"

  /** The fixed request for one more clue: it asks for the reply to start with
      `RequestedPrefix`, quoted between `ClueRequestLead` and `ClueRequestTail`. */
  const ClueRequestLead: string := "I'm searching the scene further. Uncover one small, subtle, and logical new clue or testimony detail. Prefix it with \""
  const RequestedPrefix: string := "CLUE: "
  const ClueRequestTail: string := "\"."
  const ClueRequestPrompt: string := ClueRequestLead + RequestedPrefix + ClueRequestTail

  const GuessLead: string := "GUESS: I think the criminal is "
  const GuessTail: string := ". Reveal the truth in a dramatic noir finale, explaining the logic and all clues."

  /** The accusation prompt: it carries the suspect's name verbatim, right after the fixed lead. */
  function GuessPrompt(suspectName: string): (r: string)
    ensures |r| == |GuessLead| + |suspectName| + |GuessTail|
    ensures r[..|GuessLead|] == GuessLead
    ensures r[|GuessLead|..|GuessLead| + |suspectName|] == suspectName
    ensures r[|GuessLead| + |suspectName|..] == GuessTail
  {
    GuessLead + suspectName + GuessTail
  }

  /** The clue request quotes `RequestedPrefix` right after its lead. */
  lemma ClueRequestAsksForMarker()
    ensures ClueRequestPrompt[|ClueRequestLead|..|ClueRequestLead| + |RequestedPrefix|] == RequestedPrefix
  {
  }

  /** A reply that does as the clue request asks, the requested prefix followed by a
      clean one-line clue, contributes exactly that clue. */
  lemma RequestedPrefixYieldsClue(clue: string)
    requires clue != [] && !IsWhitespace(clue[0]) && !IsWhitespace(clue[|clue| - 1])
    requires forall m :: 0 <= m < |clue| ==> !IsLineTerminator(clue[m])
    ensures ExtractClueText(RequestedPrefix + clue) == Some(clue)
  {
    var w := RequestedPrefix[..5];
    assert MarkerAt(w, 0);
    assert w + " " == RequestedPrefix;
    MarkerSpaceText(w, clue);
  }

  /** `text.substring(text.indexOf('{'), text.lastIndexOf('}') + 1)`: when the first
      `{` comes no later than the last `}`, the slice runs from one to the other inclusive. */
  function BracketSlice(text: string): (r: string)
    ensures 0 <= IndexOf(text, '{') <= LastIndexOf(text, '}') ==>
      r == text[IndexOf(text, '{')..LastIndexOf(text, '}') + 1]
  {
    var f, e := IndexOf(text, '{'), LastIndexOf(text, '}') + 1;
    if 0 <= f <= e then
      SubstringInRange(text, f, e);
      Substring(text, f, e)
    else
      Substring(text, f, e)
  }

  /** Whatever the braces, the slice is one run of the text, never longer than it. */
  lemma BracketSliceIsSlice(text: string)
    ensures |BracketSlice(text)| <= |text|
    ensures IsSliceOf(BracketSlice(text), text)
  {
  }

  /** A `{` at `i` and a `}` at `j` bound the first `{` from above and the last `}` from below. */
  lemma BracesBound(text: string, i: nat, j: nat)
    requires i < |text| && j < |text| && text[i] == '{' && text[j] == '}'
    ensures 0 <= IndexOf(text, '{') <= i && j <= LastIndexOf(text, '}')
  {
  }

  /** With a `{` before a `}`, the slice runs from the first `{` to the last `}`
      inclusive: it opens and closes with a brace and no brace of that kind is
      left in the prose dropped on either side. */
  lemma BracketSliceFramesObject(text: string, i: nat, j: nat)
    requires i < j < |text| && text[i] == '{' && text[j] == '}'
    ensures var f, l := IndexOf(text, '{'), LastIndexOf(text, '}');
      && 0 <= f <= i && j <= l
      && BracketSlice(text) == text[f..l + 1]
      && '{' !in text[..f] && '}' !in text[l + 1..]
    ensures BracketSlice(text)[0] == '{'
    ensures BracketSlice(text)[|BracketSlice(text)| - 1] == '}'
  {
    var f, l := IndexOf(text, '{'), LastIndexOf(text, '}');
    BracesBound(text, i, j);
    var r := BracketSlice(text);
    assert r == text[f..l + 1];
    assert r[0] == text[f];
    assert r[|r| - 1] == text[l];
  }

  /** Without braces the slice is empty. */
  lemma NoBracesEmptySlice(text: string)
    requires '{' !in text && '}' !in text
    ensures BracketSlice(text) == ""
  {
  }

  /** With a `{` but no `}`, `substring(i, 0)` swaps its arguments: the slice is
      the prose before the first `{`. */
  lemma OpenBraceOnlyGivesPrefix(text: string)
    requires '{' in text && '}' !in text
    ensures BracketSlice(text) == text[..IndexOf(text, '{')]
  {
  }

  /** `JSON.parse` as an oracle. Only one fact about it is built in: blank input
      (the empty slice included) is not JSON and fails. */
  function JsonParse(s: string, parse: string -> Option<CaseData>): (r: Option<CaseData>)
    ensures AllWhitespace(s) ==> r.None?
    ensures !AllWhitespace(s) ==> r == parse(s)
  {
    if AllWhitespace(s) then None else parse(s)
  }

  /** `startNewCase` after the round-trip: a transport failure propagates as it is;
      otherwise a parse failure is always reported as `Invalid case format.`, and a
      success is what the parser made of the bracketed slice. */
  function StartNewCase(reply: RoundTrip, parse: string -> Option<CaseData>): (r: Result<CaseData, string>)
    ensures reply.Failure? ==> r == Err(reply.message)
    ensures !reply.Failure? && r.Err? ==> r.error == InvalidCaseFormat
    ensures r.Ok? ==> parse(BracketSlice(ReplyText(reply))) == Some(r.value)
    ensures !reply.Failure? && !AllWhitespace(BracketSlice(ReplyText(reply)))
            && parse(BracketSlice(ReplyText(reply))).Some? ==>
              r == Ok(parse(BracketSlice(ReplyText(reply))).value)
    ensures !reply.Failure? && AllWhitespace(BracketSlice(ReplyText(reply))) ==> r == Err(InvalidCaseFormat)
  {
    if reply.Failure? then Err(reply.message)
    else
      match JsonParse(BracketSlice(ReplyText(reply)), parse)
      case Some(c) => Ok(c)
      case None => Err(InvalidCaseFormat)
  }

  /** A reply without braces cannot bootstrap a case. */
  lemma NoBracesFails(reply: RoundTrip, parse: string -> Option<CaseData>)
    requires !reply.Failure?
    requires '{' !in ReplyText(reply) && '}' !in ReplyText(reply)
    ensures StartNewCase(reply, parse) == Err(InvalidCaseFormat)
  {
    NoBracesEmptySlice(ReplyText(reply));
  }

  /** A reply with no text at all reads as `""` and fails the same way. */
  lemma MissingTextFails(parse: string -> Option<CaseData>)
    ensures StartNewCase(NoText, parse) == Err(InvalidCaseFormat)
    ensures StartNewCase(NoText, parse) == StartNewCase(Reply(""), parse)
  {
    NoBracesFails(NoText, parse);
  }

  /** A text that opens with `{` and closes with `}` is its own slice. */
  lemma BracketSliceOfObject(body: string)
    requires |body| >= 2 && body[0] == '{' && body[|body| - 1] == '}'
    ensures BracketSlice(body) == body
  {
    IndexOfAfterPrefix([], body, '{');
    LastIndexOfBeforeSuffix(body, [], '}');
    assert [] + body == body + [] == body;
    assert body[0..|body|] == body;
  }

  /** Prose without `{` before the object and prose without `}` after it is cut away. */
  lemma BracketSliceDropsProse(before: string, body: string, after: string)
    requires '{' !in before && '}' !in after
    requires |body| >= 2 && body[0] == '{' && body[|body| - 1] == '}'
    ensures BracketSlice(before + body + after) == body
  {
    var text := before + body + after;
    assert text == before + (body + after) == (before + body) + after;
    IndexOfAfterPrefix(before, body + after, '{');
    LastIndexOfBeforeSuffix(before + body, after, '}');
    assert text[|before|..|before| + |body|] == body;
  }

  /** Prose without `{` before the object and prose without `}` after it does not
      change what the bootstrap produces. */
  lemma SurroundingProseIgnored(before: string, body: string, after: string, parse: string -> Option<CaseData>)
    requires '{' !in before && '}' !in after
    requires |body| >= 2 && body[0] == '{' && body[|body| - 1] == '}'
    ensures StartNewCase(Reply(before + body + after), parse) == StartNewCase(Reply(body), parse)
  {
    BracketSliceDropsProse(before, body, after);
    BracketSliceOfObject(body);
  }
}
