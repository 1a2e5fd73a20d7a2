# Detective AI: The Noir Files — a Dafny model of the game controller

The application is a murder-mystery chat game whose story is written by a remote
chat model. What the application itself decides is small, and this project models
all of it:

- **The clue extractor.** Every reply to a question or a clue request is matched
  against `/CLUE:\s*(.*)/i`; the bootstrap reply and the accusation reveal are not.
  The first marker found, in any letter case, yields the text from the first
  non-white character after it, on whatever line that is, up to the end of that
  line, trimmed. That text goes to the front of the evidence board unless an entry
  with the same text is already there.
- **The game controller.** This is a record (`GameState`) plus a loading flag and a
  handle on the chat service. Four handlers change it: loading a case, asking a
  question, requesting a clue and accusing a suspect. Each sets the loading flag,
  consumes the outcome of one round-trip, then clears the flag. Loading a case has
  no guard. The other three return early without a service or once the game is
  over; requesting a clue also returns early while loading, and accusing also when
  the confirmation is declined. Asking a question and accusing append the user's
  turn before the round-trip; requesting a clue appends none.
- **The case bootstrap.** The JSON object is cut out of the model's first reply with
  JavaScript `substring` from the first `{` to the last `}`. Every parse failure is
  reported as `Invalid case format.`.
- **The chat input box.** Its submit handler rejects blank input and rejects
  submission while loading. Otherwise it forwards the untrimmed text and clears the
  box.

Modules, one per source component:

- `JsString` (`js_string.dfy`): the JavaScript string semantics used. This covers
  the `\s` class and `trim()`, the line terminators `.` refuses, `indexOf`,
  `lastIndexOf`, and `substring` with its clamping and argument swap.
- `Types` (`types.dfy`): the records of `types.ts`. The status is a four-constructor
  datatype.
- `ClueExtraction` (`clue_extraction.dfy`): the regular-expression match, the
  insert-if-absent on the evidence list, and the `extractClues` record update.
- `InvestigationService` (`investigation_service.dfy`): the fixed prompts, the brace
  slice and `startNewCase` after its round-trip.
- `ChatWindow` (`chat_window.dfy`): the input box as a class with an `input` field.
- `App` (`app.dfy`): the record updates passed to `setGameState` are functions. The
  handlers are methods of class `Session`, which has fields `state`, `isLoading` and
  `hasService`. `Session.Valid()` is the invariant every handler keeps:
  - the session is not busy between handler calls;
  - `actualCriminal` stays `None`;
  - `guessing` is never entered;
  - evidence texts are pairwise distinct;
  - a finished game is in `revealing`;
  - any status past `loading` has a service.

Inputs from outside the program are parameters:

- A chat round-trip is a `RoundTrip`: a reply with text, a reply without text, or a
  thrown error.
- `JSON.parse` is an oracle `string -> Option<CaseData>`.
- The confirmation dialog's answer is a `bool`.
- Clue ids and clock-formatted timestamps are strings.
- Each handler returns the message it sends over the chat, or `None` when it sends
  nothing.

Behaviour of the code that is easy to misread:

- Requesting a clue appends no user turn (`App.tsx:104-122`).
- The `\s*` after the marker also skips line breaks. When the marker ends its
  line, the clue is taken from the next line that has non-white text: `CLUE:\nfoo`
  yields `foo` (`App.tsx:24`, `ClueExtraction.MarkerLineBreakExample`).
- A thrown, failed accusation round-trip does not end the game. The status stays
  `revealing` and `isGameOver` stays false. Only a completed round-trip with an empty
  text gets the fallback message (`App.tsx:137-146`).
- A transport failure during the bootstrap is thrown before the `try`. It propagates
  as it is and is not turned into `Invalid case format.`
  (`services/geminiService.ts:49-57`).
- Clue ids come from `Date.now()` and are not unique by construction. Only the
  uniqueness of texts is proved.

## Model

| member | source | states |
|---|---|---|
| `JsString.Trim` | App.tsx:26 | the result is empty exactly when the input is all white space; otherwise it neither starts nor ends with white space and is the middle of the input between two white runs |
| `JsString.WhiteRunEnd` | App.tsx:26 | the leading white run that `trim()` drops: everything passed is white space and the stop is the bound or a non-white character |
| `JsString.WhiteRunStart` | App.tsx:26 | the trailing white run that `trim()` drops: everything passed is white space and the stop is the start or follows a non-white character |
| `JsString.TrimUnchanged` | App.tsx:26 | a string with no white space at either end is its own trim |
| `JsString.IndexOf` | services/geminiService.ts:52 | -1 exactly when the character is absent; otherwise the position of its first occurrence |
| `JsString.LastIndexOf` | services/geminiService.ts:52 | -1 exactly when the character is absent; otherwise the position of its last occurrence |
| `JsString.FirstFrom` | services/geminiService.ts:52 | the first position at or after the start that holds the character, with none before it, or -1 when there is none |
| `JsString.LastBefore` | services/geminiService.ts:52 | the last position before the bound that holds the character, with none after it, or -1 when there is none |
| `JsString.IndexOfAfterPrefix` | services/geminiService.ts:52 | a character absent from a prefix is first found where the rest begins with it |
| `JsString.LastIndexOfBeforeSuffix` | services/geminiService.ts:52 | a character absent from a suffix is last found where the part before it ends with it |
| `JsString.Substring` | services/geminiService.ts:52 | whatever the arguments, the result is one contiguous run of the string and no longer than it |
| `JsString.SubstringSymmetric` | services/geminiService.ts:52 | swapping the two arguments gives the same slice |
| `JsString.SubstringInRange` | services/geminiService.ts:52 | ordered in-range arguments give exactly the slice between them |
| `JsString.SubstringClamps` | services/geminiService.ts:52 | negative arguments count as 0 and arguments past the end count as the length |
| `ClueExtraction.FindMarker` | App.tsx:24 | the leftmost position where `CLUE:` occurs in any letter case, and no marker before it |
| `ClueExtraction.SkipWhitespace` | App.tsx:24 | greedy `\s*`: everything skipped is white space (newlines included) and the next character is not |
| `ClueExtraction.LineEnd` | App.tsx:24 | greedy `.*`: nothing passed is a line terminator and the stop is a line terminator or the end |
| `ClueExtraction.ClueCapture` | App.tsx:24 | the match and its capture group: none without a marker; otherwise the text from the first non-white character after the first marker, on whatever line that is, up to the end of that line |
| `ClueExtraction.ExtractClueText` | App.tsx:24-26 | the clue a reply yields: nothing without a match or with an empty capture (the `clueMatch[1]` test); otherwise the trimmed capture |
| `ClueExtraction.CaptureShape` | App.tsx:24 | the capture does not start with white space and holds no line terminator |
| `ClueExtraction.TrimLine` | App.tsx:26 | trimming a one-line capture that starts with a non-white character leaves a non-empty text without line terminators |
| `ClueExtraction.CaptureAgrees` | App.tsx:24 | a reply that agrees with another up to past the end of the other's clue line captures the same text |
| `ClueExtraction.CaptureOfFirstLine` | App.tsx:24 | a non-empty capture on a line closed by a terminator is kept whatever follows |
| `ClueExtraction.FirstMarkerAt` | App.tsx:24 | a marker with no marker starting before it is the one the match finds |
| `ClueExtraction.RespelledMarkerFirst` | App.tsx:24 | respelling the first marker of a reply in another letter case leaves it the first marker, at the same position |
| `ClueExtraction.CaptureAfterSameMarker` | App.tsx:24 | two replies of equal length whose first marker is at the same position and that agree after it capture the same text |
| `ClueExtraction.MarkerAtStart` | App.tsx:24 | for a reply that opens with the marker, the capture is the line that starts after the white space following it |
| `ClueExtraction.MarkerSpaceText` | App.tsx:24-26 | marker, one space and a one-line text without white space at its ends yield exactly that text |
| `ClueExtraction.HasClueText` | App.tsx:29 | the duplicate test: some entry of the list carries exactly the text |
| `ClueExtraction.DistinctTexts` | App.tsx:29 | no two entries of the evidence list carry the same text |
| `ClueExtraction.AddClue` | App.tsx:29-39 | afterwards the text is listed; the old entries follow unchanged and in order; the list grew exactly when the text was new, and then the new entry is first; distinct texts stay distinct |
| `ClueExtraction.ExtractClues` | App.tsx:23-42 | only the evidence list changes, by at most one new front entry holding the extracted text; a reply whose clue is not yet listed gets exactly `Clue(id, text, timestamp)` in front of the old list; a reply with no usable marker, or one whose clue is already listed, leaves the record as it was |
| `ClueExtraction.ExtractedClueIsClean` | App.tsx:24-26 | an extracted clue is non-empty, has no white space at either end and contains no line terminator |
| `ClueExtraction.NothingAfterMarker` | App.tsx:24-25 | a reply contributes nothing exactly when it has no marker, or only white space follows its first marker |
| `ClueExtraction.EmptyCaptureIffBlank` | App.tsx:24-25 | the capture after the first marker is empty exactly when only white space follows that marker |
| `ClueExtraction.FirstMarkerOnly` | App.tsx:24 | only the first marker's line counts: any text after a completed clue line, later markers included, changes nothing |
| `ClueExtraction.MarkerCaseInsensitive` | App.tsx:24 | wherever the first marker of a reply stands, spelling it in another letter case does not change the extracted clue |
| `ClueExtraction.MarkerSkipsBlankLines` | App.tsx:24-26 | a marker, any white run (line breaks included) and a clean one-line text yield exactly that text |
| `ClueExtraction.MarkerLineBreakExample` | App.tsx:24-26 | `CLUE:` followed by a line break and `foo` yields `foo` |
| `ClueExtraction.MarkerCaseExample` | App.tsx:24-26 | `CLUE: subtle footprint` and `clue: subtle footprint` both yield `subtle footprint` |
| `ClueExtraction.DuplicateSuppressed` | App.tsx:29 | a second reply carrying the same clue leaves the record as the first reply left it |
| `ClueExtraction.HasClueTextCons` | App.tsx:29 | a list with an entry in front holds a text exactly when the entry or the rest holds it |
| `ClueExtraction.NewestFirst` | App.tsx:38 | three new clues reported as C1, C2, C3 stand as C3, C2, C1 in front of the old list |
| `InvestigationService.IsTruthy` | App.tsx:90 | the `if (response)` test: a completed round-trip with a non-empty text |
| `InvestigationService.ReplyText` | services/geminiService.ts:51 | the text of a completed reply, with a missing text read as the empty string |
| `InvestigationService.GuessPrompt` | services/geminiService.ts:72 | the accusation prompt carries the suspect's name verbatim between the fixed lead and tail |
| `InvestigationService.ClueRequestAsksForMarker` | services/geminiService.ts:66 | the clue request quotes the requested prefix `CLUE: ` right after its lead |
| `InvestigationService.RequestedPrefixYieldsClue` | services/geminiService.ts:66 | a reply that starts with the requested prefix followed by a clean one-line clue contributes exactly that clue |
| `InvestigationService.BracketSlice` | services/geminiService.ts:52 | when the first `{` comes no later than the last `}`, the slice runs from one to the other inclusive |
| `InvestigationService.BracesBound` | services/geminiService.ts:52 | the first `{` is at or before any `{`, and the last `}` at or after any `}` |
| `InvestigationService.BracketSliceIsSlice` | services/geminiService.ts:52 | the brace slice is always a contiguous run of the text, no longer than it |
| `InvestigationService.BracketSliceFramesObject` | services/geminiService.ts:52 | with a `{` before a `}`, the slice runs from the first `{` to the last `}` inclusive; it starts with `{` and ends with `}`, and the prose dropped on either side has no brace of that kind |
| `InvestigationService.NoBracesEmptySlice` | services/geminiService.ts:52 | text with neither brace gives the empty slice |
| `InvestigationService.OpenBraceOnlyGivesPrefix` | services/geminiService.ts:52 | with a `{` but no `}`, the arguments are swapped and the slice is the prose before the first `{` |
| `InvestigationService.JsonParse` | services/geminiService.ts:53 | blank input fails; any other input gets exactly the oracle's answer |
| `InvestigationService.StartNewCase` | services/geminiService.ts:49-57 | a transport failure propagates unchanged; any other failure is `Invalid case format.`; a success is what the parser made of the brace slice; a completed reply whose non-blank brace slice parses yields exactly that value, and one whose brace slice is blank fails with `Invalid case format.` |
| `InvestigationService.NoBracesFails` | services/geminiService.ts:51-57 | a completed reply without braces fails with `Invalid case format.` |
| `InvestigationService.MissingTextFails` | services/geminiService.ts:51 | a reply without text reads as `""` and fails with `Invalid case format.` |
| `InvestigationService.BracketSliceOfObject` | services/geminiService.ts:52 | a text that opens with `{` and closes with `}` is its own slice |
| `InvestigationService.BracketSliceDropsProse` | services/geminiService.ts:52 | prose with no `{` before the object and no `}` after it is cut away by the slice |
| `InvestigationService.SurroundingProseIgnored` | services/geminiService.ts:50-53 | prose with no `{` before the object and no `}` after it does not change the bootstrap's result |
| `ChatWindow.Accepts` | components/ChatWindow.tsx:24 | the submit guard: the trimmed input is non-empty and the window is not loading |
| `ChatWindow.SendEnabled` | components/ChatWindow.tsx:84 | the send button is enabled when the window is not disabled, not loading, and the trimmed input is non-empty |
| `ChatWindow.GuardsAgree` | components/ChatWindow.tsx:24 | the submit handler accepts exactly non-blank input while not loading; the send button (line 84) is enabled exactly when the window is not disabled and the handler would accept |
| `ChatWindow.ChatInput.constructor` | components/ChatWindow.tsx:13 | the box starts empty |
| `ChatWindow.ChatInput.Change` | components/ChatWindow.tsx:77 | the box takes the typed value |
| `ChatWindow.ChatInput.Submit` | components/ChatWindow.tsx:22-27 | an accepted submission sends the raw, untrimmed input once and empties the box; a rejected one sends nothing and leaves the box unchanged |
| `App.IntroMessage` | App.tsx:64 | the opening narration: the fixed text with the case title, the scene and the initial clue in that order |
| `App.AccusationText` | App.tsx:133 | the user turn of an accusation: `I accuse <name>!` |
| `App.Opened` | App.tsx:52-66 | a loaded case sets the metadata, exactly one clue `Clue("initial", initialClue, timestamp)`, exactly one assistant message holding `IntroMessage` of the case, and status `investigating` |
| `App.Answered` | App.tsx:88-96 | a truthy reply is scanned for a clue and appended as an assistant turn; an empty or failed reply changes nothing; for a truthy reply the evidence list is exactly the one `extractClues` makes of the reply text; the transcript only grows and the evidence list gains at most one front entry |
| `App.Accused` | App.tsx:131-135 | a confirmed accusation appends `I accuse <name>!` and sets status `revealing` |
| `App.Revealed` | App.tsx:139-143 | a completed reveal ends the game and appends the reply, or `The investigation ended abruptly.` when the reply is empty |
| `App.Consistent` | App.tsx:9-21 | the record part of the session invariant: no criminal recorded, never `guessing`, distinct evidence texts, a finished game in `revealing`, a service for any status past `loading` |
| `App.WithMessageConsistent` | App.tsx:83-86 | appending a transcript entry keeps the record consistent |
| `App.AnsweredConsistent` | App.tsx:88-96 | applying a reply keeps the record consistent |
| `App.InitialClueNotRepeated` | App.tsx:57-61 | a reply repeating the initial clue adds nothing to a freshly loaded case |
| `App.Session.constructor` | App.tsx:9-21 | the session starts in `loading` with nothing loaded, not busy, with no service |
| `App.Session.Valid` | App.tsx:9-21 | the invariant between handler calls: not loading, and the record is consistent with the service handle |
| `App.Session.InitGame` | App.tsx:44-73 | the case request is sent and the service exists; a parsed case is opened as `App.Opened` states; any failure leaves status `loading`; loading is cleared |
| `App.Session.HandleSendMessage` | App.tsx:79-102 | blocked without a service or once the game is over, with nothing changed; otherwise the content is sent verbatim and appended as a user turn before the reply is applied; the transcript is append-only and loading ends cleared |
| `App.Session.HandleRequestClue` | App.tsx:104-122 | also blocked while loading; otherwise the fixed clue request is sent, no user turn is added, the reply is applied and loading ends cleared |
| `App.Session.HandleAccuse` | App.tsx:124-149 | blocked without a service, once the game is over, or when the confirmation is declined; otherwise the guess prompt is sent, status becomes `revealing`, and the game is over exactly when the round-trip completed; loading ends cleared |
| `App.Session.SubmitChat` | App.tsx:268-273 | the chat box wired to the send handler with the session's loading flag: the box is emptied exactly when it accepts; the message is sent exactly when the box accepts, a service exists and the game is not over, and it is the untrimmed input; when nothing is sent the session is unchanged; otherwise the new state is the reply applied after the user turn |

## Left out

- The Gemini client is an external network service: session creation, `sendMessage`, the model name and the system instruction. Each round-trip is an input (`RoundTrip`), and the message sent is returned.
- `JSON.parse` is a library call, modelled as an oracle. The only fact built in is that blank text is not JSON. The JSON grammar is not modelled. A parse that yields a non-object value is not modelled either; the source casts such a value to `CaseData` unchecked.
- `window.confirm` is a `bool` parameter of `HandleAccuse`.
- `window.location.reload` (`App.tsx:181`) is not modelled as an operation. It is the same as a new `Session` followed by `InitGame`.
- Clue ids and timestamps depend on the clock and the locale. They are parameters, and nothing is proved about id uniqueness.
- Asynchrony is left out: overlapping round-trips, stale render closures and React's batching of `setGameState`/`setIsLoading`. Each handler is one atomic step. Because loading is set and cleared within one step, `Session.Valid()` includes `!isLoading` and every handler keeps it, so the request-clue guard on `isLoading` is modelled but provably never fires in sequential use.
- `App.Session.InitGame` requires that the game is not over. In the source it runs only from the mount effect (`App.tsx:75-77`), before any accusation.
- A failure of the service constructor is not modelled (`App.tsx:47`). The model treats the service as created on every `InitGame`.
- `console.error` logging in the error paths is left out.
- Unicode detail is approximated. JavaScript strings are UTF-16 code units; strings here are sequences of Unicode scalar values. `\s`, `trim()` and the line terminators use the explicit ECMAScript character set. The case-insensitive match compares only ASCII letters: without the `u` flag, no other character folds onto C, L, U or E.
- The JSX rendering is left out: styling, the auto-scroll effect (`components/ChatWindow.tsx:16-20`), and the `disabled` attributes on the suspect cards and the clue button (`App.tsx:222`, `App.tsx:237`), which only gate the UI. The input element's own `disabled` is left out too (`components/ChatWindow.tsx:78`). `handleSubmit` itself does not check `disabled`.
- `components/SuspectCard.tsx` is not part of this model. It is presentation only; its one behaviour is calling `onGuess(suspect.name)`, which is `HandleAccuse`.
- `types.ts` has no behaviour. It is mirrored as datatypes.
