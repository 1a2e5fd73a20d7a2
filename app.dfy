/**
 * The top-level game controller: one game record, a loading flag and the chat
 * service handle, changed by four handlers. Each handler checks a guard, makes
 * its optimistic update, consumes the outcome of one round-trip (an input here)
 * and clears the loading flag however the round-trip ended.
 *
 * The record transforms the handlers pass to `setGameState` are functions on
 * `GameState`; the handlers themselves are methods of `Session`, each one atomic.
 */
module App {
  import opened Wrappers
  import opened Types
  import opened ClueExtraction
  import opened InvestigationService
  import opened ChatWindow

  /** The reveal text used when the final reply has no text. */
  const Fallback: string := "The investigation ended abruptly."

  const IntroLead: string := "The city smells like rain and cheap cigars. I've been called to the scene: \""
  const IntroAfterTitle: string := "\".\n\n"
  const IntroAfterScene: string := "\n\nWe have four suspects on the hook. I've found one initial piece of evidence: "
  const IntroClose: string := ". What's our next move, rookie?"

  /** The assistant's opening message for a freshly loaded case. */
  function IntroMessage(c: CaseData): string {
    IntroLead + c.title + IntroAfterTitle + c.scene + IntroAfterScene + c.initialClue + IntroClose
  }

  /** The user turn an accusation adds. */
  function AccusationText(suspectName: string): string {
    "I accuse " + suspectName + "!"
  }

  /** A transcript entry appended at the end. */
  function WithMessage(g: GameState, m: Message): GameState {
    g.(messages := g.messages + [m])
  }

  /** The record after a case loads: its metadata, one evidence entry with id
      `initial` holding the case's initial clue, one assistant message holding the opening narration, status
      `investigating`; the game-over flag and the culprit field are kept. */
  function Opened(g: GameState, c: CaseData, timestamp: string): (r: GameState)
    ensures r.caseTitle == c.title && r.sceneDescription == c.scene && r.suspects == c.suspects
    ensures r.clues == [Clue("initial", c.initialClue, timestamp)]
    ensures r.messages == [Message(Assistant, IntroMessage(c))]
    ensures r.status == Investigating
    ensures r.isGameOver == g.isGameOver && r.actualCriminal == g.actualCriminal
  {
    g.(caseTitle := c.title, sceneDescription := c.scene, suspects := c.suspects,
       clues := [Clue("initial", c.initialClue, timestamp)],
       status := Investigating,
       messages := [Message(Assistant, IntroMessage(c))])
  }

  /** What a completed question or clue request does to the record: a truthy reply
      is scanned for a clue and appended as an assistant turn; an empty reply or a
      failed round-trip leaves the record as it was. The transcript only grows,
      the evidence list gains at most one entry at its front, and nothing else
      changes. */
  function Answered(g: GameState, reply: RoundTrip, clueId: string, clueTime: string): (r: GameState)
    ensures g.messages <= r.messages
    ensures IsTruthy(reply) ==> r.messages == g.messages + [Message(Assistant, reply.text)]
    ensures !IsTruthy(reply) ==> r == g
    ensures r == g.(messages := r.messages, clues := r.clues)
    ensures |g.clues| <= |r.clues| <= |g.clues| + 1
    ensures r.clues[|r.clues| - |g.clues|..] == g.clues
    ensures DistinctTexts(g.clues) ==> DistinctTexts(r.clues)
    ensures IsTruthy(reply) ==> r.clues == ExtractClues(g, reply.text, clueId, clueTime).clues
  {
    if IsTruthy(reply) then
      WithMessage(ExtractClues(g, reply.text, clueId, clueTime), Message(Assistant, reply.text))
    else g
  }

  /** The optimistic part of an accusation: the user turn `I accuse <name>!` is
      appended and the status becomes `revealing`. */
  function Accused(g: GameState, suspectName: string): (r: GameState)
    ensures r.messages == g.messages + [Message(User, AccusationText(suspectName))]
    ensures r.status == Revealing
    ensures r == g.(messages := r.messages, status := r.status)
  {
    g.(messages := g.messages + [Message(User, AccusationText(suspectName))], status := Revealing)
  }

  /** The close of a completed accusation: the game is over and the reply, or the
      fallback text when the reply is empty, is the last assistant turn. */
  function Revealed(g: GameState, reply: RoundTrip): (r: GameState)
    requires !reply.Failure?
    ensures r.isGameOver
    ensures r.messages == g.messages + [Message(Assistant, if IsTruthy(reply) then reply.text else Fallback)]
    ensures r == g.(messages := r.messages, isGameOver := true)
  {
    var truth := ReplyText(reply);
    g.(isGameOver := true,
       messages := g.messages + [Message(Assistant, if truth != "" then truth else Fallback)])
  }

  /** A reply repeating the case's initial clue adds nothing to a freshly loaded case. */
  lemma InitialClueNotRepeated(g: GameState, c: CaseData, timestamp: string, reply: string, id: string, time: string)
    requires ExtractClueText(reply) == Some(c.initialClue)
    ensures ExtractClues(Opened(g, c, timestamp), reply, id, time) == Opened(g, c, timestamp)
  {
    assert Opened(g, c, timestamp).clues[0].text == c.initialClue;
  }

  /** The record invariant of every reachable session: the culprit field is never
      set, `guessing` is never entered, evidence texts are distinct, a finished
      game is in `revealing`, and any status past `loading` has a service. */
  ghost predicate Consistent(g: GameState, hasService: bool) {
    && g.actualCriminal.None?
    && g.status != Guessing
    && DistinctTexts(g.clues)
    && (g.isGameOver ==> g.status == Revealing)
    && (g.status != Loading ==> hasService)
  }

  /** Appending a turn keeps the record consistent. */
  lemma WithMessageConsistent(g: GameState, m: Message, hasService: bool)
    requires Consistent(g, hasService)
    ensures Consistent(WithMessage(g, m), hasService)
  {
  }

  /** Applying a reply keeps the record consistent. */
  lemma AnsweredConsistent(g: GameState, reply: RoundTrip, clueId: string, clueTime: string, hasService: bool)
    requires Consistent(g, hasService)
    ensures Consistent(Answered(g, reply, clueId, clueTime), hasService)
  {
    var r := Answered(g, reply, clueId, clueTime);
    assert r.status == g.status && r.isGameOver == g.isGameOver && r.actualCriminal == g.actualCriminal;
  }

  /** The game session: the record, the loading flag and whether the chat service exists. */
  class Session {
    var state: GameState
    var isLoading: bool
    var hasService: bool

    /** What every reachable session satisfies between actions: nothing is
        loading and the record is consistent with the service handle. */
    ghost predicate Valid()
      reads this
    {
      !isLoading && Consistent(state, hasService)
    }

    /** The state on mount: nothing loaded, not busy, no service yet. */
    constructor ()
      ensures Valid()
      ensures state == InitialGameState && !isLoading && !hasService
    {
      state := InitialGameState;
      isLoading := false;
      hasService := false;
    }

    /** `initGame`, run by the mount effect before any accusation: it creates the
        service, sends the case request (returned), and on a parsed case opens it;
        on any failure the status stays `loading`. */
    method InitGame(reply: RoundTrip, parse: string -> Option<CaseData>, timestamp: string)
      returns (request: string)
      requires Valid() && !state.isGameOver
      modifies this
      ensures Valid()
      ensures request == NewCasePrompt && hasService && !isLoading
      ensures match StartNewCase(reply, parse)
              case Ok(c) => state == Opened(old(state), c, timestamp)
              case Err(_) => state == old(state).(status := Loading)
    {
      isLoading := true;
      hasService := true;
      request := NewCasePrompt;
      var result := StartNewCase(reply, parse);
      match result {
        case Ok(c) =>
          state := Opened(state, c, timestamp);
        case Err(_) =>
          state := state.(status := Loading);
      }
      isLoading := false;
    }

    /** `handleSendMessage`: without a service or after the game ends it does
        nothing at all; otherwise it sends `content` verbatim, appends it as a user
        turn first, then applies the reply, and ends not loading. */
    method HandleSendMessage(content: string, reply: RoundTrip, clueId: string, clueTime: string)
      returns (request: Option<string>)
      requires Valid()
      modifies this
      ensures Valid() && hasService == old(hasService)
      ensures request == if old(hasService) && !old(state.isGameOver) then Some(content) else None
      ensures request.None? ==> state == old(state) && isLoading == old(isLoading)
      ensures request.Some? ==>
                !isLoading
                && state == Answered(WithMessage(old(state), Message(User, content)), reply, clueId, clueTime)
      ensures old(state.messages) <= state.messages
    {
      if !hasService || state.isGameOver {
        return None;
      }
      isLoading := true;
      WithMessageConsistent(state, Message(User, content), hasService);
      state := WithMessage(state, Message(User, content));
      request := Some(content);
      AnsweredConsistent(state, reply, clueId, clueTime, hasService);
      state := Answered(state, reply, clueId, clueTime);
      isLoading := false;
    }

    /** `handleRequestClue`: blocked without a service, after the game ends, or
        while loading; otherwise it sends the fixed clue request, adds no user turn,
        applies the reply, and ends not loading. */
    method HandleRequestClue(reply: RoundTrip, clueId: string, clueTime: string)
      returns (request: Option<string>)
      requires Valid()
      modifies this
      ensures Valid() && hasService == old(hasService)
      ensures request == if old(hasService) && !old(state.isGameOver) && !old(isLoading)
                         then Some(ClueRequestPrompt) else None
      ensures request.None? ==> state == old(state) && isLoading == old(isLoading)
      ensures request.Some? ==> !isLoading && state == Answered(old(state), reply, clueId, clueTime)
      ensures old(state.messages) <= state.messages
    {
      if !hasService || state.isGameOver || isLoading {
        return None;
      }
      isLoading := true;
      request := Some(ClueRequestPrompt);
      AnsweredConsistent(state, reply, clueId, clueTime, hasService);
      state := Answered(state, reply, clueId, clueTime);
      isLoading := false;
    }

    /** `handleAccuse`: blocked without a service or after the game ends, and
        nothing happens if the player declines the confirmation. A confirmed
        accusation sends the guess prompt, appends `I accuse <name>!`, enters
        `revealing`, and when the round-trip completes ends the game with the
        reveal (or the fallback); a failed round-trip leaves the game running. */
    method HandleAccuse(suspectName: string, confirmed: bool, reply: RoundTrip)
      returns (request: Option<string>)
      requires Valid()
      modifies this
      ensures Valid() && hasService == old(hasService)
      ensures request == if old(hasService) && !old(state.isGameOver) && confirmed
                         then Some(GuessPrompt(suspectName)) else None
      ensures request.None? ==> state == old(state) && isLoading == old(isLoading)
      ensures request.Some? ==>
                !isLoading && state.status == Revealing
                && (state.isGameOver <==> !reply.Failure?)
                && state == if reply.Failure? then Accused(old(state), suspectName)
                            else Revealed(Accused(old(state), suspectName), reply)
      ensures old(state.messages) <= state.messages
    {
      if !hasService || state.isGameOver {
        return None;
      }
      if !confirmed {
        return None;
      }
      isLoading := true;
      state := Accused(state, suspectName);
      request := Some(GuessPrompt(suspectName));
      if !reply.Failure? {
        state := Revealed(state, reply);
      }
      isLoading := false;
    }

    /** The chat window wired to `handleSendMessage` with the session's loading
        flag. A submission the box accepts empties it; it becomes a request, and the
        raw, untrimmed input the next user turn, unless the session's guard then
        drops it (no service, or the game is over). A submission the box rejects,
        or one the session drops, leaves the session as it was. */
    method SubmitChat(chat: ChatInput, reply: RoundTrip, clueId: string, clueTime: string)
      returns (request: Option<string>)
      requires Valid()
      modifies this, chat
      ensures Valid() && hasService == old(hasService)
      ensures chat.input == if Accepts(old(chat.input), old(isLoading)) then "" else old(chat.input)
      ensures request == if Accepts(old(chat.input), old(isLoading)) && old(hasService) && !old(state.isGameOver)
                         then Some(old(chat.input)) else None
      ensures request.None? ==> state == old(state) && isLoading == old(isLoading)
      ensures request.Some? ==>
                !isLoading
                && state == Answered(WithMessage(old(state), Message(User, old(chat.input))), reply, clueId, clueTime)
    {
      var sent := chat.Submit(isLoading);
      if sent.None? {
        return None;
      }
      request := HandleSendMessage(sent.value, reply, clueId, clueTime);
    }
  }
}
