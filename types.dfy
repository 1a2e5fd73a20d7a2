/** The records of the game, one datatype per declared interface. */
module Types {
  import opened Wrappers

  datatype Suspect = Suspect(id: string, name: string, role: string, description: string, image: string)

  /** An evidence-board entry. `id` and `timestamp` come from the clock and are opaque here. */
  datatype Clue = Clue(id: string, text: string, timestamp: string)

  datatype Role = User | Assistant | System

  datatype Message = Message(role: Role, content: string)

  /** The lifecycle tag. `Guessing` is declared but no transition enters it. */
  datatype Status = Loading | Investigating | Guessing | Revealing

  /** The whole game record. `clues` runs newest-first, `messages` oldest-first;
      `actualCriminal` is declared but never written. */
  datatype GameState = GameState(
    caseTitle: string,
    sceneDescription: string,
    suspects: seq<Suspect>,
    clues: seq<Clue>,
    isGameOver: bool,
    actualCriminal: Option<string>,
    messages: seq<Message>,
    status: Status)

  /** The case as the model's opening reply describes it. */
  datatype CaseData = CaseData(title: string, scene: string, suspects: seq<Suspect>, initialClue: string)

  /** The state the application starts in, before any case is loaded. */
  const InitialGameState := GameState("", "", [], [], false, None, [], Loading)
}
