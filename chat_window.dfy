/**
 * The chat window's input box: it holds the text being typed, and its submit
 * handler forwards that text, untrimmed, unless it is blank or a round-trip is
 * in flight, then clears the box.
 */
module ChatWindow {
  import opened Wrappers
  import opened JsString

  /** The submit handler's guard: `!input.trim() || isLoading` rejects. */
  predicate Accepts(input: string, isLoading: bool) {
    Trim(input) != "" && !isLoading
  }

  /** The send button's enable condition: `!(disabled || isLoading || !input.trim())`. */
  predicate SendEnabled(input: string, disabled: bool, isLoading: bool) {
    !disabled && !isLoading && Trim(input) != ""
  }

  /** The handler rejects exactly the blank inputs and everything while loading;
      whenever the button is enabled, pressing it is accepted, and the button
      differs from the handler only in also honouring `disabled`. */
  lemma GuardsAgree(input: string, disabled: bool, isLoading: bool)
    ensures Accepts(input, isLoading) <==> !AllWhitespace(input) && !isLoading
    ensures SendEnabled(input, disabled, isLoading) <==> !disabled && Accepts(input, isLoading)
  {
  }

  class ChatInput {
    /** The text currently in the input box. */
    var input: string

    constructor ()
      ensures input == ""
    {
      input := "";
    }

    /** `onChange`: the box takes the typed value. */
    method Change(value: string)
      modifies this
      ensures input == value
    {
      input := value;
    }

    /** `handleSubmit`: an accepted submission hands the raw input to
        `onSendMessage` exactly once (the returned value) and empties the box;
        a rejected one sends nothing and leaves the box as it was. */
    method Submit(isLoading: bool) returns (sent: Option<string>)
      modifies this
      ensures sent == if Accepts(old(input), isLoading) then Some(old(input)) else None
      ensures input == if sent.Some? then "" else old(input)
    {
      if !Accepts(input, isLoading) {
        return None;
      }
      sent := Some(input);
      input := "";
    }
  }
}
