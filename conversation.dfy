/** The shared conversation state that every plugin of one turn holds a reference to. */
module Conversation {

  /** The role every plugin uses when it records retrieval context. */
  const Assistant := "assistant"

  /** One entry of the conversation log: who spoke and what was said. */
  datatype Turn = Turn(role: string, message: string)

  /** The per-session conversation data; its history is an append-only, ordered log. */
  class ConversationData {
    var history: seq<Turn>

    constructor (history: seq<Turn>)
      ensures this.history == history
    {
      this.history := history;
    }

    /** Appends one turn at the end; earlier turns keep their contents and their order. */
    method Add(turn: Turn)
      modifies this
      ensures history == old(history) + [turn]
    {
      history := history + [turn];
    }
  }
}
