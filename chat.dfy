/** The conversation history the client sends with every request. */
module Chat {

  /** One chat message: a role (`user` or `assistant`) and its text. */
  datatype Message = Message(role: string, content: string)

  /** The history list, updated in place by the client. */
  class History {
    var messages: seq<Message>

    constructor ()
      ensures messages == []
    {
      messages := [];
    }

    /** `hist.append(m)`. */
    method Append(m: Message)
      modifies this
      ensures messages == old(messages) + [m]
    {
      messages := messages + [m];
    }

    /** `hist.clear()`. */
    method Clear()
      modifies this
      ensures messages == []
    {
      messages := [];
    }
  }
}
