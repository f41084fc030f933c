/**
 * One turn of the client's prompt loop: a slash command is dispatched to
 * `HandleSlash`; anything else is appended to the history as the user's
 * message, sent, and the streamed reply is shown and appended as the
 * assistant's message.
 */
module Client {
  import opened Wrappers
  import opened Text
  import opened Chat
  import opened Slash
  import opened Stream

  /** The message the client stores for one reply. */
  function AssistantMessage(lines: seq<string>, decode: string -> Option<Delta>): Message {
    Message("assistant", Reply(Received(lines, decode)))
  }

  /**
   * Handles one line typed at the prompt. `response` is the server's
   * streamed reply as lines, or `None` when the request failed; `decode`
   * stands for the JSON decoding of one payload.
   */
  method Turn(userMsg: string, hist: History, response: Option<seq<string>>, decode: string -> Option<Delta>)
    returns (keepGoing: bool, shown: seq<Shown>)
    modifies hist
    ensures StartsWith(userMsg, "/") ==>
      && (keepGoing <==> ActionOf(SlashName(userMsg)) != Quit)
      && hist.messages == (if ActionOf(SlashName(userMsg)) == ClearHistory then [] else old(hist.messages))
      && shown == []
    ensures !StartsWith(userMsg, "/") && response.None? ==>
      && keepGoing
      && hist.messages == old(hist.messages) + [Message("user", userMsg)]
      && shown == []
    ensures !StartsWith(userMsg, "/") && response.Some? ==>
      && keepGoing
      && hist.messages == old(hist.messages) + [Message("user", userMsg), AssistantMessage(response.value, decode)]
      && shown == Transcript(response.value, decode)
  {
    shown := [];
    if StartsWith(userMsg, "/") {
      keepGoing := HandleSlash(userMsg, hist);
      return;
    }
    keepGoing := true;
    hist.Append(Message("user", userMsg));
    if response.None? {
      return;
    }
    var reply;
    reply, shown := ConsumeStream(response.value, decode);
    hist.Append(Message("assistant", reply));
  }
}
