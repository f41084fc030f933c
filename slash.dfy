/**
 * The slash commands of the client: `/exit` and `/quit` end the session,
 * `/clear` empties the history, `/help` and anything else only print.
 */
module Slash {
  import opened Text
  import opened Chat

  /** The command names that end the session. */
  const QuitNames: set<string> := {"exit", "quit"}

  /** What a slash command does. */
  datatype Action = Quit | ClearHistory | ShowHelp | Unknown

  /** The command name: everything after the first character, stripped and lower-cased. */
  function SlashName(cmd: string): string {
    if cmd == [] then [] else Lower(Strip(cmd[1..]))
  }

  /** The action a command name selects. */
  function ActionOf(name: string): Action {
    if name in QuitNames then Quit
    else if name == "clear" then ClearHistory
    else if name == "help" then ShowHelp
    else Unknown
  }

  /**
   * Handles one slash command: answers whether the session goes on, and
   * empties the history for `clear`. Printing the help or an error and
   * clearing the screen are not modelled.
   */
  method HandleSlash(cmd: string, hist: History) returns (keepGoing: bool)
    modifies hist
    ensures keepGoing <==> ActionOf(SlashName(cmd)) != Quit
    ensures hist.messages == if ActionOf(SlashName(cmd)) == ClearHistory then [] else old(hist.messages)
  {
    var name := SlashName(cmd);
    if name in QuitNames {
      return false;
    }
    if name == "clear" {
      hist.Clear();
    }
    return true;
  }

  /**
   * The name ignores the first character, surrounding whitespace and ASCII
   * case: `c`, whitespace, `word` and whitespace name `Lower(word)` whenever
   * `word` neither starts nor ends with whitespace.
   */
  lemma SlashNameOf(c: char, pre: string, word: string, post: string)
    requires AllSpace(pre) && AllSpace(post)
    requires word != [] && !IsSpace(word[0]) && !IsSpace(word[|word| - 1])
    ensures SlashName([c] + pre + word + post) == Lower(word)
  {
    var cmd := [c] + pre + word + post;
    assert cmd[1..] == pre + word + post;
    StripPadded(pre, word, post);
  }

  /** A command word's case folding keeps its first and last letters non-blank. */
  lemma WordEnds(word: string, target: string)
    requires Lower(word) == target && target != []
    requires !IsSpace(target[0]) && !IsSpace(target[|target| - 1])
    requires 'A' <= target[0] <= 'Z' || 'a' <= target[0] <= 'z'
    requires 'A' <= target[|target| - 1] <= 'Z' || 'a' <= target[|target| - 1] <= 'z'
    ensures word != [] && !IsSpace(word[0]) && !IsSpace(word[|word| - 1])
  {
    assert |word| == |target|;
    assert LowerChar(word[0]) == target[0];
    assert LowerChar(word[|word| - 1]) == target[|target| - 1];
  }

  /** `exit` and `quit` end the session in any case and with any spacing. */
  lemma QuitInAnyCase(pre: string, word: string, post: string)
    requires AllSpace(pre) && AllSpace(post)
    requires Lower(word) in QuitNames
    ensures ActionOf(SlashName("/" + pre + word + post)) == Quit
  {
    if Lower(word) == "exit" {
      WordEnds(word, "exit");
    } else {
      WordEnds(word, "quit");
    }
    assert "/" + pre + word + post == ['/'] + pre + word + post;
    SlashNameOf('/', pre, word, post);
  }

  /** `clear` empties the history in any case and with any spacing. */
  lemma ClearInAnyCase(pre: string, word: string, post: string)
    requires AllSpace(pre) && AllSpace(post)
    requires Lower(word) == "clear"
    ensures ActionOf(SlashName("/" + pre + word + post)) == ClearHistory
  {
    WordEnds(word, "clear");
    assert "/" + pre + word + post == ['/'] + pre + word + post;
    SlashNameOf('/', pre, word, post);
  }
}
