# A verified model of the terminal chat client's tag scanner and stream loop

The client (`cli.py`) is a terminal chat front end for a reasoning model
served through a local proxy (`server.py`). It sends the whole history with
each request and reads the reply as a stream of server-sent events. Each
event's `delta` may carry `reasoning_content` and `content` text. That text
goes through a `TagStreamer`, which cuts it into segments at the
`<python>`, `</python>`, `<output>` and `</output>` tags. Each segment is
shown in a style chosen by its region: python, output, or plain reasoning
or content. The history keeps the reply with its tags. Lines starting with
`/` are client commands.

The model has seven modules:

- `Wrappers`: the `Option` type.
- `Text`: the Python string operations the client uses, which are
  `strip()`, `lstrip("/")`, `lower()`, `startswith` and `"".join`.
- `TagScan`:
  - the `TagStreamer` class, with the fields `buf` and `active` and the
    while loop of `feed`;
  - a reference lexer `Tokens`, which splits text into plain characters
    and recognised tags;
  - a reference grouping `Group`, which turns tokens into segments;
  - the lemmas that relate the two.
- `Chat`: the history class.
- `Slash`: `handle_slash`.
- `Stream`:
  - the line loop of `main` as `ConsumeStream`;
  - what it stores (`Reply`) and what it shows (`Transcript`, a log of
    display calls);
  - the server's framing of events.
- `Client`: one turn of the prompt loop.

`Feed` is specified against the reference definitions. Given the region
open before the call:

- its result is `Group(Tokens(text), old(active), [])`;
- the new `active` is `FinalRegion(Tokens(text), old(active))`.

The lemmas then state what the source promises about those functions:

- **Conservation.** The segments spell the text with its tags removed.
  The token texts spell the text back exactly.
- **Uniqueness.** The lexing is the only one that follows the scanner's
  left-to-right rule.
- **Segments.** Every segment is non-empty and carries the region open
  where its characters stand. The trailing remainder is the last segment,
  in the final region.
- **Regions.** The region is always `None`, `python` or `output`. It is
  set by the last recognised tag.
- **Tag recognition.** The tag name is the bracketed text stripped,
  lower-cased and stripped of leading `/`. A tag is closing only when `/`
  follows `<` directly. Any other `<...>` is plain text. An unclosed `<`
  and everything after it is plain text.

**The code and its comments disagree.** The comments on `buf` and on the
`j == -1` branch (`cli.py:111`, `cli.py:127`, `cli.py:147`) say that an
incomplete tag is kept for the next `feed`. The code never keeps one. After
the `break`, `data` is non-empty, so it is emitted as a segment and `buf`
becomes `[]`. `buf` is `[""]` only when nothing is left. The model follows
the code. `Feed` ensures `Join(buf) == []` after every call.
`TagScan.SplitTag` shows the consequence: a tag split over two feeds is
shown as plain text and does not change the region, while the same text in
one feed is recognised.

## Model

| member | source | states |
|---|---|---|
| TagScan.TagStreamer.constructor | cli.py:110-112 | a fresh scanner has an empty buffer and no open region |
| TagScan.TagStreamer.Feed | cli.py:114-148 | the segments are the reference grouping of the reference lexing of `text`, from the region open before the call; the new region is the one the last recognised tag sets; the buffer is `[""]` when no text remains and `[]` otherwise, so it never carries text into the next call |
| TagScan.FindFrom | cli.py:126 | `find(">", i + 1)` returns the first index at or after the start holding the character, or none when no such index exists |
| TagScan.FindFromFirst | cli.py:126 | an index holding the character with none of it earlier is what `find` returns |
| TagScan.TagAt | cli.py:124-131 | a string that starts with `<` begins a recognised tag exactly at the first `>` when the name there is a known tag; it begins no tag when that name is unknown or there is no `>` |
| TagScan.NotATag | cli.py:126-131 | a bracketed name outside {python, output} begins no tag |
| TagScan.TagNameOf | cli.py:129 | surrounding whitespace, ASCII case and any number of leading `/` are ignored in a tag name |
| TagScan.NameUpperOutput | cli.py:129-131 | the body `/OUTPUT` names the `output` tag |
| TagScan.ClosingTagExample | cli.py:129-131 | `</OUTPUT>` lexes as one closing `output` tag |
| TagScan.SingleTag | cli.py:129-131 | `<body>` with a known tag name lexes as a single tag, closing exactly when `body` starts with `/` |
| TagScan.UnknownTagIsPlain | cli.py:124-141 | `<body>` with an unknown name, followed by text with no `<`, is plain text |
| TagScan.UnknownTagInText | cli.py:124-141 | brackets around an unknown name pass through unchanged wherever they stand in the text, as in `a < b > c` |
| TagScan.TokensReassemble | cli.py:119-145 | the tokens' texts, concatenated, give back the input exactly (nothing lost, nothing added) |
| TagScan.TokensWellLexed | cli.py:123-141 | every token of the lexing is the one the scanner's rule reads at its position |
| TagScan.TokensUnique | cli.py:123-141 | any token list that spells the text and follows the scanner's rule at every position is the reference lexing |
| TagScan.TokensNamesValid | cli.py:129-131 | every recognised tag's name is `python` or `output` |
| TagScan.NoBracketIsPlain | cli.py:124-128 | text without `>`, or without `<`, is all plain characters: in particular an unclosed `<` ends tag scanning |
| TagScan.PlainPrefix | cli.py:124-141 | characters other than `<` in front of plain text stay plain |
| TagScan.GroupText | cli.py:119-145 | the segments' texts, concatenated, are the pending text followed by the input with its tags removed |
| TagScan.GroupNonEmpty | cli.py:133-144 | no segment is empty |
| TagScan.GroupLabels | cli.py:133-144 | each shown character carries the region open where it stands in the input |
| TagScan.GroupSplitAtTag | cli.py:132-140 | a tag ends a segment: the text before it is grouped in the region before the tag, the text after it starts afresh in the region the tag sets |
| TagScan.TrailingSegment | cli.py:143-144 | when text remains after the last tag, it is the last segment, in the final region |
| TagScan.FinalRegionAppend | cli.py:136 | the region after two runs of tokens is the region after the second run, started in the region after the first |
| TagScan.FinalRegionByLastTag | cli.py:136 | the final region is set by the last recognised tag: `None` if it closes, its name if it opens, the starting region if there is none |
| TagScan.RegionsValid | cli.py:108-136 | the region is always `None`, `python` or `output`, and so is every segment's region |
| TagScan.FeedPlain | cli.py:119-145 | text without `>`, or without `<`, is one segment in the region already open and leaves the region unchanged |
| TagScan.JoinedTag | cli.py:124-140 | a `<` piece followed by a `>` piece, fed at once, form one tag: nothing is shown and the region is switched as the tag says |
| TagScan.SplitTag | cli.py:124-147 | the same two pieces fed one at a time are each shown as plain text and the region stays closed |
| Chat.History.constructor | cli.py:188 | the history starts empty |
| Chat.History.Append | cli.py:204 | appending adds one message at the end and changes nothing else |
| Chat.History.Clear | cli.py:94 | clearing empties the history |
| Slash.HandleSlash | cli.py:88-102 | the session ends exactly for `exit` and `quit`; `clear` empties the history; every other command leaves it unchanged |
| Slash.SlashNameOf | cli.py:90 | the command name ignores the first character, surrounding whitespace and ASCII case |
| Slash.QuitInAnyCase | cli.py:90-92 | `exit` and `quit` end the session in any case and with any surrounding whitespace |
| Slash.ClearInAnyCase | cli.py:90-94 | `clear` empties the history in any case and with any surrounding whitespace |
| Stream.Payload | cli.py:225-231 | a line has a payload exactly when it starts with `data: `, and the payload is what follows that prefix |
| Stream.ReceivedAppend | cli.py:224-237 | reading two runs of lines reads the second only when the first holds no end-of-stream line |
| Stream.DoneStops | cli.py:232-233 | nothing after a `[DONE]` line (surrounding whitespace allowed) is read |
| Stream.SkippedLine | cli.py:225-237 | a blank line, a line not starting with `data: `, or an undecodable payload changes nothing |
| Stream.ReplyAppend | cli.py:258-270 | the stored reply of two runs of chunks is the concatenation of their replies |
| Stream.PieceKeepsTags | cli.py:258-270 | the stored reply keeps the raw text, tags included |
| Stream.ShowSegments | cli.py:251-269 | each segment is shown in the `python` or `output` style inside those regions, otherwise in the reasoning style or the plain style |
| Stream.ShowReasoning | cli.py:250-258 | non-empty reasoning is fed through the shared scanner and shown; it is appended to the reply and moves the region as its tags say |
| Stream.ShowContent | cli.py:259-270 | non-empty content is shown after one reasoning-styled newline the first time, through the same scanner, and is appended to the reply |
| Stream.ShowChunk | cli.py:246-270 | one chunk shows its reasoning, then its content, with the scanner's region carried from one to the other, and appends both to the reply |
| Stream.ConsumeStream | cli.py:220-272 | the stored reply is the reasoning and content of every chunk read before `[DONE]`, in order; the display log is the reference transcript of those chunks |
| Stream.ReasoningShownWithoutTags | cli.py:250-257 | the reasoning is shown with its tags removed and nothing else changed |
| Stream.ContentShownWithoutTags | cli.py:259-269 | the content is shown with its tags removed, after the end-of-reasoning newline when it is the first content |
| Stream.RenderNoBanner | cli.py:240-244 | once the reply has started, no later chunk shows the banner |
| Stream.RenderBannerFirst | cli.py:240-244 | a reply that shows any chunk starts with the banner |
| Stream.BannerOnce | cli.py:240-272 | the banner is shown exactly when some chunk decodes, and then only once, first |
| Stream.DonePayload | cli.py:232 | the bare sentinel `[DONE]` ends the stream |
| Stream.PayloadOf | cli.py:228-231 | a `data: ` line's payload is the text after the prefix |
| Stream.FramesRoundTrip | server.py:52-54 | the events the proxy sends, none of them the sentinel, are read back as the payloads that decode, in order; anything after the `[DONE]` event is ignored |
| Client.Turn | cli.py:199-273 | a `/` line goes to the slash handler and logs nothing; any other line is appended as the user's message; after a failed request nothing else changes and nothing is logged; otherwise the reply is shown and appended as the assistant's message |

## Left out

- The spinner thread and its stop event (`cli.py:207-209`, `cli.py:215-216`, `cli.py:241-242`): concurrency that changes nothing the model states.
- The display itself: `display`, `FormattedText`, `prompt_toolkit` and the style sheet. The calls are kept as a log of `Shown` values. The help text, the `Unknown command` and `Context cleared.` messages, the request-error message and the final `Bye!` are not in the log.
- Clearing the terminal with `os.system` (`cli.py:96`): a foreign call with no effect on the model's state.
- The network. `requests.post`, `raise_for_status` and `iter_lines` become a parameter to `Client.Turn`: the lines of the response, or `None` when the request fails. Decoding bytes to text is part of that parameter.
- `json.loads` and the `.get(...)` chain become a parameter `decode`, from a payload to an optional delta. Inputs that make the source raise are not modelled: JSON that is not an object, an empty `choices` list, or a field that is not a string.
- Reading the prompt, and leaving the loop on end of input or interrupt (`cli.py:193-197`, `cli.py:275-278`): terminal I/O.
- `lower()` is modelled as ASCII case folding. This is exact for the words the client compares against (python, output, exit, quit, clear, help). Outside ASCII, the Kelvin sign lower-cases to `k`, which none of these words contains. `İ` lower-cases to `i` followed by a combining dot, which no word contains either. Every other non-ASCII character stays non-ASCII, so it cannot form one of these words under either folding.
- `server.py` apart from the framing of streamed events: the forward to the upstream API, the non-streaming path and the error event. Only `server.py:52-54` is modelled.
- A literal example with whitespace inside the brackets (`< Python >`) is not proved on its own. `TagScan.TagNameOf` covers it for any whitespace.
