/**
 * The client's reading of a streamed reply: a sequence of server-sent-event
 * lines, of which only `data: ` lines count; the payload `[DONE]` ends the
 * stream, payloads that do not decode are skipped, and every decoded chunk
 * contributes its reasoning and content text to the stored reply and, through
 * the tag scanner, to the display.
 *
 * The JSON parser is a parameter `decode`: it maps a payload to the delta it
 * carries, or to `None` where the parser rejects it.
 */
module Stream {
  import opened Wrappers
  import opened Text
  import opened TagScan

  /** The two optional text fields of a chunk's `choices[0].delta`. */
  datatype Delta = Delta(reasoning: Option<string>, content: Option<string>)

  /** One display call: the `AI: ` banner, or a piece of text in a style class. */
  datatype Shown = Banner | Styled(style: string, text: string)

  /** The newline shown in the reasoning style when the first content arrives. */
  const EndOfReasoning := Styled("reason", "\n")

  /** The newline shown once the stream is over. */
  const EndOfReply := Styled("", "\n")

  // ---------------------------------------------------------------------
  // Which lines count
  // ---------------------------------------------------------------------

  /** The payload of a non-empty line that starts with `data: `. */
  function Payload(line: string): (p: Option<string>)
    ensures p.Some? <==> StartsWith(line, "data: ")
    ensures p.Some? ==> line == "data: " + p.value
  {
    if line != [] && StartsWith(line, "data: ") then Some(line[6..]) else None
  }

  /** The end-of-stream sentinel, surrounding whitespace allowed. */
  predicate IsDone(payload: string) {
    Strip(payload) == "[DONE]"
  }

  /** A line that ends the stream. */
  predicate IsDoneLine(line: string) {
    Payload(line).Some? && IsDone(Payload(line).value)
  }

  /** No line of `lines` ends the stream. */
  predicate Unfinished(lines: seq<string>) {
    forall k :: 0 <= k < |lines| ==> !IsDoneLine(lines[k])
  }

  /** The decoded chunks, in order, up to the first end-of-stream line. */
  function Received(lines: seq<string>, decode: string -> Option<Delta>): seq<Delta>
    decreases |lines|
  {
    if lines == [] then []
    else match Payload(lines[0])
      case None => Received(lines[1..], decode)
      case Some(p) =>
        if IsDone(p) then []
        else match decode(p)
          case None => Received(lines[1..], decode)
          case Some(d) => [d] + Received(lines[1..], decode)
  }

  /** `Received` over the lines from index `n` on, one line at a time. */
  lemma ReceivedAt(lines: seq<string>, n: nat, decode: string -> Option<Delta>)
    requires n < |lines|
    ensures Received(lines[n..], decode) ==
      match Payload(lines[n])
      case None => Received(lines[n + 1..], decode)
      case Some(p) =>
        if IsDone(p) then []
        else match decode(p)
          case None => Received(lines[n + 1..], decode)
          case Some(d) => [d] + Received(lines[n + 1..], decode)
  {
    assert lines[n..][0] == lines[n] && lines[n..][1..] == lines[n + 1..];
  }

  /**
   * Reading two runs of lines: the second is read only if the first does not
   * end the stream.
   */
  lemma {:induction false} ReceivedAppend(a: seq<string>, b: seq<string>, decode: string -> Option<Delta>)
    ensures Received(a + b, decode) == Received(a, decode) + (if Unfinished(a) then Received(b, decode) else [])
    decreases |a|
  {
    if a == [] {
      assert a + b == b;
    } else {
      assert (a + b)[0] == a[0] && (a + b)[1..] == a[1..] + b;
      ReceivedAppend(a[1..], b, decode);
      assert Unfinished(a) <==> !IsDoneLine(a[0]) && Unfinished(a[1..]) by {
        if !IsDoneLine(a[0]) && Unfinished(a[1..]) {
          forall k | 0 <= k < |a| ensures !IsDoneLine(a[k]) {
            if k > 0 {
              assert a[k] == a[1..][k - 1];
            }
          }
        }
        if Unfinished(a) {
          forall k | 0 <= k < |a[1..]| ensures !IsDoneLine(a[1..][k]) {
            assert a[1..][k] == a[k + 1];
          }
        }
      }
    }
  }

  /** Nothing after an end-of-stream line is read, whatever comes before it. */
  lemma DoneStops(a: seq<string>, done: string, b: seq<string>, decode: string -> Option<Delta>)
    requires IsDoneLine(done)
    ensures Received(a + [done] + b, decode) == Received(a, decode)
  {
    assert a + [done] + b == a + ([done] + b);
    ReceivedAppend(a, [done] + b, decode);
    assert ([done] + b)[0] == done;
  }

  /** A line without a payload, or whose payload does not decode, is skipped. */
  lemma SkippedLine(a: seq<string>, line: string, b: seq<string>, decode: string -> Option<Delta>)
    requires Payload(line).None? || (!IsDone(Payload(line).value) && decode(Payload(line).value).None?)
    ensures Received(a + [line] + b, decode) == Received(a + b, decode)
  {
    assert a + [line] + b == a + ([line] + b);
    ReceivedAppend(a, [line] + b, decode);
    ReceivedAppend(a, b, decode);
    assert ([line] + b)[0] == line && ([line] + b)[1..] == b;
  }

  // ---------------------------------------------------------------------
  // The stored reply
  // ---------------------------------------------------------------------

  /** Whether an optional field counts: present and non-empty, as Python's truth test has it. */
  predicate Truthy(field: Option<string>) {
    field.Some? && field.value != []
  }

  /** The text a field contributes: its value, or nothing when absent. */
  function Given(field: Option<string>): string {
    if field.Some? then field.value else []
  }

  /** What one chunk adds to the stored reply: its reasoning, then its content. */
  function Piece(d: Delta): string {
    Given(d.reasoning) + Given(d.content)
  }

  /** The stored reply: every chunk's piece, in order. */
  function Reply(ds: seq<Delta>): string {
    if ds == [] then [] else Piece(ds[0]) + Reply(ds[1..])
  }

  lemma {:induction false} ReplyAppend(a: seq<Delta>, b: seq<Delta>)
    ensures Reply(a + b) == Reply(a) + Reply(b)
  {
    if a == [] {
      assert a + b == b;
    } else {
      ReplyAppend(a[1..], b);
      assert (a + b)[0] == a[0] && (a + b)[1..] == a[1..] + b;
      AppendAssoc(Piece(a[0]), Reply(a[1..]), Reply(b));
    }
  }

  /** The stored reply keeps the tags: each piece is exactly the text of its tokens. */
  lemma PieceKeepsTags(d: Delta)
    ensures Piece(d) == Raw(Tokens(Given(d.reasoning))) + Raw(Tokens(Given(d.content)))
  {
    TokensReassemble(Given(d.reasoning));
    TokensReassemble(Given(d.content));
  }

  // ---------------------------------------------------------------------
  // What is shown
  // ---------------------------------------------------------------------

  /** The style class of a reasoning segment in a region. */
  function ReasonStyle(r: Region): string {
    if r == Some("python") then "python" else if r == Some("output") then "output" else "reason"
  }

  /** The style class of a content segment in a region. */
  function ContentStyle(r: Region): string {
    if r == Some("python") then "python" else if r == Some("output") then "output" else ""
  }

  /** The display calls for a list of segments. */
  function Styles(segs: seq<Segment>, reasoning: bool): (evs: seq<Shown>)
    ensures |evs| == |segs|
  {
    seq(|segs|, k requires 0 <= k < |segs| =>
      Styled(if reasoning then ReasonStyle(segs[k].region) else ContentStyle(segs[k].region), segs[k].text))
  }

  /** What the reasoning of chunk `d` shows when region `r` is open. */
  function ReasonShown(d: Delta, r: Region): seq<Shown> {
    if Truthy(d.reasoning) then Styles(Group(Tokens(d.reasoning.value), r, []), true) else []
  }

  /** The region after the reasoning of chunk `d`. */
  function AfterReasoning(d: Delta, r: Region): Region {
    if Truthy(d.reasoning) then FinalRegion(Tokens(d.reasoning.value), r) else r
  }

  /** What the content of chunk `d` shows when region `r` is open; `finished` once content has been seen. */
  function ContentShown(d: Delta, r: Region, finished: bool): seq<Shown> {
    if Truthy(d.content) then
      (if finished then [] else [EndOfReasoning]) + Styles(Group(Tokens(d.content.value), r, []), false)
    else []
  }

  /** The region after the whole of chunk `d`. */
  function AfterChunk(d: Delta, r: Region): Region {
    AfterContent(d, AfterReasoning(d, r))
  }

  /** The region after the content of chunk `d`, which starts in region `r`. */
  function AfterContent(d: Delta, r: Region): Region {
    if Truthy(d.content) then FinalRegion(Tokens(d.content.value), r) else r
  }

  /** What chunk `d` shows: the banner if nothing was shown yet, then its reasoning, then its content. */
  function ChunkShown(d: Delta, started: bool, r: Region, finished: bool): seq<Shown> {
    if started then ChunkBody(d, r, finished) else [Banner] + ChunkBody(d, r, finished)
  }

  /** What chunk `d` shows after the banner: its reasoning, then its content. */
  function ChunkBody(d: Delta, r: Region, finished: bool): seq<Shown> {
    ReasonShown(d, r) + ContentShown(d, AfterReasoning(d, r), finished)
  }

  /** What the chunks `ds` show, starting in region `r`. */
  function Render(ds: seq<Delta>, started: bool, r: Region, finished: bool): seq<Shown>
    decreases |ds|
  {
    if ds == [] then []
    else
      ChunkShown(ds[0], started, r, finished)
      + Render(ds[1..], true, AfterChunk(ds[0], r), finished || Truthy(ds[0].content))
  }

  /** Everything shown for a streamed reply. */
  function Transcript(lines: seq<string>, decode: string -> Option<Delta>): seq<Shown> {
    Render(Received(lines, decode), false, None, false) + [EndOfReply]
  }

  // ---------------------------------------------------------------------
  // The loop
  // ---------------------------------------------------------------------

  /** The display calls for the segments one feed returned. */
  method ShowSegments(segs: seq<Segment>, reasoning: bool) returns (evs: seq<Shown>)
    ensures evs == Styles(segs, reasoning)
  {
    evs := [];
    for k := 0 to |segs|
      invariant evs == Styles(segs[..k], reasoning)
    {
      var style := if segs[k].region == Some("python") then "python"
                   else if segs[k].region == Some("output") then "output"
                   else if reasoning then "reason" else "";
      evs := evs + [Styled(style, segs[k].text)];
      assert segs[..k + 1] == segs[..k] + [segs[k]];
    }
    assert segs[..|segs|] == segs;
  }

  /**
   * Shows one decoded chunk through the shared tag scanner and adds its
   * reasoning and content to the reply accumulated so far.
   */
  method ShowChunk(tagger: TagStreamer, d: Delta, accum: string, finished: bool)
    returns (evs: seq<Shown>, accum': string, finished': bool)
    requires tagger.Valid()
    modifies tagger
    ensures tagger.Valid()
    ensures evs == ChunkBody(d, old(tagger.active), finished)
    ensures tagger.active == AfterChunk(d, old(tagger.active))
    ensures accum' == accum + Piece(d) && finished' == (finished || Truthy(d.content))
  {
    var reasoning, accum1 := ShowReasoning(tagger, d, accum);
    var content;
    content, accum', finished' := ShowContent(tagger, d, accum1, finished);
    evs := reasoning + content;
    AppendAssoc(accum, Given(d.reasoning), Given(d.content));
  }

  /** The reasoning half of `ShowChunk` (cli.py's first `if` on the delta). */
  method ShowReasoning(tagger: TagStreamer, d: Delta, accum: string) returns (evs: seq<Shown>, accum': string)
    requires tagger.Valid()
    modifies tagger
    ensures tagger.Valid()
    ensures evs == ReasonShown(d, old(tagger.active)) && tagger.active == AfterReasoning(d, old(tagger.active))
    ensures accum' == accum + Given(d.reasoning)
  {
    evs, accum' := [], accum;
    ghost var r0 := tagger.active;
    if d.reasoning.Some? && d.reasoning.value != [] {
      var segs := tagger.Feed(d.reasoning.value);
      evs := ShowSegments(segs, true);
      accum' := accum' + d.reasoning.value;
    }
    ReasoningPart(d, r0, tagger.active, evs, accum, accum');
  }

  /** The content half of `ShowChunk`: the newline that closes the reasoning, then the styled content. */
  method ShowContent(tagger: TagStreamer, d: Delta, accum: string, finished: bool)
    returns (evs: seq<Shown>, accum': string, finished': bool)
    requires tagger.Valid()
    modifies tagger
    ensures tagger.Valid()
    ensures evs == ContentShown(d, old(tagger.active), finished) && tagger.active == AfterContent(d, old(tagger.active))
    ensures accum' == accum + Given(d.content) && finished' == (finished || Truthy(d.content))
  {
    evs, accum', finished' := [], accum, finished;
    ghost var r0 := tagger.active;
    if d.content.Some? && d.content.value != [] {
      if !finished' {
        finished' := true;
        evs := evs + [EndOfReasoning];
      }
      var segs := tagger.Feed(d.content.value);
      var more := ShowSegments(segs, false);
      evs := evs + more;
      accum' := accum' + d.content.value;
    }
    ContentPart(d, r0, tagger.active, finished, [], evs, accum, accum');
  }

  /** What the reasoning branch of `ShowChunk` leaves behind. */
  lemma ReasoningPart(d: Delta, r: Region, r': Region, evs: seq<Shown>, accum: string, accum': string)
    requires Truthy(d.reasoning) ==>
      && evs == Styles(Group(Tokens(d.reasoning.value), r, []), true)
      && r' == FinalRegion(Tokens(d.reasoning.value), r)
      && accum' == accum + d.reasoning.value
    requires !Truthy(d.reasoning) ==> evs == [] && r' == r && accum' == accum
    ensures evs == ReasonShown(d, r) && r' == AfterReasoning(d, r) && accum' == accum + Given(d.reasoning)
  {
    if !Truthy(d.reasoning) {
      assert accum + Given(d.reasoning) == accum;
    }
  }

  /** What the content branch of `ShowChunk` leaves behind. */
  lemma ContentPart(d: Delta, r: Region, r': Region, finished: bool, before: seq<Shown>, after: seq<Shown>,
                    accum: string, accum': string)
    requires Truthy(d.content) ==>
      && after == before + (if finished then [] else [EndOfReasoning]) + Styles(Group(Tokens(d.content.value), r, []), false)
      && r' == FinalRegion(Tokens(d.content.value), r)
      && accum' == accum + d.content.value
    requires !Truthy(d.content) ==> after == before && r' == r && accum' == accum
    ensures after == before + ContentShown(d, r, finished)
    ensures r' == AfterContent(d, r) && accum' == accum + Given(d.content)
  {
    if Truthy(d.content) {
      AppendAssoc(before, if finished then [] else [EndOfReasoning], Styles(Group(Tokens(d.content.value), r, []), false));
    } else {
      assert before + [] == before;
      assert accum + Given(d.content) == accum;
    }
  }

  /**
   * Reads a streamed reply line by line: returns the reply to store and
   * everything shown, as `Reply` and `Transcript` define them.
   */
  method ConsumeStream(lines: seq<string>, decode: string -> Option<Delta>) returns (reply: string, shown: seq<Shown>)
    ensures reply == Reply(Received(lines, decode))
    ensures shown == Transcript(lines, decode)
  {
    reply := [];
    shown := [];
    var finished := false;
    var started := false;
    var tagger := new TagStreamer();
    var n := 0;
    assert lines[0..] == lines;
    while n < |lines|
      invariant 0 <= n <= |lines|
      invariant tagger.Valid()
      invariant Reply(Received(lines, decode)) == reply + Reply(Received(lines[n..], decode))
      invariant Render(Received(lines, decode), false, None, false)
             == shown + Render(Received(lines[n..], decode), started, tagger.active, finished)
      decreases |lines| - n
    {
      var line := lines[n];
      ReceivedAt(lines, n, decode);
      n := n + 1;
      if line == [] {
        continue;
      }
      if !StartsWith(line, "data: ") {
        continue;
      }
      var data := line[6..];
      if Strip(data) == "[DONE]" {
        StreamEnd(reply, shown, started, tagger.active, finished);
        n := |lines|;
        assert lines[n..] == [];
        break;
      }
      var chunk := decode(data);
      if chunk.None? {
        continue;
      }
      ghost var shown0, reply0, started0, active0, finished0 := shown, reply, started, tagger.active, finished;
      if !started {
        shown := shown + [Banner];
        started := true;
      }
      var evs;
      evs, reply, finished := ShowChunk(tagger, chunk.value, reply, finished);
      shown := shown + evs;
      ChunkStep(chunk.value, Received(lines[n..], decode), shown0, started0, active0, finished0, shown);
      ReplyStep(chunk.value, Received(lines[n..], decode), reply0);
    }
    assert lines[n..] == [];
    shown := shown + [EndOfReply];
    assert reply + [] == reply && shown[..|shown| - 1] + [] == shown[..|shown| - 1];
  }

  /** One decoded chunk moves from the unread part of the reply to the accumulated part. */
  lemma ReplyStep(d: Delta, rest: seq<Delta>, accum: string)
    ensures accum + Reply([d] + rest) == accum + Piece(d) + Reply(rest)
  {
    assert ([d] + rest)[0] == d && ([d] + rest)[1..] == rest;
    AppendAssoc(accum, Piece(d), Reply(rest));
  }

  /** At the end-of-stream line the rest of the stream is empty. */
  lemma StreamEnd(reply: string, shown: seq<Shown>, started: bool, r: Region, finished: bool)
    ensures reply + Reply([]) == reply
    ensures shown + Render([], started, r, finished) == shown
  {
    assert reply + [] == reply && shown + [] == shown;
  }

  /** One decoded chunk moves from the unread part of the display to the shown part. */
  lemma ChunkStep(d: Delta, rest: seq<Delta>, shown: seq<Shown>, started: bool, r: Region, finished: bool, shown': seq<Shown>)
    requires shown' == (if started then shown else shown + [Banner]) + ChunkBody(d, r, finished)
    ensures shown + Render([d] + rest, started, r, finished)
         == shown' + Render(rest, true, AfterChunk(d, r), finished || Truthy(d.content))
  {
    assert ([d] + rest)[0] == d && ([d] + rest)[1..] == rest;
    var body := ChunkBody(d, r, finished);
    var tail := Render(rest, true, AfterChunk(d, r), finished || Truthy(d.content));
    if started {
      AppendAssoc(shown, body, tail);
    } else {
      AppendAssoc(shown, [Banner] + body, tail);
      AppendAssoc(shown, [Banner], body);
    }
  }

  // ---------------------------------------------------------------------
  // Properties of the display
  // ---------------------------------------------------------------------

  /** The text shown of a list of display calls (the banner shows no text of the reply). */
  function ShownText(evs: seq<Shown>): string {
    if evs == [] then []
    else (if evs[0].Styled? then evs[0].text else []) + ShownText(evs[1..])
  }

  lemma {:induction false} ShownTextAppend(a: seq<Shown>, b: seq<Shown>)
    ensures ShownText(a + b) == ShownText(a) + ShownText(b)
  {
    if a == [] {
      assert a + b == b;
    } else {
      assert (a + b)[1..] == a[1..] + b;
      ShownTextAppend(a[1..], b);
    }
  }

  lemma {:induction false} StylesText(segs: seq<Segment>, reasoning: bool)
    ensures ShownText(Styles(segs, reasoning)) == Texts(segs)
  {
    if segs != [] {
      assert Styles(segs, reasoning)[1..] == Styles(segs[1..], reasoning);
      StylesText(segs[1..], reasoning);
    }
  }

  /** A text fed through the scanner shows exactly its characters outside tags. */
  lemma StyledText(s: string, r: Region, reasoning: bool)
    ensures ShownText(Styles(Group(Tokens(s), r, []), reasoning)) == Plain(Tokens(s))
  {
    StylesText(Group(Tokens(s), r, []), reasoning);
    GroupText(Tokens(s), r, []);
    assert [] + Plain(Tokens(s)) == Plain(Tokens(s));
  }

  /**
   * The reasoning of a chunk is shown with its tags removed and nothing
   * else changed, whatever region is open.
   */
  lemma ReasoningShownWithoutTags(d: Delta, r: Region)
    ensures ShownText(ReasonShown(d, r)) == Plain(Tokens(Given(d.reasoning)))
  {
    if Truthy(d.reasoning) {
      StyledText(d.reasoning.value, r, true);
    } else {
      assert Tokens(Given(d.reasoning)) == [];
    }
  }

  /**
   * The content of a chunk is shown with its tags removed, after the
   * end-of-reasoning newline when it is the first content of the reply.
   */
  lemma ContentShownWithoutTags(d: Delta, r: Region, finished: bool)
    ensures ShownText(ContentShown(d, r, finished))
         == (if Truthy(d.content) && !finished then "\n" else []) + Plain(Tokens(Given(d.content)))
  {
    if Truthy(d.content) {
      var v := d.content.value;
      var shown := Styles(Group(Tokens(v), r, []), false);
      StyledText(v, r, false);
      if finished {
        assert ContentShown(d, r, finished) == [] + shown;
        assert [] + shown == shown;
        assert [] + Plain(Tokens(v)) == Plain(Tokens(v));
      } else {
        ShownTextAppend([EndOfReasoning], shown);
        EndOfReasoningText();
      }
    } else {
      assert Tokens(Given(d.content)) == [];
    }
  }

  lemma EndOfReasoningText()
    ensures ShownText([EndOfReasoning]) == "\n"
  {
    assert [EndOfReasoning][1..] == [];
  }

  /** No display call shows the banner. */
  predicate NoBanner(evs: seq<Shown>) {
    forall k :: 0 <= k < |evs| ==> evs[k] != Banner
  }

  lemma NoBannerAppend(a: seq<Shown>, b: seq<Shown>)
    requires NoBanner(a) && NoBanner(b)
    ensures NoBanner(a + b)
  {
    forall k | 0 <= k < |a + b| ensures (a + b)[k] != Banner {
      if k >= |a| {
        assert (a + b)[k] == b[k - |a|];
      }
    }
  }

  /** A chunk shows no banner of its own once the reply has started. */
  lemma ChunkBodyNoBanner(d: Delta, r: Region, finished: bool)
    ensures NoBanner(ChunkBody(d, r, finished))
  {
    NoBannerAppend(ReasonShown(d, r), ContentShown(d, AfterReasoning(d, r), finished));
  }

  /** Once started, the chunks never show the banner again. */
  lemma {:induction false} RenderNoBanner(ds: seq<Delta>, r: Region, finished: bool)
    ensures NoBanner(Render(ds, true, r, finished))
    decreases |ds|
  {
    if ds != [] {
      var d := ds[0];
      RenderNoBanner(ds[1..], AfterChunk(d, r), finished || Truthy(d.content));
      ChunkBodyNoBanner(d, r, finished);
      NoBannerAppend(ChunkBody(d, r, finished), Render(ds[1..], true, AfterChunk(d, r), finished || Truthy(d.content)));
    }
  }

  /** A reply that shows any chunk starts with the banner and never shows it again. */
  lemma RenderBannerFirst(ds: seq<Delta>)
    requires ds != []
    ensures Render(ds, false, None, false) != [] && Render(ds, false, None, false)[0] == Banner
    ensures NoBanner(Render(ds, false, None, false)[1..])
  {
    var d := ds[0];
    var b := ChunkBody(d, None, false);
    var tail := Render(ds[1..], true, AfterChunk(d, None), Truthy(d.content));
    AppendAssoc([Banner], b, tail);
    ChunkBodyNoBanner(d, None, false);
    RenderNoBanner(ds[1..], AfterChunk(d, None), Truthy(d.content));
    NoBannerAppend(b, tail);
    assert ([Banner] + (b + tail))[1..] == b + tail;
  }

  /**
   * The banner is shown exactly when some chunk decodes, and then only once,
   * before anything else.
   */
  lemma BannerOnce(lines: seq<string>, decode: string -> Option<Delta>)
    ensures Transcript(lines, decode)[0] == Banner <==> Received(lines, decode) != []
    ensures NoBanner(Transcript(lines, decode)[1..])
  {
    var ds := Received(lines, decode);
    var rendered := Render(ds, false, None, false);
    if ds == [] {
      assert Transcript(lines, decode) == [EndOfReply];
    } else {
      RenderBannerFirst(ds);
      NoBannerAppend(rendered[1..], [EndOfReply]);
      assert (rendered + [EndOfReply])[1..] == rendered[1..] + [EndOfReply];
    }
  }

  // ---------------------------------------------------------------------
  // The server's framing
  // ---------------------------------------------------------------------

  /** The lines of one event the server sends: `data: <payload>` and a blank line. */
  function Frame(payload: string): seq<string> {
    ["data: " + payload, ""]
  }

  /** The lines of a whole streamed reply: one event per payload, then the `[DONE]` event. */
  function Frames(payloads: seq<string>): seq<string> {
    if payloads == [] then Frame("[DONE]") else Frame(payloads[0]) + Frames(payloads[1..])
  }

  /** The payloads that decode, decoded, in order. */
  function Decoded(payloads: seq<string>, decode: string -> Option<Delta>): seq<Delta> {
    if payloads == [] then []
    else (if decode(payloads[0]).Some? then [decode(payloads[0]).value] else []) + Decoded(payloads[1..], decode)
  }

  lemma DonePayload()
    ensures IsDone("[DONE]")
  {
    StripPadded("", "[DONE]", "");
    assert "" + "[DONE]" + "" == "[DONE]";
  }

  lemma PayloadOf(payload: string)
    ensures Payload("data: " + payload) == Some(payload)
  {
    var line := "data: " + payload;
    assert line[..6] == "data: " && line[6..] == payload;
  }

  /**
   * What the server sends is what the client reads: the framed payloads,
   * none of which is the sentinel, read back as the payloads that decode,
   * and whatever follows the `[DONE]` event is ignored.
   */
  lemma {:induction false} FramesRoundTrip(payloads: seq<string>, after: seq<string>, decode: string -> Option<Delta>)
    requires forall k :: 0 <= k < |payloads| ==> !IsDone(payloads[k])
    ensures Received(Frames(payloads) + after, decode) == Decoded(payloads, decode)
    decreases |payloads|
  {
    var blank: seq<string> := [""];
    if payloads == [] {
      DonePayload();
      PayloadOf("[DONE]");
      assert (Frame("[DONE]") + after)[0] == "data: [DONE]";
    } else {
      var p := payloads[0];
      var rest := Frames(payloads[1..]) + after;
      PayloadOf(p);
      assert Frames(payloads) + after == ["data: " + p] + (blank + rest);
      assert (["data: " + p] + (blank + rest))[1..] == blank + rest;
      assert (blank + rest)[1..] == rest;
      assert Payload("") == None;
      FramesRoundTrip(payloads[1..], after, decode);
    }
  }
}
