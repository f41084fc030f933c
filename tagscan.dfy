/**
 * The incremental tag scanner of the command-line client (`TagStreamer`).
 *
 * Each call to `Feed` splits one piece of streamed text into segments, each
 * labelled with the region in force (`python`, `output` or none), and removes
 * the recognised `<python>`, `</python>`, `<output>` and `</output>` markers.
 *
 * The scanner is specified by a reference lexer: `Tokens` cuts a string into
 * single characters and recognised tags, left to right, and `Group` collects
 * the characters between tags into labelled segments. `Feed` is proved to
 * return exactly `Group(Tokens(text), region, [])`.
 */
module TagScan {
  import opened Wrappers
  import opened Text

  /** The tag names the scanner recognises. */
  const Tags: set<string> := {"python", "output"}

  /** The region a piece of text belongs to: `None`, or the name of the open tag. */
  type Region = Option<string>

  /** The regions the scanner can be in: none, `python` or `output`. */
  predicate ValidRegion(r: Region) {
    r.None? || r.value in Tags
  }

  /** One emitted piece of text with the region it is shown in. */
  datatype Segment = Segment(text: string, region: Region)

  /** A lexical unit: a plain character, or a recognised tag with the text between its `<` and `>`. */
  datatype Token = Chr(c: char) | Tag(body: string, name: string, closing: bool)

  // ---------------------------------------------------------------------
  // Recognising a tag
  // ---------------------------------------------------------------------

  /** The normalisation applied to the text between `<` and `>`: strip, lower-case, drop leading `/`. */
  function TagName(body: string): string {
    LStripChar(Lower(Strip(body)), '/')
  }

  /** `s.find(c, from)`, with `None` standing for Python's `-1`. */
  function FindFrom(s: string, c: char, from: nat): (r: Option<nat>)
    decreases |s| - from
    ensures r.Some? ==> from <= r.value < |s| && s[r.value] == c
    ensures r.Some? ==> forall k :: from <= k < r.value ==> s[k] != c
    ensures r.None? ==> forall k :: from <= k < |s| ==> s[k] != c
  {
    if from >= |s| then None
    else if s[from] == c then Some(from)
    else FindFrom(s, c, from + 1)
  }

  /** `find` returns the first occurrence at or after `from`. */
  lemma {:induction false} FindFromFirst(s: string, c: char, from: nat, j: nat)
    requires from <= j < |s| && s[j] == c
    requires forall k :: from <= k < j ==> s[k] != c
    ensures FindFrom(s, c, from) == Some(j)
    decreases j - from
  {
    if from < j {
      FindFromFirst(s, c, from + 1, j);
    }
  }

  /**
   * `s[..j + 1]` is a recognised tag: a `<`, a body containing no `>`, the
   * first `>` after the `<` at index `j`, and a body whose normalised name is
   * a tag name.
   */
  predicate TagPrefix(s: string, j: nat) {
    && 1 <= j < |s|
    && s[0] == '<'
    && s[j] == '>'
    && (forall k :: 1 <= k < j ==> s[k] != '>')
    && TagName(s[1..j]) in Tags
  }

  /** A string starts with at most one recognised tag. */
  lemma TagPrefixUnique(s: string, i: nat, j: nat)
    requires TagPrefix(s, i) && TagPrefix(s, j)
    ensures i == j
  {
  }

  /** The index of the `>` ending the recognised tag at the start of `s`, if there is one. */
  function TagAt(s: string): (r: Option<nat>)
    ensures r.Some? ==> TagPrefix(s, r.value)
    ensures r.None? ==> forall j :: !TagPrefix(s, j)
  {
    if |s| > 0 && s[0] == '<' then
      match FindFrom(s, '>', 1)
      case None => None
      case Some(j) => if TagName(s[1..j]) in Tags then Some(j) else None
    else None
  }

  /** A `<` whose first following `>` encloses a body that is not a tag name starts no tag. */
  lemma NotATag(s: string, j: nat)
    requires 1 <= j < |s| && s[0] == '<' && s[j] == '>'
    requires forall k :: 1 <= k < j ==> s[k] != '>'
    requires TagName(s[1..j]) !in Tags
    ensures TagAt(s).None?
  {
    FindFromFirst(s, '>', 1, j);
  }

  // ---------------------------------------------------------------------
  // The reference lexer
  // ---------------------------------------------------------------------

  /** The text a token stands for. */
  function TokenText(t: Token): string {
    match t
    case Chr(c) => [c]
    case Tag(body, _, _) => ['<'] + body + ['>']
  }

  /** The text a token sequence stands for. */
  function Raw(ts: seq<Token>): string {
    if ts == [] then [] else TokenText(ts[0]) + Raw(ts[1..])
  }

  /** The plain characters of a token sequence, tags removed. */
  function Plain(ts: seq<Token>): string {
    if ts == [] then []
    else (if ts[0].Chr? then [ts[0].c] else []) + Plain(ts[1..])
  }

  /** Cuts `s` into characters and recognised tags, left to right. */
  function Tokens(s: string): seq<Token>
    decreases |s|
  {
    if s == [] then []
    else match TagAt(s)
      case Some(j) => [Tag(s[1..j], TagName(s[1..j]), s[1] == '/')] + Tokens(s[j + 1..])
      case None => [Chr(s[0])] + Tokens(s[1..])
  }

  lemma TokensAtTag(s: string)
    requires TagAt(s).Some?
    ensures var j := TagAt(s).value;
      Tokens(s) == [Tag(s[1..j], TagName(s[1..j]), s[1] == '/')] + Tokens(s[j + 1..])
  {
  }

  lemma TokensAtChr(s: string)
    requires s != [] && TagAt(s).None?
    ensures Tokens(s) == [Chr(s[0])] + Tokens(s[1..])
  {
  }

  lemma RawCons(t: Token, ts: seq<Token>)
    ensures Raw([t] + ts) == TokenText(t) + Raw(ts)
  {
    assert ([t] + ts)[1..] == ts;
  }

  lemma PlainCons(t: Token, ts: seq<Token>)
    ensures Plain([t] + ts) == (if t.Chr? then [t.c] else []) + Plain(ts)
  {
    assert ([t] + ts)[1..] == ts;
  }

  /**
   * Token `t` is the right reading of the text `rest` that starts with it: a
   * character only where no recognised tag starts, a tag exactly where one does.
   */
  ghost predicate LexesAs(t: Token, rest: string) {
    match t
    case Chr(c) => forall j :: !TagPrefix(rest, j)
    case Tag(body, name, closing) =>
      var j := |body| + 1;
      && TagPrefix(rest, j)
      && body == rest[1..j]
      && name == TagName(body)
      && closing == (rest[1] == '/')
  }

  /** Every token of `ts` is the right reading of the text from it onwards. */
  ghost predicate WellLexed(ts: seq<Token>) {
    forall k :: 0 <= k < |ts| ==> LexesAs(ts[k], Raw(ts[k..]))
  }

  /** Lexing loses and duplicates nothing: the tokens spell the input. */
  lemma {:induction false} TokensReassemble(s: string)
    ensures Raw(Tokens(s)) == s
    decreases |s|
  {
    if s != [] {
      if TagAt(s).Some? {
        var j := TagAt(s).value;
        TokensAtTag(s);
        TokensReassemble(s[j + 1..]);
        RawTagStep(s, j, Tag(s[1..j], TagName(s[1..j]), s[1] == '/'), Tokens(s[j + 1..]));
      } else {
        TokensAtChr(s);
        TokensReassemble(s[1..]);
        RawChrStep(s, Tokens(s[1..]));
      }
    }
  }

  lemma RawTagStep(s: string, j: nat, t: Token, rest: seq<Token>)
    requires 1 <= j < |s| && s[0] == '<' && s[j] == '>'
    requires t.Tag? && t.body == s[1..j] && Raw(rest) == s[j + 1..]
    ensures Raw([t] + rest) == s
  {
    RawCons(t, rest);
    Bracketed(s, j);
  }

  lemma Bracketed(s: string, j: nat)
    requires 1 <= j < |s| && s[0] == '<' && s[j] == '>'
    ensures ['<'] + s[1..j] + ['>'] + s[j + 1..] == s
  {
    assert ['<'] + s[1..j] + ['>'] == s[..j + 1];
    assert s[..j + 1] + s[j + 1..] == s;
  }

  lemma RawChrStep(s: string, rest: seq<Token>)
    requires s != [] && Raw(rest) == s[1..]
    ensures Raw([Chr(s[0])] + rest) == s
  {
    RawCons(Chr(s[0]), rest);
    assert s == [s[0]] + s[1..];
  }

  /** Prepending one token keeps the readings of the later ones. */
  lemma WellLexedCons(t: Token, ts: seq<Token>)
    requires WellLexed(ts) && LexesAs(t, Raw([t] + ts))
    ensures WellLexed([t] + ts)
  {
    var us := [t] + ts;
    assert us[0..] == us;
    forall k | 0 < k < |us|
      ensures LexesAs(us[k], Raw(us[k..]))
    {
      assert us[k] == ts[k - 1] && us[k..] == ts[k - 1..];
    }
  }

  /** Lexing reads every position correctly. */
  lemma {:induction false} TokensWellLexed(s: string)
    ensures WellLexed(Tokens(s))
    decreases |s|
  {
    if s != [] {
      TokensReassemble(s);
      if TagAt(s).Some? {
        var j := TagAt(s).value;
        TokensAtTag(s);
        TokensWellLexed(s[j + 1..]);
        WellLexedCons(Tag(s[1..j], TagName(s[1..j]), s[1] == '/'), Tokens(s[j + 1..]));
      } else {
        TokensAtChr(s);
        TokensWellLexed(s[1..]);
        WellLexedCons(Chr(s[0]), Tokens(s[1..]));
      }
    }
  }

  /**
   * `Tokens` is the only correct reading: any token sequence that spells `s`
   * and reads every position correctly is `Tokens(s)`.
   */
  lemma {:induction false} TokensUnique(s: string, ts: seq<Token>)
    requires Raw(ts) == s && WellLexed(ts)
    ensures ts == Tokens(s)
    decreases |ts|
  {
    if ts != [] {
      var tail := ts[1..];
      assert ts == [ts[0]] + tail;
      assert ts[0..] == ts;
      assert LexesAs(ts[0], s);
      RawCons(ts[0], tail);
      assert WellLexed(tail) by {
        forall k | 0 <= k < |tail|
          ensures LexesAs(tail[k], Raw(tail[k..]))
        {
          assert ts[k + 1] == tail[k] && ts[k + 1..] == tail[k..];
        }
      }
      match ts[0]
      case Chr(c) =>
        assert TagAt(s).None?;
        TokensAtChr(s);
        assert s[1..] == Raw(tail);
        TokensUnique(s[1..], tail);
      case Tag(body, name, closing) =>
        var j := TagAt(s).value;
        TagPrefixUnique(s, j, |body| + 1);
        TokensAtTag(s);
        assert s == ['<'] + body + ['>'] + Raw(tail);
        assert s[j + 1..] == Raw(tail);
        TokensUnique(s[j + 1..], tail);
    }
  }

  /** The tags of a token sequence carry one of the recognised names. */
  predicate TagNamesValid(ts: seq<Token>) {
    forall k :: 0 <= k < |ts| && ts[k].Tag? ==> ts[k].name in Tags
  }

  /** Every tag `Tokens` produces is named `python` or `output`. */
  lemma {:induction false} TokensNamesValid(s: string)
    ensures TagNamesValid(Tokens(s))
    decreases |s|
  {
    if s != [] {
      if TagAt(s).Some? {
        var j := TagAt(s).value;
        TokensAtTag(s);
        TokensNamesValid(s[j + 1..]);
      } else {
        TokensAtChr(s);
        TokensNamesValid(s[1..]);
      }
    }
  }

  /** All tokens are plain characters. */
  predicate AllChr(ts: seq<Token>) {
    forall k :: 0 <= k < |ts| ==> ts[k].Chr?
  }

  /**
   * A text that lacks one of the brackets contains no tag: it lexes as plain
   * characters. Without `>`, an unclosed `<` ends tag scanning.
   */
  lemma {:induction false} NoBracketIsPlain(s: string, c: char)
    requires c == '<' || c == '>'
    requires forall k :: 0 <= k < |s| ==> s[k] != c
    ensures AllChr(Tokens(s)) && Plain(Tokens(s)) == s
    decreases |s|
  {
    if s != [] {
      assert TagAt(s).None?;
      TokensAtChr(s);
      NoBracketIsPlain(s[1..], c);
      PlainCons(Chr(s[0]), Tokens(s[1..]));
      assert s == [s[0]] + s[1..];
    }
  }

  // ---------------------------------------------------------------------
  // Names that count as tags
  // ---------------------------------------------------------------------

  /**
   * A body made of whitespace, any number of `/`, a tag name in any ASCII
   * case, and whitespace normalises to that tag name.
   */
  lemma TagNameOf(pre: string, slashes: nat, word: string, post: string)
    requires AllSpace(pre) && AllSpace(post)
    requires Lower(word) in Tags
    ensures TagName(pre + Repeat('/', slashes) + word + post) == Lower(word)
  {
    var core := Repeat('/', slashes) + word;
    var w := Lower(word);
    assert |w| == |word| == 6;
    assert w[0] == LowerChar(word[0]) && w[5] == LowerChar(word[5]);
    assert w[0] in {'p', 'o'} && w[5] in {'n', 't'};
    assert !IsSpace(word[5]);
    assert !IsSpace(core[|core| - 1]) by {
      assert core[|core| - 1] == word[5];
    }
    assert !IsSpace(core[0]) by {
      if slashes == 0 {
        assert core[0] == word[0];
        assert !IsSpace(word[0]);
      } else {
        assert core[0] == '/';
      }
    }
    assert pre + Repeat('/', slashes) + word + post == pre + core + post;
    StripPadded(pre, core, post);
    LowerAppend(Repeat('/', slashes), word);
    LowerSlashes(slashes);
    assert w[0] != '/';
    LStripCharRun('/', slashes, w);
  }

  /** The recognised tag at the start of `s`, given the index of its `>`. */
  lemma TagAtIs(s: string, j: nat)
    requires TagPrefix(s, j)
    ensures TagAt(s) == Some(j)
  {
    TagPrefixUnique(s, j, TagAt(s).value);
  }

  /** A text that is exactly one recognised tag lexes as that tag alone. */
  lemma SingleTag(body: string)
    requires forall k :: 0 <= k < |body| ==> body[k] != '>'
    requires TagName(body) in Tags
    ensures Tokens(['<'] + body + ['>']) == [Tag(body, TagName(body), body != [] && body[0] == '/')]
  {
    var s := ['<'] + body + ['>'];
    SingleTagAt(body);
    TokensAtTag(s);
    assert s[|body| + 2..] == [];
    assert s[1..|body| + 1] == body;
  }

  lemma SingleTagAt(body: string)
    requires forall k :: 0 <= k < |body| ==> body[k] != '>'
    requires TagName(body) in Tags
    ensures TagAt(['<'] + body + ['>']) == Some(|body| + 1)
  {
    var s := ['<'] + body + ['>'];
    assert s[1..|body| + 1] == body;
    TagAtIs(s, |body| + 1);
  }

  /**
   * A `<` whose first `>` encloses anything but a tag name, followed by text
   * with no further `<`, is passed through as plain characters.
   */
  lemma UnknownTagIsPlain(body: string, post: string)
    requires forall k :: 0 <= k < |body| ==> body[k] != '>' && body[k] != '<'
    requires forall k :: 0 <= k < |post| ==> post[k] != '<'
    requires TagName(body) !in Tags
    ensures var s := ['<'] + body + ['>'] + post;
      AllChr(Tokens(s)) && Plain(Tokens(s)) == s
  {
    var s := ['<'] + body + ['>'] + post;
    var j := |body| + 1;
    assert s[1..j] == body;
    NotATag(s, j);
    TokensAtChr(s);
    NoBracketIsPlain(s[1..], '<');
    PlainCons(Chr('<'), Tokens(s[1..]));
    assert AllChr(Tokens(s)) by {
      forall k | 0 <= k < |Tokens(s)| ensures Tokens(s)[k].Chr? {
        if k > 0 {
          assert Tokens(s)[k] == Tokens(s[1..])[k - 1];
        }
      }
    }
    assert s == ['<'] + s[1..];
  }

  /**
   * Brackets around an unknown name pass through as text wherever they
   * stand, as in `a < b > c`.
   */
  lemma UnknownTagInText(pre: string, body: string, post: string)
    requires forall k :: 0 <= k < |pre| ==> pre[k] != '<'
    requires forall k :: 0 <= k < |body| ==> body[k] != '>' && body[k] != '<'
    requires forall k :: 0 <= k < |post| ==> post[k] != '<'
    requires TagName(body) !in Tags
    ensures var s := pre + ['<'] + body + ['>'] + post;
      AllChr(Tokens(s)) && Plain(Tokens(s)) == s
  {
    BracketedIn(pre, body, post);
    UnknownTagIsPlain(body, post);
    PlainPrefix(pre, ['<'] + body + ['>'] + post);
  }

  lemma BracketedIn(pre: string, body: string, post: string)
    ensures pre + ['<'] + body + ['>'] + post == pre + (['<'] + body + ['>'] + post)
  {
  }

  /** Text without `<` in front of a string lexes as its own characters. */
  lemma {:induction false} PlainPrefix(pre: string, s: string)
    requires forall k :: 0 <= k < |pre| ==> pre[k] != '<'
    requires AllChr(Tokens(s))
    ensures AllChr(Tokens(pre + s)) && Plain(Tokens(pre + s)) == pre + Plain(Tokens(s))
    decreases |pre|
  {
    if pre == [] {
      assert pre + s == s;
    } else {
      var u := pre + s;
      assert u[1..] == pre[1..] + s;
      assert TagAt(u).None?;
      TokensAtChr(u);
      PlainPrefix(pre[1..], s);
      PlainCons(Chr(u[0]), Tokens(u[1..]));
      assert AllChr(Tokens(u)) by {
        forall k | 0 <= k < |Tokens(u)| ensures Tokens(u)[k].Chr? {
          if k > 0 {
            assert Tokens(u)[k] == Tokens(u[1..])[k - 1];
          }
        }
      }
      assert pre == [pre[0]] + pre[1..];
    }
  }

  lemma NameUpperOutput()
    ensures TagName("/OUTPUT") == "output"
  {
    assert Lower("OUTPUT") == "output";
    TagNameOf("", 1, "OUTPUT", "");
    assert "" + Repeat('/', 1) + "OUTPUT" + "" == "/OUTPUT";
  }

  /** A tag is found in any letter case; it is closing when `/` comes right after `<`. */
  lemma ClosingTagExample()
    ensures Tokens("</OUTPUT>") == [Tag("/OUTPUT", "output", true)]
  {
    NameUpperOutput();
    SingleTag("/OUTPUT");
    assert ['<'] + "/OUTPUT" + ['>'] == "</OUTPUT>";
  }

  // ---------------------------------------------------------------------
  // Segments
  // ---------------------------------------------------------------------

  /** Emits the pending text as one segment unless it is empty. */
  function Flush(pending: string, r: Region): seq<Segment> {
    if pending == [] then [] else [Segment(pending, r)]
  }

  /** The region after a token: an opening tag opens its region, a closing tag closes whatever is open. */
  function After(t: Token, r: Region): Region {
    match t
    case Chr(_) => r
    case Tag(_, name, closing) => if closing then None else Some(name)
  }

  /** The region after a whole token sequence. */
  function FinalRegion(ts: seq<Token>, r: Region): Region
    decreases |ts|
  {
    if ts == [] then r else FinalRegion(ts[1..], After(ts[0], r))
  }

  /**
   * The segments for `ts` when the text `pending` has been read in region `r`
   * and not yet emitted: the runs of characters between tags, each in the
   * region in force before the tag that ends it.
   */
  function Group(ts: seq<Token>, r: Region, pending: string): seq<Segment>
    decreases |ts|
  {
    if ts == [] then Flush(pending, r)
    else match ts[0]
      case Chr(c) => Group(ts[1..], r, pending + [c])
      case Tag(_, _, _) => Flush(pending, r) + Group(ts[1..], After(ts[0], r), [])
  }

  /** The characters after the last tag (preceded by `pending` when there is no tag). */
  function TrailingText(ts: seq<Token>, pending: string): string
    decreases |ts|
  {
    if ts == [] then pending
    else match ts[0]
      case Chr(c) => TrailingText(ts[1..], pending + [c])
      case Tag(_, _, _) => TrailingText(ts[1..], [])
  }

  /** Unfolding the three folds over a sequence that starts with a character. */
  lemma FoldsAtChr(c: char, ts: seq<Token>, r: Region, pending: string)
    ensures Group([Chr(c)] + ts, r, pending) == Group(ts, r, pending + [c])
    ensures FinalRegion([Chr(c)] + ts, r) == FinalRegion(ts, r)
    ensures TrailingText([Chr(c)] + ts, pending) == TrailingText(ts, pending + [c])
  {
    assert ([Chr(c)] + ts)[1..] == ts;
  }

  /** Unfolding the three folds over a sequence that starts with a tag. */
  lemma FoldsAtTag(t: Token, ts: seq<Token>, r: Region, pending: string)
    requires t.Tag?
    ensures Group([t] + ts, r, pending) == Flush(pending, r) + Group(ts, After(t, r), [])
    ensures FinalRegion([t] + ts, r) == FinalRegion(ts, After(t, r))
    ensures TrailingText([t] + ts, pending) == TrailingText(ts, [])
  {
    assert ([t] + ts)[1..] == ts;
  }

  /** The text of a list of segments. */
  function Texts(segs: seq<Segment>): string {
    if segs == [] then [] else segs[0].text + Texts(segs[1..])
  }

  /** Each character of `s` paired with region `r`. */
  function InRegion(s: string, r: Region): seq<(char, Region)> {
    seq(|s|, k requires 0 <= k < |s| => (s[k], r))
  }

  /** Each character of the segments, paired with its segment's region. */
  function Labelled(segs: seq<Segment>): seq<(char, Region)> {
    if segs == [] then [] else InRegion(segs[0].text, segs[0].region) + Labelled(segs[1..])
  }

  /** Each plain character of `ts`, paired with the region in force where it stands. */
  function Labels(ts: seq<Token>, r: Region): seq<(char, Region)>
    decreases |ts|
  {
    if ts == [] then []
    else match ts[0]
      case Chr(c) => [(c, r)] + Labels(ts[1..], r)
      case Tag(_, _, _) => Labels(ts[1..], After(ts[0], r))
  }

  lemma {:induction false} TextsAppend(a: seq<Segment>, b: seq<Segment>)
    ensures Texts(a + b) == Texts(a) + Texts(b)
  {
    if a == [] {
      assert a + b == b;
    } else {
      assert (a + b)[1..] == a[1..] + b;
      TextsAppend(a[1..], b);
    }
  }

  lemma {:induction false} LabelledAppend(a: seq<Segment>, b: seq<Segment>)
    ensures Labelled(a + b) == Labelled(a) + Labelled(b)
  {
    if a == [] {
      assert a + b == b;
    } else {
      assert (a + b)[1..] == a[1..] + b;
      LabelledAppend(a[1..], b);
    }
  }

  /** No segment is empty. */
  lemma {:induction false} GroupNonEmpty(ts: seq<Token>, r: Region, pending: string)
    ensures forall k :: 0 <= k < |Group(ts, r, pending)| ==> Group(ts, r, pending)[k].text != []
    decreases |ts|
  {
    if ts != [] {
      match ts[0]
      case Chr(c) => GroupNonEmpty(ts[1..], r, pending + [c]);
      case Tag(_, _, _) => GroupNonEmpty(ts[1..], After(ts[0], r), []);
    }
  }

  /** The segments spell the pending text followed by the plain characters: tags removed, nothing else. */
  lemma {:induction false} GroupText(ts: seq<Token>, r: Region, pending: string)
    ensures Texts(Group(ts, r, pending)) == pending + Plain(ts)
    decreases |ts|
  {
    if ts != [] {
      match ts[0]
      case Chr(c) =>
        GroupText(ts[1..], r, pending + [c]);
        assert pending + [c] + Plain(ts[1..]) == pending + Plain(ts);
      case Tag(_, _, _) =>
        GroupText(ts[1..], After(ts[0], r), []);
        TextsAppend(Flush(pending, r), Group(ts[1..], After(ts[0], r), []));
    }
  }

  /** Every character lands in a segment labelled with the region in force where it stands. */
  lemma {:induction false} GroupLabels(ts: seq<Token>, r: Region, pending: string)
    ensures Labelled(Group(ts, r, pending)) == InRegion(pending, r) + Labels(ts, r)
    decreases |ts|
  {
    if ts == [] {
      FlushLabels(pending, r);
      assert InRegion(pending, r) + [] == InRegion(pending, r);
    } else {
      match ts[0]
      case Chr(c) =>
        GroupLabels(ts[1..], r, pending + [c]);
        InRegionSnoc(pending, c, r);
        AppendAssoc(InRegion(pending, r), [(c, r)], Labels(ts[1..], r));
      case Tag(_, _, _) =>
        var r' := After(ts[0], r);
        GroupLabels(ts[1..], r', []);
        LabelledAppend(Flush(pending, r), Group(ts[1..], r', []));
        FlushLabels(pending, r);
        assert InRegion([], r') == [];
        assert [] + Labels(ts[1..], r') == Labels(ts[1..], r');
    }
  }

  lemma FlushLabels(pending: string, r: Region)
    ensures Labelled(Flush(pending, r)) == InRegion(pending, r)
  {
    if pending != [] {
      assert [Segment(pending, r)][1..] == [];
      assert InRegion(pending, r) + [] == InRegion(pending, r);
    }
  }

  lemma InRegionSnoc(pending: string, c: char, r: Region)
    ensures InRegion(pending + [c], r) == InRegion(pending, r) + [(c, r)]
  {
  }

  lemma {:induction false} FinalRegionAppend(a: seq<Token>, b: seq<Token>, r: Region)
    ensures FinalRegion(a + b, r) == FinalRegion(b, FinalRegion(a, r))
    decreases |a|
  {
    if a == [] {
      assert a + b == b;
    } else {
      assert (a + b)[1..] == a[1..] + b;
      FinalRegionAppend(a[1..], b, After(a[0], r));
    }
  }

  /**
   * A tag always ends a segment: the text before it is grouped in the region
   * in force before the tag, and the text after it starts afresh in the
   * region the tag sets.
   */
  lemma {:induction false} GroupSplitAtTag(a: seq<Token>, t: Token, b: seq<Token>, r: Region, pending: string)
    requires t.Tag?
    ensures Group(a + [t] + b, r, pending) == Group(a, r, pending) + Group(b, After(t, FinalRegion(a, r)), [])
    decreases |a|
  {
    if a == [] {
      assert a + [t] + b == [t] + b;
      FoldsAtTag(t, b, r, pending);
    } else {
      assert a + [t] + b == [a[0]] + (a[1..] + [t] + b);
      match a[0]
      case Chr(c) =>
        FoldsAtChr(c, a[1..] + [t] + b, r, pending);
        GroupSplitAtTag(a[1..], t, b, r, pending + [c]);
      case Tag(_, _, _) =>
        FoldsAtTag(a[0], a[1..] + [t] + b, r, pending);
        GroupSplitAtTag(a[1..], t, b, After(a[0], r), []);
    }
  }

  /** The last tag of a token sequence, if any. */
  function LastTag(ts: seq<Token>): (t: Option<Token>)
    ensures t.Some? ==> t.value.Tag?
    decreases |ts|
  {
    if ts == [] then None
    else if ts[|ts| - 1].Tag? then Some(ts[|ts| - 1])
    else LastTag(ts[..|ts| - 1])
  }

  /**
   * The final region is decided by the last tag alone: the region it opens,
   * or none if it is a closing tag, whatever was open; without a tag the
   * region is unchanged.
   */
  lemma {:induction false} FinalRegionByLastTag(ts: seq<Token>, r: Region)
    ensures FinalRegion(ts, r) == match LastTag(ts)
      case None => r
      case Some(t) => if t.closing then None else Some(t.name)
    decreases |ts|
  {
    if ts != [] {
      var init, last := ts[..|ts| - 1], ts[|ts| - 1];
      assert ts == init + [last];
      FinalRegionAppend(init, [last], r);
      FinalRegionByLastTag(init, r);
      assert [last][1..] == [];
    }
  }

  /** The text after the last tag is the last segment, in the final region. */
  lemma {:induction false} TrailingSegment(ts: seq<Token>, r: Region, pending: string)
    requires TrailingText(ts, pending) != []
    ensures |Group(ts, r, pending)| > 0
    ensures Group(ts, r, pending)[|Group(ts, r, pending)| - 1] == Segment(TrailingText(ts, pending), FinalRegion(ts, r))
    decreases |ts|
  {
    if ts != [] {
      match ts[0]
      case Chr(c) =>
        TrailingSegment(ts[1..], r, pending + [c]);
      case Tag(_, _, _) =>
        TrailingSegment(ts[1..], After(ts[0], r), []);
    }
  }

  /** Starting from a valid region, only valid regions are ever in force. */
  lemma {:induction false} RegionsValid(ts: seq<Token>, r: Region, pending: string)
    requires TagNamesValid(ts) && ValidRegion(r)
    ensures ValidRegion(FinalRegion(ts, r))
    ensures forall k :: 0 <= k < |Group(ts, r, pending)| ==> ValidRegion(Group(ts, r, pending)[k].region)
    decreases |ts|
  {
    if ts != [] {
      assert ts[0].Tag? ==> ts[0].name in Tags;
      assert TagNamesValid(ts[1..]) by {
        forall k | 0 <= k < |ts[1..]| && ts[1..][k].Tag?
          ensures ts[1..][k].name in Tags
        {
          assert ts[1..][k] == ts[k + 1];
        }
      }
      match ts[0]
      case Chr(c) =>
        RegionsValid(ts[1..], r, pending + [c]);
      case Tag(_, _, _) =>
        RegionsValid(ts[1..], After(ts[0], r), []);
    }
  }

  /** Only characters: one segment holding the pending text and all of them, in the same region. */
  lemma {:induction false} GroupPlain(ts: seq<Token>, r: Region, pending: string)
    requires AllChr(ts)
    ensures Group(ts, r, pending) == Flush(pending + Plain(ts), r)
    ensures FinalRegion(ts, r) == r
    ensures TrailingText(ts, pending) == pending + Plain(ts)
    decreases |ts|
  {
    if ts != [] {
      var c := ts[0].c;
      assert ts == [Chr(c)] + ts[1..];
      assert AllChr(ts[1..]) by {
        forall k | 0 <= k < |ts[1..]| ensures ts[1..][k].Chr? {
          assert ts[1..][k] == ts[k + 1];
        }
      }
      GroupPlain(ts[1..], r, pending + [c]);
      FoldsAtChr(c, ts[1..], r, pending);
      PlainCons(Chr(c), ts[1..]);
      assert pending + [c] + Plain(ts[1..]) == pending + Plain(ts);
    } else {
      assert pending + Plain(ts) == pending;
    }
  }

  // ---------------------------------------------------------------------
  // The streamer object
  // ---------------------------------------------------------------------

  /** The scanner object: `buf` holds the pieces kept between feeds, `active` the open region. */
  class TagStreamer {
    var buf: seq<string>
    var active: Region

    /** The buffer holds no text and the region is none, `python` or `output`. */
    ghost predicate Valid()
      reads this
    {
      Join(buf) == [] && ValidRegion(active)
    }

    constructor ()
      ensures Valid()
      ensures buf == [] && active == None
    {
      buf := [];
      active := None;
    }

    /**
     * Scans `text` and returns its segments. Every tag is complete within
     * `text`: the buffer is left empty (`[]`, or `[""]` when the text ends
     * with a tag or is empty), so a tag split over two feeds is never recognised.
     */
    method Feed(text: string) returns (out: seq<Segment>)
      requires Valid()
      modifies this
      ensures Valid()
      ensures out == Group(Tokens(text), old(active), [])
      ensures active == FinalRegion(Tokens(text), old(active))
      ensures buf == if TrailingText(Tokens(text), []) == [] then [""] else []
    {
      ghost var a0 := active;
      JoinAppend(buf, [text]);
      assert Join([text]) == text;
      buf := buf + [text];
      var data := Join(buf);
      ScanStart(text, a0);
      out := [];
      var i := 0;
      while i < |data|
        invariant i <= |data|
        invariant Scanned(text, a0, out, data, i, active)
        decreases |data| - i
      {
        if data[i] == '<' {
          var j := FindFrom(data, '>', i + 1);
          if j.None? {
            ScanUnclosed(text, a0, out, data, i, active);
            break;
          }
          var tag := TagName(data[i + 1..j.value]);
          var closing := data[i + 1] == '/';
          if tag in Tags {
            ghost var out0, data0, i0, active0 := out, data, i, active;
            if i > 0 {
              out := out + [Segment(data[..i], active)];
            }
            active := if closing then None else Some(tag);
            data := data[j.value + 1..];
            i := 0;
            ScanTag(text, a0, out0, data0, i0, j.value, active0, out);
            continue;
          }
          ScanNotTag(text, a0, out, data, i, j.value, active);
        } else {
          ScanChr(text, a0, out, data, i, active);
        }
        i := i + 1;
      }
      ScanEnd(text, a0, out, data, |data|, active);
      if data != [] {
        out := out + [Segment(data, active)];
        buf := [];
      } else {
        buf := [data];
      }
    }
  }

  /**
   * The loop invariant of `Feed`: `out` followed by the segments of the
   * unscanned `data[i..]`, with `data[..i]` pending in region `r`, is the
   * whole answer for `text` from region `a0`.
   */
  ghost predicate Scanned(text: string, a0: Region, out: seq<Segment>, data: string, i: nat, r: Region) {
    && i <= |data|
    && Group(Tokens(text), a0, []) == out + Group(Tokens(data[i..]), r, data[..i])
    && FinalRegion(Tokens(text), a0) == FinalRegion(Tokens(data[i..]), r)
    && TrailingText(Tokens(text), []) == TrailingText(Tokens(data[i..]), data[..i])
    && ValidRegion(FinalRegion(Tokens(text), a0))
  }

  /** Entry to the loop of `Feed`. */
  lemma ScanStart(text: string, a0: Region)
    requires ValidRegion(a0)
    ensures Scanned(text, a0, [], text, 0, a0)
  {
    assert text[0..] == text && text[..0] == [];
    TokensNamesValid(text);
    RegionsValid(Tokens(text), a0, []);
  }

  /** Loop step of `Feed` at a recognised tag: emit the text before it, switch region, continue after the `>`. */
  lemma ScanTag(text: string, a0: Region, out: seq<Segment>, data: string, i: nat, j: nat, r: Region, out': seq<Segment>)
    requires Scanned(text, a0, out, data, i, r)
    requires i < j < |data| && data[i] == '<' && data[j] == '>'
    requires forall k :: i + 1 <= k < j ==> data[k] != '>'
    requires TagName(data[i + 1..j]) in Tags
    requires out' == if i > 0 then out + [Segment(data[..i], r)] else out
    ensures Scanned(text, a0, out', data[j + 1..], 0, if data[i + 1] == '/' then None else Some(TagName(data[i + 1..j])))
  {
    var t := Tag(data[i + 1..j], TagName(data[i + 1..j]), data[i + 1] == '/');
    var rest := data[j + 1..];
    FoldsOverTag(data, i, j, r);
    assert rest[0..] == rest && rest[..0] == [];
    assert i == 0 ==> data[..i] == [];
    var emitted := if i > 0 then [Segment(data[..i], r)] else [];
    assert Flush(data[..i], r) == emitted;
    assert out' == out + emitted;
    AppendAssoc(out, emitted, Group(Tokens(rest), After(t, r), []));
  }

  lemma AppendAssoc<T>(a: seq<T>, b: seq<T>, c: seq<T>)
    ensures a + (b + c) == a + b + c
  {
  }

  /** The three folds step over a recognised tag. */
  lemma FoldsOverTag(data: string, i: nat, j: nat, r: Region)
    requires i < j < |data| && data[i] == '<' && data[j] == '>'
    requires forall k :: i + 1 <= k < j ==> data[k] != '>'
    requires TagName(data[i + 1..j]) in Tags
    ensures var t := Tag(data[i + 1..j], TagName(data[i + 1..j]), data[i + 1] == '/');
      && Group(Tokens(data[i..]), r, data[..i]) == Flush(data[..i], r) + Group(Tokens(data[j + 1..]), After(t, r), [])
      && FinalRegion(Tokens(data[i..]), r) == FinalRegion(Tokens(data[j + 1..]), After(t, r))
      && TrailingText(Tokens(data[i..]), data[..i]) == TrailingText(Tokens(data[j + 1..]), [])
  {
    var s := data[i..];
    var k := j - i;
    assert s[1..k] == data[i + 1..j];
    assert TagPrefix(s, k);
    TagAtIs(s, k);
    TokensAtTag(s);
    assert s[k + 1..] == data[j + 1..];
    FoldsAtTag(Tag(data[i + 1..j], TagName(data[i + 1..j]), data[i + 1] == '/'), Tokens(data[j + 1..]), r, data[..i]);
  }

  /** Loop step of `Feed` at a `<` that starts no tag: it joins the pending text. */
  lemma ScanNotTag(text: string, a0: Region, out: seq<Segment>, data: string, i: nat, j: nat, r: Region)
    requires Scanned(text, a0, out, data, i, r)
    requires i < j < |data| && data[i] == '<' && data[j] == '>'
    requires forall k :: i + 1 <= k < j ==> data[k] != '>'
    requires TagName(data[i + 1..j]) !in Tags
    ensures Scanned(text, a0, out, data, i + 1, r)
  {
    assert data[i..][1..j - i] == data[i + 1..j];
    NotATag(data[i..], j - i);
    ScanPlainChar(data, i, r);
  }

  /** Loop step of `Feed` at a character other than `<`: it joins the pending text. */
  lemma ScanChr(text: string, a0: Region, out: seq<Segment>, data: string, i: nat, r: Region)
    requires Scanned(text, a0, out, data, i, r)
    requires i < |data| && data[i] != '<'
    ensures Scanned(text, a0, out, data, i + 1, r)
  {
    assert data[i..][0] == data[i];
    assert TagAt(data[i..]).None?;
    ScanPlainChar(data, i, r);
  }

  /** The three folds step over a character that starts no tag. */
  lemma ScanPlainChar(data: string, i: nat, r: Region)
    requires i < |data|
    requires TagAt(data[i..]).None?
    ensures Group(Tokens(data[i..]), r, data[..i]) == Group(Tokens(data[i + 1..]), r, data[..i + 1])
    ensures FinalRegion(Tokens(data[i..]), r) == FinalRegion(Tokens(data[i + 1..]), r)
    ensures TrailingText(Tokens(data[i..]), data[..i]) == TrailingText(Tokens(data[i + 1..]), data[..i + 1])
  {
    var s := data[i..];
    TokensAtChr(s);
    assert s[0] == data[i] && s[1..] == data[i + 1..];
    assert data[..i] + [data[i]] == data[..i + 1];
    FoldsAtChr(data[i], Tokens(data[i + 1..]), r, data[..i]);
  }

  /** Exit of `Feed` at a `<` with no `>` after it: the rest of the text is one plain run. */
  lemma ScanUnclosed(text: string, a0: Region, out: seq<Segment>, data: string, i: nat, r: Region)
    requires Scanned(text, a0, out, data, i, r)
    requires i < |data| && data[i] == '<'
    requires forall k :: i + 1 <= k < |data| ==> data[k] != '>'
    ensures Scanned(text, a0, out, data, |data|, r)
  {
    FoldsUnclosed(data, i, r);
    assert data[|data|..] == [] && data[..|data|] == data;
  }

  /** The three folds over an unclosed `<`: the rest is plain text. */
  lemma FoldsUnclosed(data: string, i: nat, r: Region)
    requires i < |data| && data[i] == '<'
    requires forall k :: i + 1 <= k < |data| ==> data[k] != '>'
    ensures Group(Tokens(data[i..]), r, data[..i]) == Flush(data, r)
    ensures FinalRegion(Tokens(data[i..]), r) == r
    ensures TrailingText(Tokens(data[i..]), data[..i]) == data
  {
    var s := data[i..];
    assert forall k :: 0 <= k < |s| ==> s[k] == data[i + k];
    NoBracketIsPlain(s, '>');
    UnclosedPlain(data[..i], s, r);
    assert data[..i] + s == data;
  }

  lemma UnclosedPlain(pre: string, s: string, r: Region)
    requires AllChr(Tokens(s)) && Plain(Tokens(s)) == s
    ensures Group(Tokens(s), r, pre) == Flush(pre + s, r)
    ensures FinalRegion(Tokens(s), r) == r
    ensures TrailingText(Tokens(s), pre) == pre + s
  {
    GroupPlain(Tokens(s), r, pre);
  }

  /** Exit of `Feed`: what is left of `data` is the last segment, in the final region. */
  lemma ScanEnd(text: string, a0: Region, out: seq<Segment>, data: string, i: nat, r: Region)
    requires Scanned(text, a0, out, data, i, r) && i == |data|
    ensures Group(Tokens(text), a0, []) == out + Flush(data, r)
    ensures FinalRegion(Tokens(text), a0) == r && ValidRegion(r)
    ensures TrailingText(Tokens(text), []) == data
  {
    assert data[i..] == [] && data[..i] == data;
  }

  /**
   * A tag split over two feeds is not recognised: feeding `a` (a `<` and no
   * `>`) and then `b` (a `>` at the end and no `<`) shows both pieces as
   * plain text and leaves the region closed, whereas feeding `a + b` at once
   * shows nothing and switches the region as the tag says.
   */
  method SplitTag(a: string, b: string) returns (first: seq<Segment>, second: seq<Segment>, split: Region,
                                                  whole: seq<Segment>, joined: Region)
    requires SplitTagPieces(a, b)
    ensures first == [Segment(a, None)] && second == [Segment(b, None)] && split == None
    ensures whole == []
    ensures joined == if a[1..] + b[..|b| - 1] == [] || (a[1..] + b[..|b| - 1])[0] == '/' then None
                      else Some(TagName(a[1..] + b[..|b| - 1]))
  {
    var streamer := new TagStreamer();
    FeedPlain(a, None);
    first := streamer.Feed(a);
    FeedPlain(b, None);
    second := streamer.Feed(b);
    split := streamer.active;

    JoinedTag(a, b);
    var once := new TagStreamer();
    whole := once.Feed(a + b);
    joined := once.active;
  }

  /** `a` opens a tag that `b` completes and neither contains another tag. */
  predicate SplitTagPieces(a: string, b: string) {
    && a != [] && a[0] == '<' && (forall k :: 0 <= k < |a| ==> a[k] != '>')
    && b != [] && b[|b| - 1] == '>' && (forall k :: 0 <= k < |b| ==> b[k] != '<')
    && (forall k :: 0 <= k < |b| - 1 ==> b[k] != '>')
    && TagName(a[1..] + b[..|b| - 1]) in Tags
  }

  /** Fed at once, the two pieces are a single tag. */
  lemma JoinedTag(a: string, b: string)
    requires SplitTagPieces(a, b)
    ensures var body := a[1..] + b[..|b| - 1];
      && Group(Tokens(a + b), None, []) == []
      && FinalRegion(Tokens(a + b), None) == (if body == [] || body[0] == '/' then None else Some(TagName(body)))
      && TrailingText(Tokens(a + b), []) == []
  {
    var body := a[1..] + b[..|b| - 1];
    PiecesBody(a, b);
    SingleTag(body);
    FoldsAtTag(Tag(body, TagName(body), body != [] && body[0] == '/'), [], None, []);
  }

  /** `c` does not occur in `s`. */
  predicate Lacks(s: string, c: char) {
    forall k :: 0 <= k < |s| ==> s[k] != c
  }

  lemma PiecesBody(a: string, b: string)
    requires a != [] && a[0] == '<' && (forall k :: 0 <= k < |a| ==> a[k] != '>')
    requires b != [] && b[|b| - 1] == '>' && (forall k :: 0 <= k < |b| - 1 ==> b[k] != '>')
    ensures a + b == ['<'] + (a[1..] + b[..|b| - 1]) + ['>']
    ensures Lacks(a[1..] + b[..|b| - 1], '>')
  {
    var body := a[1..] + b[..|b| - 1];
    assert a == ['<'] + a[1..];
    assert b == b[..|b| - 1] + ['>'];
    forall k | 0 <= k < |body| ensures body[k] != '>' {
      if k < |a| - 1 {
        assert body[k] == a[k + 1];
      } else {
        assert body[k] == b[k - (|a| - 1)];
      }
    }
  }

  /** A feed without a tag is one segment in the region it started in. */
  lemma FeedPlain(s: string, r: Region)
    requires s != []
    requires (forall k :: 0 <= k < |s| ==> s[k] != '>') || (forall k :: 0 <= k < |s| ==> s[k] != '<')
    ensures Group(Tokens(s), r, []) == [Segment(s, r)]
    ensures FinalRegion(Tokens(s), r) == r
    ensures TrailingText(Tokens(s), []) == s
  {
    if forall k :: 0 <= k < |s| ==> s[k] != '>' {
      NoBracketIsPlain(s, '>');
    } else {
      NoBracketIsPlain(s, '<');
    }
    GroupPlain(Tokens(s), r, []);
    assert [] + s == s;
  }
}
