/**
 * The string operations of Python's `str` that the client relies on:
 * `strip()`, `lstrip(c)`, `lower()`, `startswith(p)` and `"".join(...)`.
 */
module Text {

  /**
   * Python's `str.isspace()` on one character: the ASCII controls TAB to CR,
   * the four information separators, SPACE, and the Unicode space characters
   * that Python classifies as whitespace.
   */
  predicate IsSpace(c: char) {
    || ('\t' <= c <= '\r')
    || ('\U{001C}' <= c <= ' ')
    || c == '\U{0085}' || c == '\U{00A0}' || c == '\U{1680}'
    || ('\U{2000}' <= c <= '\U{200A}')
    || c == '\U{2028}' || c == '\U{2029}' || c == '\U{202F}'
    || c == '\U{205F}' || c == '\U{3000}'
  }

  /** Every character of `s` is whitespace. */
  predicate AllSpace(s: string) {
    forall k :: 0 <= k < |s| ==> IsSpace(s[k])
  }

  /** `s.lstrip()`. */
  function LStrip(s: string): string {
    if s != [] && IsSpace(s[0]) then LStrip(s[1..]) else s
  }

  /** `s.rstrip()`. */
  function RStrip(s: string): string {
    if s != [] && IsSpace(s[|s| - 1]) then RStrip(s[..|s| - 1]) else s
  }

  /** `lstrip()` drops the leading whitespace, and only that. */
  lemma {:induction false} LStripSpec(s: string)
    ensures |LStrip(s)| <= |s| && LStrip(s) == s[|s| - |LStrip(s)|..]
    ensures AllSpace(s[..|s| - |LStrip(s)|])
    ensures LStrip(s) == [] || !IsSpace(LStrip(s)[0])
  {
    if s != [] && IsSpace(s[0]) {
      LStripSpec(s[1..]);
      assert s[1..][..|s| - 1 - |LStrip(s)|] == s[1..|s| - |LStrip(s)|];
    }
  }

  /** `rstrip()` drops the trailing whitespace, and only that. */
  lemma {:induction false} RStripSpec(s: string)
    ensures |RStrip(s)| <= |s| && RStrip(s) == s[..|RStrip(s)|]
    ensures AllSpace(s[|RStrip(s)|..])
    ensures RStrip(s) == [] || !IsSpace(RStrip(s)[|RStrip(s)| - 1])
  {
    if s != [] && IsSpace(s[|s| - 1]) {
      var t := s[..|s| - 1];
      RStripSpec(t);
      var n := |RStrip(t)|;
      forall k | n <= k < |s| ensures IsSpace(s[k]) {
        if k < |t| {
          assert s[k] == t[n..][k - n];
        }
      }
    }
  }

  /** `s.strip()`. */
  function Strip(s: string): string {
    RStrip(LStrip(s))
  }

  /** `s.lstrip(c)` for a one-character argument: drops the leading run of `c`. */
  function LStripChar(s: string, c: char): string {
    if s != [] && s[0] == c then LStripChar(s[1..], c) else s
  }

  /** ASCII case folding of one character. */
  function LowerChar(c: char): char {
    if 'A' <= c <= 'Z' then (c as int + 32) as char else c
  }

  /** `s.lower()`, restricted to ASCII case folding. */
  function Lower(s: string): string {
    seq(|s|, k requires 0 <= k < |s| => LowerChar(s[k]))
  }

  /** Case folding works character by character. */
  lemma LowerAppend(a: string, b: string)
    ensures Lower(a + b) == Lower(a) + Lower(b)
  {
  }

  /** `/` has no case. */
  lemma {:induction false} LowerSlashes(n: nat)
    ensures Lower(Repeat('/', n)) == Repeat('/', n)
  {
    if n > 0 {
      LowerAppend(['/'], Repeat('/', n - 1));
      LowerSlashes(n - 1);
    }
  }

  /** `s.startswith(p)`. */
  predicate StartsWith(s: string, p: string) {
    |p| <= |s| && s[..|p|] == p
  }

  /** `"".join(ss)`. */
  function Join(ss: seq<string>): string {
    if ss == [] then [] else ss[0] + Join(ss[1..])
  }

  /** Joining distributes over concatenation of the lists. */
  lemma {:induction false} JoinAppend(a: seq<string>, b: seq<string>)
    ensures Join(a + b) == Join(a) + Join(b)
  {
    if a == [] {
      assert a + b == b;
    } else {
      assert (a + b)[1..] == a[1..] + b;
      JoinAppend(a[1..], b);
    }
  }

  /** Stripping text that is surrounded only by whitespace recovers the text. */
  lemma StripPadded(pre: string, w: string, post: string)
    requires AllSpace(pre) && AllSpace(post)
    requires w != [] && !IsSpace(w[0]) && !IsSpace(w[|w| - 1])
    ensures Strip(pre + w + post) == w
  {
    assert pre + w + post == pre + (w + post);
    LStripPadded(pre, w + post);
    RStripPadded(w, post);
  }

  lemma {:induction false} LStripPadded(pre: string, rest: string)
    requires AllSpace(pre)
    requires rest == [] || !IsSpace(rest[0])
    ensures LStrip(pre + rest) == rest
  {
    if pre != [] {
      assert (pre + rest)[1..] == pre[1..] + rest;
      LStripPadded(pre[1..], rest);
    }
  }

  lemma {:induction false} RStripPadded(w: string, post: string)
    requires AllSpace(post)
    requires w == [] || !IsSpace(w[|w| - 1])
    ensures RStrip(w + post) == w
  {
    if post != [] {
      var p := post[..|post| - 1];
      assert (w + post)[..|w + post| - 1] == w + p;
      RStripPadded(w, p);
    } else {
      assert w + post == w;
    }
  }

  /** A string of one repeated character. */
  function Repeat(c: char, n: nat): (r: string)
    ensures |r| == n
  {
    if n == 0 then [] else [c] + Repeat(c, n - 1)
  }

  /** `lstrip(c)` removes exactly a leading run of `c`. */
  lemma {:induction false} LStripCharRun(c: char, n: nat, w: string)
    requires w == [] || w[0] != c
    ensures LStripChar(Repeat(c, n) + w, c) == w
  {
    if n > 0 {
      var s := Repeat(c, n) + w;
      assert s == [c] + (Repeat(c, n - 1) + w);
      LStripCharRun(c, n - 1, w);
    } else {
      assert Repeat(c, n) + w == w;
    }
  }
}
