/** The part of the AI provider base class that does not talk to a provider:
    removing the Markdown code fence a model may wrap its HTML in, and wrapping
    the result. Strings are sequences of characters; JavaScript's UTF-16 code
    units are not modelled separately. */
module AIProvider {
  import opened Common

  // ---------------------------------------------------------------------------
  // Character classes
  // ---------------------------------------------------------------------------

  /** The regular-expression class \w. */
  predicate IsWordChar(c: char) {
    'a' <= c <= 'z' || 'A' <= c <= 'Z' || '0' <= c <= '9' || c == '_'
  }

  /** What String.prototype.trim removes: the ECMAScript WhiteSpace and
      LineTerminator characters. */
  predicate IsJsWhitespace(c: char) {
    var n := c as int;
    n == 0x09 || n == 0x0A || n == 0x0B || n == 0x0C || n == 0x0D || n == 0x20
    || n == 0xA0 || n == 0x1680 || 0x2000 <= n <= 0x200A
    || n == 0x2028 || n == 0x2029 || n == 0x202F || n == 0x205F || n == 0x3000 || n == 0xFEFF
  }

  // ---------------------------------------------------------------------------
  // trim
  // ---------------------------------------------------------------------------

  /** Drops the whitespace at the front. */
  function TrimStart(s: string): (r: string)
    ensures |r| <= |s| && r == s[|s| - |r|..]
    ensures forall k | 0 <= k < |s| - |r| :: IsJsWhitespace(s[k])
    ensures r == [] || !IsJsWhitespace(r[0])
  {
    if s != [] && IsJsWhitespace(s[0]) then TrimStart(s[1..]) else s
  }

  /** Drops the whitespace at the back. */
  function TrimEnd(s: string): (r: string)
    ensures |r| <= |s| && r == s[..|r|]
    ensures forall k | |r| <= k < |s| :: IsJsWhitespace(s[k])
    ensures r == [] || !IsJsWhitespace(r[|r| - 1])
  {
    if s != [] && IsJsWhitespace(s[|s| - 1]) then TrimEnd(s[..|s| - 1]) else s
  }

  /** String.prototype.trim: the longest stretch of `s` that neither starts
      nor ends with whitespace, and everything outside it is whitespace. */
  function Trim(s: string): (r: string)
    ensures exists a | 0 <= a <= |s| - |r| :: TrimmedAt(s, r, a)
    ensures r == [] || (!IsJsWhitespace(r[0]) && !IsJsWhitespace(r[|r| - 1]))
  {
    var t := TrimStart(s);
    var r := TrimEnd(t);
    assert TrimmedAt(s, r, |s| - |t|);
    r
  }

  /** `r` sits in `s` at `a`, and every character of `s` around it is
      whitespace. */
  predicate TrimmedAt(s: string, r: string, a: int) {
    && 0 <= a <= |s| - |r|
    && s[a..a + |r|] == r
    && (forall k | 0 <= k < a :: IsJsWhitespace(s[k]))
    && (forall k | a + |r| <= k < |s| :: IsJsWhitespace(s[k]))
  }

  /** Text without whitespace at either end is left alone. */
  lemma TrimKeepsTrimmed(s: string)
    requires s == [] || (!IsJsWhitespace(s[0]) && !IsJsWhitespace(s[|s| - 1]))
    ensures Trim(s) == s
  {
  }

  // ---------------------------------------------------------------------------
  // The two anchored replacements
  // ---------------------------------------------------------------------------

  const Fence: string := "```"

  /** The end of the run of word characters that starts at `i`. */
  function WordRunEnd(s: string, i: nat): (j: nat)
    requires i <= |s|
    ensures i <= j <= |s|
    ensures forall k | i <= k < j :: IsWordChar(s[k])
    ensures j == |s| || !IsWordChar(s[j])
    decreases |s| - i
  {
    if i < |s| && IsWordChar(s[i]) then WordRunEnd(s, i + 1) else i
  }

  /** The first `n` characters of `s` are a match of the opening pattern:
      three backticks, word characters, and at most one newline. */
  predicate OpeningMatch(s: string, n: int) {
    && 3 <= n <= |s|
    && s[..3] == Fence
    && (forall k | 3 <= k < n - 1 :: IsWordChar(s[k]))
    && (IsWordChar(s[n - 1]) || s[n - 1] == '\n' || n == 3)
  }

  /** How much the opening replacement removes: the longest opening match,
      or nothing when the text does not start with a fence. */
  function OpeningFenceLength(s: string): (n: nat)
    ensures n <= |s|
    ensures n == 0 <==> !StartsWith(s, Fence)
    ensures n > 0 ==> OpeningMatch(s, n)
    ensures forall m | OpeningMatch(s, m) :: m <= n
  {
    if StartsWith(s, Fence) then
      var j := WordRunEnd(s, 3);
      var n := if j < |s| && s[j] == '\n' then j + 1 else j;
      n
    else
      0
  }

  /** The last `n` characters of `s` are a match of the closing pattern: at
      most one newline, then three backticks, at the end of the text. */
  predicate ClosingMatch(s: string, n: int) {
    && (n == 3 || n == 4)
    && n <= |s|
    && s[|s| - 3..] == Fence
    && (n == 4 ==> s[|s| - 4] == '\n')
  }

  /** How much the closing replacement removes. The leftmost match wins, so
      the newline goes too when there is one. */
  function ClosingFenceLength(s: string): (n: nat)
    ensures n <= |s|
    ensures n == 0 <==> !EndsWith(s, Fence)
    ensures n > 0 ==> ClosingMatch(s, n)
    ensures forall m | ClosingMatch(s, m) :: m <= n
  {
    if EndsWith(s, "\n" + Fence) then
      assert s[|s| - 3..] == (s[|s| - 4..])[1..];
      4
    else if EndsWith(s, Fence) then 3
    else 0
  }

  /** The text after the opening fence. */
  function StripOpeningFence(s: string): string {
    s[OpeningFenceLength(s)..]
  }

  /** The text before the closing fence. */
  function StripClosingFence(s: string): string {
    s[..|s| - ClosingFenceLength(s)]
  }

  // ---------------------------------------------------------------------------
  // stripCodeFences and processAndValidateContent
  // ---------------------------------------------------------------------------

  /** The opening fence goes, then the closing fence of what is left, then
      the surrounding whitespace. */
  function StripCodeFences(content: string): (r: string)
    ensures r == [] || (!IsJsWhitespace(r[0]) && !IsJsWhitespace(r[|r| - 1]))
    ensures |r| <= |content|
    ensures exists a | 0 <= a <= |StripClosingFence(StripOpeningFence(content))| - |r| ::
      TrimmedAt(StripClosingFence(StripOpeningFence(content)), r, a)
  {
    Trim(StripClosingFence(StripOpeningFence(content)))
  }

  /** Text with no fence at either end is only trimmed. */
  lemma NoFenceOnlyTrimmed(content: string)
    requires !StartsWith(content, Fence) && !EndsWith(content, Fence)
    ensures StripCodeFences(content) == Trim(content)
  {
    assert StripOpeningFence(content) == content;
    assert StripClosingFence(content) == content;
  }

  /** A block fenced with a language tag gives back its body, trimmed. */
  lemma {:induction false} FencedBlockGivesBody(lang: string, body: string)
    requires forall k | 0 <= k < |lang| :: IsWordChar(lang[k])
    ensures StripCodeFences(Fence + lang + "\n" + body + "\n" + Fence) == Trim(body)
  {
    var s := Fence + lang + "\n" + body + "\n" + Fence;
    var n := 3 + |lang| + 1;
    assert s[..3] == Fence;
    assert OpeningMatch(s, n);
    assert OpeningFenceLength(s) == n by {
      assert forall k | 3 <= k < n - 1 :: s[k] == lang[k - 3];
      assert s[n - 1] == '\n' && !IsWordChar(s[n - 1]);
      assert !OpeningMatch(s, n + 1);
      assert forall m | n < m <= |s| :: !OpeningMatch(s, m);
    }
    var t := StripOpeningFence(s);
    assert t == body + "\n" + Fence;
    assert EndsWith(t, "\n" + Fence);
    assert StripClosingFence(t) == body;
  }

  /** Where `Trim` cut its result from. */
  lemma TrimOffset(s: string) returns (a: int)
    ensures TrimmedAt(s, Trim(s), a)
  {
    a :| 0 <= a <= |s| - |Trim(s)| && TrimmedAt(s, Trim(s), a);
  }

  /** A character that is not whitespace survives trimming, in place. */
  lemma TrimKeepsNonWhitespace(s: string, i: int, a: int)
    requires 0 <= i < |s| && !IsJsWhitespace(s[i])
    requires TrimmedAt(s, Trim(s), a)
    ensures a <= i < a + |Trim(s)|
  {
  }

  /** Whitespace before the opening fence keeps it: the opening pattern only
      matches at the very start, and trimming happens afterwards. */
  lemma LeadingWhitespaceKeepsOpeningFence(c: char, rest: string)
    requires IsJsWhitespace(c) && StartsWith(rest, Fence) && |rest| >= 7
    ensures StartsWith(StripCodeFences([c] + rest), Fence)
  {
    var s := [c] + rest;
    assert OpeningFenceLength(s) == 0 by { assert s[0] == c; }
    var u := StripClosingFence(s);
    assert u == s[..|u|] && |u| >= 4;
    assert u[1..4] == s[1..4] == rest[..3];
    TrimmedStartsWithFence(u);
  }

  /** Trimming text that is one whitespace character and a fence keeps the
      fence. */
  lemma TrimmedStartsWithFence(u: string)
    requires |u| >= 4 && IsJsWhitespace(u[0]) && u[1..4] == Fence
    ensures StartsWith(Trim(u), Fence)
  {
    var r := Trim(u);
    var a := TrimOffset(u);
    assert u[1] == '`' && u[3] == '`';
    TrimKeepsNonWhitespace(u, 1, a);
    TrimKeepsNonWhitespace(u, 3, a);
    assert a == 1;
    assert r[..3] == u[1..4];
  }

  /** The opening pattern never reaches past a backtick after the fence. */
  lemma OpeningStopsAtBacktick(s: string, e: int)
    requires 3 <= e < |s| && s[e] == '`'
    ensures OpeningFenceLength(s) <= e
  {
  }

  /** A newline after the closing fence keeps it: the closing pattern only
      matches at the very end of the text, and trimming happens afterwards. */
  lemma TrailingNewlineKeepsClosingFence(rest: string)
    requires EndsWith(rest, Fence) && |rest| >= 6
    ensures EndsWith(StripCodeFences(rest + "\n"), Fence)
  {
    var s := rest + "\n";
    var e := |rest| - 3;
    assert s[e..e + 3] == rest[e..] == Fence;
    OpeningStopsAtBacktick(s, e);
    var t := StripOpeningFence(s);
    var f := |t| - 4;
    assert t[f..] == s[e..] == Fence + "\n";
    assert t[f..f + 3] == Fence;
    assert !EndsWith(t, Fence) by { assert t[|t| - 1] == '\n'; }
    assert StripClosingFence(t) == t;
    TrimmedEndsWithFence(t);
  }

  /** Trimming text that ends in a fence and one newline keeps the fence. */
  lemma TrimmedEndsWithFence(t: string)
    requires |t| >= 4 && t[|t| - 4..] == Fence + "\n"
    ensures EndsWith(Trim(t), Fence)
  {
    var r := Trim(t);
    var a := TrimOffset(t);
    var f := |t| - 4;
    assert !IsJsWhitespace(t[f]) && !IsJsWhitespace(t[f + 2]) by { assert t[f] == '`' && t[f + 2] == '`'; }
    TrimKeepsNonWhitespace(t, f, a);
    TrimKeepsNonWhitespace(t, f + 2, a);
    assert IsJsWhitespace(t[|t| - 1]) by { assert t[|t| - 1] == '\n'; }
    assert r[|r| - 1] == t[a + |r| - 1];
    assert a + |r| == |t| - 1;
    assert r[|r| - 3..] == t[f..f + 3];
  }

  /** What processAndValidateContent returns: an object with one field. */
  datatype Processed = Processed(html: string)

  function ProcessAndValidateContent(rawContent: string): (r: Processed)
    ensures r.html == StripCodeFences(rawContent)
    ensures r.html == [] || (!IsJsWhitespace(r.html[0]) && !IsJsWhitespace(r.html[|r.html| - 1]))
  {
    Processed(StripCodeFences(rawContent))
  }
}
