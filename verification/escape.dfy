/**
 * HTML escaping of a section's code before it is placed inside the
 * flowchart's `<pre>` block (extension.js:567-570): three global
 * replacements, `&` first, then `<`, then `>`.
 */
module Escape {

  /** `s.replace(/c/g, r)`: every occurrence of `c` replaced by `r`. */
  function ReplaceAll(s: string, c: char, r: string): (t: string)
    ensures c !in r ==> c !in t
    ensures c !in s ==> t == s
  {
    if |s| == 0 then ""
    else (if s[0] == c then r else [s[0]]) + ReplaceAll(s[1..], c, r)
  }

  lemma {:induction false} ReplaceAllAppend(a: string, b: string, c: char, r: string)
    ensures ReplaceAll(a + b, c, r) == ReplaceAll(a, c, r) + ReplaceAll(b, c, r)
    decreases |a|
  {
    if |a| == 0 {
      assert a + b == b;
    } else {
      assert (a + b)[1..] == a[1..] + b;
      ReplaceAllAppend(a[1..], b, c, r);
    }
  }

  /** The chain as the extension writes it. */
  function EscapeHtml(content: string): string {
    ReplaceAll(ReplaceAll(ReplaceAll(content, '&', "&amp;"), '<', "&lt;"), '>', "&gt;")
  }

  /** The entity each character stands for after escaping. */
  function EscapeChar(c: char): (r: string)
    ensures |r| > 0
  {
    if c == '&' then "&amp;"
    else if c == '<' then "&lt;"
    else if c == '>' then "&gt;"
    else [c]
  }

  /** A one-pass reference escaper: each character mapped on its own. */
  function EscapeEach(s: string): string {
    if |s| == 0 then "" else EscapeChar(s[0]) + EscapeEach(s[1..])
  }

  lemma EscapeHtmlAppend(a: string, b: string)
    ensures EscapeHtml(a + b) == EscapeHtml(a) + EscapeHtml(b)
  {
    ReplaceAllAppend(a, b, '&', "&amp;");
    var a1, b1 := ReplaceAll(a, '&', "&amp;"), ReplaceAll(b, '&', "&amp;");
    ReplaceAllAppend(a1, b1, '<', "&lt;");
    var a2, b2 := ReplaceAll(a1, '<', "&lt;"), ReplaceAll(b1, '<', "&lt;");
    ReplaceAllAppend(a2, b2, '>', "&gt;");
  }

  lemma EscapeHtmlChar(c: char)
    ensures EscapeHtml([c]) == EscapeChar(c)
  {
    ReplaceOne(c, '&', "&amp;");
    if c == '&' {
      assert '<' !in "&amp;" && '>' !in "&amp;";
    } else {
      ReplaceOne(c, '<', "&lt;");
      if c == '<' {
        assert '>' !in "&lt;";
      } else {
        ReplaceOne(c, '>', "&gt;");
      }
    }
  }

  lemma ReplaceOne(c: char, d: char, r: string)
    ensures ReplaceAll([c], d, r) == if c == d then r else [c]
  {
    assert [c][1..] == "";
  }

  /** Because `&` is replaced first, the later replacements never touch the
      `&` of an entity, so the chain escapes each character independently. */
  lemma {:induction false} EscapeHtmlIsPerCharacter(s: string)
    ensures EscapeHtml(s) == EscapeEach(s)
    decreases |s|
  {
    if |s| > 0 {
      assert s == [s[0]] + s[1..];
      EscapeHtmlAppend([s[0]], s[1..]);
      EscapeHtmlChar(s[0]);
      EscapeHtmlIsPerCharacter(s[1..]);
    }
  }

  /** The output holds no raw angle bracket and every `&` in it opens one of the three entities. */
  ghost predicate WellEscaped(t: string) {
    && '<' !in t
    && '>' !in t
    && forall i :: 0 <= i < |t| && t[i] == '&' ==> OpensEntity(t[i..])
  }

  predicate OpensEntity(t: string) {
    OpensAmp(t) || OpensLt(t) || OpensGt(t)
  }

  /** `t` starts with `&amp;` */
  predicate OpensAmp(t: string) {
    |t| >= 5 && t[0] == '&' && t[1] == 'a' && t[2] == 'm' && t[3] == 'p' && t[4] == ';'
  }

  /** `t` starts with `&lt;` */
  predicate OpensLt(t: string) {
    |t| >= 4 && t[0] == '&' && t[1] == 'l' && t[2] == 't' && t[3] == ';'
  }

  /** `t` starts with `&gt;` */
  predicate OpensGt(t: string) {
    |t| >= 4 && t[0] == '&' && t[1] == 'g' && t[2] == 't' && t[3] == ';'
  }

  lemma {:induction false} EscapeEachIsWellEscaped(s: string)
    ensures WellEscaped(EscapeEach(s))
    decreases |s|
  {
    if |s| > 0 {
      EscapeEachIsWellEscaped(s[1..]);
      WellEscapedCons(s[0], EscapeEach(s[1..]));
    }
  }

  /** Escaping one more character in front keeps the text well escaped. */
  lemma WellEscapedCons(c: char, t: string)
    requires WellEscaped(t)
    ensures WellEscaped(EscapeChar(c) + t)
  {
    var h := EscapeChar(c);
    forall i | 0 <= i < |h + t| && (h + t)[i] == '&'
      ensures OpensEntity((h + t)[i..])
    {
      if i < |h| {
        EntityOpensHead(c, t);
      } else {
        assert (h + t)[i..] == t[i - |h|..];
      }
    }
  }

  /** An `&` inside an escaped character can only be its first one, and it opens the entity. */
  lemma EntityOpensHead(c: char, t: string)
    ensures forall i :: 0 <= i < |EscapeChar(c)| && EscapeChar(c)[i] == '&' ==>
      i == 0 && OpensEntity((EscapeChar(c) + t)[i..])
  {
    var h := EscapeChar(c);
    assert (h + t)[0..] == h + t;
  }

  lemma EscapeHtmlIsWellEscaped(s: string)
    ensures WellEscaped(EscapeHtml(s))
  {
    EscapeHtmlIsPerCharacter(s);
    EscapeEachIsWellEscaped(s);
  }

  /** A reference decoder: the three entities back to their characters,
      everything else unchanged. */
  function Unescape(t: string): string
    decreases |t|
  {
    if |t| == 0 then ""
    else if OpensAmp(t) then "&" + Unescape(t[5..])
    else if OpensLt(t) then "<" + Unescape(t[4..])
    else if OpensGt(t) then ">" + Unescape(t[4..])
    else [t[0]] + Unescape(t[1..])
  }

  lemma UnescapeEscapeChar(c: char, rest: string)
    ensures Unescape(EscapeChar(c) + rest) == [c] + Unescape(rest)
  {
    var t := EscapeChar(c) + rest;
    if c == '&' {
      assert OpensAmp(t) && t[5..] == rest;
    } else if c == '<' {
      assert !OpensAmp(t) && OpensLt(t) && t[4..] == rest;
    } else if c == '>' {
      assert !OpensAmp(t) && !OpensLt(t) && OpensGt(t) && t[4..] == rest;
    } else {
      assert t[0] == c && t[1..] == rest;
    }
  }

  /** Escaping loses nothing: decoding the escaped code gives the section's code back. */
  lemma {:induction false} UnescapeEscape(s: string)
    ensures Unescape(EscapeHtml(s)) == s
  {
    EscapeHtmlIsPerCharacter(s);
    UnescapeEscapeEach(s);
  }

  lemma {:induction false} UnescapeEscapeEach(s: string)
    ensures Unescape(EscapeEach(s)) == s
    decreases |s|
  {
    if |s| > 0 {
      UnescapeEscapeChar(s[0], EscapeEach(s[1..]));
      UnescapeEscapeEach(s[1..]);
      assert s == [s[0]] + s[1..];
    }
  }
}
