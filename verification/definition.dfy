/**
 * Go to definition of a label (extension.js:397-414). The word under the
 * cursor is an identifier; the extension searches the whole text for the
 * first match of `^\s*(word):` in multiline mode, case-sensitive, and
 * returns the range of that match.
 *
 * Offsets stand for positions: converting them to line and column is the
 * editor's business (`document.positionAt`).
 */
module Definition {
  import opened Text

  /** `^` in multiline mode: the start of the text, or right after a line terminator. */
  predicate AtLineStart(text: string, p: nat)
    requires p <= |text|
  {
    p == 0 || IsLineTerminator(text[p - 1])
  }

  /** `word` followed at once by `:` starts at `k`. */
  predicate LabelAt(text: string, word: string, k: nat) {
    && k + |word| < |text|
    && text[k..k + |word|] == word
    && text[k + |word|] == ':'
  }

  /** The pattern matches from `p`, with `\s*` spanning `p..k`; backtracking
      may try any such split. */
  ghost predicate MatchesAt(text: string, word: string, p: nat, k: nat) {
    && p <= k <= |text|
    && AtLineStart(text, p)
    && SpacesBetween(text, p, k)
    && LabelAt(text, word, k)
  }

  /** The range of a match: from where the match starts to just after the colon. */
  datatype Location = Location(start: nat, end: nat)

  /** Only the longest whitespace run can be followed by an identifier, so a
      match from `p` always ends its `\s*` where the run ends. */
  lemma OnlyLongestRun(text: string, word: string, p: nat, k: nat)
    requires IsIdentifier(word)
    requires MatchesAt(text, word, p, k)
    ensures k == SkipSpaces(text, p)
  {
    assert text[k] == text[k..k + |word|][0] == word[0];
    assert !IsSpace(text[k]);
    SkipSpacesAcross(text, p, k);
  }

  /** `provideDefinition`: the first match in the text, or nothing. The
      match starts at the earliest line start from which only whitespace
      leads to `word:`, so it may begin on blank lines above the label. */
  method FindDefinition(text: string, word: string) returns (r: Option<Location>)
    requires IsIdentifier(word)
    ensures r.Some? ==> r.value.end >= |word| + 1
    ensures r.Some? ==> MatchesAt(text, word, r.value.start, r.value.end - |word| - 1)
    ensures r.Some? ==> forall q: nat, k: nat :: q < r.value.start ==> !MatchesAt(text, word, q, k)
    ensures r.None? ==> forall q: nat, k: nat :: !MatchesAt(text, word, q, k)
  {
    var p := 0;
    while p <= |text|
      invariant p <= |text| + 1
      invariant forall q: nat, k: nat :: q < p ==> !MatchesAt(text, word, q, k)
    {
      if AtLineStart(text, p) {
        var k := SkipSpaces(text, p);
        if LabelAt(text, word, k) {
          return Some(Location(p, k + |word| + 1));
        }
      }
      forall k: nat | MatchesAt(text, word, p, k)
        ensures false
      {
        OnlyLongestRun(text, word, p, k);
      }
      p := p + 1;
    }
    return None;
  }

  /** Blank lines above a label belong to the match: the match from the
      label's own line start at offset 2 is not the first one, the match from
      offset 0 on the first blank line is, and the range the editor reveals
      starts there. */
  lemma BlankLinesBeforeLabel()
    ensures MatchesAt("\n\nloop: JMP loop", "loop", 2, 2)
    ensures MatchesAt("\n\nloop: JMP loop", "loop", 0, 2)
  {
    var t := "\n\nloop: JMP loop";
    assert t[2..6] == "loop";
  }

  /** The colon must follow the word at once, and a longer identifier that
      starts with the word is not a match for it. */
  lemma ColonMustFollow()
    ensures forall p: nat, k: nat :: !MatchesAt("loop : X", "loop", p, k)
    ensures forall p: nat, k: nat :: !MatchesAt("loop2: X", "loop", p, k)
  {
    var a := "loop : X";
    var b := "loop2: X";
    forall p: nat, k: nat | MatchesAt(a, "loop", p, k) ensures false {
      OnlyLongestRun(a, "loop", p, k);
    }
    forall p: nat, k: nat | MatchesAt(b, "loop", p, k) ensures false {
      OnlyLongestRun(b, "loop", p, k);
    }
  }
}
