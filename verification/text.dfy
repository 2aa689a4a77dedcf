/**
 * Character classes and string helpers shared by the SIMASM editor model.
 * Strings are sequences of Unicode scalar values; the character classes are
 * those of ECMAScript regular expressions, which the extension relies on.
 */
module Text {

  datatype Option<+T> = None | Some(value: T)

  /** ECMAScript `\s`, which is also the set stripped by `String.prototype.trim`:
      WhiteSpace (TAB, VT, FF, SP, NBSP, ZWNBSP and the Zs category) plus
      LineTerminator (LF, CR, LS, PS). */
  predicate IsSpace(c: char) {
    || ('\t' <= c <= '\r')
    || c == ' ' || c == '\U{00A0}' || c == '\U{1680}'
    || ('\U{2000}' <= c <= '\U{200A}')
    || c == '\U{2028}' || c == '\U{2029}' || c == '\U{202F}' || c == '\U{205F}'
    || c == '\U{3000}' || c == '\U{FEFF}'
  }

  /** ECMAScript LineTerminator: what `.` refuses and what `^` follows in multiline mode. */
  predicate IsLineTerminator(c: char) {
    c == '\n' || c == '\r' || c == '\U{2028}' || c == '\U{2029}'
  }

  lemma LineTerminatorIsSpace(c: char)
    requires IsLineTerminator(c)
    ensures IsSpace(c)
  {
  }

  predicate IsLetter(c: char) {
    ('A' <= c <= 'Z') || ('a' <= c <= 'z')
  }

  predicate IsDigit(c: char) {
    '0' <= c <= '9'
  }

  /** `[A-Za-z_]` */
  predicate IsIdentStart(c: char) {
    IsLetter(c) || c == '_'
  }

  /** `\w` without the `u` flag: `[A-Za-z0-9_]` */
  predicate IsWordChar(c: char) {
    IsIdentStart(c) || IsDigit(c)
  }

  /** `[A-Za-z_][A-Za-z0-9_]*` as a whole string */
  predicate IsIdentifier(s: string) {
    |s| > 0 && IsIdentStart(s[0]) && forall i :: 1 <= i < |s| ==> IsWordChar(s[i])
  }

  predicate AllSpaces(s: string) {
    forall i :: 0 <= i < |s| ==> IsSpace(s[i])
  }

  predicate NoSpaces(s: string) {
    forall i :: 0 <= i < |s| ==> !IsSpace(s[i])
  }

  /** Every character at an index in `i..j` is whitespace. */
  predicate SpacesBetween(s: string, i: nat, j: nat)
    requires i <= j <= |s|
  {
    forall k :: i <= k < j ==> IsSpace(s[k])
  }

  /** No leading and no trailing whitespace. */
  predicate IsTrimmed(s: string) {
    |s| == 0 || (!IsSpace(s[0]) && !IsSpace(s[|s| - 1]))
  }

  /** The end of the whitespace run that starts at `i`: what a greedy `\s*` consumes. */
  function SkipSpaces(s: string, i: nat): (j: nat)
    requires i <= |s|
    ensures i <= j <= |s|
    ensures SpacesBetween(s, i, j)
    ensures j == |s| || !IsSpace(s[j])
    decreases |s| - i
  {
    if i == |s| || !IsSpace(s[i]) then i else SkipSpaces(s, i + 1)
  }

  /** A greedy `\s*` that starts inside a whitespace run ends where the run ends. */
  lemma {:induction false} SkipSpacesAcross(s: string, i: nat, j: nat)
    requires i <= j <= |s|
    requires SpacesBetween(s, i, j)
    ensures SkipSpaces(s, i) == SkipSpaces(s, j)
    decreases j - i
  {
    if i < j {
      SkipSpacesAcross(s, i + 1, j);
    }
  }

  /** The end of the non-whitespace run that starts at `i`: what a greedy `\S*` consumes. */
  function SkipNonSpaces(s: string, i: nat): (j: nat)
    requires i <= |s|
    ensures i <= j <= |s|
    ensures NoSpaces(s[i..j])
    ensures j == |s| || IsSpace(s[j])
    decreases |s| - i
  {
    if i == |s| || IsSpace(s[i]) then i else SkipNonSpaces(s, i + 1)
  }

  /** The end of the `\w` run that starts at `i`. */
  function SkipWordChars(s: string, i: nat): (j: nat)
    requires i <= |s|
    ensures i <= j <= |s|
    ensures forall k :: i <= k < j ==> IsWordChar(s[k])
    ensures j == |s| || !IsWordChar(s[j])
    decreases |s| - i
  {
    if i == |s| || !IsWordChar(s[i]) then i else SkipWordChars(s, i + 1)
  }

  /** A run of word characters that stops before a non-word character is
      exactly what `SkipWordChars` consumes. */
  lemma {:induction false} WordCharsEndAt(t: string, i: nat, e: nat)
    requires i <= e < |t|
    requires forall j :: i <= j < e ==> IsWordChar(t[j])
    requires !IsWordChar(t[e])
    ensures SkipWordChars(t, i) == e
    decreases e - i
  {
    if i < e {
      WordCharsEndAt(t, i + 1, e);
    }
  }

  /** A greedy `\s*` from `i` stops at `j` when `i..j` is blank and `s[j]` is not. */
  lemma SkipSpacesIs(s: string, i: nat, j: nat)
    requires i <= j <= |s|
    requires SpacesBetween(s, i, j)
    requires j == |s| || !IsSpace(s[j])
    ensures SkipSpaces(s, i) == j
  {
    SkipSpacesAcross(s, i, j);
  }

  /** The blanks between `i` and `j`, cut out of `s`. */
  lemma SpacesSlice(s: string, i: nat, j: nat)
    requires i <= j <= |s| && SpacesBetween(s, i, j)
    ensures AllSpaces(s[i..j])
  {
    forall m | 0 <= m < j - i ensures IsSpace(s[i..j][m]) {
      assert s[i..j][m] == s[i + m];
    }
  }

  /** `String.prototype.trimStart` */
  function TrimStart(s: string): (r: string)
    ensures |r| <= |s| && r == s[|s| - |r|..]
    ensures SpacesBetween(s, 0, |s| - |r|)
    ensures |r| == 0 || !IsSpace(r[0])
  {
    s[SkipSpaces(s, 0)..]
  }

  /** The length of `s[..n]` without its trailing whitespace. */
  function TrimmedLength(s: string, n: nat): (m: nat)
    requires n <= |s|
    ensures m <= n
    ensures SpacesBetween(s, m, n)
    ensures m == 0 || !IsSpace(s[m - 1])
  {
    if n > 0 && IsSpace(s[n - 1]) then TrimmedLength(s, n - 1) else n
  }

  /** `String.prototype.trimEnd` */
  function TrimEnd(s: string): (r: string)
    ensures |r| <= |s| && r == s[..|r|]
    ensures SpacesBetween(s, |r|, |s|)
    ensures |r| == 0 || !IsSpace(r[|r| - 1])
  {
    s[..TrimmedLength(s, |s|)]
  }

  /** `String.prototype.trim`: `s` without the whitespace at both ends. */
  function Trim(s: string): (r: string)
    ensures IsTrimmed(r)
    ensures |r| <= |s|
  {
    TrimEnd(TrimStart(s))
  }

  /** `Trim(s)` is the slice of `s` left when the whitespace at both ends is
      cut off; being trimmed, it is the longest such slice. */
  lemma TrimIsSlice(s: string)
    ensures IsTrimmed(Trim(s))
    ensures var r := Trim(s);
      exists a: nat :: a + |r| <= |s| && r == s[a..a + |r|] && SpacesBetween(s, 0, a) && SpacesBetween(s, a + |r|, |s|)
  {
    var t := TrimStart(s);
    var r := TrimEnd(t);
    var a := |s| - |t|;
    assert r == s[a..a + |r|];
    assert SpacesBetween(s, a + |r|, |s|) by {
      forall k | a + |r| <= k < |s| ensures IsSpace(s[k]) {
        assert s[k] == t[k - a];
      }
    }
  }

  /** Trimming a string that is already trimmed changes nothing. */
  lemma TrimOfTrimmed(s: string)
    requires IsTrimmed(s)
    ensures Trim(s) == s
  {
    if |s| > 0 {
      assert SkipSpaces(s, 0) == 0;
      assert TrimStart(s) == s[0..] == s;
      assert TrimmedLength(s, |s|) == |s|;
      assert TrimEnd(s) == s[..|s|] == s;
    }
  }

  /** A string of `n` spaces: `' '.repeat(n)`. */
  function Spaces(n: nat): (r: string)
    ensures |r| == n
  {
    if n == 0 then "" else [' '] + Spaces(n - 1)
  }

  lemma {:induction false} SpacesAreBlank(n: nat)
    ensures forall i :: 0 <= i < n ==> Spaces(n)[i] == ' '
    ensures AllSpaces(Spaces(n))
  {
    if n > 0 {
      SpacesAreBlank(n - 1);
    }
  }

  /** `String.prototype.padEnd(n)` with the default space filler. */
  function PadEnd(s: string, n: nat): (r: string)
    ensures |r| == if |s| < n then n else |s|
  {
    if |s| < n then s + Spaces(n - |s|) else s
  }

  /** The padded string starts with `s` and continues with blanks. */
  lemma PadEndShape(s: string, n: nat)
    ensures PadEnd(s, n)[..|s|] == s
    ensures forall i :: |s| <= i < |PadEnd(s, n)| ==> PadEnd(s, n)[i] == ' '
  {
    if |s| < n {
      SpacesAreBlank(n - |s|);
    }
  }

  /** `Array.prototype.join(sep)` */
  function Join(parts: seq<string>, sep: char): (r: string)
    ensures |parts| == 0 ==> r == ""
    ensures |parts| == 1 ==> r == parts[0]
  {
    if |parts| == 0 then ""
    else if |parts| == 1 then parts[0]
    else parts[0] + [sep] + Join(parts[1..], sep)
  }

  /** `String.prototype.split(sep)` for a one-character separator: the pieces
      between separators, so there is always at least one piece. */
  function Split(s: string, sep: char): (r: seq<string>)
    ensures |r| >= 1
    ensures forall k :: 0 <= k < |r| ==> sep !in r[k]
    decreases |s|
  {
    if sep !in s then [s]
    else
      var i := FirstIndex(s, sep);
      [s[..i]] + Split(s[i + 1..], sep)
  }

  /** The index of the first `c` in `s`, or `|s|` when there is none
      (`indexOf` returns -1 there). */
  function FirstIndex(s: string, c: char): (i: nat)
    ensures i <= |s|
    ensures c !in s[..i]
    ensures i < |s| <==> c in s
    ensures i < |s| ==> s[i] == c
  {
    if |s| == 0 then 0
    else if s[0] == c then 0
    else 1 + FirstIndex(s[1..], c)
  }

  /** Splitting on a separator and joining with it gives the text back. */
  lemma {:induction false} JoinSplit(s: string, sep: char)
    ensures Join(Split(s, sep), sep) == s
    decreases |s|
  {
    if sep in s {
      var i := FirstIndex(s, sep);
      var rest := Split(s[i + 1..], sep);
      JoinSplit(s[i + 1..], sep);
      assert Split(s, sep) == [s[..i]] + rest;
      JoinCons(s[..i], rest, sep);
      assert s == s[..i] + [sep] + s[i + 1..];
    }
  }

  lemma JoinCons(p: string, rest: seq<string>, sep: char)
    requires |rest| >= 1
    ensures Join([p] + rest, sep) == p + [sep] + Join(rest, sep)
  {
    assert ([p] + rest)[1..] == rest;
  }

  /** Joining pieces that contain no separator and splitting again gives the pieces back. */
  lemma {:induction false} SplitJoin(parts: seq<string>, sep: char)
    requires |parts| >= 1
    requires forall k :: 0 <= k < |parts| ==> sep !in parts[k]
    ensures Split(Join(parts, sep), sep) == parts
    decreases |parts|
  {
    if |parts| > 1 {
      SplitJoin(parts[1..], sep);
      SplitAfterPiece(parts[0], Join(parts[1..], sep), sep);
      assert [parts[0]] + parts[1..] == parts;
    }
  }

  /** A piece without separator, then the separator: splitting yields the
      piece, then the pieces of the rest. */
  lemma SplitAfterPiece(p: string, rest: string, sep: char)
    requires sep !in p
    ensures Split(p + [sep] + rest, sep) == [p] + Split(rest, sep)
  {
    var s := p + [sep] + rest;
    assert s == p + ([sep] + rest);
    FirstIndexAfterPrefix(p, sep, [sep] + rest);
    assert s[|p| + 1..] == rest;
    assert s[..|p|] == p;
  }

  lemma {:induction false} FirstIndexAfterPrefix(p: string, c: char, rest: string)
    requires c !in p
    requires |rest| > 0 && rest[0] == c
    ensures FirstIndex(p + rest, c) == |p|
    decreases |p|
  {
    if |p| > 0 {
      assert (p + rest)[1..] == p[1..] + rest;
      FirstIndexAfterPrefix(p[1..], c, rest);
    } else {
      assert p + rest == rest;
    }
  }
}
