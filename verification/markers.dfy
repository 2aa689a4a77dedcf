/**
 * The section-marker pattern `;\s*---\s*(.*?)\s*---`, shared by the outline
 * builder and the flowchart's section extraction (extension.js:187, 474).
 *
 * The pattern is searched, not anchored: the match starts at the leftmost
 * `;` from which it completes. From that `;` the first `\s*` is forced (it
 * must stop right before a `-`), the second `\s*` keeps its longest run, and
 * the lazy group takes the shortest name after which `\s*---` follows.
 * `PatternAt` states the pattern declaratively; `MatchAt` is the matcher and
 * its contract says it returns exactly the match that the backtracking order
 * prefers.
 */
module Markers {
  import opened Text

  /** `---` starts at `i`. */
  predicate DashesAt(s: string, i: nat) {
    i + 3 <= |s| && s[i] == '-' && s[i + 1] == '-' && s[i + 2] == '-'
  }

  predicate NoTerminatorIn(s: string, i: nat, j: nat)
    requires i <= j <= |s|
  {
    forall k :: i <= k < j ==> !IsLineTerminator(s[k])
  }

  /** `\s*---` matches at `e`. Only the longest whitespace run can be followed by `-`. */
  predicate ClosesAt(s: string, e: nat)
    requires e <= |s|
  {
    DashesAt(s, SkipSpaces(s, e))
  }

  /** The whole pattern matches `s` from `p` with the first `---` at `a`,
      the group spanning `b..e` and the second `---` at `f`. */
  ghost predicate PatternAt(s: string, p: nat, a: nat, b: nat, e: nat, f: nat) {
    && p + 1 <= a && a + 3 <= b <= e <= f <= |s|
    && s[p] == ';'
    && SpacesBetween(s, p + 1, a)
    && DashesAt(s, a)
    && SpacesBetween(s, a + 3, b)
    && NoTerminatorIn(s, b, e)
    && SpacesBetween(s, e, f)
    && DashesAt(s, f)
  }

  /** Of the matches from `p`, the one backtracking reaches first: the second
      `\s*` as long as possible, then the group as short as possible. */
  ghost predicate Preferred(s: string, p: nat, a: nat, b: nat, e: nat)
    requires a + 3 <= |s|
  {
    && b == SkipSpaces(s, a + 3)
    && forall e': nat, f': nat :: b <= e' < e ==> !PatternAt(s, p, a, b, e', f')
  }

  /** The lazy `(.*?)` followed by `\s*---`: the first end `e >= i` from which
      `\s*---` follows, giving up at a line terminator (`LazyNameEndIsLeast`). */
  function LazyNameEnd(s: string, i: nat): (r: Option<nat>)
    requires i <= |s|
    ensures r.Some? ==> i <= r.value <= |s|
    decreases |s| - i
  {
    if ClosesAt(s, i) then Some(i)
    else if i < |s| && !IsLineTerminator(s[i]) then LazyNameEnd(s, i + 1)
    else None
  }

  /** The end found is the least one: no line terminator before it, `\s*---`
      after it and at no earlier end; when there is none, no end works. */
  lemma {:induction false} LazyNameEndIsLeast(s: string, i: nat)
    requires i <= |s|
    ensures var r := LazyNameEnd(s, i);
      && (r.Some? ==> NoTerminatorIn(s, i, r.value) && ClosesAt(s, r.value))
      && (r.Some? ==> forall e :: i <= e < r.value ==> !ClosesAt(s, e))
      && (r.None? ==> forall e :: i <= e <= |s| && NoTerminatorIn(s, i, e) ==> !ClosesAt(s, e))
    decreases |s| - i
  {
    if !ClosesAt(s, i) && i < |s| && !IsLineTerminator(s[i]) {
      LazyNameEndIsLeast(s, i + 1);
      assert forall e :: i + 1 <= e <= |s| && NoTerminatorIn(s, i, e) ==> NoTerminatorIn(s, i + 1, e);
    }
  }

  /** The name the pattern captures when matched from position `p`, if it
      matches there; `MatchAtIsPreferredMatch` relates it to `PatternAt`. */
  function MatchAt(s: string, p: nat): (r: Option<string>)
    requires p < |s|
    ensures r.Some? ==> s[p] == ';'
  {
    if s[p] != ';' then None
    else
      var a := SkipSpaces(s, p + 1);
      if !DashesAt(s, a) then None
      else
        var b := SkipSpaces(s, a + 3);
        match LazyNameEnd(s, b)
        case None => None
        case Some(e) => Some(s[b..e])
  }

  /** The matcher returns exactly the match that the backtracking order prefers,
      and nothing when the pattern cannot match from `p`. */
  lemma MatchAtIsPreferredMatch(s: string, p: nat)
    requires p < |s|
    ensures MatchAt(s, p).Some? ==>
      exists a: nat, b: nat, e: nat, f: nat :: PatternAt(s, p, a, b, e, f) && Preferred(s, p, a, b, e) && MatchAt(s, p).value == s[b..e]
    ensures MatchAt(s, p).None? ==> forall a: nat, b: nat, e: nat, f: nat :: !PatternAt(s, p, a, b, e, f)
  {
    if s[p] == ';' {
      var a := SkipSpaces(s, p + 1);
      if !DashesAt(s, a) {
        NoPatternWithoutDashes(s, p);
      } else {
        var b := SkipSpaces(s, a + 3);
        match LazyNameEnd(s, b)
        case None =>
          NoPatternWithoutName(s, p);
        case Some(e) =>
          LazyEndIsPreferred(s, p, e);
      }
    }
  }

  /** What every match from `p` has in common: the first `---` is forced, the
      second `\s*` could have run on to its longest split, and `\s*---` follows the group. */
  lemma PatternShape(s: string, p: nat, a: nat, b: nat, e: nat, f: nat)
    ensures PatternAt(s, p, a, b, e, f) ==>
      && a == SkipSpaces(s, p + 1)
      && SkipSpaces(s, a + 3) == SkipSpaces(s, b)
      && ClosesAt(s, e)
  {
    if PatternAt(s, p, a, b, e, f) {
      SkipSpacesAcross(s, p + 1, a);
      SkipSpacesAcross(s, a + 3, b);
      SkipSpacesAcross(s, e, f);
    }
  }

  lemma NoPatternWithoutDashes(s: string, p: nat)
    requires p < |s| && s[p] == ';'
    requires !DashesAt(s, SkipSpaces(s, p + 1))
    ensures forall a: nat, b: nat, e: nat, f: nat :: !PatternAt(s, p, a, b, e, f)
  {
    forall a: nat, b: nat, e: nat, f: nat
      ensures !PatternAt(s, p, a, b, e, f)
    {
      PatternShape(s, p, a, b, e, f);
    }
  }

  /** A match that splits the second `\s*` early still leaves the lazy group an
      end after the longest split. */
  lemma LongestSplitAlsoMatches(s: string, p: nat, a: nat, b: nat, e: nat, f: nat)
    ensures PatternAt(s, p, a, b, e, f) ==>
      var bMax := SkipSpaces(s, a + 3);
      exists e2: nat :: bMax <= e2 <= |s| && NoTerminatorIn(s, bMax, e2) && ClosesAt(s, e2)
  {
    if PatternAt(s, p, a, b, e, f) {
      PatternShape(s, p, a, b, e, f);
      var bMax := SkipSpaces(s, a + 3);
      if e >= bMax {
        assert NoTerminatorIn(s, bMax, e);
      } else {
        assert SpacesBetween(s, e, bMax);
        SkipSpacesAcross(s, e, bMax);
        assert NoTerminatorIn(s, bMax, bMax);
      }
    }
  }

  lemma NoPatternWithoutName(s: string, p: nat)
    requires p < |s| && s[p] == ';'
    requires DashesAt(s, SkipSpaces(s, p + 1))
    requires LazyNameEnd(s, SkipSpaces(s, SkipSpaces(s, p + 1) + 3)).None?
    ensures forall a: nat, b: nat, e: nat, f: nat :: !PatternAt(s, p, a, b, e, f)
  {
    forall a: nat, b: nat, e: nat, f: nat
      ensures !PatternAt(s, p, a, b, e, f)
    {
      NoMatchWithoutName(s, p, a, b, e, f);
    }
  }

  lemma NoMatchWithoutName(s: string, p: nat, a: nat, b: nat, e: nat, f: nat)
    requires p < |s| && s[p] == ';'
    requires DashesAt(s, SkipSpaces(s, p + 1))
    requires LazyNameEnd(s, SkipSpaces(s, SkipSpaces(s, p + 1) + 3)).None?
    ensures !PatternAt(s, p, a, b, e, f)
  {
    LazyNameEndIsLeast(s, SkipSpaces(s, SkipSpaces(s, p + 1) + 3));
    PatternShape(s, p, a, b, e, f);
    LongestSplitAlsoMatches(s, p, a, b, e, f);
  }

  /** The end the lazy group finds after the longest split gives the preferred match. */
  lemma LazyEndIsPreferred(s: string, p: nat, e: nat)
    requires p < |s| && s[p] == ';'
    requires DashesAt(s, SkipSpaces(s, p + 1))
    requires LazyNameEnd(s, SkipSpaces(s, SkipSpaces(s, p + 1) + 3)) == Some(e)
    ensures
      var a := SkipSpaces(s, p + 1);
      var b := SkipSpaces(s, a + 3);
      PatternAt(s, p, a, b, e, SkipSpaces(s, e)) && Preferred(s, p, a, b, e)
  {
    var a := SkipSpaces(s, p + 1);
    var b := SkipSpaces(s, a + 3);
    LazyNameEndIsLeast(s, b);
    forall e': nat, f': nat | b <= e' < e
      ensures !PatternAt(s, p, a, b, e', f')
    {
      NoEarlierEnd(s, p, a, b, e, e', f');
    }
  }

  lemma NoEarlierEnd(s: string, p: nat, a: nat, b: nat, e: nat, e': nat, f': nat)
    requires b <= e' < e <= |s|
    requires forall e'' :: b <= e'' < e ==> !ClosesAt(s, e'')
    ensures !PatternAt(s, p, a, b, e', f')
  {
    PatternShape(s, p, a, b, e', f');
  }

  /** A match found by the search: where its `;` is and the name it captures. */
  datatype Marker = Marker(pos: nat, name: string)

  /** The search `s.match(re)` starting at `p`: the leftmost position from which
      the pattern matches (`FindMarkerIsLeftmost`). */
  function FindMarkerFrom(s: string, p: nat): (r: Option<Marker>)
    requires p <= |s|
    ensures r.Some? ==> p <= r.value.pos < |s|
    decreases |s| - p
  {
    if p == |s| then None
    else match MatchAt(s, p)
      case Some(name) => Some(Marker(p, name))
      case None => FindMarkerFrom(s, p + 1)
  }

  lemma {:induction false} FindMarkerIsLeftmost(s: string, p: nat)
    requires p <= |s|
    ensures var r := FindMarkerFrom(s, p);
      && (r.Some? ==> MatchAt(s, r.value.pos) == Some(r.value.name))
      && (r.Some? ==> forall q :: p <= q < r.value.pos ==> MatchAt(s, q).None?)
      && (r.None? ==> forall q :: p <= q < |s| ==> MatchAt(s, q).None?)
    decreases |s| - p
  {
    if p < |s| {
      var m := MatchAt(s, p);
      FindMarkerStep(s, p, m);
      if m.None? {
        FindMarkerIsLeftmost(s, p + 1);
      }
    }
  }

  /** One step of the search, with the match at `p` already in hand. */
  lemma FindMarkerStep(s: string, p: nat, m: Option<string>)
    requires p < |s| && m == MatchAt(s, p)
    ensures m.Some? ==> FindMarkerFrom(s, p) == Some(Marker(p, m.value))
    ensures m.None? ==> FindMarkerFrom(s, p) == FindMarkerFrom(s, p + 1)
  {
  }

  /** The section name on a line, or `None` when the line is not a marker. */
  function MarkerName(line: string): Option<string> {
    match FindMarkerFrom(line, 0)
    case Some(m) => Some(m.name)
    case None => None
  }

  predicate IsMarker(line: string) {
    MarkerName(line).Some?
  }

  /** The search succeeds exactly when the pattern occurs somewhere in the line,
      and then the name comes from the leftmost occurrence. */
  lemma MarkerNameIsLeftmost(line: string)
    ensures MarkerName(line).None? <==>
      forall q: nat, a: nat, b: nat, e: nat, f: nat :: !PatternAt(line, q, a, b, e, f)
    ensures MarkerName(line).Some? ==>
      exists q: nat, a: nat, b: nat, e: nat, f: nat :: PatternAt(line, q, a, b, e, f) && Preferred(line, q, a, b, e)
        && MarkerName(line).value == line[b..e]
        && forall q': nat, a': nat, b': nat, e': nat, f': nat :: q' < q ==> !PatternAt(line, q', a', b', e', f')
  {
    var r := FindMarkerFrom(line, 0);
    FindMarkerIsLeftmost(line, 0);
    if r.None? {
      forall q: nat, a: nat, b: nat, e: nat, f: nat | q < |line|
        ensures !PatternAt(line, q, a, b, e, f)
      {
        MatchAtIsPreferredMatch(line, q);
      }
    } else {
      var q := r.value.pos;
      MatchAtIsPreferredMatch(line, q);
      forall q': nat, a': nat, b': nat, e': nat, f': nat | q' < q
        ensures !PatternAt(line, q', a', b', e', f')
      {
        MatchAtIsPreferredMatch(line, q');
      }
    }
  }

  /** A captured name never starts or ends with whitespace and never spans a line break. */
  lemma {:induction false} MatchIsTrimmed(s: string, p: nat)
    requires p < |s|
    requires MatchAt(s, p).Some?
    ensures IsTrimmed(MatchAt(s, p).value)
    ensures forall k :: 0 <= k < |MatchAt(s, p).value| ==> !IsLineTerminator(MatchAt(s, p).value[k])
  {
    var a := SkipSpaces(s, p + 1);
    var b := SkipSpaces(s, a + 3);
    var e := LazyNameEnd(s, b).value;
    LazyNameEndIsLeast(s, b);
    assert MatchAt(s, p).value == s[b..e];
    var n := s[b..e];
    if b < e {
      assert n[0] == s[b] && n[|n| - 1] == s[e - 1];
      SpaceBeforeRun(s, e);
      assert !ClosesAt(s, e - 1);
    }
  }

  lemma SpaceBeforeRun(s: string, i: nat)
    requires 0 < i <= |s|
    ensures IsSpace(s[i - 1]) ==> SkipSpaces(s, i - 1) == SkipSpaces(s, i)
  {
  }

  lemma MarkerNameIsTrimmed(line: string)
    requires IsMarker(line)
    ensures IsTrimmed(MarkerName(line).value)
    ensures forall k :: 0 <= k < |MarkerName(line).value| ==> !IsLineTerminator(MarkerName(line).value[k])
  {
    FindMarkerIsLeftmost(line, 0);
    MatchIsTrimmed(line, FindMarkerFrom(line, 0).value.pos);
  }

  /** A line without `;` is never a marker. */
  lemma NoSemicolonNoMarker(line: string)
    requires ';' !in line
    ensures MarkerName(line).None?
  {
    FindMarkerIsLeftmost(line, 0);
  }

  lemma MarkerExample1()
    ensures MarkerName("; --- INIT ---") == Some("INIT")
  {
    var s := "; --- INIT ---";
    MatchExample1();
    FindMarkerStep(s, 0, Some("INIT"));
  }

  lemma MatchExample1()
    ensures MatchAt("; --- INIT ---", 0) == Some("INIT")
  {
    var s := "; --- INIT ---";
    assert SkipSpaces(s, 1) == 2;
    assert SkipSpaces(s, 5) == 6;
    NameExample1();
    assert s[6..10] == "INIT";
  }

  lemma NameExample1()
    ensures LazyNameEnd("; --- INIT ---", 6) == Some(10)
  {
    var s := "; --- INIT ---";
    assert SkipSpaces(s, 10) == 11 && ClosesAt(s, 10);
    assert LazyNameEnd(s, 10) == Some(10);
    assert LazyNameEnd(s, 9) == Some(10);
    assert LazyNameEnd(s, 8) == Some(10);
    assert LazyNameEnd(s, 7) == Some(10);
  }

  /** Six dashes are already a marker, with an empty name. */
  lemma MarkerExample2()
    ensures MarkerName("; ------") == Some("")
  {
    var s := "; ------";
    assert SkipSpaces(s, 1) == 2;
    assert SkipSpaces(s, 5) == 5;
    assert ClosesAt(s, 5);
    assert LazyNameEnd(s, 5) == Some(5);
    assert s[5..5] == "";
  }

  /** The lazy group stops at the first closing dashes. */
  lemma MarkerExample4()
    ensures MarkerName(";---A---B---") == Some("A")
  {
    var s := ";---A---B---";
    assert SkipSpaces(s, 1) == 1;
    assert SkipSpaces(s, 4) == 4;
    assert !ClosesAt(s, 4) && ClosesAt(s, 5);
    assert LazyNameEnd(s, 4) == Some(5);
    assert s[4..5] == "A";
  }

  lemma MarkerExample3()
    ensures MarkerName(" JMP START") == None
  {
    var s := " JMP START";
    assert forall k :: 0 <= k < |s| ==> s[k] != ';';
    NoSemicolonNoMarker(s);
  }
}
