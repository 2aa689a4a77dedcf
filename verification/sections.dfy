/**
 * Section extraction for the flowchart view (`updateFlowChart`,
 * extension.js:464-530) and the boxes of the page it renders
 * (`generateFlowChartHtml`, extension.js:553-580).
 *
 * The document is split on '\n'. Every line on which the marker pattern
 * matches opens a section that runs from the line after the marker to the
 * line before the next marker, or to the last line of the document.
 */
module Sections {
  import opened Text
  import opened Markers
  import Escape

  /** One section: its name, the index of its marker line, the first and
      last line of its body, and the body's text. */
  datatype Section = Section(name: string, line: nat, startLine: nat, endLine: int, content: string)

  /** The marker name of every line, in document order. */
  function LineNames(lines: seq<string>): (names: seq<Option<string>>)
    ensures |names| == |lines|
  {
    seq(|lines|, i requires 0 <= i < |lines| => MarkerName(lines[i]))
  }

  /** `names` holds the marker name of every line. */
  predicate NamesOf(lines: seq<string>, names: seq<Option<string>>) {
    && |names| == |lines|
    && forall i {:trigger MarkerName(lines[i])} :: 0 <= i < |lines| ==> names[i] == MarkerName(lines[i])
  }

  lemma LineNamesAreNames(lines: seq<string>)
    ensures NamesOf(lines, LineNames(lines))
  {
  }

  /** The indices of the marker lines among the first `n` lines, in document order. */
  function MarkersBefore(names: seq<Option<string>>, n: nat): (ms: seq<nat>)
    requires n <= |names|
    ensures forall k :: 0 <= k < |ms| ==> ms[k] < n && names[ms[k]].Some?
    ensures forall k, l :: 0 <= k < l < |ms| ==> ms[k] < ms[l]
    ensures forall i :: 0 <= i < n && names[i].Some? ==> i in ms
  {
    if n == 0 then []
    else MarkersBefore(names, n - 1) + (if names[n - 1].Some? then [n - 1] else [])
  }

  /** The indices of all marker lines of the document. */
  function MarkerLines(lines: seq<string>): seq<nat> {
    MarkersBefore(LineNames(lines), |lines|)
  }

  /** The last line of section `k` of a document of `count` lines: the line
      before the next marker, or the document's last line for the last section. */
  function EndOf(count: nat, ms: seq<nat>, k: nat): int
    requires k < |ms|
  {
    if k + 1 < |ms| then ms[k + 1] - 1 else count - 1
  }

  /** The ranges of the sections of a document whose lines have the marker
      names `names`: one section per marker, in order, named after it,
      running from the line after it to the line before the next marker or
      to the last line. */
  ghost predicate RangesOf(names: seq<Option<string>>, sections: seq<Section>) {
    var ms := MarkersBefore(names, |names|);
    && |sections| == |ms|
    && forall k {:trigger sections[k]} :: 0 <= k < |sections| ==>
      && sections[k].line == ms[k]
      && names[ms[k]] == Some(sections[k].name)
      && sections[k].startLine == ms[k] + 1
      && sections[k].endLine == EndOf(|names|, ms, k)
      && sections[k].startLine <= sections[k].endLine + 1 <= |names|
  }

  /** The text of every section is the lines of its range joined with '\n'. */
  ghost predicate ContentsOf(lines: seq<string>, sections: seq<Section>) {
    forall k {:trigger sections[k]} :: 0 <= k < |sections| ==>
      && sections[k].startLine <= sections[k].endLine + 1 <= |lines|
      && sections[k].content == Join(lines[sections[k].startLine..sections[k].endLine + 1], '\n')
  }

  /** `sections` is what the two passes produce for `lines`. */
  ghost predicate SectionsOf(lines: seq<string>, sections: seq<Section>) {
    RangesOf(LineNames(lines), sections) && ContentsOf(lines, sections)
  }

  /** What pass 1 has built after scanning the first `n` lines: the ranges of
      all but the latest section are closed, the latest runs to the end, no
      content yet. */
  ghost predicate PassOneDone(names: seq<Option<string>>, n: nat, sections: seq<Section>)
    requires n <= |names|
  {
    var ms := MarkersBefore(names, n);
    && |sections| == |ms|
    && forall k {:trigger sections[k]} :: 0 <= k < |sections| ==>
      && sections[k].line == ms[k]
      && names[ms[k]] == Some(sections[k].name)
      && sections[k].startLine == ms[k] + 1
      && sections[k].endLine == EndOf(|names|, ms, k)
      && sections[k].content == ""
  }

  /** A marker on line `i` closes the latest section at line `i - 1` and opens a new one. */
  lemma PassOneOpens(names: seq<Option<string>>, i: nat, before: seq<Section>, after: seq<Section>)
    requires i < |names| && names[i].Some?
    requires PassOneDone(names, i, before)
    requires |after| == |before| + 1
    requires forall k :: 0 <= k < |before| - 1 ==> after[k] == before[k]
    requires |before| > 0 ==> after[|before| - 1] == before[|before| - 1].(endLine := i - 1)
    requires after[|before|] == Section(names[i].value, i, i + 1, |names| - 1, "")
    ensures PassOneDone(names, i + 1, after)
  {
    var ms, ms' := MarkersBefore(names, i), MarkersBefore(names, i + 1);
    assert ms' == ms + [i];
    forall k | 0 <= k < |after|
      ensures after[k].line == ms'[k]
      ensures names[ms'[k]] == Some(after[k].name)
      ensures after[k].startLine == ms'[k] + 1
      ensures after[k].endLine == EndOf(|names|, ms', k)
      ensures after[k].content == ""
    {
      if k + 1 < |before| {
        assert after[k] == before[k] && ms'[k] == ms[k] && ms'[k + 1] == ms[k + 1];
      } else if k + 1 == |before| {
        assert ms'[k] == ms[k] && ms'[k + 1] == i;
      } else {
        assert ms'[k] == i && k + 1 == |ms'|;
      }
    }
  }

  /** A line that is not a marker changes nothing. */
  lemma PassOneSkips(names: seq<Option<string>>, i: nat, sections: seq<Section>)
    requires i < |names| && names[i].None?
    requires PassOneDone(names, i, sections)
    ensures PassOneDone(names, i + 1, sections)
  {
    assert MarkersBefore(names, i + 1) == MarkersBefore(names, i);
  }

  /** `updateFlowChart`'s two passes over the document's lines. */
  method ExtractSections(text: string) returns (sections: seq<Section>)
    ensures SectionsOf(Split(text, '\n'), sections)
  {
    var lines := Split(text, '\n');
    ghost var names := LineNames(lines);
    LineNamesAreNames(lines);
    var closed := RecordMarkers(lines, names);
    sections := SliceContents(lines, names, closed);
  }

  /** Pass 1: record every marker; a new marker closes the previous section
      at the line before it, the latest section runs to the end. */
  method RecordMarkers(lines: seq<string>, ghost names: seq<Option<string>>) returns (sections: seq<Section>)
    requires NamesOf(lines, names)
    ensures PassOneDone(names, |lines|, sections)
  {
    sections := [];
    var i := 0;
    assert MarkersBefore(names, 0) == [];
    while i < |lines|
      invariant 0 <= i <= |lines|
      invariant PassOneDone(names, i, sections)
    {
      var m := MarkerName(lines[i]);
      sections := RecordLine(names, sections, i, m, |lines|);
      i := i + 1;
    }
  }

  /** What one line does in pass 1, given its marker name `m`. */
  method RecordLine(ghost names: seq<Option<string>>, before: seq<Section>, i: nat, m: Option<string>, count: nat)
    returns (sections: seq<Section>)
    requires count == |names| && i < count && names[i] == m
    requires PassOneDone(names, i, before)
    ensures PassOneDone(names, i + 1, sections)
  {
    sections := before;
    match m {
      case Some(name) =>
        if |sections| > 0 {
          var last := |sections| - 1;
          sections := sections[last := sections[last].(endLine := i - 1)];
        }
        sections := sections + [Section(name, i, i + 1, count - 1, "")];
        PassOneOpens(names, i, before, sections);
      case None =>
        PassOneSkips(names, i, sections);
    }
  }

  /** Pass 2: fix each non-last range at the next marker and slice out the text. */
  method SliceContents(lines: seq<string>, ghost names: seq<Option<string>>, closed: seq<Section>)
    returns (sections: seq<Section>)
    requires |names| == |lines|
    requires PassOneDone(names, |lines|, closed)
    ensures RangesOf(names, sections) && ContentsOf(lines, sections)
  {
    PassOneRanges(names, closed);
    sections := FillContents(lines, closed);
    PassTwoDone(names, lines, closed, sections);
  }

  /** Pass 2: each section's range is closed by the next marker and its text is sliced out. */
  method FillContents(lines: seq<string>, closed: seq<Section>) returns (sections: seq<Section>)
    requires forall k :: 0 <= k < |closed| ==> closed[k].startLine <= closed[k].endLine + 1 <= |lines|
    requires forall k :: 0 <= k < |closed| - 1 ==> closed[k].endLine == closed[k + 1].line - 1
    ensures sections == FilledIn(lines, closed)
  {
    ghost var filled := FilledIn(lines, closed);
    sections := closed;
    var j := 0;
    while j < |sections|
      invariant 0 <= j <= |sections| == |closed|
      invariant sections == filled[..j] + closed[j..]
    {
      NotYetFilled(filled, closed, j);
      var section := FillSection(lines, closed, sections, j);
      FillOneMore(filled, closed, j, section);
      sections := sections[j := section];
      j := j + 1;
    }
  }

  /** One step of pass 2: section `j` ends before the next section's marker,
      and its text is sliced out. */
  method FillSection(lines: seq<string>, ghost closed: seq<Section>, sections: seq<Section>, j: nat)
    returns (section: Section)
    requires |sections| == |closed| && j < |sections|
    requires closed[j].startLine <= closed[j].endLine + 1 <= |lines|
    requires j + 1 < |closed| ==> closed[j].endLine == closed[j + 1].line - 1
    requires sections[j] == closed[j]
    requires j + 1 < |sections| ==> sections[j + 1] == closed[j + 1]
    ensures section == WithContent(lines, closed[j])
  {
    section := sections[j];
    if j < |sections| - 1 {
      section := section.(endLine := sections[j + 1].line - 1);
    }
    section := section.(content := Join(lines[section.startLine..section.endLine + 1], '\n'));
  }

  lemma NotYetFilled<T>(filled: seq<T>, old_: seq<T>, j: nat)
    requires |filled| == |old_| && j < |filled|
    ensures (filled[..j] + old_[j..])[j] == old_[j]
    ensures j + 1 < |filled| ==> (filled[..j] + old_[j..])[j + 1] == old_[j + 1]
  {
  }

  /** The sections of pass 1 with their text sliced out. */
  ghost function FilledIn(lines: seq<string>, closed: seq<Section>): (r: seq<Section>)
    requires forall k :: 0 <= k < |closed| ==> closed[k].startLine <= closed[k].endLine + 1 <= |lines|
    ensures |r| == |closed|
    ensures forall k :: 0 <= k < |r| ==> r[k] == WithContent(lines, closed[k])
  {
    seq(|closed|, k requires 0 <= k < |closed| => WithContent(lines, closed[k]))
  }

  /** Replacing the next element of a half-updated sequence by its new value. */
  lemma FillOneMore<T>(filled: seq<T>, old_: seq<T>, j: nat, x: T)
    requires |filled| == |old_| && j < |filled| && x == filled[j]
    ensures (filled[..j] + old_[j..])[j := x] == filled[..j + 1] + old_[j + 1..]
  {
  }

  /** A pass-1 section with its text sliced out of the document. */
  function WithContent(lines: seq<string>, s: Section): Section
    requires s.startLine <= s.endLine + 1 <= |lines|
  {
    s.(content := Join(lines[s.startLine..s.endLine + 1], '\n'))
  }

  /** After pass 1 every range can be sliced, and each non-last range already
      ends right before the next marker. */
  lemma PassOneRanges(names: seq<Option<string>>, closed: seq<Section>)
    requires PassOneDone(names, |names|, closed)
    ensures forall k :: 0 <= k < |closed| ==> closed[k].startLine <= closed[k].endLine + 1 <= |names|
    ensures forall k :: 0 <= k < |closed| - 1 ==> closed[k].endLine == closed[k + 1].line - 1
  {
    var ms := MarkersBefore(names, |names|);
    forall k | 0 <= k < |closed|
      ensures closed[k].startLine <= closed[k].endLine + 1 <= |names|
    {
      if k + 1 < |ms| {
        assert ms[k] < ms[k + 1] && closed[k + 1].line == ms[k + 1];
      }
    }
  }

  lemma PassTwoDone(names: seq<Option<string>>, lines: seq<string>, closed: seq<Section>, sections: seq<Section>)
    requires |names| == |lines|
    requires PassOneDone(names, |names|, closed)
    requires forall k :: 0 <= k < |closed| ==> closed[k].startLine <= closed[k].endLine + 1 <= |lines|
    requires |sections| == |closed|
    requires forall k :: 0 <= k < |closed| ==> sections[k] == WithContent(lines, closed[k])
    ensures RangesOf(names, sections) && ContentsOf(lines, sections)
  {
    var ms := MarkersBefore(names, |names|);
    forall k | 0 <= k < |sections|
      ensures sections[k].line == ms[k]
      ensures names[ms[k]] == Some(sections[k].name)
      ensures sections[k].startLine == ms[k] + 1
      ensures sections[k].endLine == EndOf(|names|, ms, k)
      ensures sections[k].startLine <= sections[k].endLine + 1 <= |names|
    {
      assert sections[k] == closed[k].(content := sections[k].content);
    }
    forall k | 0 <= k < |sections|
      ensures sections[k].startLine <= sections[k].endLine + 1 <= |lines|
      ensures sections[k].content == Join(lines[sections[k].startLine..sections[k].endLine + 1], '\n')
    {
      assert sections[k] == WithContent(lines, closed[k]);
    }
  }

  /** Every section is named after its marker line, and that line is a marker. */
  lemma SectionsAreNamed(lines: seq<string>, sections: seq<Section>)
    requires SectionsOf(lines, sections)
    ensures forall k :: 0 <= k < |sections| ==>
      sections[k].line < |lines| && MarkerName(lines[sections[k].line]) == Some(sections[k].name)
  {
    LineNamesAreNames(lines);
  }

  /** Ranges come in marker order, each starts right after its marker, and
      consecutive ranges are separated by exactly the next marker line. */
  lemma SectionsAreOrdered(names: seq<Option<string>>, sections: seq<Section>)
    requires RangesOf(names, sections)
    ensures forall k :: 0 <= k < |sections| ==> sections[k].line < sections[k].startLine
    ensures forall k :: 0 <= k && k + 1 < |sections| ==>
      sections[k].endLine + 1 == sections[k + 1].line
    ensures forall k, l :: 0 <= k < l < |sections| ==> sections[k].endLine < sections[l].startLine
    ensures |sections| > 0 ==> sections[|sections| - 1].endLine == |names| - 1
  {
    var ms := MarkersBefore(names, |names|);
    forall k | 0 <= k && k + 1 < |sections|
      ensures sections[k].endLine + 1 == sections[k + 1].line
    {
      assert sections[k].endLine == ms[k + 1] - 1 && sections[k + 1].line == ms[k + 1];
    }
    forall k, l | 0 <= k < l < |sections|
      ensures sections[k].endLine < sections[l].startLine
    {
      assert sections[k].endLine == ms[k + 1] - 1 && sections[l].startLine == ms[l] + 1;
      assert ms[k + 1] <= ms[l];
    }
  }

  /** No range contains a marker line. */
  lemma RangesHoldNoMarker(names: seq<Option<string>>, sections: seq<Section>)
    requires RangesOf(names, sections)
    ensures forall k, i :: 0 <= k < |sections| && sections[k].startLine <= i <= sections[k].endLine ==>
      i < |names| && names[i].None?
  {
    var ms := MarkersBefore(names, |names|);
    forall k, i | 0 <= k < |sections| && sections[k].startLine <= i <= sections[k].endLine
      ensures i < |names| && names[i].None?
    {
      forall l | 0 <= l < |ms| ensures ms[l] != i {
        if l <= k {
          assert ms[l] <= ms[k];
        } else {
          assert ms[k + 1] <= ms[l];
        }
      }
    }
  }

  /** On the document's lines: no line inside a range is a marker. */
  lemma RangeLinesAreNotMarkers(lines: seq<string>, sections: seq<Section>)
    requires SectionsOf(lines, sections)
    ensures forall k, i :: 0 <= k < |sections| && sections[k].startLine <= i <= sections[k].endLine ==>
      i < |lines| && !IsMarker(lines[i])
  {
    LineNamesAreNames(lines);
    RangesHoldNoMarker(LineNames(lines), sections);
  }

  /** The ranges cover the body: a line lies in some range exactly when it is
      not a marker and comes after the first marker. */
  lemma RangesCoverBody(names: seq<Option<string>>, sections: seq<Section>, i: nat)
    requires RangesOf(names, sections)
    requires i < |names|
    ensures (exists k :: 0 <= k < |sections| && sections[k].startLine <= i <= sections[k].endLine)
      <==> (names[i].None? && |sections| > 0 && sections[0].line < i)
  {
    RangesHoldNoMarker(names, sections);
    if names[i].None? && |sections| > 0 && sections[0].line < i {
      var k := LastMarkerAbove(names, sections, i);
      assert sections[k].startLine <= i <= sections[k].endLine;
    }
    if exists k :: 0 <= k < |sections| && sections[k].startLine <= i <= sections[k].endLine {
      var k :| 0 <= k < |sections| && sections[k].startLine <= i <= sections[k].endLine;
      SectionsAreOrdered(names, sections);
      assert sections[0].line <= sections[k].line;
    }
  }

  /** The section of the last marker above a non-marker line holds that line. */
  lemma LastMarkerAbove(names: seq<Option<string>>, sections: seq<Section>, i: nat) returns (k: nat)
    requires RangesOf(names, sections)
    requires i < |names| && names[i].None? && |sections| > 0 && sections[0].line < i
    ensures k < |sections| && sections[k].startLine <= i <= sections[k].endLine
  {
    var ms := MarkersBefore(names, |names|);
    k := 0;
    while k + 1 < |ms| && ms[k + 1] < i
      invariant 0 <= k < |ms| && ms[k] < i
    {
      k := k + 1;
    }
    if k + 1 < |ms| {
      assert ms[k + 1] != i;
    }
  }

  /** On the document's lines: a line lies in some range exactly when it is
      not a marker and comes after the first marker. */
  lemma BodyLines(lines: seq<string>, sections: seq<Section>, i: nat)
    requires SectionsOf(lines, sections)
    requires i < |lines|
    ensures (exists k :: 0 <= k < |sections| && sections[k].startLine <= i <= sections[k].endLine)
      <==> (!IsMarker(lines[i]) && |sections| > 0 && sections[0].line < i)
  {
    LineNamesAreNames(lines);
    RangesCoverBody(LineNames(lines), sections, i);
  }

  /** A section whose marker is followed at once by another marker, or whose
      marker is the document's last line, has empty text. */
  lemma EmptyBodyHasNoContent(lines: seq<string>, sections: seq<Section>, k: nat)
    requires SectionsOf(lines, sections)
    requires k < |sections|
    requires (k + 1 < |sections| && sections[k + 1].line == sections[k].line + 1)
          || (k + 1 == |sections| && sections[k].line == |lines| - 1)
    ensures sections[k].content == ""
  {
    assert sections[k].startLine == sections[k].endLine + 1;
  }

  /** The text of a section is exactly the lines of its range: splitting it
      on '\n' gives them back. */
  lemma ContentIsRange(text: string, sections: seq<Section>, k: nat)
    requires ContentsOf(Split(text, '\n'), sections)
    requires k < |sections|
    requires sections[k].startLine <= sections[k].endLine
    ensures Split(sections[k].content, '\n') == Split(text, '\n')[sections[k].startLine..sections[k].endLine + 1]
  {
    var lines := Split(text, '\n');
    var range := lines[sections[k].startLine..sections[k].endLine + 1];
    forall m | 0 <= m < |range| ensures '\n' !in range[m] {
      assert range[m] == lines[sections[k].startLine + m];
    }
    SplitJoin(range, '\n');
  }

  /** No line of the document is a section marker. */
  predicate NoMarkerLine(lines: seq<string>) {
    forall i :: 0 <= i < |lines| ==> !IsMarker(lines[i])
  }

  /** A document without any marker line yields no sections. */
  lemma NoMarkersNoSections(lines: seq<string>, sections: seq<Section>)
    requires SectionsOf(lines, sections)
    ensures |sections| == 0 <==> NoMarkerLine(lines)
  {
    var names := LineNames(lines);
    LineNamesAreNames(lines);
    if |sections| > 0 {
      assert IsMarker(lines[sections[0].line]);
    }
    if exists i :: 0 <= i < |lines| && IsMarker(lines[i]) {
      var i :| 0 <= i < |lines| && IsMarker(lines[i]);
      assert i in MarkersBefore(names, |names|);
    }
  }

  /** One box of the flowchart: the section's position, its marker line (the
      line a click jumps to), its header and its escaped code. */
  datatype Box = Box(index: nat, line: nat, header: string, code: string)

  /** The page the view shows: the placeholder that explains the marker syntax,
      or the chart with one box per section. */
  datatype Page = Placeholder | FlowChart(boxes: seq<Box>)

  /** The page for a list of sections: the placeholder when there are none. */
  function RenderPage(sections: seq<Section>): (p: Page)
    ensures p.Placeholder? <==> |sections| == 0
    ensures p.FlowChart? ==> |p.boxes| == |sections|
    ensures p.FlowChart? ==> forall k :: 0 <= k < |sections| ==>
      && p.boxes[k].index == k
      && p.boxes[k].line == sections[k].line
      && p.boxes[k].header == sections[k].name
      && Escape.Unescape(p.boxes[k].code) == sections[k].content
      && Escape.WellEscaped(p.boxes[k].code)
  {
    if |sections| == 0 then Placeholder
    else
      CodeRoundTrips(sections);
      FlowChart(seq(|sections|, k requires 0 <= k < |sections| =>
        Box(k, sections[k].line, sections[k].name, Escape.EscapeHtml(sections[k].content))))
  }

  lemma CodeRoundTrips(sections: seq<Section>)
    ensures forall k :: 0 <= k < |sections| ==>
      && Escape.Unescape(Escape.EscapeHtml(sections[k].content)) == sections[k].content
      && Escape.WellEscaped(Escape.EscapeHtml(sections[k].content))
  {
    forall k | 0 <= k < |sections|
      ensures Escape.Unescape(Escape.EscapeHtml(sections[k].content)) == sections[k].content
      ensures Escape.WellEscaped(Escape.EscapeHtml(sections[k].content))
    {
      Escape.UnescapeEscape(sections[k].content);
      Escape.EscapeHtmlIsWellEscaped(sections[k].content);
    }
  }

  /** `updateFlowChart`: extract the sections, then show the placeholder or the chart. */
  method UpdateFlowChart(text: string) returns (page: Page)
    ensures page.Placeholder? <==> NoMarkerLine(Split(text, '\n'))
    ensures page.FlowChart? ==>
      var ms := MarkerLines(Split(text, '\n'));
      |page.boxes| == |ms| && forall k :: 0 <= k < |ms| ==> page.boxes[k].line == ms[k]
    ensures page.FlowChart? ==> ShowsSections(Split(text, '\n'), page.boxes)
  {
    var sections := ExtractSections(text);
    NoMarkersNoSections(Split(text, '\n'), sections);
    page := RenderPage(sections);
    BoxesShowSections(Split(text, '\n'), sections);
  }

  /** Box `k` is headed by the name on the `k`-th marker line of `lines` and
      shows, escaped, the lines from there to the next marker. */
  ghost predicate ShowsSections(lines: seq<string>, boxes: seq<Box>) {
    var ms := MarkerLines(lines);
    forall k :: 0 <= k < |boxes| ==> k < |ms| && ShowsSection(lines, ms, k, boxes[k])
  }

  ghost predicate ShowsSection(lines: seq<string>, ms: seq<nat>, k: nat, box: Box)
    requires k < |ms|
  {
    && box.index == k
    && ms[k] + 1 <= EndOf(|lines|, ms, k) + 1 <= |lines|
    && MarkerName(lines[ms[k]]) == Some(box.header)
    && Escape.Unescape(box.code) == Join(lines[ms[k] + 1..EndOf(|lines|, ms, k) + 1], '\n')
    && Escape.WellEscaped(box.code)
  }

  /** Box `k` of the rendered page is headed by the name on marker line `k`
      and shows, escaped, the lines from there to the next marker. */
  lemma BoxesShowSections(lines: seq<string>, sections: seq<Section>)
    requires SectionsOf(lines, sections)
    ensures var page := RenderPage(sections);
      page.FlowChart? ==> ShowsSections(lines, page.boxes)
  {
    var page, ms := RenderPage(sections), MarkerLines(lines);
    SectionsAreNamed(lines, sections);
    if page.FlowChart? {
      forall k | 0 <= k < |page.boxes|
        ensures k < |ms| && ShowsSection(lines, ms, k, page.boxes[k])
      {
        assert sections[k].line == ms[k];
      }
    }
  }
}
