/**
 * The column formatter (`provideDocumentFormattingEdits`, extension.js:260-355).
 *
 * Each line is split into an optional label, an instruction, two operands
 * and a comment; the widths of the four code columns are the longest entries
 * of the whole document; each line is rebuilt with its fields padded to those
 * widths, and comments are aligned two columns after the longest code.
 * The formatting style is a plain parameter (the extension keeps it in the
 * editor's global state and the toggle command flips it, extension.js:365).
 */
module Formatter {
  import opened Text

  datatype Style = Full | Compact

  /** The toggle command: the other style. */
  function Toggle(s: Style): (t: Style)
    ensures t != s
  {
    if s == Full then Compact else Full
  }

  /** The five parts of a source line. The four code fields never hold
      whitespace; the comment is trimmed and starts with `;` when present. */
  datatype Fields = Fields(lbl: string, inst: string, op1: string, op2: string, comment: string)

  predicate NoCode(f: Fields) {
    f.lbl == "" && f.inst == "" && f.op1 == "" && f.op2 == ""
  }

  predicate StartsWith(s: string, prefix: string) {
    |prefix| <= |s| && s[..|prefix|] == prefix
  }

  /** The whitespace-separated words of `s[i..]`. */
  function Words(s: string, i: nat): (ws: seq<string>)
    requires i <= |s|
    decreases |s| - i
  {
    var j := SkipSpaces(s, i);
    if j == |s| then []
    else
      var k := SkipNonSpaces(s, j);
      [s[j..k]] + Words(s, k)
  }

  /** Every word is non-empty and holds no whitespace. */
  lemma {:induction false} WordsAreWords(s: string, i: nat)
    requires i <= |s|
    ensures forall k :: 0 <= k < |Words(s, i)| ==> |Words(s, i)[k]| > 0 && NoSpaces(Words(s, i)[k])
    decreases |s| - i
  {
    var j := SkipSpaces(s, i);
    if j < |s| {
      var k := SkipNonSpaces(s, j);
      WordsAreWords(s, k);
      assert Words(s, i) == [s[j..k]] + Words(s, k);
    }
  }

  /** `s` with every whitespace character removed. */
  function RemoveSpaces(s: string): (r: string)
    ensures NoSpaces(r)
  {
    if |s| == 0 then ""
    else (if IsSpace(s[0]) then "" else [s[0]]) + RemoveSpaces(s[1..])
  }

  function Concat(ws: seq<string>): string {
    if |ws| == 0 then "" else ws[0] + Concat(ws[1..])
  }

  /** A label as the field pattern's first group captures it: an
      identifier and its colon. */
  predicate IsLabel(lbl: string) {
    |lbl| >= 2 && lbl[|lbl| - 1] == ':' && IsIdentifier(lbl[..|lbl| - 1])
  }

  /** The end of a leading `[A-Za-z_]\w*:` label, just after its colon: found
      exactly when the code starts with an identifier followed at once by `:`. */
  function LabelEnd(code: string): (r: Option<nat>)
    ensures r.Some? ==> r.value <= |code| && IsLabel(code[..r.value])
    ensures forall n :: 0 < n < |code| && IsIdentifier(code[..n]) && code[n] == ':' ==> r == Some(n + 1)
  {
    assert forall n :: 0 < n < |code| && IsIdentifier(code[..n]) && code[n] == ':' ==>
      IsIdentStart(code[0]) && SkipWordChars(code, 1) == n
    by {
      forall n | 0 < n < |code| && IsIdentifier(code[..n]) && code[n] == ':'
        ensures IsIdentStart(code[0]) && SkipWordChars(code, 1) == n
      {
        IdentifierThenColon(code, n);
      }
    }
    if |code| > 0 && IsIdentStart(code[0]) then
      var w := SkipWordChars(code, 1);
      if w < |code| && code[w] == ':' then
        assert code[..w + 1][..w] == code[..w];
        Some(w + 1)
      else None
    else None
  }

  lemma IdentifierThenColon(code: string, n: nat)
    requires 0 < n < |code| && IsIdentifier(code[..n]) && code[n] == ':'
    ensures IsIdentStart(code[0]) && SkipWordChars(code, 1) == n
  {
    assert code[0] == code[..n][0];
    forall j | 1 <= j < n ensures IsWordChar(code[j]) {
      assert code[j] == code[..n][j];
    }
    WordCharsEndAt(code, 1, n);
  }

  /** The three instruction/operand fields for at most three words: the
      words in order, the missing ones empty. */
  function Pad3(ws: seq<string>): (r: seq<string>)
    requires |ws| <= 3
    ensures |r| == 3
    ensures forall k :: 0 <= k < 3 ==> r[k] == if k < |ws| then ws[k] else ""
  {
    if |ws| == 0 then ["", "", ""]
    else if |ws| == 1 then [ws[0], "", ""]
    else if |ws| == 2 then [ws[0], ws[1], ""]
    else [ws[0], ws[1], ws[2]]
  }

  /** The fields for a label and at most three words after it. */
  function FieldsOf(lbl: string, ws: seq<string>): (f: Fields)
    requires |ws| <= 3
    ensures f.lbl == lbl && f.comment == ""
    ensures f.inst == (if |ws| > 0 then ws[0] else "")
    ensures f.op1 == (if |ws| > 1 then ws[1] else "")
    ensures f.op2 == (if |ws| > 2 then ws[2] else "")
  {
    var p := Pad3(ws);
    Fields(lbl, p[0], p[1], p[2], "")
  }

  /** `gaps[0] + ws[0] + gaps[1] + ws[1] + ... + ws[n - 1] + gaps[n]` */
  function Weave(gaps: seq<string>, ws: seq<string>): string
    requires |gaps| == |ws| + 1
    decreases |ws|
  {
    if |ws| == 0 then gaps[0] else gaps[0] + ws[0] + Weave(gaps[1..], ws[1..])
  }

  /** The gaps are blank, and those between two words are not empty; the
      words are not empty and hold no blank. */
  predicate RunsApart(gaps: seq<string>, ws: seq<string>) {
    && |gaps| == |ws| + 1
    && (forall k :: 0 <= k < |gaps| ==> AllSpaces(gaps[k]))
    && (forall k :: 0 < k < |ws| ==> gaps[k] != "")
    && (forall k :: 0 <= k < |ws| ==> ws[k] != "" && NoSpaces(ws[k]))
  }

  /** `s[p..]` is the words `ws` separated by blanks, with blanks allowed at
      both ends: `\s*(\S+)(?:\s+(\S+))*\s*` with one word per group. */
  ghost predicate SplitsInto(s: string, p: nat, ws: seq<string>)
    requires p <= |s|
  {
    exists gaps :: RunsApart(gaps, ws) && Weave(gaps, ws) == s[p..]
  }

  /** The pattern `^\s*([A-Za-z_][\w]*:)?\s*(\S+)?(?:\s+(\S+))?(?:\s+(\S+))?$`
      matches the trimmed code part `code` with `lbl` in the label group
      (empty when the group is skipped) and the words `ws` in the
      instruction and operand groups, filled from the left as the greedy
      groups are. On a trimmed code part the trailing blanks `SplitsInto`
      allows are always empty. */
  ghost predicate FieldPattern(code: string, lbl: string, ws: seq<string>) {
    && |ws| <= 3
    && (lbl == "" || IsLabel(lbl))
    && |lbl| <= |code| && code[..|lbl|] == lbl
    && SplitsInto(code, |lbl|, ws)
  }

  /** Some match fills the label group. */
  ghost predicate Labelled(code: string) {
    exists lbl, ws :: lbl != "" && FieldPattern(code, lbl, ws)
  }

  /** The match of the field pattern on a trimmed code part: with the label
      when one leads and at most three words follow it, else without a label
      when the whole code part has at most three words, else no match and
      four empty fields. */
  function SplitCode(code: string): (f: Fields)
    requires IsTrimmed(code)
    ensures f.comment == ""
  {
    var le := LabelEnd(code);
    if le.Some? && |Words(code, le.value)| <= 3 then FieldsOf(code[..le.value], Words(code, le.value))
    else if |Words(code, 0)| <= 3 then FieldsOf("", Words(code, 0))
    else Fields("", "", "", "", "")
  }

  /** `/^\s*;/`: the first non-blank character is `;`. */
  predicate IsCommentLine(raw: string) {
    var j := SkipSpaces(raw, 0);
    j < |raw| && raw[j] == ';'
  }

  /** `IsCommentLine` is `/^\s*;/`: a `;` with only blanks before it. */
  lemma IsCommentLineIsPattern(raw: string)
    ensures IsCommentLine(raw) <==> exists j: nat :: j < |raw| && SpacesBetween(raw, 0, j) && raw[j] == ';'
  {
    if exists j: nat :: j < |raw| && SpacesBetween(raw, 0, j) && raw[j] == ';' {
      var j: nat :| j < |raw| && SpacesBetween(raw, 0, j) && raw[j] == ';';
      SkipSpacesIs(raw, 0, j);
    }
  }

  /** The code part of a line that is not a comment line: the text before the
      first `;`, trimmed. */
  function CodePart(raw: string): (c: string)
    ensures IsTrimmed(c) && ';' !in c
    ensures exists a: nat ::
      && a + |c| <= FirstIndex(raw, ';') && c == raw[a..a + |c|]
      && SpacesBetween(raw, 0, a) && SpacesBetween(raw, a + |c|, FirstIndex(raw, ';'))
  {
    TrimOfPrefix(raw, FirstIndex(raw, ';'));
    Trim(raw[..FirstIndex(raw, ';')])
  }

  /** Trimming a prefix of `s` leaves a slice of `s` with only blanks around
      it inside the prefix. */
  lemma TrimOfPrefix(s: string, n: nat)
    requires n <= |s|
    ensures var c := Trim(s[..n]);
      exists a: nat :: a + |c| <= n && c == s[a..a + |c|] && SpacesBetween(s, 0, a) && SpacesBetween(s, a + |c|, n)
  {
    var p := s[..n];
    var t := TrimStart(p);
    var c := TrimEnd(t);
    assert c == Trim(p);
    var a := |p| - |t|;
    assert c == p[a..a + |c|];
    assert c == s[a..a + |c|];
    assert SpacesBetween(s, 0, a) by {
      forall k | 0 <= k < a ensures IsSpace(s[k]) {
        assert s[k] == p[k];
      }
    }
    assert SpacesBetween(s, a + |c|, n) by {
      forall k | a + |c| <= k < n ensures IsSpace(s[k]) {
        assert s[k] == p[k];
      }
    }
  }

  /** The fields of one line (extension.js:268-288). */
  function ParseLine(raw: string): (f: Fields)
    ensures f.comment != "" <==> ';' in raw
    ensures f.comment != "" ==> f.comment[0] == ';' && IsTrimmed(f.comment)
    ensures NoSpaces(f.lbl) && NoSpaces(f.inst) && NoSpaces(f.op1) && NoSpaces(f.op2)
    ensures IsCommentLine(raw) ==> f == Fields("", "", "", "", Trim(raw))
    ensures !IsCommentLine(raw) ==> f.comment == Trim(raw[FirstIndex(raw, ';')..])
  {
    if IsCommentLine(raw) then
      CommentLineTrim(raw);
      Fields("", "", "", "", Trim(raw))
    else
      var ci := FirstIndex(raw, ';');
      var code := CodePart(raw);
      var comment := if ci < |raw| then Trim(raw[ci..]) else "";
      CommentTrim(raw, ci);
      SplitFieldsHaveNoSpaces(code);
      if code == "" then Fields("", "", "", "", comment)
      else SplitCode(code).(comment := comment)
  }

  lemma CommentLineTrim(raw: string)
    requires IsCommentLine(raw)
    ensures Trim(raw) != "" && Trim(raw)[0] == ';'
  {
    var j := SkipSpaces(raw, 0);
    assert TrimStart(raw) == raw[j..];
    TrimEndKeepsNonSpace(raw[j..], 0);
  }

  lemma CommentTrim(raw: string, ci: nat)
    requires ci <= |raw| && (ci < |raw| ==> raw[ci] == ';')
    ensures ci < |raw| ==> Trim(raw[ci..]) != "" && Trim(raw[ci..])[0] == ';'
  {
    if ci < |raw| {
      assert TrimStart(raw[ci..]) == raw[ci..];
      TrimEndKeepsNonSpace(raw[ci..], 0);
    }
  }

  /** `trimEnd` keeps every character up to the last non-blank one. */
  lemma TrimEndKeepsNonSpace(s: string, k: nat)
    requires k < |s| && !IsSpace(s[k])
    ensures k < |TrimEnd(s)|
  {
  }

  lemma SplitFieldsHaveNoSpaces(code: string)
    requires IsTrimmed(code)
    ensures var f := SplitCode(code);
      NoSpaces(f.lbl) && NoSpaces(f.inst) && NoSpaces(f.op1) && NoSpaces(f.op2)
  {
    if LabelEnd(code).Some? {
      LabelHasNoSpaces(code);
      WordsAreWords(code, LabelEnd(code).value);
    }
    WordsAreWords(code, 0);
  }

  /** The widths of the four code columns. */
  datatype Widths = Widths(lbl: nat, inst: nat, op1: nat, op2: nat)

  /** `Math.max(...xs)` for a non-empty list; 0 for an empty one. */
  function MaxOf(xs: seq<nat>): (m: nat)
    ensures forall i :: 0 <= i < |xs| ==> xs[i] <= m
    ensures |xs| > 0 ==> exists i :: 0 <= i < |xs| && xs[i] == m
    ensures |xs| == 0 ==> m == 0
  {
    if |xs| == 0 then 0
    else
      var m := MaxOf(xs[1..]);
      if xs[0] >= m then xs[0] else m
  }

  /** The four code columns. */
  datatype Column = Lbl | Inst | Op1 | Op2

  function Cell(f: Fields, c: Column): string {
    match c
    case Lbl => f.lbl
    case Inst => f.inst
    case Op1 => f.op1
    case Op2 => f.op2
  }

  /** The longest entry of one column over the whole document. */
  function ColumnWidth(fs: seq<Fields>, c: Column): (m: nat)
    ensures forall i :: 0 <= i < |fs| ==> |Cell(fs[i], c)| <= m
    ensures |fs| > 0 ==> exists i :: 0 <= i < |fs| && |Cell(fs[i], c)| == m
    ensures |fs| == 0 ==> m == 0
  {
    var xs := seq(|fs|, i requires 0 <= i < |fs| => |Cell(fs[i], c)|);
    assert forall i :: 0 <= i < |fs| ==> xs[i] == |Cell(fs[i], c)|;
    MaxOf(xs)
  }

  /** The longest entry of each column over the whole document. */
  function WidthsOf(fs: seq<Fields>): (w: Widths)
    ensures forall i :: 0 <= i < |fs| ==>
      |fs[i].lbl| <= w.lbl && |fs[i].inst| <= w.inst && |fs[i].op1| <= w.op1 && |fs[i].op2| <= w.op2
    ensures |fs| > 0 ==>
      && (exists i :: 0 <= i < |fs| && |fs[i].lbl| == w.lbl)
      && (exists i :: 0 <= i < |fs| && |fs[i].inst| == w.inst)
      && (exists i :: 0 <= i < |fs| && |fs[i].op1| == w.op1)
      && (exists i :: 0 <= i < |fs| && |fs[i].op2| == w.op2)
    ensures |fs| == 0 ==> w == Widths(0, 0, 0, 0)
  {
    Widths(ColumnWidth(fs, Lbl), ColumnWidth(fs, Inst), ColumnWidth(fs, Op1), ColumnWidth(fs, Op2))
  }

  /** The padded code columns of a line before the trailing blanks are cut
      (extension.js:301-311 and 326-336). */
  function PaddedCode(f: Fields, w: Widths, style: Style): string {
    LabelPart(f, w, style) + PadEnd(f.inst, w.inst + 2) + OperandPart(f, w, style)
  }

  /** The label column: padded to `labelWidth + 2`; the compact style writes
      the blanks itself when there is no label. */
  function LabelPart(f: Fields, w: Widths, style: Style): string {
    match style
    case Full => PadEnd(f.lbl, w.lbl + 2)
    case Compact => if f.lbl != "" then PadEnd(f.lbl, w.lbl + 2) else Spaces(w.lbl + 2)
  }

  /** The operand columns: padded in the full style, each followed by one
      blank in the compact style. */
  function OperandPart(f: Fields, w: Widths, style: Style): string {
    match style
    case Full => PadEnd(f.op1, w.op1 + 2) + PadEnd(f.op2, w.op2 + 2)
    case Compact =>
      (if f.op1 != "" then f.op1 + " " else "") + (if f.op2 != "" then f.op2 + " " else "")
  }

  /** The code of a line as it will be written. */
  function Code(f: Fields, w: Widths, style: Style): (c: string)
    ensures |c| == 0 || !IsSpace(c[|c| - 1])
  {
    TrimEnd(PaddedCode(f, w, style))
  }

  /** The widths and the longest code of a whole document. */
  datatype Layout = Layout(widths: Widths, maxCode: nat)

  /** The longest code of any line, which the comments are aligned after. */
  function MaxCodeWidth(fs: seq<Fields>, w: Widths, style: Style): (m: nat)
    ensures forall i :: 0 <= i < |fs| ==> |Code(fs[i], w, style)| <= m
    ensures |fs| > 0 ==> exists i :: 0 <= i < |fs| && |Code(fs[i], w, style)| == m
    ensures |fs| == 0 ==> m == 0
  {
    var cs := seq(|fs|, i requires 0 <= i < |fs| => |Code(fs[i], w, style)|);
    assert forall i :: 0 <= i < |fs| ==> cs[i] == |Code(fs[i], w, style)|;
    MaxOf(cs)
  }

  function LayoutOf(fs: seq<Fields>, style: Style): Layout {
    var w := WidthsOf(fs);
    Layout(w, MaxCodeWidth(fs, w, style))
  }

  /** A line fits a layout when no field is wider than its column and its
      code is no longer than the longest code. */
  predicate Fits(f: Fields, layout: Layout, style: Style) {
    var w := layout.widths;
    && |f.lbl| <= w.lbl && |f.inst| <= w.inst && |f.op1| <= w.op1 && |f.op2| <= w.op2
    && |Code(f, w, style)| <= layout.maxCode
  }

  lemma LayoutFits(fs: seq<Fields>, style: Style, i: nat)
    requires i < |fs|
    ensures Fits(fs[i], LayoutOf(fs, style), style)
  {
  }

  /** The text one line is replaced with (extension.js:317-348), given its
      fields, its code as the layout writes it and the longest code. */
  function LineText(f: Fields, code: string, maxCode: nat): (r: string)
    requires |code| <= maxCode
    ensures |r| == 0 || !IsSpace(r[|r| - 1])
  {
    var formatted :=
      if StartsWith(f.comment, ";;") && NoCode(f) then f.comment
      else if f.comment != "" && NoCode(f) then Spaces(maxCode + 2) + f.comment
      else if f.comment != "" then code + Spaces(maxCode - |code| + 2) + f.comment
      else code;
    TrimEnd(formatted)
  }

  /** The replacement text of one line under a layout. */
  function FormatLine(f: Fields, layout: Layout, style: Style): string
    requires Fits(f, layout, style)
  {
    LineText(f, Code(f, layout.widths, style), layout.maxCode)
  }

  /** One replacement of a whole document line. */
  datatype Edit = Edit(line: nat, newText: string)

  /** The fields of every line of the document. */
  function ParseAll(doc: seq<string>): (fs: seq<Fields>)
    ensures |fs| == |doc|
    ensures forall i :: 0 <= i < |doc| ==> fs[i] == ParseLine(doc[i])
  {
    seq(|doc|, i requires 0 <= i < |doc| => ParseLine(doc[i]))
  }

  /** `provideDocumentFormattingEdits`: parse every line, measure the
      columns, then emit one edit per line. */
  method FormatDocument(doc: seq<string>, style: Style) returns (edits: seq<Edit>)
    ensures |edits| == |doc|
    ensures forall i :: 0 <= i < |doc| ==> edits[i].line == i
    ensures forall i :: 0 <= i < |doc| ==>
      && Fits(ParseAll(doc)[i], LayoutOf(ParseAll(doc), style), style)
      && edits[i].newText == FormatLine(ParseAll(doc)[i], LayoutOf(ParseAll(doc), style), style)
  {
    var lines := ParseDocument(doc);
    var layout := LayoutOf(lines, style);
    forall i | 0 <= i < |lines| ensures Fits(lines[i], layout, style) {
      LayoutFits(lines, style, i);
    }
    edits := EmitEdits(lines, layout, style);
  }

  /** The first loop: the fields of every line, in order. */
  method ParseDocument(doc: seq<string>) returns (lines: seq<Fields>)
    ensures lines == ParseAll(doc)
  {
    lines := [];
    var i := 0;
    while i < |doc|
      invariant 0 <= i <= |doc|
      invariant lines == ParseAll(doc)[..i]
    {
      TakeOneMore(ParseAll(doc), i);
      lines := lines + [ParseLine(doc[i])];
      i := i + 1;
    }
  }

  lemma TakeOneMore<T>(xs: seq<T>, i: nat)
    requires i < |xs|
    ensures xs[..i + 1] == xs[..i] + [xs[i]]
  {
  }

  /** The edits for a parsed document: line `i` replaced with its formatted text. */
  function EditsFor(lines: seq<Fields>, layout: Layout, style: Style): (edits: seq<Edit>)
    requires forall i :: 0 <= i < |lines| ==> Fits(lines[i], layout, style)
    ensures |edits| == |lines|
    ensures forall i :: 0 <= i < |lines| ==> edits[i] == Edit(i, FormatLine(lines[i], layout, style))
  {
    seq(|lines|, i requires 0 <= i < |lines| => Edit(i, FormatLine(lines[i], layout, style)))
  }

  /** The second loop: one edit per line, replacing it with its formatted text. */
  method EmitEdits(lines: seq<Fields>, layout: Layout, style: Style) returns (edits: seq<Edit>)
    requires forall i :: 0 <= i < |lines| ==> Fits(lines[i], layout, style)
    ensures edits == EditsFor(lines, layout, style)
  {
    edits := [];
    var i := 0;
    while i < |lines|
      invariant 0 <= i <= |lines|
      invariant edits == EditsFor(lines, layout, style)[..i]
    {
      TakeOneMore(EditsFor(lines, layout, style), i);
      edits := edits + [Edit(i, FormatLine(lines[i], layout, style))];
      i := i + 1;
    }
  }

  // ---------------------------------------------------------------------
  // The field split

  /** Whitespace contributes nothing to `RemoveSpaces`. */
  lemma {:induction false} RemoveSpacesAppend(a: string, b: string)
    ensures RemoveSpaces(a + b) == RemoveSpaces(a) + RemoveSpaces(b)
    decreases |a|
  {
    if |a| > 0 {
      assert (a + b)[1..] == a[1..] + b;
      RemoveSpacesAppend(a[1..], b);
    } else {
      assert a + b == b;
    }
  }

  lemma {:induction false} RemoveSpacesOfBlank(s: string)
    requires AllSpaces(s)
    ensures RemoveSpaces(s) == ""
    decreases |s|
  {
    if |s| > 0 {
      RemoveSpacesOfBlank(s[1..]);
    }
  }

  lemma {:induction false} RemoveSpacesOfWord(s: string)
    requires NoSpaces(s)
    ensures RemoveSpaces(s) == s
    decreases |s|
  {
    if |s| > 0 {
      RemoveSpacesOfWord(s[1..]);
      assert s == [s[0]] + s[1..];
    }
  }

  /** The words of a text are the text with its whitespace removed, cut into pieces. */
  lemma {:induction false} WordsCoverText(s: string, i: nat)
    requires i <= |s|
    ensures Concat(Words(s, i)) == RemoveSpaces(s[i..])
    decreases |s| - i
  {
    var j := SkipSpaces(s, i);
    RemoveSpacesOfBlank(s[i..j]);
    RemoveSpacesAcross(s, i, j);
    if j < |s| {
      var k := SkipNonSpaces(s, j);
      RemoveSpacesOfWord(s[j..k]);
      RemoveSpacesAcross(s, j, k);
      WordsCoverText(s, k);
      ConcatCons(s[j..k], Words(s, k));
    } else {
      assert s[j..] == "";
    }
  }

  /** Removing the blanks of `s[i..]` piece by piece. */
  /** `Words` reads the pattern's word groups: `s[p..]` splits into `ws`
      exactly when `ws` is `Words(s, p)`. */
  lemma WordsAreTheRuns(s: string, p: nat, ws: seq<string>)
    requires p <= |s|
    ensures SplitsInto(s, p, ws) <==> ws == Words(s, p)
  {
    if SplitsInto(s, p, ws) {
      var gaps :| RunsApart(gaps, ws) && Weave(gaps, ws) == s[p..];
      RunsAreWords(s, p, gaps, ws);
    }
    if ws == Words(s, p) {
      var gaps := WordsGaps(s, p);
    }
  }

  /** The blanks around the words of `s[i..]`. */
  lemma {:induction false} WordsGaps(s: string, i: nat) returns (gaps: seq<string>)
    requires i <= |s|
    ensures RunsApart(gaps, Words(s, i)) && Weave(gaps, Words(s, i)) == s[i..]
    ensures i < |s| && IsSpace(s[i]) ==> gaps[0] != ""
    decreases |s| - i
  {
    var j := SkipSpaces(s, i);
    if j == |s| {
      gaps := [s[i..]];
      SpacesSlice(s, i, |s|);
      assert s[i..|s|] == s[i..];
    } else {
      var k := SkipNonSpaces(s, j);
      var rest := WordsGaps(s, k);
      SpacesSlice(s, i, j);
      assert |Words(s, k)| > 0 ==> k < |s|;
      WordsGapsStep(s, i, j, k, rest, Words(s, k));
      gaps := [s[i..j]] + rest;
    }
  }

  lemma WordsGapsStep(s: string, i: nat, j: nat, k: nat, rest: seq<string>, ws: seq<string>)
    requires i <= j < k <= |s| && AllSpaces(s[i..j]) && NoSpaces(s[j..k])
    requires RunsApart(rest, ws) && Weave(rest, ws) == s[k..]
    requires |ws| > 0 ==> rest[0] != ""
    ensures RunsApart([s[i..j]] + rest, [s[j..k]] + ws)
    ensures Weave([s[i..j]] + rest, [s[j..k]] + ws) == s[i..]
  {
    RunsApartCons(s[i..j], s[j..k], rest, ws);
    assert s[i..] == s[i..j] + s[j..k] + s[k..];
  }

  lemma RunsApartCons(g: string, w: string, gaps: seq<string>, ws: seq<string>)
    requires RunsApart(gaps, ws) && AllSpaces(g) && w != "" && NoSpaces(w)
    requires |ws| > 0 ==> gaps[0] != ""
    ensures RunsApart([g] + gaps, [w] + ws)
    ensures Weave([g] + gaps, [w] + ws) == g + w + Weave(gaps, ws)
  {
    assert ([g] + gaps)[1..] == gaps;
    assert ([w] + ws)[1..] == ws;
  }

  /** The first gap starts the woven text. */
  lemma WeaveStartsWithGap(gaps: seq<string>, ws: seq<string>)
    requires |gaps| == |ws| + 1
    ensures |gaps[0]| <= |Weave(gaps, ws)| && Weave(gaps, ws)[..|gaps[0]|] == gaps[0]
  {
    if |ws| > 0 {
      assert Weave(gaps, ws) == gaps[0] + (ws[0] + Weave(gaps[1..], ws[1..]));
    }
  }

  /** Words separated by blanks are what `Words` finds. */
  lemma {:induction false} RunsAreWords(s: string, p: nat, gaps: seq<string>, ws: seq<string>)
    requires p <= |s| && RunsApart(gaps, ws) && Weave(gaps, ws) == s[p..]
    ensures Words(s, p) == ws
    decreases |ws|
  {
    if |ws| == 0 {
      forall m | p <= m < |s| ensures IsSpace(s[m]) {
        assert s[m] == gaps[0][m - p];
      }
      SkipSpacesIs(s, p, |s|);
    } else {
      var k := FirstRun(s, p, gaps, ws);
      RunsAreWords(s, k, gaps[1..], ws[1..]);
      assert ws == [ws[0]] + ws[1..];
    }
  }

  /** The first word of the runs is the first word `Words` finds, and the
      rest of the text starts where it ends. */
  lemma FirstRun(s: string, p: nat, gaps: seq<string>, ws: seq<string>) returns (k: nat)
    requires p <= |s| && RunsApart(gaps, ws) && Weave(gaps, ws) == s[p..] && |ws| > 0
    ensures var j := SkipSpaces(s, p);
      && j < |s| && SkipNonSpaces(s, j) == k && s[j..k] == ws[0]
      && Weave(gaps[1..], ws[1..]) == s[k..] && RunsApart(gaps[1..], ws[1..])
  {
    var g, w := gaps[0], ws[0];
    var rest := Weave(gaps[1..], ws[1..]);
    var j := p + |g|;
    k := j + |w|;
    assert s[p..] == g + w + rest;
    forall m | p <= m < j ensures IsSpace(s[m]) {
      assert s[m] == s[p..][m - p] == g[m - p];
    }
    assert s[j] == s[p..][|g|] == w[0];
    SkipSpacesIs(s, p, j);
    forall m | j <= m < k ensures !IsSpace(s[m]) {
      assert s[m] == s[p..][m - p] == w[m - j];
    }
    assert s[k..] == rest;
    if k < |s| {
      WeaveStartsWithGap(gaps[1..], ws[1..]);
      assert gaps[1..][0] == gaps[1];
      if |ws| == 1 {
        assert rest == gaps[1];
      }
      assert s[k] == rest[0] == gaps[1][0];
    }
    SkipNonSpacesIs(s, j, k);
    assert s[j..k] == w;
  }

  lemma SkipNonSpacesIs(s: string, i: nat, j: nat)
    requires i <= j <= |s|
    requires forall k :: i <= k < j ==> !IsSpace(s[k])
    requires j == |s| || IsSpace(s[j])
    ensures SkipNonSpaces(s, i) == j
  {
    SkipNonSpacesAcross(s, i, j);
  }

  lemma RemoveSpacesAcross(s: string, i: nat, j: nat)
    requires i <= j <= |s|
    ensures RemoveSpaces(s[i..]) == RemoveSpaces(s[i..j]) + RemoveSpaces(s[j..])
  {
    assert s[i..] == s[i..j] + s[j..];
    RemoveSpacesAppend(s[i..j], s[j..]);
  }

  lemma ConcatCons(w: string, ws: seq<string>)
    ensures Concat([w] + ws) == w + Concat(ws)
  {
    assert ([w] + ws)[1..] == ws;
  }

  /** Starting the word split earlier, inside a run of non-blank characters,
      never gives fewer words. */
  lemma {:induction false} WordCountShrinks(s: string, i: nat, j: nat)
    requires i <= j <= |s|
    requires forall k :: i <= k < j ==> !IsSpace(s[k])
    ensures |Words(s, j)| <= |Words(s, i)|
  {
    if i < j {
      var k := SkipNonSpaces(s, i);
      assert SkipSpaces(s, i) == i;
      assert k >= j;
      if j < k {
        assert SkipSpaces(s, j) == j;
        assert SkipNonSpaces(s, j) == k by {
          SkipNonSpacesAcross(s, i, j);
        }
      }
    }
  }

  lemma {:induction false} SkipNonSpacesAcross(s: string, i: nat, j: nat)
    requires i <= j <= |s|
    requires forall k :: i <= k < j ==> !IsSpace(s[k])
    ensures SkipNonSpaces(s, i) == SkipNonSpaces(s, j)
    decreases j - i
  {
    if i < j {
      SkipNonSpacesAcross(s, i + 1, j);
    }
  }

  /** The code part has more than three fields after its optional label:
      the pattern cannot match it. */
  predicate TooManyFields(code: string) {
    match LabelEnd(code)
    case Some(le) => |Words(code, le)| > 3
    case None => |Words(code, 0)| > 3
  }

  /** When the labelled reading fails, the reading without a label fails too:
      the label's characters only join the first word. */
  lemma LabelFallbackNeverMatches(code: string)
    requires LabelEnd(code).Some?
    ensures |Words(code, LabelEnd(code).value)| > 3 ==> |Words(code, 0)| > 3
  {
    LabelHasNoSpaces(code);
    var le := LabelEnd(code).value;
    assert forall k :: 0 <= k < le ==> code[..le][k] == code[k];
    WordCountShrinks(code, 0, le);
  }

  /** The fields of a label and its words hold the label and the words, in order. */
  lemma FieldsOfConcat(lbl: string, ws: seq<string>)
    requires |ws| <= 3
    ensures var f := FieldsOf(lbl, ws); f.lbl + f.inst + f.op1 + f.op2 == lbl + Concat(ws)
  {
    var p := Pad3(ws);
    Pad3Concat(ws);
    Associate(lbl, p[0], p[1], p[2]);
  }

  lemma Associate(a: string, b: string, c: string, d: string)
    ensures a + b + c + d == a + (b + c + d)
  {
  }

  lemma Pad3Concat(ws: seq<string>)
    requires |ws| <= 3
    ensures var p := Pad3(ws); p[0] + p[1] + p[2] == Concat(ws)
  {
    if |ws| == 1 {
      Pad3Concat1(ws);
    } else if |ws| == 2 {
      Pad3Concat2(ws);
    } else if |ws| == 3 {
      Pad3Concat3(ws);
    }
  }

  lemma Pad3Concat1(ws: seq<string>)
    requires |ws| == 1
    ensures var p := Pad3(ws); p[0] + p[1] + p[2] == Concat(ws)
  {
    Concat1(ws[0]);
    assert ws == [ws[0]];
  }

  lemma Pad3Concat2(ws: seq<string>)
    requires |ws| == 2
    ensures var p := Pad3(ws); p[0] + p[1] + p[2] == Concat(ws)
  {
    Concat2(ws[0], ws[1]);
    assert ws == [ws[0], ws[1]];
  }

  lemma Pad3Concat3(ws: seq<string>)
    requires |ws| == 3
    ensures var p := Pad3(ws); p[0] + p[1] + p[2] == Concat(ws)
  {
    Concat3(ws[0], ws[1], ws[2]);
    assert ws == [ws[0], ws[1], ws[2]];
  }

  lemma Concat1(a: string)
    ensures Concat([a]) == a
  {
    assert [a][1..] == [];
  }

  lemma Concat2(a: string, b: string)
    ensures Concat([a, b]) == a + b + ""
  {
    assert [a, b][1..] == [b];
    Concat1(b);
  }

  lemma Concat3(a: string, b: string, c: string)
    ensures Concat([a, b, c]) == a + b + c
  {
    assert [a, b, c][1..] == [b, c];
    Concat2(b, c);
    assert a + (b + c + "") == a + b + c;
  }

  /** A label holds no whitespace. */
  lemma LabelHasNoSpaces(code: string)
    requires LabelEnd(code).Some?
    ensures NoSpaces(code[..LabelEnd(code).value])
  {
    var le := LabelEnd(code).value;
    var l := code[..le];
    forall k | 0 <= k < |l| ensures !IsSpace(l[k]) {
      if k < |l| - 1 {
        assert l[k] == code[..le - 1][k];
      }
    }
  }

  /** The split loses no code: with at most three fields after the optional
      label, the fields put together are the code part without its blanks,
      and a leading `ident:` is always taken as the label; with more, all four
      fields are empty. */
  lemma SplitKeepsCode(code: string)
    requires IsTrimmed(code)
    ensures var f := SplitCode(code);
      && (TooManyFields(code) ==> NoCode(f))
      && (!TooManyFields(code) ==> f.lbl + f.inst + f.op1 + f.op2 == RemoveSpaces(code))
      && (!TooManyFields(code) && LabelEnd(code).Some? ==> f.lbl == code[..LabelEnd(code).value])
  {
    if LabelEnd(code).Some? {
      LabelFallbackNeverMatches(code);
      if !TooManyFields(code) {
        LabelledSplitKeepsCode(code);
      }
    } else if !TooManyFields(code) {
      UnlabelledSplitKeepsCode(code);
    }
  }

  /** `SplitCode` is the match the field pattern prefers: the one with the
      label group filled when there is one, else the one without it, and four
      empty fields when the pattern does not match at all. */
  lemma SplitCodeIsPreferredMatch(code: string)
    requires IsTrimmed(code)
    ensures forall lbl, ws :: lbl != "" && FieldPattern(code, lbl, ws) ==> SplitCode(code) == FieldsOf(lbl, ws)
    ensures forall ws :: !Labelled(code) && FieldPattern(code, "", ws) ==> SplitCode(code) == FieldsOf("", ws)
    ensures (forall lbl, ws :: !FieldPattern(code, lbl, ws)) ==> SplitCode(code) == Fields("", "", "", "", "")
  {
    forall lbl, ws | lbl != "" && FieldPattern(code, lbl, ws)
      ensures SplitCode(code) == FieldsOf(lbl, ws)
    {
      LabelledMatch(code, lbl, ws);
    }
    forall ws | !Labelled(code) && FieldPattern(code, "", ws)
      ensures SplitCode(code) == FieldsOf("", ws)
    {
      UnlabelledMatch(code, ws);
    }
    if forall lbl, ws :: !FieldPattern(code, lbl, ws) {
      NoMatch(code);
    }
  }

  /** Without a labelled match, the match without a label is the one taken. */
  lemma UnlabelledMatch(code: string, ws: seq<string>)
    requires IsTrimmed(code) && !Labelled(code) && FieldPattern(code, "", ws)
    ensures SplitCode(code) == FieldsOf("", ws)
  {
    WordsAreTheRuns(code, 0, ws);
    var le := LabelEnd(code);
    if le.Some? && |Words(code, le.value)| <= 3 {
      LabelEndIsMatch(code);
      assert false;
    }
  }

  /** Where nothing matches, all four fields are empty. */
  lemma NoMatch(code: string)
    requires IsTrimmed(code) && forall lbl, ws :: !FieldPattern(code, lbl, ws)
    ensures SplitCode(code) == Fields("", "", "", "", "")
  {
    var le := LabelEnd(code);
    if le.Some? && |Words(code, le.value)| <= 3 {
      LabelEndIsMatch(code);
      assert false;
    } else if |Words(code, 0)| <= 3 {
      WordsAreTheRuns(code, 0, Words(code, 0));
      assert FieldPattern(code, "", Words(code, 0));
      assert false;
    }
  }

  /** A match with the label group filled is the one `SplitCode` takes. */
  lemma LabelledMatch(code: string, lbl: string, ws: seq<string>)
    requires IsTrimmed(code) && lbl != "" && FieldPattern(code, lbl, ws)
    ensures SplitCode(code) == FieldsOf(lbl, ws)
  {
    var n := |lbl| - 1;
    assert code[..n] == lbl[..n];
    assert code[n] == lbl[n];
    assert LabelEnd(code) == Some(|lbl|);
    WordsAreTheRuns(code, |lbl|, ws);
  }

  /** The label `LabelEnd` finds, with at most three words after it, is a
      match of the pattern. */
  lemma LabelEndIsMatch(code: string)
    requires LabelEnd(code).Some? && |Words(code, LabelEnd(code).value)| <= 3
    ensures Labelled(code)
  {
    var le := LabelEnd(code).value;
    WordsAreTheRuns(code, le, Words(code, le));
    assert FieldPattern(code, code[..le], Words(code, le));
  }

  lemma UnlabelledSplitKeepsCode(code: string)
    requires IsTrimmed(code) && LabelEnd(code).None?
    requires |Words(code, 0)| <= 3
    ensures var f := SplitCode(code);
      f.lbl + f.inst + f.op1 + f.op2 == RemoveSpaces(code)
  {
    FieldsOfConcat("", Words(code, 0));
    WordsCoverText(code, 0);
    assert code[0..] == code;
    assert "" + Concat(Words(code, 0)) == Concat(Words(code, 0));
  }

  lemma LabelledSplitKeepsCode(code: string)
    requires IsTrimmed(code) && LabelEnd(code).Some?
    requires |Words(code, LabelEnd(code).value)| <= 3
    ensures var f := SplitCode(code);
      f.lbl + f.inst + f.op1 + f.op2 == RemoveSpaces(code)
  {
    var le := LabelEnd(code).value;
    FieldsOfConcat(code[..le], Words(code, le));
    WordsCoverText(code, le);
    LabelHasNoSpaces(code);
    RemoveSpacesAfterWord(code, le);
  }

  /** Removing the blanks of a text that starts with a word keeps the word. */
  lemma RemoveSpacesAfterWord(s: string, n: nat)
    requires n <= |s| && NoSpaces(s[..n])
    ensures RemoveSpaces(s) == s[..n] + RemoveSpaces(s[n..])
  {
    assert s == s[..n] + s[n..];
    RemoveSpacesAppend(s[..n], s[n..]);
    RemoveSpacesOfWord(s[..n]);
  }

  /** On a whole line: a comment line has no code; otherwise the fields are the
      code before the first `;` without its blanks, unless that code has too
      many fields, in which case it is dropped. */
  lemma ParseKeepsCode(raw: string)
    ensures IsCommentLine(raw) ==> NoCode(ParseLine(raw)) && ParseLine(raw).comment == Trim(raw)
    ensures !IsCommentLine(raw) && TooManyFields(CodePart(raw)) ==> NoCode(ParseLine(raw))
    ensures !IsCommentLine(raw) && !TooManyFields(CodePart(raw)) ==>
      var f := ParseLine(raw);
      f.lbl + f.inst + f.op1 + f.op2 == RemoveSpaces(CodePart(raw))
    ensures !IsCommentLine(raw) ==> var c, f := CodePart(raw), ParseLine(raw);
      && (forall lbl, ws :: lbl != "" && FieldPattern(c, lbl, ws) ==> f == FieldsOf(lbl, ws).(comment := f.comment))
      && (forall ws :: !Labelled(c) && FieldPattern(c, "", ws) ==> f == FieldsOf("", ws).(comment := f.comment))
      && ((forall lbl, ws :: !FieldPattern(c, lbl, ws)) ==> f == Fields("", "", "", "", f.comment))
  {
    if !IsCommentLine(raw) {
      var code := CodePart(raw);
      SplitCodeIsPreferredMatch(code);
      assert ParseLine(raw) == SplitCode(code).(comment := ParseLine(raw).comment);
      if code == "" {
        assert RemoveSpaces(code) == "";
        assert !TooManyFields(code);
      } else {
        SplitKeepsCode(code);
      }
    }
  }

  // ---------------------------------------------------------------------
  // The layout of a formatted line

  lemma TrimEndUnchanged(s: string)
    requires |s| == 0 || !IsSpace(s[|s| - 1])
    ensures TrimEnd(s) == s
  {
  }

  lemma {:induction false} TrimEndOfBlank(s: string)
    requires AllSpaces(s)
    ensures TrimEnd(s) == ""
    decreases |s|
  {
    if |s| > 0 {
      TrimEndOfBlank(s[..|s| - 1]);
    }
  }

  /** A line with code starts with its code; a comment follows after blanks
      that reach column `maxCode + 2`. */
  lemma LineTextKeepsCode(f: Fields, code: string, m: nat)
    requires |code| <= m && (|code| == 0 || !IsSpace(code[|code| - 1]))
    requires !NoCode(f) && IsTrimmed(f.comment)
    ensures f.comment == "" ==> LineText(f, code, m) == code
    ensures f.comment != "" ==> LineText(f, code, m) == code + Spaces(m - |code| + 2) + f.comment
  {
    if f.comment == "" {
      TrimEndUnchanged(code);
    } else {
      var s := code + Spaces(m - |code| + 2) + f.comment;
      assert s[|s| - 1] == f.comment[|f.comment| - 1];
      TrimEndUnchanged(s);
    }
  }

  lemma FormatLineKeepsCode(f: Fields, layout: Layout, style: Style)
    requires Fits(f, layout, style)
    requires !NoCode(f) && IsTrimmed(f.comment)
    ensures var r := FormatLine(f, layout, style);
      var code := Code(f, layout.widths, style);
      && (f.comment == "" ==> r == code)
      && (f.comment != "" ==> r == code + Spaces(layout.maxCode - |code| + 2) + f.comment)
  {
    LineTextKeepsCode(f, Code(f, layout.widths, style), layout.maxCode);
  }

  /** A line with code starts with the first `n` characters of its code. */
  lemma LineTextKeepsPrefix(f: Fields, code: string, m: nat, n: nat)
    requires |code| <= m && (|code| == 0 || !IsSpace(code[|code| - 1]))
    requires !NoCode(f) && IsTrimmed(f.comment)
    requires n <= |code|
    ensures n <= |LineText(f, code, m)| && LineText(f, code, m)[..n] == code[..n]
  {
    LineTextKeepsCode(f, code, m);
    if f.comment != "" {
      PrefixOfAppend(code, Spaces(m - |code| + 2), f.comment, n);
    }
  }

  lemma PrefixOfAppend(a: string, b: string, c: string, n: nat)
    requires n <= |a|
    ensures n <= |a + b + c| && (a + b + c)[..n] == a[..n]
  {
  }

  /** Both styles pad the label to the label column. */
  lemma LabelPartIsPadded(f: Fields, w: Widths, style: Style)
    ensures LabelPart(f, w, style) == PadEnd(f.lbl, w.lbl + 2)
  {
    if style == Compact && f.lbl == "" {
      PadEndOfEmpty(w.lbl + 2);
    }
  }

  /** Both styles write the four fields in order and add only blanks: the
      code of a line without its blanks is its label, instruction and
      operands put together. */
  lemma CodeKeepsFields(f: Fields, w: Widths, style: Style)
    requires NoSpaces(f.lbl) && NoSpaces(f.inst) && NoSpaces(f.op1) && NoSpaces(f.op2)
    ensures RemoveSpaces(Code(f, w, style)) == f.lbl + f.inst + f.op1 + f.op2
  {
    PaddedCodeKeepsFields(f, w, style);
    TrimEndKeepsText(PaddedCode(f, w, style));
  }

  lemma PaddedCodeKeepsFields(f: Fields, w: Widths, style: Style)
    requires NoSpaces(f.lbl) && NoSpaces(f.inst) && NoSpaces(f.op1) && NoSpaces(f.op2)
    ensures RemoveSpaces(PaddedCode(f, w, style)) == f.lbl + f.inst + f.op1 + f.op2
  {
    LabelPartKeepsLabel(f, w, style);
    PadKeepsWord(f.inst, w.inst + 2);
    OperandPartKeepsFields(f, w, style);
    KeepsThree(LabelPart(f, w, style), PadEnd(f.inst, w.inst + 2), OperandPart(f, w, style),
               f.lbl, f.inst, f.op1, f.op2);
  }

  lemma LabelPartKeepsLabel(f: Fields, w: Widths, style: Style)
    requires NoSpaces(f.lbl)
    ensures RemoveSpaces(LabelPart(f, w, style)) == f.lbl
  {
    LabelPartIsPadded(f, w, style);
    PadKeepsWord(f.lbl, w.lbl + 2);
  }

  lemma KeepsThree(a: string, b: string, c: string, x: string, y: string, z1: string, z2: string)
    requires RemoveSpaces(a) == x && RemoveSpaces(b) == y && RemoveSpaces(c) == z1 + z2
    ensures RemoveSpaces(a + b + c) == x + y + z1 + z2
  {
    RemoveSpacesAppend(a + b, c);
    RemoveSpacesAppend(a, b);
    assert x + y + (z1 + z2) == x + y + z1 + z2;
  }

  lemma OperandPartKeepsFields(f: Fields, w: Widths, style: Style)
    requires NoSpaces(f.op1) && NoSpaces(f.op2)
    ensures RemoveSpaces(OperandPart(f, w, style)) == f.op1 + f.op2
  {
    match style
    case Full =>
      PadKeepsWord(f.op1, w.op1 + 2);
      PadKeepsWord(f.op2, w.op2 + 2);
      RemoveSpacesAppend(PadEnd(f.op1, w.op1 + 2), PadEnd(f.op2, w.op2 + 2));
    case Compact =>
      var x := if f.op1 != "" then f.op1 + " " else "";
      var y := if f.op2 != "" then f.op2 + " " else "";
      WordThenBlankKeepsWord(f.op1);
      WordThenBlankKeepsWord(f.op2);
      RemoveSpacesAppend(x, y);
  }

  /** Padding a word adds only blanks. */
  lemma PadKeepsWord(s: string, n: nat)
    requires NoSpaces(s)
    ensures RemoveSpaces(PadEnd(s, n)) == s
  {
    RemoveSpacesOfWord(s);
    if |s| < n {
      SpacesAreBlank(n - |s|);
      RemoveSpacesAppend(s, Spaces(n - |s|));
      RemoveSpacesOfBlank(Spaces(n - |s|));
    }
  }

  lemma WordThenBlankKeepsWord(s: string)
    requires NoSpaces(s)
    ensures RemoveSpaces(if s != "" then s + " " else "") == s
  {
    if s != "" {
      RemoveSpacesOfWord(s);
      RemoveSpacesAppend(s, " ");
      assert IsSpace(" "[0]);
      RemoveSpacesOfBlank(" ");
    }
  }

  /** `trimEnd` removes only blanks. */
  lemma TrimEndKeepsText(p: string)
    ensures RemoveSpaces(TrimEnd(p)) == RemoveSpaces(p)
  {
    var t := TrimEnd(p);
    assert p == t + p[|t|..];
    SpacesSlice(p, |t|, |p|);
    RemoveSpacesAppend(t, p[|t|..]);
    RemoveSpacesOfBlank(p[|t|..]);
  }

  /** From source line to written code: the code the formatter writes for a
      line, without its blanks, is the line's code part without its blanks,
      unless the field pattern fails on it. */
  lemma FormatKeepsCode(raw: string, w: Widths, style: Style)
    ensures !IsCommentLine(raw) && !TooManyFields(CodePart(raw)) ==>
      RemoveSpaces(Code(ParseLine(raw), w, style)) == RemoveSpaces(CodePart(raw))
  {
    ParseKeepsCode(raw);
    CodeKeepsFields(ParseLine(raw), w, style);
  }

  lemma PadEndOfEmpty(n: nat)
    ensures PadEnd("", n) == Spaces(n)
  {
    if n > 0 {
      assert "" + Spaces(n) == Spaces(n);
    }
  }

  /** The padded code holds the label padded to the label column, then the
      instruction, in both styles. */
  lemma PaddedCodeColumns(f: Fields, w: Widths, style: Style)
    requires |f.lbl| <= w.lbl && |f.inst| <= w.inst
    ensures var p := PaddedCode(f, w, style);
      && |p| >= w.lbl + 2 + |f.inst|
      && p[..w.lbl + 2] == PadEnd(f.lbl, w.lbl + 2)
      && p[w.lbl + 2..w.lbl + 2 + |f.inst|] == f.inst
  {
    var c := w.lbl + 2;
    var a := LabelPart(f, w, style);
    var b := PadEnd(f.inst, w.inst + 2);
    var p := a + b + OperandPart(f, w, style);
    LabelPartIsPadded(f, w, style);
    PadEndShape(f.inst, w.inst + 2);
    assert |a| == c;
    assert p == a + (b + OperandPart(f, w, style));
    assert p[c..c + |f.inst|] == b[..|f.inst|];
  }

  /** `code` starts with `lbl` padded to column `c` and then `inst`. */
  predicate LabelThenInstruction(code: string, lbl: string, inst: string, c: nat) {
    && |code| >= c + |inst|
    && code[..c] == PadEnd(lbl, c)
    && code[..c + |inst|][c..] == inst
  }

  /** The code of a line with an instruction starts with the padded label
      and then the instruction. */
  lemma CodeColumns(f: Fields, w: Widths, style: Style)
    requires |f.lbl| <= w.lbl && |f.inst| <= w.inst
    requires f.inst != "" && NoSpaces(f.inst)
    ensures LabelThenInstruction(Code(f, w, style), f.lbl, f.inst, w.lbl + 2)
  {
    PaddedCodeColumns(f, w, style);
    TrimKeepsColumns(PaddedCode(f, w, style), f.lbl, f.inst, w.lbl + 2);
  }

  /** Cutting the trailing blanks keeps a padded label and a non-blank
      instruction. */
  lemma TrimKeepsColumns(p: string, lbl: string, inst: string, c: nat)
    requires inst != "" && NoSpaces(inst)
    requires |p| >= c + |inst| && p[..c] == PadEnd(lbl, c) && p[c..c + |inst|] == inst
    ensures LabelThenInstruction(TrimEnd(p), lbl, inst, c)
  {
    var n := c + |inst|;
    assert p[n - 1] == inst[|inst| - 1];
    CodeKeepsPrefix(p, n);
    PrefixColumns(p, TrimEnd(p), c, n);
  }

  /** Two strings that agree on their first `n` characters agree on the
      columns inside them. */
  lemma PrefixColumns(p: string, q: string, c: nat, n: nat)
    requires c <= n <= |p| && n <= |q| && q[..n] == p[..n]
    ensures q[..c] == p[..c] && q[..n][c..] == p[c..n]
  {
    assert q[..c] == q[..n][..c];
    assert p[..c] == p[..n][..c];
  }

  /** Cutting trailing blanks keeps everything up to a non-blank character. */
  lemma CodeKeepsPrefix(p: string, n: nat)
    requires 0 < n <= |p| && !IsSpace(p[n - 1])
    ensures n <= |TrimEnd(p)| && TrimEnd(p)[..n] == p[..n]
  {
    TrimEndKeepsNonSpace(p, n - 1);
  }

  /** In both styles the label is at column 0 and the instruction starts at
      column `labelWidth + 2`, with blanks in between: a line whose code
      starts with the padded label and the instruction (`CodeColumns`) keeps
      them. */
  lemma InstructionColumn(f: Fields, code: string, m: nat, c: nat)
    requires |code| <= m && (|code| == 0 || !IsSpace(code[|code| - 1]))
    requires f.inst != "" && IsTrimmed(f.comment) && |f.lbl| <= c
    requires LabelThenInstruction(code, f.lbl, f.inst, c)
    ensures var r := LineText(f, code, m);
      && |r| >= c + |f.inst|
      && r[..|f.lbl|] == f.lbl
      && (forall k :: |f.lbl| <= k < c ==> r[k] == ' ')
      && r[c..c + |f.inst|] == f.inst
  {
    LineTextKeepsPrefix(f, code, m, c + |f.inst|);
    ColumnsOfLine(LineText(f, code, m), code, f.lbl, f.inst, c);
  }

  /** A line that starts like a code with the padded label and then the
      instruction has the label at column 0, blanks up to column `c` and the
      instruction from there. */
  lemma ColumnsOfLine(r: string, code: string, lbl: string, inst: string, c: nat)
    requires |lbl| <= c && c + |inst| <= |code| && c + |inst| <= |r|
    requires r[..c + |inst|] == code[..c + |inst|]
    requires code[..c] == PadEnd(lbl, c) && code[..c + |inst|][c..] == inst
    ensures r[..|lbl|] == lbl
    ensures forall k :: |lbl| <= k < c ==> r[k] == ' '
    ensures r[c..c + |inst|] == inst
  {
    var n := c + |inst|;
    PadEndShape(lbl, c);
    assert r[..c] == code[..c] by {
      assert r[..c] == r[..n][..c];
      assert code[..c] == code[..n][..c];
    }
    assert r[..|lbl|] == r[..c][..|lbl|];
    forall k | |lbl| <= k < c ensures r[k] == ' ' {
      assert r[k] == r[..c][k];
    }
    assert r[c..n] == r[..n][c..];
  }

  /** Every comment except that of a `;;` comment line starts at column
      `maxCode + 2`: a comment alone on its line is preceded by blanks only, ... */
  lemma CommentAlone(f: Fields, code: string, m: nat)
    requires |code| <= m
    requires f.comment != "" && IsTrimmed(f.comment)
    requires NoCode(f) && !StartsWith(f.comment, ";;")
    ensures var r := LineText(f, code, m);
      && |r| == m + 2 + |f.comment|
      && r[m + 2..] == f.comment
      && (forall k :: 0 <= k < m + 2 ==> r[k] == ' ')
  {
    var s := Spaces(m + 2) + f.comment;
    assert s[|s| - 1] == f.comment[|f.comment| - 1];
    TrimEndUnchanged(s);
    SpacesAreBlank(m + 2);
  }

  /** ... and a comment after code is preceded by the code and at least two
      blanks. */
  lemma CommentAfterCode(f: Fields, code: string, m: nat)
    requires |code| <= m && (|code| == 0 || !IsSpace(code[|code| - 1]))
    requires f.comment != "" && IsTrimmed(f.comment) && !NoCode(f)
    ensures var r := LineText(f, code, m);
      && |r| == m + 2 + |f.comment|
      && r[m + 2..] == f.comment
      && r[..|code|] == code
      && (forall k :: |code| <= k < m + 2 ==> r[k] == ' ')
  {
    LineTextKeepsCode(f, code, m);
    SpacesAreBlank(m - |code| + 2);
  }

  /** A `;;` comment line is written back as it is, at column 0. */
  lemma DoubleCommentStays(f: Fields, code: string, m: nat)
    requires |code| <= m
    requires StartsWith(f.comment, ";;") && NoCode(f) && IsTrimmed(f.comment)
    ensures LineText(f, code, m) == f.comment
  {
    TrimEndUnchanged(f.comment);
  }

  /** A line with neither code nor comment becomes empty: its code is empty
      (`BlankCode`), and so is the line. */
  lemma EmptyLineStaysEmpty(f: Fields, code: string, m: nat)
    requires NoCode(f) && f.comment == "" && code == ""
    ensures LineText(f, code, m) == ""
  {
  }

  /** Without code, the padded columns are all blank and the code is empty. */
  lemma BlankCode(f: Fields, w: Widths, style: Style)
    requires NoCode(f)
    ensures Code(f, w, style) == ""
  {
    PaddedCodeIsBlank(f, w, style);
    TrimEndOfBlank(PaddedCode(f, w, style));
  }

  lemma PaddedCodeIsBlank(f: Fields, w: Widths, style: Style)
    requires NoCode(f)
    ensures AllSpaces(PaddedCode(f, w, style))
  {
    var a, b, c := LabelPart(f, w, style), PadEnd(f.inst, w.inst + 2), OperandPart(f, w, style);
    LabelPartIsBlank(f, w, style);
    EmptyPadIsBlank(w.inst + 2);
    OperandPartIsBlank(f, w, style);
    BlankAppend3(a, b, c);
    assert PaddedCode(f, w, style) == a + b + c;
  }

  lemma LabelPartIsBlank(f: Fields, w: Widths, style: Style)
    requires f.lbl == ""
    ensures AllSpaces(LabelPart(f, w, style))
  {
    LabelPartIsPadded(f, w, style);
    EmptyPadIsBlank(w.lbl + 2);
  }

  lemma BlankAppend3(a: string, b: string, c: string)
    requires AllSpaces(a) && AllSpaces(b) && AllSpaces(c)
    ensures AllSpaces(a + b + c)
  {
    BlankAppend(a, b);
    BlankAppend(a + b, c);
  }

  lemma EmptyPadIsBlank(n: nat)
    ensures AllSpaces(PadEnd("", n))
  {
    PadEndOfEmpty(n);
    SpacesAreBlank(n);
  }

  lemma OperandPartIsBlank(f: Fields, w: Widths, style: Style)
    requires f.op1 == "" && f.op2 == ""
    ensures AllSpaces(OperandPart(f, w, style))
  {
    if style == Full {
      EmptyPadIsBlank(w.op1 + 2);
      EmptyPadIsBlank(w.op2 + 2);
      BlankAppend(PadEnd(f.op1, w.op1 + 2), PadEnd(f.op2, w.op2 + 2));
    }
  }

  lemma BlankAppend(a: string, b: string)
    requires AllSpaces(a) && AllSpaces(b)
    ensures AllSpaces(a + b)
  {
  }

  /** A line whose first non-blank characters are `;;` is a comment line with
      the trimmed line as its comment. */
  lemma ParseDoubleComment(raw: string)
    requires StartsWith(Trim(raw), ";;")
    ensures NoCode(ParseLine(raw)) && ParseLine(raw).comment == Trim(raw)
    ensures StartsWith(ParseLine(raw).comment, ";;") && IsTrimmed(ParseLine(raw).comment)
  {
    var j := SkipSpaces(raw, 0);
    assert TrimStart(raw) == raw[j..];
    assert j < |raw| && raw[j] == ';' by {
      assert Trim(raw) == TrimStart(raw)[..|Trim(raw)|];
    }
    assert IsCommentLine(raw);
    ParseKeepsCode(raw);
  }

  /** A blank line has neither code nor comment. */
  lemma ParseBlank(raw: string)
    requires AllSpaces(raw)
    ensures NoCode(ParseLine(raw)) && ParseLine(raw).comment == ""
  {
    assert SkipSpaces(raw, 0) == |raw|;
    assert !IsCommentLine(raw);
    assert ';' !in raw;
    assert CodePart(raw) == "" by {
      assert raw[..FirstIndex(raw, ';')] == raw;
      assert TrimStart(raw) == "";
    }
  }
}
