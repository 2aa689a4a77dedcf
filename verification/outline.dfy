/**
 * The outline of a SIMASM document (`SimasmDocumentSymbolProvider`,
 * extension.js:173-250): one pass over the lines that turns every section
 * marker, label and data directive into a symbol, with labels and data
 * nested under the most recent section.
 *
 * The symbol tree is a value: where the extension pushes a symbol into the
 * `children` of the section object it still holds, the model replaces that
 * section, found by its index in the top-level list, with an updated copy.
 */
module Outline {
  import opened Text
  import opened Markers

  /** `vscode.SymbolKind`: sections are modules, labels functions, data variables. */
  datatype SymbolKind = Module | Function | Variable

  /** A document symbol: its name, the detail text shown beside it, its
      kind, the line it stands on, the length of that line (the symbol's
      range runs from column 0 to there) and the symbols nested under it. */
  datatype DocSymbol = DocSymbol(name: string, detail: string, kind: SymbolKind,
                                 line: nat, width: nat, children: seq<DocSymbol>)

  // ---------------------------------------------------------------------
  // The label pattern `^([a-zA-Z_][a-zA-Z0-9_]*)\s*:`

  /** The label pattern matches the trimmed line `t` with the identifier
      spanning `0..e` and the colon at `k`. */
  ghost predicate LabelPattern(t: string, e: nat, k: nat) {
    && 1 <= e <= k < |t|
    && IsIdentifier(t[..e])
    && SpacesBetween(t, e, k)
    && t[k] == ':'
  }

  /** The label a line declares: the longest identifier at its start, when
      whitespace and a colon follow. */
  function LabelName(t: string): (r: Option<string>)
    ensures r.Some? ==> |r.value| <= |t| && r.value == t[..|r.value|] && IsIdentifier(r.value)
  {
    if |t| == 0 || !IsIdentStart(t[0]) then None
    else
      var e := SkipWordChars(t, 1);
      var k := SkipSpaces(t, e);
      if k < |t| && t[k] == ':' then Some(t[..e]) else None
  }

  /** `LabelName` finds a match exactly when the pattern matches, and every
      match of the pattern captures the same identifier: the greedy
      `[a-zA-Z0-9_]*` never has to give anything back. */
  lemma LabelNameIsPattern(t: string)
    ensures LabelName(t).Some? ==> LabelPattern(t, |LabelName(t).value|, SkipSpaces(t, |LabelName(t).value|))
    ensures forall e: nat, k: nat :: LabelPattern(t, e, k) ==> LabelName(t) == Some(t[..e])
  {
    forall e: nat, k: nat | LabelPattern(t, e, k)
      ensures LabelName(t) == Some(t[..e])
    {
      LabelMatchIsUnique(t, e, k);
    }
  }

  lemma LabelMatchIsUnique(t: string, e: nat, k: nat)
    requires LabelPattern(t, e, k)
    ensures LabelName(t) == Some(t[..e])
  {
    assert IsIdentStart(t[..e][0]);
    forall j | 1 <= j < e ensures IsWordChar(t[j]) {
      assert t[j] == t[..e][j];
    }
    assert !IsWordChar(t[e]) by {
      if e < k {
        assert IsSpace(t[e]);
      }
    }
    WordCharsEndAt(t, 1, e);
    SkipSpacesAcross(t, e, k);
  }

  // ---------------------------------------------------------------------
  // The data pattern `^(word|byte)\s+`, case-insensitive

  /** ASCII lower case. Without the `u` flag the case-insensitive match
      folds only ASCII letters onto the letters of `word` and `byte`. */
  function LowerAscii(c: char): (r: char)
    ensures IsSpace(r) == IsSpace(c)
  {
    if 'A' <= c <= 'Z' then (c as int + 32) as char else c
  }

  /** `String.prototype.toUpperCase` on ASCII letters. */
  function UpperAscii(c: char): char {
    if 'a' <= c <= 'z' then (c as int - 32) as char else c
  }

  function Lower(s: string): (r: string)
    ensures |r| == |s|
    ensures forall i :: 0 <= i < |s| ==> r[i] == LowerAscii(s[i])
  {
    seq(|s|, i requires 0 <= i < |s| => LowerAscii(s[i]))
  }

  function Upper(s: string): (r: string)
    ensures |r| == |s|
    ensures forall i :: 0 <= i < |s| ==> r[i] == UpperAscii(s[i])
  {
    seq(|s|, i requires 0 <= i < |s| => UpperAscii(s[i]))
  }

  /** The data pattern matches `t`: `word` or `byte`, each letter in either
      case, then a run of one or more blanks ending at `k`. */
  ghost predicate DataPattern(t: string, k: nat) {
    && 5 <= k <= |t|
    && (Lower(t[..4]) == "word" || Lower(t[..4]) == "byte")
    && SpacesBetween(t, 4, k)
  }

  /** The directive a line starts with, upper-cased, when it is `word` or
      `byte` in any case followed by at least one blank. */
  function DataName(t: string): (r: Option<string>)
  {
    if |t| >= 5 && IsSpace(t[4]) && (Lower(t[..4]) == "word" || Lower(t[..4]) == "byte")
    then Some(Upper(t[..4]))
    else None
  }

  /** `DataName` finds a name exactly when the data pattern matches, and the
      name is the matched keyword in upper case. */
  lemma DataNameIsPattern(t: string)
    ensures DataName(t).Some? <==> exists k: nat :: DataPattern(t, k)
    ensures DataName(t).Some? ==> DataName(t) == Some(Upper(t[..4]))
  {
    if DataName(t).Some? {
      assert DataPattern(t, 5);
    }
  }

  /** The name of a data symbol is always `WORD` or `BYTE`, and the line
      starts with that keyword in some mix of cases. */
  lemma DataNameIsKeyword(t: string)
    ensures DataName(t).Some? ==> DataName(t).value in {"WORD", "BYTE"}
    ensures DataName(t).Some? ==> |t| >= 5 && IsSpace(t[4]) && Upper(t[..4]) == DataName(t).value
  {
    if DataName(t).Some? {
      var w := t[..4];
      var u := Upper(w);
      if Lower(w) == "word" {
        assert LowerAscii(w[0]) == 'w' && LowerAscii(w[1]) == 'o' && LowerAscii(w[2]) == 'r' && LowerAscii(w[3]) == 'd';
        assert u == "WORD";
      } else {
        assert LowerAscii(w[0]) == 'b' && LowerAscii(w[1]) == 'y' && LowerAscii(w[2]) == 't' && LowerAscii(w[3]) == 'e';
        assert u == "BYTE";
      }
    }
  }

  /** The data test ignores case: lower-casing the line changes nothing. */
  lemma DataNameIgnoresCase(t: string)
    ensures DataName(Lower(t)) == DataName(t)
  {
    var l := Lower(t);
    if |t| >= 5 {
      assert l[..4] == Lower(t[..4]);
      assert Lower(l[..4]) == Lower(t[..4]);
      assert Upper(l[..4]) == Upper(t[..4]);
    }
  }

  // ---------------------------------------------------------------------
  // One line, one symbol at most

  /** The symbol a line contributes, if any. The line is trimmed first; a
      blank line yields nothing; the section test comes before the label
      test, which comes before the data test. */
  function Classify(line: string, i: nat): (r: Option<DocSymbol>)
    ensures r.Some? ==> r.value.line == i && r.value.width == |line| && r.value.children == []
  {
    var t := Trim(line);
    if t == "" then None
    else match MarkerName(t)
      case Some(n) => Some(DocSymbol(n, "Sezione", Module, i, |line|, []))
      case None =>
        match LabelName(t)
        case Some(n) => Some(DocSymbol(n, "Etichetta", Function, i, |line|, []))
        case None =>
          match DataName(t)
          case Some(n) => Some(DocSymbol(n, "Dato", Variable, i, |line|, []))
          case None => None
  }

  /** What each kind of symbol is named after: a section after its marker's
      name, which is trimmed; a label after the identifier before the colon;
      a data directive after its keyword in upper case. A blank line gives
      no symbol, and neither does a line that none of the three patterns
      matches; the section test wins over the label test, which wins over
      the data test. */
  lemma ClassifiedNames(line: string, i: nat)
    ensures Trim(line) == "" ==> Classify(line, i).None?
    ensures var t := Trim(line);
      t != "" && IsMarker(t) ==>
      Classify(line, i) == Some(DocSymbol(MarkerName(t).value, "Sezione", Module, i, |line|, []))
      && IsTrimmed(MarkerName(t).value)
    ensures var t := Trim(line);
      forall e: nat, k: nat :: t != "" && !IsMarker(t) && LabelPattern(t, e, k) ==>
      Classify(line, i) == Some(DocSymbol(t[..e], "Etichetta", Function, i, |line|, []))
    ensures var t := Trim(line);
      forall k: nat :: t != "" && !IsMarker(t) && NoLabel(t) && DataPattern(t, k) ==>
      Classify(line, i) == Some(DocSymbol(Upper(t[..4]), "Dato", Variable, i, |line|, []))
    ensures var t := Trim(line);
      Classify(line, i).None? <==> t == "" || (!IsMarker(t) && NoLabel(t) && forall k: nat :: !DataPattern(t, k))
    ensures Classify(line, i).Some? && Classify(line, i).value.kind == Module ==>
      MarkerName(Trim(line)) == Some(Classify(line, i).value.name) && IsTrimmed(Classify(line, i).value.name)
    ensures Classify(line, i).Some? && Classify(line, i).value.kind == Function ==>
      !IsMarker(Trim(line)) && IsIdentifier(Classify(line, i).value.name)
      && LabelPattern(Trim(line), |Classify(line, i).value.name|, SkipSpaces(Trim(line), |Classify(line, i).value.name|))
    ensures Classify(line, i).Some? && Classify(line, i).value.kind == Variable ==>
      !IsMarker(Trim(line)) && LabelName(Trim(line)).None? && Classify(line, i).value.name in {"WORD", "BYTE"}
  {
    var t := Trim(line);
    if t != "" {
      if IsMarker(t) {
        MarkerNameIsTrimmed(t);
      } else {
        LabelNameIsPattern(t);
        if LabelName(t).None? {
          DataNameIsPattern(t);
          DataNameIsKeyword(t);
        }
      }
    }
  }

  /** The label pattern does not match `t`. */
  ghost predicate NoLabel(t: string) {
    forall e: nat, k: nat :: !LabelPattern(t, e, k)
  }

  /** The symbol of every line, in document order. */
  function Classified(lines: seq<string>): (cs: seq<Option<DocSymbol>>)
    ensures |cs| == |lines|
    ensures ClassifiedAs(lines, cs) && OnTheirLines(cs)
  {
    seq(|lines|, i requires 0 <= i < |lines| => Classify(lines[i], i))
  }

  /** `cs` holds the symbol of every line of `lines`. */
  predicate ClassifiedAs(lines: seq<string>, cs: seq<Option<DocSymbol>>) {
    && |cs| == |lines|
    && forall i {:trigger Classify(lines[i], i)} :: 0 <= i < |lines| ==> cs[i] == Classify(lines[i], i)
  }

  /** Every symbol stands on the line it comes from and has no children yet. */
  predicate OnTheirLines(cs: seq<Option<DocSymbol>>) {
    forall i :: 0 <= i < |cs| && cs[i].Some? ==> cs[i].value.line == i && cs[i].value.children == []
  }

  lemma ClassifiedIsClassified(lines: seq<string>)
    ensures ClassifiedAs(lines, Classified(lines))
    ensures OnTheirLines(Classified(lines))
  {
  }

  /** The symbols of the first `n` lines, one per line that has one, in
      line order, without nesting. */
  function Items(cs: seq<Option<DocSymbol>>, n: nat): (items: seq<DocSymbol>)
    requires n <= |cs| && OnTheirLines(cs)
    ensures forall k :: 0 <= k < |items| ==> items[k].line < n && cs[items[k].line] == Some(items[k])
    ensures forall j, k :: 0 <= j < k < |items| ==> items[j].line < items[k].line
    ensures forall i :: 0 <= i < n && cs[i].Some? ==> cs[i].value in items
  {
    if n == 0 then []
    else
      match cs[n - 1]
      case Some(s) => Items(cs, n - 1) + [s]
      case None => Items(cs, n - 1)
  }

  // ---------------------------------------------------------------------
  // Nesting

  /** Adding one symbol: a section goes to the top level and becomes the
      current section; a label or data symbol goes under the current section,
      which is the last top-level symbol once there is one, or to the top
      level before the first section. */
  function AddSymbol(symbols: seq<DocSymbol>, s: DocSymbol): seq<DocSymbol> {
    if s.kind != Module && |symbols| > 0 && symbols[|symbols| - 1].kind == Module then
      var last := symbols[|symbols| - 1];
      symbols[..|symbols| - 1] + [last.(children := last.children + [s])]
    else
      symbols + [s]
  }

  /** The symbol tree after the first `n` lines. */
  function OutlineAfter(cs: seq<Option<DocSymbol>>, n: nat): seq<DocSymbol>
    requires n <= |cs|
  {
    if n == 0 then [] else AddLineSymbol(OutlineAfter(cs, n - 1), cs[n - 1])
  }

  /** Adding what one line contributes, if anything. */
  function AddLineSymbol(symbols: seq<DocSymbol>, c: Option<DocSymbol>): seq<DocSymbol> {
    match c
    case Some(s) => AddSymbol(symbols, s)
    case None => symbols
  }

  /** The outline of a document. */
  function Outline(lines: seq<string>): seq<DocSymbol> {
    OutlineAfter(Classified(lines), |lines|)
  }

  /** The shape the tree always has: only sections have children; children
      are labels or data and have none of their own; once a section is at
      the top level, everything after it there is a section too. */
  ghost predicate WellNested(symbols: seq<DocSymbol>) {
    && (forall k :: 0 <= k < |symbols| && symbols[k].kind != Module ==> symbols[k].children == [])
    && (forall k, c :: 0 <= k < |symbols| && 0 <= c < |symbols[k].children| ==>
          symbols[k].children[c].kind != Module && symbols[k].children[c].children == [])
    && (forall j, k :: 0 <= j < k < |symbols| && symbols[j].kind == Module ==> symbols[k].kind == Module)
  }

  /** The symbol without what is nested under it. */
  function Leaf(s: DocSymbol): DocSymbol {
    s.(children := [])
  }

  /** The tree read in order: each top-level symbol, then its children. */
  function Flatten(symbols: seq<DocSymbol>): seq<DocSymbol> {
    if |symbols| == 0 then []
    else
      var last := symbols[|symbols| - 1];
      Flatten(symbols[..|symbols| - 1]) + [Leaf(last)] + last.children
  }

  lemma AddKeepsNested(symbols: seq<DocSymbol>, s: DocSymbol)
    requires WellNested(symbols) && s.children == []
    ensures WellNested(AddSymbol(symbols, s))
  {
    var r := AddSymbol(symbols, s);
    if s.kind != Module && |symbols| > 0 && symbols[|symbols| - 1].kind == Module {
      var last := symbols[|symbols| - 1];
      forall k | 0 <= k < |r| ensures r[k] == (if k < |symbols| - 1 then symbols[k] else last.(children := last.children + [s])) {
      }
      forall j, k | 0 <= j < k < |r| && r[j].kind == Module ensures r[k].kind == Module {
        assert r[j].kind == symbols[j].kind && r[k].kind == symbols[k].kind;
      }
    }
  }

  lemma FlattenAdd(symbols: seq<DocSymbol>, s: DocSymbol)
    requires s.children == []
    ensures Flatten(AddSymbol(symbols, s)) == Flatten(symbols) + [s]
  {
    var r := AddSymbol(symbols, s);
    var n := |symbols|;
    if s.kind != Module && n > 0 && symbols[n - 1].kind == Module {
      var last := symbols[n - 1];
      assert r[..n - 1] == symbols[..n - 1];
      assert r[n - 1] == last.(children := last.children + [s]);
      assert Leaf(r[n - 1]) == Leaf(last);
    } else {
      assert r[..n] == symbols;
      assert Leaf(s) == s;
    }
  }

  /** The tree holds every line's symbol exactly once, in line order, and
      is nested as `WellNested` says. Together these fix the tree: each label
      or data symbol sits under the last section above it, or at the top
      level when no section is above it. */
  lemma {:induction false} OutlineHoldsItems(cs: seq<Option<DocSymbol>>, n: nat)
    requires n <= |cs| && OnTheirLines(cs)
    ensures Flatten(OutlineAfter(cs, n)) == Items(cs, n)
    ensures WellNested(OutlineAfter(cs, n))
  {
    if n > 0 {
      OutlineHoldsItems(cs, n - 1);
      match cs[n - 1]
      case Some(s) =>
        FlattenAdd(OutlineAfter(cs, n - 1), s);
        AddKeepsNested(OutlineAfter(cs, n - 1), s);
      case None =>
    }
  }

  /** The outline of a document holds the symbols of its lines in order,
      nested under their sections. */
  lemma OutlineOfDocument(lines: seq<string>)
    ensures Flatten(Outline(lines)) == Items(Classified(lines), |lines|)
    ensures WellNested(Outline(lines))
  {
    ClassifiedIsClassified(lines);
    OutlineHoldsItems(Classified(lines), |lines|);
  }

  // ---------------------------------------------------------------------
  // The provider

  /** `current` points at the current section: the last top-level symbol,
      once that is a section. */
  predicate CursorOf(symbols: seq<DocSymbol>, current: Option<nat>) {
    && (current.Some? <==> |symbols| > 0 && symbols[|symbols| - 1].kind == Module)
    && (current.Some? ==> current.value == |symbols| - 1)
  }

  /** `provideDocumentSymbols`: the outline of the document's lines. */
  method ProvideDocumentSymbols(lines: seq<string>) returns (symbols: seq<DocSymbol>)
    ensures symbols == Outline(lines)
  {
    ClassifiedIsClassified(lines);
    ghost var cs: seq<Option<DocSymbol>> :| ClassifiedAs(lines, cs);
    assert ClassifiedAs(lines, cs);
    symbols := [];
    var current: Option<nat> := None;
    var i := 0;
    while i < |lines|
      invariant i <= |lines| == |cs|
      invariant symbols == OutlineAfter(cs, i)
      invariant CursorOf(symbols, current)
    {
      symbols, current := AddLine(symbols, current, lines, i, cs);
      i := i + 1;
    }
    ClassifiedIsUnique(lines, cs);
  }

  lemma ClassifiedIsUnique(lines: seq<string>, cs: seq<Option<DocSymbol>>)
    requires ClassifiedAs(lines, cs)
    ensures cs == Classified(lines)
  {
  }

  /** One iteration of the provider's loop, on line `i`. */
  method AddLine(symbols: seq<DocSymbol>, current: Option<nat>, lines: seq<string>, i: nat,
                 ghost cs: seq<Option<DocSymbol>>)
    returns (symbols': seq<DocSymbol>, current': Option<nat>)
    requires CursorOf(symbols, current)
    requires i < |lines| && ClassifiedAs(lines, cs)
    ensures symbols' == AddLineSymbol(symbols, cs[i])
    ensures CursorOf(symbols', current')
  {
    var line := lines[i];
    assert cs[i] == Classify(line, i);
    var text := Trim(line);
    if text == "" {
      return symbols, current;
    }
    var sectionMatch := MarkerName(text);
    if sectionMatch.Some? {
      var section := DocSymbol(sectionMatch.value, "Sezione", Module, i, |line|, []);
      return symbols + [section], Some(|symbols|);
    }
    var labelMatch := LabelName(text);
    if labelMatch.Some? {
      var labelSymbol := DocSymbol(labelMatch.value, "Etichetta", Function, i, |line|, []);
      symbols' := Nest(symbols, current, labelSymbol);
      return symbols', current;
    }
    var dataMatch := DataName(text);
    if dataMatch.Some? {
      var dataSymbol := DocSymbol(dataMatch.value, "Dato", Variable, i, |line|, []);
      symbols' := Nest(symbols, current, dataSymbol);
      return symbols', current;
    }
    return symbols, current;
  }

  /** A label or data symbol goes into the current section's children, or
      to the top level when there is no current section. */
  method Nest(symbols: seq<DocSymbol>, current: Option<nat>, s: DocSymbol)
    returns (symbols': seq<DocSymbol>)
    requires CursorOf(symbols, current) && s.kind != Module
    ensures symbols' == AddSymbol(symbols, s)
    ensures CursorOf(symbols', current)
  {
    if current.Some? {
      var c := current.value;
      symbols' := symbols[c := symbols[c].(children := symbols[c].children + [s])];
      assert symbols' == symbols[..c] + [symbols'[c]];
    } else {
      symbols' := symbols + [s];
    }
  }

  // ---------------------------------------------------------------------
  // Examples

  lemma LabelExample()
    ensures Classify("start:  LOAD A", 3) == Some(DocSymbol("start", "Etichetta", Function, 3, 14, []))
  {
    var t := "start:  LOAD A";
    TrimOfTrimmed(t);
    NoSemicolonNoMarker(t);
    LabelNameExample();
  }

  lemma LabelNameExample()
    ensures LabelName("start:  LOAD A") == Some("start")
  {
    var t := "start:  LOAD A";
    assert SkipWordChars(t, 5) == 5;
    assert SkipWordChars(t, 1) == 5;
    assert t[..5] == "start";
  }

  /** The label test comes first: `word:` declares a label named `word`. */
  lemma LabelBeforeDataExample()
    ensures Classify("word: 5", 0) == Some(DocSymbol("word", "Etichetta", Function, 0, 7, []))
  {
    var t := "word: 5";
    TrimOfTrimmed(t);
    NoSemicolonNoMarker(t);
    WordLabelExample();
  }

  lemma WordLabelExample()
    ensures LabelName("word: 5") == Some("word")
  {
    var t := "word: 5";
    assert SkipWordChars(t, 4) == 4;
    assert SkipWordChars(t, 1) == 4;
    assert t[..4] == "word";
  }

  lemma DataExample()
    ensures Classify("Byte 10", 0) == Some(DocSymbol("BYTE", "Dato", Variable, 0, 7, []))
  {
    var t := "Byte 10";
    TrimOfTrimmed(t);
    NoSemicolonNoMarker(t);
    DataNameExample();
  }

  lemma DataNameExample()
    ensures LabelName("Byte 10") == None
    ensures DataName("Byte 10") == Some("BYTE")
  {
    var t := "Byte 10";
    assert SkipWordChars(t, 4) == 4;
    assert SkipWordChars(t, 1) == 4 && SkipSpaces(t, 4) == 5;
    assert Lower(t[..4]) == "byte";
    assert Upper(t[..4]) == "BYTE";
  }
}
