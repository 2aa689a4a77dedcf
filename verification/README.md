# SIMASM editor extension, modelled in Dafny

The SIMASM extension gives the editor five things for the SIMASM assembly
language. All of them live in `extension.js`:

- **Formatter** (`provideDocumentFormattingEdits`). Each line is split into
  label, instruction, two operands and comment. Every code column is then
  padded to the widest entry in the document. Comments are aligned after
  the longest code. There are two styles, `full` and `compact`, and a
  command toggles between them.
- **Outline** (`provideDocumentSymbols`). Section markers
  (`; --- NAME ---`) become top-level symbols. Labels (`name:`) and data
  directives (`word` / `byte`) are nested under the current section.
- **Go to definition** (`provideDefinition`). This finds the first
  `^\s*word:` in the text.
- **Flowchart view** (`updateFlowChart`). This cuts the document into
  sections at the marker lines, in two passes. It shows one box per section
  with its HTML-escaped code, or a placeholder page when there is no marker.
- **HTML escaping** of a section's code (the `replace` chain for `&`, `<`
  and `>`).

The model has one module per piece, plus `Text`. `Text` holds the JavaScript
string primitives the pieces rely on: `trim`, `trimEnd`, `padEnd`,
`split`, `join`, `indexOf` and the greedy `\s*` / `\S*` / `\w*` runs.

- Regular expressions are modelled by what the ECMAScript backtracking
  matcher returns. Six of them are stated twice: once as a declarative
  predicate of every possible match, and once as the executable matcher.
  Lemmas connect the two:
  - the section marker `;\s*---\s*(.*?)\s*---` (`Markers.MatchAtIsPreferredMatch`);
  - the label `^([a-zA-Z_][a-zA-Z0-9_]*)\s*:` (`Outline.LabelNameIsPattern`);
  - the data directive `^(word|byte)\s+` with the `i` flag (`Outline.DataNameIsPattern`);
  - the definition `^\s*word:` with the `gm` flags (`Definition.FindDefinition`);
  - the formatter's field pattern (`Formatter.SplitCodeIsPreferredMatch`);
  - the comment line `^\s*;` (`Formatter.IsCommentLineIsPattern`).

  The test `/^;;/` is a fixed prefix and is written directly as
  `Formatter.StartsWith`.
- `\s` and `trim` are modelled with the full ECMAScript white-space set:
  WhiteSpace plus LineTerminator, including U+00A0, U+FEFF and the Unicode
  space separators.
- `.` is "anything but a line terminator".
- Loops in the source that build results step by step are `method`s with
  loop invariants. Each is proved to meet a declarative specification,
  either a function or a predicate over every match, and the properties
  are proved about that specification:
  - the formatter's two loops;
  - the outline loop;
  - the definition search;
  - the two passes of the section extraction.
- When a code part has more than three fields after its optional label,
  the field pattern fails and all four fields become empty. The code of
  that line is then not written back; only its comment stays. The model
  keeps this behaviour (`Formatter.SplitKeepsCode`, `Formatter.ParseKeepsCode`).
- A section name is put into the flowchart page without escaping
  (extension.js:574). `Sections.RenderPage` keeps the raw name as the box
  header, and escaping is proved for the code only.

## Model

| member | source | states |
|---|---|---|
| `Text.SkipSpaces` | extension.js:187 | a greedy `\s*` from `i` consumes exactly a maximal whitespace run: everything it skips is whitespace and the next character is not |
| `Text.SkipSpacesAcross` | extension.js:474 | a greedy `\s*` started anywhere inside a whitespace run stops at the same place |
| `Text.SkipSpacesIs` | extension.js:187 | a greedy `\s*` stops at the first character that is not whitespace, whichever it is |
| `Text.TrimStart` | extension.js:181 | `trimStart` drops exactly a leading whitespace run and leaves a string that does not start with whitespace |
| `Text.TrimEnd` | extension.js:341 | `trimEnd` keeps a prefix, drops only whitespace, and leaves no trailing whitespace |
| `Text.TrimIsSlice` | extension.js:181 | `trim` gives the slice of the string that is left after cutting a whitespace run off each end, and that slice neither starts nor ends with whitespace |
| `Text.TrimOfTrimmed` | extension.js:181 | trimming is idempotent on an already trimmed string |
| `Text.PadEnd` | extension.js:302 | `padEnd(n)` is `n` long, or as long as the string when that is longer |
| `Text.PadEndShape` | extension.js:302 | the padded string starts with the original and continues with spaces only |
| `Text.SpacesAreBlank` | extension.js:326 | `' '.repeat(n)` is `n` spaces |
| `Text.Split` | extension.js:465 | `split('\n')` gives at least one piece and no piece holds the separator |
| `Text.Join` | extension.js:505 | `join` of no pieces is empty and of one piece is that piece |
| `Text.JoinSplit` | extension.js:465 | joining the pieces of a split with the same separator gives the text back |
| `Text.SplitJoin` | extension.js:504-505 | splitting a join of separator-free pieces gives the pieces back |
| `Text.FirstIndex` | extension.js:277 | `indexOf` finds the first occurrence, and finds one exactly when the character occurs |
| `Markers.LazyNameEnd` | extension.js:474 | the lazy `(.*?)` followed by `\s*---` ends at a position no earlier than its start |
| `Markers.LazyNameEndIsLeast` | extension.js:474 | the lazy group ends at the least position reachable without crossing a line terminator from which `\s*---` matches, and fails when there is none |
| `Markers.MatchAtIsPreferredMatch` | extension.js:474 | `MatchAt` at a `;` returns exactly the match the backtracking order prefers, and returns nothing exactly when no match starts there |
| `Markers.PatternShape` | extension.js:474 | every match from a position has its first `---` after the longest whitespace run |
| `Markers.LongestSplitAlsoMatches` | extension.js:474 | a match that ends the second `\s*` early is also a match with the longest run, so the lazy end is still found |
| `Markers.LazyEndIsPreferred` | extension.js:474 | the end the lazy group finds gives the preferred match |
| `Markers.NoPatternWithoutDashes` | extension.js:474 | without `---` after the `;` and blanks, no match starts there |
| `Markers.NoPatternWithoutName` | extension.js:474 | without a closing `---` on the same line, no match starts there |
| `Markers.FindMarkerIsLeftmost` | extension.js:474 | `FindMarkerFrom` returns the leftmost position where the pattern matches, and nothing when it matches nowhere |
| `Markers.FindMarkerStep` | extension.js:474 | one search step: a match at `p` is returned, otherwise the search continues at `p + 1` |
| `Markers.MarkerNameIsLeftmost` | extension.js:187 | `MarkerName` finds a name exactly when the pattern matches somewhere in the line, and the name is the one captured at the leftmost match |
| `Markers.MatchIsTrimmed` | extension.js:189 | a captured name has no leading or trailing whitespace and no line break |
| `Markers.MarkerNameIsTrimmed` | extension.js:477 | a section name is trimmed and stays on one line |
| `Markers.NoSemicolonNoMarker` | extension.js:187 | a line without `;` is never a section marker |
| `Markers.MarkerExample1` | extension.js:186 | `; --- INIT ---` is the section `INIT` |
| `Markers.MarkerExample2` | extension.js:474 | `; ------` is a marker with an empty name |
| `Markers.MarkerExample3` | extension.js:474 | an instruction line is not a marker |
| `Markers.MarkerExample4` | extension.js:474 | the name stops at the first closing dashes: `;---A---B---` is section `A` |
| `Escape.ReplaceAll` | extension.js:568 | `replace(/c/g, r)` removes every `c` when `r` has none, and changes nothing when `s` has none |
| `Escape.ReplaceAllAppend` | extension.js:568 | a global replace distributes over concatenation |
| `Escape.EscapeChar` | extension.js:567-570 | each character escapes to a non-empty text |
| `Escape.EscapeHtmlAppend` | extension.js:567-570 | the escaping chain distributes over concatenation |
| `Escape.EscapeHtmlChar` | extension.js:567-570 | on one character the chain gives that character's entity, or the character itself |
| `Escape.EscapeHtmlIsPerCharacter` | extension.js:567-570 | because `&` is replaced first, `EscapeHtml` equals mapping each character to its entity independently |
| `Escape.EscapeHtmlIsWellEscaped` | extension.js:567-570 | the escaped code holds no `<` or `>`, and every `&` in it opens `&amp;`, `&lt;` or `&gt;` |
| `Escape.UnescapeEscape` | extension.js:567-570 | decoding the three entities gives back exactly the section's code: escaping loses nothing |
| `Sections.MarkersBefore` | extension.js:472-494 | the marker lines among the first `n` are listed in increasing order, and all of them are listed |
| `Sections.ExtractSections` | extension.js:464-506 | the two passes give one section per marker line, with the range and text described by `SectionsOf` |
| `Sections.RecordMarkers` | extension.js:472-495 | pass 1 records every marker in order; each section but the last ends just before the next marker and the last runs to the end of the document |
| `Sections.RecordLine` | extension.js:473-494 | one line of pass 1 keeps that invariant |
| `Sections.PassOneOpens` | extension.js:479-493 | a marker line closes the latest section at the line above and opens a new one that runs to the end |
| `Sections.PassOneSkips` | extension.js:476 | a line that is not a marker changes nothing |
| `Sections.PassOneRanges` | extension.js:480-489 | after pass 1 every range can be sliced, and each non-last range already ends just before the next marker |
| `Sections.SliceContents` | extension.js:498-506 | pass 2 leaves the ranges as `RangesOf` states and each text as the joined lines of its range |
| `Sections.FillContents` | extension.js:498-506 | the pass-2 loop gives each section its text, one section at a time |
| `Sections.FillSection` | extension.js:499-505 | one pass-2 step gives the section `WithContent`: the range ends before the next marker and the text is its lines joined with `\n` |
| `Sections.PassTwoDone` | extension.js:498-506 | the sections that pass 2 fills in have the ranges and texts the two passes promise |
| `Sections.SectionsAreNamed` | extension.js:477-487 | each section is named after the marker on its own line |
| `Sections.SectionsAreOrdered` | extension.js:480-503 | ranges start right after their marker, appear in marker order, do not overlap, each ends just before the next marker, and the last ends at the last line |
| `Sections.RangesHoldNoMarker` | extension.js:488-502 | no range contains a marker line |
| `Sections.RangeLinesAreNotMarkers` | extension.js:488-502 | on the document's lines, no line inside a range is a marker |
| `Sections.RangesCoverBody` | extension.js:488-502 | a line lies in some range exactly when it is not a marker and comes after the first marker |
| `Sections.LastMarkerAbove` | extension.js:488-502 | the section of the last marker above a non-marker line holds that line |
| `Sections.BodyLines` | extension.js:488-505 | the same coverage, stated on the document's lines |
| `Sections.EmptyBodyHasNoContent` | extension.js:501-505 | a marker directly followed by another marker, or on the last line, gives an empty text |
| `Sections.ContentIsRange` | extension.js:504-505 | splitting a section's text on `\n` gives back exactly the document lines of its range |
| `Sections.NoMarkersNoSections` | extension.js:508 | there are no sections exactly when no line is a marker |
| `Sections.RenderPage` | extension.js:508-580 | the placeholder shows exactly when there are no sections; otherwise there is one box per section, with its index, marker line and name, and code that is well escaped and decodes to the section's text |
| `Sections.CodeRoundTrips` | extension.js:567-576 | every box's code decodes to its section's text and is well escaped |
| `Sections.UpdateFlowChart` | extension.js:461-533 | the placeholder shows exactly when the document has no marker line; otherwise box `k` sits on the `k`-th marker line, is headed by that marker's name, and its code is well escaped and decodes to the lines from there to the next marker joined with `\n` |
| `Sections.BoxesShowSections` | extension.js:553-580 | each rendered box carries its index, the name of its marker line as header, and its section's lines, escaped |
| `Formatter.Toggle` | extension.js:365 | toggling always switches to the other style |
| `Formatter.WordsAreWords` | extension.js:283 | every field the pattern captures is non-empty and has no whitespace |
| `Formatter.WordsAreTheRuns` | extension.js:283 | `Words` gives exactly the words of a text whose words are separated by whitespace runs: the groups `(\S+)` capture |
| `Formatter.RemoveSpaces` | extension.js:283 | removing blanks leaves no whitespace |
| `Formatter.LabelEnd` | extension.js:283 | a label is found exactly when the code starts with an identifier followed at once by `:`, and it ends just after that colon |
| `Formatter.FieldsOf` | extension.js:284-287 | the label goes in the label field and the first, second and third words in the instruction and operand fields, with empty fields for missing words; the comment is empty |
| `Formatter.Pad3` | extension.js:285-287 | exactly three fields: entry `k` is word `k` when there is one, and empty otherwise |
| `Formatter.SplitCodeIsPreferredMatch` | extension.js:282-288 | `SplitCode` returns the match of `^\s*([A-Za-z_][\w]*:)?\s*(\S+)?(?:\s+(\S+))?(?:\s+(\S+))?$` that backtracking prefers: the one with the label group filled when there is one, else the one without it, and four empty fields when nothing matches |
| `Formatter.SplitFieldsHaveNoSpaces` | extension.js:283-287 | no field of the split holds whitespace |
| `Formatter.WordsCoverText` | extension.js:283 | the words of a text are the text with its whitespace removed, in order |
| `Formatter.WordCountShrinks` | extension.js:283 | starting the split inside a word never gives fewer words |
| `Formatter.LabelFallbackNeverMatches` | extension.js:283 | when the labelled reading has too many fields, so does the reading without a label, so the pattern fails as a whole |
| `Formatter.SplitKeepsCode` | extension.js:282-288 | with at most three fields after the optional label, the fields put together are the code without its blanks, and a leading `ident:` is the label; with more, all fields are empty |
| `Formatter.CodePart` | extension.js:277-278 | the code part is the text before the first `;` with only whitespace cut from its ends: a slice of the line, trimmed, with no `;` |
| `Formatter.IsCommentLineIsPattern` | extension.js:272 | a line is a comment line exactly when a `;` has only whitespace before it |
| `Formatter.CommentLineTrim` | extension.js:272-274 | a comment line trims to a text that starts with `;` |
| `Formatter.ParseLine` | extension.js:268-289 | a comment line is kept whole and trimmed as the comment with no code; otherwise the comment is the trimmed text from the first `;` on, or empty without one; it starts with `;`, and no code field holds whitespace |
| `Formatter.ParseKeepsCode` | extension.js:271-289 | a comment line has no code; otherwise the fields are the preferred match of the field pattern on the code part, with the label first when one matches, and put together they are that code without its blanks; when the pattern fails they are all empty |
| `Formatter.ParseDoubleComment` | extension.js:272-274 | a line whose first non-blank characters are `;;` is kept whole as its comment, with no code |
| `Formatter.ParseBlank` | extension.js:265-289 | a blank line has neither code nor comment |
| `Formatter.MaxOf` | extension.js:294 | `Math.max` bounds every entry and is one of them |
| `Formatter.WidthsOf` | extension.js:294-297 | each column width is the longest entry of that field over the lines: at least every line's entry and equal to one of them; 0 for no lines |
| `Formatter.Code` | extension.js:299-313 | the measured code never ends in whitespace |
| `Formatter.MaxCodeWidth` | extension.js:315 | the comment column is the length of the longest code of any line: at least every line's code and equal to one of them |
| `Formatter.LayoutFits` | extension.js:294-315 | every line fits the `LayoutOf` the document: the widths and the code width measured over it |
| `Formatter.LineText` | extension.js:317-351 | a formatted line never ends in whitespace |
| `Formatter.ParseDocument` | extension.js:265-292 | the first loop parses every line, in order |
| `Formatter.EmitEdits` | extension.js:317-352 | the second loop emits exactly those edits |
| `Formatter.FormatDocument` | extension.js:260-355 | one edit per document line, in order; each line fits the layout measured over the whole document and is replaced with its formatted text |
| `Formatter.LineTextKeepsCode` | extension.js:341-348 | a line with code is its code, followed by the comment after enough blanks to reach column `maxCode + 2` when it has one |
| `Formatter.FormatLineKeepsCode` | extension.js:328-348 | `FormatLine` under the document's layout starts with the line's code, and a comment follows at column `maxCode + 2` |
| `Formatter.CodeColumns` | extension.js:299-313 | the code of a line with an instruction starts with the label padded to `labelWidth + 2` and then the instruction, in both styles |
| `Formatter.InstructionColumn` | extension.js:328-348 | in the written line the label is at column 0, blanks follow up to column `labelWidth + 2`, and the instruction starts there |
| `Formatter.CommentAlone` | extension.js:324-326 | a comment without code, other than `;;`, starts at column `maxCode + 2` after blanks only |
| `Formatter.CommentAfterCode` | extension.js:343-345 | a comment after code starts at column `maxCode + 2`, with the code before it and at least two blanks between them |
| `Formatter.DoubleCommentStays` | extension.js:321-323 | a `;;` comment line is written back as it is, at column 0 |
| `Formatter.EmptyLineStaysEmpty` | extension.js:327-351 | a line with neither code nor comment becomes empty |
| `Formatter.BlankCode` | extension.js:328-341 | without fields, the padded columns cut down to nothing |
| `Formatter.LabelPartIsPadded` | extension.js:302-307 | the compact style's blanks for a missing label equal the full style's padded empty label |
| `Formatter.OperandPartKeepsFields` | extension.js:304-310 | in both styles the operand columns hold the two operands in order and add only blanks |
| `Formatter.PaddedCodeKeepsFields` | extension.js:299-311 | the padded code holds label, instruction and operands in order and adds only blanks |
| `Formatter.CodeKeepsFields` | extension.js:328-341 | the code written for a line, without its blanks, is its four fields put together |
| `Formatter.FormatKeepsCode` | extension.js:268-341 | the code written for a source line is that line's code part with only its blanks changed, unless the field pattern fails on it |
| `Outline.LabelName` | extension.js:204-206 | the label is an identifier prefix of the trimmed line |
| `Outline.LabelNameIsPattern` | extension.js:204 | the label test succeeds exactly when `^([a-zA-Z_][a-zA-Z0-9_]*)\s*:` matches, and every match captures the same name |
| `Outline.LabelMatchIsUnique` | extension.js:204-206 | any match of the label pattern captures the name `LabelName` finds |
| `Outline.LowerAscii` | extension.js:227 | case folding keeps whitespace as whitespace |
| `Outline.DataNameIsKeyword` | extension.js:227-233 | a data symbol is named `WORD` or `BYTE`: the line's first four letters upper-cased, followed by whitespace |
| `Outline.DataNameIgnoresCase` | extension.js:227 | the case-insensitive test gives the same result on the lower-cased line |
| `Outline.DataNameIsPattern` | extension.js:227-233 | `DataName` finds a name exactly when the line starts with `word` or `byte` in any case followed by a whitespace run, as the data pattern matches, and the name is that keyword upper-cased |
| `Outline.Classify` | extension.js:180-246 | a line's symbol sits on that line, spans its untrimmed length and has no children yet |
| `Outline.ClassifiedNames` | extension.js:181-246 | a blank line gives nothing; a marker gives the section named by `MarkerName`; otherwise a label match gives the label named by its identifier; otherwise a data match gives the keyword upper-cased; a line gives nothing exactly when it is blank or none of the three patterns matches |
| `Outline.Classified` | extension.js:179-181 | one classification per line: entry `i` is the symbol of line `i`, which sits on line `i` and has no children yet |
| `Outline.Items` | extension.js:179-246 | the symbols of the lines, without loss or duplication and in line order |
| `Outline.AddKeepsNested` | extension.js:199-244 | `AddSymbol` keeps the tree shape: only sections have children, children are never sections and have none of their own, and after the first top-level section only sections follow at the top level |
| `Outline.FlattenAdd` | extension.js:199-244 | adding a symbol appends it to the tree read in order |
| `Outline.OutlineHoldsItems` | extension.js:179-247 | read in order, `OutlineAfter` the lines holds exactly the symbols of the lines in line order, and is well nested |
| `Outline.OutlineOfDocument` | extension.js:174-250 | the same for a whole document |
| `Outline.ProvideDocumentSymbols` | extension.js:174-250 | the provider's loop builds the outline of the document's lines |
| `Outline.AddLine` | extension.js:180-246 | one loop iteration adds that line's symbol, and keeps the current section as the last top-level section |
| `Outline.Nest` | extension.js:217-222 | a label or data symbol goes under the current section, or to the top level when there is none |
| `Outline.LabelExample` | extension.js:203-223 | `start:  LOAD A` on line 3 is the label `start` |
| `Outline.LabelBeforeDataExample` | extension.js:203-227 | `word: 5` is a label named `word`, not a data directive |
| `Outline.DataExample` | extension.js:226-245 | `Byte 10` is a data symbol named `BYTE` |
| `Definition.OnlyLongestRun` | extension.js:405 | in any match the `\s*` runs to the end of the whitespace run, since a word cannot start with whitespace |
| `Definition.FindDefinition` | extension.js:397-414 | returns the leftmost match of `^\s*word:` in multiline mode, with the range ending just after the colon; returns nothing exactly when the text has no match |
| `Definition.BlankLinesBeforeLabel` | extension.js:405-410 | because `\s` crosses line breaks, a match can start on a blank line above the label |
| `Definition.ColonMustFollow` | extension.js:405 | `loop :` and `loop2:` do not define `loop` |

## Left out

- Editor plumbing (`activate`, provider and command registration, `deactivate`, reading and saving the style in the extension's global state; extension.js:56-63, 253-259, 356-370, 386-396, 415-459, 722-745): this is host API with no logic. The model takes the style as a parameter.
- The hover provider (extension.js:372-384) and the instruction table it reads (extension.js:9-52): a fixed lookup into documentation data.
- The instructions panel and the HTML and CSS of every web page (extension.js:66-168, 582-718): fixed text. `Sections.RenderPage` keeps only what the page shows for each section: index, marker line, name and escaped code.
- The flowchart's box-width equalisation and click script (extension.js:658-709), and the jump-to-line message handler (extension.js:535-550): these run in the browser or move the editor's cursor.
- Document access: `document.lineAt`, `lineCount`, `getText` and `positionAt` are the editor's. The formatter and outline take the document's lines. The definition lookup takes the text and gives offsets instead of positions.
- `getWordRangeAtPosition` (extension.js:398-401): `Definition.FindDefinition` takes the word under the cursor as an identifier. Such a word has no regular-expression metacharacters, so the model does not need to escape it.
- String lengths are counted in characters, not UTF-16 code units. Unicode case mapping beyond ASCII letters is not modelled; it only matters for the data test's `i` flag, which folds ASCII only.
- `Formatter.MaxOf`: `Math.max` of an empty list is `-Infinity` in JavaScript. It is 0 here, because an editor document always has at least one line.
- Outline.Classify: a marker whose captured name is empty, such as `; ------`, gives a section symbol named "". The editor's `DocumentSymbol` constructor (extension.js:192-198) refuses an empty name and throws, so the extension then shows no outline for that document. The constructor is host code, and the model keeps the empty-named section instead of modelling the failure.
- Outline.ClassifiedNames: its marker clause promises a section symbol even when `MarkerName` is empty. For the reason above, the extension cannot build that symbol. The same applies to `Outline.OutlineHoldsItems`, `Outline.OutlineOfDocument` and `Outline.ProvideDocumentSymbols` on such a document.
- `Outline.Classify`: a symbol's range is kept as its line number and the untrimmed line length. The range and selection range the editor builds from them are the same.
