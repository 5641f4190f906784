# GFM conversion rules of the ChatGPT exporter

The exporter in `ChatGPT-Export/export.js` converts a rendered conversation to
Markdown with the Turndown converter. It adds the GitHub-Flavoured-Markdown
plugin (`turndownPluginGfm`) and three rules of its own. Each rule has two parts:

- a **filter**, which is a predicate over a DOM node;
- a **replacement**, which maps the node's already-rendered content, the node
  itself and the converter options to a Markdown string.

This project models every one of those rules in Dafny and proves what each one
produces.

- `dom.dfy` (module `Dom`) is the slice of the DOM the rules read.
  - A document is a value tree, and a node is named by the document and the path
    of child indices leading to it.
  - So `parentNode`, `previousSibling`, `firstChild` and the identity
    comparisons (`===`, `indexOf`) become arithmetic on the path.
  - A JavaScript exception (a property read on `null` or `undefined`, a call of
    a missing method) is a `TypeError` result. It is never a precondition.
- `patterns.dfy` (module `Patterns`) writes the string searches and regular
  expressions the rules use:
  - `indexOf`, and `replace` with a string pattern, as scans whose contracts
    state the occurrence they find;
  - `highlight-(?:text|source)-([a-z0-9]+)` and `/.*language-(\w+)/`, as scans
    whose contracts state the match and the capture they return;
  - `/^.*(hljs).*(language-[a-z0-9]+).*$/i`, as the predicate
    `Patterns.HljsMatches`, a plain definition of the strings the pattern accepts.
- `/^\s*$/` is the predicate `Dom.IsBlank` in `dom.dfy`, also a plain definition.
- `gfm.dfy` (module `Gfm`) holds the plugin's rules:
  - highlighted code blocks and strikethrough;
  - table cells, rows, tables and table sections;
  - `isHeadingRow` and `isFirstTbody`;
  - the `keep` predicate for tables without a heading row;
  - task-list checkboxes.

  The highlighted-code rule reads `options.fence`. The exporter passes only
  `hr: '---'`, so the fence keeps the converter's default; the model takes the
  options as a parameter.
- `export_md.dfy` (module `ExportMd`) holds the exporter's own `code`, `ignore`
  and `table` rules. Their fences are three backticks written into the rules
  themselves, not read from the options.

Modelling notes:

- **`HTMLTableElement.rows`** (`Gfm.Rows`) follows the order the HTML Living
  Standard gives it:
  - rows of THEAD children first;
  - then rows that are children of the table or of a TBODY, in document order;
  - then rows of TFOOT children.
- **`isFirstTbody`** looks only at the sibling immediately before the TBODY. The
  model follows the code: a TBODY behind a text node or a second THEAD is not a
  first TBODY, even when no earlier TBODY exists.
- **The `tableRow` replacement** loops over the cells and accumulates the
  alignment line. `Gfm.BorderCells` is that loop and `Gfm.TableRowReplacement`
  the replacement around it; both are proved equal to the functions
  `Gfm.BorderLine` and `Gfm.TableRow`, and the properties of the line are lemmas
  about those functions. The marker lookup is a parameter: `AsWritten` is the
  source's `alignMap[align] || border`, `Intended` the lookup the source
  evidently means (see the first finding).
- **The two identity rules** have no contract of their own. `Gfm.TableSection`
  gives back `content`, and `ExportMd.Ignore` gives back `""`.

## Model

| member | source | states |
|---|---|---|
| Dom.ParentNode | ChatGPT-Export/export.js:103 | `parentNode` is null exactly for the document root; otherwise the node found there holds this node at its index in `childNodes` |
| Dom.PreviousSibling | ChatGPT-Export/export.js:115 | `previousSibling` is null exactly for the root and for a first child; otherwise it is the child just before the node in its parent |
| Patterns.FirstIndexOf | ChatGPT-Export/export.js:85 | the leftmost occurrence of the pattern at or after the start index; none when there is no occurrence |
| Patterns.ReplaceFirst | ChatGPT-Export/export.js:85 | a string-pattern `replace` leaves a string without the pattern unchanged, and otherwise splices the replacement over the first occurrence only |
| Dom.IsBlank | ChatGPT-Export/export.js:121 | `/^\s*$/i.test`: every character is JavaScript white space or a line terminator, vacuously for `""` |
| Patterns.FirstHighlight | ChatGPT-Export/export.js:8 | the leftmost index at or after the start where `highlight-text-` or `highlight-source-` is followed by `[a-z0-9]`; none when there is no such index |
| Patterns.HighlightLanguage | ChatGPT-Export/export.js:8 | `match` is null exactly when the pattern matches nowhere; otherwise group 1 is the capture at the leftmost match, a non-empty run of `[a-z0-9]` |
| Patterns.HighlightLanguageShape | ChatGPT-Export/export.js:8 | the capture occurs in the class string directly after `highlight-text-` or `highlight-source-` |
| Patterns.HljsMatches | ChatGPT-Export/export.js:172 | `hljsREG.test`: the string has no line terminator and holds `hljs` and, later, `language-` and a letter or digit, letter case ignored |
| Patterns.LastLanguageAt | ChatGPT-Export/export.js:187 | the last index below the bound where `language-` is followed by a word character, with none after it |
| Patterns.LanguageCapture | ChatGPT-Export/export.js:187 | `match` is null exactly when no `language-\w` occurs; otherwise the capture is the greedy `\w+` run after the last such occurrence (the greedy `.*` moves the match there) |
| Gfm.HighlightedCodeBlockFilter | ChatGPT-Export/export.js:12-19 | the filter: a DIV whose class matches the highlight pattern and whose first child is a PRE |
| Gfm.CodeBlockLanguage | ChatGPT-Export/export.js:22-23 | capture group 1 of the highlight match when the class has one, `''` otherwise (a node without a class included); made of `[a-z0-9]` only |
| Gfm.HighlightedFilterHasLanguage | ChatGPT-Export/export.js:12-23 | a DIV the filter accepts has a non-empty language equal to the first match's capture, and its replacement does not throw |
| Gfm.HighlightedCodeBlock | ChatGPT-Export/export.js:21-30 | the replacement throws exactly when there is no first child |
| Gfm.HighlightedCodeBlockLayout | ChatGPT-Export/export.js:25-29 | a blank line, then the fence with the language as the whole first line, then the first child's text verbatim, then the closing fence and a blank line; `content` plays no part |
| Gfm.StrikethroughFilter | ChatGPT-Export/export.js:36 | the filter: `del`, `s` or `strike`, compared with the lower-cased `nodeName` |
| Gfm.Strikethrough | ChatGPT-Export/export.js:37-39 | one tilde on each side, with `content` unchanged between them |
| Gfm.TableCellFilter | ChatGPT-Export/export.js:48 | the filter: `th` or `td` |
| Gfm.Cell | ChatGPT-Export/export.js:127-132 | throws for a node without a parent; otherwise `'\| '` for the first child and `' '` for any other, then `content`, then `' \|'` |
| Gfm.IsFirstTbody | ChatGPT-Export/export.js:114-125 | `isFirstTbody`: a TBODY with no previous sibling, or whose previous sibling is a THEAD holding only white space |
| Gfm.FirstTbodyBySiblings | ChatGPT-Export/export.js:114-125 | a TBODY is a first TBODY iff it is the root or a first child, or the child just before it in its parent is a THEAD whose text is all white space; earlier siblings play no part |
| Gfm.EveryThMeansAllTh | ChatGPT-Export/export.js:109 | the `every` call over child nodes holds iff every child is a TH, vacuously for no children |
| Gfm.IsHeadingRow | ChatGPT-Export/export.js:102-112 | throws exactly for a row without a parent; otherwise true iff the parent is THEAD, or the row is the parent's first child, the parent is TABLE or a first TBODY, and every child is TH |
| Gfm.Rows | ChatGPT-Export/export.js:80 | every entry of `table.rows` is a TR inside the table: a valid path that extends the table's |
| Gfm.TrChildrenMembers | ChatGPT-Export/export.js:80 | the scan of a section lists exactly the TR children of the section from the start index on |
| Gfm.GroupMembers | ChatGPT-Export/export.js:80 | a table child contributes to a group exactly the rows of that group that lie under it |
| Gfm.RowsFromMembers | ChatGPT-Export/export.js:80 | the scan of the table's children from index `i` lists exactly the rows of the group under child `i` or later |
| Gfm.RowsFromOrder | ChatGPT-Export/export.js:80 | each group lists its rows in tree order |
| Gfm.RowsMembers | ChatGPT-Export/export.js:80 | `table.rows` holds exactly the TR children of THEAD children, of the table itself or of its TBODY children, and of TFOOT children |
| Gfm.RowsEmpty | ChatGPT-Export/export.js:80 | `rows` is empty exactly when no group has a row |
| Gfm.FirstRowIsHeader | ChatGPT-Export/export.js:80 | `rows[0]` of a table with a header row is its first header row in tree order |
| Gfm.FirstRowIsBody | ChatGPT-Export/export.js:80 | without header rows, `rows[0]` is the first row, in tree order, that is a child of the table or of a TBODY |
| Gfm.FirstRowIsFooter | ChatGPT-Export/export.js:136 | with neither, `rows[0]` is the first footer row |
| Gfm.TableFilter | ChatGPT-Export/export.js:79-81 | throws exactly for a TABLE without rows; accepts exactly a TABLE whose `rows[0]` is a heading row |
| Gfm.KeepFilter | ChatGPT-Export/export.js:135-137 | throws exactly for a TABLE without rows; accepts exactly a TABLE whose `rows[0]` is not a heading row |
| Gfm.TableOrKeep | ChatGPT-Export/export.js:79-81 | on a TABLE with a row, exactly one of the `table` filter and the `keep` predicate accepts it; both throw exactly when it has no row; neither accepts any other node |
| Gfm.TableReplacement | ChatGPT-Export/export.js:83-87 | the result is set off by a blank line on each side, and content without a blank line passes through unchanged |
| Gfm.TableReplacementCollapsesFirst | ChatGPT-Export/export.js:85-86 | only the first `\n\n` loses one line feed; everything before and after it is kept |
| Gfm.TableSectionFilter | ChatGPT-Export/export.js:91 | the filter: `thead`, `tbody` or `tfoot` |
| Gfm.TableSection | ChatGPT-Export/export.js:92-94 | a section gives back its `content` unchanged |
| Gfm.AlignMarker | ChatGPT-Export/export.js:58-67 | `:--`, `--:`, `:-:` exactly for `left`, `right`, `center` in any letter case, and `---` exactly for every other value, missing or empty included |
| Gfm.JsAlignMarker | ChatGPT-Export/export.js:67 | the lookup as written, where an object literal also answers inherited property names |
| Gfm.InheritedAlignKeys | ChatGPT-Export/export.js:58-67 | the lookup as written differs from the intended one exactly for `constructor` and `__proto__`, and there it yields no alignment marker |
| Gfm.MarkerHasNoBar | ChatGPT-Export/export.js:62-67 | neither lookup ever yields a `\|` |
| Gfm.BorderLine | ChatGPT-Export/export.js:61-70 | the alignment line for at least one cell is not empty |
| Gfm.BorderLineLayout | ChatGPT-Export/export.js:61-70 | with the intended lookup the line is `\|` followed by one column ` m \|` per cell, `m` being that cell's alignment marker, in cell order |
| Gfm.SourceLookupAgrees | ChatGPT-Export/export.js:62-67 | when no cell's `align` is `constructor` or `__proto__` in any case, the source's lookup writes the same alignment line as the intended one |
| Gfm.SourceBorderLineLayout | ChatGPT-Export/export.js:61-70 | on such cells the source's line is `\|` followed by one column ` m \|` per cell, `m` being that cell's alignment marker (`:--` for `left`, and so on) |
| Gfm.BorderLineColumns | ChatGPT-Export/export.js:61-70 | with either lookup the alignment line for `n` cells holds `n + 1` bars |
| Gfm.BorderCells | ChatGPT-Export/export.js:61-70 | the loop that appends `cell(border, child)` per child yields the alignment line, and throws exactly when a child is a text node |
| Gfm.TableRow | ChatGPT-Export/export.js:56-73 | throws exactly for a row without a parent or for a heading row with a text child; otherwise starts with `'\n' + content`, and is longer exactly for a heading row with cells |
| Gfm.TableRowReplacement | ChatGPT-Export/export.js:56-73 | the replacement computes `TableRow` for the lookup it is given, throws included |
| Gfm.TableRowFilter | ChatGPT-Export/export.js:55 | the filter: `tr` |
| Gfm.HeadingRowAlignmentLine | ChatGPT-Export/export.js:60-72 | a heading row with cells yields its content line, a line feed and the alignment line, which holds one bar more than there are cells |
| Gfm.ExampleHeaderIsHeading | ChatGPT-Export/export.js:102-105 | the row of a THEAD is a heading row |
| Gfm.ExampleHeaderRow | ChatGPT-Export/export.js:54-74 | the THEAD row `A`, `B` without `align` gets the line `\| --- \| --- \|`, with the source's lookup as with the intended one |
| Gfm.ExampleBodyRow | ChatGPT-Export/export.js:114-125 | a TBODY behind a THEAD with text is not a first TBODY, so its row gets no alignment line |
| Gfm.ExampleInheritedAlignRow | ChatGPT-Export/export.js:62-69 | a heading row with one `<th align="constructor">` gets `\| function Object() { [native code] } \|` with the source's lookup and `\| --- \|` with the intended one |
| Gfm.ExampleTableConverts | ChatGPT-Export/export.js:134-137 | a table whose first row is under a THEAD is converted and not kept |
| Gfm.IsCheckbox | ChatGPT-Export/export.js:144 | `node.type === 'checkbox'`: an INPUT whose `type` attribute is `checkbox` in any letter case |
| Gfm.IsChecked | ChatGPT-Export/export.js:147 | `node.checked`: the element carries the `checked` attribute |
| Gfm.TaskListItemsFilter | ChatGPT-Export/export.js:143-145 | throws exactly for a checkbox at the root; accepts exactly a checkbox whose parent is an LI |
| Gfm.TaskListItem | ChatGPT-Export/export.js:146-148 | `'[x] '` exactly when checked and `'[ ] '` exactly when not; `content` is dropped |
| ExportMd.CodeFilter | ChatGPT-Export/export.js:179-183 | the filter: a CODE element whose class list matches `hljsREG` |
| ExportMd.ClassAttributeText | ChatGPT-Export/export.js:185-186 | `getAttribute('class')` as `test` and `match` read it: the attribute, or the string `"null"` when it is absent |
| ExportMd.CodeReplacementAsWritten | ChatGPT-Export/export.js:184-193 | the replacement as written: throws on a text node and on a class that passes `hljsREG` without a lower-case `language-\w`; returns `undefined` exactly when the class fails `hljsREG` |
| ExportMd.CodeReplacement | ChatGPT-Export/export.js:184-193 | the corrected replacement of the second finding: throws exactly on a text node, and returns `undefined` exactly when the class fails `hljsREG` |
| ExportMd.CodeLanguage | ChatGPT-Export/export.js:187 | the capture of `/.*language-(\w+)/` on the class when there is one, `''` otherwise; made of word characters |
| ExportMd.CodeRuleFencesContent | ChatGPT-Export/export.js:179-191 | every CODE element the filter accepts is fenced by the corrected replacement: the language is the whole first line after the backticks, the content follows verbatim, the closing fence ends it |
| ExportMd.CodeAsWrittenThrowsOnUpperCaseTag | ChatGPT-Export/export.js:184-191 | the replacement as written throws on a filtered element exactly when its class has no lower-case `language-\w`; otherwise it agrees with the corrected one |
| ExportMd.UpperCaseTagPassesHljs | ChatGPT-Export/export.js:172 | the class `hljs LANGUAGE-js` matches the case-insensitive `hljsREG` |
| ExportMd.UpperCaseTagHasNoLowerCaseTag | ChatGPT-Export/export.js:187 | the class `hljs LANGUAGE-js` has no case-sensitive `language-\w` |
| ExportMd.CodeUpperCaseTagExample | ChatGPT-Export/export.js:180-191 | `<code class="hljs LANGUAGE-js">` passes the filter, the replacement as written throws, the corrected one yields a fence without a language |
| ExportMd.IgnoreFilter | ChatGPT-Export/export.js:196 | the filter: `button` or `img` |
| ExportMd.Ignore | ChatGPT-Export/export.js:197 | buttons and images are replaced by `""` |
| ExportMd.FencedTableFilter | ChatGPT-Export/export.js:200 | the filter: `table` |
| ExportMd.FencedTable | ChatGPT-Export/export.js:201-203 | the exporter's table rule puts the content directly after the opening fence and a line feed and fence after it |

## Left out

- The Turndown engine is not part of this model: the tree walk, rule precedence, `keep` serialisation to HTML, whitespace handling and the joining of outputs. Each rule is modelled against its `content` argument. In the exporter its own `table` rule is registered after the plugin's; which of the two applies is engine behaviour.
- The registration functions `highlightedCodeBlock`, `strikethrough`, `tables`, `taskListItems` and `gfm` only hand rules to the engine. Their rules are modelled; the registration is not.
- Turndown's string and array filters compare the lower-cased `nodeName`; `Dom.NameIn` models them that way.
- `init`, the button injection and DOM polling, `exportMarkdown`, `handleImg`, `handlePdf`, `downloadThread`, `Elements`, `getName` and `copyToClipboard` are left out. They are host I/O, timers, randomness, the clipboard, and foreign libraries (`html2canvas`, jsPDF).
- `Dom.Lower` maps only the ASCII letters. The full Unicode `toLowerCase` is not modelled.
- `node.type` is modelled only for INPUT elements, as their `type` attribute in lower case. Other elements' `type` properties are not modelled.
- `node.checked` is the presence of the `checked` attribute. A live state changed after parsing is not modelled.
- The DOM has no comment or other non-element, non-text nodes. Strings are sequences of characters, not of UTF-16 code units.
- Patterns.LanguageCapture: modelled only for class strings without line terminators. The rule calls it only after `hljsREG`, which guarantees that.
- Gfm.JsAlignMarker: the text a function converts to is engine-dependent. The model uses the common form, and the finding depends only on it not being a marker.
- Gfm.BorderLineLayout: the column-by-column layout is stated for the intended lookup. Gfm.SourceBorderLineLayout carries it over to the source's lookup for every row whose cells have no `align` of `constructor` or `__proto__`; for those two keys a cell carries a text longer than a marker (the first finding), and only Gfm.BorderLineColumns (the bar count) and Gfm.ExampleInheritedAlignRow (one concrete row) describe the line.
- Gfm.TableSection, ExportMd.Ignore, the rule filters, Gfm.IsChecked, Dom.IsBlank, Patterns.HljsMatches and ExportMd.ClassAttributeText are plain definitions without a contract of their own; their rows state what they define, and the lemmas that use them carry the proofs.

## Findings

| source | as written | input that shows it | evidently intended | confidence | as-written member | corrected member |
|---|---|---|---|---|---|---|
| ChatGPT-Export/export.js:58-67 | `alignMap[align] \|\| border` also finds properties inherited from `Object.prototype` | a heading-row cell `<th align="constructor">` (or `"__proto__"`) puts a function's or an object's string text into the alignment line | any value other than left, right or center gives `---` | not executed; follows from JavaScript property lookup | Gfm.JsAlignMarker, Gfm.InheritedAlignKeys, Gfm.ExampleInheritedAlignRow | Gfm.AlignMarker, Gfm.BorderLineLayout |
| ChatGPT-Export/export.js:172-188 | the filter's `hljsREG` ignores letter case, but `/.*language-(\w+)/` does not, and `[1]` is read from its result unchecked | `<code class="hljs LANGUAGE-js">` passes the filter; `match` returns null and the replacement throws | fall back to the fence without a language, the branch the rule already has | not executed; follows from the two regular expressions' flags | ExportMd.CodeReplacementAsWritten, ExportMd.CodeUpperCaseTagExample | ExportMd.CodeReplacement |
