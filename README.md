# plumamd: math parsing and editing commands in Dafny

plumamd is a desktop Markdown editor: a CodeMirror editor pane, a markdown-it
preview, and KaTeX for mathematics. This project models two of its source
files and proves properties of the model.

- `src/md-katex.ts` is the markdown-it plugin that adds mathematics. It has
  three parts:
  - `isEscaped`, which tests whether a character is escaped by backslashes;
  - the inline rule `math_inline`, which reads `$…$`;
  - the block rule `math_block`, which reads `$$…$$` on one line, or between
    an opening line that is exactly `$$` and the next such line.

  It also has two renderer rules, which pass a math token's content to KaTeX.
  When KaTeX throws, they fall back to the source text.
- `src/editor.ts` holds the editing commands behind the toolbar and the
  shortcuts:
  - `toggleInline` and its four uses: bold, italic, inline code, inline math;
  - the replacers for code blocks, block math, links, images and horizontal
    rules, all run through `replaceSelection`;
  - `togglePrefixLine` and its four uses: bullet list, ordered list, task
    list, quote;
  - `setHeading`.

Files:

- `wrappers.dfy`: an `Option` type.
- `text.dfy` (module `Text`): the JavaScript string operations the two source
  files use:
  - `trim`, and the whitespace class `\s` of regular expressions (the same set
    of characters);
  - `startsWith`, `endsWith` and `indexOf`;
  - cutting a document into lines at `'\n'`, and joining the lines back;
  - the line that holds a position.
- `md_katex.dfy` (module `MdKatex`):
  - markdown-it's inline state and block state become two small classes,
    `InlineState` and `BlockState`;
  - each rule is a method on its state class;
  - each method is proved against a function that states the rule's decision:
    `InlineMathEnd` for the inline rule, `ScanBlock` for the block rule;
  - KaTeX is a function parameter that returns HTML or throws.
- `editor.dfy` (module `Editor`):
  - the CodeMirror view becomes the class `Editor`, holding the document and
    the main selection;
  - a change `{ from, to, insert }` is the datatype `Change`;
  - the changes of one dispatch are given in the coordinates of the current
    document and applied together (`ApplyChanges`);
  - every command is a method;
  - the loops of `togglePrefixLine` are methods proved against the function
    `PrefixChanges`;
  - lemmas prove that the changes `togglePrefixLine` dispatches edit exactly
    the selected lines, as `ToggledLines` says.
- `inline_math_finding.dfy` (module `InlineMathFinding`): the finding below.

## Model

| member | source | states |
|---|---|---|
| MdKatex.BackslashRun | src/md-katex.ts:4-9 | the run of '\' that ends just before `pos`: all of it is backslashes, it is maximal, it is no longer than `pos`, and it is empty past the end of the text |
| MdKatex.IsEscaped | src/md-katex.ts:4-9 | the backward loop answers true exactly when an odd number of '\' come before `pos` |
| MdKatex.BackslashRunUnique | src/md-katex.ts:4-9 | any maximal run of '\' that ends at `pos` has the length the loop counts |
| MdKatex.FirstUnescapedDollar | src/md-katex.ts:22-28 | the result is an unescaped '$' at or after `from`, and no unescaped '$' comes between `from` and it (none at all when there is no result) |
| MdKatex.FirstUnescapedDollarSkip | src/md-katex.ts:24-26 | stepping past a stretch that holds no unescaped '$' (an escaped '$' found by `indexOf`) does not change which '$' closes |
| MdKatex.FindClosingDollar | src/md-katex.ts:22-28 | the `indexOf`/`isEscaped` loop returns -1 exactly when no unescaped '$' follows `start`, and otherwise the first one |
| MdKatex.InlineMathEndSpec | src/md-katex.ts:16-28 | the inline rule matches from `pos` to `end` if and only if `pos` holds an unescaped '$' not followed by '$', `end` holds an unescaped '$', and none lies between them |
| MdKatex.InlineMathFails | src/md-katex.ts:16-28 | the inline rule fails if and only if `pos` cannot open, or no unescaped '$' follows it |
| MdKatex.InlineMathContent | src/md-katex.ts:22-29 | a match's content is not empty, the closing '$' lies inside the text, and every '$' inside the content is escaped |
| MdKatex.InlineState.MathInline | src/md-katex.ts:13-37 | the rule matches exactly when `InlineMathEnd` finds a closing '$'. On a match, `pos` moves just past that '$', in silent mode too. Unless silent, one `math_inline` token is pushed, holding the text between the dollars. On failure nothing changes |
| MdKatex.ClosingLine | src/md-katex.ts:71-80 | a closing line that is found lies at or after `from`, lies before `lineMax`, and trims to "$$" |
| MdKatex.ClosingLineIs | src/md-katex.ts:71-80 | the first line from `from` on that trims to "$$" is the one found |
| MdKatex.ClosingLineNone | src/md-katex.ts:71-87 | when no line before `lineMax` trims to "$$", none is found |
| MdKatex.ClosingLineFirst | src/md-katex.ts:71-80 | no line before the closing line trims to "$$" (and no line before `lineMax`, when there is no closing line) |
| MdKatex.BlockMatchBounds | src/md-katex.ts:46-94 | a block match starts on a line whose text begins with "$$", consumes at least that line, and goes no further than `lineMax` |
| MdKatex.BlockSingleLine | src/md-katex.ts:49-61 | when the rest of the opening line holds a second "$$", the match is one line long. Its content is the trimmed text before the first such "$$", and that text holds no "$$" |
| MdKatex.OpeningLineIsBare | src/md-katex.ts:50-65 | a line that starts with "$$" and trims to "$$" holds no second "$$", so it takes the multi-line path |
| MdKatex.BlockMultiLine | src/md-katex.ts:63-95 | an opening line that trims to "$$", closed by line `c`, matches. The content is the lines in between, joined by "\n" and trimmed, and parsing resumes at `c + 1` |
| MdKatex.BlockUnclosedFails | src/md-katex.ts:71-87 | an opening "$$" line with no closing line before `lineMax` is not math: the rule fails |
| MdKatex.AccumulateStep | src/md-katex.ts:82-83 | one more pass of the loop extends the accumulated content by that line |
| MdKatex.AccumulateLinesSpec | src/md-katex.ts:71-85 | what the loop has accumulated after lines `lo` .. `hi - 1` is `Accumulate` of those lines |
| MdKatex.JoinIsNewlinesThenAccumulate | src/md-katex.ts:82-83 | since the loop adds no separator while the content is empty, the "\n"-join of the lines is a run of "\n" followed by the accumulated content |
| MdKatex.TrimAccumulate | src/md-katex.ts:82-93 | trimmed, the accumulated content equals the trimmed "\n"-join of the lines |
| MdKatex.TrimAccumulateLines | src/md-katex.ts:82-93 | the same, for the lines of a block |
| MdKatex.CollectBlockLines | src/md-katex.ts:67-87 | the loop returns -1 exactly when there is no closing line. Otherwise it returns the first closing line, with the lines before it accumulated |
| MdKatex.MatchBlock | src/md-katex.ts:41-94 | the rule's step-by-step decision equals `ScanBlock` |
| MdKatex.BlockState.MathBlock | src/md-katex.ts:40-96 | the rule matches exactly when `ScanBlock` does. Unless silent, it pushes one `math_block` token with the scanned content and sets `line` past the block. In silent mode, and on failure, nothing changes |
| MdKatex.RenderMathInline | src/md-katex.ts:98-104 | KaTeX's HTML (with `throwOnError: false`), or the raw content when KaTeX throws |
| MdKatex.RenderMathBlock | src/md-katex.ts:105-117 | KaTeX's display-mode HTML in a `katex-display` div, or the content between "$$" lines in a `katex-error` pre when KaTeX throws. The output always ends in "\n", and its opening tag tells which case happened |
| MdKatex.BlockErrorShowsSource | src/md-katex.ts:113-116 | cutting the fixed wrapper off the error output gives back the token's content |
| MdKatex.InlineFallbackIsSourceText | src/md-katex.ts:98-104 | inline math that KaTeX rejects renders as exactly the text between its dollars |
| Text.TrimSpec | src/md-katex.ts:54 | `trim` keeps an infix that starts and ends with non-whitespace, cuts only whitespace on either side, and gives "" exactly when the text is all whitespace |
| Text.TrimOfPadded | src/md-katex.ts:75 | the converse: whitespace padding around a text that neither starts nor ends with whitespace is exactly what `trim` removes |
| Text.TrimSkipsLeadingWhitespace | src/md-katex.ts:93 | leading whitespace does not change what `trim` returns |
| Text.IndexOf | src/md-katex.ts:51 | `indexOf` returns -1 or an occurrence at or after `from`, and there is no earlier occurrence |
| Text.SplitSpec | src/editor.ts:126 | the lines of a document hold no '\n', and joining them with '\n' gives the document back |
| Text.SplitJoin | src/editor.ts:139 | joining lines that hold no '\n' and cutting the result again gives the same lines |
| Text.SplitLength | src/editor.ts:121-122 | a document has one line more than it has '\n' |
| Text.LineAt | src/editor.ts:121 | `lineAt(pos)` names a line of the document |
| Text.LineAtMonotone | src/editor.ts:121-122 | the line of the selection's start comes no later than the line of its end |
| Editor.LineAtContains | src/editor.ts:121 | the line `lineAt(pos)` names starts at or before `pos` and ends at or after it |
| Editor.LineStartBefore | src/editor.ts:130-133 | `line.from` is the length of the text in front of the line |
| Editor.ApplyChange | src/editor.ts:95 | a change shortens the document by the replaced span and lengthens it by the insert |
| Editor.ApplyChangeFrame | src/editor.ts:95 | a change keeps the text before `from` and the text after `to`, with the insert between them |
| Editor.ApplyChangesLast | src/editor.ts:139 | dispatching changes in order together with one change after them is applying that last change first and then the others |
| Editor.ChangeAtLineStart | src/editor.ts:133-136 | a change at `line.from` that removes `n` characters of the line and inserts `x` replaces that line by `x` plus the rest of it, and changes no other line |
| Editor.EveryLineHas | src/editor.ts:124-128 | the first loop answers whether every line from `fromLine` to `toLine` starts with the prefix |
| Editor.CollectPrefixChanges | src/editor.ts:129-138 | the second loop pushes `PrefixChanges`: one change per line when adding, and one per line that has the prefix when removing |
| Editor.LineChangeBounds | src/editor.ts:131-137 | each line gets at most one change, which starts at `line.from` and ends inside the line |
| Editor.PrefixChangesOrdered | src/editor.ts:129-138 | the pushed changes are in increasing order, do not overlap, and end inside the last selected line |
| Editor.LineChangeApplies | src/editor.ts:131-137 | the change pushed for a line turns that line into its toggled form. When no change is pushed, the line is already in that form |
| Editor.PrefixChangesApply | src/editor.ts:129-139 | the pushed changes, dispatched together, edit exactly the selected lines, each as `ToggledLine` says |
| Editor.TogglePrefixChanges | src/editor.ts:124-139 | the changes the two loops compute, dispatched together, turn the document into the join of `ToggledLines` |
| Editor.ToggledLinesSpec | src/editor.ts:124-138 | the number of lines is kept and the lines outside the selection are untouched. When every selected line had the prefix, one copy of it is removed from each; otherwise one is added to each, including to the lines that already had it |
| Editor.ToggledLinesTwice | src/editor.ts:124-138 | when some selected line lacked the prefix, toggling twice restores the lines |
| Editor.ToggledLinesBack | src/editor.ts:124-138 | when all had it, toggling twice restores the lines, provided one removal leaves some line without it |
| Editor.ToggledDocumentLines | src/editor.ts:136 | with a prefix free of '\n', the new document has exactly the toggled lines |
| Editor.ToggleInlineUnwraps | src/editor.ts:108-110 | a selection that starts with the left marker, ends with the right one and is long enough for both loses both markers, and everything that remains is selected |
| Editor.ToggleInlineWraps | src/editor.ts:112-114 | any other selection is wrapped in the markers, and exactly the original text stays selected |
| Editor.ToggleInlineRoundTrip | src/editor.ts:107-114 | toggling the whole wrapped text unwraps it back to the original |
| Editor.ToggleInlineUnwrapRoundTrip | src/editor.ts:107-114 | wrapping the unwrapped text restores the wrapped one, unless what was inside is itself wrapped |
| Editor.ToggleInlineWrapsAgain | src/editor.ts:112-114 | after wrapping, the selection is the text without its markers, so toggling again wraps it a second time |
| Editor.CodeBlockSelectsBody | src/editor.ts:148-154 | the selection, or "codigo" when it is empty, is fenced with "```" lines and selected |
| Editor.BlockMathSelectsBody | src/editor.ts:221-227 | the selection, or "E = mc^2" when it is empty, is put between "$$" lines and selected |
| Editor.LinkSelectsBody | src/editor.ts:178-182 | the selection, or "enlace" when it is empty, becomes the link text of `[text](url)` and is selected |
| Editor.SpliceSelects | src/editor.ts:95-98 | offsets inside the inserted text select the same text once it is placed in the document |
| Editor.Hashes | src/editor.ts:158 | `'#'.repeat(level)` is `level` characters, all '#' |
| Editor.HeadingMarkerSpec | src/editor.ts:162-164 | the marker found is a match of `^(#{1,6}\s+)` (1 to 6 '#', then whitespace) that no further whitespace follows, which makes it the greedy match. A line where none is found has no match at all |
| Editor.HeadingLineMarker | src/editor.ts:158-165 | a written heading whose text does not start with whitespace has exactly the new marker, followed by that text |
| Editor.HeadingLineLastWins | src/editor.ts:158-165 | on a line that has a marker, or does not start with whitespace, setting a heading twice leaves the second level, and the heading text is kept |
| Editor.HeadingLineKeepsText | src/editor.ts:158-165 | every line `setHeading` writes can be set again with the last level winning |
| Editor.HeadingLineNotIdempotent | src/editor.ts:162-165 | on "  x", level 1 gives "#   x", and level 1 again gives "# x" |
| Editor.HeadingDocumentLines | src/editor.ts:165 | the document after `setHeading` has the same lines, except that line `k` is replaced by its heading form |
| Editor.Editor.constructor | src/editor.ts:13-15 | the editor starts with "# Nuevo documento\n\nEscribe Markdown aquí." and the cursor at 0 |
| Editor.Editor.Dispatch | src/editor.ts:139 | the document becomes the result of the changes, applied together |
| Editor.Editor.ReplaceSelection | src/editor.ts:89-103 | the replacer's text replaces the selection. The new anchor and head are the replacer's offsets from the old selection start, or the end of the inserted text when it gives none. When the offsets are in order, the new selected text is the part of the insert they delimit |
| Editor.Editor.ToggleInline | src/editor.ts:105-116 | the document is changed as `ToggleInlineReplacer` says, and the text inside the markers ends up selected. When unwrapping, the new selection runs forward from the old start over the inner text. When wrapping, it starts the left marker's length past the old start and spans the original text |
| Editor.Editor.FormatBold | src/editor.ts:143 | `toggleInline` with "**": the text is wrapped or unwrapped, and the text between the markers is selected, starting at the old start (unwrap) or 2 past it (wrap) |
| Editor.Editor.FormatItalic | src/editor.ts:144 | `toggleInline` with "*": the text is wrapped or unwrapped, and the text between the markers is selected, starting at the old start (unwrap) or 1 past it (wrap) |
| Editor.Editor.FormatCodeInline | src/editor.ts:145 | `toggleInline` with a backtick: the text is wrapped or unwrapped, and the text between the markers is selected, starting at the old start (unwrap) or 1 past it (wrap) |
| Editor.Editor.FormatInlineMath | src/editor.ts:146 | `toggleInline` with `\(` and `\)`, as written: the text is wrapped or unwrapped, and the text between the markers is selected, starting at the old start (unwrap) or 2 past it (wrap) |
| Editor.Editor.FormatInlineMathDollar | src/editor.ts:146 | `toggleInline` with "$", the delimiter the inline math rule reads: the text is wrapped or unwrapped, and the text between the markers is selected, starting at the old start (unwrap) or 1 past it (wrap) |
| Editor.Editor.InsertCodeBlock | src/editor.ts:148-154 | the selection is fenced, and the fenced text (or "codigo") is selected, from 4 past the old start over its length |
| Editor.Editor.InsertBlockMath | src/editor.ts:221-227 | the selection goes between "$$" lines, and that text (or "E = mc^2") is selected, from 3 past the old start over its length |
| Editor.Editor.InsertLink | src/editor.ts:174-183 | nothing happens when the URL is empty. Otherwise the selection becomes the link text (or "enlace" is inserted), and that text is selected, from 1 past the old start over its length |
| Editor.Editor.InsertImage | src/editor.ts:185-196 | nothing happens when the source is empty. Otherwise `![alt](src)` replaces the selection, with the cursor after it |
| Editor.Editor.InsertHr | src/editor.ts:216-219 | "\n\n---\n\n" replaces the selection, with the cursor after it |
| Editor.Editor.TogglePrefixLine | src/editor.ts:118-141 | the document becomes the join of `ToggledLines` over the lines from that of the selection's start to that of its end, and when the prefix holds no '\n', those are exactly its lines |
| Editor.Editor.ToggleBulletList | src/editor.ts:169 | the selected lines are toggled with "- " |
| Editor.Editor.ToggleOrderedList | src/editor.ts:170 | the selected lines are toggled with "1. " |
| Editor.Editor.ToggleTaskList | src/editor.ts:171 | the selected lines are toggled with "- [ ] " |
| Editor.Editor.ToggleQuote | src/editor.ts:172 | the selected lines are toggled with "> " |
| Editor.Editor.SetHeading | src/editor.ts:156-167 | on the line of the selection's start, the heading marker (or nothing) is replaced by `level` '#' and a space. That line becomes `HeadingLine`, and every other line is kept |
| InlineMathFinding.ParenWrapIsNotMath | src/editor.ts:146 | text that `formatInlineMath` wraps in `\(` and `\)` holds no position where the inline math rule matches, when no '$' is around |
| InlineMathFinding.DollarWrapIsMath | src/md-katex.ts:13-37 | a selection wrapped in "$" is matched by the inline rule from its opening '$' to its closing '$', and the math content is exactly the selection |

## Left out

- The other source files are not part of this model: the preview and its HTML sanitising, export, document conversion, and the desktop shell.
- The `if (!view) return` guards: the model's editor always exists.
- `focus`, `undo`/`redo`, the search panel, the key bindings, the update listener and the CodeMirror extensions set up in `setupEditor`.
- `getEditorContent`: it returns the `doc` field, so it has no member of its own.
- Editor.Editor.Dispatch: CodeMirror maps the selection through the changes; the model only keeps the selection inside the document and does not say where it goes.
- Editor.Editor.ReplaceSelection: `changeByRange` runs the replacer for every selection range; the model has one range, the main selection.
- Editor.Editor.ReplaceSelection: requires the replacer's offsets to fall inside its text. CodeMirror throws for a selection outside the document, and every replacer in the source meets this.
- `window.prompt` answers become parameters: the URL of `InsertLink`, and the source and alternative text of `InsertImage` (a cancelled prompt is the empty string).
- `insertImage`'s desktop path is left out because it is file I/O. That path covers the file dialog, reading the file, base64 encoding, choosing the MIME type from the file extension, and falling back to the prompt on an exception.
- markdown-it's rule chain is not modelled, and the rules are modelled on their own. That covers:
  - the parser loop that calls the rules;
  - the rules' places after `escape` and `fence`;
  - the block rule's `alt` list.
- The block rule's unused `_maxLine` parameter is left out. `bMarks + tShift` and `eMarks` are given as per-line start and end positions.
- KaTeX is a function parameter that returns HTML or throws. `console.warn` is output and is not modelled.
- JavaScript strings are UTF-16 code units; the model's strings are sequences of characters.
- Line breaks: CodeMirror normalises them to "\n", and the model splits documents at '\n' only.
- The inline-math command writes `\(…\)` (src/editor.ts:146), but the math plugin registers only the `$` inline rule and the `$$` block rule (src/md-katex.ts:13-96). The model follows the plugin as written: no rule reads `\(…\)`.
- MdKatex.MatchBlock: in silent mode the source returns before trimming the content. The model trims in both modes, which changes no state.

## Findings

| source | as written | input that shows it | evidently intended | confidence | as-written member | corrected member |
|---|---|---|---|---|---|---|
| src/editor.ts:146 | `formatInlineMath` wraps the selection in `\(` and `\)`, but the math plugin (src/md-katex.ts:13-96) reads only `$` and `$$` delimiters, so the wrapped text is never rendered as math | select `x` in a document without '$' and apply inline math: the text becomes `\(x\)`, and the inline rule matches nowhere in it | wrap the selection in the delimiter the inline rule reads, `$`, so that `x` becomes the inline formula `$x$` | not executed; medium (adding a `\(…\)` rule to the plugin would be an equally plausible fix) | InlineMathFinding.ParenWrapIsNotMath | InlineMathFinding.DollarWrapIsMath |
