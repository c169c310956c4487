# Comark: auto-closing and tree walking, modelled in Dafny

Comark parses Markdown with MDC block components while the text is still
streaming in. Two parts of it are modelled and verified here.

- **The auto-closers.** They repair a partial buffer so that it can be parsed.
  - `autoCloseMarkdown` closes the inline markup left open on the last line: bold-italic `***`, bold `**`, strikethrough `~~`, inline code and italic `*`. When the text holds `::`, it then closes an unfinished `{...}` props block on the last line and every MDC component still open (`::name` … `::`).
  - `detectUnclosedSyntax` reports what the closer would do, without changing the text.
  - `closeTables` completes the last Markdown table of the buffer. It adds the missing trailing pipe to the header, completes a half-typed separator row or pads a half-typed data row to the widths of a reference row, and inserts a separator row when the table has none.
- **The AST utilities.**
  - The positional node type: text `s`, element `[tag, attrs, ...children]`, comment `[null, {}, s]`.
  - `textContent`, the concatenated text of a node.
  - `visit`, which walks a tree in preorder. It hands every node accepted by a `checker` to a `visitor`, which may keep the node, replace it (the replacement's children are then walked, the replacement itself is not checked) or remove it from its parent.

Files and modules:

| file | module | what it holds |
|---|---|---|
| `wrappers.dfy` | `Wrappers` | `Option` |
| `strings.dfy` | `Strings` | the JavaScript string built-ins the code uses: `trim`, `trimEnd`, `trimStart` (white space as `\s`), `split`, `join`, character and substring counts, `includes`, `startsWith` |
| `inline_close.dfy` | `InlineClose` | `autoCloseInlineSyntax` |
| `component_close.dfy` | `ComponentClose` | `autoCloseMDCComponents` and its stack scan |
| `auto_close.dfy` | `AutoClose` | `autoCloseMarkdown`, `detectUnclosedSyntax` |
| `table_cells.dfy` | `TableCells` | `parseCells`, `parseCellWidths` |
| `table_close.dfy` | `TableClose` | `closeTables` |
| `ast_types.dfy` | `AstTypes` | the node and tree types |
| `ast_utils.dfy` | `AstUtils` | `textContent`, `visit` |

Each procedure of the source that works step by step is a `method` with the same loops and branches. That method is proved equal to a specification function. The properties the code promises are then proved about that function as lemmas.

- **Regular expressions.** They are written as explicit predicates. Where a probe's reading is not obvious, a ghost predicate restates the regular expression and a lemma proves the two agree (`ProbeIsOpenMarker`, `ItalicProbeIsOpenItalic`, `TailProbe`, `OpenBraceIsLeftmost`).
- **Tree walking.** The `visit` walk is a value model. `Walk` and `WalkSiblings` return the rewritten node or sibling list, plus the trace of the nodes handed to the visitor, in order.
- **String lengths.** JavaScript's `.length` counts UTF-16 code units, and a character outside the Basic Multilingual Plane takes two. The table closer's widths, dash padding and space padding use `Strings.Utf16Length`, not `|s|`. Its loops index code units, but no half of a surrogate pair is `|` or `\`, so the cells they cut are the cells of the character sequence.
- **Termination.** A visitor that replaces nodes can make `visit` run forever (see `WrappingTextNeverFinishes`). The specification functions `WalkNode` and `WalkList` therefore take a fuel bound and return `None` when it runs out. The methods require that some fuel suffices, which holds exactly for the inputs on which the walk returns with an unbounded stack.

## Model

| member | source | states |
|---|---|---|
| AutoClose.AutoCloseMarkdown | src/utils/auto-close.ts:32-52 | the result is `CloseMarkdown`: blank text is returned as is; otherwise the inline closer runs on the last line, then the component closer runs (on the re-split lines) when the result holds `::` |
| AutoClose.LinesArray | src/utils/auto-close.ts:38-48 | the lines handed to the component closer are a fresh array holding exactly the split lines |
| AutoClose.BlankUnchanged | src/utils/auto-close.ts:33-35 | text that is empty or all white space comes back unchanged |
| AutoClose.ClosedExtendsInput | src/utils/auto-close.ts:32-52 | the closer only appends: the result starts with the input, or with the input minus its trailing white space when the inline closer trims |
| AutoClose.TrimOnlyLastLine | src/utils/auto-close.ts:155-157 | trimming the whole buffer removes only white space at the end of its last line |
| AutoClose.TrimmingCloser | src/utils/auto-close.ts:119-121 | a closer trims only when the last line has trailing white space, and never for inline code |
| AutoClose.AllComponentsClosed | src/utils/auto-close.ts:246-258 | after closing, the stack scan of the result's lines finds no open component |
| AutoClose.NestedFencesClosed | src/utils/auto-close.ts:28-29 | `:::a` then `::b` is closed with `\n::\n:::`, innermost first (the documented example) |
| AutoClose.InlineClosingChanges | src/utils/auto-close.ts:42 | when the last line gets an inline closer, the text changes |
| AutoClose.CloseComponentsChanges | src/utils/auto-close.ts:195-258 | the component closer changes the text exactly when there is a props closing or an open component |
| AutoClose.ComponentStepChanges | src/utils/auto-close.ts:45-49 | the component step changes the text exactly when it holds `::` and has a props closing or an open component |
| AutoClose.ClosesExactlyWhen | src/utils/auto-close.ts:32-52 | `autoCloseMarkdown` changes the text if and only if the text is not blank and either its last line gets an inline closer, or it holds `::` and a props closing or an open component remains |
| AutoClose.PlainLineCloses | src/utils/auto-close.ts:42-51 | a one-line text without `:` whose closer keeps white space just gets the closer appended |
| AutoClose.TrailingStarClosed | src/utils/auto-close.ts:32-52 | `a *` is closed to `a **` |
| AutoClose.TrailingStarsClosed | src/utils/auto-close.ts:32-52 | `a **` is closed to `a ****` |
| AutoClose.ClosingTwiceDiffers | src/utils/auto-close.ts:32-52 | the closer is not idempotent: closing `a *` a second time changes it again |
| AutoClose.TailProbe | src/utils/auto-close.ts:296-303 | the report's tail probe holds exactly when its regular expression matches somewhere in the line |
| AutoClose.BoldTailIsItalicTail | src/utils/auto-close.ts:296-299 | wherever the bold tail probe matches, the italic one matches too |
| AutoClose.InlineLabelsMatch | src/utils/auto-close.ts:296-303 | each inline label is reported exactly when its expression matches, except that italic gives way to bold; the two are never reported together |
| AutoClose.InlineLabelsOf | src/utils/auto-close.ts:292-303 | the labels pushed one by one are `InlineLabels` of the last line |
| AutoClose.ClosesSomething | src/utils/auto-close.ts:280-283 | `hasUnclosed` holds exactly when the closer changes the text |
| AutoClose.DetectUnclosedSyntax | src/utils/auto-close.ts:275-339 | `hasUnclosed` holds exactly when the closer changes the text; if it does not, both lists are empty; if it does, the inline labels are those of the last line and the components are the stack left by scanning the original lines |
| InlineClose.AutoCloseInlineSyntax | src/utils/auto-close.ts:58-160 | the marker loop computes `CloseInline`: the first marker that fires decides the suffix and whether the buffer is trimmed first |
| InlineClose.AsteriskDecision | src/utils/auto-close.ts:85-134 | the asterisk branch returns the decision of `AsteriskFix`: nothing on remainder 0, the open-marker checks on one lone marker, the missing asterisks on a partial closing at the end of the line |
| InlineClose.OpenMarkerDecision | src/utils/auto-close.ts:102-124 | one lone marker is skipped when the line opens with a longer asterisk run, or holds a complete pair and does not end in `*`; otherwise the marker is the closer |
| InlineClose.RemainderIsModulo | src/utils/auto-close.ts:94 | the remainder is the asterisk count modulo twice the marker length |
| InlineClose.ProbeIsOpenMarker | src/utils/auto-close.ts:64-67 | for `***`, `**`, `~~` and inline code, the probe holds exactly when the marker occurs and has a last occurrence with no repeat after it, and exactly when the line contains the marker |
| InlineClose.ItalicProbeIsOpenItalic | src/utils/auto-close.ts:68 | the italic probe holds exactly when some `*` is not followed by white space and has no `*` after it |
| InlineClose.FixShape | src/utils/auto-close.ts:79-152 | a closer is one of `***`, `**`, `~~`, a backtick or `*`; it trims exactly when the line has trailing white space and the closer is not a backtick |
| InlineClose.FirstFiringWins | src/utils/auto-close.ts:79-152 | no closer exactly when no marker fires; otherwise the closer is that of the first marker that fires, in the order `***`, `**`, `~~`, backtick, `*` |
| InlineClose.AsteriskFixSuffix | src/utils/auto-close.ts:101-133 | an asterisk closer is either the marker itself (remainder equal to its length and no longer leading run) or the asterisks missing from a partial closing (line ends in `*`) |
| InlineClose.AsteriskFixBalances | src/utils/auto-close.ts:92-133 | after an asterisk closer is appended, the asterisk count is a multiple of twice the marker length |
| InlineClose.TildeFixBalances | src/utils/auto-close.ts:138-148 | after `~~` is appended, the line holds an even number of `~~` |
| InlineClose.CodeFixBalances | src/utils/auto-close.ts:138-148 | inline code is closed by appending a backtick without trimming, leaving an even number of backticks |
| InlineClose.OpenItalicCloses | src/utils/auto-close.ts:64-123 | `*text` (no markers in the text) is closed with `*` |
| InlineClose.OpenBoldCloses | src/utils/auto-close.ts:64-123 | `**text` is closed with `**` |
| InlineClose.OpenBoldItalicCloses | src/utils/auto-close.ts:64-123 | `***text` is closed with `***` |
| InlineClose.LeadingRunBlocksItalic | src/utils/auto-close.ts:103-108 | a line opening with `**` never gets the italic closer |
| InlineClose.NoMarkerCharacters | src/utils/auto-close.ts:79-152 | a line without `*`, `~` or a backtick gets no closer |
| InlineClose.ClosedBoldThenOpenItalic | src/utils/auto-close.ts:103-117 | `**a**c*b` (no marker characters in `a`, `c`, `b`) gets no closer at all |
| InlineClose.FirstFixVisible | src/utils/auto-close.ts:79-152 | only a line with a visible character gets a closer |
| InlineClose.TrimmedLastLine | src/utils/auto-close.ts:75-76 | the conditionally trimmed line equals the trimmed line |
| InlineClose.TrailingStarCloses | src/utils/auto-close.ts:64-123 | the line `a *` gets the closer `*` without trimming |
| InlineClose.TrailingStarsClose | src/utils/auto-close.ts:64-123 | the line `a **` gets the closer `**` without trimming |
| ComponentClose.LeadingColons | src/utils/auto-close.ts:208 | the count is the longest run of colons that opens the text |
| ComponentClose.NameLength | src/utils/auto-close.ts:208 | the length is that of the longest prefix of name characters `[$\w.-]` |
| ComponentClose.OpenMatchShape | src/utils/auto-close.ts:208-211 | an opener match records the full leading colon run and a name that starts with a letter or `$` and follows the colons; no match means no colons, only colons, or no name start after them |
| ComponentClose.OpenerIsNeverClosing | src/utils/auto-close.ts:214-224 | a line that matches the opener is never its own colon run |
| ComponentClose.ScanWellFramed | src/utils/auto-close.ts:200-244 | every stack entry records at least two colons and a non-empty name |
| ComponentClose.CloserPopsTop | src/utils/auto-close.ts:232-243 | a colon run of the top entry's depth pops exactly that entry |
| ComponentClose.ClosersCloseAll | src/utils/auto-close.ts:246-256 | scanning the generated closers after the open stack leaves nothing open |
| ComponentClose.ScanWithoutPair | src/utils/auto-close.ts:200-244 | lines without `::` leave nothing open |
| ComponentClose.NestedClosers | src/utils/auto-close.ts:200-258 | two nested openers are closed innermost first |
| ComponentClose.OpenBraceIsLeftmost | src/utils/auto-close.ts:174 | the props position is the leftmost match of `/\{[^}]*$/` and is absent exactly when the expression matches nowhere |
| ComponentClose.QuoteClosingQuotes | src/utils/auto-close.ts:179-193 | the props closing ends with `}` and adds one `"` or `'` exactly when that quote's count is odd |
| ComponentClose.QuoteClosingBalances | src/utils/auto-close.ts:179-193 | after the closing, both quote counts are even |
| ComponentClose.PropsRepaired | src/utils/auto-close.ts:172-197 | after the closing, the last line has no open brace and balanced quotes in its props |
| ComponentClose.ClosedLines | src/utils/auto-close.ts:195-258 | the closed text splits into the updated lines followed by one closer per open component |
| ComponentClose.ComponentsClosed | src/utils/auto-close.ts:167-259 | the closed text has no open component |
| ComponentClose.ScanLineStep | src/utils/auto-close.ts:204-243 | one pass of the loop body: the opener check, then the closer check, on the trimmed line |
| ComponentClose.ScanComponents | src/utils/auto-close.ts:306-332 | the stack left by the loop is `Unclosed` of the lines |
| ComponentClose.QuoteClosingOf | src/utils/auto-close.ts:179-193 | computes `QuoteClosing` of the props text |
| ComponentClose.PropsClosingOf | src/utils/auto-close.ts:174-194 | computes `PropsClosing` of a non-empty last line |
| ComponentClose.CloseProps | src/utils/auto-close.ts:170-198 | appends the props closing to the last line of the array and changes nothing else |
| ComponentClose.DrainClosers | src/utils/auto-close.ts:248-256 | popping the stack yields one colon run per entry, innermost first |
| ComponentClose.AutoCloseMDCComponents | src/utils/auto-close.ts:167-259 | the result is `CloseComponents` of the lines; the array is left with only its last line extended by the props closing |
| TableCells.LastDelimiter | packages/comark/src/internal/parse/auto-close/table.ts:36-63 | the last unescaped `\|` before a position, or -1 |
| TableCells.EscapedPipeIsText | packages/comark/src/internal/parse/auto-close/table.ts:43-45 | a pipe after a backslash is cell text, not a boundary |
| TableCells.PiecesEscapedOnly | packages/comark/src/internal/parse/auto-close/table.ts:36-63 | every cell holds only escaped pipes |
| TableCells.PiecesJoin | packages/comark/src/internal/parse/auto-close/table.ts:36-63 | the raw cells joined with `\|` give back the row after its first boundary |
| TableCells.WidthsPositive | packages/comark/src/internal/parse/auto-close/table.ts:4-31 | every width is at least 1 |
| TableCells.NoBoundaryNoCells | packages/comark/src/internal/parse/auto-close/table.ts:4-63 | a row without an unescaped pipe has no cells and no widths |
| TableCells.ParseCells | packages/comark/src/internal/parse/auto-close/table.ts:36-63 | the loop yields `Cells`: the trimmed text between boundaries, plus the trimmed text after the last one when non-empty |
| TableCells.ParseCellWidths | packages/comark/src/internal/parse/auto-close/table.ts:4-31 | the loop yields `CellWidths`: the untrimmed length, in UTF-16 code units, of each non-empty cell |
| TableCells.AstralCellWidth | packages/comark/src/internal/parse/auto-close/table.ts:15 | `\| 😀 \|` has width 4: the cell's space, emoji and space take four code units |
| TableClose.TableRowTrim | packages/comark/src/internal/parse/auto-close/table.ts:76 | a table row is a line whose trimmed text starts with `\|` |
| TableClose.StartsWithPipe | packages/comark/src/internal/parse/auto-close/table.ts:76 | computes `IsTableRow` |
| TableClose.BlockStart | packages/comark/src/internal/parse/auto-close/table.ts:75-87 | the start of the maximal run of table rows that ends at a given row |
| TableClose.LastOfBlocks | packages/comark/src/internal/parse/auto-close/table.ts:85-91 | the grouping is empty exactly when there is no table row, and its last block is `LastBlock` |
| TableClose.TableBlocks | packages/comark/src/internal/parse/auto-close/table.ts:72-87 | the grouping loop yields ordered, maximal runs of table rows that cover every table row |
| TableClose.CompletedCellShape | packages/comark/src/internal/parse/auto-close/table.ts:118-146 | an aligned cell keeps its alignment colons and is at least 2 characters long (3 when centred); a cell has a colon first or last only if it was aligned that way; an unaligned cell keeps its text and is extended with dashes to at least three UTF-16 code units |
| TableClose.AlignedCellNeedsNoDash | packages/comark/src/internal/parse/auto-close/table.ts:125-139 | `:::` and `:x` are completed to themselves: the length check gives an aligned cell at least one character between its colons, not a dash |
| TableClose.CompletedCellIdempotent | packages/comark/src/internal/parse/auto-close/table.ts:118-146 | completing a completed cell changes nothing |
| TableClose.PadWithDashes | packages/comark/src/internal/parse/auto-close/table.ts:143 | the loop yields `PadDashes`: dashes appended until the text is 3 UTF-16 code units long |
| TableClose.CompleteCell | packages/comark/src/internal/parse/auto-close/table.ts:118-146 | computes `CompletedCell` |
| TableClose.FillColumns | packages/comark/src/internal/parse/auto-close/table.ts:149-151 | the loop yields `FilledTo`: the cells followed by `---` up to the column count |
| TableClose.CompleteSeparatorCells | packages/comark/src/internal/parse/auto-close/table.ts:115-151 | computes `CompletedCells` |
| TableClose.CompletedRowShape | packages/comark/src/internal/parse/auto-close/table.ts:118-151 | the completed separator has at least the column count of cells, each the completed cell, then `---` |
| TableClose.ReferenceLineTrim | packages/comark/src/internal/parse/auto-close/table.ts:159-160 | a reference line is one whose trimmed text starts and ends with `\|` and holds no `-` |
| TableClose.ReferenceRowIsFirst | packages/comark/src/internal/parse/auto-close/table.ts:157-164 | the reference row is the first candidate after the header (and separator), or the header when there is none |
| TableClose.TrimmedCandidate | packages/comark/src/internal/parse/auto-close/table.ts:159-160 | computes the trimmed row and whether it is a reference candidate |
| TableClose.FindReferenceRow | packages/comark/src/internal/parse/auto-close/table.ts:157-164 | the search loop yields `ReferenceRow` |
| TableClose.PaddedCellShape | packages/comark/src/internal/parse/auto-close/table.ts:170-174 | a padded cell is the cell followed by spaces, up to the target width minus 2, widths counted in UTF-16 code units |
| TableClose.PaddedRowShape | packages/comark/src/internal/parse/auto-close/table.ts:170-174 | every cell of the padded row is padded so |
| TableClose.PadCells | packages/comark/src/internal/parse/auto-close/table.ts:170-174 | computes `PaddedCells` |
| TableClose.InsertAt | packages/comark/src/internal/parse/auto-close/table.ts:178-180 | inserting keeps the rows before, places the new row, and shifts the rows after by one |
| TableClose.ClosedBlockKeepsOthers | packages/comark/src/internal/parse/auto-close/table.ts:92-180 | closing a table changes only its header and last row, plus an inserted separator when it had none |
| TableClose.ClosedBlockRows | packages/comark/src/internal/parse/auto-close/table.ts:92-180 | the header gets its trailing pipe, the last row is completed, and a missing separator is inserted after the header |
| TableClose.HeaderEndsWithPipe | packages/comark/src/internal/parse/auto-close/table.ts:92-97 | the closed header ends with `\|` |
| TableClose.LastRowFramed | packages/comark/src/internal/parse/auto-close/table.ts:113-175 | the last row is left alone or ends with `\|` |
| TableClose.NoTableUnchanged | packages/comark/src/internal/parse/auto-close/table.ts:88 | text without a table row is returned unchanged |
| TableClose.TableClosedAtLastBlock | packages/comark/src/internal/parse/auto-close/table.ts:88-182 | with any table row, the result is the last maximal block closed and the lines joined again |
| TableClose.CompleteSeparatorRow | packages/comark/src/internal/parse/auto-close/table.ts:113-154 | the separator branch computes `ClosedLastRow` |
| TableClose.PadDataRow | packages/comark/src/internal/parse/auto-close/table.ts:155-175 | the data-row branch computes `ClosedLastRow` |
| TableClose.CloseLastRow | packages/comark/src/internal/parse/auto-close/table.ts:109-175 | computes `ClosedLastRow` |
| TableClose.CloseLastTable | packages/comark/src/internal/parse/auto-close/table.ts:91-180 | computes `ClosedBlock` |
| TableClose.CloseTables | packages/comark/src/internal/parse/auto-close/table.ts:68-183 | the procedure yields `ClosedTables` |
| Strings.Utf16Length | packages/comark/src/internal/parse/auto-close/table.ts:15 | `.length` counts UTF-16 code units: never fewer than the characters, and zero only for the empty text |
| TableClose.NoColumnBlockClosed | packages/comark/src/internal/parse/auto-close/table.ts:100-106 | a block whose trimmed header ends with `\|` but has no column, with no separator and a last row that is neither separator-like nor open, only gains the separator `\|  \|` after its header |
| TableClose.NoColumnTableClosed | packages/comark/src/internal/parse/auto-close/table.ts:178-182 | the text of such a last table is its lines with `\|  \|` spliced in after the header, joined again |
| TableClose.LonePipeClosed | packages/comark/src/internal/parse/auto-close/table.ts:68-183 | the one-character text `\|` is closed to `\|\n\|  \|` |
| TableClose.EmptySeparatorNotRecognised | packages/comark/src/internal/parse/auto-close/table.ts:178-180 | `\|\n\|  \|` is closed to `\|\n\|  \|\n\|  \|`: the inserted `\|  \|` holds no `-` or `:`, so it is not seen as a separator |
| TableClose.ClosingTableTwiceDiffers | packages/comark/src/internal/parse/auto-close/table.ts:68-183 | closing the text `\|` twice differs from closing it once |
| Strings.TrimEndSpec | src/utils/auto-close.ts:76 | `trimEnd` keeps a prefix that is empty or ends in a visible character, and drops only white space |
| Strings.TrimStartSpec | src/utils/auto-close.ts:205 | `trimStart` keeps a suffix that is empty or starts with a visible character, and drops only white space |
| Strings.TrimEmptyIffBlank | src/utils/auto-close.ts:33 | the trimmed text is empty exactly when the text is all white space |
| Strings.JoinSplit | packages/comark/src/internal/parse/auto-close/table.ts:182 | joining the split lines gives back the text |
| Strings.SplitJoin | src/utils/auto-close.ts:47 | splitting joined parts that hold no separator gives back the parts |
| AstTypes.CommentText | packages/comark/src/ast/types.ts:3 | a comment is exactly `[null, {}, payload]` |
| AstTypes.Comment | packages/comark/src/ast/types.ts:3 | the built comment is a well-formed comment with that payload |
| AstTypes.Kinds | packages/comark/src/ast/types.ts:1-11 | a well-formed node is exactly one of text, comment or element |
| AstUtils.Preorder | packages/comark/src/ast/utils.ts:34-63 | the walk order starts at the node itself |
| AstUtils.Filter | packages/comark/src/ast/utils.ts:37 | the checked nodes are at most the nodes, and all pass the checker |
| AstUtils.ComputeTextContent | packages/comark/src/ast/utils.ts:11-24 | the loop yields `TextContent`, which is the concatenation of the text leaves in preorder |
| AstUtils.TextContentIsPreorderText | packages/comark/src/ast/utils.ts:11-24 | `textContent` is the concatenation of the text leaves in preorder |
| AstUtils.TextContentLeaves | packages/comark/src/ast/utils.ts:12-23 | the text of a text node is itself; the text of a comment is its payload |
| AstUtils.ChildrenTextAppend | packages/comark/src/ast/utils.ts:18-23 | the text of concatenated children is the concatenation of their texts |
| AstUtils.Walk | packages/comark/src/ast/utils.ts:34-66 | `walk` computes `WalkNode`: remove, keep or replace the checked node, then walk the children of what is left |
| AstUtils.WalkSiblings | packages/comark/src/ast/utils.ts:51-63 | the cursor loop, which does not advance after a removal, computes `WalkList` |
| AstUtils.Visit | packages/comark/src/ast/utils.ts:33-79 | the result is `VisitTree`; frontmatter and meta are untouched; an empty tree is unchanged and nothing is visited |
| AstUtils.WalkListFrom | packages/comark/src/ast/utils.ts:51-63 | the cursor loop from any position equals the prefix followed by each remaining sibling walked on its own |
| AstUtils.WalkListIsEach | packages/comark/src/ast/utils.ts:68-78 | the cursor loop equals walking each sibling independently, left to right: a removal does not skip the next sibling |
| AstUtils.WalkEachAppend | packages/comark/src/ast/utils.ts:68-78 | walking a concatenation walks each part in turn |
| AstUtils.RemovedNodeSplicedOut | packages/comark/src/ast/utils.ts:39-42 | a removed node vanishes from its siblings, is seen once, and the siblings on both sides are walked as before |
| AstUtils.ReplacedNodeFillsSlot | packages/comark/src/ast/utils.ts:45-63 | a replaced node's slot holds the replacement with its children walked; the trace is the original node, then the children's visits |
| AstUtils.MaxHeight | packages/comark/src/ast/utils.ts:51-63 | bounds the height of every node of a list |
| AstUtils.KeepingWalkIsPreorder | packages/comark/src/ast/utils.ts:34-66 | a visitor that keeps everything leaves the node unchanged and sees exactly the checked nodes in preorder |
| AstUtils.KeepingVisitIsPreorder | packages/comark/src/ast/utils.ts:33-79 | the same for a whole tree |
| AstUtils.VisitorSeesOnlyChecked | packages/comark/src/ast/utils.ts:37-38 | every node handed to the visitor passed the checker |
| AstUtils.RemovingEverythingEmpties | packages/comark/src/ast/utils.ts:39-78 | a visitor that removes every node empties the tree and sees exactly the top-level nodes |
| AstUtils.VisitFuelIrrelevant | packages/comark/src/ast/utils.ts:33-79 | once a fuel bound suffices, any larger one gives the same result |
| AstUtils.NoReplaceVisitFinishes | packages/comark/src/ast/utils.ts:33-79 | a visitor that never replaces makes the walk finish within the tree's height |
| AstUtils.WrappingTextNeverFinishes | packages/comark/src/ast/utils.ts:45-63 | a visitor that wraps every text node in an element never finishes on a text node |

## Left out

- `decodeUnicodeEntities` (packages/comark/src/ast/utils.ts:2, 13-15): HTML entity decoding is an external library call. `TextContent` models the default, where the option is off.
- `escapeRegex` (src/utils/auto-close.ts:264-266) and the regular-expression engine: each expression the code builds is modelled by the predicate it amounts to, for the fixed markers it is built from.
- `COLON_CLOSERS` (src/utils/auto-close.ts:17, 252-254) is a cache of `':'.repeat(n)` for small `n`. The model always uses the repeat, which gives the same string.
- The branch at src/utils/auto-close.ts:214-224 is dead: the opener pattern needs a name after the colons, so a matched line is never only colons (`OpenerIsNeverClosing`). It is not modelled beyond that lemma.
- Visitors and checkers are pure, total functions. In the source they are arbitrary callbacks that may have side effects or mutate the node they receive; the model does not capture that.
- `Walk`, `WalkSiblings` and `Visit` return new values instead of updating arrays in place. Aliasing is not modelled: a replacement node shared with another part of the tree would see the walk's edits there too.
- `Walk`, `WalkSiblings`, `Visit`: these require that some fuel bound suffices. That holds exactly when the source's recursion returns with an unbounded stack; on the other inputs the source does not return (the stack overflows). A finite but very deep tree can also overflow the JavaScript stack; the model does not capture that limit.
- `Value`: attribute values, frontmatter and meta entries are never inspected, so their type is left abstract.
- The `parent` and `index` arguments of `walk` are not parameters: the sibling loop writes the slot (or splices it out) from the outcome `Walk` returns.
- `ClosedTables`: idempotence is neither proved nor refuted for tables whose header has at least one column. Only the column-less counterexample is proved.
- `Utf16Length`: a Dafny `char` is a Unicode scalar value, so a JavaScript string holding a lone surrogate has no counterpart in the model.
- The browser and streaming context (how partial buffers arrive) is outside the core.

## Code versus documented or expected behaviour

The model follows the code in each of these places.

- One would expect the closer to be idempotent, but the code is not: `a *` becomes `a **`, and closing that again gives `a ****` (`AutoClose.ClosingTwiceDiffers`). The trailing `**` added as an italic closer reads as a new bold opener.
- One would expect `**a** and *b` to be closed with `*`: the comment at src/utils/auto-close.ts:113-114 treats a complete `**` pair followed by `*italic*` as a case to get right. The code appends nothing. Because the line opens with `**`, the `^\*{2,}` guard skips the italic marker, and no other marker fires (`InlineClose.ClosedBoldThenOpenItalic`).
- One would expect the walk to recurse no deeper than the tree, but a visitor that replaces a node with a larger one containing a node it matches again recurses without end (`AstUtils.WrappingTextNeverFinishes`). With a visitor that never replaces, the depth bound holds (`AstUtils.NoReplaceVisitFinishes`).
- The comment above the separator completion (packages/comark/src/internal/parse/auto-close/table.ts:125) says each cell keeps at least one dash. The code only ensures one character between the alignment colons, so `:::` and `:x` stay as they are (`TableClose.AlignedCellNeedsNoDash`).
- One would expect `closeTables` to be idempotent too, but it is not. A header with no non-empty cell, such as `|`, has no column, so the inserted separator is `|  |`. That row holds no `-` or `:`, so the next call does not see a separator and inserts another (`TableClose.ClosingTableTwiceDiffers`).
