# Grid action prompt — a Dafny model

This project models the grid action selector of the terminal git helper
(`src/git/actionPrompt.ts`). The selector shows a list of git actions as a grid
of fixed-size boxes (16 columns by 8 lines). It lets the user move a cursor
with the arrow keys and resolves with an action's value on Enter, or when the
user presses the shortcut key of any action.

The model has five modules, one per concern of the source file:

- `Strings` (`strings.dfy`) covers the JavaScript string operations the
  selector relies on:
  - `repeat`;
  - `split(' ')`, with `Join` (`join(' ')`, which the source never calls) as
    its inverse for stating the word-wrap round trip;
  - ASCII `toLowerCase` and `toUpperCase`;
  - the per-character inverse-video rewrite `replace(/./g, …)`, whose `.`
    skips line terminators.
- `Actions` (`actions.dfy`) holds the action record and the `number` and
  `letter` key assignment. The assignment is an in-place `method` over an
  `array`, specified by the function `WithKeys`.
- `Layout` (`layout.dfy`) holds the column and row arithmetic and the grid of
  row slices. The grid-building loop is a `method` proved against the
  function `Grid`.
- `Render` (`render.dfy`) is `renderActionBox`:
  - word wrapping, a loop proved against a fold;
  - centring, the key row and highlighting;
  - the `RangeError` that `' '.repeat` throws when some text is wider than
    the box interior.

  The box is the ghost function `Box`. The source's array-filling renderer is
  the method `RenderActionBox`, which is proved equal to it.
- `Prompt` (`prompt.dfy`) covers three parts:
  - the keypress handler, as the function `Next` from a position and a key
    name to a new position and an outcome (continue, bell, resolve with a
    value, or a thrown `TypeError`);
  - the frame the prompt draws, as the ghost function `Frame`;
  - the class `ActionPrompt`, whose `position` field is the cursor. Its
    method `Step` updates that field as the hook state does. Its method
    `Render` builds the frame with the source's nested row, box and line
    loops.

The model follows the code as written, including three behaviours a reader
might not expect:
- Key assignment overwrites keys the caller supplied (lines 28 and 34).
- Rendering throws a `RangeError` when the text of some interior line is wider
  than `width - 4` (lines 149-157): a kept wrapped line, or the key on line 4.
  A label word that is too wide throws only when it lands on such a line; one
  replaced by the key on line 4, or one dropped past the kept lines by the
  slice at line 141, does not.
- With an empty action list, `down`, `right` and Enter throw a `TypeError`
  (lines 52, 60 and 63).

## Model

| member | source | states |
|---|---|---|
| `Strings.Repeat` | src/git/actionPrompt.ts:152 | `c.repeat(n)` has length `n` and every character is `c` |
| `Strings.Split` | src/git/actionPrompt.ts:128 | `split(' ')` yields at least one piece, and no piece contains a space |
| `Strings.JoinSplit` | src/git/actionPrompt.ts:128 | joining the pieces of a split with single spaces gives back the string |
| `Strings.SplitJoin` | src/git/actionPrompt.ts:128 | splitting a join of space-free words gives back the words |
| `Strings.Lower` | src/git/actionPrompt.ts:69 | `toLowerCase` keeps the length and maps every character through ASCII lower-casing |
| `Strings.Upper` | src/git/actionPrompt.ts:148 | `toUpperCase` keeps the length and maps every character through ASCII upper-casing |
| `Strings.Highlight` | src/git/actionPrompt.ts:165 | `replace(/./g, ...)`: every character except a line terminator is wrapped in ESC[7m ... ESC[0m, and line terminators are kept as they are, since `.` does not match them |
| `Strings.StripHighlight` | src/git/actionPrompt.ts:165 | removing every ESC[7m x ESC[0m wrapper from a highlighted line gives back the line |
| `Strings.HighlightLength` | src/git/actionPrompt.ts:165 | highlighting a line without line terminators makes it exactly nine times longer |
| `Actions.NumberKey` | src/git/actionPrompt.ts:28 | the `number`-mode key is one decimal digit |
| `Actions.LetterKey` | src/git/actionPrompt.ts:34 | the `letter`-mode key is one lower-case letter |
| `Actions.HasKey` | src/git/actionPrompt.ts:69 | `a.key` is truthy: the key is present and not the empty string |
| `Actions.AutoKey` | src/git/actionPrompt.ts:25-37 | the key a mode gives action `index`: a digit for indices up to 9 in number mode, a letter for indices up to 25 in letter mode, and none otherwise or with no mode |
| `Actions.WithKeys` | src/git/actionPrompt.ts:25-37 | key assignment keeps the number of actions |
| `Actions.AssignKeys` | src/git/actionPrompt.ts:25-37 | the in-place `forEach` loops leave the array equal to `WithKeys` of its old contents |
| `Actions.NumberModeKeys` | src/git/actionPrompt.ts:25-30 | actions 0–9 get "1".."9","0" in order, replacing any key; later actions are untouched; names and values never change |
| `Actions.LetterModeKeys` | src/git/actionPrompt.ts:31-36 | actions 0–25 get "a".."z" in order, replacing any key; later actions are untouched; names and values never change |
| `Actions.UnsetModeKeepsKeys` | src/git/actionPrompt.ts:25-37 | with no mode, the caller's keys are kept |
| `Actions.AutoKeysDistinct` | src/git/actionPrompt.ts:25-36 | the keys a mode assigns are pairwise distinct |
| `Actions.WithKeysIdempotent` | src/git/actionPrompt.ts:25-37 | assigning keys again, as every re-render does, changes nothing |
| `Layout.Cols` | src/git/actionPrompt.ts:22 | at least one column; more than one only when that many whole 16-wide cells fit, and one more does not |
| `Layout.Rows` | src/git/actionPrompt.ts:23 | `ceil(n / cols)`: the fewest rows of `cols` cells holding `n` actions, and zero exactly when there are none |
| `Layout.Slice` | src/git/actionPrompt.ts:44 | a clamped `slice` is never longer than its source |
| `Layout.Grid` | src/git/actionPrompt.ts:40-45 | `Rows(n, cols)` rows, row `r` being `Slice(actions, r*cols, r*cols + cols)`; its contents are pinned by `GridRow`, `GridCell` and `GridFlatten` |
| `Layout.BuildGrid` | src/git/actionPrompt.ts:39-45 | the row-pushing loop builds exactly the grid of slices |
| `Layout.GridRowSizes` | src/git/actionPrompt.ts:39-45 | every row has 1 to `cols` cells, and every row but the last has exactly `cols` |
| `Layout.GridCell` | src/git/actionPrompt.ts:39-45 | cell (r, c) exists exactly when `r * cols + c` indexes an action, and then holds that action |
| `Layout.ActionCell` | src/git/actionPrompt.ts:39-45 | action `i` sits at row `i / cols`, column `i % cols` |
| `Layout.GridFlatten` | src/git/actionPrompt.ts:39-45 | concatenating the rows gives back the action list in order |
| `Layout.GridRow` | src/git/actionPrompt.ts:42-44 | row `r` is the non-empty run of actions from `r * cols` to `r * cols + cols`, clamped |
| `Render.Top` | src/git/actionPrompt.ts:123 | the top border is exactly `width` characters |
| `Render.Bottom` | src/git/actionPrompt.ts:124 | the bottom border is exactly `width` characters |
| `Render.Blank` | src/git/actionPrompt.ts:117 | an empty interior line is exactly `width` characters |
| `Render.Centre` | src/git/actionPrompt.ts:154-157 | padded content is exactly the wrap width |
| `Render.CentreBalanced` | src/git/actionPrompt.ts:149-157 | `floor(pad / 2)` spaces come first, the content is intact in the middle, the rest is spaces, and the right margin is the left one or one more |
| `Render.Interior` | src/git/actionPrompt.ts:159 | an interior line is exactly `width` characters |
| `Render.WrapFold` | src/git/actionPrompt.ts:132-140 | the greedy wrap loop from a given state: a word is appended to the current line with one space when the result fits, otherwise the current line is closed and the word starts a new one; a non-empty last line is closed at the end |
| `Render.Wrapped` | src/git/actionPrompt.ts:128-140 | the lines `name.split(' ')` wraps into at width `w`, starting from no lines and an empty current line |
| `Render.Wrap` | src/git/actionPrompt.ts:127-140 | the word-wrap loop computes the wrapped lines `Wrapped` |
| `Render.WrapLinesFit` | src/git/actionPrompt.ts:132-140 | when every word fits the wrap width, so does every wrapped line |
| `Render.WrapRoundTrip` | src/git/actionPrompt.ts:127-140 | for a single-spaced label whose words fit, there is at least one line, no line is empty or too wide, and joining the lines with spaces gives back the label |
| `Render.WrapGreedy` | src/git/actionPrompt.ts:132-139 | a line is only broken when the next word, with its space, would overflow |
| `Render.Kept` | src/git/actionPrompt.ts:141 | at most `height - 2` wrapped lines are kept |
| `Render.Content` | src/git/actionPrompt.ts:145-152 | the text of interior line `i`: the uppercased key on line 4 when the key is truthy, else wrapped line `i - 1` when kept, else the empty string |
| `Render.Fits` | src/git/actionPrompt.ts:149-157 | every interior line's text is at most `width - 4` wide, which is exactly when no `repeat` count goes negative |
| `Render.EmptyLine` | src/git/actionPrompt.ts:112-119 | line `i` of an empty slot: top border, bottom border, or a bordered blank line, each `width` wide |
| `Render.EmptyBox` | src/git/actionPrompt.ts:112-119 | the `height` lines of an empty slot |
| `Render.PlainLine` | src/git/actionPrompt.ts:122-160 | line `i` of an unselected box whose text fits: top border, bottom border, or the bordered centred `Content`, each `width` wide |
| `Render.PlainBox` | src/git/actionPrompt.ts:122-160 | the `height` lines of an unselected box whose text fits |
| `Render.HighlightAll` | src/git/actionPrompt.ts:163-167 | every line replaced by its highlight, the length kept |
| `Render.Box` | src/git/actionPrompt.ts:104-170 | a box that renders has exactly `height` lines |
| `Render.RenderActionBox` | src/git/actionPrompt.ts:104-170 | the array-filling renderer returns exactly `Box`, or its `RangeError` |
| `Render.FillInterior` | src/git/actionPrompt.ts:143-160 | the interior loop completes exactly when every interior text fits, and then writes the centred text or key on every interior line |
| `Render.PadLine` | src/git/actionPrompt.ts:149-159 | one interior line is the centred text between borders, or `RangeError` exactly when the text is wider than `width - 4` |
| `Render.HighlightLines` | src/git/actionPrompt.ts:163-167 | the selection loop replaces every line by its highlighted form |
| `Render.BoxShape` | src/git/actionPrompt.ts:110-124 | an unselected box has `height` lines, each exactly `width` wide; the first line is the top border and the last the bottom border; every interior line starts and ends with a vertical border |
| `Render.EmptyBoxNeverHighlighted` | src/git/actionPrompt.ts:112-120 | an empty slot never throws and is never highlighted; it is the outline with blank interior lines |
| `Render.BoxRendersWhenLabelFits` | src/git/actionPrompt.ts:143-160 | a box renders, selected or not, when every label word fits in `width - 4` and so does the key when its row is shown |
| `Render.BoxFailsIffOverflow` | src/git/actionPrompt.ts:149-157 | the box throws if and only if some interior line's text is wider than `width - 4`, selected or not |
| `Render.KeyRowIgnoresLabel` | src/git/actionPrompt.ts:146-152 | interior line 4 is the same whatever the label is, and unselected it is the uppercased key centred |
| `Render.BoxShowsWrappedLabel` | src/git/actionPrompt.ts:141-159 | interior line `k + 1` shows wrapped line `k` centred, except on the key row |
| `Render.SelectedBoxStrips` | src/git/actionPrompt.ts:162-167 | stripping the escapes from each line of a selected box gives the unselected box's line |
| `Prompt.FindByKey` | src/git/actionPrompt.ts:69 | `find` returns the first action whose truthy key, lower-cased, equals the key name, and nothing exactly when none does |
| `Prompt.KeyMatches` | src/git/actionPrompt.ts:69 | the predicate passed to `find`: a truthy key whose lower-cased form equals the key name |
| `Prompt.ThrowsOn` | src/git/actionPrompt.ts:52-63 | the keys whose handling indexes a missing grid row and throws a `TypeError`: `down` on an empty grid, `right` and Enter with the cursor row outside the grid |
| `Prompt.Next` | src/git/actionPrompt.ts:47-76 | only movement changes the cursor; the handler throws exactly when it indexes a missing row; the bell rings exactly for an unmatched non-arrow key |
| `Prompt.NextKeepsCursorInGrid` | src/git/actionPrompt.ts:47-61 | from any cell of a non-empty grid, every key leaves the cursor on a cell of the grid and never throws |
| `Prompt.ArrowKeys` | src/git/actionPrompt.ts:48-61 | `up` and `left` floor at 0, `right` stops at the row's last cell, `down` moves only onto an existing cell below |
| `Prompt.EnterResolvesCursorCell` | src/git/actionPrompt.ts:62-67 | Enter resolves with the value of action `row * cols + col`, the one under the cursor |
| `Prompt.ShortcutResolvesFirstMatch` | src/git/actionPrompt.ts:68-75 | any other key resolves with the value of the first matching action in list order, rings the bell exactly when nothing matches, and never moves the cursor |
| `Prompt.ShortcutIgnoresCursor` | src/git/actionPrompt.ts:69-74 | a shortcut's outcome does not depend on the cursor |
| `Prompt.AssignedKeySelects` | src/git/actionPrompt.ts:25-71 | after assignment, the key given to action `i` resolves with action `i`'s value |
| `Prompt.EmptyListKeys` | src/git/actionPrompt.ts:47-76 | with no actions, `up` and `left` keep the cursor at (0, 0); `down`, `right` and Enter throw; other keys ring the bell |
| `Prompt.Run` | src/git/actionPrompt.ts:47-76 | over any key sequence the cursor stays on a cell of the grid |
| `Prompt.PushPullScenario` | src/git/actionPrompt.ts:16-76 | two actions at width 40: two columns and one row; "p" resolves "push"; right then Enter resolves "pull" |
| `Prompt.CellBox` | src/git/actionPrompt.ts:84-86 | a cell's box that renders has `ActionHeight` lines |
| `Prompt.RowBoxesOf` | src/git/actionPrompt.ts:82-87 | a row of the frame has one box per column |
| `Prompt.RowRenders` | src/git/actionPrompt.ts:83-87 | every one of the `cols` boxes of row `r` renders without the `RangeError` of `renderActionBox` |
| `Prompt.RowsRender` | src/git/actionPrompt.ts:80-87 | every box of the first `k` rows renders; `AllRowsRender` and `RowFailureStopsFrame` tie it to "every row renders" |
| `Prompt.RowLine` | src/git/actionPrompt.ts:91-93 | line `line` of the first `c` boxes concatenated left to right |
| `Prompt.BlockLines` | src/git/actionPrompt.ts:89-95 | the first `n` lines of a row of boxes, each followed by a newline |
| `Prompt.FrameText` | src/git/actionPrompt.ts:80-96 | the text of the first `k` grid rows, row after row |
| `Prompt.Frame` | src/git/actionPrompt.ts:78-100 | the whole output: every row's lines then the constant `Hint` of line 98, or `RangeError` when a box of some row throws |
| `Prompt.CellRendersWhenLabelFits` | src/git/actionPrompt.ts:84-86 | a cell, filled or empty, renders when labels and keys fit |
| `Prompt.FrameRendersWhenLabelsFit` | src/git/actionPrompt.ts:78-98 | the whole frame renders when every label word and key fits in a box |
| `Prompt.RowFailureStopsFrame` | src/git/actionPrompt.ts:80-87 | one failing row makes the frame throw |
| `Prompt.RowLineWidth` | src/git/actionPrompt.ts:89-95 | outside the cursor's row, each drawn line of a row of boxes is `cols * 16` characters |
| `Prompt.RowText` | src/git/actionPrompt.ts:89-95 | the line loop appends each of the row's lines, boxes side by side, newline-ended |
| `Prompt.JoinLine` | src/git/actionPrompt.ts:90-93 | the inner loop places line `line` of every box side by side |
| `Prompt.ActionPrompt.constructor` | src/git/actionPrompt.ts:16-45 | assigns keys in place on the caller's array, lays out the grid for the width, and starts the cursor at (0, 0) |
| `Prompt.ActionPrompt.Step` | src/git/actionPrompt.ts:47-76 | a keypress updates the cursor and yields the outcome exactly as `Next`, keeping the cursor on a cell |
| `Prompt.ActionPrompt.Render` | src/git/actionPrompt.ts:78-100 | the frame is the rows' box lines followed by the hint, or the error of the first box that throws |
| `Prompt.ActionPrompt.RenderRow` | src/git/actionPrompt.ts:80-96 | one pass of the row loop appends that row's lines, or throws exactly when one of its boxes does |
| `Prompt.ActionPrompt.RowBoxes` | src/git/actionPrompt.ts:82-87 | the box loop yields every box of the row, or throws exactly when one of them does |

## Left out

- The hook machinery of the prompt library (`createPrompt`, `useState`,
  `useKeypress`, `done`) is not modelled. The cursor is the `position` field
  of `ActionPrompt`, a keypress is a call to `Step`, and `done(value)` is the
  outcome `Done(value)`. `Run` models the prompt ending after its first
  resolution.
- The terminal size module (`useTerminalSize`) is not part of this model.
  The width is a constructor parameter and is fixed for one prompt. The
  source recomputes the keys and the grid on every render. The model
  computes them once, which gives the same result for a fixed width
  (`WithKeysIdempotent`). A resize that leaves the cursor outside the new
  grid is not modelled.
- The bell's write of the BEL byte to standard output is not modelled. The
  bell is the outcome `Bell`.
- Writing the frame to the terminal is not modelled. `Render` returns the
  frame text.
- Actions are values. The source mutates the caller's action objects, and
  the model mutates the caller's array of action records. Sharing of one
  action object between several references is not modelled.
- Case mapping is ASCII only. Non-ASCII case mappings, including those that
  change a string's length, are not modelled.
- Strings are sequences of Unicode code points, not UTF-16 code units. A
  character outside the Basic Multilingual Plane counts as one character in
  padding, and is highlighted as one character rather than as two surrogate
  halves.
- Render.RenderActionBox: widths or heights below 2 are not modelled; the
  prompt only ever passes 16 and 8.
- Render.RenderActionBox: the initial `fill` of the line array is not
  modelled. Every line is overwritten when the height is at least 2.
- Prompt.Next: the precondition that no grid row is empty holds for every
  grid the layout builds (`GridRowSizes`). A key event without a name is
  modelled as a name that matches no action.
- The other files of the repository are not part of this model: the menu
  dispatch, the stash prompt and the shell-prompt plugins.
