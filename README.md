# Element layout and render, in Dafny

This project models the `Element` class of the PHP terminal library
php-cli-io (`Output/Element.php`). An element is a block of text lines with
a CSS-like style map. `setText` splits a string into lines. `setStyle` merges
`key: value;` declarations into the style map. At render time the element
positions itself in the terminal viewport:

- the start row comes from `position: fixed` plus `top` or `bottom`; otherwise
  the element flows with the surrounding output;
- the horizontal offset comes from `right`, `middle` or `left`;
- each line's column comes from `text-align`, applied inside the element's own
  width.

Each line can carry SGR colour codes (ECMA-48 section 8.3.117). A dirty flag
makes `render` a no-op until the text or the style changes, unless the render
is forced.

How the model is laid out:

- `wrappers.dfy`: `Option`.
- `strings.dfy`: PHP's `explode`, `implode` and `trim` as `Split`, `Join` and
  `Trim`, with their round-trip lemmas.
- `lengths.dfy`: style values that denote a distance (`5`, `-2`, `50%`), with
  percentages rounded up.
- `style_sheet.dfy`: the parsing done by `setStyle` and the lookup done by
  `getStyle`.
- `size_context.dfy`: the parent's size and the `max-width`/`max-height`
  cascade.
- `position.dfy`: `_getStartRow`, `_getHOff` and `_getStartCol`.
- `line_composer.dfy`: `_prepareLine`.
- `element.dfy`: the class `Elements.Element`. Its fields are `text`, `style`,
  `hasChanges` and the memoised `size`. Its methods change them as the PHP
  methods do.

The terminal is a log of events: `SetPos(row, col)`, `SetCol(col)` and
`Write(s)`. `render` returns the log it would produce. The parent element is
a `Container` value that holds its size and its resolved maxima. The
terminal's colour table is a `Palette` of two functions.

Two points where the code behaves in a way a reader might not expect, and
where the model follows the code:

- `setStyle` never clears the map. A later call keeps every key it does not
  mention (`StyleSheet.StoreKeepsOthers`).
- `text-align: right` shifts a line by `width - len`, where `width` is the
  element's own width (its longest line), not the viewport width. Take a
  one-line element `hi` with `position: fixed; top: 0; text-align: right` in
  an 80-column viewport. It is written at row 1, column 0, not at column 78
  (`Elements.FixedTopRightExample`).

A fixed element with neither `top` nor `bottom` leaves the PHP variable
`$row` undefined. The model keeps this case as `StartRow.Unset`: the first
line is positioned with a null row, and PHP's `null++` makes the following
rows 1, 2, and so on.

## Model

| member | source | states |
|---|---|---|
| Elements.Element.SetText | Output/Element.php:170-179 | sets the dirty flag; the lines are the `\n`-separated pieces of the input, in order, each without colour; the height is the number of newlines plus one; imploding the lines on `\n` gives back the input |
| Elements.Element.constructor | Output/Element.php:69-72 | a new element keeps its id and starts with no lines, an empty style map, no pending change and no stored size |
| Strings.Split | Output/Element.php:174 | `explode` yields one more piece than there are separators, and no piece contains the separator |
| Strings.JoinSplit | Output/Element.php:174 | imploding the pieces of `explode` gives back the original string |
| Strings.SplitJoin | Output/Element.php:191-193 | exploding the implosion of separator-free pieces gives back those pieces |
| Strings.Join | Output/Element.php:351 | `implode` puts one separator between consecutive pieces, so separator-free pieces give one separator fewer than there are pieces |
| Strings.Trim | Output/Element.php:195-196 | `trim` returns the slice of its input left after removing white space and NUL from both ends: everything cut off is white space, and what remains neither starts nor ends with it |
| Strings.TrimPadded | Output/Element.php:195-196 | `trim` removes any white space around a token and nothing of the token itself |
| Elements.Element.SetStyle | Output/Element.php:188-202 | sets the dirty flag; the new map is the old map with every honoured declaration stored in order |
| StyleSheet.Parse | Output/Element.php:191-199 | the style map after `setStyle`; no key is ever removed |
| StyleSheet.ParseJoin | Output/Element.php:191-192 | the declarations of a string are the `;`-separated pieces, parsed one by one in order |
| StyleSheet.ParseTwoPieces | Output/Element.php:191-197 | a string of two `;`-free pieces, each ending in `;`, is parsed as the three pieces `p`, `q` and the empty piece after the last `;`, in that order |
| StyleSheet.SetStyleUsual | Output/Element.php:188-202 | `k1: v1; k2: v2;` with its spaces and trailing `;` stores `k1` as `v1` and `k2` as `v2` over the current map, the empty last piece ignored |
| StyleSheet.ParseDecl | Output/Element.php:193-197 | a `;`-piece is honoured exactly when it contains exactly one `:` (two tokens) |
| StyleSheet.ParseDeclAt | Output/Element.php:193-197 | a piece `p:t` with one colon stores the key `trim(p)` with the value `trim(t)` |
| StyleSheet.ParsePaddedDecl | Output/Element.php:193-197 | white space around the key and around the value is not stored |
| StyleSheet.StoreKeys | Output/Element.php:191-199 | a key is in the map afterwards exactly when it was before or some honoured declaration names it |
| StyleSheet.StoreKeepsOthers | Output/Element.php:191-199 | a key that no declaration names keeps its previous value (merge, not replace) |
| StyleSheet.StoreLastWins | Output/Element.php:191-199 | the last honoured declaration of a key decides its value |
| StyleSheet.StoreSkipsMalformed | Output/Element.php:193-194 | dropping a piece that does not split into two tokens does not change the result |
| StyleSheet.ParseFormat | Output/Element.php:188-202 | a declaration string written from clean key/value pairs stores exactly those pairs, in order |
| StyleSheet.GetStyle | Output/Element.php:211-222 | no key, or a key PHP treats as false, returns the whole map; a missing key returns null; a present key returns its value |
| Elements.Element.GetStyle | Output/Element.php:211-222 | the same three cases over the element's own style map |
| StyleSheet.SetThenGet | Output/Element.php:188-222 | after storing `k: v`, looking up `k` returns `v` |
| Elements.Width | Output/Element.php:230-238 | the width is at least every line's length and equals some line's length, or is 0 with no lines |
| Elements.Element.GetWidth | Output/Element.php:230-238 | the max-fold loop returns the longest line's length (0 with no lines) |
| Elements.Element.GetHeight | Output/Element.php:246-249 | the height is the number of lines: for lines without a newline, one more than the newlines in their implosion |
| SizeContext.EffectiveMax | Output/Element.php:251-270 | the effective maximum is at most the parent's and at most the declared one, and it is one of them (their minimum) |
| Elements.Element.GetMaxWidth | Output/Element.php:261-270 | never above the parent's maximum width; the minimum of the declared and the parent's maximum when set to a true value, otherwise the parent's |
| Elements.Element.GetMaxHeight | Output/Element.php:251-259 | the same for height |
| SizeContext.CascadeIsLeast | Output/Element.php:251-270 | down a chain of nested elements, the innermost maximum is the least of the window's and every declared maximum |
| Elements.Element.GetSize | Output/Element.php:278-285 | the parent's size is fetched on the first call and returned unchanged afterwards |
| Lengths.CeilPercent | Output/Element.php:401-402 | a percentage resolves to the least integer at or above `extent * p / 100` |
| Lengths.ParseShowLength | Output/Element.php:400-401 | every integer or percentage value reads back as itself |
| Lengths.ResolveMonotone | Output/Element.php:468-470 | a larger percentage never resolves to fewer cells |
| Lengths.ResolveWithin | Output/Element.php:401-402 | a percentage between 0 and 100 resolves to between 0 and the extent |
| Position.GetStartRow | Output/Element.php:391-418 | the start row is the flow marker (PHP `false`) exactly when the element is not `position: fixed`, and undefined exactly when it is fixed without `top` and `bottom` (see the rows below for the fixed rows) |
| Position.TopWins | Output/Element.php:399-405 | with `top` set, `bottom` does not affect the start row |
| Position.RowFromTop | Output/Element.php:399-404 | the start row is `top + 1`; a percentage between 0 and 100 keeps it between 1 and rows + 1 |
| Position.RowFromBottom | Output/Element.php:405-411 | the start row is `rows - bottom`; a percentage between 0 and 100 keeps it between 0 and rows |
| Position.GetHOff | Output/Element.php:461-490 | the element occupying columns offset .. offset + width - 1: `right: n` leaves n free columns after it, `middle: n` puts its cell at index width/2 on column n, `left: n` leaves n free columns before it, and with none of them the offset is 0 |
| Position.HOffPrecedence | Output/Element.php:467-487 | only the first of `right`, `middle`, `left` that is set matters; with none of them the offset is 0 |
| Position.LeftPercentMonotone | Output/Element.php:479-484 | raising a `left` percentage never moves the element left |
| Position.RightBeatsLeftExample | Output/Element.php:467-472 | `right: 5; left: 2` for width 10 in 80 columns gives offset 66 |
| Position.GetStartCol | Output/Element.php:429-452 | a left-aligned line starts on the offset, a right-aligned one ends on the element's right edge (offset + width), and a centred one has as much room on its left as on its right, or one cell less |
| Position.UnknownAlignIsLeft | Output/Element.php:431-442 | a missing or unknown `text-align` places the line on the offset, as `left` does |
| Position.AlignWithin | Output/Element.php:439-449 | a line no wider than the element starts and ends inside it |
| Position.CenterExample | Output/Element.php:443-445 | centring a 4-cell line in a 10-cell element at offset 0 gives column 3 |
| Position.FullWidthIsOffset | Output/Element.php:159 | a line as wide as the element starts on the offset, whatever the alignment |
| LineComposer.Codes | Output/Element.php:343-348 | one SGR parameter per colour that is set, foreground first |
| LineComposer.PrepareLine | Output/Element.php:335-358 | a line without colours is written as its bare text; otherwise the output starts with `ESC [` and ends with `ESC [ 0 m` |
| LineComposer.ParseWrappedPrepareLine | Output/Element.php:350-357 | a coloured line reads back as its SGR parameters (foreground before background) and its unchanged text |
| Elements.RowAt | Output/Element.php:303-311 | line 0 gets the start row itself; the row of line i is `start + i` for a fixed row, stays the flow marker in flow mode, and is `i` after an undefined start (PHP `null++` is 1) |
| Elements.RenderLog | Output/Element.php:293-321 | what a render writes: two events per line, and as written bytes exactly the prepared lines in order, each followed by a newline in flow mode |
| Elements.Element.EmitLines | Output/Element.php:303-316 | the line loop emits the render log of the element's lines, prepared lines and columns |
| Elements.Element.Render | Output/Element.php:293-321 | unforced with no change: no events and no state change; otherwise the size is memoised and the log is the element's render log, two events per line; afterwards the element is clean |
| Elements.RenderLinesAt | Output/Element.php:304-316 | line i owns events 2i (cursor) and 2i+1 (write), so there are exactly two events per line, in line order |
| Elements.RenderLogShape | Output/Element.php:304-316 | in fixed mode line i is `SetPos(RowAt(start, i), col_i)` (row start + i from a fixed start, row i after an unset one, whose line 0 keeps the unset row) then its prepared text; in flow mode it is `SetCol(col_i)` then its prepared text plus `\n` |
| Elements.RenderLinesWrites | Output/Element.php:304-316 | the writes are exactly one per line, in order, with a newline appended in flow mode |
| Elements.FlowRenderWritesText | Output/Element.php:293-321 | in flow mode the bytes written for `setText(s)` are `s` followed by one newline |
| Elements.FixedTopRightExample | Output/Element.php:429-449 | `position: fixed; top: 0; text-align: right` with text `hi` writes `hi` at row 1, column 0 |
| Elements.RenderAgain | Output/Element.php:295-318 | a second unforced render with no change in between emits nothing; a forced render emits two events per line |
| Elements.Element.ApplyFocus | Output/Element.php:152-161 | the cursor goes to the start row, at the horizontal offset plus the element's width |

## Left out

- `getId`, `getParent`, `setParent`, `getOutput`, `getInput` and `setFocus` (Output/Element.php:80-143) only store a field or delegate to the parent and the terminal. The parent is a `Container` value passed to the methods that read it, and the terminal is the returned event log.
- `_getFgColor` and `_getBgColor` ask the terminal for colour codes. They are the two functions of `LineComposer.Palette`, and their values are not modelled.
- `_beforeRender` is an empty hook and is not modelled.
- `echo` and the terminal's `setPos`/`setCol` become `Write`, `SetPos` and `SetCol` events. What the terminal does with a `false` or `null` row is not part of this model.
- Lengths.CeilPercent: uses exact integer arithmetic. The PHP code computes `ceil(size * (p / 100))` in IEEE doubles, which can round up one more (7% of 100 gives 8 there, 7 here).
- Elements.Element.Render: when the render goes ahead, requires `top`/`bottom` to be integer or `n%` literals, and `right`/`middle`/`left` too when there is at least one line (the offset is only read inside the line loop). PHP's coercion of other strings to numbers is not modelled. The same holds for `Elements.Element.ApplyFocus`, `Position.GetStartRow`, `Position.GetHOff` and `Position.GetStartCol`.
- Elements.Element.GetMaxWidth: requires a set, non-false `max-width` to be an integer literal, and `Elements.Element.GetMaxHeight` does the same for `max-height`. PHP's `min` over mixed strings and numbers is not modelled.
- Style values are read as unbounded integers, where PHP turns an integer literal beyond 64 bits into a float; and `getStyle()` without a key returns an insertion-ordered PHP array, where `Whole(m)` is an unordered map. Neither difference affects what the element renders.
- Line lengths count code points, as `mb_strlen` does. A string is a sequence of code points; byte encodings and glyph width do not appear in the code and are not modelled.
- The `$len` argument of `_getStartRow` is unused in the source and is dropped.
- Input/Keys/Xterm.php is a table of key constants with no logic and is not part of this model.
