# BasicTextEditor: a Dafny model of `ta.js`

`ta.js` is a browser text-box editor. The user adds text elements to a
canvas, drags them by their text, resizes them from a corner handle, rotates
them from another handle, and styles the selected one from a shared panel
(font family, font size, colour). This project models three parts of it:

- **Colour conversion** (`colour.dfy`, module `Colour`). `rgb2hex` passes a
  `#...` string through unchanged. It turns `rgb(r, g, b)` into `#rrggbb`
  and throws on anything else; the throw is `None` here. `hex` formats one
  channel as two lower-case hexadecimal digits. The regular expression
  `/^rgb\((\d+),\s*(\d+),\s*(\d+)\)$/` is a matcher (`MatchRgb`) proved equal
  to a description of the strings it accepts (`Render` of a `WellFormed`
  match), in both directions.
- **Gesture sessions** (`gesture.dfy`, module `Gesture`). Each element has a
  drag session and a resize session, each idle or active. A drag move puts
  the corner at the pointer minus the grab offset. A resize move sets the
  size to the start size plus the pointer's travel, with no clamping.
- **The page** (`editor.dfy`, module `Editor`, class `Canvas`). It holds the
  elements in creation order, the optional active element and the panel's
  values. Its methods are the page's handlers: the element factory, select
  and deselect, the panel read-back, the canvas click, the style applicator,
  and the page-wide pointer move and release that drive every element's
  sessions. `Valid()` says the outline is on the active element and on no
  other.

Three points where the code behaves differently from how it may read:
- The `|| '#000000'` at ta.js:148 reads like a fallback to black, but it is
  never reached. On a colour it cannot parse, `rgb2hex` throws first
  (ta.js:153-154), and otherwise it never returns an empty string.
  `ControlValues` models the throw: the family and size controls are
  already written, the colour control keeps its old value, and `completed`
  is false.
- Drag and resize are two independent sessions per element, as the code has
  two flags, `isDragging` and `isResizing`. They are not one combined state.
  A press on the handle while a drag is live leaves both active.
- The panel does not always mirror the active element's style. A size
  control set to 0 writes `0px` (ta.js:183). When the element is selected
  again, `parseInt(...) || 16` shows 16 (ta.js:147), while the element keeps
  `0px`. `SizeControl(0)` is 16 in the model too.

Colour text is stored in a text node's style exactly as written (a
`#rrggbb` string from the colour input). A browser reads it back as
`rgb(r, g, b)`. `Colour.HexColourRoundTrip` and
`Editor.PanelRoundTripViaBrowser` show that `rgb2hex` gives the same
`#rrggbb` in that case too.

Environment inputs are parameters: the initial panel values, an element's
random placement and its laid-out size at creation, its laid-out size at
a resize press, the pointer position of each event, and whether a press or
click hit the text node or the bare canvas.

## Model

| member | source | states |
|---|---|---|
| `Colour.DecimalValue` | ta.js:158 | `parseInt` of a capture: a leading zero does not change the value (and `ToDecimal` is its inverse) |
| `Colour.ToBase16` | ta.js:158 | `n.toString(16)`: non-empty lower-case hexadecimal digits with no leading zero, whose value is `n`, ending in the digit of `n % 16` |
| `Colour.Hex` | ta.js:157-159 | `hex(x)` is always exactly two lower-case hexadecimal digits, and their value is the channel modulo 256 (a channel of 0..255 is encoded exactly, a larger one keeps only its low byte) |
| `Colour.DigitRun` | ta.js:153 | the `\d+` scan takes the longest run of decimal digits: all taken characters are digits and the next one is not |
| `Colour.SpaceRun` | ta.js:153 | the `\s*` scan takes the longest run of white space |
| `Colour.DecimalThen` | ta.js:153 | `\d+` followed by a given character: the input is the digits, that character and the rest |
| `Colour.SpacedDecimalThen` | ta.js:153 | `\s*\d+` followed by a given character: the input is the spaces, the digits, that character and the rest |
| `Colour.MatchRgb` | ta.js:153 | a match is well formed (three digit groups, white-space gaps) and spells out exactly the matched string |
| `Colour.MatchRgbComplete` | ta.js:153 | every string the regular expression accepts is matched, with exactly the capture groups it was built from |
| `Colour.RgbToHex` | ta.js:151-155 | input starting with `#` is returned unchanged; every result starts with `#`; a result for input not starting with `#` is 7 characters, `#` and six hexadecimal digits |
| `Colour.RgbToHexDefinedExactly` | ta.js:152-154 | `rgb2hex` succeeds if and only if the input starts with `#` or is accepted by the `rgb(...)` regular expression |
| `Colour.RgbToHexIdempotent` | ta.js:152 | `rgb2hex` returns its own results unchanged |
| `Colour.RgbToHexFormat` | ta.js:153-154 | on a match the result is `#` and three two-digit groups; group i is `hex` of capture i, whose value is channel i modulo 256 |
| `Colour.ChannelsRoundTrip` | ta.js:153-158 | for channels 0..255, `rgb2hex` of the browser's `rgb(r, g, b)` text decodes back to (r, g, b) |
| `Colour.HexColourRoundTrip` | ta.js:148 | a `#rrggbb` colour read back by a browser as `rgb(r, g, b)` is turned by `rgb2hex` into the same `#rrggbb` string |
| `Colour.ExamplesConvert` | ta.js:151-158 | `#ff0000` passes through; `rgb(255, 0, 0)` gives `#ff0000`; `rgb(0, 0, 0)` gives `#000000` |
| `Colour.ExamplesFail` | ta.js:153-154 | the empty string, `red`, `rgba(0, 0, 0, 0)` and `rgb(-1, 0, 0)` make `rgb2hex` throw |
| `Gesture.StartDrag` | ta.js:43-47 | a press starts a drag whose offset makes a move to the press point leave the element in place |
| `Gesture.DragMove` | ta.js:52-57 | a drag move never changes the size, and with no drag active it changes nothing |
| `Gesture.StartResize` | ta.js:73-78 | a press on the handle records the pointer position and the element's size |
| `Gesture.ResizeMove` | ta.js:83-90 | a resize move never changes the position, and with no resize active it changes nothing |
| `Gesture.Move` | ta.js:52-90 | one move through the `drag` then the `resize` listener equals the other order: the two listeners write different fields |
| `Gesture.Moves` | ta.js:52-90 | a run of moves ends where its last move alone would put the element |
| `Gesture.MovesFollowLastPointer` | ta.js:52-90 | after any run of moves the position is the last pointer minus the grab offset (while dragging) and the size is the start size plus the last pointer's travel (while resizing), independent of the path; what no session drives is unchanged |
| `Gesture.IdleMovesChangeNothing` | ta.js:52-90 | with both sessions idle, no run of moves changes the element |
| `Gesture.DragGesture` | ta.js:43-57 | a whole drag displaces the element by exactly the pointer's displacement from the press point and keeps its size |
| `Gesture.ResizeGesture` | ta.js:73-90 | a whole resize changes the size by exactly the pointer's displacement from the press point, unclamped, and keeps the position |
| `Editor.StripQuotes` | ta.js:146 | the result has no quote characters and is no longer than the input; a family without quotes is kept as it is |
| `Editor.StyleFrom` | ta.js:181-185 | `updateTextStyle` writes the panel to the text node so that, for a stable panel, reading the node back gives the panel again |
| `Editor.FamilyControl` | ta.js:146 | the family control is never empty and has no quotes; it is the unquoted family, or `Arial` when that is empty |
| `Editor.SizeControl` | ta.js:147 | the size control is never 0; a non-zero size is kept, and a zero (`parseInt` of `0px`) becomes 16 |
| `Editor.ControlValues` | ta.js:145-149 | the family and size controls are `FamilyControl` and `SizeControl` of the style, written in either case; the read-back completes exactly when `rgb2hex` accepts the colour, and then the colour control is `rgb2hex` of it, otherwise it is unchanged |
| `Editor.PanelRoundTrip` | ta.js:181-185 | writing a stable panel to a text node and reading it back restores the panel |
| `Editor.PanelRoundTripViaBrowser` | ta.js:145-148 | the same when the browser reads the colour back as `rgb(r, g, b)` |
| `Editor.ReadbackIsStable` | ta.js:145-149 | a completed read-back is stable, so reading back a style written from it gives the same panel |
| `Editor.AtMostOneHighlighted` | ta.js:132-143 | when the outline follows the active element, the highlighted set is exactly the active element, so at most one element is highlighted |
| `Editor.Moved` | ta.js:52-57 | a pointer move changes only an element's geometry, never its sessions, outline or style (resize part: ta.js:83-90) |
| `Editor.Released` | ta.js:59-61 | a release ends both sessions and changes nothing else (resize part: ta.js:92-94) |
| `Editor.Canvas.constructor` | ta.js:8 | the page starts with no elements and no active element |
| `Editor.Canvas.Deselect` | ta.js:141-143 | deselecting removes one element's outline and changes nothing else |
| `Editor.Canvas.UpdateControlValues` | ta.js:145-149 | the panel and the completion flag are those `ControlValues` gives for the style |
| `Editor.Canvas.Select` | ta.js:132-139 | afterwards the element is active and the only highlighted one, the previous one has lost its outline, nothing else changed, and the panel is the read-back of its style |
| `Editor.Canvas.AddText` | ta.js:12-33 | a new element with idle sessions and the panel's style is appended and becomes the only highlighted, active element; with a stable panel the read-back completes and leaves the panel unchanged |
| `Editor.Canvas.PressElement` | ta.js:43-50 | a press on the text node starts a drag of that element and selects it; a press on any other target changes nothing |
| `Editor.Canvas.PressResizeHandle` | ta.js:73-81 | a press on the handle starts a resize of that element from the pointer position and the laid-out size read at the press, selects it, and starts no drag |
| `Editor.Canvas.PointerMove` | ta.js:52-57 | every element is moved through its own sessions; selection and panel are unchanged (resize part: ta.js:83-90) |
| `Editor.Canvas.PointerUp` | ta.js:59-61 | every element's sessions end, unconditionally (resize part: ta.js:92-94) |
| `Editor.Canvas.ClickCanvas` | ta.js:161-168 | a click on the bare canvas leaves no active and no highlighted element; a click on any other target changes nothing |
| `Editor.Canvas.UpdateActiveElementStyle` | ta.js:174-179 | the active element's text style is overwritten from the panel; with no active element nothing changes; no other element changes |
| `Editor.Canvas.EditControls` | ta.js:170-172 | an edit to an input sets the panel and restyles the active element only |

## Left out

- Rotation (ta.js:97-130): it uses `Math.atan2` and the fractional bounding
  box, which is floating-point arithmetic. The release of a rotation and the
  rotate handle's press are not modelled.
- Random placement (ta.js:20-21): the left and top of a new element are
  parameters of `AddText`. The range `Math.random` draws them from is not
  stated.
- DOM construction and querying, `innerHTML`, `focus()`, `preventDefault`,
  listener registration (ta.js:2-6, 10, 13-19, 23, 26, 31, 39-41, 54, 69-71,
  85, 170-172): browser plumbing.
- `stopPropagation` (ta.js:80): the handle press is modelled as never
  reaching the element. When the read-back throws, the call is skipped. The
  press then reaches the element, but its target is not the text node, so
  no drag starts either way.
- The document-level listeners added for every element are never removed.
  This listener growth is resource behaviour and is not modelled.
- Browser validation of style values: the browser refuses a negative or
  empty font size (ta.js:183) and a negative `width` or `height`
  (ta.js:88-89), and keeps the old value. The model stores what is written,
  so `ResizeMove` keeps a negative size.
- `Editor.Canvas.PressElement`: a press whose target is a child of the
  text node does not start a drag. The model takes that decision as the
  `onText` parameter.
- Geometry is whole pixels. The model equates the `offsetLeft`/`offsetTop`
  and `offsetWidth`/`offsetHeight` read at a press with the `left`/`top`
  and `width`/`height` written by moves. Borders, padding, box sizing and
  fractional pointer coordinates are not modelled. Before its first resize
  move, an element's stored width and height stay the size given at
  creation and do not follow text or font changes. The resize press does
  not use them: it takes the current laid-out size as parameters.
- `Colour.Hex`: a channel is read as an exact integer. JavaScript's
  `parseInt` rounds a channel of 2^53 or more to a double, and that rounding
  is not modelled. A channel of 309 or more digits parses to `Infinity`,
  for which `hex` gives `"ty"` (the end of `"Infinity"`). The model gives
  two hexadecimal digits there instead.
- The browser's conversion of a colour to `rgb(r, g, b)` is not applied by
  the `Canvas` methods. It appears only in the lemmas that show it does not
  change what the panel shows.
