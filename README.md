# "Do you like me?" page — a Dafny model

The page asks for a first name, then asks "do you like me?" with two
buttons. The "Kinda" button dodges every approach. The "Yes" button shows a
congratulation panel with an "again" button and releases floating hearts.
A toggle switches dark mode. All of it lives in one browser script,
`script.js`. The model covers the logic in that script and leaves out the
DOM wiring, layout and audio:

- `names.dfy`, module `Names`: the name form's check. The value is trimmed,
  then tested against `^[A-Za-z\s]{5,20}$`. JavaScript's `trim` and `\s` use
  one white-space set. It is written out once, as the table `SpaceChars`
  looked up by `IsSpace`. `Trim` scans forward (`SkipSpaces`), then backward
  (`SkipSpacesBack`), and keeps the slice between the two stops. The counted repetition is a small matcher, `MatchCounted`,
  which is proved equal to "5 to 20 characters, all letters or white space".
- `escape.dfy`, module `Escape`: `escapeHtml` as a per-character rewrite,
  `EscapeHtml`. Its partner is `Unescape`, a decoder for the five entities.
  `SafeHtml` describes safe markup: no raw `<`, `>`, `"` or `'`, and every
  `&` starts an entity.
- `dodge.dfy`, module `Dodge`: the position arithmetic of `moveNoButton`.
  `getBoundingClientRect` reports fractional CSS pixels, so sizes are
  `real`. `Math.random()` is a parameter `r` with `0 <= r < 1`.
- `page.dfy`, module `Page`: the page state as a class `Page.Page`. It has
  the theme flag and icon, and the view (`Intro`, `Prompt`, `Celebrating`).
  It also has the error text, the greeting markup, the two buttons'
  `disabled` flags, the panel count, the hearts container and a
  millisecond clock. The handlers are its methods. `Valid()` is the display
  state machine's invariant.

The five listeners on the dodging button (mouseenter, focus, pointerover,
touchstart, click) all run the same move. Only touchstart and click cancel
the default action (`Dodge.React`).

Notes on how `script.js` behaves, which the model follows:
- The offset is drawn as `floor(r * (max + 1))` with
  `max = max(0, areaWidth - buttonWidth - 6)`. It is below `max + 1`, not at
  most `max` as the comment beside it says, so with fractional sizes the
  button can keep slightly less than the 6-pixel margin (see "## Findings").
- A name containing `<script>` never reaches the question. The check refuses
  it (`Names.MarkupRejected`), so escaping only ever sees letters and white
  space (`Page.WellFormedNameNeedsNoEscape`).
- The error text promises "5 letters". The pattern accepts 5 to 20 letters
  and white-space characters, inner spaces included. The model follows the
  pattern.

## Model

| member | source | states |
|---|---|---|
| `Names.SpaceCodesIff` | script.js:35-39 | a character is white space for `trim` and `\s` exactly when its code point is one of ECMAScript's white space or line terminator code points (both directions) |
| `Names.NotSpace` | script.js:38-39 | no visible ASCII character (`!` to `~`) is white space, so the letters and the markup characters never count as white space |
| `Names.SkipSpacesSpec` | script.js:35 | the forward scan skips only white space and stops at the first character that is not white space, or at the end |
| `Names.SkipSpacesBackSpec` | script.js:35 | the backward scan skips only white space and stops just after the last character that is not white space, or at its lower bound |
| `Names.SkipSpacesUnique` | script.js:35 | the forward scan's stop is the only index with those two properties |
| `Names.SkipSpacesBackUnique` | script.js:35 | the backward scan's stop is the only index with those two properties |
| `Names.TrimIsSlice` | script.js:35 | the trimmed value is a slice of the input with only white space on each side of it |
| `Names.TrimEnds` | script.js:35 | the trimmed value is empty or has no white space at either end |
| `Names.TrimEmptyIff` | script.js:35 | the value trims to empty exactly when it is all white space |
| `Names.TrimIdempotent` | script.js:35 | trimming twice equals trimming once |
| `Names.MatchCountedIff` | script.js:38-39 | the anchored counted class matches exactly when the length is within the bounds and every character is a letter or white space (both directions) |
| `Names.ValidateName` | script.js:35-43 | accepted exactly when the trimmed value has 5 to 20 characters, all ASCII letters or white space; the accepted name is the trimmed value; a refusal carries the fixed error text |
| `Names.BlankNameRejected` | script.js:35-40 | a value of nothing but white space is refused with the fixed error text |
| `Names.AcceptedNameWellFormed` | script.js:35-39 | an accepted name has 5 to 20 letters or white space and begins and ends with a letter |
| `Names.WellFormedNameIff` | script.js:35-39 | the well-formed names are exactly the values accepted unchanged, so an accepted name is accepted again as it is |
| `Names.PaddingIrrelevant` | script.js:35 | white space added around a value never changes the decision |
| `Names.ShortNameRejected` | script.js:37-40 | "Anna" (four letters) is refused |
| `Names.MarkupRejected` | script.js:38-40 | a trimmed value containing `&`, `<`, `>`, `"` or `'` is refused |
| `Escape.EscapeChar` | script.js:259 | one of the five special characters maps to an entity that starts with `&` and ends with `;`; every other character maps to itself alone |
| `Escape.EscapeHtml` | script.js:258-260 | the output is never shorter than the input |
| `Escape.EscapeConcat` | script.js:258-260 | escaping distributes over concatenation |
| `Escape.EscapeAt` | script.js:258-260 | each input character is replaced in place by its table entry, and the text around it is escaped independently |
| `Escape.EscapeIdentityIff` | script.js:258-260 | escaping leaves a string unchanged exactly when it holds none of the five special characters (both directions) |
| `Escape.EscapeIsSafe` | script.js:258-260 | the output is safe markup: no raw `<`, `>`, `"`, `'`, and every `&` starts one of the five entities |
| `Escape.UnescapeEscape` | script.js:258-260 | decoding the five entities recovers the original input |
| `Escape.EscapeUnescape` | script.js:258-260 | on safe markup, escaping the decoded text gives the markup back, so escaping is a bijection onto safe markup |
| `Dodge.MaxOffset` | script.js:149-150 | the room is never negative, is at least `area - button - 6`, and equals one of the two |
| `Dodge.RandomOffset` | script.js:153-154 | the drawn offset is a non-negative whole number below `max + 1` |
| `Dodge.RandomOffsetCovers` | script.js:153-154 | every whole number in `0 .. ceil(max)` is drawn for some random value |
| `Dodge.RandomOffsetWholeBound` | script.js:153-154 | for a whole-pixel `max` the draw stays within `0 .. max` |
| `Dodge.RandomOffsetOvershootIff` | script.js:153-154 | some draw exceeds `max` exactly when `max` has a fractional part |
| `Dodge.RandomOffsetOvershoots` | script.js:153 | with half a pixel of room, the random value 0.9 draws offset 1 |
| `Dodge.RandomOffsetStaysInArea` | script.js:149-154 | whenever the button fits with the margin, the draw as written still keeps it inside its area, with more than 5 of the 6 margin pixels |
| `Dodge.WholeOffset` | script.js:153-154 | the corrected draw lies in `0 .. floor(max)`, so never past `max` |
| `Dodge.WholeOffsetCovers` | script.js:153-154 | every whole number in `0 .. floor(max)` is drawn by the corrected draw for some random value |
| `Dodge.WholeOffsetAgrees` | script.js:153-154 | for whole-pixel room the corrected draw equals the draw as written |
| `Dodge.NewPosition` | script.js:144-158 | the new left and top offsets are non-negative whole numbers below `maxLeft + 1` and `maxTop + 1` |
| `Dodge.NewPositionInside` | script.js:149-158 | the button keeps more than 5 of the 6 margin pixels whenever it fits, and sits at 0 along an axis with no room beyond the margin |
| `Dodge.NewPositionOvershoots` | script.js:149-154 | area 100.5 px wide, button 94 px, random value 0.9: the button lands at left 1 and keeps only 5.5 margin pixels |
| `Dodge.MayStayPut` | script.js:153-165 | every position the draw can give, the current one included, is drawn for some random values, so the move may leave the button where it is; no nudge is performed |
| `Dodge.NoRoomNoMove` | script.js:149-158 | when the button does not fit with the margin on either axis, every approach puts it at (0, 0) |
| `Dodge.NewPositionIntended` | script.js:149-154 | the corrected move's offsets lie in `0 .. maxLeft` and `0 .. maxTop` |
| `Dodge.NewPositionIntendedInside` | script.js:149-154 | the corrected move keeps the full 6-pixel margin whenever the button fits, and gives (0, 0) with under one pixel of room on both axes |
| `Dodge.NewPositionIntendedAgrees` | script.js:149-154 | every corrected position is one the source can draw, and for whole-pixel room the two moves agree on every draw |
| `Dodge.React` | script.js:93-120 | each of the five listeners moves the button to a position the draw can give; exactly touchstart and click cancel the default action |
| `Dodge.ReactSameMove` | script.js:93-120 | the event that triggers the move never changes where the button goes |
| `Page.Batch` | script.js:214-228 | a batch has exactly `count` hearts; heart `i` is removed `1600 + 40*i` ms after the spawn; removal times strictly increase |
| `Page.Pending` | script.js:226-228 | the hearts still on the page at a time are exactly those whose removal time lies later, each as many times as before; every other heart is gone |
| `Page.PendingSubsequence` | script.js:226-228 | removing the due hearts keeps the remaining ones in the order they were appended |
| `Page.LastRemoval` | script.js:226-228 | the latest removal time bounds every heart's and is attained by one |
| `Page.PendingEmptyIff` | script.js:226-228 | no heart is left exactly from the latest removal time on, so every heart is eventually removed |
| `Page.BatchLastRemoval` | script.js:214-228 | a batch spawned at `now` is gone exactly at `now + 1600 + 40*(count - 1)` |
| `Page.WellFormedNameNeedsNoEscape` | script.js:59 | escaping a well-formed name for the question leaves it unchanged |
| `Page.Page.constructor` | script.js:9-27 | the page starts on the intro card with no error, no hearts and the markup's theme |
| `Page.Page.ToggleTheme` | script.js:23-27 | dark mode flips, the icon is the moon exactly in dark mode and the sun otherwise, and nothing else changes |
| `Page.ToggleTwice` | script.js:23-27 | two clicks restore the original mode, with the matching icon |
| `Page.Page.SubmitName` | script.js:32-48 | a refused name sets the fixed error text and returns focus, and the intro card stays; an accepted name clears the error and shows the question with the trimmed name and two enabled buttons; the display state invariant is kept |
| `Page.Page.ShowQuestionFor` | script.js:53-69 | the question is shown; the name markup equals the name and is safe markup; both buttons are enabled |
| `Page.Page.SpawnHearts` | script.js:210-230 | the hearts container gains exactly the batch: `count` hearts, heart `i` due for removal `1600 + 40*i` ms from now |
| `Page.Page.ClickYes` | script.js:173-205 | the first "yes" shows one panel, spawns 12 hearts and disables both buttons; later clicks change nothing |
| `Page.Page.ClickAgain` | script.js:199-204 | "again" appends 10 hearts and changes nothing else, so the buttons stay disabled |
| `Page.Page.Elapse` | script.js:225-228 | as time passes, exactly the hearts whose removal is due are removed; after 2040 ms none is left |
| `Page.Enter` | script.js:32-69 | a refused then an accepted submission end on the question with the trimmed name |
| `Page.YesThenAgain` | script.js:173-204 | "yes" twice then "again" twice: one panel, both buttons disabled, and the hearts are the 12 of the first batch followed by two batches of 10 |
| `Page.Celebrate` | script.js:173-228 | after that sequence, once `MaxHeartLife` has passed every heart is gone, while the panel stays and both buttons stay disabled |

## Findings

| source | as written | input that shows it | evidently intended | confidence | as-written member | corrected member |
|---|---|---|---|---|---|---|
| script.js:153-154 | the offset is `floor(r * (maxLeft + 1))`, yet the comment beside it gives the range as `0..maxLeft`; `maxLeft` is fractional whenever `areaWidth - buttonWidth - 6` is positive and not a whole number, which fractional CSS sizes often make it | `maxLeft = 0.5` (area 100.5 px wide, button 94 px) and `Math.random()` returning 0.9 give offset 1, half a pixel past `maxLeft`, leaving a 5.5-pixel margin | an offset in `0 .. floor(maxLeft)` that keeps the full 6-pixel margin | not executed; the arithmetic is certain, the visible effect under one pixel | `Dodge.RandomOffsetOvershoots` | `Dodge.WholeOffset` |

`Dodge.RandomOffsetOvershootIff` shows when the overshoot can happen: for
every fractional `maxLeft` and for no whole one. `Dodge.NewPosition` is the
move as written, and `Dodge.NewPositionOvershoots` shows the overshoot on a
button. `Dodge.NewPositionIntended` is the corrected move.
`Dodge.NewPositionIntendedAgrees` shows that the two moves agree on
whole-pixel geometry.

## Left out

- `playChime`: Web Audio calls, floating-point gain and frequency ramps, and
  the `try`/`catch` around a host constructor. There is no logic in it to
  verify. A failure there never affects the page state.
- Heart start coordinates, scale and rotation, and the `placeInitialButtons`
  percentages. These are floating-point layout on window and element sizes.
  A heart is modelled by its removal time only.
- `requestAnimationFrame` and the 220 ms scale/rotate pulse. The model
  commits the new position at once and keeps no transform.
- The `innerHTML` templates and the DOM lookups in `showQuestionFor`,
  `initButtons` and `respondYes`. The model keeps their effects: the view,
  the greeting, the panel count and the buttons' state.
- Host events: the form can only be submitted while the intro card is
  visible. Clicks reach "yes" only while it exists and is enabled, and
  "again" only once the panel exists. Elsewhere the handlers do nothing.
- Dodge.NewPosition: IEEE double rounding of `Math.random() * (max + 1)` is
  not modelled; the product is exact real arithmetic.
- Names.ValidateName: strings are sequences of Unicode scalar values, not
  UTF-16 code units. A character outside the Basic Multilingual Plane is
  never a letter or white space, so the decision is the same either way.
- `spawnHearts`'s default count of 8 is never used. Both call sites pass 12
  or 10.
- Page.Page.Elapse: the host fires each removal timer on its own. The model
  removes every heart that is due when the clock advances.
- Page.Page.ShowQuestionFor: the contract says the name markup equals the
  name and is safe. It does not say that the markup is `EscapeHtml(name)`:
  that step is in the body and in `Page.WellFormedNameNeedsNoEscape`.
