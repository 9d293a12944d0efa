# Selection logic of the Selectbox and Textfield widgets

This project models, in Dafny, the keyboard and pointer selection logic of
the two list widgets of a small React widget toolkit, separated from their
rendering and animation:

- **Selectbox** (custom, non-native variant): the text shown in the trigger,
  which rows are marked active, the selection reducer (single mode reports
  the chosen value and toggles the overlay; multi mode toggles the value in
  a copy of the selection), the `{open, selIndex}` state driven by the
  trigger, an outside mousedown, Escape, Enter and Up/Down, and the clamped
  Up/Down stepping.
- **Textfield** autocomplete: the case-insensitive candidate filter gated by
  `autocompleteFrom` (default 3), the `{populated, list, open, selIndex}`
  state driven by input, focus, blur, row clicks and the keyboard, the
  wrap-around highlight cursor, and Enter handling.
- **Both**: the "is the active row outside the list container?" test that
  decides whether to scroll.

Layout, one module per file:

| file | module | contents |
|---|---|---|
| common.dfy | `Common` | `Option` (undefined/null), `Outcome` (a handler ends normally or by a `TypeError`) |
| js_array.dfy | `JsArray` | `Array.prototype.filter` and its laws, `Array.prototype.findIndex` |
| js_string.dfy | `JsString` | `includes` / `indexOf(..) > -1`, `toLowerCase`, `trim` |
| list_scroll.dfy | `ListScroll` | the row-outside test and the scroll each widget requests |
| selectbox.dfy | `Selectbox` | display value, active rows, toggle, clamped step, outside click; class `Widget` with one method per handler |
| textfield.dfy | `Textfield` | candidate filter, autocomplete effect, wrap-around cursor; class `Widget` with one method per handler |

Modelling choices:

- Each widget instance is a class whose fields are its state record. Every
  `setState` call assigns exactly the fields it names and leaves the others
  alone. This is **assumed** of `createState` (src/utils/createState is not
  part of this model). Each handler is assumed to see the state left by the
  previous event.
- Props are a datatype passed to every handler, because a handler closes
  over the props of the render that created it.
- The host callbacks become recorded outputs: `Selectbox.Widget.emitted` lists
  every `onSelect` argument, `Textfield.Widget.inputs` every `onInput` argument,
  and `Textfield.Widget.enters` counts `onEnter` calls. `Textfield.Props.hasOnEnter`
  says whether `onEnter` is given.
- A JavaScript `TypeError` inside a handler returns `Outcome.TypeError` and
  leaves the state and the recorded outputs unchanged. This happens when
  `options[k]` is `undefined`, which the code does not guard against.
  Examples: Up in single mode with nothing selected, or Enter in multi mode
  with a highlight beyond the option list.
- Option values are `string | number` with integer numbers. `===` between a
  value and the `selection` prop is true only for a scalar selection equal to
  the value. The code's truthiness test `multiple && selection` is modelled
  exactly: `0` and `""` are falsy, every array is truthy.

Behaviour of the code that is easy to misread:

- Selectbox Up/Down clamp at both ends and do not wrap. In single mode they
  change the committed selection directly, through `onSelect`.
- Selectbox Enter commits the highlighted row only in multi mode with the
  overlay open. In every other case it toggles the overlay.
- Outside-click detection is a substring test for "Selectbox" in the clicked
  element's class, not a containment test. `Selectbox.MarkerCountsAsInside`
  shows that any class containing the marker counts as inside.
- A too-short Textfield query only closes the overlay. It does not clear the
  list. A query with no matches also keeps the list and the highlight.
- Arrow keys over an empty Textfield list change nothing. They do not set
  the cursor to -1.
- In multi mode, choosing `1` on `[1]` reports `[]`, but choosing `1` on
  `[1, 2]` reports `[2]`. So choosing 2 and then 1, starting from `[1]`, ends
  with `[]` reported only if the host does not pass `[1, 2]` back in between
  (`Selectbox.ScenarioMultipleToggle`). Starting from `[]`, choosing 2 reports
  `[2]`, and choosing 1 then reports `[1]`, or `[2, 1]` if the host passed
  `[2]` back (`Selectbox.ScenarioMultipleFromEmpty`).
- Over a fixed, non-empty option list the Selectbox highlight stays in
  `[-1, |options| - 1]`. With an empty list, a multi-mode Down sets it to 0.
  A following Enter then throws, and the model returns `TypeError`.

## Model

| member | source | states |
|---|---|---|
| JsString.IsWhiteSpace | src/components/Textfield/index.tsx:120 | the characters `trim` removes: ECMAScript WhiteSpace and LineTerminator (tab, vertical tab, form feed, space, no-break space, the byte order mark, every space separator, line feed, carriage return, U+2028, U+2029) |
| JsString.TrimStart | src/components/Textfield/index.tsx:120 | the leading half of `trim`: never longer than its input; characterised by `TrimStartDropsWhiteSpace` |
| JsString.TrimEnd | src/components/Textfield/index.tsx:120 | the trailing half of `trim`: never longer than its input; characterised by `TrimEndDropsWhiteSpace` |
| JsString.Includes | src/components/Selectbox/index.tsx:135 | `s.includes(sub)`, the same test as `s.indexOf(sub) > -1`: `sub` is a prefix of `s` or of one of its tails; its meaning is stated by `IncludesIff` |
| JsString.IncludesIff | src/components/Selectbox/index.tsx:135 | `includes` / `indexOf(..) > -1` hold exactly when the substring occurs at some position |
| JsString.LowerChar | src/components/Textfield/index.tsx:120 | an upper-case letter (A-Z, or a Latin-1 capital U+00C0-U+00DE other than U+00D7) becomes the small letter 32 code points on, which is no longer upper case; every other character is kept |
| JsString.ToLowerCase | src/components/Textfield/index.tsx:120 | lower-casing maps every character and keeps the length |
| JsString.ToLowerCaseAppend | src/components/Textfield/index.tsx:120 | lower-casing a concatenation lower-cases each part |
| JsString.TrimStartDropsWhiteSpace | src/components/Textfield/index.tsx:120 | the leading part `trim` drops is all white space and the rest starts with a non-white character |
| JsString.TrimEndDropsWhiteSpace | src/components/Textfield/index.tsx:120 | the trailing part `trim` drops is all white space and the rest ends with a non-white character |
| JsString.Trim | src/components/Textfield/index.tsx:120 | the trimmed text neither starts nor ends with white space and is no longer than the input |
| JsString.TrimIsInnerBlock | src/components/Textfield/index.tsx:120 | what `trim` keeps is a contiguous block of the input with only white space around it |
| JsString.TrimIdempotent | src/components/Textfield/index.tsx:120 | trimming twice is trimming once |
| ListScroll.RowOutside | src/components/Selectbox/index.tsx:210 | the scroll-needed test: the row's top is above the container's top or its bottom below the container's bottom, the same in both widgets (src/components/Textfield/index.tsx:172); its containment reading is the second `ensures` of the two functions below |
| ListScroll.SelectboxScroll | src/components/Selectbox/index.tsx:210-213 | the Selectbox scrolls to the row's `offsetTop` exactly when the row is not contained in the container, else it requests nothing |
| ListScroll.TextfieldScroll | src/components/Textfield/index.tsx:172-173 | the Textfield calls `scrollIntoView(up)` exactly when the row is not contained in the container, else it requests nothing |
| ListScroll.ScrollSettles | src/components/Selectbox/index.tsx:210-213 | once the requested scroll has been applied to a row that fits, asking again requests nothing (both widgets) |
| Selectbox.Truthy | src/components/Selectbox/index.tsx:101 | JavaScript truthiness of `selection` in `multiple && selection` (also at 140 and 322): undefined, 0 and "" are falsy, every array is truthy |
| Selectbox.IsSelection | src/components/Selectbox/index.tsx:106 | `option.value === selection` (also at 190 and 326): only a scalar selection equal to the value |
| Selectbox.DisplayValue | src/components/Selectbox/index.tsx:98-108 | the trigger text: in multi mode with a selection, the labels of the selected options joined by ", " or null; otherwise the label of the first option `===` the selection, or null; its meaning is stated by the `Display*` lemmas below |
| Selectbox.IsActive | src/components/Selectbox/index.tsx:320-327 | a row is active when its value is in the multi-mode selection, and otherwise when it `===` the selection; `DisplayNullIffNoActiveRow` ties it to the display value |
| Selectbox.InSelection | src/components/Selectbox/index.tsx:103 | the callback `option => selection.includes(option.value)` |
| Selectbox.Selected | src/components/Selectbox/index.tsx:103 | the filtered options are exactly the options whose value is in the selection |
| Selectbox.SelectedKeepsOptionOrder | src/components/Selectbox/index.tsx:103 | the filter keeps the option list's order (it distributes over concatenation) |
| Selectbox.SelectedIgnoresSelectionOrder | src/components/Selectbox/index.tsx:103 | the filtered options depend only on the set of selected values, not on their order |
| Selectbox.Labels | src/components/Selectbox/index.tsx:104 | `selected.map(sel => sel.label)`: one label per option, in order |
| Selectbox.Join | src/components/Selectbox/index.tsx:104 | `parts.join(sep)`: the parts with `sep` between neighbours; characterised by `JoinSnoc` |
| Selectbox.JoinSnoc | src/components/Selectbox/index.tsx:104 | joining one more part onto a non-empty list appends the separator and that part |
| Selectbox.FindOptionIndex | src/components/Selectbox/index.tsx:190 | `findIndex` with `option.value === selection`: the index of the first option whose value `===` the selection, and -1 exactly when there is none |
| Selectbox.DisplayNullIffNoActiveRow | src/components/Selectbox/index.tsx:98-108 | in both modes the display value is null exactly when no row is active |
| Selectbox.DisplayValueMultiple | src/components/Selectbox/index.tsx:101-104 | multi mode with a selection: the labels of exactly the active rows, in option order, joined by ", ", or null when there are none |
| Selectbox.DisplayIgnoresSelectionOrder | src/components/Selectbox/index.tsx:101-104 | reordering the selected values does not change the multi-mode display value |
| Selectbox.DisplayValueSingle | src/components/Selectbox/index.tsx:105-107 | otherwise the display value is the label of the first active row, and is set exactly when such a row exists |
| Selectbox.ScenarioSingleDisplay | src/components/Selectbox/index.tsx:105-107 | options A=1, B=2 with selection 1 show "A" |
| Selectbox.ScenarioMultipleDisplay | src/components/Selectbox/index.tsx:101-104 | multi mode with selection [2, 1] shows "A, B" |
| Selectbox.IndexOf | src/components/Selectbox/index.tsx:143 | `findIndex` with `sel => value === sel` on the selection: the first position of the value, -1 exactly when it is absent |
| Selectbox.Toggle | src/components/Selectbox/index.tsx:142-144 | the multi-mode toggle: the first occurrence of the value is removed, or the value is appended when absent; tied to the code by `ToggleIsSpliceOrPush` |
| Selectbox.ToggleIsSpliceOrPush | src/components/Selectbox/index.tsx:142-144 | the toggle splices out the element at `findIndex`, or pushes the value when the index is -1 |
| Selectbox.ToggleMultiset | src/components/Selectbox/index.tsx:142-144 | the toggle removes one copy of a present value or adds one copy of an absent one, and every other value keeps its count |
| Selectbox.ToggleAbsent | src/components/Selectbox/index.tsx:144 | an absent value is appended after the untouched selection |
| Selectbox.ToggleTwiceRestoresAbsent | src/components/Selectbox/index.tsx:142-144 | toggling an absent value twice restores the exact sequence |
| Selectbox.ToggleTwiceRestoresMembership | src/components/Selectbox/index.tsx:142-144 | toggling a value that occurs at most once twice restores which values are selected |
| Selectbox.ToggleFlipsMembership | src/components/Selectbox/index.tsx:142-144 | on a selection without repeats, the toggle flips the value's membership, keeps all other memberships and creates no repeats |
| Selectbox.MultiSelect | src/components/Selectbox/index.tsx:139-149 | the multi-mode report: `[value]` without a selection, otherwise the toggled copy (appended when absent, one copy removed when present) |
| Selectbox.ScenarioMultipleFromEmpty | src/components/Selectbox/index.tsx:139-149 | on [], choosing 2 reports [2] and choosing 1 reports [1]; on [2], choosing 1 reports [2, 1] |
| Selectbox.ScenarioMultipleToggle | src/components/Selectbox/index.tsx:139-149 | on [1], choosing 2 reports [1, 2] and choosing 1 reports []; on [1, 2], choosing 1 reports [2] |
| Selectbox.ClampedStep | src/components/Selectbox/index.tsx:193-197 | Down moves one row forward and Up one row back, except at the ends, where the index stays (no wrap); a row index stays a row index |
| Selectbox.ClampedStepsSaturate | src/components/Selectbox/index.tsx:193-197 | k Downs reach min(i + k, n - 1) and k Ups reach max(i - k, 0) |
| Selectbox.ChangeSelectIndex | src/components/Selectbox/index.tsx:180-197 | the index `handleChangeSelect` moves to: in multi mode 0 from no highlight, otherwise a clamped step from the highlight; in single mode a clamped step from the selected option's index; its range is stated by `ChangeSelectInRange` |
| Selectbox.ChangeSelectInRange | src/components/Selectbox/index.tsx:180-198 | over a non-empty list the multi-mode step always lands on a row; the single-mode step does exactly when it is Down or an option is selected |
| Selectbox.IsOutsideClick | src/components/Selectbox/index.tsx:135 | a mousedown is outside when the target's class does not contain "Selectbox"; characterised by the two lemmas below |
| Selectbox.MarkerCountsAsInside | src/components/Selectbox/index.tsx:135 | a mousedown on any element whose class contains "Selectbox" is not an outside click |
| Selectbox.NoMarkerIsOutside | src/components/Selectbox/index.tsx:135 | a class that nowhere contains "Selectbox" is an outside click |
| Selectbox.Widget.CursorIn | src/components/Selectbox/index.tsx:111-114 | the highlight-range invariant: the highlight is -1 (its initial value) or one of the `n` rows; `HandleKeyDown` keeps it over a fixed non-empty list, so Enter's `options[selIndex]` at 163 and the step from `curIndex = selIndex` at 186 stay on the rows |
| Selectbox.Widget.constructor | src/components/Selectbox/index.tsx:111-114 | the instance starts closed, with no highlight and nothing reported |
| Selectbox.Widget.ToggleOpen | src/components/Selectbox/index.tsx:129-131 | flips `open`, clears the highlight, reports nothing |
| Selectbox.Widget.HandleClickOutside | src/components/Selectbox/index.tsx:133-136 | an outside mousedown closes an open overlay and clears the highlight; anything else changes nothing |
| Selectbox.Widget.HandleSelect | src/components/Selectbox/index.tsx:138-154 | multi mode reports the toggled selection and keeps `{open, selIndex}`; single mode reports the value, flips `open` and clears the highlight |
| Selectbox.Widget.HandleChangeSelect | src/components/Selectbox/index.tsx:180-200 | multi mode moves the highlight, going from -1 to 0 and otherwise by a clamped step; single mode reports the option at the clamped step from the selected index, or throws when that is not a row |
| Selectbox.Widget.HandleKeyDown | src/components/Selectbox/index.tsx:156-171 | Escape always closes and clears the highlight; Enter commits `options[selIndex]` only when multi, open and highlighted, and otherwise toggles; Up/Down open a closed overlay without moving the highlight and step an open one; other keys change nothing; over a fixed non-empty list the highlight stays in range and multi mode never throws |
| Textfield.MinQueryLength | src/components/Textfield/index.tsx:249 | `autocompleteFrom` defaults to 3 |
| Textfield.Query | src/components/Textfield/index.tsx:120 | the query `val.toLowerCase().trim()` |
| Textfield.QueryIgnoresCase | src/components/Textfield/index.tsx:120 | the query `val.toLowerCase().trim()` does not depend on the case of the text |
| Textfield.Matches | src/components/Textfield/index.tsx:120 | the callback `v => v.toLowerCase().includes(query)` |
| JsArray.FindIndex | src/components/Selectbox/index.tsx:190 | `Array.prototype.findIndex`: the first position whose element the callback accepts, and -1 exactly when it accepts none (also used at 143) |
| JsArray.Filter | src/components/Textfield/index.tsx:120 | `Array.prototype.filter`: never longer than its input; characterised by the `Filter*` lemmas below |
| JsArray.FilterMembers | src/components/Textfield/index.tsx:120 | `filter` keeps exactly the elements its callback accepts |
| JsArray.FilterKeepsOrder | src/components/Textfield/index.tsx:120 | `filter` keeps the order of the elements (it distributes over concatenation) |
| JsArray.FilterIdempotent | src/components/Textfield/index.tsx:120 | filtering the result again with the same callback changes nothing |
| JsArray.FilterAgreeing | src/components/Textfield/index.tsx:120 | two callbacks that agree on every element give the same result |
| Textfield.MatcherOf | src/components/Textfield/index.tsx:120 | the callback `v => v.toLowerCase().includes(val.toLowerCase().trim())` |
| Textfield.Suggestions | src/components/Textfield/index.tsx:120 | `autocomplete.filter(...)` with the match callback; characterised by `SuggestionsAreMatches` and the `Filter*` lemmas |
| Textfield.SuggestionsAreMatches | src/components/Textfield/index.tsx:120 | the suggestions are exactly the candidates whose lower-case form contains the query |
| Textfield.SuggestionsIgnoreCase | src/components/Textfield/index.tsx:120 | lower-casing the typed text does not change the suggestions |
| Textfield.Overlay.CursorInRange | src/components/Textfield/index.tsx:121 | the cursor invariant: the highlight is -1 or a row of the list; `Autocomplete` preserves it |
| Textfield.Autocomplete | src/components/Textfield/index.tsx:117-126 | the autocomplete keeps the highlight within the list |
| Textfield.AutocompleteOpensIffMatches | src/components/Textfield/index.tsx:118-124 | with candidates, the overlay is open afterwards exactly when the untrimmed text is long enough and matches something; it then lists the matches with no highlight, and otherwise keeps its list and highlight |
| Textfield.AutocompleteOffChangesNothing | src/components/Textfield/index.tsx:118 | without candidates the autocomplete changes nothing |
| Textfield.ScenarioAutocomplete | src/components/Textfield/index.tsx:117-126 | candidates red/green/blue with the default threshold: "re" keeps the overlay closed, "red" opens it on ["red"] |
| Textfield.ScenarioLatinCapital | src/components/Textfield/index.tsx:120 | the candidate "Österreich" matches the typed text "öster" |
| Textfield.NextDown | src/components/Textfield/index.tsx:145 | ArrowDown maps -1 to 0 and row i to (i + 1) mod n |
| Textfield.NextUp | src/components/Textfield/index.tsx:138-139 | ArrowUp maps -1 to n - 1 and row i to (i - 1) mod n |
| Textfield.UpDownInverse | src/components/Textfield/index.tsx:138-145 | Up undoes Down and Down undoes Up on every row |
| Textfield.DownsCycle | src/components/Textfield/index.tsx:145 | n consecutive Downs return to the starting row |
| Textfield.DownsFromNoHighlight | src/components/Textfield/index.tsx:145 | from -1 the k-th Down lands on row k - 1, so the first n Downs visit every row once, in order |
| Textfield.UpsFromNoHighlight | src/components/Textfield/index.tsx:138-139 | from -1 the k-th Up lands on row n - k, the reverse order |
| Textfield.UpsUndoDowns | src/components/Textfield/index.tsx:138-145 | k Ups undo k Downs from every row |
| Textfield.ScenarioWrapAround | src/components/Textfield/index.tsx:145 | over three rows, two Downs from -1 reach row 1 and two more wrap to row 0 |
| Textfield.Widget.Valid | src/components/Textfield/index.tsx:91-96 | the cursor invariant on the widget's state, stated once through `Overlay.CursorInRange`; every handler requires and keeps it |
| Textfield.Widget.constructor | src/components/Textfield/index.tsx:91-96 | the instance starts unfocused, closed, with an empty list and no highlight, so the cursor invariant holds |
| Textfield.Widget.HandleAutocomplete | src/components/Textfield/index.tsx:117-126 | applies the autocomplete to the overlay state, keeps the cursor invariant and calls back nothing |
| Textfield.Widget.HandleInput | src/components/Textfield/index.tsx:104-107 | runs the autocomplete on the raw text and passes that same raw text to `onInput` |
| Textfield.Widget.HandleFocus | src/components/Textfield/index.tsx:109-111 | sets `populated` and changes nothing else |
| Textfield.Widget.HandleBlur | src/components/Textfield/index.tsx:113-115 | clears `populated` and `open` and keeps the list and the highlight |
| Textfield.Widget.HandleSelect | src/components/Textfield/index.tsx:128-131 | passes the row's text to `onInput` and closes the overlay |
| Textfield.Widget.HandleKeyDown | src/components/Textfield/index.tsx:133-162 | over a non-empty list the arrows wrap the highlight, and Enter commits `list[selIndex]` and closes exactly when open and highlighted, otherwise calls `onEnter` if given; over an empty list only Enter acts, calling `onEnter`; the list never changes and the cursor invariant is kept |

## Left out

- Rendering: the JSX, the class-name strings built with `classnames`, the
  placeholder and label logic. These are presentation only.
- The animation (`AnimatedList`, `AnimatedListItem`, `PoseGroup`,
  react-pose/popmotion). It is an external engine with timed transitions.
  The code has no Opening/Closing states and no queue of pending opens, so
  the model has none either: `open` flips in one step.
- DOM measurement and scrolling: `getBoundingClientRect`, `childNodes`,
  `offsetTop`, `scroll`, `scrollIntoView`. Their results are parameters of
  the `ListScroll` functions. The `TypeError` that `handleListScroll` would
  raise for a highlight beyond the rendered rows is not modelled either.
- The refocus and `preventDefault` loop after every recognised key, and
  Escape's `stopPropagation` (src/components/Selectbox/index.tsx:172-177,
  160). These are DOM focus and event plumbing.
- The Textfield's `e.preventDefault()` after an arrow step and after an
  Enter that commits a row (src/components/Textfield/index.tsx:142, 148,
  153). Textfield.Widget.HandleKeyDown therefore does not say that an Enter
  which commits nothing keeps the key's default action (a form submit, for
  example) while a committing Enter cancels it.
- Registering and removing the document `mousedown` listener
  (src/components/Selectbox/index.tsx:121-126). This is React effect
  plumbing. Only the handler's decision is modelled. The clicked element's
  class is taken to be a string (an SVG element's `className` is not).
- The native `<select>` branch (src/components/Selectbox/index.tsx:220-264).
  It only renders, and its `onChange` passes on the raw string.
- Selectbox.WellFormed: multi mode with a truthy scalar `selection` is
  excluded. There the code would spread a string into its characters, or
  throw on a number's missing `includes`, which the component's typing does
  not intend.
- Option values are integers or strings. Fractional numbers, `NaN` and `-0`
  are not modelled.
- JsString.LowerChar, JsString.ToLowerCase: map only the ASCII letters A-Z
  and the Latin-1 capitals U+00C0-U+00DE (other than U+00D7). The rest of the Unicode case
  mapping (Greek, Cyrillic, the dotted capital I, length-changing mappings) is
  not modelled.
- Textfield.Widget.HandleAutocomplete, Textfield.Autocomplete,
  Textfield.AutocompleteOpensIffMatches: the length gate counts Unicode scalar
  values, not UTF-16 code units. A non-integer or `null` `autocompleteFrom`
  is not modelled.
- Selectbox.ToggleTwiceRestoresMembership: requires the toggled value to
  occur at most once. If the host passes a selection with repeats, each
  toggle removes only one copy.
- ListScroll.ScrollSettles, ListScroll.RowAfter: assume that scrolling to
  `offsetTop` brings the row's top to the container's top, that
  `scrollIntoView(true)` puts the row's top exactly on the container's top
  edge and `scrollIntoView(false)` its bottom exactly on the bottom edge, and
  that no outer element scrolls. The model ignores the browser clamping the
  scroll position at the end of the content.
- src/components/Button/index.tsx: styling glue and a DOM ripple. Its only
  logic is a three-line click gate.
- The enzyme tests for Dialog and Triangle. They only check that a render
  does not crash.
- The internals of `createState` (src/utils/createState is not part of this
  model). It is assumed to be a state cell with partial-merge updates.
