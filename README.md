# Keypad controller and PIN keypad of the ICT kiosk pages

This project models the accessibility layer of the kiosk's "type D" pages.
A physical remote with a headphone jack drives the page through key events.

## The keypad controller

The controller (`keyPadController.js`) keeps one `state` record. Its parts:

- **Focus registry.** An ordered list of focusable elements, built over the
  active modal or over the page.
- **Focus cursor.** `focusIdx` into that list.
- **Modal memory.** The element focused before a modal opened.
- **Volume.** A number from 0 to 100, in steps of 5.
- **Home key.** A two-press counter with a one-second timer.
- **Headphone flag.** Decides which keys reach a handler.

Around the record sit the session-storage keys the controller reads and
writes, and a text-to-speech session. The session can be resumed from the
last word boundary.

In the model:

- The controller is the class `KeyPadController.Controller`. Every key
  handler is a method that updates its fields in place.
- The environment's events are methods too: the speech engine's boundary
  and end callbacks, the Home key's timer, and other code showing a modal.
- The page is a sequence of element records in document order (`Dom.Elem`).
- The two registry rebuilds are functions over that sequence. They are
  proved to be the sorted page filter and the position-preserving modal
  merge.
- The speech session is a value (`SpeechSession.Speech`). Each step is a
  function from the old session to the new one.

## The PIN keypad

The keypad (`virtualKeyboard.js`) shows a 4x3 table of shuffled digits plus
a back cell and an empty cell. Clicks type into a row of password slots.

In the model:

- The shuffle works in place on an `array<int>`. The random choice is any
  `j` with `0 <= j <= i`.
- The slots are an `array<Slot>`, and the active slot is a cursor into it.
- `VirtualKeyboard.Keypad` holds the cursor, the `actualPassword` table and
  the visibility flags.

## Behaviour kept as the code has it

- A volume read back from session storage is a string. The next Up press
  concatenates (`"50" + 5` is `"505"`), and `Math.min` then gives 100
  (`RaisedVolume` with `isText`). Below 10 the jump is upwards but short of
  the cap: after Down to 5 and a reload, one Up turns `"5"` into `"55"`, so
  the volume goes from 5 to 55. The `!==` test against the string always
  differs, so the first press after `init` always stores and may restart
  speech.
- The boundary and end callbacks belong to each utterance and keep its
  `startIndex`. A later `speakFrom` cancels the utterance but leaves its
  callbacks in place. If the engine still delivers them, a late boundary
  stores the cancelled utterance's position
  (`SpeechSession.StaleBoundaryWritesOwnStart`). A late end stores offset 0
  and "null" while the new utterance speaks, so the next volume key restarts
  from the top (`SpeechSession.StaleEndRestartsFromTop`). Whether an engine
  delivers them after `cancel()` is up to the engine; the model allows it.
- `init` clears the key `"lastCharIndex "`, with a trailing space. The real
  offset keeps its value (`Init` leaves `speech.offset` alone). `init` also
  stores the JavaScript value `null`, which session storage keeps as the
  truthy string `"null"`.
- Tab backwards from the unset cursor (-1) lands on `n - 2`
  (`KeyPadRules.BackFromUnset`).
- Enter with the cursor at -1 activates the last element of the registry.
  jQuery's `.eq(-1)` counts from the end (`KeyPadRules.EqIndex`).
- `closeModal` adds the `focused` class to the remembered element without
  removing the markers already there. It does not clear `$prevFocus`.
- `closeModal` always sets `$currentModal` to null.
- `handleHeadphoneOut` keeps `$currentModal` when no modal is active.
- The first Home press only arms the timer.
- `handleKeyInput("Tab")` calls the Tab handler without an event. Reading
  `e.shiftKey` then throws before anything changes.
- A digit click writes the digit itself, while completion looks for `'*'`.
  Masking happens in a listener outside this file, which the model takes as
  the parameter `masked`.
- The page filter drops only `tabindex="-1"`. An element with tabindex -2
  stays in the page registry. The modal rebuild keeps every negative
  tabindex in place.

## Model

| member | source | states |
|---|---|---|
| Dom.SortByTabIndexSpec | resources/ict/typeD/js/keyPadController.js:129-130 | the tabindex sort returns a permutation of its input in ascending tabindex order |
| Dom.InsertKeepsSorted | resources/ict/typeD/js/keyPadController.js:129-130 | inserting an element into a tabindex-sorted list keeps it sorted |
| Dom.InsertMultiset | resources/ict/typeD/js/keyPadController.js:129-130 | inserting adds exactly that element and loses none |
| Dom.InsertWithTabIndex | resources/ict/typeD/js/keyPadController.js:129-130 | an inserted element goes in front of every element with its tabindex, and their order is kept |
| Dom.SortByTabIndexStable | resources/ict/typeD/js/keyPadController.js:129-130 | the sort is stable: elements with equal tabindex keep their relative order |
| Dom.KeepMembers | resources/ict/typeD/js/keyPadController.js:136-138 | a jQuery filter keeps exactly the elements that pass it |
| Dom.KeepCount | resources/ict/typeD/js/keyPadController.js:136-138 | a filter keeps every copy of an element that passes it and none of one that does not |
| Dom.KeepNone | resources/ict/typeD/js/keyPadController.js:136-138 | a filter no element passes keeps nothing |
| Dom.PageRegistryArrangement | resources/ict/typeD/js/keyPadController.js:136-139 | the page registry holds exactly the `[tabindex]` elements whose tabindex is not -1 and that lie in no modal, each as often as in the document, in ascending tabindex order, with equal tabindex values in document order |
| Dom.InterleaveShape | resources/ict/typeD/js/keyPadController.js:131-132 | the map with the counter `p` keeps the length, and every element with a negative tabindex keeps its position |
| Dom.InterleaveKeepsSorted | resources/ict/typeD/js/keyPadController.js:131-132 | read left to right, the non-negative slots of the result are exactly the sorted list |
| Dom.InterleaveMultiset | resources/ict/typeD/js/keyPadController.js:131-132 | the result consists of the negative elements plus the sorted ones, nothing lost or duplicated |
| Dom.PartsMultiset | resources/ict/typeD/js/keyPadController.js:128-129 | the non-negative and the negative elements together make up the modal's list |
| Dom.NonNegativePartMembers | resources/ict/typeD/js/keyPadController.js:129 | the `tabIndex >= 0` filter keeps only non-negative elements |
| Dom.SortedStaysNonNegative | resources/ict/typeD/js/keyPadController.js:129-130 | sorting the non-negative elements yields only non-negative elements |
| Dom.MergeByPosition | resources/ict/typeD/js/keyPadController.js:131-132 | the loop with the mutable counter `p` computes the position-preserving merge |
| Dom.ModalRegistryArrangement | resources/ict/typeD/js/keyPadController.js:127-133 | the modal registry is a permutation of the modal's `[tabindex]` list with the same length; negative elements keep their positions; the other positions hold the others in ascending tabindex order, equal tabindex values in document order |
| Dom.ModalRegistryMembers | resources/ict/typeD/js/keyPadController.js:128 | the modal registry holds exactly the `[tabindex]` elements inside the modal, each as often as in the document |
| Dom.WholePageContainer | resources/ict/typeD/js/keyPadController.js:298-305 | opened on a container holding the whole page (`$("body")`), the registry holds every `[tabindex]` element and no marked element is saved |
| Dom.NodeIndex | resources/ict/typeD/js/keyPadController.js:204 | jQuery `.index`: the first position of the element, or -1 exactly when it is absent |
| Dom.FindById | resources/ict/typeD/js/keyPadController.js:193-197 | `$('#' + id)` for a plain id finds the first element of the page, in document order, with that id, or none exists |
| Dom.FocusedOutside | resources/ict/typeD/js/keyPadController.js:299 | the saved focus holds exactly the marked elements that are not inside the modal |
| KeyPadRules.JsRem | resources/ict/typeD/js/keyPadController.js:348-350 | JavaScript `%`: the dividend is `n` times its quotient truncated toward zero plus the remainder, which lies in `[0, n)` for a non-negative dividend and in `(-n, 0]` for a negative one |
| KeyPadRules.EqIndex | resources/ict/typeD/js/keyPadController.js:365-370 | jQuery `.eq`: an index in range selects itself, a negative one counts from the end, anything else selects nothing |
| KeyPadRules.JsSlice | resources/ict/typeD/js/keyPadController.js:239 | `slice(k)` is a suffix of the text: from a start in range it has the length that remains, a negative start takes the last `-k` characters (all of them when `-k` exceeds the length), and a start past the end gives "" |
| KeyPadRules.NextIndex | resources/ict/typeD/js/keyPadController.js:348-350 | from any cursor at or above -1, the Tab target lies in `[0, n)` |
| KeyPadRules.ModSmall | resources/ict/typeD/js/keyPadController.js:348-350 | the remainder of a dividend in `0..2n` takes off at most two multiples of `n` |
| KeyPadRules.NextIndexSteps | resources/ict/typeD/js/keyPadController.js:348-350 | from a valid cursor, Tab moves to the neighbour and wraps from the last element to the first and back |
| KeyPadRules.BackFromUnset | resources/ict/typeD/js/keyPadController.js:348-350 | backwards from the unset cursor, Tab lands on `n - 2` |
| KeyPadRules.TabForwardBack | resources/ict/typeD/js/keyPadController.js:345-354 | forward then back, or back then forward, returns to the start index |
| KeyPadRules.ForwardCompose | resources/ict/typeD/js/keyPadController.js:345-354 | `a + b` forward presses equal `a` presses followed by `b` |
| KeyPadRules.ForwardUpToEnd | resources/ict/typeD/js/keyPadController.js:345-354 | below the end of the registry, `k` forward presses add `k` |
| KeyPadRules.ForwardCycles | resources/ict/typeD/js/keyPadController.js:345-354 | `n` forward presses on an `n`-element registry come back to the start |
| KeyPadRules.RaisedVolume | resources/ict/typeD/js/keyPadController.js:388 | Up stays within 0..100 and never lowers the volume; a numeric volume rises by 5 or stops at 100; a stored string `v` becomes `10 * v + 5` when that is below 100 (from "5" to 55) and 100 otherwise |
| KeyPadRules.LoweredVolume | resources/ict/typeD/js/keyPadController.js:412 | Down stays within 0..v and falls by 5 or stops at 0 |
| KeyPadRules.RaisedTimesClamps | resources/ict/typeD/js/keyPadController.js:387-391 | `k` Up presses give `min(v + 5k, 100)` |
| KeyPadRules.LoweredTimesClamps | resources/ict/typeD/js/keyPadController.js:411-415 | `k` Down presses give `max(v - 5k, 0)` |
| KeyPadRules.ElevenUpsFromFifty | resources/ict/typeD/js/keyPadController.js:387-391 | from the default 50, eleven Up presses reach the maximum |
| KeyPadRules.HandlerOf | resources/ict/typeD/js/keyPadController.js:516-575 | F15, F16 and Enter map to the headphone-in, headphone-out and activate handlers and to nothing else |
| KeyPadRules.RouteKey | resources/ict/typeD/js/keyPadController.js:582-622 | disconnected outside test mode, a key reaches a handler iff it is F15 or F16; Enter is dropped without preventing the default, and the other controller keys prevent it; otherwise a key reaches a handler iff the table has one, and a key without a handler keeps its browser default; an empty key does nothing |
| KeyPadRules.EnterAction | resources/ict/typeD/js/keyPadController.js:372-380 | Enter clicks a `key` element or a clickable tag, opens the picker of a date input, and otherwise does nothing, each iff its condition holds |
| KeyPadRules.SpokenText | resources/ict/typeD/js/keyPadController.js:210-213 | the spoken text is the aria-label when it is non-empty, otherwise the element's text |
| SpeechSession.Cancel | resources/ict/typeD/js/keyPadController.js:231 | cancelling stops the engine and keeps every stored key |
| SpeechSession.SpeakFrom | resources/ict/typeD/js/keyPadController.js:223-262 | without an engine or headphone nothing changes; an empty text only cancels; otherwise text and offset are stored, exactly `text.slice(start)` is spoken as a new utterance that is now the engine's, and that utterance keeps `start` for its callbacks; the session stays consistent |
| SpeechSession.Boundary | resources/ict/typeD/js/keyPadController.js:249-255 | a word or sentence boundary of any created utterance, live or cancelled, or any of its events with a character index, sets the offset to that utterance's own start plus the index; other events change nothing; the engine's state is never touched |
| SpeechSession.End | resources/ict/typeD/js/keyPadController.js:257-262 | the end callback of any created utterance resets the offset to 0, stores "null" as the utterance and keeps the text; the engine stops only when that utterance is the one speaking |
| SpeechSession.Resume | resources/ict/typeD/js/keyPadController.js:393-402 | a restart speaks the stored text from the stored offset |
| SpeechSession.ResumeReadsRest | resources/ict/typeD/js/keyPadController.js:223-255 | speaking a text, reaching a boundary at character `c`, and restarting reads exactly the rest of the text |
| SpeechSession.EndedStaysMarked | resources/ict/typeD/js/keyPadController.js:257-262 | after the speaking utterance's end callback the stored "null" is still truthy, and only the engine's state blocks a restart |
| SpeechSession.StaleBoundaryWritesOwnStart | resources/ict/typeD/js/keyPadController.js:229-255 | a late boundary at `c` of an utterance cancelled by a restart from `b` stores its own start `a` plus `c`, while the new utterance goes on speaking |
| SpeechSession.StaleEndRestartsFromTop | resources/ict/typeD/js/keyPadController.js:229-262 | a late end of an utterance cancelled by a restart stores offset 0 and "null" while the new utterance is still speaking, so the next volume-key restart reads the whole text |
| KeyPadController.FirstShown | resources/ict/typeD/js/keyPadController.js:279-292 | the active modal is the first shown modal in document order; no modal is active only when none is shown |
| KeyPadController.Controller.constructor | resources/ict/typeD/js/keyPadController.js:17-34 | the `state` record's initial values: no modal, empty registry, cursor -1, volume 50, count 0, disconnected |
| KeyPadController.Controller.IsHeadphoneConnected | resources/ict/typeD/js/keyPadController.js:71-83 | test mode forces connected; otherwise connected iff the stored flag is 'Y' |
| KeyPadController.Controller.ResetFocusElems | resources/ict/typeD/js/keyPadController.js:123-140 | the registry becomes the modal registry of the current modal, or the page registry |
| KeyPadController.Controller.SpeakFrom | resources/ict/typeD/js/keyPadController.js:223-262 | the speech session takes the `speakFrom` step under the current engine and headphone state |
| KeyPadController.Controller.ReadAloud | resources/ict/typeD/js/keyPadController.js:170-185 | the element's spoken text is read only when requested, the stored flag is 'Y', an engine exists and the element is not a container |
| KeyPadController.Controller.MoveFocus | resources/ict/typeD/js/keyPadController.js:154-169 | disconnected or out of range, cursor and markers stay; otherwise the cursor is `idx` and element `idx` alone carries the marker |
| KeyPadController.Controller.SetFocus | resources/ict/typeD/js/keyPadController.js:154-186 | as MoveFocus, and nothing at all changes on the guarded paths; with `readTTS` false no speech is issued |
| KeyPadController.Controller.SetFocusById | resources/ict/typeD/js/keyPadController.js:187-220 | an unknown id, or one that is not a plain name, changes nothing; otherwise that element alone is marked and the cursor is its registry position, or -1 when it is not registered |
| KeyPadController.Controller.OnBoundary | resources/ict/typeD/js/keyPadController.js:249-255 | a boundary event of utterance `u`, live or cancelled, applies `Boundary` for `u` |
| KeyPadController.Controller.OnEnd | resources/ict/typeD/js/keyPadController.js:257-262 | an end event of utterance `u`, live or cancelled, applies `End` for `u` |
| KeyPadController.Controller.OpenModal | resources/ict/typeD/js/keyPadController.js:298-310 | saves the marked elements outside the modal, activates the modal, rebuilds its registry, silently focuses its first element and shows it |
| KeyPadController.Controller.CloseModal | resources/ict/typeD/js/keyPadController.js:316-338 | deactivates, rebuilds the page registry, re-marks the saved elements and sets the cursor to the first one's position (or -1), nulls the current modal |
| KeyPadController.Controller.RestorePrevFocus | resources/ict/typeD/js/keyPadController.js:321-329 | the saved elements are marked again and the cursor is the first one's index, or -1 when nothing was saved |
| KeyPadController.Controller.HandleTab | resources/ict/typeD/js/keyPadController.js:345-354 | an empty registry or a disconnected headphone changes nothing; otherwise the cursor moves to `NextIndex` and that element is marked and read |
| KeyPadController.Controller.HandleEnter | resources/ict/typeD/js/keyPadController.js:359-381 | disconnected or no element at `.eq(focusIdx)` changes nothing; otherwise the element's Enter action is recorded |
| KeyPadController.Controller.HandleUpKey | resources/ict/typeD/js/keyPadController.js:387-405 | the volume rises and is stored only when it changes; speech restarts from the stored offset only while an utterance is live |
| KeyPadController.Controller.HandleDownKey | resources/ict/typeD/js/keyPadController.js:411-427 | the volume falls and is stored only when it changes; speech restarts from the stored offset only while an utterance is live |
| KeyPadController.Controller.HandleHomeKey | resources/ict/typeD/js/keyPadController.js:433-456 | the first press sets the count to 1 and arms the timer; the second navigates home and resets the count |
| KeyPadController.Controller.HomeTimerFires | resources/ict/typeD/js/keyPadController.js:446-449 | timer expiry resets the count without navigating |
| KeyPadController.Controller.HandleHeadphoneIn | resources/ict/typeD/js/keyPadController.js:461-480 | connects, stores 'Y' and marks the first registered element without speech; the welcome popup is left out (see "## Left out") |
| KeyPadController.Controller.HandleHeadphoneOut | resources/ict/typeD/js/keyPadController.js:485-510 | disconnects, stores 'N', closes an active modal and hides the overlay (or rebuilds the page registry), clears every marker, sets the cursor to -1 and reloads |
| KeyPadController.Controller.LeaveScope | resources/ict/typeD/js/keyPadController.js:492-500 | an active modal is closed with its overlay hidden; otherwise the page registry is rebuilt |
| KeyPadController.Controller.Dispatch | resources/ict/typeD/js/keyPadController.js:516-575 | runs the handler; the Tab handler without an event changes nothing |
| KeyPadController.Controller.HandleKeyEvent | resources/ict/typeD/js/keyPadController.js:582-622 | a key the gate stops changes nothing and prevents the default as `RouteKey` says; a dispatched key prevents the default |
| KeyPadController.Controller.HandleKeyInput | resources/ict/typeD/js/keyPadController.js:632-664 | a key the gate stops changes nothing, and neither does an injected Tab |
| KeyPadController.Controller.SetModalShown | resources/ict/typeD/js/keyPadController.js:279-281 | a modal becomes shown or hidden for the active-modal selector |
| KeyPadController.Controller.Update | resources/ict/typeD/js/keyPadController.js:682-697 | the first shown modal, or the page, becomes the scope; the registry is rebuilt; the cursor is the first element when connected, otherwise -1; the headphone flag is resynchronised |
| KeyPadController.Controller.Init | resources/ict/typeD/js/keyPadController.js:707-751 | without the library nothing changes; test mode stores the flags and connects; otherwise the speech keys are nulled, a stored volume is adopted as text (or 50 stored), 'N' is the default flag and the connection follows it |
| KeyPadController.Controller.AdoptStoredVolume | resources/ict/typeD/js/keyPadController.js:734-739 | no stored volume stores 50; a stored one becomes the state's volume as a string |
| KeyPadController.Controller.SyncEarphone | resources/ict/typeD/js/keyPadController.js:741-746 | a missing flag defaults to 'N'; the connection follows the flag |
| KeyPadController.Controller.TabRoundTrip | resources/ict/typeD/js/keyPadController.js:345-354 | Tab then Shift+Tab returns the cursor and the marker to where they were |
| KeyPadController.Controller.ModalRoundTrip | resources/ict/typeD/js/keyPadController.js:298-338 | opening a modal (a container the element does not lie in) from a marked page element and closing it puts the cursor back on that element, marked again |
| VirtualKeyboard.Shuffle | resources/ict/typeD/js/virtualKeyboard.js:18-24 | returns the same array, rearranged in place into a permutation of its input |
| VirtualKeyboard.KeysCount | resources/ict/typeD/js/virtualKeyboard.js:29 | `[...Array(k).keys()]` holds each of 0..k-1 exactly once |
| VirtualKeyboard.ShuffledKeys | resources/ict/typeD/js/virtualKeyboard.js:29 | the shuffled numbers are ten values holding each digit exactly once |
| VirtualKeyboard.Layout | resources/ict/typeD/js/virtualKeyboard.js:30-35 | 4 rows of 3; the first three rows hold `numbers[0..8]` in order; the last row is empty, `numbers[9]`, back |
| VirtualKeyboard.DigitCells | resources/ict/typeD/js/virtualKeyboard.js:30-33 | the digit cells are the numbers, one cell each |
| VirtualKeyboard.DigitCellsCount | resources/ict/typeD/js/virtualKeyboard.js:30-33 | each digit occurs among the cells as often as among the numbers |
| VirtualKeyboard.DigitCellsHaveDigits | resources/ict/typeD/js/virtualKeyboard.js:30-33 | the digit rows contain no empty or back cell |
| VirtualKeyboard.LayoutCells | resources/ict/typeD/js/virtualKeyboard.js:30-35 | read row by row, the table is the first nine digits, then empty, the last digit and back |
| VirtualKeyboard.LayoutMultiset | resources/ict/typeD/js/virtualKeyboard.js:30-35 | the table's cells are the nine digit cells plus the last row |
| VirtualKeyboard.LastNumberCount | resources/ict/typeD/js/virtualKeyboard.js:34 | a digit's count among the numbers is its count among the first nine plus the last |
| VirtualKeyboard.LastRowCount | resources/ict/typeD/js/virtualKeyboard.js:34 | the last row holds one empty cell, one back cell and one digit |
| VirtualKeyboard.LayoutCounts | resources/ict/typeD/js/virtualKeyboard.js:30-35 | each digit occurs in the table as often as among the numbers; one empty and one back cell |
| VirtualKeyboard.LayoutDigitsOnce | resources/ict/typeD/js/virtualKeyboard.js:29-35 | built from a permutation of 0..9, the table shows every digit exactly once and no other |
| VirtualKeyboard.ShuffledLayout | resources/ict/typeD/js/virtualKeyboard.js:29-35 | a freshly shuffled table has the 4x3 shape, empty and back in the last row, each digit once |
| VirtualKeyboard.DigitText | resources/ict/typeD/js/virtualKeyboard.js:78 | a digit cell's text is the one decimal character of its digit |
| VirtualKeyboard.Keypad.constructor | resources/ict/typeD/js/virtualKeyboard.js:4-16 | both layers hidden and no active input |
| VirtualKeyboard.Keypad.Show | resources/ict/typeD/js/virtualKeyboard.js:26-123 | the clicked target is focused and becomes the active input, a fresh table shows each digit once, and both layers are visible |
| VirtualKeyboard.Keypad.Hide | resources/ict/typeD/js/virtualKeyboard.js:125-128 | both the modal and the overlay are hidden |
| VirtualKeyboard.Keypad.PressDigit | resources/ict/typeD/js/virtualKeyboard.js:79-103 | without an active slot nothing changes; otherwise only the active slot is written; the next slot gets focus only if it exists and is a password slot, otherwise no slot keeps it; the keypad hides iff every password slot holds '*', and otherwise a refocus is scheduled |
| VirtualKeyboard.Keypad.RefocusTimerFires | resources/ict/typeD/js/virtualKeyboard.js:95-100 | the focused slot becomes active only if it is a password slot |
| VirtualKeyboard.Keypad.Backspace | resources/ict/typeD/js/virtualKeyboard.js:50-76 | no active slot or a non-numeric `data-index` changes nothing; otherwise the slot and its `actualPassword` entry are cleared, and a preceding password slot is cleared too and becomes active; otherwise the active slot stays |
| VirtualKeyboard.Keypad.PressCell | resources/ict/typeD/js/virtualKeyboard.js:40-104 | the empty cell does nothing; back and digit cells run their handlers |
| VirtualKeyboard.Keypad.LastDigitStays | resources/ict/typeD/js/virtualKeyboard.js:79-100 | typing into the last password slot of the row, and any refocus timer, leave the cursor on that slot |
| VirtualKeyboard.Keypad.DigitThenBack | resources/ict/typeD/js/virtualKeyboard.js:50-103 | typing a digit, letting the refocus fire and pressing back leaves the cursor on the same slot, with it and the next slot empty and every other slot unchanged |

## Left out

- Speech engine internals become abstract events: the utterance's language, rate and pitch, and the volume as the float `volume / 100`. `methods.speak` is not part of this model.
- HandleHeadphoneIn: the `customPopupHtml` welcome popup is not modelled. In the program it opens the `#commonPopup` modal, so `$prevFocus` saves the page's marked elements, the registry becomes the popup's, and (the flag now being 'Y') the popup's first element is marked and spoken. The closing `setFocus(0, false)` then marks the popup's first element, not the page's. The model stays in the page scope with the page registry, and marks the page's first element without speech.
- Browser side effects become flags or are left out: `location.reload()` and `location.href` (the `navigation` field), `showPicker()` and `click()` (the `activations` log), `.focus()` and `.blur()`, `stopAndResetAudio`, and the `--focus-outline` CSS variable.
- Logging, debug mode, `setDebugMode` and `attachEvents` are not modelled.
- The page is fixed for the lifetime of a controller. New content loaded into it is not modelled. Each element record lists the nodes it lies inside and whether one of them is a modal; the model does not check that these agree with the list of modals.
- Real time is left out. The Home key's one-second timer and the keypad's 10 ms refocus timer are methods the environment calls.
- The `tabindex` attribute is its integer value, so `:not([tabindex="-1"])` is `tabIndex != -1` and the attribute subtraction in the page comparator is the numeric difference.
- Session-storage values other than the ones this code writes are not modelled. The earphone flag is 'Y', 'N' or absent, and a stored volume is a number in 0..100.
- The keypad's overlay is never added to the document. Its display flag is kept, but it has no visible effect.
- The `input` listener that masks a typed digit lives outside these files. It is the parameter `masked`.
- Password inputs outside the keypad's slot row are not modelled. The completion check ranges over the slot row.
- `Keypad.docFocus` tracks the click that opens the keypad on a slot, the keypad's own `focus()` calls, and the loss of focus when a cell is clicked. `window.showKeypad` called by script without a click is modelled as that click. Any other focus change is left out.
- The table's DOM construction, the close button and the overlay's click listener are not modelled. Each of the last two is `Hide`.
- Registering the password inputs' click listeners, and the global `window.showKeypad` wrapper, are not modelled. Both lead to `Show`.
- Dispatch: states only that the handler keeps the controller valid, and that the Tab handler without an event changes nothing. The effect of each key is in that handler's own contract.
- HandleKeyEvent: for a dispatched key it states only that the default is prevented. The state change is that of the handler `Dispatch` runs.
- PressCell: states only the empty cell's case. The back and digit cells are `Backspace` and `PressDigit`, whose contracts give the effect.
- HandleKeyInput: states only the cases the gate stops and the injected Tab. For a dispatched key, the state change is that of the handler `Dispatch` runs.
- Text is counted in Unicode characters, not in the UTF-16 code units that JavaScript's `slice` and the speech engine's `charIndex` count. For text outside the Basic Multilingual Plane (emoji, for instance) the spoken suffix and the stored offset can differ from the program's.
- SetFocusById: an id that is not a plain name of ASCII letters, digits, `_` and `-` matches nothing. jQuery would parse it as a selector, which throws for some ids and matches a compound selector for others (`a.b` is the element with id `a` and class `b`).
