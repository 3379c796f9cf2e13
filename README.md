# dragon-drop, keyboard core

A model of the keyboard side of the `dragonDrop` jQuery plugin
(`dragon-drop.js`). The plugin makes a list reorderable from the keyboard and
tells screen-reader users what happened. The model covers:

- the announcement templater `replacer`, which fills `%s` placeholders left
  to right;
- the grab/release state machine: `setup`, `cleanUp` and
  `onDraggableClick`, with the per-handle `drag-on` flag, the active and
  inactive classes on the items, `aria-grabbed`, and the pending announcement;
- the keyboard move engine: `onDraggableKeydown`, `arrowHandler`, `swap`
  and `endOfLine`, with relocation of a row, focus, the `onChange` record
  and the reorder announcement;
- `updateItems`, as a snapshot of the handles derived from the items.

Layout:

- `templater.dfy`: `Replace` computes what `replacer` computes. The source
  uses a global regular-expression `replace` with a counter in a closure;
  `Replace` scans the text character by character and passes the rest of the
  arguments to the recursive call. `Template`/`Fill` give it a reference
  meaning. The module also holds the
  decimal rendering of the index and count arguments.
- `rows.dfy`: `IndexOf` (`$.inArray`) and `Relocate`
  (`insertBefore`/`insertAfter` on a row), with their permutation and
  placement lemmas.
- `widget.dfy`: items, options, the widget state, the invariant (at most
  one handle grabbed; per-row state index-aligned) and the default options.
- `grab_release.dfy` and `move_engine.dfy`: one pure specification function
  per handler, and the properties proved about them.
- `keyboard.dfy`: key dispatch, sequences of events, and the documented
  three-item walkthrough.
- `container.dfy`: class `Plugin.Container`, the per-container closure. Its
  fields are the closure variables and the per-row data, and its methods
  update them step by step, with loops where the plugin iterates over every
  item or handle. Each method is proved to produce exactly the state its
  specification function describes. The constructor and the handlers
  (`Setup`, `Click`, `KeyDown`, `ArrowHandler`, `Swap`) are also proved to
  keep the invariant.

The plugin's documentation and its code disagree in a few places. The model
follows the code:

- `aria-grabbed` is written only on the clicked handle
  (dragon-drop.js:130). A handle released because another one was grabbed
  keeps `aria-grabbed="true"`, so `aria-grabbed` does not always equal the
  flag (`GrabRelease.StaleAriaAfterRegrab`).
- With a text selector configured, the announced text is the text of what
  the selector matches. When nothing matches, that text is empty; the code
  does not fall back to the whole item. The model takes the matched text as
  given data per row (`Item.labelText`).
- When the active and inactive classes have the same name, the owning item
  ends up without that class, because the inactive pass removes it again
  (`GrabRelease.ClickSameClassNames`).

Falsy option values (absent, `null`, `""`) are all modelled as `""`.
As documented, grabbing a second handle only runs the clean-up of the
first: no drop announcement is made for the first handle.

## Model

| member | source | states |
|---|---|---|
| Templater.Count | dragon-drop.js:236 | the global scan for `%s` is non-overlapping, so it finds at most one match per two characters; `CountZeroIffNoPlaceholder` and `CountAfterPlainPrefix` state its other properties |
| Templater.Replace | dragon-drop.js:234-241 | `replacer`: each match gives up its two characters for exactly one argument, the first matches taking the first arguments, so the result is as long as the text minus two per match plus the lengths of the arguments used; `ReplaceWithoutPlaceholder`, `ReplaceAfterPlainPrefix`, `ReplaceTemplate` and `ReplaceExtraArguments` state where each argument goes |
| Templater.CountZeroIffNoPlaceholder | dragon-drop.js:234-241 | the global scan for `%s` finds no match exactly when the text contains no `%s` |
| Templater.ReplaceWithoutPlaceholder | dragon-drop.js:234-241 | text without `%s` comes back unchanged, whatever the arguments |
| Templater.CountAfterPlainPrefix | dragon-drop.js:236 | a placeholder-free prefix followed by `%s` adds exactly one match |
| Templater.ReplaceAfterPlainPrefix | dragon-drop.js:236-240 | the prefix before the first `%s` is copied, and that `%s` receives the first argument; the rest is filled from the remaining arguments |
| Templater.ReplaceTemplate | dragon-drop.js:234-241 | a template built from placeholder-free parts has one match per gap, and the k-th `%s` receives `args[k]`, strictly left to right |
| Templater.OneSlot | dragon-drop.js:234-241 | a one-placeholder template yields prefix + argument + suffix |
| Templater.ThreeSlots | dragon-drop.js:234-241 | a three-placeholder template yields its parts interleaved with the three arguments, in order |
| Templater.ExampleSpelled | dragon-drop.js:17 | the parts `["", " is now item ", " of ", ""]` spell `"%s is now item %s of %s"` |
| Templater.ExampleText | dragon-drop.js:214-218 | `"%s is now item %s of %s"` with x, p, n reads `x + " is now item " + p + " of " + n` |
| Templater.ReplaceExtraArguments | dragon-drop.js:137 | arguments beyond the placeholders are never read, so the three click arguments are harmless to a one-placeholder template |
| Templater.NatToString | dragon-drop.js:137 | a number argument is rendered as at least one decimal digit, with no leading zero |
| Templater.DecimalRoundTrip | dragon-drop.js:216-217 | reading the rendered digits back yields the number |
| Templater.NatToStringInjective | dragon-drop.js:216-217 | different positions and counts are announced differently |
| Rows.IndexOf | dragon-drop.js:107 | `$.inArray` gives -1 exactly when the element is absent, and otherwise the index of its first occurrence |
| Rows.IndexOfDistinct | dragon-drop.js:190-191 | among distinct elements, looking up the element at i finds i |
| Rows.Relocate | dragon-drop.js:195-199 | a relocation keeps the length and puts the moved element at the target index |
| Rows.RelocatePermutes | dragon-drop.js:195-199 | a relocation keeps the multiset of rows |
| Rows.RelocateKeepsOthers | dragon-drop.js:195-199 | removing the moved element leaves the other rows in their original relative order |
| Rows.InsertBefore | dragon-drop.js:196 | `$oldItem.insertBefore($newItem)` on the rows; `InsertBeforePlacement` states where the moved row lands |
| Rows.InsertAfter | dragon-drop.js:198 | `$oldItem.insertAfter($newItem)` on the rows; `InsertAfterPlacement` states where the moved row lands |
| Rows.InsertBeforePlacement | dragon-drop.js:196 | after `insertBefore`, the moved element immediately precedes the reference element |
| Rows.InsertAfterPlacement | dragon-drop.js:198 | after `insertAfter`, the moved element immediately follows the reference element |
| Rows.RelocateAdjacent | dragon-drop.js:195-199 | moving an element by one place exchanges it with its neighbour |
| Rows.AdjacentMoveExchanges | dragon-drop.js:182-199 | `insertBefore` the predecessor, or `insertAfter` the successor, is an exchange of the two |
| Rows.RelocateDistinct | dragon-drop.js:195-203 | a relocation keeps elements distinct, so re-indexing finds every handle once |
| Rows.RelocateIndex | dragon-drop.js:195-199 | each index of the result holds the original element at `Source`; `Source` is one-to-one (`Rows.SourceInjective`) |
| Rows.SourceInjective | dragon-drop.js:195-199 | no two positions of the relocated sequence come from the same original position |
| Widget.Toggle | dragon-drop.js:118 | jQuery `toggleClass` of one name on one item: the item has the name afterwards exactly when it did not before, and every other class is kept |
| Widget.WithoutClass | dragon-drop.js:78 | jQuery `removeClass` of one name on every item: each item loses exactly that name |
| Widget.ToggleExcept | dragon-drop.js:122-127 | the inactive name is toggled on every item except the owning one, which keeps its classes |
| Widget.Announce | dragon-drop.js:139-143 | a non-empty text becomes the pending announcement; an empty text schedules nothing and leaves the pending one as it was |
| Widget.DefaultOptions | dragon-drop.js:6-19 | the default options: active class "drag-on", no inactive class, no `onChange`, no text selector and the three default templates; `DefaultOptionsValid` and the `Default*` lemmas state their properties |
| Widget.DefaultOptionsValid | dragon-drop.js:6-19 | the default grab and reorder templates read one and three arguments, within the three given |
| Widget.DefaultGrabSpelled | dragon-drop.js:15 | the default grab template is `"%s grabbed."` |
| Widget.DefaultDropSpelled | dragon-drop.js:16 | the default drop template is `"%s dropped."` |
| Widget.DefaultReorderSpelled | dragon-drop.js:17 | the default reorder template is `"The list has been reordered. %s is now item %s of %s"` |
| Widget.DefaultGrabText | dragon-drop.js:15 | given the three click arguments, the default grab template reads `subject + " grabbed."` |
| Widget.DefaultDropText | dragon-drop.js:16 | given the three click arguments, the default drop template reads `subject + " dropped."` |
| Widget.DefaultReorderText | dragon-drop.js:17 | the default reorder template reads subject, position and total, in that order |
| GrabRelease.SetUp | dragon-drop.js:56-83 | `setup`: every flag and `aria-grabbed` cleared, then the configured classes removed; `SetUpState` states the result |
| GrabRelease.CleanUp | dragon-drop.js:92-101 | `cleanUp`: the configured classes removed and every flag cleared; `ClickReleases` states its effect through a click |
| GrabRelease.GrabClasses | dragon-drop.js:113-128 | the classes after a grab; `ClickGrabClasses` and `ClickSameClassNames` state the result |
| GrabRelease.GrabSubject | dragon-drop.js:134-135 | the grab/drop text is the text selector's match when one is configured, else the handle's own text |
| GrabRelease.Click | dragon-drop.js:103-145 | `onDraggableClick`; `ClickFlags`, `ClickAria`, `ClickReleases`, `ClickGrabClasses`, `ClickAnnouncement` and `ClickPreservesInvariant` state its properties |
| GrabRelease.CleanedClasses | dragon-drop.js:93-99 | every item loses the configured active and inactive classes and keeps every other class |
| GrabRelease.SetUpState | dragon-drop.js:56-83 | after `setup`, no flag is set, no `aria-grabbed` is true, and no item carries a configured class |
| GrabRelease.ClickFlags | dragon-drop.js:109-116 | after a click, the clicked handle is grabbed exactly when it was not before, no other handle is grabbed, and the invariant holds whatever the state before |
| GrabRelease.ClickAria | dragon-drop.js:130 | the clicked handle's `aria-grabbed` becomes its new flag; every other `aria-grabbed`, the order, focus and change record stay |
| GrabRelease.ClickReleases | dragon-drop.js:92-101 | a click on a grabbed handle clears every flag and the clicked `aria-grabbed`, and removes exactly the configured classes |
| GrabRelease.ClickGrabClasses | dragon-drop.js:117-128 | on grab, when the two names differ, only the owning item carries the active class and every other item carries the inactive class (each when configured); other classes are kept, so with no class configured nothing changes |
| GrabRelease.ClickSameClassNames | dragon-drop.js:117-128 | with one name for both classes, the owning item ends up without it and every other item has it |
| GrabRelease.ClickTwiceRestores | dragon-drop.js:56-130 | two clicks after `setup` restore its flags, classes and `aria-grabbed` |
| GrabRelease.StaleAriaAfterRegrab | dragon-drop.js:130 | grabbing b while a is grabbed clears a's flag but leaves a's `aria-grabbed` true |
| GrabRelease.ClickAnnouncement | dragon-drop.js:132-144 | nothing is announced unless both grab and drop templates are set; otherwise the grab (or, on release, drop) template is filled with the subject text, the 0-based index and the item count, and an empty result leaves the pending text unchanged; with the defaults a click announces "<text> grabbed." or "<text> dropped." |
| GrabRelease.ClickPreservesInvariant | dragon-drop.js:103-145 | a click keeps the invariant and the order of the items |
| MoveEngine.EndOfLine | dragon-drop.js:228-230 | for any `$.inArray` result, true exactly when the handle is unlisted or has no neighbour in the direction of the move |
| MoveEngine.ReorderSubject | dragon-drop.js:211-213 | the reorder text is the text selector's match when one is configured, else the item's own text |
| MoveEngine.Swap | dragon-drop.js:189-226 | `swap`; `SwapAt`, `SwapAnnounces`, `SwapPreservesInvariant` and `SwapPermutes` state its properties |
| MoveEngine.Landing | dragon-drop.js:195-199 | the moved row lands between where it was and the reference row |
| MoveEngine.ArrowKey | dragon-drop.js:174-187 | `arrowHandler`; `ArrowAtEndIsNoOp`, `ArrowMoveExchanges`, `ArrowMoveKeepsOthers` and `ArrowMoveAnnounces` state its properties |
| MoveEngine.SwapAt | dragon-drop.js:189-207 | after the lookups, `swap` moves the row to its landing index together with its flag, classes and `aria-grabbed`, focuses it there, and gives `onChange` the moved item and the new items |
| MoveEngine.SwapAnnounces | dragon-drop.js:203-218 | after re-indexing, `$.inArray` finds the moved item at its landing index, so the announced position is the landing index plus one, out of the unchanged count |
| MoveEngine.ArrowAtEndIsNoOp | dragon-drop.js:174-180 | an arrow on the first row toward the start, on the last row toward the end, or on an unlisted handle changes nothing at all |
| MoveEngine.ArrowAt | dragon-drop.js:174-187 | when the row can move, the arrow handler swaps it with its neighbour, landing at the neighbour's index |
| MoveEngine.ArrowRelocates | dragon-drop.js:182-201 | a move relocates the row and its flag to the neighbour's index and focuses it there |
| MoveEngine.ArrowMoveExchanges | dragon-drop.js:182-199 | a move exchanges the row with its neighbour, together with their flags, classes and `aria-grabbed` |
| MoveEngine.ArrowMoveKeepsOthers | dragon-drop.js:182-203 | a move keeps the count and the multiset, leaves every other row in place, focuses the moved handle and keeps it grabbed |
| MoveEngine.MovedPosition | dragon-drop.js:203-216 | after re-indexing, `$.inArray` finds the moved item at its neighbour's old index |
| MoveEngine.ArrowMoveAnnounces | dragon-drop.js:203-225 | `onChange` gets the moved item and the new sequence; the announcement gives the 1-based position (k toward the start, k+2 toward the end) and the unchanged count |
| MoveEngine.ArrowMoveDefaultText | dragon-drop.js:17 | with the default template the move announces "The list has been reordered. <text> is now item <p> of <n>" |
| MoveEngine.RelocateRows | dragon-drop.js:195-203 | relocating rows relocates their item ids and handles alike, so re-indexing sees the new order |
| MoveEngine.RelocateAtMostOne | dragon-drop.js:195-199 | moving a row with its flag keeps at most one flag set |
| MoveEngine.SwapPreservesInvariant | dragon-drop.js:189-226 | a swap keeps the invariant |
| MoveEngine.SwapPermutes | dragon-drop.js:189-199 | a swap keeps the multiset of items |
| MoveEngine.ArrowPreservesInvariant | dragon-drop.js:174-187 | an arrow key keeps the invariant and the multiset of items |
| Keyboard.KeyDown | dragon-drop.js:147-172 | `onDraggableKeydown`; `ActivationKeysToggle`, `IdleHandleIgnoresOtherKeys`, `GrabbedHandleArrows` and `TabReleases` state its cases |
| Keyboard.Run | dragon-drop.js:71-74 | a sequence of clicks and key presses on the handles; `RunPreservesInvariant` states what it keeps |
| Keyboard.ActivationKeysToggle | dragon-drop.js:152-157 | Enter and Space always prevent the default and toggle the handle, leaving no other handle grabbed |
| Keyboard.IdleHandleIgnoresOtherKeys | dragon-drop.js:158-171 | on a handle that is not grabbed, arrows and Tab (and any other key but Enter and Space) change nothing and keep the default |
| Keyboard.GrabbedHandleArrows | dragon-drop.js:158-166 | on a grabbed handle an arrow prevents the default and exchanges the row with its neighbour, or changes nothing at the end of the list |
| Keyboard.TabReleases | dragon-drop.js:167-170 | Tab on a grabbed handle releases everything and keeps the default, so focus can leave |
| Keyboard.KeyDownPreservesInvariant | dragon-drop.js:147-172 | every key keeps the invariant and the multiset of items |
| Keyboard.StepPreservesInvariant | dragon-drop.js:72-74 | one click or key press on a listed handle keeps the invariant and the items' multiset |
| Keyboard.RunPreservesInvariant | dragon-drop.js:72-74 | after any sequence of clicks and key presses, at most one handle is grabbed and the list holds the same items |
| Keyboard.WalkthroughGrab | dragon-drop.js:152-157 | in a three-item list, Enter on the middle handle grabs it and announces "<text> grabbed." |
| Keyboard.WalkthroughMove | dragon-drop.js:158-225 | then Down moves it last, keeps it grabbed and focused, and announces it as item 3 of 3 |
| Keyboard.WalkthroughAtEnd | dragon-drop.js:174-180 | then Down again changes nothing |
| Plugin.Container.constructor | dragon-drop.js:30-83 | initialisation ends in the state `setup` describes, with the invariant established |
| Plugin.Container.UpdateItems | dragon-drop.js:85-90 | the handle snapshot is re-derived from the items |
| Plugin.Container.Setup | dragon-drop.js:56-83 | the loop over the handles and the class removals produce exactly `SetUp` of the old state |
| Plugin.Container.RemoveClass | dragon-drop.js:77-82 | `removeClass` on every item removes that one name from each |
| Plugin.Container.ToggleClassExcept | dragon-drop.js:122-127 | the inactive class is toggled on every item except the owning one |
| Plugin.Container.CleanUp | dragon-drop.js:92-101 | the class removals and the loop over the flags produce exactly `CleanUp` of the old state |
| Plugin.Container.Grab | dragon-drop.js:113-129 | the grab branch sets the flag and the grab classes |
| Plugin.Container.Click | dragon-drop.js:103-145 | the handler produces exactly `Click` of the old state and keeps the invariant |
| Plugin.Container.KeyDown | dragon-drop.js:147-172 | the handler produces exactly `KeyDown` of the old state, with the prevented-default flag |
| Plugin.Container.ArrowHandler | dragon-drop.js:174-187 | the handler produces exactly `ArrowKey` of the old state |
| Plugin.Container.Swap | dragon-drop.js:189-226 | the handler produces exactly `Swap` of the old state and keeps the invariant |
| Plugin.Container.AnnounceReorder | dragon-drop.js:209-225 | the reorder announcement names the moved item, its 1-based position among the re-indexed items, and the count |
| Plugin.Container.MoveRow | dragon-drop.js:195-199 | the row moves together with its flag, classes and `aria-grabbed` |

## Left out

- The jQuery UI `sortable` wiring and the mouse `stop`/`sortupdate` handlers (dragon-drop.js:23-28, 43-52). That reordering is done by an external library and is not visible here.
- Creating the live region and writing HTML into it (dragon-drop.js:33-41, 141, 222). Only the text scheduled for it is modelled (`pending`).
- The `setTimeout` deferral (dragon-drop.js:140, 221). An announcement is modelled as scheduled at once. A later announcement replaces an earlier one that has not yet been shown.
- Selector queries and text extraction (`find`, `closest`, `text()`, dragon-drop.js:86-89, 125, 134-135, 211-213). Each row is an item with one handle and given texts. Selectors that yield other than one handle per item are not modelled.
- Merging of options with `$.extend` (dragon-drop.js:22). The options are given to the constructor. The defaults (dragon-drop.js:6-19) are `Widget.DefaultOptions`.
- `tabIndex`, `role` and `aria-dropeffect` set in `setup` (dragon-drop.js:65-69), and the binding of the handlers (dragon-drop.js:71-74). Every event is modelled as targeting a listed handle element itself, so `Click` and `KeyDown` require a listed handle, and `Keyboard.Run` takes an event on any other target to change nothing.
- Key events from an element inside a handle (dragon-drop.js:147-171). Such events bubble up to the handle's handler with `e.target` set to the inner element. Enter and Space then call `click()` on it, and that click bubbles up and toggles the handle. Arrows and Tab read `drag-on` from the inner element, so they do nothing even while the handle is grabbed. The model does not capture this.
- Class lists given as several names (dragon-drop.js:78, 81, 94, 98, 118, 123, 127). jQuery's `removeClass` and `toggleClass` split a whitespace-separated value and act on each name. The model treats `activeClass` and `inactiveClass` as one name each, so it is faithful only for option values without whitespace.
- Focus is modelled as the index of the moved row (`focused`). Other focus movement by the browser is not modelled.
- Templater.Replace: JavaScript inserts "undefined" when a template has more `%s` than arguments. The model requires at most as many placeholders as arguments (`Widget.ValidOptions`: at most three).
- Plugin.Container: the per-row data (flags, classes, `aria-grabbed`) are sequences that the methods reassign, not DOM nodes, so aliasing between rows is not modelled.
