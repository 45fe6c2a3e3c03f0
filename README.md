# Drag-and-drop reordering service, modelled in Dafny

This project models `DragAndDropService` from `halloland-ng2-drag-and-drop`. The service is attached to a container element. It lets the user pick up one of the container's children with the mouse or a touch, move a floating clone of it, and reorder the children.

The service:
- reads pointer events on the container;
- picks up the child under the pointer;
- every time the pointer rests for a moment, finds the child under it and shifts the children between the two into their new places;
- commits each shift to its snapshot of the children;
- when the drag ends, sends `{initialIndex, fetchedIndex}` on its result stream.

While a child is dragged, a 10 ms interval scrolls the container when the clone leaves its visible area. Without a drag, a swipe scrolls the container.

## The modules

- `ArrayOps`: the JavaScript `indexOf` and the pair of `splice` calls that commit a reorder (`Move`). A negative `splice` start counts from the end, so the `-1` that `indexOf` returns for a missing element moves the last element.
- `Position`: the inline-style coordinates.
  - `getPosition` is a parser for the regular expression `(-?[0-9]+)px`, giving 0 when nothing matches (`ParsePx`).
  - Offsets are written back as `k + 'px'` (`Px`).
- `Dom`: the page.
  - The structure and geometry of the elements (`Layout`: parent links, the `drag-disabled` attribute, offsets, an `isEqualNode` fingerprint) never change.
  - What the service writes (class lists and `style.top` / `style.left`) is a map `Styles`.
  - The module also holds `getParentChildren` (`Eligible`), `getParentTarget` (`ParentTarget`, and the loop `GetParentTarget`), `getFocusElement` (`FocusElement`) and the class and style updates.
- `Cascade`: the shift animation of `animate`.
  - The walk from the target toward the dragged element (`Walk`).
  - The styles it writes (`ApplyWalk`, `PlaceDragged`, `AnimateStyles`).
  - What they achieve on screen (`Animated`).
- `Scroll`: the arithmetic of the auto-scroll tick and of the swipe scroll, and the `scrollTop` setter of the browser. The setter keeps the stored value in `[0, scrollHeight - clientHeight]` (`StoreScroll`).
- `Session`: the whole service as a state machine over values.
  - `State` holds the service's fields, the styles it wrote and the results sent so far.
  - There is one function per event handler and per timer callback, and an invariant `Inv` that each of them keeps. Among its clauses: outside a drag, no reorder index is recorded.
  - Lemmas state what each step does.
- `Service`: the class `DragAndDropService`.
  - Its fields are updated in place by methods named after the source's.
  - Each entry point is proved to perform the matching `Session` step on `View()` and to keep `Valid()`.
  - The loops of `animate`, `resetItemsAnimation`, `removeAllTargetClasses` and `getParentTarget` are loops here too, proved against the functions that specify them.

## Modelling choices

- Timers are explicit. A pending callback is recorded, and a method runs it when it fires:
  - `triggerForEvents` is `timers.pressTimer`, fired by `FirePress`;
  - `dropTimeout` is `timers.dropTimer`, fired by `FireDrop`;
  - the animation timeout is pending exactly while `animationActive`, and is fired by `FireAnimation`.
- Each timer holds the event its callback captured. Cancelling a timer clears it.
- Subscriptions to `animationSubject$` are counted (`timers.subscribers`).
  - `timers.handleLive` records whether the subscription stored in `animationSubscription` (always the latest) is still live.
  - Every callback unsubscribes whatever that field holds, not itself.
- The auto-scroll interval is `scroll.scrollWatch`. `Tick` is one run of its body.
- `elementFromPoint` is a parameter of `FireDrop`. The clone's `offsetTop` and `clientHeight` are parameters of `Tick`.
  - The clone itself is only a flag (`phase.cloneAttached`): nothing the service decides depends on its identity.
- Two calls throw a `TypeError`, and the model returns `None` for each:
  - `getFocusElement`, when a child class is configured and the pointer resolves to no element;
  - `getParentTarget`, when a touch's `elementFromPoint` is `null` (line 482 reads `null.parentElement`).
- The handler that made the call then stops, as the exception leaves it:
  - `GetDraggedClone` and `FindElementUnderDraggedClone` return `raised`;
  - `OnStart` and `FindTarget` stop early.
- The behaviours below are kept as the code has them:
  - The result sent carries `startDragIndex`, not `initialIndex` (line 462).
  - `startDragIndex` is never cleared, so a drag whose element is not found keeps the previous drag's index.
  - Line 324 removes the target class from every eligible child except the dragged one, including the target just marked.
  - The bottom auto-scroll clamp assigns `parentScrollHeight`, beyond the largest scroll position; only the browser's clamping brings it back.
  - `indexOf` may give -1, which `splice` reads as "the last element".

## Where the code and its description differ

The model follows the code in each case.

- With a child class configured and more than one eligible child, the class alone decides whether an element can be picked up or be a target. A `drag-disabled` child carrying the class qualifies (`Dom.FocusWithClassIgnoresDisabled`).
- The shift styles written by `animate` stay on the children after the commit. Only `sendResult` puts them back at rest.
- Two end events during one animation (a `mouseup` followed by a `mouseleave`, say) subscribe twice. At the commit, the first callback unsubscribes the second, and the first is never unsubscribed. From then on, every drag ends at its first commit, even with the pointer still down (`Session.DoubleEndLeavesSubscription`, `Session.LeftoverSubscriptionEndsDrag`).

## Model

| member | source | states |
|---|---|---|
| ArrayOps.IndexOf | drag/services/drag-and-drop.service.ts:330-331 | `indexOf` gives -1 exactly when the element is absent, otherwise a position holding it with no earlier occurrence |
| ArrayOps.IndexOfFirst | drag/services/drag-and-drop.service.ts:330-331 | `indexOf` finds no position later than any position holding the element |
| ArrayOps.SpliceStart | drag/services/drag-and-drop.service.ts:340-341 | the start `splice` uses lies in the array; a valid start is kept, and a negative one counts from the end |
| ArrayOps.MovePermutes | drag/services/drag-and-drop.service.ts:340-341 | the commit keeps the snapshot's length and its multiset of elements |
| ArrayOps.PermutationKeepsDistinct | drag/services/drag-and-drop.service.ts:340-341 | a snapshot without repetitions has none after the commit |
| ArrayOps.MovePlaces | drag/services/drag-and-drop.service.ts:340-341 | with valid positions, the moved element lands at `fetchedIndex`, and removing it there gives the snapshot without it at `initialIndex` |
| ArrayOps.MoveForward | drag/services/drag-and-drop.service.ts:340-341 | moving forward shifts the elements in between one place down |
| ArrayOps.MoveBackward | drag/services/drag-and-drop.service.ts:340-341 | moving backward shifts the elements in between one place up |
| ArrayOps.MoveRoundTrip | drag/services/drag-and-drop.service.ts:340-341 | moving an element back where it came from restores the snapshot |
| ArrayOps.MoveCompose | drag/services/drag-and-drop.service.ts:340-341 | two commits of the same element equal one commit from its first to its last position |
| ArrayOps.MoveFromMissing | drag/services/drag-and-drop.service.ts:330-341 | an `indexOf` miss as the source moves the last element |
| ArrayOps.MoveToMissing | drag/services/drag-and-drop.service.ts:330-341 | an `indexOf` miss as the destination inserts before the last element |
| ArrayOps.MoveExample | drag/services/drag-and-drop.service.ts:340-341 | `[A,B,C,D]` committed from 0 to 2 is `[B,C,A,D]` |
| Position.NatDigits | drag/services/drag-and-drop.service.ts:378-379 | the decimal digits JavaScript prints for a natural number are nonempty and read back as that number |
| Position.SearchMeaning | drag/services/drag-and-drop.service.ts:54-57 | `match` finds nothing exactly when no position matches, and otherwise the leftmost match |
| Position.PxRoundTrip | drag/services/drag-and-drop.service.ts:53-67 | every integer `k` written as `k + 'px'` is read back by `getPosition` as `k`; for JavaScript numbers this covers the integers of magnitude below 2^53, the range the model's integers stand for |
| Position.NoUnitReadsZero | drag/services/drag-and-drop.service.ts:53-67 | a style without the unit `px` reads as 0 |
| Position.ResetValueReadsZero | drag/services/drag-and-drop.service.ts:273-274 | the reset value `'0'` reads as 0 |
| Dom.EnabledMembers | drag/services/drag-and-drop.service.ts:475-479 | the filter keeps exactly the children without `drag-disabled` |
| Dom.EnabledDistinct | drag/services/drag-and-drop.service.ts:475-479 | filtering distinct children gives distinct elements |
| Dom.EnabledKeepsOrder | drag/services/drag-and-drop.service.ts:475-479 | the filter keeps document order |
| Dom.EligibleSnapshot | drag/services/drag-and-drop.service.ts:475-479 | `getParentChildren` is exactly the container's children without `drag-disabled`, distinct and in document order |
| Dom.Climb | drag/services/drag-and-drop.service.ts:483-485 | the climb stops only on a child of the container |
| Dom.ParentTarget | drag/services/drag-and-drop.service.ts:481-489 | the result is undefined, the input itself, or a child of the container |
| Dom.ClimbSound | drag/services/drag-and-drop.service.ts:483-485 | the climb stops on a child of the container that is the start element or one of its ancestors |
| Dom.ClimbComplete | drag/services/drag-and-drop.service.ts:483-485 | the climb does stop on the child of the container above the start element when there is one |
| Dom.ParentTargetMeaning | drag/services/drag-and-drop.service.ts:481-489 | an undefined input, the container or a child comes back unchanged; otherwise the result is the child of the container that contains the input |
| Dom.GetParentTarget | drag/services/drag-and-drop.service.ts:481-489 | the loop returns what `ParentTarget` specifies |
| Dom.FocusElement | drag/services/drag-and-drop.service.ts:451-453 | acceptance needs an element; the test throws exactly when a class is configured, more than one child is eligible and there is no element |
| Dom.FocusWithoutClass | drag/services/drag-and-drop.service.ts:451-453 | without a child class, the pointed element is accepted exactly when an eligible child contains it |
| Dom.FocusWithClassIgnoresDisabled | drag/services/drag-and-drop.service.ts:451-453 | with a class and several eligible children, any child carrying the class is accepted, even a `drag-disabled` one |
| Dom.StripClass | drag/services/drag-and-drop.service.ts:403-407 | removing a class from each listed element removes it from those elements only, keeping everything else |
| Dom.RestAll | drag/services/drag-and-drop.service.ts:277-281 | each listed element is put at rest, and the other elements keep their styles |
| Dom.Except | drag/services/drag-and-drop.service.ts:324 | the filter keeps exactly the elements other than the dragged one |
| Cascade.Walk | drag/services/drag-and-drop.service.ts:357-383 | the walk starts on the target, steps one index at a time in its direction, passes the dragged element nowhere before its end, ends on it or at the edge of the snapshot, and is at most one longer than the snapshot |
| Cascade.WalkDistinct | drag/services/drag-and-drop.service.ts:357-383 | from a target located by `indexOf` in a snapshot without repetitions, the walk visits no element twice |
| Cascade.WalkTowardDragged | drag/services/drag-and-drop.service.ts:362-383 | in a snapshot in reading order, the direction test walks toward the dragged element and reaches it through every element in between |
| Cascade.ApplyWalkOff | drag/services/drag-and-drop.service.ts:374-381 | an element the walk never leaves (not on it, or only its last element) keeps its style |
| Cascade.ApplyWalkOn | drag/services/drag-and-drop.service.ts:374-381 | on a walk without repetitions, the element at each position but the last ends shifted onto its successor, from its style before the walk |
| Cascade.ShiftFirst | drag/services/drag-and-drop.service.ts:362-381 | one turn of the loop, shifting the current element onto the next and walking on from there, is the same as the whole walk from the current element |
| Cascade.ApplyWalkEffect | drag/services/drag-and-drop.service.ts:374-379 | along a walk without repetitions, each element but the last is shifted once onto its successor, and nothing else changes |
| Cascade.WalkAttrs | drag/services/drag-and-drop.service.ts:353-383 | after the loop, walked elements are shifted from their old styles, the dragged element only has the transition class, and the rest is untouched |
| Cascade.ShiftedVisual | drag/services/drag-and-drop.service.ts:376-379 | a shifted element is drawn where its successor sits, displaced by its old offset, and carries the transition class |
| Cascade.PlacedVisual | drag/services/drag-and-drop.service.ts:385-387 | the dragged element is drawn where the target sits, displaced by its old offset, and nothing else changes |
| Cascade.AnimateEffect | drag/services/drag-and-drop.service.ts:352-388 | `animate` draws every walked element on its successor and the dragged element on the target, all with the transition class, and changes no other element |
| Service.RestEach | drag/services/drag-and-drop.service.ts:277-281 | the `for` loop of `resetItemsAnimation` leaves the styles `RestAll` describes: each listed element at rest, the others unchanged |
| Service.ShiftAlongWalk | drag/services/drag-and-drop.service.ts:357-383 | the `while` loop of `animate` writes the styles of `ApplyWalk` along `Walk` |
| Scroll.StoreScroll | drag/services/drag-and-drop.service.ts:175-186 | the `scrollTop` setter stores a value in the scroll range: an in-range value as given, anything below as 0, anything above as the maximum |
| Scroll.AutoScroll | drag/services/drag-and-drop.service.ts:173-191 | the tick reports scrolling exactly when the clone sticks out and the position can still move; it then assigns one pixel more when the clone sticks out below, and one pixel less when it does not but sticks out above |
| Scroll.TickMovesOnePixel | drag/services/drag-and-drop.service.ts:173-191 | once stored, a tick moves the position by exactly one pixel when it reports scrolling (down when the clone sticks out below, up otherwise), and leaves it otherwise |
| Scroll.BottomClampOvershoots | drag/services/drag-and-drop.service.ts:174-176 | at the bottom, the clamp assigns `parentScrollHeight`, beyond the largest scroll position, which the setter brings back |
| Scroll.SwipeAssigned | drag/services/drag-and-drop.service.ts:207-216 | the swipe assigns the scroll height, 0, or the old position plus the finger's travel, and that last value is in `(0, scrollHeight - clientHeight]` |
| Scroll.SwipeScroll | drag/services/drag-and-drop.service.ts:206-218 | nothing scrolls during a drag, after a pick-up, or when nothing overflows |
| Scroll.SwipeFollowsFinger | drag/services/drag-and-drop.service.ts:206-218 | an unblocked swipe over overflowing content scrolls by the finger's travel, saturated at both ends |
| Session.Exchange | drag/services/drag-and-drop.service.ts:72-81 | a new session has no drag, no result sent, moving allowed, the default press delay and the container's scroll height recorded |
| Session.ExchangeInv | drag/services/drag-and-drop.service.ts:72-81 | a new session satisfies the invariant |
| Session.ConfigureInv | drag/services/drag-and-drop.service.ts:83-86 | `configure` keeps the invariant, changes only the options, and keeps an option left out |
| Session.FindSameSpot | drag/services/drag-and-drop.service.ts:144-153 | the `find` returns the first position whose element is node-equal to the dragged one at the same offsets, or none when there is none |
| Session.StartIndexIsPosition | drag/services/drag-and-drop.service.ts:144-153 | when the dragged element is the only member of the snapshot carrying the pick-up mark (line 293), the start index is its `indexOf` position, or the previous value when it is not in the snapshot |
| Session.OnStartGuard | drag/services/drag-and-drop.service.ts:131 | a start during a drag, with moving disabled, or with at most one eligible child changes nothing |
| Session.OnStartEffect | drag/services/drag-and-drop.service.ts:128-161 | a start past the guard activates the drag, starts the scroll watch and snapshots the eligible children; the pointed element is picked up, marked and cloned exactly when it passes the focus test; indices and results are unchanged |
| Session.OnStartIndex | drag/services/drag-and-drop.service.ts:143-153 | the start index is the first snapshot position node-equal to the picked element (with its mark) at the same offsets, or the previous drag's value when there is none |
| Session.OnStartLocatesPicked | drag/services/drag-and-drop.service.ts:143-153 | when no other eligible child carries the pick-up mark, a start locates the picked element at its own `indexOf` position, or keeps the previous start index when it is not an eligible child |
| Session.OnStartInv | drag/services/drag-and-drop.service.ts:128-161 | a start keeps the invariant |
| Session.OnMoveEffect | drag/services/drag-and-drop.service.ts:221-239 | a move records the pointer Y and cancels the press; it scrolls only with no drag and no pick-up; it arms the drop timer exactly when an element is dragged with no animation or auto-scroll running |
| Session.OnMoveInv | drag/services/drag-and-drop.service.ts:221-239 | a move keeps the invariant |
| Session.SettleRests | drag/services/drag-and-drop.service.ts:455-458 | after `resetItemsAnimation` and `setDefaultState`, every eligible child has no transition or target class and offsets `'0'`, the dragged element has lost its marks, and nothing else changed |
| Session.SettleDrawsAtRest | drag/services/drag-and-drop.service.ts:268-282 | after settling, every eligible child is drawn at its layout position |
| Session.SettleIdempotent | drag/services/drag-and-drop.service.ts:455-458 | settling twice is settling once |
| Session.SendResultEffect | drag/services/drag-and-drop.service.ts:455-473 | one result `{startDragIndex, fetchedIndex}` is sent exactly when both indices are set; afterwards the indices are cleared, the drag and the pick-up are over, and the styles are settled |
| Session.SendResultIdempotent | drag/services/drag-and-drop.service.ts:455-473 | sending twice is sending once |
| Session.SendResultInv | drag/services/drag-and-drop.service.ts:455-473 | `sendResult` keeps the invariant |
| Session.OnEndEffect | drag/services/drag-and-drop.service.ts:241-266 | an end cancels both timers, stops the scroll watch and removes the clone; without a drag nothing is sent; during an animation the send waits on one more subscription; otherwise the result goes out at once |
| Session.OnEndInv | drag/services/drag-and-drop.service.ts:241-266 | an end keeps the invariant |
| Session.TouchPressCancelled | drag/services/drag-and-drop.service.ts:88-118 | a touch that moves or ends before the press delay leaves no press to fire and starts no drag |
| Session.HandleEventInv | drag/services/drag-and-drop.service.ts:88-118 | every event keeps the invariant |
| Session.FirePressInv | drag/services/drag-and-drop.service.ts:103 | the delayed start keeps the invariant |
| Session.PressClearedInv | drag/services/drag-and-drop.service.ts:95-103 | recording a touch's page Y and consuming the press timer keep the invariant |
| Session.StartRecordsNoIndex | drag/services/drag-and-drop.service.ts:128-161 | outside a drag, a start records no reorder index, starts no animation and sends nothing |
| Session.EndWithoutIndexSendsNothing | drag/services/drag-and-drop.service.ts:241-266 | an end with no reorder index recorded and no animation running sends nothing |
| Session.StartThenEndSendsNothing | drag/services/drag-and-drop.service.ts:88-118 | outside a drag, a start followed by an end sends no result |
| Session.ClickEmitsNothing | drag/services/drag-and-drop.service.ts:88-118 | a mouse press released with no movement in between sends no result |
| Session.TapEmitsNothing | drag/services/drag-and-drop.service.ts:88-118 | a touch press that fires after the delay and is lifted with no movement in between sends no result |
| Session.FindTargetEffect | drag/services/drag-and-drop.service.ts:304-325 | the target becomes the resolved element exactly when it passes the focus test, and is cleared otherwise; the call throws exactly when a touch finds no element under it (line 482) or the focus test throws; afterwards no eligible child but the dragged one has the target class; nothing else changes |
| Session.TargetMarkRemoved | drag/services/drag-and-drop.service.ts:317-324 | a target that is an eligible child other than the dragged one stays the target but loses the target class |
| Session.FindTargetInv | drag/services/drag-and-drop.service.ts:304-325 | the hit test keeps the invariant |
| Session.ReplaceEffect | drag/services/drag-and-drop.service.ts:327-350 | nothing happens unless both elements are set and not node-equal; then both indices are their `indexOf` positions, the animation runs and the shift is drawn |
| Session.ReplaceSwapsPicked | drag/services/drag-and-drop.service.ts:327-331 | a target without the pick-up mark is never node-equal to the marked dragged element, so the reorder runs and records both `indexOf` positions |
| Session.ReplaceInv | drag/services/drag-and-drop.service.ts:327-350 | the reorder keeps the invariant |
| Session.FireDropInv | drag/services/drag-and-drop.service.ts:232-235 | the drop timer keeps the invariant |
| Session.FireAnimationEffect | drag/services/drag-and-drop.service.ts:337-346 | the commit makes the snapshot a permutation with the element from `initialIndex` at `fetchedIndex`; a deferred result is sent only after it, and carries the start index and the fetched index; at most one subscription ends |
| Session.FireAnimationInv | drag/services/drag-and-drop.service.ts:337-346 | the commit keeps the invariant |
| Session.DoubleEndLeavesSubscription | drag/services/drag-and-drop.service.ts:256-260 | two ends during one animation leave one subscription alive after the commit |
| Session.LeftoverSubscriptionEndsDrag | drag/services/drag-and-drop.service.ts:256-260 | a leftover subscription ends the current drag at its first commit, and stays subscribed once the field no longer holds a live one |
| Session.EmittedPairIsNetMove | drag/services/drag-and-drop.service.ts:460-464 | after a commit, `indexOf` finds the dragged element at the fetched index, so `{startDragIndex, last fetchedIndex}` describes the net reorder of two commits |
| Session.TickEffect | drag/services/drag-and-drop.service.ts:170-192 | a tick acts only while an element is dragged, with the clone attached; it moves by one pixel exactly when it reports scrolling, down only below the end of the range and up only above 0; the step is down when the clone sticks out below the container, and up only when it does not but sticks out above; nothing else changes |
| Session.TickInv | drag/services/drag-and-drop.service.ts:170-192 | a tick keeps the invariant |
| Service.DragAndDropService.constructor | drag/services/drag-and-drop.service.ts:72-81 | the fields start as `Session.Exchange` says, satisfying the invariant |
| Service.DragAndDropService.Configure | drag/services/drag-and-drop.service.ts:83-86 | the fields change as `Session.Configure` says, and the invariant holds |
| Service.DragAndDropService.HandleEvent | drag/services/drag-and-drop.service.ts:88-118 | the fields change as `Session.HandleEvent` says, and the invariant holds |
| Service.DragAndDropService.FirePress | drag/services/drag-and-drop.service.ts:103 | the delayed start changes the fields as `Session.FirePress` says, and the invariant holds |
| Service.DragAndDropService.EventsOnStart | drag/services/drag-and-drop.service.ts:128-161 | the fields change as `Session.OnStart` says |
| Service.DragAndDropService.GetDraggedClone | drag/services/drag-and-drop.service.ts:284-302 | throws exactly when the focus test does, changing nothing; otherwise it picks up, marks and clones the element exactly when the test accepts it |
| Service.DragAndDropService.EventsOnMove | drag/services/drag-and-drop.service.ts:221-239 | the fields change as `Session.OnMove` says |
| Service.DragAndDropService.AttachSwipeScroll | drag/services/drag-and-drop.service.ts:195-219 | records the pointer Y and stores the swipe scroll of `Scroll.SwipeScroll`; nothing else changes |
| Service.DragAndDropService.EventsOnEnd | drag/services/drag-and-drop.service.ts:241-266 | the fields change as `Session.OnEnd` says |
| Service.DragAndDropService.SendResult | drag/services/drag-and-drop.service.ts:455-473 | the fields change as `Session.SendResult` says |
| Service.DragAndDropService.ResetItemsAnimation | drag/services/drag-and-drop.service.ts:268-282 | the pick-up flag is cleared, and the `for` loop puts the dragged element and every eligible child at rest (`ResetStyles`) |
| Service.DragAndDropService.SetDefaultState | drag/services/drag-and-drop.service.ts:390-401 | the drag is over, the pick-up mark is off, and no eligible child has the target class (`DefaultStyles`) |
| Service.DragAndDropService.RemoveAllTargetClasses | drag/services/drag-and-drop.service.ts:403-407 | the loop removes the target class from every eligible child, and nothing else changes |
| Service.DragAndDropService.FireDrop | drag/services/drag-and-drop.service.ts:232-235 | the fields change as `Session.FireDrop` says, and the invariant holds |
| Service.DragAndDropService.FindElementUnderDraggedClone | drag/services/drag-and-drop.service.ts:304-325 | throws exactly when `Session.FindTarget` does (a touch with no element under it, or the focus test throwing), changing nothing; otherwise the fields become what it gives |
| Service.DragAndDropService.ReplaceElements | drag/services/drag-and-drop.service.ts:327-350 | the fields change as `Session.Replace` says |
| Service.DragAndDropService.Animate | drag/services/drag-and-drop.service.ts:352-388 | only the styles change, to `Cascade.AnimateStyles` of the old ones |
| Service.DragAndDropService.FireAnimation | drag/services/drag-and-drop.service.ts:337-346 | the two `splice` calls and the signal change the fields as `Session.FireAnimation` says, and the invariant holds |
| Service.DragAndDropService.Tick | drag/services/drag-and-drop.service.ts:170-192 | the interval body changes the fields as `Session.Tick` says, and the invariant holds |

## Left out

- Clone geometry is not modelled (`moveToInitialElement`, `moveCenterOfElementToCursor`, `toggleDefaultStylesForDraggedElement`, lines 409-436). It uses fractional screen coordinates from `getBoundingClientRect` and affects only how the clone is drawn. The clone's `offsetTop` and `clientHeight` come into `Tick` as parameters.
- `toggleDefaultStylesForBody` (lines 438-449) is not modelled: it only sets the body's `user-select` and adds or removes the container's `active` class.
- The `overflow: hidden` style `exchange` puts on the container (line 76) is not modelled as a style. It turns off the browser's own scrolling of the container, which is why the service scrolls it itself: the model's only scroll changes are the auto-scroll tick and the swipe scroll.
- `attachEvents` and `detachEvents` (lines 120-126) are not modelled. The rxjs `interval`/`Subject`/`Subscription` plumbing and the durations of `setTimeout` are not modelled either. Events reach `HandleEvent`, and timers fire through `FirePress`, `FireDrop`, `FireAnimation` and `Tick`, in whatever order the caller chooses.
- The touch-versus-mouse `try`/`catch` (lines 96-100, 155-159, 197-203) is not modelled: the pointer's page Y is a field of the event.
- `elementFromPoint` (line 310) is a parameter of `FireDrop`, and `cloneNode` (line 290) is the flag `phase.cloneAttached`. Both are browser oracles.
- `prevMoveY` (lines 156-158) is never read, so it is not modelled.
- `moveElements`, `dragAndDropTransition` and the `events` list are not modelled: they are constants or unused.
- A second `touchstart` before the press delay overwrites `triggerForEvents` and leaves the first timer running. The model keeps one pending press, the latest.
- A second call of `exchange` on the same service is not modelled: the constructor is the only `exchange`.
- `Dom.Layout.NodeEqual`: `isEqualNode` compares the tag, the attributes and the subtree. The model compares a fingerprint of what the service never writes, plus the class list and the inline `top` and `left` it does write. The class list is compared as a set, while `isEqualNode` compares the text of the `class` attribute, in which order and repeats matter.
- The page layout is fixed during a session: offsets do not move when styles change or the container scrolls.
- `Position.Px`: offsets, pointer coordinates and scroll positions are taken to be integers of magnitude below 2^53. JavaScript numbers are doubles: `pageY` and `scrollTop` can be fractional, so the swipe (lines 206-218) can store a fractional position, and an integer of magnitude 10^21 or more prints as `1e+21`, which `getPosition` reads back as 21. None of this is modelled.
- `Position.PxRoundTrip`: it holds for every integer of the model, which stands only for the JavaScript integers of magnitude below 2^53.
- Neither `projects/halloland-ng2-drag-and-drop/src/lib/drag/drag.component.ts` nor `projects/halloland-ng2-drag-and-drop/src/lib/halloland-ng2-drag-and-drop.module.ts` is part of this model: they only forward the result stream to an `EventEmitter` and register the module.
- The snapshot `currentElements` is a sequence that `FireAnimation` reassigns, not an array updated in place. No other reference to the array exists, so no aliasing is lost.
- The service's fields are grouped into records (`settings`, `phase`, `drag`, `scroll`, `timers`). Each field's comment names the source fields it holds.
