/** The drag-and-drop session as a state machine over values: the service's
    fields together with the parts of the page it writes, and one function per
    event handler and timer callback. The class `DragAndDropService` runs the
    same steps in place and is proved against these functions. */
module Session {
  import opened Wrappers
  import opened ArrayOps
  import opened Position
  import opened Dom
  import opened Cascade
  import opened Scroll

  /** The event types the service listens to on its container. */
  datatype EventKind = MouseDown | MouseMove | MouseUp | MouseLeave | TouchStart | TouchMove | TouchEnd | TouchCancel

  predicate IsTouch(k: EventKind) {
    k == TouchStart || k == TouchMove || k == TouchEnd || k == TouchCancel
  }

  /** A pointer event: its type, the element it was dispatched to and the
      pointer's page Y (of the first touch for touch events). */
  datatype PointerEvent = PointerEvent(kind: EventKind, target: ElemId, pageY: int)

  /** The object sent on the result stream. */
  datatype DragResult = DragResult(initialIndex: Option<int>, fetchedIndex: int)

  /** What the service is given by `exchange`: the container (through the
      page layout), the configured child class, and the container's
      `scrollHeight`, `clientHeight` and `offsetTop`. */
  datatype Host = Host(layout: Layout, childClass: string, scrollHeight: int, clientHeight: int, offsetTop: int)

  ghost predicate HostOk(h: Host) {
    h.layout.WellFormed() && 0 <= h.clientHeight
  }

  const DefaultPressDelay := 200

  /** The options `configure` sets. */
  datatype Settings = Settings(canMove: bool, pressDelay: int)

  /** Where the session stands: a drag is active, an element was picked up,
      the shift animation runs, the clone is attached to the page. */
  datatype Phase = Phase(activeMove: bool, foundDraggableElement: bool, animationActive: bool, cloneAttached: bool)

  /** The drag-start snapshot, the dragged and hovered elements, and the three
      indices (`None` for `undefined`). */
  datatype Drag = Drag(currentElements: seq<ElemId>, draggedElement: Option<ElemId>, targetElement: Option<ElemId>,
                       startDragIndex: Option<int>, initialIndex: Option<int>, fetchedIndex: Option<int>)

  /** The container's `scrollTop`, the scroll height recorded at the start,
      the last pointer Y seen by the swipe scroll, whether the last tick
      scrolled, and whether the auto-scroll interval is subscribed. */
  datatype ScrollState = ScrollState(scrollTop: int, parentScrollHeight: int, prevMoveYScroll: int,
                                     scrollActive: bool, scrollWatch: bool)

  /** Pending callbacks: `pressTimer` and `dropTimer` hold the event a pending
      `triggerForEvents` / `dropTimeout` callback captured (the animation
      timeout is pending exactly while `animationActive`). `subscribers`
      counts the live subscriptions to the animation signal, and `handleLive`
      says whether the one stored in `animationSubscription` (the latest) is
      still among them: each subscription's callback unsubscribes whatever
      that field holds, not itself. */
  datatype Timers = Timers(pressTimer: Option<PointerEvent>, dropTimer: Option<PointerEvent>, subscribers: nat,
                           handleLive: bool)

  /** The service's fields, the styles it wrote on the page and the results
      sent so far. */
  datatype State = State(settings: Settings, phase: Phase, drag: Drag, scroll: ScrollState, timers: Timers,
                         styles: Styles, emitted: seq<DragResult>)

  predicate IndexIn(i: Option<int>, n: nat) {
    i.Some? && -1 <= i.value < n
  }

  /** What every reachable state satisfies. */
  ghost predicate Inv(h: Host, s: State) {
    var l := h.layout;
    HostOk(h)
    && Distinct(s.drag.currentElements)
    && (forall x :: x in s.drag.currentElements ==> x in l.nodes)
    && (s.phase.activeMove ==> |s.drag.currentElements| > 1)
    && (s.drag.draggedElement.Some? ==> s.drag.draggedElement.value in l.nodes)
    && (s.drag.targetElement.Some? ==> s.drag.targetElement.value in l.nodes)
    && (s.phase.foundDraggableElement ==> s.phase.activeMove && s.drag.draggedElement.Some?)
    && (s.scroll.scrollWatch && s.phase.foundDraggableElement ==> s.phase.cloneAttached)
    && (s.timers.pressTimer.Some? ==> s.timers.pressTimer.value.target in l.nodes)
    && (s.timers.dropTimer.Some? ==> s.phase.foundDraggableElement && !s.phase.animationActive && s.timers.dropTimer.value.target in l.nodes)
    && (s.phase.animationActive ==>
          s.phase.activeMove && IndexIn(s.drag.initialIndex, |s.drag.currentElements|) && IndexIn(s.drag.fetchedIndex, |s.drag.currentElements|))
    && 0 <= s.scroll.scrollTop <= MaxScroll(h.scrollHeight, h.clientHeight)
    && s.scroll.parentScrollHeight == h.scrollHeight
    && (s.timers.handleLive ==> s.timers.subscribers > 0)
    && (!s.phase.activeMove ==> s.drag.initialIndex.None? && s.drag.fetchedIndex.None?)
  }

  // ---------------------------------------------------------------------------
  // exchange and configure

  /** `exchange`: the service attached to a container whose elements carry
      `styles` and whose scroll position is `scrollTop`. */
  function Exchange(h: Host, styles: Styles, scrollTop: int): (s: State)
    ensures !s.phase.activeMove && !s.phase.foundDraggableElement && !s.phase.animationActive && s.emitted == []
    ensures s.settings.canMove && s.settings.pressDelay == DefaultPressDelay
    ensures s.scroll.parentScrollHeight == h.scrollHeight && s.scroll.scrollTop == scrollTop
  {
    State(Settings(true, DefaultPressDelay), Phase(false, false, false, false),
          Drag([], None, None, None, None, None), ScrollState(scrollTop, h.scrollHeight, 0, false, false),
          Timers(None, None, 0, false), styles, [])
  }

  lemma ExchangeInv(h: Host, styles: Styles, scrollTop: int)
    requires HostOk(h) && 0 <= scrollTop <= MaxScroll(h.scrollHeight, h.clientHeight)
    ensures Inv(h, Exchange(h, styles, scrollTop))
  {
  }

  /** `configure`: each option given replaces the current one. */
  function Configure(s: State, move: Option<bool>, pressDelay: Option<int>): State {
    s.(settings := Settings(if move.Some? then move.value else s.settings.canMove,
                            if pressDelay.Some? then pressDelay.value else s.settings.pressDelay))
  }

  /** Configuring touches no drag state: every invariant survives, and an
      option left out keeps its value. */
  lemma ConfigureInv(h: Host, s: State, move: Option<bool>, pressDelay: Option<int>)
    requires Inv(h, s)
    ensures Inv(h, Configure(s, move, pressDelay))
    ensures move.None? ==> Configure(s, move, pressDelay).settings.canMove == s.settings.canMove
    ensures pressDelay.None? ==> Configure(s, move, pressDelay).settings.pressDelay == s.settings.pressDelay
    ensures Configure(s, move, pressDelay).(settings := s.settings) == s
  {
  }

  // ---------------------------------------------------------------------------
  // eventsOnStart

  /** The test of the `find` in `eventsOnStart`, on the styles `st` of the
      moment: `el` is node-equal to the dragged element and lies at the same
      offsets. */
  predicate SameSpot(l: Layout, st: Styles, el: ElemId, d: ElemId)
    requires el in l.nodes && d in l.nodes
  {
    l.NodeEqual(st, el, d) && l.nodes[el].offsetTop == l.nodes[d].offsetTop
    && l.nodes[el].offsetLeft == l.nodes[d].offsetLeft
  }

  /** `Array.prototype.find` over the snapshot from position `i` on: the first
      position passing the test, or none. */
  function FindSameSpot(l: Layout, st: Styles, ce: seq<ElemId>, d: ElemId, i: nat): (r: Option<nat>)
    requires i <= |ce| && d in l.nodes && forall x :: x in ce ==> x in l.nodes
    ensures r.Some? ==> i <= r.value < |ce| && SameSpot(l, st, ce[r.value], d)
                        && forall j :: i <= j < r.value ==> !SameSpot(l, st, ce[j], d)
    ensures r.None? ==> forall j :: i <= j < |ce| ==> !SameSpot(l, st, ce[j], d)
    decreases |ce| - i
  {
    if i == |ce| then None
    else if SameSpot(l, st, ce[i], d) then Some(i)
    else FindSameSpot(l, st, ce, d, i + 1)
  }

  /** The new `startDragIndex`: the position found, or the old value when the
      search finds nothing (or there is no dragged element to compare with). */
  function StartIndex(l: Layout, st: Styles, ce: seq<ElemId>, dragged: Option<ElemId>, prev: Option<int>): Option<int>
    requires dragged.Some? ==> dragged.value in l.nodes
    requires forall x :: x in ce ==> x in l.nodes
  {
    if dragged.None? then prev
    else match FindSameSpot(l, st, ce, dragged.value, 0)
      case None => prev
      case Some(i) => Some(i)
  }

  /** The pick-up mark sets the dragged element apart: while it is the only
      element of the snapshot carrying the mark, the start index is its
      `indexOf` position when it is in the snapshot, and the previous value
      when it is not. */
  lemma StartIndexIsPosition(l: Layout, st: Styles, ce: seq<ElemId>, d: ElemId, prev: Option<int>)
    requires d in l.nodes && forall x :: x in ce ==> x in l.nodes
    requires DraggedMarkClass in AttrsOf(st, d).classes
    requires forall x :: x in ce && x != d ==> DraggedMarkClass !in AttrsOf(st, x).classes
    ensures d in ce ==> StartIndex(l, st, ce, Some(d), prev) == Some(IndexOf(ce, d))
    ensures d !in ce ==> StartIndex(l, st, ce, Some(d), prev) == prev
  {
    var r := FindSameSpot(l, st, ce, d, 0);
    if d in ce {
      var i := IndexOf(ce, d);
      assert SameSpot(l, st, ce[i], d);
      assert r.Some?;
      var j := r.value;
      assert j <= i;
      assert ce[j] == d;
      IndexOfFirst(ce, d, j);
    }
  }

  /** The guard of `eventsOnStart`. */
  predicate CanStart(h: Host, s: State)
    requires h.layout.WellFormed()
  {
    !s.phase.activeMove && s.settings.canMove && |Eligible(h.layout)| > 1
  }

  /** `eventsOnStart`: mark the drag active, start watching for auto-scroll,
      snapshot the eligible children, pick up the element under the pointer
      (`getDraggedClone`) and locate it in the snapshot. When the focus test
      raises (a class is configured and the pointer resolves to no element)
      the rest of the handler is skipped. */
  function OnStart(h: Host, s: State, ev: PointerEvent): State
    requires h.layout.WellFormed() && ev.target in h.layout.nodes
    requires s.drag.draggedElement.Some? ==> s.drag.draggedElement.value in h.layout.nodes
  {
    var l := h.layout;
    if !CanStart(h, s) then s
    else
      var ce := Eligible(l);
      var s1 := s.(phase := s.phase.(activeMove := true),
                   scroll := s.scroll.(parentScrollHeight := h.scrollHeight, scrollWatch := true),
                   drag := s.drag.(currentElements := ce));
      var target := ParentTarget(l, Some(ev.target));
      match FocusElement(l, s.styles, target, h.childClass)
      case None => s1
      case Some(found) =>
        var s2 := if found then
                    s1.(phase := s1.phase.(foundDraggableElement := true, cloneAttached := true),
                        drag := s1.drag.(draggedElement := target),
                        styles := AddClass(s1.styles, target.value, DraggedMarkClass))
                  else s1.(phase := s1.phase.(foundDraggableElement := false));
        s2.(drag := s2.drag.(startDragIndex := StartIndex(l, s2.styles, ce, s2.drag.draggedElement, s2.drag.startDragIndex)))
  }

  /** The start guard: nothing happens while a drag is active, when moving
      is not allowed, or when at most one child is eligible. */
  lemma OnStartGuard(h: Host, s: State, ev: PointerEvent)
    requires Inv(h, s) && ev.target in h.layout.nodes && !CanStart(h, s)
    ensures OnStart(h, s, ev) == s
  {
  }

  /** A start that passes the guard makes the drag active, watches for
      auto-scroll and snapshots the eligible children; the element the
      pointer resolves to is picked up (marked, cloned) exactly when it passes
      the focus test; no index and no result changes. */
  lemma OnStartEffect(h: Host, s: State, ev: PointerEvent)
    requires Inv(h, s) && ev.target in h.layout.nodes && CanStart(h, s)
    ensures var r := OnStart(h, s, ev);
            var l := h.layout;
            var t := ParentTarget(l, Some(ev.target));
            r.phase.activeMove && r.scroll.scrollWatch && r.drag.currentElements == Eligible(l)
            && (r.phase.foundDraggableElement <==> FocusElement(l, s.styles, t, h.childClass) == Some(true))
            && (r.phase.foundDraggableElement ==>
                  r.drag.draggedElement == t && r.phase.cloneAttached
                  && DraggedMarkClass in AttrsOf(r.styles, t.value).classes)
            && r.emitted == s.emitted && r.drag.initialIndex == s.drag.initialIndex
            && r.drag.fetchedIndex == s.drag.fetchedIndex
  {
    var l := h.layout;
    var t := ParentTarget(l, Some(ev.target));
    var s1 := s.(phase := s.phase.(activeMove := true),
                 scroll := s.scroll.(parentScrollHeight := h.scrollHeight, scrollWatch := true),
                 drag := s.drag.(currentElements := Eligible(l)));
    var r := OnStart(h, s, ev);
    match FocusElement(l, s.styles, t, h.childClass)
    case None =>
      assert r == s1;
    case Some(found) =>
      assert r.phase == (if found then s1.phase.(foundDraggableElement := true, cloneAttached := true)
                         else s1.phase.(foundDraggableElement := false));
      assert r.emitted == s.emitted && r.scroll == s1.scroll;
      assert r.drag.currentElements == Eligible(l);
      assert found ==> r.drag.draggedElement == t && r.styles == AddClass(s.styles, t.value, DraggedMarkClass);
  }

  /** The start index of a picked-up element is the first snapshot position
      holding an element node-equal to it at the same offsets; when there is
      none, the start index of an earlier drag stays. */
  lemma OnStartIndex(h: Host, s: State, ev: PointerEvent)
    requires Inv(h, s) && ev.target in h.layout.nodes && CanStart(h, s)
    requires OnStart(h, s, ev).phase.foundDraggableElement
    ensures var r := OnStart(h, s, ev);
            var l := h.layout;
            var t := ParentTarget(l, Some(ev.target)).value;
            var ce := Eligible(l);
            ((exists j :: 0 <= j < |ce| && SameSpot(l, r.styles, ce[j], t)) ==>
               r.drag.startDragIndex.Some? && 0 <= r.drag.startDragIndex.value < |ce|
               && SameSpot(l, r.styles, ce[r.drag.startDragIndex.value], t)
               && forall k :: 0 <= k < r.drag.startDragIndex.value ==> !SameSpot(l, r.styles, ce[k], t))
            && ((forall j :: 0 <= j < |ce| ==> !SameSpot(l, r.styles, ce[j], t)) ==> r.drag.startDragIndex == s.drag.startDragIndex)
  {
    OnStartEffect(h, s, ev);
    var l := h.layout;
    var t := ParentTarget(l, Some(ev.target));
    var r := OnStart(h, s, ev);
    assert r.drag.startDragIndex == StartIndex(l, r.styles, Eligible(l), t, s.drag.startDragIndex);
  }

  /** The pick-up mark turns the `find` into an identity test: when no other
      eligible child carries the mark before the start, the picked-up element
      is located at its own position, and an element outside the snapshot
      leaves the previous start index. */
  lemma OnStartLocatesPicked(h: Host, s: State, ev: PointerEvent)
    requires Inv(h, s) && ev.target in h.layout.nodes && CanStart(h, s)
    requires OnStart(h, s, ev).phase.foundDraggableElement
    requires forall x :: x in Eligible(h.layout) && Some(x) != ParentTarget(h.layout, Some(ev.target)) ==>
               DraggedMarkClass !in AttrsOf(s.styles, x).classes
    ensures var r := OnStart(h, s, ev);
            var t := ParentTarget(h.layout, Some(ev.target)).value;
            var ce := Eligible(h.layout);
            (t in ce ==> r.drag.startDragIndex == Some(IndexOf(ce, t)))
            && (t !in ce ==> r.drag.startDragIndex == s.drag.startDragIndex)
  {
    OnStartEffect(h, s, ev);
    var l := h.layout;
    var t := ParentTarget(l, Some(ev.target));
    var r := OnStart(h, s, ev);
    var ce := Eligible(l);
    assert r.styles == AddClass(s.styles, t.value, DraggedMarkClass);
    assert r.drag.startDragIndex == StartIndex(l, r.styles, ce, t, s.drag.startDragIndex);
    StartIndexIsPosition(l, r.styles, ce, t.value, s.drag.startDragIndex);
  }

  lemma OnStartInv(h: Host, s: State, ev: PointerEvent)
    requires Inv(h, s) && ev.target in h.layout.nodes
    ensures Inv(h, OnStart(h, s, ev))
  {
    if CanStart(h, s) {
      EligibleSnapshot(h.layout);
      OnStartEffect(h, s, ev);
      var r := OnStart(h, s, ev);
      assert r.timers == s.timers && r.scroll.scrollTop == s.scroll.scrollTop;
      assert r.phase.animationActive == s.phase.animationActive && r.phase.activeMove;
    }
  }

  // ---------------------------------------------------------------------------
  // eventsOnMove

  /** `eventsOnMove`: cancel the press timer, apply the swipe scroll, and while
      an element is dragged restart the drop timer (unless an animation or an
      auto-scroll is running). */
  function OnMove(h: Host, s: State, ev: PointerEvent): State {
    var diff := s.scroll.prevMoveYScroll - ev.pageY;
    var s1 := s.(timers := s.timers.(pressTimer := None),
                 scroll := s.scroll.(prevMoveYScroll := ev.pageY,
                                     scrollTop := SwipeScroll(s.phase.foundDraggableElement || s.phase.activeMove,
                                                              s.scroll.scrollTop, h.scrollHeight, h.clientHeight, diff)));
    if s1.phase.activeMove && s1.phase.foundDraggableElement then
      s1.(timers := s1.timers.(dropTimer := if !s1.phase.animationActive && !s1.scroll.scrollActive then Some(ev) else None))
    else s1
  }

  /** A move always records the pointer's Y and cancels the press timer; it
      scrolls only when no drag is active and nothing was picked up, by the
      finger's travel saturated to the scroll range; and it arms the drop
      timer exactly when an element is dragged with no animation or
      auto-scroll running. */
  lemma OnMoveEffect(h: Host, s: State, ev: PointerEvent)
    requires Inv(h, s)
    ensures var r := OnMove(h, s, ev);
            r.scroll.prevMoveYScroll == ev.pageY && r.timers.pressTimer.None?
            && (s.phase.activeMove || s.phase.foundDraggableElement || h.clientHeight >= h.scrollHeight ==> r.scroll.scrollTop == s.scroll.scrollTop)
            && (!s.phase.activeMove && !s.phase.foundDraggableElement && h.clientHeight < h.scrollHeight ==>
                  r.scroll.scrollTop == StoreScroll(s.scroll.scrollTop + (s.scroll.prevMoveYScroll - ev.pageY), h.scrollHeight, h.clientHeight))
            && (r.timers.dropTimer == Some(ev) <==> s.phase.foundDraggableElement && !s.phase.animationActive && !s.scroll.scrollActive)
            && (s.phase.foundDraggableElement ==> r.timers.dropTimer.None? || r.timers.dropTimer == Some(ev))
            && r.emitted == s.emitted && r.phase.activeMove == s.phase.activeMove && r.styles == s.styles
  {
    if !s.phase.activeMove && !s.phase.foundDraggableElement && h.clientHeight < h.scrollHeight {
      SwipeFollowsFinger(s.scroll.scrollTop, h.scrollHeight, h.clientHeight, s.scroll.prevMoveYScroll - ev.pageY);
    }
  }

  lemma OnMoveInv(h: Host, s: State, ev: PointerEvent)
    requires Inv(h, s) && ev.target in h.layout.nodes
    ensures Inv(h, OnMove(h, s, ev))
  {
  }

  // ---------------------------------------------------------------------------
  // sendResult

  /** `resetItemsAnimation`'s style writes over the eligible children `els`:
      the dragged element, then each child, back at rest. */
  function ResetStyles(st: Styles, els: seq<ElemId>, dragged: Option<ElemId>): Styles {
    var st1 := if dragged.Some? then st[dragged.value := Rest(AttrsOf(st, dragged.value))] else st;
    RestAll(st1, els)
  }

  /** `setDefaultState`'s style writes: the pick-up mark off the dragged
      element, the target class off every eligible child. */
  function DefaultStyles(st: Styles, els: seq<ElemId>, dragged: Option<ElemId>): Styles {
    var st1 := if dragged.Some? then RemoveClass(st, dragged.value, DraggedMarkClass) else st;
    StripClass(st1, els, TargetClass)
  }

  /** The styles `sendResult` leaves: `resetItemsAnimation`, then
      `setDefaultState`. */
  function Settle(st: Styles, els: seq<ElemId>, dragged: Option<ElemId>): Styles {
    DefaultStyles(ResetStyles(st, els, dragged), els, dragged)
  }

  /** What settling does to one element, given whether it is an eligible
      child and whether it is the dragged element. */
  function SettledAttrs(a: Attrs, eligible: bool, dragged: bool): Attrs {
    var a1 := if dragged then Rest(a) else a;
    var a2 := if eligible then Rest(a1) else a1;
    var a3 := if dragged then a2.(classes := a2.classes - {DraggedMarkClass}) else a2;
    if eligible then a3.(classes := a3.classes - {TargetClass}) else a3
  }

  lemma SettledAttrsIdempotent(a: Attrs, eligible: bool, dragged: bool)
    ensures SettledAttrs(SettledAttrs(a, eligible, dragged), eligible, dragged) == SettledAttrs(a, eligible, dragged)
  {
  }

  /** Settling acts element by element. */
  lemma SettlePointwise(st: Styles, els: seq<ElemId>, dragged: Option<ElemId>)
    ensures forall e :: AttrsOf(Settle(st, els, dragged), e)
                          == SettledAttrs(AttrsOf(st, e), e in els, Some(e) == dragged)
    ensures forall e :: e in Settle(st, els, dragged) <==> e in st || e in els || Some(e) == dragged
  {
    var st1 := if dragged.Some? then st[dragged.value := Rest(AttrsOf(st, dragged.value))] else st;
    var st2 := RestAll(st1, els);
    var st3 := if dragged.Some? then RemoveClass(st2, dragged.value, DraggedMarkClass) else st2;
    var st4 := StripClass(st3, els, TargetClass);
    assert st4 == Settle(st, els, dragged);
    forall e: ElemId ensures AttrsOf(st4, e) == SettledAttrs(AttrsOf(st, e), e in els, Some(e) == dragged) {
      assert AttrsOf(st1, e) == if Some(e) == dragged then Rest(AttrsOf(st, e)) else AttrsOf(st, e);
    }
  }

  /** Every element of `els` ends at rest: no transition or target class and
      inline offsets `'0'`; the dragged element loses its pick-up mark and its
      transition class; no other element is touched. */
  lemma SettleRests(st: Styles, els: seq<ElemId>, dragged: Option<ElemId>)
    ensures var r := Settle(st, els, dragged);
            (forall e :: e in els ==>
               TransitionClass !in AttrsOf(r, e).classes
               && TargetClass !in AttrsOf(r, e).classes
               && AttrsOf(r, e).styleTop == "0" && AttrsOf(r, e).styleLeft == "0")
            && (dragged.Some? ==>
                  DraggedMarkClass !in AttrsOf(r, dragged.value).classes
                  && TransitionClass !in AttrsOf(r, dragged.value).classes)
            && (forall e :: e !in els && Some(e) != dragged ==> AttrsOf(r, e) == AttrsOf(st, e))
  {
    SettlePointwise(st, els, dragged);
  }

  /** After settling, every eligible child is drawn at its layout position. */
  lemma SettleDrawsAtRest(l: Layout, st: Styles, dragged: Option<ElemId>)
    requires l.WellFormed()
    ensures forall e :: e in Eligible(l) ==>
              VisualTop(l, Settle(st, Eligible(l), dragged), e) == l.nodes[e].offsetTop
              && VisualLeft(l, Settle(st, Eligible(l), dragged), e) == l.nodes[e].offsetLeft
  {
    EligibleSnapshot(l);
    ResetValueReadsZero();
    SettleRests(st, Eligible(l), dragged);
  }

  /** Settling twice is settling once. */
  lemma SettleIdempotent(st: Styles, els: seq<ElemId>, dragged: Option<ElemId>)
    ensures Settle(Settle(st, els, dragged), els, dragged) == Settle(st, els, dragged)
  {
    var r := Settle(st, els, dragged);
    var r2 := Settle(r, els, dragged);
    SettlePointwise(st, els, dragged);
    SettlePointwise(r, els, dragged);
    forall e: ElemId ensures AttrsOf(r2, e) == AttrsOf(r, e) {
      SettledAttrsIdempotent(AttrsOf(st, e), e in els, Some(e) == dragged);
    }
    assert r2.Keys == r.Keys;
    forall e | e in r ensures r2[e] == r[e] {
      assert AttrsOf(r2, e) == AttrsOf(r, e);
    }
  }

  /** `sendResult`: stop the auto-scroll watch, reset the items, leave the
      drag, send `{startDragIndex, fetchedIndex}` if both indices are set,
      and clear the indices. */
  function SendResult(h: Host, s: State): State
    requires h.layout.WellFormed()
  {
    s.(scroll := s.scroll.(scrollWatch := false),
       phase := s.phase.(foundDraggableElement := false, activeMove := false),
       styles := Settle(s.styles, Eligible(h.layout), s.drag.draggedElement),
       emitted := if s.drag.initialIndex.Some? && s.drag.fetchedIndex.Some?
                  then s.emitted + [DragResult(s.drag.startDragIndex, s.drag.fetchedIndex.value)]
                  else s.emitted,
       drag := s.drag.(initialIndex := None, fetchedIndex := None))
  }

  /** The result emission: exactly one result is sent when both indices are
      set and none otherwise; it carries the start index (not the last
      `initialIndex`) and the last fetched index. Afterwards the indices are
      cleared, the drag and the pick-up are over, the start index and the
      snapshot are kept, and the styles are settled. */
  lemma SendResultEffect(h: Host, s: State)
    requires h.layout.WellFormed()
    ensures var r := SendResult(h, s);
            (s.drag.initialIndex.Some? && s.drag.fetchedIndex.Some? ==>
               r.emitted == s.emitted + [DragResult(s.drag.startDragIndex, s.drag.fetchedIndex.value)])
            && (s.drag.initialIndex.None? || s.drag.fetchedIndex.None? ==> r.emitted == s.emitted)
            && r.drag.initialIndex.None? && r.drag.fetchedIndex.None?
            && !r.phase.activeMove && !r.phase.foundDraggableElement && !r.scroll.scrollWatch
            && r.drag.startDragIndex == s.drag.startDragIndex && r.drag.currentElements == s.drag.currentElements
            && r.styles == Settle(s.styles, Eligible(h.layout), s.drag.draggedElement)
  {
  }

  /** Sending twice is sending once: the second call finds the indices
      cleared and every style already settled. */
  lemma SendResultIdempotent(h: Host, s: State)
    requires h.layout.WellFormed()
    ensures SendResult(h, SendResult(h, s)) == SendResult(h, s)
  {
    SettleIdempotent(s.styles, Eligible(h.layout), s.drag.draggedElement);
  }

  lemma SendResultInv(h: Host, s: State)
    requires Inv(h, s) && !s.phase.animationActive && s.timers.dropTimer.None?
    ensures Inv(h, SendResult(h, s))
  {
  }

  // ---------------------------------------------------------------------------
  // eventsOnEnd

  /** `eventsOnEnd`: cancel both timers, stop the auto-scroll watch, remove the
      clone, and if a drag is active either send the result now or, while an
      animation runs, subscribe to the animation signal to send it later. */
  function OnEnd(h: Host, s: State): State
    requires h.layout.WellFormed()
  {
    var s1 := s.(timers := s.timers.(pressTimer := None, dropTimer := None),
                 scroll := s.scroll.(scrollWatch := false), phase := s.phase.(cloneAttached := false));
    if s1.phase.activeMove then
      if s1.phase.animationActive then s1.(timers := s1.timers.(subscribers := s1.timers.subscribers + 1, handleLive := true))
      else SendResult(h, s1)
    else s1
  }

  /** Any end cancels both timers and removes the clone; nothing is sent when
      no drag is active; while an animation runs the send is deferred by one
      more subscription; otherwise the result goes out at once. */
  lemma OnEndEffect(h: Host, s: State)
    requires h.layout.WellFormed()
    ensures var r := OnEnd(h, s);
            r.timers.pressTimer.None? && r.timers.dropTimer.None? && !r.phase.cloneAttached && !r.scroll.scrollWatch
            && (!s.phase.activeMove ==> r.emitted == s.emitted && r.phase.activeMove == s.phase.activeMove)
            && (s.phase.activeMove && s.phase.animationActive ==>
                  r.emitted == s.emitted && r.phase.activeMove && r.timers.subscribers == s.timers.subscribers + 1 && r.timers.handleLive)
            && (s.phase.activeMove && !s.phase.animationActive ==>
                  !r.phase.activeMove && r.drag.initialIndex.None? && r.drag.fetchedIndex.None?
                  && r.emitted == s.emitted + (if s.drag.initialIndex.Some? && s.drag.fetchedIndex.Some?
                                              then [DragResult(s.drag.startDragIndex, s.drag.fetchedIndex.value)] else []))
  {
  }

  lemma OnEndInv(h: Host, s: State)
    requires Inv(h, s)
    ensures Inv(h, OnEnd(h, s))
  {
  }

  // ---------------------------------------------------------------------------
  // handleEvent and the press timer

  /** `handleEvent`: the dispatch on the event type. A touch start only records
      the pointer's Y and arms the press timer; the drag starts when it fires. */
  function HandleEvent(h: Host, s: State, ev: PointerEvent): State
    requires h.layout.WellFormed() && ev.target in h.layout.nodes
    requires s.drag.draggedElement.Some? ==> s.drag.draggedElement.value in h.layout.nodes
  {
    match ev.kind
    case MouseDown => if s.settings.canMove then OnStart(h, s, ev) else s
    case TouchStart =>
      s.(scroll := s.scroll.(prevMoveYScroll := ev.pageY),
         timers := s.timers.(pressTimer := if s.settings.canMove then Some(ev) else s.timers.pressTimer))
    case MouseMove => OnMove(h, s, ev)
    case TouchMove => OnMove(h, s, ev)
    case _ => OnEnd(h, s)
  }

  predicate IsMoveOrEnd(k: EventKind) {
    k != MouseDown && k != TouchStart
  }

  /** The press timer firing: the delayed `eventsOnStart`. */
  function FirePress(h: Host, s: State): State
    requires h.layout.WellFormed() && s.timers.pressTimer.Some? && s.timers.pressTimer.value.target in h.layout.nodes
    requires s.drag.draggedElement.Some? ==> s.drag.draggedElement.value in h.layout.nodes
  {
    OnStart(h, s.(timers := s.timers.(pressTimer := None)), s.timers.pressTimer.value)
  }

  /** A touch that moves or ends before the press delay never starts a drag:
      the move or end cancels the timer the touch start armed, so no press is
      left to fire, and the drag state is what the move or end made of it. */
  lemma TouchPressCancelled(h: Host, s: State, down: PointerEvent, next: PointerEvent)
    requires Inv(h, s) && down.target in h.layout.nodes && next.target in h.layout.nodes
    requires down.kind == TouchStart && IsMoveOrEnd(next.kind)
    ensures var r := HandleEvent(h, HandleEvent(h, s, down), next);
            r.timers.pressTimer.None? && r.phase.activeMove == (s.phase.activeMove && (next.kind in {MouseMove, TouchMove} || s.phase.animationActive))
  {
  }

  lemma HandleEventInv(h: Host, s: State, ev: PointerEvent)
    requires Inv(h, s) && ev.target in h.layout.nodes
    ensures Inv(h, HandleEvent(h, s, ev))
  {
    match ev.kind
    case MouseDown => OnStartInv(h, s, ev);
    case TouchStart =>
    case MouseMove => OnMoveInv(h, s, ev);
    case TouchMove => OnMoveInv(h, s, ev);
    case _ => OnEndInv(h, s);
  }

  lemma FirePressInv(h: Host, s: State)
    requires Inv(h, s) && s.timers.pressTimer.Some?
    ensures Inv(h, FirePress(h, s))
  {
    OnStartInv(h, s.(timers := s.timers.(pressTimer := None)), s.timers.pressTimer.value);
  }

  /** Outside a drag, a start records no reorder index and starts no
      animation; it sends nothing. */
  lemma StartRecordsNoIndex(h: Host, s: State, ev: PointerEvent)
    requires Inv(h, s) && !s.phase.activeMove && ev.target in h.layout.nodes
    ensures var r := OnStart(h, s, ev);
            r.drag.initialIndex.None? && r.drag.fetchedIndex.None? && !r.phase.animationActive
            && r.emitted == s.emitted && (r.drag.draggedElement.Some? ==> r.drag.draggedElement.value in h.layout.nodes)
  {
    if CanStart(h, s) {
      OnStartEffect(h, s, ev);
      OnStartInv(h, s, ev);
    }
  }

  /** An end with no reorder index recorded and no animation running sends
      nothing. */
  lemma EndWithoutIndexSendsNothing(h: Host, s: State)
    requires h.layout.WellFormed()
    requires s.drag.initialIndex.None? && s.drag.fetchedIndex.None? && !s.phase.animationActive
    ensures OnEnd(h, s).emitted == s.emitted
  {
    OnEndEffect(h, s);
  }

  /** Recording a touch's page Y and clearing the press timer keep the
      invariant. */
  lemma PressClearedInv(h: Host, s: State, y: int)
    requires Inv(h, s)
    ensures Inv(h, s.(scroll := s.scroll.(prevMoveYScroll := y), timers := s.timers.(pressTimer := None)))
  {
  }

  /** Outside a drag, a start followed by an end sends nothing. */
  lemma StartThenEndSendsNothing(h: Host, s: State, ev: PointerEvent, up: PointerEvent)
    requires Inv(h, s) && !s.phase.activeMove
    requires ev.target in h.layout.nodes && up.target in h.layout.nodes
    requires up.kind in {MouseUp, MouseLeave, TouchEnd, TouchCancel}
    ensures HandleEvent(h, OnStart(h, s, ev), up).emitted == s.emitted
  {
    StartRecordsNoIndex(h, s, ev);
    var s1 := OnStart(h, s, ev);
    assert HandleEvent(h, s1, up) == OnEnd(h, s1);
    EndWithoutIndexSendsNothing(h, s1);
  }

  /** A mouse press released with no movement in between sends no result:
      outside a drag no reorder index is recorded, the press does not record
      one, and the release sends only a pair of recorded indices. */
  lemma ClickEmitsNothing(h: Host, s: State, down: PointerEvent, up: PointerEvent)
    requires Inv(h, s) && !s.phase.activeMove
    requires down.target in h.layout.nodes && up.target in h.layout.nodes
    requires down.kind == MouseDown && up.kind in {MouseUp, MouseLeave, TouchEnd, TouchCancel}
    ensures HandleEvent(h, HandleEvent(h, s, down), up).emitted == s.emitted
  {
    if s.settings.canMove {
      StartThenEndSendsNothing(h, s, down, up);
    } else {
      assert HandleEvent(h, s, up) == OnEnd(h, s);
      EndWithoutIndexSendsNothing(h, s);
    }
  }

  /** The same for a touch: the press fires after the delay, then the finger
      lifts without moving, and no result is sent. */
  lemma TapEmitsNothing(h: Host, s: State, down: PointerEvent, up: PointerEvent)
    requires Inv(h, s) && !s.phase.activeMove
    requires down.target in h.layout.nodes && up.target in h.layout.nodes
    requires down.kind == TouchStart && up.kind in {MouseUp, MouseLeave, TouchEnd, TouchCancel}
    requires HandleEvent(h, s, down).timers.pressTimer.Some?
    ensures HandleEvent(h, FirePress(h, HandleEvent(h, s, down)), up).emitted == s.emitted
  {
    var s1 := HandleEvent(h, s, down);
    var s0 := s1.(timers := s1.timers.(pressTimer := None));
    assert s0 == s.(scroll := s.scroll.(prevMoveYScroll := down.pageY), timers := s.timers.(pressTimer := None));
    PressClearedInv(h, s, down.pageY);
    StartThenEndSendsNothing(h, s0, s1.timers.pressTimer.value, up);
  }

  // ---------------------------------------------------------------------------
  // The drop timer: findElementUnderDraggedClone, then replaceElements

  /** `findElementUnderDraggedClone` for the element `hit` under the pointer:
      climb to a child of the container, keep it as the target if it passes
      the focus test (marking it), then take the target class off every
      eligible child but the dragged one. `None` when the call raises: a
      touch whose `elementFromPoint` is `null` (`hit == None`) makes the climb
      read `null.parentElement`, and the focus test raises on its own. */
  function FindTarget(h: Host, s: State, hit: Option<ElemId>): Option<State>
    requires h.layout.WellFormed() && (hit.Some? ==> hit.value in h.layout.nodes)
  {
    var l := h.layout;
    if hit.None? then None
    else
      var t := ParentTarget(l, hit);
      match FocusElement(l, s.styles, t, h.childClass)
      case None => None
      case Some(ok) =>
        var s1 := if ok then s.(drag := s.drag.(targetElement := t), styles := AddClass(s.styles, t.value, TargetClass))
                  else s.(drag := s.drag.(targetElement := None));
        Some(s1.(styles := StripClass(s1.styles, Except(Eligible(l), s1.drag.draggedElement), TargetClass)))
  }

  /** The hit test: the target becomes the element the pointer resolves to
      when it passes the focus test and is cleared otherwise; the call raises
      exactly when there is no element under the pointer or the focus test
      raises. Afterwards no eligible child but the dragged one carries the
      target class, and the rest of the state is untouched. */
  lemma FindTargetEffect(h: Host, s: State, hit: Option<ElemId>)
    requires h.layout.WellFormed() && (hit.Some? ==> hit.value in h.layout.nodes)
    ensures var l := h.layout;
            var t := ParentTarget(l, hit);
            var focus := FocusElement(l, s.styles, t, h.childClass);
            var r := FindTarget(h, s, hit);
            (r.None? <==> hit.None? || focus.None?)
            && (r.Some? ==>
                  (r.value.drag.targetElement.Some? <==> focus == Some(true))
                  && (focus == Some(true) ==> r.value.drag.targetElement == t)
                  && (forall e :: e in Eligible(l) && Some(e) != s.drag.draggedElement ==>
                        TargetClass !in AttrsOf(r.value.styles, e).classes)
                  && r.value.(drag := s.drag, styles := s.styles) == s
                  && r.value.drag == s.drag.(targetElement := r.value.drag.targetElement))
  {
  }

  /** The target class is taken off the very child just marked: when the
      target is an eligible child other than the dragged element, it is kept
      as the target but ends up without the class. */
  lemma TargetMarkRemoved(h: Host, s: State, hit: Option<ElemId>)
    requires h.layout.WellFormed() && (hit.Some? ==> hit.value in h.layout.nodes)
    requires FindTarget(h, s, hit).Some?
    requires var t := FindTarget(h, s, hit).value.drag.targetElement;
             t.Some? && t.value in Eligible(h.layout) && t != s.drag.draggedElement
    ensures var r := FindTarget(h, s, hit).value;
            TargetClass !in AttrsOf(r.styles, r.drag.targetElement.value).classes
  {
  }

  /** `replaceElements`: when a dragged and a target element are both set and
      not node-equal, locate both in the snapshot, start the animation and
      shift the elements between them. */
  function Replace(h: Host, s: State): State
    requires h.layout.WellFormed()
    requires s.drag.draggedElement.Some? ==> s.drag.draggedElement.value in h.layout.nodes
    requires s.drag.targetElement.Some? ==> s.drag.targetElement.value in h.layout.nodes
    requires forall x :: x in s.drag.currentElements ==> x in h.layout.nodes
  {
    var l := h.layout;
    if s.drag.draggedElement.Some? && s.drag.targetElement.Some?
       && !l.NodeEqual(s.styles, s.drag.draggedElement.value, s.drag.targetElement.value) then
      var d := s.drag.draggedElement.value;
      var t := s.drag.targetElement.value;
      var i := IndexOf(s.drag.currentElements, d);
      var f := IndexOf(s.drag.currentElements, t);
      s.(drag := s.drag.(initialIndex := Some(i), fetchedIndex := Some(f)),
         phase := s.phase.(animationActive := true),
         styles := AnimateStyles(l, s.styles, s.drag.currentElements, f, d, t))
    else s
  }

  /** The reorder: nothing happens unless both elements are set and not
      node-equal; then both indices are their `indexOf` positions in the
      snapshot, the animation runs, and the styles realise the shift: the
      elements walked from the target are each drawn on their successor and
      the dragged element on the target. */
  lemma ReplaceEffect(h: Host, s: State)
    requires Inv(h, s)
    ensures var r := Replace(h, s);
            var l := h.layout;
            var ce := s.drag.currentElements;
            (r != s ==> s.drag.draggedElement.Some? && s.drag.targetElement.Some?
                        && !l.NodeEqual(s.styles, s.drag.draggedElement.value, s.drag.targetElement.value))
            && (s.drag.draggedElement.Some? && s.drag.targetElement.Some?
                && !l.NodeEqual(s.styles, s.drag.draggedElement.value, s.drag.targetElement.value) ==>
                  var d := s.drag.draggedElement.value;
                  var t := s.drag.targetElement.value;
                  var f := IndexOf(ce, t);
                  r.phase.animationActive
                  && r.drag.initialIndex == Some(IndexOf(ce, d)) && r.drag.fetchedIndex == Some(f)
                  && Animated(l, s.styles, r.styles, Walk(ce, f, t, Upward(l, d, t), d), d, t)
                  && r.drag.currentElements == ce && r.emitted == s.emitted)
  {
    var l := h.layout;
    if s.drag.draggedElement.Some? && s.drag.targetElement.Some? && !l.NodeEqual(s.styles, s.drag.draggedElement.value, s.drag.targetElement.value) {
      var d := s.drag.draggedElement.value;
      var t := s.drag.targetElement.value;
      AnimateEffect(l, s.styles, s.drag.currentElements, IndexOf(s.drag.currentElements, t), d, t);
    }
  }

  /** The pick-up mark also turns the test of `replaceElements` into an
      identity test: a target without the mark is never node-equal to the
      marked dragged element, so the reorder runs. */
  lemma ReplaceSwapsPicked(h: Host, s: State)
    requires Inv(h, s) && s.drag.draggedElement.Some? && s.drag.targetElement.Some?
    requires DraggedMarkClass in AttrsOf(s.styles, s.drag.draggedElement.value).classes
    requires DraggedMarkClass !in AttrsOf(s.styles, s.drag.targetElement.value).classes
    ensures var r := Replace(h, s);
            var ce := s.drag.currentElements;
            r.phase.animationActive
            && r.drag.initialIndex == Some(IndexOf(ce, s.drag.draggedElement.value))
            && r.drag.fetchedIndex == Some(IndexOf(ce, s.drag.targetElement.value))
  {
    var d := s.drag.draggedElement.value;
    var t := s.drag.targetElement.value;
    assert AttrsOf(s.styles, d) != AttrsOf(s.styles, t);
    ReplaceEffect(h, s);
  }

  /** The drop timer firing with `pointHit` the element `elementFromPoint`
      reports under a touch: the hit test, then the reorder unless the hit
      test raised. */
  function FireDrop(h: Host, s: State, pointHit: Option<ElemId>): State
    requires Inv(h, s) && s.timers.dropTimer.Some?
    requires pointHit.Some? ==> pointHit.value in h.layout.nodes
  {
    var ev := s.timers.dropTimer.value;
    var s1 := s.(timers := s.timers.(dropTimer := None));
    var hit := if IsTouch(ev.kind) then pointHit else Some(ev.target);
    match FindTarget(h, s1, hit)
    case None => s1
    case Some(s2) => Replace(h, s2)
  }

  lemma FindTargetInv(h: Host, s: State, hit: Option<ElemId>)
    requires Inv(h, s) && (hit.Some? ==> hit.value in h.layout.nodes)
    requires FindTarget(h, s, hit).Some?
    ensures Inv(h, FindTarget(h, s, hit).value)
  {
    FindTargetEffect(h, s, hit);
    var r := FindTarget(h, s, hit).value;
    assert r.phase == s.phase && r.timers == s.timers && r.scroll == s.scroll;
    assert r.drag.currentElements == s.drag.currentElements && r.drag.draggedElement == s.drag.draggedElement;
  }

  lemma ReplaceInv(h: Host, s: State)
    requires Inv(h, s) && s.timers.dropTimer.None? && s.phase.foundDraggableElement
    ensures Inv(h, Replace(h, s))
  {
  }

  lemma FireDropInv(h: Host, s: State, pointHit: Option<ElemId>)
    requires Inv(h, s) && s.timers.dropTimer.Some?
    requires pointHit.Some? ==> pointHit.value in h.layout.nodes
    ensures Inv(h, FireDrop(h, s, pointHit))
  {
    var ev := s.timers.dropTimer.value;
    var s1 := s.(timers := s.timers.(dropTimer := None));
    var hit := if IsTouch(ev.kind) then pointHit else Some(ev.target);
    assert Inv(h, s1);
    match FindTarget(h, s1, hit)
    case None =>
    case Some(s2) =>
      FindTargetInv(h, s1, hit);
      FindTargetEffect(h, s1, hit);
      assert s2.phase == s1.phase && s2.timers == s1.timers;
      ReplaceInv(h, s2);
  }

  // ---------------------------------------------------------------------------
  // The animation timeout and the animation signal

  /** The animation timeout firing: the animation is over, the snapshot is
      reordered in place by the two `splice` calls, and the animation signal
      reaches the live subscriptions in the order they were made. The first
      runs `sendResult` (any later ones that run repeat it, which changes
      nothing more) and unsubscribes the subscription stored in
      `animationSubscription`; when that one was already gone, no
      subscription ends. */
  function FireAnimation(h: Host, s: State): State
    requires Inv(h, s) && s.phase.animationActive
  {
    var s1 := s.(phase := s.phase.(animationActive := false),
                 drag := s.drag.(currentElements := Move(s.drag.currentElements, s.drag.initialIndex.value,
                                                         s.drag.fetchedIndex.value)));
    if s1.timers.subscribers > 0 then
      var r := SendResult(h, s1);
      r.(timers := r.timers.(subscribers := if s1.timers.handleLive then s1.timers.subscribers - 1 else s1.timers.subscribers,
                             handleLive := false))
    else s1
  }

  /** The commit: the snapshot becomes a permutation of itself in which the
      element at `initialIndex` was moved to `fetchedIndex` (when both are
      found positions, that element now sits at `fetchedIndex`); a deferred
      result is sent only after the commit, and carries the start index and
      the fetched index; at most one subscription ends. */
  lemma FireAnimationEffect(h: Host, s: State)
    requires Inv(h, s) && s.phase.animationActive
    ensures var r := FireAnimation(h, s);
            var ce := s.drag.currentElements;
            var i := s.drag.initialIndex.value;
            var f := s.drag.fetchedIndex.value;
            !r.phase.animationActive
            && r.drag.currentElements == Move(ce, i, f)
            && |r.drag.currentElements| == |ce| && multiset(r.drag.currentElements) == multiset(ce)
            && (0 <= i && 0 <= f ==> r.drag.currentElements[f] == ce[i])
            && (s.timers.subscribers > 0 ==>
                  r.emitted == s.emitted + [DragResult(s.drag.startDragIndex, f)]
                  && !r.phase.activeMove && !r.timers.handleLive
                  && r.timers.subscribers == s.timers.subscribers - (if s.timers.handleLive then 1 else 0))
            && (s.timers.subscribers == 0 ==> r.emitted == s.emitted && r.phase.activeMove)
  {
    var ce := s.drag.currentElements;
    MovePermutes(ce, s.drag.initialIndex.value, s.drag.fetchedIndex.value);
    if 0 <= s.drag.initialIndex.value && 0 <= s.drag.fetchedIndex.value {
      MovePlaces(ce, s.drag.initialIndex.value, s.drag.fetchedIndex.value);
    }
  }

  lemma FireAnimationInv(h: Host, s: State)
    requires Inv(h, s) && s.phase.animationActive
    ensures Inv(h, FireAnimation(h, s))
  {
    var ce := s.drag.currentElements;
    MovePermutes(ce, s.drag.initialIndex.value, s.drag.fetchedIndex.value);
    PermutationKeepsDistinct(ce, Move(ce, s.drag.initialIndex.value, s.drag.fetchedIndex.value));
    var m := Move(ce, s.drag.initialIndex.value, s.drag.fetchedIndex.value);
    forall x | x in m ensures x in h.layout.nodes {
      assert x in multiset(m);
    }
  }

  /** Two end events during one animation (a `mouseup` followed by a
      `mouseleave`, say) leave two subscriptions, the field holding the
      second. At the commit the first one runs and unsubscribes the second;
      the first is never unsubscribed. */
  lemma DoubleEndLeavesSubscription(h: Host, s: State)
    requires Inv(h, s) && s.phase.activeMove && s.phase.animationActive
    ensures var e2 := OnEnd(h, OnEnd(h, s));
            e2.phase.animationActive && e2.timers.subscribers == s.timers.subscribers + 2 && e2.timers.handleLive
            && FireAnimation(h, e2).timers.subscribers == s.timers.subscribers + 1
            && !FireAnimation(h, e2).timers.handleLive
            && !FireAnimation(h, e2).phase.activeMove
  {
    OnEndInv(h, s);
    OnEndInv(h, OnEnd(h, s));
  }

  /** A subscription left over from an earlier drag ends the current one at
      its first commit, while the pointer may still be down; once the field
      no longer holds a live subscription, the commit ends none, so the
      leftover stays subscribed for every later drag. */
  lemma LeftoverSubscriptionEndsDrag(h: Host, s: State)
    requires Inv(h, s) && s.phase.animationActive && s.timers.subscribers > 0
    ensures !FireAnimation(h, s).phase.activeMove && !FireAnimation(h, s).phase.foundDraggableElement
    ensures !s.timers.handleLive ==> FireAnimation(h, s).timers.subscribers == s.timers.subscribers
  {
  }

  // ---------------------------------------------------------------------------
  // The emitted pair describes the whole drag

  /** A drag may commit several reorders. After the first one the dragged
      element sits at the first fetched index, which is where the next
      `indexOf` finds it; two commits then amount to one move from the start
      position to the last fetched index. So `{startDragIndex, fetchedIndex}`
      describes the net reorder of the snapshot. */
  lemma EmittedPairIsNetMove(ce: seq<ElemId>, a: nat, b: nat, c: nat)
    requires Distinct(ce) && a < |ce| && b < |ce| && c < |ce|
    ensures var m := Move(ce, a, b);
            IndexOf(m, ce[a]) == b && Move(m, IndexOf(m, ce[a]), c) == Move(ce, a, c)
  {
    var m := Move(ce, a, b);
    MovePlaces(ce, a, b);
    MovePermutes(ce, a, b);
    PermutationKeepsDistinct(ce, m);
    var k := IndexOf(m, ce[a]);
    assert m[b] == ce[a];
    assert ce[a] in m;
    MoveCompose(ce, a, b, c);
  }

  // ---------------------------------------------------------------------------
  // The auto-scroll tick

  /** One tick of the 10 ms interval; it does something only while the watch
      is subscribed and an element is dragged. The clone's `offsetTop` and
      `clientHeight` are read from the page. */
  function Tick(h: Host, s: State, cloneTop: int, cloneHeight: int): State {
    if s.scroll.scrollWatch && s.phase.activeMove && s.phase.foundDraggableElement then
      var r := AutoScroll(cloneTop, cloneHeight, h.offsetTop, h.clientHeight, s.scroll.scrollTop, s.scroll.parentScrollHeight);
      s.(scroll := s.scroll.(scrollTop := StoreScroll(r.written, h.scrollHeight, h.clientHeight), scrollActive := r.scrollActive))
    else s
  }

  /** The tick acts only while an element is dragged (and then reads a clone
      that is attached); it then either scrolls by exactly one pixel and
      reports scrolling, or stays put and reports none; a downward step is
      taken only below the end of the range, an upward one only above 0. The
      step is downward when the clone sticks out below the container, and
      upward only when it does not but sticks out above. */
  lemma TickEffect(h: Host, s: State, cloneTop: int, cloneHeight: int)
    requires Inv(h, s)
    ensures var r := Tick(h, s, cloneTop, cloneHeight);
            (!(s.scroll.scrollWatch && s.phase.activeMove && s.phase.foundDraggableElement) ==> r == s)
            && (s.scroll.scrollWatch && s.phase.activeMove && s.phase.foundDraggableElement ==>
                  s.phase.cloneAttached
                  && (r.scroll.scrollActive <==> r.scroll.scrollTop == s.scroll.scrollTop + 1 || r.scroll.scrollTop == s.scroll.scrollTop - 1)
                  && (!r.scroll.scrollActive ==> r.scroll.scrollTop == s.scroll.scrollTop)
                  && (r.scroll.scrollTop == s.scroll.scrollTop + 1 ==> s.scroll.scrollTop < s.scroll.parentScrollHeight - h.clientHeight)
                  && (r.scroll.scrollTop == s.scroll.scrollTop - 1 ==> s.scroll.scrollTop > 0)
                  && (r.scroll.scrollActive && CloneBelow(cloneTop, cloneHeight, h.offsetTop, h.clientHeight) ==>
                        r.scroll.scrollTop == s.scroll.scrollTop + 1)
                  && (r.scroll.scrollActive && !CloneBelow(cloneTop, cloneHeight, h.offsetTop, h.clientHeight) ==>
                        CloneAbove(cloneTop, h.offsetTop) && r.scroll.scrollTop == s.scroll.scrollTop - 1))
            && r.(scroll := s.scroll) == s
            && r.scroll.(scrollTop := s.scroll.scrollTop, scrollActive := s.scroll.scrollActive) == s.scroll
  {
    if s.scroll.scrollWatch && s.phase.activeMove && s.phase.foundDraggableElement {
      TickMovesOnePixel(cloneTop, cloneHeight, h.offsetTop, h.clientHeight, s.scroll.scrollTop, h.scrollHeight);
    }
  }

  lemma TickInv(h: Host, s: State, cloneTop: int, cloneHeight: int)
    requires Inv(h, s)
    ensures Inv(h, Tick(h, s, cloneTop, cloneHeight))
  {
  }
}
