/** The service as the program runs it: one object whose fields the event
    handlers and timer callbacks update in place. `View` reads the fields as
    a `Session.State`; every entry point is proved to perform the matching
    step of `Session` on that view and to keep the session invariant. */
module Service {
  import opened Wrappers
  import opened ArrayOps
  import opened Position
  import opened Dom
  import opened Cascade
  import opened Scroll
  import opened Session

  /** The loop of `animate`: starting at the target and index `f`, each element
      met before the dragged one is shifted onto the next element of the
      snapshot `ce` in the direction `up`; the walk also stops where the index
      leaves the snapshot. */
  method ShiftAlongWalk(l: Layout, ce: seq<ElemId>, f: int, t: ElemId, d: ElemId, up: bool, st1: Styles)
    returns (st: Styles)
    requires -1 <= f < |ce| && t in l.nodes
    requires forall x :: x in ce ==> x in l.nodes
    ensures st == ApplyWalk(l, st1, Walk(ce, f, t, up, d))
  {
    st := st1;
    var currentElement := t;
    var index := f;
    while currentElement != d
      invariant -1 <= index < |ce| && currentElement in l.nodes
      invariant ApplyWalk(l, st, Walk(ce, index, currentElement, up, d)) == ApplyWalk(l, st1, Walk(ce, f, t, up, d))
      decreases if up then |ce| - index else index + 1
    {
      ghost var prev := index;
      if up {
        index := index + 1;
      } else {
        index := index - 1;
      }
      if !(0 <= index < |ce|) {
        assert Walk(ce, prev, currentElement, up, d) == [currentElement];
        break;
      }
      var nextElement := ce[index];
      // elPosition, then the transition class and both offsets toward nextElement
      var a := Shifted(l, AttrsOf(st, currentElement), currentElement, nextElement);
      ShiftFirst(l, ce, prev, index, currentElement, up, d, st);
      st := st[currentElement := a];
      currentElement := nextElement;
    }
  }

  /** The `for` loop of `resetItemsAnimation`: each element of `els` loses the
      transition class and gets top and left back to "0". */
  method RestEach(st0: Styles, els: seq<ElemId>) returns (st: Styles)
    ensures st == RestAll(st0, els)
  {
    st := st0;
    for i := 0 to |els|
      invariant st == RestAll(st0, els[..i])
    {
      st := st[els[i] := Rest(AttrsOf(st, els[i]))];
      assert els[..i + 1][..i] == els[..i];
    }
    assert els[..|els|] == els;
  }

  class DragAndDropService {
    /** The container, its page and the options given to `exchange`. */
    const host: Host

    /** `canMove` and `touchPressDelay`. */
    var settings: Settings
    /** `activeMove`, `foundDraggableElement`, `animationActive`, and whether
        `draggedClone` is attached to the page. */
    var phase: Phase
    /** `currentElements`, `draggedElement`, `targetElement`, `startDragIndex`,
        `initialIndex` and `fetchedIndex`. */
    var drag: Drag
    /** The container's `scrollTop`, `parentScrollHeight`, `prevMoveYScroll`,
        `scrollActive`, and whether `scrollSubscription` is subscribed. */
    var scroll: ScrollState
    /** The events captured by the pending `triggerForEvents` and
        `dropTimeout` callbacks, and the subscriptions to `animationSubject$`. */
    var timers: Timers
    /** Class lists and inline offsets of the page's elements. */
    var styles: Styles
    /** Every result sent on `exchangeRes$`. */
    var emitted: seq<DragResult>

    ghost function View(): State
      reads this
    {
      State(settings, phase, drag, scroll, timers, styles, emitted)
    }

    ghost predicate Valid()
      reads this
    {
      Inv(host, View())
    }

    /** A new service given to `exchange` with the container of `h`, whose
        page carries `pageStyles` and is scrolled to `pageScrollTop`. */
    constructor (h: Host, pageStyles: Styles, pageScrollTop: int)
      requires HostOk(h) && 0 <= pageScrollTop <= MaxScroll(h.scrollHeight, h.clientHeight)
      ensures host == h && View() == Exchange(h, pageStyles, pageScrollTop) && Valid()
    {
      host := h;
      settings := Settings(true, DefaultPressDelay);
      phase := Phase(false, false, false, false);
      drag := Drag([], None, None, None, None, None);
      // `exchange` records the container's scroll height
      scroll := ScrollState(pageScrollTop, h.scrollHeight, 0, false, false);
      timers := Timers(None, None, 0, false);
      styles, emitted := pageStyles, [];
      new;
      ExchangeInv(h, pageStyles, pageScrollTop);
    }

    /** `configure`. */
    method Configure(move: Option<bool>, pressDelay: Option<int>)
      requires Valid()
      modifies this
      ensures View() == Session.Configure(old(View()), move, pressDelay) && Valid()
    {
      if move.Some? {
        settings := settings.(canMove := move.value);
      }
      if pressDelay.Some? {
        settings := settings.(pressDelay := pressDelay.value);
      }
      ConfigureInv(host, old(View()), move, pressDelay);
    }

    /** `handleEvent`. */
    method HandleEvent(ev: PointerEvent)
      requires Valid() && ev.target in host.layout.nodes
      modifies this
      ensures View() == Session.HandleEvent(host, old(View()), ev) && Valid()
    {
      match ev.kind {
        case MouseDown =>
          if settings.canMove {
            EventsOnStart(ev);
          }
        case TouchStart =>
          scroll := scroll.(prevMoveYScroll := ev.pageY);
          if settings.canMove {
            timers := timers.(pressTimer := Some(ev));
          }
        case MouseMove => EventsOnMove(ev);
        case TouchMove => EventsOnMove(ev);
        case _ => EventsOnEnd();
      }
      HandleEventInv(host, old(View()), ev);
    }

    /** The press timer (`triggerForEvents`) firing. */
    method FirePress()
      requires Valid() && timers.pressTimer.Some?
      modifies this
      ensures View() == Session.FirePress(host, old(View())) && Valid()
    {
      var ev := timers.pressTimer.value;
      timers := timers.(pressTimer := None);
      EventsOnStart(ev);
      FirePressInv(host, old(View()));
    }

    /** `eventsOnStart`. */
    method EventsOnStart(ev: PointerEvent)
      requires host.layout.WellFormed() && ev.target in host.layout.nodes
      requires drag.draggedElement.Some? ==> drag.draggedElement.value in host.layout.nodes
      modifies this
      ensures View() == OnStart(host, old(View()), ev)
    {
      var l := host.layout;
      if !phase.activeMove && settings.canMove && |Eligible(l)| > 1 {
        phase := phase.(activeMove := true);
        // attachDragScroll
        scroll := scroll.(parentScrollHeight := host.scrollHeight, scrollWatch := true);
        drag := drag.(currentElements := Eligible(l));
        var raised := GetDraggedClone(ev);
        if !raised {
          drag := drag.(startDragIndex := StartIndex(l, styles, drag.currentElements, drag.draggedElement, drag.startDragIndex));
        }
      }
    }

    /** `getDraggedClone`; `raised` when the focus test throws, which skips
        the rest of the start. */
    method GetDraggedClone(ev: PointerEvent) returns (raised: bool)
      requires host.layout.WellFormed() && ev.target in host.layout.nodes
      modifies this
      ensures var t := ParentTarget(host.layout, Some(ev.target));
              var focus := FocusElement(host.layout, old(styles), t, host.childClass);
              var s := old(View());
              (raised <==> focus.None?)
              && (focus.None? ==> View() == s)
              && (focus == Some(true) ==>
                    View() == s.(phase := s.phase.(foundDraggableElement := true, cloneAttached := true),
                                 drag := s.drag.(draggedElement := t),
                                 styles := AddClass(s.styles, t.value, DraggedMarkClass)))
              && (focus == Some(false) ==> View() == s.(phase := s.phase.(foundDraggableElement := false)))
    {
      var target := GetParentTarget(host.layout, Some(ev.target));
      var focus := FocusElement(host.layout, styles, target, host.childClass);
      if focus.None? {
        return true;
      }
      phase := phase.(foundDraggableElement := focus.value);
      if focus.value {
        drag := drag.(draggedElement := target);
        phase := phase.(cloneAttached := true);   // cloneNode, then appendChild
        styles := AddClass(styles, target.value, DraggedMarkClass);
      } else {
        phase := phase.(foundDraggableElement := false);
      }
      raised := false;
    }

    /** `eventsOnMove`. */
    method EventsOnMove(ev: PointerEvent)
      modifies this
      ensures View() == OnMove(host, old(View()), ev)
    {
      timers := timers.(pressTimer := None);
      AttachSwipeScroll(ev.pageY);
      if phase.activeMove && phase.foundDraggableElement {
        timers := timers.(dropTimer := None);
        if !phase.animationActive && !scroll.scrollActive {
          timers := timers.(dropTimer := Some(ev));
        }
      }
    }

    /** `attachSwipeScroll` for a pointer at page Y `pageY`. */
    method AttachSwipeScroll(pageY: int)
      modifies this
      ensures var s := old(View());
              View() == s.(scroll := s.scroll.(
                             prevMoveYScroll := pageY,
                             scrollTop := SwipeScroll(s.phase.foundDraggableElement || s.phase.activeMove, s.scroll.scrollTop,
                                                      host.scrollHeight, host.clientHeight, s.scroll.prevMoveYScroll - pageY)))
    {
      var differenceY := scroll.prevMoveYScroll - pageY;
      scroll := scroll.(prevMoveYScroll := pageY);
      if !phase.foundDraggableElement && !phase.activeMove {
        if host.clientHeight < host.scrollHeight {
          var currentScroll := scroll.scrollTop + host.clientHeight + differenceY;
          var written;
          if currentScroll > host.scrollHeight {
            written := host.scrollHeight;
          } else if currentScroll > host.clientHeight {
            written := scroll.scrollTop + differenceY;
          } else {
            written := 0;
          }
          scroll := scroll.(scrollTop := StoreScroll(written, host.scrollHeight, host.clientHeight));
        }
      }
    }

    /** `eventsOnEnd`. */
    method EventsOnEnd()
      requires host.layout.WellFormed()
      modifies this
      ensures View() == OnEnd(host, old(View()))
    {
      timers := timers.(pressTimer := None, dropTimer := None);
      scroll := scroll.(scrollWatch := false);
      phase := phase.(cloneAttached := false);
      if phase.activeMove {
        if phase.animationActive {
          timers := timers.(subscribers := timers.subscribers + 1, handleLive := true);
        } else {
          SendResult();
        }
      }
    }

    /** `sendResult`, with `clearIndexes`. */
    method SendResult()
      requires host.layout.WellFormed()
      modifies this
      ensures View() == Session.SendResult(host, old(View()))
    {
      scroll := scroll.(scrollWatch := false);   // detachDragScroll
      ResetItemsAnimation();
      SetDefaultState();
      if drag.initialIndex.Some? && drag.fetchedIndex.Some? {
        emitted := emitted + [DragResult(drag.startDragIndex, drag.fetchedIndex.value)];
      }
      drag := drag.(initialIndex := None, fetchedIndex := None);
    }

    /** `resetItemsAnimation`. */
    method ResetItemsAnimation()
      requires host.layout.WellFormed()
      modifies this
      ensures var s := old(View());
              View() == s.(phase := s.phase.(foundDraggableElement := false),
                           styles := ResetStyles(s.styles, Eligible(host.layout), s.drag.draggedElement))
    {
      phase := phase.(foundDraggableElement := false);
      var st := styles;
      if drag.draggedElement.Some? {
        var d := drag.draggedElement.value;
        st := st[d := Rest(AttrsOf(st, d))];
      }
      styles := RestEach(st, Eligible(host.layout));
    }

    /** `setDefaultState`. */
    method SetDefaultState()
      requires host.layout.WellFormed()
      modifies this
      ensures var s := old(View());
              View() == s.(phase := s.phase.(activeMove := false),
                           styles := DefaultStyles(s.styles, Eligible(host.layout), s.drag.draggedElement))
    {
      phase := phase.(activeMove := false);
      if drag.draggedElement.Some? {
        styles := RemoveClass(styles, drag.draggedElement.value, DraggedMarkClass);
      }
      RemoveAllTargetClasses();
    }

    /** `removeAllTargetClasses`. */
    method RemoveAllTargetClasses()
      requires host.layout.WellFormed()
      modifies this
      ensures View() == old(View()).(styles := StripClass(old(styles), Eligible(host.layout), TargetClass))
    {
      var els := Eligible(host.layout);
      var st0 := styles;
      var st := st0;
      for i := 0 to |els|
        invariant st == StripClass(st0, els[..i], TargetClass)
      {
        st := RemoveClass(st, els[i], TargetClass);
        assert els[..i + 1][..i] == els[..i];
      }
      assert els[..|els|] == els;
      styles := st;
    }

    /** The drop timer (`dropTimeout`) firing; `pointHit` is what
        `elementFromPoint` reports under a touch. */
    method FireDrop(pointHit: Option<ElemId>)
      requires Valid() && timers.dropTimer.Some?
      requires pointHit.Some? ==> pointHit.value in host.layout.nodes
      modifies this
      ensures View() == Session.FireDrop(host, old(View()), pointHit) && Valid()
    {
      var ev := timers.dropTimer.value;
      timers := timers.(dropTimer := None);
      var raised := FindElementUnderDraggedClone(ev, pointHit);
      if !raised {
        ReplaceElements();
      }
      FireDropInv(host, old(View()), pointHit);
    }

    /** `findElementUnderDraggedClone`; `raised` when `getParentTarget` or the
        focus test throws. */
    method FindElementUnderDraggedClone(ev: PointerEvent, pointHit: Option<ElemId>) returns (raised: bool)
      requires host.layout.WellFormed() && ev.target in host.layout.nodes
      requires pointHit.Some? ==> pointHit.value in host.layout.nodes
      modifies this
      ensures var hit := if IsTouch(ev.kind) then pointHit else Some(ev.target);
              var r := FindTarget(host, old(View()), hit);
              (raised <==> r.None?) && (r.None? ==> View() == old(View())) && (r.Some? ==> View() == r.value)
    {
      var target;
      if IsTouch(ev.kind) {
        if pointHit.None? {
          // getParentTarget(null) reads null.parentElement: TypeError
          return true;
        }
        target := GetParentTarget(host.layout, pointHit);
      } else {
        target := GetParentTarget(host.layout, Some(ev.target));
      }
      var focus := FocusElement(host.layout, styles, target, host.childClass);
      if focus.None? {
        return true;
      }
      if focus.value {
        drag := drag.(targetElement := target);
        styles := AddClass(styles, target.value, TargetClass);
      } else {
        drag := drag.(targetElement := None);
      }
      styles := StripClass(styles, Except(Eligible(host.layout), drag.draggedElement), TargetClass);
      raised := false;
    }

    /** `replaceElements`; its timeout is `FireAnimation`. */
    method ReplaceElements()
      requires host.layout.WellFormed()
      requires drag.draggedElement.Some? ==> drag.draggedElement.value in host.layout.nodes
      requires drag.targetElement.Some? ==> drag.targetElement.value in host.layout.nodes
      requires forall x :: x in drag.currentElements ==> x in host.layout.nodes
      modifies this
      ensures View() == Replace(host, old(View()))
    {
      if drag.draggedElement.Some? && drag.targetElement.Some?
         && !host.layout.NodeEqual(styles, drag.draggedElement.value, drag.targetElement.value) {
        drag := drag.(initialIndex := Some(IndexOf(drag.currentElements, drag.draggedElement.value)),
                      fetchedIndex := Some(IndexOf(drag.currentElements, drag.targetElement.value)));
        phase := phase.(animationActive := true);
        Animate();
      }
    }

    /** `animate`. */
    method Animate()
      requires drag.draggedElement.Some? && drag.draggedElement.value in host.layout.nodes
      requires drag.targetElement.Some? && drag.targetElement.value in host.layout.nodes
      requires forall x :: x in drag.currentElements ==> x in host.layout.nodes
      requires drag.fetchedIndex.Some? && -1 <= drag.fetchedIndex.value < |drag.currentElements|
      modifies this
      ensures var s := old(View());
              View() == s.(styles := AnimateStyles(host.layout, s.styles, s.drag.currentElements, s.drag.fetchedIndex.value,
                                                   s.drag.draggedElement.value, s.drag.targetElement.value))
    {
      var l := host.layout;
      var ce := drag.currentElements;
      var d, t := drag.draggedElement.value, drag.targetElement.value;
      var st0 := styles;
      var st := AddClass(st0, d, TransitionClass);
      var offsetDiffTop := l.nodes[d].offsetTop - l.nodes[t].offsetTop;
      var offsetDiffLeft := l.nodes[d].offsetLeft - l.nodes[t].offsetLeft;
      var up := offsetDiffTop > 0 || (offsetDiffTop == 0 && offsetDiffLeft > 0);
      var f := drag.fetchedIndex.value;
      st := ShiftAlongWalk(l, ce, f, t, d, up, st);
      AnimateStylesAfterWalk(l, st0, ce, f, d, t, st);
      // the dragged element's offset by (-offsetDiffTop, -offsetDiffLeft)
      styles := PlaceDragged(l, st, d, t);
    }

    /** The animation timeout firing: the two `splice` calls, then
        `animationSubject$.next()`. */
    method FireAnimation()
      requires Valid() && phase.animationActive
      modifies this
      ensures View() == Session.FireAnimation(host, old(View())) && Valid()
    {
      phase := phase.(animationActive := false);
      var ce := drag.currentElements;
      var from := SpliceStart(drag.initialIndex.value, |ce|);
      var movedEl := ce[from];
      ce := RemoveAt(ce, from);
      ce := InsertAt(ce, SpliceStart(drag.fetchedIndex.value, |ce|), movedEl);
      drag := drag.(currentElements := ce);
      if timers.subscribers > 0 {
        SendResult();
        if timers.handleLive {
          timers := timers.(subscribers := timers.subscribers - 1);
        }
        timers := timers.(handleLive := false);
      }
      FireAnimationInv(host, old(View()));
    }

    /** One tick of the auto-scroll interval; the clone's `offsetTop` and
        `clientHeight` are read from the page. */
    method Tick(cloneTop: int, cloneHeight: int)
      requires Valid()
      modifies this
      ensures View() == Session.Tick(host, old(View()), cloneTop, cloneHeight) && Valid()
    {
      if scroll.scrollWatch && phase.activeMove && phase.foundDraggableElement {
        var top := scroll.scrollTop;
        if CloneBelow(cloneTop, cloneHeight, host.offsetTop, host.clientHeight) {
          if top >= scroll.parentScrollHeight - host.clientHeight {
            scroll := scroll.(scrollTop := StoreScroll(scroll.parentScrollHeight, host.scrollHeight, host.clientHeight),
                              scrollActive := false);
          } else {
            scroll := scroll.(scrollTop := StoreScroll(top + 1, host.scrollHeight, host.clientHeight), scrollActive := true);
          }
        } else if CloneAbove(cloneTop, host.offsetTop) {
          if top <= 0 {
            scroll := scroll.(scrollTop := StoreScroll(0, host.scrollHeight, host.clientHeight), scrollActive := false);
          } else {
            scroll := scroll.(scrollTop := StoreScroll(top - 1, host.scrollHeight, host.clientHeight), scrollActive := true);
          }
        } else {
          scroll := scroll.(scrollActive := false);
        }
      }
      TickInv(host, old(View()), cloneTop, cloneHeight);
    }
  }
}
