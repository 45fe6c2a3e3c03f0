/** Scroll arithmetic of the service: the auto-scroll tick run every 10 ms
    while an element is dragged, and the swipe scroll applied to pointer
    moves when no drag is active. The container's `scrollTop` is a DOM
    property: whatever value is assigned, the browser stores it clamped to
    the scroll range. */
module Scroll {

  /** The largest scroll position of a container. */
  function MaxScroll(scrollHeight: int, clientHeight: int): int {
    if scrollHeight > clientHeight then scrollHeight - clientHeight else 0
  }

  /** The `scrollTop` setter: the stored value lies in the scroll range, and a
      value already in range is stored as it is. */
  function StoreScroll(v: int, scrollHeight: int, clientHeight: int): (r: int)
    ensures 0 <= r <= MaxScroll(scrollHeight, clientHeight)
    ensures 0 <= v <= MaxScroll(scrollHeight, clientHeight) ==> r == v
    ensures v <= 0 ==> r == 0
    ensures v >= MaxScroll(scrollHeight, clientHeight) ==> r == MaxScroll(scrollHeight, clientHeight)
  {
    if v < 0 then 0
    else if v > MaxScroll(scrollHeight, clientHeight) then MaxScroll(scrollHeight, clientHeight)
    else v
  }

  // ---------------------------------------------------------------------------
  // Auto-scroll tick

  /** What one tick does: the value it assigns to `scrollTop` (the old value
      when it assigns nothing) and the new `scrollActive`. */
  datatype TickStep = TickStep(written: int, scrollActive: bool)

  /** The clone sticks out below the container's visible area. */
  predicate CloneBelow(cloneTop: int, cloneHeight: int, parentTop: int, clientHeight: int) {
    cloneTop + cloneHeight > parentTop + clientHeight
  }

  /** The clone sticks out above the container. */
  predicate CloneAbove(cloneTop: int, parentTop: int) {
    cloneTop < parentTop
  }

  /** The body of the auto-scroll tick: scroll one pixel towards the side the
      clone sticks out of, clamping at either end; `scrollActive` is set
      exactly when a one-pixel step was taken. The bottom clamp assigns the
      recorded scroll height, not the largest scroll position. */
  function AutoScroll(cloneTop: int, cloneHeight: int, parentTop: int, clientHeight: int,
                      scrollTop: int, parentScrollHeight: int): (r: TickStep)
    ensures r.scrollActive <==>
              (CloneBelow(cloneTop, cloneHeight, parentTop, clientHeight) && scrollTop < parentScrollHeight - clientHeight)
              || (!CloneBelow(cloneTop, cloneHeight, parentTop, clientHeight) && CloneAbove(cloneTop, parentTop) && scrollTop > 0)
    ensures CloneBelow(cloneTop, cloneHeight, parentTop, clientHeight) && r.scrollActive ==> r.written == scrollTop + 1
    ensures !CloneBelow(cloneTop, cloneHeight, parentTop, clientHeight) && r.scrollActive ==> r.written == scrollTop - 1
    ensures r.written == scrollTop + 1 && r.scrollActive ==> scrollTop < parentScrollHeight - clientHeight
    ensures r.written == scrollTop - 1 && r.scrollActive ==> scrollTop > 0
    ensures !r.scrollActive ==> r.written in {scrollTop, parentScrollHeight, 0}
  {
    if CloneBelow(cloneTop, cloneHeight, parentTop, clientHeight) then
      if scrollTop >= parentScrollHeight - clientHeight then TickStep(parentScrollHeight, false)
      else TickStep(scrollTop + 1, true)
    else if CloneAbove(cloneTop, parentTop) then
      if scrollTop <= 0 then TickStep(0, false)
      else TickStep(scrollTop - 1, true)
    else TickStep(scrollTop, false)
  }

  /** With the scroll position in range and the recorded scroll height still
      the container's, a tick either moves the stored position by exactly one
      pixel and reports scrolling, or leaves it where it was and reports no
      scrolling; the pixel is downward when the clone sticks out below, and
      upward otherwise. */
  lemma TickMovesOnePixel(cloneTop: int, cloneHeight: int, parentTop: int, clientHeight: int,
                          scrollTop: int, scrollHeight: int)
    requires 0 <= clientHeight && 0 <= scrollTop <= MaxScroll(scrollHeight, clientHeight)
    ensures var r := AutoScroll(cloneTop, cloneHeight, parentTop, clientHeight, scrollTop, scrollHeight);
            var stored := StoreScroll(r.written, scrollHeight, clientHeight);
            (r.scrollActive <==> stored == scrollTop + 1 || stored == scrollTop - 1)
            && (!r.scrollActive ==> stored == scrollTop)
            && (r.scrollActive && CloneBelow(cloneTop, cloneHeight, parentTop, clientHeight) ==> stored == scrollTop + 1)
            && (r.scrollActive && !CloneBelow(cloneTop, cloneHeight, parentTop, clientHeight) ==> stored == scrollTop - 1)
  {
    var r := AutoScroll(cloneTop, cloneHeight, parentTop, clientHeight, scrollTop, scrollHeight);
    if CloneBelow(cloneTop, cloneHeight, parentTop, clientHeight) && scrollTop >= scrollHeight - clientHeight {
      assert r.written == scrollHeight;
      assert scrollTop == MaxScroll(scrollHeight, clientHeight);
    }
  }

  /** The bottom clamp assigns a value beyond the largest scroll position
      whenever the container shows anything; only the browser's clamping of
      `scrollTop` brings it back. */
  lemma BottomClampOvershoots(cloneTop: int, cloneHeight: int, parentTop: int, clientHeight: int, scrollHeight: int)
    requires 0 < clientHeight < scrollHeight
    requires CloneBelow(cloneTop, cloneHeight, parentTop, clientHeight)
    ensures var r := AutoScroll(cloneTop, cloneHeight, parentTop, clientHeight,
                                MaxScroll(scrollHeight, clientHeight), scrollHeight);
            r.written == scrollHeight && r.written > MaxScroll(scrollHeight, clientHeight)
            && !r.scrollActive
            && StoreScroll(r.written, scrollHeight, clientHeight) == MaxScroll(scrollHeight, clientHeight)
  {
  }

  // ---------------------------------------------------------------------------
  // Swipe scroll

  /** The value `attachSwipeScroll` assigns when a content taller than the
      container is swiped by `diff` (previous Y minus current Y). */
  function SwipeAssigned(scrollTop: int, scrollHeight: int, clientHeight: int, diff: int): (r: int)
    requires clientHeight < scrollHeight
    ensures r == scrollHeight || r == 0 || (r == scrollTop + diff && 0 < r <= scrollHeight - clientHeight)
  {
    var currentScroll := scrollTop + clientHeight + diff;
    if currentScroll > scrollHeight then scrollHeight
    else if currentScroll > clientHeight then scrollTop + diff
    else 0
  }

  /** The swipe scroll as stored: unchanged while a drag is active or an
      element was found, or when nothing overflows; otherwise the assigned
      value through the `scrollTop` setter. */
  function SwipeScroll(blocked: bool, scrollTop: int, scrollHeight: int, clientHeight: int, diff: int): (r: int)
    ensures blocked || clientHeight >= scrollHeight ==> r == scrollTop
  {
    if blocked || clientHeight >= scrollHeight then scrollTop
    else StoreScroll(SwipeAssigned(scrollTop, scrollHeight, clientHeight, diff), scrollHeight, clientHeight)
  }

  /** An unblocked swipe over overflowing content scrolls by the finger's
      travel, saturated at both ends of the scroll range. */
  lemma SwipeFollowsFinger(scrollTop: int, scrollHeight: int, clientHeight: int, diff: int)
    requires 0 <= clientHeight < scrollHeight
    ensures SwipeScroll(false, scrollTop, scrollHeight, clientHeight, diff)
            == StoreScroll(scrollTop + diff, scrollHeight, clientHeight)
  {
    var m := MaxScroll(scrollHeight, clientHeight);
    var v := scrollTop + diff;
    if scrollTop + clientHeight + diff > scrollHeight {
      assert v >= m;
    } else if scrollTop + clientHeight + diff > clientHeight {
      assert 0 <= v <= m;
    } else {
      assert v <= 0;
    }
  }
}
