/** The shift animation (`animate`): starting at the target, walk the snapshot
    one index at a time towards the dragged element, giving each element passed
    the inline offset that moves it onto the next one, then send the dragged
    element onto the target. */
module Cascade {
  import opened Wrappers
  import opened ArrayOps
  import opened Position
  import opened Dom

  /** Index reached after `k` steps from `idx`. */
  function StepIndex(idx: int, up: bool, k: nat): int {
    if up then idx + k else idx - k
  }

  /** The walk of the loop in `animate`: the elements `currentElement` takes, from
      `cur` at index `idx` on. It ends on the dragged element, or on the last
      element before the walk would leave the snapshot. */
  function Walk(s: seq<ElemId>, idx: int, cur: ElemId, up: bool, dragged: ElemId): (p: seq<ElemId>)
    requires -1 <= idx < |s|
    ensures 0 < |p| <= |s| + 1 && p[0] == cur
    ensures forall k :: 1 <= k < |p| ==> 0 <= StepIndex(idx, up, k) < |s| && p[k] == s[StepIndex(idx, up, k)]
    ensures forall k :: 0 <= k < |p| - 1 ==> p[k] != dragged
    ensures p[|p| - 1] == dragged || !(0 <= StepIndex(idx, up, |p|) < |s|)
    ensures forall x :: x in p ==> x == cur || x in s
    decreases if up then |s| - idx else idx + 1
  {
    if cur == dragged then [cur]
    else
      var next := if up then idx + 1 else idx - 1;
      if 0 <= next < |s| then
        var rest := Walk(s, next, s[next], up, dragged);
        WalkCons(s, idx, cur, up, dragged, rest);
        [cur] + rest
      else [cur]
  }

  /** One step of the walk: prepending `cur` to the walk from the next index. */
  lemma WalkCons(s: seq<ElemId>, idx: int, cur: ElemId, up: bool, dragged: ElemId, rest: seq<ElemId>)
    requires cur != dragged
    requires 0 <= StepIndex(idx, up, 1) < |s|
    requires 0 < |rest| <= (if up then |s| - idx else idx + 1) && rest[0] == s[StepIndex(idx, up, 1)]
    requires forall k :: 1 <= k < |rest| ==>
               0 <= StepIndex(StepIndex(idx, up, 1), up, k) < |s| && rest[k] == s[StepIndex(StepIndex(idx, up, 1), up, k)]
    requires forall k :: 0 <= k < |rest| - 1 ==> rest[k] != dragged
    requires rest[|rest| - 1] == dragged || !(0 <= StepIndex(StepIndex(idx, up, 1), up, |rest|) < |s|)
    requires forall x :: x in rest ==> x == rest[0] || x in s
    ensures var p := [cur] + rest;
            0 < |p| <= |s| + 1 && p[0] == cur
            && (forall k :: 1 <= k < |p| ==> 0 <= StepIndex(idx, up, k) < |s| && p[k] == s[StepIndex(idx, up, k)])
            && (forall k :: 0 <= k < |p| - 1 ==> p[k] != dragged)
            && (p[|p| - 1] == dragged || !(0 <= StepIndex(idx, up, |p|) < |s|))
            && (forall x :: x in p ==> x == cur || x in s)
  {
    var p := [cur] + rest;
    assert forall k :: 1 <= k < |p| ==> p[k] == rest[k - 1] && StepIndex(idx, up, k) == StepIndex(StepIndex(idx, up, 1), up, k - 1);
    assert rest[0] in s;
  }

  /** When the walk starts on the target as `indexOf` located it, it never
      visits an element twice. */
  lemma WalkDistinct(s: seq<ElemId>, f: int, target: ElemId, up: bool, dragged: ElemId)
    requires -1 <= f < |s| && Distinct(s)
    requires f == IndexOf(s, target)
    ensures Distinct(Walk(s, f, target, up, dragged))
  {
    var p := Walk(s, f, target, up, dragged);
    forall i, j | 0 <= i < j < |p| ensures p[i] != p[j] {
      if i > 0 {
        assert p[i] == s[StepIndex(f, up, i)] && p[j] == s[StepIndex(f, up, j)];
      } else if f >= 0 {
        assert p[i] == s[StepIndex(f, up, 0)] && p[j] == s[StepIndex(f, up, j)];
      } else {
        assert target !in s;
      }
    }
  }

  /** The snapshot lies in reading order: top to bottom, then left to right. */
  ghost predicate ReadingOrder(l: Layout, s: seq<ElemId>)
    requires forall x :: x in s ==> x in l.nodes
  {
    forall a, b :: 0 <= a < b < |s| ==>
      l.nodes[s[a]].offsetTop < l.nodes[s[b]].offsetTop
      || (l.nodes[s[a]].offsetTop == l.nodes[s[b]].offsetTop && l.nodes[s[a]].offsetLeft < l.nodes[s[b]].offsetLeft)
  }

  /** The direction test of `animate`: walk to higher indices when the dragged
      element sits below the target, or on the same row to its right. */
  predicate Upward(l: Layout, dragged: ElemId, target: ElemId)
    requires dragged in l.nodes && target in l.nodes
  {
    var dt := l.nodes[dragged].offsetTop - l.nodes[target].offsetTop;
    var dl := l.nodes[dragged].offsetLeft - l.nodes[target].offsetLeft;
    dt > 0 || (dt == 0 && dl > 0)
  }

  /** In a snapshot in reading order, the walk goes from the target exactly to
      the dragged element, through every element between them. */
  lemma WalkTowardDragged(l: Layout, s: seq<ElemId>, i: nat, f: nat)
    requires forall x :: x in s ==> x in l.nodes
    requires Distinct(s) && ReadingOrder(l, s)
    requires i < |s| && f < |s| && i != f
    ensures Upward(l, s[i], s[f]) <==> f < i
    ensures var p := Walk(s, f, s[f], Upward(l, s[i], s[f]), s[i]);
            |p| == (if f < i then i - f else f - i) + 1
            && forall k :: 0 <= k < |p| ==> p[k] == s[StepIndex(f, f < i, k)]
  {
    var up := Upward(l, s[i], s[f]);
    var n := if f < i then i - f else f - i;
    assert StepIndex(f, up, n) == i;
  }

  /** The inline style `animate` gives `cur` so that it moves onto `next`,
      keeping the offset its style already had. */
  function Shifted(l: Layout, a: Attrs, cur: ElemId, next: ElemId): Attrs
    requires cur in l.nodes && next in l.nodes
  {
    var pos := GetPosition(a.styleTop, a.styleLeft);
    a.(classes := a.classes + {TransitionClass},
       styleTop := Px(l.nodes[next].offsetTop - l.nodes[cur].offsetTop + pos.top),
       styleLeft := Px(l.nodes[next].offsetLeft - l.nodes[cur].offsetLeft + pos.left))
  }

  /** The loop body applied along a walk: each element but the last is shifted
      onto its successor, in walk order. */
  function ApplyWalk(l: Layout, st: Styles, p: seq<ElemId>): Styles
    requires forall x :: x in p ==> x in l.nodes
    decreases |p|
  {
    if |p| < 2 then st
    else ApplyWalk(l, st[p[0] := Shifted(l, AttrsOf(st, p[0]), p[0], p[1])], p[1..])
  }

  /** An element the walk never leaves keeps its style (the last element is
      only reached, never shifted). */
  lemma {:induction false} ApplyWalkOff(l: Layout, st: Styles, p: seq<ElemId>, e: ElemId)
    requires forall x :: x in p ==> x in l.nodes
    requires 0 < |p| && e !in p[..|p| - 1]
    ensures AttrsOf(ApplyWalk(l, st, p), e) == AttrsOf(st, e)
    decreases |p|
  {
    if |p| >= 2 {
      var q := p[1..];
      assert e != p[0] && e !in q[..|q| - 1] by {
        assert p[..|p| - 1] == [p[0]] + q[..|q| - 1];
      }
      ApplyWalkOff(l, st[p[0] := Shifted(l, AttrsOf(st, p[0]), p[0], p[1])], q, e);
    }
  }

  /** Along a walk without repetitions each element but the last is shifted
      once, onto its successor, from its style before the walk. */
  lemma {:induction false} ApplyWalkOn(l: Layout, st: Styles, p: seq<ElemId>, k: nat)
    requires forall x :: x in p ==> x in l.nodes
    requires Distinct(p) && k + 1 < |p|
    ensures AttrsOf(ApplyWalk(l, st, p), p[k]) == Shifted(l, AttrsOf(st, p[k]), p[k], p[k + 1])
    decreases |p|
  {
    var st0 := st[p[0] := Shifted(l, AttrsOf(st, p[0]), p[0], p[1])];
    var q := p[1..];
    if k == 0 {
      assert p[0] !in q[..|q| - 1] by {
        DistinctTail(p);
        assert forall x :: x in q[..|q| - 1] ==> x in q;
      }
      ApplyWalkOff(l, st0, q, p[0]);
    } else {
      DistinctTail(p);
      ApplyWalkOn(l, st0, q, k - 1);
      assert p[k] == q[k - 1] && p[k + 1] == q[k] && p[k] != p[0];
    }
  }

  /** Along a walk without repetitions each element is shifted once, from its
      style before the walk, and nothing off the walk changes. */
  lemma ApplyWalkEffect(l: Layout, st: Styles, p: seq<ElemId>)
    requires forall x :: x in p ==> x in l.nodes
    requires 0 < |p| && Distinct(p)
    ensures forall k :: 0 <= k < |p| - 1 ==>
              AttrsOf(ApplyWalk(l, st, p), p[k]) == Shifted(l, AttrsOf(st, p[k]), p[k], p[k + 1])
    ensures forall e :: e !in p[..|p| - 1] ==> AttrsOf(ApplyWalk(l, st, p), e) == AttrsOf(st, e)
  {
    forall k | 0 <= k < |p| - 1
      ensures AttrsOf(ApplyWalk(l, st, p), p[k]) == Shifted(l, AttrsOf(st, p[k]), p[k], p[k + 1])
    {
      ApplyWalkOn(l, st, p, k);
    }
    forall e | e !in p[..|p| - 1]
      ensures AttrsOf(ApplyWalk(l, st, p), e) == AttrsOf(st, e)
    {
      ApplyWalkOff(l, st, p, e);
    }
  }

  /** One turn of the loop in `animate`: shifting `cur` onto the next element
      and walking on from there is the whole walk from `cur`. */
  lemma ShiftFirst(l: Layout, s: seq<ElemId>, idx: int, next: int, cur: ElemId, up: bool, dragged: ElemId, st: Styles)
    requires -1 <= idx < |s| && 0 <= next < |s| && next == (if up then idx + 1 else idx - 1)
    requires cur != dragged && cur in l.nodes
    requires forall x :: x in s ==> x in l.nodes
    ensures ApplyWalk(l, st, Walk(s, idx, cur, up, dragged))
            == ApplyWalk(l, st[cur := Shifted(l, AttrsOf(st, cur), cur, s[next])], Walk(s, next, s[next], up, dragged))
  {
    var rest := Walk(s, next, s[next], up, dragged);
    var p := Walk(s, idx, cur, up, dragged);
    assert p == [cur] + rest;
    assert p[1..] == rest && p[1] == s[next];
  }

  /** The last two assignments of `animate`: the dragged element is offset by
      the distance from its own slot to the target's. */
  function PlaceDragged(l: Layout, st: Styles, dragged: ElemId, target: ElemId): Styles
    requires dragged in l.nodes && target in l.nodes
  {
    var dt := l.nodes[dragged].offsetTop - l.nodes[target].offsetTop;
    var dl := l.nodes[dragged].offsetLeft - l.nodes[target].offsetLeft;
    var a := AttrsOf(st, dragged);
    var pos := GetPosition(a.styleTop, a.styleLeft);
    st[dragged := a.(styleTop := Px(-dt + pos.top), styleLeft := Px(-dl + pos.left))]
  }

  /** Everything `animate` writes: the transition class on the dragged element,
      the walk from the target at index `f`, then the dragged element's style. */
  function AnimateStyles(l: Layout, st: Styles, s: seq<ElemId>, f: int, dragged: ElemId, target: ElemId): Styles
    requires -1 <= f < |s| && dragged in l.nodes && target in l.nodes
    requires forall x :: x in s ==> x in l.nodes
  {
    var p := Walk(s, f, target, Upward(l, dragged, target), dragged);
    PlaceDragged(l, ApplyWalk(l, AddClass(st, dragged, TransitionClass), p), dragged, target)
  }

  /** `animate` once the loop has walked: the dragged element is placed. */
  lemma AnimateStylesAfterWalk(l: Layout, st: Styles, s: seq<ElemId>, f: int, dragged: ElemId, target: ElemId, walked: Styles)
    requires -1 <= f < |s| && dragged in l.nodes && target in l.nodes
    requires forall x :: x in s ==> x in l.nodes
    requires walked == ApplyWalk(l, AddClass(st, dragged, TransitionClass), Walk(s, f, target, Upward(l, dragged, target), dragged))
    ensures AnimateStyles(l, st, s, f, dragged, target) == PlaceDragged(l, walked, dragged, target)
  {
  }

  /** Where an element is drawn: its layout position plus its inline offset. */
  function VisualTop(l: Layout, st: Styles, e: ElemId): int
    requires e in l.nodes
  {
    l.nodes[e].offsetTop + ParsePx(AttrsOf(st, e).styleTop)
  }

  function VisualLeft(l: Layout, st: Styles, e: ElemId): int
    requires e in l.nodes
  {
    l.nodes[e].offsetLeft + ParsePx(AttrsOf(st, e).styleLeft)
  }

  /** The styles left by a walk `p` without repetitions that never passes the
      dragged element: the walked elements are shifted from their old style,
      the dragged element only has the transition class added, everything else
      keeps its style. */
  lemma WalkAttrs(l: Layout, st: Styles, p: seq<ElemId>, dragged: ElemId)
    requires forall x :: x in p ==> x in l.nodes
    requires 0 < |p| && Distinct(p) && dragged !in p[..|p| - 1]
    ensures var r := ApplyWalk(l, AddClass(st, dragged, TransitionClass), p);
            (forall k :: 0 <= k < |p| - 1 ==> AttrsOf(r, p[k]) == Shifted(l, AttrsOf(st, p[k]), p[k], p[k + 1]))
            && AttrsOf(r, dragged) == AttrsOf(AddClass(st, dragged, TransitionClass), dragged)
            && (forall e :: e != dragged && e !in p[..|p| - 1] ==> AttrsOf(r, e) == AttrsOf(st, e))
  {
    var st1 := AddClass(st, dragged, TransitionClass);
    ApplyWalkEffect(l, st1, p);
    forall k | 0 <= k < |p| - 1
      ensures AttrsOf(st1, p[k]) == AttrsOf(st, p[k])
    {
      assert p[k] != dragged;
    }
  }

  /** A shifted element is drawn on its successor, from where its old offset put it. */
  lemma ShiftedVisual(l: Layout, a: Attrs, cur: ElemId, next: ElemId)
    requires cur in l.nodes && next in l.nodes
    ensures var b := Shifted(l, a, cur, next);
            l.nodes[cur].offsetTop + ParsePx(b.styleTop) == l.nodes[next].offsetTop + ParsePx(a.styleTop)
            && l.nodes[cur].offsetLeft + ParsePx(b.styleLeft) == l.nodes[next].offsetLeft + ParsePx(a.styleLeft)
            && TransitionClass in b.classes
  {
    var top := l.nodes[next].offsetTop - l.nodes[cur].offsetTop + ParsePx(a.styleTop);
    var left := l.nodes[next].offsetLeft - l.nodes[cur].offsetLeft + ParsePx(a.styleLeft);
    assert Shifted(l, a, cur, next) == a.(classes := a.classes + {TransitionClass}, styleTop := Px(top), styleLeft := Px(left));
    PxRoundTrip(top);
    PxRoundTrip(left);
  }

  /** The dragged element is drawn on the target, from where its offset put it,
      and nothing else changes. */
  lemma PlacedVisual(l: Layout, st: Styles, dragged: ElemId, target: ElemId)
    requires dragged in l.nodes && target in l.nodes
    ensures var r := PlaceDragged(l, st, dragged, target);
            VisualTop(l, r, dragged) == l.nodes[target].offsetTop + ParsePx(AttrsOf(st, dragged).styleTop)
            && VisualLeft(l, r, dragged) == l.nodes[target].offsetLeft + ParsePx(AttrsOf(st, dragged).styleLeft)
            && AttrsOf(r, dragged).classes == AttrsOf(st, dragged).classes
            && forall e :: e != dragged ==> AttrsOf(r, e) == AttrsOf(st, e)
  {
    var a := AttrsOf(st, dragged);
    var top := l.nodes[target].offsetTop - l.nodes[dragged].offsetTop + ParsePx(a.styleTop);
    var left := l.nodes[target].offsetLeft - l.nodes[dragged].offsetLeft + ParsePx(a.styleLeft);
    var r := PlaceDragged(l, st, dragged, target);
    assert AttrsOf(r, dragged) == a.(styleTop := Px(top), styleLeft := Px(left));
    PxRoundTrip(top);
    PxRoundTrip(left);
  }

  /** What the shift animation achieves, for the walk `p`: every element the
      walk passes is drawn where its successor in the walk sits, the dragged
      element is drawn where the target sits (each displaced by the inline
      offset it had before), all of them carry the transition class, and no
      other element changes. */
  ghost predicate Animated(l: Layout, st: Styles, r: Styles, p: seq<ElemId>, dragged: ElemId, target: ElemId)
    requires 0 < |p| && forall x :: x in p ==> x in l.nodes
    requires dragged in l.nodes && target in l.nodes
  {
    (forall k :: 0 <= k < |p| - 1 ==>
       VisualTop(l, r, p[k]) == l.nodes[p[k + 1]].offsetTop + ParsePx(AttrsOf(st, p[k]).styleTop)
       && VisualLeft(l, r, p[k]) == l.nodes[p[k + 1]].offsetLeft + ParsePx(AttrsOf(st, p[k]).styleLeft)
       && TransitionClass in AttrsOf(r, p[k]).classes)
    && VisualTop(l, r, dragged) == l.nodes[target].offsetTop + ParsePx(AttrsOf(st, dragged).styleTop)
    && VisualLeft(l, r, dragged) == l.nodes[target].offsetLeft + ParsePx(AttrsOf(st, dragged).styleLeft)
    && TransitionClass in AttrsOf(r, dragged).classes
    && (forall e :: e != dragged && e !in p[..|p| - 1] ==> AttrsOf(r, e) == AttrsOf(st, e))
  }

  /** The two stages of `animate` compose: a walk stage `st2` followed by the
      placement stage `r` achieve the shift animation. */
  lemma AnimatedFromStages(l: Layout, st: Styles, st2: Styles, r: Styles, p: seq<ElemId>, dragged: ElemId, target: ElemId)
    requires 0 < |p| && forall x :: x in p ==> x in l.nodes
    requires dragged in l.nodes && target in l.nodes && dragged !in p[..|p| - 1]
    requires forall k :: 0 <= k < |p| - 1 ==> AttrsOf(st2, p[k]) == Shifted(l, AttrsOf(st, p[k]), p[k], p[k + 1])
    requires AttrsOf(st2, dragged) == AttrsOf(AddClass(st, dragged, TransitionClass), dragged)
    requires forall e :: e != dragged && e !in p[..|p| - 1] ==> AttrsOf(st2, e) == AttrsOf(st, e)
    requires VisualTop(l, r, dragged) == l.nodes[target].offsetTop + ParsePx(AttrsOf(st2, dragged).styleTop)
    requires VisualLeft(l, r, dragged) == l.nodes[target].offsetLeft + ParsePx(AttrsOf(st2, dragged).styleLeft)
    requires AttrsOf(r, dragged).classes == AttrsOf(st2, dragged).classes
    requires forall e :: e != dragged ==> AttrsOf(r, e) == AttrsOf(st2, e)
    ensures Animated(l, st, r, p, dragged, target)
  {
    forall k | 0 <= k < |p| - 1
      ensures VisualTop(l, r, p[k]) == l.nodes[p[k + 1]].offsetTop + ParsePx(AttrsOf(st, p[k]).styleTop)
      ensures VisualLeft(l, r, p[k]) == l.nodes[p[k + 1]].offsetLeft + ParsePx(AttrsOf(st, p[k]).styleLeft)
      ensures TransitionClass in AttrsOf(r, p[k]).classes
    {
      assert p[k] in p[..|p| - 1];
      assert AttrsOf(r, p[k]) == Shifted(l, AttrsOf(st, p[k]), p[k], p[k + 1]);
      ShiftedVisual(l, AttrsOf(st, p[k]), p[k], p[k + 1]);
    }
  }

  /** The meaning of `animate`, for a target located by `indexOf` in a snapshot
      without repetitions. */
  lemma AnimateEffect(l: Layout, st: Styles, s: seq<ElemId>, f: int, dragged: ElemId, target: ElemId)
    requires -1 <= f < |s| && dragged in l.nodes && target in l.nodes
    requires forall x :: x in s ==> x in l.nodes
    requires Distinct(s) && f == IndexOf(s, target) && dragged != target
    ensures Animated(l, st, AnimateStyles(l, st, s, f, dragged, target),
                     Walk(s, f, target, Upward(l, dragged, target), dragged), dragged, target)
  {
    var up := Upward(l, dragged, target);
    var p := Walk(s, f, target, up, dragged);
    var st2 := ApplyWalk(l, AddClass(st, dragged, TransitionClass), p);
    var r := PlaceDragged(l, st2, dragged, target);
    WalkDistinct(s, f, target, up, dragged);
    WalkAttrs(l, st, p, dragged);
    PlacedVisual(l, st2, dragged, target);
    AnimatedFromStages(l, st, st2, r, p, dragged, target);
  }
}
