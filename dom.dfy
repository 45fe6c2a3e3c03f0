/** The browser elements the service works on. The structure and geometry of
    the page (`Layout`) are never changed by the service; what it writes are
    class lists and the inline `top` / `left` styles (`Styles`). */
module Dom {
  import opened Wrappers
  import opened ArrayOps

  type ElemId = nat

  /** Class put on the child currently hovered (`targetElementClass`). */
  const TargetClass := "drag_and_drop_target"
  /** Class put on children while they are shifted (`draggedClass`). */
  const TransitionClass := "drag_and_drop_transition"
  /** Class put on the element picked up. */
  const DraggedMarkClass := "draggedElement"

  /** One element as far as the page layout goes: its parent element, the
      `drag-disabled` attribute, `offsetTop` / `offsetLeft`, a fingerprint of
      everything `isEqualNode` compares that the service never writes (tag,
      the other attributes, the subtree) and its depth in the tree. */
  datatype Node = Node(parent: Option<ElemId>, disabled: bool, offsetTop: int, offsetLeft: int,
                       signature: int, depth: nat)

  /** All elements, the container the service is attached to, and the
      container's children in document order. */
  datatype Layout = Layout(nodes: map<ElemId, Node>, container: ElemId, children: seq<ElemId>) {

    /** Parent links stay inside the store and go strictly up the tree; the
        children list is exactly the elements whose parent is the container. */
    ghost predicate WellFormed() {
      container in nodes
      && (forall e :: e in nodes && nodes[e].parent.Some? ==>
            nodes[e].parent.value in nodes && nodes[nodes[e].parent.value].depth < nodes[e].depth)
      && (forall i :: 0 <= i < |children| ==> children[i] in nodes && nodes[children[i]].parent == Some(container))
      && (forall e :: e in nodes && nodes[e].parent == Some(container) ==> e in children)
      && Distinct(children)
    }

    predicate IsChild(e: ElemId) {
      e in nodes && nodes[e].parent == Some(container)
    }

    /** `isEqualNode` with the page's current styles `st`: the same fingerprint,
        and the same class list and inline offsets. */
    predicate NodeEqual(st: Styles, a: ElemId, b: ElemId)
      requires a in nodes && b in nodes
    {
      nodes[a].signature == nodes[b].signature && AttrsOf(st, a) == AttrsOf(st, b)
    }
  }

  /** What the service writes on an element: its class list and inline style. */
  datatype Attrs = Attrs(classes: set<string>, styleTop: string, styleLeft: string)

  type Styles = map<ElemId, Attrs>

  /** An element the map does not mention has no class and an empty inline style. */
  function AttrsOf(st: Styles, e: ElemId): Attrs {
    if e in st then st[e] else Attrs({}, "", "")
  }

  // ---------------------------------------------------------------------------
  // getParentChildren

  /** The elements of `cs` without the `drag-disabled` attribute, in order. */
  function Enabled(l: Layout, cs: seq<ElemId>): seq<ElemId>
    requires forall c :: c in cs ==> c in l.nodes
  {
    if cs == [] then []
    else (if l.nodes[cs[0]].disabled then [] else [cs[0]]) + Enabled(l, cs[1..])
  }

  /** The filter keeps exactly the enabled elements. */
  lemma {:induction false} EnabledMembers(l: Layout, cs: seq<ElemId>)
    requires forall c :: c in cs ==> c in l.nodes
    ensures forall e :: e in Enabled(l, cs) <==> e in cs && !l.nodes[e].disabled
  {
    if cs != [] {
      EnabledMembers(l, cs[1..]);
      assert forall e :: e in cs <==> e == cs[0] || e in cs[1..];
    }
  }

  /** `getParentChildren`: the container's children that are not `drag-disabled`. */
  function Eligible(l: Layout): (r: seq<ElemId>)
    requires l.WellFormed()
    ensures forall e :: e in r ==> e in l.nodes
  {
    EnabledMembers(l, l.children);
    Enabled(l, l.children)
  }

  lemma {:induction false} EnabledDistinct(l: Layout, cs: seq<ElemId>)
    requires forall c :: c in cs ==> c in l.nodes
    requires Distinct(cs)
    ensures Distinct(Enabled(l, cs))
  {
    if cs != [] {
      EnabledDistinct(l, cs[1..]);
      EnabledMembers(l, cs[1..]);
      assert cs[0] !in cs[1..];
    }
  }

  /** The filter keeps document order: an earlier eligible child is an earlier child. */
  lemma {:induction false} EnabledKeepsOrder(l: Layout, cs: seq<ElemId>, i: nat, j: nat)
    requires forall c :: c in cs ==> c in l.nodes
    requires Distinct(cs)
    requires i < j < |Enabled(l, cs)|
    ensures IndexOf(cs, Enabled(l, cs)[i]) < IndexOf(cs, Enabled(l, cs)[j])
    decreases |cs|, 1
  {
    if l.nodes[cs[0]].disabled {
      EnabledOrderSkip(l, cs, i, j);
    } else if i == 0 {
      EnabledOrderFirst(l, cs, j);
    } else {
      EnabledOrderKeep(l, cs, i, j);
    }
  }

  lemma {:induction false} EnabledOrderSkip(l: Layout, cs: seq<ElemId>, i: nat, j: nat)
    requires forall c :: c in cs ==> c in l.nodes
    requires Distinct(cs)
    requires i < j < |Enabled(l, cs)| && l.nodes[cs[0]].disabled
    ensures IndexOf(cs, Enabled(l, cs)[i]) < IndexOf(cs, Enabled(l, cs)[j])
    decreases |cs|, 0
  {
    var tail := Enabled(l, cs[1..]);
    DistinctTail(cs);
    assert Enabled(l, cs) == tail;
    EnabledKeepsOrder(l, cs[1..], i, j);
    EnabledFrom(l, cs[1..], i);
    EnabledFrom(l, cs[1..], j);
    IndexOfTail(cs, tail[i], tail[j]);
  }

  lemma {:induction false} EnabledOrderKeep(l: Layout, cs: seq<ElemId>, i: nat, j: nat)
    requires forall c :: c in cs ==> c in l.nodes
    requires Distinct(cs)
    requires 0 < i < j < |Enabled(l, cs)| && !l.nodes[cs[0]].disabled
    ensures IndexOf(cs, Enabled(l, cs)[i]) < IndexOf(cs, Enabled(l, cs)[j])
    decreases |cs|, 0
  {
    var r := Enabled(l, cs);
    var tail := Enabled(l, cs[1..]);
    DistinctTail(cs);
    assert |tail| == |r| - 1 by {
      assert r == [cs[0]] + tail;
    }
    var x, y := tail[i - 1], tail[j - 1];
    assert r[i] == x && r[j] == y by {
      assert r == [cs[0]] + tail;
    }
    EnabledKeepsOrder(l, cs[1..], i - 1, j - 1);
    EnabledFrom(l, cs[1..], i - 1);
    EnabledFrom(l, cs[1..], j - 1);
    IndexOfTail(cs, x, y);
  }

  lemma EnabledOrderFirst(l: Layout, cs: seq<ElemId>, j: nat)
    requires forall c :: c in cs ==> c in l.nodes
    requires Distinct(cs)
    requires 0 < j < |Enabled(l, cs)| && !l.nodes[cs[0]].disabled
    ensures IndexOf(cs, Enabled(l, cs)[0]) < IndexOf(cs, Enabled(l, cs)[j])
  {
    var r := Enabled(l, cs);
    var tail := Enabled(l, cs[1..]);
    DistinctTail(cs);
    assert r == [cs[0]] + tail;
    var y := tail[j - 1];
    assert r[0] == cs[0] && r[j] == y;
    EnabledFrom(l, cs[1..], j - 1);
  }

  /** Each element the filter keeps comes from its input. */
  lemma EnabledFrom(l: Layout, cs: seq<ElemId>, k: nat)
    requires forall c :: c in cs ==> c in l.nodes
    requires k < |Enabled(l, cs)|
    ensures Enabled(l, cs)[k] in cs
  {
    EnabledMembers(l, cs);
    assert Enabled(l, cs)[k] in Enabled(l, cs);
  }

  /** Positions found in the tail of `cs` keep their order in `cs`. */
  lemma IndexOfTail(cs: seq<ElemId>, x: ElemId, y: ElemId)
    requires 0 < |cs| && x in cs[1..] && y in cs[1..] && cs[0] !in cs[1..]
    requires IndexOf(cs[1..], x) < IndexOf(cs[1..], y)
    ensures IndexOf(cs, x) < IndexOf(cs, y)
  {
  }

  /** What a snapshot of `getParentChildren` promises: the eligible children,
      each once, in document order. */
  lemma EligibleSnapshot(l: Layout)
    requires l.WellFormed()
    ensures forall e :: e in Eligible(l) <==> l.IsChild(e) && !l.nodes[e].disabled
    ensures Distinct(Eligible(l))
    ensures forall i, j :: 0 <= i < j < |Eligible(l)| ==>
              IndexOf(l.children, Eligible(l)[i]) < IndexOf(l.children, Eligible(l)[j])
  {
    EnabledMembers(l, l.children);
    EnabledDistinct(l, l.children);
    forall i, j | 0 <= i < j < |Eligible(l)|
      ensures IndexOf(l.children, Eligible(l)[i]) < IndexOf(l.children, Eligible(l)[j])
    {
      EnabledKeepsOrder(l, l.children, i, j);
    }
  }

  // ---------------------------------------------------------------------------
  // getParentTarget

  /** `a` is `e` or one of its ancestors. */
  ghost predicate AncestorOrSelf(l: Layout, a: ElemId, e: ElemId)
    requires l.WellFormed() && e in l.nodes
    decreases l.nodes[e].depth
  {
    a == e || (l.nodes[e].parent.Some? && AncestorOrSelf(l, a, l.nodes[e].parent.value))
  }

  /** The climb of `getParentTarget`: follow parent links until an element whose
      parent is the container; `None` once the links run out. */
  function Climb(l: Layout, t: Option<ElemId>): (r: Option<ElemId>)
    requires l.WellFormed() && (t.Some? ==> t.value in l.nodes)
    ensures r.Some? ==> l.IsChild(r.value)
    decreases if t.Some? then l.nodes[t.value].depth + 1 else 0
  {
    if t.None? then None
    else if l.nodes[t.value].parent == Some(l.container) then t
    else Climb(l, l.nodes[t.value].parent)
  }

  /** `getParentTarget`: an element that is undefined, the container itself, or
      already a child of the container comes back unchanged; any other climbs. */
  function ParentTarget(l: Layout, t: Option<ElemId>): (r: Option<ElemId>)
    requires l.WellFormed() && (t.Some? ==> t.value in l.nodes)
    ensures r.Some? ==> r.value in l.nodes && (r == t || l.IsChild(r.value))
  {
    if t.None? || t.value == l.container || l.nodes[t.value].parent == Some(l.container) then t
    else Climb(l, t)
  }

  lemma {:induction false} AncestorDepth(l: Layout, a: ElemId, e: ElemId)
    requires l.WellFormed() && e in l.nodes && AncestorOrSelf(l, a, e)
    ensures a in l.nodes && l.nodes[a].depth <= l.nodes[e].depth
    ensures a != e ==> l.nodes[a].depth < l.nodes[e].depth
    decreases l.nodes[e].depth
  {
    if a != e {
      AncestorDepth(l, a, l.nodes[e].parent.value);
    }
  }

  /** The climb only ever stops on a child of the container that is `e` or above it. */
  lemma {:induction false} ClimbSound(l: Layout, e: ElemId)
    requires l.WellFormed() && e in l.nodes
    ensures Climb(l, Some(e)).Some? ==>
              l.IsChild(Climb(l, Some(e)).value) && AncestorOrSelf(l, Climb(l, Some(e)).value, e)
    decreases l.nodes[e].depth
  {
    if l.nodes[e].parent.Some? && l.nodes[e].parent != Some(l.container) {
      ClimbSound(l, l.nodes[e].parent.value);
    }
  }

  /** ... and it does stop on the child of the container above `e`, if there is one. */
  lemma {:induction false} ClimbComplete(l: Layout, c: ElemId, e: ElemId)
    requires l.WellFormed() && e in l.nodes && l.IsChild(c) && AncestorOrSelf(l, c, e)
    ensures Climb(l, Some(e)) == Some(c)
    decreases l.nodes[e].depth
  {
    if c == e {
    } else {
      var p := l.nodes[e].parent.value;
      if p == l.container {
        // c is an ancestor of the container, yet its parent is the container
        AncestorDepth(l, c, p);
        assert false;
      }
      ClimbComplete(l, c, p);
    }
  }

  /** What `getParentTarget` returns: the input itself when it is undefined, the
      container or a child of the container; otherwise the child of the
      container that contains it, and `None` exactly when there is none. */
  lemma ParentTargetMeaning(l: Layout, t: Option<ElemId>)
    requires l.WellFormed() && (t.Some? ==> t.value in l.nodes)
    ensures t.None? || t.value == l.container || l.IsChild(t.value) ==> ParentTarget(l, t) == t
    ensures ParentTarget(l, t).Some? && ParentTarget(l, t) != t ==>
              l.IsChild(ParentTarget(l, t).value) && AncestorOrSelf(l, ParentTarget(l, t).value, t.value)
    ensures forall c: ElemId :: t.Some? && l.IsChild(c) && AncestorOrSelf(l, c, t.value) ==> ParentTarget(l, t) == Some(c)
  {
    if t.Some? {
      ClimbSound(l, t.value);
      forall c: ElemId | l.IsChild(c) && AncestorOrSelf(l, c, t.value) ensures ParentTarget(l, t) == Some(c) {
        if t.value == l.container {
          AncestorDepth(l, c, t.value);
          assert false;
        }
        ClimbComplete(l, c, t.value);
      }
    }
  }

  /** `getParentTarget`, climbing in a loop. */
  method GetParentTarget(l: Layout, t: Option<ElemId>) returns (r: Option<ElemId>)
    requires l.WellFormed() && (t.Some? ==> t.value in l.nodes)
    ensures r == ParentTarget(l, t)
  {
    r := t;
    if t.Some? && t.value != l.container && l.nodes[t.value].parent != Some(l.container) {
      while r.Some? && l.nodes[r.value].parent != Some(l.container)
        invariant r.Some? ==> r.value in l.nodes
        invariant Climb(l, r) == Climb(l, t)
        decreases if r.Some? then l.nodes[r.value].depth + 1 else 0
      {
        r := l.nodes[r.value].parent;
      }
    }
  }

  // ---------------------------------------------------------------------------
  // getFocusElement

  /** `getFocusElement`: with a child class configured and more than one eligible
      child, the element must carry the class; otherwise it must be one of the
      eligible children. `None` stands for the TypeError raised when the class
      test meets a missing element. */
  function FocusElement(l: Layout, st: Styles, t: Option<ElemId>, childClass: string): (r: Option<bool>)
    requires l.WellFormed()
    ensures r == Some(true) ==> t.Some?
    ensures r.None? <==> t.None? && childClass != "" && |Eligible(l)| > 1
  {
    if childClass != "" && |Eligible(l)| > 1 then
      if t.None? then None else Some(childClass in AttrsOf(st, t.value).classes)
    else Some(t.Some? && t.value in Eligible(l))
  }

  /** Without a child class, an element the pointer resolves to is accepted
      exactly when it is an eligible (not `drag-disabled`) child above the
      pointed element. */
  lemma FocusWithoutClass(l: Layout, st: Styles, e: ElemId)
    requires l.WellFormed() && e in l.nodes && e != l.container
    ensures FocusElement(l, st, ParentTarget(l, Some(e)), "") == Some(true) <==>
              exists c: ElemId :: l.IsChild(c) && !l.nodes[c].disabled && AncestorOrSelf(l, c, e)
  {
    ParentTargetMeaning(l, Some(e));
    EligibleSnapshot(l);
    var r := ParentTarget(l, Some(e));
    if r.Some? && r.value in Eligible(l) {
      assert l.IsChild(r.value) && AncestorOrSelf(l, r.value, e) by {
        if l.IsChild(e) {
          assert r.value == e;
        }
      }
    }
  }

  /** With a child class and several eligible children, the class decides: a
      `drag-disabled` child that carries the class is accepted too. */
  lemma FocusWithClassIgnoresDisabled(l: Layout, st: Styles, c: ElemId, childClass: string)
    requires l.WellFormed() && l.IsChild(c) && childClass != "" && |Eligible(l)| > 1
    requires childClass in AttrsOf(st, c).classes
    ensures FocusElement(l, st, ParentTarget(l, Some(c)), childClass) == Some(true)
  {
  }

  // ---------------------------------------------------------------------------
  // Class and style updates

  function AddClass(st: Styles, e: ElemId, c: string): Styles {
    var a := AttrsOf(st, e);
    st[e := a.(classes := a.classes + {c})]
  }

  function RemoveClass(st: Styles, e: ElemId, c: string): Styles {
    var a := AttrsOf(st, e);
    st[e := a.(classes := a.classes - {c})]
  }

  /** One element back at rest: no transition class, `top` and `left` set to `'0'`. */
  function Rest(a: Attrs): Attrs {
    a.(classes := a.classes - {TransitionClass}, styleTop := "0", styleLeft := "0")
  }

  /** `classList.remove(c)` on each element of `els`. */
  function StripClass(st: Styles, els: seq<ElemId>, c: string): (r: Styles)
    ensures forall e :: AttrsOf(r, e) ==
              if e in els then AttrsOf(st, e).(classes := AttrsOf(st, e).classes - {c}) else AttrsOf(st, e)
    ensures forall e :: e in r <==> e in st || e in els
    decreases |els|
  {
    if els == [] then st
    else
      var last := els[|els| - 1];
      assert forall e :: e in els <==> e in els[..|els| - 1] || e == last;
      RemoveClass(StripClass(st, els[..|els| - 1], c), last, c)
  }

  /** Each element of `els` put at rest, one after the other. */
  function RestAll(st: Styles, els: seq<ElemId>): (r: Styles)
    ensures forall e :: AttrsOf(r, e) == if e in els then Rest(AttrsOf(st, e)) else AttrsOf(st, e)
    ensures forall e :: e in r <==> e in st || e in els
    decreases |els|
  {
    if els == [] then st
    else
      var last := els[|els| - 1];
      assert forall e :: e in els <==> e in els[..|els| - 1] || e == last;
      var prev := RestAll(st, els[..|els| - 1]);
      prev[last := Rest(AttrsOf(prev, last))]
  }

  /** `els` without the element `x` (`filter(el => el !== x)`). */
  function Except(els: seq<ElemId>, x: Option<ElemId>): (r: seq<ElemId>)
    ensures forall e :: e in r <==> e in els && Some(e) != x
  {
    if els == [] then []
    else (if Some(els[0]) == x then [] else [els[0]]) + Except(els[1..], x)
  }
}
