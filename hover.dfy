/** The hover tracking of `onUpdate` (include/Widget.hpp:556-599): every
    widget keeps in `m_hover` the top-most child under its last known mouse
    position, and tells the children it leaves and enters.  The recursive
    handler is `Widget.Arena.OnUpdate`; the lemmas here carry its proof. */
module Hover {
  import opened Wrappers
  import opened Seqs
  import opened Tree
  import opened HitTest
  import opened Walk

  /** The child the hover scan of widget `n` settles on: the last child,
      hidden or not, whose rect contains `n`'s mouse position. */
  function HoverTarget(nodes: map<Id, Node>, n: Id): (r: Option<Id>)
    requires n in nodes && Present(nodes, nodes[n].children)
    ensures var s, mx, my := nodes[n].children, nodes[n].mouseX, nodes[n].mouseY;
      r.None? <==> forall i :: 0 <= i < |s| ==> !Inside(nodes[s[i]].rect, mx, my)
    ensures var s, mx, my := nodes[n].children, nodes[n].mouseX, nodes[n].mouseY;
      r.Some? ==> exists i :: (0 <= i < |s| && s[i] == r.value && Inside(nodes[s[i]].rect, mx, my) &&
        forall j :: i < j < |s| ==> !Inside(nodes[s[j]].rect, mx, my))
  {
    var s := nodes[n].children;
    match Topmost(nodes, s, nodes[n].mouseX, nodes[n].mouseY, false)
    case None => None
    case Some(i) => Some(s[i])
  }

  /** A scan from the back that stops at the first child `s[i]` containing
      the mouse position has found the hover target. */
  lemma HoverScanHit(nodes: map<Id, Node>, n: Id, i: nat)
    requires n in nodes && Present(nodes, nodes[n].children) && i < |nodes[n].children|
    requires var s, mx, my := nodes[n].children, nodes[n].mouseX, nodes[n].mouseY;
      Inside(nodes[s[i]].rect, mx, my) && forall j :: i < j < |s| ==> !Hit(nodes, s[j], mx, my, false)
    ensures HoverTarget(nodes, n) == Some(nodes[n].children[i])
  {
    var s, mx, my := nodes[n].children, nodes[n].mouseX, nodes[n].mouseY;
    var r := Topmost(nodes, s, mx, my, false);
    assert Hit(nodes, s[i], mx, my, false);
    assert r == Some(i);
  }

  /** A scan from the back that finds no child containing the mouse
      position has found no hover target. */
  lemma HoverScanMiss(nodes: map<Id, Node>, n: Id)
    requires n in nodes && Present(nodes, nodes[n].children)
    requires var s, mx, my := nodes[n].children, nodes[n].mouseX, nodes[n].mouseY;
      forall j :: 0 <= j < |s| ==> !Hit(nodes, s[j], mx, my, false)
    ensures HoverTarget(nodes, n) == None
  {
  }

  /** Recording the hover target a widget already hovers changes nothing. */
  lemma HoverUnchanged(nodes: map<Id, Node>, n: Id, k: Option<Id>)
    requires n in nodes && nodes[n].hover == k
    ensures nodes[n := nodes[n].(hover := k)] == nodes
  {
    assert nodes[n].(hover := k) == nodes[n];
  }

  /** What the hover scan of `n` fires: nothing when the target is the one
      already hovered; otherwise `onMouseLeave` on the old target, if any,
      then `onMouseEnter` on the new one, if any. */
  function HoverFired(nodes: map<Id, Node>, n: Id): seq<Event>
    requires n in nodes && Present(nodes, nodes[n].children)
  {
    var h, k := nodes[n].hover, HoverTarget(nodes, n);
    var mx, my := nodes[n].mouseX, nodes[n].mouseY;
    if k == h then []
    else if h.None? then [MouseEnter(k.value, mx, my)]
    else if k.None? then [MouseLeave(h.value, mx, my)]
    else [MouseLeave(h.value, mx, my), MouseEnter(k.value, mx, my)]
  }

  /** The hover scan fires at most one leave and one enter, the leave first,
      each on the widget it names; it fires nothing exactly when the target
      is already hovered. */
  lemma HoverFiredShape(nodes: map<Id, Node>, n: Id)
    requires n in nodes && Present(nodes, nodes[n].children)
    ensures var r := HoverFired(nodes, n);
      && |r| <= 2
      && (r == [] <==> nodes[n].hover == HoverTarget(nodes, n))
      && (forall i :: 0 <= i < |r| ==> r[i].MouseEnter? || r[i].MouseLeave?)
      && (forall i, j :: 0 <= i < |r| && 0 <= j < |r| && r[i].MouseLeave? && r[j].MouseEnter? ==> i < j)
      && (forall e :: e in r && e.MouseLeave? ==> Some(e.target) == nodes[n].hover)
      && (forall e :: e in r && e.MouseEnter? ==> Some(e.target) == HoverTarget(nodes, n))
  {
  }

  /** Two arenas with the same geometry that agree on a widget agree on its
      hover target. */
  lemma HoverTargetGeometry(a: map<Id, Node>, b: map<Id, Node>, n: Id)
    requires SameGeometry(a, b) && n in a && Present(a, a[n].children)
    requires b[n].children == a[n].children && b[n].mouseX == a[n].mouseX && b[n].mouseY == a[n].mouseY
    ensures Present(b, b[n].children) && HoverTarget(a, n) == HoverTarget(b, n)
  {
    var s := a[n].children;
    forall i | 0 <= i < |s| ensures s[i] in b && a[s[i]].rect == b[s[i]].rect && a[s[i]].hidden == b[s[i]].hidden {
      var k := s[i];
      assert k in a && a[k].rect == b[k].rect && a[k].hidden == b[k].hidden;
    }
    TopmostSameGeometry(a, b, s, a[n].mouseX, a[n].mouseY, false);
  }

  /** After the scan has recorded its target, scanning again fires nothing. */
  lemma HoverPassSettles(nodes: map<Id, Node>, n: Id)
    requires n in nodes && Present(nodes, nodes[n].children)
    ensures var after := nodes[n := nodes[n].(hover := HoverTarget(nodes, n))];
      Present(after, after[n].children) && HoverFired(after, n) == []
  {
    var after := nodes[n := nodes[n].(hover := HoverTarget(nodes, n))];
    HoverTargetGeometry(nodes, after, n);
  }

  // ---------------------------------------------------------------------
  // The whole update

  /** The arena `onUpdate` on `w` leaves behind: every widget of the
      subtree of `w` hovers its hover target. */
  ghost function Refresh(t: map<Id, Node>, anc: map<Id, set<Id>>, w: Id): (r: map<Id, Node>)
    ensures r.Keys == t.Keys
  {
    map n | n in t :: if InSubtree(anc, n, w) && Present(t, t[n].children) then t[n].(hover := HoverTarget(t, n)) else t[n]
  }

  /** A widget of the subtree has recorded its hover target. */
  lemma RefreshAt(t: map<Id, Node>, anc: map<Id, set<Id>>, w: Id, n: Id)
    requires WellFormed(t, anc) && n in t && InSubtree(anc, n, w)
    ensures Present(t, t[n].children) && Refresh(t, anc, w)[n] == t[n].(hover := HoverTarget(t, n))
  {
    ChildrenPresent(t, n);
  }

  /** The update changes only the hover of the widgets of the subtree: the
      tree, the geometry and everything outside the subtree are kept. */
  lemma RefreshConfined(t: map<Id, Node>, anc: map<Id, set<Id>>, w: Id)
    requires WellFormed(t, anc)
    ensures Confined(anc, t, Refresh(t, anc, w), w) && SameLinks(t, Refresh(t, anc, w))
    ensures WellFormed(Refresh(t, anc, w), anc)
  {
    SameLinksKeepTree(t, anc, Refresh(t, anc, w));
  }

  /** What the update of child `c` of `w` leaves in its subtree is what the
      update of `w` is to leave there, when the arena the child starts from
      has the geometry of `t` and agrees with it below `c`. */
  lemma RefreshChild(t: map<Id, Node>, anc: map<Id, set<Id>>, before: map<Id, Node>, w: Id, c: Id)
    requires WellFormed(t, anc) && WellFormed(before, anc) && w in t && c in t[w].children
    requires SameGeometry(t, before) && AgreeBelow(t, before, anc, c)
    ensures AgreeBelow(Refresh(t, anc, w), Refresh(before, anc, c), anc, c)
  {
    var goal, after := Refresh(t, anc, w), Refresh(before, anc, c);
    forall n | n in goal && InSubtree(anc, n, c) ensures n in after && after[n] == goal[n] {
      ChildSubtree(t, anc, w, c, n);
      RefreshAt(t, anc, w, n);
      RefreshAt(before, anc, c, n);
      HoverTargetGeometry(t, before, n);
    }
  }

  /** Every widget of the subtree of `w` already hovers its hover target,
      so no change of hover is pending. */
  ghost predicate Calm(t: map<Id, Node>, anc: map<Id, set<Id>>, w: Id) {
    forall n {:trigger InSubtree(anc, n, w)} :: n in t && InSubtree(anc, n, w) ==> Present(t, t[n].children) && t[n].hover == HoverTarget(t, n)
  }

  /** A calm subtree stays calm for the children of its root. */
  lemma CalmChild(t: map<Id, Node>, anc: map<Id, set<Id>>, w: Id, c: Id)
    requires WellFormed(t, anc) && w in t && c in t[w].children && Calm(t, anc, w)
    ensures Calm(t, anc, c)
  {
    forall n | n in t && InSubtree(anc, n, c) ensures InSubtree(anc, n, w) {
      ChildSubtree(t, anc, w, c, n);
    }
  }

  /** After an update the whole subtree is calm. */
  lemma RefreshIsCalm(t: map<Id, Node>, anc: map<Id, set<Id>>, w: Id)
    requires WellFormed(t, anc)
    ensures Calm(Refresh(t, anc, w), anc, w)
  {
    var m := Refresh(t, anc, w);
    RefreshConfined(t, anc, w);
    forall n | n in m && InSubtree(anc, n, w) ensures Present(m, m[n].children) && m[n].hover == HoverTarget(m, n) {
      RefreshAt(t, anc, w, n);
      HoverTargetGeometry(t, m, n);
    }
  }

  // ---------------------------------------------------------------------
  // What the update fires

  /** The events `onUpdate` on `w` fires in arena `t`: the scan of `w`, then
      the updates of its children in order. */
  ghost function UpdateLog(t: map<Id, Node>, anc: map<Id, set<Id>>, w: Id): seq<Event>
    requires WellFormed(t, anc) && w in t
    decreases t.Keys - anc[w], 1
  {
    ChildrenPresent(t, w);
    HoverFired(t, w) + UpdateLogs(t, anc, w, |t[w].children|)
  }

  /** The events the updates of the first `i` children of `w` fire. */
  ghost function UpdateLogs(t: map<Id, Node>, anc: map<Id, set<Id>>, w: Id, i: nat): seq<Event>
    requires WellFormed(t, anc) && w in t && i <= |t[w].children|
    decreases t.Keys - anc[w], 0, i
  {
    if i == 0 then []
    else
      var c := t[w].children[i - 1];
      assert c in t[w].children;
      ChildMeasure(t, anc, w, c);
      UpdateLogs(t, anc, w, i - 1) + UpdateLog(t, anc, c)
  }

  /** What the update of `w` fires depends only on the subtree of `w` and
      the geometry. */
  lemma {:induction false} UpdateLogAgree(a: map<Id, Node>, b: map<Id, Node>, anc: map<Id, set<Id>>, w: Id)
    requires WellFormed(a, anc) && WellFormed(b, anc) && w in a && SameGeometry(a, b)
    requires AgreeBelow(a, b, anc, w)
    ensures UpdateLog(a, anc, w) == UpdateLog(b, anc, w)
    decreases a.Keys - anc[w], 1
  {
    ChildrenFacts(a, anc, w);
    assert InSubtree(anc, w, w);
    HoverTargetGeometry(a, b, w);
    UpdateLogsAgree(a, b, anc, w, |a[w].children|);
  }

  /** The same for the updates of the first `i` children of `w`. */
  lemma {:induction false} UpdateLogsAgree(a: map<Id, Node>, b: map<Id, Node>, anc: map<Id, set<Id>>, w: Id, i: nat)
    requires WellFormed(a, anc) && WellFormed(b, anc) && w in a && SameGeometry(a, b)
    requires AgreeBelow(a, b, anc, w)
    requires i <= |a[w].children|
    ensures b[w].children == a[w].children
    ensures UpdateLogs(a, anc, w, i) == UpdateLogs(b, anc, w, i)
    decreases a.Keys - anc[w], 0, i
  {
    ChildrenFacts(a, anc, w);
    assert InSubtree(anc, w, w);
    if i > 0 {
      UpdateLogsAgree(a, b, anc, w, i - 1);
      var c := a[w].children[i - 1];
      assert c in a[w].children;
      AgreeBelowChild(a, anc, a, b, w, c);
      UpdateLogAgree(a, b, anc, c);
    }
  }

  /** A calm subtree fires nothing on update. */
  lemma CalmIsQuiet(t: map<Id, Node>, anc: map<Id, set<Id>>, w: Id)
    requires WellFormed(t, anc) && w in t && Calm(t, anc, w)
    ensures UpdateLog(t, anc, w) == []
    decreases t.Keys - anc[w]
  {
    ChildrenPresent(t, w);
    assert InSubtree(anc, w, w);
    var s := t[w].children;
    var i := 0;
    while i < |s|
      invariant i <= |s| && UpdateLogs(t, anc, w, i) == []
    {
      var c := s[i];
      assert c in s;
      ChildMeasure(t, anc, w, c);
      CalmChild(t, anc, w, c);
      CalmIsQuiet(t, anc, c);
      assert UpdateLogs(t, anc, w, i + 1) == UpdateLogs(t, anc, w, i) + UpdateLog(t, anc, c);
      i := i + 1;
    }
  }

  /** Updating twice is updating once: the second update fires nothing and
      leaves the arena as the first one left it. */
  lemma UpdateIdempotent(t: map<Id, Node>, anc: map<Id, set<Id>>, w: Id)
    requires WellFormed(t, anc) && w in t
    ensures WellFormed(Refresh(t, anc, w), anc)
    ensures UpdateLog(Refresh(t, anc, w), anc, w) == []
    ensures Refresh(Refresh(t, anc, w), anc, w) == Refresh(t, anc, w)
  {
    var m := Refresh(t, anc, w);
    RefreshConfined(t, anc, w);
    RefreshIsCalm(t, anc, w);
    CalmIsQuiet(m, anc, w);
    forall n | n in m ensures Refresh(m, anc, w)[n] == m[n] {
      if InSubtree(anc, n, w) {
        RefreshAt(m, anc, w, n);
        assert m[n].(hover := HoverTarget(m, n)) == m[n];
      }
    }
  }
}
