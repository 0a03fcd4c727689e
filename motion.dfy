/** The pointer tracking of `onMouseMove` (include/Widget.hpp:739-753):
    every widget of the subtree records the pointer in its own frame,
    each child receiving the point taken relative to its rect.  The
    recursive handler is `Widget.Arena.OnMouseMove`. */
module Motion {
  import opened Seqs
  import opened Tree
  import opened HitTest
  import opened Walk

  /** Going up from a widget strictly below `w` reaches its parent, which
      lists it, lies in the subtree of `w` and has fewer ancestors. */
  lemma ParentStep(t: map<Id, Node>, anc: map<Id, set<Id>>, w: Id, n: Id)
    requires WellFormed(t, anc) && n in t && InSubtree(anc, n, w) && n != w
    ensures t[n].parent.Some? && t[n].parent.value in t && n in t[t[n].parent.value].children
    ensures InSubtree(anc, t[n].parent.value, w) && anc[t[n].parent.value] < anc[n]
  {
    assert AncestorsOf(t, anc, n);
    assert ParentLinked(t, n);
    var p := t[n].parent.value;
    assert p in anc[n];
  }

  /** The point the subtree of `w` reports at widget `n` when `w` is sent
      `(x, y)`: each step down takes it relative to the child's rect. */
  ghost function Local(t: map<Id, Node>, anc: map<Id, set<Id>>, w: Id, n: Id, x: int, y: int): Point
    requires WellFormed(t, anc) && n in t && InSubtree(anc, n, w)
    decreases anc[n]
  {
    if n == w then Point(x, y)
    else
      ParentStep(t, anc, w, n);
      var q := Local(t, anc, w, t[n].parent.value, x, y);
      Point(Rel(q.x, t[n].rect.x), Rel(q.y, t[n].rect.y))
  }

  /** The arena `onMouseMove(x, y)` on `w` leaves behind: every widget of
      the subtree of `w` has recorded the point in its own frame. */
  ghost function Moves(t: map<Id, Node>, anc: map<Id, set<Id>>, w: Id, x: int, y: int): (r: map<Id, Node>)
    requires WellFormed(t, anc)
    ensures r.Keys == t.Keys
  {
    map n | n in t :: if InSubtree(anc, n, w) then
      var q := Local(t, anc, w, n, x, y);
      t[n].(mouseX := q.x, mouseY := q.y)
    else t[n]
  }

  /** The move changes only the pointer fields of the subtree: the tree,
      the geometry and everything outside the subtree are kept. */
  lemma MovesConfined(t: map<Id, Node>, anc: map<Id, set<Id>>, w: Id, x: int, y: int)
    requires WellFormed(t, anc)
    ensures Confined(anc, t, Moves(t, anc, w, x, y), w) && SameLinks(t, Moves(t, anc, w, x, y))
    ensures WellFormed(Moves(t, anc, w, x, y), anc)
  {
    SameLinksKeepTree(t, anc, Moves(t, anc, w, x, y));
  }

  /** The point seen at `n` from child `c` of `w`, sent the point relative
      to its rect, is the one seen from `w`. */
  lemma {:induction false} LocalChild(t: map<Id, Node>, anc: map<Id, set<Id>>, w: Id, c: Id, n: Id, x: int, y: int)
    requires WellFormed(t, anc) && w in t && c in t[w].children && n in t && InSubtree(anc, n, c)
    ensures InSubtree(anc, n, w)
    ensures Local(t, anc, c, n, Rel(x, t[c].rect.x), Rel(y, t[c].rect.y)) == Local(t, anc, w, n, x, y)
    decreases anc[n]
  {
    ChildSubtree(t, anc, w, c, n);
    ChildAncestors(t, anc, w, c);
    if n == c {
      assert Local(t, anc, w, w, x, y) == Point(x, y);
    } else {
      ParentStep(t, anc, c, n);
      var p := t[n].parent.value;
      LocalChild(t, anc, w, c, p, x, y);
    }
  }

  /** The point seen at `n` only depends on the geometry. */
  lemma {:induction false} LocalGeometry(a: map<Id, Node>, b: map<Id, Node>, anc: map<Id, set<Id>>, w: Id, n: Id, x: int, y: int)
    requires WellFormed(a, anc) && WellFormed(b, anc) && SameGeometry(a, b) && n in a && InSubtree(anc, n, w)
    ensures Local(a, anc, w, n, x, y) == Local(b, anc, w, n, x, y)
    decreases anc[n]
  {
    if n != w {
      ParentStep(a, anc, w, n);
      LocalGeometry(a, b, anc, w, a[n].parent.value, x, y);
    }
  }

  /** What the move of child `c` of `w` leaves in its subtree is what the
      move of `w` is to leave there, when the arena the child starts from
      has the geometry of `t` and agrees with it below `c`. */
  lemma MovesChild(t: map<Id, Node>, anc: map<Id, set<Id>>, before: map<Id, Node>, w: Id, c: Id, x: int, y: int)
    requires WellFormed(t, anc) && WellFormed(before, anc) && w in t && c in t[w].children
    requires SameGeometry(t, before) && AgreeBelow(t, before, anc, c)
    ensures AgreeBelow(Moves(t, anc, w, x, y), Moves(before, anc, c, Rel(x, t[c].rect.x), Rel(y, t[c].rect.y)), anc, c)
  {
    var lx, ly := Rel(x, t[c].rect.x), Rel(y, t[c].rect.y);
    var goal, after := Moves(t, anc, w, x, y), Moves(before, anc, c, lx, ly);
    forall n | n in goal && InSubtree(anc, n, c) ensures n in after && after[n] == goal[n] {
      LocalChild(t, anc, w, c, n, x, y);
      LocalGeometry(t, before, anc, c, n, lx, ly);
    }
  }

  /** The last move wins: moving to `(x2, y2)` after `(x1, y1)` is moving to
      `(x2, y2)`; in particular moving twice to the same point is moving
      once. */
  lemma MoveLastWins(t: map<Id, Node>, anc: map<Id, set<Id>>, w: Id, x1: int, y1: int, x2: int, y2: int)
    requires WellFormed(t, anc)
    ensures WellFormed(Moves(t, anc, w, x1, y1), anc)
    ensures Moves(Moves(t, anc, w, x1, y1), anc, w, x2, y2) == Moves(t, anc, w, x2, y2)
  {
    var m := Moves(t, anc, w, x1, y1);
    MovesConfined(t, anc, w, x1, y1);
    forall n | n in t && InSubtree(anc, n, w) ensures Local(m, anc, w, n, x2, y2) == Local(t, anc, w, n, x2, y2) {
      LocalGeometry(m, t, anc, w, n, x2, y2);
    }
  }

  /** After a move, a child `c` of a widget `n` of the subtree contains the
      point `n` recorded exactly when the point `c` recorded lies in `c`'s
      own bounds: the frames the hover scan and the pointer handlers
      compare in agree. */
  lemma MovedFramesAgree(t: map<Id, Node>, anc: map<Id, set<Id>>, w: Id, n: Id, c: Id, x: int, y: int)
    requires WellFormed(t, anc) && n in t && InSubtree(anc, n, w) && c in t[n].children
    ensures c in t
    ensures var m := Moves(t, anc, w, x, y);
      Inside(t[c].rect, m[n].mouseX, m[n].mouseY) <==>
        0 <= m[c].mouseX < t[c].rect.width && 0 <= m[c].mouseY < t[c].rect.height
  {
    ChildAncestors(t, anc, n, c);
    assert InSubtree(anc, c, w);
    ParentStep(t, anc, w, c);
  }
}
