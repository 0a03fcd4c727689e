/** A press followed by a release with the same button, at one level: the
    click law of `onMouseDown` and `onMouseUp` (include/Widget.hpp:622-721).
    The press is sent to the top-most visible child containing the point;
    the release tells that child `onRelease`, and `onClick` as well when it
    lands inside the child and on none of the child's own children, hidden
    ones included. */
module Gesture {
  import opened Wrappers
  import opened Seqs
  import opened Tree
  import opened HitTest
  import opened Focus
  import opened Press
  import opened Release

  /** At one level of the release, a child hears exactly its own share. */
  lemma {:induction false} ReleaseOnlyOne(nodes: map<Id, Node>, s: seq<Id>, c: Id, x: int, y: int, b: nat)
    requires Present(nodes, s) && Distinct(s) && c in s
    ensures Only(ReleaseNotices(nodes, s, x, y, b), [c]) == ReleaseOf(nodes, c, x, y, b)
    decreases |s|
  {
    var p, last := s[..|s| - 1], s[|s| - 1];
    assert Present(nodes, p);
    var before := ReleaseNotices(nodes, p, x, y, b);
    assert ReleaseNotices(nodes, s, x, y, b) == before + ReleaseOf(nodes, last, x, y, b);
    OnlyAppend(before, ReleaseOf(nodes, last, x, y, b), [c]);
    ReleaseOfTargets(nodes, last, x, y, b);
    ReleaseNoticesTargets(nodes, p, x, y, b);
    if last == c {
      forall k | 0 <= k < |before| ensures before[k].target !in [c] {
        assert before[k] in before;
        var j :| 0 <= j < |p| && p[j] == before[k].target;
        DistinctApart(s, j, |s| - 1);
      }
      OnlyNone(before, [c]);
      OnlyAll(ReleaseOf(nodes, last, x, y, b), [c]);
    } else {
      OnlyNone(ReleaseOf(nodes, last, x, y, b), [c]);
      assert c in p by {
        var j :| 0 <= j < |s| && s[j] == c;
        assert j < |s| - 1 && p[j] == c;
      }
      assert Distinct(p);
      ReleaseOnlyOne(nodes, p, c, x, y, b);
    }
  }

  /** The click law.  `onMouseDown(x, y, b)` on a visible `w` in arena `t`
      presses the top-most visible child `r` containing the point, which
      hears `onPress` exactly when no visible child of its own contains the
      point; if `r` was free or held by `b`, `onMouseUp(x2, y2, b)` on the
      arena `m` the press left sends `r` one `onRelease`, followed by one
      `onClick` exactly when the point is inside `r` and on none of `r`'s
      children, hidden or not. */
  lemma PressThenRelease(t: map<Id, Node>, m: map<Id, Node>, w: Id, x: int, y: int, x2: int, y2: int, b: nat)
    requires Level(t, w) && !t[w].hidden && Level(m, w) && Present(m, t[w].children) && SameGeometry(t, m)
    requires PressedLevel(t, m, w, x, y, b)
    requires var k := Topmost(t, t[w].children, x, y, true);
      k.Some? && (!t[t[w].children[k.value]].down || t[t[w].children[k.value]].downBtn == b)
    ensures var r := t[w].children[Topmost(t, t[w].children, x, y, true).value];
      var lx, ly := Rel(x, t[r].rect.x), Rel(y, t[r].rect.y);
      !t[r].hidden && Inside(t[r].rect, x, y) &&
      (Press(r, lx, ly, b) in PressNotices(t, w, x, y, b) <==> !AnyHit(t, t[r].children, lx, ly, true))
    ensures var r := t[w].children[Topmost(t, t[w].children, x, y, true).value];
      var lx, ly := Rel(x2, t[r].rect.x), Rel(y2, t[r].rect.y);
      Only(ReleaseNoticesOf(m, w, x2, y2, b), [r])
        == [Release(r, lx, ly, b)]
         + if Inside(t[r].rect, x2, y2) && !AnyHit(m, m[r].children, lx, ly, false) then [Click(r, lx, ly, b)] else []
  {
    PressLands(t, m, w, x, y, b);
    ReleaseLands(t, m, w, x, y, x2, y2, b);
  }

  /** The press half of the click law. */
  lemma PressLands(t: map<Id, Node>, m: map<Id, Node>, w: Id, x: int, y: int, b: nat)
    requires Level(t, w) && !t[w].hidden && Level(m, w) && Present(m, t[w].children) && SameGeometry(t, m)
    requires PressedLevel(t, m, w, x, y, b)
    requires Topmost(t, t[w].children, x, y, true).Some?
    ensures var r := t[w].children[Topmost(t, t[w].children, x, y, true).value];
      var lx, ly := Rel(x, t[r].rect.x), Rel(y, t[r].rect.y);
      !t[r].hidden && Inside(t[r].rect, x, y) &&
      (Press(r, lx, ly, b) in PressNotices(t, w, x, y, b) <==> !AnyHit(t, t[r].children, lx, ly, true))
  {
    var s := t[w].children;
    var i := Topmost(t, s, x, y, true).value;
    var f := FocusAt(s, i);
    assert forall e :: e in f.fired ==> !e.Press?;
  }

  /** The release half of the click law. */
  lemma ReleaseLands(t: map<Id, Node>, m: map<Id, Node>, w: Id, x: int, y: int, x2: int, y2: int, b: nat)
    requires Level(t, w) && !t[w].hidden && Level(m, w) && Present(m, t[w].children) && SameGeometry(t, m)
    requires PressedLevel(t, m, w, x, y, b)
    requires var k := Topmost(t, t[w].children, x, y, true);
      k.Some? && (!t[t[w].children[k.value]].down || t[t[w].children[k.value]].downBtn == b)
    ensures var r := t[w].children[Topmost(t, t[w].children, x, y, true).value];
      var lx, ly := Rel(x2, t[r].rect.x), Rel(y2, t[r].rect.y);
      Only(ReleaseNoticesOf(m, w, x2, y2, b), [r])
        == [Release(r, lx, ly, b)]
         + if Inside(t[r].rect, x2, y2) && !AnyHit(m, m[r].children, lx, ly, false) then [Click(r, lx, ly, b)] else []
  {
    var s := t[w].children;
    var i := Topmost(t, s, x, y, true).value;
    var r := s[i];
    assert r in s;
    FocusAtPermutes(s, i);
    assert r in multiset(m[w].children);
    ReleaseOnlyOne(m, m[w].children, r, x2, y2, b);
  }

  // ---------------------------------------------------------------------
  // A hidden grandchild takes the click but not the press

  /** Widget 0 holds 1 at `(0, 0, 10, 10)`, and 1 holds 2, hidden, over
      the same rect. */
  function Stack(): map<Id, Node> {
    map[0 := Node([1], None, Rect(0, 0, 100, 100), false, false, 0, false, None, 0, 0),
        1 := Node([2], Some(0), Rect(0, 0, 10, 10), false, false, 0, false, None, 0, 0),
        2 := Node([], Some(1), Rect(0, 0, 10, 10), true, false, 0, false, None, 0, 0)]
  }

  /** `Stack()` after `onMouseDown(5, 5, 1)` on 0: 0 records the claim and
      1 is held by button 1. */
  function StackPressed(): map<Id, Node> {
    var t := Stack();
    t[0 := t[0].(testInsideChild := true)][1 := t[1].(down := true, downBtn := 1)]
  }

  function StackAncestry(): map<Id, set<Id>> {
    map[0 := {}, 1 := {0}, 2 := {1, 0}]
  }

  lemma StackWellFormed()
    ensures WellFormed(Stack(), StackAncestry())
  {
    StackLinked();
    StackAncestryFollows();
  }

  lemma StackLinked()
    ensures ParentsLinked(Stack()) && ChildrenLinked(Stack()) && ChildrenDistinct(Stack())
  {
    var t := Stack();
    assert t.Keys == {0, 1, 2};
    forall n | n in t ensures ParentLinked(t, n) { }
  }

  lemma StackAncestryFollows()
    ensures AncestryFollowsParents(Stack(), StackAncestry()) && Acyclic(StackAncestry())
  {
    var t, anc := Stack(), StackAncestry();
    assert t.Keys == anc.Keys == {0, 1, 2};
    forall n | n in t ensures AncestorsOf(t, anc, n) { }
  }

  /** The press and release scans disagree about hidden children: the
      press at `(5, 5)` skips hidden 2 and presses 1, but the release at
      the same point counts 2 as taking the point, so 1 is released
      without a click. */
  lemma HiddenChildSuppressesClick()
    ensures WellFormed(Stack(), StackAncestry())
    ensures PressNotices(Stack(), 0, 5, 5, 1) == [Press(1, 5, 5, 1)]
    ensures PressedLevel(Stack(), StackPressed(), 0, 5, 5, 1)
    ensures ReleaseNoticesOf(StackPressed(), 0, 5, 5, 1) == [Release(1, 5, 5, 1)]
  {
    StackWellFormed();
    var t, m := Stack(), StackPressed();
    assert !AnyHit(t, [2], 5, 5, true);
    assert Topmost(t, [1], 5, 5, true) == Some(0);
    assert FocusAt([1], 0).fired == [];
    assert Hit(m, 2, 5, 5, false);
    assert ClaimsRelease(m, 1, 5, 5);
    assert ReleaseNotices(m, [1], 5, 5, 1) == ReleaseNotices(m, [], 5, 5, 1) + ReleaseOf(m, 1, 5, 5, 1);
  }
}
