/** What `onMouseUp(x, y, b)` (include/Widget.hpp:675-721) does to a widget
    and its children, as functions of the arena it starts from.  The
    recursive handler itself is `Widget.Arena.OnMouseUp`; the lemmas here
    carry its proof one child at a time. */
module Release {
  import opened Wrappers
  import opened Seqs
  import opened Tree
  import opened HitTest

  /** The value `onMouseUp(x, y, b)` leaves in a widget's
      `m_testInsideChild`: a hidden widget returns at once and keeps the old
      value; otherwise it records whether some child contains the point,
      hidden or not. */
  ghost predicate ClaimsRelease(nodes: map<Id, Node>, c: Id, x: int, y: int)
    requires c in nodes
  {
    if nodes[c].hidden then nodes[c].testInsideChild
    else AnyHit(nodes, nodes[c].children, x, y, false)
  }

  /** Child `c` is held down by button `b` and visible: releasing `b` sends
      it `onRelease`. */
  predicate Releases(nodes: map<Id, Node>, c: Id, b: nat)
    requires c in nodes
  {
    nodes[c].down && nodes[c].downBtn == b && !nodes[c].hidden
  }

  /** Child `c` is released over its own rect (the point `x, y` being in its
      parent's frame) and none of its own children took the point: it is
      sent `onClick` as well. */
  ghost predicate Clicks(nodes: map<Id, Node>, c: Id, x: int, y: int, b: nat)
    requires c in nodes
  {
    && Releases(nodes, c, b)
    && !ClaimsRelease(nodes, c, Rel(x, nodes[c].rect.x), Rel(y, nodes[c].rect.y))
    && Inside(nodes[c].rect, x, y)
  }

  /** The notifications the parent's loop sends child `c` of an arena that
      the release has not yet touched. */
  ghost function ReleaseOf(nodes: map<Id, Node>, c: Id, x: int, y: int, b: nat): seq<Event>
    requires c in nodes
  {
    var lx, ly := Rel(x, nodes[c].rect.x), Rel(y, nodes[c].rect.y);
    if !Releases(nodes, c, b) then []
    else [Release(c, lx, ly, b)] + if Clicks(nodes, c, x, y, b) then [Click(c, lx, ly, b)] else []
  }

  /** The notifications the parent's loop sends to the listed children, in
      order. */
  ghost function ReleaseNotices(nodes: map<Id, Node>, s: seq<Id>, x: int, y: int, b: nat): seq<Event>
    requires Present(nodes, s)
    decreases |s|
  {
    if |s| == 0 then []
    else
      assert Present(nodes, s[..|s| - 1]);
      ReleaseNotices(nodes, s[..|s| - 1], x, y, b) + ReleaseOf(nodes, s[|s| - 1], x, y, b)
  }

  /** The notifications `onMouseUp(x, y, b)` on `w` sends to the children
      of `w` themselves. */
  ghost function ReleaseNoticesOf(nodes: map<Id, Node>, w: Id, x: int, y: int, b: nat): seq<Event>
    requires Level(nodes, w)
  {
    if nodes[w].hidden then [] else ReleaseNotices(nodes, nodes[w].children, x, y, b)
  }

  /** Child `c` after its turn of the loop, `t` being the arena the
      parent's handler started from: a hold by `b` is dropped, other holds
      stay, and the child records its own claim. */
  ghost predicate ReleaseSettled(t: map<Id, Node>, now: map<Id, Node>, c: Id, x: int, y: int, b: nat)
    requires c in t && c in now
  {
    && now[c].down == (t[c].down && t[c].downBtn != b)
    && now[c].downBtn == t[c].downBtn
    && now[c].testInsideChild == ClaimsRelease(t, c, Rel(x, t[c].rect.x), Rel(y, t[c].rect.y))
  }

  /** The state `onMouseUp(x, y, b)` on a visible `w` leaves in `w`'s
      children: the order is kept and every child is settled. */
  ghost predicate ReleasedLevel(before: map<Id, Node>, after: map<Id, Node>, w: Id, x: int, y: int, b: nat)
    requires Level(before, w) && w in after && Present(after, before[w].children)
  {
    var s := before[w].children;
    && after[w].children == s
    && forall j :: 0 <= j < |s| ==> ReleaseSettled(before, after, s[j], x, y, b)
  }

  // ---------------------------------------------------------------------
  // What the release tells the children

  /** What one child hears: only its own notifications, `onRelease` when
      the release reaches it and `onClick` when it clicks. */
  lemma ReleaseOfShape(nodes: map<Id, Node>, c: Id, x: int, y: int, b: nat)
    requires c in nodes
    ensures var f := ReleaseOf(nodes, c, x, y, b);
      && (forall e :: e in f ==> e.target == c && (e.Release? || e.Click?))
      && (Release(c, Rel(x, nodes[c].rect.x), Rel(y, nodes[c].rect.y), b) in f <==> Releases(nodes, c, b))
      && (Click(c, Rel(x, nodes[c].rect.x), Rel(y, nodes[c].rect.y), b) in f <==> Clicks(nodes, c, x, y, b))
  {
  }

  /** The loop notifies only the listed children, and only with `onRelease`
      and `onClick`. */
  lemma {:induction false} ReleaseNoticesTargets(nodes: map<Id, Node>, s: seq<Id>, x: int, y: int, b: nat)
    requires Present(nodes, s)
    ensures forall e :: e in ReleaseNotices(nodes, s, x, y, b) ==> e.target in s && (e.Release? || e.Click?)
    decreases |s|
  {
    if |s| > 0 {
      var p := s[..|s| - 1];
      assert Present(nodes, p);
      ReleaseNoticesTargets(nodes, p, x, y, b);
      ReleaseOfShape(nodes, s[|s| - 1], x, y, b);
      assert forall e :: e in p ==> e in s;
    }
  }

  /** Releasing `b` sends a child `onRelease` exactly when `b` holds it
      and it is visible, and `onClick` exactly when, moreover, the point is
      inside it and none of its own children took the point; nobody else
      hears anything. */
  lemma {:induction false} ReleaseNoticesShape(nodes: map<Id, Node>, s: seq<Id>, x: int, y: int, b: nat)
    requires Present(nodes, s) && Distinct(s)
    ensures var r := ReleaseNotices(nodes, s, x, y, b);
      forall e :: e in r ==> e.target in s && (e.Release? || e.Click?)
    ensures var r := ReleaseNotices(nodes, s, x, y, b);
      forall j :: 0 <= j < |s| ==>
        (Release(s[j], Rel(x, nodes[s[j]].rect.x), Rel(y, nodes[s[j]].rect.y), b) in r <==> Releases(nodes, s[j], b))
    ensures var r := ReleaseNotices(nodes, s, x, y, b);
      forall j :: 0 <= j < |s| ==>
        (Click(s[j], Rel(x, nodes[s[j]].rect.x), Rel(y, nodes[s[j]].rect.y), b) in r <==> Clicks(nodes, s[j], x, y, b))
  {
    ReleaseNoticesTargets(nodes, s, x, y, b);
    forall j | 0 <= j < |s|
      ensures Release(s[j], Rel(x, nodes[s[j]].rect.x), Rel(y, nodes[s[j]].rect.y), b) in ReleaseNotices(nodes, s, x, y, b)
          <==> Releases(nodes, s[j], b)
      ensures Click(s[j], Rel(x, nodes[s[j]].rect.x), Rel(y, nodes[s[j]].rect.y), b) in ReleaseNotices(nodes, s, x, y, b)
          <==> Clicks(nodes, s[j], x, y, b)
    {
      ReleaseNoticesAt(nodes, s, j, x, y, b);
    }
  }

  /** The part of `ReleaseNoticesShape` about listed child `j`. */
  lemma {:induction false} ReleaseNoticesAt(nodes: map<Id, Node>, s: seq<Id>, j: nat, x: int, y: int, b: nat)
    requires Present(nodes, s) && Distinct(s) && j < |s|
    ensures var r, d := ReleaseNotices(nodes, s, x, y, b), s[j];
      && (Release(d, Rel(x, nodes[d].rect.x), Rel(y, nodes[d].rect.y), b) in r <==> Releases(nodes, d, b))
      && (Click(d, Rel(x, nodes[d].rect.x), Rel(y, nodes[d].rect.y), b) in r <==> Clicks(nodes, d, x, y, b))
    decreases |s|
  {
    var p := s[..|s| - 1];
    var c := s[|s| - 1];
    assert Present(nodes, p) && Distinct(p);
    var rp := ReleaseNotices(nodes, p, x, y, b);
    var f := ReleaseOf(nodes, c, x, y, b);
    assert ReleaseNotices(nodes, s, x, y, b) == rp + f;
    ReleaseOfShape(nodes, c, x, y, b);
    var d := s[j];
    var ev := Release(d, Rel(x, nodes[d].rect.x), Rel(y, nodes[d].rect.y), b);
    var ec := Click(d, Rel(x, nodes[d].rect.x), Rel(y, nodes[d].rect.y), b);
    if j < |s| - 1 {
      DistinctApart(s, j, |s| - 1);
      assert p[j] == d;
      assert ev !in f && ec !in f;
      ReleaseNoticesAt(nodes, p, j, x, y, b);
    } else {
      ReleaseNoticesTargets(nodes, p, x, y, b);
      assert c !in p;
      assert ev !in rp && ec !in rp;
    }
  }

  // ---------------------------------------------------------------------
  // The steps of `onMouseUp`

  /** What the parent's loop does to the arena `m` after child `c` has
      handled its own `onMouseUp`: the parent records whether `c` contains
      the point, and a hold of `c` by `b` is dropped. */
  function Released(m: map<Id, Node>, w: Id, c: Id, x: int, y: int, b: nat): map<Id, Node>
    requires w in m && c in m
  {
    var m1 := m[w := m[w].(testInsideChild := m[w].testInsideChild || Inside(m[c].rect, x, y))];
    if m[c].down && m[c].downBtn == b then m1[c := m[c].(down := false)] else m1
  }

  /** What the parent's loop fires for child `c` of the arena `m` after
      `c` has handled its own `onMouseUp`. */
  function ReleaseFired(m: map<Id, Node>, c: Id, x: int, y: int, b: nat): seq<Event>
    requires c in m
  {
    var n := m[c];
    var lx, ly := Rel(x, n.rect.x), Rel(y, n.rect.y);
    if !(n.down && n.downBtn == b) || n.hidden then []
    else [Release(c, lx, ly, b)] + if !n.testInsideChild && Inside(n.rect, x, y) then [Click(c, lx, ly, b)] else []
  }

  /** The parent's turn in `onMouseUp` leaves hover targets and pointer
      positions alone. */
  lemma ReleasedKeepsPointer(m: map<Id, Node>, w: Id, c: Id, x: int, y: int, b: nat)
    requires w in m && c in m
    ensures PointerKept(m, Released(m, w, c, x, y, b))
  {
  }

  /** The parent's turn keeps the tree invariant. */
  lemma ReleasedKeepsTree(m: map<Id, Node>, anc: map<Id, set<Id>>, w: Id, c: Id, x: int, y: int, b: nat)
    requires WellFormed(m, anc) && w in m && c in m
    ensures WellFormed(Released(m, w, c, x, y, b), anc)
  {
    var m1 := m[w := m[w].(testInsideChild := m[w].testInsideChild || Inside(m[c].rect, x, y))];
    FieldUpdateKeepsTree(m, anc, w, m1[w]);
    if m[c].down && m[c].downBtn == b {
      FieldUpdateKeepsTree(m1, anc, c, m[c].(down := false));
    }
  }

  /** The parent's turn as the source writes it, one field at a time,
      amounts to `Released`. */
  lemma ReleaseSteps(m: map<Id, Node>, w: Id, c: Id, x: int, y: int, b: nat)
    requires w in m && c in m && w != c
    ensures var m1 := if m[w].testInsideChild then m else m[w := m[w].(testInsideChild := Inside(m[c].rect, x, y))];
      && m1[c] == m[c]
      && (m1[c].down && m1[c].downBtn == b ==> m1[c := m1[c].(down := false)] == Released(m, w, c, x, y, b))
      && (!(m1[c].down && m1[c].downBtn == b) ==> m1 == Released(m, w, c, x, y, b))
  {
    if m[w].testInsideChild {
      assert m[w := m[w].(testInsideChild := true)] == m;
    }
  }

  /** The parent's turn changes no geometry, and no widget but `w` and
      `c`. */
  lemma ReleasedGeometry(m: map<Id, Node>, w: Id, c: Id, x: int, y: int, b: nat)
    requires w in m && c in m
    ensures SameGeometry(m, Released(m, w, c, x, y, b))
    ensures forall n :: n in m && n != w && n != c ==> Released(m, w, c, x, y, b)[n] == m[n]
  {
  }

  /** The claim test that ends the loop over a prefix grows by one child. */
  lemma AnyHitSnoc(nodes: map<Id, Node>, s: seq<Id>, i: nat, x: int, y: int)
    requires Present(nodes, s) && i < |s|
    ensures AnyHit(nodes, s[..i + 1], x, y, false) == (AnyHit(nodes, s[..i], x, y, false) || Inside(nodes[s[i]].rect, x, y))
  {
    var p, q := s[..i], s[..i + 1];
    assert q == p + [s[i]];
    assert forall c :: c in q <==> c in p || c == s[i];
    if AnyHit(nodes, q, x, y, false) {
      var c :| c in q && c in nodes && Hit(nodes, c, x, y, false);
    }
    if Inside(nodes[s[i]].rect, x, y) {
      assert s[i] in q && Hit(nodes, s[i], x, y, false);
    }
    if AnyHit(nodes, p, x, y, false) {
      var c :| c in p && c in nodes && Hit(nodes, c, x, y, false);
      assert c in q;
    }
  }

  /** The notices for a prefix grow by one child. */
  lemma ReleaseNoticesSnoc(nodes: map<Id, Node>, s: seq<Id>, i: nat, x: int, y: int, b: nat)
    requires Present(nodes, s) && i < |s|
    ensures Present(nodes, s[..i]) && Present(nodes, s[..i + 1])
    ensures ReleaseNotices(nodes, s[..i + 1], x, y, b) == ReleaseNotices(nodes, s[..i], x, y, b) + ReleaseOf(nodes, s[i], x, y, b)
  {
    assert s[..i + 1][..i] == s[..i];
  }

  /** Two arenas with the same geometry that agree on a widget agree on its
      release claim. */
  lemma ClaimsReleaseGeometry(a: map<Id, Node>, b: map<Id, Node>, c: Id, x: int, y: int)
    requires SameGeometry(a, b) && c in a && a[c] == b[c] && Present(a, a[c].children)
    ensures ClaimsRelease(a, c, x, y) == ClaimsRelease(b, c, x, y)
  {
    var s := a[c].children;
    AnyHitSameMembers(a, s, b, s, x, y, false);
  }

  /** The loop state of `onMouseUp` on `w` before child `i`'s turn: `t` is
      the arena the handler started from; the claim covers the children
      visited so far; those children are settled and the others untouched. */
  ghost predicate Visited(t: map<Id, Node>, anc: map<Id, set<Id>>, now: map<Id, Node>, w: Id, i: nat,
                          x: int, y: int, b: nat)
    requires Level(t, w) && i <= |t[w].children|
  {
    var s := t[w].children;
    && SameGeometry(t, now)
    && now[w] == t[w].(testInsideChild := AnyHit(t, s[..i], x, y, false))
    && (forall n :: n in t && !InSubtree(anc, n, w) ==> now[n] == t[n])
    && (forall j :: i <= j < |s| ==> now[s[j]] == t[s[j]])
    && (forall j :: 0 <= j < i ==> ReleaseSettled(t, now, s[j], x, y, b))
  }

  /** Child `i`'s own handler and the parent's turn for it keep the loop
      state, one child further. */
  lemma ReleasedChild(t: map<Id, Node>, anc: map<Id, set<Id>>, before: map<Id, Node>, mid: map<Id, Node>,
                      w: Id, i: nat, x: int, y: int, b: nat)
    requires WellFormed(t, anc) && Level(t, w) && i < |t[w].children|
    requires Visited(t, anc, before, w, i, x, y, b)
    requires var c := t[w].children[i];
      && Confined(anc, before, mid, c)
      && mid[c].down == before[c].down && mid[c].downBtn == before[c].downBtn
      && mid[c].testInsideChild == ClaimsRelease(before, c, Rel(x, before[c].rect.x), Rel(y, before[c].rect.y))
    ensures Visited(t, anc, Released(mid, w, t[w].children[i], x, y, b), w, i + 1, x, y, b)
  {
    ChildrenFacts(t, anc, w);
    var s := t[w].children;
    var c := s[i];
    assert c in s;
    ChildTurnFrame(t, anc, before, mid, w, i);
    assert forall j :: i < j < |s| ==> mid[s[j]] == t[s[j]];
    ReleasedKeeps(t, anc, mid, w, i, x, y, b);
    forall j | 0 <= j < i ensures ReleaseSettled(t, mid, s[j], x, y, b) {
      assert mid[s[j]] == before[s[j]];
    }
    ChildrenFacts(t, anc, c);
    ClaimsReleaseGeometry(t, before, c, Rel(x, t[c].rect.x), Rel(y, t[c].rect.y));
    ReleasedSettles(t, mid, w, i, x, y, b);
  }

  /** The parent's turn for child `i` extends its claim by that child and
      touches no widget but `w` and that child. */
  lemma ReleasedKeeps(t: map<Id, Node>, anc: map<Id, set<Id>>, mid: map<Id, Node>, w: Id, i: nat,
                      x: int, y: int, b: nat)
    requires Level(t, w) && i < |t[w].children| && w !in t[w].children
    requires w in anc && InSubtree(anc, t[w].children[i], w)
    requires SameGeometry(t, mid)
    requires mid[w] == t[w].(testInsideChild := AnyHit(t, t[w].children[..i], x, y, false))
    requires forall n :: n in t && !InSubtree(anc, n, w) ==> mid[n] == t[n]
    requires forall j :: i < j < |t[w].children| ==> mid[t[w].children[j]] == t[t[w].children[j]]
    ensures var s := t[w].children;
      var after := Released(mid, w, s[i], x, y, b);
      && SameGeometry(t, after)
      && after[w] == t[w].(testInsideChild := AnyHit(t, s[..i + 1], x, y, false))
      && (forall n :: n in t && !InSubtree(anc, n, w) ==> after[n] == t[n])
      && (forall j :: i + 1 <= j < |s| ==> after[s[j]] == t[s[j]])
  {
    var s := t[w].children;
    var c := s[i];
    assert c in s;
    var after := Released(mid, w, c, x, y, b);
    ReleasedGeometry(mid, w, c, x, y, b);
    assert SameGeometry(t, after) by {
      GeometryTrans(t, mid, after);
    }
    assert after[w] == t[w].(testInsideChild := AnyHit(t, s[..i + 1], x, y, false)) by {
      AnyHitSnoc(t, s, i, x, y);
    }
    forall n | n in t && !InSubtree(anc, n, w) ensures after[n] == t[n] {
      assert n != w && n != c;
    }
    forall j | i + 1 <= j < |s| ensures after[s[j]] == t[s[j]] {
      DistinctApart(s, i, j);
      assert s[j] in s;
    }
  }

  /** The parent's turn for child `i` settles that child, and the children
      settled before stay settled. */
  lemma ReleasedSettles(t: map<Id, Node>, mid: map<Id, Node>, w: Id, i: nat, x: int, y: int, b: nat)
    requires Level(t, w) && i < |t[w].children| && w !in t[w].children && w in mid
    requires Present(mid, t[w].children)
    requires forall j :: 0 <= j < i ==> ReleaseSettled(t, mid, t[w].children[j], x, y, b)
    requires var c := t[w].children[i];
      && mid[c].down == t[c].down && mid[c].downBtn == t[c].downBtn
      && mid[c].testInsideChild == ClaimsRelease(t, c, Rel(x, t[c].rect.x), Rel(y, t[c].rect.y))
    ensures var s := t[w].children;
      var after := Released(mid, w, s[i], x, y, b);
      forall j :: 0 <= j < i + 1 ==> ReleaseSettled(t, after, s[j], x, y, b)
  {
    var s := t[w].children;
    var c := s[i];
    assert c in s;
    var after := Released(mid, w, c, x, y, b);
    forall j | 0 <= j < i + 1 ensures ReleaseSettled(t, after, s[j], x, y, b) {
      assert s[j] in s;
      if j < i {
        DistinctApart(s, i, j);
        assert after[s[j]] == mid[s[j]];
      }
    }
  }

  /** The loop state before the first child, once the claim is cleared. */
  lemma VisitedStart(t: map<Id, Node>, anc: map<Id, set<Id>>, w: Id, x: int, y: int, b: nat)
    requires Level(t, w) && w in anc && w !in t[w].children
    ensures Visited(t, anc, t[w := t[w].(testInsideChild := false)], w, 0, x, y, b)
    ensures ReleaseNotices(t, t[w].children[..0], x, y, b) == []
  {
    var s := t[w].children;
    assert s[..0] == [];
    assert forall j :: 0 <= j < |s| ==> s[j] != w;
  }

  /** One round of the loop of `onMouseUp` on `w`: child `i`'s own handler
      (from `before` to `mid`, firing `e`) and the parent's turn for it keep
      the loop state and the log one child further. */
  lemma ReleasedTurn(t: map<Id, Node>, anc: map<Id, set<Id>>, before: map<Id, Node>, mid: map<Id, Node>,
                     w: Id, i: nat, x: int, y: int, b: nat, a: seq<Event>, e: seq<Event>)
    requires WellFormed(t, anc) && Level(t, w) && i < |t[w].children|
    requires Visited(t, anc, before, w, i, x, y, b)
    requires var c := t[w].children[i];
      && Confined(anc, before, mid, c)
      && mid[c].down == before[c].down && mid[c].downBtn == before[c].downBtn
      && mid[c].testInsideChild == ClaimsRelease(before, c, Rel(x, before[c].rect.x), Rel(y, before[c].rect.y))
    requires var s := t[w].children;
      Below(anc, w, a) && Only(a, s) == ReleaseNotices(t, s[..i], x, y, b) && Below(anc, s[i], e)
    ensures Visited(t, anc, Released(mid, w, t[w].children[i], x, y, b), w, i + 1, x, y, b)
    ensures var s := t[w].children;
      var n := a + e + ReleaseFired(mid, s[i], x, y, b);
      Below(anc, w, n) && Only(n, s) == ReleaseNotices(t, s[..i + 1], x, y, b)
  {
    ReleasedChild(t, anc, before, mid, w, i, x, y, b);
    ReleasedLog(t, anc, before, mid, w, i, x, y, b, a, e);
  }

  /** A child's own handler, confined to the child's subtree, leaves
      everything outside the subtree of the parent `w`, `w` itself and the
      other children of `w` as they were. */
  lemma ChildTurnFrame(t: map<Id, Node>, anc: map<Id, set<Id>>, before: map<Id, Node>, mid: map<Id, Node>,
                       w: Id, i: nat)
    requires WellFormed(t, anc) && Level(t, w) && i < |t[w].children| && SameGeometry(t, before)
    requires forall n :: n in t && !InSubtree(anc, n, w) ==> before[n] == t[n]
    requires Confined(anc, before, mid, t[w].children[i])
    ensures mid[w] == before[w]
    ensures forall n :: n in t && !InSubtree(anc, n, w) ==> mid[n] == t[n]
    ensures forall j :: 0 <= j < |t[w].children| && j != i ==> mid[t[w].children[j]] == before[t[w].children[j]]
  {
    ChildrenFacts(t, anc, w);
    var s := t[w].children;
    var c := s[i];
    assert c in s;
    forall n | n in t && !InSubtree(anc, n, w) ensures mid[n] == t[n] {
      if InSubtree(anc, n, c) { ChildSubtree(t, anc, w, c, n); }
    }
    forall j | 0 <= j < |s| && j != i ensures mid[s[j]] == before[s[j]] {
      assert s[j] in s;
      DistinctApart(s, i, j);
      SiblingOutside(t, anc, w, c, s[j]);
    }
  }

  /** What the parent's turn fires for child `i` is `ReleaseOf` that
      child in the arena the handler started from, and it extends the log
      below `w` one child further. */
  lemma ReleasedLog(t: map<Id, Node>, anc: map<Id, set<Id>>, before: map<Id, Node>, mid: map<Id, Node>,
                    w: Id, i: nat, x: int, y: int, b: nat, a: seq<Event>, e: seq<Event>)
    requires WellFormed(t, anc) && Level(t, w) && i < |t[w].children|
    requires Visited(t, anc, before, w, i, x, y, b)
    requires var c := t[w].children[i];
      && Confined(anc, before, mid, c)
      && mid[c].down == before[c].down && mid[c].downBtn == before[c].downBtn
      && mid[c].testInsideChild == ClaimsRelease(before, c, Rel(x, before[c].rect.x), Rel(y, before[c].rect.y))
    requires var s := t[w].children;
      Below(anc, w, a) && Only(a, s) == ReleaseNotices(t, s[..i], x, y, b) && Below(anc, s[i], e)
    ensures var s := t[w].children;
      var n := a + e + ReleaseFired(mid, s[i], x, y, b);
      Below(anc, w, n) && Only(n, s) == ReleaseNotices(t, s[..i + 1], x, y, b)
  {
    ChildrenFacts(t, anc, w);
    var s := t[w].children;
    var c := s[i];
    assert c in s;
    ReleaseNoticesSnoc(t, s, i, x, y, b);
    assert t[c] == before[c];
    assert ReleaseFired(mid, c, x, y, b) == ReleaseOf(t, c, x, y, b) by {
      ChildrenFacts(t, anc, c);
      ClaimsReleaseGeometry(t, before, c, Rel(x, t[c].rect.x), Rel(y, t[c].rect.y));
      ReleaseFiredOf(t, mid, c, x, y, b);
    }
    ReleaseOfTargets(t, c, x, y, b);
    ExtendBelowReleased(t, anc, w, c, a, e, ReleaseOf(t, c, x, y, b));
  }

  /** The parent's turn, taken after the child's own handler has recorded
      its claim, fires `ReleaseOf` the child as it was before. */
  lemma ReleaseFiredOf(t: map<Id, Node>, m: map<Id, Node>, c: Id, x: int, y: int, b: nat)
    requires c in t && c in m
    requires m[c].down == t[c].down && m[c].downBtn == t[c].downBtn
    requires m[c].hidden == t[c].hidden && m[c].rect == t[c].rect
    requires m[c].testInsideChild == ClaimsRelease(t, c, Rel(x, t[c].rect.x), Rel(y, t[c].rect.y))
    ensures ReleaseFired(m, c, x, y, b) == ReleaseOf(t, c, x, y, b)
  {
  }

  /** `ReleaseOf` a child is addressed to that child. */
  lemma ReleaseOfTargets(t: map<Id, Node>, c: Id, x: int, y: int, b: nat)
    requires c in t
    ensures forall k :: 0 <= k < |ReleaseOf(t, c, x, y, b)| ==> ReleaseOf(t, c, x, y, b)[k].target == c
  {
  }

  /** Notifications below child `c`, then some addressed to `c` itself:
      the child's share adds nothing for the parent's children. */
  lemma ExtendBelowReleased(nodes: map<Id, Node>, anc: map<Id, set<Id>>, w: Id, c: Id,
                            a: seq<Event>, e: seq<Event>, f: seq<Event>)
    requires WellFormed(nodes, anc) && w in nodes && c in nodes[w].children
    requires Below(anc, w, a) && Below(anc, c, e)
    requires forall k :: 0 <= k < |f| ==> f[k].target == c
    ensures Below(anc, w, a + e + f)
    ensures Only(a + e + f, nodes[w].children) == Only(a, nodes[w].children) + f
  {
    var s := nodes[w].children;
    assert Below(anc, w, a + e) && Only(a + e, s) == Only(a, s) by {
      BelowChild(nodes, anc, w, c, e);
      BelowAppend(anc, w, a, e);
      OnlyAppend(a, e, s);
    }
    assert Below(anc, w, f) && Only(f, s) == f by {
      ChildEvents(nodes, anc, w, f);
    }
    BelowAppend(anc, w, a + e, f);
    OnlyAppend(a + e, f, s);
  }

  /** When the loop is done, the handler kept to the subtree of `w`,
      recorded its claim, settled every child and told the children exactly
      `ReleaseNoticesOf`. */
  lemma ReleasedAll(t: map<Id, Node>, anc: map<Id, set<Id>>, now: map<Id, Node>, w: Id, x: int, y: int, b: nat,
                    a: seq<Event>)
    requires WellFormed(t, anc) && Level(t, w) && !t[w].hidden
    requires Visited(t, anc, now, w, |t[w].children|, x, y, b)
    requires Only(a, t[w].children) == ReleaseNotices(t, t[w].children[..|t[w].children|], x, y, b)
    ensures Confined(anc, t, now, w) && Present(now, t[w].children)
    ensures now[w].down == t[w].down && now[w].downBtn == t[w].downBtn
    ensures now[w].testInsideChild == ClaimsRelease(t, w, x, y)
    ensures ReleasedLevel(t, now, w, x, y, b)
    ensures Only(a, t[w].children) == ReleaseNoticesOf(t, w, x, y, b)
  {
    var s := t[w].children;
    assert s[..|s|] == s;
    assert Present(now, s);
  }

  // ---------------------------------------------------------------------
  // `mouseUp` on the root

  /** What `mouseUp(x, y, b)` fires for the root `w` itself, given the arena
      before the release: `onRelease` when `b` holds it and it is visible,
      then `onClick` when none of its children took the point and the point
      lies in its own rect; the source compares the rect with the same
      coordinates it passed to the children. */
  ghost function RootReleaseFired(nodes: map<Id, Node>, w: Id, x: int, y: int, b: nat): seq<Event>
    requires w in nodes
  {
    var lx, ly := Rel(x, nodes[w].rect.x), Rel(y, nodes[w].rect.y);
    if !Releases(nodes, w, b) then []
    else
      var click := !ClaimsRelease(nodes, w, x, y) && Inside(nodes[w].rect, x, y);
      [Release(w, lx, ly, b)] + if click then [Click(w, lx, ly, b)] else []
  }

  /** `RootReleaseFired` read off the root's fields after its own handler
      ran, case by case as the source tests them. */
  lemma RootReleaseCases(t: map<Id, Node>, m: map<Id, Node>, w: Id, x: int, y: int, b: nat)
    requires w in t && w in m && !t[w].hidden
    requires m[w].down == t[w].down && m[w].downBtn == t[w].downBtn && m[w].rect == t[w].rect
    requires m[w].testInsideChild == ClaimsRelease(t, w, x, y)
    ensures var r, n := RootReleaseFired(t, w, x, y, b), m[w];
      var p := Release(w, Rel(x, n.rect.x), Rel(y, n.rect.y), b);
      && (!(n.down && n.downBtn == b) ==> r == [])
      && (n.down && n.downBtn == b && n.testInsideChild ==> r == [p])
      && (n.down && n.downBtn == b && !n.testInsideChild && !Inside(n.rect, x, y) ==> r == [p])
      && (n.down && n.downBtn == b && !n.testInsideChild && Inside(n.rect, x, y) ==>
            r == [p, Click(w, Rel(x, n.rect.x), Rel(y, n.rect.y), b)])
  {
  }

  /** Dropping the root's hold after its handler keeps what the handler did
      to its children. */
  lemma DropKeepsLevel(t: map<Id, Node>, anc: map<Id, set<Id>>, m: map<Id, Node>, w: Id, x: int, y: int, b: nat)
    requires Level(t, w) && w !in t[w].children && w in anc && w in m
    requires Confined(anc, t, m, w) && Present(m, t[w].children) && ReleasedLevel(t, m, w, x, y, b)
    ensures var after := m[w := m[w].(down := false)];
      Confined(anc, t, after, w) && Present(after, t[w].children) && ReleasedLevel(t, after, w, x, y, b)
    ensures PointerKept(m, m[w := m[w].(down := false)])
  {
    var s := t[w].children;
    var after := m[w := m[w].(down := false)];
    assert forall j :: 0 <= j < |s| ==> s[j] != w && after[s[j]] == m[s[j]];
  }
}
