/** What a press does at one level of the tree: `onMouseDown`
    (include/Widget.hpp:622-671) first forwards the press to every child in
    reverse order, then picks the top-most visible child containing the
    point, holds it down, makes it the focused child and fires `onPress` on
    it unless one of its own children took the press.  These functions
    describe that outcome in terms of the arena the handler starts from; the
    recursive handler itself is `Widget.Arena.OnMouseDown`. */
module Press {
  import opened Wrappers
  import opened Seqs
  import opened Tree
  import opened HitTest
  import opened Focus

  /** A widget held down by button `b`: an earlier hold keeps its button. */
  function Hold(n: Node, b: nat): (r: Node)
    ensures r.down && r.downBtn == (if n.down then n.downBtn else b)
    ensures r.(down := n.down, downBtn := n.downBtn) == n
  {
    if n.down then n else n.(down := true, downBtn := b)
  }

  /** The arena once `onMouseDown` on `w` has taken child `c`: `c` is held
      down, the children of `w` are in their new focus order and `w` records
      that a child took the press. */
  function Claimed(d: map<Id, Node>, w: Id, c: Id, order: seq<Id>, b: nat): map<Id, Node>
    requires w in d && c in d
  {
    d[c := Hold(d[c], b)][w := d[w].(children := order, testInsideChild := true)]
  }

  /** The notifications fired once child `c` is taken: the focus change,
      then `onPress` unless `c` claimed the press for one of its children. */
  function PressFired(d: map<Id, Node>, c: Id, focus: seq<Event>, x: int, y: int, b: nat): seq<Event>
    requires c in d
  {
    focus + (if d[c].testInsideChild then [] else [Press(c, Rel(x, d[c].rect.x), Rel(y, d[c].rect.y), b)])
  }

  /** The outcome of the second loop of `onMouseDown` on `w` in arena `d`,
      `k` being the child it took, if any. */
  function Selection(d: map<Id, Node>, w: Id, k: Option<nat>, b: nat): map<Id, Node>
    requires Level(d, w) && (k.Some? ==> k.value < |d[w].children|)
  {
    var s := d[w].children;
    match k
    case None => d
    case Some(i) => Claimed(d, w, s[i], FocusAt(s, i).order, b)
  }

  /** The notifications the second loop of `onMouseDown` fires. */
  function SelectionFired(d: map<Id, Node>, w: Id, k: Option<nat>, x: int, y: int, b: nat): seq<Event>
    requires Level(d, w) && (k.Some? ==> k.value < |d[w].children|)
  {
    var s := d[w].children;
    match k
    case None => []
    case Some(i) => PressFired(d, s[i], FocusAt(s, i).fired, x, y, b)
  }

  /** The value `onMouseDown(x, y, b)` leaves in a widget's
      `m_testInsideChild`: a hidden widget returns at once and keeps the old
      value; otherwise it records whether some visible child contains the
      point. */
  ghost predicate ClaimsPress(nodes: map<Id, Node>, c: Id, x: int, y: int)
    requires c in nodes
  {
    if nodes[c].hidden then nodes[c].testInsideChild
    else AnyHit(nodes, nodes[c].children, x, y, true)
  }

  /** The notifications `onMouseDown(x, y, b)` on `w` sends to the children
      of `w` themselves: the focus change to the chosen child, then its
      `onPress` unless it claimed the press for one of its own children. */
  ghost function PressNotices(nodes: map<Id, Node>, w: Id, x: int, y: int, b: nat): seq<Event>
    requires Level(nodes, w)
  {
    var s := nodes[w].children;
    if nodes[w].hidden then []
    else
      match Topmost(nodes, s, x, y, true)
      case None => []
      case Some(i) =>
        var c := s[i];
        var lx, ly := Rel(x, nodes[c].rect.x), Rel(y, nodes[c].rect.y);
        FocusAt(s, i).fired + (if ClaimsPress(nodes, c, lx, ly) then [] else [Press(c, lx, ly, b)])
  }

  /** The state `onMouseDown(x, y, b)` on a visible `w` leaves in `w` and its
      children, `before` being the arena it started from: the top-most
      visible child containing the point moves to the back and is held down,
      keeping the button of an earlier hold; no other child changes its
      hold; and every child records its own claim. */
  ghost predicate PressedLevel(before: map<Id, Node>, after: map<Id, Node>, w: Id, x: int, y: int, b: nat)
    requires Level(before, w) && w in after && Present(after, before[w].children)
  {
    var s := before[w].children;
    var k := Topmost(before, s, x, y, true);
    && after[w].children == (if k.Some? then FocusAt(s, k.value).order else s)
    && (forall j :: 0 <= j < |s| ==> after[s[j]].down == (before[s[j]].down || k == Some(j)))
    && (forall j :: 0 <= j < |s| ==>
          after[s[j]].downBtn == if k == Some(j) && !before[s[j]].down then b else before[s[j]].downBtn)
    && (forall j :: 0 <= j < |s| ==>
          after[s[j]].testInsideChild == ClaimsPress(before, s[j], Rel(x, before[s[j]].rect.x), Rel(y, before[s[j]].rect.y)))
  }

  /** Two arenas with the same geometry that agree on a widget agree on its
      claim. */
  lemma ClaimsPressGeometry(a: map<Id, Node>, b: map<Id, Node>, c: Id, x: int, y: int)
    requires SameGeometry(a, b) && c in a && a[c] == b[c] && Present(a, a[c].children)
    ensures ClaimsPress(a, c, x, y) == ClaimsPress(b, c, x, y)
  {
    var s := a[c].children;
    AnyHitSameMembers(a, s, b, s, x, y, true);
  }

  /** Marking the claim on `w`, holding `c` and then reordering the
      children of `w` is one update of each. */
  lemma ClaimHoldReorder(n0: map<Id, Node>, w: Id, c: Id, order: seq<Id>, b: nat)
    requires w in n0 && c in n0 && w != c
    ensures var m := n0[w := n0[w].(testInsideChild := true)][c := Hold(n0[c], b)];
      m[w := m[w].(children := order)] == Claimed(n0, w, c, order, b)
  {
  }

  /** A press notifies at most one child with `onPress`: the top-most visible
      child containing the point, once the focus notifications are out, and
      only when it did not claim the press for one of its own children.
      When no visible child contains the point the children hear nothing. */
  lemma PressNoticesShape(nodes: map<Id, Node>, w: Id, x: int, y: int, b: nat)
    requires Level(nodes, w)
    ensures var r := PressNotices(nodes, w, x, y, b);
      forall i :: 0 <= i < |r| - 1 ==> !r[i].Press?
    ensures var r := PressNotices(nodes, w, x, y, b);
      var s := nodes[w].children;
      var k := Topmost(nodes, s, x, y, true);
      forall e :: e in r && e.Press? ==>
        && k.Some?
        && var c := s[k.value];
           var lx, ly := Rel(x, nodes[c].rect.x), Rel(y, nodes[c].rect.y);
           e == Press(c, lx, ly, b) && !ClaimsPress(nodes, c, lx, ly)
    ensures nodes[w].hidden || !AnyHit(nodes, nodes[w].children, x, y, true) ==>
      PressNotices(nodes, w, x, y, b) == []
  {
    var s := nodes[w].children;
    TopmostFindsAny(nodes, s, x, y, true);
    var r := PressNotices(nodes, w, x, y, b);
    if !nodes[w].hidden && Topmost(nodes, s, x, y, true).Some? {
      var i := Topmost(nodes, s, x, y, true).value;
      var f := FocusAt(s, i).fired;
      assert forall e :: e in f ==> !e.Press?;
      forall e | e in r && e.Press? ensures e !in f { }
      forall a | 0 <= a < |r| - 1 ensures !r[a].Press? {
        assert r[a] in f;
      }
    }
  }

  // ---------------------------------------------------------------------
  // The steps of `onMouseDown`

  /** A child `c` after its own `onMouseDown` from the first loop, `t` being
      the arena the parent's handler started from: its hold is as it was
      and its claim flag is set. */
  ghost predicate Settled(t: map<Id, Node>, now: map<Id, Node>, c: Id, x: int, y: int)
    requires c in t && c in now
  {
    var lx, ly := Rel(x, t[c].rect.x), Rel(y, t[c].rect.y);
    && now[c].down == t[c].down && now[c].downBtn == t[c].downBtn
    && now[c].testInsideChild == ClaimsPress(t, c, lx, ly)
  }

  /** One round of the first loop of `onMouseDown` on `w`: the press sent to
      child `i` settles that child, and leaves `w`, the children not yet
      visited and the children already settled as they were. */
  lemma PressedChild(t: map<Id, Node>, anc: map<Id, set<Id>>, before: map<Id, Node>, after: map<Id, Node>,
                     w: Id, i: nat, x: int, y: int)
    requires WellFormed(t, anc) && Level(t, w) && i < |t[w].children|
    requires SameGeometry(t, before) && before[w] == t[w].(testInsideChild := false)
    requires forall n :: n in t && !InSubtree(anc, n, w) ==> before[n] == t[n]
    requires forall j :: 0 <= j <= i ==> before[t[w].children[j]] == t[t[w].children[j]]
    requires forall j :: i < j < |t[w].children| ==> Settled(t, before, t[w].children[j], x, y)
    requires var c := t[w].children[i];
      && Confined(anc, before, after, c)
      && after[c].down == before[c].down && after[c].downBtn == before[c].downBtn
      && after[c].testInsideChild == ClaimsPress(before, c, Rel(x, before[c].rect.x), Rel(y, before[c].rect.y))
    ensures SameGeometry(t, after) && after[w] == t[w].(testInsideChild := false)
    ensures forall n :: n in t && !InSubtree(anc, n, w) ==> after[n] == t[n]
    ensures forall j :: 0 <= j < i ==> after[t[w].children[j]] == t[t[w].children[j]]
    ensures forall j :: i <= j < |t[w].children| ==> Settled(t, after, t[w].children[j], x, y)
  {
    ChildrenFacts(t, anc, w);
    var s := t[w].children;
    var c := s[i];
    assert c in s;
    forall n | n in t && !InSubtree(anc, n, w) ensures after[n] == t[n] {
      if InSubtree(anc, n, c) { ChildSubtree(t, anc, w, c, n); }
    }
    forall j | 0 <= j < |s| && j != i ensures after[s[j]] == before[s[j]] {
      assert s[j] in s;
      DistinctApart(s, i, j);
      SiblingOutside(t, anc, w, c, s[j]);
    }
    assert SameGeometry(t, after);
    ChildrenFacts(t, anc, c);
    ClaimsPressGeometry(t, before, c, Rel(x, t[c].rect.x), Rel(y, t[c].rect.y));
  }

  /** The second loop of `onMouseDown` on a visible `w` scans from the
      back of arena `d`, which has the geometry of `t`; stopping at child `i`
      means that `i` is the target in `t` and that `w` claims the press. */
  lemma FoundTarget(t: map<Id, Node>, d: map<Id, Node>, w: Id, i: nat, x: int, y: int)
    requires Level(t, w) && !t[w].hidden && SameGeometry(t, d)
    requires i < |t[w].children| && Hit(d, t[w].children[i], x, y, true)
    requires forall j :: i < j < |t[w].children| ==> !Hit(d, t[w].children[j], x, y, true)
    ensures Some(i) == Topmost(t, t[w].children, x, y, true) && ClaimsPress(t, w, x, y)
  {
    var s := t[w].children;
    assert Present(d, s);
    TopmostSameGeometry(t, d, s, x, y, true);
    TopmostAt(d, s, x, y, true, i);
    TopmostFindsAny(t, s, x, y, true);
  }

  /** When the scan finds no child, there is no target in `t` and `w` does
      not claim the press. */
  lemma FoundNone(t: map<Id, Node>, d: map<Id, Node>, w: Id, x: int, y: int)
    requires Level(t, w) && !t[w].hidden && SameGeometry(t, d)
    requires forall j :: 0 <= j < |t[w].children| ==> !Hit(d, t[w].children[j], x, y, true)
    ensures Topmost(t, t[w].children, x, y, true).None? && !ClaimsPress(t, w, x, y)
  {
    var s := t[w].children;
    assert Present(d, s);
    TopmostSameGeometry(t, d, s, x, y, true);
    TopmostFindsAny(t, s, x, y, true);
    assert Topmost(d, s, x, y, true).None?;
  }

  /** Holding child `i` and reordering the children of `w` stays inside the
      subtree of `w`. */
  lemma FoundConfined(t: map<Id, Node>, anc: map<Id, set<Id>>, d: map<Id, Node>, w: Id, i: nat, b: nat)
    requires WellFormed(t, anc) && Level(t, w)
    requires SameGeometry(t, d) && d[w] == t[w].(testInsideChild := false)
    requires forall n :: n in t && !InSubtree(anc, n, w) ==> d[n] == t[n]
    requires i < |t[w].children|
    ensures var s := t[w].children;
      var after := Claimed(d, w, s[i], FocusAt(s, i).order, b);
      Confined(anc, t, after, w) && Present(after, s)
  {
    var s := t[w].children;
    var c := s[i];
    ChildAncestors(t, anc, w, c);
    var after := d[c := Hold(d[c], b)][w := d[w].(children := FocusAt(s, i).order, testInsideChild := true)];
    forall n | n in t && !InSubtree(anc, n, w) ensures after[n] == t[n] {
      assert n != c;
    }
  }

  /** Holding child `i` changes the hold of that child only, and no
      child's claim. */
  lemma FoundChildren(t: map<Id, Node>, d: map<Id, Node>, w: Id, i: nat, x: int, y: int, b: nat)
    requires Level(t, w) && SameGeometry(t, d)
    requires forall j :: 0 <= j < |t[w].children| ==> Settled(t, d, t[w].children[j], x, y)
    requires i < |t[w].children| && w !in t[w].children
    ensures var s := t[w].children;
      var after := Claimed(d, w, s[i], FocusAt(s, i).order, b);
      && (forall j :: 0 <= j < |s| ==> after[s[j]].down == (t[s[j]].down || Some(i) == Some(j)))
      && (forall j :: 0 <= j < |s| ==>
            after[s[j]].downBtn == if Some(i) == Some(j) && !t[s[j]].down then b else t[s[j]].downBtn)
      && (forall j :: 0 <= j < |s| ==>
            after[s[j]].testInsideChild == ClaimsPress(t, s[j], Rel(x, t[s[j]].rect.x), Rel(y, t[s[j]].rect.y)))
  {
    var s := t[w].children;
    var c := s[i];
    var after := d[c := Hold(d[c], b)][w := d[w].(children := FocusAt(s, i).order, testInsideChild := true)];
    forall j | 0 <= j < |s|
      ensures after[s[j]].down == (t[s[j]].down || Some(i) == Some(j))
      ensures after[s[j]].downBtn == if Some(i) == Some(j) && !t[s[j]].down then b else t[s[j]].downBtn
      ensures after[s[j]].testInsideChild == ClaimsPress(t, s[j], Rel(x, t[s[j]].rect.x), Rel(y, t[s[j]].rect.y))
    {
      assert Settled(t, d, s[j], x, y);
      assert s[j] in s;
      if j != i {
        DistinctApart(s, i, j);
      }
    }
  }

  /** The notifications of the found child `i` complete the log of the
      handler on `w`: below `w`, and for the children exactly
      `PressNotices`. */
  lemma FoundLog(t: map<Id, Node>, anc: map<Id, set<Id>>, d: map<Id, Node>, w: Id, i: nat, x: int, y: int, b: nat,
                 a: seq<Event>)
    requires WellFormed(t, anc) && Level(t, w) && !t[w].hidden && SameGeometry(t, d)
    requires i < |t[w].children| && Some(i) == Topmost(t, t[w].children, x, y, true)
    requires Settled(t, d, t[w].children[i], x, y)
    requires Below(anc, w, a) && Only(a, t[w].children) == []
    ensures var s := t[w].children;
      var c := s[i];
      var e := a + PressFired(d, c, FocusAt(s, i).fired, x, y, b);
      Below(anc, w, e) && Only(e, s) == PressNotices(t, w, x, y, b)
  {
    var s := t[w].children;
    FoundNotices(t, d, w, i, x, y, b);
    var n := PressNotices(t, w, x, y, b);
    ChildEvents(t, anc, w, n);
    BelowAppend(anc, w, a, n);
    OnlyAppend(a, n, s);
  }

  /** The notifications the found child's turn fires: the focus change and,
      unless one of its own children claimed the press, `onPress`. All go to
      children of `w`. */
  lemma FoundNotices(t: map<Id, Node>, d: map<Id, Node>, w: Id, i: nat, x: int, y: int, b: nat)
    requires Level(t, w) && !t[w].hidden && SameGeometry(t, d)
    requires i < |t[w].children| && Some(i) == Topmost(t, t[w].children, x, y, true)
    requires Settled(t, d, t[w].children[i], x, y)
    ensures var s := t[w].children;
      var c := s[i];
      var n := PressNotices(t, w, x, y, b);
      && n == PressFired(d, c, FocusAt(s, i).fired, x, y, b)
      && forall j :: 0 <= j < |n| ==> n[j].target in s
  {
    var s := t[w].children;
    var c := s[i];
    assert c in s && s[|s| - 1] in s;
  }

  /** The second loop of `onMouseDown` on a visible `w` when it finds
      child `i` as the top-most visible child containing the point. */
  lemma PressedFound(t: map<Id, Node>, anc: map<Id, set<Id>>, d: map<Id, Node>, w: Id, i: nat, x: int, y: int, b: nat,
                     a: seq<Event>)
    requires WellFormed(t, anc) && Level(t, w) && !t[w].hidden
    requires SameGeometry(t, d) && d[w] == t[w].(testInsideChild := false)
    requires forall n :: n in t && !InSubtree(anc, n, w) ==> d[n] == t[n]
    requires forall j :: 0 <= j < |t[w].children| ==> Settled(t, d, t[w].children[j], x, y)
    requires i < |t[w].children| && Hit(d, t[w].children[i], x, y, true)
    requires forall j :: i < j < |t[w].children| ==> !Hit(d, t[w].children[j], x, y, true)
    requires Below(anc, w, a) && Only(a, t[w].children) == []
    ensures var s := t[w].children;
      var c := s[i];
      var after := Claimed(d, w, c, FocusAt(s, i).order, b);
      && Confined(anc, t, after, w) && Present(after, s)
      && after[w].down == t[w].down && after[w].downBtn == t[w].downBtn
      && after[w].testInsideChild == ClaimsPress(t, w, x, y)
      && PressedLevel(t, after, w, x, y, b)
    ensures var s := t[w].children;
      var c := s[i];
      var e := a + PressFired(d, c, FocusAt(s, i).fired, x, y, b);
      Below(anc, w, e) && Only(e, s) == PressNotices(t, w, x, y, b)
  {
    ChildrenFacts(t, anc, w);
    FoundTarget(t, d, w, i, x, y);
    FoundConfined(t, anc, d, w, i, b);
    FoundChildren(t, d, w, i, x, y, b);
    FoundLog(t, anc, d, w, i, x, y, b, a);
  }

  /** The second loop of `onMouseDown` on a visible `w` when no visible
      child contains the point. */
  lemma PressedNone(t: map<Id, Node>, anc: map<Id, set<Id>>, d: map<Id, Node>, w: Id, x: int, y: int, b: nat)
    requires WellFormed(t, anc) && Level(t, w) && !t[w].hidden
    requires SameGeometry(t, d) && d[w] == t[w].(testInsideChild := false)
    requires forall n :: n in t && !InSubtree(anc, n, w) ==> d[n] == t[n]
    requires forall j :: 0 <= j < |t[w].children| ==> Settled(t, d, t[w].children[j], x, y)
    requires forall j :: 0 <= j < |t[w].children| ==> !Hit(d, t[w].children[j], x, y, true)
    ensures Topmost(t, t[w].children, x, y, true).None?
    ensures Confined(anc, t, d, w) && Present(d, t[w].children)
    ensures d[w].down == t[w].down && d[w].downBtn == t[w].downBtn
    ensures d[w].testInsideChild == ClaimsPress(t, w, x, y)
    ensures PressedLevel(t, d, w, x, y, b)
  {
    ChildrenFacts(t, anc, w);
    var s := t[w].children;
    assert Present(d, s);
    TopmostSameGeometry(t, d, s, x, y, true);
    TopmostFindsAny(t, s, x, y, true);
    assert Topmost(d, s, x, y, true).None?;
    forall j | 0 <= j < |s|
      ensures d[s[j]].down == t[s[j]].down && d[s[j]].downBtn == t[s[j]].downBtn
      ensures d[s[j]].testInsideChild == ClaimsPress(t, s[j], Rel(x, t[s[j]].rect.x), Rel(y, t[s[j]].rect.y))
    {
      assert Settled(t, d, s[j], x, y);
    }
  }

  /** When no visible child contains the point, the children hear nothing. */
  lemma NoneNotices(t: map<Id, Node>, w: Id, x: int, y: int, b: nat)
    requires Level(t, w) && Topmost(t, t[w].children, x, y, true).None?
    ensures PressNotices(t, w, x, y, b) == []
  {
  }

  /** The second loop of `onMouseDown` leaves hover targets and pointer
      positions alone. */
  lemma SelectionKeepsPointer(d: map<Id, Node>, w: Id, k: Option<nat>, b: nat)
    requires Level(d, w) && (k.Some? ==> k.value < |d[w].children|)
    ensures PointerKept(d, Selection(d, w, k, b))
  {
    if k.Some? {
      assert d[w].children[k.value] in d[w].children;
    }
  }

  /** The second loop of `onMouseDown` on a visible `w`, `t` being the arena
      the handler started from, `d` the arena after the first loop, `k` the
      child the second loop took and `a` what the first loop fired: the whole
      handler stays in the subtree of `w`, leaves the level as `PressedLevel`
      says, records the claim of `w`, and sends the children of `w` exactly
      `PressNotices`. */
  lemma Selected(t: map<Id, Node>, anc: map<Id, set<Id>>, d: map<Id, Node>, w: Id, k: Option<nat>,
                 x: int, y: int, b: nat, a: seq<Event>)
    requires WellFormed(t, anc) && Level(t, w) && !t[w].hidden && Level(d, w)
    requires SameGeometry(t, d) && d[w] == t[w].(testInsideChild := false)
    requires forall n :: n in t && !InSubtree(anc, n, w) ==> d[n] == t[n]
    requires forall j :: 0 <= j < |t[w].children| ==> Settled(t, d, t[w].children[j], x, y)
    requires Below(anc, w, a) && Only(a, t[w].children) == []
    requires k.None? ==> forall j :: 0 <= j < |t[w].children| ==> !Hit(d, t[w].children[j], x, y, true)
    requires k.Some? ==> k.value < |t[w].children| && Hit(d, t[w].children[k.value], x, y, true)
    requires k.Some? ==> forall j :: k.value < j < |t[w].children| ==> !Hit(d, t[w].children[j], x, y, true)
    ensures var after := Selection(d, w, k, b);
      && Confined(anc, t, after, w) && Present(after, t[w].children)
      && after[w].down == t[w].down && after[w].downBtn == t[w].downBtn
      && after[w].testInsideChild == ClaimsPress(t, w, x, y)
      && PressedLevel(t, after, w, x, y, b)
    ensures var e := a + SelectionFired(d, w, k, x, y, b);
      Below(anc, w, e) && Only(e, t[w].children) == PressNotices(t, w, x, y, b)
  {
    match k
    case None =>
      PressedNone(t, anc, d, w, x, y, b);
      NoneNotices(t, w, x, y, b);
      AppendAssoc(a, [], []);
    case Some(i) =>
      PressedFound(t, anc, d, w, i, x, y, b, a);
  }

  // ---------------------------------------------------------------------
  // `mouseDown` on the root

  /** `mouseDown(x, y, b)` presses the root `w` itself when it is visible,
      none of its children claimed the press, and the point lies in its
      own rect; the source compares the rect with the same coordinates it
      passed to the children. */
  ghost predicate PressesRoot(nodes: map<Id, Node>, w: Id, x: int, y: int)
    requires w in nodes
  {
    !nodes[w].hidden && !ClaimsPress(nodes, w, x, y) && Inside(nodes[w].rect, x, y)
  }

  /** `PressesRoot` read off the root's fields after its own handler ran,
      as the source tests them. */
  lemma RootPressCases(t: map<Id, Node>, m: map<Id, Node>, w: Id, x: int, y: int)
    requires w in t && w in m && !t[w].hidden && m[w].rect == t[w].rect
    requires m[w].testInsideChild == ClaimsPress(t, w, x, y)
    ensures PressesRoot(t, w, x, y) <==> !m[w].testInsideChild && Inside(m[w].rect, x, y)
  {
  }

  /** Holding the root after its handler keeps what the handler did to its
      children. */
  lemma HoldKeepsLevel(t: map<Id, Node>, anc: map<Id, set<Id>>, m: map<Id, Node>, w: Id, x: int, y: int, b: nat)
    requires Level(t, w) && w !in t[w].children && w in anc && w in m
    requires Confined(anc, t, m, w) && Present(m, t[w].children) && PressedLevel(t, m, w, x, y, b)
    ensures var after := m[w := Hold(m[w], b)];
      Confined(anc, t, after, w) && Present(after, t[w].children) && PressedLevel(t, after, w, x, y, b)
    ensures PointerKept(m, m[w := Hold(m[w], b)])
  {
    var s := t[w].children;
    var after := m[w := Hold(m[w], b)];
    assert forall j :: 0 <= j < |s| ==> s[j] != w && after[s[j]] == m[s[j]];
  }
}
