/** The `Widget` class of include/Widget.hpp as one arena object: every
    widget's fields live in `nodes`, every virtual hook that fires is
    appended to `log`, and `anc` is the ghost ancestry that proves the
    parent links acyclic.  Each method is the source method of the same
    name, called on the widget `w`. */
module Widget {
  import opened Wrappers
  import opened Seqs
  import opened Tree
  import opened HitTest
  import opened Focus
  import opened Adoption
  import opened Press
  import opened Release
  import opened Walk
  import opened Hover
  import opened Motion
  import opened Broadcasts
  import opened Levels

  class Arena {
    var nodes: map<Id, Node>
    var log: seq<Event>
    ghost var anc: map<Id, set<Id>>

    ghost predicate Valid()
      reads this`nodes, this`anc
    {
      WellFormed(nodes, anc)
    }

    /** An empty arena: no widget has been constructed yet. */
    constructor()
      ensures Valid() && nodes == map[] && log == []
    {
      nodes, log, anc := map[], [], map[];
    }

    /** `Widget()`: a new widget with no parent, no children, an empty rect
        at the origin and every flag cleared, under an identity no other
        widget has. */
    method NewWidget() returns (w: Id)
      requires Valid()
      modifies this
      ensures Valid() && w !in old(nodes)
      ensures nodes == old(nodes)[w := Fresh] && anc == old(anc)[w := {}] && log == old(log)
    {
      var keys := nodes.Keys;
      var rest := keys;
      w := 0;
      while rest != {}
        invariant rest <= keys && unchanged(this)
        invariant forall k :: k in keys && k !in rest ==> k < w
        decreases |rest|
      {
        ghost var some := Pick(rest);
        var k :| k in rest;
        if k >= w {
          w := k + 1;
        }
        rest := rest - {k};
      }
      FreshKeepsTree(nodes, anc, w);
      nodes, anc := nodes[w := Fresh], anc[w := {}];
    }

    /** `addWidget(c)` on `p`: `c` is pushed to the back of the list, so it
        becomes the focused child, names `p` as its parent, and `onAdopt` on
        `p` fires before `onAdopted` on `c`. */
    method AddWidget(p: Id, c: Id)
      requires Valid() && CanAdopt(nodes, anc, p, c)
      modifies this
      ensures Valid()
      ensures nodes == Adoption.Adopt(old(nodes), p, c) && anc == AdoptAncestry(old(anc), p, c)
      ensures log == old(log) + [Event.Adopt(p, c), Adopted(c, p)]
    {
      AdoptKeepsTree(nodes, anc, p, c);
      nodes := nodes[p := nodes[p].(children := nodes[p].children + [c])];
      nodes := nodes[c := nodes[c].(parent := Some(p))];
      anc := AdoptAncestry(anc, p, c);
      log := log + [Event.Adopt(p, c), Adopted(c, p)];
    }

    /** `removeWidget(c)` on `p`: the reverse scan finds the last occurrence
        of `c`, clears its parent, erases it and fires `onDisown` on `p`
        before `onDisowned` on `c`; without a match nothing changes. */
    method RemoveWidget(p: Id, c: Id) returns (removed: bool)
      requires Valid() && p in nodes && c in nodes
      modifies this
      ensures Valid()
      ensures (removed, nodes) == Adoption.Disown(old(nodes), p, c)
      ensures anc == if removed then DisownAncestry(old(anc), c) else old(anc)
      ensures log == old(log) + if removed then [Event.Disown(p, c), Disowned(c, p)] else []
    {
      var s := nodes[p].children;
      var i := |s|;
      while i > 0
        invariant 0 <= i <= |s|
        invariant forall j :: i <= j < |s| ==> s[j] != c
        decreases i
      {
        i := i - 1;
        if s[i] == c {
          assert LastIndexOf(s, c) == Some(i);
          DisownKeepsTree(nodes, anc, p, c);
          ParentNotChild(nodes, anc, p, c);
          UpdatesCommute(nodes, c, nodes[c].(parent := None), p, nodes[p].(children := RemoveAt(s, i)));
          nodes := nodes[c := nodes[c].(parent := None)];
          nodes := nodes[p := nodes[p].(children := RemoveAt(s, i))];
          anc := DisownAncestry(anc, c);
          log := log + [Event.Disown(p, c), Disowned(c, p)];
          return true;
        }
      }
      assert LastIndexOf(s, c) == None;
      AppendAssoc(log, [], []);
      return false;
    }

    /** `hasWidget(c)` on `p`: the reverse scan finds `c` exactly when `p`
        lists it. */
    method HasWidget(p: Id, c: Id) returns (found: bool)
      requires Valid() && p in nodes
      ensures found <==> c in nodes[p].children
    {
      var s := nodes[p].children;
      var i := |s|;
      while i > 0
        invariant 0 <= i <= |s|
        invariant forall j :: i <= j < |s| ==> s[j] != c
        decreases i
      {
        i := i - 1;
        if s[i] == c {
          return true;
        }
      }
      return false;
    }

    /** `hasParent()` on `w`: some widget of the arena lists `w`. */
    method HasParent(w: Id) returns (b: bool)
      requires Valid() && w in nodes
      ensures b <==> exists p :: p in nodes && w in nodes[p].children
    {
      b := nodes[w].parent != None;
      assert ParentLinked(nodes, w);
      if !b {
        forall p | p in nodes ensures w !in nodes[p].children {
          ListedIffParent(nodes, anc, p, w);
        }
      }
    }

    /** `getParent()` on `w`: the parent, which lists `w`, or nothing. */
    method GetParent(w: Id) returns (r: Option<Id>)
      requires Valid() && w in nodes
      ensures r.Some? ==> r.value in nodes && w in nodes[r.value].children
      ensures r.None? ==> forall p :: p in nodes ==> w !in nodes[p].children
    {
      r := nodes[w].parent;
      assert ParentLinked(nodes, w);
      if r.None? {
        forall p | p in nodes ensures w !in nodes[p].children {
          ListedIffParent(nodes, anc, p, w);
        }
      }
    }

    /** `setFocus(idx)` on `p`. */
    method SetFocusAt(p: Id, idx: nat)
      requires Valid() && p in nodes
      modifies this
      ensures Valid() && anc == old(anc)
      ensures Distinct(old(nodes)[p].children)
      ensures nodes == old(nodes)[p := old(nodes)[p].(children := FocusAt(old(nodes)[p].children, idx).order)]
      ensures log == old(log) + FocusAt(old(nodes)[p].children, idx).fired
    {
      var s := nodes[p].children;
      FocusAtKeepsTree(nodes, anc, p, idx);
      if idx >= |s| {
        return;
      }
      var c := s[idx];
      if IsFocusedChild(nodes, c) {
        return;
      }
      var t := s + [c];
      t := t[..idx] + t[idx + 1..];
      assert t == FocusAt(s, idx).order;
      nodes := nodes[p := nodes[p].(children := t)];
      log := log + [FocusLost(t[|t| - 2]), FocusGained(c)];
    }

    /** The body of the second loop of `onMouseDown` once it has found the
        child at `i`: the widget records the claim, the child is held down
        and made the focused child, and it is sent `onPress` unless one of
        its own children claimed the press. */
    method PressTarget(w: Id, i: nat, x: int, y: int, b: nat)
      requires Valid() && w in nodes && i < |nodes[w].children|
      modifies this
      ensures Valid() && anc == old(anc)
      ensures Level(old(nodes), w)
      ensures var s := old(nodes)[w].children;
        nodes == Claimed(old(nodes), w, s[i], FocusAt(s, i).order, b)
      ensures var s := old(nodes)[w].children;
        log == old(log) + PressFired(old(nodes), s[i], FocusAt(s, i).fired, x, y, b)
    {
      ChildrenFacts(nodes, anc, w);
      var m := nodes;
      var s := m[w].children;
      var c := s[i];
      assert c in s;
      ClaimHoldReorder(m, w, c, FocusAt(s, i).order, b);
      FieldUpdateKeepsTree(m, anc, w, m[w].(testInsideChild := true));
      m := m[w := m[w].(testInsideChild := true)];
      FieldUpdateKeepsTree(m, anc, c, Hold(m[c], b));
      m := m[c := Hold(m[c], b)];
      nodes := m;
      ghost var l, f := log, FocusAt(s, i).fired;
      SetFocusAt(w, i);
      var p := Press(c, Rel(x, nodes[c].rect.x), Rel(y, nodes[c].rect.y), b);
      if !nodes[c].testInsideChild {
        AppendAssoc(l, f, [p]);
        log := log + [p];
      } else {
        AppendAssoc(f, [], []);
      }
    }

    /** `onMouseDown(x, y, b)` on `w`, with the point in the frame of the
        rects of `w`'s children; `fired` is what it appends to the log. */
    method OnMouseDown(w: Id, x: int, y: int, b: nat) returns (ghost fired: seq<Event>)
      requires Valid() && w in nodes
      modifies this
      ensures Valid() && anc == old(anc)
      ensures Confined(anc, old(nodes), nodes, w)
      ensures nodes[w].down == old(nodes)[w].down && nodes[w].downBtn == old(nodes)[w].downBtn
      ensures nodes[w].testInsideChild == ClaimsPress(old(nodes), w, x, y)
      ensures old(nodes)[w].hidden ==> nodes == old(nodes) && fired == []
      ensures Level(old(nodes), w) && Present(nodes, old(nodes)[w].children)
      ensures !old(nodes)[w].hidden ==> PressedLevel(old(nodes), nodes, w, x, y, b)
      ensures log == old(log) + fired && Below(anc, w, fired)
      ensures Only(fired, old(nodes)[w].children) == PressNotices(old(nodes), w, x, y, b)
      ensures Handled(Down, old(nodes), anc, nodes, fired, w, w, x, y, b)
      ensures PointerKept(old(nodes), nodes)
      decreases nodes.Keys - anc[w], 1
    {
      ChildrenFacts(nodes, anc, w);
      fired := [];
      AppendAssoc(log, [], []);
      if nodes[w].hidden {
        assert Only(fired, nodes[w].children) == [] == PressNotices(nodes, w, x, y, b);
        HandledHidden(Down, nodes, anc, w, x, y, b);
        return;
      }
      ghost var t := nodes;
      fired := PressChildren(w, x, y, b);
      ghost var d := nodes;
      ghost var k := SelectPressed(w, x, y, b);
      Selected(t, anc, d, w, k, x, y, b, fired);
      SelectionHandled(t, anc, d, w, k, x, y, b, fired);
      SelectionKeepsPointer(d, w, k, b);
      PointerTrans(t, d, nodes);
      AppendAssoc(old(log), fired, SelectionFired(d, w, k, x, y, b));
      fired := fired + SelectionFired(d, w, k, x, y, b);
    }

    /** The first loop of `onMouseDown` on a visible `w`: the claim flag is
        cleared and every child, from the back, is sent `onMouseDown`. */
    method PressChildren(w: Id, x: int, y: int, b: nat) returns (ghost fired: seq<Event>)
      requires Valid() && w in nodes && !nodes[w].hidden
      modifies this
      ensures Valid() && anc == old(anc) && Level(old(nodes), w) && Level(nodes, w)
      ensures SameGeometry(old(nodes), nodes) && nodes[w] == old(nodes)[w].(testInsideChild := false)
      ensures forall n :: n in old(nodes) && !InSubtree(anc, n, w) ==> nodes[n] == old(nodes)[n]
      ensures forall j :: 0 <= j < |old(nodes)[w].children| ==>
        Settled(old(nodes), nodes, old(nodes)[w].children[j], x, y)
      ensures log == old(log) + fired && Below(anc, w, fired) && Only(fired, old(nodes)[w].children) == []
      ensures forall j :: 0 <= j < |old(nodes)[w].children| ==>
        Handled(Down, old(nodes), anc, nodes, fired, w, old(nodes)[w].children[j], x, y, b)
      ensures PointerKept(old(nodes), nodes)
      decreases nodes.Keys - anc[w], 0
    {
      ChildrenFacts(nodes, anc, w);
      ghost var t, l0 := nodes, log;
      fired := [];
      AppendAssoc(log, [], []);
      var s := nodes[w].children;
      FieldUpdateKeepsTree(nodes, anc, w, nodes[w].(testInsideChild := false));
      nodes := nodes[w := nodes[w].(testInsideChild := false)];
      StartAgree(t, anc, w, nodes[w]);
      var i := |s|;
      while i > 0
        invariant 0 <= i <= |s|
        invariant Valid() && anc == old(anc) && SameGeometry(t, nodes)
        invariant nodes[w] == t[w].(testInsideChild := false)
        invariant forall n :: n in t && !InSubtree(anc, n, w) ==> nodes[n] == t[n]
        invariant forall j :: 0 <= j < i ==> nodes[s[j]] == t[s[j]]
        invariant forall j :: i <= j < |s| ==> Settled(t, nodes, s[j], x, y)
        invariant log == l0 + fired && Below(anc, w, fired) && Only(fired, s) == []
        invariant forall j :: i <= j < |s| ==> Handled(Down, t, anc, nodes, fired, w, s[j], x, y, b)
        invariant forall j :: 0 <= j < i ==> AgreeBelow(t, nodes, anc, s[j]) && NotBelow(anc, fired, s[j])
        invariant PointerKept(t, nodes)
        decreases i
      {
        i := i - 1;
        var c := s[i];
        assert c in s;
        ghost var before := nodes;
        ghost var e := OnMouseDown(c, Rel(x, nodes[c].rect.x), Rel(y, nodes[c].rect.y), b);
        PressStep(t, anc, before, nodes, w, i, x, y, b, fired, e);
        PointerTrans(t, before, nodes);
        AppendAssoc(l0, fired, e);
        fired := fired + e;
      }
      ChildrenFacts(nodes, anc, w);
    }

    /** The second loop of `onMouseDown` on a visible `w`: the top-most
        visible child containing the point, if any, is taken (`k`); `w`
        records the claim, and the child is held, focused and pressed. */
    method SelectPressed(w: Id, x: int, y: int, b: nat) returns (ghost k: Option<nat>)
      requires Valid() && Level(nodes, w)
      modifies this
      ensures Valid() && anc == old(anc)
      ensures k.None? ==> forall j :: 0 <= j < |old(nodes)[w].children| ==>
        !Hit(old(nodes), old(nodes)[w].children[j], x, y, true)
      ensures k.Some? ==>
        && k.value < |old(nodes)[w].children|
        && Hit(old(nodes), old(nodes)[w].children[k.value], x, y, true)
        && (forall j :: k.value < j < |old(nodes)[w].children| ==>
              !Hit(old(nodes), old(nodes)[w].children[j], x, y, true))
      ensures nodes == Selection(old(nodes), w, k, b)
      ensures log == old(log) + SelectionFired(old(nodes), w, k, x, y, b)
    {
      ghost var d := nodes;
      var s := nodes[w].children;
      k := None;
      AppendAssoc(log, [], []);
      var i := |s|;
      while i > 0
        invariant 0 <= i <= |s|
        invariant nodes == d && anc == old(anc) && log == old(log)
        invariant forall j :: i <= j < |s| ==> !Hit(d, s[j], x, y, true)
        decreases i
      {
        i := i - 1;
        var c := s[i];
        assert c in s;
        if nodes[c].hidden {
          continue;
        }
        if Inside(nodes[c].rect, x, y) {
          k := Some(i);
          PressTarget(w, i, x, y, b);
          return;
        }
      }
    }

    /** `onMouseUp(x, y, b)` on `w`, with the point in the frame of the rects
        of `w`'s children; `fired` is what it appends to the log. */
    method OnMouseUp(w: Id, x: int, y: int, b: nat) returns (ghost fired: seq<Event>)
      requires Valid() && w in nodes
      modifies this
      ensures Valid() && anc == old(anc)
      ensures Confined(anc, old(nodes), nodes, w)
      ensures nodes[w].down == old(nodes)[w].down && nodes[w].downBtn == old(nodes)[w].downBtn
      ensures nodes[w].testInsideChild == ClaimsRelease(old(nodes), w, x, y)
      ensures old(nodes)[w].hidden ==> nodes == old(nodes) && fired == []
      ensures Level(old(nodes), w) && Present(nodes, old(nodes)[w].children)
      ensures !old(nodes)[w].hidden ==> ReleasedLevel(old(nodes), nodes, w, x, y, b)
      ensures log == old(log) + fired && Below(anc, w, fired)
      ensures Only(fired, old(nodes)[w].children) == ReleaseNoticesOf(old(nodes), w, x, y, b)
      ensures Handled(Up, old(nodes), anc, nodes, fired, w, w, x, y, b)
      ensures PointerKept(old(nodes), nodes)
      decreases nodes.Keys - anc[w], 2
    {
      ChildrenFacts(nodes, anc, w);
      fired := [];
      AppendAssoc(log, [], []);
      if nodes[w].hidden {
        HandledHidden(Up, nodes, anc, w, x, y, b);
        return;
      }
      ghost var t := nodes;
      fired := ReleaseChildren(w, x, y, b);
      ReleasedAll(t, anc, nodes, w, x, y, b, fired);
      HandledTop(Up, t, anc, nodes, fired, w, x, y, b);
      HandledJoin(Up, t, anc, nodes, fired, w, x, y, b);
    }

    /** The loop of `onMouseUp` on a visible `w`: the claim flag is cleared
        and every child, from the front, is sent `onMouseUp` and then given
        the parent's turn. */
    method ReleaseChildren(w: Id, x: int, y: int, b: nat) returns (ghost fired: seq<Event>)
      requires Valid() && w in nodes && !nodes[w].hidden
      modifies this
      ensures Valid() && anc == old(anc) && Level(old(nodes), w)
      ensures Visited(old(nodes), anc, nodes, w, |old(nodes)[w].children|, x, y, b)
      ensures log == old(log) + fired && Below(anc, w, fired)
      ensures var s := old(nodes)[w].children;
        Only(fired, s) == ReleaseNotices(old(nodes), s[..|s|], x, y, b)
      ensures forall j :: 0 <= j < |old(nodes)[w].children| ==>
        Handled(Up, old(nodes), anc, nodes, fired, w, old(nodes)[w].children[j], x, y, b)
      ensures PointerKept(old(nodes), nodes)
      decreases nodes.Keys - anc[w], 1
    {
      ChildrenFacts(nodes, anc, w);
      ghost var t, l0 := nodes, log;
      fired := [];
      AppendAssoc(log, [], []);
      var s := nodes[w].children;
      FieldUpdateKeepsTree(nodes, anc, w, nodes[w].(testInsideChild := false));
      VisitedStart(t, anc, w, x, y, b);
      nodes := nodes[w := nodes[w].(testInsideChild := false)];
      StartAgree(t, anc, w, nodes[w]);
      var i := 0;
      while i < |s|
        invariant 0 <= i <= |s|
        invariant Valid() && anc == old(anc) && Visited(t, anc, nodes, w, i, x, y, b)
        invariant log == l0 + fired && Below(anc, w, fired) && Only(fired, s) == ReleaseNotices(t, s[..i], x, y, b)
        invariant forall j :: 0 <= j < i ==> Handled(Up, t, anc, nodes, fired, w, s[j], x, y, b)
        invariant forall j :: i <= j < |s| ==> AgreeBelow(t, nodes, anc, s[j]) && NotBelow(anc, fired, s[j])
        invariant PointerKept(t, nodes)
        decreases |s| - i
      {
        ghost var before := nodes;
        ghost var d := ReleaseChild(w, i, x, y, b, t, fired);
        PointerTrans(t, before, nodes);
        AppendAssoc(l0, fired, d);
        fired := fired + d;
        i := i + 1;
      }
    }

    /** One round of the loop of `onMouseUp` on `w`, `t` being the arena
        the handler started from and `a` what it fired so far: child `i` is
        sent `onMouseUp` and then given the parent's turn; `d` is what the
        round appends to the log. */
    method ReleaseChild(w: Id, i: nat, x: int, y: int, b: nat, ghost t: map<Id, Node>, ghost a: seq<Event>)
      returns (ghost d: seq<Event>)
      requires Valid() && WellFormed(t, anc) && Level(t, w) && !t[w].hidden && i < |t[w].children|
      requires Visited(t, anc, nodes, w, i, x, y, b)
      requires var s := t[w].children;
        Below(anc, w, a) && Only(a, s) == ReleaseNotices(t, s[..i], x, y, b)
      requires forall j :: 0 <= j < i ==> Handled(Up, t, anc, nodes, a, w, t[w].children[j], x, y, b)
      requires forall j :: i <= j < |t[w].children| ==>
        AgreeBelow(t, nodes, anc, t[w].children[j]) && NotBelow(anc, a, t[w].children[j])
      modifies this
      ensures Valid() && anc == old(anc) && Visited(t, anc, nodes, w, i + 1, x, y, b)
      ensures log == old(log) + d
      ensures var s := t[w].children;
        Below(anc, w, a + d) && Only(a + d, s) == ReleaseNotices(t, s[..i + 1], x, y, b)
      ensures forall j :: 0 <= j <= i ==> Handled(Up, t, anc, nodes, a + d, w, t[w].children[j], x, y, b)
      ensures forall j :: i < j < |t[w].children| ==>
        AgreeBelow(t, nodes, anc, t[w].children[j]) && NotBelow(anc, a + d, t[w].children[j])
      ensures PointerKept(old(nodes), nodes)
      decreases nodes.Keys - anc[w], 0
    {
      ChildrenFacts(t, anc, w);
      var c := nodes[w].children[i];
      assert c in t[w].children;
      ghost var before := nodes;
      ghost var e := OnMouseUp(c, Rel(x, nodes[c].rect.x), Rel(y, nodes[c].rect.y), b);
      ghost var mid := nodes;
      ReleaseTurn(w, c, x, y, b);
      ReleasedTurn(t, anc, before, mid, w, i, x, y, b, a, e);
      ReleasedFrame(mid, w, c, x, y, b);
      ReleasedKeepsPointer(mid, w, c, x, y, b);
      PointerTrans(before, mid, nodes);
      assert before[c].rect == t[c].rect;
      ReleaseRound(t, anc, before, mid, nodes, w, i, x, y, b, a, e, ReleaseFired(mid, c, x, y, b));
      d := e + ReleaseFired(mid, c, x, y, b);
      AppendAssoc(a, e, ReleaseFired(mid, c, x, y, b));
      AppendAssoc(old(log), e, ReleaseFired(mid, c, x, y, b));
    }

    /** The body of the loop of `onMouseUp` after child `c` has handled its
        own `onMouseUp`: `w` records whether `c` contains the point, and a
        visible `c` held by `b` is released, and clicked when the point is
        inside it and none of its children took it. */
    method ReleaseTurn(w: Id, c: Id, x: int, y: int, b: nat)
      requires Valid() && w in nodes && c in nodes[w].children
      modifies this
      ensures Valid() && anc == old(anc)
      ensures nodes == Released(old(nodes), w, c, x, y, b)
      ensures log == old(log) + ReleaseFired(old(nodes), c, x, y, b)
    {
      ChildrenFacts(nodes, anc, w);
      ReleasedKeepsTree(nodes, anc, w, c, x, y, b);
      ReleaseSteps(nodes, w, c, x, y, b);
      var m := nodes;
      if !m[w].testInsideChild {
        m := m[w := m[w].(testInsideChild := Inside(m[c].rect, x, y))];
      }
      if m[c].down && m[c].downBtn == b {
        m := m[c := m[c].(down := false)];
        nodes := m;
        if m[c].hidden {
          return;
        }
        var lx, ly := Rel(x, m[c].rect.x), Rel(y, m[c].rect.y);
        ghost var l := log;
        log := log + [Release(c, lx, ly, b)];
        if !m[c].testInsideChild {
          if Inside(m[c].rect, x, y) {
            AppendAssoc(l, [Release(c, lx, ly, b)], [Click(c, lx, ly, b)]);
            log := log + [Click(c, lx, ly, b)];
          }
        }
      } else {
        nodes := m;
      }
    }

    /** `mouseDown(x, y, b)` on `w`: `onMouseDown` on `w`, then, when
        `PressesRoot`, `w` itself is held and pressed.  `below` is what the
        handler fired in the subtree of `w`. */
    method MouseDown(w: Id, x: int, y: int, b: nat) returns (ghost fired: seq<Event>, ghost below: seq<Event>)
      requires Valid() && w in nodes
      modifies this
      ensures Valid() && anc == old(anc)
      ensures old(nodes)[w].hidden ==> nodes == old(nodes) && fired == []
      ensures Level(old(nodes), w) && Present(nodes, old(nodes)[w].children)
      ensures !old(nodes)[w].hidden ==>
        && Confined(anc, old(nodes), nodes, w)
        && PressedLevel(old(nodes), nodes, w, x, y, b)
        && nodes[w].testInsideChild == ClaimsPress(old(nodes), w, x, y)
      ensures var n, hit := old(nodes)[w], PressesRoot(old(nodes), w, x, y);
        && nodes[w].down == (n.down || hit)
        && nodes[w].downBtn == (if hit && !n.down then b else n.downBtn)
      ensures log == old(log) + fired && Below(anc, w, below)
      ensures Only(below, old(nodes)[w].children) == PressNotices(old(nodes), w, x, y, b)
      ensures var n := old(nodes)[w];
        fired == below + if PressesRoot(old(nodes), w, x, y) then [Press(w, Rel(x, n.rect.x), Rel(y, n.rect.y), b)] else []
      ensures Handled(Down, old(nodes), anc, nodes, fired, w, w, x, y, b)
      ensures PointerKept(old(nodes), nodes)
    {
      ChildrenFacts(nodes, anc, w);
      fired, below := [], [];
      AppendAssoc(log, [], []);
      if nodes[w].hidden {
        HandledHidden(Down, nodes, anc, w, x, y, b);
        return;
      }
      ghost var t := nodes;
      below := OnMouseDown(w, x, y, b);
      ghost var mid := nodes;
      fired := below;
      AppendAssoc(below, [], []);
      RootPressCases(t, nodes, w, x, y);
      if nodes[w].testInsideChild {
        return;
      }
      if Inside(nodes[w].rect, x, y) {
        HoldKeepsLevel(t, anc, nodes, w, x, y, b);
        FieldUpdateKeepsTree(nodes, anc, w, Hold(nodes[w], b));
        var p := Press(w, Rel(x, nodes[w].rect.x), Rel(y, nodes[w].rect.y), b);
        if !nodes[w].down {
          nodes := nodes[w := nodes[w].(down := true, downBtn := b)];
        }
        AppendAssoc(old(log), below, [p]);
        log := log + [p];
        fired := fired + [p];
        RootFrame(Down, t, anc, mid, nodes, below, [p], w, x, y, b);
        PointerTrans(t, mid, nodes);
      }
    }

    /** `mouseUp(x, y, b)` on `w`: `onMouseUp` on `w`, then `w` itself is
        released and clicked as `RootReleaseFired` says.  `below` is what the
        handler fired in the subtree of `w`. */
    method MouseUp(w: Id, x: int, y: int, b: nat) returns (ghost fired: seq<Event>, ghost below: seq<Event>)
      requires Valid() && w in nodes
      modifies this
      ensures Valid() && anc == old(anc)
      ensures old(nodes)[w].hidden ==> nodes == old(nodes) && fired == []
      ensures Level(old(nodes), w) && Present(nodes, old(nodes)[w].children)
      ensures !old(nodes)[w].hidden ==>
        && Confined(anc, old(nodes), nodes, w)
        && ReleasedLevel(old(nodes), nodes, w, x, y, b)
        && nodes[w].testInsideChild == ClaimsRelease(old(nodes), w, x, y)
        && nodes[w].down == (old(nodes)[w].down && old(nodes)[w].downBtn != b)
      ensures nodes[w].downBtn == old(nodes)[w].downBtn
      ensures log == old(log) + fired && Below(anc, w, below)
      ensures Only(below, old(nodes)[w].children) == ReleaseNoticesOf(old(nodes), w, x, y, b)
      ensures fired == below + RootReleaseFired(old(nodes), w, x, y, b)
      ensures Handled(Up, old(nodes), anc, nodes, fired, w, w, x, y, b)
      ensures PointerKept(old(nodes), nodes)
    {
      ChildrenFacts(nodes, anc, w);
      fired, below := [], [];
      AppendAssoc(log, [], []);
      if nodes[w].hidden {
        HandledHidden(Up, nodes, anc, w, x, y, b);
        return;
      }
      ghost var t := nodes;
      below := OnMouseUp(w, x, y, b);
      RootReleaseHandled(t, anc, nodes, below, w, x, y, b);
      fired := below;
      AppendAssoc(below, [], []);
      RootReleaseCases(t, nodes, w, x, y, b);
      if nodes[w].down && nodes[w].downBtn == b {
        DropKeepsLevel(t, anc, nodes, w, x, y, b);
        FieldUpdateKeepsTree(nodes, anc, w, nodes[w].(down := false));
        var lx, ly := Rel(x, nodes[w].rect.x), Rel(y, nodes[w].rect.y);
        var tic, inside := nodes[w].testInsideChild, Inside(nodes[w].rect, x, y);
        ghost var mid := nodes;
        nodes := nodes[w := nodes[w].(down := false)];
        PointerTrans(t, mid, nodes);
        AppendAssoc(old(log), below, [Release(w, lx, ly, b)]);
        log := log + [Release(w, lx, ly, b)];
        fired := fired + [Release(w, lx, ly, b)];
        if tic {
          return;
        }
        if inside {
          AppendAssoc(old(log), fired, [Click(w, lx, ly, b)]);
          AppendAssoc(below, [Release(w, lx, ly, b)], [Click(w, lx, ly, b)]);
          log := log + [Click(w, lx, ly, b)];
          fired := fired + [Click(w, lx, ly, b)];
        }
      }
    }

    /** The hover scan at the head of `onUpdate` on `w`: from the back, the
        first child containing `w`'s mouse position becomes the hovered
        child, with `onMouseLeave` on the old one and `onMouseEnter` on the
        new one unless it was already hovered; when no child contains it,
        the old hovered child, if any, is left. */
    method HoverPass(w: Id)
      requires Valid() && w in nodes
      modifies this
      ensures Valid() && anc == old(anc) && Level(old(nodes), w)
      ensures nodes == old(nodes)[w := old(nodes)[w].(hover := HoverTarget(old(nodes), w))]
      ensures log == old(log) + HoverFired(old(nodes), w)
    {
      ChildrenFacts(nodes, anc, w);
      ghost var t := nodes;
      ghost var goal := t[w := t[w].(hover := HoverTarget(t, w))];
      FieldUpdateKeepsTree(t, anc, w, goal[w]);
      var s, mx, my := nodes[w].children, nodes[w].mouseX, nodes[w].mouseY;
      var hovering := false;
      var i := |s|;
      while i > 0
        invariant 0 <= i <= |s| && nodes == t && log == old(log) && !hovering
        invariant forall j :: i <= j < |s| ==> !Hit(t, s[j], mx, my, false)
        decreases i
      {
        i := i - 1;
        var c := s[i];
        if Inside(nodes[c].rect, mx, my) {
          hovering := true;
          HoverScanHit(t, w, i);
          if nodes[w].hover == Some(c) {
            HoverUnchanged(t, w, Some(c));
            break;
          }
          HoverMoves(w, c);
          break;
        }
      }
      if !hovering {
        HoverScanMiss(t, w);
      }
      if !hovering && nodes[w].hover.Some? {
        log := log + [MouseLeave(nodes[w].hover.value, mx, my)];
        nodes := nodes[w := nodes[w].(hover := None)];
      } else if !hovering {
        HoverUnchanged(t, w, None);
      }
    }

    /** The hover of `w` moves to its child `c`: the old hovered child, if
        any, is sent `onMouseLeave`, then `c` is sent `onMouseEnter`. */
    method HoverMoves(w: Id, c: Id)
      requires Valid() && w in nodes
      modifies this
      ensures Valid() && anc == old(anc)
      ensures nodes == old(nodes)[w := old(nodes)[w].(hover := Some(c))]
      ensures var mx, my := old(nodes)[w].mouseX, old(nodes)[w].mouseY;
        log == old(log) + if old(nodes)[w].hover.Some? then [MouseLeave(old(nodes)[w].hover.value, mx, my), MouseEnter(c, mx, my)]
          else [MouseEnter(c, mx, my)]
    {
      FieldUpdateKeepsTree(nodes, anc, w, nodes[w].(hover := Some(c)));
      var oldHover, mx, my := nodes[w].hover, nodes[w].mouseX, nodes[w].mouseY;
      nodes := nodes[w := nodes[w].(hover := Some(c))];
      if oldHover.Some? {
        log := log + [MouseLeave(oldHover.value, mx, my)];
      }
      log := log + [MouseEnter(c, mx, my)];
    }

    /** `onUpdate(dt)` on `w`: the hover scan of `w`, then every child, from
        the front, is updated in turn.  The arena ends up as `Refresh` has
        it and the log grows by `UpdateLog`. */
    method OnUpdate(w: Id)
      requires Valid() && w in nodes
      modifies this
      ensures Valid() && anc == old(anc)
      ensures nodes == Refresh(old(nodes), anc, w)
      ensures log == old(log) + UpdateLog(old(nodes), anc, w)
      decreases nodes.Keys - anc[w], 1
    {
      ghost var t := nodes;
      ghost var goal := Refresh(t, anc, w);
      RefreshConfined(t, anc, w);
      RefreshAt(t, anc, w, w);
      WalkStart(t, anc, goal, w);
      HoverPass(w);
      ghost var pre := log;
      var s := nodes[w].children;
      var i := 0;
      while i < |s|
        invariant 0 <= i <= |s| && s == t[w].children
        invariant Valid() && anc == old(anc) && Walking(t, anc, nodes, goal, w, i)
        invariant log == pre + UpdateLogs(t, anc, w, i)
        decreases |s| - i
      {
        UpdateChild(w, i, t, pre);
        i := i + 1;
      }
      WalkDone(t, anc, nodes, goal, w);
      assert UpdateLog(t, anc, w) == HoverFired(t, w) + UpdateLogs(t, anc, w, |s|);
      AppendAssoc(old(log), HoverFired(t, w), UpdateLogs(t, anc, w, |s|));
    }

    /** One round of the loop of `onUpdate` on `w`, `t` being the arena the
        handler started from and `pre` the log before the loop: child `i`
        is updated. */
    method UpdateChild(w: Id, i: nat, ghost t: map<Id, Node>, ghost pre: seq<Event>)
      requires Valid() && WellFormed(t, anc) && Level(t, w) && i < |t[w].children|
      requires Confined(anc, t, Refresh(t, anc, w), w)
      requires Walking(t, anc, nodes, Refresh(t, anc, w), w, i) && log == pre + UpdateLogs(t, anc, w, i)
      modifies this
      ensures Valid() && anc == old(anc) && Walking(t, anc, nodes, Refresh(t, anc, w), w, i + 1)
      ensures log == pre + UpdateLogs(t, anc, w, i + 1)
      decreases nodes.Keys - anc[w], 0
    {
      RefreshAt(t, anc, w, w);
      var c := nodes[w].children[i];
      assert c in t[w].children;
      ChildMeasure(nodes, anc, w, c);
      ghost var before := nodes;
      assert AgreeBelow(t, before, anc, c);
      OnUpdate(c);
      RefreshConfined(before, anc, c);
      RefreshChild(t, anc, before, w, c);
      WalkStep(t, anc, before, nodes, Refresh(t, anc, w), w, i);
      UpdateLogAgree(t, before, anc, c);
      assert UpdateLogs(t, anc, w, i + 1) == UpdateLogs(t, anc, w, i) + UpdateLog(t, anc, c);
      AppendAssoc(pre, UpdateLogs(t, anc, w, i), UpdateLog(t, anc, c));
    }

    /** `onMouseMove(x, y, dx, dy)` on `w`, the point in `w`'s own frame:
        `w` records it, then every child, from the front and hidden or not,
        is sent the point relative to its rect.  The arena ends up as
        `Moves` has it. */
    method OnMouseMove(w: Id, x: int, y: int)
      requires Valid() && w in nodes
      modifies this
      ensures Valid() && anc == old(anc) && log == old(log)
      ensures nodes == Moves(old(nodes), anc, w, x, y)
      decreases nodes.Keys - anc[w], 1
    {
      ghost var t := nodes;
      ghost var goal := Moves(t, anc, w, x, y);
      MovesConfined(t, anc, w, x, y);
      assert InSubtree(anc, w, w);
      assert goal[w] == t[w].(mouseX := x, mouseY := y);
      WalkStart(t, anc, goal, w);
      FieldUpdateKeepsTree(nodes, anc, w, nodes[w].(mouseX := x, mouseY := y));
      nodes := nodes[w := nodes[w].(mouseX := x, mouseY := y)];
      var s := nodes[w].children;
      var i := 0;
      while i < |s|
        invariant 0 <= i <= |s| && s == t[w].children
        invariant Valid() && anc == old(anc) && log == old(log) && Walking(t, anc, nodes, goal, w, i)
        decreases |s| - i
      {
        MoveChild(w, i, x, y, t);
        i := i + 1;
      }
      WalkDone(t, anc, nodes, goal, w);
    }

    /** One round of the loop of `onMouseMove` on `w`, `t` being the arena
        the handler started from: child `i` is sent the point relative to
        its rect. */
    method MoveChild(w: Id, i: nat, x: int, y: int, ghost t: map<Id, Node>)
      requires Valid() && WellFormed(t, anc) && Level(t, w) && i < |t[w].children|
      requires Confined(anc, t, Moves(t, anc, w, x, y), w)
      requires Walking(t, anc, nodes, Moves(t, anc, w, x, y), w, i)
      modifies this
      ensures Valid() && anc == old(anc) && log == old(log)
      ensures Walking(t, anc, nodes, Moves(t, anc, w, x, y), w, i + 1)
      decreases nodes.Keys - anc[w], 0
    {
      var c := nodes[w].children[i];
      assert c in t[w].children;
      ChildMeasure(nodes, anc, w, c);
      ghost var before := nodes;
      assert AgreeBelow(t, before, anc, c);
      OnMouseMove(c, Rel(x, nodes[c].rect.x), Rel(y, nodes[c].rect.y));
      MovesConfined(before, anc, c, Rel(x, t[c].rect.x), Rel(y, t[c].rect.y));
      MovesChild(t, anc, before, w, c, x, y);
      WalkStep(t, anc, before, nodes, Moves(t, anc, w, x, y), w, i);
    }

    /** The loop shared by `onMouseWheel`, `onKeyDown`, `onKeyUp`,
        `onKeyText` and `onDraw` on `w`, sent `sig`: the handler is logged
        as reached; a hidden widget sent the draw signal stops there;
        otherwise every child, from the front (for the draw signal, every
        visible child), is sent the signal translated by its rect offset.
        Only the log changes. */
    method Dispatch(w: Id, sig: Signal)
      requires Valid() && w in nodes
      modifies this`log
      ensures log == old(log) + Broadcast(nodes, anc, w, sig)
      decreases nodes.Keys - anc[w], 1
    {
      log := log + [Signalled(w, sig)];
      if Skips(nodes, w, sig) {
        return;
      }
      var s := nodes[w].children;
      ghost var pre := log;
      var i := 0;
      while i < |s|
        invariant 0 <= i <= |s|
        invariant log == pre + BroadcastAll(nodes, anc, w, sig, i)
        decreases |s| - i
      {
        DispatchChild(w, i, sig, pre);
        i := i + 1;
      }
      AppendAssoc(old(log), [Signalled(w, sig)], BroadcastAll(nodes, anc, w, sig, |s|));
    }

    /** One round of that loop, `pre` being the log before the loop: child
        `i` is sent the translated signal unless the draw signal skips it. */
    method DispatchChild(w: Id, i: nat, sig: Signal, ghost pre: seq<Event>)
      requires Valid() && w in nodes && i < |nodes[w].children|
      requires log == pre + BroadcastAll(nodes, anc, w, sig, i)
      modifies this`log
      ensures log == pre + BroadcastAll(nodes, anc, w, sig, i + 1)
      decreases nodes.Keys - anc[w], 0
    {
      var c := nodes[w].children[i];
      assert c in nodes[w].children;
      ChildMeasure(nodes, anc, w, c);
      ghost var tail := if Skips(nodes, c, sig) then [] else Broadcast(nodes, anc, c, Translate(sig, Offset(nodes, c)));
      assert BroadcastAll(nodes, anc, w, sig, i + 1) == BroadcastAll(nodes, anc, w, sig, i) + tail;
      if !Skips(nodes, c, sig) {
        Dispatch(c, Translate(sig, Offset(nodes, c)));
      }
      AppendAssoc(pre, BroadcastAll(nodes, anc, w, sig, i), tail);
    }

    /** `onMouseWheel(x, y, d)` on `w`, the point in `w`'s own frame;
        `mouseWheel` forwards to it. */
    method OnMouseWheel(w: Id, x: int, y: int, d: int)
      requires Valid() && w in nodes
      modifies this`log
      ensures log == old(log) + Broadcast(nodes, anc, w, Wheel(x, y, d))
    {
      Dispatch(w, Wheel(x, y, d));
    }

    /** `onKeyDown(key)` on `w`; `keyDown` forwards to it. */
    method OnKeyDown(w: Id, key: int)
      requires Valid() && w in nodes
      modifies this`log
      ensures log == old(log) + Broadcast(nodes, anc, w, KeyDown(key))
    {
      Dispatch(w, KeyDown(key));
    }

    /** `onKeyUp(key)` on `w`; `keyUp` forwards to it. */
    method OnKeyUp(w: Id, key: int)
      requires Valid() && w in nodes
      modifies this`log
      ensures log == old(log) + Broadcast(nodes, anc, w, KeyUp(key))
    {
      Dispatch(w, KeyUp(key));
    }

    /** `onKeyText(ch)` on `w`; `keyText` forwards to it. */
    method OnKeyText(w: Id, ch: nat)
      requires Valid() && w in nodes
      modifies this`log
      ensures log == old(log) + Broadcast(nodes, anc, w, KeyText(ch))
    {
      Dispatch(w, KeyText(ch));
    }

    /** `onDraw(scrx, scry)` on `w`, the screen position of `w`. */
    method OnDraw(w: Id, scrx: int, scry: int)
      requires Valid() && w in nodes
      modifies this`log
      ensures log == old(log) + Broadcast(nodes, anc, w, Signal.Draw(scrx, scry))
    {
      Dispatch(w, Signal.Draw(scrx, scry));
    }

    /** `draw()` on `w`: `onDraw` with `w`'s own offset as its screen
        position. */
    method Draw(w: Id)
      requires Valid() && w in nodes
      modifies this`log
      ensures log == old(log) + Broadcast(nodes, anc, w, Signal.Draw(nodes[w].rect.x, nodes[w].rect.y))
    {
      OnDraw(w, nodes[w].rect.x, nodes[w].rect.y);
    }

    /** `move(dx, dy)` on `w`: the rect is shifted and `onMove` reports the
        same displacement. */
    method Move(w: Id, dx: int, dy: int)
      requires Valid() && w in nodes
      modifies this
      ensures Valid() && anc == old(anc)
      ensures nodes == old(nodes)[w := old(nodes)[w].(rect := Shift(old(nodes)[w].rect, dx, dy))]
      ensures log == old(log) + [Moved(w, dx, dy)]
    {
      var r := nodes[w].rect;
      FieldUpdateKeepsTree(nodes, anc, w, nodes[w].(rect := Shift(r, dx, dy)));
      nodes := nodes[w := nodes[w].(rect := r.(x := r.x + dx, y := r.y + dy))];
      log := log + [Moved(w, dx, dy)];
    }

    /** `setPosition(x, y)` on `w`: the same as moving by the displacement
        from the old position, which `onMove` reports. */
    method SetPosition(w: Id, x: int, y: int)
      requires Valid() && w in nodes
      modifies this
      ensures Valid() && anc == old(anc)
      ensures var r := old(nodes)[w].rect;
        && nodes == old(nodes)[w := old(nodes)[w].(rect := Shift(r, x - r.x, y - r.y))]
        && log == old(log) + [Moved(w, x - r.x, y - r.y)]
      ensures nodes[w].rect.x == x && nodes[w].rect.y == y
    {
      var r := nodes[w].rect;
      var oldx, oldy := r.x, r.y;
      FieldUpdateKeepsTree(nodes, anc, w, nodes[w].(rect := Shift(r, x - oldx, y - oldy)));
      nodes := nodes[w := nodes[w].(rect := r.(x := x, y := y))];
      log := log + [Moved(w, x - oldx, y - oldy)];
    }

    /** `setSize(width, height)` on `w`: the size is replaced, the position
        kept, and `onResize` fires. */
    method SetSize(w: Id, width: int, height: int)
      requires Valid() && w in nodes
      modifies this
      ensures Valid() && anc == old(anc)
      ensures nodes == old(nodes)[w := old(nodes)[w].(rect := old(nodes)[w].rect.(width := width, height := height))]
      ensures log == old(log) + [Resized(w)]
    {
      var r := nodes[w].rect;
      FieldUpdateKeepsTree(nodes, anc, w, nodes[w].(rect := r.(width := width, height := height)));
      nodes := nodes[w := nodes[w].(rect := r.(width := width, height := height))];
      log := log + [Resized(w)];
    }

    /** `hide(hidden)` on `w`: only the widget's own flag changes, and no hook
        fires. */
    method Hide(w: Id, hidden: bool)
      requires Valid() && w in nodes
      modifies this`nodes
      ensures Valid()
      ensures nodes == old(nodes)[w := old(nodes)[w].(hidden := hidden)]
    {
      FieldUpdateKeepsTree(nodes, anc, w, nodes[w].(hidden := hidden));
      nodes := nodes[w := nodes[w].(hidden := hidden)];
    }

    /** `isHidden()` on `w`: the walk up the parent chain finds a set flag
        exactly when the widget is hidden itself or through an ancestor. */
    method IsHidden(w: Id) returns (b: bool)
      requires Valid() && w in nodes
      ensures b == EffectivelyHidden(nodes, anc, w)
    {
      var cur := w;
      while true
        invariant cur in nodes && cur in anc
        invariant EffectivelyHidden(nodes, anc, w) == EffectivelyHidden(nodes, anc, cur)
        decreases anc[cur]
      {
        if nodes[cur].hidden {
          return true;
        }
        assert AncestorsOf(nodes, anc, cur);
        match nodes[cur].parent
        case None =>
          return false;
        case Some(q) =>
          assert q in anc[cur];
          cur := q;
      }
    }

    /** `isFocused()` on `w`: the walk up the parent chain meets only focused
        children exactly when the widget is focused at every level. */
    method IsFocused(w: Id) returns (b: bool)
      requires Valid() && w in nodes
      ensures b == EffectivelyFocused(nodes, anc, w)
    {
      var cur := w;
      while true
        invariant cur in nodes && cur in anc
        invariant EffectivelyFocused(nodes, anc, w) == EffectivelyFocused(nodes, anc, cur)
        decreases anc[cur]
      {
        if !IsFocusedChild(nodes, cur) {
          return false;
        }
        assert AncestorsOf(nodes, anc, cur);
        match nodes[cur].parent
        case None =>
          return true;
        case Some(q) =>
          assert q in anc[cur];
          cur := q;
      }
    }

    /** `setFocus(child)` on `p`, with the guard of `setFocus(idx)`: the
        reverse scan finds the child and focuses its index; a child that is
        not listed changes nothing.  The list is distinct, so the rounds the
        source runs after the match find nothing more. */
    method SetFocusTo(p: Id, child: Id)
      requires Valid() && p in nodes
      modifies this
      ensures Valid() && anc == old(anc)
      ensures nodes == old(nodes)[p := old(nodes)[p].(children := FocusTo(old(nodes)[p].children, child).order)]
      ensures log == old(log) + FocusTo(old(nodes)[p].children, child).fired
    {
      var s := nodes[p].children;
      assert Distinct(s);
      var i := |s|;
      while i > 0
        invariant 0 <= i <= |s| && nodes == old(nodes) && log == old(log)
        invariant forall j :: i <= j < |s| ==> s[j] != child
        decreases i
      {
        i := i - 1;
        if s[i] == child {
          assert LastIndexOf(s, child) == Some(i);
          SetFocusAt(p, i);
          return;
        }
      }
      assert LastIndexOf(s, child) == None;
      UpdateSame(nodes, p);
      AppendAssoc(log, [], []);
    }

    /** `popFocus()` on `w`: when `w` is the focused child of a parent with
        at least two children, it trades places with the child before it,
        losing focus to it; otherwise nothing happens. */
    method PopFocus(w: Id)
      requires Valid() && w in nodes
      modifies this
      ensures Valid() && anc == old(anc)
      ensures var q := old(nodes)[w].parent;
        if IsFocusedChild(old(nodes), w) && q.Some? && |old(nodes)[q.value].children| >= 2 then
          var s := old(nodes)[q.value].children;
          && nodes == old(nodes)[q.value := old(nodes)[q.value].(children := s[..|s| - 2] + [w, s[|s| - 2]])]
          && log == old(log) + [FocusLost(w), FocusGained(s[|s| - 2])]
        else nodes == old(nodes) && log == old(log)
    {
      if !IsFocusedChild(nodes, w) {
        return;
      }
      if nodes[w].parent == None {
        return;
      }
      var q := nodes[w].parent.value;
      if |nodes[q].children| < 2 {
        return;
      }
      var s := nodes[q].children;
      assert Distinct(s);
      PopFocusSwapsLastTwo(s);
      SetFocusAt(q, |s| - 2);
    }

    /** `isHeldDown(btn)` on `w`: whether the widget is held, and the holding
        button stored through `btn` when it is (`btn` is returned unchanged
        otherwise). */
    method IsHeldDown(w: Id, btn: nat) returns (held: bool, out: nat)
      requires w in nodes
      ensures held == nodes[w].down
      ensures out == if held then nodes[w].downBtn else btn
    {
      if nodes[w].down {
        return true, nodes[w].downBtn;
      }
      return false, btn;
    }

    /** `isMouseHovering()` on `w`: the parent's hover target is `w`; a
        parentless widget is never hovered. */
    method IsMouseHovering(w: Id) returns (b: bool)
      requires Valid() && w in nodes
      ensures b <==> exists p :: p in nodes && w in nodes[p].children && nodes[p].hover == Some(w)
    {
      assert ParentLinked(nodes, w);
      match nodes[w].parent
      case None =>
        forall p | p in nodes ensures w !in nodes[p].children {
          ListedIffParent(nodes, anc, p, w);
        }
        b := false;
      case Some(q) =>
        b := nodes[q].hover == Some(w);
        forall p | p in nodes && w in nodes[p].children ensures p == q {
          ListedIffParent(nodes, anc, p, w);
        }
    }
  }
}
