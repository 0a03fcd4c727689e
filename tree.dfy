/** The value-level model of the widget hierarchy of include/Widget.hpp:
    one record per `Widget` object, kept in an arena indexed by `Id`, and the
    notifications (virtual hooks) the base class fires.  `WellFormed` is the
    tree invariant: `child.m_parent == P` exactly when `P.m_widgets` holds
    `child`, no child is listed twice, and the parent links are acyclic. */
module Tree {
  import opened Wrappers
  import opened Seqs

  /** A widget's identity (its address in the source). */
  type Id = int

  /** The `x, y, width, height` fields, all relative to the parent. */
  datatype Rect = Rect(x: int, y: int, width: int, height: int)

  /** An offset in parent-relative or screen coordinates. */
  datatype Point = Point(x: int, y: int)

  /** The half-open hit test `[x, x + width) × [y, y + height)` that every
      pointer dispatch uses. */
  predicate Inside(r: Rect, px: int, py: int) {
    r.x <= px < r.x + r.width && r.y <= py < r.y + r.height
  }

  /** A coordinate taken relative to an origin, as a handler passes a
      point on to a child: `static_cast<int>(x - widget->x)`. */
  function Rel(v: int, origin: int): (r: int)
    ensures r + origin == v
  {
    v - origin
  }

  /** The rect moved by `(dx, dy)`, its size kept. */
  function Shift(r: Rect, dx: int, dy: int): (s: Rect)
    ensures s.width == r.width && s.height == r.height
    ensures s.x - r.x == dx && s.y - r.y == dy
  {
    Rect(r.x + dx, r.y + dy, r.width, r.height)
  }

  /** The fields of one `Widget`. */
  datatype Node = Node(
    children: seq<Id>,        // m_widgets; the back element is the focused one
    parent: Option<Id>,       // m_parent
    rect: Rect,               // x, y, width, height
    hidden: bool,             // m_hidden
    down: bool,               // m_down
    downBtn: nat,             // m_downBtn
    testInsideChild: bool,    // m_testInsideChild
    hover: Option<Id>,        // m_hover
    mouseX: int,              // m_mouseX
    mouseY: int)              // m_mouseY

  /** The state the constructor leaves.  The source never initialises
      `m_testInsideChild`; the model starts it false. */
  const Fresh: Node := Node([], None, Rect(0, 0, 0, 0), false, false, 0, false, None, 0, 0)

  /** Payload of the hooks that a handler broadcasts down the whole tree. */
  datatype Signal =
    | Wheel(x: int, y: int, delta: int)   // onMouseWheel
    | KeyDown(key: int)                   // onKeyDown
    | KeyUp(key: int)                     // onKeyUp
    | KeyText(ch: nat)                    // onKeyText
    | Draw(scrx: int, scry: int)          // onDraw

  /** The signal as the child at offset `o` receives it: pointer coordinates
      become child-relative, screen coordinates accumulate, keys pass as they are. */
  function Translate(s: Signal, o: Point): Signal {
    match s
    case Wheel(x, y, d) => Wheel(x - o.x, y - o.y, d)
    case Draw(sx, sy) => Draw(sx + o.x, sy + o.y)
    case _ => s
  }

  /** One call of a virtual hook; `target` is the widget it is called on. */
  datatype Event =
    | Adopt(target: Id, child: Id)          // onAdopt
    | Adopted(target: Id, parent: Id)       // onAdopted
    | Disown(target: Id, child: Id)         // onDisown
    | Disowned(target: Id, parent: Id)      // onDisowned
    | FocusLost(target: Id)                 // onFocusLost
    | FocusGained(target: Id)               // onFocusGained
    | Press(target: Id, x: int, y: int, button: nat)     // onPress
    | Release(target: Id, x: int, y: int, button: nat)   // onRelease
    | Click(target: Id, x: int, y: int, button: nat)     // onClick
    | MouseEnter(target: Id, x: int, y: int)  // onMouseEnter
    | MouseLeave(target: Id, x: int, y: int)  // onMouseLeave
    | Moved(target: Id, dx: int, dy: int)     // onMove
    | Resized(target: Id)                     // onResize
    | Signalled(target: Id, signal: Signal)   // a broadcast handler reached target

  /** A child listed by `p` names `p` as its parent. */
  ghost predicate ParentLinked(nodes: map<Id, Node>, n: Id)
    requires n in nodes
  {
    match nodes[n].parent
    case None => true
    case Some(p) => p in nodes && n in nodes[p].children
  }

  /** `anc[n]` is the set of strict ancestors of `n`. */
  ghost predicate AncestorsOf(nodes: map<Id, Node>, anc: map<Id, set<Id>>, n: Id)
    requires n in nodes && n in anc
  {
    match nodes[n].parent
    case None => anc[n] == {}
    case Some(p) => p in anc && anc[n] == {p} + anc[p]
  }

  /** Every parent pointer is matched by the parent's child list. */
  ghost predicate ParentsLinked(nodes: map<Id, Node>) {
    forall n {:trigger ParentLinked(nodes, n)} :: n in nodes ==> ParentLinked(nodes, n)
  }

  /** Every listed child points back at the node listing it. */
  ghost predicate ChildrenLinked(nodes: map<Id, Node>) {
    forall p, c {:trigger c in nodes[p].children} :: p in nodes && c in nodes[p].children ==> c in nodes && nodes[c].parent == Some(p)
  }

  /** No child list names a widget twice. */
  ghost predicate ChildrenDistinct(nodes: map<Id, Node>) {
    forall p :: p in nodes ==> Distinct(nodes[p].children)
  }

  /** `anc` follows the parent links. */
  ghost predicate AncestryFollowsParents(nodes: map<Id, Node>, anc: map<Id, set<Id>>) {
    anc.Keys == nodes.Keys && forall n {:trigger AncestorsOf(nodes, anc, n)} :: n in nodes ==> AncestorsOf(nodes, anc, n)
  }

  /** The links are acyclic: an ancestor is not its own ancestor, and its
      ancestors are ancestors of its descendants (so it has strictly fewer). */
  ghost predicate Acyclic(anc: map<Id, set<Id>>) {
    forall n, a {:trigger a in anc[n]} :: n in anc && a in anc[n] ==> a in anc && a !in anc[a] && anc[a] <= anc[n]
  }

  /** The tree invariant. */
  ghost predicate WellFormed(nodes: map<Id, Node>, anc: map<Id, set<Id>>) {
    && ParentsLinked(nodes)
    && ChildrenLinked(nodes)
    && ChildrenDistinct(nodes)
    && AncestryFollowsParents(nodes, anc)
    && Acyclic(anc)
  }

  /** `n` is `w` or lies below it. */
  ghost predicate InSubtree(anc: map<Id, set<Id>>, n: Id, w: Id) {
    n in anc && (n == w || w in anc[n])
  }

  /** `a` is `n` or one of its ancestors. */
  ghost predicate OnPath(anc: map<Id, set<Id>>, n: Id, a: Id)
    requires n in anc
  {
    a == n || a in anc[n]
  }

  /** The same widgets with the same parents, rects and hidden flags: what
      the pointer handlers never change. */
  ghost predicate SameGeometry(a: map<Id, Node>, b: map<Id, Node>) {
    a.Keys == b.Keys &&
    forall n :: n in a ==> a[n].parent == b[n].parent && a[n].rect == b[n].rect && a[n].hidden == b[n].hidden
  }

  /** A handler on `w` that went from `before` to `after` kept the geometry
      and changed nothing outside the subtree of `w`. */
  ghost predicate Confined(anc: map<Id, set<Id>>, before: map<Id, Node>, after: map<Id, Node>, w: Id) {
    SameGeometry(before, after) &&
    forall n :: n in before && !InSubtree(anc, n, w) ==> after[n] == before[n]
  }

  /** Keeping the geometry is transitive. */
  lemma GeometryTrans(a: map<Id, Node>, b: map<Id, Node>, c: map<Id, Node>)
    requires SameGeometry(a, b) && SameGeometry(b, c)
    ensures SameGeometry(a, c)
  {
  }

  /** The same widgets with the same hover targets and last pointer
      positions: what the press and release handlers never change. */
  ghost predicate PointerKept(a: map<Id, Node>, b: map<Id, Node>) {
    a.Keys == b.Keys &&
    forall n :: n in a ==> b[n].hover == a[n].hover && b[n].mouseX == a[n].mouseX && b[n].mouseY == a[n].mouseY
  }

  /** Keeping the pointer fields is transitive. */
  lemma PointerTrans(a: map<Id, Node>, b: map<Id, Node>, c: map<Id, Node>)
    requires PointerKept(a, b) && PointerKept(b, c)
    ensures PointerKept(a, c)
  {
  }

  // ---------------------------------------------------------------------
  // Tree facts

  /** The strict ancestors of a child are its parent and the parent's. */
  lemma ChildAncestors(nodes: map<Id, Node>, anc: map<Id, set<Id>>, p: Id, c: Id)
    requires WellFormed(nodes, anc) && p in nodes && c in nodes[p].children
    ensures c in nodes && nodes[c].parent == Some(p) && anc[c] == {p} + anc[p]
    ensures p in anc[c] && p !in anc[p] && c !in anc[p] && c != p
  {
    assert AncestorsOf(nodes, anc, c);
    assert anc[p] < anc[c];
  }

  /** The widgets that are not ancestors of a child are fewer than those
      that are not ancestors of its parent: a measure for recursion down
      the tree. */
  lemma ChildMeasure(nodes: map<Id, Node>, anc: map<Id, set<Id>>, p: Id, c: Id)
    requires WellFormed(nodes, anc) && p in nodes && c in nodes[p].children
    ensures c in nodes && c in anc && p in anc
    ensures nodes.Keys - anc[c] < nodes.Keys - anc[p]
  {
    ChildAncestors(nodes, anc, p, c);
    assert p in nodes.Keys - anc[p];
  }

  /** A parent is not listed among its child's children. */
  lemma ParentNotChild(nodes: map<Id, Node>, anc: map<Id, set<Id>>, p: Id, c: Id)
    requires WellFormed(nodes, anc) && p in nodes && c in nodes[p].children
    ensures p !in nodes[c].children
  {
    ChildAncestors(nodes, anc, p, c);
    if p in nodes[c].children {
      ChildAncestors(nodes, anc, c, p);
    }
  }

  /** A node is never its own ancestor. */
  lemma NotOwnAncestor(anc: map<Id, set<Id>>, n: Id)
    requires Acyclic(anc) && n in anc
    ensures n !in anc[n]
  {
  }

  /** The subtree of a child lies inside the subtree of its parent, and does
      not contain the parent. */
  lemma ChildSubtree(nodes: map<Id, Node>, anc: map<Id, set<Id>>, p: Id, c: Id, n: Id)
    requires WellFormed(nodes, anc) && p in nodes && c in nodes[p].children && n in nodes
    requires InSubtree(anc, n, c)
    ensures InSubtree(anc, n, p) && n != p
  {
    ChildAncestors(nodes, anc, p, c);
    assert n != c ==> anc[c] < anc[n];
    assert n != c ==> n != p;
  }

  /** Two different children of one parent have disjoint subtrees. */
  lemma SiblingsApart(nodes: map<Id, Node>, anc: map<Id, set<Id>>, p: Id, c: Id, d: Id, n: Id)
    requires WellFormed(nodes, anc) && p in nodes
    requires c in nodes[p].children && d in nodes[p].children && c != d && n in nodes
    requires InSubtree(anc, n, c)
    ensures !InSubtree(anc, n, d)
    decreases anc[n]
  {
    ChildAncestors(nodes, anc, p, c);
    ChildAncestors(nodes, anc, p, d);
    if n == c {
    } else if n == d {
    } else {
      assert AncestorsOf(nodes, anc, n);
      var q := nodes[n].parent.value;
      assert anc[n] == {q} + anc[q];
      assert q in nodes;
      assert c == q || c in anc[q];
      if InSubtree(anc, n, d) {
        assert d == q || d in anc[q];
        SiblingsApart(nodes, anc, p, c, d, q);
      }
    }
  }

  /** A strict descendant of `w` lies in the subtree of one of its children. */
  lemma UnderSomeChild(nodes: map<Id, Node>, anc: map<Id, set<Id>>, w: Id, n: Id) returns (c: Id)
    requires WellFormed(nodes, anc) && w in nodes && n in nodes && w in anc[n]
    ensures c in nodes[w].children && c in nodes && InSubtree(anc, n, c)
    decreases anc[n]
  {
    assert AncestorsOf(nodes, anc, n);
    var q := nodes[n].parent.value;
    assert ParentLinked(nodes, n);
    if q == w {
      c := n;
    } else {
      assert w in anc[q];
      c := UnderSomeChild(nodes, anc, w, q);
      assert anc[c] < anc[q] || c == q;
    }
  }

  /** Two arenas with the same nodes, children and parents. */
  ghost predicate SameLinks(a: map<Id, Node>, b: map<Id, Node>) {
    a.Keys == b.Keys &&
    forall n :: n in a ==> a[n].children == b[n].children && a[n].parent == b[n].parent
  }

  /** The tree invariant only looks at the children and parent links. */
  lemma SameLinksKeepTree(nodes: map<Id, Node>, anc: map<Id, set<Id>>, m: map<Id, Node>)
    requires WellFormed(nodes, anc) && SameLinks(nodes, m)
    ensures WellFormed(m, anc)
  {
    SameLinksParents(nodes, m);
    SameLinksChildren(nodes, m);
    SameLinksAncestry(nodes, anc, m);
  }

  lemma SameLinksParents(nodes: map<Id, Node>, m: map<Id, Node>)
    requires ParentsLinked(nodes) && SameLinks(nodes, m)
    ensures ParentsLinked(m)
  {
    forall n | n in m ensures ParentLinked(m, n) {
      assert ParentLinked(nodes, n);
      assert m[n].parent == nodes[n].parent;
      if nodes[n].parent.Some? {
        var p := nodes[n].parent.value;
        assert m[p].children == nodes[p].children;
      }
    }
  }

  lemma SameLinksChildren(nodes: map<Id, Node>, m: map<Id, Node>)
    requires ChildrenLinked(nodes) && ChildrenDistinct(nodes) && SameLinks(nodes, m)
    ensures ChildrenLinked(m) && ChildrenDistinct(m)
  {
    forall p, c | p in m && c in m[p].children ensures c in m && m[c].parent == Some(p) {
      assert m[p].children == nodes[p].children;
      assert c in nodes[p].children;
      assert c in nodes && nodes[c].parent == Some(p);
      assert m[c].parent == nodes[c].parent;
    }
    forall p | p in m ensures Distinct(m[p].children) {
      assert m[p].children == nodes[p].children;
      assert Distinct(nodes[p].children);
    }
  }

  lemma SameLinksAncestry(nodes: map<Id, Node>, anc: map<Id, set<Id>>, m: map<Id, Node>)
    requires AncestryFollowsParents(nodes, anc) && SameLinks(nodes, m)
    ensures AncestryFollowsParents(m, anc)
  {
    forall n | n in m ensures AncestorsOf(m, anc, n) {
      assert AncestorsOf(nodes, anc, n);
      assert m[n].parent == nodes[n].parent;
    }
  }

  /** Changing anything but the children or the parent of a node keeps the
      tree invariant. */
  lemma FieldUpdateKeepsTree(nodes: map<Id, Node>, anc: map<Id, set<Id>>, w: Id, v: Node)
    requires WellFormed(nodes, anc) && w in nodes
    requires v.children == nodes[w].children && v.parent == nodes[w].parent
    ensures WellFormed(nodes[w := v], anc)
  {
    SameLinksKeepTree(nodes, anc, nodes[w := v]);
  }

  /** Reordering the children of a node keeps the tree invariant. */
  lemma ReorderKeepsTree(nodes: map<Id, Node>, anc: map<Id, set<Id>>, w: Id, s: seq<Id>)
    requires WellFormed(nodes, anc) && w in nodes
    requires Distinct(s) && forall x :: x in s <==> x in nodes[w].children
    ensures WellFormed(nodes[w := nodes[w].(children := s)], anc)
  {
    var m := nodes[w := nodes[w].(children := s)];
    assert ParentsLinked(m) by {
      forall n | n in m ensures ParentLinked(m, n) {
        assert ParentLinked(nodes, n);
      }
    }
    assert ChildrenLinked(m) by {
      forall p, c | p in m && c in m[p].children ensures c in m && m[c].parent == Some(p) {
        assert c in nodes[p].children;
        assert c in nodes && nodes[c].parent == Some(p);
        assert m[c].parent == nodes[c].parent;
      }
    }
    assert ChildrenDistinct(m) by {
      forall p | p in m ensures Distinct(m[p].children) {
        if p != w {
          assert m[p].children == nodes[p].children;
          assert Distinct(nodes[p].children);
        }
      }
    }
    assert AncestryFollowsParents(m, anc) by {
      forall n | n in m ensures AncestorsOf(m, anc, n) {
        assert AncestorsOf(nodes, anc, n);
      }
    }
  }

  /** A freshly constructed widget joins the arena as a root of its own. */
  lemma FreshKeepsTree(nodes: map<Id, Node>, anc: map<Id, set<Id>>, w: Id)
    requires WellFormed(nodes, anc) && w !in nodes
    ensures WellFormed(nodes[w := Fresh], anc[w := {}])
  {
    var m, a := nodes[w := Fresh], anc[w := {}];
    assert ParentsLinked(m) by {
      forall n | n in m ensures ParentLinked(m, n) {
        if n != w { assert ParentLinked(nodes, n); }
      }
    }
    assert ChildrenLinked(m) by {
      forall p, c | p in m && c in m[p].children ensures c in m && m[c].parent == Some(p) {
        assert p != w && c in nodes[p].children;
      }
    }
    assert AncestryFollowsParents(m, a) by {
      forall n | n in m ensures AncestorsOf(m, a, n) {
        if n != w {
          assert AncestorsOf(nodes, anc, n);
          if nodes[n].parent.Some? { assert nodes[n].parent.value in anc; }
        }
      }
    }
    assert Acyclic(a) by {
      forall n, x | n in a && x in a[n] ensures x in a && x !in a[x] && a[x] <= a[n] {
        assert n != w && x in anc[n] && x in anc;
      }
    }
  }

  /** `hasWidget` and `hasParent` agree: `p` lists `c` exactly when `c`
      names `p` as its parent. */
  lemma ListedIffParent(nodes: map<Id, Node>, anc: map<Id, set<Id>>, p: Id, c: Id)
    requires WellFormed(nodes, anc) && p in nodes && c in nodes
    ensures c in nodes[p].children <==> nodes[c].parent == Some(p)
  {
    assert ParentLinked(nodes, c);
  }

  // ---------------------------------------------------------------------
  // Focus and visibility

  /** `getFocused`: the back child, or NULL when there is none. */
  function GetFocused(nodes: map<Id, Node>, p: Id): (r: Option<Id>)
    requires p in nodes
    ensures r.None? <==> |nodes[p].children| == 0
    ensures r.Some? ==> r.value in nodes[p].children
    ensures r.Some? ==> r.value == nodes[p].children[|nodes[p].children| - 1]
  {
    var s := nodes[p].children;
    if |s| == 0 then None else Some(s[|s| - 1])
  }

  /** `isFocusedChild`: parentless, or the focused child of the parent. */
  predicate IsFocusedChild(nodes: map<Id, Node>, n: Id)
    requires n in nodes
  {
    match nodes[n].parent
    case None => true
    case Some(p) => p in nodes && GetFocused(nodes, p) == Some(n)
  }

  /** `isFocused`: the focused child at every level up to the root. */
  ghost predicate EffectivelyFocused(nodes: map<Id, Node>, anc: map<Id, set<Id>>, n: Id)
    requires WellFormed(nodes, anc) && n in nodes
    decreases anc[n]
  {
    IsFocusedChild(nodes, n) &&
    match nodes[n].parent
    case None => true
    case Some(p) =>
      assert AncestorsOf(nodes, anc, n);
      EffectivelyFocused(nodes, anc, p)
  }

  /** `isHidden`: the node's own flag or that of some ancestor. */
  ghost predicate EffectivelyHidden(nodes: map<Id, Node>, anc: map<Id, set<Id>>, n: Id)
    requires WellFormed(nodes, anc) && n in nodes
    decreases anc[n]
  {
    nodes[n].hidden ||
    match nodes[n].parent
    case None => false
    case Some(p) =>
      assert AncestorsOf(nodes, anc, n);
      EffectivelyHidden(nodes, anc, p)
  }

  /** A node is focused exactly when every node on its path to the root is
      the back child of its parent. */
  lemma {:induction false} FocusedIffPathFocused(nodes: map<Id, Node>, anc: map<Id, set<Id>>, n: Id)
    requires WellFormed(nodes, anc) && n in nodes
    ensures EffectivelyFocused(nodes, anc, n) <==>
            forall a :: a in nodes && OnPath(anc, n, a) ==> IsFocusedChild(nodes, a)
    decreases anc[n]
  {
    assert AncestorsOf(nodes, anc, n);
    match nodes[n].parent
    case None =>
    case Some(p) =>
      FocusedIffPathFocused(nodes, anc, p);
      forall a | a in nodes && OnPath(anc, p, a) ensures OnPath(anc, n, a) { }
  }

  /** A node is effectively hidden exactly when some node on its path to the
      root has its own flag set. */
  lemma {:induction false} HiddenIffPathHidden(nodes: map<Id, Node>, anc: map<Id, set<Id>>, n: Id)
    requires WellFormed(nodes, anc) && n in nodes
    ensures EffectivelyHidden(nodes, anc, n) <==>
            exists a :: a in nodes && OnPath(anc, n, a) && nodes[a].hidden
    decreases anc[n]
  {
    assert AncestorsOf(nodes, anc, n);
    match nodes[n].parent
    case None =>
      if nodes[n].hidden { assert OnPath(anc, n, n); }
    case Some(p) =>
      HiddenIffPathHidden(nodes, anc, p);
      if nodes[n].hidden {
        assert OnPath(anc, n, n);
      } else if EffectivelyHidden(nodes, anc, p) {
        var a :| a in nodes && OnPath(anc, p, a) && nodes[a].hidden;
        assert OnPath(anc, n, a);
      } else {
        forall a | a in nodes && OnPath(anc, n, a) ensures !nodes[a].hidden {
          if a != n { assert OnPath(anc, p, a); }
        }
      }
  }

  /** Hiding a node hides its whole subtree without touching the
      descendants' own flags. */
  lemma HidingHidesSubtree(nodes: map<Id, Node>, anc: map<Id, set<Id>>, w: Id, n: Id)
    requires WellFormed(nodes, anc) && w in nodes && n in nodes && InSubtree(anc, n, w)
    ensures WellFormed(nodes[w := nodes[w].(hidden := true)], anc)
    ensures EffectivelyHidden(nodes[w := nodes[w].(hidden := true)], anc, n)
  {
    var m := nodes[w := nodes[w].(hidden := true)];
    FieldUpdateKeepsTree(nodes, anc, w, m[w]);
    HiddenIffPathHidden(m, anc, n);
    assert OnPath(anc, n, w) && m[w].hidden;
  }
}
