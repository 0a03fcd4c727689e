/** The hit tests shared by the pointer handlers: the reverse scan for the
    top-most child containing a point (include/Widget.hpp:562-587, 640-670),
    its order-free counterpart, and filters on the notification log. */
module HitTest {
  import opened Wrappers
  import opened Seqs
  import opened Tree

  /** Whether child `c` takes the point: its half-open rect contains it and,
      for the press scan, it is not hidden. */
  predicate Hit(nodes: map<Id, Node>, c: Id, x: int, y: int, skipHidden: bool)
    requires c in nodes
  {
    (!skipHidden || !nodes[c].hidden) && Inside(nodes[c].rect, x, y)
  }

  /** All listed children are widgets of the arena. */
  predicate Present(nodes: map<Id, Node>, s: seq<Id>) {
    forall i :: 0 <= i < |s| ==> s[i] in nodes
  }

  /** The children of a widget are widgets of the arena, and name it as
      their parent. */
  lemma ChildrenPresent(nodes: map<Id, Node>, w: Id)
    requires ChildrenLinked(nodes) && w in nodes
    ensures Present(nodes, nodes[w].children)
    ensures forall c :: c in nodes[w].children ==> c in nodes && nodes[c].parent == Some(w)
  {
    var s := nodes[w].children;
    forall i | 0 <= i < |s| ensures s[i] in nodes {
      var c := s[i];
      assert c in nodes[w].children;
    }
  }

  /** The children of `w` are widgets of the arena, each listed once. */
  predicate Level(nodes: map<Id, Node>, w: Id) {
    w in nodes && Present(nodes, nodes[w].children) && Distinct(nodes[w].children)
  }

  /** In a well-formed arena every widget's children are listed once, exist,
      and have the widget and its ancestors as their own ancestors. */
  lemma ChildrenFacts(nodes: map<Id, Node>, anc: map<Id, set<Id>>, w: Id)
    requires WellFormed(nodes, anc) && w in nodes
    ensures Level(nodes, w) && w in anc && w !in anc[w]
    ensures forall c :: c in nodes[w].children ==>
      c in nodes && nodes[c].parent == Some(w) && anc[c] == {w} + anc[w] && c !in anc[w] && c != w
  {
    NotOwnAncestor(anc, w);
    assert ChildrenDistinct(nodes);
    ChildrenPresent(nodes, w);
    forall c | c in nodes[w].children
      ensures c in nodes && nodes[c].parent == Some(w) && anc[c] == {w} + anc[w] && c !in anc[w] && c != w
    {
      ChildAncestors(nodes, anc, w, c);
    }
  }

  /** Two different children of `w` lie outside each other's subtrees, and
      `w` lies outside both. */
  lemma SiblingOutside(nodes: map<Id, Node>, anc: map<Id, set<Id>>, w: Id, c: Id, d: Id)
    requires WellFormed(nodes, anc) && w in nodes && c in nodes[w].children && d in nodes[w].children && c != d
    ensures c in anc && d in anc && w in anc
    ensures !InSubtree(anc, d, c) && !InSubtree(anc, w, c)
  {
    ChildAncestors(nodes, anc, w, c);
    ChildAncestors(nodes, anc, w, d);
  }

  /** The reverse scan `for (i = size; i--;)` that stops at the first child
      taking the point: the index of the last such child, or None. */
  function Topmost(nodes: map<Id, Node>, s: seq<Id>, x: int, y: int, skipHidden: bool): (r: Option<nat>)
    requires Present(nodes, s)
    ensures r.None? ==> forall k :: 0 <= k < |s| ==> !Hit(nodes, s[k], x, y, skipHidden)
    ensures r.Some? ==> r.value < |s| && Hit(nodes, s[r.value], x, y, skipHidden)
    ensures r.Some? ==> forall k :: r.value < k < |s| ==> !Hit(nodes, s[k], x, y, skipHidden)
    decreases |s|
  {
    if |s| == 0 then None
    else if Hit(nodes, s[|s| - 1], x, y, skipHidden) then Some(|s| - 1)
    else
      assert Present(nodes, s[..|s| - 1]);
      assert forall k :: 0 <= k < |s| - 1 ==> s[..|s| - 1][k] == s[k];
      Topmost(nodes, s[..|s| - 1], x, y, skipHidden)
  }

  /** Some listed child takes the point, regardless of the order. */
  ghost predicate AnyHit(nodes: map<Id, Node>, s: seq<Id>, x: int, y: int, skipHidden: bool) {
    exists c :: c in s && c in nodes && Hit(nodes, c, x, y, skipHidden)
  }

  /** The scan finds a child exactly when some child takes the point. */
  lemma TopmostFindsAny(nodes: map<Id, Node>, s: seq<Id>, x: int, y: int, skipHidden: bool)
    requires Present(nodes, s)
    ensures Topmost(nodes, s, x, y, skipHidden).Some? <==> AnyHit(nodes, s, x, y, skipHidden)
  {
    var r := Topmost(nodes, s, x, y, skipHidden);
    if r.Some? {
      assert s[r.value] in s;
    } else {
      forall c | c in s && c in nodes ensures !Hit(nodes, c, x, y, skipHidden) {
        var k :| 0 <= k < |s| && s[k] == c;
      }
    }
  }

  /** The scan stops at `i` when child `i` takes the point and no later one
      does. */
  lemma TopmostAt(nodes: map<Id, Node>, s: seq<Id>, x: int, y: int, skipHidden: bool, i: nat)
    requires Present(nodes, s) && i < |s| && Hit(nodes, s[i], x, y, skipHidden)
    requires forall k :: i < k < |s| ==> !Hit(nodes, s[k], x, y, skipHidden)
    ensures Topmost(nodes, s, x, y, skipHidden) == Some(i)
  {
  }

  /** Two arenas that agree on the rects and hidden flags of the listed
      children give the same scan. */
  lemma TopmostSameGeometry(a: map<Id, Node>, b: map<Id, Node>, s: seq<Id>, x: int, y: int, skipHidden: bool)
    requires Present(a, s) && Present(b, s)
    requires forall i :: 0 <= i < |s| ==> a[s[i]].rect == b[s[i]].rect && a[s[i]].hidden == b[s[i]].hidden
    ensures Topmost(a, s, x, y, skipHidden) == Topmost(b, s, x, y, skipHidden)
    ensures AnyHit(a, s, x, y, skipHidden) == AnyHit(b, s, x, y, skipHidden)
    decreases |s|
  {
    assert forall i :: 0 <= i < |s| ==> Hit(a, s[i], x, y, skipHidden) == Hit(b, s[i], x, y, skipHidden);
    TopmostFindsAny(a, s, x, y, skipHidden);
    TopmostFindsAny(b, s, x, y, skipHidden);
    if |s| > 0 && !Hit(a, s[|s| - 1], x, y, skipHidden) {
      var t := s[..|s| - 1];
      assert forall k :: 0 <= k < |t| ==> t[k] == s[k];
      TopmostSameGeometry(a, b, t, x, y, skipHidden);
    }
  }

  /** The same children, in any order, with the same rects and flags. */
  lemma AnyHitSameMembers(a: map<Id, Node>, s: seq<Id>, b: map<Id, Node>, t: seq<Id>, x: int, y: int, skipHidden: bool)
    requires forall c :: c in s <==> c in t
    requires forall c :: c in s && c in a ==> c in b && a[c].rect == b[c].rect && a[c].hidden == b[c].hidden
    requires forall c :: c in t && c in b ==> c in a
    ensures AnyHit(a, s, x, y, skipHidden) == AnyHit(b, t, x, y, skipHidden)
  {
    if AnyHit(a, s, x, y, skipHidden) {
      var c :| c in s && c in a && Hit(a, c, x, y, skipHidden);
      assert Hit(b, c, x, y, skipHidden);
    }
    if AnyHit(b, t, x, y, skipHidden) {
      var c :| c in t && c in b && Hit(b, c, x, y, skipHidden);
      assert Hit(a, c, x, y, skipHidden);
    }
  }

  // ---------------------------------------------------------------------
  // The notification log

  /** The notifications addressed to the listed widgets, in order. */
  function Only(evs: seq<Event>, s: seq<Id>): (r: seq<Event>)
    ensures |r| <= |evs|
    ensures forall e :: e in r <==> e in evs && e.target in s
    decreases |evs|
  {
    if |evs| == 0 then []
    else
      var e := evs[|evs| - 1];
      assert evs == evs[..|evs| - 1] + [e];
      Only(evs[..|evs| - 1], s) + (if e.target in s then [e] else [])
  }

  lemma {:induction false} OnlyAppend(a: seq<Event>, b: seq<Event>, s: seq<Id>)
    ensures Only(a + b, s) == Only(a, s) + Only(b, s)
    decreases |b|
  {
    if |b| == 0 {
      assert a + b == a;
    } else {
      var b' := b[..|b| - 1];
      assert (a + b)[..|a + b| - 1] == a + b';
      OnlyAppend(a, b', s);
    }
  }

  lemma {:induction false} OnlyNone(evs: seq<Event>, s: seq<Id>)
    requires forall i :: 0 <= i < |evs| ==> evs[i].target !in s
    ensures Only(evs, s) == []
    decreases |evs|
  {
    if |evs| > 0 {
      OnlyNone(evs[..|evs| - 1], s);
    }
  }

  lemma {:induction false} OnlyAll(evs: seq<Event>, s: seq<Id>)
    requires forall i :: 0 <= i < |evs| ==> evs[i].target in s
    ensures Only(evs, s) == evs
    decreases |evs|
  {
    if |evs| > 0 {
      var t := evs[..|evs| - 1];
      assert evs == t + [evs[|evs| - 1]];
      OnlyAll(t, s);
    }
  }

  /** Every notification goes to a strict descendant of `w`. */
  ghost predicate Below(anc: map<Id, set<Id>>, w: Id, evs: seq<Event>) {
    forall i :: 0 <= i < |evs| ==> evs[i].target in anc && w in anc[evs[i].target]
  }

  lemma BelowAppend(anc: map<Id, set<Id>>, w: Id, a: seq<Event>, b: seq<Event>)
    requires Below(anc, w, a) && Below(anc, w, b)
    ensures Below(anc, w, a + b)
  {
    assert forall i :: 0 <= i < |a| ==> (a + b)[i] == a[i];
    assert forall i :: |a| <= i < |a + b| ==> (a + b)[i] == b[i - |a|];
  }

  /** Notifications below a child are below its parent and addressed to
      none of the parent's children. */
  lemma BelowChild(nodes: map<Id, Node>, anc: map<Id, set<Id>>, w: Id, c: Id, evs: seq<Event>)
    requires WellFormed(nodes, anc) && w in nodes && c in nodes[w].children && Below(anc, c, evs)
    ensures Below(anc, w, evs)
    ensures forall i :: 0 <= i < |evs| ==> evs[i].target !in nodes[w].children
    ensures Only(evs, nodes[w].children) == []
  {
    ChildAncestors(nodes, anc, w, c);
    NotOwnAncestor(anc, w);
    assert Acyclic(anc) && ChildrenLinked(nodes) && AncestryFollowsParents(nodes, anc);
    forall i | 0 <= i < |evs| ensures w in anc[evs[i].target] && evs[i].target !in nodes[w].children {
      var t := evs[i].target;
      assert anc[c] <= anc[t];
      if t in nodes[w].children {
        ChildAncestors(nodes, anc, w, t);
      }
    }
    OnlyNone(evs, nodes[w].children);
  }

  /** Notifications addressed to children of `w` are below `w` and all kept
      by the filter on those children. */
  lemma ChildEvents(nodes: map<Id, Node>, anc: map<Id, set<Id>>, w: Id, evs: seq<Event>)
    requires WellFormed(nodes, anc) && w in nodes
    requires forall i :: 0 <= i < |evs| ==> evs[i].target in nodes[w].children
    ensures Below(anc, w, evs) && Only(evs, nodes[w].children) == evs
  {
    forall i | 0 <= i < |evs| ensures evs[i].target in anc && w in anc[evs[i].target] {
      ChildAncestors(nodes, anc, w, evs[i].target);
    }
    OnlyAll(evs, nodes[w].children);
  }

  /** A child's handler fires its notifications below the child: appended to
      what the parent's handler fired so far, the whole stays below the
      parent and still holds nothing for the parent's own children. */
  lemma ExtendBelow(nodes: map<Id, Node>, anc: map<Id, set<Id>>, w: Id, c: Id, a: seq<Event>, e: seq<Event>)
    requires WellFormed(nodes, anc) && w in nodes && c in nodes[w].children
    requires Below(anc, w, a) && Only(a, nodes[w].children) == [] && Below(anc, c, e)
    ensures Below(anc, w, a + e) && Only(a + e, nodes[w].children) == []
  {
    BelowChild(nodes, anc, w, c, e);
    BelowAppend(anc, w, a, e);
    OnlyAppend(a, e, nodes[w].children);
  }
}
