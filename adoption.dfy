/** Tree membership: the value-level effect of `addWidget` and
    `removeWidget` (include/Widget.hpp:173-208) and the proofs that both
    keep the tree invariant and that removing undoes adding. */
module Adoption {
  import opened Wrappers
  import opened Seqs
  import opened Tree

  /** The arena after `addWidget`: `c` pushed to the back of `p`'s list and
      `p` recorded as its parent. */
  function Adopt(nodes: map<Id, Node>, p: Id, c: Id): (r: map<Id, Node>)
    requires p in nodes && c in nodes && p != c
    ensures r.Keys == nodes.Keys
  {
    nodes[p := nodes[p].(children := nodes[p].children + [c])][c := nodes[c].(parent := Some(p))]
  }

  /** The ancestry after adopting: the whole subtree of `c` gains `p` and
      `p`'s ancestors. */
  ghost function AdoptAncestry(anc: map<Id, set<Id>>, p: Id, c: Id): (r: map<Id, set<Id>>)
    requires p in anc
    ensures r.Keys == anc.Keys
  {
    map n | n in anc :: if InSubtree(anc, n, c) then anc[n] + ({p} + anc[p]) else anc[n]
  }

  /** What `removeWidget` returns and the arena it leaves: the last
      occurrence of `c` erased from `p`'s list and `c`'s parent cleared, or
      nothing changed when `p` does not list `c`. */
  function Disown(nodes: map<Id, Node>, p: Id, c: Id): (r: (bool, map<Id, Node>))
    requires p in nodes && c in nodes
    ensures r.1.Keys == nodes.Keys
  {
    var s := nodes[p].children;
    match LastIndexOf(s, c)
    case None => (false, nodes)
    case Some(i) =>
      (true, nodes[p := nodes[p].(children := RemoveAt(s, i))][c := nodes[c].(parent := None)])
  }

  /** The ancestry after disowning: the subtree of `c` loses `c`'s former
      ancestors. */
  ghost function DisownAncestry(anc: map<Id, set<Id>>, c: Id): (r: map<Id, set<Id>>)
    requires c in anc
    ensures r.Keys == anc.Keys
  {
    map n | n in anc :: if InSubtree(anc, n, c) then anc[n] - anc[c] else anc[n]
  }

  /** The conditions under which `addWidget` is defined: the child has no
      parent yet and is not the new parent or one of its ancestors. */
  ghost predicate CanAdopt(nodes: map<Id, Node>, anc: map<Id, set<Id>>, p: Id, c: Id)
    requires WellFormed(nodes, anc)
  {
    p in nodes && c in nodes && nodes[c].parent == None && !InSubtree(anc, p, c)
  }

  // ---------------------------------------------------------------------
  // Adopting

  /** The adopted child becomes the focused child, and the earlier children
      keep their places. */
  lemma AdoptFocusesChild(nodes: map<Id, Node>, anc: map<Id, set<Id>>, p: Id, c: Id)
    requires WellFormed(nodes, anc) && CanAdopt(nodes, anc, p, c)
    ensures var m := Adopt(nodes, p, c);
      && GetFocused(m, p) == Some(c) && IsFocusedChild(m, c)
      && m[p].children[..|nodes[p].children|] == nodes[p].children
      && |m[p].children| == |nodes[p].children| + 1
  {
    assert c != p;
    var m := Adopt(nodes, p, c);
    assert m[p].children == nodes[p].children + [c];
  }

  /** No node of `c`'s subtree is `p` or one of `p`'s ancestors. */
  lemma AdoptApart(nodes: map<Id, Node>, anc: map<Id, set<Id>>, p: Id, c: Id, a: Id)
    requires WellFormed(nodes, anc) && CanAdopt(nodes, anc, p, c)
    requires a == p || a in anc[p]
    ensures a in anc && !InSubtree(anc, a, c)
  {
    assert Acyclic(anc);
    if a != p {
      assert anc[a] < anc[p];
    }
  }

  lemma AdoptKeepsLinks(nodes: map<Id, Node>, anc: map<Id, set<Id>>, p: Id, c: Id)
    requires WellFormed(nodes, anc) && CanAdopt(nodes, anc, p, c)
    ensures ParentsLinked(Adopt(nodes, p, c)) && ChildrenLinked(Adopt(nodes, p, c))
    ensures ChildrenDistinct(Adopt(nodes, p, c))
  {
    var m := Adopt(nodes, p, c);
    assert ParentsLinked(nodes) && ChildrenLinked(nodes) && ChildrenDistinct(nodes);
    assert c !in nodes[p].children;
    assert m[p].children == nodes[p].children + [c];
    assert m[c].children == nodes[c].children;
    forall n | n in m ensures ParentLinked(m, n) {
      assert ParentLinked(nodes, n);
      if n != c && nodes[n].parent.Some? {
        var q := nodes[n].parent.value;
        assert m[n].parent == Some(q);
        assert n in nodes[q].children;
      }
    }
    forall q, x | q in m && x in m[q].children ensures x in m && m[x].parent == Some(q) {
      if x != c {
        assert x in nodes[q].children;
        assert m[x].parent == nodes[x].parent;
      }
    }
    forall q | q in m ensures Distinct(m[q].children) {
      assert Distinct(nodes[q].children);
    }
  }

  lemma AdoptKeepsAncestry(nodes: map<Id, Node>, anc: map<Id, set<Id>>, p: Id, c: Id)
    requires WellFormed(nodes, anc) && CanAdopt(nodes, anc, p, c)
    ensures AncestryFollowsParents(Adopt(nodes, p, c), AdoptAncestry(anc, p, c))
  {
    var m := Adopt(nodes, p, c);
    var a' := AdoptAncestry(anc, p, c);
    AdoptApart(nodes, anc, p, c, p);
    assert AncestryFollowsParents(nodes, anc);
    forall n | n in m ensures AncestorsOf(m, a', n) {
      assert AncestorsOf(nodes, anc, n);
      if n == c {
        assert anc[c] == {};
        assert a'[p] == anc[p];
      } else if nodes[n].parent.Some? {
        var q := nodes[n].parent.value;
        assert m[n].parent == Some(q);
        assert anc[n] == {q} + anc[q];
        if InSubtree(anc, n, c) {
          assert InSubtree(anc, q, c);
        } else {
          assert !InSubtree(anc, q, c);
        }
      } else {
        assert anc[n] == {};
      }
    }
  }

  lemma AdoptKeepsAcyclic(nodes: map<Id, Node>, anc: map<Id, set<Id>>, p: Id, c: Id)
    requires WellFormed(nodes, anc) && CanAdopt(nodes, anc, p, c)
    ensures Acyclic(AdoptAncestry(anc, p, c))
  {
    var a' := AdoptAncestry(anc, p, c);
    var x := {p} + anc[p];
    assert Acyclic(anc);
    forall a | a in x ensures a in anc && !InSubtree(anc, a, c) {
      AdoptApart(nodes, anc, p, c, a);
    }
    forall a | a in a' ensures a !in a'[a] {
      NotOwnAncestor(anc, a);
    }
    forall n, a | n in a' && a in a'[n] ensures a in a' && a'[a] < a'[n] {
      if InSubtree(anc, n, c) {
        if a in anc[n] {
          assert anc[a] <= anc[n];
        } else {
          assert a in x && !InSubtree(anc, a, c);
          assert a == p || anc[a] < anc[p];
        }
      } else {
        assert a in anc[n];
        assert !InSubtree(anc, a, c) by {
          assert a != c && anc[a] <= anc[n];
        }
      }
      assert a'[a] <= a'[n] && a in a'[n] && a !in a'[a];
    }
  }

  /** `addWidget` keeps the tree invariant. */
  lemma AdoptKeepsTree(nodes: map<Id, Node>, anc: map<Id, set<Id>>, p: Id, c: Id)
    requires WellFormed(nodes, anc) && CanAdopt(nodes, anc, p, c)
    ensures WellFormed(Adopt(nodes, p, c), AdoptAncestry(anc, p, c))
  {
    AdoptKeepsLinks(nodes, anc, p, c);
    AdoptKeepsAncestry(nodes, anc, p, c);
    AdoptKeepsAcyclic(nodes, anc, p, c);
  }

  // ---------------------------------------------------------------------
  // Disowning

  /** `removeWidget` succeeds exactly when `p` lists `c`; it then leaves `c`
      parentless and no longer listed, the other children of `p` in their
      order with `c`'s entry cut out, and every other widget and field as it
      was. */
  lemma DisownRemovesChild(nodes: map<Id, Node>, anc: map<Id, set<Id>>, p: Id, c: Id)
    requires WellFormed(nodes, anc) && p in nodes && c in nodes
    ensures Disown(nodes, p, c).0 <==> c in nodes[p].children
    ensures !Disown(nodes, p, c).0 ==> Disown(nodes, p, c).1 == nodes
    ensures Disown(nodes, p, c).0 ==>
      var m, s := Disown(nodes, p, c).1, nodes[p].children;
      && m[c].parent == None && c !in m[p].children
      && (forall x :: x in m[p].children <==> x in s && x != c)
      && |m[p].children| == |s| - 1
      && (exists i :: 0 <= i < |s| && s[i] == c && m[p].children == s[..i] + s[i + 1..])
      && m[p] == nodes[p].(children := m[p].children)
      && m[c] == nodes[c].(parent := None)
      && (forall n :: n in nodes && n != p && n != c ==> m[n] == nodes[n])
  {
    var s := nodes[p].children;
    if c in s {
      assert ChildrenLinked(nodes) && ChildrenDistinct(nodes);
      var i := LastIndexOf(s, c).value;
      RemoveAtMembers(s, i);
      ChildAncestors(nodes, anc, p, c);
    }
  }

  /** Every ancestor of a node lies on one chain: of two ancestors, one is
      an ancestor of the other. */
  lemma {:induction false} ChainLinear(nodes: map<Id, Node>, anc: map<Id, set<Id>>, n: Id, c: Id, a: Id)
    requires AncestryFollowsParents(nodes, anc) && Acyclic(anc) && n in nodes && c in anc[n]
    ensures a in anc[n] ==> a == c || a in anc[c] || c in anc[a]
    decreases anc[n]
  {
    assert AncestorsOf(nodes, anc, n);
    var q := nodes[n].parent.value;
    assert q in nodes && anc[n] == {q} + anc[q];
    if c != q && a != q {
      assert c in anc[q];
      ChainLinear(nodes, anc, q, c, a);
    }
  }

  lemma DisownKeepsLinks(nodes: map<Id, Node>, anc: map<Id, set<Id>>, p: Id, c: Id)
    requires WellFormed(nodes, anc) && p in nodes && c in nodes[p].children
    ensures Disown(nodes, p, c).1.Keys == nodes.Keys
    ensures ParentsLinked(Disown(nodes, p, c).1) && ChildrenLinked(Disown(nodes, p, c).1)
    ensures ChildrenDistinct(Disown(nodes, p, c).1)
  {
    assert ParentsLinked(nodes) && ChildrenLinked(nodes) && ChildrenDistinct(nodes);
    var s := nodes[p].children;
    var i := LastIndexOf(s, c).value;
    RemoveAtMembers(s, i);
    var m := Disown(nodes, p, c).1;
    ChildAncestors(nodes, anc, p, c);
    assert m[p].children == RemoveAt(s, i);
    assert m[c].parent == None && m[c].children == nodes[c].children;
    forall n | n in m ensures ParentLinked(m, n) {
      assert ParentLinked(nodes, n);
      if n != c && nodes[n].parent.Some? {
        var q := nodes[n].parent.value;
        assert m[n].parent == Some(q);
        assert n in nodes[q].children;
      }
    }
    forall q, x | q in m && x in m[q].children ensures x in m && m[x].parent == Some(q) {
      assert x in nodes[q].children;
      assert x != c;
      assert m[x].parent == nodes[x].parent;
    }
    forall q | q in m ensures Distinct(m[q].children) {
      assert Distinct(nodes[q].children);
    }
  }

  lemma DisownKeepsAncestry(nodes: map<Id, Node>, anc: map<Id, set<Id>>, p: Id, c: Id)
    requires WellFormed(nodes, anc) && p in nodes && c in nodes[p].children
    ensures AncestryFollowsParents(Disown(nodes, p, c).1, DisownAncestry(anc, c))
  {
    var m := Disown(nodes, p, c).1;
    var a' := DisownAncestry(anc, c);
    ChildAncestors(nodes, anc, p, c);
    assert AncestryFollowsParents(nodes, anc) && Acyclic(anc);
    assert m[c].parent == None;
    forall n | n in m ensures AncestorsOf(m, a', n) {
      assert AncestorsOf(nodes, anc, n);
      if n == c {
        assert a'[c] == {};
      } else if nodes[n].parent.Some? {
        var q := nodes[n].parent.value;
        assert m[n].parent == Some(q);
        assert anc[n] == {q} + anc[q];
        if InSubtree(anc, n, c) {
          assert InSubtree(anc, q, c);
          assert q !in anc[c] by {
            NotOwnAncestor(anc, q);
            if q != c { assert anc[c] <= anc[q]; }
          }
        } else {
          assert !InSubtree(anc, q, c);
        }
      } else {
        assert anc[n] == {};
      }
    }
  }

  lemma DisownKeepsAcyclic(nodes: map<Id, Node>, anc: map<Id, set<Id>>, p: Id, c: Id)
    requires WellFormed(nodes, anc) && p in nodes && c in nodes[p].children
    ensures Acyclic(DisownAncestry(anc, c))
  {
    var a' := DisownAncestry(anc, c);
    assert Acyclic(anc) && AncestryFollowsParents(nodes, anc);
    forall n, a | n in a' && a in a'[n] ensures a in a' && a'[a] < a'[n] {
      NotOwnAncestor(anc, a);
      if InSubtree(anc, n, c) {
        assert n != c;
        ChainLinear(nodes, anc, n, c, a);
        assert InSubtree(anc, a, c);
        assert anc[a] <= anc[n];
      } else {
        assert anc[a] <= anc[n];
      }
      assert a'[a] <= a'[n] && a in a'[n] && a !in a'[a];
    }
  }

  /** `removeWidget` keeps the tree invariant. */
  lemma DisownKeepsTree(nodes: map<Id, Node>, anc: map<Id, set<Id>>, p: Id, c: Id)
    requires WellFormed(nodes, anc) && p in nodes && c in nodes[p].children
    ensures WellFormed(Disown(nodes, p, c).1, DisownAncestry(anc, c))
  {
    DisownKeepsLinks(nodes, anc, p, c);
    DisownKeepsAncestry(nodes, anc, p, c);
    DisownKeepsAcyclic(nodes, anc, p, c);
  }

  /** Removing a freshly added child restores the arena. */
  lemma DisownAfterAdopt(nodes: map<Id, Node>, anc: map<Id, set<Id>>, p: Id, c: Id)
    requires WellFormed(nodes, anc) && CanAdopt(nodes, anc, p, c)
    ensures Disown(Adopt(nodes, p, c), p, c) == (true, nodes)
  {
    var s := nodes[p].children;
    var m := Adopt(nodes, p, c);
    assert ChildrenLinked(nodes);
    assert c !in s;
    assert m[p].children == s + [c];
    assert LastIndexOf(s + [c], c) == Some(|s|);
    assert RemoveAt(s + [c], |s|) == s;
    var r := Disown(m, p, c).1;
    assert r == nodes by {
      assert r.Keys == nodes.Keys;
      forall n | n in r ensures r[n] == nodes[n] { }
    }
  }

  /** Removing a freshly added child restores the ancestry. */
  lemma DisownAncestryAfterAdopt(nodes: map<Id, Node>, anc: map<Id, set<Id>>, p: Id, c: Id)
    requires WellFormed(nodes, anc) && CanAdopt(nodes, anc, p, c)
    ensures DisownAncestry(AdoptAncestry(anc, p, c), c) == anc
  {
    var a' := AdoptAncestry(anc, p, c);
    assert AncestryFollowsParents(nodes, anc);
    assert AncestorsOf(nodes, anc, c) && anc[c] == {};
    AdoptApart(nodes, anc, p, c, p);
    assert a'[c] == {p} + anc[p];
    var b := DisownAncestry(a', c);
    assert b == anc by {
      forall n | n in anc ensures b[n] == anc[n] {
        if InSubtree(anc, n, c) {
          assert InSubtree(a', n, c);
          assert anc[n] !! ({p} + anc[p]) by {
            forall a | a in {p} + anc[p] ensures a !in anc[n] {
              AdoptApart(nodes, anc, p, c, a);
              if n != c { ChainLinear(nodes, anc, n, c, a); }
            }
          }
        } else {
          assert !InSubtree(a', n, c);
        }
      }
    }
  }

  /** Removing a freshly added child succeeds and restores the arena and the
      ancestry exactly; removing it a second time fails and changes nothing. */
  lemma DisownUndoesAdopt(nodes: map<Id, Node>, anc: map<Id, set<Id>>, p: Id, c: Id)
    requires WellFormed(nodes, anc) && CanAdopt(nodes, anc, p, c)
    ensures Disown(Adopt(nodes, p, c), p, c) == (true, nodes)
    ensures DisownAncestry(AdoptAncestry(anc, p, c), c) == anc
    ensures Disown(nodes, p, c) == (false, nodes)
  {
    DisownAfterAdopt(nodes, anc, p, c);
    DisownAncestryAfterAdopt(nodes, anc, p, c);
    assert ChildrenLinked(nodes);
    assert c !in nodes[p].children;
  }
}
