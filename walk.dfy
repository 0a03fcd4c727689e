/** The shape shared by the handlers that rewrite a whole subtree
    (`onUpdate`, `onMouseMove`): the widget rewrites itself, then sends the
    handler to every child from the front, and each child rewrites its own
    subtree.  `goal` is the arena the whole handler is to leave behind; the
    lemmas here carry the loop state from the first child to the last. */
module Walk {
  import opened Seqs
  import opened Tree
  import opened HitTest

  /** `a` and `b` agree on every widget of the subtree of `c`. */
  ghost predicate AgreeBelow(a: map<Id, Node>, b: map<Id, Node>, anc: map<Id, set<Id>>, c: Id) {
    forall n :: n in a && InSubtree(anc, n, c) ==> n in b && b[n] == a[n]
  }

  /** The loop state before child `i`'s turn: `w` has rewritten itself, the
      subtrees of the children visited so far are as `goal` has them, and
      the rest of the arena is still as in `t`. */
  ghost predicate Walking(t: map<Id, Node>, anc: map<Id, set<Id>>, now: map<Id, Node>, goal: map<Id, Node>,
                          w: Id, i: nat)
    requires Level(t, w) && i <= |t[w].children|
  {
    var s := t[w].children;
    && Confined(anc, t, now, w) && w in goal && now[w] == goal[w]
    && (forall j :: 0 <= j < i ==> AgreeBelow(goal, now, anc, s[j]))
    && (forall j :: i <= j < |s| ==> AgreeBelow(t, now, anc, s[j]))
  }

  /** `w` rewriting itself starts the loop. */
  lemma WalkStart(t: map<Id, Node>, anc: map<Id, set<Id>>, goal: map<Id, Node>, w: Id)
    requires WellFormed(t, anc) && w in t && Confined(anc, t, goal, w)
    ensures Level(t, w) && Walking(t, anc, t[w := goal[w]], goal, w, 0)
  {
    ChildrenFacts(t, anc, w);
    var s := t[w].children;
    var now := t[w := goal[w]];
    assert SameGeometry(t, now) by {
      forall n | n in t ensures now[n].parent == t[n].parent && now[n].rect == t[n].rect && now[n].hidden == t[n].hidden {
        if n == w { assert now[n] == goal[n]; }
      }
    }
    forall j | 0 <= j < |s| ensures AgreeBelow(t, now, anc, s[j]) {
      assert s[j] in s;
      forall n | n in t && InSubtree(anc, n, s[j]) ensures n in now && now[n] == t[n] {
        ChildSubtree(t, anc, w, s[j], n);
      }
    }
  }

  /** Child `i`'s own handler, which changed only its subtree and left it
      as `goal` has it, moves the loop one child further. */
  lemma WalkStep(t: map<Id, Node>, anc: map<Id, set<Id>>, before: map<Id, Node>, after: map<Id, Node>,
                 goal: map<Id, Node>, w: Id, i: nat)
    requires WellFormed(t, anc) && Level(t, w) && i < |t[w].children| && Confined(anc, t, goal, w)
    requires Walking(t, anc, before, goal, w, i)
    requires Confined(anc, before, after, t[w].children[i])
    requires AgreeBelow(goal, after, anc, t[w].children[i])
    ensures Walking(t, anc, after, goal, w, i + 1)
  {
    ChildrenFacts(t, anc, w);
    var s := t[w].children;
    var c := s[i];
    assert c in s;
    assert !InSubtree(anc, w, c);
    GeometryTrans(t, before, after);
    forall n | n in t && !InSubtree(anc, n, w) ensures after[n] == t[n] {
      if InSubtree(anc, n, c) { ChildSubtree(t, anc, w, c, n); }
    }
    assert Confined(anc, t, after, w);
    forall j | 0 <= j < |s| && j != i ensures forall n :: n in t && InSubtree(anc, n, s[j]) ==> after[n] == before[n] {
      assert s[j] in s;
      DistinctApart(s, i, j);
      forall n | n in t && InSubtree(anc, n, s[j]) ensures after[n] == before[n] {
        SiblingsApart(t, anc, w, s[j], c, n);
      }
    }
    forall j | 0 <= j < i + 1 ensures AgreeBelow(goal, after, anc, s[j]) {
      if j < i {
        assert AgreeBelow(goal, before, anc, s[j]);
      }
    }
    forall j | i + 1 <= j < |s| ensures AgreeBelow(t, after, anc, s[j]) {
      assert AgreeBelow(t, before, anc, s[j]);
    }
  }

  /** When the loop is done, the arena is `goal`. */
  lemma WalkDone(t: map<Id, Node>, anc: map<Id, set<Id>>, now: map<Id, Node>, goal: map<Id, Node>, w: Id)
    requires WellFormed(t, anc) && Level(t, w) && Confined(anc, t, goal, w)
    requires Walking(t, anc, now, goal, w, |t[w].children|)
    ensures now == goal
  {
    var s := t[w].children;
    forall n | n in t ensures now[n] == goal[n] {
      if n != w && InSubtree(anc, n, w) {
        var c := UnderSomeChild(t, anc, w, n);
        var j :| 0 <= j < |s| && s[j] == c;
        assert AgreeBelow(goal, now, anc, s[j]);
      }
    }
  }

  /** A child's subtree is part of its parent's. */
  lemma AgreeBelowChild(t: map<Id, Node>, anc: map<Id, set<Id>>, a: map<Id, Node>, b: map<Id, Node>, w: Id, c: Id)
    requires WellFormed(t, anc) && w in t && c in t[w].children && a.Keys == t.Keys
    requires AgreeBelow(a, b, anc, w)
    ensures AgreeBelow(a, b, anc, c)
  {
    forall n | n in a && InSubtree(anc, n, c) ensures InSubtree(anc, n, w) {
      ChildSubtree(t, anc, w, c, n);
    }
  }
}
