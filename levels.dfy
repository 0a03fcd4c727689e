/** What `onMouseDown` and `onMouseUp` (include/Widget.hpp:622-721) leave at
    every level of the subtree they are sent to.  Each handler runs the same
    logic on every widget it reaches: a widget reached by the handler and not
    hidden reorders or settles its own children as `Press.PressedLevel` or
    `Release.ReleasedLevel` says, for the point it receives, and tells them
    `Press.PressNotices` or `Release.ReleaseNoticesOf`; below a hidden widget
    nothing changes and nobody hears anything.  The lemmas here lift what a
    child's handler leaves in its own subtree to the parent's handler. */
module Levels {
  import opened Seqs
  import opened Tree
  import opened HitTest
  import opened Walk
  import opened Motion
  import opened Wrappers
  import opened Focus
  import opened Press
  import opened Release

  /** The two handlers of a pointer button, which share their recursion. */
  datatype Edge = Down | Up

  /** The handler sent to `w` reaches `n` and `n` handles it: neither `n`
      nor any widget between `n` and `w`, `w` included, is hidden. */
  ghost predicate Open(t: map<Id, Node>, anc: map<Id, set<Id>>, w: Id, n: Id)
    requires WellFormed(t, anc) && n in t && InSubtree(anc, n, w)
    decreases anc[n]
  {
    if n == w then !t[n].hidden
    else
      ParentStep(t, anc, w, n);
      !t[n].hidden && Open(t, anc, w, t[n].parent.value)
  }

  /** What the handler leaves at the children of `n`, `(x, y)` being the
      point `n` receives. */
  ghost predicate LevelDone(e: Edge, t: map<Id, Node>, after: map<Id, Node>, n: Id, x: int, y: int, b: nat)
    requires Level(t, n) && n in after && Present(after, t[n].children)
  {
    match e
    case Down => PressedLevel(t, after, n, x, y, b)
    case Up => ReleasedLevel(t, after, n, x, y, b)
  }

  /** The notifications the handler sends to the children of `n`. */
  ghost function Notices(e: Edge, t: map<Id, Node>, n: Id, x: int, y: int, b: nat): seq<Event>
    requires Level(t, n)
  {
    match e
    case Down => PressNotices(t, n, x, y, b)
    case Up => ReleaseNoticesOf(t, n, x, y, b)
  }

  /** The handler sent to `w` from arena `t`, which led to `after` and
      fired `fired`, did at `n` what the source does at one level: if it
      reached a visible `n`, the children of `n` are as `LevelDone` says and
      heard exactly `Notices`, both for the point `n` receives; otherwise
      the children of `n`, and their order, are untouched and heard
      nothing. */
  ghost predicate HandledAt(e: Edge, t: map<Id, Node>, anc: map<Id, set<Id>>, after: map<Id, Node>,
                            fired: seq<Event>, w: Id, n: Id, x: int, y: int, b: nat)
    requires WellFormed(t, anc) && n in t && InSubtree(anc, n, w) && after.Keys == t.Keys
  {
    var s := t[n].children;
    var q := Local(t, anc, w, n, x, y);
    && Level(t, n)
    && if Open(t, anc, w, n) then
         LevelDone(e, t, after, n, q.x, q.y, b) && Only(fired, s) == Notices(e, t, n, q.x, q.y, b)
       else
         after[n].children == s && (forall j :: 0 <= j < |s| ==> after[s[j]] == t[s[j]]) && Only(fired, s) == []
  }

  /** `HandledAt` every widget of the subtree of `c`, itself in the
      subtree of `w`. */
  ghost predicate Handled(e: Edge, t: map<Id, Node>, anc: map<Id, set<Id>>, after: map<Id, Node>,
                          fired: seq<Event>, w: Id, c: Id, x: int, y: int, b: nat)
    requires WellFormed(t, anc) && after.Keys == t.Keys
  {
    forall n :: n in t && InSubtree(anc, n, c) && InSubtree(anc, n, w) ==>
      HandledAt(e, t, anc, after, fired, w, n, x, y, b)
  }

  /** No notification goes to a widget strictly below `c`. */
  ghost predicate NotBelow(anc: map<Id, set<Id>>, evs: seq<Event>, c: Id) {
    forall k :: 0 <= k < |evs| ==> !(evs[k].target in anc && c in anc[evs[k].target])
  }

  // ---------------------------------------------------------------------
  // Paths

  /** A visible `n` that the handler reaches from `w` is reached from the
      child `c` of `w` it lies under, and the other way round when `w` is
      visible. */
  lemma {:induction false} OpenChild(t: map<Id, Node>, anc: map<Id, set<Id>>, w: Id, c: Id, n: Id)
    requires WellFormed(t, anc) && w in t && c in t[w].children && n in t && InSubtree(anc, n, c)
    ensures InSubtree(anc, n, w)
    ensures Open(t, anc, w, n) <==> !t[w].hidden && Open(t, anc, c, n)
    decreases anc[n]
  {
    ChildSubtree(t, anc, w, c, n);
    ChildAncestors(t, anc, w, c);
    if n == c {
      assert Open(t, anc, w, w) == !t[w].hidden;
    } else {
      ParentStep(t, anc, c, n);
      OpenChild(t, anc, w, c, t[n].parent.value);
    }
  }

  /** Reachability only depends on the links and the hidden flags. */
  lemma {:induction false} OpenGeometry(a: map<Id, Node>, b: map<Id, Node>, anc: map<Id, set<Id>>, w: Id, n: Id)
    requires WellFormed(a, anc) && WellFormed(b, anc) && SameGeometry(a, b) && n in a && InSubtree(anc, n, w)
    ensures Open(a, anc, w, n) == Open(b, anc, w, n)
    decreases anc[n]
  {
    if n != w {
      ParentStep(a, anc, w, n);
      OpenGeometry(a, b, anc, w, a[n].parent.value);
    }
  }

  /** Nothing is reached below a hidden `w`. */
  lemma {:induction false} OpenRoot(t: map<Id, Node>, anc: map<Id, set<Id>>, w: Id, n: Id)
    requires WellFormed(t, anc) && n in t && InSubtree(anc, n, w) && Open(t, anc, w, n)
    ensures w in t && !t[w].hidden
    decreases anc[n]
  {
    if n != w {
      ParentStep(t, anc, w, n);
      OpenRoot(t, anc, w, t[n].parent.value);
    }
  }

  // ---------------------------------------------------------------------
  // Which notifications a level hears

  /** Notifications to no widget strictly below `c` are heard by no
      level of the subtree of `c`. */
  lemma NotBelowSilent(t: map<Id, Node>, anc: map<Id, set<Id>>, g: seq<Event>, c: Id, n: Id)
    requires WellFormed(t, anc) && n in t && InSubtree(anc, n, c) && NotBelow(anc, g, c)
    ensures Only(g, t[n].children) == []
  {
    forall k | 0 <= k < |g| ensures g[k].target !in t[n].children {
      if g[k].target in t[n].children {
        ChildAncestors(t, anc, n, g[k].target);
      }
    }
    OnlyNone(g, t[n].children);
  }

  lemma NotBelowAppend(anc: map<Id, set<Id>>, f: seq<Event>, g: seq<Event>, c: Id)
    requires NotBelow(anc, f, c) && NotBelow(anc, g, c)
    ensures NotBelow(anc, f + g, c)
  {
    forall k | 0 <= k < |f + g| ensures !((f + g)[k].target in anc && c in anc[(f + g)[k].target]) {
      if k < |f| {
        assert (f + g)[k] == f[k];
      } else {
        assert (f + g)[k] == g[k - |f|];
      }
    }
  }

  /** What a child's handler fires stays below that child, so nothing of it
      is below a sibling. */
  lemma BelowSiblingNotBelow(t: map<Id, Node>, anc: map<Id, set<Id>>, w: Id, c: Id, d: Id, g: seq<Event>)
    requires WellFormed(t, anc) && w in t && c in t[w].children && d in t[w].children && c != d
    requires Below(anc, d, g)
    ensures NotBelow(anc, g, c)
  {
    forall k | 0 <= k < |g| ensures !(g[k].target in anc && c in anc[g[k].target]) {
      var m := g[k].target;
      if c in anc[m] {
        SiblingsApart(t, anc, w, c, d, m);
      }
    }
  }

  /** Neither `w` nor a child of `w` is strictly below a child of `w`. */
  lemma LevelNotBelow(t: map<Id, Node>, anc: map<Id, set<Id>>, w: Id, c: Id, m: Id)
    requires WellFormed(t, anc) && w in t && c in t[w].children && (m == w || m in t[w].children)
    ensures m in anc && c !in anc[m]
  {
    ChildAncestors(t, anc, w, c);
    NotOwnAncestor(anc, w);
    if m != w {
      ChildAncestors(t, anc, w, m);
    }
  }

  /** Notifications to `w` or to children of `w` are below no child of
      `w`. */
  lemma LevelTargetsNotBelow(t: map<Id, Node>, anc: map<Id, set<Id>>, w: Id, c: Id, g: seq<Event>)
    requires WellFormed(t, anc) && w in t && c in t[w].children
    requires forall k :: 0 <= k < |g| ==> g[k].target == w || g[k].target in t[w].children
    ensures NotBelow(anc, g, c)
  {
    forall k | 0 <= k < |g| ensures !(g[k].target in anc && c in anc[g[k].target]) {
      LevelNotBelow(t, anc, w, c, g[k].target);
    }
  }

  /** A change to `w` alone leaves the subtree of each child of `w` as it
      was. */
  lemma StartAgree(t: map<Id, Node>, anc: map<Id, set<Id>>, w: Id, v: Node)
    requires WellFormed(t, anc) && w in t
    ensures forall j :: 0 <= j < |t[w].children| ==> AgreeBelow(t, t[w := v], anc, t[w].children[j])
  {
    forall j, n | 0 <= j < |t[w].children| && n in t && InSubtree(anc, n, t[w].children[j]) ensures n != w {
      assert t[w].children[j] in t[w].children;
      ChildSubtree(t, anc, w, t[w].children[j], n);
    }
  }

  /** Notifications to `w` itself are below nothing of its subtree. */
  lemma RootTargetsNotBelow(anc: map<Id, set<Id>>, w: Id, g: seq<Event>)
    requires Acyclic(anc) && w in anc
    requires forall k :: 0 <= k < |g| ==> g[k].target == w
    ensures NotBelow(anc, g, w)
  {
    NotOwnAncestor(anc, w);
  }

  // ---------------------------------------------------------------------
  // One level, in two arenas

  /** A level reads the arena the handler left only at the children of
      `n` and at the order of `n`'s own list. */
  lemma LevelDoneFrame(e: Edge, t: map<Id, Node>, a: map<Id, Node>, a2: map<Id, Node>, n: Id, x: int, y: int, b: nat)
    requires Level(t, n) && n in a && n in a2 && Present(a, t[n].children) && Present(a2, t[n].children)
    requires a2[n].children == a[n].children
    requires forall j :: 0 <= j < |t[n].children| ==> a2[t[n].children[j]] == a[t[n].children[j]]
    ensures LevelDone(e, t, a2, n, x, y, b) == LevelDone(e, t, a, n, x, y, b)
  {
    var s := t[n].children;
    match e
    case Down =>
    case Up =>
      assert forall j :: 0 <= j < |s| ==> ReleaseSettled(t, a2, s[j], x, y, b) == ReleaseSettled(t, a, s[j], x, y, b);
  }

  /** The notices for a list of children only depend on those children. */
  lemma {:induction false} ReleaseNoticesAgree(t: map<Id, Node>, d: map<Id, Node>, s: seq<Id>, x: int, y: int, b: nat)
    requires SameGeometry(t, d) && Present(t, s)
    requires forall k :: 0 <= k < |s| ==> d[s[k]] == t[s[k]] && Present(t, t[s[k]].children)
    ensures Present(d, s) && ReleaseNotices(d, s, x, y, b) == ReleaseNotices(t, s, x, y, b)
    decreases |s|
  {
    if |s| > 0 {
      var p, c := s[..|s| - 1], s[|s| - 1];
      assert forall k :: 0 <= k < |p| ==> p[k] == s[k];
      ReleaseNoticesAgree(t, d, p, x, y, b);
      ClaimsReleaseGeometry(t, d, c, Rel(x, t[c].rect.x), Rel(y, t[c].rect.y));
    }
  }

  /** A level and its notices, taken in an arena that agrees with `t` on
      `n` and its children and has its geometry, are those of `t`. */
  lemma LevelDoneAgree(e: Edge, t: map<Id, Node>, anc: map<Id, set<Id>>, d: map<Id, Node>, after: map<Id, Node>,
                       n: Id, x: int, y: int, b: nat)
    requires WellFormed(t, anc) && Level(t, n) && SameGeometry(t, d) && d[n] == t[n]
    requires forall j :: 0 <= j < |t[n].children| ==> d[t[n].children[j]] == t[t[n].children[j]]
    requires n in after && Present(after, t[n].children)
    ensures Level(d, n)
    ensures LevelDone(e, d, after, n, x, y, b) == LevelDone(e, t, after, n, x, y, b)
    ensures Notices(e, d, n, x, y, b) == Notices(e, t, n, x, y, b)
  {
    GrandchildrenPresent(t, anc, n);
    match e
    case Down => PressLevelAgree(t, d, after, n, x, y, b);
    case Up => ReleaseLevelAgree(t, d, after, n, x, y, b);
  }

  /** In a well-formed arena the children of `n` list only widgets. */
  lemma GrandchildrenPresent(t: map<Id, Node>, anc: map<Id, set<Id>>, n: Id)
    requires WellFormed(t, anc) && n in t
    ensures Level(t, n)
    ensures forall j :: 0 <= j < |t[n].children| ==> Present(t, t[t[n].children[j]].children)
  {
    ChildrenFacts(t, anc, n);
    var s := t[n].children;
    forall j | 0 <= j < |s| ensures Present(t, t[s[j]].children) {
      assert s[j] in s;
      ChildrenFacts(t, anc, s[j]);
    }
  }

  lemma PressLevelAgree(t: map<Id, Node>, d: map<Id, Node>, after: map<Id, Node>, n: Id, x: int, y: int, b: nat)
    requires Level(t, n) && SameGeometry(t, d) && d[n] == t[n]
    requires forall j :: 0 <= j < |t[n].children| ==> d[t[n].children[j]] == t[t[n].children[j]]
    requires forall j :: 0 <= j < |t[n].children| ==> Present(t, t[t[n].children[j]].children)
    requires n in after && Present(after, t[n].children)
    ensures Level(d, n)
    ensures PressedLevel(d, after, n, x, y, b) == PressedLevel(t, after, n, x, y, b)
    ensures PressNotices(d, n, x, y, b) == PressNotices(t, n, x, y, b)
  {
    var s := t[n].children;
    assert Present(d, s);
    TopmostSameGeometry(t, d, s, x, y, true);
    forall j | 0 <= j < |s|
      ensures ClaimsPress(d, s[j], Rel(x, t[s[j]].rect.x), Rel(y, t[s[j]].rect.y))
           == ClaimsPress(t, s[j], Rel(x, t[s[j]].rect.x), Rel(y, t[s[j]].rect.y))
    {
      ClaimsPressGeometry(t, d, s[j], Rel(x, t[s[j]].rect.x), Rel(y, t[s[j]].rect.y));
    }
  }

  lemma ReleaseLevelAgree(t: map<Id, Node>, d: map<Id, Node>, after: map<Id, Node>, n: Id, x: int, y: int, b: nat)
    requires Level(t, n) && SameGeometry(t, d) && d[n] == t[n]
    requires forall j :: 0 <= j < |t[n].children| ==> d[t[n].children[j]] == t[t[n].children[j]]
    requires forall j :: 0 <= j < |t[n].children| ==> Present(t, t[t[n].children[j]].children)
    requires n in after && Present(after, t[n].children)
    ensures Level(d, n)
    ensures ReleasedLevel(d, after, n, x, y, b) == ReleasedLevel(t, after, n, x, y, b)
    ensures ReleaseNoticesOf(d, n, x, y, b) == ReleaseNoticesOf(t, n, x, y, b)
  {
    var s := t[n].children;
    assert Present(d, s);
    forall j | 0 <= j < |s|
      ensures ReleaseSettled(d, after, s[j], x, y, b) == ReleaseSettled(t, after, s[j], x, y, b)
    {
      ClaimsReleaseGeometry(t, d, s[j], Rel(x, t[s[j]].rect.x), Rel(y, t[s[j]].rect.y));
    }
    ReleaseNoticesAgree(t, d, s, x, y, b);
  }

  // ---------------------------------------------------------------------
  // From the children's handlers to the parent's

  /** Later changes that keep the child lists of the subtree of `c`, keep
      every widget strictly below `c`, and fire nothing below `c` keep what
      the handler did in that subtree. */
  lemma HandledFrame(e: Edge, t: map<Id, Node>, anc: map<Id, set<Id>>, a: map<Id, Node>, a2: map<Id, Node>,
                     f: seq<Event>, g: seq<Event>, w: Id, c: Id, x: int, y: int, b: nat)
    requires WellFormed(t, anc) && c in t && a.Keys == t.Keys && a2.Keys == t.Keys
    requires forall n :: n in t && InSubtree(anc, n, c) ==> a2[n].children == a[n].children
    requires forall n :: n in t && InSubtree(anc, n, c) && n != c ==> a2[n] == a[n]
    requires NotBelow(anc, g, c)
    requires Handled(e, t, anc, a, f, w, c, x, y, b)
    ensures Handled(e, t, anc, a2, f + g, w, c, x, y, b)
  {
    forall n | n in t && InSubtree(anc, n, c) && InSubtree(anc, n, w)
      ensures HandledAt(e, t, anc, a2, f + g, w, n, x, y, b)
    {
      HandledFrameAt(e, t, anc, a, a2, f, g, w, c, n, x, y, b);
    }
  }

  lemma HandledFrameAt(e: Edge, t: map<Id, Node>, anc: map<Id, set<Id>>, a: map<Id, Node>, a2: map<Id, Node>,
                       f: seq<Event>, g: seq<Event>, w: Id, c: Id, n: Id, x: int, y: int, b: nat)
    requires WellFormed(t, anc) && c in t && a.Keys == t.Keys && a2.Keys == t.Keys
    requires n in t && InSubtree(anc, n, c) && InSubtree(anc, n, w)
    requires a2[n].children == a[n].children
    requires forall m :: m in t && InSubtree(anc, m, c) && m != c ==> a2[m] == a[m]
    requires NotBelow(anc, g, c)
    requires HandledAt(e, t, anc, a, f, w, n, x, y, b)
    ensures HandledAt(e, t, anc, a2, f + g, w, n, x, y, b)
  {
    ChildrenFacts(t, anc, n);
    var s := t[n].children;
    forall j | 0 <= j < |s| ensures a2[s[j]] == a[s[j]] {
      assert s[j] in s;
      NotOwnAncestor(anc, c);
      assert InSubtree(anc, s[j], c) && s[j] != c;
    }
    var q := Local(t, anc, w, n, x, y);
    LevelDoneFrame(e, t, a, a2, n, q.x, q.y, b);
    NotBelowSilent(t, anc, g, c, n);
    OnlyAppend(f, g, s);
  }

  /** What the handler of child `c` of a visible `w` left in the subtree of
      `c`, from an arena that agrees with `t` there and has its geometry, is
      what the handler of `w` is to leave there; notifications fired before
      it and not below `c` do not change that. */
  lemma HandledLift(e: Edge, t: map<Id, Node>, anc: map<Id, set<Id>>, before: map<Id, Node>, mid: map<Id, Node>,
                    f: seq<Event>, g: seq<Event>, w: Id, c: Id, x: int, y: int, b: nat)
    requires WellFormed(t, anc) && WellFormed(before, anc) && w in t && c in t[w].children && !t[w].hidden
    requires SameGeometry(t, before) && AgreeBelow(t, before, anc, c) && mid.Keys == t.Keys
    requires Handled(e, before, anc, mid, g, c, c, Rel(x, t[c].rect.x), Rel(y, t[c].rect.y), b)
    requires NotBelow(anc, f, c)
    ensures Handled(e, t, anc, mid, f + g, w, c, x, y, b)
  {
    forall n | n in t && InSubtree(anc, n, c) && InSubtree(anc, n, w)
      ensures HandledAt(e, t, anc, mid, f + g, w, n, x, y, b)
    {
      HandledLiftAt(e, t, anc, before, mid, f, g, w, c, n, x, y, b);
    }
  }

  lemma HandledLiftAt(e: Edge, t: map<Id, Node>, anc: map<Id, set<Id>>, before: map<Id, Node>, mid: map<Id, Node>,
                      f: seq<Event>, g: seq<Event>, w: Id, c: Id, n: Id, x: int, y: int, b: nat)
    requires WellFormed(t, anc) && WellFormed(before, anc) && w in t && c in t[w].children && !t[w].hidden
    requires SameGeometry(t, before) && AgreeBelow(t, before, anc, c) && mid.Keys == t.Keys
    requires n in t && InSubtree(anc, n, c)
    requires HandledAt(e, before, anc, mid, g, c, n, Rel(x, t[c].rect.x), Rel(y, t[c].rect.y), b)
    requires NotBelow(anc, f, c)
    ensures InSubtree(anc, n, w) && HandledAt(e, t, anc, mid, f + g, w, n, x, y, b)
  {
    var lx, ly := Rel(x, t[c].rect.x), Rel(y, t[c].rect.y);
    ChildrenFacts(t, anc, n);
    var s := t[n].children;
    forall j | 0 <= j < |s| ensures before[s[j]] == t[s[j]] {
      assert s[j] in s;
      assert InSubtree(anc, s[j], c);
    }
    LocalChild(t, anc, w, c, n, x, y);
    LocalGeometry(t, before, anc, c, n, lx, ly);
    OpenChild(t, anc, w, c, n);
    OpenGeometry(t, before, anc, c, n);
    var q := Local(t, anc, w, n, x, y);
    LevelDoneAgree(e, t, anc, before, mid, n, q.x, q.y, b);
    NotBelowSilent(t, anc, f, c, n);
    OnlyAppend(f, g, s);
  }

  /** `HandledAt` the root and in the subtree of every child is `Handled`
      in the whole subtree. */
  lemma HandledJoin(e: Edge, t: map<Id, Node>, anc: map<Id, set<Id>>, after: map<Id, Node>, f: seq<Event>,
                    w: Id, x: int, y: int, b: nat)
    requires WellFormed(t, anc) && w in t && after.Keys == t.Keys
    requires HandledAt(e, t, anc, after, f, w, w, x, y, b)
    requires forall j :: 0 <= j < |t[w].children| ==> Handled(e, t, anc, after, f, w, t[w].children[j], x, y, b)
    ensures Handled(e, t, anc, after, f, w, w, x, y, b)
  {
    var s := t[w].children;
    forall n | n in t && InSubtree(anc, n, w) ensures HandledAt(e, t, anc, after, f, w, n, x, y, b) {
      if n != w {
        var c := UnderSomeChild(t, anc, w, n);
        var j :| 0 <= j < |s| && s[j] == c;
        assert Handled(e, t, anc, after, f, w, s[j], x, y, b);
      }
    }
  }

  /** The root's own level. */
  lemma HandledTop(e: Edge, t: map<Id, Node>, anc: map<Id, set<Id>>, after: map<Id, Node>, f: seq<Event>,
                   w: Id, x: int, y: int, b: nat)
    requires WellFormed(t, anc) && w in t && !t[w].hidden && after.Keys == t.Keys
    requires Level(t, w) && LevelDone(e, t, after, w, x, y, b) && Only(f, t[w].children) == Notices(e, t, w, x, y, b)
    ensures HandledAt(e, t, anc, after, f, w, w, x, y, b)
  {
    assert w in anc;
    assert Local(t, anc, w, w, x, y) == Point(x, y);
  }

  /** A handler sent to a hidden widget does nothing. */
  lemma HandledHidden(e: Edge, t: map<Id, Node>, anc: map<Id, set<Id>>, w: Id, x: int, y: int, b: nat)
    requires WellFormed(t, anc) && w in t && t[w].hidden
    ensures Handled(e, t, anc, t, [], w, w, x, y, b)
  {
    forall n | n in t && InSubtree(anc, n, w) ensures HandledAt(e, t, anc, t, [], w, n, x, y, b) {
      ChildrenFacts(t, anc, n);
      if Open(t, anc, w, n) {
        OpenRoot(t, anc, w, n);
      }
      OnlyNone([], t[n].children);
    }
  }

  /** One round of a parent's loop: the handler of child `i` went from
      `before` to `mid` firing `g`, and the parent's turn for it, which
      touched only `w` and the child's own fields, went on to `after`
      firing `h` to the child.  The child's subtree is now handled. */
  lemma ChildStepSelf(e: Edge, t: map<Id, Node>, anc: map<Id, set<Id>>, before: map<Id, Node>, mid: map<Id, Node>,
                      after: map<Id, Node>, w: Id, i: nat, x: int, y: int, b: nat,
                      f: seq<Event>, g: seq<Event>, h: seq<Event>)
    requires WellFormed(t, anc) && WellFormed(before, anc) && Level(t, w) && !t[w].hidden && i < |t[w].children|
    requires SameGeometry(t, before) && AgreeBelow(t, before, anc, t[w].children[i])
    requires mid.Keys == t.Keys && after.Keys == t.Keys
    requires var c := t[w].children[i];
      Handled(e, before, anc, mid, g, c, c, Rel(x, t[c].rect.x), Rel(y, t[c].rect.y), b)
    requires NotBelow(anc, f, t[w].children[i])
    requires forall n :: n in t && n != w && n != t[w].children[i] ==> after[n] == mid[n]
    requires after[t[w].children[i]].children == mid[t[w].children[i]].children
    requires forall k :: 0 <= k < |h| ==> h[k].target == t[w].children[i]
    ensures Handled(e, t, anc, after, f + g + h, w, t[w].children[i], x, y, b)
  {
    var s := t[w].children;
    var c := s[i];
    assert c in s;
    ChildrenFacts(t, anc, w);
    HandledLift(e, t, anc, before, mid, f, g, w, c, x, y, b);
    forall n | n in t && InSubtree(anc, n, c) ensures n != w {
      ChildSubtree(t, anc, w, c, n);
    }
    LevelTargetsNotBelow(t, anc, w, c, h);
    HandledFrame(e, t, anc, mid, after, f + g, h, w, c, x, y, b);
  }

  /** The same round keeps what earlier rounds did in the subtree of
      another child `j`. */
  lemma ChildStepOther(e: Edge, t: map<Id, Node>, anc: map<Id, set<Id>>, before: map<Id, Node>, mid: map<Id, Node>,
                       after: map<Id, Node>, w: Id, i: nat, j: nat, x: int, y: int, b: nat,
                       f: seq<Event>, g: seq<Event>, h: seq<Event>)
    requires WellFormed(t, anc) && Level(t, w) && i < |t[w].children| && j < |t[w].children| && i != j
    requires before.Keys == t.Keys && after.Keys == t.Keys
    requires Confined(anc, before, mid, t[w].children[i]) && Below(anc, t[w].children[i], g)
    requires forall n :: n in t && n != w && n != t[w].children[i] ==> after[n] == mid[n]
    requires forall k :: 0 <= k < |h| ==> h[k].target == t[w].children[i]
    requires Handled(e, t, anc, before, f, w, t[w].children[j], x, y, b)
    ensures Handled(e, t, anc, after, f + g + h, w, t[w].children[j], x, y, b)
  {
    ChildStepFrame(t, anc, before, mid, after, w, i, j, g, h);
    var d := t[w].children[j];
    NotBelowAppend(anc, g, h, d);
    assert f + g + h == f + (g + h);
    HandledFrame(e, t, anc, before, after, f, g + h, w, d, x, y, b);
  }

  /** The same round keeps a child `j` whose turn is still to come as the
      handler found it, with nothing fired below it. */
  lemma ChildStepFresh(t: map<Id, Node>, anc: map<Id, set<Id>>, before: map<Id, Node>, mid: map<Id, Node>,
                       after: map<Id, Node>, w: Id, i: nat, j: nat,
                       f: seq<Event>, g: seq<Event>, h: seq<Event>)
    requires WellFormed(t, anc) && Level(t, w) && i < |t[w].children| && j < |t[w].children| && i != j
    requires before.Keys == t.Keys && after.Keys == t.Keys
    requires Confined(anc, before, mid, t[w].children[i]) && Below(anc, t[w].children[i], g)
    requires forall n :: n in t && n != w && n != t[w].children[i] ==> after[n] == mid[n]
    requires forall k :: 0 <= k < |h| ==> h[k].target == t[w].children[i]
    requires AgreeBelow(t, before, anc, t[w].children[j]) && NotBelow(anc, f, t[w].children[j])
    ensures AgreeBelow(t, after, anc, t[w].children[j]) && NotBelow(anc, f + g + h, t[w].children[j])
  {
    ChildStepFrame(t, anc, before, mid, after, w, i, j, g, h);
    var d := t[w].children[j];
    NotBelowAppend(anc, g, h, d);
    NotBelowAppend(anc, f, g + h, d);
    assert f + g + h == f + (g + h);
  }

  /** The same round leaves the subtree of another child `j` as it was
      and fires nothing below it. */
  lemma ChildStepFrame(t: map<Id, Node>, anc: map<Id, set<Id>>, before: map<Id, Node>, mid: map<Id, Node>,
                       after: map<Id, Node>, w: Id, i: nat, j: nat, g: seq<Event>, h: seq<Event>)
    requires WellFormed(t, anc) && w in t && i < |t[w].children| && j < |t[w].children| && i != j
    requires before.Keys == t.Keys && after.Keys == t.Keys
    requires Confined(anc, before, mid, t[w].children[i]) && Below(anc, t[w].children[i], g)
    requires forall n :: n in t && n != w && n != t[w].children[i] ==> after[n] == mid[n]
    requires forall k :: 0 <= k < |h| ==> h[k].target == t[w].children[i]
    ensures forall n :: n in t && InSubtree(anc, n, t[w].children[j]) ==> after[n] == before[n]
    ensures NotBelow(anc, g, t[w].children[j]) && NotBelow(anc, h, t[w].children[j])
  {
    var s := t[w].children;
    var c, d := s[i], s[j];
    assert c in s && d in s;
    ChildrenFacts(t, anc, w);
    DistinctApart(s, i, j);
    forall n | n in t && InSubtree(anc, n, d) ensures after[n] == before[n] {
      SiblingsApart(t, anc, w, d, c, n);
      ChildSubtree(t, anc, w, d, n);
    }
    BelowSiblingNotBelow(t, anc, w, d, c, g);
    LevelTargetsNotBelow(t, anc, w, d, h);
  }

  // ---------------------------------------------------------------------
  // The second loop of `onMouseDown`

  /** The second loop of `onMouseDown` notifies only children of `w`. */
  lemma SelectionTargets(d: map<Id, Node>, w: Id, k: Option<nat>, x: int, y: int, b: nat)
    requires Level(d, w) && (k.Some? ==> k.value < |d[w].children|)
    ensures var g := SelectionFired(d, w, k, x, y, b);
      forall j :: 0 <= j < |g| ==> g[j].target in d[w].children
  {
    if k.Some? {
      var s := d[w].children;
      var i := k.value;
      var r := FocusAt(s, i);
      assert s[i] in s && s[|s| - 1] in s;
      assert forall j :: 0 <= j < |r.fired| ==> r.fired[j].target in s;
    }
  }

  /** The second loop of `onMouseDown` touches `w` and the child it takes,
      and that child only in its press state. */
  lemma SelectionFrame(t: map<Id, Node>, anc: map<Id, set<Id>>, d: map<Id, Node>, w: Id, k: Option<nat>, b: nat, c: Id)
    requires WellFormed(t, anc) && Level(d, w) && w in t && d[w].children == t[w].children && c in t[w].children
    requires d.Keys == t.Keys && (k.Some? ==> k.value < |d[w].children|)
    ensures var a2 := Selection(d, w, k, b);
      && a2.Keys == d.Keys
      && (forall n :: n in t && InSubtree(anc, n, c) ==> a2[n].children == d[n].children)
      && (forall n :: n in t && InSubtree(anc, n, c) && n != c ==> a2[n] == d[n])
  {
    var s := d[w].children;
    forall n | n in t && InSubtree(anc, n, c) ensures n != w {
      ChildSubtree(t, anc, w, c, n);
    }
    if k.Some? {
      var m := s[k.value];
      assert m in s;
      LevelNotBelow(t, anc, w, c, m);
    }
  }

  /** The second loop of `onMouseDown` keeps what the first did below
      child `j`. */
  lemma SelectionChild(t: map<Id, Node>, anc: map<Id, set<Id>>, d: map<Id, Node>, w: Id, k: Option<nat>,
                       x: int, y: int, b: nat, f: seq<Event>, j: nat)
    requires WellFormed(t, anc) && Level(t, w) && d.Keys == t.Keys && j < |t[w].children|
    requires Level(d, w) && d[w].children == t[w].children && (k.Some? ==> k.value < |t[w].children|)
    requires Handled(Down, t, anc, d, f, w, t[w].children[j], x, y, b)
    ensures Handled(Down, t, anc, Selection(d, w, k, b), f + SelectionFired(d, w, k, x, y, b), w, t[w].children[j], x, y, b)
  {
    var c := t[w].children[j];
    var g := SelectionFired(d, w, k, x, y, b);
    assert c in t[w].children;
    SelectionTargets(d, w, k, x, y, b);
    SelectionFrame(t, anc, d, w, k, b, c);
    LevelTargetsNotBelow(t, anc, w, c, g);
    HandledFrame(Down, t, anc, d, Selection(d, w, k, b), f, g, w, c, x, y, b);
  }

  /** After both loops of `onMouseDown` on a visible `w`, the whole subtree
      of `w` is handled, given that the first loop handled each child's. */
  lemma SelectionHandled(t: map<Id, Node>, anc: map<Id, set<Id>>, d: map<Id, Node>, w: Id, k: Option<nat>,
                         x: int, y: int, b: nat, f: seq<Event>)
    requires WellFormed(t, anc) && Level(t, w) && !t[w].hidden && d.Keys == t.Keys
    requires Level(d, w) && d[w].children == t[w].children && (k.Some? ==> k.value < |t[w].children|)
    requires forall j :: 0 <= j < |t[w].children| ==> Handled(Down, t, anc, d, f, w, t[w].children[j], x, y, b)
    requires Present(Selection(d, w, k, b), t[w].children) && PressedLevel(t, Selection(d, w, k, b), w, x, y, b)
    requires Only(f + SelectionFired(d, w, k, x, y, b), t[w].children) == PressNotices(t, w, x, y, b)
    ensures Selection(d, w, k, b).Keys == t.Keys
    ensures Handled(Down, t, anc, Selection(d, w, k, b), f + SelectionFired(d, w, k, x, y, b), w, w, x, y, b)
  {
    var s := t[w].children;
    var a2 := Selection(d, w, k, b);
    var g := SelectionFired(d, w, k, x, y, b);
    forall j | 0 <= j < |s| ensures Handled(Down, t, anc, a2, f + g, w, s[j], x, y, b) {
      SelectionChild(t, anc, d, w, k, x, y, b, f, j);
    }
    HandledTop(Down, t, anc, a2, f + g, w, x, y, b);
    HandledJoin(Down, t, anc, a2, f + g, w, x, y, b);
  }

  // ---------------------------------------------------------------------
  // The parents' loops

  /** One round keeps the children in `[lo, hi)` other than `i` handled. */
  lemma RoundKeepsHandled(e: Edge, t: map<Id, Node>, anc: map<Id, set<Id>>, before: map<Id, Node>, mid: map<Id, Node>,
                          after: map<Id, Node>, w: Id, i: nat, lo: nat, hi: nat, x: int, y: int, b: nat,
                          f: seq<Event>, g: seq<Event>, h: seq<Event>)
    requires WellFormed(t, anc) && Level(t, w) && i < |t[w].children| && hi <= |t[w].children|
    requires before.Keys == t.Keys && after.Keys == t.Keys
    requires Confined(anc, before, mid, t[w].children[i]) && Below(anc, t[w].children[i], g)
    requires forall n :: n in t && n != w && n != t[w].children[i] ==> after[n] == mid[n]
    requires forall k :: 0 <= k < |h| ==> h[k].target == t[w].children[i]
    requires forall j :: lo <= j < hi && j != i ==> Handled(e, t, anc, before, f, w, t[w].children[j], x, y, b)
    ensures forall j :: lo <= j < hi && j != i ==> Handled(e, t, anc, after, f + g + h, w, t[w].children[j], x, y, b)
  {
    forall j | lo <= j < hi && j != i ensures Handled(e, t, anc, after, f + g + h, w, t[w].children[j], x, y, b) {
      ChildStepOther(e, t, anc, before, mid, after, w, i, j, x, y, b, f, g, h);
    }
  }

  /** One round keeps the children in `[lo, hi)` other than `i` untouched
      and unheard below. */
  lemma RoundKeepsFresh(t: map<Id, Node>, anc: map<Id, set<Id>>, before: map<Id, Node>, mid: map<Id, Node>,
                        after: map<Id, Node>, w: Id, i: nat, lo: nat, hi: nat,
                        f: seq<Event>, g: seq<Event>, h: seq<Event>)
    requires WellFormed(t, anc) && Level(t, w) && i < |t[w].children| && hi <= |t[w].children|
    requires before.Keys == t.Keys && after.Keys == t.Keys
    requires Confined(anc, before, mid, t[w].children[i]) && Below(anc, t[w].children[i], g)
    requires forall n :: n in t && n != w && n != t[w].children[i] ==> after[n] == mid[n]
    requires forall k :: 0 <= k < |h| ==> h[k].target == t[w].children[i]
    requires forall j :: lo <= j < hi && j != i ==>
      AgreeBelow(t, before, anc, t[w].children[j]) && NotBelow(anc, f, t[w].children[j])
    ensures forall j :: lo <= j < hi && j != i ==>
      AgreeBelow(t, after, anc, t[w].children[j]) && NotBelow(anc, f + g + h, t[w].children[j])
  {
    forall j | lo <= j < hi && j != i
      ensures AgreeBelow(t, after, anc, t[w].children[j]) && NotBelow(anc, f + g + h, t[w].children[j])
    {
      ChildStepFresh(t, anc, before, mid, after, w, i, j, f, g, h);
    }
  }

  /** One round of the first loop of `onMouseDown` on `w`, which visits the
      children from the back: child `i` went from `before` to `mid` firing
      `g`.  The children from `i` on are handled; those before it are as
      the handler found them. */
  lemma PressRound(t: map<Id, Node>, anc: map<Id, set<Id>>, before: map<Id, Node>, mid: map<Id, Node>,
                   w: Id, i: nat, x: int, y: int, b: nat, f: seq<Event>, g: seq<Event>)
    requires WellFormed(t, anc) && WellFormed(before, anc) && Level(t, w) && !t[w].hidden && i < |t[w].children|
    requires SameGeometry(t, before) && mid.Keys == t.Keys
    requires Confined(anc, before, mid, t[w].children[i]) && Below(anc, t[w].children[i], g)
    requires var c := t[w].children[i];
      Handled(Down, before, anc, mid, g, c, c, Rel(x, t[c].rect.x), Rel(y, t[c].rect.y), b)
    requires forall j :: i < j < |t[w].children| ==> Handled(Down, t, anc, before, f, w, t[w].children[j], x, y, b)
    requires forall j :: 0 <= j <= i ==>
      AgreeBelow(t, before, anc, t[w].children[j]) && NotBelow(anc, f, t[w].children[j])
    ensures forall j :: i <= j < |t[w].children| ==> Handled(Down, t, anc, mid, f + g, w, t[w].children[j], x, y, b)
    ensures forall j :: 0 <= j < i ==>
      AgreeBelow(t, mid, anc, t[w].children[j]) && NotBelow(anc, f + g, t[w].children[j])
  {
    var none: seq<Event> := [];
    assert f + g + none == f + g;
    ChildStepSelf(Down, t, anc, before, mid, mid, w, i, x, y, b, f, g, none);
    RoundKeepsHandled(Down, t, anc, before, mid, mid, w, i, i + 1, |t[w].children|, x, y, b, f, g, none);
    RoundKeepsFresh(t, anc, before, mid, mid, w, i, 0, i, f, g, none);
  }

  /** The whole of one round of the first loop of `onMouseDown` on `w`:
      what the loop knows before child `i`'s handler ran from `before` to
      `after` firing `g` it knows again after it, one child further. */
  lemma PressStep(t: map<Id, Node>, anc: map<Id, set<Id>>, before: map<Id, Node>, after: map<Id, Node>,
                  w: Id, i: nat, x: int, y: int, b: nat, f: seq<Event>, g: seq<Event>)
    requires WellFormed(t, anc) && WellFormed(before, anc) && Level(t, w) && !t[w].hidden && i < |t[w].children|
    requires SameGeometry(t, before) && before[w] == t[w].(testInsideChild := false)
    requires forall n :: n in t && !InSubtree(anc, n, w) ==> before[n] == t[n]
    requires forall j :: 0 <= j <= i ==> before[t[w].children[j]] == t[t[w].children[j]]
    requires forall j :: i < j < |t[w].children| ==> Settled(t, before, t[w].children[j], x, y)
    requires Below(anc, w, f) && Only(f, t[w].children) == []
    requires forall j :: i < j < |t[w].children| ==> Handled(Down, t, anc, before, f, w, t[w].children[j], x, y, b)
    requires forall j :: 0 <= j <= i ==>
      AgreeBelow(t, before, anc, t[w].children[j]) && NotBelow(anc, f, t[w].children[j])
    requires var c := t[w].children[i];
      && Confined(anc, before, after, c)
      && after[c].down == before[c].down && after[c].downBtn == before[c].downBtn
      && after[c].testInsideChild == ClaimsPress(before, c, Rel(x, before[c].rect.x), Rel(y, before[c].rect.y))
      && Below(anc, c, g)
      && Handled(Down, before, anc, after, g, c, c, Rel(x, before[c].rect.x), Rel(y, before[c].rect.y), b)
    ensures SameGeometry(t, after) && after[w] == t[w].(testInsideChild := false)
    ensures forall n :: n in t && !InSubtree(anc, n, w) ==> after[n] == t[n]
    ensures forall j :: 0 <= j < i ==> after[t[w].children[j]] == t[t[w].children[j]]
    ensures forall j :: i <= j < |t[w].children| ==> Settled(t, after, t[w].children[j], x, y)
    ensures Below(anc, w, f + g) && Only(f + g, t[w].children) == []
    ensures forall j :: i <= j < |t[w].children| ==> Handled(Down, t, anc, after, f + g, w, t[w].children[j], x, y, b)
    ensures forall j :: 0 <= j < i ==>
      AgreeBelow(t, after, anc, t[w].children[j]) && NotBelow(anc, f + g, t[w].children[j])
  {
    var c := t[w].children[i];
    assert c in t[w].children;
    assert before[c] == t[c];
    PressedChild(t, anc, before, after, w, i, x, y);
    ExtendBelow(t, anc, w, c, f, g);
    PressRound(t, anc, before, after, w, i, x, y, b, f, g);
  }

  /** One round of the loop of `onMouseUp` on `w`, which visits the
      children from the front: child `i` went from `before` to `mid` firing
      `g`, and the parent's turn for it went on to `after` firing `h` to the
      child.  The children up to `i` are handled; those after it are as the
      handler found them. */
  lemma ReleaseRound(t: map<Id, Node>, anc: map<Id, set<Id>>, before: map<Id, Node>, mid: map<Id, Node>,
                     after: map<Id, Node>, w: Id, i: nat, x: int, y: int, b: nat,
                     f: seq<Event>, g: seq<Event>, h: seq<Event>)
    requires WellFormed(t, anc) && WellFormed(before, anc) && Level(t, w) && !t[w].hidden && i < |t[w].children|
    requires SameGeometry(t, before) && mid.Keys == t.Keys && after.Keys == t.Keys
    requires Confined(anc, before, mid, t[w].children[i]) && Below(anc, t[w].children[i], g)
    requires var c := t[w].children[i];
      Handled(Up, before, anc, mid, g, c, c, Rel(x, t[c].rect.x), Rel(y, t[c].rect.y), b)
    requires forall n :: n in t && n != w && n != t[w].children[i] ==> after[n] == mid[n]
    requires after[t[w].children[i]].children == mid[t[w].children[i]].children
    requires forall k :: 0 <= k < |h| ==> h[k].target == t[w].children[i]
    requires forall j :: 0 <= j < i ==> Handled(Up, t, anc, before, f, w, t[w].children[j], x, y, b)
    requires forall j :: i <= j < |t[w].children| ==>
      AgreeBelow(t, before, anc, t[w].children[j]) && NotBelow(anc, f, t[w].children[j])
    ensures forall j :: 0 <= j <= i ==> Handled(Up, t, anc, after, f + g + h, w, t[w].children[j], x, y, b)
    ensures forall j :: i < j < |t[w].children| ==>
      AgreeBelow(t, after, anc, t[w].children[j]) && NotBelow(anc, f + g + h, t[w].children[j])
  {
    ChildStepSelf(Up, t, anc, before, mid, after, w, i, x, y, b, f, g, h);
    RoundKeepsHandled(Up, t, anc, before, mid, after, w, i, 0, i, x, y, b, f, g, h);
    RoundKeepsFresh(t, anc, before, mid, after, w, i, i + 1, |t[w].children|, f, g, h);
  }

  /** The parent's turn in the loop of `onMouseUp` touches only `w` and the
      press state of `c`, and notifies only `c`. */
  lemma ReleasedFrame(m: map<Id, Node>, w: Id, c: Id, x: int, y: int, b: nat)
    requires w in m && c in m
    ensures var r := Released(m, w, c, x, y, b);
      && r.Keys == m.Keys && r[c].children == m[c].children
      && forall n :: n in m && n != w && n != c ==> r[n] == m[n]
    ensures var h := ReleaseFired(m, c, x, y, b);
      forall k :: 0 <= k < |h| ==> h[k].target == c
  {
  }

  /** `mouseDown` and `mouseUp` change the root's own press state after
      its handler and notify the root itself; the handler's work in the
      subtree stays as it was. */
  lemma RootFrame(e: Edge, t: map<Id, Node>, anc: map<Id, set<Id>>, mid: map<Id, Node>, after: map<Id, Node>,
                  f: seq<Event>, g: seq<Event>, w: Id, x: int, y: int, b: nat)
    requires WellFormed(t, anc) && w in t && mid.Keys == t.Keys && after.Keys == t.Keys
    requires after[w].children == mid[w].children && forall n :: n in t && n != w ==> after[n] == mid[n]
    requires forall k :: 0 <= k < |g| ==> g[k].target == w
    requires Handled(e, t, anc, mid, f, w, w, x, y, b)
    ensures Handled(e, t, anc, after, f + g, w, w, x, y, b)
  {
    RootTargetsNotBelow(anc, w, g);
    HandledFrame(e, t, anc, mid, after, f, g, w, w, x, y, b);
  }

  /** `mouseUp` drops the root's hold after its handler and notifies the
      root as `RootReleaseFired` says. */
  lemma RootReleaseHandled(t: map<Id, Node>, anc: map<Id, set<Id>>, mid: map<Id, Node>, f: seq<Event>,
                           w: Id, x: int, y: int, b: nat)
    requires WellFormed(t, anc) && w in t && mid.Keys == t.Keys
    requires Handled(Up, t, anc, mid, f, w, w, x, y, b)
    ensures var after := if mid[w].down && mid[w].downBtn == b then mid[w := mid[w].(down := false)] else mid;
      Handled(Up, t, anc, after, f + RootReleaseFired(t, w, x, y, b), w, w, x, y, b)
  {
    var after := if mid[w].down && mid[w].downBtn == b then mid[w := mid[w].(down := false)] else mid;
    RootFrame(Up, t, anc, mid, after, f, RootReleaseFired(t, w, x, y, b), w, x, y, b);
  }
}
