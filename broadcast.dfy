/** The handlers that only pass a signal down the tree: `onMouseWheel`,
    `onKeyDown`, `onKeyUp`, `onKeyText` (include/Widget.hpp:725-780) and
    `onDraw` (603-618).  Each is logged as `Signalled` when it reaches a
    widget; the draw signal stops at hidden widgets.  The recursive handler
    is `Widget.Arena.Dispatch`. */
module Broadcasts {
  import opened Seqs
  import opened Tree
  import opened HitTest
  import opened Motion

  /** The draw signal is not passed to a hidden widget, and a hidden widget
      sent it passes it on to nobody; the other signals ignore `m_hidden`. */
  predicate Skips(nodes: map<Id, Node>, c: Id, sig: Signal)
    requires c in nodes
  {
    sig.Draw? && nodes[c].hidden
  }

  /** The rect offset of `c` that translates a signal passed to it. */
  function Offset(nodes: map<Id, Node>, c: Id): Point
    requires c in nodes
  {
    Point(nodes[c].rect.x, nodes[c].rect.y)
  }

  /** Translating a signal keeps its kind. */
  lemma TranslateKeepsKind(s: Signal, o: Point)
    ensures Translate(s, o).Draw? == s.Draw? && Translate(s, o).Wheel? == s.Wheel?
    ensures !s.Draw? && !s.Wheel? ==> Translate(s, o) == s
  {
  }

  /** The events the handler fires when `w` is sent `sig` in arena `t`. */
  ghost function Broadcast(t: map<Id, Node>, anc: map<Id, set<Id>>, w: Id, sig: Signal): seq<Event>
    requires WellFormed(t, anc) && w in t
    decreases t.Keys - anc[w], 1
  {
    [Signalled(w, sig)] + if Skips(t, w, sig) then [] else BroadcastAll(t, anc, w, sig, |t[w].children|)
  }

  /** The events the loop of that handler fires for the first `i` children. */
  ghost function BroadcastAll(t: map<Id, Node>, anc: map<Id, set<Id>>, w: Id, sig: Signal, i: nat): seq<Event>
    requires WellFormed(t, anc) && w in t && i <= |t[w].children|
    decreases t.Keys - anc[w], 0, i
  {
    if i == 0 then []
    else
      var c := t[w].children[i - 1];
      assert c in t[w].children;
      ChildMeasure(t, anc, w, c);
      BroadcastAll(t, anc, w, sig, i - 1) + if Skips(t, c, sig) then [] else Broadcast(t, anc, c, Translate(sig, Offset(t, c)))
  }

  /** The signal as it arrives at `n` when `w` is sent `sig`. */
  ghost function SignalAt(t: map<Id, Node>, anc: map<Id, set<Id>>, w: Id, n: Id, sig: Signal): Signal
    requires WellFormed(t, anc) && n in t && InSubtree(anc, n, w)
    decreases anc[n]
  {
    if n == w then sig
    else
      ParentStep(t, anc, w, n);
      Translate(SignalAt(t, anc, w, t[n].parent.value, sig), Offset(t, n))
  }

  /** Whether the signal sent to `w` arrives at `n`: `n` is `w`, or its
      parent receives it, passes it on and does not skip `n`. */
  ghost predicate Reached(t: map<Id, Node>, anc: map<Id, set<Id>>, w: Id, n: Id, sig: Signal)
    requires WellFormed(t, anc) && n in t && InSubtree(anc, n, w)
    decreases anc[n]
  {
    n == w ||
      (ParentStep(t, anc, w, n);
       var p := t[n].parent.value;
       Reached(t, anc, w, p, sig) && !Skips(t, p, sig) && !Skips(t, n, sig))
  }

  /** Seen from child `c` of `w`, sent the signal translated by its
      offset, a widget below `c` receives the same signal, and it is
      reached from `w` exactly when `w` passes the signal on, does not skip
      `c`, and it is reached from `c`. */
  lemma {:induction false} ReachChild(t: map<Id, Node>, anc: map<Id, set<Id>>, w: Id, c: Id, n: Id, sig: Signal)
    requires WellFormed(t, anc) && w in t && c in t[w].children && n in t && InSubtree(anc, n, c)
    ensures c in t && InSubtree(anc, n, w)
    ensures SignalAt(t, anc, c, n, Translate(sig, Offset(t, c))) == SignalAt(t, anc, w, n, sig)
    ensures Reached(t, anc, w, n, sig) <==>
      !Skips(t, w, sig) && !Skips(t, c, sig) && Reached(t, anc, c, n, Translate(sig, Offset(t, c)))
    decreases anc[n]
  {
    ChildSubtree(t, anc, w, c, n);
    ChildAncestors(t, anc, w, c);
    TranslateKeepsKind(sig, Offset(t, c));
    if n == c {
      assert SignalAt(t, anc, w, w, sig) == sig;
      assert Reached(t, anc, w, w, sig);
    } else {
      ParentStep(t, anc, c, n);
      ReachChild(t, anc, w, c, t[n].parent.value, sig);
    }
  }

  /** Nothing below a widget that does not pass the signal on is reached. */
  lemma {:induction false} ReachedBelowPasses(t: map<Id, Node>, anc: map<Id, set<Id>>, w: Id, n: Id, sig: Signal)
    requires WellFormed(t, anc) && n in t && InSubtree(anc, n, w) && n != w
    requires Reached(t, anc, w, n, sig)
    ensures w in t && !Skips(t, w, sig)
    decreases anc[n]
  {
    ParentStep(t, anc, w, n);
    var p := t[n].parent.value;
    if p != w {
      ReachedBelowPasses(t, anc, w, p, sig);
    }
  }

  /** `n` lies in the subtree of one of the first `i` children of `w`. */
  ghost predicate UnderFirst(t: map<Id, Node>, anc: map<Id, set<Id>>, w: Id, n: Id, i: nat)
    requires w in t && i <= |t[w].children|
  {
    exists j :: 0 <= j < i && InSubtree(anc, n, t[w].children[j])
  }

  /** The handler sent `sig` at `w` signals exactly the widgets the signal
      reaches, each with the signal as it arrives there. */
  lemma {:induction false} BroadcastHas(t: map<Id, Node>, anc: map<Id, set<Id>>, w: Id, sig: Signal)
    requires WellFormed(t, anc) && w in t
    ensures forall e :: e in Broadcast(t, anc, w, sig) ==>
      e.Signalled? && e.target in t && InSubtree(anc, e.target, w) &&
      Reached(t, anc, w, e.target, sig) && e.signal == SignalAt(t, anc, w, e.target, sig)
    ensures forall n :: n in t && InSubtree(anc, n, w) && Reached(t, anc, w, n, sig) ==>
      Signalled(n, SignalAt(t, anc, w, n, sig)) in Broadcast(t, anc, w, sig)
    decreases t.Keys - anc[w], 1
  {
    var r := Broadcast(t, anc, w, sig);
    assert InSubtree(anc, w, w);
    assert Reached(t, anc, w, w, sig) && SignalAt(t, anc, w, w, sig) == sig;
    if Skips(t, w, sig) {
      assert r == [Signalled(w, sig)];
      forall n | n in t && InSubtree(anc, n, w) && Reached(t, anc, w, n, sig) ensures n == w {
        if n != w {
          ReachedBelowPasses(t, anc, w, n, sig);
        }
      }
    } else {
      var s := t[w].children;
      BroadcastAllHas(t, anc, w, sig, |s|);
      forall n | n in t && InSubtree(anc, n, w) && n != w ensures UnderFirst(t, anc, w, n, |s|) {
        var c := UnderSomeChild(t, anc, w, n);
        var j :| 0 <= j < |s| && s[j] == c;
      }
    }
  }

  /** The loop over the first `i` children, when `w` passes the signal on,
      signals exactly the widgets the signal reaches below those children. */
  lemma {:induction false} BroadcastAllHas(t: map<Id, Node>, anc: map<Id, set<Id>>, w: Id, sig: Signal, i: nat)
    requires WellFormed(t, anc) && w in t && i <= |t[w].children| && !Skips(t, w, sig)
    ensures forall e :: e in BroadcastAll(t, anc, w, sig, i) ==>
      e.Signalled? && e.target in t && InSubtree(anc, e.target, w) && UnderFirst(t, anc, w, e.target, i) &&
      Reached(t, anc, w, e.target, sig) && e.signal == SignalAt(t, anc, w, e.target, sig)
    ensures forall n :: n in t && InSubtree(anc, n, w) && UnderFirst(t, anc, w, n, i) && Reached(t, anc, w, n, sig) ==>
      Signalled(n, SignalAt(t, anc, w, n, sig)) in BroadcastAll(t, anc, w, sig, i)
    decreases t.Keys - anc[w], 0, i
  {
    if i > 0 {
      var s := t[w].children;
      var c := s[i - 1];
      assert c in s;
      ChildMeasure(t, anc, w, c);
      BroadcastAllHas(t, anc, w, sig, i - 1);
      var sc := Translate(sig, Offset(t, c));
      var tail := if Skips(t, c, sig) then [] else Broadcast(t, anc, c, sc);
      assert BroadcastAll(t, anc, w, sig, i) == BroadcastAll(t, anc, w, sig, i - 1) + tail;
      if !Skips(t, c, sig) {
        BroadcastHas(t, anc, c, sc);
      }
      forall e | e in tail
        ensures e.Signalled? && e.target in t && InSubtree(anc, e.target, w) && UnderFirst(t, anc, w, e.target, i) &&
          Reached(t, anc, w, e.target, sig) && e.signal == SignalAt(t, anc, w, e.target, sig)
      {
        ReachChild(t, anc, w, c, e.target, sig);
      }
      forall e | e in BroadcastAll(t, anc, w, sig, i - 1) ensures UnderFirst(t, anc, w, e.target, i) {
        var j :| 0 <= j < i - 1 && InSubtree(anc, e.target, s[j]);
      }
      forall n | n in t && InSubtree(anc, n, w) && UnderFirst(t, anc, w, n, i) && Reached(t, anc, w, n, sig)
        ensures Signalled(n, SignalAt(t, anc, w, n, sig)) in BroadcastAll(t, anc, w, sig, i)
      {
        if !UnderFirst(t, anc, w, n, i - 1) {
          var j :| 0 <= j < i && InSubtree(anc, n, s[j]);
          assert j == i - 1;
          ReachChild(t, anc, w, c, n, sig);
        }
      }
    }
  }

  // ---------------------------------------------------------------------
  // Each widget once

  /** No two events of `evs` go to the same widget. */
  ghost predicate Once(evs: seq<Event>) {
    forall i, j :: 0 <= i < j < |evs| ==> evs[i].target != evs[j].target
  }

  lemma OnceAppend(a: seq<Event>, b: seq<Event>)
    requires Once(a) && Once(b)
    requires forall e, f :: e in a && f in b ==> e.target != f.target
    ensures Once(a + b)
  {
    var r := a + b;
    forall i, j | 0 <= i < j < |r| ensures r[i].target != r[j].target {
      if j < |a| {
        assert r[i] == a[i] && r[j] == a[j];
      } else if i >= |a| {
        assert r[i] == b[i - |a|] && r[j] == b[j - |a|];
      } else {
        assert r[i] == a[i] && r[j] == b[j - |a|];
        assert r[i] in a && r[j] in b;
      }
    }
  }

  /** The handler signals every widget at most once. */
  lemma {:induction false} BroadcastOnce(t: map<Id, Node>, anc: map<Id, set<Id>>, w: Id, sig: Signal)
    requires WellFormed(t, anc) && w in t
    ensures Once(Broadcast(t, anc, w, sig))
    decreases t.Keys - anc[w], 1
  {
    if !Skips(t, w, sig) {
      var s := t[w].children;
      var rest := BroadcastAll(t, anc, w, sig, |s|);
      BroadcastAllOnce(t, anc, w, sig, |s|);
      BroadcastAllHas(t, anc, w, sig, |s|);
      forall e, f | e in [Signalled(w, sig)] && f in rest ensures e.target != f.target {
        var j :| 0 <= j < |s| && InSubtree(anc, f.target, s[j]);
        assert s[j] in s;
        ChildSubtree(t, anc, w, s[j], f.target);
      }
      OnceAppend([Signalled(w, sig)], rest);
    }
  }

  /** The same for the loop over the first `i` children. */
  lemma {:induction false} BroadcastAllOnce(t: map<Id, Node>, anc: map<Id, set<Id>>, w: Id, sig: Signal, i: nat)
    requires WellFormed(t, anc) && w in t && i <= |t[w].children| && !Skips(t, w, sig)
    ensures Once(BroadcastAll(t, anc, w, sig, i))
    decreases t.Keys - anc[w], 0, i
  {
    if i > 0 {
      var s := t[w].children;
      var c := s[i - 1];
      assert c in s;
      ChildMeasure(t, anc, w, c);
      var head := BroadcastAll(t, anc, w, sig, i - 1);
      var sc := Translate(sig, Offset(t, c));
      var tail := if Skips(t, c, sig) then [] else Broadcast(t, anc, c, sc);
      assert BroadcastAll(t, anc, w, sig, i) == head + tail;
      BroadcastAllOnce(t, anc, w, sig, i - 1);
      BroadcastAllHas(t, anc, w, sig, i - 1);
      if !Skips(t, c, sig) {
        BroadcastOnce(t, anc, c, sc);
        BroadcastHas(t, anc, c, sc);
      }
      forall e, f | e in head && f in tail ensures e.target != f.target {
        var j :| 0 <= j < i - 1 && InSubtree(anc, e.target, s[j]);
        assert s[j] in s;
        DistinctApart(s, j, i - 1);
        SiblingsApart(t, anc, w, s[j], c, e.target);
      }
      OnceAppend(head, tail);
    }
  }

  // ---------------------------------------------------------------------
  // Who is reached, and with what

  /** Every signal but the draw signal reaches the whole subtree. */
  lemma {:induction false} NonDrawReachesAll(t: map<Id, Node>, anc: map<Id, set<Id>>, w: Id, n: Id, sig: Signal)
    requires WellFormed(t, anc) && n in t && InSubtree(anc, n, w) && !sig.Draw?
    ensures Reached(t, anc, w, n, sig)
    decreases anc[n]
  {
    if n != w {
      ParentStep(t, anc, w, n);
      NonDrawReachesAll(t, anc, w, t[n].parent.value, sig);
    }
  }

  /** The draw signal sent to `w` reaches `n` exactly when `n` is `w` or no
      widget on the path from `n` up to `w`, both included, is hidden. */
  lemma {:induction false} DrawReachesVisible(t: map<Id, Node>, anc: map<Id, set<Id>>, w: Id, n: Id, sx: int, sy: int)
    requires WellFormed(t, anc) && n in t && InSubtree(anc, n, w)
    ensures Reached(t, anc, w, n, Draw(sx, sy)) <==>
      n == w || forall a :: a in t && OnPath(anc, n, a) && InSubtree(anc, a, w) ==> !t[a].hidden
    decreases anc[n]
  {
    if n != w {
      ParentStep(t, anc, w, n);
      var p := t[n].parent.value;
      assert AncestorsOf(t, anc, n);
      assert anc[n] == {p} + anc[p];
      DrawReachesVisible(t, anc, w, p, sx, sy);
      if p == w {
        forall a | a in t && OnPath(anc, n, a) && InSubtree(anc, a, w) ensures a == n || a == w {
        }
        assert OnPath(anc, n, w);
      } else {
        forall a | a in t && OnPath(anc, n, a) && a != n ensures OnPath(anc, p, a) {
        }
        assert OnPath(anc, n, p);
      }
    }
  }

  /** A wheel signal arrives at `n` with the point `n` sees: the same one
      `onMouseMove` records there. */
  lemma {:induction false} WheelAt(t: map<Id, Node>, anc: map<Id, set<Id>>, w: Id, n: Id, x: int, y: int, d: int)
    requires WellFormed(t, anc) && n in t && InSubtree(anc, n, w)
    ensures var q := Local(t, anc, w, n, x, y);
      SignalAt(t, anc, w, n, Wheel(x, y, d)) == Wheel(q.x, q.y, d)
    decreases anc[n]
  {
    if n != w {
      ParentStep(t, anc, w, n);
      WheelAt(t, anc, w, t[n].parent.value, x, y, d);
    }
  }

  /** A draw signal arrives at `n` with the screen position of `w` plus the
      offsets of the widgets below `w` down to `n`, which is the opposite of
      the point `n` sees when `w` sees the origin. */
  lemma {:induction false} DrawAt(t: map<Id, Node>, anc: map<Id, set<Id>>, w: Id, n: Id, sx: int, sy: int)
    requires WellFormed(t, anc) && n in t && InSubtree(anc, n, w)
    ensures var q := Local(t, anc, w, n, 0, 0);
      SignalAt(t, anc, w, n, Draw(sx, sy)) == Draw(sx - q.x, sy - q.y)
    decreases anc[n]
  {
    if n != w {
      ParentStep(t, anc, w, n);
      DrawAt(t, anc, w, t[n].parent.value, sx, sy);
    }
  }

  /** A key signal arrives everywhere unchanged. */
  lemma {:induction false} KeyAt(t: map<Id, Node>, anc: map<Id, set<Id>>, w: Id, n: Id, sig: Signal)
    requires WellFormed(t, anc) && n in t && InSubtree(anc, n, w) && !sig.Draw? && !sig.Wheel?
    ensures SignalAt(t, anc, w, n, sig) == sig
    decreases anc[n]
  {
    if n != w {
      ParentStep(t, anc, w, n);
      KeyAt(t, anc, w, t[n].parent.value, sig);
    }
  }
}
