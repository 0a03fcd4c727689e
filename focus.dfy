/** Positional focus: the reordering that `setFocus(idx)`, `setFocus(ptr)`
    and `popFocus` perform on a child list (include/Widget.hpp:275-322,
    382-398), the notifications they fire, and the pointer variant as the
    source writes it next to the variant that behaves like `setFocus(idx)`. */
module Focus {
  import opened Wrappers
  import opened Seqs
  import opened Tree
  import opened HitTest

  /** A new child order and the focus notifications fired, in order. */
  datatype Refocus = Refocus(order: seq<Id>, fired: seq<Event>)

  /** `setFocus(idx)`: nothing happens for an index out of range or for the
      child that is already at the back; otherwise that child moves to the
      back, the others keep their relative order, the previous back child
      loses focus and then the target gains it. */
  function FocusAt(s: seq<Id>, idx: nat): (r: Refocus)
    requires Distinct(s)
    ensures Distinct(r.order)
    ensures idx >= |s| || idx == |s| - 1 ==> r == Refocus(s, [])
    ensures idx < |s| - 1 ==>
      && r.order == MoveToBack(s, idx)
      && r.order[|s| - 1] == s[idx]
      && r.fired == [FocusLost(s[|s| - 1]), FocusGained(s[idx])]
  {
    if idx >= |s| then Refocus(s, [])
    else
      var w := s[idx];
      if w == s[|s| - 1] then Refocus(s, [])
      else
        var t := MoveToBack(s, idx);
        MoveToBackMembers(s, idx);
        Refocus(t, [FocusLost(t[|t| - 2]), FocusGained(w)])
  }

  /** `setFocus(idx)` only rearranges the children. */
  lemma FocusAtPermutes(s: seq<Id>, idx: nat)
    requires Distinct(s)
    ensures multiset(FocusAt(s, idx).order) == multiset(s)
  {
    if idx < |s| - 1 {
      MoveToBackPermutes(s, idx);
    }
  }

  /** The reordering of `setFocus(idx)` keeps the arena well formed, and the
      child it tests is focused exactly when it is already at the back. */
  lemma FocusAtKeepsTree(nodes: map<Id, Node>, anc: map<Id, set<Id>>, p: Id, idx: nat)
    requires WellFormed(nodes, anc) && p in nodes
    ensures Level(nodes, p)
    ensures WellFormed(nodes[p := nodes[p].(children := FocusAt(nodes[p].children, idx).order)], anc)
    ensures var s := nodes[p].children;
      idx < |s| ==> (IsFocusedChild(nodes, s[idx]) <==> idx == |s| - 1)
  {
    ChildrenFacts(nodes, anc, p);
    var s := nodes[p].children;
    if idx < |s| {
      assert s[idx] in s && s[|s| - 1] in s;
      if idx < |s| - 1 {
        DistinctApart(s, idx, |s| - 1);
      }
    }
    if idx < |s| - 1 {
      MoveToBackMembers(s, idx);
      ReorderKeepsTree(nodes, anc, p, FocusAt(s, idx).order);
    } else {
      assert nodes[p := nodes[p].(children := FocusAt(s, idx).order)] == nodes;
    }
  }

  /** `setFocus(ptr)` with the test of `setFocus(idx)`: the child is found by
      a reverse scan and then treated as `setFocus(idx)` treats its index. */
  function FocusTo(s: seq<Id>, child: Id): (r: Refocus)
    requires Distinct(s)
  {
    match LastIndexOf(s, child)
    case None => Refocus(s, [])
    case Some(i) => FocusAt(s, i)
  }

  /** Focusing a listed child puts it at the back and fires the two
      notifications exactly when it was not already there; focusing an
      unlisted one changes nothing. */
  lemma FocusToFocuses(s: seq<Id>, child: Id)
    requires Distinct(s)
    ensures child !in s ==> FocusTo(s, child) == Refocus(s, [])
    ensures child in s ==>
      var r := FocusTo(s, child);
      && multiset(r.order) == multiset(s)
      && r.order[|r.order| - 1] == child
      && (r.fired == [] <==> s[|s| - 1] == child)
      && (s[|s| - 1] != child ==> r.fired == [FocusLost(s[|s| - 1]), FocusGained(child)])
  {
    if child in s {
      var i := LastIndexOf(s, child).value;
      FocusAtPermutes(s, i);
      if i == |s| - 1 {
        MoveLastIsIdentity(s);
      } else {
        assert s[|s| - 1] != child;
      }
    }
  }

  /** Focusing the same child again is a no-op: the order stays and
      nothing is fired. */
  lemma RefocusIsSilent(s: seq<Id>, child: Id)
    requires Distinct(s)
    ensures var r := FocusTo(s, child);
      Distinct(r.order) && FocusTo(r.order, child) == Refocus(r.order, [])
  {
    FocusToFocuses(s, child);
    var r := FocusTo(s, child);
    if child in s {
      var i := LastIndexOf(s, child).value;
      assert |r.order| == |multiset(r.order)| == |multiset(s)| == |s|;
      assert LastIndexOf(r.order, child) == Some(|r.order| - 1);
    }
  }

  /** `popFocus` on the back child of a list of at least two is
      `setFocus(size - 2)`: the last two children trade places, the popped
      child loses focus and its former neighbour gains it. */
  lemma PopFocusSwapsLastTwo(s: seq<Id>)
    requires Distinct(s) && |s| >= 2
    ensures FocusAt(s, |s| - 2) ==
      Refocus(s[..|s| - 2] + [s[|s| - 1], s[|s| - 2]],
              [FocusLost(s[|s| - 1]), FocusGained(s[|s| - 2])])
  {
    MoveSecondLastSwaps(s);
  }

  /** Popping the focus twice restores the order, and the second pop gives
      the focus back to the child the first one took it from. */
  lemma PopFocusTwiceRestores(s: seq<Id>)
    requires Distinct(s) && |s| >= 2
    ensures var r := FocusAt(s, |s| - 2);
      && Distinct(r.order) && |r.order| == |s|
      && FocusAt(r.order, |s| - 2) == Refocus(s, [FocusLost(s[|s| - 2]), FocusGained(s[|s| - 1])])
  {
    PopFocusSwapsLastTwo(s);
    var t := FocusAt(s, |s| - 2).order;
    PopFocusSwapsLastTwo(t);
    assert t[..|t| - 2] == s[..|s| - 2];
    assert t[..|t| - 2] + [t[|t| - 1], t[|t| - 2]] == s;
  }

  // ---------------------------------------------------------------------
  // `setFocus(ptr)` as written

  /** The outcome of an operation whose source may index out of range. */
  datatype Outcome = Undefined | Defined(result: Refocus)

  /** `setFocus(ptr)` as include/Widget.hpp:298-322 writes it: the guard is
      `isFocused()` (the whole path to the root is focused) instead of
      `isFocusedChild()`, and after the push and the erase the notification
      goes to `m_widgets[size - 2]`, which is outside the list when the child
      is the only one. */
  ghost function FocusToAsWritten(nodes: map<Id, Node>, anc: map<Id, set<Id>>, p: Id, child: Id): (r: Outcome)
    requires WellFormed(nodes, anc) && p in nodes
  {
    var s := nodes[p].children;
    match LastIndexOf(s, child)
    case None => Defined(Refocus(s, []))
    case Some(i) =>
      assert ChildrenLinked(nodes);
      if EffectivelyFocused(nodes, anc, child) then Defined(Refocus(s, []))
      else
        var t := MoveToBack(s, i);
        if |t| < 2 then Undefined
        else Defined(Refocus(t, [FocusLost(t[|t| - 2]), FocusGained(child)]))
  }

  /** The arena of the counterexamples: root 0 lists 1 and then 2, so 2 is
      focused and 1 is not; 1 lists 3, and 4 after it when `two` holds. */
  function Sample(two: bool): map<Id, Node>
  {
    var leaf := Fresh;
    var kids := if two then [3, 4] else [3];
    var m := map[0 := leaf.(children := [1, 2]),
                 1 := leaf.(children := kids, parent := Some(0)),
                 2 := leaf.(parent := Some(0)),
                 3 := leaf.(parent := Some(1))];
    if two then m[4 := leaf.(parent := Some(1))] else m
  }

  /** The ancestry of `Sample(two)`. */
  function SampleAncestry(two: bool): map<Id, set<Id>>
  {
    var a := map[0 := {}, 1 := {0}, 2 := {0}, 3 := {1, 0}];
    if two then a[4 := {1, 0}] else a
  }

  lemma SampleWellFormed(two: bool)
    ensures WellFormed(Sample(two), SampleAncestry(two))
  {
    SampleLinked(two);
    SampleAncestryFollows(two);
  }

  lemma SampleLinked(two: bool)
    ensures ParentsLinked(Sample(two)) && ChildrenLinked(Sample(two)) && ChildrenDistinct(Sample(two))
  {
    var nodes := Sample(two);
    assert nodes.Keys == if two then {0, 1, 2, 3, 4} else {0, 1, 2, 3};
    forall n | n in nodes ensures ParentLinked(nodes, n) { }
  }

  lemma SampleAncestryFollows(two: bool)
    ensures AncestryFollowsParents(Sample(two), SampleAncestry(two)) && Acyclic(SampleAncestry(two))
  {
    var nodes := Sample(two);
    var anc := SampleAncestry(two);
    assert nodes.Keys == anc.Keys == if two then {0, 1, 2, 3, 4} else {0, 1, 2, 3};
    forall n | n in nodes ensures AncestorsOf(nodes, anc, n) { }
  }

  /** `setFocus(ptr)` on the only child of an unfocused widget indexes
      `m_widgets[-1]`: widget 1 is not focused, so its single child 3 is
      pushed again and the lost-focus notification has no target. */
  lemma SoleChildOutOfRange()
    ensures WellFormed(Sample(false), SampleAncestry(false))
    ensures FocusToAsWritten(Sample(false), SampleAncestry(false), 1, 3) == Undefined
    ensures FocusTo([3], 3) == Refocus([3], [])
  {
    SampleWellFormed(false);
    var nodes := Sample(false);
    assert !IsFocusedChild(nodes, 1);
    assert !EffectivelyFocused(nodes, SampleAncestry(false), 3);
    assert LastIndexOf([3], 3) == Some(0);
  }

  /** `setFocus(ptr)` on the child that already has the back place, under an
      unfocused widget, leaves the order as it is but tells its sibling 3,
      which never had focus, that it lost focus, and tells 4 that it gained
      focus it already had. */
  lemma FocusedChildNotifiedAgain()
    ensures WellFormed(Sample(true), SampleAncestry(true))
    ensures FocusToAsWritten(Sample(true), SampleAncestry(true), 1, 4)
            == Defined(Refocus([3, 4], [FocusLost(3), FocusGained(4)]))
    ensures FocusTo([3, 4], 4) == Refocus([3, 4], [])
  {
    SampleWellFormed(true);
    var nodes := Sample(true);
    assert !IsFocusedChild(nodes, 1);
    assert !EffectivelyFocused(nodes, SampleAncestry(true), 4);
    assert LastIndexOf([3, 4], 4) == Some(1);
    assert MoveToBack([3, 4], 1) == [3, 4];
  }

  /** Wherever the pointer variant as written is defined and its guard agrees
      with `isFocusedChild`, it coincides with `FocusTo`. */
  lemma AsWrittenAgreesWhenFocused(nodes: map<Id, Node>, anc: map<Id, set<Id>>, p: Id, child: Id)
    requires WellFormed(nodes, anc) && p in nodes && EffectivelyFocused(nodes, anc, p)
    ensures FocusToAsWritten(nodes, anc, p, child).Defined?
    ensures FocusToAsWritten(nodes, anc, p, child).result == FocusTo(nodes[p].children, child)
  {
    var s := nodes[p].children;
    assert ChildrenDistinct(nodes) && Distinct(s);
    if child in s {
      var i := LastIndexOf(s, child).value;
      ChildAncestors(nodes, anc, p, child);
      assert EffectivelyFocused(nodes, anc, child) <==> IsFocusedChild(nodes, child);
      if i == |s| - 1 {
        assert IsFocusedChild(nodes, child);
      } else {
        assert s[|s| - 1] != child;
        assert !IsFocusedChild(nodes, child);
      }
    }
  }
}
