/** Operations on the ordered child list: the `push_back`/`erase` pair that
    moves an element to the back, the single `erase`, and the reverse search
    that `removeWidget`, `hasWidget` and `setFocus(ptr)` perform. */
module Seqs {
  import opened Wrappers

  /** No element occurs twice. */
  predicate Distinct<T(==)>(s: seq<T>) {
    forall i, j :: 0 <= i < j < |s| ==> s[i] != s[j]
  }

  /** `s` with element `i` erased and appended at the back, as
      `push_back(s[i]); erase(begin() + i)` leaves it. */
  function MoveToBack<T>(s: seq<T>, i: nat): (r: seq<T>)
    requires i < |s|
    ensures |r| == |s| && r[|s| - 1] == s[i]
    ensures forall k :: 0 <= k < i ==> r[k] == s[k]
    ensures forall k :: i <= k < |s| - 1 ==> r[k] == s[k + 1]
  {
    s[..i] + s[i + 1..] + [s[i]]
  }

  /** Moving an element to the back permutes the sequence. */
  lemma MoveToBackPermutes<T>(s: seq<T>, i: nat)
    requires i < |s|
    ensures multiset(MoveToBack(s, i)) == multiset(s)
  {
    calc {
      multiset(s);
      { assert s == s[..i] + [s[i]] + s[i + 1..]; }
      multiset(s[..i]) + multiset{s[i]} + multiset(s[i + 1..]);
      multiset(s[..i] + s[i + 1..] + [s[i]]);
    }
  }

  /** Moving to the back keeps the elements and their distinctness. */
  lemma MoveToBackMembers<T>(s: seq<T>, i: nat)
    requires i < |s|
    ensures forall x :: x in MoveToBack(s, i) <==> x in s
    ensures Distinct(s) ==> Distinct(MoveToBack(s, i))
  {
    var r := MoveToBack(s, i);
    forall x | x in s ensures x in r {
      var k :| 0 <= k < |s| && s[k] == x;
      if k < i { assert r[k] == x; }
      else if k == i { assert r[|s| - 1] == x; }
      else { assert r[k - 1] == x; }
    }
    if Distinct(s) {
      forall a, b | 0 <= a < b < |r| ensures r[a] != r[b] {
        var a' := if a < i then a else a + 1;
        var b' := if b == |s| - 1 then i else if b < i then b else b + 1;
        assert r[a] == s[a'] && r[b] == s[b'] && a' != b';
      }
    }
  }

  /** The element that is already at the back stays put. */
  lemma MoveLastIsIdentity<T>(s: seq<T>)
    requires |s| > 0
    ensures MoveToBack(s, |s| - 1) == s
  {
    assert s[..|s| - 1] + [s[|s| - 1]] == s;
  }

  /** Moving the second-to-last element exchanges the last two. */
  lemma MoveSecondLastSwaps<T>(s: seq<T>)
    requires |s| >= 2
    ensures MoveToBack(s, |s| - 2) == s[..|s| - 2] + [s[|s| - 1], s[|s| - 2]]
  {
    var r := MoveToBack(s, |s| - 2);
    var t := s[..|s| - 2] + [s[|s| - 1], s[|s| - 2]];
    assert |r| == |t|;
    forall k | 0 <= k < |r| ensures r[k] == t[k] {
      if k < |s| - 2 { assert r[k] == s[k] == t[k]; }
    }
  }

  /** `s` with element `i` erased. */
  function RemoveAt<T>(s: seq<T>, i: nat): (r: seq<T>)
    requires i < |s|
    ensures |r| == |s| - 1
    ensures forall k :: 0 <= k < i ==> r[k] == s[k]
    ensures forall k :: i <= k < |r| ==> r[k] == s[k + 1]
  {
    s[..i] + s[i + 1..]
  }

  /** Erasing one element of a distinct sequence removes exactly that value. */
  lemma RemoveAtMembers<T>(s: seq<T>, i: nat)
    requires i < |s| && Distinct(s)
    ensures Distinct(RemoveAt(s, i))
    ensures forall x :: x in RemoveAt(s, i) <==> x in s && x != s[i]
  {
    var r := RemoveAt(s, i);
    forall x | x in s && x != s[i] ensures x in r {
      var k :| 0 <= k < |s| && s[k] == x;
      if k < i { assert r[k] == x; } else { assert r[k - 1] == x; }
    }
    forall x | x in r ensures x in s && x != s[i] {
      var k :| 0 <= k < |r| && r[k] == x;
      if k < i { assert s[k] == x; } else { assert s[k + 1] == x; }
    }
  }

  /** The index at which a reverse scan (`for (i = size; i--;)`) first meets
      `x`: the last occurrence, or None when there is none. */
  function LastIndexOf<T(==)>(s: seq<T>, x: T): (r: Option<nat>)
    ensures r.None? <==> x !in s
    ensures r.Some? ==> r.value < |s| && s[r.value] == x
                        && forall j :: r.value < j < |s| ==> s[j] != x
    decreases |s|
  {
    if |s| == 0 then None
    else if s[|s| - 1] == x then Some(|s| - 1)
    else
      assert forall j :: 0 <= j < |s| - 1 ==> s[..|s| - 1][j] == s[j];
      LastIndexOf(s[..|s| - 1], x)
  }

  /** Different positions of a distinct sequence hold different values. */
  lemma DistinctApart<T>(s: seq<T>, i: nat, j: nat)
    requires Distinct(s) && i < |s| && j < |s| && i != j
    ensures s[i] != s[j]
  {
    if j < i {
      assert s[j] != s[i];
    }
  }

  /** In a distinct sequence the last occurrence is the only one. */
  lemma DistinctIndex<T>(s: seq<T>, i: nat, j: nat)
    requires Distinct(s) && i < |s| && j < |s| && s[i] == s[j]
    ensures i == j
  {
  }

  /** Appending is associative, and appending nothing changes nothing. */
  lemma AppendAssoc<T>(a: seq<T>, b: seq<T>, c: seq<T>)
    ensures (a + b) + c == a + (b + c) && a + [] == a
  {
  }

  /** Updates of two different keys can be done in either order. */
  lemma UpdatesCommute<K, V>(m: map<K, V>, a: K, x: V, b: K, y: V)
    requires a != b
    ensures m[a := x][b := y] == m[b := y][a := x]
  {
  }

  /** Storing back what a key already holds changes nothing. */
  lemma UpdateSame<K, V>(m: map<K, V>, a: K)
    requires a in m
    ensures m[a := m[a]] == m
  {
  }

  /** Some member of a non-empty set. */
  lemma Pick<T>(s: set<T>) returns (x: T)
    requires s != {}
    ensures x in s
  {
    x :| x in s;
  }
}
