/** Rings of nodes linked in both directions (rt_list_t of rtservice.h and the lists of memheap.c), a node being an index into
    the arrays of its link fields. */
module Rings {
  import opened Lists

  /** The index after i, around the ring. */
  function Succ(i: nat, n: nat): nat
    requires i < n
  {
    if i + 1 == n then 0 else i + 1
  }

  /** Node i and the one after it point at each other. */
  ghost predicate LinkedAt(next: seq<int>, prev: seq<int>, ring: seq<nat>, i: nat)
    requires i < |ring|
  {
    var a, b := ring[i], ring[Succ(i, |ring|)];
    a < |next| && b < |prev| && next[a] == b && prev[b] == a
  }

  ghost predicate Ring(next: seq<int>, prev: seq<int>, ring: seq<nat>) {
    && Distinct(ring) && |next| == |prev|
    && forall i :: 0 <= i < |ring| ==> LinkedAt(next, prev, ring, i)
  }

  /** rt_list_insert_after: x goes behind node i. */
  lemma RingInsert(next: seq<int>, prev: seq<int>, ring: seq<nat>, i: nat, x: nat)
    requires Ring(next, prev, ring) && i < |ring| && x !in ring && x < |next|
    ensures var a, b := ring[i], ring[Succ(i, |ring|)];
            a < |next| && b < |next| && next[a] == b
            && Ring(next[x := b][a := x], prev[b := x][x := a], ring[..i + 1] + [x] + ring[i + 1..])
  {
    var n, r := |ring|, ring[..i + 1] + [x] + ring[i + 1..];
    assert LinkedAt(next, prev, ring, i);
    var a, b := ring[i], ring[Succ(i, n)];
    var next', prev' := next[x := b][a := x], prev[b := x][x := a];
    assert forall k :: 0 <= k < |r| ==> r[k] == if k <= i then ring[k] else if k == i + 1 then x else ring[k - 1];
    assert forall k :: 0 <= k < n ==> ring[k] != x;
    forall k | 0 <= k < |r|
      ensures LinkedAt(next', prev', r, k)
    {
      if k < i {
        assert LinkedAt(next, prev, ring, k);
        assert Succ(k, n) == k + 1;
      } else if k > i + 1 {
        assert LinkedAt(next, prev, ring, k - 1);
      }
    }
  }

  /** rt_list_remove: node i, which is not the only one, leaves the ring. */
  lemma RingRemove(next: seq<int>, prev: seq<int>, ring: seq<nat>, i: nat)
    requires Ring(next, prev, ring) && 0 < i < |ring|
    ensures var a, b := ring[i - 1], ring[Succ(i, |ring|)];
            a < |next| && b < |next| && ring[i] < |next| && next[ring[i]] == b && prev[ring[i]] == a
            && Ring(next[a := b], prev[b := a], ring[..i] + ring[i + 1..])
  {
    var n, r := |ring|, ring[..i] + ring[i + 1..];
    assert LinkedAt(next, prev, ring, i - 1) && LinkedAt(next, prev, ring, i);
    var a, b := ring[i - 1], ring[Succ(i, n)];
    var next', prev' := next[a := b], prev[b := a];
    assert forall k :: 0 <= k < |r| ==> r[k] == ring[if k < i then k else k + 1];
    forall k | 0 <= k < |r|
      ensures LinkedAt(next', prev', r, k)
    {
      if k < i - 1 {
        assert LinkedAt(next, prev, ring, k);
      } else if k >= i {
        assert LinkedAt(next, prev, ring, k + 1);
      }
    }
  }

  /** Nodes outside the ring do not matter. */
  lemma RingElsewhere(next: seq<int>, prev: seq<int>, ring: seq<nat>, next': seq<int>, prev': seq<int>)
    requires Ring(next, prev, ring) && |next'| == |prev'| == |next|
    requires forall x :: x in ring && x < |next| ==> next'[x] == next[x] && prev'[x] == prev[x]
    ensures Ring(next', prev', ring)
  {
    forall i | 0 <= i < |ring|
      ensures LinkedAt(next', prev', ring, i)
    {
      assert LinkedAt(next, prev, ring, i);
      assert ring[i] in ring && ring[Succ(i, |ring|)] in ring;
    }
  }
}
