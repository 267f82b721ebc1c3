/** Lists without repetitions. */
module Lists {
  ghost predicate Distinct<T>(list: seq<T>) {
    forall i, j :: 0 <= i < j < |list| ==> list[i] != list[j]
  }

  function Inserted<T>(list: seq<T>, k: nat, x: T): seq<T>
    requires k <= |list|
  {
    list[..k] + [x] + list[k..]
  }

  /** Inserting adds exactly x. */
  lemma InsertedIs<T>(list: seq<T>, k: nat, x: T)
    requires k <= |list|
    ensures forall y :: y in Inserted(list, k, x) <==> y in list || y == x
    ensures Distinct(list) && x !in list ==> Distinct(Inserted(list, k, x))
  {
    var l := Inserted(list, k, x);
    assert l[k] == x;
    assert forall i :: 0 <= i < |l| && i != k ==> l[i] == list[if i < k then i else i - 1];
    assert list == list[..k] + list[k..];
  }

  /** The list without x. */
  function Without<T(==)>(list: seq<T>, x: T): seq<T> {
    if list == [] then [] else if list[0] == x then list[1..] else [list[0]] + Without(list[1..], x)
  }

  lemma {:induction false} WithoutIs<T>(list: seq<T>, x: T) returns (k: nat)
    requires x in list
    ensures k < |list| && list[k] == x && Without(list, x) == list[..k] + list[k + 1..]
  {
    k := 0;
    if list[0] != x {
      var k1 := WithoutIs(list[1..], x);
      k := k1 + 1;
      assert list[..k] + list[k + 1..] == [list[0]] + (list[1..][..k1] + list[1..][k1 + 1..]);
    }
  }

  lemma {:induction false} WithoutNothing<T>(list: seq<T>, x: T)
    requires x !in list
    ensures Without(list, x) == list
  {
    if list != [] {
      WithoutNothing(list[1..], x);
      assert [list[0]] + list[1..] == list;
    }
  }

  lemma DistinctTail<T>(list: seq<T>)
    requires list != []
    ensures forall x :: x in list <==> x == list[0] || x in list[1..]
    ensures Distinct(list) <==> Distinct(list[1..]) && list[0] !in list[1..]
  {
    var tail := list[1..];
    assert list == [list[0]] + tail;
    if Distinct(tail) && list[0] !in tail {
      forall i, j | 0 <= i < j < |list|
        ensures list[i] != list[j]
      {
        assert list[j] == tail[j - 1] && (i > 0 ==> list[i] == tail[i - 1]);
      }
    }
  }

  /** Removing an element leaves exactly the others. */
  lemma {:induction false} WithoutKeepsOthers<T>(list: seq<T>, x: T)
    requires x in list && Distinct(list)
    ensures Distinct(Without(list, x)) && |Without(list, x)| == |list| - 1
    ensures forall y :: y in Without(list, x) <==> y in list && y != x
  {
    hide Distinct;
    DistinctTail(list);
    if list[0] != x {
      WithoutKeepsOthers(list[1..], x);
      DistinctTail(Without(list, x));
    }
  }

  // ---------------------------------------------------------------- order

  /** a stands in front of b. */
  ghost predicate InFront<T(!new)>(list: seq<T>, a: T, b: T) {
    exists i, j :: 0 <= i < j < |list| && list[i] == a && list[j] == b
  }

  /** The same list without one place, which held x. */
  ghost predicate Skips<T(!new)>(list: seq<T>, list': seq<T>, x: T) {
    exists k :: 0 <= k < |list| && list[k] == x && list' == list[..k] + list[k + 1..]
  }

  lemma WithoutSkips<T(!new)>(list: seq<T>, x: T)
    requires x in list
    ensures Skips(list, Without(list, x), x)
  {
    var k := WithoutIs(list, x);
    hide Without;
  }

  lemma InsertedInFront<T(!new)>(list: seq<T>, i: nat, x: T, a: T, b: T)
    requires i <= |list| && InFront(list, a, b)
    ensures InFront(list[..i] + [x] + list[i..], a, b)
  {
    var m, n :| 0 <= m < n < |list| && list[m] == a && list[n] == b;
    var list' := list[..i] + [x] + list[i..];
    assert list'[if m < i then m else m + 1] == a && list'[if n < i then n else n + 1] == b;
  }

  lemma SkippedInFront<T(!new)>(list: seq<T>, list': seq<T>, x: T, a: T, b: T)
    requires Skips(list, list', x) && InFront(list, a, b) && a != x && b != x
    ensures InFront(list', a, b)
  {
    var m, n :| 0 <= m < n < |list| && list[m] == a && list[n] == b;
    var i :| 0 <= i < |list| && list[i] == x && list' == list[..i] + list[i + 1..];
    assert list'[if m < i then m else m - 1] == a && list'[if n < i then n else n - 1] == b;
  }

  lemma TailInFront<T(!new)>(list: seq<T>, a: T, b: T)
    requires InFront(list, a, b) && Distinct(list)
    ensures b != list[0] && if a == list[0] then a !in list[1..] else InFront(list[1..], a, b)
  {
    var m, n :| 0 <= m < n < |list| && list[m] == a && list[n] == b;
    assert list[1..][n - 1] == b;
    if a != list[0] {
      assert list[1..][m - 1] == a;
    }
  }

  lemma WithoutInFront<T(!new)>(list: seq<T>, x: T, a: T, b: T)
    requires x in list && InFront(list, a, b) && Distinct(list)
    ensures if a == x then a !in Without(list, x) else if b == x then b !in Without(list, x)
            else InFront(Without(list, x), a, b)
  {
    WithoutKeepsOthers(list, x);
    WithoutSkips(list, x);
    hide Without, Skips, Distinct, InFront;
    if a != x && b != x {
      SkippedInFront(list, Without(list, x), x, a, b);
    }
  }
}
