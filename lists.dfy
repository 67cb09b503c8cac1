/** The java.util.List queries and updates the dashboards use on lists of status names. */
module Lists {

  /** No value occurs twice. */
  predicate Distinct<T(==)>(xs: seq<T>) {
    forall i, j :: 0 <= i < j < |xs| ==> xs[i] != xs[j]
  }

  /** List.indexOf: the first position holding x, or -1 when there is none. */
  function IndexOf<T(==)>(xs: seq<T>, x: T): (i: int)
    ensures -1 <= i < |xs|
    ensures i == -1 <==> x !in xs
    ensures 0 <= i ==> xs[i] == x && forall j :: 0 <= j < i ==> xs[j] != x
  {
    if |xs| == 0 then -1
    else if xs[0] == x then 0
    else
      var i := IndexOf(xs[1..], x);
      if i < 0 then -1
      else i + 1
  }

  /** In a list without repetitions, the position of each element is found. */
  lemma IndexOfDistinct<T>(xs: seq<T>, k: nat)
    requires Distinct(xs) && k < |xs|
    ensures IndexOf(xs, xs[k]) == k
  {
    assert xs[k] in xs;
  }

  /** List.remove(Object): the first occurrence of x taken out, the rest kept in order. */
  function RemoveFirst<T(==)>(xs: seq<T>, x: T): (r: seq<T>)
    ensures x !in xs ==> r == xs
    ensures x in xs ==> |r| == |xs| - 1
    ensures x in xs ==>
      exists i :: 0 <= i < |xs| && xs[i] == x && x !in xs[..i] && r == xs[..i] + xs[i + 1..]
    ensures multiset(r) == multiset(xs) - multiset{x}
  {
    var i := IndexOf(xs, x);
    if i < 0 then xs
    else
      assert xs == xs[..i] + [xs[i]] + xs[i + 1..];
      assert x !in xs[..i];
      xs[..i] + xs[i + 1..]
  }

  /** Cutting one position out of a list without repetitions. */
  lemma DistinctCut<T>(xs: seq<T>, i: nat)
    requires Distinct(xs) && i < |xs|
    ensures Distinct(xs[..i] + xs[i + 1..])
    ensures forall y :: y in xs[..i] + xs[i + 1..] <==> y in xs && y != xs[i]
  {
    var r := xs[..i] + xs[i + 1..];
    assert |r| == |xs| - 1;
    assert forall a :: 0 <= a < |r| ==> r[a] == xs[if a < i then a else a + 1];
    forall y
      ensures y in r <==> y in xs && y != xs[i]
    {
      if y in xs && y != xs[i] {
        var k :| 0 <= k < |xs| && xs[k] == y;
        assert r[if k < i then k else k - 1] == y;
      }
    }
  }

  /** On a list without repetitions, removal leaves no trace of x and no repetition. */
  lemma RemoveFirstDistinct<T>(xs: seq<T>, x: T)
    requires Distinct(xs)
    ensures Distinct(RemoveFirst(xs, x))
    ensures x !in RemoveFirst(xs, x)
    ensures forall y :: y in RemoveFirst(xs, x) <==> y in xs && y != x
  {
    if x in xs {
      DistinctCut(xs, IndexOf(xs, x));
    }
  }
}
