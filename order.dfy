/**
 * The order of Java strings under String.compareTo, which is also the key
 * order of a TreeMap<String, _> and the order Collections.sort gives a
 * list of strings.
 */
module Order {

  /** Lexicographic order, character by character, a proper prefix first. */
  predicate Less(a: string, b: string)
    decreases |a|
  {
    |b| > 0 && (|a| == 0 || a[0] < b[0] || (a[0] == b[0] && Less(a[1..], b[1..])))
  }

  lemma {:induction false} LessIrreflexive(a: string)
    ensures !Less(a, a)
  {
    if |a| > 0 {
      LessIrreflexive(a[1..]);
    }
  }

  lemma {:induction false} LessTransitive(a: string, b: string, c: string)
    requires Less(a, b) && Less(b, c)
    ensures Less(a, c)
  {
    if |a| > 0 && a[0] == b[0] && b[0] == c[0] {
      LessTransitive(a[1..], b[1..], c[1..]);
    }
  }

  lemma {:induction false} LessTotal(a: string, b: string)
    requires a != b
    ensures Less(a, b) || Less(b, a)
  {
    if |a| > 0 && |b| > 0 && a[0] == b[0] {
      assert a == [a[0]] + a[1..] && b == [b[0]] + b[1..];
      LessTotal(a[1..], b[1..]);
    }
  }

  lemma LessAsymmetric(a: string, b: string)
    requires Less(a, b)
    ensures !Less(b, a)
  {
    if Less(b, a) {
      LessTransitive(a, b, a);
      LessIrreflexive(a);
    }
  }

  /**
   * String.compareTo: the difference of the first two characters that
   * differ, or of the lengths when one string is a prefix of the other.
   * Its sign follows Less, and it is zero exactly on equal strings.
   */
  function Compare(a: string, b: string): (c: int)
    ensures c == 0 <==> a == b
    ensures c < 0 <==> Less(a, b)
    ensures c > 0 <==> Less(b, a)
  {
    if |a| == 0 || |b| == 0 then |a| - |b|
    else if a[0] != b[0] then a[0] as int - b[0] as int
    else
      assert a == [a[0]] + a[1..] && b == [b[0]] + b[1..];
      Compare(a[1..], b[1..])
  }

  /** Swapping the arguments of compareTo negates it. */
  lemma {:induction false} CompareAntisymmetric(a: string, b: string)
    ensures Compare(a, b) == -Compare(b, a)
  {
    if |a| > 0 && |b| > 0 && a[0] == b[0] {
      CompareAntisymmetric(a[1..], b[1..]);
    }
  }

  /** Each string is before every later one. */
  predicate StrictlySorted(xs: seq<string>) {
    forall i, j :: 0 <= i < j < |xs| ==> Less(xs[i], xs[j])
  }

  lemma BelowHead(k: string, xs: seq<string>)
    requires StrictlySorted(xs) && |xs| > 0 && Less(k, xs[0])
    ensures forall j :: 0 <= j < |xs| ==> Less(k, xs[j])
  {
    forall j | 0 < j < |xs|
      ensures Less(k, xs[j])
    {
      LessTransitive(k, xs[0], xs[j]);
    }
  }

  /** Every later element of a sorted sequence is above its head. */
  lemma HeadBelowRest(xs: seq<string>)
    requires StrictlySorted(xs) && |xs| > 0
    ensures forall x :: x in xs[1..] ==> Less(xs[0], x)
  {
    forall x | x in xs[1..]
      ensures Less(xs[0], x)
    {
      var j :| 0 <= j < |xs[1..]| && xs[1..][j] == x;
      assert xs[j + 1] == x;
    }
  }

  /** Insertion of a new string into its place in a sorted sequence. */
  function Insert(xs: seq<string>, k: string): (r: seq<string>)
    requires StrictlySorted(xs) && k !in xs
    ensures StrictlySorted(r)
    ensures |r| == |xs| + 1
    ensures forall x :: x in r <==> x == k || x in xs
  {
    if |xs| == 0 then [k]
    else if Less(k, xs[0]) then
      BelowHead(k, xs);
      [k] + xs
    else
      LessTotal(k, xs[0]);
      var tail := Insert(xs[1..], k);
      HeadBelowRest(xs);
      assert forall x :: x in xs <==> x == xs[0] || x in xs[1..] by {
        assert xs == [xs[0]] + xs[1..];
      }
      assert forall j :: 0 <= j < |tail| ==> Less(xs[0], tail[j]) by {
        forall j | 0 <= j < |tail|
          ensures Less(xs[0], tail[j])
        {
          assert tail[j] in tail;
        }
      }
      [xs[0]] + tail
  }

  /**
   * The keys of m in ascending order: what iterating a TreeMap's key set,
   * or sorting a list of its keys, produces.
   */
  method SortedKeys<V>(m: map<string, V>) returns (keys: seq<string>)
    ensures StrictlySorted(keys)
    ensures forall k :: k in keys <==> k in m
    ensures |keys| == |m|
  {
    keys := [];
    var rest := m.Keys;
    while rest != {}
      invariant rest <= m.Keys
      invariant StrictlySorted(keys)
      invariant forall k :: k in keys <==> k in m && k !in rest
      invariant |keys| + |rest| == |m|
      decreases |rest|
    {
      var k :| k in rest;
      keys := Insert(keys, k);
      rest := rest - {k};
    }
  }

  lemma HeadIsMember(xs: seq<string>)
    ensures xs != [] ==> xs[0] in xs
  {
  }

  /** A set of strings has only one strictly sorted arrangement. */
  lemma {:induction false} SortedUnique(xs: seq<string>, ys: seq<string>)
    requires StrictlySorted(xs) && StrictlySorted(ys)
    requires forall x :: x in xs <==> x in ys
    ensures xs == ys
  {
    if xs == [] || ys == [] {
      if xs != ys {
        HeadIsMember(xs);
        HeadIsMember(ys);
        assert false;
      }
    } else {
      if xs[0] != ys[0] {
        assert ys[0] in xs;
        assert xs[0] in ys;
        var i :| 0 <= i < |xs| && xs[i] == ys[0];
        var j :| 0 <= j < |ys| && ys[j] == xs[0];
        assert Less(xs[0], ys[0]);
        assert Less(ys[0], xs[0]);
        LessAsymmetric(xs[0], ys[0]);
      }
      HeadBelowRest(xs);
      HeadBelowRest(ys);
      assert xs == [xs[0]] + xs[1..];
      assert ys == [ys[0]] + ys[1..];
      assert xs[0] == ys[0];
      forall x
        ensures x in xs[1..] <==> x in ys[1..]
      {
        LessIrreflexive(x);
        if x in xs[1..] {
          assert x in ys && x != ys[0];
        }
        if x in ys[1..] {
          assert x in xs && x != xs[0];
        }
      }
      SortedUnique(xs[1..], ys[1..]);
      assert xs == [xs[0]] + xs[1..];
      assert ys == [ys[0]] + ys[1..];
    }
  }
}
