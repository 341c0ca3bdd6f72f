/** Sequences with the same elements in a different order. */
module Rearrangement {

  function Mapped<T, U>(xs: seq<T>, f: T -> U): (r: seq<U>)
    ensures |r| == |xs| && forall i :: 0 <= i < |xs| ==> r[i] == f(xs[i])
  {
    seq(|xs|, i requires 0 <= i < |xs| => f(xs[i]))
  }

  function Total<T>(xs: seq<T>, f: T -> nat): nat
    decreases |xs|
  {
    if |xs| == 0 then 0 else Total(xs[..|xs| - 1], f) + f(xs[|xs| - 1])
  }

  function Gathered<T>(ms: seq<multiset<T>>): multiset<T>
    decreases |ms|
  {
    if |ms| == 0 then multiset{} else Gathered(ms[..|ms| - 1]) + ms[|ms| - 1]
  }

  function Without<T>(xs: seq<T>, j: nat): seq<T>
    requires j < |xs|
  {
    xs[..j] + xs[j + 1..]
  }

  lemma WithoutOne<T>(xs: seq<T>, j: nat)
    requires j < |xs|
    ensures multiset(Without(xs, j)) == multiset(xs) - multiset{xs[j]}
    ensures multiset(xs) == multiset(Without(xs, j)) + multiset{xs[j]}
  {
    assert xs == xs[..j] + [xs[j]] + xs[j + 1..];
  }

  /** An occurrence of `a`'s last element in `b`; without both, the rest is still rearranged. */
  lemma LastOccurs<T>(a: seq<T>, b: seq<T>) returns (j: nat)
    requires |a| > 0 && multiset(a) == multiset(b)
    ensures j < |b| && b[j] == a[|a| - 1]
    ensures multiset(a[..|a| - 1]) == multiset(Without(b, j))
  {
    hide Without;
    var last := a[|a| - 1];
    assert last in multiset(b);
    j :| 0 <= j < |b| && b[j] == last;
    WithoutOne(b, j);
    WithoutOne(a, |a| - 1);
    WithoutLast(a);
  }

  lemma WithoutLast<T>(xs: seq<T>)
    requires |xs| > 0
    ensures Without(xs, |xs| - 1) == xs[..|xs| - 1]
  {
  }

  lemma SameSize<T>(a: seq<T>, b: seq<T>)
    requires multiset(a) == multiset(b)
    ensures |a| == |b|
  {
    assert |multiset(a)| == |a| && |multiset(b)| == |b|;
  }

  lemma SameMembers<T>(a: seq<T>, b: seq<T>, x: T)
    requires multiset(a) == multiset(b)
    ensures x in a <==> x in b
  {
    assert x in a <==> x in multiset(a);
    assert x in b <==> x in multiset(b);
  }

  lemma {:induction false} TotalWithout<T>(xs: seq<T>, j: nat, f: T -> nat)
    requires j < |xs|
    ensures Total(xs, f) == Total(Without(xs, j), f) + f(xs[j])
    decreases |xs|
  {
    var n := |xs| - 1;
    if j < n {
      TotalWithout(xs[..n], j, f);
      assert Without(xs, j)[..n - 1] == Without(xs[..n], j);
    } else {
      assert Without(xs, j) == xs[..n];
    }
  }

  lemma {:induction false} TotalRearranged<T>(a: seq<T>, b: seq<T>, f: T -> nat)
    requires multiset(a) == multiset(b)
    ensures Total(a, f) == Total(b, f)
    decreases |a|
  {
    SameSize(a, b);
    if |a| > 0 {
      var j := LastOccurs(a, b);
      TotalRearranged(a[..|a| - 1], Without(b, j), f);
      TotalWithout(b, j, f);
    }
  }

  lemma MappedWithout<T, U>(xs: seq<T>, j: nat, f: T -> U)
    requires j < |xs|
    ensures multiset(Mapped(xs, f)) == multiset(Mapped(Without(xs, j), f)) + multiset{f(xs[j])}
  {
    WithoutOne(Mapped(xs, f), j);
    assert Mapped(Without(xs, j), f) == Without(Mapped(xs, f), j);
  }

  lemma {:induction false} MappedRearranged<T, U>(a: seq<T>, b: seq<T>, f: T -> U)
    requires multiset(a) == multiset(b)
    ensures multiset(Mapped(a, f)) == multiset(Mapped(b, f))
    decreases |a|
  {
    SameSize(a, b);
    if |a| > 0 {
      var j := LastOccurs(a, b);
      MappedRearranged(a[..|a| - 1], Without(b, j), f);
      MappedWithout(a, |a| - 1, f);
      MappedWithout(b, j, f);
      assert Without(a, |a| - 1) == a[..|a| - 1];
    } else {
      assert Mapped(a, f) == Mapped(b, f);
    }
  }

  lemma {:induction false} GatheredWithout<T>(ms: seq<multiset<T>>, j: nat)
    requires j < |ms|
    ensures Gathered(ms) == Gathered(Without(ms, j)) + ms[j]
    decreases |ms|
  {
    var n := |ms| - 1;
    if j < n {
      GatheredWithout(ms[..n], j);
      assert Without(ms, j)[..n - 1] == Without(ms[..n], j);
    } else {
      assert Without(ms, j) == ms[..n];
    }
  }

  lemma {:induction false} GatheredRearranged<T>(a: seq<multiset<T>>, b: seq<multiset<T>>)
    requires multiset(a) == multiset(b)
    ensures Gathered(a) == Gathered(b)
    decreases |a|
  {
    SameSize(a, b);
    if |a| > 0 {
      var j := LastOccurs(a, b);
      GatheredRearranged(a[..|a| - 1], Without(b, j));
      GatheredWithout(b, j);
    }
  }
}
