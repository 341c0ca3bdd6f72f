/** Sorting by a text, folded texts first: with distinct folded texts the result does not depend on the input order. */
module TextOrder {
  import opened Texts

  function Folded(text: Text, fold: Fold): (r: Text)
    ensures |r| == |text| && forall i :: 0 <= i < |text| ==> r[i] == fold(text[i])
  {
    seq(|text|, i requires 0 <= i < |text| => fold(text[i]))
  }

  lemma FoldedSame(a: Text, b: Text, fold: Fold)
    ensures Folded(a, fold) == Folded(b, fold) <==> SameText(a, b, fold)
  {
    var p, q := Folded(a, fold), Folded(b, fold);
    if SameText(a, b, fold) {
      forall i | 0 <= i < |p| ensures p[i] == q[i] {
        assert p[i] == fold(a[i]) && q[i] == fold(b[i]);
      }
    }
    if p == q {
      forall i | 0 <= i < |a| ensures fold(a[i]) == fold(b[i]) {
        assert p[i] == fold(a[i]) && q[i] == fold(b[i]);
      }
    }
  }

  // ---------- the order ----------

  predicate Before(a: Text, b: Text) {
    |b| > 0 && (|a| == 0 || a[0] < b[0] || (a[0] == b[0] && Before(a[1..], b[1..])))
  }

  predicate TextLess(a: Text, b: Text, fold: Fold) {
    if Folded(a, fold) != Folded(b, fold) then Before(Folded(a, fold), Folded(b, fold)) else Before(a, b)
  }

  lemma {:induction false} BeforeTotal(a: Text, b: Text)
    ensures a == b || Before(a, b) || Before(b, a)
    ensures !(Before(a, b) && Before(b, a)) && !Before(a, a)
  {
    if |a| > 0 && |b| > 0 {
      BeforeTotal(a[1..], b[1..]);
      BeforeTotal(a[1..], a[1..]);
      assert a == [a[0]] + a[1..] && b == [b[0]] + b[1..];
    } else if |a| > 0 {
      BeforeTotal(a[1..], a[1..]);
    }
  }

  lemma {:induction false} BeforeTransitive(a: Text, b: Text, c: Text)
    requires Before(a, b) && Before(b, c)
    ensures Before(a, c)
  {
    if |a| > 0 && a[0] == b[0] == c[0] {
      BeforeTransitive(a[1..], b[1..], c[1..]);
    }
  }

  // ---------- sorting ----------

  function Insert<T>(x: T, xs: seq<T>, key: T -> Text, fold: Fold): (r: seq<T>)
    ensures multiset(r) == multiset{x} + multiset(xs)
  {
    if |xs| == 0 || !TextLess(key(xs[0]), key(x), fold) then [x] + xs
    else
      assert xs == [xs[0]] + xs[1..];
      [xs[0]] + Insert(x, xs[1..], key, fold)
  }

  /** Insertion sort stands in for the library's sort. */
  function Sort<T>(xs: seq<T>, key: T -> Text, fold: Fold): (r: seq<T>)
    ensures multiset(r) == multiset(xs)
  {
    if |xs| == 0 then []
    else
      assert xs == [xs[0]] + xs[1..];
      Insert(xs[0], Sort(xs[1..], key, fold), key, fold)
  }

  /** No two texts that differ only by folding. */
  predicate DistinctKeys<T>(xs: seq<T>, key: T -> Text, fold: Fold) {
    forall i, j :: 0 <= i < j < |xs| ==> !SameText(key(xs[i]), key(xs[j]), fold)
  }

  function FoldedKey<T>(x: T, key: T -> Text, fold: Fold): Text {
    Folded(key(x), fold)
  }

  predicate StrictlySorted<T>(xs: seq<T>, key: T -> Text, fold: Fold) {
    forall i, j :: 0 <= i < j < |xs| ==> Before(FoldedKey(xs[i], key, fold), FoldedKey(xs[j], key, fold))
  }

  /** No element has the folded text of `x`. */
  predicate NewKey<T>(x: T, xs: seq<T>, key: T -> Text, fold: Fold) {
    forall i :: 0 <= i < |xs| ==> !SameText(key(x), key(xs[i]), fold)
  }

  predicate BeforeAll<T>(x: T, xs: seq<T>, key: T -> Text, fold: Fold) {
    forall i :: 0 <= i < |xs| ==> Before(FoldedKey(x, key, fold), FoldedKey(xs[i], key, fold))
  }

  lemma SortedCons<T>(x: T, xs: seq<T>, key: T -> Text, fold: Fold)
    ensures StrictlySorted([x] + xs, key, fold) <==> BeforeAll(x, xs, key, fold) && StrictlySorted(xs, key, fold)
  {
    hide Before, FoldedKey;
    var all := [x] + xs;
    assert all[0] == x && forall i :: 0 <= i < |xs| ==> all[i + 1] == xs[i];
    assert forall i :: 0 < i < |all| ==> all[i] == xs[i - 1];
  }

  lemma AllInserted<T>(y: T, x: T, xs: seq<T>, key: T -> Text, fold: Fold)
    requires BeforeAll(y, xs, key, fold) && Before(FoldedKey(y, key, fold), FoldedKey(x, key, fold))
    ensures BeforeAll(y, Insert(x, xs, key, fold), key, fold)
  {
    hide Before, FoldedKey;
    var r := Insert(x, xs, key, fold);
    forall i | 0 <= i < |r| ensures Before(FoldedKey(y, key, fold), FoldedKey(r[i], key, fold)) {
      assert r[i] in multiset(r);
      assert r[i] == x || r[i] in xs;
    }
  }

  lemma {:induction false} InsertSorts<T>(x: T, xs: seq<T>, key: T -> Text, fold: Fold)
    requires StrictlySorted(xs, key, fold) && NewKey(x, xs, key, fold)
    ensures StrictlySorted(Insert(x, xs, key, fold), key, fold)
  {
    hide Before, StrictlySorted, BeforeAll;
    if |xs| > 0 {
      assert xs == [xs[0]] + xs[1..];
      SortedCons(xs[0], xs[1..], key, fold);
      FoldedSame(key(x), key(xs[0]), fold);
      FoldedSame(key(xs[0]), key(x), fold);
      BeforeTotal(FoldedKey(x, key, fold), FoldedKey(xs[0], key, fold));
      if TextLess(key(xs[0]), key(x), fold) {
        InsertSorts(x, xs[1..], key, fold);
        AllInserted(xs[0], x, xs[1..], key, fold);
        SortedCons(xs[0], Insert(x, xs[1..], key, fold), key, fold);
      } else {
        BeforeRest(x, xs, key, fold);
        SortedCons(x, xs, key, fold);
        assert Insert(x, xs, key, fold) == [x] + xs;
      }
    } else {
      NothingToSort(x, key, fold);
      assert [x] + xs == [x];
    }
  }

  lemma NothingToSort<T>(x: T, key: T -> Text, fold: Fold)
    ensures StrictlySorted([x], key, fold)
  {
  }

  lemma BeforeRest<T>(x: T, xs: seq<T>, key: T -> Text, fold: Fold)
    requires |xs| > 0 && StrictlySorted(xs, key, fold)
    requires Before(FoldedKey(x, key, fold), FoldedKey(xs[0], key, fold))
    ensures BeforeAll(x, xs, key, fold)
  {
    hide Before, FoldedKey;
    forall i | 0 <= i < |xs| ensures Before(FoldedKey(x, key, fold), FoldedKey(xs[i], key, fold)) {
      if i > 0 {
        BeforeTransitive(FoldedKey(x, key, fold), FoldedKey(xs[0], key, fold), FoldedKey(xs[i], key, fold));
      }
    }
  }

  lemma {:induction false} SortSorts<T>(xs: seq<T>, key: T -> Text, fold: Fold)
    requires DistinctKeys(xs, key, fold)
    ensures StrictlySorted(Sort(xs, key, fold), key, fold)
  {
    hide Insert, SameText;
    if |xs| > 0 {
      SortSorts(xs[1..], key, fold);
      var rest := Sort(xs[1..], key, fold);
      forall i | 0 <= i < |rest| ensures !SameText(key(xs[0]), key(rest[i]), fold) {
        assert rest[i] in multiset(xs[1..]);
        var j :| 0 <= j < |xs[1..]| && xs[1..][j] == rest[i];
        assert xs[j + 1] == rest[i];
      }
      InsertSorts(xs[0], rest, key, fold);
    }
  }

  /** Sorted without repetition: only one order is possible. */
  lemma SameRest<T>(a: seq<T>, b: seq<T>)
    requires |a| > 0 && |b| > 0 && a[0] == b[0] && multiset(a) == multiset(b)
    ensures multiset(a[1..]) == multiset(b[1..])
  {
    assert a == [a[0]] + a[1..] && b == [b[0]] + b[1..];
    assert multiset(a[1..]) == multiset(a) - multiset{a[0]} && multiset(b[1..]) == multiset(b) - multiset{a[0]};
  }

  lemma {:induction false} SortedIsUnique<T>(a: seq<T>, b: seq<T>, key: T -> Text, fold: Fold)
    requires StrictlySorted(a, key, fold) && StrictlySorted(b, key, fold) && multiset(a) == multiset(b)
    ensures a == b
  {
    hide Before, FoldedKey;
    if |a| > 0 {
      assert a[0] in multiset(b) && |multiset(a)| == |multiset(b)|;
      assert b[0] in multiset(a);
      FirstIsLeast(a, b[0], key, fold);
      FirstIsLeast(b, a[0], key, fold);
      BeforeTotal(FoldedKey(a[0], key, fold), FoldedKey(b[0], key, fold));
      SameRest(a, b);
      assert a == [a[0]] + a[1..] && b == [b[0]] + b[1..];
      SortedIsUnique(a[1..], b[1..], key, fold);
    } else {
      assert |multiset(b)| == 0;
    }
  }

  lemma FirstIsLeast<T>(xs: seq<T>, x: T, key: T -> Text, fold: Fold)
    requires |xs| > 0 && StrictlySorted(xs, key, fold) && x in xs
    ensures x == xs[0] || Before(FoldedKey(xs[0], key, fold), FoldedKey(x, key, fold))
  {
    hide Before, FoldedKey;
    var i :| 0 <= i < |xs| && xs[i] == x;
  }

  // ---------- rearrangement ----------

  /** An element that occurs at two places occurs twice. */
  lemma TwoPlaces<T>(xs: seq<T>, i: nat, j: nat)
    requires i < j < |xs| && xs[i] == xs[j]
    ensures multiset(xs)[xs[i]] >= 2
  {
    assert xs == xs[..j] + xs[j..];
    assert xs[..j][i] == xs[i] && xs[j..][0] == xs[j];
    assert multiset(xs) == multiset(xs[..j]) + multiset(xs[j..]);
    assert xs[i] in multiset(xs[..j]) && xs[j] in multiset(xs[j..]);
  }

  lemma OccursTwice<T>(xs: seq<T>, x: T) returns (i: nat, j: nat)
    requires multiset(xs)[x] >= 2
    ensures i < j < |xs| && xs[i] == x && xs[j] == x
  {
    assert x in multiset(xs);
    i :| 0 <= i < |xs| && xs[i] == x;
    var rest := xs[..i] + xs[i + 1..];
    assert xs == xs[..i] + [xs[i]] + xs[i + 1..];
    assert multiset(xs) == multiset(rest) + multiset{x};
    assert x in multiset(rest);
    j :| 0 <= j < |rest| && rest[j] == x;
    if j < i {
      i, j := j, i;
    } else {
      j := j + 1;
    }
  }

  lemma DistinctRearranged<T>(a: seq<T>, b: seq<T>, key: T -> Text, fold: Fold)
    requires multiset(a) == multiset(b) && DistinctKeys(a, key, fold)
    ensures DistinctKeys(b, key, fold)
  {
    hide SameText;
    forall i, j | 0 <= i < j < |b| ensures !SameText(key(b[i]), key(b[j]), fold) {
      if b[i] == b[j] {
        TwoPlaces(b, i, j);
        var k, l := OccursTwice(a, b[i]);
        assert !SameText(key(a[k]), key(a[l]), fold);
      } else {
        assert b[i] in multiset(a) && b[j] in multiset(a);
        var k :| 0 <= k < |a| && a[k] == b[i];
        var l :| 0 <= l < |a| && a[l] == b[j];
        SymmetricText(key(a[k]), key(a[l]), fold);
      }
    }
  }

  lemma SymmetricText(a: Text, b: Text, fold: Fold)
    ensures SameText(a, b, fold) <==> SameText(b, a, fold)
  {
  }

  /** Whatever the input order, the sorted sequence is the same. */
  lemma SortIgnoresOrder<T>(a: seq<T>, b: seq<T>, key: T -> Text, fold: Fold)
    requires multiset(a) == multiset(b) && DistinctKeys(a, key, fold)
    ensures Sort(a, key, fold) == Sort(b, key, fold)
  {
    hide Sort, StrictlySorted, DistinctKeys;
    DistinctRearranged(a, b, key, fold);
    SortSorts(a, key, fold);
    SortSorts(b, key, fold);
    SortedIsUnique(Sort(a, key, fold), Sort(b, key, fold), key, fold);
  }
}
