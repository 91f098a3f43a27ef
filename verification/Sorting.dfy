/** The stable sort that the repository calls on vectors of texts and of revocations. */
module Sorting {
  import opened Prelude

  /** The key of a text that is sorted by itself. */
  function Self(t: Text): Text { t }

  function InsertBy<T>(key: T -> Text, x: T, xs: seq<T>): seq<T> {
    if xs == [] then [x]
    else if Precedes(key(x), key(xs[0])) then [x] + xs
    else [xs[0]] + InsertBy(key, x, xs[1..])
  }

  function SortBy<T>(key: T -> Text, xs: seq<T>): seq<T> {
    if xs == [] then [] else InsertBy(key, xs[|xs| - 1], SortBy(key, xs[..|xs| - 1]))
  }

  ghost predicate SortedBy<T>(key: T -> Text, xs: seq<T>) {
    forall i, j :: 0 <= i < j < |xs| ==> !Precedes(key(xs[j]), key(xs[i]))
  }

  ghost predicate StrictlySortedBy<T>(key: T -> Text, xs: seq<T>) {
    forall i, j :: 0 <= i < j < |xs| ==> Precedes(key(xs[i]), key(xs[j]))
  }

  ghost predicate DistinctBy<T>(key: T -> Text, xs: seq<T>) {
    forall i, j :: 0 <= i < j < |xs| ==> key(xs[i]) != key(xs[j])
  }

  lemma {:induction false} InsertKeepsElements<T>(key: T -> Text, x: T, xs: seq<T>)
    ensures multiset(InsertBy(key, x, xs)) == multiset(xs) + multiset{x}
  {
    if xs != [] {
      assert xs == [xs[0]] + xs[1..];
      if !Precedes(key(x), key(xs[0])) {
        InsertKeepsElements(key, x, xs[1..]);
      }
    }
  }

  lemma {:induction false} InsertKeepsOrder<T>(key: T -> Text, x: T, xs: seq<T>)
    requires SortedBy(key, xs)
    ensures SortedBy(key, InsertBy(key, x, xs))
  {
    if xs == [] {
    } else if Precedes(key(x), key(xs[0])) {
      var r := [x] + xs;
      forall i, j | 0 <= i < j < |r| ensures !Precedes(key(r[j]), key(r[i])) {
        if i == 0 && Precedes(key(xs[j - 1]), key(x)) {
          PrecedesIsTransitive(key(xs[j - 1]), key(x), key(xs[0]));
          if j == 1 {
            PrecedesIsIrreflexive(key(xs[0]));
          }
        }
      }
    } else {
      var tail := InsertBy(key, x, xs[1..]);
      InsertKeepsOrder(key, x, xs[1..]);
      InsertKeepsElements(key, x, xs[1..]);
      forall j | 0 <= j < |tail| ensures !Precedes(key(tail[j]), key(xs[0])) {
        assert tail[j] in multiset(tail);
        if tail[j] != x {
          assert tail[j] in xs[1..];
        }
      }
    }
  }

  lemma {:induction false} SortSorts<T>(key: T -> Text, xs: seq<T>)
    ensures SortedBy(key, SortBy(key, xs))
    ensures multiset(SortBy(key, xs)) == multiset(xs)
    ensures |SortBy(key, xs)| == |xs|
  {
    if xs != [] {
      var front, last := xs[..|xs| - 1], xs[|xs| - 1];
      SortSorts(key, front);
      InsertKeepsOrder(key, last, SortBy(key, front));
      InsertKeepsElements(key, last, SortBy(key, front));
      assert xs == front + [last];
    }
    assert |multiset(SortBy(key, xs))| == |multiset(xs)|;
  }

  /** Membership is what a sort keeps. */
  lemma SortKeepsMembers<T>(key: T -> Text, xs: seq<T>)
    ensures forall x :: x in SortBy(key, xs) <==> x in xs
  {
    SortSorts(key, xs);
    forall x ensures x in SortBy(key, xs) <==> x in xs {
      assert x in SortBy(key, xs) <==> x in multiset(SortBy(key, xs));
      assert x in xs <==> x in multiset(xs);
    }
  }

  /** Inserting an element that belongs at the end appends it. */
  lemma {:induction false} InsertAtEnd<T>(key: T -> Text, x: T, xs: seq<T>)
    requires forall i :: 0 <= i < |xs| ==> !Precedes(key(x), key(xs[i]))
    ensures InsertBy(key, x, xs) == xs + [x]
  {
    if xs != [] {
      InsertAtEnd(key, x, xs[1..]);
    }
  }

  /** A sort leaves what is already sorted as it is. */
  lemma {:induction false} SortFixesSorted<T>(key: T -> Text, xs: seq<T>)
    requires SortedBy(key, xs)
    ensures SortBy(key, xs) == xs
  {
    if xs != [] {
      var front, last := xs[..|xs| - 1], xs[|xs| - 1];
      SortFixesSorted(key, front);
      InsertAtEnd(key, last, front);
    }
  }

  lemma SortIsIdempotent<T>(key: T -> Text, xs: seq<T>)
    ensures SortBy(key, SortBy(key, xs)) == SortBy(key, xs)
  {
    SortSorts(key, xs);
    SortFixesSorted(key, SortBy(key, xs));
  }

  /** The first n elements are in strict order. */
  ghost predicate StrictUpTo<T>(key: T -> Text, xs: seq<T>, n: nat)
    requires n <= |xs|
  {
    forall i, j :: 0 <= i < j < n ==> Precedes(key(xs[i]), key(xs[j]))
  }

  /** Comparing one element with its neighbour extends the order by one, and only then. */
  lemma StrictPrefixGrows<T>(key: T -> Text, xs: seq<T>, n: nat)
    requires n < |xs| && StrictUpTo(key, xs, n)
    ensures StrictUpTo(key, xs, n + 1) <==> n == 0 || Precedes(key(xs[n - 1]), key(xs[n]))
  {
    if n > 0 && Precedes(key(xs[n - 1]), key(xs[n])) {
      forall i | 0 <= i < n - 1 ensures Precedes(key(xs[i]), key(xs[n])) {
        PrecedesIsTransitive(key(xs[i]), key(xs[n - 1]), key(xs[n]));
      }
    }
  }

  lemma StrictAtEnds<T>(key: T -> Text, xs: seq<T>)
    ensures StrictUpTo(key, xs, 0)
    ensures StrictUpTo(key, xs, |xs|) <==> StrictlySortedBy(key, xs)
  {
  }

  /** The two comparisons of a validating loop decide whether the order goes on; if it does
      not, the whole list is not in order. */
  lemma NeighbourDecides<T>(key: T -> Text, xs: seq<T>, n: nat)
    requires n < |xs| && StrictUpTo(key, xs, n)
    ensures n == 0 ==> StrictUpTo(key, xs, n + 1)
    ensures n > 0 ==>
      (StrictUpTo(key, xs, n + 1) <==>
         key(xs[n - 1]) != key(xs[n]) && !Precedes(key(xs[n]), key(xs[n - 1])))
    ensures !StrictUpTo(key, xs, n + 1) ==> !StrictUpTo(key, xs, |xs|)
  {
    StrictPrefixGrows(key, xs, n);
    if n > 0 {
      PrecedesIsIrreflexive(key(xs[n]));
      PrecedesIsTotal(key(xs[n - 1]), key(xs[n]));
      if Precedes(key(xs[n - 1]), key(xs[n])) {
        PrecedesIsAsymmetric(key(xs[n - 1]), key(xs[n]));
      }
    }
  }

  lemma StrictIsDistinct<T>(key: T -> Text, xs: seq<T>)
    requires StrictlySortedBy(key, xs)
    ensures DistinctBy(key, xs)
  {
    forall i, j | 0 <= i < j < |xs| ensures key(xs[i]) != key(xs[j]) {
      PrecedesIsAsymmetric(key(xs[i]), key(xs[j]));
    }
  }

  /** Sorting keeps keys distinct, because it permutes. */
  lemma {:induction false} SortKeepsDistinct<T>(key: T -> Text, xs: seq<T>)
    requires DistinctBy(key, xs)
    ensures StrictlySortedBy(key, SortBy(key, xs))
  {
    if xs != [] {
      var front, last := xs[..|xs| - 1], xs[|xs| - 1];
      SortKeepsDistinct(key, front);
      SortSorts(key, front);
      var sorted := SortBy(key, front);
      forall y | y in sorted ensures key(y) != key(last) {
        assert y in multiset(sorted);
        assert y in multiset(front);
        assert y in front;
        var i :| 0 <= i < |front| && front[i] == y;
        assert xs[i] == y;
      }
      InsertStrictly(key, last, sorted);
    }
  }

  lemma {:induction false} InsertStrictly<T>(key: T -> Text, x: T, xs: seq<T>)
    requires StrictlySortedBy(key, xs)
    requires forall y :: y in xs ==> key(y) != key(x)
    ensures StrictlySortedBy(key, InsertBy(key, x, xs))
    ensures forall y :: y in InsertBy(key, x, xs) ==> y == x || y in xs
  {
    if xs == [] {
    } else if Precedes(key(x), key(xs[0])) {
      forall j | 0 < j < |xs| ensures Precedes(key(x), key(xs[j])) {
        PrecedesIsTransitive(key(x), key(xs[0]), key(xs[j]));
      }
    } else {
      assert xs[0] in xs;
      PrecedesIsTotal(key(x), key(xs[0]));
      InsertStrictly(key, x, xs[1..]);
      var tail := InsertBy(key, x, xs[1..]);
      forall j | 0 <= j < |tail| ensures Precedes(key(xs[0]), key(tail[j])) {
        if tail[j] != x {
          assert tail[j] in xs[1..];
        }
      }
    }
  }

  /** A strictly sorted sequence is determined by its members. */
  lemma {:induction false} StrictlySortedIsUnique<T>(key: T -> Text, xs: seq<T>, ys: seq<T>)
    requires StrictlySortedBy(key, xs) && StrictlySortedBy(key, ys)
    requires forall x :: x in xs <==> x in ys
    ensures xs == ys
  {
    assert ys == [] || ys[0] in ys;
    if xs != [] {
      assert xs[0] in xs;
      HeadsAgree(key, xs, ys);
      HeadIsNotInTail(key, xs);
      HeadIsNotInTail(key, ys);
      assert xs == [xs[0]] + xs[1..] && ys == [ys[0]] + ys[1..];
      forall x ensures x in xs[1..] <==> x in ys[1..] {
        assert x in xs <==> x == xs[0] || x in xs[1..];
        assert x in ys <==> x == ys[0] || x in ys[1..];
      }
      StrictlySortedIsUnique(key, xs[1..], ys[1..]);
    }
  }

  lemma HeadIsNotInTail<T>(key: T -> Text, xs: seq<T>)
    requires StrictlySortedBy(key, xs) && xs != []
    ensures xs[0] !in xs[1..]
  {
    if xs[0] in xs[1..] {
      var j :| 0 <= j < |xs[1..]| && xs[1..][j] == xs[0];
      PrecedesIsIrreflexive(key(xs[0]));
      assert false;
    }
  }

  lemma HeadsAgree<T>(key: T -> Text, xs: seq<T>, ys: seq<T>)
    requires StrictlySortedBy(key, xs) && StrictlySortedBy(key, ys)
    requires xs != [] && ys != [] && xs[0] in ys && ys[0] in xs
    ensures xs[0] == ys[0]
  {
    var i :| 0 <= i < |xs| && xs[i] == ys[0];
    var j :| 0 <= j < |ys| && ys[j] == xs[0];
    if i > 0 && j > 0 {
      PrecedesIsAsymmetric(key(xs[0]), key(ys[0]));
      assert false;
    }
  }

  /** Distinct keys make the sorted sequence depend on the members only. */
  lemma SortDependsOnMembers<T>(key: T -> Text, xs: seq<T>, ys: seq<T>)
    requires DistinctBy(key, xs) && DistinctBy(key, ys)
    requires forall x :: x in xs <==> x in ys
    ensures SortBy(key, xs) == SortBy(key, ys)
  {
    SortKeepsDistinct(key, xs);
    SortKeepsDistinct(key, ys);
    SortKeepsMembers(key, xs);
    SortKeepsMembers(key, ys);
    StrictlySortedIsUnique(key, SortBy(key, xs), SortBy(key, ys));
  }

  // ----- Finding duplicates -----

  ghost predicate Injective<T(!new)>(key: T -> Text) {
    forall x, y :: key(x) == key(y) ==> x == y
  }

  predicate NoNeighboursEqual<T(==)>(xs: seq<T>) {
    forall i :: 0 < i < |xs| ==> xs[i - 1] != xs[i]
  }

  /** In sorted order, comparing neighbours finds every duplicate. */
  lemma NeighboursSuffice<T(!new)>(key: T -> Text, xs: seq<T>)
    requires SortedBy(key, xs) && Injective(key)
    ensures NoNeighboursEqual(xs) <==> StrictlySortedBy(key, xs)
  {
    if NoNeighboursEqual(xs) {
      var n := 0;
      while n < |xs|
        invariant n <= |xs|
        invariant forall i, j :: 0 <= i < j < n ==> Precedes(key(xs[i]), key(xs[j]))
      {
        if n > 0 {
          assert !Precedes(key(xs[n]), key(xs[n - 1]));
          PrecedesIsTotal(key(xs[n - 1]), key(xs[n]));
          forall i | 0 <= i < n - 1 ensures Precedes(key(xs[i]), key(xs[n])) {
            PrecedesIsTransitive(key(xs[i]), key(xs[n - 1]), key(xs[n]));
          }
        }
        n := n + 1;
      }
    }
    if StrictlySortedBy(key, xs) {
      forall i | 0 < i < |xs| ensures xs[i - 1] != xs[i] {
        assert Precedes(key(xs[i - 1]), key(xs[i]));
        PrecedesIsIrreflexive(key(xs[i]));
      }
    }
  }

  /** After sorting, neighbours differ exactly when the original list has no duplicates. */
  lemma DuplicatesShow<T(!new)>(key: T -> Text, xs: seq<T>)
    requires Injective(key)
    ensures NoNeighboursEqual(SortBy(key, xs)) <==> DistinctBy(key, xs)
  {
    var s := SortBy(key, xs);
    SortSorts(key, xs);
    NeighboursSuffice(key, s);
    if DistinctBy(key, xs) {
      SortKeepsDistinct(key, xs);
    }
    if StrictlySortedBy(key, s) {
      StrictIsDistinct(key, s);
      forall i, j | 0 <= i < j < |xs| ensures key(xs[i]) != key(xs[j]) {
        if xs[i] == xs[j] {
          TwiceInMultiset(xs, i, j);
          TwiceInSequence(key, s, xs[i]);
        }
      }
    }
  }

  lemma TwiceInMultiset<T>(xs: seq<T>, i: nat, j: nat)
    requires i < j < |xs| && xs[i] == xs[j]
    ensures multiset(xs)[xs[i]] >= 2
  {
    assert xs == xs[..j] + xs[j..];
    assert xs[..j][i] == xs[i] && xs[j..][0] == xs[i];
    assert xs[i] in multiset(xs[..j]) && xs[i] in multiset(xs[j..]);
  }

  lemma {:induction false} TwiceInSequence<T>(key: T -> Text, xs: seq<T>, x: T)
    requires multiset(xs)[x] >= 2
    ensures !DistinctBy(key, xs)
  {
    assert xs == [xs[0]] + xs[1..];
    if xs[0] == x {
      assert x in multiset(xs[1..]);
      var l :| 0 <= l < |xs[1..]| && xs[1..][l] == x;
      assert key(xs[0]) == key(xs[l + 1]);
    } else {
      TwiceInSequence(key, xs[1..], x);
      var k, l :| 0 <= k < l < |xs[1..]| && key(xs[1..][k]) == key(xs[1..][l]);
      assert key(xs[k + 1]) == key(xs[l + 1]);
    }
  }
}
