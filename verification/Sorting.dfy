/** Python's `sorted`: a stable sort by a total preorder, as a function, with the facts its
    callers rely on. */
module Sorting {

  ghost predicate TotalPreorder<T(!new)>(le: (T, T) -> bool) {
    && (forall x, y :: le(x, y) || le(y, x))
    && (forall x, y, z :: le(x, y) && le(y, z) ==> le(x, z))
  }

  ghost predicate Sorted<T>(xs: seq<T>, le: (T, T) -> bool) {
    forall i, j :: 0 <= i < j < |xs| ==> le(xs[i], xs[j])
  }

  /** Insert behind every element that is not greater: this is what makes the sort stable. */
  function Insert<T>(xs: seq<T>, x: T, le: (T, T) -> bool): seq<T> {
    if xs == [] || le(xs[|xs| - 1], x) then xs + [x]
    else Insert(xs[..|xs| - 1], x, le) + [xs[|xs| - 1]]
  }

  function SortBy<T>(xs: seq<T>, le: (T, T) -> bool): seq<T> {
    if xs == [] then [] else Insert(SortBy(xs[..|xs| - 1], le), xs[|xs| - 1], le)
  }

  lemma {:induction false} InsertPermutes<T>(xs: seq<T>, x: T, le: (T, T) -> bool)
    ensures multiset(Insert(xs, x, le)) == multiset(xs) + multiset{x}
    ensures |Insert(xs, x, le)| == |xs| + 1
  {
    if !(xs == [] || le(xs[|xs| - 1], x)) {
      InsertPermutes(xs[..|xs| - 1], x, le);
      assert xs == xs[..|xs| - 1] + [xs[|xs| - 1]];
    }
  }

  lemma {:induction false} SortPermutes<T>(xs: seq<T>, le: (T, T) -> bool)
    ensures multiset(SortBy(xs, le)) == multiset(xs) && |SortBy(xs, le)| == |xs|
  {
    if xs != [] {
      SortPermutes(xs[..|xs| - 1], le);
      InsertPermutes(SortBy(xs[..|xs| - 1], le), xs[|xs| - 1], le);
      assert xs == xs[..|xs| - 1] + [xs[|xs| - 1]];
    }
  }

  lemma SameMembers<T>(xs: seq<T>, ys: seq<T>)
    requires multiset(xs) == multiset(ys)
    ensures |xs| == |ys| && forall z :: z in xs <==> z in ys
  {
    assert |multiset(xs)| == |xs| && |multiset(ys)| == |ys|;
    forall z
      ensures z in xs <==> z in ys
    {
      assert z in xs <==> z in multiset(xs);
      assert z in ys <==> z in multiset(ys);
    }
  }

  lemma {:induction false} InsertSorted<T(!new)>(xs: seq<T>, x: T, le: (T, T) -> bool)
    requires TotalPreorder(le) && Sorted(xs, le)
    ensures Sorted(Insert(xs, x, le), le)
  {
    if xs == [] || le(xs[|xs| - 1], x) {
      var n := |xs|;
      forall i | 0 <= i < n
        ensures le(xs[i], x)
      {
        assert i == n - 1 || le(xs[i], xs[n - 1]);
      }
    } else {
      var front, last := xs[..|xs| - 1], xs[|xs| - 1];
      InsertSorted(front, x, le);
      InsertPermutes(front, x, le);
      SameMembers(Insert(front, x, le), front + [x]);
      var grown := Insert(front, x, le);
      forall i | 0 <= i < |grown|
        ensures le(grown[i], last)
      {
        assert grown[i] in front + [x];
        if grown[i] != x {
          assert grown[i] in front;
        }
      }
    }
  }

  lemma {:induction false} SortSorts<T(!new)>(xs: seq<T>, le: (T, T) -> bool)
    requires TotalPreorder(le)
    ensures Sorted(SortBy(xs, le), le)
  {
    if xs != [] {
      SortSorts(xs[..|xs| - 1], le);
      InsertSorted(SortBy(xs[..|xs| - 1], le), xs[|xs| - 1], le);
    }
  }

  /** Order first by `le`, and by `tie` where `le` sees no difference. */
  ghost predicate LexSorted<T>(xs: seq<T>, le: (T, T) -> bool, tie: (T, T) -> bool) {
    forall i, j :: 0 <= i < j < |xs| ==> le(xs[i], xs[j]) && (le(xs[j], xs[i]) ==> tie(xs[i], xs[j]))
  }

  lemma {:induction false} InsertStable<T(!new)>(xs: seq<T>, x: T, le: (T, T) -> bool, tie: (T, T) -> bool)
    requires TotalPreorder(le) && LexSorted(xs, le, tie)
    requires forall y :: y in xs ==> tie(y, x)
    ensures LexSorted(Insert(xs, x, le), le, tie)
  {
    if xs == [] || le(xs[|xs| - 1], x) {
      var n := |xs|;
      forall i | 0 <= i < n
        ensures le(xs[i], x) && tie(xs[i], x)
      {
        assert xs[i] in xs;
        assert i == n - 1 || le(xs[i], xs[n - 1]);
      }
    } else {
      var front, last := xs[..|xs| - 1], xs[|xs| - 1];
      InsertStable(front, x, le, tie);
      InsertPermutes(front, x, le);
      SameMembers(Insert(front, x, le), front + [x]);
      var grown := Insert(front, x, le);
      forall i | 0 <= i < |grown|
        ensures le(grown[i], last) && (le(last, grown[i]) ==> tie(grown[i], last))
      {
        assert grown[i] in front + [x];
        if grown[i] != x {
          assert grown[i] in front;
        }
      }
    }
  }

  /** Stability: sorting a list already ordered by `tie` orders it by `le`, then `tie`. */
  lemma {:induction false} SortStable<T(!new)>(xs: seq<T>, le: (T, T) -> bool, tie: (T, T) -> bool)
    requires TotalPreorder(le) && Sorted(xs, tie)
    ensures LexSorted(SortBy(xs, le), le, tie)
  {
    if xs != [] {
      var front, x := xs[..|xs| - 1], xs[|xs| - 1];
      SortStable(front, le, tie);
      SortPermutes(front, le);
      SameMembers(SortBy(front, le), front);
      forall y | y in SortBy(front, le)
        ensures tie(y, x)
      {
        assert y in front;
      }
      InsertStable(SortBy(front, le), x, le, tie);
    }
  }

  lemma LeastFirst<T(!new)>(xs: seq<T>, ys: seq<T>, le: (T, T) -> bool)
    requires multiset(xs) == multiset(ys) && xs != [] && ys != [] && Sorted(xs, le) && Sorted(ys, le)
    ensures xs[0] == ys[0] || (le(xs[0], ys[0]) && le(ys[0], xs[0]))
  {
    SameMembers(xs, ys);
    assert xs[0] in ys && ys[0] in xs;
    var i :| 0 <= i < |xs| && xs[i] == ys[0];
    var j :| 0 <= j < |ys| && ys[j] == xs[0];
    assert i > 0 ==> le(xs[0], xs[i]);
    assert j > 0 ==> le(ys[0], ys[j]);
  }

  lemma TailsPermute<T>(xs: seq<T>, ys: seq<T>)
    requires multiset(xs) == multiset(ys) && xs != [] && ys != [] && xs[0] == ys[0]
    ensures multiset(xs[1..]) == multiset(ys[1..])
  {
    assert xs == [xs[0]] + xs[1..] && ys == [ys[0]] + ys[1..];
    assert multiset(xs[1..]) == multiset(xs) - multiset{xs[0]};
    assert multiset(ys[1..]) == multiset(ys) - multiset{ys[0]};
  }

  /** A list has one arrangement sorted by an antisymmetric order. */
  lemma {:induction false} SortedUnique<T(!new)>(xs: seq<T>, ys: seq<T>, le: (T, T) -> bool)
    requires multiset(xs) == multiset(ys) && Sorted(xs, le) && Sorted(ys, le)
    requires forall x, y :: x in xs && y in xs && le(x, y) && le(y, x) ==> x == y
    ensures xs == ys
  {
    SameMembers(xs, ys);
    if xs != [] {
      LeastFirst(xs, ys, le);
      assert xs[0] in xs && ys[0] in ys;
      TailsPermute(xs, ys);
      forall x, y | x in xs[1..] && y in xs[1..] && le(x, y) && le(y, x)
        ensures x == y
      {
        assert x in xs && y in xs;
      }
      SortedUnique(xs[1..], ys[1..], le);
    }
  }

  lemma {:induction false} SortOfSorted<T>(xs: seq<T>, le: (T, T) -> bool)
    requires Sorted(xs, le)
    ensures SortBy(xs, le) == xs
  {
    if xs != [] {
      SortOfSorted(xs[..|xs| - 1], le);
    }
  }

  lemma SortedPrefix<T>(xs: seq<T>, n: nat, le: (T, T) -> bool)
    requires n <= |xs| && Sorted(xs, le)
    ensures Sorted(xs[..n], le)
  {
  }

  lemma OccursTwice<T>(xs: seq<T>, i: nat, j: nat)
    requires i < j < |xs| && xs[i] == xs[j]
    ensures multiset(xs)[xs[i]] >= 2
  {
    assert xs == xs[..j] + xs[j..];
    assert xs[..j][i] == xs[i] && xs[j..][0] == xs[j];
    assert xs[i] in multiset(xs[..j]) && xs[j] in multiset(xs[j..]);
  }

  lemma TwoPositions<T>(xs: seq<T>, x: T) returns (p: nat, q: nat)
    requires multiset(xs)[x] >= 2
    ensures p < q < |xs| && xs[p] == x && xs[q] == x
  {
    assert x in multiset(xs);
    var k :| 0 <= k < |xs| && xs[k] == x;
    assert xs == xs[..k] + [x] + xs[k + 1..];
    if x in multiset(xs[..k]) {
      var i :| 0 <= i < k && xs[..k][i] == x;
      p, q := i, k;
    } else {
      assert x in multiset(xs[k + 1..]);
      var i :| 0 <= i < |xs| - k - 1 && xs[k + 1..][i] == x;
      p, q := k, k + 1 + i;
    }
  }

  /** A symmetric relation that holds pairwise of a list holds pairwise of its permutations. */
  lemma PairwisePermutes<T(!new)>(xs: seq<T>, ys: seq<T>, rel: (T, T) -> bool)
    requires multiset(xs) == multiset(ys) && Sorted(xs, rel)
    requires forall x, y :: rel(x, y) ==> rel(y, x)
    ensures Sorted(ys, rel)
  {
    SameMembers(xs, ys);
    forall i, j | 0 <= i < j < |ys|
      ensures rel(ys[i], ys[j])
    {
      if ys[i] == ys[j] {
        OccursTwice(ys, i, j);
        var p, q := TwoPositions(xs, ys[i]);
        assert rel(xs[p], xs[q]);
      } else {
        assert ys[i] in xs && ys[j] in xs;
        var p :| 0 <= p < |xs| && xs[p] == ys[i];
        var q :| 0 <= q < |xs| && xs[q] == ys[j];
        assert if p < q then rel(xs[p], xs[q]) else rel(xs[q], xs[p]);
      }
    }
  }

  function MapSeq<T, U>(xs: seq<T>, f: T -> U): (r: seq<U>)
    ensures |r| == |xs|
  {
    seq(|xs|, i requires 0 <= i < |xs| => f(xs[i]))
  }

  lemma {:induction false} InsertMap<T(!new), U>(xs: seq<T>, x: T, f: T -> U, le: (T, T) -> bool, le': (U, U) -> bool)
    requires forall a, b :: le'(f(a), f(b)) == le(a, b)
    ensures Insert(MapSeq(xs, f), f(x), le') == MapSeq(Insert(xs, x, le), f)
  {
    if !(xs == [] || le(xs[|xs| - 1], x)) {
      InsertMap(xs[..|xs| - 1], x, f, le, le');
      assert MapSeq(xs, f)[..|xs| - 1] == MapSeq(xs[..|xs| - 1], f);
    }
  }

  /** Sorting commutes with a map that preserves the order. */
  lemma {:induction false} SortMap<T(!new), U>(xs: seq<T>, f: T -> U, le: (T, T) -> bool, le': (U, U) -> bool)
    requires forall a, b :: le'(f(a), f(b)) == le(a, b)
    ensures SortBy(MapSeq(xs, f), le') == MapSeq(SortBy(xs, le), f)
  {
    if xs != [] {
      SortMap(xs[..|xs| - 1], f, le, le');
      assert MapSeq(xs, f)[..|xs| - 1] == MapSeq(xs[..|xs| - 1], f);
      InsertMap(SortBy(xs[..|xs| - 1], le), xs[|xs| - 1], f, le, le');
    }
  }
}
