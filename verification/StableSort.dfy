/** A stable insertion sort by a total preorder, the meaning given to the source languages'
    built-in stable sorts. */
module StableSort {

  ghost predicate TotalPreorder<T(!new)>(le: (T, T) -> bool) {
    && (forall a, b :: le(a, b) || le(b, a))
    && (forall a, b, c :: le(a, b) && le(b, c) ==> le(a, c))
  }

  ghost predicate SortedBy<T(!new)>(s: seq<T>, le: (T, T) -> bool) {
    forall i, j | 0 <= i < j < |s| :: le(s[i], s[j])
  }

  /** Places `x` after everything it does not come strictly before. */
  function Insert<T>(sorted: seq<T>, x: T, le: (T, T) -> bool): seq<T> {
    if sorted == [] then [x]
    else
      var n := |sorted| - 1;
      if le(sorted[n], x) then sorted + [x] else Insert(sorted[..n], x, le) + [sorted[n]]
  }

  function Sort<T>(s: seq<T>, le: (T, T) -> bool): seq<T> {
    if s == [] then [] else Insert(Sort(s[..|s| - 1], le), s[|s| - 1], le)
  }

  lemma {:induction false} InsertIsPermutation<T>(sorted: seq<T>, x: T, le: (T, T) -> bool)
    ensures multiset(Insert(sorted, x, le)) == multiset(sorted) + multiset{x}
  {
    if sorted != [] {
      var n := |sorted| - 1;
      assert sorted == sorted[..n] + [sorted[n]];
      InsertIsPermutation(sorted[..n], x, le);
    }
  }

  lemma {:induction false} InsertKeepsSorted<T(!new)>(sorted: seq<T>, x: T, le: (T, T) -> bool)
    requires TotalPreorder(le) && SortedBy(sorted, le)
    ensures SortedBy(Insert(sorted, x, le), le)
  {
    if sorted != [] {
      var n := |sorted| - 1;
      var last := sorted[n];
      if le(last, x) {
        assert forall i | 0 <= i < n :: le(sorted[i], last);
      } else {
        InsertKeepsSorted(sorted[..n], x, le);
        InsertIsPermutation(sorted[..n], x, le);
        var rest := Insert(sorted[..n], x, le);
        forall i | 0 <= i < |rest|
          ensures le(rest[i], last)
        {
          assert rest[i] in multiset(rest);
          assert rest[i] == x || rest[i] in sorted[..n];
        }
      }
    }
  }

  lemma LastOf<T>(s: seq<T>)
    requires s != []
    ensures multiset(s) == multiset(s[..|s| - 1]) + multiset{s[|s| - 1]}
  {
    assert s == s[..|s| - 1] + [s[|s| - 1]];
  }

  lemma {:induction false} SortIsPermutation<T>(s: seq<T>, le: (T, T) -> bool)
    ensures multiset(Sort(s, le)) == multiset(s)
    ensures |Sort(s, le)| == |s|
  {
    if s != [] {
      var n := |s| - 1;
      SortIsPermutation(s[..n], le);
      InsertIsPermutation(Sort(s[..n], le), s[n], le);
      LastOf(s);
    }
    SameCount(Sort(s, le), s);
  }

  lemma SameCount<T>(s: seq<T>, t: seq<T>)
    requires multiset(s) == multiset(t)
    ensures |s| == |t|
  {
    assert |multiset(s)| == |s| && |multiset(t)| == |t|;
  }

  lemma {:induction false} SortIsSorted<T(!new)>(s: seq<T>, le: (T, T) -> bool)
    requires TotalPreorder(le)
    ensures SortedBy(Sort(s, le), le)
  {
    if s != [] {
      SortIsSorted(s[..|s| - 1], le);
      InsertKeepsSorted(Sort(s[..|s| - 1], le), s[|s| - 1], le);
    }
  }

  /** Membership is what a permutation keeps first of all. */
  lemma SortKeepsMembers<T>(s: seq<T>, le: (T, T) -> bool)
    ensures forall x :: x in Sort(s, le) <==> x in s
  {
    SortIsPermutation(s, le);
    assert forall x :: x in Sort(s, le) <==> x in multiset(Sort(s, le));
    assert forall x :: x in s <==> x in multiset(s);
  }

  lemma {:induction false} SortOfSorted<T(!new)>(s: seq<T>, le: (T, T) -> bool)
    requires SortedBy(s, le)
    ensures Sort(s, le) == s
  {
    if s != [] {
      var n := |s| - 1;
      SortOfSorted(s[..n], le);
      assert s == s[..n] + [s[n]];
    }
  }

  /** No two elements share a key. */
  ghost predicate DistinctBy<T, K>(s: seq<T>, key: T -> K) {
    forall i, j | 0 <= i < j < |s| :: key(s[i]) != key(s[j])
  }

  lemma {:induction false} InsertKeepsDistinct<T, K>(sorted: seq<T>, x: T, le: (T, T) -> bool, key: T -> K)
    requires DistinctBy(sorted, key)
    requires forall i | 0 <= i < |sorted| :: key(sorted[i]) != key(x)
    ensures DistinctBy(Insert(sorted, x, le), key)
  {
    if sorted != [] {
      var n := |sorted| - 1;
      if !le(sorted[n], x) {
        InsertKeepsDistinct(sorted[..n], x, le, key);
        InsertIsPermutation(sorted[..n], x, le);
        var rest := Insert(sorted[..n], x, le);
        forall i | 0 <= i < |rest|
          ensures key(rest[i]) != key(sorted[n])
        {
          assert rest[i] in multiset(rest);
          assert rest[i] == x || rest[i] in sorted[..n];
        }
      }
    }
  }

  lemma {:induction false} SortKeepsDistinct<T, K>(s: seq<T>, le: (T, T) -> bool, key: T -> K)
    requires DistinctBy(s, key)
    ensures DistinctBy(Sort(s, le), key)
  {
    if s != [] {
      var n := |s| - 1;
      SortKeepsDistinct(s[..n], le, key);
      SortIsPermutation(s[..n], le);
      var sorted := Sort(s[..n], le);
      forall i | 0 <= i < |sorted|
        ensures key(sorted[i]) != key(s[n])
      {
        assert sorted[i] in multiset(sorted);
        assert sorted[i] in s[..n];
        var j :| 0 <= j < n && s[j] == sorted[i];
      }
      InsertKeepsDistinct(Sort(s[..n], le), s[n], le, key);
    }
  }

  /** The elements that tie with `x`, in order. */
  function Ties<T>(s: seq<T>, le: (T, T) -> bool, x: T): seq<T> {
    if s == [] then []
    else
      var n := |s| - 1;
      Ties(s[..n], le, x) + if le(x, s[n]) && le(s[n], x) then [s[n]] else []
  }

  lemma TiesAppend<T>(s: seq<T>, le: (T, T) -> bool, x: T, y: T)
    ensures Ties(s + [y], le, x) == Ties(s, le, x) + if le(x, y) && le(y, x) then [y] else []
  {
    assert (s + [y])[..|s|] == s;
  }

  lemma {:induction false} InsertIsStable<T(!new)>(sorted: seq<T>, y: T, le: (T, T) -> bool, x: T)
    requires TotalPreorder(le)
    ensures Ties(Insert(sorted, y, le), le, x) == Ties(sorted, le, x) + if le(x, y) && le(y, x) then [y] else []
  {
    if sorted == [] || le(sorted[|sorted| - 1], y) {
      assert sorted == [] ==> [y] == sorted + [y];
      TiesAppend(sorted, le, x, y);
    } else {
      var n := |sorted| - 1;
      InsertIsStable(sorted[..n], y, le, x);
      TiesAppend(Insert(sorted[..n], y, le), le, x, sorted[n]);
    }
  }

  /** Elements that tie keep their order. */
  lemma {:induction false} SortIsStable<T(!new)>(s: seq<T>, le: (T, T) -> bool, x: T)
    requires TotalPreorder(le)
    ensures Ties(Sort(s, le), le, x) == Ties(s, le, x)
  {
    if s != [] {
      var n := |s| - 1;
      SortIsStable(s[..n], le, x);
      InsertIsStable(Sort(s[..n], le), s[n], le, x);
    }
  }
}
