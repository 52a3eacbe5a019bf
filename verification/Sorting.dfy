/** Sorting by a comparison, as sort.Slice promises it: a permutation in order. */
module Sorting {

  /** A comparison by which a sequence can be sorted; equal elements may be different. */
  ghost predicate Comparison<T(!new)>(less: (T, T) -> bool) {
    && (forall a, b :: less(a, b) ==> !less(b, a))
    && forall a, b, c :: !less(c, b) && !less(b, a) ==> !less(c, a)
  }

  ghost predicate Sorted<T(!new)>(less: (T, T) -> bool, s: seq<T>) {
    forall i, j :: 0 <= i < j < |s| ==> !less(s[j], s[i])
  }

  function Insert<T>(less: (T, T) -> bool, x: T, s: seq<T>): seq<T> {
    if s == [] then [x]
    else if less(x, s[|s| - 1]) then Insert(less, x, s[..|s| - 1]) + [s[|s| - 1]]
    else s + [x]
  }

  lemma {:induction false} InsertKeeps<T>(less: (T, T) -> bool, x: T, s: seq<T>)
    ensures multiset(Insert(less, x, s)) == multiset(s) + multiset{x}
  {
    if s == [] {
    } else {
      InsertKeeps(less, x, s[..|s| - 1]);
      assert s == s[..|s| - 1] + [s[|s| - 1]];
    }
  }

  lemma AppendSorted<T(!new)>(less: (T, T) -> bool, s: seq<T>, x: T)
    requires Sorted(less, s) && forall u :: u in multiset(s) ==> !less(x, u)
    ensures Sorted(less, s + [x])
  {
    forall i | 0 <= i < |s|
      ensures !less(x, s[i])
    {
      assert s[i] in multiset(s);
    }
  }

  lemma {:induction false} InsertSorts<T(!new)>(less: (T, T) -> bool, x: T, s: seq<T>)
    requires Comparison(less) && Sorted(less, s)
    ensures Sorted(less, Insert(less, x, s))
  {
    if s == [] {
    } else {
      var init, last := s[..|s| - 1], s[|s| - 1];
      if less(x, last) {
        InsertSorts(less, x, init);
        InsertKeeps(less, x, init);
        AppendSorted(less, Insert(less, x, init), last);
      } else {
        AppendSorted(less, s, x);
      }
    }
  }

  /** Every element stays as often as it was there. */
  method Sort<T(!new, ==)>(less: (T, T) -> bool, s: seq<T>) returns (sorted: seq<T>)
    requires Comparison(less)
    ensures Sorted(less, sorted) && multiset(sorted) == multiset(s)
  {
    sorted := [];
    for i := 0 to |s|
      invariant Sorted(less, sorted) && multiset(sorted) == multiset(s[..i])
    {
      assert s[..i + 1] == s[..i] + [s[i]];
      InsertKeeps(less, s[i], sorted);
      InsertSorts(less, s[i], sorted);
      sorted := Insert(less, s[i], sorted);
    }
    assert s[..|s|] == s;
  }

  /** No element occurs twice exactly when none is counted twice. */
  lemma {:induction false} DistinctCount<T>(s: seq<T>)
    ensures (forall i, j :: 0 <= i < j < |s| ==> s[i] != s[j]) <==> forall t :: multiset(s)[t] <= 1
  {
    if s == [] {
    } else {
      var init, last := s[..|s| - 1], s[|s| - 1];
      DistinctCount(init);
      assert s == init + [last];
      assert forall t :: multiset(s)[t] == multiset(init)[t] + (if t == last then 1 else 0);
      if forall i, j :: 0 <= i < j < |s| ==> s[i] != s[j] {
        assert forall i, j :: 0 <= i < j < |init| ==> init[i] != init[j];
        assert last !in init;
        assert multiset(init)[last] == 0;
      }
      if forall t :: multiset(s)[t] <= 1 {
        assert multiset(init)[last] == 0;
        assert last !in init;
      }
    }
  }

  lemma SameMembers<T>(a: seq<T>, b: seq<T>)
    requires multiset(a) == multiset(b)
    ensures forall t :: t in a <==> t in b
  {
    assert forall t :: t in a <==> t in multiset(a);
    assert forall t :: t in b <==> t in multiset(b);
  }
}
