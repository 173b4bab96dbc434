/** Comparators and filters in the style of the C comparison functions: an int whose sign is the answer. */
module Orders {

  /** Comparing in either direction agrees, and "at most" is transitive. */
  ghost predicate TotalPreorder<T(!new)>(cmp: (T, T) -> int) {
    && (forall a, b :: cmp(a, b) < 0 <==> cmp(b, a) > 0)
    && (forall a, b, c :: cmp(a, b) <= 0 && cmp(b, c) <= 0 ==> cmp(a, c) <= 0)
  }

  /** A filter answers positive before the match, zero inside it and negative after it. */
  ghost predicate Monotone<T(!new)>(cmp: (T, T) -> int, filter: T -> int) {
    forall a, b :: cmp(a, b) <= 0 ==>
      (filter(a) < 0 ==> filter(b) < 0) && (filter(a) == 0 ==> filter(b) <= 0)
  }

  ghost predicate Sorted<T(!new)>(cmp: (T, T) -> int, s: seq<T>) {
    forall i, j :: 0 <= i < j < |s| ==> cmp(s[i], s[j]) <= 0
  }

  /** Along `s` the filter never climbs back: positive, then zero, then negative. */
  ghost predicate Falls<T(!new)>(filter: T -> int, s: seq<T>) {
    forall i, j :: 0 <= i < j < |s| ==>
      (filter(s[i]) < 0 ==> filter(s[j]) < 0) && (filter(s[i]) == 0 ==> filter(s[j]) <= 0)
  }

  ghost predicate NoDuplicates<T(!new)>(s: seq<T>) {
    forall i, j :: 0 <= i < j < |s| ==> s[i] != s[j]
  }

  /** Comparing a fixed key against the other entries is itself a monotone filter (the NULL filter in C). */
  lemma KeyFilterMonotone<T(!new)>(cmp: (T, T) -> int, key: T)
    requires TotalPreorder(cmp)
    ensures Monotone(cmp, x => cmp(key, x))
  {
    forall a, b | cmp(a, b) <= 0
      ensures (cmp(key, a) < 0 ==> cmp(key, b) < 0) && (cmp(key, a) == 0 ==> cmp(key, b) <= 0)
    {
      assert cmp(b, key) <= 0 ==> cmp(a, key) <= 0;
    }
  }

  lemma InsertKeepsSorted<T(!new)>(cmp: (T, T) -> int, s: seq<T>, pos: nat, x: T)
    requires TotalPreorder(cmp) && Sorted(cmp, s) && pos <= |s|
    requires forall k :: 0 <= k < pos ==> cmp(x, s[k]) >= 0
    requires forall k :: pos <= k < |s| ==> cmp(x, s[k]) <= 0
    ensures Sorted(cmp, s[..pos] + [x] + s[pos..])
  {
    var t := s[..pos] + [x] + s[pos..];
    forall i, j | 0 <= i < j < |t|
      ensures cmp(t[i], t[j]) <= 0
    {
      if i == pos {
        assert t[j] == s[j - 1];
      } else if j == pos {
        assert t[i] == s[i];
        assert cmp(s[i], x) <= 0;
      } else {
        assert t[i] == s[if i < pos then i else i - 1] && t[j] == s[if j < pos then j else j - 1];
      }
    }
  }

  lemma PermutationFacts<T(!new)>(s: seq<T>, t: seq<T>)
    requires multiset(s) == multiset(t)
    ensures |s| == |t|
    ensures forall x :: x in s <==> x in t
    ensures NoDuplicates(s) ==> NoDuplicates(t)
  {
    assert |multiset(s)| == |multiset(t)|;
    forall x
      ensures x in s <==> x in t
    {
      assert x in s <==> x in multiset(s);
      assert x in t <==> x in multiset(t);
    }
    if NoDuplicates(s) {
      NoDuplicatesCounts(s);
      CountsNoDuplicates(t);
    }
  }

  lemma {:induction false} NoDuplicatesCounts<T(!new)>(s: seq<T>)
    requires NoDuplicates(s)
    ensures forall x :: multiset(s)[x] <= 1
  {
    if s != [] {
      var r, y := s[..|s| - 1], s[|s| - 1];
      assert s == r + [y];
      NoDuplicatesCounts(r);
      assert y !in r;
      assert y !in multiset(r);
    }
  }

  lemma CountsNoDuplicates<T(!new)>(s: seq<T>)
    requires forall x :: multiset(s)[x] <= 1
    ensures NoDuplicates(s)
  {
    forall i, j | 0 <= i < j < |s|
      ensures s[i] != s[j]
    {
      assert s == s[..j] + s[j..];
      assert s[i] in s[..j] && s[j] in s[j..];
      assert multiset(s) == multiset(s[..j]) + multiset(s[j..]);
      assert s[i] in multiset(s[..j]) && s[j] in multiset(s[j..]);
      assert s[i] == s[j] ==> multiset(s)[s[i]] >= 2;
    }
  }

  /** The library sort: any sorted permutation would do, insertion sort is one. */
  function SortSeq<T>(cmp: (T, T) -> int, s: seq<T>): seq<T> {
    if s == [] then [] else Place(cmp, s[0], SortSeq(cmp, s[1..]))
  }

  function Place<T>(cmp: (T, T) -> int, x: T, s: seq<T>): seq<T> {
    if s == [] then [x]
    else if cmp(x, s[0]) <= 0 then [x] + s
    else [s[0]] + Place(cmp, x, s[1..])
  }

  lemma {:induction false} PlaceContents<T(!new)>(cmp: (T, T) -> int, x: T, s: seq<T>)
    ensures multiset(Place(cmp, x, s)) == multiset(s) + multiset{x}
    ensures forall y :: y in Place(cmp, x, s) ==> y == x || y in s
  {
    if s != [] {
      PlaceContents(cmp, x, s[1..]);
      assert s == [s[0]] + s[1..];
    }
  }

  /** Putting an entry that is at most every other one in front keeps the order. */
  lemma ConsSorted<T(!new)>(cmp: (T, T) -> int, x: T, s: seq<T>)
    requires Sorted(cmp, s) && forall y :: y in s ==> cmp(x, y) <= 0
    ensures Sorted(cmp, [x] + s)
  {
  }

  lemma {:induction false} PlaceSorts<T(!new)>(cmp: (T, T) -> int, x: T, s: seq<T>)
    requires TotalPreorder(cmp) && Sorted(cmp, s)
    ensures Sorted(cmp, Place(cmp, x, s))
  {
    if s != [] {
      var rest := s[1..];
      assert s == [s[0]] + rest;
      assert forall y :: y in rest ==> cmp(s[0], y) <= 0;
      if cmp(x, s[0]) > 0 {
        PlaceSorts(cmp, x, rest);
        PlaceContents(cmp, x, rest);
        assert cmp(s[0], x) <= 0;
        ConsSorted(cmp, s[0], Place(cmp, x, rest));
      } else {
        assert forall y :: y in s ==> cmp(x, y) <= 0;
        ConsSorted(cmp, x, s);
      }
    }
  }

  lemma {:induction false} SortSeqSorts<T(!new)>(cmp: (T, T) -> int, s: seq<T>)
    requires TotalPreorder(cmp)
    ensures Sorted(cmp, SortSeq(cmp, s)) && multiset(SortSeq(cmp, s)) == multiset(s)
  {
    if s != [] {
      SortSeqSorts(cmp, s[1..]);
      PlaceSorts(cmp, s[0], SortSeq(cmp, s[1..]));
      PlaceContents(cmp, s[0], SortSeq(cmp, s[1..]));
      assert s == [s[0]] + s[1..];
    }
  }
}
