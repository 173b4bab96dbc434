/** The growable sorted array of lib/array.c. */
module Arrays {
  import opened Orders

  /** The entries that `drop` does not match, in order. */
  function Kept<T>(s: seq<T>, drop: T -> bool): (r: seq<T>)
    ensures |r| <= |s|
  {
    if s == [] then []
    else
      var front := Kept(s[..|s| - 1], drop);
      if drop(s[|s| - 1]) then front else front + [s[|s| - 1]]
  }

  lemma {:induction false} KeptFacts<T(!new)>(s: seq<T>, drop: T -> bool)
    ensures forall x :: x in Kept(s, drop) <==> x in s && !drop(x)
    ensures NoDuplicates(s) ==> NoDuplicates(Kept(s, drop))
  {
    if s != [] {
      var r, y := s[..|s| - 1], s[|s| - 1];
      KeptFacts(r, drop);
      assert s == r + [y];
    }
  }

  lemma {:induction false} KeptSorted<T(!new)>(cmp: (T, T) -> int, s: seq<T>, drop: T -> bool)
    requires Sorted(cmp, s)
    ensures Sorted(cmp, Kept(s, drop))
  {
    if s != [] {
      var r, y := s[..|s| - 1], s[|s| - 1];
      KeptSorted(cmp, r, drop);
      KeptFacts(r, drop);
      forall k | 0 <= k < |Kept(r, drop)|
        ensures cmp(Kept(r, drop)[k], y) <= 0
      {
        assert Kept(r, drop)[k] in r;
      }
    }
  }

  /** One probe of the insertion search decides a whole side. */
  lemma SearchStep<T(!new)>(cmp: (T, T) -> int, s: seq<T>, x: T, mid: nat)
    requires TotalPreorder(cmp) && Sorted(cmp, s) && mid < |s|
    ensures cmp(x, s[mid]) <= 0 ==> forall k :: mid <= k < |s| ==> cmp(x, s[k]) <= 0
    ensures cmp(x, s[mid]) >= 0 ==> forall k :: 0 <= k <= mid ==> cmp(x, s[k]) >= 0
  {
    forall k | 0 <= k <= mid && cmp(x, s[mid]) >= 0
      ensures cmp(x, s[k]) >= 0
    {
      assert cmp(s[mid], x) <= 0;
      assert cmp(s[k], s[mid]) <= 0;
    }
    forall k | mid <= k < |s| && cmp(x, s[mid]) <= 0
      ensures cmp(x, s[k]) <= 0
    {
      assert cmp(s[mid], s[k]) <= 0;
    }
  }

  /** The filter's answer at probe position `k`, counted from the end and negated in reverse. */
  ghost function Look<T>(s: seq<T>, filter: T -> int, reverse: bool, k: nat): int
    requires k < |s|
  {
    if reverse then -filter(s[|s| - 1 - k]) else filter(s[k])
  }

  lemma LookFalls<T(!new)>(s: seq<T>, filter: T -> int, reverse: bool, mid: nat)
    requires Falls(filter, s) && mid < |s|
    ensures Look(s, filter, reverse, mid) > 0 ==> forall k :: 0 <= k <= mid ==> Look(s, filter, reverse, k) > 0
    ensures Look(s, filter, reverse, mid) <= 0 ==> forall k :: mid <= k < |s| ==> Look(s, filter, reverse, k) <= 0
  {
  }

  /** What the final position of the search says about the whole sequence. */
  lemma LookResult<T(!new)>(s: seq<T>, filter: T -> int, reverse: bool, at: nat)
    requires Falls(filter, s) && at <= |s|
    requires forall k :: 0 <= k < at ==> Look(s, filter, reverse, k) > 0
    requires forall k :: at <= k < |s| ==> Look(s, filter, reverse, k) <= 0
    ensures (at < |s| && Look(s, filter, reverse, at) == 0) <==> exists x :: x in s && filter(x) == 0
    ensures !reverse ==> forall k :: 0 <= k < at ==> filter(s[k]) > 0
    ensures reverse ==> forall k :: |s| - at <= k < |s| ==> filter(s[k]) < 0
  {
    forall k | 0 <= k < |s|
      ensures if reverse then k >= |s| - at ==> filter(s[k]) < 0 else k < at ==> filter(s[k]) > 0
      ensures filter(s[k]) == 0 ==> at < |s| && Look(s, filter, reverse, at) == 0
    {
      var j := if reverse then |s| - 1 - k else k;
      assert Look(s, filter, reverse, j) == if reverse then -filter(s[k]) else filter(s[k]);
    }
    if at < |s| && Look(s, filter, reverse, at) == 0 {
      assert s[if reverse then |s| - 1 - at else at] in s;
    }
  }

  /**
   * A buffer and how much of it is in use. Entries that are row ids are compared through the rows they
   * refer to, so every operation takes its comparison over entries with that dereference already applied.
   */
  class Array<T(!new)> {
    var entries: array<T>
    var fill: nat

    ghost predicate Valid()
      reads this
    {
      fill <= entries.Length
    }

    function Items(): (s: seq<T>)
      requires Valid()
      reads this, entries
    {
      entries[..fill]
    }

    constructor ()
      ensures Valid() && fresh(entries) && Items() == []
    {
      entries := new T[0];
      fill := 0;
    }

    /** Grow the buffer by one entry, keeping what it holds; `blank` only pads the new slot. */
    method Resize(blank: T)
      requires Valid() && fill == entries.Length
      modifies this`entries
      ensures Valid() && fresh(entries) && fill < entries.Length
      ensures Items() == old(Items())
    {
      var s := Items() + [blank];
      entries := new T[|s|](i requires 0 <= i < |s| => s[i]);
      assert Items() == s[..fill];
    }

    method Append(x: T)
      requires Valid()
      modifies this, entries
      ensures Valid() && (entries == old(entries) || fresh(entries))
      ensures Items() == old(Items()) + [x]
    {
      if fill >= entries.Length {
        Resize(x);
      }
      entries[fill] := x;
      fill := fill + 1;
    }

    method Set(i: nat, x: T)
      requires Valid() && i < fill
      modifies entries
      ensures Valid() && Items() == old(Items())[i := x]
    {
      entries[i] := x;
    }

    /** The library sort, on the entries in use. */
    method Sort(cmp: (T, T) -> int)
      requires Valid() && TotalPreorder(cmp)
      modifies entries
      ensures Valid() && Sorted(cmp, Items()) && multiset(Items()) == old(multiset(Items()))
    {
      var s := SortSeq(cmp, Items());
      SortSeqSorts(cmp, Items());
      PermutationFacts(s, Items());
      forall i | 0 <= i < fill {
        entries[i] := s[i];
      }
      assert Items() == s;
    }

    /** Where binary search would put `x`: next to an equal entry when it meets one. */
    method FindSlot(cmp: (T, T) -> int, x: T) returns (dest: nat)
      requires Valid() && TotalPreorder(cmp) && Sorted(cmp, Items())
      ensures dest <= fill
      ensures forall k :: 0 <= k < dest ==> cmp(x, Items()[k]) >= 0
      ensures forall k :: dest <= k < fill ==> cmp(x, Items()[k]) <= 0
    {
      var low, high := 0, fill;
      while low < high
        invariant 0 <= low <= high <= fill
        invariant forall k :: 0 <= k < low ==> cmp(x, Items()[k]) >= 0
        invariant forall k :: high <= k < fill ==> cmp(x, Items()[k]) <= 0
      {
        var mid := low + (high - low) / 2;
        var r := cmp(x, entries[mid]);
        SearchStep(cmp, Items(), x, mid);
        if r < 0 {
          high := mid;
        } else if r > 0 {
          low := mid + 1;
        } else {
          return mid;
        }
      }
      dest := low;
    }

    /** Move what is in use from `dest` on back by one and store `x` in the gap. */
    method ShiftAndSet(dest: nat, x: T)
      requires fill < entries.Length && dest <= fill
      modifies entries
      ensures entries[..fill + 1] == old(entries[..fill])[..dest] + [x] + old(entries[..fill])[dest..]
    {
      forall k | dest < k <= fill {
        entries[k] := entries[k - 1];
      }
      entries[dest] := x;
    }

    /** Make room if needed and put `x` at `dest`. */
    method InsertAt(dest: nat, x: T)
      requires Valid() && dest <= fill
      modifies this, entries
      ensures Valid() && (entries == old(entries) || fresh(entries))
      ensures Items() == old(Items())[..dest] + [x] + old(Items())[dest..]
    {
      ghost var s := Items();
      if fill >= entries.Length {
        Resize(x);
      }
      ShiftAndSet(dest, x);
      fill := fill + 1;
      assert Items() == entries[..fill];
    }

    method SortedInsert(cmp: (T, T) -> int, x: T)
      requires Valid() && TotalPreorder(cmp) && Sorted(cmp, Items())
      modifies this, entries
      ensures Valid() && (entries == old(entries) || fresh(entries))
      ensures Sorted(cmp, Items()) && multiset(Items()) == old(multiset(Items())) + multiset{x}
    {
      ghost var s := Items();
      var dest := FindSlot(cmp, x);
      assert Items() == s;
      InsertKeepsSorted(cmp, s, dest, x);
      InsertAt(dest, x);
      hide *;
      assert s == s[..dest] + s[dest..];
    }

    /**
     * Binary search for the first (or, in reverse, the last) entry the filter matches.
     */
    method FindIndex(filter: T -> int, reverse: bool) returns (found: bool, index: nat)
      requires Valid() && Falls(filter, Items())
      ensures found <==> exists x :: x in Items() && filter(x) == 0
      ensures found ==> index < fill && filter(Items()[index]) == 0
      ensures found && !reverse ==> forall k :: 0 <= k < index ==> filter(Items()[k]) > 0
      ensures found && reverse ==> forall k :: index < k < fill ==> filter(Items()[k]) < 0
    {
      var low, high := 0, fill;
      var isValid := false;
      ghost var s := Items();
      while low < high
        invariant 0 <= low <= high <= fill
        invariant forall k :: 0 <= k < low ==> Look(s, filter, reverse, k) > 0
        invariant forall k :: high <= k < fill ==> Look(s, filter, reverse, k) <= 0
        invariant isValid <==> high < fill && Look(s, filter, reverse, high) == 0
      {
        var mid := low + (high - low) / 2;
        var r;
        if reverse {
          r := -filter(entries[fill - 1 - mid]);
        } else {
          r := filter(entries[mid]);
        }
        assert r == Look(s, filter, reverse, mid);
        LookFalls(s, filter, reverse, mid);
        if r == 0 {
          high := mid;
          isValid := true;
        } else if r < 0 {
          high := mid;
          isValid := false;
        } else {
          low := mid + 1;
        }
      }
      found := isValid;
      index := 0;
      if isValid {
        index := if reverse then fill - 1 - high else high;
        assert s[index] in s;
      }
      LookResult(s, filter, reverse, high);
    }

    /** The run of matching entries, bounded by one search from each side. */
    method Range(filter: T -> int) returns (found: bool, first: nat, last: nat)
      requires Valid() && Falls(filter, Items())
      ensures found <==> exists x :: x in Items() && filter(x) == 0
      ensures found ==> first <= last < fill
      ensures found ==> forall k :: 0 <= k < fill ==> (filter(Items()[k]) == 0 <==> first <= k <= last)
    {
      last := 0;
      found, first := FindIndex(filter, false);
      if found {
        found, last := FindIndex(filter, true);
      }
    }

    /** Drop matching entries in place, closing the gaps with a second cursor. */
    method Delete(drop: T -> bool)
      requires Valid()
      modifies this`fill, entries
      ensures Valid() && Items() == Kept(old(Items()), drop)
    {
      ghost var s := Items();
      var cursor := 0;
      for i := 0 to fill
        invariant cursor <= i && fill == old(fill)
        invariant entries[..cursor] == Kept(s[..i], drop)
        invariant forall k :: i <= k < fill ==> entries[k] == s[k]
      {
        assert s[..i + 1][..i] == s[..i];
        if drop(entries[i]) {
          continue;
        }
        if cursor != i {
          entries[cursor] := entries[i];
        }
        cursor := cursor + 1;
        assert entries[..cursor] == Kept(s[..i], drop) + [s[i]];
      }
      assert s[..fill] == s;
      fill := cursor;
    }
  }
}
