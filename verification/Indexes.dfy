/** Pure facts about rows and the sorted id lists over them; the table itself is in module Tables. */
module Indexes {
  import opened Orders
  import opened Arrays

  datatype Option<+T> = None | Some(value: T)

  /** A primary comparator (which identifies a row by its key) and one lookup comparator. */
  datatype Schema<!K, !R> = Schema(key: R -> K, primary: (R, R) -> int, lookup: (R, R) -> int)

  datatype Index = Primary | Lookup

  ghost predicate Sound<K(!new), R(!new)>(schema: Schema<K, R>) {
    && TotalPreorder(schema.primary) && TotalPreorder(schema.lookup)
    && forall a, b :: schema.primary(a, b) == 0 <==> schema.key(a) == schema.key(b)
  }

  /** Compare two row ids through the rows they refer to; ids of no row come last. */
  function ById<R>(rows: seq<R>, cmp: (R, R) -> int): (nat, nat) -> int {
    (a: nat, b: nat) =>
      if a < |rows| then if b < |rows| then cmp(rows[a], rows[b]) else -1
      else if b < |rows| then 1 else 0
  }

  function FilterById<R>(rows: seq<R>, filter: R -> int): nat -> int {
    (id: nat) => if id < |rows| then filter(rows[id]) else -1
  }

  lemma ByIdPreorder<R(!new)>(rows: seq<R>, cmp: (R, R) -> int)
    requires TotalPreorder(cmp)
    ensures TotalPreorder(ById(rows, cmp))
  {
    var c := ById(rows, cmp);
    forall i: nat, j: nat, k: nat | c(i, j) <= 0 && c(j, k) <= 0
      ensures c(i, k) <= 0
    {
      if i < |rows| && j < |rows| && k < |rows| {
        assert cmp(rows[i], rows[j]) <= 0 && cmp(rows[j], rows[k]) <= 0;
      }
    }
  }

  lemma FilterFalls<R(!new)>(rows: seq<R>, cmp: (R, R) -> int, filter: R -> int, ids: seq<nat>)
    requires Monotone(cmp, filter) && Sorted(ById(rows, cmp), ids)
    ensures Falls(FilterById(rows, filter), ids)
  {
    var f := FilterById(rows, filter);
    forall i, j | 0 <= i < j < |ids|
      ensures (f(ids[i]) < 0 ==> f(ids[j]) < 0) && (f(ids[i]) == 0 ==> f(ids[j]) <= 0)
    {
      assert ById(rows, cmp)(ids[i], ids[j]) <= 0;
    }
  }

  /** Re-reading rows: what stays the same for the ids in use keeps their order. */
  lemma SortedCongruence<R(!new)>(rows: seq<R>, rows': seq<R>, cmp: (R, R) -> int, ids: seq<nat>)
    requires Sorted(ById(rows, cmp), ids) && |rows| <= |rows'|
    requires forall i :: i in ids ==> i < |rows| && rows'[i] == rows[i]
    ensures Sorted(ById(rows', cmp), ids)
  {
    forall i, j | 0 <= i < j < |ids|
      ensures ById(rows', cmp)(ids[i], ids[j]) <= 0
    {
      assert ById(rows, cmp)(ids[i], ids[j]) <= 0;
      assert ids[i] in ids && ids[j] in ids;
    }
  }

  /** Both indexes list the same live ids once each, in their orders, and no key occurs twice. */
  ghost predicate WellIndexed<K(!new), R(!new)>(schema: Schema<K, R>, rows: seq<R>, p: seq<nat>, l: seq<nat>) {
    match schema
    case Schema(key, primary, lookup) =>
      && Agree(rows, p, l) && DistinctKeys(key, rows, p)
      && Sorted(ById(rows, primary), p) && Sorted(ById(rows, lookup), l)
  }

  ghost predicate Agree<R>(rows: seq<R>, p: seq<nat>, l: seq<nat>) {
    && NoDuplicates(p) && NoDuplicates(l)
    && (forall i :: i in p <==> i in l)
    && (forall i :: i in p ==> i < |rows|)
  }

  ghost predicate DistinctKeys<K(!new), R>(key: R -> K, rows: seq<R>, p: seq<nat>) {
    forall i, j :: i in p && j in p && i < |rows| && j < |rows| && key(rows[i]) == key(rows[j]) ==> i == j
  }

  ghost predicate Holds<K(!new), R>(key: R -> K, rows: seq<R>, p: seq<nat>, k: K, id: nat) {
    id in p && id < |rows| && key(rows[id]) == k
  }

  /** The abstract table: the live rows by key. */
  ghost function View<K(!new), R>(key: R -> K, rows: seq<R>, p: seq<nat>): map<K, R> {
    var keys := set id | id in p && id < |rows| :: key(rows[id]);
    map k | k in keys && (exists id: nat :: Holds(key, rows, p, k, id)) :: rows[IdOf(key, rows, p, k)]
  }

  ghost function IdOf<K(!new), R>(key: R -> K, rows: seq<R>, p: seq<nat>, k: K): (id: nat)
    requires exists id: nat :: Holds(key, rows, p, k, id)
    ensures Holds(key, rows, p, k, id)
  {
    var id: nat :| Holds(key, rows, p, k, id);
    id
  }

  lemma ViewFacts<K(!new), R>(key: R -> K, rows: seq<R>, p: seq<nat>)
    requires DistinctKeys(key, rows, p)
    ensures forall id :: id in p && id < |rows| ==>
      key(rows[id]) in View(key, rows, p) && View(key, rows, p)[key(rows[id])] == rows[id]
    ensures forall k :: k in View(key, rows, p) ==> exists id :: Holds(key, rows, p, k, id)
    ensures forall k :: k in View(key, rows, p) ==> key(View(key, rows, p)[k]) == k
  {
    var keys := set id | id in p && id < |rows| :: key(rows[id]);
    forall id | id in p && id < |rows|
      ensures key(rows[id]) in View(key, rows, p) && View(key, rows, p)[key(rows[id])] == rows[id]
    {
      assert key(rows[id]) in keys;
      assert Holds(key, rows, p, key(rows[id]), id);
    }
    forall k | k in View(key, rows, p)
      ensures exists id :: Holds(key, rows, p, k, id)
    {
      var id :| id in p && id < |rows| && key(rows[id]) == k;
      assert Holds(key, rows, p, k, id);
    }
  }

  lemma ViewIs<K(!new), R>(key: R -> K, rows: seq<R>, p: seq<nat>, m: map<K, R>)
    requires DistinctKeys(key, rows, p)
    requires forall id :: id in p && id < |rows| ==> key(rows[id]) in m && m[key(rows[id])] == rows[id]
    requires forall k :: k in m ==> exists id :: Holds(key, rows, p, k, id)
    ensures View(key, rows, p) == m
  {
    ViewFacts(key, rows, p);
    var v := View(key, rows, p);
    forall k | k in v
      ensures k in m && m[k] == v[k]
    {
      var id :| Holds(key, rows, p, k, id);
    }
    forall k | k in m
      ensures k in v
    {
      var id :| Holds(key, rows, p, k, id);
    }
  }

  lemma AddedOnce<T(!new)>(s: seq<T>, t: seq<T>, x: T)
    requires multiset(t) == multiset(s) + multiset{x}
    ensures forall y :: y in t <==> y in s || y == x
    ensures NoDuplicates(s) && x !in s ==> NoDuplicates(t)
  {
    PermutationFacts(s + [x], t);
    assert forall y :: y in s + [x] <==> y in s || y == x;
  }

  /** A new row went to the end of `rows` and its id into both indexes. */
  lemma InsertedShape<K(!new), R(!new)>(schema: Schema<K, R>, rows: seq<R>, p: seq<nat>, l: seq<nat>,
                                        x: R, id: nat, p': seq<nat>, l': seq<nat>)
    requires id == |rows|
    requires WellIndexed(schema, rows, p, l) && schema.key(x) !in View(schema.key, rows, p)
    requires multiset(p') == multiset(p) + multiset{id} && multiset(l') == multiset(l) + multiset{id}
    requires Sorted(ById(rows + [x], schema.primary), p') && Sorted(ById(rows + [x], schema.lookup), l')
    ensures WellIndexed(schema, rows + [x], p', l')
    ensures View(schema.key, rows + [x], p') == View(schema.key, rows, p)[schema.key(x) := x]
  {
    AddedOnce(p, p', id);
    AddedOnce(l, l', id);
    ViewFacts(schema.key, rows, p);
    var rows', m := rows + [x], View(schema.key, rows, p)[schema.key(x) := x];
    forall k | k in m
      ensures exists id :: Holds(schema.key, rows', p', k, id)
    {
      if k == schema.key(x) {
        assert Holds(schema.key, rows', p', k, id);
      } else {
        var i: nat :| Holds(schema.key, rows, p, k, i);
        assert Holds(schema.key, rows', p', k, i);
      }
    }
    ViewIs(schema.key, rows', p', m);
  }

  /** The live rows changed under unchanged keys, and `m` holds them as they are now. */
  ghost predicate Rewritten<K(!new), R(!new)>(key: R -> K, before: seq<R>, now: seq<R>, p: seq<nat>, m: map<K, R>)
  {
    && |now| == |before|
    && (forall id :: id in p && id < |before| ==> key(now[id]) == key(before[id]))
    && m.Keys == View(key, before, p).Keys
    && (forall id :: id in p && id < |before| && key(before[id]) in m ==> m[key(before[id])] == now[id])
  }

  /** Rows were rewritten under unchanged keys and both indexes sorted again. */
  lemma RewrittenShape<K(!new), R(!new)>(schema: Schema<K, R>, rows: seq<R>, p: seq<nat>, l: seq<nat>,
                                         rows': seq<R>, p': seq<nat>, l': seq<nat>, m: map<K, R>)
    requires WellIndexed(schema, rows, p, l) && |rows'| == |rows|
    requires multiset(p') == multiset(p) && multiset(l') == multiset(l)
    requires Sorted(ById(rows', schema.primary), p') && Sorted(ById(rows', schema.lookup), l')
    requires Rewritten(schema.key, rows, rows', p, m)
    ensures WellIndexed(schema, rows', p', l')
    ensures View(schema.key, rows', p') == m
  {
    PermutationFacts(p, p');
    PermutationFacts(l, l');
    ViewFacts(schema.key, rows, p);
    forall k | k in m
      ensures exists id :: Holds(schema.key, rows', p', k, id)
    {
      assert k in View(schema.key, rows, p);
      var id: nat :| Holds(schema.key, rows, p, k, id);
      assert Holds(schema.key, rows', p', k, id);
    }
    ViewIs(schema.key, rows', p', m);
  }

  /** The ids of matching rows left both indexes; the rows themselves stay behind. */
  lemma DeletedShape<K(!new), R(!new)>(schema: Schema<K, R>, rows: seq<R>, p: seq<nat>, l: seq<nat>,
                                       filter: R -> int, drop: nat -> bool)
    requires WellIndexed(schema, rows, p, l)
    requires forall id :: id in p ==> (drop(id) <==> filter(rows[id]) == 0)
    ensures WellIndexed(schema, rows, Kept(p, drop), Kept(l, drop))
    ensures View(schema.key, rows, Kept(p, drop)) == Without(View(schema.key, rows, p), filter)
  {
    var p', m := Kept(p, drop), Without(View(schema.key, rows, p), filter);
    KeptFacts(p, drop);
    KeptFacts(l, drop);
    KeptSorted(ById(rows, schema.primary), p, drop);
    KeptSorted(ById(rows, schema.lookup), l, drop);
    ViewFacts(schema.key, rows, p);
    forall k | k in m
      ensures exists id :: Holds(schema.key, rows, p', k, id)
    {
      var id: nat :| Holds(schema.key, rows, p, k, id);
      assert Holds(schema.key, rows, p', k, id);
    }
    ViewIs(schema.key, rows, p', m);
  }

  ghost predicate AnyMatch<K(!new), R(!new)>(m: map<K, R>, filter: R -> int) {
    exists k :: k in m && filter(m[k]) == 0
  }

  /** The keys of the matching rows. */
  ghost function Matching<K(!new), R>(m: map<K, R>, filter: R -> int): set<K> {
    set k | k in m && filter(m[k]) == 0
  }

  ghost function Without<K(!new), R>(m: map<K, R>, filter: R -> int): map<K, R> {
    map k | k in m && filter(m[k]) != 0 :: m[k]
  }

  ghost function Mutated<K(!new), R>(m: map<K, R>, filter: R -> int, mutate: R -> R): map<K, R> {
    map k | k in m :: if filter(m[k]) == 0 then mutate(m[k]) else m[k]
  }

  /** `r` is the least matching row in the order of `cmp`, or there is none. */
  ghost predicate FirstMatch<K(!new), R(!new)>(m: map<K, R>, cmp: (R, R) -> int, filter: R -> int, r: Option<R>) {
    match r
    case None => forall k :: k in m ==> filter(m[k]) != 0
    case Some(x) =>
      && filter(x) == 0 && (exists k :: k in m && m[k] == x)
      && forall k :: k in m && filter(m[k]) == 0 ==> cmp(x, m[k]) <= 0
  }

  /** `r` is the greatest matching row in the order of `cmp`, or there is none. */
  ghost predicate LastMatch<K(!new), R(!new)>(m: map<K, R>, cmp: (R, R) -> int, filter: R -> int, r: Option<R>) {
    match r
    case None => forall k :: k in m ==> filter(m[k]) != 0
    case Some(x) =>
      && filter(x) == 0 && (exists k :: k in m && m[k] == x)
      && forall k :: k in m && filter(m[k]) == 0 ==> cmp(m[k], x) <= 0
  }

  /** `s` lists each matching row of `m` exactly once. */
  ghost predicate Lists<K(!new), R(!new)>(m: map<K, R>, filter: R -> int, s: seq<R>) {
    && NoDuplicates(s)
    && (forall x :: x in s ==> filter(x) == 0 && exists k :: k in m && m[k] == x)
    && (forall k :: k in m && filter(m[k]) == 0 ==> m[k] in s)
  }

  /** A search result on an index, read as a fact about the table it indexes. */
  lemma FirstMatchOfIndex<K(!new), R(!new)>(key: R -> K, rows: seq<R>, p: seq<nat>, ids: seq<nat>,
                                           cmp: (R, R) -> int, filter: R -> int, at: nat)
    requires TotalPreorder(cmp) && DistinctKeys(key, rows, p)
    requires forall i :: i in p <==> i in ids
    requires forall k :: 0 <= k < |ids| ==> ids[k] < |rows|
    requires Sorted(ById(rows, cmp), ids)
    requires at < |ids| && filter(rows[ids[at]]) == 0
    ensures (forall k :: 0 <= k < at ==> filter(rows[ids[k]]) != 0) ==>
      FirstMatch(View(key, rows, p), cmp, filter, Some(rows[ids[at]]))
    ensures (forall k :: at < k < |ids| ==> filter(rows[ids[k]]) != 0) ==>
      LastMatch(View(key, rows, p), cmp, filter, Some(rows[ids[at]]))
  {
    ViewFacts(key, rows, p);
    var m, x := View(key, rows, p), rows[ids[at]];
    assert ids[at] in p;
    assert m[key(x)] == x;
    assert cmp(x, x) == 0;
    forall k | k in m && filter(m[k]) == 0
      ensures exists i: nat :: i < |ids| && rows[ids[i]] == m[k]
    {
      var id: nat :| Holds(key, rows, p, k, id);
      var i: nat :| i < |ids| && ids[i] == id;
      assert rows[ids[i]] == m[k];
    }
    forall i | 0 <= i < |ids|
      ensures i <= at ==> cmp(rows[ids[i]], x) <= 0
      ensures i >= at ==> cmp(x, rows[ids[i]]) <= 0
    {
      assert ids[i] in p;
      if i < at {
        assert ById(rows, cmp)(ids[i], ids[at]) <= 0;
      } else if i > at {
        assert ById(rows, cmp)(ids[at], ids[i]) <= 0;
      }
    }
  }

  /** Either index, as what the searches need to know of it. */
  ghost predicate Indexed<K(!new), R(!new)>(key: R -> K, rows: seq<R>, p: seq<nat>, ids: seq<nat>, cmp: (R, R) -> int) {
    && DistinctKeys(key, rows, p)
    && (forall i :: i in p <==> i in ids)
    && (forall i :: i in p ==> i < |rows|)
    && (forall k :: 0 <= k < |ids| ==> ids[k] < |rows|)
    && Sorted(ById(rows, cmp), ids)
  }

  lemma WellIndexedBoth<K(!new), R(!new)>(schema: Schema<K, R>, rows: seq<R>, p: seq<nat>, l: seq<nat>)
    requires WellIndexed(schema, rows, p, l)
    ensures Indexed(schema.key, rows, p, p, schema.primary) && Indexed(schema.key, rows, p, l, schema.lookup)
  {
    assert forall k :: 0 <= k < |p| ==> p[k] in p;
    assert forall k :: 0 <= k < |l| ==> l[k] in l;
  }

  /** A finished index search, read as a fact about the table. */
  lemma SearchOutcome<K(!new), R(!new)>(key: R -> K, rows: seq<R>, p: seq<nat>, ids: seq<nat>, cmp: (R, R) -> int,
                                       filter: R -> int, reverse: bool, found: bool, at: nat)
    requires TotalPreorder(cmp) && Indexed(key, rows, p, ids, cmp)
    requires var f := FilterById(rows, filter);
      && (found <==> exists x :: x in ids && f(x) == 0)
      && (found ==> at < |ids| && f(ids[at]) == 0)
      && (found && !reverse ==> forall k :: 0 <= k < at ==> f(ids[k]) > 0)
      && (found && reverse ==> forall k :: at < k < |ids| ==> f(ids[k]) < 0)
    ensures var r := if found then Some(rows[ids[at]]) else None;
      if reverse then LastMatch(View(key, rows, p), cmp, filter, r) else FirstMatch(View(key, rows, p), cmp, filter, r)
  {
    var f, m := FilterById(rows, filter), View(key, rows, p);
    assert forall k :: 0 <= k < |ids| ==> f(ids[k]) == filter(rows[ids[k]]);
    if found {
      FirstMatchOfIndex(key, rows, p, ids, cmp, filter, at);
    } else {
      ViewFacts(key, rows, p);
      forall k | k in m
        ensures filter(m[k]) != 0
      {
        var id: nat :| Holds(key, rows, p, k, id);
        assert f(id) != 0;
      }
    }
  }

  /** Rows after a walk over `visited`: each visited row mutated once, the others as before. */
  ghost predicate Walked<R(!new)>(before: seq<R>, now: seq<R>, visited: seq<nat>, mutate: R -> R) {
    && |now| == |before|
    && forall id: nat :: id < |before| ==> now[id] == if id in visited then mutate(before[id]) else before[id]
  }

  lemma WalkStep<R(!new)>(before: seq<R>, now: seq<R>, visited: seq<nat>, mutate: R -> R, id: nat)
    requires Walked(before, now, visited, mutate) && id !in visited && id < |before|
    ensures Walked(before, now[id := mutate(now[id])], visited + [id], mutate)
  {
  }

  /** A walk over the matching run of an index mutated exactly the rows that matched before it. */
  lemma WalkOutcome<K(!new), R(!new)>(key: R -> K, before: seq<R>, p: seq<nat>, ids: seq<nat>, cmp: (R, R) -> int,
                                     filter: R -> int, mutate: R -> R, now: seq<R>, visited: seq<nat>)
    requires Indexed(key, before, p, ids, cmp) && Walked(before, now, visited, mutate)
    requires RunOf(before, ids, filter, visited)
    requires forall r :: key(mutate(r)) == key(r)
    ensures Rewritten(key, before, now, p, Mutated(View(key, before, p), filter, mutate))
  {
    ViewFacts(key, before, p);
    RunMatches(key, before, p, ids, cmp, filter, visited);
  }

  /** `run` is the slice of the index `ids` whose rows match the filter. */
  ghost predicate RunOf<R(!new)>(rows: seq<R>, ids: seq<nat>, filter: R -> int, run: seq<nat>) {
    && NoDuplicates(run)
    && (forall k :: 0 <= k < |run| ==> run[k] < |rows| && run[k] in ids)
    && (exists first: nat, last :: first <= last <= |ids| && run == ids[first..last])
    && (forall k :: 0 <= k < |ids| ==> (FilterById(rows, filter)(ids[k]) == 0 <==> ids[k] in run))
  }

  lemma RunIsSlice<R(!new)>(rows: seq<R>, ids: seq<nat>, filter: R -> int, found: bool, first: nat, last: nat)
    requires NoDuplicates(ids) && forall k :: 0 <= k < |ids| ==> ids[k] < |rows|
    requires found <==> exists x :: x in ids && FilterById(rows, filter)(x) == 0
    requires found ==> first <= last < |ids|
    requires found ==> forall k :: 0 <= k < |ids| ==> (FilterById(rows, filter)(ids[k]) == 0 <==> first <= k <= last)
    ensures RunOf(rows, ids, filter, if found then ids[first..last + 1] else [])
  {
    var run := if found then ids[first..last + 1] else [];
    assert found || run == ids[0..0];
    forall k | 0 <= k < |ids|
      ensures FilterById(rows, filter)(ids[k]) == 0 <==> ids[k] in run
    {
      if found && first <= k <= last {
        assert run[k - first] == ids[k];
      }
    }
  }

  function Gather<R>(rows: seq<R>, run: seq<nat>): seq<R>
    requires forall k :: 0 <= k < |run| ==> run[k] < |rows|
  {
    seq(|run|, i requires 0 <= i < |run| => rows[run[i]])
  }

  lemma RunSorted<R(!new)>(rows: seq<R>, ids: seq<nat>, cmp: (R, R) -> int, filter: R -> int, run: seq<nat>)
    requires RunOf(rows, ids, filter, run) && Sorted(ById(rows, cmp), ids)
    ensures Sorted(cmp, Gather(rows, run))
  {
    var first: nat, last :| first <= last <= |ids| && run == ids[first..last];
    forall i, j | 0 <= i < j < |run|
      ensures cmp(rows[run[i]], rows[run[j]]) <= 0
    {
      assert ById(rows, cmp)(ids[first + i], ids[first + j]) <= 0;
    }
  }

  lemma RunMatches<K(!new), R(!new)>(key: R -> K, rows: seq<R>, p: seq<nat>, ids: seq<nat>, cmp: (R, R) -> int,
                                    filter: R -> int, run: seq<nat>)
    requires Indexed(key, rows, p, ids, cmp) && RunOf(rows, ids, filter, run)
    ensures forall id :: id in p ==> (id in run <==> filter(rows[id]) == 0)
    ensures forall id :: id in run ==> id in p
  {
    forall id | id in p
      ensures id in run <==> filter(rows[id]) == 0
    {
      var k :| 0 <= k < |ids| && ids[k] == id;
      assert FilterById(rows, filter)(ids[k]) == filter(rows[id]);
    }
  }

  /** The rows behind the matching ids list each matching row of the table once. */
  lemma RunLists<K(!new), R(!new)>(key: R -> K, rows: seq<R>, p: seq<nat>, ids: seq<nat>, cmp: (R, R) -> int,
                                  filter: R -> int, run: seq<nat>)
    requires Indexed(key, rows, p, ids, cmp) && RunOf(rows, ids, filter, run)
    ensures Lists(View(key, rows, p), filter, Gather(rows, run))
  {
    var s, m := Gather(rows, run), View(key, rows, p);
    ViewFacts(key, rows, p);
    RunMatches(key, rows, p, ids, cmp, filter, run);
    forall k | k in m && filter(m[k]) == 0
      ensures m[k] in s
    {
      var id: nat :| Holds(key, rows, p, k, id);
      var i :| 0 <= i < |run| && run[i] == id;
      assert s[i] == m[k];
    }
    forall x | x in s
      ensures filter(x) == 0 && exists k :: k in m && m[k] == x
    {
      var i :| 0 <= i < |s| && s[i] == x;
      assert run[i] in run;
      assert m[key(x)] == x;
    }
    forall i, j | 0 <= i < j < |s|
      ensures s[i] != s[j]
    {
      assert run[i] in p && run[j] in p;
    }
  }

  /** Counting the listed rows counts the matching keys. */
  lemma {:induction false} ListsCount<K(!new), R(!new)>(key: R -> K, m: map<K, R>, filter: R -> int, s: seq<R>)
    requires Lists(m, filter, s) && forall k :: k in m ==> key(m[k]) == k
    ensures |s| == |Matching(m, filter)|
    decreases |s|
  {
    if s == [] {
      assert Matching(m, filter) == {};
    } else {
      var x, rest := s[|s| - 1], s[..|s| - 1];
      var m' := map k | k in m && k != key(x) :: m[k];
      assert s == rest + [x];
      ListsRest(key, m, filter, rest, x);
      ListsCount(key, m', filter, rest);
      assert Matching(m, filter) == Matching(m', filter) + {key(x)};
    }
  }

  lemma ListsRest<K(!new), R(!new)>(key: R -> K, m: map<K, R>, filter: R -> int, rest: seq<R>, x: R)
    requires Lists(m, filter, rest + [x]) && forall k :: k in m ==> key(m[k]) == k
    ensures key(x) in m && m[key(x)] == x && filter(x) == 0
    ensures Lists(map k | k in m && k != key(x) :: m[k], filter, rest)
  {
    var s, m' := rest + [x], map k | k in m && k != key(x) :: m[k];
    assert x in s;
    forall y | y in rest
      ensures filter(y) == 0 && exists k :: k in m' && m'[k] == y
    {
      assert y in s;
      var i :| 0 <= i < |rest| && rest[i] == y;
      assert s[i] != s[|rest|];
      assert key(y) in m';
    }
    forall i, j | 0 <= i < j < |rest|
      ensures rest[i] != rest[j]
    {
      assert s[i] != s[j];
    }
  }

  lemma ListsPermuted<K(!new), R(!new)>(m: map<K, R>, filter: R -> int, s: seq<R>, t: seq<R>)
    requires Lists(m, filter, s) && multiset(s) == multiset(t)
    ensures Lists(m, filter, t)
  {
    PermutationFacts(s, t);
  }

  function InRun(run: seq<nat>): nat -> bool {
    (id: nat) => id in run
  }

  /** Dropping the matching run from both indexes deletes the matching rows. */
  lemma RunDeletes<K(!new), R(!new)>(schema: Schema<K, R>, rows: seq<R>, p: seq<nat>, l: seq<nat>,
                                    which: Index, filter: R -> int, run: seq<nat>)
    requires WellIndexed(schema, rows, p, l) && RunOf(rows, if which.Primary? then p else l, filter, run)
    ensures WellIndexed(schema, rows, Kept(p, InRun(run)), Kept(l, InRun(run)))
    ensures View(schema.key, rows, Kept(p, InRun(run))) == Without(View(schema.key, rows, p), filter)
  {
    assert forall id :: id in p ==> (id in run <==> filter(rows[id]) == 0) by {
      RunOfIndex(schema, rows, p, l, which);
      RunMatches(schema.key, rows, p, if which.Primary? then p else l,
                 if which.Primary? then schema.primary else schema.lookup, filter, run);
    }
    DeletedShape(schema, rows, p, l, filter, InRun(run));
  }

  lemma RunOfIndex<K(!new), R(!new)>(schema: Schema<K, R>, rows: seq<R>, p: seq<nat>, l: seq<nat>, which: Index)
    requires WellIndexed(schema, rows, p, l)
    ensures var ids, cmp := if which.Primary? then p else l, if which.Primary? then schema.primary else schema.lookup;
      Indexed(schema.key, rows, p, ids, cmp)
  {
    WellIndexedBoth(schema, rows, p, l);
  }

  /** The run is empty exactly when no live row matches. */
  lemma RunEmpty<K(!new), R(!new)>(key: R -> K, rows: seq<R>, p: seq<nat>, ids: seq<nat>, cmp: (R, R) -> int,
                                  filter: R -> int, run: seq<nat>)
    requires Indexed(key, rows, p, ids, cmp) && RunOf(rows, ids, filter, run)
    ensures run != [] <==> AnyMatch(View(key, rows, p), filter)
    ensures run == [] ==> Without(View(key, rows, p), filter) == View(key, rows, p)
  {
    RunLists(key, rows, p, ids, cmp, filter, run);
    assert run != [] ==> Gather(rows, run)[0] in Gather(rows, run);
  }

  lemma RunOutcome<K(!new), R(!new)>(schema: Schema<K, R>, rows: seq<R>, p: seq<nat>, l: seq<nat>,
                                    which: Index, filter: R -> int, run: seq<nat>)
    requires WellIndexed(schema, rows, p, l) && RunOf(rows, if which.Primary? then p else l, filter, run)
    ensures run != [] <==> AnyMatch(View(schema.key, rows, p), filter)
    ensures run == [] ==> Without(View(schema.key, rows, p), filter) == View(schema.key, rows, p)
    ensures WellIndexed(schema, rows, Kept(p, InRun(run)), Kept(l, InRun(run)))
    ensures View(schema.key, rows, Kept(p, InRun(run))) == Without(View(schema.key, rows, p), filter)
  {
    RunDeletes(schema, rows, p, l, which, filter, run);
    RunOfIndex(schema, rows, p, l, which);
    RunEmpty(schema.key, rows, p, if which.Primary? then p else l,
             if which.Primary? then schema.primary else schema.lookup, filter, run);
  }
}
