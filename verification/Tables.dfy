/** The table of lib/table.c: rows that never move, and two sorted indexes of row ids over them. */
module Tables {
  import opened Orders
  import opened Arrays
  import opened Indexes

  lemma NothingIndexed<K(!new), R(!new)>(schema: Schema<K, R>)
    ensures WellIndexed(schema, [], [], []) && View(schema.key, [], []) == map[]
  {
    ViewIs(schema.key, [], [], map[]);
  }

  /** Appending a row leaves the indexes sorted. */
  lemma StillSorted<K(!new), R(!new)>(schema: Schema<K, R>, rows: seq<R>, x: R, p: seq<nat>, l: seq<nat>)
    requires WellIndexed(schema, rows, p, l)
    ensures Sorted(ById(rows + [x], schema.primary), p) && Sorted(ById(rows + [x], schema.lookup), l)
  {
    SortedCongruence(rows, rows + [x], schema.primary, p);
    SortedCongruence(rows, rows + [x], schema.lookup, l);
  }

  class Table<K(!new), R(!new)> {
    const schema: Schema<K, R>
    const rows: Array<R>
    const primaryIndex: Array<nat>
    const lookupIndex: Array<nat>

    /** The live rows by primary key. */
    ghost var contents: map<K, R>
    ghost var Repr: set<object>

    /** The arrays of the table are valid and share nothing. */
    ghost predicate Apart()
      reads rows, primaryIndex, lookupIndex
    {
      && rows.Valid() && primaryIndex.Valid() && lookupIndex.Valid()
      && primaryIndex != lookupIndex && (rows as object) != primaryIndex && (rows as object) != lookupIndex
      && primaryIndex.entries != lookupIndex.entries
      && (rows.entries as object) != primaryIndex.entries && (rows.entries as object) != lookupIndex.entries
    }

    /** Everything the table may change, itself apart. */
    ghost function Parts(): set<object>
      reads rows, primaryIndex, lookupIndex
    {
      {rows, primaryIndex, lookupIndex, rows.entries, primaryIndex.entries, lookupIndex.entries}
    }

    ghost predicate Valid()
      reads this, Repr
      ensures Valid() ==> this in Repr
    {
      match schema
      case Schema(key, _, _) =>
        && this in Repr && {rows as object, primaryIndex as object, lookupIndex as object} <= Repr
        && Parts() <= Repr && this !in Parts()
        && Apart() && Sound(schema)
        && WellIndexed(schema, rows.Items(), primaryIndex.Items(), lookupIndex.Items())
        && contents == View(key, rows.Items(), primaryIndex.Items())
    }

    /** Every row is stored under its own key. */
    lemma KeysMatch()
      requires Valid()
      ensures forall k :: k in contents ==> schema.key(contents[k]) == k
    {
      ViewFacts(schema.key, rows.Items(), primaryIndex.Items());
    }

    function Order(which: Index): (R, R) -> int {
      if which.Primary? then schema.primary else schema.lookup
    }

    constructor (schema: Schema<K, R>)
      requires Sound(schema)
      ensures Valid() && fresh(Repr) && contents == map[] && this.schema == schema
    {
      this.schema := schema;
      rows := new Array();
      primaryIndex := new Array();
      lookupIndex := new Array();
      contents := map[];
      new;
      hide View, WellIndexed, Sound, Valid;
      Repr := {this, rows, primaryIndex, lookupIndex, rows.entries, primaryIndex.entries, lookupIndex.entries};
      EmptyIsValid();
    }

    /** A table over three empty arrays. */
    lemma EmptyIsValid()
      requires Sound(schema) && contents == map[] && Apart() && this !in Parts() && Repr == {this} + Parts()
      requires rows.Items() == [] && primaryIndex.Items() == [] && lookupIndex.Items() == []
      ensures Valid()
    {
      hide View, WellIndexed, Sound;
      NothingIndexed(schema);
    }

    /** Sort one index again, through the rows as they are. */
    method ResortOne(index: Array<nat>, cmp: (R, R) -> int)
      requires rows.Valid() && index.Valid() && TotalPreorder(cmp) && (rows.entries as object) != index.entries
      modifies index.entries
      ensures index.Valid() && rows.Items() == old(rows.Items())
      ensures Sorted(ById(rows.Items(), cmp), index.Items())
      ensures multiset(index.Items()) == old(multiset(index.Items()))
    {
      ghost var items := rows.Items();
      ByIdPreorder(items, cmp);
      index.Sort(ById(rows.Items(), cmp));
      assert rows.Items() == items;
    }

    /** Sort both indexes again after rows were rewritten in place under unchanged keys. */
    method Resort(ghost before: seq<R>, ghost m: map<K, R>)
      requires Apart() && Sound(schema)
      requires WellIndexed(schema, before, primaryIndex.Items(), lookupIndex.Items())
      requires Rewritten(schema.key, before, rows.Items(), primaryIndex.Items(), m)
      modifies primaryIndex.entries, lookupIndex.entries
      ensures WellIndexed(schema, rows.Items(), primaryIndex.Items(), lookupIndex.Items())
      ensures View(schema.key, rows.Items(), primaryIndex.Items()) == m
    {
      ghost var p, l, items := primaryIndex.Items(), lookupIndex.Items(), rows.Items();
      ResortOne(primaryIndex, schema.primary);
      assert lookupIndex.Items() == l;
      ghost var p' := primaryIndex.Items();
      ResortOne(lookupIndex, schema.lookup);
      assert primaryIndex.Items() == p';
      RewrittenShape(schema, before, p, l, items, p', lookupIndex.Items(), m);
    }

    /** Enter an id into one index, through the rows as they are. */
    method EnterInto(index: Array<nat>, cmp: (R, R) -> int, id: nat)
      requires rows.Valid() && index.Valid() && TotalPreorder(cmp) && Sorted(ById(rows.Items(), cmp), index.Items())
      requires (rows as object) != index && (rows.entries as object) != index.entries
      modifies index, index.entries
      ensures index.Valid() && (index.entries == old(index.entries) || fresh(index.entries))
      ensures Sorted(ById(rows.Items(), cmp), index.Items()) && rows.Items() == old(rows.Items())
      ensures multiset(index.Items()) == old(multiset(index.Items())) + multiset{id}
    {
      ghost var items := rows.Items();
      ByIdPreorder(items, cmp);
      index.SortedInsert(ById(rows.Items(), cmp), id);
      assert rows.Items() == items;
    }

    /** Enter the id of the row just appended into both indexes. */
    method EnterId(id: nat, ghost before: seq<R>, ghost x: R)
      requires Apart() && Sound(schema) && rows.Items() == before + [x] && id == |before|
      requires WellIndexed(schema, before, primaryIndex.Items(), lookupIndex.Items())
      requires schema.key(x) !in View(schema.key, before, primaryIndex.Items())
      modifies primaryIndex, lookupIndex, primaryIndex.entries, lookupIndex.entries
      ensures Apart() && fresh(Parts() - old(Parts()))
      ensures WellIndexed(schema, rows.Items(), primaryIndex.Items(), lookupIndex.Items())
      ensures View(schema.key, rows.Items(), primaryIndex.Items()) ==
        old(View(schema.key, before, primaryIndex.Items()))[schema.key(x) := x]
    {
      hide WellIndexed, View, Sorted;
      ghost var p, l := primaryIndex.Items(), lookupIndex.Items();
      StillSorted(schema, before, x, p, l);
      EnterInto(primaryIndex, schema.primary, id);
      assert lookupIndex.Items() == l;
      ghost var p' := primaryIndex.Items();
      EnterInto(lookupIndex, schema.lookup, id);
      assert primaryIndex.Items() == p';
      InsertedShape(schema, before, p, l, x, id, p', lookupIndex.Items());
    }

    /** Append the row and enter its id into both indexes. */
    method AppendRow(x: R)
      requires Valid() && schema.key(x) !in contents
      modifies Repr
      ensures Valid() && fresh(Repr - old(Repr))
      ensures contents == old(contents)[schema.key(x) := x]
    {
      hide WellIndexed, View, Sound;
      ghost var before, p, l := rows.Items(), primaryIndex.Items(), lookupIndex.Items();
      var id := rows.fill;
      rows.Append(x);
      assert primaryIndex.Items() == p && lookupIndex.Items() == l;
      EnterId(id, before, x);
      Repr := Repr + {rows.entries as object, primaryIndex.entries, lookupIndex.entries};
      contents := contents[schema.key(x) := x];
    }

    function IndexOf(which: Index): Array<nat> {
      if which.Primary? then primaryIndex else lookupIndex
    }

    /** Binary search on an index; the row found stays in place and its id is returned with it. */
    method FindRow(which: Index, filter: R -> int, reverse: bool) returns (r: Option<R>, id: nat)
      requires Valid() && Monotone(Order(which), filter)
      ensures if reverse then LastMatch(contents, Order(which), filter, r)
              else FirstMatch(contents, Order(which), filter, r)
      ensures r.Some? ==> id in primaryIndex.Items() && id < rows.fill && rows.Items()[id] == r.value
    {
      hide WellIndexed, View;
      ghost var items, p, ids := rows.Items(), primaryIndex.Items(), IndexOf(which).Items();
      WellIndexedBoth(schema, items, p, lookupIndex.Items());
      FilterFalls(items, Order(which), filter, ids);
      var found, at := IndexOf(which).FindIndex(FilterById(rows.Items(), filter), reverse);
      assert IndexOf(which).Items() == ids;
      SearchOutcome(schema.key, items, p, ids, Order(which), filter, reverse, found, at);
      id := 0;
      if found {
        id := IndexOf(which).Items()[at];
        r := Some(rows.Items()[id]);
      } else {
        r := None;
      }
    }

    method QueryFirst(which: Index, filter: R -> int) returns (r: Option<R>)
      requires Valid() && Monotone(Order(which), filter)
      ensures FirstMatch(contents, Order(which), filter, r)
    {
      var id;
      r, id := FindRow(which, filter, false);
    }

    method QueryLast(which: Index, filter: R -> int) returns (r: Option<R>)
      requires Valid() && Monotone(Order(which), filter)
      ensures LastMatch(contents, Order(which), filter, r)
    {
      var id;
      r, id := FindRow(which, filter, true);
    }

    /** Overwrite a live row with one of the same key. */
    method ReplaceRow(id: nat, x: R)
      requires Valid() && id in primaryIndex.Items() && id < rows.fill
      requires schema.key(rows.Items()[id]) == schema.key(x)
      modifies Repr
      ensures Valid() && Repr == old(Repr)
      ensures contents == old(contents)[schema.key(x) := x]
    {
      hide WellIndexed, View, Rewritten;
      ghost var m, before, p, l := contents, rows.Items(), primaryIndex.Items(), lookupIndex.Items();
      ReplacedView(before, p, l, id, x);
      contents := m[schema.key(x) := x];
      assert rows.Items() == before && primaryIndex.Items() == p && lookupIndex.Items() == l;
      rows.Set(id, x);
      assert primaryIndex.Items() == p && lookupIndex.Items() == l;
      Resort(before, m[schema.key(x) := x]);
    }

    /** The live row with the same primary key, if any. */
    method FindSame(x: R) returns (found: bool, id: nat)
      requires Valid()
      ensures found <==> schema.key(x) in contents
      ensures found ==> id in primaryIndex.Items() && id < rows.fill && schema.key(rows.Items()[id]) == schema.key(x)
    {
      var r;
      r, id := FindRow(Primary, MatchKey(x), false);
      MatchKeyFinds(x, r);
      found := r.Some?;
    }

    /** Overwrite the row with the same primary key, or append a new one. `false` is the EEXIST answer. */
    method Insert(x: R, replace: bool) returns (stored: bool)
      requires Valid()
      modifies Repr
      ensures Valid() && fresh(Repr - old(Repr))
      ensures stored <==> replace || schema.key(x) !in old(contents)
      ensures contents == if stored then old(contents)[schema.key(x) := x] else old(contents)
    {
      hide WellIndexed, View;
      var found, id := FindSame(x);
      if !found {
        AppendRow(x);
      } else if replace {
        ReplaceRow(id, x);
      }
      stored := replace || !found;
    }

    /** The NULL filter on the primary index. */
    function MatchKey(x: R): R -> int
      requires Sound(schema)
      ensures Monotone(schema.primary, MatchKey(x))
    {
      KeyFilterMonotone(schema.primary, x);
      var cmp := schema.primary;
      y => cmp(x, y)
    }

    lemma MatchKeyFinds(x: R, r: Option<R>)
      requires Valid() && FirstMatch(contents, schema.primary, MatchKey(x), r)
      ensures r.Some? <==> schema.key(x) in contents
      ensures r.Some? ==> schema.key(r.value) == schema.key(x)
    {
      ViewFacts(schema.key, rows.Items(), primaryIndex.Items());
    }

    lemma ReplacedView(before: seq<R>, p: seq<nat>, l: seq<nat>, id: nat, x: R)
      requires WellIndexed(schema, before, p, l) && id in p && id < |before|
      requires schema.key(before[id]) == schema.key(x)
      ensures Rewritten(schema.key, before, before[id := x], p, View(schema.key, before, p)[schema.key(x) := x])
    {
      ViewFacts(schema.key, before, p);
    }

    /** The ids of the matching run of an index, in index order. */
    method Run(which: Index, filter: R -> int) returns (ids: seq<nat>)
      requires Valid() && Monotone(Order(which), filter)
      ensures RunOf(rows.Items(), IndexOf(which).Items(), filter, ids)
    {
      FilterFalls(rows.Items(), Order(which), filter, IndexOf(which).Items());
      WellIndexedBoth(schema, rows.Items(), primaryIndex.Items(), lookupIndex.Items());
      var found, first, last := IndexOf(which).Range(FilterById(rows.Items(), filter));
      RunIsSlice(rows.Items(), IndexOf(which).Items(), filter, found, first, last);
      ids := if found then IndexOf(which).Items()[first..last + 1] else [];
    }

    /** Mutate each matching row while walking the index, and only then sort the indexes again. */
    method Update(which: Index, filter: R -> int, mutate: R -> R)
      requires Valid() && Monotone(Order(which), filter)
      requires forall r :: schema.key(mutate(r)) == schema.key(r)
      modifies Repr
      ensures Valid() && Repr == old(Repr)
      ensures contents == Mutated(old(contents), filter, mutate)
    {
      hide WellIndexed, View, Rewritten, RunOf, Mutated, Sound, Monotone;
      ghost var before := rows.Items();
      MutateRun(which, filter, mutate);
      Resort(before, Mutated(contents, filter, mutate));
      contents := Mutated(contents, filter, mutate);
    }

    /** Mutate the run of matching rows in place; the indexes are not sorted any more. */
    method MutateRun(which: Index, filter: R -> int, mutate: R -> R)
      requires Valid() && Monotone(Order(which), filter)
      requires forall r :: schema.key(mutate(r)) == schema.key(r)
      modifies rows.entries
      ensures primaryIndex.Items() == old(primaryIndex.Items()) && lookupIndex.Items() == old(lookupIndex.Items())
      ensures var m := Mutated(contents, filter, mutate);
        Rewritten(schema.key, old(rows.Items()), rows.Items(), primaryIndex.Items(), m)
    {
      hide WellIndexed, View, Rewritten, RunOf, Walked, Mutated, Sound, Monotone;
      ghost var before, p, l := rows.Items(), primaryIndex.Items(), lookupIndex.Items();
      var run := Run(which, filter);
      assert rows.Items() == before && primaryIndex.Items() == p && lookupIndex.Items() == l;
      Walk(run, mutate);
      assert primaryIndex.Items() == p && lookupIndex.Items() == l;
      RunOfIndex(schema, before, p, l, which);
      ghost var ids := if which.Primary? then p else l;
      WalkOutcome(schema.key, before, p, ids, Order(which), filter, mutate, rows.Items(), run);
    }

    method Walk(run: seq<nat>, mutate: R -> R)
      requires rows.Valid() && NoDuplicates(run) && forall k :: 0 <= k < |run| ==> run[k] < rows.fill
      modifies rows.entries
      ensures Walked(old(rows.Items()), rows.Items(), run, mutate)
    {
      ghost var before := rows.Items();
      for i := 0 to |run|
        invariant Walked(before, rows.Items(), run[..i], mutate)
      {
        WalkStep(before, rows.Items(), run[..i], mutate, run[i]);
        assert run[..i + 1] == run[..i] + [run[i]];
        rows.Set(run[i], mutate(rows.entries[run[i]]));
      }
      assert run[..|run|] == run;
    }

    /** Remove the matching ids from every index; `false` is the ENOENT answer. The rows stay behind. */
    method Delete(which: Index, filter: R -> int) returns (found: bool)
      requires Valid() && Monotone(Order(which), filter)
      modifies Repr
      ensures Valid() && Repr == old(Repr)
      ensures rows.Items() == old(rows.Items())
      ensures found <==> AnyMatch(old(contents), filter)
      ensures contents == Without(old(contents), filter)
    {
      hide WellIndexed, View, Without, AnyMatch, Monotone, Sound;
      found := DropMatches(which, filter);
      contents := Without(contents, filter);
    }

    /** Find the run of matching rows and remove it, when there is one. */
    method DropMatches(which: Index, filter: R -> int) returns (found: bool)
      requires Valid() && Monotone(Order(which), filter)
      modifies primaryIndex`fill, lookupIndex`fill, primaryIndex.entries, lookupIndex.entries
      ensures Apart() && rows.Items() == old(rows.Items())
      ensures found <==> AnyMatch(contents, filter)
      ensures WellIndexed(schema, rows.Items(), primaryIndex.Items(), lookupIndex.Items())
      ensures View(schema.key, rows.Items(), primaryIndex.Items()) == Without(contents, filter)
    {
      hide WellIndexed, View, RunOf, Without, AnyMatch, Monotone, Sound;
      ghost var items, p, l := rows.Items(), primaryIndex.Items(), lookupIndex.Items();
      var run := Run(which, filter);
      assert rows.Items() == items && primaryIndex.Items() == p && lookupIndex.Items() == l;
      RunOutcome(schema, items, p, l, which, filter, run);
      found := run != [];
      if found {
        DropIds(run);
      }
    }

    /** Remove the given ids from both indexes. */
    method DropIds(run: seq<nat>)
      requires Apart()
      modifies primaryIndex`fill, lookupIndex`fill, primaryIndex.entries, lookupIndex.entries
      ensures Apart() && rows.Items() == old(rows.Items())
      ensures primaryIndex.Items() == Kept(old(primaryIndex.Items()), InRun(run))
      ensures lookupIndex.Items() == Kept(old(lookupIndex.Items()), InRun(run))
    {
      ghost var l := lookupIndex.Items();
      primaryIndex.Delete(InRun(run));
      ghost var p := primaryIndex.Items();
      assert lookupIndex.Items() == l;
      lookupIndex.Delete(InRun(run));
      assert primaryIndex.Items() == p;
    }

    /** The rows behind a list of ids. */
    method RowsOf(run: seq<nat>) returns (s: seq<R>)
      requires rows.Valid() && forall k :: 0 <= k < |run| ==> run[k] < rows.fill
      ensures s == Gather(rows.Items(), run)
    {
      s := [];
      for i := 0 to |run|
        invariant s == Gather(rows.Items(), run[..i])
      {
        s := s + [rows.entries[run[i]]];
      }
      assert run[..|run|] == run;
    }

    /** The matching rows in index order. */
    method QueryAll(which: Index, filter: R -> int) returns (s: seq<R>)
      requires Valid() && Monotone(Order(which), filter)
      ensures Lists(contents, filter, s) && Sorted(Order(which), s)
    {
      ghost var items, p, ids := rows.Items(), primaryIndex.Items(), IndexOf(which).Items();
      assert Indexed(schema.key, items, p, ids, Order(which)) by {
        WellIndexedBoth(schema, items, p, lookupIndex.Items());
      }
      var run := Run(which, filter);
      assert rows.Items() == items && IndexOf(which).Items() == ids;
      s := RowsOf(run);
      RunLists(schema.key, items, p, ids, Order(which), filter, run);
      RunSorted(items, ids, Order(which), filter, run);
    }

    method QueryCount(which: Index, filter: R -> int) returns (count: nat)
      requires Valid() && Monotone(Order(which), filter)
      ensures count == |Matching(contents, filter)|
    {
      hide Lists, Matching;
      count := 0;
      var s := QueryAll(which, filter);
      ViewFacts(schema.key, rows.Items(), primaryIndex.Items());
      ListsCount(schema.key, contents, filter, s);
      for i := 0 to |s|
        invariant count == i
      {
        count := count + 1;
      }
    }

    /** Insert the rows one by one into an array sorted by `order`. */
    static method SortRows(matching: seq<R>, order: (R, R) -> int) returns (s: seq<R>)
      requires TotalPreorder(order)
      ensures Sorted(order, s) && multiset(s) == multiset(matching)
    {
      hide TotalPreorder;
      var results := new Array<R>();
      for i := 0 to |matching|
        invariant results.Valid() && fresh(results) && fresh(results.entries)
        invariant Sorted(order, results.Items()) && multiset(results.Items()) == multiset(matching[..i])
      {
        assert matching[..i + 1] == matching[..i] + [matching[i]];
        results.SortedInsert(order, matching[i]);
      }
      assert matching[..|matching|] == matching;
      s := results.Items();
    }

    /** The matching rows sorted by `order`; an empty answer is ENOENT. */
    method QueryOrderBy(which: Index, filter: R -> int, order: (R, R) -> int) returns (s: seq<R>)
      requires Valid() && Monotone(Order(which), filter) && TotalPreorder(order)
      ensures Lists(contents, filter, s) && Sorted(order, s)
    {
      var matching := QueryAll(which, filter);
      s := SortRows(matching, order);
      ListsPermuted(contents, filter, matching, s);
    }
  }
}
