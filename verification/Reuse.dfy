/** Overwriting an old record: when leaving it out of the log is invisible to a replay. */
module Reuse {
  import opened Indexes
  import opened Records
  import opened Log
  import opened Lifetimes

  /** Two memories with the same nodes and the same non-free rows, and free rows in the same places. */
  ghost predicate Equivalent(a: Mem, b: Mem) {
    a.nodes == b.nodes && RowsAlike(a, b)
  }

  ghost predicate RowsAlike(a: Mem, b: Mem) {
    a.blocks.Keys == b.blocks.Keys && SimilarRows(a, b)
  }

  ghost predicate SimilarRows(a: Mem, b: Mem) {
    forall c :: c in a.blocks && c in b.blocks ==> Similar(a.blocks[c], b.blocks[c])
  }

  ghost predicate DataNotEmpty(log: seq<Logged>) {
    forall i :: 0 <= i < |log| ==> log[i].rec.body.Data? ==> log[i].rec.body.bytes != []
  }

  /** Taking the truncate `x` out of a row's future shows exactly when `x` was what bounded the row. */
  ghost predicate Covered(row: Block, x: Body, others: seq<Logged>)
    requires x.Truncate?
  {
    || row.node != x.id || Deleted(others, x.id)
    || (row.op == DATA && CutEnd(others, x.id, row.offset + row.fill) <= Max(x.size, row.offset))
    || (row.op == TRUNCATE && Truncated(others, x.id))
    || (row.op != DATA && row.op != TRUNCATE)
  }

  lemma CutEndSkip(a: seq<Logged>, x: Logged, b: seq<Logged>, node: nat, end: nat)
    requires IsTruncate(x, node)
    ensures CutEnd(a + [x] + b, node, end) ==
      (if x.rec.body.size < CutEnd(a + b, node, end) then x.rec.body.size else CutEnd(a + b, node, end))
  {
    TracesConcat(a, b, node, end);
    TracesConcat(a + [x], b, node, end);
    assert Init(a + [x]) == a;
    var c := CutEnd(a, node, end);
    CutEndMonotone(b, node, if x.rec.body.size < c then x.rec.body.size else c, c);
    CutEndMonotone(b, node, c, c);
  }

  lemma TracesSkip(a: seq<Logged>, x: Logged, b: seq<Logged>, node: nat)
    ensures Deleted(a + [x] + b, node) <==>
      Deleted(a + b, node) || (x.rec.body.Delete? && x.rec.body.entry.node == node)
    ensures Truncated(a + [x] + b, node) <==> Truncated(a + b, node) || IsTruncate(x, node)
    ensures !IsTruncate(x, node) ==> forall end :: CutEnd(a + [x] + b, node, end) == CutEnd(a + b, node, end)
  {
    assert Init(a + [x]) == a;
    forall end
      ensures !IsTruncate(x, node) ==> CutEnd(a + [x] + b, node, end) == CutEnd(a + b, node, end)
    {
      TracesConcat(a, b, node, end);
      TracesConcat(a + [x], b, node, end);
    }
    TracesConcat(a, b, node, 0);
    TracesConcat(a + [x], b, node, 0);
  }

  /** Leaving out a record that is not about the row's end of life changes nothing. */
  lemma DropNeutral(row: Block, a: seq<Logged>, x: Logged, b: seq<Logged>)
    requires x.rec.body.Entry? || x.rec.body.Move? || x.rec.body.Data? || x.rec.body.Node() != row.node
    ensures Later(row, a + b) == Later(row, a + [x] + b)
  {
    LaterFixes(row, a + [x]);
    LaterConcat(row, a, b);
    LaterConcat(row, a + [x], b);
    assert Init(a + [x]) == a;
    assert Final(a + [x]) == x;
  }

  lemma {:induction false} LaterFixes(row: Block, s: seq<Logged>)
    ensures Later(row, s).node == row.node
  {
    if s != [] {
      LaterFixes(row, Init(s));
    }
  }

  lemma DropDelete(row: Block, a: seq<Logged>, x: Logged, b: seq<Logged>)
    requires 1 <= row.op < LAST && (row.op == DATA ==> row.fill > 0)
    requires Deleted(b, row.node)
    ensures Similar(Later(row, a + b), Later(row, a + [x] + b))
  {
    LaterForm(row, a + b);
    LaterForm(row, a + [x] + b);
    TracesConcat(a, b, row.node, 0);
    TracesConcat(a + [x], b, row.node, 0);
  }

  /** Leaving a truncate out of a row's future is invisible exactly when the row is covered without it. */
  lemma DropTruncate(row: Block, a: seq<Logged>, x: Logged, b: seq<Logged>)
    requires 1 <= row.op < LAST && (row.op == DATA ==> row.fill > 0) && x.rec.body.Truncate?
    ensures Similar(Later(row, a + b), Later(row, a + [x] + b)) <==> Covered(row, x.rec.body, a + b)
  {
    if row.node != x.rec.body.id {
      DropNeutral(row, a, x, b);
    } else {
      var end, size := CutEnd(a + b, row.node, row.offset + row.fill), x.rec.body.size;
      assert CutEnd(a + [x] + b, row.node, row.offset + row.fill) == if size < end then size else end by {
        CutEndSkip(a, x, b, row.node, row.offset + row.fill);
      }
      TracesSkip(a, x, b, row.node);
      LaterForm(row, a + b);
      LaterForm(row, a + [x] + b);
    }
  }

  /** Leaving `x` out of the records of a node. */
  lemma DropFromNode(a: seq<Logged>, x: Logged, b: seq<Logged>, k: NodeKey)
    requires x.rec.body.Data? || x.rec.body.Truncate? || x.rec.body.Node() != k.node || Deleted(b, k.node)
      || (x.rec.body.Delete? && NodeLater(None, a, k) == None)
    ensures NodeLater(None, a + b, k) == NodeLater(None, a + [x] + b, k)
  {
    var st, st' := NodeLater(None, a, k), NodeLater(None, a + [x], k);
    assert st == st' || Deleted(b, k.node) by {
      assert Init(a + [x]) == a;
      assert Final(a + [x]) == x;
    }
    NodeLaterForgets(st, st', b, k);
    NodeLaterConcat(None, a, b, k);
    NodeLaterConcat(None, a + [x], b, k);
  }

  // Overwriting block log[i].block with the record e

  function Row(log: seq<Logged>, j: nat): Block
    requires j < |log|
  {
    RowOf(log[j].block, log[j].rec)
  }

  /** The records after position `j` once position `i` is gone and `e` is written. */
  function Rest(log: seq<Logged>, i: nat, e: Logged, j: nat): seq<Logged>
    requires i < |log| && j < |log|
  {
    if j < i then log[j + 1..i] + (log[i + 1..] + [e]) else log[j + 1..] + [e]
  }

  lemma DropDistinct(log: seq<Logged>, i: nat, e: Logged)
    requires DistinctBlocks(log) && i < |log| && e.block == log[i].block
    ensures DistinctBlocks(Drop(log, i) + [e])
  {
    var l := Drop(log, i) + [e];
    forall j, k | 0 <= j < k < |l|
      ensures l[j].block != l[k].block
    {
      var j', k' := if j < i then j else j + 1, if k < i then k else k + 1;
      assert l[j] == log[j'];
      assert k < |l| - 1 ==> l[k] == log[k'];
    }
  }

  /** A row that stays, as the replay without position `i` and the replay with it leave it. */
  lemma RowsLeft(first: nat, log: seq<Logged>, i: nat, e: Logged, j: nat)
    requires DistinctBlocks(log) && i < |log| && e.block == log[i].block && j < |log| && j != i
    ensures log[j].block != e.block
    ensures log[j].block in Rebuild(first, Drop(log, i) + [e]).blocks
    ensures log[j].block in Rebuild(first, log + [e]).blocks
    ensures Rebuild(first, Drop(log, i) + [e]).blocks[log[j].block] == Later(Row(log, j), Rest(log, i, e, j))
    ensures Rebuild(first, log + [e]).blocks[log[j].block] == Later(Row(log, j), log[j + 1..] + [e])
  {
    hide Rebuild, Later;
    RowWithout(first, log, i, e, j);
    RowWith(first, log, e, j);
  }

  lemma RowWithout(first: nat, log: seq<Logged>, i: nat, e: Logged, j: nat)
    requires DistinctBlocks(log) && i < |log| && e.block == log[i].block && j < |log| && j != i
    ensures log[j].block in Rebuild(first, Drop(log, i) + [e]).blocks
    ensures Rebuild(first, Drop(log, i) + [e]).blocks[log[j].block] == Later(Row(log, j), Rest(log, i, e, j))
  {
    hide Rebuild, Later, DistinctBlocks;
    var l, j' := Drop(log, i) + [e], if j < i then j else j - 1;
    DropDistinct(log, i, e);
    assert l[j'] == log[j];
    assert l[j' + 1..] == Rest(log, i, e, j);
    RebuildRow(first, l, j');
  }

  lemma RowWith(first: nat, log: seq<Logged>, e: Logged, j: nat)
    requires DistinctBlocks(log) && j < |log| && e.block != log[j].block
    ensures log[j].block in Rebuild(first, log + [e]).blocks
    ensures Rebuild(first, log + [e]).blocks[log[j].block] == Later(Row(log, j), log[j + 1..] + [e])
  {
    RebuildRow(first, log, j);
    assert Init(log + [e]) == log;
    assert Init(log[j + 1..] + [e]) == log[j + 1..];
  }

  lemma MapsByGet<K(!new), V>(m: map<K, V>, n: map<K, V>)
    requires forall k :: Get(m, k) == Get(n, k)
    ensures m == n
  {
    forall k | k in m
      ensures k in n && m[k] == n[k]
    {
      assert Get(m, k) == Get(n, k);
    }
    forall k | k in n
      ensures k in m
    {
      assert Get(m, k) == Get(n, k);
    }
  }

  lemma SameNodes(first: nat, l: seq<Logged>, r: seq<Logged>)
    ensures Rebuild(first, l).nodes == Rebuild(first, r).nodes <==> NodesAgree(l, r)
  {
    var m, n := Rebuild(first, l).nodes, Rebuild(first, r).nodes;
    forall k
      ensures Get(m, k) == NodeLater(None, l, k) && Get(n, k) == NodeLater(None, r, k)
    {
      RebuildNode(first, l, k);
      RebuildNode(first, r, k);
    }
    if NodesAgree(l, r) {
      forall k
        ensures Get(m, k) == Get(n, k)
      {
        assert NodeLater(None, l, k) == NodeLater(None, r, k);
      }
      MapsByGet(m, n);
    }
    if m == n {
      forall k
        ensures NodeLater(None, l, k) == NodeLater(None, r, k)
      {
        assert Get(m, k) == Get(n, k);
      }
    }
  }

  ghost predicate NodesAgree(l: seq<Logged>, r: seq<Logged>) {
    forall k :: NodeLater(None, l, k) == NodeLater(None, r, k)
  }

  ghost predicate RowsAgree(log: seq<Logged>, i: nat, e: Logged)
    requires i < |log|
  {
    forall j :: 0 <= j < |log| && j != i ==>
      Similar(Later(Row(log, j), Rest(log, i, e, j)), Later(Row(log, j), log[j + 1..] + [e]))
  }

  lemma SameRows(first: nat, log: seq<Logged>, i: nat, e: Logged)
    requires DistinctBlocks(log) && i < |log| && e.block == log[i].block
    ensures var m, n := Rebuild(first, Drop(log, i) + [e]), Rebuild(first, log + [e]);
      SimilarRows(m, n) <==> RowsAgree(log, i, e)
  {
    var m, n := Rebuild(first, Drop(log, i) + [e]), Rebuild(first, log + [e]);
    if SimilarRows(m, n) {
      forall j | 0 <= j < |log| && j != i
        ensures Similar(Later(Row(log, j), Rest(log, i, e, j)), Later(Row(log, j), log[j + 1..] + [e]))
      {
        RowsLeft(first, log, i, e, j);
      }
    }
    if RowsAgree(log, i, e) {
      forall c | c in m.blocks && c in n.blocks
        ensures Similar(m.blocks[c], n.blocks[c])
      {
        if c == e.block {
          NewRow(first, Drop(log, i), e);
          NewRow(first, log, e);
        } else {
          RebuildKeys(first, log + [e]);
          var j :| 0 <= j < |log + [e]| && (log + [e])[j].block == c;
          RowsLeft(first, log, i, e, j);
        }
      }
    }
  }

  lemma NewRow(first: nat, log: seq<Logged>, e: Logged)
    ensures e.block in Rebuild(first, log + [e]).blocks
    ensures Rebuild(first, log + [e]).blocks[e.block] == RowOf(e.block, e.rec)
  {
    assert Init(log + [e]) == log;
  }

  /** The two replays agree exactly when they agree on the nodes and on every row that stays. */
  lemma EquivalentRebuilds(first: nat, log: seq<Logged>, i: nat, e: Logged)
    requires DistinctBlocks(log) && i < |log| && e.block == log[i].block
    ensures Equivalent(Rebuild(first, Drop(log, i) + [e]), Rebuild(first, log + [e])) <==>
      RowsAgree(log, i, e) && NodesAgree(Drop(log, i) + [e], log + [e])
  {
    SameNodes(first, Drop(log, i) + [e], log + [e]);
    SameKeys(first, log, i, e);
    SameRows(first, log, i, e);
  }

  lemma SameKeys(first: nat, log: seq<Logged>, i: nat, e: Logged)
    requires i < |log| && e.block == log[i].block
    ensures Rebuild(first, Drop(log, i) + [e]).blocks.Keys == Rebuild(first, log + [e]).blocks.Keys
    ensures e.block in Rebuild(first, log + [e]).blocks
  {
    var l, r := Drop(log, i) + [e], log + [e];
    RebuildKeys(first, l);
    RebuildKeys(first, r);
    var m, n := Rebuild(first, l), Rebuild(first, r);
    forall c | c in m.blocks
      ensures c in n.blocks
    {
      var j :| 0 <= j < |l| && l[j].block == c;
      assert r[if j < i then j else j + 1].block == c;
    }
    forall c | c in n.blocks
      ensures c in m.blocks
    {
      var j :| 0 <= j < |r| && r[j].block == c;
      assert l[if j < i then j else if j == i then |l| - 1 else j - 1].block == c;
    }
    assert r[|log|].block == e.block;
  }

  /** Why the record at position `i` may be overwritten by `e`. */
  ghost predicate Obsolete(log: seq<Logged>, i: nat, e: Logged)
    requires i < |log|
  {
    var later, x := log[i + 1..] + [e], log[i].rec.body;
    match x
    case Data(_, _, _) => true
    case Truncate(_, _) => Shadowed(log, i, e)
    case Delete(n) => Deleted(later, n.node) || forall j :: 0 <= j < i ==> log[j].rec.body.Node() != n.node
    case _ => Deleted(later, x.Node())
  }

  /** Every row older than the truncate at `i` is bounded as tightly without it. */
  ghost predicate Shadowed(log: seq<Logged>, i: nat, e: Logged)
    requires i < |log| && log[i].rec.body.Truncate?
  {
    forall j :: 0 <= j < i ==> Covered(Row(log, j), log[i].rec.body, Rest(log, i, e, j))
  }

  lemma RowOfKind(log: seq<Logged>, j: nat)
    requires j < |log| && DataNotEmpty(log)
    ensures 1 <= Row(log, j).op < LAST && (Row(log, j).op == DATA ==> Row(log, j).fill > 0)
    ensures Row(log, j).node == log[j].rec.body.Node()
  {
  }

  /** The future of a row before position `i`, split around the record there. */
  lemma SplitFuture(log: seq<Logged>, i: nat, e: Logged, j: nat)
    requires j < i < |log|
    ensures log[j + 1..] + [e] == log[j + 1..i] + [log[i]] + (log[i + 1..] + [e])
  {
  }

  lemma ObsoleteRows(log: seq<Logged>, i: nat, e: Logged)
    requires i < |log| && DataNotEmpty(log)
    requires log[i].rec.body.Delete? ==> Obsolete(log, i, e)
    ensures !log[i].rec.body.Truncate? ==> RowsAgree(log, i, e)
    ensures log[i].rec.body.Truncate? ==> (RowsAgree(log, i, e) <==> Shadowed(log, i, e))
  {
    var x, b := log[i], log[i + 1..] + [e];
    forall j | 0 <= j < i
      ensures var agree := Similar(Later(Row(log, j), Rest(log, i, e, j)), Later(Row(log, j), log[j + 1..] + [e]));
        agree <==> (x.rec.body.Truncate? ==> Covered(Row(log, j), x.rec.body, Rest(log, i, e, j)))
    {
      var a := log[j + 1..i];
      SplitFuture(log, i, e, j);
      RowOfKind(log, j);
      if x.rec.body.Truncate? {
        DropTruncate(Row(log, j), a, x, b);
      } else if x.rec.body.Delete? && Deleted(b, Row(log, j).node) {
        DropDelete(Row(log, j), a, x, b);
      } else {
        DropNeutral(Row(log, j), a, x, b);
      }
    }
  }

  lemma ObsoleteNodes(log: seq<Logged>, i: nat, e: Logged, k: NodeKey)
    requires i < |log|
    requires log[i].rec.body.Truncate? || Obsolete(log, i, e)
    ensures NodeLater(None, Drop(log, i) + [e], k) == NodeLater(None, log + [e], k)
  {
    var a, x, b := log[..i], log[i], log[i + 1..] + [e];
    assert Drop(log, i) + [e] == a + b;
    assert log + [e] == a + [x] + b;
    if x.rec.body.Delete? && !Deleted(b, k.node) && x.rec.body.Node() == k.node {
      NodeLaterSilent(a, k);
    }
    DropFromNode(a, x, b, k);
  }

  /** Overwriting an obsolete record with a new one is invisible to the replay. */
  lemma ObsoleteIsInvisible(first: nat, log: seq<Logged>, i: nat, e: Logged)
    requires DistinctBlocks(log) && DataNotEmpty(log) && i < |log| && e.block == log[i].block
    requires Obsolete(log, i, e)
    ensures Equivalent(Rebuild(first, Drop(log, i) + [e]), Rebuild(first, log + [e]))
  {
    EquivalentRebuilds(first, log, i, e);
    ObsoleteRows(log, i, e);
    forall k
      ensures NodeLater(None, Drop(log, i) + [e], k) == NodeLater(None, log + [e], k)
    {
      ObsoleteNodes(log, i, e, k);
    }
  }

  /** For a truncate record this is exact: overwriting it keeps the replay if and only if it is shadowed. */
  lemma TruncateReuseExact(first: nat, log: seq<Logged>, i: nat, e: Logged)
    requires DistinctBlocks(log) && DataNotEmpty(log) && i < |log| && e.block == log[i].block
    requires log[i].rec.body.Truncate?
    ensures Equivalent(Rebuild(first, Drop(log, i) + [e]), Rebuild(first, log + [e])) <==> Shadowed(log, i, e)
  {
    EquivalentRebuilds(first, log, i, e);
    ObsoleteRows(log, i, e);
    forall k
      ensures NodeLater(None, Drop(log, i) + [e], k) == NodeLater(None, log + [e], k)
    {
      ObsoleteNodes(log, i, e, k);
    }
  }

  // A move that replays into a slot which the record had cleared

  /**
   * Without the record between `a` and `b`, the move at position `m` of `b` finds its target slot held by a row of
   * that record's node.
   */
  ghost predicate Revived(a: seq<Logged>, node: nat, b: seq<Logged>, m: nat)
    requires m < |b|
  {
    b[m].rec.body.Move? &&
    exists k: NodeKey :: k.node == node && HoldsSlot(NodeLater(None, a + b[..m], k), b[m].rec.body.entry)
  }

  predicate HoldsSlot(row: Option<Node>, n: Node) {
    row.Some? && SameSlot(row.value, n)
  }

  lemma ConflictIsHeld(first: nat, log: seq<Logged>, body: Body)
    ensures Conflict(Rebuild(first, log).nodes, body) <==>
      body.Move? && exists k: NodeKey :: HoldsSlot(NodeLater(None, log, k), body.entry)
  {
    hide Rebuild, NodeLater;
    forall k
      ensures k in Rebuild(first, log).nodes <==> NodeLater(None, log, k).Some?
      ensures k in Rebuild(first, log).nodes ==> NodeLater(None, log, k) == Some(Rebuild(first, log).nodes[k])
    {
      RebuildNode(first, log, k);
    }
    if body.Move? {
      var nodes := Rebuild(first, log).nodes;
      if k: NodeKey :| HoldsSlot(NodeLater(None, log, k), body.entry) {
        assert k in nodes && SameSlot(nodes[k], body.entry);
      }
      if k: NodeKey :| k in nodes && SameSlot(nodes[k], body.entry) {
        assert HoldsSlot(NodeLater(None, log, k), body.entry);
      }
    }
  }

  lemma ReplaySnoc(first: nat, log: seq<Logged>)
    requires log != []
    ensures Replay(first, log).Some? <==>
      Replay(first, Init(log)).Some? && !Conflict(Rebuild(first, Init(log)).nodes, Final(log).rec.body)
  {
    ReplayIsRebuild(first, Init(log));
  }

  lemma RevivedBy(a: seq<Logged>, node: nat, b: seq<Logged>, m: nat, k: NodeKey)
    requires m < |b| && b[m].rec.body.Move? && k.node == node
    requires HoldsSlot(NodeLater(None, a + b[..m], k), b[m].rec.body.entry)
    ensures Revived(a, node, b, m)
  {
  }

  /** The last record of `b` conflicts without `x` exactly when it revives a row of the node of `x`. */
  lemma LastRevives(first: nat, a: seq<Logged>, x: Logged, b: seq<Logged>)
    requires b != [] && !Conflict(Rebuild(first, a + [x] + Init(b)).nodes, Final(b).rec.body)
    ensures Conflict(Rebuild(first, a + Init(b)).nodes, Final(b).rec.body) <==>
      Revived(a, x.rec.body.Node(), b, |b| - 1)
  {
    hide Conflict, Rebuild, Revived;
    var body, node, m := Final(b).rec.body, x.rec.body.Node(), |b| - 1;
    assert b[..m] == Init(b) && b[m] == Final(b);
    ConflictIsHeld(first, a + [x] + Init(b), body);
    ConflictIsHeld(first, a + Init(b), body);
    if Conflict(Rebuild(first, a + Init(b)).nodes, body) {
      var k: NodeKey :| HoldsSlot(NodeLater(None, a + Init(b), k), body.entry);
      if k.node != node {
        DropFromNode(a, x, Init(b), k);
      }
      RevivedBy(a, node, b, m, k);
    } else {
      NotRevivedBy(a, node, b, m);
    }
  }

  lemma NotRevivedBy(a: seq<Logged>, node: nat, b: seq<Logged>, m: nat)
    requires m < |b|
    requires b[m].rec.body.Move? ==>
      forall k: NodeKey :: !HoldsSlot(NodeLater(None, a + b[..m], k), b[m].rec.body.entry)
    ensures !Revived(a, node, b, m)
  {
  }

  lemma RevivedInit(a: seq<Logged>, node: nat, b: seq<Logged>, m: nat)
    requires m < |b| - 1
    ensures Revived(a, node, b, m) <==> Revived(a, node, Init(b), m)
  {
    assert Init(b)[..m] == b[..m] && Init(b)[m] == b[m];
  }

  /** No move replays into a slot that a row of the dropped record's node would hold. */
  ghost predicate NoneRevived(a: seq<Logged>, node: nat, b: seq<Logged>) {
    forall m :: 0 <= m < |b| ==> !Revived(a, node, b, m)
  }

  lemma NoneRevivedSnoc(a: seq<Logged>, node: nat, b: seq<Logged>)
    requires b != []
    ensures NoneRevived(a, node, b) <==> NoneRevived(a, node, Init(b)) && !Revived(a, node, b, |b| - 1)
  {
    hide Revived;
    forall m | 0 <= m < |b| - 1
      ensures Revived(a, node, b, m) <==> Revived(a, node, Init(b), m)
    {
      RevivedInit(a, node, b, m);
    }
  }

  /** A replay that succeeds goes on succeeding without the record `x` if and only if no later move revives its node. */
  lemma {:induction false} MoveReuseExact(first: nat, a: seq<Logged>, x: Logged, b: seq<Logged>)
    requires Replay(first, a + [x] + b).Some?
    ensures Replay(first, a + b).Some? <==> NoneRevived(a, x.rec.body.Node(), b)
    decreases |b|
  {
    hide Replay, Conflict, NoneRevived, Revived, Rebuild;
    if b == [] {
      assert a + [x] + b == a + [x] && a + b == a && Init(a + [x]) == a;
      ReplaySnoc(first, a + [x]);
      NothingAfter(a, x.rec.body.Node());
    } else {
      InitConcat(a + [x], b);
      InitConcat(a, b);
      ReplaySnoc(first, a + [x] + b);
      ReplaySnoc(first, a + b);
      MoveReuseExact(first, a, x, Init(b));
      LastRevives(first, a, x, b);
      NoneRevivedSnoc(a, x.rec.body.Node(), b);
    }
  }

  lemma NothingAfter(a: seq<Logged>, node: nat)
    ensures NoneRevived(a, node, [])
  {
  }

  // Taking over a live node record

  /** Some record in `s` rewrites or removes the node row `k`. */
  predicate Settled(s: seq<Logged>, k: NodeKey) {
    s != [] && (Settled(Init(s), k) || Settles(Final(s).rec.body, k))
  }

  predicate Settles(body: Body, k: NodeKey) {
    match body
    case Entry(n) => KeyOf(n) == k
    case Move(n) => KeyOf(n) == k
    case Delete(n) => n.node == k.node
    case _ => false
  }

  lemma {:induction false} NodeLaterSettled(start: Option<Node>, s: seq<Logged>, k: NodeKey)
    ensures Settled(s, k) ==> forall other :: NodeLater(other, s, k) == NodeLater(start, s, k)
    ensures !Settled(s, k) ==> NodeLater(start, s, k) == start
  {
    if s != [] {
      NodeLaterSettled(start, Init(s), k);
    }
  }

  /**
   * Overwriting a node record keeps the replay if and only if a later record settles the same node row,
   * or an earlier one had already left it with the same contents.
   */
  lemma EntryReuseExact(first: nat, log: seq<Logged>, i: nat, e: Logged)
    requires DistinctBlocks(log) && DataNotEmpty(log) && i < |log| && e.block == log[i].block
    requires log[i].rec.body.Entry?
    ensures var n := log[i].rec.body.entry;
      Equivalent(Rebuild(first, Drop(log, i) + [e]), Rebuild(first, log + [e])) <==>
      Settled(log[i + 1..] + [e], KeyOf(n)) || NodeLater(None, log[..i], KeyOf(n)) == Some(n)
  {
    var n, a, x, b := log[i].rec.body.entry, log[..i], log[i], log[i + 1..] + [e];
    EquivalentRebuilds(first, log, i, e);
    EntryRows(log, i, e);
    assert Drop(log, i) + [e] == a + b;
    assert log + [e] == a + [x] + b;
    forall k
      ensures NodeLater(None, a + b, k) == NodeLater(None, a + [x] + b, k) <==>
        KeyOf(n) != k || Settled(b, k) || NodeLater(None, a, k) == Some(n)
    {
      EntryAgrees(a, x, b, k);
    }
  }

  lemma EntryRows(log: seq<Logged>, i: nat, e: Logged)
    requires i < |log| && log[i].rec.body.Entry?
    ensures RowsAgree(log, i, e)
  {
    forall j | 0 <= j < i
      ensures Later(Row(log, j), Rest(log, i, e, j)) == Later(Row(log, j), log[j + 1..] + [e])
    {
      SplitFuture(log, i, e, j);
      DropNeutral(Row(log, j), log[j + 1..i], log[i], log[i + 1..] + [e]);
    }
  }

  lemma EntryAgrees(a: seq<Logged>, x: Logged, b: seq<Logged>, k: NodeKey)
    requires x.rec.body.Entry?
    ensures NodeLater(None, a + b, k) == NodeLater(None, a + [x] + b, k) <==>
      KeyOf(x.rec.body.entry) != k || Settled(b, k) || NodeLater(None, a, k) == Some(x.rec.body.entry)
  {
    var st, st' := NodeLater(None, a, k), NodeLater(None, a + [x], k);
    assert st' == if KeyOf(x.rec.body.entry) == k then Some(x.rec.body.entry) else st by {
      assert Init(a + [x]) == a;
      assert Final(a + [x]) == x;
    }
    NodeLaterConcat(None, a, b, k);
    NodeLaterConcat(None, a + [x], b, k);
    NodeLaterSettled(st, b, k);
    NodeLaterSettled(st', b, k);
  }
}
