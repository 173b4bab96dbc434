/** Block accounting: nothing is counted twice or lost, and a delete always finds a block for its record. */
module Space {
  import opened Records
  import opened Log
  import opened Engine

  function Count(m: Mem, op: nat): nat {
    |WithOp(m, op)|
  }

  function TotalBlocks(g: Geometry): int {
    g.last - g.first + 1
  }

  /** What the status call reports: never used, free and delete blocks. */
  function FreeBlocks(g: Geometry, m: Mem): int {
    g.last - m.nextBlock + 1 + Count(m, FREE) + Count(m, DELETE)
  }

  predicate IsLive(row: Block) {
    row.op == NODE || row.op == DATA || row.op == TRUNCATE || row.op == MOVE
  }

  function LiveBlocks(m: Mem): set<nat> {
    set b | b in m.blocks && IsLive(m.blocks[b])
  }

  function LiveOf(m: Mem, node: nat): set<nat> {
    set b | b in m.blocks && IsLive(m.blocks[b]) && m.blocks[b].node == node
  }

  function WithOp(m: Mem, op: nat): set<nat> {
    set b | b in m.blocks && m.blocks[b].op == op
  }

  lemma Partition(m: Mem)
    requires forall b :: b in m.blocks ==> m.blocks[b].op == FREE || m.blocks[b].op == DELETE || IsLive(m.blocks[b])
    ensures |m.blocks.Keys| == |WithOp(m, FREE)| + |WithOp(m, DELETE)| + |LiveBlocks(m)|
  {
    hide Count;
    var f, d, l := WithOp(m, FREE), WithOp(m, DELETE), LiveBlocks(m);
    assert m.blocks.Keys == f + d + l;
    assert |f + d + l| == |f + d| + |l|;
  }

  lemma KnownOps(g: Geometry, s: State)
    requires Sane(g, s)
    ensures forall b :: b in s.mem.blocks ==>
      s.mem.blocks[b].op == FREE || s.mem.blocks[b].op == DELETE || IsLive(s.mem.blocks[b])
  {
    forall b | b in s.mem.blocks
      ensures s.mem.blocks[b].op == FREE || s.mem.blocks[b].op == DELETE || IsLive(s.mem.blocks[b])
    {
      assert RowMatches(b, s.mem.blocks[b], s.disk[b]);
    }
  }

  /** Every block up to the next fresh one has a row. */
  lemma UsedBlocks(g: Geometry, s: State)
    requires Sane(g, s) && g.first <= g.last + 1
    ensures |s.mem.blocks.Keys| == s.mem.nextBlock - g.first
  {
    assert s.mem.blocks.Keys == Between(g.first, s.mem.nextBlock);
  }

  /** Free, reclaimable and live blocks together are all the blocks there are. */
  lemma SpaceConserved(g: Geometry, s: State)
    requires Sane(g, s) && g.first <= g.last + 1
    ensures FreeBlocks(g, s.mem) + |LiveBlocks(s.mem)| == TotalBlocks(g)
  {
    hide Sane;
    KnownOps(g, s);
    Partition(s.mem);
    UsedBlocks(g, s);
  }

  lemma LiveAfterDelete(m: Mem, b: nat, n: Node, seqno: nat)
    requires b in m.blocks ==> !IsLive(RowEffect(m.blocks[b], Delete(n)))
    ensures LiveBlocks(Apply(m, Logged(b, Record(seqno, Delete(n))))) == LiveBlocks(m) - LiveOf(m, n.node)
  {
    var t := Apply(m, Logged(b, Record(seqno, Delete(n))));
    forall c
      ensures c in LiveBlocks(t) <==> c in LiveBlocks(m) && c !in LiveOf(m, n.node)
    {
      if c == b {
        assert !IsLive(t.blocks[b]);
      } else if c in m.blocks {
        assert t.blocks[c] == RowEffect(m.blocks[c], Delete(n));
      }
    }
  }

  /** A delete leaves no node row of its node, so its record takes nothing over. */
  lemma DeleteTakesNothing(g: Geometry, m: Mem, n: Node)
    ensures !SourceOf(g, Effect(m, Delete(n)), n.node).TakenOver?
  {
    var e := Effect(m, Delete(n));
    forall b | b in e.blocks
      ensures OpNodeFilter(NODE, n.node)(e.blocks[b]) != 0
    {
      assert e.blocks[b] == RowEffect(m.blocks[b], Delete(n));
    }
  }

  /** Deleting a node gives back exactly its live blocks: the record of the delete costs nothing. */
  lemma DeleteFreesItsBlocks(g: Geometry, s: State, b: nat, n: Node)
    requires Sane(g, s) && g.first <= g.last + 1
    requires Picks(g, Effect(s.mem, Delete(n)), n.node, b)
    ensures FreeBlocks(g, Write(s, b, Delete(n)).mem) == FreeBlocks(g, s.mem) + |LiveOf(s.mem, n.node)|
  {
    DeleteTakesNothing(g, s.mem, n);
    WriteSane(g, s, b, Delete(n));
    SpaceConserved(g, s);
    SpaceConserved(g, Write(s, b, Delete(n)));
    PickedIsDead(g, s, b, Delete(n));
    LiveAfterDelete(s.mem, b, n, s.nextSeq);
    assert LiveOf(s.mem, n.node) <= LiveBlocks(s.mem);
  }

  /** Without takeover the allocator never hands out a live block. */
  lemma PickedIsDead(g: Geometry, s: State, b: nat, body: Body)
    requires Sane(g, s) && Picks(g, Effect(s.mem, body), body.Node(), b)
    requires !SourceOf(g, Effect(s.mem, body), body.Node()).TakenOver?
    ensures b in s.mem.blocks ==> !IsLive(RowEffect(s.mem.blocks[b], body))
  {
  }

  /** The allocator need not touch a live block if and only if the status call reports a free one. */
  lemma FreeMeansSource(g: Geometry, s: State, node: nat)
    requires Sane(g, s) && g.first <= g.last + 1
    ensures var source := SourceOf(g, s.mem, node);
      FreeBlocks(g, s.mem) > 0 <==> source.Fresh? || source.Reused? || source.Reclaimed?
  {
    HasIsCount(s.mem, FREE);
    HasIsCount(s.mem, DELETE);
  }

  lemma HasIsCount(m: Mem, op: nat)
    ensures Has(m, OpFilter(op)) <==> Count(m, op) > 0
  {
    if b :| b in m.blocks && OpFilter(op)(m.blocks[b]) == 0 {
      assert b in WithOp(m, op);
    }
    if Count(m, op) > 0 {
      var b :| b in WithOp(m, op);
      assert OpFilter(op)(m.blocks[b]) == 0;
    }
  }

  lemma SubsetCount(a: set<nat>, b: set<nat>)
    requires a <= b
    ensures |a| <= |b|
  {
    assert b == a + (b - a);
  }

  // Deleting on a full disk

  /** A live block of the node. */
  ghost predicate Owned(m: Mem, b: nat, node: nat) {
    b in m.blocks && m.blocks[b].node == node && IsLive(m.blocks[b])
  }

  /** Every node in the table has some live block, whatever it holds. */
  ghost predicate AllOwned(m: Mem) {
    forall k :: k in m.nodes ==> exists b :: Owned(m, b, k.node)
  }

  /** A write takes no live block away from another node: a takeover picks one of its own. */
  lemma OwnedAfter(g: Geometry, s: State, body: Body, b: nat, c: nat, node: nat)
    requires Sane(g, s) && Picks(g, Effect(s.mem, body), body.Node(), b)
    requires Owned(s.mem, c, node) && node != body.Node()
    ensures Owned(Write(s, b, body).mem, c, node)
  {
    OwnedIsNotPicked(g, s, body, b, c, node);
  }

  lemma OwnedIsNotPicked(g: Geometry, s: State, body: Body, b: nat, c: nat, node: nat)
    requires Sane(g, s) && Picks(g, Effect(s.mem, body), body.Node(), b)
    requires Owned(s.mem, c, node) && node != body.Node()
    ensures RowEffect(s.mem.blocks[c], body) == s.mem.blocks[c] && c != b
  {
  }

  /** Every write keeps every node backed, takeovers included. */
  lemma WriteKeepsOwned(g: Geometry, s: State, b: nat, body: Body)
    requires Sane(g, s) && AllOwned(s.mem) && Picks(g, Effect(s.mem, body), body.Node(), b)
    ensures AllOwned(Write(s, b, body).mem)
  {
    hide Sane, Picks, RowEffect;
    var m := Write(s, b, body).mem;
    forall k | k in m.nodes
      ensures exists c :: Owned(m, c, k.node)
    {
      if k.node == body.Node() {
        assert Owned(m, b, k.node);
      } else {
        var c :| Owned(s.mem, c, k.node);
        OwnedAfter(g, s, body, b, c, k.node);
      }
    }
  }

  /** A delete of a node with a live block finds a fresh block or one of those it has just freed. */
  lemma DeleteAlwaysFits(g: Geometry, m: Mem, n: Node, b: nat)
    requires Owned(m, b, n.node)
    ensures var source := SourceOf(g, Effect(m, Delete(n)), n.node); source.Fresh? || source.Reused?
  {
    var e := Effect(m, Delete(n));
    assert OpFilter(FREE)(e.blocks[b]) == 0;
  }

  /** Without a live block of the node a delete frees nothing, and needs what is free. */
  lemma UnownedDelete(g: Geometry, s: State, n: Node)
    requires Sane(g, s) && g.first <= g.last + 1 && LiveOf(s.mem, n.node) == {}
    ensures SourceOf(g, Effect(s.mem, Delete(n)), n.node).NoSpace? <==> FreeBlocks(g, s.mem) == 0
  {
    hide Sane, FreeBlocks;
    var e := Effect(s.mem, Delete(n));
    FreeMeansSource(g, s, n.node);
    FreeIsCounted(g, s);
    DeleteTakesNothing(g, s.mem, n);
    KnownOps(g, s);
    forall b | b in s.mem.blocks
      ensures OpFilter(FREE)(e.blocks[b]) == 0 || OpFilter(DELETE)(e.blocks[b]) == 0 <==>
        OpFilter(FREE)(s.mem.blocks[b]) == 0 || OpFilter(DELETE)(s.mem.blocks[b]) == 0
    {
      assert b !in LiveOf(s.mem, n.node);
    }
  }

  lemma FreeIsCounted(g: Geometry, s: State)
    requires Sane(g, s) && g.first <= g.last + 1
    ensures FreeBlocks(g, s.mem) >= 0
  {
  }

  /** A delete lacks space if and only if nothing is reported free and its node has no live block. */
  lemma DeleteFitsExact(g: Geometry, s: State, n: Node)
    requires Sane(g, s) && g.first <= g.last + 1
    ensures SourceOf(g, Effect(s.mem, Delete(n)), n.node).NoSpace? <==>
      FreeBlocks(g, s.mem) == 0 && LiveOf(s.mem, n.node) == {}
  {
    hide Sane, FreeBlocks, SourceOf;
    if b :| b in LiveOf(s.mem, n.node) {
      DeleteAlwaysFits(g, s.mem, n, b);
    } else {
      UnownedDelete(g, s, n);
    }
  }
}
