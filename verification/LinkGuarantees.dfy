/** Links: what is stored is what is found, and when a link survives on the disk. */
module LinkGuarantees {
  import opened Indexes
  import opened Records
  import opened Log
  import opened Lifetimes
  import opened Outcomes
  import opened Trees
  import opened Renames
  import opened Entries
  import opened Engine
  import opened Space
  import opened Operations
  import opened Guarantees

  ghost predicate BothWrote(g: Geometry, s: State, n: Node, p: Node, b: nat, c: nat, t: State) {
    Wrote(g, s, Entry(n), b, Write(s, b, Entry(n))) && Wrote(g, Write(s, b, Entry(n)), Entry(p), c, t)
  }

  lemma LinkWritten(g: Geometry, s: State, n: Node, p: Node, r: Result<()>, t: State)
    requires Links(g, s, n, p, r, t) && r.Ok?
    ensures exists b, c :: BothWrote(g, s, n, p, b, c, t)
  {
    hide Picks, Legal;
    assert Init([Entry(n), Entry(p)]) == [Entry(n)] && Init([Entry(n)]) == [];
    var u, c :| Writes(g, s, [Entry(n)], u) && Wrote(g, u, Entry(p), c, t);
    var v, b :| Writes(g, s, [], v) && Wrote(g, v, Entry(n), b, u);
    assert BothWrote(g, s, n, p, b, c, t);
  }

  lemma LinkNodes(g: Geometry, s: State, n: Node, p: Node, r: Result<()>, t: State)
    requires Links(g, s, n, p, r, t) && r.Ok?
    ensures t.mem.nodes == s.mem.nodes[KeyOf(n) := n][KeyOf(p) := p]
    ensures Legal(s.mem.nodes[KeyOf(n) := n], Entry(p))
  {
    hide Links, Picks, Legal;
    LinkWritten(g, s, n, p, r, t);
    var b, c :| BothWrote(g, s, n, p, b, c, t);
  }

  /**
   * A link that was created is found at its path with its target; no other path changes, and every entry stays
   * reachable.
   */
  lemma LinkFound(g: Geometry, s: State, path: Path, to: string, time: int, now: int, r: Result<()>, t: State, q: Path)
    requires Consistent(g, s) && MakesLink(g, s, path, to, time, now, r, t) && r.Ok?
    ensures NewNode(s.mem, path, Link, time, now).Ok?
    ensures var n := NewNode(s.mem, path, Link, time, now).value;
      && Resolve(t.mem.nodes, path, time) == Ok(n)
      && Get(t.mem.nodes, NodeKey(n.node, LinkPayload)) == Some(PayloadOf(n, to))
      && (!(path <= q) ==> Resolve(t.mem.nodes, q, time) == Resolve(s.mem.nodes, q, time))
      && (AllReachable(s.mem.nodes, time) ==> AllReachable(t.mem.nodes, time))
  {
    hide Sane, Tree, Numbered, Reading.Fits, AllReachable, Resolve, Links, NewNode, Legal;
    var n := NewNode(s.mem, path, Link, time, now).value;
    var p := PayloadOf(n, to);
    var mid := s.mem.nodes[KeyOf(n) := n];
    NewNodeCreatable(g, s, path, Link, time, now);
    LinkNodes(g, s, n, p, r, t);
    CreatedTree(s.mem.nodes, path, time, n);
    CreatedPaths(s.mem.nodes, path, time, n, path);
    CreatedPaths(s.mem.nodes, path, time, n, q);
    PayloadOnNoPath(mid, p, time, path);
    PayloadOnNoPath(mid, p, time, q);
    if AllReachable(s.mem.nodes, time) {
      CreateKeepsReachable(s.mem.nodes, path, time, n);
      PayloadKeepsReachable(mid, p, time);
    }
  }

  lemma PayloadKeepsReachable(nodes: Nodes, p: Node, time: int)
    requires Tree(nodes) && Legal(nodes, Entry(p)) && p.typ == LinkPayload && AllReachable(nodes, time)
    ensures AllReachable(nodes[KeyOf(p) := p], time)
  {
    hide Tree, Legal, Resolve;
    var nodes' := nodes[KeyOf(p) := p];
    forall k | k in nodes' && k.typ != LinkPayload
      ensures exists q :: LeadsTo(nodes', q, time, k)
    {
      var q :| LeadsTo(nodes, q, time, k);
      PayloadOnNoPath(nodes, p, time, q);
      assert LeadsTo(nodes', q, time, k);
    }
  }

  // Whether a link survives

  /** The first record of the link is on the disk. */
  ghost predicate EntryOnDisk(s: State, n: Node) {
    exists b :: b in s.disk && s.disk[b].body == Entry(n)
  }

  /** A write to a block that is not taken over uses up one free block. */
  lemma WriteUsesFree(g: Geometry, s: State, b: nat, n: Node)
    requires Sane(g, s) && g.first <= g.last + 1 && Picks(g, s.mem, n.node, b) && !SourceOf(g, s.mem, n.node).TakenOver?
    ensures FreeBlocks(g, Write(s, b, Entry(n)).mem) == FreeBlocks(g, s.mem) - 1
  {
    hide FreeBlocks;
    EntryEffect(s.mem, n);
    WriteSane(g, s, b, Entry(n));
    SpaceConserved(g, s);
    SpaceConserved(g, Write(s, b, Entry(n)));
    LiveAfterEntry(g, s, b, n);
  }

  lemma LiveAfterEntry(g: Geometry, s: State, b: nat, n: Node)
    requires Sane(g, s) && Picks(g, s.mem, n.node, b) && !SourceOf(g, s.mem, n.node).TakenOver?
    ensures |LiveBlocks(Write(s, b, Entry(n)).mem)| == |LiveBlocks(s.mem)| + 1
  {
    hide Sane, Picks, SourceOf;
    EntryEffect(s.mem, n);
    PicksByBlocks(g, s.mem, Effect(s.mem, Entry(n)), n.node, b);
    PickedIsDead(g, s, b, Entry(n));
    OneMoreLive(s.mem, Write(s, b, Entry(n)).mem, b);
  }

  lemma OneMoreLive(m: Mem, t: Mem, b: nat)
    requires b in t.blocks && IsLive(t.blocks[b]) && t.blocks == m.blocks[b := t.blocks[b]]
    requires b in m.blocks ==> !IsLive(m.blocks[b])
    ensures |LiveBlocks(t)| == |LiveBlocks(m)| + 1
  {
    assert LiveBlocks(t) == LiveBlocks(m) + {b};
  }

  /** A new number is on no row, so its first record is taken over by nobody and takes nothing over. */
  lemma NewNumberTakesNothing(g: Geometry, s: State, node: nat)
    requires Numbered(s.mem) && node >= s.mem.nextNode
    ensures !SourceOf(g, s.mem, node).TakenOver?
  {
    forall b | b in s.mem.blocks
      ensures OpNodeFilter(NODE, node)(s.mem.blocks[b]) != 0
    {
    }
  }

  lemma NewNumberNotOnDisk(g: Geometry, s: State, n: Node)
    requires Sane(g, s) && Numbered(s.mem) && n.node >= s.mem.nextNode
    ensures !EntryOnDisk(s, n)
  {
    forall b | b in s.disk
      ensures s.disk[b].body != Entry(n)
    {
      assert RowMatches(b, s.mem.blocks[b], s.disk[b]);
    }
  }

  /** After the first record one free block less is left, and nothing else mentions the new number. */
  lemma AfterFirst(g: Geometry, s: State, n: Node, b: nat)
    requires Sane(g, s) && Numbered(s.mem) && g.first <= g.last + 1 && n.node >= s.mem.nextNode
    requires Picks(g, s.mem, n.node, b)
    ensures Sane(g, Write(s, b, Entry(n))) && FreeBlocks(g, Write(s, b, Entry(n)).mem) == FreeBlocks(g, s.mem) - 1
    ensures !EntryOnDisk(s, n)
  {
    hide FreeBlocks, Sane, Numbered, SourceOf, Picks;
    EntryEffect(s.mem, n);
    PicksByBlocks(g, s.mem, Effect(s.mem, Entry(n)), n.node, b);
    NewNumberTakesNothing(g, s, n.node);
    NewNumberNotOnDisk(g, s, n);
    WriteUsesFree(g, s, b, n);
    WriteSane(g, s, b, Entry(n));
  }

  /** The second record goes to another block exactly when a free one is left after the first. */
  lemma SecondBlock(g: Geometry, s: State, n: Node, p: Node, b: nat, c: nat)
    requires Sane(g, s) && Numbered(s.mem) && g.first <= g.last + 1
    requires n.node == p.node && n.node >= s.mem.nextNode
    requires Picks(g, s.mem, n.node, b) && Picks(g, Write(s, b, Entry(n)).mem, n.node, c)
    ensures c != b <==> FreeBlocks(g, s.mem) >= 2
  {
    hide FreeBlocks, Sane, Numbered, SourceOf, Picks;
    AfterFirst(g, s, n, b);
    FreeMeansSource(g, Write(s, b, Entry(n)), n.node);
    PickedIsSomewhere(g, Write(s, b, Entry(n)).mem, n.node, c);
    if c != b {
      OnlyOneNodeRow(g, s, b, n, c);
    } else {
      PickedSame(g, Write(s, b, Entry(n)), b, n.node);
    }
  }

  lemma PickedIsSomewhere(g: Geometry, m: Mem, node: nat, b: nat)
    requires Picks(g, m, node, b)
    ensures !SourceOf(g, m, node).NoSpace?
  {
  }

  /** So the first record survives exactly then. */
  lemma SecondSpares(g: Geometry, s: State, n: Node, p: Node, b: nat, c: nat, t: State)
    requires BothWrote(g, s, n, p, b, c, t) && n != p && !EntryOnDisk(s, n)
    ensures EntryOnDisk(t, n) <==> c != b
  {
    hide Legal, Picks, Apply;
    if c != b {
      assert t.disk[b].body == Entry(n);
    }
  }

  /** The only node row of the new number is the one just written. */
  lemma OnlyOneNodeRow(g: Geometry, s: State, b: nat, n: Node, c: nat)
    requires Sane(g, s) && Numbered(s.mem) && n.node >= s.mem.nextNode && c != b
    requires Picks(g, Write(s, b, Entry(n)).mem, n.node, c)
    ensures !SourceOf(g, Write(s, b, Entry(n)).mem, n.node).TakenOver?
  {
    EntryEffect(s.mem, n);
    var m := Write(s, b, Entry(n)).mem;
    forall d | d in m.blocks && d != b
      ensures OpNodeFilter(NODE, n.node)(m.blocks[d]) != 0
    {
      assert m.blocks[d] == s.mem.blocks[d];
    }
  }

  /** A block with a node record is only picked in a takeover. */
  lemma PickedSame(g: Geometry, s: State, b: nat, node: nat)
    requires Sane(g, s) && Picks(g, s.mem, node, b) && b in s.mem.blocks && s.mem.blocks[b].op == NODE
    ensures SourceOf(g, s.mem, node).TakenOver?
  {
  }

  lemma NewLinkBlocks(g: Geometry, s: State, n: Node, p: Node, b: nat, c: nat, t: State)
    requires Sane(g, s) && Numbered(s.mem) && g.first <= g.last + 1
    requires n.node == p.node && n != p && n.node >= s.mem.nextNode && BothWrote(g, s, n, p, b, c, t)
    ensures EntryOnDisk(t, n) <==> FreeBlocks(g, s.mem) >= 2
  {
    hide FreeBlocks, Sane, Numbered, Picks, Legal, EntryOnDisk;
    EntryEffect(s.mem, n);
    EntryEffect(Write(s, b, Entry(n)).mem, p);
    PicksByBlocks(g, s.mem, Effect(s.mem, Entry(n)), n.node, b);
    PicksByBlocks(g, Write(s, b, Entry(n)).mem, Effect(Write(s, b, Entry(n)).mem, Entry(p)), n.node, c);
    AfterFirst(g, s, n, b);
    SecondBlock(g, s, n, p, b, c);
    SecondSpares(g, s, n, p, b, c, t);
  }

  /** The entry of a new link is still on the disk afterwards if and only if two blocks were reported free before. */
  lemma LinkStaysOnDisk(g: Geometry, s: State, path: Path, to: string, time: int, now: int, r: Result<()>, t: State)
    requires Consistent(g, s) && g.first <= g.last + 1 && MakesLink(g, s, path, to, time, now, r, t) && r.Ok?
    ensures NewNode(s.mem, path, Link, time, now).Ok?
    ensures EntryOnDisk(t, NewNode(s.mem, path, Link, time, now).value) <==> FreeBlocks(g, s.mem) >= 2
  {
    hide Sane, Tree, Numbered, Reading.Fits, Links, FreeBlocks, EntryOnDisk, BothWrote, Resolve;
    var n := NewNode(s.mem, path, Link, time, now).value;
    LinkWritten(g, s, n, PayloadOf(n, to), r, t);
    var b, c :| BothWrote(g, s, n, PayloadOf(n, to), b, c, t);
    NewLinkBlocks(g, s, n, PayloadOf(n, to), b, c, t);
  }
}
