/** The filesystem object of oncefs.c: two tables, three counters and the container. */
module Volume {
  import opened Orders
  import opened Indexes
  import opened Tables
  import opened Records
  import opened Log
  import opened Lifetimes
  import opened Outcomes
  import opened Trees
  import opened Engine
  import opened FileData
  import opened Reading
  import opened FileShapes
  import opened FileSizes
  import opened Renames
  import opened Space
  import opened Operations

  method NewNodes() returns (t: Table<NodeKey, Node>)
    ensures t.Valid() && fresh(t.Repr) && t.schema == NODES && t.contents == map[]
  {
    SchemasSound();
    t := new Table(NODES);
  }

  method NewBlocks() returns (t: Table<nat, Block>)
    ensures t.Valid() && fresh(t.Repr) && t.schema == BLOCKS && t.contents == map[]
  {
    SchemasSound();
    t := new Table(BLOCKS);
  }

  class OnceFS {
    const g: Geometry
    const time: int
    const nodes: Table<NodeKey, Node>
    const blocks: Table<nat, Block>
    var nextNode: nat
    var nextBlock: nat
    var nextSeq: nat
    var disk: Disk

    ghost function Repr(): set<object>
      reads nodes, blocks
    {
      {this as object} + nodes.Repr + blocks.Repr
    }

    ghost predicate Structured()
      reads this, nodes, blocks, nodes.Repr, blocks.Repr
    {
      && nodes.Valid() && blocks.Valid() && nodes.schema == NODES && blocks.schema == BLOCKS
      && nodes.Repr !! blocks.Repr && this !in nodes.Repr && this !in blocks.Repr
    }

    ghost function Memory(): Mem
      reads this, nodes, blocks
    {
      Mem(nodes.contents, blocks.contents, nextNode, nextBlock)
    }

    ghost function Now(): State
      reads this, nodes, blocks
    {
      State(Memory(), disk, nextSeq)
    }

    ghost predicate Valid()
      reads this, nodes, blocks, nodes.Repr, blocks.Repr
    {
      Structured() && Consistent(g, Now())
    }

    /** A volume over two new tables and the container as it is. */
    constructor (g: Geometry, time: int, disk: Disk)
      ensures Structured() && fresh(Repr())
      ensures Now() == State(Empty(g.first), disk, 1) && this.g == g && this.time == time
    {
      hide Table.Valid;
      this.g, this.time := g, time;
      var nodeTable := NewNodes();
      var blockTable := NewBlocks();
      nodes, blocks := nodeTable, blockTable;
      nextNode, nextBlock, nextSeq, this.disk := 1, g.first, 1, disk;
      new;
    }

    // Table updates

    /** Insert or replace a node row. */
    method PutNode(n: Node)
      requires Structured()
      modifies Repr()
      ensures Structured() && fresh(Repr() - old(Repr()))
      ensures Now() == old(Now()).(mem := old(Memory()).(nodes := old(Memory()).nodes[KeyOf(n) := n]))
    {
      hide Table.Valid;
      var stored := nodes.Insert(n, true);
    }

    /** Insert or replace a block row. */
    method PutBlock(b: Block)
      requires Structured()
      modifies Repr()
      ensures Structured() && fresh(Repr() - old(Repr()))
      ensures Now() == old(Now()).(mem := old(Memory()).(blocks := old(Memory()).blocks[b.block := b]))
    {
      hide Table.Valid;
      var stored := blocks.Insert(b, true);
    }

    // Allocation

    /** The first block in the lookup order that the filter matches. */
    method FirstBlock(filter: Block -> int) returns (r: Option<nat>)
      requires Structured() && Monotone(BlockLookup, filter)
      ensures r.Some? <==> Has(Memory(), filter)
      ensures r.Some? ==> FirstIn(Memory(), filter, r.value)
    {
      hide Table.Valid;
      var row := blocks.QueryFirst(Lookup, filter);
      blocks.KeysMatch();
      r := if row.None? then None else Some(row.value.block);
    }

    /** Reuse a free block, else any delete block, else a node block of the same node. */
    method ReuseBlock(node: nat) returns (r: Result<nat>)
      requires Structured() && nextBlock > g.last
      ensures r.Ok? <==> !SourceOf(g, Memory(), node).NoSpace?
      ensures r.Ok? ==> Picks(g, Memory(), node, r.value)
      ensures r.Err? ==> r.errno == ENOSPC
    {
      hide FirstIn, Table.Valid, AnyMatch;
      BlockFiltersMonotone(FREE, 0, 0, 0, 0);
      var pick := FirstBlock(OpFilter(FREE));
      if pick.None? {
        BlockFiltersMonotone(DELETE, 0, 0, 0, 0);
        pick := FirstBlock(OpFilter(DELETE));
      }
      if pick.None? && node >= 1 {
        BlockFiltersMonotone(NODE, node, 0, 0, 0);
        pick := FirstBlock(OpNodeFilter(NODE, node));
      }
      r := if pick.None? then Err(ENOSPC) else Ok(pick.value);
    }

    /** The next fresh block while there is one, else a reused one. */
    method AllocateBlock(node: nat) returns (r: Result<nat>)
      requires Structured() && Bounded(Memory())
      modifies this`nextBlock
      ensures Structured()
      ensures r.Ok? <==> !SourceOf(g, old(Memory()), node).NoSpace?
      ensures r.Err? ==> r.errno == ENOSPC && Now() == old(Now())
      ensures r.Ok? ==> Picks(g, old(Memory()), node, r.value)
      ensures r.Ok? ==> Now() == old(Now()).(mem := Allocated(old(Memory()), r.value))
    {
      hide FirstIn, Table.Valid, AnyMatch;
      if nextBlock <= g.last {
        r := Ok(nextBlock);
        nextBlock := nextBlock + 1;
      } else {
        r := ReuseBlock(node);
        if r.Ok? {
          PickedBelow(g, Memory(), node, r.value);
        }
      }
    }

    /** Take a block, stamp it with the next sequence number and enter its row; no space changes nothing. */
    method CreateBlock(op: nat, node: nat, fill: nat, offset: nat) returns (r: Result<Block>)
      requires Structured() && Bounded(Memory())
      modifies Repr()
      ensures Structured() && fresh(Repr() - old(Repr()))
      ensures r.Ok? <==> !SourceOf(g, old(Memory()), node).NoSpace?
      ensures r.Err? ==> r.errno == ENOSPC && Now() == old(Now())
      ensures r.Ok? ==> r.value == Block(r.value.block, old(nextSeq), op, node, fill, offset)
      ensures r.Ok? ==> Picks(g, old(Memory()), node, r.value.block) && Now() == Entered(old(Now()), r.value)
    {
      hide Picks, SourceOf, Table.Valid;
      var id := AllocateBlock(node);
      if id.Err? {
        return Err(id.errno);
      }
      var block := Block(id.value, nextSeq, op, node, fill, offset);
      nextSeq := nextSeq + 1;
      if node >= nextNode {
        nextNode := node + 1;
      }
      PutBlock(block);
      r := Ok(block);
    }

    /** Create the block of a record whose effect is already in memory, and write it to the container. */
    method Commit(body: Body) returns (r: Result<nat>)
      requires Structured() && Bounded(Memory())
      modifies Repr()
      ensures Structured() && fresh(Repr() - old(Repr()))
      ensures r.Ok? <==> !SourceOf(g, old(Memory()), body.Node()).NoSpace?
      ensures r.Err? ==> r.errno == ENOSPC && Now() == old(Now())
      ensures r.Ok? ==> Picks(g, old(Memory()), body.Node(), r.value) && Now() == Put(old(Now()), r.value, body)
    {
      hide FirstIn, Table.Valid, AnyMatch;
      ghost var s := Now();
      var block := CreateBlock(body.Op(), body.Node(), body.Fill(), body.Offset());
      if block.Err? {
        return Err(block.errno);
      }
      EnteredIsPut(g, s, block.value, body);
      disk := disk[block.value.block := Record(block.value.seqno, body)];
      r := Ok(block.value.block);
    }

    /** Write a record whose effect is in memory since state `s`, whatever it does to the tree. */
    method Land(body: Body, ghost s: State) returns (r: Result<()>)
      requires Structured() && Sane(g, s) && Now() == Ahead(s, body)
      modifies Repr()
      ensures Structured() && fresh(Repr() - old(Repr()))
      ensures Lands(g, s, body, r, Now())
    {
      hide Sane, Picks, FirstIn, Table.Valid;
      AheadBounded(g, s, body);
      PicksByBlocks(g, Ahead(s, body).mem, Effect(s.mem, body), body.Node(), 0);
      var block := Commit(body);
      if block.Err? {
        return Err(block.errno);
      }
      PutLands(g, s, body, block.value);
      r := Ok(());
    }

    /** Write a legal record whose effect is in memory since state `s`. */
    method Finish(body: Body, ghost s: State) returns (r: Result<()>)
      requires Structured() && Consistent(g, s) && Legal(s.mem.nodes, body) && WellSized(body, g.payload)
      requires Now() == Ahead(s, body)
      modifies Repr()
      ensures Valid() && fresh(Repr() - old(Repr()))
      ensures Performs(g, s, body, r, Now())
    {
      hide Sane, Tree, Numbered, Reading.Fits, Legal, Lands, Performs, Table.Valid;
      r := Land(body, s);
      LegalLands(g, s, body, r, Now());
    }

    // Paths

    /** The node in a directory slot. */
    method FindChild(parent: nat, name: string) returns (r: Result<Node>)
      requires Structured() && Tree(Memory().nodes)
      ensures r == Child(Memory().nodes, parent, name)
    {
      hide Table.Valid, Tree;
      var key := Node(0, parent, Dir, 0, 0, 0, name);
      NodeFiltersMonotone(key, 0);
      var row := nodes.QueryFirst(Lookup, SlotFilter(key));
      SlotSearch(nodes.contents, key, row);
      r := if row.Some? then Ok(row.value) else Err(ENOENT);
    }

    /** Walk down the path one name at a time. */
    method ResolvePath(path: Path) returns (r: Result<Node>)
      requires Structured() && Tree(Memory().nodes)
      ensures r == Resolve(Memory().nodes, path, time)
    {
      hide Table.Valid, Tree;
      var at := Root(time);
      for i := 0 to |path|
        invariant Resolve(Memory().nodes, path[..i], time) == Ok(at)
      {
        assert Init(path[..i + 1]) == path[..i];
        if at.typ != Dir || |path[i]| > NAME_MAX {
          PrefixFails(Memory().nodes, path, i + 1, time);
          return Err(EINVAL);
        }
        var next := FindChild(at.node, path[i]);
        if next.Err? {
          PrefixFails(Memory().nodes, path, i + 1, time);
          return next;
        }
        at := next.value;
      }
      assert path[..|path|] == path;
      r := Ok(at);
    }

    // Creating

    /** Check that the path can be created, and number the new node. */
    method InitNode(path: Path, typ: NodeType, now: int) returns (r: Result<Node>)
      requires Structured() && Tree(Memory().nodes)
      modifies this`nextNode
      ensures Structured() && r == NewNode(old(Memory()), path, typ, time, now)
      ensures Now() == old(Now()).(mem := old(Memory()).(nextNode := old(nextNode) + if r.Ok? then 1 else 0))
    {
      hide Table.Valid, Tree;
      var existing := ResolvePath(path);
      if existing.Ok? {
        return Err(EEXIST);
      }
      if existing.errno != ENOENT {
        return existing;
      }
      var parent := ResolvePath(Init(path));
      if parent.Err? {
        return parent;
      }
      if parent.value.typ != Dir {
        return Err(EINVAL);
      }
      r := Ok(Node(nextNode, parent.value.node, typ, now, now, 0, Final(path)));
      nextNode := nextNode + 1;
    }

    /** Create a file or directory. */
    method Create(path: Path, typ: NodeType, now: int) returns (r: Result<()>)
      requires Valid() && (typ == File || typ == Dir)
      modifies Repr()
      ensures Valid() && fresh(Repr() - old(Repr()))
      ensures Creates(g, old(Now()), path, typ, time, now, r, Now())
    {
      hide Table.Valid, Tree, Sane, NewNode, Performs, Legal, Reading.Fits;
      ghost var s := Now();
      var n := InitNode(path, typ, now);
      if n.Err? {
        return Err(n.errno);
      }
      NewNodeLegal(s.mem, path, typ, time, now);
      PutNode(n.value);
      assert Now() == Ahead(s, Entry(n.value)) by {
        EntryEffect(s.mem, n.value);
      }
      r := Finish(Entry(n.value), s);
    }

    method SetFile(path: Path, now: int) returns (r: Result<()>)
      requires Valid()
      modifies Repr()
      ensures Valid() && fresh(Repr() - old(Repr()))
      ensures Creates(g, old(Now()), path, File, time, now, r, Now())
    {
      hide Table.Valid, Consistent, NewNode, Performs;
      r := Create(path, File, now);
    }

    method SetDir(path: Path, now: int) returns (r: Result<()>)
      requires Valid()
      modifies Repr()
      ensures Valid() && fresh(Repr() - old(Repr()))
      ensures Creates(g, old(Now()), path, Dir, time, now, r, Now())
    {
      hide Table.Valid, Consistent, NewNode, Performs;
      r := Create(path, Dir, now);
    }

    /** Write the two records of a link whose rows are in memory since state `s`. */
    method FinishLink(n: Node, to: string, ghost s: State) returns (r: Result<()>)
      requires Structured() && Consistent(g, s) && Legal(s.mem.nodes, Entry(n)) && n.typ == Link && n.node > 0
      requires |to| <= NAME_MAX
      requires Now() == LinkAhead(s, n, PayloadOf(n, to))
      modifies Repr()
      ensures Valid() && fresh(Repr() - old(Repr()))
      ensures Links(g, s, n, PayloadOf(n, to), r, Now())
    {
      hide Consistent, Legal, Picks, SourceOf, FirstIn, Table.Valid, Writes;
      ghost var a, p := Now(), PayloadOf(n, to);
      LinkAheadConsistent(g, s, n, to);
      ConsistentBounded(g, a);
      PicksByBlocks(g, a.mem, s.mem, n.node, 0);
      var block := Commit(Entry(n));
      if block.Err? {
        return Err(block.errno);
      }
      PutBounded(a, block.value, Entry(n));
      FinishPayload(n, to, s, block.value);
      WritesConsistent(g, s, [Entry(n), Entry(p)], Now());
      r := Ok(());
    }

    /** Write the second record of a link, which always finds a block. */
    method FinishPayload(n: Node, to: string, ghost s: State, ghost b: nat)
      requires Structured() && Bounded(Memory()) && Legal(s.mem.nodes, Entry(n)) && n.typ == Link && n.node > 0
      requires |to| <= NAME_MAX
      requires Picks(g, LinkAhead(s, n, PayloadOf(n, to)).mem, n.node, b)
      requires Now() == Put(LinkAhead(s, n, PayloadOf(n, to)), b, Entry(n))
      modifies Repr()
      ensures Structured() && fresh(Repr() - old(Repr()))
      ensures Writes(g, s, [Entry(n), Entry(PayloadOf(n, to))], Now())
    {
      hide Legal, Picks, SourceOf, FirstIn, Table.Valid, Writes;
      ghost var p := PayloadOf(n, to);
      SecondLinkBlock(g, LinkAhead(s, n, p), n, b);
      var block := Commit(Entry(PayloadOf(n, to)));
      PayloadLegal(s.mem.nodes, n, to);
      LinkCommitted(g, s, n, p, b, block.value);
    }

    /** Enter both rows of a link. */
    method PutLink(n: Node, p: Node)
      requires Structured()
      modifies Repr()
      ensures Structured() && fresh(Repr() - old(Repr()))
      ensures Now() == old(Now()).(mem := old(Memory()).(nodes := old(Memory()).nodes[KeyOf(n) := n][KeyOf(p) := p]))
    {
      hide Table.Valid;
      PutNode(n);
      PutNode(p);
    }

    /** Create a link: its entry and, under the same number, a second row that carries the target. */
    method SetLink(path: Path, to: string, now: int) returns (r: Result<()>)
      requires Valid()
      modifies Repr()
      ensures Valid() && fresh(Repr() - old(Repr()))
      ensures MakesLink(g, old(Now()), path, to, time, now, r, Now())
    {
      hide Table.Valid, Tree, Sane, NewNode, Links, Legal, Reading.Fits;
      if |to| > NAME_MAX {
        return Err(EINVAL);
      }
      ghost var s := Now();
      var n := InitNode(path, Link, now);
      if n.Err? {
        return Err(n.errno);
      }
      NewNodeLegal(s.mem, path, Link, time, now);
      PutLink(n.value, PayloadOf(n.value, to));
      r := FinishLink(n.value, to, s);
    }

    /**
     * Set both times; an unchanged modification time is not worth a block. The root has no row, and what is entered for
     * it takes its parent and name from memory that was never set: `unset`.
     */
    method SetTime(path: Path, access: int, modification: int, unset: Node) returns (r: Result<()>)
      requires Valid()
      modifies Repr()
      ensures Structured() && fresh(Repr() - old(Repr()))
      ensures path != [] || modification == time ==>
        Valid() && Touches(g, old(Now()), path, access, modification, time, r, Now())
      ensures path == [] && modification != time ==>
        var row := Node(0, unset.parent, Dir, access, modification, 0, unset.name);
        Based(g, Now()) && Lands(g, old(Now()), Entry(row), r, Now())
    {
      hide Table.Valid, Tree, Sane, Resolve, Performs, Legal, Reading.Fits, Numbered, Lands;
      ghost var s := Now();
      RootResolves(s.mem.nodes, time);
      var found := ResolvePath(path);
      if found.Err? {
        return Err(found.errno);
      }
      if found.value.modification == modification {
        return Ok(());
      }
      var n := found.value.(access := access, modification := modification);
      if path == [] {
        n := Node(0, unset.parent, Dir, access, modification, 0, unset.name);
      } else {
        TouchLegal(s.mem, path, time, access, modification);
      }
      PutNode(n);
      EntryAhead(s, n);
      r := Land(Entry(n), s);
      if path == [] {
        LandsBased(g, s, Entry(n), r, Now());
      } else {
        LegalLands(g, s, Entry(n), r, Now());
      }
    }

    // Data

    /** Write one chunk, or find no space and change nothing. */
    method SetChunk(body: Body) returns (r: Result<()>)
      requires Valid() && body.Data? && WellSized(body, g.payload)
      modifies Repr()
      ensures Valid() && fresh(Repr() - old(Repr()))
      ensures r.Ok? ==> exists b :: Wrote(g, old(Now()), body, b, Now())
      ensures r.Err? ==> r.errno == ENOSPC && Now() == old(Now()) && SourceOf(g, Memory(), body.Node()).NoSpace?
    {
      hide Consistent, Picks, FirstIn, SourceOf, Table.Valid;
      ghost var s := Now();
      ConsistentBounded(g, s);
      DataEffect(s.mem, body);
      var block := Commit(body);
      if block.Err? {
        return Err(block.errno);
      }
      assert Wrote(g, s, body, block.value, Now());
      WroteConsistent(g, s, body, block.value, Now());
      r := Ok(());
    }

    /** Write data in chunks of at most one payload; without space the chunks so far stay written. */
    method SetData(node: nat, data: seq<byte>, offset: nat) returns (r: Result<()>)
      requires Valid() && g.payload > 0
      modifies Repr()
      ensures Valid() && fresh(Repr() - old(Repr()))
      ensures Stores(g, old(Now()), node, data, offset, r, Now())
    {
      hide Sane, Tree, Numbered, Reading.Fits, SourceOf, Table.Valid, IsChunks, Writes, Wrote;
      ghost var s := Now();
      ghost var all := ChunksExist(node, offset, data, g.payload);
      ghost var k: nat := 0;
      assert all[..0] == [] && all[0..] == all && data[0..] == data;
      WritesNothing(g, s);
      var written := 0;
      while written < |data|
        invariant Valid() && fresh(Repr() - old(Repr()))
        invariant written <= |data| && k <= |all|
        invariant IsChunks(all[k..], node, offset + written, data[written..], g.payload)
        invariant Writes(g, s, all[..k], Now())
      {
        var amount := Min(|data| - written, g.payload);
        var body := Data(node, offset + written, data[written..written + amount]);
        NextChunk(all, k, node, offset + written, data, written, g.payload);
        ghost var u := Now();
        r := SetChunk(body);
        if r.Err? {
          return;
        }
        WritesOneMore(g, s, all, k, u, Now());
        written := written + amount;
        k := k + 1;
      }
      AllChunks(all, k, node, offset + written, data[written..], g.payload);
      r := Ok(());
    }

    // Truncating

    /** Trim or free the data rows that could reach past the new size, and free the truncate rows of the node. */
    method DelDataRows(node: nat, size: nat)
      requires Structured() && Reading.Fits(Memory(), g.payload)
      modifies Repr()
      ensures Structured() && fresh(Repr() - old(Repr()))
      ensures Now() == old(Now()).(mem := Effect(old(Memory()), Truncate(node, size)))
    {
      hide Table.Valid, Mutated, Reading.Fits, Effect, TailFilter, OpNodeFilter;
      ghost var m := Memory();
      BlockFiltersMonotone(TRUNCATE, node, size, 0, g.payload);
      blocks.Update(Lookup, TailFilter(node, size, g.payload), TrimTo(size));
      blocks.Update(Lookup, OpNodeFilter(TRUNCATE, node), Freed);
      PruningMissesNothing(m, node, size, g.payload);
    }

    /** Cut a file off at a new size. */
    method DelData(node: nat, size: nat) returns (r: Result<()>)
      requires Valid()
      modifies Repr()
      ensures Valid() && fresh(Repr() - old(Repr()))
      ensures Cuts(g, old(Now()), node, size, r, Now())
    {
      hide Table.Valid, Sane, Tree, Reading.Fits, Performs, Effect;
      ghost var s := Now();
      var found := FindNode(node, File);
      if found.None? {
        return Err(ENOENT);
      }
      DelDataRows(node, size);
      TruncateAhead(s, node, size);
      r := Finish(Truncate(node, size), s);
    }

    /** The node row with the given primary key. */
    method FindNode(node: nat, typ: NodeType) returns (r: Option<Node>)
      requires Structured()
      ensures r == Get(Memory().nodes, NodeKey(node, typ))
    {
      hide Table.Valid;
      var key := Node(node, 0, typ, 0, 0, 0, "");
      NodeFiltersMonotone(key, node);
      r := nodes.QueryFirst(Primary, NodeKeyFilter(key));
      nodes.KeysMatch();
      KeySearch(nodes.contents, key, r);
    }

    // Deleting

    /** Take every row of the node out of the nodes table and free its blocks, one operation after the other. */
    method DelNodeRows(n: Node)
      requires Structured()
      modifies Repr()
      ensures Structured() && fresh(Repr() - old(Repr()))
      ensures Now() == old(Now()).(mem := Effect(old(Memory()), Delete(n)))
    {
      hide Table.Valid, Mutated, OpNodeFilter, Without, FreedBelow, Effect, NodesEffect, AnyMatch;
      ghost var s := Now();
      nodes.KeysMatch();
      NodeFiltersMonotone(n, n.node);
      var found := nodes.Delete(Primary, NodeFilter(n.node));
      NothingFreed(s.mem.blocks, n.node);
      for op := 1 to LAST
        invariant Structured() && fresh(Repr() - old(Repr()))
        invariant blocks.contents == FreedBelow(s.mem.blocks, n.node, op)
        invariant Now() ==
          s.(mem := s.mem.(nodes := Without(s.mem.nodes, NodeFilter(n.node)), blocks := blocks.contents))
      {
        BlockFiltersMonotone(op, n.node, 0, 0, 0);
        blocks.Update(Lookup, OpNodeFilter(op, n.node), Freed);
        FreeOneMore(s.mem.blocks, n.node, op);
      }
      DeletedIsEffect(s.mem, n);
    }

    method HasChildren(node: nat) returns (r: bool)
      requires Structured()
      ensures r <==> Parental(Memory().nodes, node)
    {
      hide Table.Valid, FirstMatch, Monotone, Parental;
      NodeFiltersMonotone(Root(time), node);
      var child := nodes.QueryFirst(Lookup, ChildFilter(node));
      ChildSearch(nodes.contents, node, child);
      r := child.Some?;
    }

    /** Delete the node's rows; with the check on, a directory with children is refused. */
    method RemoveNode(n: Node, check: bool) returns (r: Result<()>)
      requires Structured()
      modifies Repr()
      ensures Structured() && fresh(Repr() - old(Repr()))
      ensures r == if check && n.typ == Dir && Parental(old(Memory()).nodes, n.node) then Err(EINVAL) else Ok(())
      ensures Now() == if r.Ok? then old(Now()).(mem := Effect(old(Memory()), Delete(n))) else old(Now())
    {
      hide Table.Valid, Effect;
      if check && n.typ == Dir {
        var parental := HasChildren(n.node);
        if parental {
          return Err(EINVAL);
        }
      }
      DelNodeRows(n);
      r := Ok(());
    }

    /** Delete a file, a link or an empty directory. */
    method DelNode(path: Path) returns (r: Result<()>)
      requires Valid()
      modifies Repr()
      ensures Valid() && fresh(Repr() - old(Repr()))
      ensures Removes(g, old(Now()), path, time, r, Now())
    {
      hide Table.Valid, Tree, Sane, Resolve, Performs, Legal, Reading.Fits, Effect, Parental, Numbered;
      ghost var s := Now();
      RootResolves(s.mem.nodes, time);
      var found := ResolvePath(path);
      if found.Err? {
        return Err(found.errno);
      }
      r := RemoveNode(found.value, true);
      if r.Err? {
        return;
      }
      DeleteLegal(s, path, time);
      r := Finish(Delete(found.value), s);
    }

    // Renaming

    /** The row in the same slot, if there is one. */
    method FindSlot(n: Node) returns (r: Option<Node>)
      requires Structured()
      ensures r.None? <==> SlotFree(Memory().nodes, n)
      ensures r.Some? ==> r.value in Memory().nodes.Values && SameSlot(r.value, n)
    {
      hide Table.Valid;
      NodeFiltersMonotone(n, 0);
      r := nodes.QueryFirst(Lookup, SlotFilter(n));
      SlotTaken(nodes.contents, n, r);
    }

    /** Move a row to another slot unless it is taken, by a file or by something else. */
    method MoveRow(n: Node) returns (r: Result<()>)
      requires Structured()
      modifies Repr()
      ensures Structured() && fresh(Repr() - old(Repr()))
      ensures r.Ok? <==> SlotFree(old(Memory()).nodes, n)
      ensures r.Err? ==> SlotError(old(Memory()).nodes, n, r.errno)
      ensures Now() == if r.Ok? then old(Now()).(mem := Effect(old(Memory()), Move(n))) else old(Now())
    {
      hide Table.Valid, SlotFree;
      ghost var s := Now();
      var existing := FindSlot(n);
      if existing.Some? {
        return Err(if existing.value.typ == File then EEXIST else EINVAL);
      }
      PutNode(n);
      MoveEffect(s.mem, n);
      r := Ok(());
    }

    /** Enter a row in a slot that has been checked, and write the record of the move. */
    method FinishMove(n: Node) returns (r: Result<()>)
      requires Valid() && SlotFree(Memory().nodes, n) && n.node < nextNode
      modifies Repr()
      ensures Structured() && fresh(Repr() - old(Repr()))
      ensures Based(g, Now()) && Lands(g, old(Now()), Move(n), r, Now())
      ensures Legal(old(Memory()).nodes, Move(n)) ==> Valid() && Performs(g, old(Now()), Move(n), r, Now())
    {
      hide Table.Valid, Tree, Sane, Performs, Lands, Reading.Fits, Effect, Numbered, SlotFree, Legal;
      ghost var s := Now();
      r := MoveRow(n);
      AheadOfKnown(s, Move(n));
      r := Land(Move(n), s);
      LandsBased(g, s, Move(n), r, Now());
      if Legal(s.mem.nodes, Move(n)) {
        LegalLands(g, s, Move(n), r, Now());
      }
    }

    /** Delete the file in the way, and if that worked, move. */
    method MoveOver(ghost from: Path, to: Path, old_: Node, moved: Node) returns (r: Result<()>)
      requires Valid() && Targets(Memory().nodes, from, to, time, moved)
      requires Child(Memory().nodes, moved.parent, moved.name) == Ok(old_) && old_.typ == File
      modifies Repr()
      ensures Structured() && fresh(Repr() - old(Repr()))
      ensures Based(g, Now()) && (from != [] ==> Valid())
      ensures if |Basename(to)| > NAME_MAX || to == [] then r == Err(EINVAL) && Now() == old(Now())
              else if from == [] then ReplacesByRoot(g, old(Now()), old_, moved, r, Now())
              else Replaces(g, old(Now()), old_, moved, r, Now())
    {
      hide Table.Valid, Tree, Sane, Numbered, Reading.Fits, Resolve, Performs, Legal, Child, Parental, Replaces;
      hide Cleared;
      hide Lands, ReplacesByRoot, SlotFree;
      ghost var s := Now();
      if to == [] {
        RootResolves(s.mem.nodes, time);
        SlotMakesParental(s.mem.nodes, 0, moved.name);
      } else {
        TargetResolves(s.mem.nodes, to, time);
      }
      r := DelNode(to);
      ghost var u := Now();
      if to != [] && |Final(to)| <= NAME_MAX {
        PerformsOutcome(g, s, Delete(old_), r, u);
        ReplaceFails(g, s, old_, moved, r, u);
      }
      if r.Err? {
        return;
      }
      ClearedByDelete(g, s, moved.parent, moved.name, r, u);
      MoveFits(g, s, from, to, time, moved, u);
      r := FinishMove(moved);
      ReplaceDone(g, s, old_, moved, u, r, Now());
    }

    /** Rename: the target must be free or a file, and its parent a directory. */
    method MoveNode(from: Path, to: Path) returns (r: Result<()>)
      requires Valid()
      modifies Repr()
      ensures Structured() && fresh(Repr() - old(Repr()))
      ensures from != [] ==> Valid() && Moves(g, old(Now()), from, to, time, r, Now())
      ensures from == [] ==> Based(g, Now()) && MovesRoot(g, old(Now()), to, time, r, Now())
    {
      hide Table.Valid, Tree, Sane, Resolve, Performs, Legal, Reading.Fits, Numbered, Child, Replaces, Lands;
      hide ReplacesByRoot;
      hide SlotFree;
      ghost var s := Now();
      RootResolves(s.mem.nodes, time);
      var source := ResolvePath(from);
      if source.Err? {
        return Err(source.errno);
      }
      var parent := ResolvePath(Dirname(to));
      if parent.Err? {
        return Err(parent.errno);
      }
      if parent.value.typ != Dir {
        return Err(EINVAL);
      }
      var moved := Moved(source.value, parent.value.node, Clip(Basename(to)));
      var taken := FindChild(moved.parent, moved.name);
      if taken.Err? {
        MoveFits(g, s, from, to, time, moved, s);
        r := FinishMove(moved);
      } else if taken.value.typ == File {
        r := MoveOver(from, to, taken.value, moved);
      } else {
        r := Err(EINVAL);
      }
    }

    // Queries

    /** All blocks, and those never used, free or holding a mere delete record. */
    method GetStatus() returns (total: int, free: int)
      requires Valid()
      ensures total == TotalBlocks(g) && free == FreeBlocks(g, Memory())
    {
      hide Table.Valid, Consistent;
      BlockFiltersMonotone(FREE, 0, 0, 0, 0);
      var freed := blocks.QueryCount(Lookup, OpFilter(FREE));
      BlockFiltersMonotone(DELETE, 0, 0, 0, 0);
      var deleted := blocks.QueryCount(Lookup, OpFilter(DELETE));
      total := g.last - g.first + 1;
      free := g.last - nextBlock + 1 + freed + deleted;
      MatchingIsWithOp(Memory(), FREE);
      MatchingIsWithOp(Memory(), DELETE);
    }

    /** The node at a path, and for a file the end of its last block in the lookup order. */
    method GetNode(path: Path) returns (r: Result<(Node, nat)>)
      requires Valid()
      ensures match Resolve(Memory().nodes, path, time)
        case Err(e) => r == Err(e)
        case Ok(n) =>
          && r.Ok? && r.value.0 == n
          && if n.typ == File then Sized(Memory(), n.node, r.value.1) else r.value.1 == 0
    {
      hide Table.Valid, Tree, Sane, Reading.Fits, Numbered, LastMatch, Resolve;
      var found := ResolvePath(path);
      if found.Err? {
        return Err(found.errno);
      }
      var size := 0;
      if found.value.typ == File {
        BlockFiltersMonotone(DATA, found.value.node, 0, 0, 0);
        var last := blocks.QueryLast(Lookup, OpNodeFilter(DATA, found.value.node));
        size := SizeFrom(last);
        assert LastMatch(Memory().blocks, BlockLookup, OpNodeFilter(DATA, found.value.node), last);
      }
      r := Ok((found.value, size));
    }

    /** The rows whose parent is the node at a path, in the order of their names. */
    method GetDir(path: Path) returns (r: Result<seq<Node>>)
      requires Valid()
      ensures match Resolve(Memory().nodes, path, time)
        case Err(e) => r == Err(e)
        case Ok(n) => r.Ok? && ListsChildren(Memory().nodes, n.node, r.value)
    {
      hide Table.Valid, Tree, Sane, Reading.Fits, Numbered, Lists, Sorted, Resolve, ListsChildren;
      var found := ResolvePath(path);
      if found.Err? {
        return Err(found.errno);
      }
      NodeFiltersMonotone(found.value, found.value.node);
      var entries := nodes.QueryAll(Lookup, ChildFilter(found.value.node));
      ChildrenListed(nodes.contents, found.value.node, entries);
      r := Ok(entries);
    }

    /** Where a link points. */
    method GetLink(path: Path) returns (r: Result<string>)
      requires Valid()
      ensures match Resolve(Memory().nodes, path, time)
        case Err(e) => r == Err(e)
        case Ok(n) =>
          if n.typ != Link then r == Err(EINVAL)
          else match Get(Memory().nodes, NodeKey(n.node, LinkPayload))
            case None => r == Err(ENOENT)
            case Some(p) => r == Ok(p.name)
    {
      hide Table.Valid, Tree, Sane, Reading.Fits, Numbered, Resolve;
      var found := ResolvePath(path);
      if found.Err? {
        return Err(found.errno);
      }
      if found.value.typ != Link {
        return Err(EINVAL);
      }
      var payload := FindNode(found.value.node, LinkPayload);
      r := if payload.None? then Err(ENOENT) else Ok(payload.value.name);
    }

    // Reading

    /** Copy what one block has for the range `[offset, offset + size)` of its file into the buffer at `at`. */
    method Paint(row: Block, buffer: array<byte>, at: nat, size: nat, offset: nat) returns (fill: nat)
      requires Backed(disk, row) && at + size <= buffer.Length
      modifies buffer
      ensures fill == Reach(row, row.node, size, offset)
      ensures Painted(old(buffer[..]), buffer[..], at, size, offset, CoveredBy(disk, row))
    {
      hide Painted, Spliced, Covers, Stored;
      ghost var before := buffer[..];
      var start, end := row.offset, row.offset + row.fill;
      var skip, seek := 0, 0;
      if start < offset {
        skip := offset - start;
        start := offset;
      } else if start > offset {
        seek := start - offset;
      }
      if end > offset + size {
        end := offset + size;
      }
      if end <= start {
        NothingShared(disk, row, before, at, size, offset);
        return 0;
      }
      var amount := end - start;
      var bytes := disk[row.block].body.bytes[skip..skip + amount];
      assert bytes == Shared(disk, row, size, offset);
      SharedIsPainted(disk, row, before, at, size, offset, at + seek);
      Copy(buffer, at + seek, bytes);
      fill := skip + amount;
    }

    /** Paint the rows in order, and keep the greatest reach. */
    method PaintAll(node: nat, rows: seq<Block>, buffer: array<byte>, at: nat, size: nat, offset: nat)
      returns (fill: nat)
      requires AllBacked(disk, node, rows) && at + size <= buffer.Length
      modifies buffer
      ensures fill == GreatestReach(node, rows, size, offset)
      ensures Painted(old(buffer[..]), buffer[..], at, size, offset, OverlayOf(disk, node, rows))
    {
      hide Painted, Backed, Reach;
      ghost var before := buffer[..];
      PaintedNothing(disk, node, before, at, size, offset);
      fill := 0;
      for i := 0 to |rows|
        invariant fill == GreatestReach(node, rows[..i], size, offset)
        invariant Painted(before, buffer[..], at, size, offset, OverlayOf(disk, node, rows[..i]))
      {
        ghost var mid := buffer[..];
        var reach := Paint(rows[i], buffer, at, size, offset);
        PaintOneMore(disk, node, rows[..i], rows[i], before, mid, buffer[..], at, size, offset);
        assert rows[..i + 1] == rows[..i] + [rows[i]];
        if reach > fill {
          fill := reach;
        }
      }
      assert rows[..|rows|] == rows;
    }

    /** Read at most one payload: look up the blocks around the range, oldest first, and paint them over each other. */
    method GetChunk(node: nat, buffer: array<byte>, at: nat, size: nat, offset: nat) returns (r: Result<nat>)
      requires Valid() && at + size <= buffer.Length && (buffer as object) !in Repr()
      modifies buffer
      ensures Painted(old(buffer[..]), buffer[..], at, size, offset, FileBytes(Now(), node))
      ensures ReachBound(Memory(), node, size, offset, if r.Ok? then r.value else 0)
      ensures r.Err? ==> r.errno == ENOENT
    {
      hide Table.Valid, Painted, AllBacked, Lists, ReachBound, Sane, Tree, Numbered, Reading.Fits;
      ghost var before := buffer[..];
      BlockFiltersMonotone(DATA, node, size, offset, g.payload);
      BySeqnoSound();
      var rows := blocks.QueryOrderBy(Lookup, WindowFilter(node, size, offset, g.payload), BySeqno);
      WindowIsBacked(g, Now(), node, size, offset, rows);
      WindowReach(Memory(), node, size, offset, g.payload, rows);
      PaintedNothing(disk, node, before, at, size, offset);
      if rows == [] {
        PaintedIsFile(g, Now(), node, size, offset, rows, before, buffer[..], at);
        return Err(ENOENT);
      }
      var fill := PaintAll(node, rows, buffer, at, size, offset);
      PaintedIsFile(g, Now(), node, size, offset, rows, before, buffer[..], at);
      r := Ok(fill);
    }

    /** Fill the buffer from `offset` on, chunk by chunk, until a chunk reports nothing. */
    method GetData(node: nat, buffer: array<byte>, offset: nat) returns (total: nat)
      requires Valid() && (buffer as object) !in Repr()
      modifies buffer
      ensures ReadUpTo(old(buffer[..]), buffer[..], offset, total, FileBytes(Now(), node))
      ensures total == ReadTotal(g, Memory(), node, buffer.Length, offset, 0)
    {
      hide Table.Valid, Painted, ReachBound, Sane, Tree, Numbered, Reading.Fits, ReadTotal, ReadUpTo, FileBytes;
      ghost var before, s := buffer[..], Now();
      ReadNothing(before, offset, FileBytes(s, node));
      total := 0;
      while total < buffer.Length
        invariant Valid() && Now() == s
        invariant ReadUpTo(before, buffer[..], offset, total, FileBytes(s, node))
        invariant ReadTotal(g, s.mem, node, buffer.Length, offset, 0) ==
          ReadTotal(g, s.mem, node, buffer.Length, offset, total)
        decreases buffer.Length - total
      {
        var limit := if buffer.Length - total > g.payload then g.payload else buffer.Length - total;
        ghost var mid := buffer[..];
        var read := GetChunk(node, buffer, total, limit, offset + total);
        var len := if read.Ok? then read.value else 0;
        ChunkAtMost(s.mem, node, limit, offset + total, g.payload, len);
        ReadOneMore(before, mid, buffer[..], offset, total, limit, len, FileBytes(s, node));
        ReadTotalStep(g, s.mem, node, buffer.Length, offset, total, len);
        if len == 0 {
          return;
        }
        total := total + len;
      }
      ReadOver(g, s.mem, node, buffer.Length, offset, total);
    }

    // Loading

    /** Enter the row of a record as loaded, and move the counters past it. */
    method EnterRow(b: nat, rec: Record)
      requires Structured()
      modifies Repr()
      ensures Structured() && fresh(Repr() - old(Repr()))
      ensures Now() == old(Now()).(mem := AddRow(old(Memory()), b, rec))
    {
      hide Table.Valid;
      if rec.body.Node() >= nextNode {
        nextNode := rec.body.Node() + 1;
      }
      PutBlock(RowOf(b, rec));
      if b >= nextBlock {
        nextBlock := b + 1;
      }
    }

    /** What the record does to the tables, apart from its own row; only a move can fail. */
    method LoadEffect(body: Body) returns (r: Result<()>)
      requires Structured() && Reading.Fits(Memory(), g.payload)
      modifies Repr()
      ensures Structured() && fresh(Repr() - old(Repr()))
      ensures r.Ok? <==> !Conflict(old(Memory()).nodes, body)
      ensures r.Err? ==> body.Move? && SlotError(old(Memory()).nodes, body.entry, r.errno)
      ensures Now() == if r.Ok? then old(Now()).(mem := Effect(old(Memory()), body)) else old(Now())
    {
      hide Table.Valid, Effect, Reading.Fits;
      ghost var m := Memory();
      r := Ok(());
      match body {
        case Data(_, _, _) =>
          DataEffect(m, body);
        case Entry(n) =>
          PutNode(n);
          EntryEffect(m, n);
        case Move(n) =>
          r := MoveRow(n);
        case Delete(n) =>
          r := RemoveNode(n, false);
        case Truncate(id, size) =>
          DelDataRows(id, size);
      }
    }

    /** Read the tags from the first block on, up to the first invalid one. */
    method ReadTags() returns (tags: seq<Logged>, ghost end: nat)
      requires Structured()
      ensures AllTags(g, disk, end, tags)
    {
      hide Table.Valid, TagsUpTo;
      var i := g.first;
      tags := [];
      assert TagsUpTo(disk, g.first, i, tags) by {
        NoTags(disk, g.first);
      }
      while i <= g.last && i in disk
        invariant TagsUpTo(disk, g.first, i, tags) && (i > g.first ==> i <= g.last + 1)
        decreases g.last + 1 - i
      {
        TagsSnoc(disk, g.first, i, tags);
        tags := tags + [Logged(i, disk[i])];
        i := i + 1;
      }
      end := i;
    }

    /** Replay the records in order. */
    method ReplayTags(log: seq<Logged>) returns (r: Result<()>)
      requires Structured() && Memory() == Empty(g.first)
      requires forall i :: 0 <= i < |log| ==> log[i].rec.body.Fill() <= g.payload
      modifies Repr()
      ensures Structured() && fresh(Repr() - old(Repr())) && disk == old(disk) && nextSeq == old(nextSeq)
      ensures r.Ok? ==> Loaded(g.first, log, Memory())
      ensures r.Err? ==> Replay(g.first, log).None? && LoadError(g.first, log, r.errno)
    {
      hide Table.Valid, Reading.Fits, Effect, Conflict, Loaded, SlotError, LoadError;
      NothingLoaded(g.first, log);
      assert Reading.Fits(Memory(), g.payload) by {
        EmptyFits(g);
      }
      for i := 0 to |log|
        invariant Structured() && fresh(Repr() - old(Repr())) && disk == old(disk) && nextSeq == old(nextSeq)
        invariant Loaded(g.first, log[..i], Memory()) && Reading.Fits(Memory(), g.payload)
      {
        ghost var m := Memory();
        ReplayStep(g.first, log, i, m);
        ApplyFits(m, log[i], g.payload);
        r := LoadEffect(log[i].rec.body);
        if r.Err? {
          ReplayFails(g.first, log, i + 1);
          StopsHere(g.first, log, i, m, r.errno);
          return;
        }
        EnterRow(log[i].block, log[i].rec);
      }
      assert log[..|log|] == log;
      r := Ok(());
    }

    /** The readable records, sorted by sequence number. */
    method SortedTags() returns (log: seq<Logged>)
      requires Structured() && forall b :: b in disk ==> disk[b].body.Fill() <= g.payload
      ensures SortsTags(g, disk, log)
      ensures forall i :: 0 <= i < |log| ==> log[i].rec.body.Fill() <= g.payload
    {
      hide Table.Valid, AllTags;
      var tags;
      ghost var end;
      tags, end := ReadTags();
      log := SortSeq(ByTag, tags);
      ByTagSound();
      SortSeqSorts(ByTag, tags);
      LogFits(g, disk, end, tags, log);
    }

    /** Rebuild both tables and the counters from the container. */
    method Load() returns (r: Result<()>)
      requires Structured() && Now() == State(Empty(g.first), disk, 1)
      requires forall b :: b in disk ==> disk[b].body.Fill() <= g.payload
      modifies Repr()
      ensures Structured() && fresh(Repr() - old(Repr())) && disk == old(disk)
      ensures Loads(g, disk, r, Now())
    {
      hide Table.Valid, Loaded, SortsTags, Replay, LoadError;
      var log := SortedTags();
      r := ReplayTags(log);
      if r.Ok? && log != [] {
        nextSeq := log[|log| - 1].rec.seqno + 1;
      }
      LoadsBy(g, disk, log, r, Now());
    }
  }

  /** Overwrite part of a buffer. */
  method Copy(buffer: array<byte>, to: nat, bytes: seq<byte>)
    requires to + |bytes| <= buffer.Length
    modifies buffer
    ensures buffer[..] == Spliced(old(buffer[..]), to, bytes)
  {
    forall j | 0 <= j < |bytes| {
      buffer[to + j] := bytes[j];
    }
  }

  /** Mark every block of the container invalid. */
  method Format(g: Geometry, time: int, disk: Disk) returns (fs: OnceFS)
    requires forall b :: b in disk ==> g.first <= b <= g.last
    ensures fs.Structured() && fresh(fs.Repr()) && fs.g == g && fs.time == time
    ensures fs.Now() == Formatted(g) && (g.payload <= 65535 ==> fs.Valid())
  {
    hide Table.Valid;
    var blank := disk;
    var i := g.first;
    while i <= g.last
      invariant forall b :: b in blank ==> i <= b <= g.last
      decreases g.last + 1 - i
    {
      blank := blank - {i};
      i := i + 1;
    }
    assert blank == map[];
    if g.payload <= 65535 {
      FormattedConsistent(g);
    }
    fs := new OnceFS(g, time, blank);
  }

  /** Mount a container: replay its readable records in the order of their sequence numbers. */
  method Open(g: Geometry, time: int, disk: Disk) returns (fs: OnceFS, r: Result<()>)
    requires forall b :: b in disk ==> disk[b].body.Fill() <= g.payload
    ensures fs.Structured() && fresh(fs.Repr()) && fs.g == g && fs.time == time && fs.disk == disk
    ensures Loads(g, disk, r, fs.Now())
  {
    hide Table.Valid, Loads;
    fs := new OnceFS(g, time, disk);
    r := fs.Load();
  }
}
