/** What each call answers and leaves behind, told by paths, rows and the free blocks alone. */
module Replies {
  import opened Indexes
  import opened Records
  import opened Log
  import opened Lifetimes
  import opened Outcomes
  import opened Trees
  import opened Renames
  import opened Entries
  import opened Engine
  import opened Space
  import opened FileData
  import opened FileShapes
  import opened FileSizes
  import opened Operations
  import opened Guarantees
  import opened LinkGuarantees
  import opened Calls
  import opened Resolution

  // Space

  /** The blocks with a node record of the node, which any record of the same node may take over. */
  function Takeable(m: Mem, node: nat): set<nat> {
    set b | b in m.blocks && node >= 1 && m.blocks[b].op == NODE && m.blocks[b].node == node
  }

  /** The allocator has nothing to hand out if and only if nothing is reported free and nothing can be taken over. */
  lemma NoSpaceExact(g: Geometry, s: State, node: nat)
    requires Sane(g, s) && g.first <= g.last + 1
    ensures SourceOf(g, s.mem, node).NoSpace? <==> FreeBlocks(g, s.mem) == 0 && Takeable(s.mem, node) == {}
  {
    hide Sane, FreeBlocks;
    FreeMeansSource(g, s, node);
    FreeIsCounted(g, s);
    if node >= 1 && Has(s.mem, OpNodeFilter(NODE, node)) {
      var b :| b in s.mem.blocks && OpNodeFilter(NODE, node)(s.mem.blocks[b]) == 0;
      assert b in Takeable(s.mem, node);
    } else if b :| b in Takeable(s.mem, node) {
      assert OpNodeFilter(NODE, node)(s.mem.blocks[b]) == 0;
    }
  }

  /** The one thing that has changed on the disk: this record, with the next sequence number. */
  ghost predicate OneRecord(s: State, body: Body, t: State) {
    t.nextSeq == s.nextSeq + 1 && exists b :: b in t.disk && t.disk == s.disk[b := Record(s.nextSeq, body)]
  }

  /** Or these two, one after the other. */
  ghost predicate TwoRecords(s: State, first: Body, second: Body, t: State) {
    && t.nextSeq == s.nextSeq + 2
    && exists b, c ::
         && b in t.disk && c in t.disk
         && t.disk == s.disk[b := Record(s.nextSeq, first)][c := Record(s.nextSeq + 1, second)]
  }

  lemma OneAfterOne(s: State, first: Body, u: State, second: Body, t: State)
    requires OneRecord(s, first, u) && OneRecord(u, second, t)
    ensures TwoRecords(s, first, second, t)
  {
    var b :| b in u.disk && u.disk == s.disk[b := Record(s.nextSeq, first)];
    var c :| c in t.disk && t.disk == u.disk[c := Record(u.nextSeq, second)];
    assert b in t.disk;
  }

  predicate Untouched(s: State, t: State) {
    t.disk == s.disk && t.nextSeq == s.nextSeq
  }

  ghost predicate OnDisk(s: State, body: Body, r: Result<()>, t: State) {
    if r.Ok? then OneRecord(s, body, t) else Untouched(s, t)
  }

  lemma RecordsOne(g: Geometry, s: State, body: Body, r: Result<()>, t: State)
    requires Lands(g, s, body, r, t) || Performs(g, s, body, r, t)
    ensures OnDisk(s, body, r, t)
    ensures t.mem.nextNode == Max(s.mem.nextNode, body.Node() + 1)
  {
    hide SourceOf, Legal, RowOf;
    if b :| Picks(g, Effect(s.mem, body), body.Node(), b) && t == Write(s, b, body) {
      assert b in t.disk && t.disk == s.disk[b := Record(s.nextSeq, body)];
    }
  }

  /** A record that frees nothing. */
  predicate FreesNothing(body: Body) {
    body.Entry? || body.Move? || body.Data?
  }

  lemma SameBlocks(m: Mem, body: Body)
    requires FreesNothing(body)
    ensures Effect(m, body).blocks == m.blocks && Effect(m, body).nextBlock == m.nextBlock
  {
  }

  /** Such a record is written unless nothing is free and its node has no node record to give up. */
  lemma LandAnswer(g: Geometry, s: State, body: Body, r: Result<()>, t: State)
    requires Sane(g, s) && g.first <= g.last + 1 && FreesNothing(body)
    requires Lands(g, s, body, r, t) || Performs(g, s, body, r, t)
    ensures r == if FreeBlocks(g, s.mem) == 0 && Takeable(s.mem, body.Node()) == {} then Err(ENOSPC) else Ok(())
    ensures OnDisk(s, body, r, t) && t.mem.nextNode == Max(s.mem.nextNode, body.Node() + 1)
  {
    hide Sane, FreeBlocks, SourceOf, Picks, Legal, OnDisk;
    RecordsOne(g, s, body, r, t);
    SameBlocks(s.mem, body);
    PicksByBlocks(g, s.mem, Effect(s.mem, body), body.Node(), 0);
    NoSpaceExact(g, s, body.Node());
  }

  // Creating

  /** Where a create is refused, told by the rows, and the node it makes otherwise. */
  lemma NewNodeExact(m: Mem, path: Path, typ: NodeType, time: int, now: int)
    requires Tree(m.nodes)
    ensures path == [] ==> NewNode(m, path, typ, time, now) == Err(EEXIST)
    ensures var made := NewNode(m, path, typ, time, now);
      path != [] ==>
        match Resolve(m.nodes, Init(path), time)
        case Err(e) => made == Err(e)
        case Ok(parent) =>
          if parent.typ != Dir || |Final(path)| > NAME_MAX then made == Err(EINVAL)
          else if exists k :: InSlot(m.nodes, k, parent.node, Final(path)) then made == Err(EEXIST)
          else made == Ok(Node(m.nextNode, parent.node, typ, now, now, 0, Final(path)))
  {
    hide Tree;
    ResolveFails(m.nodes, path, time);
  }

  /** What a path leads to below its parent, told by the rows. */
  lemma LastNameDecides(nodes: Nodes, path: Path, time: int)
    requires Tree(nodes) && path != []
    ensures match Resolve(nodes, Init(path), time)
      case Err(e) => Resolve(nodes, path, time) == Err(e)
      case Ok(parent) =>
        if parent.typ != Dir || |Final(path)| > NAME_MAX then Resolve(nodes, path, time) == Err(EINVAL)
        else if exists k :: InSlot(nodes, k, parent.node, Final(path)) then Resolve(nodes, path, time).Ok?
        else Resolve(nodes, path, time) == Err(ENOENT)
  {
  }

  lemma NothingToTake(m: Mem, node: nat)
    requires Numbered(m) && node >= m.nextNode
    ensures Takeable(m, node) == {}
  {
  }

  /**
   * A create below a directory, under a name that is free and not over-long, succeeds if a block is free and answers
   * `ENOSPC` if not; anything else is refused without change.
   */
  lemma CreateAnswer(g: Geometry, s: State, path: Path, typ: NodeType, time: int, now: int, r: Result<()>, t: State)
    requires Consistent(g, s) && g.first <= g.last + 1 && typ != LinkPayload
    requires Creates(g, s, path, typ, time, now, r, t)
    ensures path == [] ==> r == Err(EEXIST) && t == s
    ensures path != [] ==>
      match Resolve(s.mem.nodes, Init(path), time)
      case Err(e) => r == Err(e) && t == s
      case Ok(parent) =>
        if parent.typ != Dir || |Final(path)| > NAME_MAX then r == Err(EINVAL) && t == s
        else if exists k :: InSlot(s.mem.nodes, k, parent.node, Final(path)) then r == Err(EEXIST) && t == s
        else
          var n := Node(s.mem.nextNode, parent.node, typ, now, now, 0, Final(path));
          && r == (if FreeBlocks(g, s.mem) == 0 then Err(ENOSPC) else Ok(())) && OnDisk(s, Entry(n), r, t)
          && t.mem.nodes == s.mem.nodes[NodeKey(n.node, typ) := n] && t.mem.nextNode == n.node + 1
          && Resolve(t.mem.nodes, path, time) == Ok(n)
  {
    hide Sane, Tree, Numbered, Reading.Fits, FreeBlocks, Performs, Resolve, Takeable, NewNode, InSlot;
    NewNodeExact(s.mem, path, typ, time, now);
    var made := NewNode(s.mem, path, typ, time, now);
    if made.Ok? {
      LandAnswer(g, s, Entry(made.value), r, t);
      NothingToTake(s.mem, made.value.node);
      PerformsNodes(g, s, Entry(made.value), r, t);
      NewNodeCreatable(g, s, path, typ, time, now);
      CreatedPaths(s.mem.nodes, path, time, made.value, path);
    }
  }

  /** A create changes the answer for no path that does not go through the new entry. */
  lemma CreateElsewhere(g: Geometry, s: State, path: Path, typ: NodeType, time: int, now: int, r: Result<()>, t: State)
    requires Consistent(g, s) && typ != LinkPayload && Creates(g, s, path, typ, time, now, r, t)
    ensures forall q :: !(path <= q) ==> Resolve(t.mem.nodes, q, time) == Resolve(s.mem.nodes, q, time)
  {
    hide Sane, Tree, Numbered, Reading.Fits, Performs, Resolve, NewNode;
    var made := NewNode(s.mem, path, typ, time, now);
    if made.Ok? {
      PerformsNodes(g, s, Entry(made.value), r, t);
      NewNodeCreatable(g, s, path, typ, time, now);
      forall q | !(path <= q)
        ensures Resolve(t.mem.nodes, q, time) == Resolve(s.mem.nodes, q, time)
      {
        CreatedPaths(s.mem.nodes, path, time, made.value, q);
      }
    }
  }

  /** A node that is new has no data. */
  lemma CreatedIsEmpty(g: Geometry, s: State, path: Path, typ: NodeType, time: int, now: int, r: Result<()>, t: State,
                       size: nat)
    requires Numbered(s.mem) && Creates(g, s, path, typ, time, now, r, t) && r.Ok?
    requires Sized(t.mem, s.mem.nextNode, size)
    ensures size == 0
  {
    hide Legal, Picks, Resolve, NewNode;
    var n := NewNode(s.mem, path, typ, time, now).value;
    PerformsOutcome(g, s, Entry(n), r, t);
    var b :| Wrote(g, s, Entry(n), b, t);
    EntryEffect(s.mem, n);
    forall c | c in t.mem.blocks
      ensures OpNodeFilter(DATA, s.mem.nextNode)(t.mem.blocks[c]) != 0
    {
    }
  }

  /** The same for a link, whose target must not be over-long. */
  lemma LinkAnswer(g: Geometry, s: State, path: Path, to: string, time: int, now: int, r: Result<()>, t: State)
    requires Consistent(g, s) && g.first <= g.last + 1 && MakesLink(g, s, path, to, time, now, r, t)
    ensures |to| > NAME_MAX ==> r == Err(EINVAL) && t == s
    ensures |to| <= NAME_MAX && path == [] ==> r == Err(EEXIST) && t == s
    ensures |to| <= NAME_MAX && path != [] ==>
      match Resolve(s.mem.nodes, Init(path), time)
      case Err(e) => r == Err(e) && t == s
      case Ok(parent) =>
        if parent.typ != Dir || |Final(path)| > NAME_MAX then r == Err(EINVAL) && t == s
        else if exists k :: InSlot(s.mem.nodes, k, parent.node, Final(path)) then r == Err(EEXIST) && t == s
        else
          var id := s.mem.nextNode;
          var n, p := Node(id, parent.node, Link, now, now, 0, Final(path)), Node(id, id, LinkPayload, 0, 0, 0, to);
          && r == (if FreeBlocks(g, s.mem) == 0 then Err(ENOSPC) else Ok(()))
          && (if r.Ok? then TwoRecords(s, Entry(n), Entry(p), t) else Untouched(s, t))
          && t.mem.nodes == s.mem.nodes[NodeKey(id, Link) := n][NodeKey(id, LinkPayload) := p]
          && t.mem.nextNode == id + 1
          && Resolve(t.mem.nodes, path, time) == Ok(n)
  {
    hide Sane, Tree, Numbered, Reading.Fits, FreeBlocks, Links, Resolve, Takeable, NewNode, InSlot;
    if |to| <= NAME_MAX {
      NewNodeExact(s.mem, path, Link, time, now);
      var made := NewNode(s.mem, path, Link, time, now);
      if made.Ok? {
        LinkSpace(g, s, made.value, PayloadOf(made.value, to), r, t);
        NothingToTake(s.mem, made.value.node);
        LinksNodes(g, s, made.value, PayloadOf(made.value, to), r, t);
        LinkResolves(g, s, path, to, time, now, made.value);
      }
    }
  }

  lemma LinkSpace(g: Geometry, s: State, n: Node, p: Node, r: Result<()>, t: State)
    requires Sane(g, s) && g.first <= g.last + 1 && Links(g, s, n, p, r, t)
    ensures r == if FreeBlocks(g, s.mem) == 0 && Takeable(s.mem, n.node) == {} then Err(ENOSPC) else Ok(())
    ensures if r.Ok? then TwoRecords(s, Entry(n), Entry(p), t) else Untouched(s, t)
    ensures n.node == p.node ==> t.mem.nextNode == Max(s.mem.nextNode, n.node + 1)
  {
    hide Sane, FreeBlocks, SourceOf, Writes, OneRecord, TwoRecords, BothWrote;
    NoSpaceExact(g, s, n.node);
    if r.Ok? {
      LinkWritten(g, s, n, p, r, t);
      var b, c :| BothWrote(g, s, n, p, b, c, t);
      LinkRecords(g, s, n, p, b, c, t);
    }
  }

  lemma LinkRecords(g: Geometry, s: State, n: Node, p: Node, b: nat, c: nat, t: State)
    requires BothWrote(g, s, n, p, b, c, t)
    ensures TwoRecords(s, Entry(n), Entry(p), t)
    ensures n.node == p.node ==> t.mem.nextNode == Max(s.mem.nextNode, n.node + 1)
  {
    hide OneRecord, TwoRecords, Legal, Picks;
    WriteIsOne(s, b, Entry(n));
    WriteIsOne(Write(s, b, Entry(n)), c, Entry(p));
    OneAfterOne(s, Entry(n), Write(s, b, Entry(n)), Entry(p), t);
  }

  lemma WriteIsOne(s: State, b: nat, body: Body)
    ensures OneRecord(s, body, Write(s, b, body))
  {
    assert b in Write(s, b, body).disk;
  }

  lemma LinkResolves(g: Geometry, s: State, path: Path, to: string, time: int, now: int, n: Node)
    requires Consistent(g, s) && |to| <= NAME_MAX && NewNode(s.mem, path, Link, time, now) == Ok(n)
    ensures var p := PayloadOf(n, to); Resolve(s.mem.nodes[KeyOf(n) := n][KeyOf(p) := p], path, time) == Ok(n)
  {
    hide Sane, Tree, Numbered, Reading.Fits, Resolve, NewNode, Legal;
    NewNodeCreatable(g, s, path, Link, time, now);
    NewNodeLegal(s.mem, path, Link, time, now);
    CreatedTree(s.mem.nodes, path, time, n);
    CreatedPaths(s.mem.nodes, path, time, n, path);
    PayloadLegal(s.mem.nodes, n, to);
    PayloadOnNoPath(s.mem.nodes[KeyOf(n) := n], PayloadOf(n, to), time, path);
  }

  // Directories

  /** The rows below a directory are the entries that its path extended by one name leads to. */
  lemma BelowDirectory(nodes: Nodes, path: Path, time: int, x: Node)
    requires Tree(nodes) && Resolve(nodes, path, time).Ok? && Resolve(nodes, path, time).value.typ == Dir
    ensures x in nodes.Values && x.parent == Resolve(nodes, path, time).value.node ==>
      Resolve(nodes, path + [x.name], time) == Ok(x)
    ensures forall name :: Resolve(nodes, path + [name], time) == Ok(x) ==>
      x in nodes.Values && x.parent == Resolve(nodes, path, time).value.node && x.name == name
  {
    hide Tree, Resolve, Child;
    var at := Resolve(nodes, path, time).value.node;
    if x in nodes.Values && x.parent == at {
      var k :| k in nodes && nodes[k] == x;
      RowFacts(nodes, k);
      ChildIs(nodes, k);
      ResolveStep(nodes, path, x.name, time);
    }
    forall name | Resolve(nodes, path + [name], time) == Ok(x)
      ensures x in nodes.Values && x.parent == at && x.name == name
    {
      assert Init(path + [name]) == path;
      ResolvedIn(nodes, path + [name], time);
    }
  }

  lemma RowFacts(nodes: Nodes, k: NodeKey)
    requires Tree(nodes) && k in nodes
    ensures |nodes[k].name| <= NAME_MAX && KeyOf(nodes[k]) == k
  {
  }

  /** A directory has children if and only if something resolves below it. */
  lemma ParentalExact(nodes: Nodes, path: Path, time: int)
    requires Tree(nodes) && Resolve(nodes, path, time).Ok? && Resolve(nodes, path, time).value.typ == Dir
    ensures (exists k :: k in nodes && nodes[k].parent == Resolve(nodes, path, time).value.node) <==>
      exists name :: Resolve(nodes, path + [name], time).Ok?
  {
    hide Tree, Resolve;
    if k :| k in nodes && nodes[k].parent == Resolve(nodes, path, time).value.node {
      BelowDirectory(nodes, path, time, nodes[k]);
    }
    if name :| Resolve(nodes, path + [name], time).Ok? {
      var x := Resolve(nodes, path + [name], time).value;
      BelowDirectory(nodes, path, time, x);
      var k :| k in nodes && nodes[k] == x;
    }
  }

  /** A listing has every child once, under the name its path ends in, in the order of the names. */
  lemma ListingExact(nodes: Nodes, path: Path, time: int, entries: seq<Node>)
    requires Tree(nodes) && Resolve(nodes, path, time).Ok? && Resolve(nodes, path, time).value.typ == Dir
    requires ListsChildren(nodes, Resolve(nodes, path, time).value.node, entries)
    ensures forall x :: x in entries ==> Resolve(nodes, path + [x.name], time) == Ok(x)
    ensures forall name :: Resolve(nodes, path + [name], time).Ok? ==>
      Resolve(nodes, path + [name], time).value in entries && Resolve(nodes, path + [name], time).value.name == name
    ensures forall i, j :: 0 <= i < j < |entries| ==> entries[i] != entries[j]
    ensures forall i, j :: 0 <= i < j < |entries| ==> StrCmp(entries[i].name, entries[j].name) < 0
  {
    hide Tree, Resolve;
    forall x | x in entries
      ensures Resolve(nodes, path + [x.name], time) == Ok(x)
    {
      BelowDirectory(nodes, path, time, x);
    }
    forall name | Resolve(nodes, path + [name], time).Ok?
      ensures Resolve(nodes, path + [name], time).value in entries
      ensures Resolve(nodes, path + [name], time).value.name == name
    {
      BelowDirectory(nodes, path, time, Resolve(nodes, path + [name], time).value);
    }
    forall i, j | 0 <= i < j < |entries|
      ensures entries[i] != entries[j]
    {
      StrCmpOrder(entries[i].name, entries[j].name, "");
    }
  }

  // Deleting

  /**
   * A delete is refused for a directory with a row below it, fails without space only when nothing is free and the node
   * has no live block, and otherwise takes out exactly the node's rows.
   */
  lemma RemoveAnswer(g: Geometry, s: State, path: Path, time: int, r: Result<()>, t: State)
    requires Consistent(g, s) && g.first <= g.last + 1 && Removes(g, s, path, time, r, t)
    ensures match Resolve(s.mem.nodes, path, time)
      case Err(e) => r == Err(e) && t == s
      case Ok(n) =>
        if n.typ == Dir && exists k :: k in s.mem.nodes && s.mem.nodes[k].parent == n.node
        then r == Err(EINVAL) && t == s
        else
          && r == (if FreeBlocks(g, s.mem) == 0 && LiveOf(s.mem, n.node) == {} then Err(ENOSPC) else Ok(()))
          && t.mem.nodes == (map k | k in s.mem.nodes && k.node != n.node :: s.mem.nodes[k])
          && OnDisk(s, Delete(n), r, t)
          && (r.Ok? ==> FreeBlocks(g, t.mem) == FreeBlocks(g, s.mem) + |LiveOf(s.mem, n.node)|)
  {
    hide Sane, Tree, Numbered, Reading.Fits, FreeBlocks, LiveOf, Performs, Resolve, OnDisk;
    var found := Resolve(s.mem.nodes, path, time);
    if found.Ok? && !(found.value.typ == Dir && Parental(s.mem.nodes, found.value.node)) {
      DeleteAnswer(g, s, found.value, r, t);
      PerformsOutcome(g, s, Delete(found.value), r, t);
      PerformsNodes(g, s, Delete(found.value), r, t);
      RecordsOne(g, s, Delete(found.value), r, t);
    }
  }

  /** A directory below which nothing resolves is deleted when a block is free or one of its own is live. */
  lemma EmptyIsDeleted(g: Geometry, s: State, path: Path, time: int, r: Result<()>, t: State)
    requires Consistent(g, s) && g.first <= g.last + 1 && Removes(g, s, path, time, r, t)
    requires Resolve(s.mem.nodes, path, time).Ok? && Resolve(s.mem.nodes, path, time).value.typ == Dir
    requires forall name :: Resolve(s.mem.nodes, path + [name], time).Err?
    requires FreeBlocks(g, s.mem) > 0 || LiveOf(s.mem, Resolve(s.mem.nodes, path, time).value.node) != {}
    ensures r == Ok(())
  {
    hide Sane, Tree, Numbered, Reading.Fits, FreeBlocks, LiveOf, Removes, Resolve;
    ParentalExact(s.mem.nodes, path, time);
    RemoveAnswer(g, s, path, time, r, t);
  }

  // Times

  /** One lookup in a directory, before and after a row is rewritten in its slot. */
  lemma ChildTouched(nodes: Nodes, n: Node, at: nat, name: string)
    requires Tree(nodes) && KeyOf(n) in nodes && n.typ != LinkPayload && SameSlot(nodes[KeyOf(n)], n)
    ensures Child(nodes[KeyOf(n) := n], at, name) ==
      if Child(nodes, at, name) == Ok(nodes[KeyOf(n)]) then Ok(n) else Child(nodes, at, name)
  {
    hide Tree;
    var nodes' := nodes[KeyOf(n) := n];
    TouchedTree(nodes, n);
    forall k
      ensures InSlot(nodes', k, at, name) <==> InSlot(nodes, k, at, name)
    {
    }
    if k :| InSlot(nodes, k, at, name) {
      assert InSlot(nodes', k, at, name);
      RowFacts(nodes, k);
      ChildIs(nodes, k);
      ChildIs(nodes', k);
      RowFacts(nodes, KeyOf(n));
    }
  }

  /** With new times in its row an entry answers with them on its path, and nothing else changes on any path. */
  lemma {:induction false} TouchedResolve(nodes: Nodes, n: Node, time: int, p: Path)
    requires Tree(nodes) && KeyOf(n) in nodes && n.typ != LinkPayload && SameSlot(nodes[KeyOf(n)], n)
    ensures Resolve(nodes[KeyOf(n) := n], p, time) ==
      if p != [] && Resolve(nodes, p, time) == Ok(nodes[KeyOf(n)]) then Ok(n) else Resolve(nodes, p, time)
    decreases |p|
  {
    hide Tree, Child;
    if p != [] {
      TouchedResolve(nodes, n, time, Init(p));
      RowFacts(nodes, KeyOf(n));
      var at := Resolve(nodes, Init(p), time);
      if at.Ok? {
        ChildTouched(nodes, n, at.value.node, Final(p));
      }
    }
  }

  /** No other path leads to the row of an entry. */
  lemma OnlyPath(nodes: Nodes, path: Path, q: Path, time: int)
    requires Tree(nodes) && path != [] && Resolve(nodes, path, time).Ok?
    ensures q != path ==> Resolve(nodes, q, time) != Resolve(nodes, path, time)
  {
    hide Tree, Resolve;
    if q != path && Resolve(nodes, q, time) == Resolve(nodes, path, time) {
      OnePath(nodes, q, path, time);
    }
  }

  /**
   * Setting the times of an entry stores each where it belongs and changes nothing else, on this path or another; with
   * the modification time there is already nothing changes at all.
   */
  lemma TouchAnswer(g: Geometry, s: State, path: Path, access: int, modification: int, time: int, r: Result<()>,
                    t: State)
    requires Consistent(g, s) && g.first <= g.last + 1 && (path != [] || modification == time)
    requires Touches(g, s, path, access, modification, time, r, t)
    ensures match Resolve(s.mem.nodes, path, time)
      case Err(e) => r == Err(e) && t == s
      case Ok(old_) =>
        if modification == old_.modification then r == Ok(()) && t == s
        else
          var n := Node(old_.node, old_.parent, old_.typ, access, modification, old_.mode, old_.name);
          && r == (if FreeBlocks(g, s.mem) == 0 && Takeable(s.mem, old_.node) == {} then Err(ENOSPC) else Ok(()))
          && OnDisk(s, Entry(n), r, t) && Resolve(t.mem.nodes, path, time) == Ok(n)
          && forall q :: q != path ==> Resolve(t.mem.nodes, q, time) == Resolve(s.mem.nodes, q, time)
  {
    hide Sane, Tree, Numbered, Reading.Fits, FreeBlocks, Performs, Resolve, Takeable;
    RootResolves(s.mem.nodes, time);
    var found := Resolve(s.mem.nodes, path, time);
    if found.Ok? && modification != found.value.modification {
      var n := found.value.(access := access, modification := modification);
      LandAnswer(g, s, Entry(n), r, t);
      PerformsNodes(g, s, Entry(n), r, t);
      ResolvedIn(s.mem.nodes, path, time);
      TouchedResolve(s.mem.nodes, n, time, path);
      forall q | q != path
        ensures Resolve(t.mem.nodes, q, time) == Resolve(s.mem.nodes, q, time)
      {
        OnlyPath(s.mem.nodes, path, q, time);
        TouchedResolve(s.mem.nodes, n, time, q);
      }
    }
  }

  // Renaming

  /** A delete leaves a sane state with what it freed. */
  lemma DeletedSpace(g: Geometry, s: State, n: Node, r: Result<()>, t: State)
    requires Sane(g, s) && g.first <= g.last + 1 && Performs(g, s, Delete(n), r, t) && r.Ok?
    ensures Sane(g, t) && FreeBlocks(g, t.mem) > 0
  {
    hide Sane, FreeBlocks, LiveOf, Picks, Legal;
    DeleteAnswer(g, s, n, r, t);
    FreeIsCounted(g, s);
    PerformsOutcome(g, s, Delete(n), r, t);
    var b :| Wrote(g, s, Delete(n), b, t);
    WriteSane(g, s, b, Delete(n));
    if x :| x in LiveOf(s.mem, n.node) {
      assert |LiveOf(s.mem, n.node)| > 0;
    }
  }

  /** Once the file in the way is deleted the move does not lack a block. */
  lemma ReplaceAnswer(g: Geometry, s: State, target: Node, moved: Node, r: Result<()>, t: State)
    requires Sane(g, s) && g.first <= g.last + 1
    requires Replaces(g, s, target, moved, r, t) || ReplacesByRoot(g, s, target, moved, r, t)
    ensures r == if FreeBlocks(g, s.mem) == 0 && LiveOf(s.mem, target.node) == {} then Err(ENOSPC) else Ok(())
    ensures var cleared := map k | k in s.mem.nodes && k.node != target.node :: s.mem.nodes[k];
      t.mem.nodes == if r.Ok? then cleared[KeyOf(moved) := moved] else cleared
    ensures if r.Ok? then TwoRecords(s, Delete(target), Move(moved), t) else Untouched(s, t)
  {
    hide Sane, FreeBlocks, LiveOf, Performs, Lands, OneRecord, TwoRecords;
    if u :| Performs(g, s, Delete(target), Ok(()), u) &&
            (Performs(g, u, Move(moved), r, t) || Lands(g, u, Move(moved), r, t)) {
      DeleteAnswer(g, s, target, Ok(()), u);
      DeletedSpace(g, s, target, Ok(()), u);
      LandAnswer(g, u, Move(moved), r, t);
      PerformsNodes(g, s, Delete(target), Ok(()), u);
      LandsNodes(g, u, Move(moved), r, t);
      RecordsOne(g, s, Delete(target), Ok(()), u);
      OneAfterOne(s, Delete(target), u, Move(moved), t);
    } else {
      DeleteAnswer(g, s, target, r, t);
      PerformsNodes(g, s, Delete(target), r, t);
      RecordsOne(g, s, Delete(target), r, t);
    }
  }

  lemma LandsNodes(g: Geometry, s: State, body: Body, r: Result<()>, t: State)
    requires Lands(g, s, body, r, t) || Performs(g, s, body, r, t)
    ensures t.mem.nodes == NodesEffect(s.mem.nodes, body)
  {
    hide NodesEffect, Picks, Legal;
  }

  /**
   * A rename to a free name below a directory succeeds if a block is free or a node record of its own can be taken
   * over, one over a file if a block is free or the file has a live one; otherwise the answer is `ENOSPC`. What is
   * missing, no directory, or in the way without being a file is refused without change.
   */
  lemma RenameAnswer(g: Geometry, s: State, from: Path, to: Path, time: int, r: Result<()>, t: State)
    requires Consistent(g, s) && g.first <= g.last + 1 && to != [] && |Final(to)| <= NAME_MAX
    requires Moves(g, s, from, to, time, r, t) && from != []
    ensures match Resolve(s.mem.nodes, from, time)
      case Err(e) => r == Err(e) && t == s
      case Ok(n) =>
        match Resolve(s.mem.nodes, Init(to), time)
        case Err(e) => r == Err(e) && t == s
        case Ok(parent) =>
          var moved := Node(n.node, parent.node, n.typ, n.access, n.modification, n.mode, Final(to));
          if parent.typ != Dir then r == Err(EINVAL) && t == s
          else
            match Resolve(s.mem.nodes, to, time)
            case Err(_) =>
              && r == (if FreeBlocks(g, s.mem) == 0 && Takeable(s.mem, n.node) == {} then Err(ENOSPC) else Ok(()))
              && OnDisk(s, Move(moved), r, t) && t.mem.nodes == s.mem.nodes[NodeKey(n.node, n.typ) := moved]
            case Ok(target) =>
              if target.typ != File then r == Err(EINVAL) && t == s
              else
                var cleared := map k | k in s.mem.nodes && k.node != target.node :: s.mem.nodes[k];
                && r == (if FreeBlocks(g, s.mem) == 0 && LiveOf(s.mem, target.node) == {} then Err(ENOSPC) else Ok(()))
                && (if r.Ok? then TwoRecords(s, Delete(target), Move(moved), t) else Untouched(s, t))
                && t.mem.nodes == if r.Ok? then cleared[NodeKey(n.node, n.typ) := moved] else cleared
  {
    hide Sane, Tree, Numbered, Reading.Fits, FreeBlocks, LiveOf, Performs, Replaces, Resolve, Child, Takeable;
    var nodes := s.mem.nodes;
    if Resolve(nodes, from, time).Ok? && Resolve(nodes, Init(to), time).Ok? &&
       Resolve(nodes, Init(to), time).value.typ == Dir {
      assert Clip(Final(to)) == Final(to);
      var moved := Moved(Resolve(nodes, from, time).value, Resolve(nodes, Init(to), time).value.node, Final(to));
      TargetResolves(nodes, to, time);
      match Child(nodes, moved.parent, moved.name)
      case Err(_) =>
        LandAnswer(g, s, Move(moved), r, t);
        PerformsNodes(g, s, Move(moved), r, t);
      case Ok(target) =>
        if target.typ == File {
          ReplaceAnswer(g, s, target, moved, r, t);
        }
    }
  }

  /** What the search for a slot says of the rows. */
  lemma ChildExact(nodes: Nodes, at: nat, name: string)
    requires Tree(nodes)
    ensures Child(nodes, at, name).Err? <==> forall k :: !InSlot(nodes, k, at, name)
    ensures forall k :: InSlot(nodes, k, at, name) ==> Child(nodes, at, name) == Ok(nodes[k])
  {
    hide Tree;
    forall k | InSlot(nodes, k, at, name)
      ensures Child(nodes, at, name) == Ok(nodes[k])
    {
      ChildIs(nodes, k);
    }
  }

  /**
   * An over-long last name is cut to the longest there is, and the root has the name of its slash; under such a name a
   * rename never replaces anything.
   */
  lemma RenameClips(g: Geometry, s: State, from: Path, to: Path, time: int, r: Result<()>, t: State)
    requires Consistent(g, s) && g.first <= g.last + 1 && (to == [] || |Final(to)| > NAME_MAX)
    requires Moves(g, s, from, to, time, r, t) && from != []
    ensures var dir, name := if to == [] then [] else Init(to), if to == [] then "/" else Final(to)[..NAME_MAX];
      match Resolve(s.mem.nodes, from, time)
      case Err(e) => r == Err(e) && t == s
      case Ok(n) =>
        match Resolve(s.mem.nodes, dir, time)
        case Err(e) => r == Err(e) && t == s
        case Ok(parent) =>
          if parent.typ != Dir || exists k :: InSlot(s.mem.nodes, k, parent.node, name) then r == Err(EINVAL) && t == s
          else
            && r == (if FreeBlocks(g, s.mem) == 0 && Takeable(s.mem, n.node) == {} then Err(ENOSPC) else Ok(()))
            && OnDisk(s, Move(n.(parent := parent.node, name := name)), r, t)
            && t.mem.nodes == s.mem.nodes[KeyOf(n) := n.(parent := parent.node, name := name)]
  {
    hide Sane, Tree, Numbered, Reading.Fits, FreeBlocks, Performs, Replaces, Resolve, Child, Takeable, InSlot;
    var nodes := s.mem.nodes;
    if Resolve(nodes, from, time).Ok? && Resolve(nodes, Dirname(to), time).Ok? &&
       Resolve(nodes, Dirname(to), time).value.typ == Dir {
      var parent := Resolve(nodes, Dirname(to), time).value.node;
      var moved := Moved(Resolve(nodes, from, time).value, parent, Clip(Basename(to)));
      assert to == [] ==> Clip(Basename(to)) == "/";
      ChildExact(nodes, parent, moved.name);
      if Child(nodes, parent, moved.name).Err? {
        LandAnswer(g, s, Move(moved), r, t);
        PerformsNodes(g, s, Move(moved), r, t);
      }
    }
  }

  /** Renaming the root is answered as if it were an entry like any other. */
  lemma RootRenameAnswer(g: Geometry, s: State, to: Path, time: int, r: Result<()>, t: State)
    requires Consistent(g, s) && g.first <= g.last + 1 && MovesRoot(g, s, to, time, r, t)
    ensures var dir, full := if to == [] then [] else Init(to), if to == [] then "/" else Final(to);
      var name := if |full| > NAME_MAX then full[..NAME_MAX] else full;
      match Resolve(s.mem.nodes, dir, time)
      case Err(e) => r == Err(e) && t == s
      case Ok(parent) =>
        if parent.typ != Dir then r == Err(EINVAL) && t == s
        else if forall k :: !InSlot(s.mem.nodes, k, parent.node, name) then
          var moved := Node(0, parent.node, Dir, time, time, 0, name);
          && r == (if FreeBlocks(g, s.mem) == 0 then Err(ENOSPC) else Ok(())) && OnDisk(s, Move(moved), r, t)
          && t.mem.nodes == s.mem.nodes[NodeKey(0, Dir) := moved]
        else forall k :: InSlot(s.mem.nodes, k, parent.node, name) ==>
          if s.mem.nodes[k].typ != File || full != name || to == [] then r == Err(EINVAL) && t == s
          else if FreeBlocks(g, s.mem) == 0 && LiveOf(s.mem, s.mem.nodes[k].node) == {} then r == Err(ENOSPC)
          else r == Ok(())
  {
    hide Sane, Tree, Numbered, Reading.Fits, FreeBlocks, LiveOf, Lands, ReplacesByRoot, Resolve, Child, InSlot;
    var nodes := s.mem.nodes;
    if Resolve(nodes, Dirname(to), time).Ok? && Resolve(nodes, Dirname(to), time).value.typ == Dir {
      var moved := Moved(Root(time), Resolve(nodes, Dirname(to), time).value.node, Clip(Basename(to)));
      ClipIs(Basename(to));
      ChildExact(nodes, moved.parent, moved.name);
      match Child(nodes, moved.parent, moved.name)
      case Err(_) =>
        LandAnswer(g, s, Move(moved), r, t);
        LandsNodes(g, s, Move(moved), r, t);
      case Ok(target) =>
        if target.typ == File && |Basename(to)| <= NAME_MAX && to != [] {
          ReplaceAnswer(g, s, target, moved, r, t);
        }
    }
  }

  lemma ClipIs(name: string)
    ensures Clip(name) == if |name| > NAME_MAX then name[..NAME_MAX] else name
  {
  }

  // Truncating

  /** A block that a truncate frees: an older truncate of the file, or data wholly behind the new end. */
  predicate CutLoose(row: Block, id: nat, size: nat) {
    row.node == id && (row.op == TRUNCATE || (row.op == DATA && row.offset >= size))
  }

  lemma CutFrees(g: Geometry, s: State, id: nat, size: nat, b: nat)
    requires Sane(g, s) && b in s.mem.blocks
    ensures var op := Effect(s.mem, Truncate(id, size)).blocks[b].op;
      op == if CutLoose(s.mem.blocks[b], id, size) then FREE else s.mem.blocks[b].op
  {
  }

  /** Nothing is reported free when no fresh block is left and no row is free or of a mere delete. */
  lemma NothingFree(g: Geometry, s: State)
    requires Sane(g, s) && g.first <= g.last + 1
    ensures FreeBlocks(g, s.mem) == 0 <==>
      s.mem.nextBlock > g.last && forall b :: b in s.mem.blocks ==> s.mem.blocks[b].op !in {FREE, DELETE}
  {
    CountIsNone(s.mem, FREE);
    CountIsNone(s.mem, DELETE);
  }

  lemma CountIsNone(m: Mem, op: nat)
    ensures Count(m, op) == 0 <==> forall b :: b in m.blocks ==> m.blocks[b].op != op
  {
    if b :| b in m.blocks && m.blocks[b].op == op {
      assert b in WithOp(m, op);
    } else {
      assert WithOp(m, op) == {};
    }
  }

  lemma CutSpace(g: Geometry, s: State, id: nat, size: nat)
    requires Sane(g, s) && g.first <= g.last + 1
    ensures var e := Effect(s.mem, Truncate(id, size));
      && (FreeBlocks(g, e) == 0 <==>
            FreeBlocks(g, s.mem) == 0 && forall b :: b in s.mem.blocks ==> !CutLoose(s.mem.blocks[b], id, size))
      && Takeable(e, id) == Takeable(s.mem, id)
  {
    hide Sane, FreeBlocks;
    var e := Effect(s.mem, Truncate(id, size));
    forall b | b in s.mem.blocks
      ensures e.blocks[b].op == if CutLoose(s.mem.blocks[b], id, size) then FREE else s.mem.blocks[b].op
      ensures e.blocks[b].node == s.mem.blocks[b].node
    {
      CutFrees(g, s, id, size, b);
    }
    assert Takeable(e, id) == Takeable(s.mem, id);
    EffectSane(g, s, Truncate(id, size), s.mem.nextNode);
    NothingFree(g, s);
    NothingFree(g, s.(mem := e));
    assert s.(mem := e.(nextNode := s.mem.nextNode)) == s.(mem := e);
  }

  /**
   * A truncate is refused if and only if no file has the number; it lacks space if and only if nothing is free, it
   * frees nothing itself and the file has no node record to give up.
   */
  lemma CutAnswer(g: Geometry, s: State, id: nat, size: nat, r: Result<()>, t: State)
    requires Consistent(g, s) && g.first <= g.last + 1 && Cuts(g, s, id, size, r, t)
    ensures r == Err(ENOENT) <==> NodeKey(id, File) !in s.mem.nodes
    ensures if r == Err(ENOENT) then t == s else OnDisk(s, Truncate(id, size), r, t)
    ensures r == Err(ENOSPC) <==>
      && NodeKey(id, File) in s.mem.nodes && FreeBlocks(g, s.mem) == 0 && Takeable(s.mem, id) == {}
      && forall b :: b in s.mem.blocks ==> !CutLoose(s.mem.blocks[b], id, size)
    ensures r.Ok? || r == Err(ENOENT) || r == Err(ENOSPC)
    ensures t.mem.nodes == s.mem.nodes
  {
    hide Sane, Tree, Numbered, Reading.Fits, FreeBlocks, Takeable, CutLoose, Effect, SourceOf, Wrote, OnDisk;
    if NodeKey(id, File) in s.mem.nodes {
      PerformsOutcome(g, s, Truncate(id, size), r, t);
      PerformsNodes(g, s, Truncate(id, size), r, t);
      RecordsOne(g, s, Truncate(id, size), r, t);
      CutSpace(g, s, id, size);
      EffectSane(g, s, Truncate(id, size), s.mem.nextNode);
      EffectKeepsCounter(s.mem, Truncate(id, size));
      NoSpaceExact(g, s.(mem := Effect(s.mem, Truncate(id, size))), id);
    }
  }

  lemma EffectKeepsCounter(m: Mem, body: Body)
    ensures Effect(m, body).(nextNode := m.nextNode) == Effect(m, body)
  {
  }

  // Writing data

  /** The blocks a write to the file can get: those reported free, and those with node records of the file. */
  function Room(g: Geometry, m: Mem, id: nat): int {
    FreeBlocks(g, m) + |Takeable(m, id)|
  }

  /** The bytes that fit into them. */
  function Fitting(g: Geometry, m: Mem, id: nat): int {
    g.payload * Room(g, m, id)
  }

  /** Each chunk uses up exactly one of them. */
  lemma ChunkUsesOne(g: Geometry, s: State, body: Body, b: nat, t: State)
    requires Sane(g, s) && g.first <= g.last + 1 && body.Data? && Wrote(g, s, body, b, t)
    ensures Sane(g, t) && Room(g, t.mem, body.id) == Room(g, s.mem, body.id) - 1
    ensures |Takeable(t.mem, body.id)| <= |Takeable(s.mem, body.id)|
  {
    hide Sane, SourceOf, Picks, Legal;
    DataEffect(s.mem, body);
    WriteSane(g, s, b, body);
    SpaceConserved(g, s);
    SpaceConserved(g, t);
    if SourceOf(g, s.mem, body.id).TakenOver? {
      PickedIsOwnNode(g, s.mem, body.id, b);
      assert LiveBlocks(t.mem) == LiveBlocks(s.mem);
      assert Takeable(t.mem, body.id) == Takeable(s.mem, body.id) - {b};
    } else {
      PickedIsDead(g, s, b, body);
      OneMoreLive(s.mem, t.mem, b);
      assert Takeable(t.mem, body.id) == Takeable(s.mem, body.id);
    }
  }

  lemma PickedIsOwnNode(g: Geometry, m: Mem, id: nat, b: nat)
    requires Picks(g, m, id, b) && SourceOf(g, m, id).TakenOver?
    ensures b in Takeable(m, id)
  {
  }

  lemma {:induction false} ChunksUseRoom(g: Geometry, s: State, bodies: seq<Body>, t: State, id: nat)
    requires Sane(g, s) && g.first <= g.last + 1 && Writes(g, s, bodies, t) && AllData(bodies, id, g.payload)
    ensures Sane(g, t) && Room(g, t.mem, id) == Room(g, s.mem, id) - |bodies|
    ensures |Takeable(t.mem, id)| <= |Takeable(s.mem, id)|
  {
    hide Sane, Room, Wrote, Takeable;
    if bodies != [] {
      var u, b :| Writes(g, s, Init(bodies), u) && Wrote(g, u, Final(bodies), b, t);
      ChunksUseRoom(g, s, Init(bodies), u, id);
      ChunkUsesOne(g, u, Final(bodies), b, t);
    }
  }

  /** As many chunks as there are payloads in the data, the last one perhaps only begun. */
  lemma {:induction false} ChunkCount(bodies: seq<Body>, id: nat, offset: nat, data: seq<byte>, payload: nat, room: nat)
    requires payload > 0 && IsChunks(bodies, id, offset, data, payload)
    ensures |bodies| <= room <==> |data| <= payload * room
    decreases |data|
  {
    if data != [] && room > 0 {
      var n := Min(|data|, payload);
      ChunkCount(bodies[1..], id, offset + n, data[n..], payload, room - 1);
      assert payload * room == payload * (room - 1) + payload;
    }
  }

  /** The first chunks of a write are the chunks of the data they hold. */
  lemma {:induction false} FirstChunks(bodies: seq<Body>, id: nat, offset: nat, data: seq<byte>, payload: nat, k: nat)
    requires payload > 0 && IsChunks(bodies, id, offset, data, payload) && k < |bodies|
    ensures payload * k < |data| && IsChunks(bodies[..k], id, offset, data[..payload * k], payload)
    decreases |data|
  {
    if k == 0 {
      assert data[..payload * k] == [];
    } else {
      ChunkCount(bodies, id, offset, data, payload, k);
      var n := Min(|data|, payload);
      FirstChunks(bodies[1..], id, offset + n, data[n..], payload, k - 1);
      assert payload * k == payload * (k - 1) + payload;
      assert bodies[..k][1..] == bodies[1..][..k - 1];
      assert data[..payload * k][..n] == data[..n];
      assert data[..payload * k][n..] == data[n..][..payload * (k - 1)];
    }
  }

  /**
   * A write succeeds if and only if its data fits into the free blocks and the file's own node records; otherwise it
   * leaves what a write of as much as fits would have left.
   */
  lemma StoreAnswer(g: Geometry, s: State, id: nat, data: seq<byte>, offset: nat, r: Result<()>, t: State)
    requires g.payload > 0 && Consistent(g, s) && g.first <= g.last + 1 && Stores(g, s, id, data, offset, r, t)
    ensures Fitting(g, s.mem, id) >= 0
    ensures r == if |data| <= Fitting(g, s.mem, id) then Ok(()) else Err(ENOSPC)
    ensures r.Err? ==> Stores(g, s, id, data[..Fitting(g, s.mem, id)], offset, Ok(()), t)
    ensures t.mem.nodes == s.mem.nodes
  {
    hide Sane, Tree, Numbered, Reading.Fits, Fitting, IsChunks, Writes, SourceOf, WritesSome;
    StoresNodes(g, s, id, data, offset, r, t);
    FittingIsCounted(g, s, id);
    if r.Ok? {
      var all :| IsChunks(all, id, offset, data, g.payload) && Writes(g, s, all, t);
      ChunksFit(g, s, id, data, offset, all, t);
      assert r.value == ();
    } else {
      var all :| IsChunks(all, id, offset, data, g.payload) && WritesSome(g, s, all, t);
      SomeChunksFit(g, s, id, data, offset, all, t);
    }
  }

  lemma ChunksFit(g: Geometry, s: State, id: nat, data: seq<byte>, offset: nat, all: seq<Body>, t: State)
    requires g.payload > 0 && Sane(g, s) && g.first <= g.last + 1 && Fitting(g, s.mem, id) >= 0
    requires IsChunks(all, id, offset, data, g.payload) && Writes(g, s, all, t)
    ensures |data| <= Fitting(g, s.mem, id)
  {
    hide Sane, Room, IsChunks, Writes, AllData;
    ChunksAreData(all, id, offset, data, g.payload);
    ChunksUseRoom(g, s, all, t, id);
    RoomIsCounted(g, s, id);
    RoomIsCounted(g, t, id);
    ChunkCount(all, id, offset, data, g.payload, Room(g, s.mem, id));
  }

  lemma SomeChunksFit(g: Geometry, s: State, id: nat, data: seq<byte>, offset: nat, all: seq<Body>, t: State)
    requires g.payload > 0 && Sane(g, s) && g.first <= g.last + 1 && Fitting(g, s.mem, id) >= 0
    requires IsChunks(all, id, offset, data, g.payload) && WritesSome(g, s, all, t)
    requires SourceOf(g, t.mem, id).NoSpace?
    ensures |data| > Fitting(g, s.mem, id)
    ensures Stores(g, s, id, data[..Fitting(g, s.mem, id)], offset, Ok(()), t)
  {
    hide Sane, Room, IsChunks, Writes, AllData, SourceOf;
    var k: nat :| k < |all| && Writes(g, s, all[..k], t);
    FirstChunks(all, id, offset, data, g.payload, k);
    ChunksAreData(all[..k], id, offset, data[..g.payload * k], g.payload);
    ChunksUseRoom(g, s, all[..k], t, id);
    RoomIsCounted(g, t, id);
  }

  lemma FittingIsCounted(g: Geometry, s: State, id: nat)
    requires Sane(g, s) && g.first <= g.last + 1
    ensures Fitting(g, s.mem, id) >= 0
  {
    hide Sane, Room;
    RoomIsCounted(g, s, id);
  }

  lemma RoomIsCounted(g: Geometry, s: State, id: nat)
    requires Sane(g, s) && g.first <= g.last + 1
    ensures Room(g, s.mem, id) >= 0
    ensures SourceOf(g, s.mem, id).NoSpace? ==> Room(g, s.mem, id) == 0
  {
    hide Sane, SourceOf, FreeBlocks;
    FreeIsCounted(g, s);
    NoSpaceExact(g, s, id);
  }

  /** With a block more than the data needs there is one left afterwards. */
  lemma OneIsLeft(g: Geometry, s: State, id: nat, data: seq<byte>, offset: nat, r: Result<()>, t: State)
    requires g.payload > 0 && Consistent(g, s) && g.first <= g.last + 1 && Stores(g, s, id, data, offset, r, t)
    requires |data| <= g.payload * (FreeBlocks(g, s.mem) - 1)
    ensures r == Ok(()) && FreeBlocks(g, t.mem) > 0
  {
    hide Sane, Tree, Numbered, Reading.Fits, IsChunks, Writes, SourceOf, AllData, FreeBlocks, Takeable;
    StoreAnswer(g, s, id, data, offset, r, t);
    assert g.payload * (FreeBlocks(g, s.mem) - 1) <= g.payload * Room(g, s.mem, id);
    var all :| IsChunks(all, id, offset, data, g.payload) && Writes(g, s, all, t);
    ChunksAreData(all, id, offset, data, g.payload);
    ChunksUseRoom(g, s, all, t, id);
    if FreeBlocks(g, s.mem) >= 1 {
      ChunkCount(all, id, offset, data, g.payload, FreeBlocks(g, s.mem) - 1);
    } else {
      FreeIsCounted(g, s);
    }
  }

  // What the order of the lookup index decides

  /** Not behind the other one in the lookup order, the operation being the same. */
  predicate NoLater(a: Block, b: Block) {
    a.node < b.node || (a.node == b.node && (
      a.offset < b.offset || (a.offset == b.offset && (a.fill < b.fill || (a.fill == b.fill && a.block <= b.block)))))
  }

  /**
   * Of the blocks that can be reused free ones come before those of deletes, and these before the node's own records;
   * among them the number of the node, the offset, the fill and the block decide, in this order.
   */
  lemma ReuseExact(g: Geometry, m: Mem, node: nat, b: nat)
    requires m.nextBlock > g.last && Picks(g, m, node, b)
    ensures b in m.blocks
    ensures var op := m.blocks[b].op;
      && (op == FREE || (op == DELETE && Count(m, FREE) == 0) ||
          (b in Takeable(m, node) && Count(m, FREE) == 0 && Count(m, DELETE) == 0))
      && forall c :: c in m.blocks && m.blocks[c].op == op && (op == NODE ==> c in Takeable(m, node)) ==>
           NoLater(m.blocks[b], m.blocks[c])
  {
    HasIsCount(m, FREE);
    HasIsCount(m, DELETE);
  }

  /** No block of the file starts later, or as late and holds more. */
  ghost predicate StartsLast(m: Mem, id: nat, row: Block) {
    forall c :: IsData(m, id, c) ==>
      m.blocks[c].offset < row.offset || (m.blocks[c].offset == row.offset && m.blocks[c].fill <= row.fill)
  }

  /** The size of a file is where the block ends that starts last, the longest of them if there are several. */
  lemma SizeAnswer(m: Mem, id: nat, size: nat)
    requires Sized(m, id, size)
    ensures (forall b :: !IsData(m, id, b)) ==> size == 0
    ensures (exists b :: IsData(m, id, b)) ==>
      exists b :: IsData(m, id, b) && size == EndOf(m.blocks[b]) && StartsLast(m, id, m.blocks[b])
  {
    var last :| LastMatch(m.blocks, BlockLookup, OpNodeFilter(DATA, id), last) && size == SizeFrom(last);
    var b := LastIsData(m, id, last);
    forall c | IsData(m, id, c)
      ensures BlockLookup(m.blocks[c], m.blocks[b]) <= 0
    {
      assert OpNodeFilter(DATA, id)(m.blocks[c]) == 0;
    }
  }
}
