/** What each operation of the volume does, on values. */
module Operations {
  import opened Orders
  import opened Indexes
  import opened Records
  import opened Log
  import opened Lifetimes
  import opened Outcomes
  import opened Trees
  import opened Engine
  import opened FileData
  import opened Reading
  import opened FileShapes
  import opened FileSizes
  import opened Renames
  import opened Space

  lemma SchemasSound()
    ensures Sound(NODES) && Sound(BLOCKS)
  {
    NodesSound();
    BlocksSound();
  }

  // What holds between any two operations

  /** What every operation keeps, failed ones included. */
  ghost predicate Consistent(g: Geometry, s: State) {
    match s
    case State(mem, _, _) =>
      g.payload <= 65535 && Sane(g, s) && Tree(mem.nodes) && Numbered(mem) && Fits(mem, g.payload)
  }

  lemma FormattedConsistent(g: Geometry)
    requires g.payload <= 65535
    ensures Consistent(g, Formatted(g))
  {
    FormattedSane(g);
  }

  // Committing a record

  /** Every row's block is below the next fresh one. */
  ghost predicate Bounded(m: Mem) {
    forall b :: b in m.blocks ==> b < m.nextBlock
  }

  /** The block row is entered and the counters have moved past it; nothing is on the disk yet. */
  function Entered(s: State, row: Block): State {
    State(s.mem.(blocks := s.mem.blocks[row.block := row],
                 nextNode := Max(s.mem.nextNode, row.node + 1),
                 nextBlock := if row.block == s.mem.nextBlock then row.block + 1 else s.mem.nextBlock),
          s.disk, s.nextSeq + 1)
  }

  /** The next fresh block moves on when it is handed out. */
  function Allocated(m: Mem, b: nat): Mem {
    m.(nextBlock := if b == m.nextBlock then b + 1 else m.nextBlock)
  }

  /** A record whose effect is already in memory goes to block `b`. */
  function Put(s: State, b: nat, body: Body): State {
    var rec := Record(s.nextSeq, body);
    State(AddRow(s.mem, b, rec), s.disk[b := rec], s.nextSeq + 1)
  }

  lemma PickedBelow(g: Geometry, m: Mem, node: nat, b: nat)
    requires Picks(g, m, node, b)
    ensures if m.nextBlock <= g.last then b == m.nextBlock else b in m.blocks
  {
  }

  lemma EnteredIsPut(g: Geometry, s: State, row: Block, body: Body)
    requires row == Block(row.block, s.nextSeq, body.Op(), body.Node(), body.Fill(), body.Offset())
    requires Picks(g, s.mem, row.node, row.block) && Bounded(s.mem)
    ensures Entered(s, row).(disk := s.disk[row.block := Record(row.seqno, body)]) == Put(s, row.block, body)
  {
    PickedBelow(g, s.mem, row.node, row.block);
  }

  // One record

  /** Memory as an operation leaves it before it asks for a block. */
  function Ahead(s: State, body: Body): State {
    s.(mem := Effect(s.mem, body).(nextNode := Max(s.mem.nextNode, body.Node() + 1)))
  }

  /** The record is written if the allocator finds a block for it; otherwise memory stays ahead of the disk. */
  ghost predicate Performs(g: Geometry, s: State, body: Body, r: Result<()>, t: State) {
    match SourceOf(g, Effect(s.mem, body), body.Node())
    case NoSpace => r == Err(ENOSPC) && t == Ahead(s, body)
    case _ => r == Ok(()) && exists b :: Wrote(g, s, body, b, t)
  }

  /** The same of a record that need not leave the nodes a tree: what holds of every call, on the root as well. */
  ghost predicate Lands(g: Geometry, s: State, body: Body, r: Result<()>, t: State) {
    match SourceOf(g, Effect(s.mem, body), body.Node())
    case NoSpace => r == Err(ENOSPC) && t == Ahead(s, body)
    case _ => r == Ok(()) && exists b :: Picks(g, Effect(s.mem, body), body.Node(), b) && t == Write(s, b, body)
  }

  /** What is kept even then. */
  ghost predicate Based(g: Geometry, s: State) {
    Sane(g, s) && Numbered(s.mem) && Fits(s.mem, g.payload)
  }

  // The operations, as relations between the state before, the answer and the state after

  /** Creating a file or directory. */
  ghost predicate Creates(g: Geometry, s: State, path: Path, typ: NodeType, time: int, now: int, r: Result<()>,
                          t: State) {
    match NewNode(s.mem, path, typ, time, now)
    case Err(e) => r == Err(e) && t == s
    case Ok(n) => Performs(g, s, Entry(n), r, t)
  }

  /** Creating a link. */
  ghost predicate MakesLink(g: Geometry, s: State, path: Path, to: string, time: int, now: int, r: Result<()>,
                            t: State) {
    if |to| > NAME_MAX then r == Err(EINVAL) && t == s
    else
      match NewNode(s.mem, path, Link, time, now)
      case Err(e) => r == Err(e) && t == s
      case Ok(n) => Links(g, s, n, PayloadOf(n, to), r, t)
  }

  /** Setting both times; an unchanged modification time is not worth a block. */
  ghost predicate Touches(g: Geometry, s: State, path: Path, access: int, modification: int, time: int,
                          r: Result<()>, t: State)
  {
    match Resolve(s.mem.nodes, path, time)
    case Err(e) => r == Err(e) && t == s
    case Ok(n) =>
      if n.modification == modification then r == Ok(()) && t == s
      else Performs(g, s, Entry(n.(access := access, modification := modification)), r, t)
  }

  /** Writing data: all its chunks, or without space a proper prefix of them. */
  ghost predicate Stores(g: Geometry, s: State, node: nat, data: seq<byte>, offset: nat, r: Result<()>, t: State)
    requires g.payload > 0
  {
    match r
    case Ok(_) => exists all :: IsChunks(all, node, offset, data, g.payload) && Writes(g, s, all, t)
    case Err(e) =>
      && e == ENOSPC && SourceOf(g, t.mem, node).NoSpace?
      && exists all :: IsChunks(all, node, offset, data, g.payload) && WritesSome(g, s, all, t)
  }

  /** Cutting a file off. */
  ghost predicate Cuts(g: Geometry, s: State, node: nat, size: nat, r: Result<()>, t: State) {
    if NodeKey(node, File) in s.mem.nodes then Performs(g, s, Truncate(node, size), r, t)
    else r == Err(ENOENT) && t == s
  }

  /** Deleting a file, a link or an empty directory. */
  ghost predicate Removes(g: Geometry, s: State, path: Path, time: int, r: Result<()>, t: State) {
    match Resolve(s.mem.nodes, path, time)
    case Err(e) => r == Err(e) && t == s
    case Ok(n) =>
      if n.typ == Dir && Parental(s.mem.nodes, n.node) then r == Err(EINVAL) && t == s
      else Performs(g, s, Delete(n), r, t)
  }

  lemma RootResolves(nodes: Nodes, time: int)
    ensures Resolve(nodes, [], time) == Ok(Root(time))
  {
  }

  lemma PerformsOutcome(g: Geometry, s: State, body: Body, r: Result<()>, t: State)
    requires Performs(g, s, body, r, t)
    ensures r == Ok(()) || r == Err(ENOSPC)
    ensures r.Ok? ==> exists b :: Wrote(g, s, body, b, t)
  {
  }

  /** For a node that has its number already only the effect is ahead. */
  lemma AheadOfKnown(s: State, body: Body)
    requires body.Node() < s.mem.nextNode
    ensures Ahead(s, body) == s.(mem := Effect(s.mem, body))
  {
  }

  lemma PicksByBlocks(g: Geometry, m: Mem, m': Mem, node: nat, b: nat)
    requires m.blocks == m'.blocks && m.nextBlock == m'.nextBlock
    ensures Picks(g, m, node, b) <==> Picks(g, m', node, b)
    ensures SourceOf(g, m, node) == SourceOf(g, m', node)
  {
  }

  lemma ConsistentBounded(g: Geometry, s: State)
    requires Consistent(g, s)
    ensures Bounded(s.mem)
  {
  }

  lemma EffectSane(g: Geometry, s: State, body: Body, next: nat)
    requires Sane(g, s)
    ensures Sane(g, s.(mem := Effect(s.mem, body).(nextNode := next)))
  {
    var t := s.(mem := Effect(s.mem, body));
    assert t.mem.blocks.Keys == s.mem.blocks.Keys;
    forall b | b in t.mem.blocks && b in t.disk
      ensures RowMatches(b, t.mem.blocks[b], t.disk[b])
    {
      RowEffectMatches(b, s.mem.blocks[b], s.disk[b], body);
    }
  }

  lemma EffectFits(m: Mem, body: Body, payload: nat)
    requires Fits(m, payload)
    ensures Fits(Effect(m, body), payload)
  {
  }

  lemma EffectNumbered(m: Mem, body: Body)
    requires Numbered(m)
    ensures Numbered(Effect(m, body).(nextNode := Max(m.nextNode, body.Node() + 1)))
  {
  }

  /** A legal record that found no block leaves everything consistent. */
  lemma AheadConsistent(g: Geometry, s: State, body: Body)
    requires Consistent(g, s) && Legal(s.mem.nodes, body)
    ensures Consistent(g, Ahead(s, body))
  {
    EffectSane(g, s, body, Max(s.mem.nextNode, body.Node() + 1));
    EffectFits(s.mem, body, g.payload);
    EffectNumbered(s.mem, body);
    LegalKeepsTree(s.mem.nodes, body);
  }

  lemma WriteNodes(s: State, b: nat, body: Body)
    ensures Write(s, b, body).mem.nodes == NodesEffect(s.mem.nodes, body)
  {
  }

  /** So does every block write. */
  lemma WroteConsistent(g: Geometry, s: State, body: Body, b: nat, t: State)
    requires Consistent(g, s) && Wrote(g, s, body, b, t)
    ensures Consistent(g, t)
  {
    hide Sane, Tree, Numbered, Legal, Picks, Reading.Fits, NodesEffect;
    WriteSane(g, s, b, body);
    WriteFits(s, b, body, g.payload);
    WriteNumbered(s, b, body);
    WriteNodes(s, b, body);
    LegalKeepsTree(s.mem.nodes, body);
  }

  lemma AheadBounded(g: Geometry, s: State, body: Body)
    requires Sane(g, s)
    ensures Bounded(Ahead(s, body).mem)
  {
  }

  lemma PutLands(g: Geometry, s: State, body: Body, b: nat)
    requires Picks(g, Ahead(s, body).mem, body.Node(), b)
    ensures Lands(g, s, body, Ok(()), Put(Ahead(s, body), b, body))
  {
    PicksByBlocks(g, Ahead(s, body).mem, Effect(s.mem, body), body.Node(), b);
    assert Put(Ahead(s, body), b, body) == Write(s, b, body);
  }

  lemma LandsBased(g: Geometry, s: State, body: Body, r: Result<()>, t: State)
    requires Based(g, s) && Lands(g, s, body, r, t) && WellSized(body, g.payload)
    ensures Based(g, t)
  {
    hide Sane, Numbered, Reading.Fits, Picks, SourceOf;
    if r.Err? {
      EffectSane(g, s, body, Max(s.mem.nextNode, body.Node() + 1));
      EffectFits(s.mem, body, g.payload);
      FitsByBlocks(Effect(s.mem, body), Ahead(s, body).mem, g.payload);
      EffectNumbered(s.mem, body);
    } else {
      var b :| Picks(g, Effect(s.mem, body), body.Node(), b) && t == Write(s, b, body);
      WriteSane(g, s, b, body);
      WriteFits(s, b, body, g.payload);
      WriteNumbered(s, b, body);
    }
  }

  lemma FitsByBlocks(m: Mem, n: Mem, payload: nat)
    requires Fits(m, payload) && m.blocks == n.blocks
    ensures Fits(n, payload)
  {
  }

  /** A legal record that lands is performed, and leaves everything consistent. */
  lemma LegalLands(g: Geometry, s: State, body: Body, r: Result<()>, t: State)
    requires Consistent(g, s) && Legal(s.mem.nodes, body) && WellSized(body, g.payload) && Lands(g, s, body, r, t)
    ensures Performs(g, s, body, r, t) && Consistent(g, t)
  {
    hide Consistent, Legal, Picks;
    if r.Err? {
      AheadConsistent(g, s, body);
    } else {
      var b :| Picks(g, Effect(s.mem, body), body.Node(), b) && t == Write(s, b, body);
      assert Wrote(g, s, body, b, t);
      WroteConsistent(g, s, body, b, t);
    }
  }

  // Creating

  /** The node a create makes: the path must be free, its parent a directory. */
  ghost function NewNode(m: Mem, path: Path, typ: NodeType, time: int, now: int): (r: Result<Node>)
    ensures r.Ok? ==> path != [] && r.value == Node(m.nextNode, r.value.parent, typ, now, now, 0, Final(path))
  {
    match Resolve(m.nodes, path, time)
    case Ok(_) => Err(EEXIST)
    case Err(e) =>
      if e != ENOENT then Err(e)
      else
        match Resolve(m.nodes, Init(path), time)
        case Err(e) => Err(e)
        case Ok(parent) =>
          if parent.typ != Dir then Err(EINVAL)
          else Ok(Node(m.nextNode, parent.node, typ, now, now, 0, Final(path)))
  }

  lemma {:induction false} PrefixFails(nodes: Nodes, path: Path, i: nat, time: int)
    requires i <= |path| && Resolve(nodes, path[..i], time).Err?
    ensures Resolve(nodes, path, time) == Resolve(nodes, path[..i], time)
  {
    if i == |path| {
      assert path[..i] == path;
    } else {
      assert path != [] && Init(path)[..i] == path[..i];
      PrefixFails(nodes, Init(path), i, time);
    }
  }

  /** What a search on the lookup index finds in a directory slot. */
  lemma SlotSearch(nodes: Nodes, key: Node, r: Option<Node>)
    requires Tree(nodes) && FirstMatch(nodes, NodeLookup, SlotFilter(key), r)
    ensures Child(nodes, key.parent, key.name) == if r.Some? then Ok(r.value) else Err(ENOENT)
  {
    forall k | k in nodes
      ensures SlotFilter(key)(nodes[k]) == 0 <==> InSlot(nodes, k, key.parent, key.name)
    {
      NodeLookupTie(key, nodes[k]);
    }
    if r.Some? {
      var k :| k in nodes && nodes[k] == r.value;
      ChildIs(nodes, k);
    }
  }

  lemma ResolvesToDirectory(nodes: Nodes, path: Path, time: int)
    requires Tree(nodes) && Resolve(nodes, path, time).Ok? && Resolve(nodes, path, time).value.typ == Dir
    ensures ParentOk(nodes, Resolve(nodes, path, time).value.node)
  {
    if path != [] {
      ResolvedIn(nodes, path, time);
    }
  }

  lemma NewNodeLegal(m: Mem, path: Path, typ: NodeType, time: int, now: int)
    requires Tree(m.nodes) && Numbered(m) && typ != LinkPayload && NewNode(m, path, typ, time, now).Ok?
    ensures Legal(m.nodes, Entry(NewNode(m, path, typ, time, now).value))
  {
    var n := NewNode(m, path, typ, time, now).value;
    ResolvesToDirectory(m.nodes, Init(path), time);
    assert KeyOf(n) !in m.nodes;
    assert SlotFree(m.nodes, n) by {
      forall k | k in m.nodes
        ensures !SameSlot(m.nodes[k], n)
      {
        if SameSlot(m.nodes[k], n) {
          ChildIs(m.nodes, k);
        }
      }
    }
  }

  // Links

  function PayloadOf(n: Node, to: string): Node {
    Node(n.node, n.node, LinkPayload, 0, 0, 0, to)
  }

  /** Both rows are in memory before the first block is asked for. */
  function LinkAhead(s: State, n: Node, p: Node): State {
    s.(mem := s.mem.(nodes := s.mem.nodes[KeyOf(n) := n][KeyOf(p) := p], nextNode := Max(s.mem.nextNode, n.node + 1)))
  }

  /** Both records are written, or none. */
  ghost predicate Links(g: Geometry, s: State, n: Node, p: Node, r: Result<()>, t: State) {
    match SourceOf(g, s.mem, n.node)
    case NoSpace => r == Err(ENOSPC) && t == LinkAhead(s, n, p)
    case _ => r == Ok(()) && Writes(g, s, [Entry(n), Entry(p)], t)
  }

  lemma PayloadLegal(nodes: Nodes, n: Node, to: string)
    requires Legal(nodes, Entry(n)) && n.typ == Link && |to| <= NAME_MAX
    ensures Legal(NodesEffect(nodes, Entry(n)), Entry(PayloadOf(n, to)))
  {
  }

  lemma LinkAheadIs(s: State, n: Node, p: Node)
    requires n.node == p.node
    ensures Ahead(Ahead(s, Entry(n)), Entry(p)) == LinkAhead(s, n, p)
  {
    assert Ahead(s, Entry(n)).mem.blocks == s.mem.blocks;
  }

  lemma LinkAheadConsistent(g: Geometry, s: State, n: Node, to: string)
    requires Consistent(g, s) && Legal(s.mem.nodes, Entry(n)) && n.typ == Link && |to| <= NAME_MAX
    ensures Consistent(g, LinkAhead(s, n, PayloadOf(n, to)))
  {
    hide Consistent, Legal;
    PayloadLegal(s.mem.nodes, n, to);
    LinkAheadIs(s, n, PayloadOf(n, to));
    AheadConsistent(g, s, Entry(n));
    AheadConsistent(g, Ahead(s, Entry(n)), Entry(PayloadOf(n, to)));
  }

  /** The second record of a link always finds a block: at worst the one its first record just got. */
  lemma SecondLinkBlock(g: Geometry, s: State, n: Node, b: nat)
    requires n.node > 0
    ensures !SourceOf(g, Put(s, b, Entry(n)).mem, n.node).NoSpace?
  {
    var m := Put(s, b, Entry(n)).mem;
    assert OpNodeFilter(NODE, n.node)(m.blocks[b]) == 0;
  }

  lemma TwoWrites(g: Geometry, s: State, first: Body, b: nat, u: State, second: Body, c: nat, t: State)
    requires Wrote(g, s, first, b, u) && Wrote(g, u, second, c, t)
    ensures Writes(g, s, [first, second], t)
  {
    assert Init([first]) == [] && Final([first]) == first;
    assert Writes(g, s, [], s);
    assert Writes(g, s, [first], u);
    assert Init([first, second]) == [first] && Final([first, second]) == second;
  }

  lemma LinkCommitted(g: Geometry, s: State, n: Node, p: Node, b: nat, c: nat)
    requires Legal(s.mem.nodes, Entry(n)) && Legal(NodesEffect(s.mem.nodes, Entry(n)), Entry(p))
    requires n.node == p.node && n.typ != p.typ
    requires Picks(g, LinkAhead(s, n, p).mem, n.node, b)
    requires Picks(g, Put(LinkAhead(s, n, p), b, Entry(n)).mem, n.node, c)
    ensures Writes(g, s, [Entry(n), Entry(p)], Put(Put(LinkAhead(s, n, p), b, Entry(n)), c, Entry(p)))
  {
    hide Legal, Picks, RowOf;
    var a := LinkAhead(s, n, p);
    var u := Write(s, b, Entry(n));
    var v := Put(a, b, Entry(n));
    PicksByBlocks(g, a.mem, Effect(s.mem, Entry(n)), n.node, b);
    PicksByBlocks(g, v.mem, Effect(u.mem, Entry(p)), n.node, c);
    assert u.mem.nodes == s.mem.nodes[KeyOf(n) := n];
    assert Write(u, c, Entry(p)) == Put(v, c, Entry(p));
    TwoWrites(g, s, Entry(n), b, u, Entry(p), c, Put(v, c, Entry(p)));
  }

  lemma PutBounded(s: State, b: nat, body: Body)
    requires Bounded(s.mem)
    ensures Bounded(Put(s, b, body).mem)
  {
  }

  /** An entry leaves the block rows as they are. */
  lemma EntryEffect(m: Mem, n: Node)
    ensures Effect(m, Entry(n)) == m.(nodes := m.nodes[KeyOf(n) := n])
  {
    assert Effect(m, Entry(n)).blocks == m.blocks;
  }

  lemma {:induction false} WritesConsistent(g: Geometry, s: State, bodies: seq<Body>, t: State)
    requires Consistent(g, s) && Writes(g, s, bodies, t)
    ensures Consistent(g, t)
  {
    hide Consistent, Wrote;
    if bodies != [] {
      var u, b :| Writes(g, s, Init(bodies), u) && Wrote(g, u, Final(bodies), b, t);
      WritesConsistent(g, s, Init(bodies), u);
      WroteConsistent(g, u, Final(bodies), b, t);
    }
  }

  // Times

  lemma TouchLegal(m: Mem, path: Path, time: int, access: int, modification: int)
    requires Tree(m.nodes) && Numbered(m) && path != [] && Resolve(m.nodes, path, time).Ok?
    ensures var n := Resolve(m.nodes, path, time).value.(access := access, modification := modification);
      n.node < m.nextNode && Legal(m.nodes, Entry(n))
  {
    ResolvedIn(m.nodes, path, time);
    var n := Resolve(m.nodes, path, time).value;
    assert KeyOf(n) in m.nodes && SameSlot(m.nodes[KeyOf(n)], n);
  }

  lemma EntryAhead(s: State, n: Node)
    requires Numbered(s.mem) && (n.node == 0 || n.node < s.mem.nextNode)
    ensures s.(mem := s.mem.(nodes := s.mem.nodes[KeyOf(n) := n])) == Ahead(s, Entry(n))
  {
    EntryEffect(s.mem, n);
  }

  // Data

  lemma DataEffect(m: Mem, body: Body)
    requires body.Data?
    ensures Effect(m, body) == m
  {
    assert Effect(m, body).blocks == m.blocks;
  }

  /** A proper prefix of the records was written. */
  ghost predicate WritesSome(g: Geometry, s: State, all: seq<Body>, t: State) {
    exists k: nat :: k < |all| && Writes(g, s, all[..k], t)
  }

  lemma WritesNothing(g: Geometry, s: State)
    ensures Writes(g, s, [], s)
  {
  }

  lemma WritesOneMore(g: Geometry, s: State, all: seq<Body>, k: nat, u: State, t: State)
    requires k < |all| && Writes(g, s, all[..k], u) && exists b :: Wrote(g, u, all[k], b, t)
    ensures Writes(g, s, all[..k + 1], t)
  {
    assert Init(all[..k + 1]) == all[..k] && Final(all[..k + 1]) == all[k];
  }

  /** The next record of a write is the next chunk of its data. */
  lemma NextChunk(all: seq<Body>, k: nat, node: nat, at: nat, data: seq<byte>, written: nat, payload: nat)
    requires payload > 0 && k <= |all| && written < |data| && IsChunks(all[k..], node, at, data[written..], payload)
    ensures var amount := Min(|data| - written, payload);
      && k < |all| && all[k] == Data(node, at, data[written..written + amount])
      && IsChunks(all[k + 1..], node, at + amount, data[written + amount..], payload)
  {
    var amount := Min(|data| - written, payload);
    assert all[k..][1..] == all[k + 1..];
    assert data[written..][..amount] == data[written..written + amount];
    assert data[written..][amount..] == data[written + amount..];
  }

  lemma AllChunks(all: seq<Body>, k: nat, node: nat, at: nat, rest: seq<byte>, payload: nat)
    requires payload > 0 && k <= |all| && rest == [] && IsChunks(all[k..], node, at, rest, payload)
    ensures all[..k] == all
  {
  }

  // Truncating

  lemma MutatedTwice(m: map<nat, Block>, f: Block -> int, mutate: Block -> Block, f': Block -> int,
                     mutate': Block -> Block, b: nat)
    requires b in m
    ensures Mutated(Mutated(m, f, mutate), f', mutate')[b] ==
      var row := if f(m[b]) == 0 then mutate(m[b]) else m[b];
      if f'(row) == 0 then mutate'(row) else row
  {
  }

  function TrimTo(size: nat): Block -> Block {
    (row: Block) => Trim(row, size)
  }

  /** One row, through both walks of a truncate. */
  lemma TrimmedRow(row: Block, node: nat, size: nat, payload: nat)
    requires row.op == DATA ==> row.fill <= payload
    ensures var trimmed := if TailFilter(node, size, payload)(row) == 0 then TrimTo(size)(row) else row;
      RowEffect(row, Truncate(node, size)) ==
        if OpNodeFilter(TRUNCATE, node)(trimmed) == 0 then Freed(trimmed) else trimmed
  {
    assert OpNodeFilter(DATA, node)(row) == 0 <==> row.op == DATA && row.node == node;
    if row.op == DATA && row.node == node && size > row.offset + payload {
      assert Trim(row, size) == row;
    }
  }

  /** Visiting only the rows that could reach past the new size has the effect of visiting them all. */
  lemma PruningMissesNothing(m: Mem, node: nat, size: nat, payload: nat)
    requires Fits(m, payload)
    ensures m.(blocks := Mutated(Mutated(m.blocks, TailFilter(node, size, payload), TrimTo(size)),
                                 OpNodeFilter(TRUNCATE, node), Freed)) == Effect(m, Truncate(node, size))
  {
    var result := Mutated(Mutated(m.blocks, TailFilter(node, size, payload), TrimTo(size)),
                          OpNodeFilter(TRUNCATE, node), Freed);
    forall b | b in m.blocks
      ensures result[b] == RowEffect(m.blocks[b], Truncate(node, size))
    {
      MutatedTwice(m.blocks, TailFilter(node, size, payload), TrimTo(size), OpNodeFilter(TRUNCATE, node), Freed, b);
      TrimmedRow(m.blocks[b], node, size, payload);
    }
    assert result == Effect(m, Truncate(node, size)).blocks;
  }

  lemma TruncateAhead(s: State, node: nat, size: nat)
    requires Numbered(s.mem) && NodeKey(node, File) in s.mem.nodes
    ensures s.(mem := Effect(s.mem, Truncate(node, size))) == Ahead(s, Truncate(node, size))
  {
  }

  /** What a search for a primary key finds. */
  lemma KeySearch(nodes: Nodes, key: Node, r: Option<Node>)
    requires forall k :: k in nodes ==> KeyOf(nodes[k]) == k
    requires FirstMatch(nodes, NodePrimary, NodeKeyFilter(key), r)
    ensures r == Get(nodes, KeyOf(key))
  {
    forall k | k in nodes
      ensures NodeKeyFilter(key)(nodes[k]) == 0 <==> k == KeyOf(key)
    {
    }
  }

  // Deleting

  /** Some row has this node for its parent. */
  ghost predicate Parental(nodes: Nodes, node: nat) {
    exists k :: k in nodes && nodes[k].parent == node
  }

  /** What a search for children finds. */
  lemma ChildSearch(nodes: Nodes, node: nat, r: Option<Node>)
    requires FirstMatch(nodes, NodeLookup, ChildFilter(node), r)
    ensures r.Some? <==> Parental(nodes, node)
  {
    forall k | k in nodes
      ensures ChildFilter(node)(nodes[k]) == 0 <==> nodes[k].parent == node
    {
    }
  }

  /** The rows below a node, each once, in the order of their names. */
  ghost predicate ListsChildren(nodes: Nodes, node: nat, entries: seq<Node>) {
    && (forall x :: x in entries <==> x in nodes.Values && x.parent == node)
    && forall i, j :: 0 <= i < j < |entries| ==> StrCmp(entries[i].name, entries[j].name) < 0
  }

  /** What the directory query lists. */
  lemma ChildrenListed(nodes: Nodes, node: nat, entries: seq<Node>)
    requires Tree(nodes) && Lists(nodes, ChildFilter(node), entries) && Sorted(NodeLookup, entries)
    ensures ListsChildren(nodes, node, entries)
  {
    forall x
      ensures x in entries <==> x in nodes.Values && x.parent == node
    {
      assert ChildFilter(node)(x) == 0 <==> x.parent == node;
    }
    forall i, j | 0 <= i < j < |entries|
      ensures StrCmp(entries[i].name, entries[j].name) < 0
    {
      assert entries[i] in entries && entries[j] in entries;
      StrCmpOrder(entries[i].name, entries[j].name, entries[j].name);
    }
  }

  /** The rows of the node with an operation from 1 up to but not including `op` are free. */
  ghost function FreedBelow(m: map<nat, Block>, node: nat, op: nat): map<nat, Block> {
    map b | b in m :: if 1 <= m[b].op < op && m[b].node == node then Freed(m[b]) else m[b]
  }

  lemma NothingFreed(m: map<nat, Block>, node: nat)
    ensures FreedBelow(m, node, 1) == m
  {
  }

  lemma FreeOneMore(m: map<nat, Block>, node: nat, op: nat)
    requires op >= 1
    ensures Mutated(FreedBelow(m, node, op), OpNodeFilter(op, node), Freed) == FreedBelow(m, node, op + 1)
  {
    var now := FreedBelow(m, node, op);
    forall b | b in m
      ensures OpNodeFilter(op, node)(now[b]) == 0 <==> m[b].op == op && m[b].node == node
    {
    }
  }

  /** Going through the operations one by one frees every block the node had. */
  lemma DeletedIsEffect(m: Mem, n: Node)
    requires forall k :: k in m.nodes ==> KeyOf(m.nodes[k]) == k
    ensures m.(nodes := Without(m.nodes, NodeFilter(n.node)), blocks := FreedBelow(m.blocks, n.node, LAST)) ==
      Effect(m, Delete(n))
  {
    assert FreedBelow(m.blocks, n.node, LAST) == Effect(m, Delete(n)).blocks;
    assert Without(m.nodes, NodeFilter(n.node)) == NodesEffect(m.nodes, Delete(n));
  }

  lemma DeleteLegal(s: State, path: Path, time: int)
    requires Tree(s.mem.nodes) && Numbered(s.mem) && Resolve(s.mem.nodes, path, time).Ok?
    ensures var n := Resolve(s.mem.nodes, path, time).value;
      && (n.typ != Dir || !Parental(s.mem.nodes, n.node) ==> Legal(s.mem.nodes, Delete(n)))
      && s.(mem := Effect(s.mem, Delete(n))) == Ahead(s, Delete(n))
  {
    var nodes, n := s.mem.nodes, Resolve(s.mem.nodes, path, time).value;
    if path != [] {
      ResolvedIn(nodes, path, time);
    }
    if n.typ == Dir && !Parental(nodes, n.node) {
      assert Legal(nodes, Delete(n));
    } else if n.typ != Dir {
      forall k | k in nodes && nodes[k].parent == n.node
        ensures k.node == n.node
      {
        ChildrenAreOfDirectories(nodes, k);
      }
    }
  }

  // Renaming

  /** A name is cut to the longest one there is. */
  function Clip(name: string): string {
    name[..Min(|name|, NAME_MAX)]
  }

  /** Where the last name of a path is looked up, and that name: for the root itself, the root and its slash. */
  function Dirname(path: Path): Path {
    if path == [] then [] else Init(path)
  }

  function Basename(path: Path): string {
    if path == [] then "/" else Final(path)
  }

  /** `moved` is the row a rename of `from` to `to` writes. */
  ghost predicate Targets(nodes: Nodes, from: Path, to: Path, time: int, moved: Node) {
    && Resolve(nodes, from, time).Ok?
    && Resolve(nodes, Dirname(to), time).Ok? && Resolve(nodes, Dirname(to), time).value.typ == Dir
    && moved ==
         Moved(Resolve(nodes, from, time).value, Resolve(nodes, Dirname(to), time).value.node, Clip(Basename(to)))
  }

  /** Renaming the root enters it as a row like any other: no check keeps it from becoming an entry of itself. */
  ghost predicate MovesRoot(g: Geometry, s: State, to: Path, time: int, r: Result<()>, t: State) {
    var nodes := s.mem.nodes;
    match Resolve(nodes, Dirname(to), time)
    case Err(e) => r == Err(e) && t == s
    case Ok(parent) =>
      if parent.typ != Dir then r == Err(EINVAL) && t == s
      else
        var moved := Moved(Root(time), parent.node, Clip(Basename(to)));
        match Child(nodes, parent.node, moved.name)
        case Err(_) => Lands(g, s, Move(moved), r, t)
        case Ok(old_) =>
          if old_.typ != File || |Basename(to)| > NAME_MAX || to == [] then r == Err(EINVAL) && t == s
          else ReplacesByRoot(g, s, old_, moved, r, t)
  }

  ghost predicate ReplacesByRoot(g: Geometry, s: State, old_: Node, moved: Node, r: Result<()>, t: State) {
    || (Performs(g, s, Delete(old_), Err(ENOSPC), t) && r == Err(ENOSPC))
    || exists u :: Performs(g, s, Delete(old_), Ok(()), u) && Lands(g, u, Move(moved), r, t)
  }

  /**
   * What a rename does: the checks in order, a delete of the file in the way, which the root cannot be, and the move.
   */
  ghost predicate Moves(g: Geometry, s: State, from: Path, to: Path, time: int, r: Result<()>, t: State) {
    var nodes := s.mem.nodes;
    match Resolve(nodes, from, time)
    case Err(e) => r == Err(e) && t == s
    case Ok(n) =>
      match Resolve(nodes, Dirname(to), time)
      case Err(e) => r == Err(e) && t == s
      case Ok(parent) =>
        if parent.typ != Dir then r == Err(EINVAL) && t == s
        else
          var moved := Moved(n, parent.node, Clip(Basename(to)));
          match Child(nodes, parent.node, moved.name)
          case Err(_) => Performs(g, s, Move(moved), r, t)
          case Ok(old_) =>
            if old_.typ != File || |Basename(to)| > NAME_MAX || to == [] then r == Err(EINVAL) && t == s
            else Replaces(g, s, old_, moved, r, t)
  }

  /** First the delete, and if that found a block, the move. */
  ghost predicate Replaces(g: Geometry, s: State, old_: Node, moved: Node, r: Result<()>, t: State) {
    || (Performs(g, s, Delete(old_), Err(ENOSPC), t) && r == Err(ENOSPC))
    || exists u :: Performs(g, s, Delete(old_), Ok(()), u) && Performs(g, u, Move(moved), r, t)
  }

  lemma ReplaceFails(g: Geometry, s: State, old_: Node, moved: Node, r: Result<()>, t: State)
    requires Performs(g, s, Delete(old_), r, t)
    ensures r.Err? ==> Replaces(g, s, old_, moved, r, t) && ReplacesByRoot(g, s, old_, moved, r, t)
  {
    hide Performs;
    PerformsOutcome(g, s, Delete(old_), r, t);
  }

  lemma ReplaceDone(g: Geometry, s: State, old_: Node, moved: Node, u: State, r: Result<()>, t: State)
    requires Performs(g, s, Delete(old_), Ok(()), u)
    ensures Performs(g, u, Move(moved), r, t) ==> Replaces(g, s, old_, moved, r, t)
    ensures Lands(g, u, Move(moved), r, t) ==> ReplacesByRoot(g, s, old_, moved, r, t)
  {
    hide Performs, Lands;
  }

  lemma TargetResolves(nodes: Nodes, to: Path, time: int)
    requires to != [] && Resolve(nodes, Init(to), time).Ok? && Resolve(nodes, Init(to), time).value.typ == Dir
    ensures Resolve(nodes, to, time) ==
      if |Final(to)| > NAME_MAX then Err(EINVAL)
      else Child(nodes, Resolve(nodes, Init(to), time).value.node, Clip(Final(to)))
  {
    assert |Final(to)| <= NAME_MAX ==> Clip(Final(to)) == Final(to);
  }

  lemma SlotTaken(nodes: Nodes, n: Node, r: Option<Node>)
    requires FirstMatch(nodes, NodeLookup, SlotFilter(n), r)
    ensures r.None? <==> SlotFree(nodes, n)
    ensures r.Some? ==> r.value in nodes.Values && SameSlot(r.value, n)
  {
    forall k | k in nodes
      ensures SlotFilter(n)(nodes[k]) == 0 <==> SameSlot(nodes[k], n)
    {
      NodeLookupTie(n, nodes[k]);
    }
  }

  lemma MoveEffect(m: Mem, n: Node)
    ensures Effect(m, Move(n)) == m.(nodes := m.nodes[KeyOf(n) := n])
  {
    assert Effect(m, Move(n)).blocks == m.blocks;
  }

  /** The target slot is clear: it was free, or the file in it has just been deleted. */
  ghost predicate Cleared(g: Geometry, s: State, parent: nat, name: string, u: State) {
    match Child(s.mem.nodes, parent, name)
    case Err(_) => u == s
    case Ok(old_) => old_.typ == File && exists b :: Wrote(g, s, Delete(old_), b, u)
  }

  lemma ClearedByDelete(g: Geometry, s: State, parent: nat, name: string, r: Result<()>, u: State)
    requires Child(s.mem.nodes, parent, name).Ok? && Child(s.mem.nodes, parent, name).value.typ == File
    requires Performs(g, s, Delete(Child(s.mem.nodes, parent, name).value), r, u) && r.Ok?
    ensures Cleared(g, s, parent, name, u)
  {
  }

  /** Some row in the slot of `n` decides the error. */
  ghost predicate SlotError(nodes: Nodes, n: Node, e: Errno) {
    exists k :: k in nodes && SameSlot(nodes[k], n) && e == if nodes[k].typ == File then EEXIST else EINVAL
  }

  lemma ClearedSlot(g: Geometry, s: State, parent: nat, name: string, u: State, k: NodeKey)
    requires Tree(s.mem.nodes) && Cleared(g, s, parent, name, u) && k in u.mem.nodes
    ensures !(u.mem.nodes[k].parent == parent && u.mem.nodes[k].name == name)
  {
    if k in s.mem.nodes && s.mem.nodes[k].parent == parent && s.mem.nodes[k].name == name {
      ChildIs(s.mem.nodes, k);
    }
  }

  /** The node that moves is still there, or it was the one just deleted; the target directory always is. */
  lemma ClearedKeeps(g: Geometry, s: State, parent: nat, name: string, u: State, k: NodeKey)
    requires Tree(s.mem.nodes) && Cleared(g, s, parent, name, u)
    requires k in s.mem.nodes && k.typ != LinkPayload
    ensures k in u.mem.nodes || Unused(u.mem.nodes, k.node)
    ensures k.typ == Dir ==> k in u.mem.nodes
    ensures u.mem.nextNode >= s.mem.nextNode
  {
  }

  lemma MoveLegal(g: Geometry, s: State, from: Path, to: Path, time: int, moved: Node, u: State)
    requires Tree(s.mem.nodes) && Numbered(s.mem) && from != []
    requires Targets(s.mem.nodes, from, to, time, moved) && Cleared(g, s, moved.parent, moved.name, u)
    ensures Legal(u.mem.nodes, Move(moved)) && moved.node < u.mem.nextNode
  {
    hide Tree, Cleared, Resolve;
    var nodes := s.mem.nodes;
    var n, parent := Resolve(nodes, from, time).value, Resolve(nodes, Dirname(to), time).value.node;
    ResolvedIn(nodes, from, time);
    ClearedKeeps(g, s, parent, moved.name, u, KeyOf(n));
    ResolvesToDirectory(nodes, Dirname(to), time);
    if parent != 0 {
      ClearedKeeps(g, s, parent, moved.name, u, NodeKey(parent, Dir));
    }
    forall k | k in u.mem.nodes
      ensures !SameSlot(u.mem.nodes[k], moved)
    {
      ClearedSlot(g, s, parent, moved.name, u, k);
    }
  }

  lemma ClearedCounter(g: Geometry, s: State, parent: nat, name: string, u: State)
    requires Cleared(g, s, parent, name, u)
    ensures u.mem.nextNode >= s.mem.nextNode
  {
  }

  /** The checks leave the slot free, and the move legal unless it is the root that moves. */
  lemma MoveFits(g: Geometry, s: State, from: Path, to: Path, time: int, moved: Node, u: State)
    requires Tree(s.mem.nodes) && Numbered(s.mem)
    requires Targets(s.mem.nodes, from, to, time, moved) && Cleared(g, s, moved.parent, moved.name, u)
    ensures SlotFree(u.mem.nodes, moved) && moved.node < u.mem.nextNode
    ensures from != [] ==> Legal(u.mem.nodes, Move(moved))
  {
    hide Tree, Cleared, Resolve;
    if from != [] {
      MoveLegal(g, s, from, to, time, moved, u);
    } else {
      RootResolves(s.mem.nodes, time);
      ClearedCounter(g, s, moved.parent, moved.name, u);
      forall k | k in u.mem.nodes
        ensures !SameSlot(u.mem.nodes[k], moved)
      {
        ClearedSlot(g, s, moved.parent, moved.name, u, k);
      }
    }
  }

  /** A directory with something in one of its slots has children. */
  lemma SlotMakesParental(nodes: Nodes, parent: nat, name: string)
    requires Tree(nodes) && Child(nodes, parent, name).Ok? && Child(nodes, parent, name).value.typ == File
    ensures Parental(nodes, parent)
  {
  }

  // Queries

  /** The rows a filter for one operation matches. */
  lemma MatchingIsWithOp(m: Mem, op: nat)
    ensures |Matching(m.blocks, OpFilter(op))| == Count(m, op)
  {
    assert Matching(m.blocks, OpFilter(op)) == WithOp(m, op);
  }

  /** The size the query reports for a file. */
  ghost predicate Sized(m: Mem, id: nat, size: nat) {
    exists last :: LastMatch(m.blocks, BlockLookup, OpNodeFilter(DATA, id), last) && size == SizeFrom(last)
  }

  // Reading

  /** The row of a data block agrees with what is on the disk. */
  ghost predicate Backed(disk: Disk, row: Block) {
    && row.op == DATA && row.block in disk && disk[row.block].body.Data?
    && disk[row.block].body.offset == row.offset && row.fill <= |disk[row.block].body.bytes|
  }

  /** The bytes a row has for its file. */
  function CoveredBy(disk: Disk, row: Block): nat -> Option<byte> {
    (p: nat) => if Covers(row, row.node, p) then Stored(disk, row.block, p) else None
  }

  /** The buffer has the given bytes of `[offset, offset + size)` at `at`; where there are none it is as before. */
  ghost predicate Painted(before: seq<byte>, now: seq<byte>, at: nat, size: nat, offset: nat,
                          bytes: nat -> Option<byte>) {
    && |now| == |before|
    && forall j :: 0 <= j < |before| ==>
         now[j] == if at <= j < at + size then Seen(bytes(offset + j - at), before[j]) else before[j]
  }

  function Seen(b: Option<byte>, before: byte): byte {
    match b
    case None => before
    case Some(x) => x
  }

  /** The bytes of a row, from the first one in the range to the last. */
  function Shared(disk: Disk, row: Block, size: nat, offset: nat): seq<byte>
    requires Backed(disk, row)
  {
    var start, end := Max(row.offset, offset), Min(row.offset + row.fill, offset + size);
    if end <= start then [] else disk[row.block].body.bytes[start - row.offset..end - row.offset]
  }

  /** `before` with `bytes` written over it from `to` on. */
  function Spliced(before: seq<byte>, to: nat, bytes: seq<byte>): seq<byte>
    requires to + |bytes| <= |before|
  {
    before[..to] + bytes + before[to + |bytes|..]
  }

  lemma SharedIsPainted(disk: Disk, row: Block, before: seq<byte>, at: nat, size: nat, offset: nat, to: nat)
    requires Backed(disk, row) && at + size <= |before| && Shared(disk, row, size, offset) != []
    requires to == at + Max(row.offset, offset) - offset
    ensures to + |Shared(disk, row, size, offset)| <= |before|
    ensures var now := Spliced(before, to, Shared(disk, row, size, offset));
      Painted(before, now, at, size, offset, CoveredBy(disk, row))
  {
    var bytes := Shared(disk, row, size, offset);
    var now := Spliced(before, to, bytes);
    forall j | 0 <= j < |before|
      ensures now[j] ==
        if at <= j < at + size then Seen(CoveredBy(disk, row)(offset + j - at), before[j]) else before[j]
    {
      if at <= j < at + size && Covers(row, row.node, offset + j - at) {
        assert now[j] == bytes[j - to];
      }
    }
  }

  lemma NothingShared(disk: Disk, row: Block, before: seq<byte>, at: nat, size: nat, offset: nat)
    requires Backed(disk, row) && Shared(disk, row, size, offset) == []
    ensures Painted(before, before, at, size, offset, CoveredBy(disk, row))
  {
  }

  /** What painting the rows in order shows. */
  function OverlayOf(disk: Disk, id: nat, rows: seq<Block>): nat -> Option<byte> {
    (p: nat) => Overlay(disk, id, rows, p)
  }

  ghost function FileBytes(s: State, id: nat): nat -> Option<byte> {
    (p: nat) => ByteAt(s, id, p)
  }

  /** Every row of the list is a data row of the file, with its bytes on the disk. */
  ghost predicate AllBacked(disk: Disk, id: nat, rows: seq<Block>) {
    forall i :: 0 <= i < |rows| ==> Backed(disk, rows[i]) && rows[i].node == id
  }

  lemma WindowIsBacked(g: Geometry, s: State, id: nat, size: nat, offset: nat, rows: seq<Block>)
    requires Sane(g, s) && Lists(s.mem.blocks, WindowFilter(id, size, offset, g.payload), rows)
    ensures AllBacked(s.disk, id, rows)
  {
    forall i | 0 <= i < |rows|
      ensures Backed(s.disk, rows[i]) && rows[i].node == id
    {
      assert rows[i] in rows;
      assert WindowFilter(id, size, offset, g.payload)(rows[i]) == 0;
      assert OpNodeFilter(DATA, id)(rows[i]) == 0;
      var b :| b in s.mem.blocks && s.mem.blocks[b] == rows[i];
      assert RowMatches(b, rows[i], s.disk[b]);
    }
  }

  /** Painting one more row continues the overlay. */
  lemma PaintOneMore(disk: Disk, id: nat, rows: seq<Block>, row: Block, before: seq<byte>, mid: seq<byte>,
                     now: seq<byte>, at: nat, size: nat, offset: nat)
    requires Backed(disk, row) && row.node == id && at + size <= |before|
    requires Painted(before, mid, at, size, offset, OverlayOf(disk, id, rows))
    requires Painted(mid, now, at, size, offset, CoveredBy(disk, row))
    ensures Painted(before, now, at, size, offset, OverlayOf(disk, id, rows + [row]))
  {
    assert Init(rows + [row]) == rows && Final(rows + [row]) == row;
    forall j | at <= j < at + size
      ensures now[j] == Seen(Overlay(disk, id, rows + [row], offset + j - at), before[j])
    {
      var p := offset + j - at;
      assert mid[j] == Seen(OverlayOf(disk, id, rows)(p), before[j]);
      assert now[j] == Seen(CoveredBy(disk, row)(p), mid[j]);
    }
  }

  /** The greatest reach in a list of rows. */
  function GreatestReach(id: nat, rows: seq<Block>, size: nat, offset: nat): nat {
    if rows == [] then 0 else Max(GreatestReach(id, Init(rows), size, offset), Reach(Final(rows), id, size, offset))
  }

  lemma {:induction false} GreatestReachIs(id: nat, rows: seq<Block>, size: nat, offset: nat)
    ensures forall row :: row in rows ==> Reach(row, id, size, offset) <= GreatestReach(id, rows, size, offset)
    ensures GreatestReach(id, rows, size, offset) == 0 ||
      exists row :: row in rows && Reach(row, id, size, offset) == GreatestReach(id, rows, size, offset)
  {
    if rows != [] {
      GreatestReachIs(id, Init(rows), size, offset);
      Snoc(rows);
    }
  }

  /** What lies outside the window adds nothing to the length. */
  lemma WindowReach(m: Mem, id: nat, size: nat, offset: nat, payload: nat, rows: seq<Block>)
    requires Fits(m, payload) && Lists(m.blocks, WindowFilter(id, size, offset, payload), rows)
    ensures ReachBound(m, id, size, offset, GreatestReach(id, rows, size, offset))
  {
    GreatestReachIs(id, rows, size, offset);
    forall b | b in m.blocks && Reach(m.blocks[b], id, size, offset) > 0
      ensures m.blocks[b] in rows
    {
      var p := Max(m.blocks[b].offset, offset);
      WindowMissesNothing(m.blocks[b], id, size, offset, payload, p);
    }
  }

  lemma PaintedIsFile(g: Geometry, s: State, id: nat, size: nat, offset: nat, rows: seq<Block>,
                      before: seq<byte>, now: seq<byte>, at: nat)
    requires Sane(g, s) && Fits(s.mem, g.payload) && at + size <= |before|
    requires Lists(s.mem.blocks, WindowFilter(id, size, offset, g.payload), rows) && Sorted(BySeqno, rows)
    requires Painted(before, now, at, size, offset, OverlayOf(s.disk, id, rows))
    ensures Painted(before, now, at, size, offset, FileBytes(s, id))
  {
    hide Sane, Fits, Lists, Sorted, Overlay, ByteAt;
    forall j | at <= j < at + size
      ensures now[j] == Seen(FileBytes(s, id)(offset + j - at), before[j])
    {
      OverlayIsFile(g, s, id, size, offset, rows, offset + j - at);
    }
  }

  lemma PaintedNothing(disk: Disk, id: nat, before: seq<byte>, at: nat, size: nat, offset: nat)
    ensures Painted(before, before, at, size, offset, OverlayOf(disk, id, []))
  {
  }

  /** The file has been read up to `total`; past it the buffer holds file bytes or what it held before. */
  ghost predicate ReadUpTo(before: seq<byte>, now: seq<byte>, offset: nat, total: nat, bytes: nat -> Option<byte>) {
    && |now| == |before|
    && (forall j :: 0 <= j < |before| && j < total ==> now[j] == Seen(bytes(offset + j), before[j]))
    && (forall j :: 0 <= j < |before| && j >= total ==>
          now[j] == before[j] || now[j] == Seen(bytes(offset + j), before[j]))
  }

  lemma ReadNothing(before: seq<byte>, offset: nat, bytes: nat -> Option<byte>)
    ensures ReadUpTo(before, before, offset, 0, bytes)
  {
  }

  lemma ReadOneMore(before: seq<byte>, mid: seq<byte>, now: seq<byte>, offset: nat, total: nat, limit: nat, len: nat,
                    bytes: nat -> Option<byte>)
    requires ReadUpTo(before, mid, offset, total, bytes)
    requires Painted(mid, now, total, limit, offset + total, bytes)
    requires len <= limit || total + limit >= |before|
    ensures ReadUpTo(before, now, offset, total + len, bytes)
  {
    forall j | 0 <= j < |before|
      ensures now[j] == before[j] || now[j] == Seen(bytes(offset + j), before[j])
      ensures j < total + len ==> now[j] == Seen(bytes(offset + j), before[j])
    {
      assert offset + total + j - total == offset + j;
    }
  }

  /** A chunk never reports more than a payload. */
  lemma ChunkAtMost(m: Mem, id: nat, size: nat, offset: nat, payload: nat, len: nat)
    requires Fits(m, payload) && ReachBound(m, id, size, offset, len)
    ensures len <= payload
  {
  }

  lemma ReadTotalStep(g: Geometry, m: Mem, id: nat, size: nat, offset: nat, total: nat, len: nat)
    requires total < size && ReachBound(m, id, Limit(g, size, total), offset + total, len)
    ensures ReadTotal(g, m, id, size, offset, total) ==
      if len == 0 then total else ReadTotal(g, m, id, size, offset, total + len)
  {
    hide ReachBound, Limit;
    ChunkLengthIs(m, id, Limit(g, size, total), offset + total, len);
  }

  // Loading

  function ByTag(a: Logged, b: Logged): int {
    Compare(a.rec.seqno, b.rec.seqno)
  }

  /** The blocks a load reads: those before the first one without a valid tag. */
  ghost function Readable(g: Geometry, disk: Disk): Disk {
    map b | b in disk && b <= g.last && (forall c :: g.first <= c < b ==> c in disk) && g.first <= b :: disk[b]
  }

  lemma ReadableIsAll(g: Geometry, s: State)
    requires Sane(g, s)
    ensures Readable(g, s.disk) == s.disk
  {
  }

  /** The records read from the first block up to but not including `end`. */
  ghost predicate TagsUpTo(disk: Disk, first: nat, end: nat, tags: seq<Logged>) {
    && first <= end && |tags| == end - first
    && forall i :: 0 <= i < |tags| ==>
         tags[i].block == first + i && tags[i].block in disk && tags[i].rec == disk[tags[i].block]
  }

  lemma NoTags(disk: Disk, first: nat)
    ensures TagsUpTo(disk, first, first, [])
  {
  }

  lemma TagsSnoc(disk: Disk, first: nat, end: nat, tags: seq<Logged>)
    requires TagsUpTo(disk, first, end, tags) && end in disk
    ensures TagsUpTo(disk, first, end + 1, tags + [Logged(end, disk[end])])
  {
  }

  /** Reading stopped at the first invalid tag or behind the last block. */
  ghost predicate AllTags(g: Geometry, disk: Disk, end: nat, tags: seq<Logged>) {
    TagsUpTo(disk, g.first, end, tags) && (if end <= g.last then end !in disk else end == Max(g.first, g.last + 1))
  }

  lemma ReadableIsRead(g: Geometry, disk: Disk, end: nat, tags: seq<Logged>, b: nat)
    requires AllTags(g, disk, end, tags)
    ensures b in Readable(g, disk) <==> g.first <= b < end
  {
    assert end < b && b in Readable(g, disk) ==> end in disk;
    forall c | g.first <= c < end
      ensures c in disk
    {
      assert tags[c - g.first].block == c;
    }
  }

  lemma TagsAreReadable(g: Geometry, disk: Disk, end: nat, tags: seq<Logged>)
    requires AllTags(g, disk, end, tags)
    ensures forall b :: b in Readable(g, disk) ==> b in disk && Logged(b, disk[b]) in tags
    ensures forall e :: e in tags ==> e.block in Readable(g, disk) && disk[e.block] == e.rec
    ensures NoDuplicates(tags)
  {
    ReadableKeeps(g, disk);
    forall b | b in Readable(g, disk)
      ensures b in disk && Logged(b, disk[b]) in tags
    {
      ReadableIsRead(g, disk, end, tags, b);
      assert tags[b - g.first] == Logged(b, disk[b]);
    }
    forall e | e in tags
      ensures e.block in Readable(g, disk) && disk[e.block] == e.rec
    {
      ReadableIsRead(g, disk, end, tags, e.block);
    }
  }

  lemma ReadableKeeps(g: Geometry, disk: Disk)
    ensures forall b :: b in Readable(g, disk) ==> b in disk && Readable(g, disk)[b] == disk[b]
  {
  }

  /** The tags, sorted by sequence number, are the log of what was read. */
  lemma SortedTagsAreLog(g: Geometry, disk: Disk, end: nat, tags: seq<Logged>, log: seq<Logged>)
    requires AllTags(g, disk, end, tags)
    requires OneSeqnoEach(Readable(g, disk)) && Sorted(ByTag, log) && multiset(log) == multiset(tags)
    ensures log == LogOf(Readable(g, disk))
  {
    TagsAreReadable(g, disk, end, tags);
    ReadableKeeps(g, disk);
    PermutationFacts(tags, log);
    forall i, j | 0 <= i < j < |log|
      ensures log[i].rec.seqno < log[j].rec.seqno
    {
      assert log[i] in log && log[j] in log;
      assert ByTag(log[i], log[j]) <= 0;
      assert log[i] != log[j];
    }
    LogUnique(Readable(g, disk), log);
  }

  /** `log` is the readable records in some order of their sequence numbers. */
  ghost predicate SortsTags(g: Geometry, disk: Disk, log: seq<Logged>) {
    Sorted(ByTag, log) && exists end, tags :: AllTags(g, disk, end, tags) && multiset(log) == multiset(tags)
  }

  /** The replay gets as far as a move to the slot of `row`, which is taken. */
  ghost predicate StopsAt(first: nat, log: seq<Logged>, i: nat, row: Node) {
    && i < |log| && log[i].rec.body.Move? && Replay(first, log[..i]).Some?
    && row in Replay(first, log[..i]).value.nodes.Values && SameSlot(row, log[i].rec.body.entry)
  }

  /** The kind of the row in the way decides the error of a load. */
  ghost predicate LoadError(first: nat, log: seq<Logged>, e: Errno) {
    exists i: nat, row :: StopsAt(first, log, i, row) && e == if row.typ == File then EEXIST else EINVAL
  }

  /** Loading succeeds exactly when the replay of such a log does, and gives its tables and counters. */
  ghost predicate Loads(g: Geometry, disk: Disk, r: Result<()>, t: State) {
    exists log :: SortsTags(g, disk, log) && LoadsLog(g, disk, log, r, t)
  }

  ghost predicate LoadsLog(g: Geometry, disk: Disk, log: seq<Logged>, r: Result<()>, t: State) {
    && (r.Ok? <==> Replay(g.first, log).Some?)
    && (r.Ok? ==> t == State(Replay(g.first, log).value, disk, if log == [] then 1 else log[|log| - 1].rec.seqno + 1))
    && (r.Err? ==> LoadError(g.first, log, r.errno))
  }

  lemma LoadsBy(g: Geometry, disk: Disk, log: seq<Logged>, r: Result<()>, t: State)
    requires SortsTags(g, disk, log) && t.disk == disk
    requires r.Ok? ==> Loaded(g.first, log, t.mem)
    requires r.Ok? ==> t.nextSeq == if log == [] then 1 else log[|log| - 1].rec.seqno + 1
    requires r.Err? ==> Replay(g.first, log).None? && LoadError(g.first, log, r.errno)
    ensures Loads(g, disk, r, t)
  {
    hide SortsTags, Replay, LoadError;
    assert LoadsLog(g, disk, log, r, t);
  }

  /** With one sequence number each there is only one such log, and loading is mounting the readable blocks. */
  lemma LoadIsMount(g: Geometry, disk: Disk, r: Result<()>, t: State)
    requires Loads(g, disk, r, t) && OneSeqnoEach(Readable(g, disk))
    ensures r.Ok? <==> Mount(g, Readable(g, disk)).Some?
    ensures r.Ok? ==> t == Mount(g, Readable(g, disk)).value.(disk := disk)
    ensures r.Err? ==> LoadError(g.first, LogOf(Readable(g, disk)), r.errno)
  {
    hide AllTags, Readable, OneSeqnoEach, LogOf, Replay, LoadError;
    var log :| SortsTags(g, disk, log) && LoadsLog(g, disk, log, r, t);
    var end, tags :| AllTags(g, disk, end, tags) && multiset(log) == multiset(tags);
    SortedTagsAreLog(g, disk, end, tags, log);
  }

  lemma ByTagSound()
    ensures TotalPreorder(ByTag)
  {
  }

  lemma ApplyFits(m: Mem, e: Logged, payload: nat)
    requires Fits(m, payload) && e.rec.body.Fill() <= payload
    ensures Fits(Apply(m, e), payload)
  {
    EffectFits(m, e.rec.body, payload);
  }

  ghost predicate Loaded(first: nat, log: seq<Logged>, m: Mem) {
    Replay(first, log) == Some(m)
  }

  lemma ReplayStep(first: nat, log: seq<Logged>, i: nat, m: Mem)
    requires i < |log| && Loaded(first, log[..i], m)
    ensures Conflict(m.nodes, log[i].rec.body) ==> Replay(first, log[..i + 1]).None?
    ensures !Conflict(m.nodes, log[i].rec.body) ==> Loaded(first, log[..i + 1], Apply(m, log[i]))
  {
    assert log[..i + 1][..i] == log[..i];
  }

  lemma StopsHere(first: nat, log: seq<Logged>, i: nat, m: Mem, e: Errno)
    requires i < |log| && Loaded(first, log[..i], m) && log[i].rec.body.Move?
    requires SlotError(m.nodes, log[i].rec.body.entry, e)
    ensures LoadError(first, log, e)
  {
    hide Replay;
    var k :| k in m.nodes && SameSlot(m.nodes[k], log[i].rec.body.entry) &&
             e == if m.nodes[k].typ == File then EEXIST else EINVAL;
    assert StopsAt(first, log, i, m.nodes[k]);
  }

  lemma {:induction false} ReplayFails(first: nat, log: seq<Logged>, i: nat)
    requires i <= |log| && Replay(first, log[..i]).None?
    ensures Replay(first, log).None?
  {
    if i == |log| {
      assert log[..i] == log;
    } else {
      assert log[..|log| - 1][..i] == log[..i];
      ReplayFails(first, log[..|log| - 1], i);
    }
  }

  lemma NothingLoaded(first: nat, log: seq<Logged>)
    ensures Loaded(first, log[..0], Empty(first))
  {
  }

  lemma EmptyFits(g: Geometry)
    ensures Fits(Empty(g.first), g.payload)
  {
  }

  lemma LogFits(g: Geometry, disk: Disk, end: nat, tags: seq<Logged>, log: seq<Logged>)
    requires AllTags(g, disk, end, tags) && multiset(log) == multiset(tags)
    requires forall b :: b in disk ==> disk[b].body.Fill() <= g.payload
    ensures forall i :: 0 <= i < |log| ==> log[i].rec.body.Fill() <= g.payload
  {
    PermutationFacts(tags, log);
    forall i | 0 <= i < |log|
      ensures log[i].rec.body.Fill() <= g.payload
    {
      assert log[i] in log;
    }
  }
}
