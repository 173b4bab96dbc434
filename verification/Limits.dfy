/** Where the guarantees end: runs and states that show why each restriction is there. */
module Limits {
  import opened Indexes
  import opened Records
  import opened Log
  import opened Lifetimes
  import opened Outcomes
  import opened Trees
  import opened Renames
  import opened Engine
  import opened FileData
  import opened Reading
  import opened FileShapes
  import opened FileSizes
  import opened Operations
  import opened Guarantees

  // Renaming a file to its own path

  lemma SelfTarget(nodes: Nodes, path: Path, time: int)
    requires Tree(nodes) && path != [] && Resolve(nodes, path, time).Ok?
    ensures var n := Resolve(nodes, path, time).value;
      && |Final(path)| <= NAME_MAX && Resolve(nodes, Init(path), time).Ok?
      && Resolve(nodes, Init(path), time).value.typ == Dir
      && Moved(n, Resolve(nodes, Init(path), time).value.node, Clip(Final(path))) == n
      && Child(nodes, Resolve(nodes, Init(path), time).value.node, Clip(Final(path))) == Ok(n)
  {
    ResolvedIn(nodes, path, time);
    TargetResolves(nodes, path, time);
    assert Clip(Final(path)) == Final(path);
  }

  /** The file is taken for one in its own way: it is deleted, comes back, and has lost every byte. */
  lemma SelfRenameEmpties(g: Geometry, s: State, path: Path, time: int, r: Result<()>, t: State)
    requires Consistent(g, s) && path != [] && Resolve(s.mem.nodes, path, time).Ok?
    requires Resolve(s.mem.nodes, path, time).value.typ == File
    requires Moves(g, s, path, path, time, r, t) && r.Ok?
    ensures var n := Resolve(s.mem.nodes, path, time).value;
      && Get(t.mem.nodes, KeyOf(n)) == Some(n)
      && forall p: nat :: ByteAt(t, n.node, p) == None
  {
    hide Sane, Tree, Numbered, Reading.Fits, Resolve, Child, Replaces, Writes;
    var n := Resolve(s.mem.nodes, path, time).value;
    SelfTarget(s.mem.nodes, path, time);
    ReplacesWrites(g, s, n, n, r, t);
    ReplaceWritten(g, s, n, n, r, t);
    forall p: nat
      ensures ByteAt(t, n.node, p) == None
    {
      WritesByte(g, s, [Delete(n), Move(n)], t, n.node, p);
      DeletedThenMoved(ByteAt(s, n.node, p), n, p);
    }
  }

  lemma DeletedThenMoved(old_: Option<byte>, n: Node, p: nat)
    ensures ByteLater(old_, [Delete(n), Move(n)], n.node, p) == None
  {
    assert [Delete(n), Move(n)][1..] == [Move(n)];
    assert ByteLater(None, [Move(n)], n.node, p) == ByteLater(None, [Move(n)][1..], n.node, p);
  }

  // A link on the last block

  const ONE_BLOCK := Geometry(1, 1, 10)
  const LINK := Node(1, 0, Link, 0, 0, 0, "l")
  const TARGET := Node(1, 1, LinkPayload, 0, 0, 0, "t")

  lemma OneRecord(b: nat, rec: Record)
    ensures LogOf(map[b := rec]) == [Logged(b, rec)]
  {
    LogUnique(map[b := rec], [Logged(b, rec)]);
  }

  function AfterEntry(): State {
    Write(Formatted(ONE_BLOCK), 1, Entry(LINK))
  }

  function AfterTarget(): State {
    Write(AfterEntry(), 1, Entry(TARGET))
  }

  lemma LinkOnOneBlock()
    ensures Links(ONE_BLOCK, Formatted(ONE_BLOCK), LINK, TARGET, Ok(()), AfterTarget())
  {
    hide Mount;
    var s, u := Formatted(ONE_BLOCK), AfterEntry();
    assert u.mem.blocks == map[1 := RowOf(1, Record(1, Entry(LINK)))];
    assert Wrote(ONE_BLOCK, s, Entry(LINK), 1, u);
    EntryEffect(u.mem, TARGET);
    assert OpNodeFilter(NODE, 1)(u.mem.blocks[1]) == 0;
    assert SourceOf(ONE_BLOCK, Effect(u.mem, Entry(TARGET)), 1).TakenOver?;
    assert FirstIn(Effect(u.mem, Entry(TARGET)), OpNodeFilter(NODE, 1), 1);
    assert KeyOf(LINK) in u.mem.nodes;
    assert Wrote(ONE_BLOCK, u, Entry(TARGET), 1, AfterTarget());
    TwoWrites(ONE_BLOCK, s, Entry(LINK), 1, u, Entry(TARGET), 1, AfterTarget());
  }

  lemma MountOfTarget()
    ensures Mount(ONE_BLOCK, AfterTarget().disk).Some?
    ensures KeyOf(LINK) !in Mount(ONE_BLOCK, AfterTarget().disk).value.mem.nodes
  {
    var rec := Record(2, Entry(TARGET));
    assert AfterTarget().disk == map[1 := rec];
    OneRecord(1, rec);
    assert Replay(1, [Logged(1, rec)]) == Some(Apply(Empty(1), Logged(1, rec)));
  }

  /** The second record of the link takes over the block of the first: the live link is gone after a mount. */
  lemma LinkTakesOverItself()
    ensures exists t, u ::
      && Links(ONE_BLOCK, Formatted(ONE_BLOCK), LINK, TARGET, Ok(()), t) && Mount(ONE_BLOCK, t.disk) == Some(u)
      && KeyOf(LINK) in t.mem.nodes && KeyOf(LINK) !in u.mem.nodes
  {
    hide Links, Mount;
    LinkOnOneBlock();
    MountOfTarget();
    var t := AfterTarget();
    assert KeyOf(LINK) in t.mem.nodes;
    assert Mount(ONE_BLOCK, t.disk) == Some(Mount(ONE_BLOCK, t.disk).value);
  }

  // Reported sizes

  /** A write inside the file moves the reported end to its own end, short of the true one. */
  lemma SizeUnderstated(data: seq<byte>, patch: seq<byte>)
    requires |data| == 10 && |patch| == 2
    ensures var g := Geometry(1, 2, 10);
      var history := [Data(1, 0, data), Data(1, 2, patch)];
      exists t :: Writes(g, Formatted(g), history, t) && Sized(t.mem, 1, 4) && Solid(FileData.File(1, history), 10)
  {
    hide LastMatch;
    var g := Geometry(1, 2, 10);
    var s := Formatted(g);
    var u := Write(s, 1, Data(1, 0, data));
    var t := Write(u, 2, Data(1, 2, patch));
    assert Wrote(g, s, Data(1, 0, data), 1, u);
    assert Effect(u.mem, Data(1, 2, patch)).nextBlock == 2;
    assert Wrote(g, u, Data(1, 2, patch), 2, t);
    TwoWrites(g, s, Data(1, 0, data), 1, u, Data(1, 2, patch), 2, t);
    LastPiece(t.mem);
    TwoPieces(data, patch);
  }

  lemma LastPiece(m: Mem)
    requires m.blocks == map[1 := Block(1, 1, DATA, 1, 10, 0), 2 := Block(2, 2, DATA, 1, 2, 2)]
    ensures Sized(m, 1, 4)
  {
    assert LastMatch(m.blocks, BlockLookup, OpNodeFilter(DATA, 1), Some(m.blocks[2]));
  }

  lemma TwoPieces(data: seq<byte>, patch: seq<byte>)
    requires |data| == 10 && |patch| == 2
    ensures Solid(FileData.File(1, [Data(1, 0, data), Data(1, 2, patch)]), 10)
  {
    var first := [Data(1, 0, data)];
    var both := [Data(1, 0, data), Data(1, 2, patch)];
    assert Init(both) == first && Init(first) == [];
    assert FileData.File(1, []) == map[];
    var f, h := FileData.File(1, first), FileData.File(1, both);
    forall p: nat
      ensures p in h <==> p < 10
    {
      FileStepAt(map[], 1, Data(1, 0, data), p);
      FileStepAt(f, 1, Data(1, 2, patch), p);
      assert p in h <==> Get(h, p).Some?;
      assert p in f <==> Get(f, p).Some?;
    }
  }

  /** Memory with one data row. */
  function OneRow(offset: nat, fill: nat): Mem {
    Mem(map[], map[1 := Block(1, 1, DATA, 1, fill, offset)], 2, 2)
  }

  /** That is the memory after one write. */
  lemma OneRowReached(data: seq<byte>, offset: nat) returns (t: State)
    requires 0 < |data| <= 10
    ensures Writes(ONE_BLOCK, Formatted(ONE_BLOCK), [Data(1, offset, data)], t) && t.mem == OneRow(offset, |data|)
  {
    var s, body := Formatted(ONE_BLOCK), Data(1, offset, data);
    t := Write(s, 1, body);
    assert Init([body]) == [] && Final([body]) == body;
    assert Writes(ONE_BLOCK, s, [], s);
    assert Wrote(ONE_BLOCK, s, body, 1, t);
    assert t.mem.blocks == OneRow(offset, |data|).blocks;
  }

  /** A read that starts inside a block reports the skipped front as well. */
  lemma ReadOverstated(data: seq<byte>)
    requires |data| == 10
    ensures exists t :: Writes(ONE_BLOCK, Formatted(ONE_BLOCK), [Data(1, 0, data)], t) &&
                        ReadTotal(ONE_BLOCK, t.mem, 1, 3, 5, 0) == 8
  {
    hide Writes;
    var t := OneRowReached(data, 0);
    var m := OneRow(0, 10);
    assert 1 in m.blocks && Reach(m.blocks[1], 1, 3, 5) == 8;
    ChunkLengthIs(m, 1, 3, 5, 8);
    ReadStep(ONE_BLOCK, m, 1, 3, 5, 0, 8);
  }

  /** A read stops at the first payload with no data in it, whatever follows. */
  lemma ReadStopsAtGap(data: seq<byte>)
    requires |data| == 5
    ensures exists t :: Writes(ONE_BLOCK, Formatted(ONE_BLOCK), [Data(1, 15, data)], t) &&
                        ReadTotal(ONE_BLOCK, t.mem, 1, 20, 0, 0) == 0 && ByteAt(t, 1, 15) == Some(data[0])
  {
    hide Writes, ByteAt;
    var t := OneRowReached(data, 15);
    var m := OneRow(15, 5);
    ChunkLengthIs(m, 1, 10, 0, 0);
    ReadStep(ONE_BLOCK, m, 1, 20, 0, 0, 0);
    FormattedSane(ONE_BLOCK);
    WritesByte(ONE_BLOCK, Formatted(ONE_BLOCK), [Data(1, 15, data)], t, 1, 15);
    assert [Data(1, 15, data)][1..] == [];
  }
}
