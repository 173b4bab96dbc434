/** What the operations of the volume promise together, over whole runs and across calls. */
module Guarantees {
  import opened Indexes
  import opened Records
  import opened Log
  import opened Lifetimes
  import opened Outcomes
  import opened Trees
  import opened Renames
  import opened Entries
  import opened Engine
  import opened Recovery
  import opened Space
  import opened FileData
  import opened Reading
  import opened FileShapes
  import opened FileSizes
  import opened Holes
  import opened Runs
  import opened FreshNames
  import opened Histories
  import opened RunFiles
  import opened Operations

  // Operations are runs

  lemma RunSnoc(g: Geometry, events: seq<Event>, states: seq<State>, event: Event, t: State)
    requires Run(g, events, states) && Happens(g, Final(states), event, t)
    ensures Run(g, events + [event], states + [t])
  {
    hide Happens;
    var events', states' := events + [event], states + [t];
    forall i | 0 <= i < |events'|
      ensures Happens(g, states'[i], events'[i], states'[i + 1])
    {
      assert i < |events| ==> events'[i] == events[i] && states'[i] == states[i] && states'[i + 1] == states[i + 1];
    }
  }

  /** Whatever records an operation wrote, the run goes on with exactly those. */
  lemma {:induction false} RecordsExtendRun(g: Geometry, events: seq<Event>, states: seq<State>, bodies: seq<Body>,
                                            t: State)
    returns (events': seq<Event>, states': seq<State>)
    requires Run(g, events, states) && Writes(g, Final(states), bodies, t)
    ensures Run(g, events', states') && states <= states' && Final(states') == t
    ensures History(events') == History(events) + bodies
  {
    hide Wrote;
    if bodies == [] {
      events', states' := events, states;
    } else {
      var u, b :| Writes(g, Final(states), Init(bodies), u) && Wrote(g, u, Final(bodies), b, t);
      events', states' := RecordsExtendRun(g, events, states, Init(bodies), u);
      RunSnoc(g, events', states', Recorded(b, Final(bodies)), t);
      events', states' := events' + [Recorded(b, Final(bodies))], states' + [t];
      assert Init(events') + [Final(events')] == events';
      Snoc(bodies);
    }
  }

  lemma PerformsWrites(g: Geometry, s: State, body: Body, r: Result<()>, t: State)
    requires Performs(g, s, body, r, t) && r.Ok?
    ensures Writes(g, s, [body], t)
  {
    hide Wrote;
    assert Init([body]) == [] && Final([body]) == body;
    assert Writes(g, s, [], s);
  }

  lemma ReplacesWrites(g: Geometry, s: State, old_: Node, moved: Node, r: Result<()>, t: State)
    requires Replaces(g, s, old_, moved, r, t) && r.Ok?
    ensures Writes(g, s, [Delete(old_), Move(moved)], t)
  {
    hide Performs, Writes;
    var u :| Performs(g, s, Delete(old_), Ok(()), u) && Performs(g, u, Move(moved), r, t);
    PerformsOutcome(g, s, Delete(old_), Ok(()), u);
    PerformsOutcome(g, u, Move(moved), r, t);
    var b :| Wrote(g, s, Delete(old_), b, u);
    var c :| Wrote(g, u, Move(moved), c, t);
    TwoWrites(g, s, Delete(old_), b, u, Move(moved), c, t);
  }

  // Every reachable state

  /** A mount of what can be recovered is consistent again, so every operation may be called on it. */
  lemma MountConsistent(g: Geometry, s: State, t: State)
    requires Consistent(g, s) && Recoverable(g, s) && Mount(g, s.disk) == Some(t)
    ensures Consistent(g, t)
  {
    MountRecovers(g, s, t);
    MountNumbered(g, s, t);
    EquivalentFits(t.mem, s.mem, g.payload);
  }

  /** In every reachable state the reported free blocks and the live ones are all the blocks there are. */
  lemma RunConservesSpace(g: Geometry, events: seq<Event>, states: seq<State>)
    requires Run(g, events, states) && g.first <= g.last + 1
    ensures forall k :: 0 <= k < |states| ==>
      FreeBlocks(g, states[k].mem) + |LiveBlocks(states[k].mem)| == TotalBlocks(g)
  {
    RunStaysSane(g, events, states);
    forall k | 0 <= k < |states|
      ensures FreeBlocks(g, states[k].mem) + |LiveBlocks(states[k].mem)| == TotalBlocks(g)
    {
      SpaceConserved(g, states[k]);
    }
  }

  /** What `Open` asks of a container holds of every disk a run leaves, and what it reads is the whole log. */
  lemma RunCanBeOpened(g: Geometry, events: seq<Event>, states: seq<State>, k: nat)
    requires Run(g, events, states) && k < |states|
    ensures OneSeqnoEach(Readable(g, states[k].disk)) && DiskFits(states[k].disk, g.payload)
    ensures Mount(g, Readable(g, states[k].disk)) == Mount(g, states[k].disk)
  {
    hide Mount;
    RunStaysSane(g, events, states);
    ReadableIsAll(g, states[k]);
  }

  // Space

  /**
   * A delete lacks space if and only if the status call reports nothing free and the node has no live block; otherwise
   * it returns exactly the node's live blocks.
   */
  lemma DeleteAnswer(g: Geometry, s: State, n: Node, r: Result<()>, t: State)
    requires Sane(g, s) && g.first <= g.last + 1 && Performs(g, s, Delete(n), r, t)
    ensures r == Err(ENOSPC) <==> FreeBlocks(g, s.mem) == 0 && LiveOf(s.mem, n.node) == {}
    ensures r.Ok? ==> FreeBlocks(g, t.mem) == FreeBlocks(g, s.mem) + |LiveOf(s.mem, n.node)|
  {
    hide Sane, Wrote, FreeBlocks, LiveOf;
    DeleteFitsExact(g, s, n);
    if r.Ok? {
      var b :| Wrote(g, s, Delete(n), b, t);
      DeleteAccounting(g, s, n, b, t);
    }
  }

  /** A node in the table has a live block. */
  lemma BackedIsLive(m: Mem, n: Node)
    requires AllOwned(m) && KeyOf(n) in m.nodes
    ensures LiveOf(m, n.node) != {}
  {
    var b :| Owned(m, b, KeyOf(n).node);
    assert b in LiveOf(m, n.node);
  }

  lemma DeleteAccounting(g: Geometry, s: State, n: Node, b: nat, t: State)
    requires Sane(g, s) && g.first <= g.last + 1 && Wrote(g, s, Delete(n), b, t)
    ensures FreeBlocks(g, t.mem) == FreeBlocks(g, s.mem) + |LiveOf(s.mem, n.node)|
  {
    hide Sane, FreeBlocks, SourceOf;
    DeleteFreesItsBlocks(g, s, b, n);
  }

  /**
   * Deleting on a full disk: after any run, with any takeovers and remounts, a delete of a node in the table finds a
   * block for its record, and returns exactly the node's live blocks.
   */
  lemma DeleteFitsInRun(g: Geometry, events: seq<Event>, states: seq<State>, n: Node, answer: Result<()>, t: State)
    requires Run(g, events, states) && g.first <= g.last + 1
    requires KeyOf(n) in Final(states).mem.nodes && Performs(g, Final(states), Delete(n), answer, t)
    ensures answer.Ok? && FreeBlocks(g, t.mem) == FreeBlocks(g, Final(states).mem) + |LiveOf(Final(states).mem, n.node)|
  {
    hide Performs, FreeBlocks, LiveOf, Sane, AllOwned, Happens;
    FinalIsSane(g, events, states);
    RunOwns(g, events, states);
    BackedIsLive(Final(states).mem, n);
    DeleteAnswer(g, Final(states), n, answer, t);
    PerformsOutcome(g, Final(states), Delete(n), answer, t);
  }

  /** The allocator stays clear of live blocks if and only if the status call would report a free block. */
  lemma FreeDecidesSource(g: Geometry, s: State, body: Body)
    requires Sane(g, s) && g.first <= g.last + 1
    ensures FreeBlocks(g, Effect(s.mem, body)) > 0 <==>
      SourceFor(g, s, body).Fresh? || SourceFor(g, s, body).Reused? || SourceFor(g, s, body).Reclaimed?
    ensures FreeBlocks(g, Effect(s.mem, body)) >= FreeBlocks(g, s.mem)
  {
    hide SourceOf, FreeBlocks, Sane;
    EffectSane(g, s, body, s.mem.nextNode);
    var e := s.(mem := Effect(s.mem, body));
    assert e.mem.(nextNode := s.mem.nextNode) == e.mem;
    FreeMeansSource(g, e, body.Node());
    EffectFrees(g, s, body);
  }

  lemma EffectFrees(g: Geometry, s: State, body: Body)
    requires Sane(g, s)
    ensures FreeBlocks(g, Effect(s.mem, body)) >= FreeBlocks(g, s.mem)
  {
    hide Sane;
    var m, e := s.mem, Effect(s.mem, body);
    forall b | b in WithOp(m, FREE) + WithOp(m, DELETE)
      ensures b in WithOp(e, FREE) + WithOp(e, DELETE)
    {
    }
    SubsetCount(WithOp(m, FREE) + WithOp(m, DELETE), WithOp(e, FREE) + WithOp(e, DELETE));
    assert |WithOp(m, FREE) + WithOp(m, DELETE)| == Count(m, FREE) + Count(m, DELETE);
    assert |WithOp(e, FREE) + WithOp(e, DELETE)| == Count(e, FREE) + Count(e, DELETE);
  }

  /**
   * No node record is taken over in a run if and only if each write still had a free block, as the status call
   * counts.
   */
  lemma FreeRunTakesNothingOver(g: Geometry, events: seq<Event>, states: seq<State>)
    requires Run(g, events, states) && g.first <= g.last + 1
    ensures WithoutTakeover(g, events, states) <==>
      forall i :: 0 <= i < |events| && events[i].Recorded? ==> FreeBlocks(g, Effect(states[i].mem, events[i].body)) > 0
    ensures (forall i :: 0 <= i < |events| && events[i].Recorded? ==> FreeBlocks(g, states[i].mem) > 0) ==>
      WithoutTakeover(g, events, states)
  {
    hide FreeBlocks, Sane, SourceOf, Effect;
    RunStaysSane(g, events, states);
    forall i | 0 <= i < |events| && events[i].Recorded?
      ensures SourceFor(g, states[i], events[i].body).TakenOver? <==>
        FreeBlocks(g, Effect(states[i].mem, events[i].body)) <= 0
      ensures FreeBlocks(g, Effect(states[i].mem, events[i].body)) >= FreeBlocks(g, states[i].mem)
    {
      assert Happens(g, states[i], events[i], states[i + 1]);
      FreeDecidesSource(g, states[i], events[i].body);
    }
  }

  // Files

  /** What was written is what a read of the same range returns in the buffer, and the read gets through it. */
  lemma ReadYourWrite(g: Geometry, s: State, all: seq<Body>, id: nat, offset: nat, data: seq<byte>, t: State,
                      before: seq<byte>, now: seq<byte>, total: nat)
    requires g.payload > 0 && Consistent(g, s) && IsChunks(all, id, offset, data, g.payload) && Writes(g, s, all, t)
    requires |before| == |data| && total == ReadTotal(g, t.mem, id, |data|, offset, 0)
    requires ReadUpTo(before, now, offset, total, FileBytes(t, id))
    ensures now == data && |data| <= total < |data| + g.payload
  {
    hide Sane, Writes, ReadTotal, IsChunks;
    ReadAfterWrite(g, s, all, id, offset, data, t);
    forall j | 0 <= j < |data|
      ensures now[j] == data[j]
    {
      assert now[j] == Seen(FileBytes(t, id)(offset + j), before[j]);
      assert ByteAt(t, id, offset + j) == Some(data[offset + j - offset]);
    }
  }

  /** The buffer holds the bytes the file has in the range, and where it has none what was there before. */
  ghost predicate HoldsFile(file: map<nat, byte>, offset: nat, before: seq<byte>, now: seq<byte>) {
    && |now| == |before|
    && forall j :: 0 <= j < |before| ==> now[j] == if offset + j in file then file[offset + j] else before[j]
  }

  /** Any file without a hole in the range, from any position and with blocks anywhere, is read back to the byte. */
  lemma FileReadBack(g: Geometry, s: State, id: nat, file: map<nat, byte>, offset: nat,
                     before: seq<byte>, now: seq<byte>, total: nat)
    requires Sane(g, s) && Shows(s, id, file) && HoleFree(file, g.payload, offset, offset + |before|)
    requires total == ReadTotal(g, s.mem, id, |before|, offset, 0)
    requires ReadUpTo(before, now, offset, total, FileBytes(s, id))
    ensures HoldsFile(file, offset, before, now)
  {
    hide Sane, ReadTotal, HoleFree, NoHole, HasByte, ByteAt;
    HolesAreShown(g, s, id, file, offset, offset + |before|);
    forall j | 0 <= j < |before|
      ensures now[j] == if offset + j in file then file[offset + j] else before[j]
    {
      assert FileBytes(s, id)(offset + j) == Get(file, offset + j);
      HasByteIsShown(g, s, id, file, offset + j);
      if offset + j in file {
        ReadsOn(g, s.mem, id, |before|, offset, 0, offset + j);
      }
    }
  }

  /**
   * A solid file is read back to the byte, and the length reported is never short and less than one payload too great;
   * with blocks on the payload grid, read from the grid, it is exact.
   */
  lemma SolidReadBack(g: Geometry, s: State, id: nat, file: map<nat, byte>, end: nat, offset: nat,
                      before: seq<byte>, now: seq<byte>, total: nat)
    requires g.payload > 0 && Sane(g, s) && Reading.Fits(s.mem, g.payload) && Shows(s, id, file) && Solid(file, end)
    requires total == ReadTotal(g, s.mem, id, |before|, offset, 0)
    requires ReadUpTo(before, now, offset, total, FileBytes(s, id))
    ensures HoldsFile(file, offset, before, now)
    ensures Wanted(end, |before|, offset) <= total < Wanted(end, |before|, offset) + g.payload
    ensures Aligned(s.mem, id, g.payload) && offset % g.payload == 0 ==> total == Wanted(end, |before|, offset)
  {
    hide Sane, ReadTotal, Shows, Solid, HoleFree, Aligned, ReadUpTo, HoldsFile;
    SolidHasNoHole(file, end, g.payload, offset, offset + |before|);
    FileReadBack(g, s, id, file, offset, before, now, total);
    SolidTotal(g, s, id, file, end, |before|, offset);
    if Aligned(s.mem, id, g.payload) && offset % g.payload == 0 {
      SolidRead(g, s, id, file, end, |before|, offset);
    }
  }

  // What a caller can rely on by its own conduct

  /**
   * Whatever is taken over: a caller that never truncates a file to more than before finds its files as it left them.
   */
  lemma ShrinkingFilesSurvive(g: Geometry, events: seq<Event>, states: seq<State>, id: nat)
    requires Run(g, events, states) && OnlyShrinks(History(events))
    ensures Shows(Final(states), id, FileData.File(id, History(events)))
  {
    hide Run, KeepingCuts, OnlyShrinks, Shows;
    ShrinkingKeepsCuts(g, events, states);
    RunLengths(g, events, states);
    assert events[..|events|] == events && states[..|states|] == states;
    FilesSurvive(g, events, states, id, |events|);
  }

  lemma RunLengths(g: Geometry, events: seq<Event>, states: seq<State>)
    requires Run(g, events, states)
    ensures |states| == |events| + 1
  {
  }

  /**
   * A caller that sees a free block before each write, never truncates a file to more than before, and renames only to
   * names that nobody had: at every point of its run the container can be mounted, and the mount recovers everything.
   */
  lemma CarefulCallerRecovers(g: Geometry, events: seq<Event>, states: seq<State>)
    requires Run(g, events, states) && g.first <= g.last + 1
    requires forall i :: 0 <= i < |events| && events[i].Recorded? ==> FreeBlocks(g, states[i].mem) > 0
    requires OnlyShrinks(History(events)) && FreshSlots(History(events))
    ensures forall k :: 0 <= k < |states| ==>
      Mountable(g, states[k]) && Recovers(g, states[k]) && Tree(states[k].mem.nodes)
  {
    hide FreeBlocks, Happens, OnlyShrinks, FreshSlots, Mountable, Recovers, Tree, WithoutTakeover;
    FreeRunTakesNothingOver(g, events, states);
    FreshAndShrinkingRecovers(g, events, states);
  }

  /** Every write of the history to the file starts on the payload grid. */
  predicate GridHistory(history: seq<Body>, id: nat, payload: nat)
    requires payload > 0
  {
    forall i :: 0 <= i < |history| ==> OnGrid(history[i], id, payload)
  }

  /** Rows repeat records, and records are in the history: so the blocks of the file are on the grid. */
  lemma GridRunIsAligned(g: Geometry, events: seq<Event>, states: seq<State>, id: nat)
    requires g.payload > 0 && Run(g, events, states) && GridHistory(History(events), id, g.payload)
    ensures Aligned(Final(states).mem, id, g.payload)
  {
    hide Dense, Stamped, OnGrid;
    var s, history := Final(states), History(events);
    RunStaysSane(g, events, states);
    RunIsDated(g, events, states);
    forall b | b in s.mem.blocks && s.mem.blocks[b].op == DATA
      ensures b in s.disk && OfHistory(history, s.disk[b]) && RowMatches(b, s.mem.blocks[b], s.disk[b])
    {
      RowsAreRecords(g, s, b);
    }
    forall b | b in s.mem.blocks && s.mem.blocks[b].op == DATA && s.mem.blocks[b].node == id
      ensures s.mem.blocks[b].offset % g.payload == 0
    {
      GridRow(history, s.disk[b], id, g.payload);
    }
  }

  lemma RowsAreRecords(g: Geometry, s: State, b: nat)
    requires Sane(g, s) && b in s.mem.blocks
    ensures b in s.disk && RowMatches(b, s.mem.blocks[b], s.disk[b])
  {
  }

  lemma GridRow(history: seq<Body>, rec: Record, id: nat, payload: nat)
    requires payload > 0 && GridHistory(history, id, payload) && OfHistory(history, rec)
    requires rec.body.Data? && rec.body.id == id
    ensures rec.body.offset % payload == 0
  {
    assert OnGrid(history[rec.seqno - 1], id, payload);
  }

  lemma RunFits(g: Geometry, events: seq<Event>, states: seq<State>)
    requires Run(g, events, states)
    ensures Reading.Fits(Final(states).mem, g.payload)
  {
    var s := Final(states);
    RunStaysSane(g, events, states);
    forall b | b in s.mem.blocks && s.mem.blocks[b].op == DATA
      ensures s.mem.blocks[b].fill <= g.payload
    {
      RowsAreRecords(g, s, b);
    }
  }

  /**
   * After any run in which no overwritten truncate was missed, a file is read back to the byte wherever it has no
   * hole.
   */
  lemma RunReadBack(g: Geometry, events: seq<Event>, states: seq<State>, id: nat, r: nat, offset: nat,
                    before: seq<byte>, now: seq<byte>, total: nat)
    requires Run(g, events, states) && KeepingUntil(events, states, r)
    requires HoleFree(FileData.File(id, History(events)), g.payload, offset, offset + |before|)
    requires total == ReadTotal(g, Final(states).mem, id, |before|, offset, 0)
    requires ReadUpTo(before, now, offset, total, FileBytes(Final(states), id))
    ensures HoldsFile(FileData.File(id, History(events)), offset, before, now)
  {
    hide Sane, Run, KeepingUntil, HoleFree, Shows, ReadTotal, ReadUpTo, HoldsFile;
    FinalIsSane(g, events, states);
    FilesSurvive(g, events, states, id, r);
    FileReadBack(g, Final(states), id, FileData.File(id, History(events)), offset, before, now, total);
  }

  /** And for a solid file the length is right to within a payload, or exactly when everything is on the grid. */
  lemma RunSolidTotal(g: Geometry, events: seq<Event>, states: seq<State>, id: nat, r: nat, end: nat, size: nat,
                      offset: nat)
    requires g.payload > 0 && Run(g, events, states) && KeepingUntil(events, states, r)
    requires Solid(FileData.File(id, History(events)), end)
    ensures var total := ReadTotal(g, Final(states).mem, id, size, offset, 0);
      && Wanted(end, size, offset) <= total < Wanted(end, size, offset) + g.payload
      && (GridHistory(History(events), id, g.payload) && offset % g.payload == 0 ==> total == Wanted(end, size, offset))
  {
    hide Sane, Run, KeepingUntil, GridHistory, Shows, ReadTotal, Aligned, Reading.Fits, Solid;
    FinalIsSane(g, events, states);
    RunFits(g, events, states);
    FilesSurvive(g, events, states, id, r);
    SolidTotal(g, Final(states), id, FileData.File(id, History(events)), end, size, offset);
    if GridHistory(History(events), id, g.payload) && offset % g.payload == 0 {
      GridRunIsAligned(g, events, states, id);
      SolidRead(g, Final(states), id, FileData.File(id, History(events)), end, size, offset);
    }
  }

  lemma NoDataIsAligned(g: Geometry, s: State, id: nat)
    requires g.payload > 0 && Sane(g, s) && Shows(s, id, map[])
    ensures Aligned(s.mem, id, g.payload)
  {
    assert Solid(map[], 0);
    SolidIsGapFree(g, s, id, map[], 0);
  }

  lemma {:induction false} WritesKeepAligned(g: Geometry, s: State, bodies: seq<Body>, t: State, id: nat)
    requires g.payload > 0 && Aligned(s.mem, id, g.payload) && Writes(g, s, bodies, t)
    requires forall i :: 0 <= i < |bodies| ==> OnGrid(bodies[i], id, g.payload)
    ensures Aligned(t.mem, id, g.payload)
  {
    hide Aligned, OnGrid, Picks, Legal;
    if bodies != [] {
      var u, b :| Writes(g, s, Init(bodies), u) && Wrote(g, u, Final(bodies), b, t);
      WritesKeepAligned(g, s, Init(bodies), u, id);
      AlignedKept(u, b, Final(bodies), id, g.payload);
    }
  }

  /** The first `n` positions hold the first `n` bytes. */
  ghost function Prefix(data: seq<byte>, n: nat): map<nat, byte>
    requires n <= |data|
  {
    map p | p in Between(0, n) && p < |data| :: data[p]
  }

  /** The bytes of an empty file after one write from the start and a truncate. */
  lemma WrittenAndCut(g: Geometry, s: State, id: nat, data: seq<byte>, all: seq<Body>, t: State, n: nat, b: nat,
                      u: State)
    requires g.payload > 0 && Consistent(g, s) && Shows(s, id, map[])
    requires IsChunks(all, id, 0, data, g.payload) && Writes(g, s, all, t)
    requires n <= |data| && Wrote(g, t, Truncate(id, n), b, u)
    ensures Shows(u, id, Prefix(data, n))
  {
    hide Sane, Picks, IsChunks, Writes, ReadTotal, Legal, ByteAt;
    WritesSane(g, s, all, t);
    WriteSane(g, t, b, Truncate(id, n));
    PickedHoldsNoData(g, t, b, Truncate(id, n));
    ReadAfterWrite(g, s, all, id, 0, data, t);
    forall p: nat
      ensures ByteAt(u, id, p) == Get(Prefix(data, n), p)
    {
      assert ByteAt(s, id, p) == Get(map[], p);
      WriteByte(g, t, b, Truncate(id, n), id, p);
    }
  }

  /** A file written in one go from the start and then cut to `n` reads back as exactly its first `n` bytes. */
  lemma ExactEnd(g: Geometry, s: State, id: nat, data: seq<byte>, all: seq<Body>, t: State, n: nat, b: nat, u: State,
                 before: seq<byte>, now: seq<byte>, total: nat)
    requires g.payload > 0 && Consistent(g, s) && Shows(s, id, map[])
    requires IsChunks(all, id, 0, data, g.payload) && Writes(g, s, all, t)
    requires n <= |data| && Wrote(g, t, Truncate(id, n), b, u)
    requires |before| >= n && total == ReadTotal(g, u.mem, id, |before|, 0, 0)
    requires ReadUpTo(before, now, 0, total, FileBytes(u, id))
    ensures total == n && now == data[..n] + before[n..]
  {
    hide Writes, ReadTotal, IsChunks, Sane, Tree, Numbered, Reading.Fits, ReadUpTo, Aligned, Shows, Prefix, OnGrid;
    hide Legal, Picks;
    WritesConsistent(g, s, all, t);
    WroteConsistent(g, t, Truncate(id, n), b, u);
    WrittenAndCut(g, s, id, data, all, t, n, b, u);
    NoDataIsAligned(g, s, id);
    ChunksOnGrid(all, id, 0, data, g.payload);
    WritesKeepAligned(g, s, all, t, id);
    AlignedKept(t, b, Truncate(id, n), id, g.payload);
    PrefixSolid(data, n);
    SolidReadBack(g, u, id, Prefix(data, n), n, 0, before, now, total);
    ReadKeepsLength(before, now, 0, total, FileBytes(u, id));
    assert now == data[..n] + before[n..];
  }

  lemma ReadKeepsLength(before: seq<byte>, now: seq<byte>, offset: nat, total: nat, bytes: nat -> Option<byte>)
    requires ReadUpTo(before, now, offset, total, bytes)
    ensures |now| == |before|
  {
  }

  lemma PrefixSolid(data: seq<byte>, n: nat)
    requires n <= |data|
    ensures Solid(Prefix(data, n), n) && forall p :: 0 <= p < n ==> Prefix(data, n)[p] == data[p]
  {
  }

  /** For a file that was only appended to and truncated, the size query reports exactly its end, after any such run. */
  lemma SizeReported(g: Geometry, events: seq<Event>, states: seq<State>, id: nat, r: nat, size: nat)
    requires Run(g, events, states) && KeepingUntil(events, states, r) && OnlyAppends(id, events)
    requires Sized(Final(states).mem, id, size)
    ensures size == FileEnd(id, History(events)) && Solid(FileData.File(id, History(events)), size)
  {
    hide Run, KeepingUntil, OnlyAppends, LastMatch, Sane;
    AppendedFilesStaySolid(g, events, states, id, r);
    FinalIsSane(g, events, states);
    var last :|
      LastMatch(Final(states).mem.blocks, BlockLookup, OpNodeFilter(DATA, id), last) && size == SizeFrom(last);
    SizeIsExact(g, Final(states), id, FileData.File(id, History(events)), FileEnd(id, History(events)), last);
  }

  /** The file has its last byte just before `end`. */
  ghost predicate EndsAt(file: map<nat, byte>, end: nat) {
    (forall p :: p in file ==> p < end) && (end > 0 ==> end - 1 in file)
  }

  /** Some block of the file reaches past position `p`. */
  ghost predicate ReachedBy(m: Mem, id: nat, p: nat) {
    exists b :: IsData(m, id, b) && p < EndOf(m.blocks[b])
  }

  /** A file has a byte just before the end of each of its blocks. */
  lemma EndIsByte(g: Geometry, s: State, id: nat, file: map<nat, byte>, b: nat)
    requires Sane(g, s) && Shows(s, id, file) && IsData(s.mem, id, b)
    ensures EndOf(s.mem.blocks[b]) > 0 && EndOf(s.mem.blocks[b]) - 1 in file
  {
    assert RowMatches(b, s.mem.blocks[b], s.disk[b]);
    assert Covers(s.mem.blocks[b], id, EndOf(s.mem.blocks[b]) - 1);
    HasByteIsShown(g, s, id, file, EndOf(s.mem.blocks[b]) - 1);
  }

  /** A file has no byte that is not in a block. */
  lemma ByteIsReached(g: Geometry, s: State, id: nat, file: map<nat, byte>, p: nat)
    requires Sane(g, s) && Shows(s, id, file) && p in file
    ensures ReachedBy(s.mem, id, p)
  {
    HasByteIsShown(g, s, id, file, p);
    var b :| b in s.mem.blocks && Covers(s.mem.blocks[b], id, p);
    assert IsData(s.mem, id, b);
  }

  lemma LastIsData(m: Mem, id: nat, last: Option<Block>) returns (c: nat)
    requires LastMatch(m.blocks, BlockLookup, OpNodeFilter(DATA, id), last)
    ensures last.None? ==> forall b :: !IsData(m, id, b)
    ensures last.Some? ==> IsData(m, id, c) && m.blocks[c] == last.value
  {
    forall b | b in m.blocks
      ensures OpNodeFilter(DATA, id)(m.blocks[b]) == 0 <==> IsData(m, id, b)
    {
    }
    c := 0;
    if last.Some? {
      c :| c in m.blocks && m.blocks[c] == last.value;
    }
  }

  lemma EndsByReaches(m: Mem, id: nat, size: nat, p: nat)
    requires EndsBy(m, id, size) && ReachedBy(m, id, p)
    ensures p < size
  {
  }

  /**
   * The size query is right if and only if no block of the file reaches past the one that is last in the lookup
   * order.
   */
  lemma SizeExact(g: Geometry, s: State, id: nat, file: map<nat, byte>, size: nat)
    requires Sane(g, s) && Shows(s, id, file) && Sized(s.mem, id, size)
    ensures EndsAt(file, size) <==> EndsBy(s.mem, id, size)
  {
    hide Sane, Shows, LastMatch, ReachedBy;
    var last :| LastMatch(s.mem.blocks, BlockLookup, OpNodeFilter(DATA, id), last) && size == SizeFrom(last);
    var c := LastIsData(s.mem, id, last);
    if EndsBy(s.mem, id, size) {
      forall p | p in file
        ensures p < size
      {
        ByteIsReached(g, s, id, file, p);
        EndsByReaches(s.mem, id, size, p);
      }
      if last.Some? {
        EndIsByte(g, s, id, file, c);
      }
    }
    if EndsAt(file, size) {
      forall b | IsData(s.mem, id, b)
        ensures EndOf(s.mem.blocks[b]) <= size
      {
        EndIsByte(g, s, id, file, b);
      }
    }
  }

  lemma FinalIsSane(g: Geometry, events: seq<Event>, states: seq<State>)
    requires Run(g, events, states)
    ensures states != [] && Sane(g, Final(states))
  {
    RunStaysSane(g, events, states);
  }

  // Paths

  /** A create that succeeds puts the new node at its path, moves no other answer, and leaves every entry reachable. */
  lemma CreateFound(g: Geometry, s: State, path: Path, typ: NodeType, time: int, now: int, r: Result<()>, t: State,
                    p: Path)
    requires Consistent(g, s) && typ != LinkPayload && NewNode(s.mem, path, typ, time, now).Ok?
    requires Performs(g, s, Entry(NewNode(s.mem, path, typ, time, now).value), r, t) && r.Ok?
    ensures var n := NewNode(s.mem, path, typ, time, now).value;
      && Resolve(t.mem.nodes, path, time) == Ok(n)
      && (!(path <= p) ==> Resolve(t.mem.nodes, p, time) == Resolve(s.mem.nodes, p, time))
      && (AllReachable(s.mem.nodes, time) ==> AllReachable(t.mem.nodes, time))
  {
    hide Sane, Tree, Wrote, AllReachable, Resolve;
    var n := NewNode(s.mem, path, typ, time, now).value;
    NewNodeCreatable(g, s, path, typ, time, now);
    PerformsOutcome(g, s, Entry(n), r, t);
    var b :| Wrote(g, s, Entry(n), b, t);
    EntryWritten(g, s, n, b, t);
    CreatedPaths(s.mem.nodes, path, time, n, path);
    CreatedPaths(s.mem.nodes, path, time, n, p);
    if AllReachable(s.mem.nodes, time) {
      CreateKeepsReachable(s.mem.nodes, path, time, n);
    }
  }

  lemma EntryWritten(g: Geometry, s: State, n: Node, b: nat, t: State)
    requires Wrote(g, s, Entry(n), b, t)
    ensures t.mem.nodes == s.mem.nodes[KeyOf(n) := n]
  {
  }

  lemma NewNodeCreatable(g: Geometry, s: State, path: Path, typ: NodeType, time: int, now: int)
    requires Consistent(g, s) && typ != LinkPayload && NewNode(s.mem, path, typ, time, now).Ok?
    ensures Creatable(s.mem.nodes, path, time, NewNode(s.mem, path, typ, time, now).value)
  {
    hide Sane;
    var n := NewNode(s.mem, path, typ, time, now).value;
    assert Unused(s.mem.nodes, n.node);
  }

  /** A delete that succeeds empties its path, moves no other answer, and leaves every other entry reachable. */
  lemma DeleteGone(g: Geometry, s: State, path: Path, time: int, r: Result<()>, t: State, p: Path)
    requires Consistent(g, s) && path != [] && Resolve(s.mem.nodes, path, time).Ok?
    requires Performs(g, s, Delete(Resolve(s.mem.nodes, path, time).value), r, t) && r.Ok?
    ensures Resolve(t.mem.nodes, path, time) == Err(ENOENT)
    ensures !(path <= p) ==> Resolve(t.mem.nodes, p, time) == Resolve(s.mem.nodes, p, time)
    ensures AllReachable(s.mem.nodes, time) ==> AllReachable(t.mem.nodes, time)
  {
    hide Sane, Tree, AllReachable, Resolve, Picks, Legal, Numbered, Reading.Fits;
    var n := Resolve(s.mem.nodes, path, time).value;
    PerformsOutcome(g, s, Delete(n), r, t);
    var b :| Wrote(g, s, Delete(n), b, t);
    assert Deletable(s.mem.nodes, path, time);
    DeletedPaths(s.mem.nodes, path, time, path);
    DeletedPaths(s.mem.nodes, path, time, p);
    if AllReachable(s.mem.nodes, time) {
      DeleteKeepsReachable(s.mem.nodes, path, time);
    }
  }

  /** A rename that succeeds leaves exactly the renamed nodes. */
  lemma RenameDone(g: Geometry, s: State, from: Path, to: Path, time: int, r: Result<()>, t: State)
    requires Renamable(s.mem.nodes, from, to, time) && Moves(g, s, from, to, time, r, t) && r.Ok?
    ensures t.mem.nodes == Renamed(s.mem.nodes, Resolve(s.mem.nodes, from, time).value, to, time)
  {
    hide Tree, Resolve, Performs;
    var nodes := s.mem.nodes;
    var n, parent := Resolve(nodes, from, time).value, Resolve(nodes, Init(to), time).value;
    assert Clip(Final(to)) == Final(to);
    var moved := Moved(n, parent.node, Final(to));
    TargetResolves(nodes, to, time);
    match Child(nodes, parent.node, moved.name)
    case Err(_) =>
      MoveWritten(g, s, moved, r, t);
    case Ok(old_) =>
      ReplaceWritten(g, s, old_, moved, r, t);
  }

  lemma MoveWritten(g: Geometry, s: State, moved: Node, r: Result<()>, t: State)
    requires Performs(g, s, Move(moved), r, t) && r.Ok?
    ensures t.mem.nodes == NodesEffect(s.mem.nodes, Move(moved))
  {
  }

  lemma ReplaceWritten(g: Geometry, s: State, old_: Node, moved: Node, r: Result<()>, t: State)
    requires Replaces(g, s, old_, moved, r, t) && r.Ok?
    ensures t.mem.nodes == NodesEffect(NodesEffect(s.mem.nodes, Delete(old_)), Move(moved))
  {
    hide Performs;
    var u :| Performs(g, s, Delete(old_), Ok(()), u) && Performs(g, u, Move(moved), r, t);
    PerformsOutcome(g, s, Delete(old_), Ok(()), u);
    MoveWritten(g, u, moved, r, t);
  }

  /**
   * A rename to a place outside the source takes the whole subtree along, leaves the paths not through either end
   * alone, and keeps every entry reachable.
   */
  lemma RenameMovesSubtree(g: Geometry, s: State, from: Path, to: Path, time: int, r: Result<()>, t: State,
                           suffix: Path, p: Path)
    requires CanRename(s.mem.nodes, from, to, time) && Moves(g, s, from, to, time, r, t) && r.Ok?
    ensures suffix != [] ==> Resolve(t.mem.nodes, to + suffix, time) == Resolve(s.mem.nodes, from + suffix, time)
    ensures Resolve(t.mem.nodes, to, time).Ok?
    ensures Resolve(t.mem.nodes, to, time).value.node == Resolve(s.mem.nodes, from, time).value.node
    ensures Resolve(t.mem.nodes, from, time) == Err(ENOENT)
    ensures !(from <= p) && !(to <= p) ==> Resolve(t.mem.nodes, p, time) == Resolve(s.mem.nodes, p, time)
    ensures AllReachable(s.mem.nodes, time) ==> AllReachable(t.mem.nodes, time)
  {
    hide Tree, Resolve, Moves, AllReachable, Renamed;
    RenameDone(g, s, from, to, time, r, t);
    SubtreeMoves(s.mem.nodes, from, to, time, suffix);
    DestinationAfter(s.mem.nodes, from, to, time);
    SourceAfter(s.mem.nodes, from, to, time);
    if !(from <= p) && !(to <= p) {
      OtherPathsStay(s.mem.nodes, from, to, time, p);
    }
    if AllReachable(s.mem.nodes, time) {
      RenameKeepsReachable(s.mem.nodes, from, to, time);
    }
  }
}
