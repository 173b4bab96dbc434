/** The reported size across a write or a truncate: what a caller can tell beforehand. */
module WriteSizes {
  import opened Indexes
  import opened Records
  import opened Log
  import opened Lifetimes
  import opened Engine
  import opened FileData
  import opened FileShapes
  import opened FileSizes
  import opened Holes
  import opened Operations
  import opened Guarantees

  // What a write does to the blocks of its file

  /** The blocks of the file before are all still there, and the others hold the records written. */
  ghost predicate OnlyAdds(m: Mem, t: Mem, id: nat, bodies: seq<Body>) {
    && (forall b :: IsData(m, id, b) ==> IsData(t, id, b) && t.blocks[b] == m.blocks[b])
    && (forall b :: IsData(t, id, b) ==> (IsData(m, id, b) && t.blocks[b] == m.blocks[b]) || HoldsOne(t, bodies, b))
  }

  ghost predicate HoldsOne(t: Mem, bodies: seq<Body>, b: nat) {
    exists i :: 0 <= i < |bodies| && HasRow(t, bodies[i], b)
  }

  lemma AddStep(g: Geometry, u: State, body: Body, b: nat, t: State, id: nat, c: nat)
    requires Sane(g, u) && Wrote(g, u, body, b, t) && body.Data?
    ensures IsData(u.mem, id, c) ==> IsData(t.mem, id, c) && t.mem.blocks[c] == u.mem.blocks[c]
    ensures IsData(t.mem, id, c) ==>
      (IsData(u.mem, id, c) && t.mem.blocks[c] == u.mem.blocks[c]) || HasRow(t.mem, body, c)
  {
    PickedHoldsNoData(g, u, b, body);
  }

  lemma {:induction false} WritesOnlyAdd(g: Geometry, s: State, bodies: seq<Body>, t: State, id: nat)
    requires Sane(g, s) && Writes(g, s, bodies, t) && forall i :: 0 <= i < |bodies| ==> bodies[i].Data?
    ensures OnlyAdds(s.mem, t.mem, id, bodies)
  {
    hide Sane, Wrote, HasRow;
    if bodies != [] {
      var u, b :| Writes(g, s, Init(bodies), u) && Wrote(g, u, Final(bodies), b, t);
      WritesSane(g, s, Init(bodies), u);
      WritesOnlyAdd(g, s, Init(bodies), u, id);
      forall c
        ensures IsData(s.mem, id, c) ==> IsData(t.mem, id, c) && t.mem.blocks[c] == s.mem.blocks[c]
        ensures IsData(t.mem, id, c) ==>
          (IsData(s.mem, id, c) && t.mem.blocks[c] == s.mem.blocks[c]) || HoldsOne(t.mem, bodies, c)
      {
        AddStep(g, u, Final(bodies), b, t, id, c);
        if HoldsOne(u.mem, Init(bodies), c) {
          var i :| 0 <= i < |Init(bodies)| && HasRow(u.mem, Init(bodies)[i], c);
          DataRowStep(g, u, Final(bodies), b, t, bodies[i], c);
        }
        assert HasRow(t.mem, Final(bodies), c) ==> HasRow(t.mem, bodies[|bodies| - 1], c);
      }
    }
  }

  /** Where the last chunk of a write of `n` bytes at `offset` starts. */
  function LastChunk(offset: nat, n: nat, payload: nat): nat
    requires payload > 0
    decreases n
  {
    if n <= payload then offset else LastChunk(offset + payload, n - payload, payload)
  }

  /** No chunk starts behind the last one, and none ends behind the end of the write, where the last one does. */
  lemma {:induction false} ChunkBounds(bodies: seq<Body>, id: nat, offset: nat, data: seq<byte>, payload: nat)
    requires payload > 0 && data != [] && IsChunks(bodies, id, offset, data, payload)
    ensures bodies != [] && Final(bodies).Offset() == LastChunk(offset, |data|, payload)
    ensures Final(bodies).Offset() + Final(bodies).Fill() == offset + |data|
    ensures forall i :: 0 <= i < |bodies| ==> bodies[i].Offset() <= LastChunk(offset, |data|, payload)
    ensures forall i :: 0 <= i < |bodies| ==> bodies[i].Offset() + bodies[i].Fill() <= offset + |data|
    ensures offset <= LastChunk(offset, |data|, payload) < offset + |data|
    decreases |data|
  {
    if |data| <= payload {
      assert data[|data|..] == [];
    } else {
      ChunkBounds(bodies[1..], id, offset + payload, data[payload..], payload);
      assert Final(bodies) == Final(bodies[1..]);
      assert forall i :: 1 <= i < |bodies| ==> bodies[i] == bodies[1..][i - 1];
    }
  }

  // The block that is last in the lookup order

  /** Not after it in the lookup order, block numbers aside. */
  predicate NotAfter(a: Block, b: Block) {
    a.offset < b.offset || (a.offset == b.offset && a.fill <= b.fill)
  }

  lemma LastIsGreatest(m: Mem, id: nat, last: Option<Block>, b: nat)
    requires LastMatch(m.blocks, BlockLookup, OpNodeFilter(DATA, id), last) && IsData(m, id, b)
    ensures last.Some? && NotAfter(m.blocks[b], last.value)
  {
    assert OpNodeFilter(DATA, id)(m.blocks[b]) == 0;
    assert last.Some? && BlockLookup(m.blocks[b], last.value) <= 0;
    var c := LastIsData(m, id, last);
  }

  /**
   * A caller that knows where the last block lies: the size stays right when the last chunk starts where that block
   * does, when it starts behind it and the write reaches its end, and when it starts before it and the write stays
   * within.
   */
  predicate KeepsSize(last: Option<Block>, start: nat, end: nat) {
    last.None? || start == last.value.offset ||
    (if start > last.value.offset then end >= EndOf(last.value) else end <= EndOf(last.value))
  }

  /** A row with the last chunk of the write, seen against the last block before and the one after. */
  lemma LastAfterWrite(m: Mem, t: Mem, id: nat, bodies: seq<Body>, start: nat, end: nat, f: nat,
                       last: Option<Block>, last': Option<Block>)
    requires OnlyAdds(m, t, id, bodies) && EndsBy(m, id, SizeFrom(last))
    requires forall i :: 0 <= i < |bodies| ==>
      bodies[i].Offset() <= start && bodies[i].Offset() + bodies[i].Fill() <= end
    requires IsData(t, id, f) && t.blocks[f].offset == start && EndOf(t.blocks[f]) == end
    requires LastMatch(m.blocks, BlockLookup, OpNodeFilter(DATA, id), last)
    requires LastMatch(t.blocks, BlockLookup, OpNodeFilter(DATA, id), last')
    ensures EndsBy(t, id, SizeFrom(last')) <==> KeepsSize(last, start, end)
  {
    hide LastMatch;
    LastIsGreatest(t, id, last', f);
    var c := LastIsData(m, id, last);
    var c' := LastIsData(t, id, last');
    if last.Some? {
      LastIsGreatest(t, id, last', c);
    }
    forall b | IsData(t, id, b)
      ensures EndOf(t.blocks[b]) <= (if last.Some? then Max(EndOf(last.value), end) else end)
      ensures || (last.Some? && NotAfter(t.blocks[b], last.value))
              || (t.blocks[b].offset <= start && EndOf(t.blocks[b]) <= end)
    {
      if IsData(m, id, b) && t.blocks[b] == m.blocks[b] {
        LastIsGreatest(m, id, last, b);
      } else {
        assert HoldsOne(t, bodies, b);
      }
    }
    assert EndsBy(t, id, SizeFrom(last')) ==> EndOf(t.blocks[f]) <= EndOf(last'.value);
    assert last.Some? && EndsBy(t, id, SizeFrom(last')) ==> EndOf(last.value) <= EndOf(last'.value);
  }

  lemma LastChunkHeld(g: Geometry, s: State, all: seq<Body>, id: nat, offset: nat, data: seq<byte>, t: State)
    returns (f: nat)
    requires g.payload > 0 && data != [] && Sane(g, s)
    requires IsChunks(all, id, offset, data, g.payload) && Writes(g, s, all, t)
    ensures IsData(t.mem, id, f) && t.mem.blocks[f].offset == LastChunk(offset, |data|, g.payload)
    ensures EndOf(t.mem.blocks[f]) == offset + |data|
  {
    hide Sane, Writes, IsChunks;
    ChunkBounds(all, id, offset, data, g.payload);
    ChunksAreData(all, id, offset, data, g.payload);
    DataRowsStay(g, s, all, t, |all| - 1);
    f :| HasRow(t.mem, all[|all| - 1], f);
  }

  /** After a write call the size query is right, if it was before, if and only if the call keeps it so. */
  lemma WriteSizeExact(g: Geometry, s: State, id: nat, file: map<nat, byte>, last: Option<Block>,
                       all: seq<Body>, offset: nat, data: seq<byte>, t: State, file': map<nat, byte>, size: nat)
    requires g.payload > 0 && Sane(g, s) && Shows(s, id, file) && EndsAt(file, SizeFrom(last))
    requires LastMatch(s.mem.blocks, BlockLookup, OpNodeFilter(DATA, id), last)
    requires data != [] && IsChunks(all, id, offset, data, g.payload) && Writes(g, s, all, t)
    requires Shows(t, id, file') && Sized(t.mem, id, size)
    ensures EndsAt(file', size) <==> KeepsSize(last, LastChunk(offset, |data|, g.payload), offset + |data|)
  {
    hide Sane, Shows, Writes, IsChunks, LastMatch, EndsAt, EndsBy, OnlyAdds;
    WritesSane(g, s, all, t);
    SizeExact(g, s, id, file, SizeFrom(last));
    SizeExact(g, t, id, file', size);
    ChunkBounds(all, id, offset, data, g.payload);
    ChunksAreData(all, id, offset, data, g.payload);
    WritesOnlyAdd(g, s, all, t, id);
    var f := LastChunkHeld(g, s, all, id, offset, data, t);
    var last' :| LastMatch(t.mem.blocks, BlockLookup, OpNodeFilter(DATA, id), last') && size == SizeFrom(last');
    LastAfterWrite(s.mem, t.mem, id, all, LastChunk(offset, |data|, g.payload), offset + |data|, f, last, last');
  }

  // Truncates

  lemma CutRow(m: Mem, id: nat, size: nat, b: nat)
    requires b in m.blocks
    ensures var e := Effect(m, Truncate(id, size));
      && (IsData(e, id, b) <==> IsData(m, id, b) && m.blocks[b].offset < size)
      && (IsData(e, id, b) ==>
            e.blocks[b].offset == m.blocks[b].offset && EndOf(e.blocks[b]) == Min(EndOf(m.blocks[b]), size))
  {
  }

  /** The blocks of the file after a truncate: those that start below the cut, ending there at the latest. */
  ghost predicate CutTo(m: Mem, t: Mem, id: nat, cut: nat) {
    && (forall b :: IsData(t, id, b) <==> IsData(m, id, b) && m.blocks[b].offset < cut)
    && forall b :: IsData(t, id, b) ==>
         t.blocks[b].offset == m.blocks[b].offset && EndOf(t.blocks[b]) == Min(EndOf(m.blocks[b]), cut)
  }

  lemma CutRows(g: Geometry, s: State, id: nat, cut: nat, b: nat)
    requires Sane(g, s) && Picks(g, Effect(s.mem, Truncate(id, cut)), id, b)
    ensures CutTo(s.mem, Write(s, b, Truncate(id, cut)).mem, id, cut)
  {
    hide Sane, Picks, SourceOf, Effect;
    var t := Write(s, b, Truncate(id, cut)).mem;
    forall c
      ensures IsData(t, id, c) <==> IsData(s.mem, id, c) && s.mem.blocks[c].offset < cut
      ensures IsData(t, id, c) ==>
        t.blocks[c].offset == s.mem.blocks[c].offset && EndOf(t.blocks[c]) == Min(EndOf(s.mem.blocks[c]), cut)
    {
      CutBlock(g, s, id, cut, b, c);
    }
  }

  lemma CutBlock(g: Geometry, s: State, id: nat, cut: nat, b: nat, c: nat)
    requires Sane(g, s) && Picks(g, Effect(s.mem, Truncate(id, cut)), id, b)
    ensures var t := Write(s, b, Truncate(id, cut)).mem;
      && (IsData(t, id, c) <==> IsData(s.mem, id, c) && s.mem.blocks[c].offset < cut)
      && (IsData(t, id, c) ==>
            t.blocks[c].offset == s.mem.blocks[c].offset && EndOf(t.blocks[c]) == Min(EndOf(s.mem.blocks[c]), cut))
  {
    PickedHoldsNoData(g, s, b, Truncate(id, cut));
    if c in s.mem.blocks {
      CutRow(s.mem, id, cut, c);
    }
  }

  /** The last block, in the lookup order, of those that start below the cut. */
  ghost predicate LastBelow(m: Mem, id: nat, cut: nat, last: Option<Block>) {
    match last
    case None => forall b :: IsData(m, id, b) ==> m.blocks[b].offset >= cut
    case Some(x) =>
      && x.offset < cut && (exists c :: IsData(m, id, c) && m.blocks[c] == x)
      && forall b :: IsData(m, id, b) && m.blocks[b].offset < cut ==> NotAfter(m.blocks[b], x)
  }

  /** Of the blocks that start below the cut none reaches, up to the cut, past the last one. */
  ghost predicate LastReaches(m: Mem, id: nat, cut: nat, last: Option<Block>) {
    forall b :: IsData(m, id, b) && m.blocks[b].offset < cut ==> Min(EndOf(m.blocks[b]), cut) <= SizeFrom(last)
  }

  lemma LastAfterCut(m: Mem, t: Mem, id: nat, cut: nat, last: Option<Block>, last': Option<Block>)
    requires CutTo(m, t, id, cut) && LastBelow(m, id, cut, last)
    requires LastMatch(t.blocks, BlockLookup, OpNodeFilter(DATA, id), last')
    ensures SizeFrom(last') == Min(SizeFrom(last), cut)
  {
    hide LastMatch;
    var c' := LastIsData(t, id, last');
    if last.Some? {
      var c :| IsData(m, id, c) && m.blocks[c] == last.value;
      LastIsGreatest(t, id, last', c);
    }
  }

  /**
   * After a truncate the size query is right if and only if the last block of those that start below the cut reaches,
   * up to the cut, as far as any of them; so it stays right whenever the cut is behind the start of the last block.
   */
  lemma CutSizeExact(g: Geometry, s: State, id: nat, cut: nat, b: nat, t: State, file: map<nat, byte>,
                     last: Option<Block>, size: nat)
    requires Sane(g, s) && LastBelow(s.mem, id, cut, last)
    requires Wrote(g, s, Truncate(id, cut), b, t) && Shows(t, id, file) && Sized(t.mem, id, size)
    ensures EndsAt(file, size) <==> LastReaches(s.mem, id, cut, last)
  {
    hide Sane, Shows, LastMatch, EndsAt, Picks, LastBelow;
    WriteSane(g, s, b, Truncate(id, cut));
    SizeExact(g, t, id, file, size);
    CutRows(g, s, id, cut, b);
    var last' :| LastMatch(t.mem.blocks, BlockLookup, OpNodeFilter(DATA, id), last') && size == SizeFrom(last');
    LastAfterCut(s.mem, t.mem, id, cut, last, last');
  }

  /** Behind the start of the last block a cut leaves a right size right. */
  lemma CutBehindLast(m: Mem, id: nat, cut: nat, last: Option<Block>)
    requires LastMatch(m.blocks, BlockLookup, OpNodeFilter(DATA, id), last) && EndsBy(m, id, SizeFrom(last))
    requires last.Some? ==> last.value.offset < cut
    ensures LastBelow(m, id, cut, last) && LastReaches(m, id, cut, last)
  {
    hide LastMatch;
    var c := LastIsData(m, id, last);
    forall b | IsData(m, id, b)
      ensures last.Some? && NotAfter(m.blocks[b], last.value)
    {
      LastIsGreatest(m, id, last, b);
    }
  }
}
