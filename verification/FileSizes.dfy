/** When the reported sizes are the true ones: aligned files for reads, append-style files for the size query. */
module FileSizes {
  import opened Indexes
  import opened Records
  import opened Log
  import opened Lifetimes
  import opened Engine
  import opened FileData
  import opened Reading
  import opened FileShapes

  /** The plain file has a byte at exactly the positions below `end`. */
  ghost predicate Solid(file: map<nat, byte>, end: nat) {
    forall p :: p in file <==> 0 <= p < end
  }

  predicate IsData(m: Mem, id: nat, b: nat) {
    b in m.blocks && m.blocks[b].op == DATA && m.blocks[b].node == id
  }

  function EndOf(row: Block): nat {
    row.offset + row.fill
  }

  /** A position is covered by a live block exactly when the file has a byte there. */
  lemma HasByteIsShown(g: Geometry, s: State, id: nat, file: map<nat, byte>, p: nat)
    requires Sane(g, s) && Shows(s, id, file)
    ensures HasByte(s.mem, id, p) <==> p in file
  {
    assert ByteAt(s, id, p) == Get(file, p);
    if b :| b in s.mem.blocks && Covers(s.mem.blocks[b], id, p) {
      var c := TopExists(s.mem, id, p, b);
      ByteFrom(g, s, id, p, c);
    } else {
      assert !exists b :: Top(s.mem, id, p, b);
    }
  }

  /** The blocks of a solid file leave no gap and stay below its end. */
  lemma SolidIsGapFree(g: Geometry, s: State, id: nat, file: map<nat, byte>, end: nat)
    requires Sane(g, s) && Shows(s, id, file) && Solid(file, end)
    ensures GapFree(s.mem, id, end)
  {
    forall b | IsData(s.mem, id, b)
      ensures s.mem.blocks[b].fill > 0 && EndOf(s.mem.blocks[b]) <= end
    {
      assert RowMatches(b, s.mem.blocks[b], s.disk[b]);
      var p := EndOf(s.mem.blocks[b]) - 1;
      assert Covers(s.mem.blocks[b], id, p);
      assert HasByte(s.mem, id, p);
      HasByteIsShown(g, s, id, file, p);
    }
    forall p | 0 <= p < end
      ensures HasByte(s.mem, id, p)
    {
      HasByteIsShown(g, s, id, file, p);
    }
  }

  /** Reading a solid file whose writes all started on the payload grid reports exactly its bytes up to the end. */
  lemma SolidRead(g: Geometry, s: State, id: nat, file: map<nat, byte>, end: nat, size: nat, offset: nat)
    requires g.payload > 0 && Sane(g, s) && Fits(s.mem, g.payload) && Aligned(s.mem, id, g.payload)
    requires Shows(s, id, file) && Solid(file, end) && offset % g.payload == 0
    ensures ReadTotal(g, s.mem, id, size, offset, 0) == Min(size, if end > offset then end - offset else 0)
  {
    SolidIsGapFree(g, s, id, file, end);
    assert offset + 0 == offset;
    AlignedRead(g, s.mem, id, end, size, offset, 0);
  }

  predicate OnGrid(body: Body, id: nat, payload: nat)
    requires payload > 0
  {
    body.Data? && body.id == id ==> body.offset % payload == 0
  }

  lemma AlignedKept(s: State, b: nat, body: Body, id: nat, payload: nat)
    requires payload > 0 && Aligned(s.mem, id, payload) && OnGrid(body, id, payload)
    ensures Aligned(Write(s, b, body).mem, id, payload)
  {
  }

  /** The records of a write that starts on the grid all start on it. */
  lemma {:induction false} ChunksOnGrid(bodies: seq<Body>, id: nat, offset: nat, data: seq<byte>, payload: nat)
    requires payload > 0 && offset % payload == 0 && IsChunks(bodies, id, offset, data, payload)
    ensures forall i :: 0 <= i < |bodies| ==> OnGrid(bodies[i], id, payload)
    decreases |data|
  {
    if |data| > payload {
      NextOnGrid(offset, payload);
      ChunksOnGrid(bodies[1..], id, offset + payload, data[payload..], payload);
      assert forall j :: 1 <= j < |bodies| ==> bodies[j] == bodies[1..][j - 1];
    }
  }

  // Append-style files

  ghost predicate Disjoint(m: Mem, id: nat) {
    forall b, c :: IsData(m, id, b) && IsData(m, id, c) && b != c ==>
      EndOf(m.blocks[b]) <= m.blocks[c].offset || EndOf(m.blocks[c]) <= m.blocks[b].offset
  }

  /** A file that has only been appended to and cut: solid, and no two blocks overlap. */
  ghost predicate AppendStyle(s: State, id: nat, file: map<nat, byte>, end: nat) {
    Shows(s, id, file) && Solid(file, end) && Disjoint(s.mem, id)
  }

  predicate Appends(body: Body, id: nat, end: nat) {
    body.Data? && body.id == id ==> body.offset == end
  }

  function EndAfter(body: Body, id: nat, end: nat): nat {
    match body
    case Data(n, offset, bytes) => if n == id then end + |bytes| else end
    case Truncate(n, size) => if n == id then Min(end, size) else end
    case Delete(n) => if n.node == id then 0 else end
    case _ => end
  }

  lemma DisjointKept(g: Geometry, s: State, b: nat, body: Body, id: nat, end: nat)
    requires Disjoint(s.mem, id) && GapFree(s.mem, id, end) && Appends(body, id, end)
    requires b in s.mem.blocks ==> RowEffect(s.mem.blocks[b], body).op != DATA
    ensures Disjoint(Write(s, b, body).mem, id)
  {
    var t := Write(s, b, body).mem;
    forall c | IsData(t, id, c)
      ensures c != b ==> IsData(s.mem, id, c) && t.blocks[c].offset == s.mem.blocks[c].offset
      ensures c != b ==> EndOf(t.blocks[c]) <= EndOf(s.mem.blocks[c]) <= end
      ensures c == b ==> body.Data? && t.blocks[c].offset == end
    {
    }
  }

  lemma SolidKept(file: map<nat, byte>, id: nat, body: Body, end: nat)
    requires Solid(file, end) && Appends(body, id, end)
    ensures Solid(FileStep(file, id, body), EndAfter(body, id, end))
  {
    forall p: nat
      ensures p in FileStep(file, id, body) <==> 0 <= p < EndAfter(body, id, end)
    {
      FileStepAt(file, id, body, p);
      assert p in FileStep(file, id, body) <==> Get(FileStep(file, id, body), p).Some?;
      assert p in file <==> Get(file, p).Some?;
    }
  }

  lemma AppendStyleKept(g: Geometry, s: State, b: nat, body: Body, id: nat, file: map<nat, byte>, end: nat)
    requires Sane(g, s) && AppendStyle(s, id, file, end) && Appends(body, id, end)
    requires Picks(g, Effect(s.mem, body), body.Node(), b) && (body.Data? ==> body.bytes != [])
    ensures AppendStyle(Write(s, b, body), id, FileStep(file, id, body), EndAfter(body, id, end))
  {
    WriteSane(g, s, b, body);
    PickedHoldsNoData(g, s, b, body);
    WriteShows(g, s, b, body, id, file);
    SolidIsGapFree(g, s, id, file, end);
    DisjointKept(g, s, b, body, id, end);
    SolidKept(file, id, body, end);
  }

  /** The size query takes the end of the block that is last in the lookup order, or zero. */
  function SizeFrom(last: Option<Block>): nat {
    match last
    case None => 0
    case Some(row) => EndOf(row)
  }

  /** For an append-style file that is the true size, whatever blocks it landed in. */
  lemma SizeIsExact(g: Geometry, s: State, id: nat, file: map<nat, byte>, end: nat, last: Option<Block>)
    requires Sane(g, s) && AppendStyle(s, id, file, end)
    requires LastMatch(s.mem.blocks, BlockLookup, OpNodeFilter(DATA, id), last)
    ensures SizeFrom(last) == end
  {
    SolidIsGapFree(g, s, id, file, end);
    if end > 0 {
      assert HasByte(s.mem, id, end - 1);
      var b :| b in s.mem.blocks && Covers(s.mem.blocks[b], id, end - 1);
      LastOfDisjoint(s.mem, id, end, b, last);
    }
  }

  lemma LastOfDisjoint(m: Mem, id: nat, end: nat, b: nat, last: Option<Block>)
    requires GapFree(m, id, end) && Disjoint(m, id) && end > 0
    requires b in m.blocks && Covers(m.blocks[b], id, end - 1)
    requires LastMatch(m.blocks, BlockLookup, OpNodeFilter(DATA, id), last)
    ensures last == Some(m.blocks[b])
  {
    assert IsData(m, id, b);
    assert OpNodeFilter(DATA, id)(m.blocks[b]) == 0;
    var c :| c in m.blocks && m.blocks[c] == last.value;
    assert IsData(m, id, c);
    assert BlockLookup(m.blocks[b], last.value) <= 0;
  }
}
