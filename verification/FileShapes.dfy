/**
 * Files for which the reported lengths are exact: freshly written ranges, grid-aligned files and append-style files.
 */
module FileShapes {
  import opened Indexes
  import opened Records
  import opened Log
  import opened Lifetimes
  import opened Engine
  import opened FileData
  import opened Reading

  // Runs of records

  lemma {:induction false} WritesSane(g: Geometry, s: State, bodies: seq<Body>, t: State)
    requires Sane(g, s) && Writes(g, s, bodies, t)
    ensures Sane(g, t)
  {
    if bodies != [] {
      var u, b :| Writes(g, s, Init(bodies), u) && Wrote(g, u, Final(bodies), b, t);
      WritesSane(g, s, Init(bodies), u);
      WriteSane(g, u, b, Final(bodies));
    }
  }

  lemma {:induction false} WritesFit(g: Geometry, s: State, bodies: seq<Body>, t: State)
    requires Writes(g, s, bodies, t) && Fits(s.mem, g.payload)
    ensures Fits(t.mem, g.payload)
  {
    if bodies != [] {
      var u, b :| Writes(g, s, Init(bodies), u) && Wrote(g, u, Final(bodies), b, t);
      WritesFit(g, s, Init(bodies), u);
      WriteFits(u, b, Final(bodies), g.payload);
    }
  }

  lemma WriteFits(s: State, b: nat, body: Body, payload: nat)
    requires Fits(s.mem, payload) && (body.Data? ==> |body.bytes| <= payload)
    ensures Fits(Write(s, b, body).mem, payload)
  {
  }

  /** Whole operations change every byte of every file as their records mean to, whatever blocks they went to. */
  lemma {:induction false} WritesByte(g: Geometry, s: State, bodies: seq<Body>, t: State, id: nat, p: nat)
    requires Sane(g, s) && Writes(g, s, bodies, t)
    ensures ByteAt(t, id, p) == ByteLater(ByteAt(s, id, p), bodies, id, p)
  {
    if bodies != [] {
      var u, b :| Writes(g, s, Init(bodies), u) && Wrote(g, u, Final(bodies), b, t);
      WritesSane(g, s, Init(bodies), u);
      WritesByte(g, s, Init(bodies), u, id, p);
      WriteSane(g, u, b, Final(bodies));
      PickedHoldsNoData(g, u, b, Final(bodies));
      WriteByte(g, u, b, Final(bodies), id, p);
      ByteLaterSnoc(ByteAt(s, id, p), bodies, id, p);
    }
  }

  /** A live row holding exactly what a data record wrote. */
  ghost predicate HasRow(m: Mem, body: Body, b: nat) {
    && b in m.blocks && m.blocks[b].op == DATA && m.blocks[b].node == body.Node()
    && m.blocks[b].offset == body.Offset() && m.blocks[b].fill == body.Fill()
  }

  /** The row a data write leaves, and what later data writes leave of an older one. */
  lemma DataRowStep(g: Geometry, u: State, body: Body, b: nat, t: State, older: Body, c: nat)
    requires Sane(g, u) && Wrote(g, u, body, b, t) && body.Data?
    ensures HasRow(t.mem, body, b)
    ensures HasRow(u.mem, older, c) ==> HasRow(t.mem, older, c)
  {
    PickedHoldsNoData(g, u, b, body);
  }

  lemma {:induction false} DataRowsStay(g: Geometry, s: State, bodies: seq<Body>, t: State, i: nat)
    requires Sane(g, s) && Writes(g, s, bodies, t) && i < |bodies|
    requires forall j :: 0 <= j < |bodies| ==> bodies[j].Data?
    ensures exists b :: HasRow(t.mem, bodies[i], b)
  {
    hide Sane, Wrote, HasRow;
    var u, b :| Writes(g, s, Init(bodies), u) && Wrote(g, u, Final(bodies), b, t);
    WritesSane(g, s, Init(bodies), u);
    if i == |bodies| - 1 {
      DataRowStep(g, u, Final(bodies), b, t, bodies[i], b);
      assert HasRow(t.mem, bodies[i], b);
    } else {
      DataRowsStay(g, s, Init(bodies), u, i);
      var c :| HasRow(u.mem, Init(bodies)[i], c);
      DataRowStep(g, u, Final(bodies), b, t, bodies[i], c);
      assert HasRow(t.mem, bodies[i], c);
    }
  }

  ghost predicate AllData(bodies: seq<Body>, id: nat, payload: nat) {
    forall j :: 0 <= j < |bodies| ==> bodies[j].Data? && bodies[j].id == id && WellSized(bodies[j], payload)
  }

  lemma {:induction false} ChunksAreData(bodies: seq<Body>, id: nat, offset: nat, data: seq<byte>, payload: nat)
    requires payload > 0 && IsChunks(bodies, id, offset, data, payload)
    ensures AllData(bodies, id, payload)
    decreases |data|
  {
    if data != [] {
      var n := Min(|data|, payload);
      ChunksAreData(bodies[1..], id, offset + n, data[n..], payload);
      assert forall j :: 1 <= j < |bodies| ==> bodies[j] == bodies[1..][j - 1];
    }
  }

  // Read after write

  /** From `total` on, every chunk of the read starts with a block written for it. */
  ghost predicate Gridded(g: Geometry, m: Mem, id: nat, size: nat, offset: nat, total: nat)
    requires g.payload > 0
    decreases size - total
  {
    total < size ==>
      Started(m, id, offset + total, Limit(g, size, total)) && Gridded(g, m, id, size, offset, total + g.payload)
  }

  ghost predicate Started(m: Mem, id: nat, offset: nat, fill: nat) {
    exists b :: StartsAt(m, id, offset, fill, b)
  }

  ghost predicate StartsAt(m: Mem, id: nat, offset: nat, fill: nat, b: nat) {
    && b in m.blocks && m.blocks[b].op == DATA && m.blocks[b].node == id
    && m.blocks[b].offset == offset && m.blocks[b].fill == fill
  }

  ghost predicate AllHeld(m: Mem, bodies: seq<Body>) {
    forall i :: 0 <= i < |bodies| ==> Held(m, bodies[i])
  }

  ghost predicate Held(m: Mem, body: Body) {
    exists b :: HasRow(m, body, b)
  }

  lemma {:induction false} WrittenIsGridded(g: Geometry, m: Mem, bodies: seq<Body>, id: nat, offset: nat,
                                             data: seq<byte>, total: nat)
    requires g.payload > 0 && total <= |data|
    requires AllHeld(m, bodies) && IsChunks(bodies, id, offset + total, data[total..], g.payload)
    ensures Gridded(g, m, id, |data|, offset, total)
    decreases |data| - total
  {
    if total < |data| {
      assert Held(m, bodies[0]);
      var b :| HasRow(m, bodies[0], b);
      assert StartsAt(m, id, offset + total, Limit(g, |data|, total), b);
      if total + g.payload < |data| {
        assert data[total..][g.payload..] == data[total + g.payload..];
        assert forall i :: 0 <= i < |bodies[1..]| ==> bodies[1..][i] == bodies[i + 1];
        assert AllHeld(m, bodies[1..]);
        assert offset + total + g.payload == offset + (total + g.payload);
        WrittenIsGridded(g, m, bodies[1..], id, offset, data, total + g.payload);
      }
    }
  }

  /** A chunk that starts with its own block reports at least its limit, and never more than a payload. */
  lemma StartedChunk(m: Mem, id: nat, limit: nat, offset: nat, payload: nat)
    requires Fits(m, payload) && Started(m, id, offset, limit)
    ensures limit <= ChunkLength(m, id, limit, offset) <= Max(limit, payload)
  {
    var b :| StartsAt(m, id, offset, limit, b);
    assert Reach(m.blocks[b], id, limit, offset) == limit;
  }

  /** A read over a freshly written range gets through it: it reports the whole size, or less than one payload more. */
  lemma {:induction false} GriddedRead(g: Geometry, m: Mem, id: nat, size: nat, offset: nat, total: nat)
    requires g.payload > 0 && Fits(m, g.payload) && Gridded(g, m, id, size, offset, total) && total <= size
    ensures size <= ReadTotal(g, m, id, size, offset, total) < size + g.payload
    decreases size - total
  {
    if total < size {
      if total + g.payload < size {
        GriddedRead(g, m, id, size, offset, total + g.payload);
      }
      GriddedStep(g, m, id, size, offset, total);
    }
  }

  lemma GriddedStep(g: Geometry, m: Mem, id: nat, size: nat, offset: nat, total: nat)
    requires Fits(m, g.payload) && total < size && g.payload > 0
    requires Started(m, id, offset + total, Limit(g, size, total))
    requires total + g.payload < size ==>
      size <= ReadTotal(g, m, id, size, offset, total + g.payload) < size + g.payload
    ensures size <= ReadTotal(g, m, id, size, offset, total) < size + g.payload
  {
    var limit := Limit(g, size, total);
    StartedChunk(m, id, limit, offset + total, g.payload);
    var len := ChunkLength(m, id, limit, offset + total);
    var next := if limit == g.payload then total + g.payload else total + len;
    assert next == total + len;
    ReadStep(g, m, id, size, offset, total, next);
  }

  lemma ReadOver(g: Geometry, m: Mem, id: nat, size: nat, offset: nat, total: nat)
    requires total >= size
    ensures ReadTotal(g, m, id, size, offset, total) == total
  {
  }

  /** One round of the read loop, leading to `next`. */
  lemma ReadStep(g: Geometry, m: Mem, id: nat, size: nat, offset: nat, total: nat, next: nat)
    requires total < size && next == total + ChunkLength(m, id, Limit(g, size, total), offset + total)
    ensures ReadTotal(g, m, id, size, offset, total) == if next >= size then next else if next == total then total
      else ReadTotal(g, m, id, size, offset, next)
  {
    hide ReachBound, Limit;
  }

  /**
   * Read after write, whatever the file held before: the written range shows exactly the data, the rest of the file
   * what it did, and reading the same offset and size reports at least the size and less than one payload more.
   */
  lemma ReadAfterWrite(g: Geometry, s: State, bodies: seq<Body>, id: nat, offset: nat, data: seq<byte>, t: State)
    requires g.payload > 0 && Sane(g, s) && Fits(s.mem, g.payload)
    requires IsChunks(bodies, id, offset, data, g.payload) && Writes(g, s, bodies, t)
    ensures forall p: nat ::
      ByteAt(t, id, p) == if offset <= p < offset + |data| then Some(data[p - offset]) else ByteAt(s, id, p)
    ensures |data| <= ReadTotal(g, t.mem, id, |data|, offset, 0) < |data| + g.payload
  {
    forall p: nat
      ensures ByteAt(t, id, p) == if offset <= p < offset + |data| then Some(data[p - offset]) else ByteAt(s, id, p)
    {
      WritesByte(g, s, bodies, t, id, p);
      ChunksWriteAll(ByteAt(s, id, p), bodies, id, offset, data, g.payload, p);
    }
    ChunksAreData(bodies, id, offset, data, g.payload);
    DataHeld(g, s, bodies, t, id);
    assert data[0..] == data && offset + 0 == offset;
    WrittenIsGridded(g, t.mem, bodies, id, offset, data, 0);
    GriddedRead(g, t.mem, id, |data|, offset, 0);
  }

  lemma DataHeld(g: Geometry, s: State, bodies: seq<Body>, t: State, id: nat)
    requires Sane(g, s) && Fits(s.mem, g.payload) && AllData(bodies, id, g.payload) && Writes(g, s, bodies, t)
    ensures AllHeld(t.mem, bodies) && Fits(t.mem, g.payload)
  {
    WritesFit(g, s, bodies, t);
    forall i | 0 <= i < |bodies|
      ensures Held(t.mem, bodies[i])
    {
      DataRowsStay(g, s, bodies, t, i);
    }
  }

  // Exact lengths

  /** How far into the range `[offset, offset + size)` a row of the file reaches; zero if it has nothing in it. */
  function ReachIn(row: Block, id: nat, size: nat, offset: nat): nat {
    if Reach(row, id, size, offset) == 0 then 0 else Min(row.offset + row.fill, offset + size) - offset
  }

  /** The data of the file in the range ends `e` bytes into it. */
  ghost predicate EndsIn(m: Mem, id: nat, size: nat, offset: nat, e: nat) {
    && (forall b :: b in m.blocks ==> ReachIn(m.blocks[b], id, size, offset) <= e)
    && (e == 0 || exists b :: b in m.blocks && ReachIn(m.blocks[b], id, size, offset) == e)
  }

  /** The row has data before the range and in it. */
  predicate Straddles(row: Block, id: nat, size: nat, offset: nat) {
    Reach(row, id, size, offset) > 0 && row.offset < offset
  }

  /** What a row adds to the length is its reach into the range, plus what it has before, less what it starts after. */
  lemma ReachSplit(row: Block, id: nat, size: nat, offset: nat)
    requires Reach(row, id, size, offset) > 0
    ensures Reach(row, id, size, offset) == ReachIn(row, id, size, offset) + offset - row.offset
    ensures ReachIn(row, id, size, offset) > 0
  {
  }

  ghost predicate CountsExactly(m: Mem, id: nat, size: nat, offset: nat, e: nat) {
    && (forall b :: b in m.blocks && Straddles(m.blocks[b], id, size, offset) ==>
          Reach(m.blocks[b], id, size, offset) <= e)
    && exists b :: b in m.blocks && Reach(m.blocks[b], id, size, offset) == e
  }

  /**
   * The length a chunk read reports is right if and only if no block straddling its start counts for more than the data
   * there is, and some block counts for exactly that.
   */
  lemma ChunkExact(m: Mem, id: nat, size: nat, offset: nat, e: nat)
    requires EndsIn(m, id, size, offset, e)
    ensures ChunkLength(m, id, size, offset) == e <==> e == 0 || CountsExactly(m, id, size, offset, e)
  {
    hide Reach, ReachIn;
    var len := ChunkLength(m, id, size, offset);
    assert ReachBound(m, id, size, offset, len);
    forall b | b in m.blocks && Reach(m.blocks[b], id, size, offset) > 0
      ensures ReachIn(m.blocks[b], id, size, offset) > 0
      ensures !Straddles(m.blocks[b], id, size, offset) ==> Reach(m.blocks[b], id, size, offset) <= e
    {
      ReachSplit(m.blocks[b], id, size, offset);
    }
  }

  ghost predicate ReachedFromStart(m: Mem, id: nat, size: nat, offset: nat, e: nat) {
    exists b :: b in m.blocks && m.blocks[b].offset == offset && ReachIn(m.blocks[b], id, size, offset) == e
  }

  /** With no block straddling the start: if and only if some block that starts there reaches the end of the data. */
  lemma ChunkExactAtStart(m: Mem, id: nat, size: nat, offset: nat, e: nat)
    requires EndsIn(m, id, size, offset, e)
    requires forall b :: b in m.blocks ==> !Straddles(m.blocks[b], id, size, offset)
    ensures ChunkLength(m, id, size, offset) == e <==> e == 0 || ReachedFromStart(m, id, size, offset, e)
  {
    hide Reach, ReachIn;
    ChunkExact(m, id, size, offset, e);
    forall b | b in m.blocks && Reach(m.blocks[b], id, size, offset) > 0
      ensures Reach(m.blocks[b], id, size, offset) == e <==>
        m.blocks[b].offset == offset && ReachIn(m.blocks[b], id, size, offset) == e
    {
      ReachSplit(m.blocks[b], id, size, offset);
    }
    NoReach(m, id, size, offset);
  }

  lemma NoReach(m: Mem, id: nat, size: nat, offset: nat)
    ensures forall b :: b in m.blocks && Reach(m.blocks[b], id, size, offset) == 0 ==>
      ReachIn(m.blocks[b], id, size, offset) == 0
  {
  }

  /** A straddling block that holds the last byte of the chunk makes the read report too much. */
  lemma StraddlingOverstates(m: Mem, id: nat, size: nat, offset: nat, e: nat, b: nat)
    requires EndsIn(m, id, size, offset, e) && b in m.blocks
    requires Straddles(m.blocks[b], id, size, offset) && ReachIn(m.blocks[b], id, size, offset) == e
    ensures ChunkLength(m, id, size, offset) > e
  {
    ReachSplit(m.blocks[b], id, size, offset);
    assert ReachBound(m, id, size, offset, ChunkLength(m, id, size, offset));
  }

  /** Every live block of the file starts on the payload grid. */
  ghost predicate Aligned(m: Mem, id: nat, payload: nat)
    requires payload > 0
  {
    forall b :: b in m.blocks && m.blocks[b].op == DATA && m.blocks[b].node == id ==> m.blocks[b].offset % payload == 0
  }

  /** The live blocks of the file cover exactly the positions below `end`. */
  ghost predicate GapFree(m: Mem, id: nat, end: nat) {
    && (forall b :: b in m.blocks && m.blocks[b].op == DATA && m.blocks[b].node == id ==>
          m.blocks[b].fill > 0 && m.blocks[b].offset + m.blocks[b].fill <= end)
    && (forall p :: 0 <= p < end ==> HasByte(m, id, p))
  }

  ghost predicate HasByte(m: Mem, id: nat, p: nat) {
    exists b :: b in m.blocks && Covers(m.blocks[b], id, p)
  }

  /** Two grid points less than a payload apart are one. */
  lemma GridApart(a: nat, b: nat, payload: nat)
    requires payload > 0 && a % payload == 0 && b % payload == 0 && a < b
    ensures a + payload <= b
  {
    var x, y := a / payload, b / payload;
    assert a == payload * x && b == payload * y;
    if y <= x {
      MulMonotone(payload, y, x);
    } else {
      MulMonotone(payload, x + 1, y);
      assert payload * (x + 1) == payload * x + payload;
    }
  }

  lemma MulMonotone(p: nat, x: nat, y: nat)
    requires x <= y
    ensures p * x <= p * y
  {
  }

  lemma NextOnGrid(a: nat, payload: nat)
    requires payload > 0 && a % payload == 0
    ensures (a + payload) % payload == 0
  {
    var x, y, r := a / payload, (a + payload) / payload, (a + payload) % payload;
    assert a == payload * x;
    assert a + payload == payload * y + r;
    if y <= x {
      MulMonotone(payload, y, x);
    } else {
      MulMonotone(payload, x + 1, y);
      assert payload * (x + 1) == payload * x + payload;
    }
  }

  /** In an aligned file a block that reaches into a grid chunk starts where the chunk does. */
  lemma AlignedReach(m: Mem, id: nat, payload: nat, b: nat, limit: nat, offset: nat)
    requires payload > 0 && Aligned(m, id, payload) && Fits(m, payload) && offset % payload == 0 && limit <= payload
    requires b in m.blocks && Reach(m.blocks[b], id, limit, offset) > 0
    ensures m.blocks[b].offset == offset
    ensures Reach(m.blocks[b], id, limit, offset) == Min(m.blocks[b].fill, limit)
  {
    var row := m.blocks[b];
    if row.offset < offset {
      GridApart(row.offset, offset, payload);
    } else if row.offset > offset {
      GridApart(offset, row.offset, payload);
    }
  }

  /** A chunk of an aligned gap-free file reports exactly the bytes there are in it. */
  lemma AlignedChunk(m: Mem, id: nat, payload: nat, end: nat, limit: nat, offset: nat)
    requires payload > 0 && Aligned(m, id, payload) && Fits(m, payload) && GapFree(m, id, end)
    requires offset % payload == 0 && 0 < limit <= payload
    ensures ChunkLength(m, id, limit, offset) == if offset >= end then 0 else Min(limit, end - offset)
  {
    var want := if offset >= end then 0 else Min(limit, end - offset);
    forall b | b in m.blocks
      ensures Reach(m.blocks[b], id, limit, offset) <= want
    {
      if Reach(m.blocks[b], id, limit, offset) > 0 {
        AlignedReach(m, id, payload, b, limit, offset);
      }
    }
    if want > 0 {
      assert HasByte(m, id, offset + want - 1);
      var b :| b in m.blocks && Covers(m.blocks[b], id, offset + want - 1);
      assert Reach(m.blocks[b], id, limit, offset) > 0;
      AlignedReach(m, id, payload, b, limit, offset);
    }
    ChunkLengthIs(m, id, limit, offset, want);
  }

  /** Behind the end of a gap-free file a chunk reports nothing. */
  lemma NothingBehind(m: Mem, id: nat, end: nat, limit: nat, offset: nat)
    requires GapFree(m, id, end) && offset >= end
    ensures ChunkLength(m, id, limit, offset) == 0
  {
    ChunkLengthIs(m, id, limit, offset, 0);
  }

  /**
   * Reading an aligned gap-free file from the grid reports exactly the bytes up to its end, and the loop stops there.
   */
  lemma {:induction false} AlignedRead(g: Geometry, m: Mem, id: nat, end: nat, size: nat, offset: nat, total: nat)
    requires g.payload > 0 && Aligned(m, id, g.payload) && Fits(m, g.payload) && GapFree(m, id, end)
    requires (offset + total) % g.payload == 0 && total <= size && (total == 0 || offset + total <= end)
    ensures ReadTotal(g, m, id, size, offset, total) == Max(total, Min(size, if end > offset then end - offset else 0))
    decreases size - total
  {
    hide ReadTotal, ChunkLength;
    if total < size {
      var limit := Limit(g, size, total);
      AlignedChunk(m, id, g.payload, end, limit, offset + total);
      if total + g.payload < size && offset + total + g.payload <= end {
        NextOnGrid(offset + total, g.payload);
        AlignedRead(g, m, id, end, size, offset, total + g.payload);
      }
      AlignedStep(g, m, id, end, size, offset, total);
    } else {
      ReadOver(g, m, id, size, offset, total);
    }
  }

  lemma AlignedStep(g: Geometry, m: Mem, id: nat, end: nat, size: nat, offset: nat, total: nat)
    requires g.payload > 0 && total < size && GapFree(m, id, end) && (total == 0 || offset + total <= end)
    requires ChunkLength(m, id, Limit(g, size, total), offset + total) ==
      if offset + total >= end then 0 else Min(Limit(g, size, total), end - (offset + total))
    requires total + g.payload < size && offset + total + g.payload <= end ==>
      ReadTotal(g, m, id, size, offset, total + g.payload) == Max(total + g.payload, Min(size, end - offset))
    ensures ReadTotal(g, m, id, size, offset, total) == Max(total, Min(size, if end > offset then end - offset else 0))
  {
    var len := ChunkLength(m, id, Limit(g, size, total), offset + total);
    var next := if len == g.payload then total + g.payload else total + len;
    ReadStep(g, m, id, size, offset, total, next);
    if next < size && offset + next >= end {
      NothingBehind(m, id, end, Limit(g, size, next), offset + next);
      ReadStep(g, m, id, size, offset, next, next);
    }
  }
}
