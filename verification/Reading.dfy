/** Reading a file back: painting blocks in sequence order, and how much a read reports. */
module Reading {
  import opened Orders
  import opened Indexes
  import opened Records
  import opened Log
  import opened Lifetimes
  import opened Engine
  import opened FileData

  /** Painting the rows in order: the last one covering a position decides its byte. */
  function Overlay(disk: Disk, id: nat, rows: seq<Block>, p: nat): Option<byte> {
    if rows == [] then None
    else if Covers(Final(rows), id, p) then Stored(disk, Final(rows).block, p)
    else Overlay(disk, id, Init(rows), p)
  }

  /** Live data blocks reach at most one payload from their offset. */
  ghost predicate Fits(m: Mem, payload: nat) {
    forall b :: b in m.blocks && m.blocks[b].op == DATA ==> m.blocks[b].fill <= payload
  }

  /** The window is wide enough: whatever covers a position of the chunk is inside it. */
  lemma WindowMissesNothing(row: Block, id: nat, size: nat, offset: nat, payload: nat, p: nat)
    requires Covers(row, id, p) && row.fill <= payload && offset <= p < offset + size
    ensures WindowFilter(id, size, offset, payload)(row) == 0
  {
    assert OpNodeFilter(DATA, id)(row) == 0;
    assert row.offset <= p && p < row.offset + payload;
    assert !(offset + size + payload < row.offset) && !(offset > row.offset + size + payload);
  }

  /** `r` is the newest of the rows covering `p`. */
  ghost predicate NewestCovering(rows: seq<Block>, id: nat, p: nat, r: Block) {
    && r in rows && Covers(r, id, p)
    && forall q :: q in rows && Covers(q, id, p) ==> q.seqno <= r.seqno
  }

  /** The overlay shows the newest covering row, or nothing where there is none. */
  ghost predicate ShowsNewest(disk: Disk, id: nat, rows: seq<Block>, p: nat) {
    && ((forall r :: r in rows ==> !Covers(r, id, p)) ==> Overlay(disk, id, rows, p) == None)
    && ((exists r :: r in rows && Covers(r, id, p)) ==>
          exists r :: NewestCovering(rows, id, p, r) && Overlay(disk, id, rows, p) == Stored(disk, r.block, p))
  }

  lemma LastCovers(disk: Disk, id: nat, rows: seq<Block>, p: nat)
    requires Sorted(BySeqno, rows) && rows != [] && Covers(Final(rows), id, p)
    ensures ShowsNewest(disk, id, rows, p)
  {
    hide Stored;
    forall q | q in rows
      ensures q.seqno <= Final(rows).seqno
    {
      var i :| 0 <= i < |rows| && rows[i] == q;
      assert i < |rows| - 1 ==> BySeqno(rows[i], rows[|rows| - 1]) <= 0;
    }
    assert NewestCovering(rows, id, p, Final(rows));
  }

  lemma LastIsSkipped(disk: Disk, id: nat, rows: seq<Block>, p: nat)
    requires rows != [] && !Covers(Final(rows), id, p) && ShowsNewest(disk, id, Init(rows), p)
    ensures ShowsNewest(disk, id, rows, p)
  {
    hide Stored, Covers;
    Snoc(rows);
    assert forall q :: q in rows && Covers(q, id, p) ==> q in Init(rows);
    assert forall r :: NewestCovering(Init(rows), id, p, r) ==> NewestCovering(rows, id, p, r);
  }

  lemma {:induction false} OverlayTop(disk: Disk, id: nat, rows: seq<Block>, p: nat)
    requires Sorted(BySeqno, rows)
    ensures ShowsNewest(disk, id, rows, p)
  {
    if rows != [] {
      if Covers(Final(rows), id, p) {
        LastCovers(disk, id, rows, p);
      } else {
        OverlayTop(disk, id, Init(rows), p);
        LastIsSkipped(disk, id, rows, p);
      }
    }
  }

  /** Painting what the window query lists, in sequence order, shows the bytes of the file. */
  lemma OverlayIsFile(g: Geometry, s: State, id: nat, size: nat, offset: nat, rows: seq<Block>, p: nat)
    requires Sane(g, s) && Fits(s.mem, g.payload) && offset <= p < offset + size
    requires Lists(s.mem.blocks, WindowFilter(id, size, offset, g.payload), rows) && Sorted(BySeqno, rows)
    ensures Overlay(s.disk, id, rows, p) == ByteAt(s, id, p)
  {
    OverlayTop(s.disk, id, rows, p);
    forall b | b in s.mem.blocks && Covers(s.mem.blocks[b], id, p)
      ensures s.mem.blocks[b] in rows
    {
      WindowMissesNothing(s.mem.blocks[b], id, size, offset, g.payload, p);
    }
    if r :| NewestCovering(rows, id, p, r) && Overlay(s.disk, id, rows, p) == Stored(s.disk, r.block, p) {
      var b :| b in s.mem.blocks && s.mem.blocks[b] == r;
      assert RowMatches(b, r, s.disk[b]);
      assert Top(s.mem, id, p, b);
      ByteFrom(g, s, id, p, b);
    }
  }

  // How much a chunk read reports

  /** What one row adds to the reported length: the bytes it copies, plus those skipped at its front. */
  function Reach(row: Block, id: nat, size: nat, offset: nat): nat {
    var start := Max(row.offset, offset);
    var end := if row.offset + row.fill < offset + size then row.offset + row.fill else offset + size;
    if row.op != DATA || row.node != id || end <= start then 0 else start - row.offset + (end - start)
  }

  ghost predicate ReachBound(m: Mem, id: nat, size: nat, offset: nat, len: nat) {
    && (forall b :: b in m.blocks ==> Reach(m.blocks[b], id, size, offset) <= len)
    && (len == 0 || exists b :: b in m.blocks && Reach(m.blocks[b], id, size, offset) == len)
  }

  lemma ReachBoundExists(m: Mem, id: nat, size: nat, offset: nat)
    ensures exists len :: ReachBound(m, id, size, offset, len)
  {
    if m.blocks == map[] {
      assert ReachBound(m, id, size, offset, 0);
    } else {
      var reach: nat -> int := (b: nat) => if b in m.blocks then Reach(m.blocks[b], id, size, offset) else 0;
      var c :| c in m.blocks;
      assert c in m.blocks.Keys;
      var b := MaxIn(m.blocks.Keys, reach);
      assert forall c :: c in m.blocks ==> reach(c) <= reach(b);
      assert ReachBound(m, id, size, offset, Reach(m.blocks[b], id, size, offset));
    }
  }

  /** The length a chunk read reports: the greatest reach of any block of the file. */
  ghost function ChunkLength(m: Mem, id: nat, size: nat, offset: nat): (len: nat)
    ensures ReachBound(m, id, size, offset, len)
  {
    ReachBoundExists(m, id, size, offset);
    var len :| ReachBound(m, id, size, offset, len);
    len
  }

  lemma ChunkLengthIs(m: Mem, id: nat, size: nat, offset: nat, len: nat)
    requires ReachBound(m, id, size, offset, len)
    ensures ChunkLength(m, id, size, offset) == len
  {
  }

  /**
   * The total a read of `size` bytes reports once `total` are behind it: chunk after chunk until one reports nothing.
   */
  ghost function ReadTotal(g: Geometry, m: Mem, id: nat, size: nat, offset: nat, total: nat): nat
    decreases size - total
  {
    if total >= size then total
    else
      var len := ChunkLength(m, id, Limit(g, size, total), offset + total);
      if len == 0 then total else ReadTotal(g, m, id, size, offset, total + len)
  }

  function Limit(g: Geometry, size: nat, total: nat): nat
    requires total < size
  {
    if size - total > g.payload then g.payload else size - total
  }
}
