/** When reads miss nothing: exactly while a file has no hole as long as a payload with bytes behind it. */
module Holes {
  import opened Records
  import opened Log
  import opened Engine
  import opened FileData
  import opened Reading
  import opened FileShapes
  import opened FileSizes

  /** Between `from` and `to` no stretch of a whole payload is empty with a byte behind it. */
  ghost predicate NoHole(m: Mem, id: nat, payload: nat, from: nat, to: nat) {
    forall h: nat, q: nat :: from <= h && h + payload <= q < to && HasByte(m, id, q) ==> Inhabited(m, id, h, payload)
  }

  ghost predicate Inhabited(m: Mem, id: nat, from: nat, len: nat) {
    exists p :: from <= p < from + len && HasByte(m, id, p)
  }

  /** A read of `size` bytes at `offset` gets past every byte of its range. */
  ghost predicate MissesNothing(g: Geometry, m: Mem, id: nat, size: nat, offset: nat) {
    forall q :: offset <= q < offset + size && HasByte(m, id, q) ==> q < offset + ReadTotal(g, m, id, size, offset, 0)
  }

  /** A chunk with a byte in it reports something, and an empty one nothing. */
  lemma ChunkCounts(m: Mem, id: nat, limit: nat, offset: nat)
    ensures ChunkLength(m, id, limit, offset) > 0 <==> Inhabited(m, id, offset, limit)
  {
    var len := ChunkLength(m, id, limit, offset);
    assert ReachBound(m, id, limit, offset, len);
    if p :| offset <= p < offset + limit && HasByte(m, id, p) {
      var b :| b in m.blocks && Covers(m.blocks[b], id, p);
      assert Reach(m.blocks[b], id, limit, offset) > 0;
    }
    if len > 0 {
      var b :| b in m.blocks && Reach(m.blocks[b], id, limit, offset) == len;
      ReachesAByte(m, b, id, limit, offset);
    }
  }

  lemma ReachesAByte(m: Mem, b: nat, id: nat, limit: nat, offset: nat)
    requires b in m.blocks && Reach(m.blocks[b], id, limit, offset) > 0
    ensures Inhabited(m, id, offset, limit)
  {
    var p := Max(m.blocks[b].offset, offset);
    assert Covers(m.blocks[b], id, p);
    assert HasByte(m, id, p);
  }

  /** Without a hole ahead a read that has come to `total` gets past every byte behind that. */
  lemma {:induction false} ReadsOn(g: Geometry, m: Mem, id: nat, size: nat, offset: nat, total: nat, q: nat)
    requires NoHole(m, id, g.payload, offset, offset + size)
    requires q < offset + size && HasByte(m, id, q)
    ensures q < offset + ReadTotal(g, m, id, size, offset, total)
    decreases size - total
  {
    hide ReadTotal, HasByte;
    if total >= size {
      ReadOver(g, m, id, size, offset, total);
    } else {
      var limit := Limit(g, size, total);
      var len := ChunkLength(m, id, limit, offset + total);
      ReadGrows(g, m, id, size, offset, total);
      if q >= offset + total {
        ChunkCounts(m, id, limit, offset + total);
        if q < offset + total + limit {
          assert Inhabited(m, id, offset + total, limit);
        }
        ReadStep(g, m, id, size, offset, total, total + len);
        if total + len < size {
          ReadsOn(g, m, id, size, offset, total + len, q);
        }
      }
    }
  }

  lemma {:induction false} ReadGrows(g: Geometry, m: Mem, id: nat, size: nat, offset: nat, total: nat)
    ensures ReadTotal(g, m, id, size, offset, total) >= total
    decreases size - total
  {
    hide ReadTotal, ReachBound, Limit;
    if total >= size {
      ReadOver(g, m, id, size, offset, total);
    } else {
      var len := ChunkLength(m, id, Limit(g, size, total), offset + total);
      ReadStep(g, m, id, size, offset, total, total + len);
      if 0 < len && total + len < size {
        ReadGrows(g, m, id, size, offset, total + len);
      }
    }
  }

  /** A read that starts at a hole as long as a payload reports nothing. */
  lemma StopsAtHole(g: Geometry, m: Mem, id: nat, h: nat, q: nat)
    requires h + g.payload <= q && !Inhabited(m, id, h, g.payload)
    ensures ReadTotal(g, m, id, q + 1 - h, h, 0) == 0
  {
    var size := q + 1 - h;
    ChunkCounts(m, id, g.payload, h);
    ReadStep(g, m, id, size, h, 0, 0);
  }

  /** All reads within a range get past every byte if and only if the range has no hole. */
  lemma ReadsMissNothing(g: Geometry, m: Mem, id: nat, from: nat, to: nat)
    ensures
      (forall size: nat, offset: nat :: from <= offset && offset + size <= to ==> MissesNothing(g, m, id, size, offset))
        <==> NoHole(m, id, g.payload, from, to)
  {
    hide HasByte, ReadTotal;
    if NoHole(m, id, g.payload, from, to) {
      forall size: nat, offset: nat | from <= offset && offset + size <= to
        ensures MissesNothing(g, m, id, size, offset)
      {
        forall q | offset <= q < offset + size && HasByte(m, id, q)
          ensures q < offset + ReadTotal(g, m, id, size, offset, 0)
        {
          ReadsOn(g, m, id, size, offset, 0, q);
        }
      }
    } else {
      var h: nat, q: nat :|
        from <= h && h + g.payload <= q < to && HasByte(m, id, q) && !Inhabited(m, id, h, g.payload);
      StopsAtHole(g, m, id, h, q);
      assert !MissesNothing(g, m, id, q + 1 - h, h);
    }
  }

  // In terms of the plain file

  /** The plain file has no stretch of a payload without bytes, and bytes behind it, between `from` and `to`. */
  ghost predicate HoleFree(file: map<nat, byte>, payload: nat, from: nat, to: nat) {
    forall h: nat, q: nat :: from <= h && h + payload <= q < to && q in file ==> Populated(file, h, payload)
  }

  ghost predicate Populated(file: map<nat, byte>, from: nat, len: nat) {
    exists p :: from <= p < from + len && p in file
  }

  lemma InhabitedIsPopulated(g: Geometry, s: State, id: nat, file: map<nat, byte>, from: nat, len: nat)
    requires Sane(g, s) && Shows(s, id, file)
    ensures Inhabited(s.mem, id, from, len) <==> Populated(file, from, len)
  {
    hide Sane, Shows, HasByte;
    if p :| from <= p < from + len && HasByte(s.mem, id, p) {
      HasByteIsShown(g, s, id, file, p);
    }
    if p :| from <= p < from + len && p in file {
      HasByteIsShown(g, s, id, file, p);
    }
  }

  /** The holes of the blocks are those of the file. */
  lemma HolesAreShown(g: Geometry, s: State, id: nat, file: map<nat, byte>, from: nat, to: nat)
    requires Sane(g, s) && Shows(s, id, file)
    ensures NoHole(s.mem, id, g.payload, from, to) <==> HoleFree(file, g.payload, from, to)
  {
    hide Sane, Shows, HasByte, Inhabited, Populated;
    forall h: nat, q: nat
      ensures HasByte(s.mem, id, q) <==> q in file
      ensures Inhabited(s.mem, id, h, g.payload) <==> Populated(file, h, g.payload)
    {
      HasByteIsShown(g, s, id, file, q);
      InhabitedIsPopulated(g, s, id, file, h, g.payload);
    }
  }

  /** A solid file has no holes. */
  lemma SolidHasNoHole(file: map<nat, byte>, end: nat, payload: nat, from: nat, to: nat)
    requires payload > 0 && Solid(file, end)
    ensures HoleFree(file, payload, from, to)
  {
    forall h: nat, q: nat | from <= h && h + payload <= q < to && q in file
      ensures Populated(file, h, payload)
    {
      assert h in file;
    }
  }

  // How much a read reports

  /** No block of the file reaches past `end`. */
  ghost predicate EndsBy(m: Mem, id: nat, end: nat) {
    forall b :: IsData(m, id, b) ==> EndOf(m.blocks[b]) <= end
  }

  /** Where a read of a file that ends at `end` should stop. */
  function Wanted(end: nat, size: nat, offset: nat): nat {
    Min(size, if end > offset then end - offset else 0)
  }

  lemma EmptyBehind(m: Mem, id: nat, end: nat, limit: nat, offset: nat)
    requires EndsBy(m, id, end) && offset >= end
    ensures ChunkLength(m, id, limit, offset) == 0
  {
    forall b | b in m.blocks
      ensures Reach(m.blocks[b], id, limit, offset) == 0
    {
      assert IsData(m, id, b) || m.blocks[b].op != DATA || m.blocks[b].node != id;
    }
    ChunkLengthIs(m, id, limit, offset, 0);
  }

  /** No chunk counts for more than a payload. */
  lemma ChunkAtMostPayload(m: Mem, id: nat, payload: nat, limit: nat, offset: nat)
    requires Fits(m, payload)
    ensures ChunkLength(m, id, limit, offset) <= payload
  {
    assert ReachBound(m, id, limit, offset, ChunkLength(m, id, limit, offset));
  }

  /** Whatever its holes and blocks, a read reports less than one payload more than there is. */
  lemma {:induction false} ReadStopsInTime(g: Geometry, m: Mem, id: nat, end: nat, size: nat, offset: nat, total: nat)
    requires g.payload > 0 && Fits(m, g.payload) && EndsBy(m, id, end)
    requires total < Wanted(end, size, offset) + g.payload
    ensures ReadTotal(g, m, id, size, offset, total) < Wanted(end, size, offset) + g.payload
    decreases size - total
  {
    hide ReadTotal, ChunkLength, EndsBy;
    if total >= size {
      ReadOver(g, m, id, size, offset, total);
    } else {
      var limit := Limit(g, size, total);
      var len := ChunkLength(m, id, limit, offset + total);
      ReadStep(g, m, id, size, offset, total, total + len);
      if offset + total >= end {
        EmptyBehind(m, id, end, limit, offset + total);
      } else {
        ChunkAtMostPayload(m, id, g.payload, limit, offset + total);
        if 0 < len && total + len < size {
          ReadStopsInTime(g, m, id, end, size, offset, total + len);
        }
      }
    }
  }

  lemma BytesEndBlocks(g: Geometry, s: State, id: nat, file: map<nat, byte>, end: nat)
    requires Sane(g, s) && Shows(s, id, file) && forall p :: p in file ==> p < end
    ensures EndsBy(s.mem, id, end)
  {
    hide Shows;
    forall b | IsData(s.mem, id, b)
      ensures EndOf(s.mem.blocks[b]) <= end
    {
      assert RowMatches(b, s.mem.blocks[b], s.disk[b]);
      assert Covers(s.mem.blocks[b], id, EndOf(s.mem.blocks[b]) - 1);
      HasByteIsShown(g, s, id, file, EndOf(s.mem.blocks[b]) - 1);
    }
  }

  /** For a file without holes in the range: never short of its last byte there, and less than one payload too much. */
  lemma HoleFreeTotal(g: Geometry, s: State, id: nat, file: map<nat, byte>, end: nat, size: nat, offset: nat)
    requires g.payload > 0 && Sane(g, s) && Fits(s.mem, g.payload) && Shows(s, id, file)
    requires HoleFree(file, g.payload, offset, offset + size) && forall p :: p in file ==> p < end
    ensures ReadTotal(g, s.mem, id, size, offset, 0) < Wanted(end, size, offset) + g.payload
    ensures forall q :: offset <= q < offset + size && q in file ==>
      q < offset + ReadTotal(g, s.mem, id, size, offset, 0)
  {
    hide Sane, Shows, HoleFree, HasByte, ReadTotal;
    BytesEndBlocks(g, s, id, file, end);
    ReadStopsInTime(g, s.mem, id, end, size, offset, 0);
    HolesAreShown(g, s, id, file, offset, offset + size);
    forall q | offset <= q < offset + size && q in file
      ensures q < offset + ReadTotal(g, s.mem, id, size, offset, 0)
    {
      HasByteIsShown(g, s, id, file, q);
      ReadsOn(g, s.mem, id, size, offset, 0, q);
    }
  }

  /** A solid file, whatever blocks it lies in: a read is never short, and less than one payload too long. */
  lemma SolidTotal(g: Geometry, s: State, id: nat, file: map<nat, byte>, end: nat, size: nat, offset: nat)
    requires g.payload > 0 && Sane(g, s) && Fits(s.mem, g.payload) && Shows(s, id, file) && Solid(file, end)
    ensures var want := Wanted(end, size, offset);
      want <= ReadTotal(g, s.mem, id, size, offset, 0) < want + g.payload
  {
    hide Sane, Shows, HoleFree, ReadTotal;
    SolidHasNoHole(file, end, g.payload, offset, offset + size);
    HoleFreeTotal(g, s, id, file, end, size, offset);
    if Wanted(end, size, offset) > 0 {
      assert offset + Wanted(end, size, offset) - 1 in file;
    }
  }

  // When the length is exact

  /** Where the chunk starts that gets a read to the wanted length, or that ends it. */
  ghost function LastStart(g: Geometry, m: Mem, id: nat, size: nat, offset: nat, total: nat, want: nat): (at: nat)
    requires total < want <= size
    ensures total <= at < want
    decreases size - total
  {
    var len := ChunkLength(m, id, Limit(g, size, total), offset + total);
    if len == 0 || total + len >= want then total else LastStart(g, m, id, size, offset, total + len, want)
  }

  /** What that chunk counts for. */
  ghost function LastLength(g: Geometry, m: Mem, id: nat, size: nat, offset: nat, total: nat, want: nat): nat
    requires total < want <= size
  {
    var at := LastStart(g, m, id, size, offset, total, want);
    ChunkLength(m, id, Limit(g, size, at), offset + at)
  }

  lemma LastStep(g: Geometry, m: Mem, id: nat, size: nat, offset: nat, total: nat, want: nat)
    requires total < want <= size
    ensures var len := ChunkLength(m, id, Limit(g, size, total), offset + total);
      var on := len > 0 && total + len < want;
      && LastStart(g, m, id, size, offset, total, want) ==
           (if on then LastStart(g, m, id, size, offset, total + len, want) else total)
      && LastLength(g, m, id, size, offset, total, want) ==
           (if on then LastLength(g, m, id, size, offset, total + len, want) else len)
  {
    hide ReachBound, Limit;
  }

  /** Before the wanted length every chunk of a gap-free file counts for something. */
  lemma StillCounts(g: Geometry, m: Mem, id: nat, end: nat, size: nat, offset: nat, total: nat)
    requires g.payload > 0 && GapFree(m, id, end) && total < Wanted(end, size, offset)
    ensures ChunkLength(m, id, Limit(g, size, total), offset + total) > 0
  {
    hide HasByte, ChunkLength;
    assert HasByte(m, id, offset + total);
    ChunkCounts(m, id, Limit(g, size, total), offset + total);
  }

  /** The chunk that reaches the wanted length ends the read. */
  lemma EndsHere(g: Geometry, m: Mem, id: nat, end: nat, size: nat, offset: nat, total: nat)
    requires g.payload > 0 && GapFree(m, id, end) && total < Wanted(end, size, offset)
    requires total + ChunkLength(m, id, Limit(g, size, total), offset + total) >= Wanted(end, size, offset)
    ensures ReadTotal(g, m, id, size, offset, total) ==
      total + ChunkLength(m, id, Limit(g, size, total), offset + total)
  {
    hide ReadTotal, ChunkLength, Limit, GapFree;
    var next := total + ChunkLength(m, id, Limit(g, size, total), offset + total);
    ReadStep(g, m, id, size, offset, total, next);
    if next < size {
      NothingBehind(m, id, end, Limit(g, size, next), offset + next);
      ReadStep(g, m, id, size, offset, next, next);
    }
  }

  /** A read of a gap-free file stops with that chunk. */
  lemma {:induction false} ReadEndsWithLast(g: Geometry, m: Mem, id: nat, end: nat, size: nat, offset: nat, total: nat)
    requires g.payload > 0 && GapFree(m, id, end) && total < Wanted(end, size, offset)
    ensures var want := Wanted(end, size, offset);
      var at := LastStart(g, m, id, size, offset, total, want);
      && at + LastLength(g, m, id, size, offset, total, want) >= want
      && ReadTotal(g, m, id, size, offset, total) == at + LastLength(g, m, id, size, offset, total, want)
    decreases size - total
  {
    hide ReadTotal, ChunkLength, LastStart, LastLength, GapFree, Limit, ReachBound;
    var want := Wanted(end, size, offset);
    var len := ChunkLength(m, id, Limit(g, size, total), offset + total);
    LastStep(g, m, id, size, offset, total, want);
    StillCounts(g, m, id, end, size, offset, total);
    if total + len < want {
      ReadStep(g, m, id, size, offset, total, total + len);
      ReadEndsWithLast(g, m, id, end, size, offset, total + len);
    } else {
      EndsHere(g, m, id, end, size, offset, total);
    }
  }

  /** The data in the range of that chunk ends where the wanted length does. */
  lemma LastEndsIn(m: Mem, id: nat, payload: nat, end: nat, size: nat, offset: nat, at: nat, limit: nat)
    requires payload > 0 && GapFree(m, id, end) && at < Wanted(end, size, offset)
    requires limit == Min(payload, size - at) && Wanted(end, size, offset) - at <= payload
    ensures EndsIn(m, id, limit, offset + at, Wanted(end, size, offset) - at)
  {
    hide HasByte;
    var want := Wanted(end, size, offset);
    forall b | b in m.blocks
      ensures ReachIn(m.blocks[b], id, limit, offset + at) <= want - at
    {
    }
    assert HasByte(m, id, offset + want - 1);
    var b := CoveringBlock(m, id, offset + want - 1);
    assert ReachIn(m.blocks[b], id, limit, offset + at) == want - at;
  }

  lemma CoveringBlock(m: Mem, id: nat, p: nat) returns (b: nat)
    requires HasByte(m, id, p)
    ensures b in m.blocks && Covers(m.blocks[b], id, p)
  {
    b :| b in m.blocks && Covers(m.blocks[b], id, p);
  }

  /**
   * In a solid file, from any position: the length reported is right if and only if the chunk that gets past the wanted
   * length reports exactly the rest, that is, some block counts for that and none straddling its start for more.
   */
  lemma SolidTotalExact(g: Geometry, s: State, id: nat, file: map<nat, byte>, end: nat, size: nat, offset: nat)
    requires g.payload > 0 && Sane(g, s) && Fits(s.mem, g.payload) && Shows(s, id, file) && Solid(file, end)
    requires Wanted(end, size, offset) > 0
    ensures var want := Wanted(end, size, offset);
      var at := LastStart(g, s.mem, id, size, offset, 0, want);
      ReadTotal(g, s.mem, id, size, offset, 0) == want <==>
      CountsExactly(s.mem, id, Limit(g, size, at), offset + at, want - at)
  {
    hide Sane, Shows, Solid, ReadTotal, LastStart, CountsExactly, EndsIn, GapFree;
    var want := Wanted(end, size, offset);
    var at := LastStart(g, s.mem, id, size, offset, 0, want);
    var limit := Limit(g, size, at);
    SolidIsGapFree(g, s, id, file, end);
    ReadEndsWithLast(g, s.mem, id, end, size, offset, 0);
    ChunkAtMostPayload(s.mem, id, g.payload, limit, offset + at);
    LastEndsIn(s.mem, id, g.payload, end, size, offset, at, limit);
    ChunkExact(s.mem, id, limit, offset + at, want - at);
  }
}
