/** File bytes: an overlay of data blocks in sequence order, refined to a plain map from position to byte. */
module FileData {
  import opened Indexes
  import opened Records
  import opened Log
  import opened Lifetimes
  import opened Reuse
  import opened Engine

  lemma {:induction false} MaxIn<T>(s: set<T>, f: T -> int) returns (x: T)
    requires s != {}
    ensures x in s && forall y :: y in s ==> f(y) <= f(x)
  {
    x :| x in s;
    if s != {x} {
      var y := MaxIn(s - {x}, f);
      if f(x) < f(y) {
        x := y;
      }
    }
  }

  // What the blocks of a file hold

  predicate Covers(row: Block, id: nat, p: nat) {
    row.op == DATA && row.node == id && row.offset <= p < row.offset + row.fill
  }

  ghost predicate Top(m: Mem, id: nat, p: nat, b: nat) {
    && b in m.blocks && Covers(m.blocks[b], id, p)
    && forall c :: c in m.blocks && Covers(m.blocks[c], id, p) ==> m.blocks[c].seqno <= m.blocks[b].seqno
  }

  /** The byte a block stores for position `p` of its file. */
  function Stored(disk: Disk, b: nat, p: nat): Option<byte> {
    if b in disk && disk[b].body.Data? && disk[b].body.offset <= p < disk[b].body.offset + |disk[b].body.bytes|
    then Some(disk[b].body.bytes[p - disk[b].body.offset]) else None
  }

  /** The byte of a file at a position: from the newest live block that covers it. */
  ghost function ByteAt(s: State, id: nat, p: nat): Option<byte> {
    if exists b :: Top(s.mem, id, p, b) then Stored(s.disk, TopOf(s.mem, id, p), p) else None
  }

  ghost function TopOf(m: Mem, id: nat, p: nat): (b: nat)
    requires exists b :: Top(m, id, p, b)
    ensures Top(m, id, p, b)
  {
    var b :| Top(m, id, p, b);
    b
  }

  lemma TopExists(m: Mem, id: nat, p: nat, c: nat) returns (b: nat)
    requires c in m.blocks && Covers(m.blocks[c], id, p)
    ensures Top(m, id, p, b)
  {
    var covering: set<nat> := set d | d in m.blocks && Covers(m.blocks[d], id, p);
    var age: nat -> int := (d: nat) => if d in m.blocks then m.blocks[d].seqno else 0;
    assert c in covering;
    b := MaxIn(covering, age);
    forall d | d in m.blocks && Covers(m.blocks[d], id, p)
      ensures m.blocks[d].seqno <= m.blocks[b].seqno
    {
      assert d in covering;
    }
  }

  lemma ByteFrom(g: Geometry, s: State, id: nat, p: nat, b: nat)
    requires Sane(g, s) && Top(s.mem, id, p, b)
    ensures ByteAt(s, id, p) == Stored(s.disk, b, p) && ByteAt(s, id, p).Some?
  {
    var c := TopOf(s.mem, id, p);
    assert RowMatches(b, s.mem.blocks[b], s.disk[b]) && RowMatches(c, s.mem.blocks[c], s.disk[c]);
    assert b == c;
  }

  // The plain file

  /** The bytes `bytes` at positions from `offset` on. */
  function Placed(offset: nat, bytes: seq<byte>): map<nat, byte> {
    map p | p in Between(offset, offset + |bytes|) :: At(offset, bytes, p)
  }

  function At(offset: nat, bytes: seq<byte>, p: nat): byte
    requires offset <= p < offset + |bytes|
  {
    bytes[p - offset]
  }

  /** What one record means to a file: a write overrides bytes, a truncate or delete drops them. */
  function FileStep(file: map<nat, byte>, id: nat, body: Body): map<nat, byte> {
    match body
    case Data(n, offset, bytes) => if n == id then file + Placed(offset, bytes) else file
    case Truncate(n, size) => if n == id then map p | p in file && p < size :: file[p] else file
    case Delete(n) => if n.node == id then map[] else file
    case _ => file
  }

  function File(id: nat, history: seq<Body>): map<nat, byte> {
    if history == [] then map[] else FileStep(File(id, Init(history)), id, Final(history))
  }

  /** The live blocks of a file hold exactly the bytes of the plain file. */
  ghost predicate Shows(s: State, id: nat, file: map<nat, byte>) {
    forall p :: ByteAt(s, id, p) == Get(file, p)
  }

  lemma CoversAfter(row: Block, body: Body, id: nat, p: nat)
    ensures Covers(RowEffect(row, body), id, p) <==>
      && Covers(row, id, p)
      && !(body.Truncate? && body.id == id && p >= body.size)
      && !(body.Delete? && body.entry.node == id)
    ensures RowEffect(row, body).seqno == row.seqno
  {
  }

  /** Whether position `p` of file `id` keeps the byte it had. */
  predicate Untouched(body: Body, id: nat, p: nat) {
    && !(body.Data? && body.id == id && body.offset <= p < body.offset + |body.bytes|)
    && !(body.Truncate? && body.id == id && p >= body.size)
    && !(body.Delete? && body.entry.node == id)
  }

  /** What one record means to the byte at `p` of a file. */
  function ByteStep(old_: Option<byte>, body: Body, id: nat, p: nat): Option<byte> {
    if Untouched(body, id, p) then old_
    else if body.Data? then Some(body.bytes[p - body.offset]) else None
  }

  /** What a sequence of records means to it. */
  function ByteLater(old_: Option<byte>, bodies: seq<Body>, id: nat, p: nat): Option<byte>
    decreases |bodies|
  {
    if bodies == [] then old_ else ByteLater(ByteStep(old_, bodies[0], id, p), bodies[1..], id, p)
  }

  lemma {:induction false} ByteLaterSnoc(old_: Option<byte>, bodies: seq<Body>, id: nat, p: nat)
    requires bodies != []
    ensures ByteLater(old_, bodies, id, p) == ByteStep(ByteLater(old_, Init(bodies), id, p), Final(bodies), id, p)
    decreases |bodies|
  {
    if |bodies| > 1 {
      ByteLaterSnoc(ByteStep(old_, bodies[0], id, p), bodies[1..], id, p);
      assert Init(bodies)[1..] == Init(bodies[1..]);
    }
  }

  /** A write to a block that holds no live data changes the files as the plain operation does. */
  lemma WriteByte(g: Geometry, s: State, b: nat, body: Body, id: nat, p: nat)
    requires Sane(g, s) && Sane(g, Write(s, b, body))
    requires b in s.mem.blocks ==> RowEffect(s.mem.blocks[b], body).op != DATA
    ensures ByteAt(Write(s, b, body), id, p) == ByteStep(ByteAt(s, id, p), body, id, p)
  {
    hide Sane, Covers, Untouched, ByteAt;
    if body.Data? && !Untouched(body, id, p) {
      NewByte(g, s, b, body, id, p);
    } else {
      OldByte(g, s, b, body, id, p);
    }
  }

  /** New data has the greatest sequence number of all that covers a position. */
  lemma NewByte(g: Geometry, s: State, b: nat, body: Body, id: nat, p: nat)
    requires Sane(g, s) && Sane(g, Write(s, b, body)) && body.Data? && !Untouched(body, id, p)
    ensures ByteAt(Write(s, b, body), id, p) == ByteStep(ByteAt(s, id, p), body, id, p)
  {
    hide ByteAt, Stamped, Dense;
    var t := Write(s, b, body);
    assert Top(t.mem, id, p, b) by {
      forall c | c in t.mem.blocks && c != b
        ensures t.mem.blocks[c].seqno < s.nextSeq
      {
        OldSeqno(g, s, c);
      }
    }
    ByteFrom(g, t, id, p, b);
  }

  lemma OldSeqno(g: Geometry, s: State, c: nat)
    requires Sane(g, s) && c in s.mem.blocks
    ensures s.mem.blocks[c].seqno < s.nextSeq
  {
    assert RowMatches(c, s.mem.blocks[c], s.disk[c]);
  }

  /** Without new data at `p`, the blocks covering it are the old ones, or none. */
  lemma CoveringAfter(s: State, b: nat, body: Body, id: nat, p: nat, c: nat)
    requires body.Data? ==> Untouched(body, id, p)
    requires b in s.mem.blocks ==> RowEffect(s.mem.blocks[b], body).op != DATA
    ensures var t := Write(s, b, body);
      && (c in t.mem.blocks && Covers(t.mem.blocks[c], id, p) <==>
            Untouched(body, id, p) && c in s.mem.blocks && Covers(s.mem.blocks[c], id, p))
      && (c in t.mem.blocks && Covers(t.mem.blocks[c], id, p) ==>
            c != b && t.mem.blocks[c].seqno == s.mem.blocks[c].seqno)
  {
    if c in s.mem.blocks {
      CoversAfter(s.mem.blocks[c], body, id, p);
    }
  }

  lemma OldByte(g: Geometry, s: State, b: nat, body: Body, id: nat, p: nat)
    requires Sane(g, s) && Sane(g, Write(s, b, body)) && (body.Data? ==> Untouched(body, id, p))
    requires b in s.mem.blocks ==> RowEffect(s.mem.blocks[b], body).op != DATA
    ensures ByteAt(Write(s, b, body), id, p) == if Untouched(body, id, p) then ByteAt(s, id, p) else None
  {
    var t := Write(s, b, body);
    forall c
      ensures Top(t.mem, id, p, c) <==> Untouched(body, id, p) && Top(s.mem, id, p, c)
    {
      SameTop(s, b, body, id, p, c);
    }
    if c :| Top(t.mem, id, p, c) {
      CoveringAfter(s, b, body, id, p, c);
      SameByte(g, s, t, id, p, c);
    }
  }

  lemma SameByte(g: Geometry, s: State, t: State, id: nat, p: nat, c: nat)
    requires Sane(g, s) && Sane(g, t) && Top(s.mem, id, p, c) && Top(t.mem, id, p, c)
    requires c in s.disk && c in t.disk && s.disk[c] == t.disk[c]
    ensures ByteAt(s, id, p) == ByteAt(t, id, p)
  {
    hide Sane, Stored, ByteAt, Top;
    ByteFrom(g, t, id, p, c);
    ByteFrom(g, s, id, p, c);
    SameStored(s.disk, t.disk, c, p);
  }

  lemma SameStored(d: Disk, e: Disk, c: nat, p: nat)
    requires c in d && c in e && d[c] == e[c]
    ensures Stored(d, c, p) == Stored(e, c, p)
  {
  }

  lemma SameTop(s: State, b: nat, body: Body, id: nat, p: nat, c: nat)
    requires body.Data? ==> Untouched(body, id, p)
    requires b in s.mem.blocks ==> RowEffect(s.mem.blocks[b], body).op != DATA
    ensures Top(Write(s, b, body).mem, id, p, c) <==> Untouched(body, id, p) && Top(s.mem, id, p, c)
  {
    CoveringAfter(s, b, body, id, p, c);
    forall d
      ensures var t := Write(s, b, body);
        && (d in t.mem.blocks && Covers(t.mem.blocks[d], id, p) <==>
              Untouched(body, id, p) && d in s.mem.blocks && Covers(s.mem.blocks[d], id, p))
        && (d in t.mem.blocks && Covers(t.mem.blocks[d], id, p) ==> t.mem.blocks[d].seqno == s.mem.blocks[d].seqno)
    {
      CoveringAfter(s, b, body, id, p, d);
    }
  }

  // Refinement

  lemma PlacedAt(offset: nat, bytes: seq<byte>, p: nat)
    ensures Get(Placed(offset, bytes), p) == if offset <= p < offset + |bytes| then Some(bytes[p - offset]) else None
  {
    var range := Between(offset, offset + |bytes|);
    assert p in range <==> offset <= p < offset + |bytes|;
    assert p in Placed(offset, bytes) <==> p in range;
  }

  lemma DataStepAt(file: map<nat, byte>, offset: nat, bytes: seq<byte>, p: nat)
    ensures Get(file + Placed(offset, bytes), p) ==
      if offset <= p < offset + |bytes| then Some(bytes[p - offset]) else Get(file, p)
  {
    hide Placed;
    PlacedAt(offset, bytes, p);
    assert p in file + Placed(offset, bytes) <==> p in file || p in Placed(offset, bytes);
  }

  lemma FileStepAt(file: map<nat, byte>, id: nat, body: Body, p: nat)
    ensures Get(FileStep(file, id, body), p) == ByteStep(Get(file, p), body, id, p)
  {
    hide Placed;
    if body.Data? {
      DataStepAt(file, body.offset, body.bytes, p);
    }
  }

  /** Every block write outside live data keeps each file equal to the plain file stepped by the same record. */
  lemma WriteShows(g: Geometry, s: State, b: nat, body: Body, id: nat, file: map<nat, byte>)
    requires Sane(g, s) && Sane(g, Write(s, b, body)) && Shows(s, id, file)
    requires b in s.mem.blocks ==> RowEffect(s.mem.blocks[b], body).op != DATA
    ensures Shows(Write(s, b, body), id, FileStep(file, id, body))
  {
    forall p
      ensures ByteAt(Write(s, b, body), id, p) == Get(FileStep(file, id, body), p)
    {
      WriteByte(g, s, b, body, id, p);
      FileStepAt(file, id, body, p);
      assert ByteAt(s, id, p) == Get(file, p);
    }
  }

  /** A picked block never holds live data, not even in a takeover. */
  lemma PickedHoldsNoData(g: Geometry, s: State, b: nat, body: Body)
    requires Sane(g, s) && Picks(g, Effect(s.mem, body), body.Node(), b)
    ensures b in s.mem.blocks ==> RowEffect(s.mem.blocks[b], body).op != DATA
  {
  }

  /** Memories that agree on their live rows show the same files. */
  lemma AlikeShows(g: Geometry, s: State, t: State, id: nat, file: map<nat, byte>)
    requires Sane(g, s) && Sane(g, t)
    requires RowsAlike(s.mem, t.mem) && s.disk == t.disk && Shows(s, id, file)
    ensures Shows(t, id, file)
  {
    forall p
      ensures ByteAt(t, id, p) == ByteAt(s, id, p)
    {
      forall b
        ensures Top(s.mem, id, p, b) <==> Top(t.mem, id, p, b)
      {
        AlikeTop(s.mem, t.mem, id, p, b);
      }
      if b :| Top(s.mem, id, p, b) {
        SameByte(g, s, t, id, p, b);
      }
    }
    assert forall p :: ByteAt(t, id, p) == Get(file, p) by {
      assert forall p :: ByteAt(s, id, p) == Get(file, p);
    }
  }

  lemma AlikeRow(m: Mem, n: Mem, b: nat)
    requires RowsAlike(m, n)
    ensures b in m.blocks <==> b in n.blocks
    ensures b in m.blocks && m.blocks[b].op == DATA ==> m.blocks[b] == n.blocks[b]
  {
  }

  lemma AlikeTop(m: Mem, n: Mem, id: nat, p: nat, b: nat)
    requires RowsAlike(m, n)
    ensures Top(m, id, p, b) <==> Top(n, id, p, b)
  {
    forall c
      ensures c in m.blocks && Covers(m.blocks[c], id, p) <==> c in n.blocks && Covers(n.blocks[c], id, p)
      ensures c in m.blocks && Covers(m.blocks[c], id, p) ==> m.blocks[c] == n.blocks[c]
    {
      AlikeRow(m, n, c);
    }
  }

  // Chunked writes

  /** The records of one write call: full payloads from `offset` on, and a shorter last one. */
  ghost predicate IsChunks(bodies: seq<Body>, id: nat, offset: nat, data: seq<byte>, payload: nat)
    requires payload > 0
    decreases |data|
  {
    if data == [] then bodies == []
    else
      var n := Min(|data|, payload);
      && bodies != [] && bodies[0] == Data(id, offset, data[..n])
      && IsChunks(bodies[1..], id, offset + n, data[n..], payload)
  }

  lemma {:induction false} ChunksExist(id: nat, offset: nat, data: seq<byte>, payload: nat) returns (bodies: seq<Body>)
    requires payload > 0
    ensures IsChunks(bodies, id, offset, data, payload)
    decreases |data|
  {
    if data == [] {
      bodies := [];
    } else {
      var n := Min(|data|, payload);
      var rest := ChunksExist(id, offset + n, data[n..], payload);
      bodies := [Data(id, offset, data[..n])] + rest;
      assert bodies[1..] == rest;
    }
  }

  /** However it is cut up, a write means one override of the bytes it covers. */
  lemma {:induction false} ChunksWriteAll(old_: Option<byte>, bodies: seq<Body>, id: nat, offset: nat,
                                           data: seq<byte>, payload: nat, p: nat)
    requires payload > 0 && IsChunks(bodies, id, offset, data, payload)
    ensures ByteLater(old_, bodies, id, p) == if offset <= p < offset + |data| then Some(data[p - offset]) else old_
    decreases |data|
  {
    if data != [] {
      var n := Min(|data|, payload);
      ChunksWriteAll(ByteStep(old_, bodies[0], id, p), bodies[1..], id, offset + n, data[n..], payload, p);
      if offset + n <= p < offset + |data| {
        AtSplit(offset, data, n, p);
      }
    }
  }

  lemma AtSplit(offset: nat, data: seq<byte>, n: nat, p: nat)
    requires n <= |data| && offset + n <= p < offset + |data|
    ensures data[n..][p - (offset + n)] == data[p - offset]
  {
  }
}
