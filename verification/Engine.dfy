/** The volume as a state machine: memory, disk and the next sequence number, advanced one block write at a time. */
module Engine {
  import opened Indexes
  import opened Records
  import opened Log
  import opened Lifetimes
  import opened Trees

  /** First and last block of the container, and the data bytes a block can carry. */
  datatype Geometry = Geometry(first: nat, last: nat, payload: nat)

  datatype State = State(mem: Mem, disk: Disk, nextSeq: nat)

  /** Where the allocator takes a block from. */
  datatype Source = Fresh | Reused | Reclaimed | TakenOver | NoSpace

  ghost predicate Has(m: Mem, filter: Block -> int) {
    AnyMatch(m.blocks, filter)
  }

  /** A fresh block while there is one; then a free one, then any delete record, then a node record of the same node. */
  ghost function SourceOf(g: Geometry, m: Mem, node: nat): Source {
    if m.nextBlock <= g.last then Fresh
    else if Has(m, OpFilter(FREE)) then Reused
    else if Has(m, OpFilter(DELETE)) then Reclaimed
    else if node >= 1 && Has(m, OpNodeFilter(NODE, node)) then TakenOver
    else NoSpace
  }

  ghost predicate FirstIn(m: Mem, filter: Block -> int, b: nat) {
    b in m.blocks && FirstMatch(m.blocks, BlockLookup, filter, Some(m.blocks[b]))
  }

  /** The block the allocator hands out: of the candidates, the first in the lookup order. */
  ghost predicate Picks(g: Geometry, m: Mem, node: nat, b: nat) {
    match SourceOf(g, m, node)
    case Fresh => b == m.nextBlock
    case Reused => FirstIn(m, OpFilter(FREE), b)
    case Reclaimed => FirstIn(m, OpFilter(DELETE), b)
    case TakenOver => FirstIn(m, OpNodeFilter(NODE, node), b)
    case NoSpace => false
  }

  /** One record goes to memory and to block `b`. */
  function Write(s: State, b: nat, body: Body): State {
    var rec := Record(s.nextSeq, body);
    State(Apply(s.mem, Logged(b, rec)), s.disk[b := rec], s.nextSeq + 1)
  }

  /** No data record is empty or larger than a payload. */
  predicate WellSized(body: Body, payload: nat) {
    body.Data? ==> 0 < |body.bytes| <= payload
  }

  /** One block write as the operations do it: a legal record goes to a block the allocator picks. */
  ghost predicate Wrote(g: Geometry, s: State, body: Body, b: nat, t: State) {
    && Picks(g, Effect(s.mem, body), body.Node(), b)
    && Legal(s.mem.nodes, body) && WellSized(body, g.payload)
    && t == Write(s, b, body)
  }

  /** `t` is reached from `s` by writing the records in order. */
  ghost predicate Writes(g: Geometry, s: State, bodies: seq<Body>, t: State) {
    if bodies == [] then s == t
    else exists u, b :: Writes(g, s, Init(bodies), u) && Wrote(g, u, Final(bodies), b, t)
  }

  function Formatted(g: Geometry): State {
    State(Empty(g.first), map[], 1)
  }

  /** Mounting a disk: replay its log; the next sequence number follows the newest record. */
  ghost function Mount(g: Geometry, disk: Disk): Option<State> {
    var log := LogOf(disk);
    match Replay(g.first, log)
    case None => None
    case Some(m) => Some(State(m, disk, if log == [] then 1 else Final(log).rec.seqno + 1))
  }

  /** The blocks table covers exactly the blocks from the first to the next one. */
  ghost predicate Dense(g: Geometry, s: State) {
    && g.first <= s.mem.nextBlock <= Max(g.first, g.last + 1)
    && s.mem.blocks.Keys == s.disk.Keys
    && (forall b :: b in s.disk <==> g.first <= b < s.mem.nextBlock)
  }

  ghost predicate Stamped(s: State) {
    && OneSeqnoEach(s.disk)
    && (forall b :: b in s.disk ==> s.disk[b].seqno < s.nextSeq)
    && (if s.disk == map[] then s.nextSeq == 1 else exists b :: b in s.disk && s.disk[b].seqno + 1 == s.nextSeq)
  }

  /** A row repeats the tag and header of the record in its block, except that it may be free or trimmed. */
  predicate RowMatches(b: nat, row: Block, rec: Record) {
    && row.block == b && row.seqno == rec.seqno && row.node == rec.body.Node() && row.offset == rec.body.Offset()
    && (row.op == FREE || (row.op == rec.body.Op() && row.fill <= rec.body.Fill() && (row.op == DATA ==> row.fill > 0)))
  }

  ghost predicate Mirrors(s: State) {
    && (forall b :: b in s.mem.blocks && b in s.disk ==> RowMatches(b, s.mem.blocks[b], s.disk[b]))
    && (forall b :: b in s.disk && s.disk[b].body.Data? ==> s.disk[b].body.bytes != [])
  }

  /** What every write keeps, whatever block it overwrites. */
  ghost predicate Sane(g: Geometry, s: State) {
    Dense(g, s) && Stamped(s) && Mirrors(s)
  }

  /** No node or row mentions a number at or above the next one to hand out. */
  ghost predicate Numbered(m: Mem) {
    && m.nextNode > 0 && (forall k :: k in m.nodes ==> k.node < m.nextNode)
    && (forall b :: b in m.blocks ==> m.blocks[b].node < m.nextNode)
  }

  lemma WriteNumbered(s: State, b: nat, body: Body)
    requires Numbered(s.mem)
    ensures Numbered(Write(s, b, body).mem)
  {
  }

  lemma RowEffectMatches(b: nat, row: Block, rec: Record, body: Body)
    requires RowMatches(b, row, rec)
    ensures RowMatches(b, RowEffect(row, body), rec)
  {
  }

  lemma PickedBlock(g: Geometry, s: State, body: Body, b: nat)
    requires Sane(g, s) && Picks(g, Effect(s.mem, body), body.Node(), b)
    ensures SourceOf(g, Effect(s.mem, body), body.Node()).Fresh? <==> b !in s.disk
    ensures b == s.mem.nextBlock <= g.last || b in s.disk
    ensures g.first <= b
  {
  }

  lemma FormattedSane(g: Geometry)
    ensures Sane(g, Formatted(g))
  {
  }

  lemma WriteDense(g: Geometry, s: State, b: nat, body: Body)
    requires Dense(g, s) && g.first <= b && (b == s.mem.nextBlock <= g.last || b in s.disk)
    ensures Dense(g, Write(s, b, body))
  {
    var s' := Write(s, b, body);
    assert s'.disk.Keys == s.disk.Keys + {b};
    assert s'.mem.blocks.Keys == s.mem.blocks.Keys + {b};
  }

  lemma WriteStamped(s: State, b: nat, body: Body)
    requires Stamped(s)
    ensures Stamped(Write(s, b, body))
  {
    var s' := Write(s, b, body);
    assert s'.disk[b].seqno + 1 == s'.nextSeq;
  }

  lemma WriteMirrors(s: State, b: nat, body: Body)
    requires Mirrors(s) && (body.Data? ==> body.bytes != []) && s.mem.blocks.Keys == s.disk.Keys
    ensures Mirrors(Write(s, b, body))
  {
    var s' := Write(s, b, body);
    forall c | c in s'.mem.blocks && c in s'.disk && c != b
      ensures RowMatches(c, s'.mem.blocks[c], s'.disk[c])
    {
      RowEffectMatches(c, s.mem.blocks[c], s.disk[c], body);
    }
  }

  lemma WriteSane(g: Geometry, s: State, b: nat, body: Body)
    requires Sane(g, s) && Picks(g, Effect(s.mem, body), body.Node(), b)
    requires body.Data? ==> body.bytes != []
    ensures Sane(g, Write(s, b, body))
  {
    PickedBlock(g, s, body, b);
    WriteDense(g, s, b, body);
    WriteStamped(s, b, body);
    WriteMirrors(s, b, body);
  }
}
