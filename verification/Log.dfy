/** The log: what each record does to memory, and what replaying the records of a disk rebuilds. */
module Log {
  import opened Indexes
  import opened Records

  /** The in-memory index: both tables and the two counters that loading restores. */
  datatype Mem = Mem(nodes: map<NodeKey, Node>, blocks: map<nat, Block>, nextNode: nat, nextBlock: nat)

  type Disk = map<nat, Record>

  /** A record together with the block that holds it. */
  datatype Logged = Logged(block: nat, rec: Record)

  function Max(a: nat, b: nat): nat {
    if a < b then b else a
  }

  function Min(a: nat, b: nat): nat {
    if a < b then a else b
  }

  /** The numbers from `lo` up to but not including `hi`. */
  function Between(lo: nat, hi: nat): (s: set<nat>)
    requires lo <= hi
    ensures |s| == hi - lo
    ensures forall b :: b in s <==> lo <= b < hi
    decreases hi
  {
    if lo == hi then {} else Between(lo, hi - 1) + {hi - 1}
  }

  function Empty(first: nat): Mem {
    Mem(map[], map[], 1, first)
  }

  function Freed(row: Block): Block {
    row.(op := FREE)
  }

  /** Cut a data row at the new end of its file; a row wholly behind it becomes free. */
  function Trim(row: Block, size: nat): Block {
    if row.offset >= size then Freed(row)
    else row.(fill := (if row.offset + row.fill > size then size else row.offset + row.fill) - row.offset)
  }

  /** What a record does to a row that is already in the blocks table. */
  function RowEffect(row: Block, body: Body): Block {
    match body
    case Delete(n) => if row.node == n.node && 1 <= row.op < LAST then Freed(row) else row
    case Truncate(id, size) =>
      if row.op == DATA && row.node == id then Trim(row, size)
      else if row.op == TRUNCATE && row.node == id then Freed(row)
      else row
    case _ => row
  }

  function NodesEffect(nodes: map<NodeKey, Node>, body: Body): map<NodeKey, Node> {
    match body
    case Entry(n) => nodes[KeyOf(n) := n]
    case Move(n) => nodes[KeyOf(n) := n]
    case Delete(n) => map k | k in nodes && k.node != n.node :: nodes[k]
    case _ => nodes
  }

  /** What a record does to both tables before its own block row is entered. */
  function Effect(m: Mem, body: Body): Mem {
    m.(nodes := NodesEffect(m.nodes, body), blocks := map b | b in m.blocks :: RowEffect(m.blocks[b], body))
  }

  /** A move fails when its target slot is taken. */
  predicate Conflict(nodes: map<NodeKey, Node>, body: Body) {
    body.Move? && exists k :: k in nodes && SameSlot(nodes[k], body.entry)
  }

  predicate SameSlot(a: Node, b: Node) {
    a.parent == b.parent && a.name == b.name
  }

  /** Enter the block row of a record; node and block counters move past what it mentions. */
  function AddRow(m: Mem, b: nat, rec: Record): Mem {
    m.(blocks := m.blocks[b := RowOf(b, rec)],
       nextNode := Max(m.nextNode, rec.body.Node() + 1),
       nextBlock := Max(m.nextBlock, b + 1))
  }

  function Apply(m: Mem, e: Logged): Mem {
    AddRow(Effect(m, e.rec.body), e.block, e.rec)
  }

  /** All records applied in order, whether or not a move conflicts. */
  function Rebuild(first: nat, log: seq<Logged>): Mem {
    if log == [] then Empty(first) else Apply(Rebuild(first, log[..|log| - 1]), log[|log| - 1])
  }

  /** Loading: the same fold, given up at the first conflicting move. */
  function Replay(first: nat, log: seq<Logged>): Option<Mem> {
    if log == [] then Some(Empty(first))
    else
      match Replay(first, log[..|log| - 1])
      case None => None
      case Some(m) =>
        if Conflict(m.nodes, log[|log| - 1].rec.body) then None else Some(Apply(m, log[|log| - 1]))
  }

  /** A load that succeeds yields the rebuilt state; without moves it always succeeds. */
  lemma {:induction false} ReplayIsRebuild(first: nat, log: seq<Logged>)
    ensures Replay(first, log).Some? ==> Replay(first, log).value == Rebuild(first, log)
    ensures (forall i :: 0 <= i < |log| ==> !log[i].rec.body.Move?) ==> Replay(first, log).Some?
  {
    if log != [] {
      ReplayIsRebuild(first, log[..|log| - 1]);
    }
  }

  // The log of a disk

  ghost predicate OneSeqnoEach(disk: Disk) {
    forall b, c :: b in disk && c in disk && b != c ==> disk[b].seqno != disk[c].seqno
  }

  ghost predicate Newest(disk: Disk, b: nat) {
    b in disk && forall c :: c in disk ==> disk[c].seqno <= disk[b].seqno
  }

  lemma {:induction false} NewestExists(disk: Disk)
    requires disk != map[]
    ensures exists b :: Newest(disk, b)
    decreases |disk|
  {
    var c :| c in disk;
    var rest := disk - {c};
    assert forall d :: d in disk ==> d == c || d in rest;
    if rest == map[] {
      assert forall d :: d in disk ==> d == c;
      assert Newest(disk, c);
    } else {
      NewestExists(rest);
      var b :| Newest(rest, b);
      var top := if disk[b].seqno < disk[c].seqno then c else b;
      assert forall d :: d in rest ==> disk[d].seqno <= disk[top].seqno;
      assert Newest(disk, top);
    }
  }

  ghost function NewestOf(disk: Disk): (b: nat)
    requires disk != map[]
    ensures Newest(disk, b)
  {
    NewestExists(disk);
    var b :| Newest(disk, b);
    b
  }

  /** The records of a disk in the order of their sequence numbers. */
  ghost function LogOf(disk: Disk): seq<Logged>
    decreases |disk|
  {
    if disk == map[] then []
    else
      var b := NewestOf(disk);
      LogOf(disk - {b}) + [Logged(b, disk[b])]
  }

  ghost predicate Enumerates(disk: Disk, log: seq<Logged>) {
    && (forall i :: 0 <= i < |log| ==> log[i].block in disk && disk[log[i].block] == log[i].rec)
    && (forall b :: b in disk ==> Logged(b, disk[b]) in log)
    && Ascending(log)
  }

  ghost predicate Ascending(log: seq<Logged>) {
    forall i, j :: 0 <= i < j < |log| ==> log[i].rec.seqno < log[j].rec.seqno
  }

  lemma EnumeratesSnoc(disk: Disk, rest: seq<Logged>, b: nat)
    requires OneSeqnoEach(disk) && Newest(disk, b) && Enumerates(disk - {b}, rest)
    ensures Enumerates(disk, rest + [Logged(b, disk[b])])
  {
    var old', log := disk - {b}, rest + [Logged(b, disk[b])];
    assert disk == old'[b := disk[b]];
    forall c | c in disk
      ensures Logged(c, disk[c]) in log
    {
      assert c == b || Logged(c, old'[c]) in rest;
    }
    forall i | 0 <= i < |rest|
      ensures log[i].rec.seqno < disk[b].seqno
    {
      assert rest[i].block in old' && rest[i].block != b;
    }
  }

  lemma {:induction false} LogEnumerates(disk: Disk)
    requires OneSeqnoEach(disk)
    ensures Enumerates(disk, LogOf(disk))
    decreases |disk|
  {
    if disk != map[] {
      var b := NewestOf(disk);
      LogEnumerates(disk - {b});
      EnumeratesSnoc(disk, LogOf(disk - {b}), b);
    }
  }

  lemma LogStep(disk: Disk)
    requires disk != map[]
    ensures LogOf(disk) == LogOf(disk - {NewestOf(disk)}) + [Logged(NewestOf(disk), disk[NewestOf(disk)])]
  {
  }

  lemma EnumeratesNothing(disk: Disk, log: seq<Logged>)
    requires Enumerates(disk, log)
    ensures log == [] <==> disk == map[]
    ensures log == [] ==> LogOf(disk) == []
  {
    if log != [] {
      assert log[0].block in disk;
    }
  }

  /** Sorting the tags of a disk can only give this one log. */
  lemma {:induction false} LogUnique(disk: Disk, log: seq<Logged>)
    requires OneSeqnoEach(disk) && Enumerates(disk, log)
    ensures log == LogOf(disk)
    decreases |disk|
  {
    hide Enumerates, OneSeqnoEach, LogOf;
    EnumeratesNothing(disk, log);
    if log != [] {
      var rest, b := log[..|log| - 1], NewestOf(disk);
      LogStep(disk);
      LastIsNewest(disk, log, b);
      EnumeratesInit(disk, log, b);
      OneSeqnoFewer(disk, b);
      LogUnique(disk - {b}, rest);
      assert log == rest + [log[|log| - 1]];
    }
  }

  lemma OneSeqnoFewer(disk: Disk, b: nat)
    requires OneSeqnoEach(disk)
    ensures OneSeqnoEach(disk - {b})
  {
  }

  lemma LastIsNewest(disk: Disk, log: seq<Logged>, b: nat)
    requires OneSeqnoEach(disk) && Enumerates(disk, log) && Newest(disk, b)
    ensures log != [] && log[|log| - 1] == Logged(b, disk[b])
  {
    assert Logged(b, disk[b]) in log;
    var i :| 0 <= i < |log| && log[i] == Logged(b, disk[b]);
    assert log[|log| - 1].block in disk;
  }

  lemma RestIsListed(disk: Disk, log: seq<Logged>, b: nat)
    requires Enumerates(disk, log) && log != [] && b in disk && log[|log| - 1] == Logged(b, disk[b])
    ensures forall c :: c in disk - {b} ==> Logged(c, (disk - {b})[c]) in log[..|log| - 1]
  {
    hide Ascending;
    assert log == log[..|log| - 1] + [log[|log| - 1]];
    forall c | c in disk - {b}
      ensures Logged(c, disk[c]) in log[..|log| - 1]
    {
      assert Logged(c, disk[c]) in log;
    }
  }

  lemma EnumeratesInit(disk: Disk, log: seq<Logged>, b: nat)
    requires OneSeqnoEach(disk) && Enumerates(disk, log) && log != []
    requires b in disk && log[|log| - 1] == Logged(b, disk[b])
    ensures Enumerates(disk - {b}, log[..|log| - 1])
  {
    hide OneSeqnoEach, Newest;
    var rest, old' := log[..|log| - 1], disk - {b};
    RestIsListed(disk, log, b);
    forall j | 0 <= j < |rest|
      ensures rest[j].block in old' && old'[rest[j].block] == rest[j].rec
    {
      assert rest[j] == log[j] && log[j].rec.seqno < log[|log| - 1].rec.seqno;
    }
    assert Ascending(rest);
  }

  /** Writing a newest record over block `b` takes the old record of `b` out and puts the new one last. */
  lemma LogOfWrite(disk: Disk, b: nat, rec: Record)
    requires OneSeqnoEach(disk) && forall c :: c in disk ==> disk[c].seqno < rec.seqno
    ensures OneSeqnoEach(disk[b := rec])
    ensures LogOf(disk[b := rec]) == LogOf(disk - {b}) + [Logged(b, rec)]
  {
    var disk' := disk[b := rec];
    assert b in disk';
    assert NewestOf(disk') == b;
    assert disk' - {b} == disk - {b};
  }

  function Drop<T>(s: seq<T>, i: nat): seq<T>
    requires i < |s|
  {
    s[..i] + s[i + 1..]
  }

  /** Taking out a block that is not the newest leaves the newest one the newest. */
  lemma NewestStays(disk: Disk, b: nat)
    requires OneSeqnoEach(disk) && b in disk && b != NewestOf(disk)
    ensures NewestOf(disk) in disk - {b} && NewestOf(disk - {b}) == NewestOf(disk)
    ensures OneSeqnoEach(disk - {NewestOf(disk)}) && b in disk - {NewestOf(disk)}
  {
  }

  lemma DropSnoc<T>(s: seq<T>, x: T, i: nat)
    requires i < |s|
    ensures Drop(s + [x], i) == Drop(s, i) + [x]
  {
  }

  lemma {:induction false} LogOfDrop(disk: Disk, b: nat) returns (i: nat)
    requires OneSeqnoEach(disk) && b in disk
    ensures i < |LogOf(disk)| && LogOf(disk)[i] == Logged(b, disk[b])
    ensures LogOf(disk - {b}) == Drop(LogOf(disk), i)
    decreases |disk|
  {
    hide LogOf, OneSeqnoEach, Newest;
    var last := NewestOf(disk);
    LogStep(disk);
    if last == b {
      i := |LogOf(disk)| - 1;
    } else {
      NewestStays(disk, b);
      i := LogOfDrop(disk - {last}, b);
      LogStep(disk - {b});
      assert disk - {b} - {last} == disk - {last} - {b};
      DropSnoc(LogOf(disk - {last}), Logged(last, disk[last]), i);
    }
  }
}
