/** Remounting gives back the live state: exactly while blocks are only appended, and up to free rows under reuse. */
module Recovery {
  import opened Indexes
  import opened Records
  import opened Log
  import opened Lifetimes
  import opened Reuse
  import opened Engine

  /** Loading the disk yields exactly the memory of the running volume. */
  ghost predicate Exact(g: Geometry, s: State) {
    Replay(g.first, LogOf(s.disk)) == Some(s.mem)
  }

  /** The records on disk rebuild the live nodes, the live non-free rows and the places of the free ones. */
  ghost predicate Recoverable(g: Geometry, s: State) {
    var m := Rebuild(g.first, LogOf(s.disk));
    Equivalent(m, s.mem) && m.nextNode <= s.mem.nextNode
  }

  /** The records on disk rebuild the live non-free rows and the places of the free ones. */
  ghost predicate RowsRecoverable(g: Geometry, s: State) {
    RowsAlike(Rebuild(g.first, LogOf(s.disk)), s.mem)
  }

  lemma RecoverableRows(g: Geometry, s: State)
    requires Recoverable(g, s)
    ensures RowsRecoverable(g, s)
  {
    hide Rebuild, LogOf;
  }

  lemma LogShape(s: State)
    requires Stamped(s) && Mirrors(s)
    ensures DistinctBlocks(LogOf(s.disk)) && DataNotEmpty(LogOf(s.disk))
    ensures Enumerates(s.disk, LogOf(s.disk))
  {
    var log := LogOf(s.disk);
    LogEnumerates(s.disk);
    forall i, j | 0 <= i < j < |log|
      ensures log[i].block != log[j].block
    {
      assert log[i].rec.seqno < log[j].rec.seqno;
    }
  }

  // Counters

  lemma {:induction false} RebuildCounters(first: nat, log: seq<Logged>)
    ensures var m := Rebuild(first, log);
      && m.nextBlock >= first
      && (forall i :: 0 <= i < |log| ==> log[i].block < m.nextBlock)
      && (m.nextBlock == first || exists i :: 0 <= i < |log| && log[i].block + 1 == m.nextBlock)
  {
    if log != [] {
      RebuildCounters(first, Init(log));
      forall i | 0 <= i < |log|
        ensures log[i].block < Rebuild(first, log).nextBlock
      {
        assert i < |log| - 1 ==> log[i] == Init(log)[i];
      }
      var m := Rebuild(first, log);
      if m.nextBlock != first && m.nextBlock != log[|log| - 1].block + 1 {
        var i :| 0 <= i < |Init(log)| && Init(log)[i].block + 1 == m.nextBlock;
        assert log[i].block + 1 == m.nextBlock;
      }
    }
  }

  lemma {:induction false} RebuildNumbers(first: nat, log: seq<Logged>)
    ensures var n := Rebuild(first, log).nextNode;
      && n >= 1
      && (forall i :: 0 <= i < |log| ==> log[i].rec.body.Node() < n)
      && (n == 1 || exists i :: 0 <= i < |log| && log[i].rec.body.Node() + 1 == n)
  {
    if log != [] {
      RebuildNumbers(first, Init(log));
      var n := Rebuild(first, log).nextNode;
      forall i | 0 <= i < |log|
        ensures log[i].rec.body.Node() < n
      {
        assert i < |log| - 1 ==> log[i] == Init(log)[i];
      }
      if n != 1 && n != Final(log).rec.body.Node() + 1 {
        var i :| 0 <= i < |Init(log)| && Init(log)[i].rec.body.Node() + 1 == n;
        assert log[i].rec.body.Node() + 1 == n;
      }
    }
  }

  /** The highest number the node counter has handed out is named by a record on the disk, or none was handed out. */
  ghost predicate HighestNamed(s: State) {
    s.mem.nextNode == 1 || exists b :: b in s.disk && s.disk[b].body.Node() + 1 == s.mem.nextNode
  }

  /** The node counter comes back if and only if the highest number is still named on the disk; it is never greater. */
  lemma NodeCounterExact(g: Geometry, s: State)
    requires Sane(g, s) && Numbered(s.mem)
    ensures Rebuild(g.first, LogOf(s.disk)).nextNode <= s.mem.nextNode
    ensures Rebuild(g.first, LogOf(s.disk)).nextNode == s.mem.nextNode <==> HighestNamed(s)
  {
    hide LogOf, Rebuild, DataNotEmpty, DistinctBlocks;
    var log := LogOf(s.disk);
    LogShape(s);
    RebuildNumbers(g.first, log);
    forall b | b in s.disk
      ensures s.disk[b].body.Node() < s.mem.nextNode && Logged(b, s.disk[b]) in log
    {
      assert RowMatches(b, s.mem.blocks[b], s.disk[b]);
    }
    forall i | 0 <= i < |log|
      ensures log[i].block in s.disk && s.disk[log[i].block] == log[i].rec
    {
    }
  }

  /** The block counter and the sequence counter come back from the disk alone. */
  lemma BlockCounterReturns(g: Geometry, s: State)
    requires Sane(g, s)
    ensures Rebuild(g.first, LogOf(s.disk)).nextBlock == s.mem.nextBlock
  {
    hide LogOf, Rebuild, DataNotEmpty, DistinctBlocks;
    var log := LogOf(s.disk);
    LogShape(s);
    RebuildCounters(g.first, log);
    if s.mem.nextBlock > g.first {
      assert s.mem.nextBlock - 1 in s.disk;
      assert Logged(s.mem.nextBlock - 1, s.disk[s.mem.nextBlock - 1]) in log;
    }
  }

  lemma SeqCounterReturns(g: Geometry, s: State)
    requires Sane(g, s)
    ensures (if LogOf(s.disk) == [] then 1 else Final(LogOf(s.disk)).rec.seqno + 1) == s.nextSeq
  {
    hide LogOf, DataNotEmpty, DistinctBlocks, Dense, Mirrors;
    var log := LogOf(s.disk);
    LogShape(s);
    if log != [] {
      assert log[0].block in s.disk;
      var b :| b in s.disk && s.disk[b].seqno + 1 == s.nextSeq;
      assert Logged(b, s.disk[b]) in log;
      assert Final(log).block in s.disk;
    }
  }

  lemma CountersReturn(g: Geometry, s: State)
    requires Sane(g, s)
    ensures Rebuild(g.first, LogOf(s.disk)).nextBlock == s.mem.nextBlock
    ensures (if LogOf(s.disk) == [] then 1 else Final(LogOf(s.disk)).rec.seqno + 1) == s.nextSeq
  {
    BlockCounterReturns(g, s);
    SeqCounterReturns(g, s);
  }

  // Appending

  /** A write to a fresh block extends the log by one record. */
  lemma AppendedLog(s: State, b: nat, body: Body)
    requires Stamped(s) && b !in s.disk
    ensures LogOf(Write(s, b, body).disk) == LogOf(s.disk) + [Logged(b, Record(s.nextSeq, body))]
  {
    LogOfWrite(s.disk, b, Record(s.nextSeq, body));
    assert s.disk - {b} == s.disk;
  }

  lemma AppendExact(g: Geometry, s: State, b: nat, body: Body)
    requires Sane(g, s) && Exact(g, s) && b !in s.disk && !Conflict(s.mem.nodes, body)
    ensures Exact(g, Write(s, b, body))
  {
    AppendedLog(s, b, body);
    var log := LogOf(Write(s, b, body).disk);
    assert log[..|log| - 1] == LogOf(s.disk);
  }

  // Congruence

  lemma ApplyEquivalent(a: Mem, b: Mem, e: Logged)
    requires Equivalent(a, b)
    ensures Equivalent(Apply(a, e), Apply(b, e))
  {
  }

  lemma EquivalentTransitive(a: Mem, b: Mem, c: Mem)
    requires Equivalent(a, b) && Equivalent(b, c)
    ensures Equivalent(a, c)
  {
  }

  lemma {:induction false} NextNodeDropped(first: nat, log: seq<Logged>, i: nat)
    requires i < |log|
    ensures Rebuild(first, Drop(log, i)).nextNode <= Rebuild(first, log).nextNode
  {
    if i == |log| - 1 {
      assert Drop(log, i) == Init(log);
    } else {
      NextNodeDropped(first, Init(log), i);
      assert Init(Drop(log, i)) == Drop(Init(log), i);
      assert Final(Drop(log, i)) == Final(log);
    }
  }

  lemma NextNodeAppended(first: nat, log: seq<Logged>, e: Logged)
    ensures Rebuild(first, log + [e]).nextNode == Max(Rebuild(first, log).nextNode, e.rec.body.Node() + 1)
  {
    assert Init(log + [e]) == log;
  }

  // Overwriting

  /** The row of an old record is what the later ones made of it. */
  lemma RowIsLater(g: Geometry, s: State, i: nat)
    requires Sane(g, s) && RowsRecoverable(g, s) && i < |LogOf(s.disk)|
    ensures var log := LogOf(s.disk);
      log[i].block in s.mem.blocks && Similar(s.mem.blocks[log[i].block], Later(Row(log, i), log[i + 1..]))
  {
    hide Later, RowEffect, LogOf;
    LogShape(s);
    RebuildRow(g.first, LogOf(s.disk), i);
  }

  lemma SimilarEffect(a: Block, b: Block, body: Body)
    requires Similar(a, b)
    ensures Similar(RowEffect(a, body), RowEffect(b, body))
  {
  }

  lemma LaterSnoc(row: Block, s: seq<Logged>, e: Logged)
    ensures Later(row, s + [e]) == RowEffect(Later(row, s), e.rec.body)
  {
    assert Init(s + [e]) == s;
  }

  /** The row of an old record after the new one has had its effect. */
  lemma RowAfterEffect(g: Geometry, s: State, i: nat, body: Body)
    requires Sane(g, s) && RowsRecoverable(g, s) && i < |LogOf(s.disk)|
    ensures var log := LogOf(s.disk);
      var e := Logged(log[i].block, Record(s.nextSeq, body));
      && log[i].block in s.mem.blocks
      && Similar(Effect(s.mem, body).blocks[log[i].block], Later(Row(log, i), log[i + 1..] + [e]))
  {
    hide Later, RowEffect, LogOf, Sane, RowsRecoverable, Similar;
    var log := LogOf(s.disk);
    RowIsLater(g, s, i);
    SimilarEffect(s.mem.blocks[log[i].block], Later(Row(log, i), log[i + 1..]), body);
    LaterSnoc(Row(log, i), log[i + 1..], Logged(log[i].block, Record(s.nextSeq, body)));
  }

  /** Why a block the allocator hands out again holds nothing the replay still needs. */
  lemma PickedIsObsolete(g: Geometry, s: State, i: nat, body: Body)
    requires Sane(g, s) && RowsRecoverable(g, s) && i < |LogOf(s.disk)|
    requires Picks(g, Effect(s.mem, body), body.Node(), LogOf(s.disk)[i].block)
    requires !SourceOf(g, Effect(s.mem, body), body.Node()).TakenOver?
    requires var log := LogOf(s.disk);
      log[i].rec.body.Truncate? ==> Shadowed(log, i, Logged(log[i].block, Record(s.nextSeq, body)))
    ensures var log := LogOf(s.disk); Obsolete(log, i, Logged(log[i].block, Record(s.nextSeq, body)))
  {
    hide Later, LogOf, RowsRecoverable, RowEffect, Truncated, CutEnd, Shadowed, OldAreFree;
    var log := LogOf(s.disk);
    var e := Logged(log[i].block, Record(s.nextSeq, body));
    LogShape(s);
    assert log[i].block in s.disk;
    RowAfterEffect(g, s, i, body);
    RowOfKind(log, i);
    LaterForm(Row(log, i), log[i + 1..] + [e]);
    if SourceOf(g, Effect(s.mem, body), body.Node()).Reclaimed? {
      RowsFreeOld(g, s);
      ReclaimedIsAlone(g, s, i, body);
    }
  }

  // What a delete leaves behind

  /** The record in `c` deletes the node of the older record in `b`. */
  ghost predicate DeletedBy(disk: Disk, b: nat, c: nat) {
    && b in disk && c in disk && disk[b].seqno < disk[c].seqno
    && disk[c].body.Delete? && disk[c].body.Node() == disk[b].body.Node()
  }

  /** A record older than a delete of its node is in a block that is free. */
  ghost predicate OldAreFree(s: State) {
    forall b, c :: DeletedBy(s.disk, b, c) ==> b in s.mem.blocks && s.mem.blocks[b].op == FREE
  }

  lemma RowsFreeOld(g: Geometry, s: State)
    requires Sane(g, s) && RowsRecoverable(g, s)
    ensures OldAreFree(s)
  {
    hide LogOf, RowsRecoverable, Later;
    LogShape(s);
    var log := LogOf(s.disk);
    forall b, c | DeletedBy(s.disk, b, c)
      ensures b in s.mem.blocks && s.mem.blocks[b].op == FREE
    {
      var i := PositionOf(s, b);
      var j := PositionOf(s, c);
      assert i < j;
      RowIsLater(g, s, i);
      DeletedLater(log, i, j);
    }
  }

  /** The position in the log of the record in a block. */
  lemma PositionOf(s: State, b: nat) returns (i: nat)
    requires Stamped(s) && Mirrors(s) && b in s.disk
    ensures i < |LogOf(s.disk)| && LogOf(s.disk)[i] == Logged(b, s.disk[b])
  {
    hide LogOf;
    LogShape(s);
    assert Logged(b, s.disk[b]) in LogOf(s.disk);
    i :| 0 <= i < |LogOf(s.disk)| && LogOf(s.disk)[i] == Logged(b, s.disk[b]);
  }

  lemma {:induction false} HasDelete(s: seq<Logged>, t: nat, node: nat)
    requires t < |s| && s[t].rec.body.Delete? && s[t].rec.body.Node() == node
    ensures Deleted(s, node)
  {
    if t < |s| - 1 {
      assert Init(s)[t] == s[t];
      HasDelete(Init(s), t, node);
    }
  }

  lemma DeletedLater(log: seq<Logged>, i: nat, j: nat)
    requires DataNotEmpty(log) && i < j < |log|
    requires log[j].rec.body.Delete? && log[j].rec.body.Node() == log[i].rec.body.Node()
    ensures Later(Row(log, i), log[i + 1..]).op == FREE
  {
    RowOfKind(log, i);
    HasDelete(log[i + 1..], j - i - 1, log[i].rec.body.Node());
    LaterForm(Row(log, i), log[i + 1..]);
  }

  /** Every write keeps it, whatever it overwrites. */
  lemma WriteKeepsOldFree(g: Geometry, s: State, b: nat, body: Body)
    requires Sane(g, s) && OldAreFree(s)
    ensures OldAreFree(Write(s, b, body))
  {
    var t := Write(s, b, body);
    forall c, d | DeletedBy(t.disk, c, d)
      ensures c in t.mem.blocks && t.mem.blocks[c].op == FREE
    {
      assert c != b;
      FreedByDelete(c, s.mem.blocks[c], s.disk[c], body);
      if d != b {
        assert DeletedBy(s.disk, c, d);
      }
    }
  }

  lemma FreedByDelete(b: nat, row: Block, rec: Record, body: Body)
    requires RowMatches(b, row, rec)
    ensures body.Delete? && body.Node() == rec.body.Node() ==> RowEffect(row, body).op == FREE
    ensures row.op == FREE ==> RowEffect(row, body).op == FREE
  {
  }

  lemma DeleteRow(b: nat, row: Block, rec: Record, body: Body)
    requires RowMatches(b, row, rec)
    ensures OpFilter(DELETE)(RowEffect(row, body)) == 0 ==> rec.body.Delete?
  {
  }

  /** When a delete record is reclaimed, no older record of its node is left on the disk. */
  lemma ReclaimedIsAlone(g: Geometry, s: State, i: nat, body: Body)
    requires Sane(g, s) && OldAreFree(s) && i < |LogOf(s.disk)|
    requires Picks(g, Effect(s.mem, body), body.Node(), LogOf(s.disk)[i].block)
    requires SourceOf(g, Effect(s.mem, body), body.Node()).Reclaimed?
    ensures var log := LogOf(s.disk);
      && log[i].rec.body.Delete?
      && forall j :: 0 <= j < i ==> log[j].rec.body.Node() != log[i].rec.body.Node()
  {
    hide LogOf;
    var log, m := LogOf(s.disk), Effect(s.mem, body);
    LogShape(s);
    assert log[i].block in s.disk;
    DeleteRow(log[i].block, s.mem.blocks[log[i].block], log[i].rec, body);
    NoFreeRow(g, m, body.Node());
    forall j | 0 <= j < i
      ensures log[j].rec.body.Node() != log[i].rec.body.Node()
    {
      assert log[j].block in s.disk;
      if log[j].rec.body.Node() == log[i].rec.body.Node() {
        OldStayFree(s, body, log[j].block, log[i].block);
      }
    }
  }

  lemma OldStayFree(s: State, body: Body, b: nat, c: nat)
    requires OldAreFree(s) && DeletedBy(s.disk, b, c)
    ensures b in s.mem.blocks && Effect(s.mem, body).blocks[b].op == FREE
  {
  }

  lemma NoFreeRow(g: Geometry, m: Mem, node: nat)
    requires SourceOf(g, m, node).Reclaimed?
    ensures forall c :: c in m.blocks ==> m.blocks[c].op != FREE
  {
    assert forall c :: c in m.blocks ==> OpFilter(FREE)(m.blocks[c]) != 0;
  }

  lemma AloneIsObsolete(log: seq<Logged>, i: nat, e: Logged)
    requires i < |log| && log[i].rec.body.Delete?
    requires forall j :: 0 <= j < i ==> log[j].rec.body.Node() != log[i].rec.body.Node()
    ensures Obsolete(log, i, e)
  {
  }

  /** So the record that a reclaimed block held can be left out of the log, whatever else the disk has lost. */
  lemma ReclaimIsInvisible(g: Geometry, s: State, b: nat, body: Body)
    requires Sane(g, s) && OldAreFree(s) && Picks(g, Effect(s.mem, body), body.Node(), b)
    requires SourceOf(g, Effect(s.mem, body), body.Node()).Reclaimed?
    ensures b in s.disk && s.disk[b].body.Delete?
    ensures forall c :: c in s.disk && s.disk[c].seqno < s.disk[b].seqno ==>
      s.disk[c].body.Node() != s.disk[b].body.Node()
    ensures Equivalent(Rebuild(g.first, LogOf(Write(s, b, body).disk)),
                       Rebuild(g.first, LogOf(s.disk) + [Logged(b, Record(s.nextSeq, body))]))
  {
    hide LogOf, Rebuild, Equivalent, OldAreFree, Picks, SourceOf, Obsolete, Dense;
    var log, e := LogOf(s.disk), Logged(b, Record(s.nextSeq, body));
    LogShape(s);
    PickedBlock(g, s, body, b);
    var i := LogOfDrop(s.disk, b);
    LogOfWrite(s.disk, b, Record(s.nextSeq, body));
    ReclaimedIsAlone(g, s, i, body);
    AloneIsObsolete(log, i, e);
    ObsoleteIsInvisible(g.first, log, i, e);
    forall c | c in s.disk && s.disk[c].seqno < s.disk[b].seqno
      ensures s.disk[c].body.Node() != s.disk[b].body.Node()
    {
      var j := PositionOf(s, c);
      assert j < i;
    }
  }

  /** A block taken over holds a node record. */
  lemma TakenIsEntry(g: Geometry, s: State, body: Body, b: nat)
    requires Sane(g, s) && Picks(g, Effect(s.mem, body), body.Node(), b)
    requires SourceOf(g, Effect(s.mem, body), body.Node()).TakenOver?
    ensures b in s.disk && s.disk[b].body.Entry?
  {
    RowEffectMatches(b, s.mem.blocks[b], s.disk[b], body);
  }

  /** Whether the record at `i` may be overwritten: a delete settles a node record as well. */
  ghost predicate Harmless(log: seq<Logged>, i: nat, e: Logged)
    requires i < |log|
  {
    match log[i].rec.body
    case Truncate(_, _) => Shadowed(log, i, e)
    case Entry(n) => Settled(log[i + 1..] + [e], KeyOf(n)) || NodeLater(None, log[..i], KeyOf(n)) == Some(n)
    case _ => true
  }

  lemma {:induction false} DeletedIsSettled(s: seq<Logged>, k: NodeKey)
    requires Deleted(s, k.node)
    ensures Settled(s, k)
  {
    if Deleted(Init(s), k.node) {
      DeletedIsSettled(Init(s), k);
    }
  }

  /** Leaving the overwritten record out of the log is invisible exactly when it is harmless. */
  lemma OverwriteExact(g: Geometry, s: State, i: nat, body: Body)
    requires Sane(g, s) && Recoverable(g, s) && i < |LogOf(s.disk)|
    requires Picks(g, Effect(s.mem, body), body.Node(), LogOf(s.disk)[i].block)
    ensures var log := LogOf(s.disk);
      var e := Logged(log[i].block, Record(s.nextSeq, body));
      Equivalent(Rebuild(g.first, Drop(log, i) + [e]), Rebuild(g.first, log + [e])) <==> Harmless(log, i, e)
  {
    hide LogOf, Recoverable, RowsRecoverable, Equivalent, Rebuild, Shadowed, Settled, NodeLater, Picks, SourceOf;
    hide Obsolete;
    RecoverableRows(g, s);
    var log := LogOf(s.disk);
    var e := Logged(log[i].block, Record(s.nextSeq, body));
    LogShape(s);
    match log[i].rec.body
    case Truncate(_, _) =>
      TruncateReuseExact(g.first, log, i, e);
    case Entry(n) =>
      EntryReuseExact(g.first, log, i, e);
    case _ =>
      if SourceOf(g, Effect(s.mem, body), body.Node()).TakenOver? {
        TakenIsEntry(g, s, body, log[i].block);
      }
      PickedIsObsolete(g, s, i, body);
      ObsoleteIsInvisible(g.first, log, i, e);
  }

  /** Every record the block holds is harmless to overwrite. */
  ghost predicate SafeOverwrite(s: State, b: nat, body: Body) {
    forall i :: 0 <= i < |LogOf(s.disk)| && LogOf(s.disk)[i].block == b ==>
      Harmless(LogOf(s.disk), i, Logged(b, Record(s.nextSeq, body)))
  }

  /** Without takeover only an unshadowed truncate could do harm. */
  lemma SafeWithoutTakeover(g: Geometry, s: State, b: nat, body: Body)
    requires Sane(g, s) && Recoverable(g, s)
    requires Picks(g, Effect(s.mem, body), body.Node(), b)
    requires !SourceOf(g, Effect(s.mem, body), body.Node()).TakenOver?
    requires CutsStay(s, b, body)
    ensures SafeOverwrite(s, b, body)
  {
    hide LogOf, Recoverable, RowsRecoverable, Shadowed, Settled, NodeLater, Picks, SourceOf;
    RecoverableRows(g, s);
    var log, e := LogOf(s.disk), Logged(b, Record(s.nextSeq, body));
    forall i | 0 <= i < |log| && log[i].block == b
      ensures Harmless(log, i, e)
    {
      PickedIsObsolete(g, s, i, body);
      if log[i].rec.body.Entry? {
        DeletedIsSettled(log[i + 1..] + [e], KeyOf(log[i].rec.body.entry));
      }
    }
  }

  lemma EquivalentSymmetric(m: Mem, n: Mem)
    requires Equivalent(m, n)
    ensures Equivalent(n, m)
  {
  }

  /** A write over the record at `i` keeps the volume recoverable exactly when the record was harmless. */
  lemma OverwriteRecoverable(g: Geometry, s: State, i: nat, body: Body)
    requires Sane(g, s) && Recoverable(g, s) && i < |LogOf(s.disk)|
    requires Picks(g, Effect(s.mem, body), body.Node(), LogOf(s.disk)[i].block)
    ensures var log := LogOf(s.disk);
      var e := Logged(log[i].block, Record(s.nextSeq, body));
      Rebuilds(g, Drop(log, i) + [e], Apply(s.mem, e)) <==> Harmless(log, i, e)
  {
    hide LogOf, Rebuild, Equivalent, Harmless, Picks, Sane, Drop;
    var log := LogOf(s.disk);
    var e := Logged(log[i].block, Record(s.nextSeq, body));
    OverwriteExact(g, s, i, body);
    NextNodeDropped(g.first, log, i);
    NextNodeAppended(g.first, log, e);
    NextNodeAppended(g.first, Drop(log, i), e);
    FollowsMemory(g, s, e, Drop(log, i) + [e]);
  }

  /** A log rebuilds a memory up to free rows and a smaller node counter. */
  ghost predicate Rebuilds(g: Geometry, log: seq<Logged>, m: Mem) {
    Equivalent(Rebuild(g.first, log), m) && Rebuild(g.first, log).nextNode <= m.nextNode
  }

  /** A block write, takeovers included, keeps the volume recoverable if and only if what it overwrites is harmless. */
  lemma WriteRecoverable(g: Geometry, s: State, b: nat, body: Body)
    requires Sane(g, s) && Recoverable(g, s)
    requires Picks(g, Effect(s.mem, body), body.Node(), b)
    ensures Recoverable(g, Write(s, b, body)) <==> SafeOverwrite(s, b, body)
  {
    hide LogOf, Rebuild, Equivalent, Harmless, Picks;
    var log, e := LogOf(s.disk), Logged(b, Record(s.nextSeq, body));
    LogShape(s);
    if b !in s.disk {
      AppendedLog(s, b, body);
      EquivalentReflexive(Rebuild(g.first, log + [e]));
      NextNodeAppended(g.first, log, e);
      FollowsMemory(g, s, e, log + [e]);
      assert forall i :: 0 <= i < |log| ==> log[i].block != b;
    } else {
      var i := LogOfDrop(s.disk, b);
      LogOfWrite(s.disk, b, Record(s.nextSeq, body));
      OverwriteRecoverable(g, s, i, body);
      assert forall j :: 0 <= j < |log| && log[j].block == b ==> j == i;
    }
  }

  lemma EquivalentReflexive(m: Mem)
    ensures Equivalent(m, m)
  {
  }

  /** A log whose replay agrees with the old log extended by `e` agrees with memory extended by `e`, and only then. */
  lemma FollowsMemory(g: Geometry, s: State, e: Logged, log': seq<Logged>)
    requires Recoverable(g, s)
    requires Rebuild(g.first, log').nextNode <= Rebuild(g.first, LogOf(s.disk) + [e]).nextNode
    ensures Rebuilds(g, log', Apply(s.mem, e)) <==>
      Equivalent(Rebuild(g.first, log'), Rebuild(g.first, LogOf(s.disk) + [e]))
  {
    hide Equivalent;
    var log := LogOf(s.disk);
    assert Init(log + [e]) == log;
    var left, mid, right := Rebuild(g.first, log'), Rebuild(g.first, log + [e]), Apply(s.mem, e);
    ApplyEquivalent(Rebuild(g.first, log), s.mem, e);
    EquivalentSymmetric(mid, right);
    if Equivalent(left, mid) {
      EquivalentTransitive(left, mid, right);
    }
    if Equivalent(left, right) {
      EquivalentTransitive(left, right, mid);
    }
  }

  // Rows alone

  lemma AlikeTransitive(a: Mem, b: Mem, c: Mem)
    requires RowsAlike(a, b) && RowsAlike(b, c)
    ensures RowsAlike(a, c)
  {
  }

  lemma AlikeSymmetric(a: Mem, b: Mem)
    requires RowsAlike(a, b)
    ensures RowsAlike(b, a)
  {
  }

  lemma ApplyAlike(a: Mem, b: Mem, e: Logged)
    requires RowsAlike(a, b)
    ensures RowsAlike(Apply(a, e), Apply(b, e))
  {
  }

  /** Whatever truncate the block held, the records around it bound its file as tightly without it. */
  ghost predicate CutsStay(s: State, b: nat, body: Body) {
    forall i :: 0 <= i < |LogOf(s.disk)| && LogOf(s.disk)[i].block == b && LogOf(s.disk)[i].rec.body.Truncate? ==>
      Shadowed(LogOf(s.disk), i, Logged(b, Record(s.nextSeq, body)))
  }

  /** An overwritten record that is no truncate changes no row of the replay, a node record taken over included. */
  lemma OverwrittenRows(g: Geometry, s: State, i: nat, body: Body)
    requires Sane(g, s) && RowsRecoverable(g, s) && i < |LogOf(s.disk)|
    requires Picks(g, Effect(s.mem, body), body.Node(), LogOf(s.disk)[i].block)
    ensures var log := LogOf(s.disk);
      var e := Logged(log[i].block, Record(s.nextSeq, body));
      RowsAgree(log, i, e) <==> (log[i].rec.body.Truncate? ==> Shadowed(log, i, e))
  {
    hide LogOf, RowsRecoverable, Shadowed, Picks, SourceOf, Obsolete, RowsAgree;
    LogShape(s);
    var log := LogOf(s.disk);
    if log[i].rec.body.Delete? {
      if SourceOf(g, Effect(s.mem, body), body.Node()).TakenOver? {
        TakenIsEntry(g, s, body, log[i].block);
      }
      PickedIsObsolete(g, s, i, body);
    }
    ObsoleteRows(log, i, Logged(log[i].block, Record(s.nextSeq, body)));
  }

  /** A block write keeps the rows recoverable if and only if an overwritten truncate is not missed. */
  lemma WriteKeepsRows(g: Geometry, s: State, b: nat, body: Body)
    requires Sane(g, s) && RowsRecoverable(g, s) && Picks(g, Effect(s.mem, body), body.Node(), b)
    ensures RowsRecoverable(g, Write(s, b, body)) <==> CutsStay(s, b, body)
  {
    hide LogOf, Rebuild, RowsAlike, Picks, Shadowed;
    var log, e := LogOf(s.disk), Logged(b, Record(s.nextSeq, body));
    LogShape(s);
    ApplyAlike(Rebuild(g.first, log), s.mem, e);
    NextRows(g, log, e);
    if b !in s.disk {
      AppendedLog(s, b, body);
      assert forall i :: 0 <= i < |log| ==> log[i].block != b;
    } else {
      var i := LogOfDrop(s.disk, b);
      LogOfWrite(s.disk, b, Record(s.nextSeq, body));
      OverwrittenRows(g, s, i, body);
      assert forall j :: 0 <= j < |log| && log[j].block == b ==> j == i;
      AlikeWithout(g, log, i, e, Apply(s.mem, e));
    }
  }

  lemma NextRows(g: Geometry, log: seq<Logged>, e: Logged)
    ensures Rebuild(g.first, log + [e]) == Apply(Rebuild(g.first, log), e)
  {
    assert Init(log + [e]) == log;
  }

  lemma AlikeWithout(g: Geometry, log: seq<Logged>, i: nat, e: Logged, m: Mem)
    requires DistinctBlocks(log) && i < |log| && e.block == log[i].block
    requires RowsAlike(Rebuild(g.first, log + [e]), m)
    ensures RowsAlike(Rebuild(g.first, Drop(log, i) + [e]), m) <==> RowsAgree(log, i, e)
  {
    hide Rebuild, SimilarRows, RowsAgree, Drop;
    var left, mid := Rebuild(g.first, Drop(log, i) + [e]), Rebuild(g.first, log + [e]);
    SameKeys(g.first, log, i, e);
    SameRows(g.first, log, i, e);
    if RowsAlike(left, mid) {
      AlikeTransitive(left, mid, m);
    }
    if RowsAlike(left, m) {
      AlikeSymmetric(mid, m);
      AlikeTransitive(left, m, mid);
    }
  }

  // Moves under reuse

  /**
   * Taking the block's record out of the log revives no name for the moves behind it, and the new record finds its own
   * slot free in what is left.
   */
  ghost predicate KeepsMountable(g: Geometry, s: State, b: nat, body: Body) {
    RestRevivesNothing(s, b) && !Conflict(Rebuild(g.first, LogOf(s.disk - {b})).nodes, body)
  }

  ghost predicate RestRevivesNothing(s: State, b: nat) {
    var log := LogOf(s.disk);
    forall i :: 0 <= i < |log| && log[i].block == b ==> NoneRevived(log[..i], log[i].rec.body.Node(), log[i + 1..])
  }

  /** The new record comes last. */
  lemma LastReplays(g: Geometry, s: State, b: nat, body: Body)
    requires Stamped(s)
    ensures Replay(g.first, LogOf(Write(s, b, body).disk)).Some? <==>
      && Replay(g.first, LogOf(s.disk - {b})).Some?
      && !Conflict(Rebuild(g.first, LogOf(s.disk - {b})).nodes, body)
  {
    hide LogOf, Replay, Rebuild, Conflict;
    var rest, e := LogOf(s.disk - {b}), Logged(b, Record(s.nextSeq, body));
    LogOfWrite(s.disk, b, Record(s.nextSeq, body));
    assert Init(rest + [e]) == rest;
    ReplaySnoc(g.first, rest + [e]);
  }

  /** Without the record of a block the log replays if and only if it revives no name. */
  lemma RestReplays(g: Geometry, s: State, b: nat)
    requires Stamped(s) && Mirrors(s) && b in s.disk && Replay(g.first, LogOf(s.disk)).Some?
    ensures Replay(g.first, LogOf(s.disk - {b})).Some? <==> RestRevivesNothing(s, b)
  {
    hide LogOf, Replay, NoneRevived, DataNotEmpty, DistinctBlocks, Mirrors, Enumerates, Stamped;
    LogShape(s);
    var log := LogOf(s.disk);
    var i := PositionInLog(s, b);
    OneInBlock(log, i);
    ReplaysWithoutOne(g.first, log, i);
  }

  lemma OneInBlock(log: seq<Logged>, i: nat)
    requires DistinctBlocks(log) && i < |log|
    ensures forall j :: 0 <= j < |log| && log[j].block == log[i].block ==> j == i
  {
  }

  lemma ReplaysWithoutOne(first: nat, log: seq<Logged>, i: nat)
    requires i < |log| && Replay(first, log).Some?
    ensures Replay(first, log[..i] + log[i + 1..]).Some? <==>
      NoneRevived(log[..i], log[i].rec.body.Node(), log[i + 1..])
  {
    hide Replay, NoneRevived;
    assert log == log[..i] + [log[i]] + log[i + 1..];
    MoveReuseExact(first, log[..i], log[i], log[i + 1..]);
  }

  lemma PositionInLog(s: State, b: nat) returns (i: nat)
    requires Stamped(s) && b in s.disk
    ensures i < |LogOf(s.disk)| && LogOf(s.disk)[i].block == b
    ensures LogOf(s.disk - {b}) == LogOf(s.disk)[..i] + LogOf(s.disk)[i + 1..]
  {
    hide LogOf;
    i := LogOfDrop(s.disk, b);
  }

  /** Whatever memory and disk have lost of each other: exactly then a write keeps a mountable disk mountable. */
  lemma WriteMounts(g: Geometry, s: State, b: nat, body: Body)
    requires Sane(g, s) && Replay(g.first, LogOf(s.disk)).Some?
    ensures Replay(g.first, LogOf(Write(s, b, body).disk)).Some? <==> KeepsMountable(g, s, b, body)
  {
    hide LogOf, Replay, Rebuild, NoneRevived, Conflict, DataNotEmpty, Dense, DistinctBlocks;
    LastReplays(g, s, b, body);
    if b in s.disk {
      RestReplays(g, s, b);
    } else {
      LogShape(s);
      assert s.disk - {b} == s.disk;
      assert forall j :: 0 <= j < |LogOf(s.disk)| ==> LogOf(s.disk)[j].block != b;
    }
  }

  /** Whatever record the block held, no later move replays into a slot that the record had cleared. */
  ghost predicate RevivesNothing(s: State, b: nat, body: Body) {
    var log := LogOf(s.disk);
    forall i :: 0 <= i < |log| && log[i].block == b ==>
      NoneRevived(log[..i], log[i].rec.body.Node(), log[i + 1..] + [Logged(b, Record(s.nextSeq, body))])
  }

  /** The log that a write would leave if nothing were overwritten replays. */
  lemma ExtendedReplays(g: Geometry, s: State, e: Logged)
    requires Recoverable(g, s) && Replay(g.first, LogOf(s.disk)).Some? && !Conflict(s.mem.nodes, e.rec.body)
    ensures Replay(g.first, LogOf(s.disk) + [e]).Some?
  {
    hide LogOf;
    ReplayIsRebuild(g.first, LogOf(s.disk));
    assert Init(LogOf(s.disk) + [e]) == LogOf(s.disk);
  }

  /** For a block that holds a record there is one thing to check. */
  lemma RevivesOne(s: State, b: nat, body: Body, i: nat)
    requires DistinctBlocks(LogOf(s.disk)) && i < |LogOf(s.disk)| && LogOf(s.disk)[i].block == b
    ensures var log := LogOf(s.disk);
      RevivesNothing(s, b, body) <==>
        NoneRevived(log[..i], log[i].rec.body.Node(), log[i + 1..] + [Logged(b, Record(s.nextSeq, body))])
  {
    hide LogOf, NoneRevived;
    assert forall j :: 0 <= j < |LogOf(s.disk)| && LogOf(s.disk)[j].block == b ==> j == i;
  }

  lemma RevivesNone(s: State, b: nat, body: Body)
    requires Enumerates(s.disk, LogOf(s.disk)) && b !in s.disk
    ensures RevivesNothing(s, b, body)
  {
    hide LogOf, NoneRevived;
    assert forall i :: 0 <= i < |LogOf(s.disk)| ==> LogOf(s.disk)[i].block != b;
  }

  /** A disk that can be mounted still can be after a write if and only if the write revives nothing. */
  lemma MountAfterWrite(g: Geometry, s: State, b: nat, body: Body)
    requires Sane(g, s) && Recoverable(g, s) && !Conflict(s.mem.nodes, body)
    requires Replay(g.first, LogOf(s.disk)).Some?
    ensures Replay(g.first, LogOf(Write(s, b, body).disk)).Some? <==> RevivesNothing(s, b, body)
  {
    hide LogOf, Replay, NoneRevived, RevivesNothing, Recoverable, Conflict, DataNotEmpty, DistinctBlocks, Enumerates;
    var log, e := LogOf(s.disk), Logged(b, Record(s.nextSeq, body));
    ExtendedReplays(g, s, e);
    LogShape(s);
    if b !in s.disk {
      AppendedLog(s, b, body);
      RevivesNone(s, b, body);
    } else {
      var i := LogOfDrop(s.disk, b);
      LogOfWrite(s.disk, b, Record(s.nextSeq, body));
      ReplayWithout(g.first, log, i, e);
      RevivesOne(s, b, body, i);
    }
  }

  lemma ReplayWithout(first: nat, log: seq<Logged>, i: nat, e: Logged)
    requires i < |log| && Replay(first, log + [e]).Some?
    ensures Replay(first, Drop(log, i) + [e]).Some? <==>
      NoneRevived(log[..i], log[i].rec.body.Node(), log[i + 1..] + [e])
  {
    hide Replay, NoneRevived;
    assert Drop(log, i) + [e] == log[..i] + (log[i + 1..] + [e]);
    assert log + [e] == log[..i] + [log[i]] + (log[i + 1..] + [e]);
    MoveReuseExact(first, log[..i], log[i], log[i + 1..] + [e]);
  }
}
