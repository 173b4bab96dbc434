/** What the records on a disk say about the history of its run, and a caller's condition for safe reuse. */
module Histories {
  import opened Indexes
  import opened Records
  import opened Log
  import opened Lifetimes
  import opened Reuse
  import opened Trees
  import opened Engine
  import opened Recovery
  import opened Shrinking
  import opened Runs

  /** A record on the disk is the record of the history that its sequence number names. */
  ghost predicate Dated(history: seq<Body>, s: State) {
    && s.nextSeq == |history| + 1
    && forall b :: b in s.disk ==> OfHistory(history, s.disk[b])
  }

  predicate OfHistory(history: seq<Body>, rec: Record) {
    1 <= rec.seqno <= |history| && history[rec.seqno - 1] == rec.body
  }

  lemma DatedWrite(history: seq<Body>, s: State, b: nat, body: Body)
    requires Dated(history, s)
    ensures Dated(history + [body], Write(s, b, body))
  {
    var t := Write(s, b, body);
    forall c | c in t.disk
      ensures OfHistory(history + [body], t.disk[c])
    {
      if c != b {
        assert OfHistory(history, s.disk[c]);
      }
    }
  }

  /** In every reachable state each record on the disk is in the history, at the place its sequence number says. */
  lemma {:induction false} RunIsDated(g: Geometry, events: seq<Event>, states: seq<State>)
    requires Run(g, events, states)
    ensures Dated(History(events), Final(states))
  {
    hide Dated, Sane, Appending, SafelyReusing, WithoutTakeover, RevivingNothing, DiskFits;
    if events == [] {
      FormattedDated(g);
    } else {
      RunPrefix(g, events, states);
      RunIsDated(g, Init(events), Init(states));
      LastIsSane(g, events, states);
      DatedStep(g, History(Init(events)), Final(Init(states)), Final(events), Final(states));
    }
  }

  lemma LastIsSane(g: Geometry, events: seq<Event>, states: seq<State>)
    requires Run(g, events, states) && events != []
    ensures Sane(g, Final(Init(states)))
  {
    hide Sane, DiskFits;
    RunStaysSane(g, events, states);
    assert Final(Init(states)) == states[|states| - 2];
  }

  lemma FormattedDated(g: Geometry)
    ensures Dated([], Formatted(g))
  {
  }

  lemma DatedStep(g: Geometry, history: seq<Body>, s: State, event: Event, t: State)
    requires Sane(g, s) && Dated(history, s) && Happens(g, s, event, t)
    ensures Dated(if event.Recorded? then history + [event.body] else history, t)
  {
    match event
    case Recorded(b, body) => DatedWrite(history, s, b, body);
    case Remounted => CountersReturn(g, s);
  }

  // Deletes outlive what they delete

  predicate Erases(body: Body, node: nat) {
    body.Delete? && body.entry.node == node
  }

  /** A newer delete record of the node is on the disk. */
  ghost predicate StandsOver(disk: Disk, node: nat, seqno: nat) {
    exists c :: c in disk && disk[c].seqno > seqno && Erases(disk[c].body, node)
  }

  /** Whatever record the history deletes later on, a delete record newer than it is on the disk. */
  ghost predicate DeletesStand(history: seq<Body>, disk: Disk) {
    forall b, q :: b in disk && disk[b].seqno <= q < |history| && Erases(history[q], disk[b].body.Node()) ==>
      StandsOver(disk, disk[b].body.Node(), disk[b].seqno)
  }

  ghost predicate ErasedAfter(history: seq<Body>, node: nat, seqno: nat) {
    exists q :: seqno <= q < |history| && Erases(history[q], node)
  }

  /** A delete record is in a free block only once its node was deleted again. */
  ghost predicate FreeIsErased(history: seq<Body>, s: State) {
    forall b :: b in s.disk && b in s.mem.blocks && s.disk[b].body.Delete? && s.mem.blocks[b].op == FREE ==>
      ErasedAfter(history, s.disk[b].body.Node(), s.disk[b].seqno)
  }

  /** What the disk of every reachable state still knows of the history. */
  ghost predicate Remembers(history: seq<Body>, s: State) {
    Dated(history, s) && DeletesStand(history, s.disk) && FreeIsErased(history, s) && OldAreFree(s)
  }

  lemma FreeIsErasedWrite(g: Geometry, history: seq<Body>, s: State, b: nat, body: Body)
    requires Sane(g, s) && Dated(history, s) && FreeIsErased(history, s)
    ensures FreeIsErased(history + [body], Write(s, b, body))
  {
    var h, t := history + [body], Write(s, b, body);
    forall c | c in t.disk && c in t.mem.blocks && t.disk[c].body.Delete? && t.mem.blocks[c].op == FREE
      ensures ErasedAfter(h, t.disk[c].body.Node(), t.disk[c].seqno)
    {
      assert c != b;
      if s.mem.blocks[c].op == FREE {
        var q :| s.disk[c].seqno <= q < |history| && Erases(history[q], s.disk[c].body.Node());
        assert h[q] == history[q];
      } else {
        FreedOnlyByDelete(c, s.mem.blocks[c], s.disk[c], body);
        assert OfHistory(history, s.disk[c]);
        assert Erases(h[|history|], s.disk[c].body.Node());
      }
    }
  }

  lemma FreedOnlyByDelete(b: nat, row: Block, rec: Record, body: Body)
    requires RowMatches(b, row, rec) && rec.body.Delete? && row.op != FREE && RowEffect(row, body).op == FREE
    ensures Erases(body, rec.body.Node())
  {
  }

  /** A delete record that the allocator picks, while something older of its node is left, is in a free block. */
  lemma PickedDeleteIsFree(g: Geometry, s: State, b: nat, body: Body, d: nat)
    requires Sane(g, s) && OldAreFree(s) && Picks(g, Effect(s.mem, body), body.Node(), b)
    requires b in s.disk && DeletedBy(s.disk, d, b) && !Erases(body, s.disk[b].body.Node())
    ensures b in s.mem.blocks && s.mem.blocks[b].op == FREE
  {
    hide LogOf, OldAreFree;
    var source := SourceOf(g, Effect(s.mem, body), body.Node());
    if source.TakenOver? {
      TakenIsEntry(g, s, body, b);
    } else if source.Reclaimed? {
      ReclaimIsInvisible(g, s, b, body);
    } else {
      PickedBlock(g, s, body, b);
      if s.mem.blocks[b].op != FREE {
        FreedOnlyByDelete(b, s.mem.blocks[b], s.disk[b], body);
      }
    }
  }

  /** A delete record that stands over `d` stands, or another one does, after a write to its block. */
  lemma StillStands(g: Geometry, history: seq<Body>, s: State, b: nat, body: Body, d: nat)
    requires Sane(g, s) && Remembers(history, s) && Picks(g, Effect(s.mem, body), body.Node(), b)
    requires d in s.disk && d != b && StandsOver(s.disk, s.disk[d].body.Node(), s.disk[d].seqno)
    ensures StandsOver(Write(s, b, body).disk, s.disk[d].body.Node(), s.disk[d].seqno)
  {
    hide Picks, Dated, OldAreFree, Dense, Mirrors, RowEffect;
    var node, t := s.disk[d].body.Node(), Write(s, b, body);
    var c :| c in s.disk && s.disk[c].seqno > s.disk[d].seqno && Erases(s.disk[c].body, node);
    if c != b {
      assert t.disk[c] == s.disk[c];
    } else if Erases(body, node) {
      assert t.disk[b].seqno == s.nextSeq;
    } else {
      assert DeletedBy(s.disk, d, b);
      PickedDeleteIsFree(g, s, b, body, d);
      assert ErasedAfter(history, node, s.disk[b].seqno);
      assert StandsOver(s.disk, node, s.disk[b].seqno);
      var e :| e in s.disk && s.disk[e].seqno > s.disk[b].seqno && Erases(s.disk[e].body, node);
      assert t.disk[e] == s.disk[e];
    }
  }

  lemma DeletesStandWrite(g: Geometry, history: seq<Body>, s: State, b: nat, body: Body)
    requires Sane(g, s) && Remembers(history, s) && Picks(g, Effect(s.mem, body), body.Node(), b)
    ensures DeletesStand(history + [body], Write(s, b, body).disk)
  {
    hide Picks, OldAreFree, FreeIsErased;
    var h, t := history + [body], Write(s, b, body);
    forall d, q | d in t.disk && t.disk[d].seqno <= q < |h| && Erases(h[q], t.disk[d].body.Node())
      ensures StandsOver(t.disk, t.disk[d].body.Node(), t.disk[d].seqno)
    {
      assert d != b;
      if q == |history| {
        assert OfHistory(history, s.disk[d]);
        assert t.disk[b].seqno > s.disk[d].seqno && Erases(t.disk[b].body, s.disk[d].body.Node());
      } else {
        assert Erases(history[q], s.disk[d].body.Node());
        StillStands(g, history, s, b, body, d);
      }
    }
  }

  lemma {:induction false} FindDelete(s: seq<Logged>, node: nat) returns (t: nat)
    requires Deleted(s, node)
    ensures t < |s| && Erases(s[t].rec.body, node)
  {
    if Erases(Final(s).rec.body, node) {
      t := |s| - 1;
    } else {
      t := FindDelete(Init(s), node);
      assert Init(s)[t] == s[t];
    }
  }

  /** A mount leaves a delete record in a free block only when a later record deletes its node again. */
  lemma FreeIsErasedMount(g: Geometry, history: seq<Body>, s: State, t: State)
    requires Sane(g, s) && Dated(history, s) && Mount(g, s.disk) == Some(t)
    ensures FreeIsErased(history, t)
  {
    hide LogOf, RowsRecoverable, Later, Mount, Dense, OneSeqnoEach;
    MountSane(g, s, t);
    MountRows(g, s, t);
    LogShape(t);
    var log := LogOf(t.disk);
    forall b | b in t.disk && b in t.mem.blocks && t.disk[b].body.Delete? && t.mem.blocks[b].op == FREE
      ensures ErasedAfter(history, t.disk[b].body.Node(), t.disk[b].seqno)
    {
      var i := PositionOf(t, b);
      RowIsLater(g, t, i);
      LaterForm(Row(log, i), log[i + 1..]);
      var k := FindDelete(log[i + 1..], t.disk[b].body.Node());
      var c := log[i + 1 + k].block;
      assert c in t.disk && t.disk[c] == log[i + 1 + k].rec;
      assert OfHistory(history, s.disk[c]);
    }
  }

  lemma RemembersStep(g: Geometry, history: seq<Body>, s: State, event: Event, t: State)
    requires Sane(g, s) && Remembers(history, s) && Happens(g, s, event, t)
    ensures Remembers(if event.Recorded? then history + [event.body] else history, t)
  {
    hide Dated, DeletesStand, FreeIsErased, OldAreFree, Sane, Mount, Picks, Legal;
    DatedStep(g, history, s, event, t);
    EventKeepsOldFree(g, s, event, t);
    match event
    case Recorded(b, body) =>
      DeletesStandWrite(g, history, s, b, body);
      FreeIsErasedWrite(g, history, s, b, body);
    case Remounted =>
      MountSane(g, s, t);
      FreeIsErasedMount(g, history, s, t);
  }

  lemma FormattedRemembers(g: Geometry)
    ensures Remembers([], Formatted(g))
  {
  }

  /**
   * In every reachable state, whatever was overwritten: as long as a record is on the disk, so is a delete record newer
   * than it, if the history has deleted its node since.
   */
  lemma {:induction false} RunRemembers(g: Geometry, events: seq<Event>, states: seq<State>)
    requires Run(g, events, states)
    ensures Remembers(History(events), Final(states))
  {
    hide Remembers, Sane, Happens, Appending, SafelyReusing, KeepingCuts, WithoutTakeover, RevivingNothing;
    if events == [] {
      FormattedRemembers(g);
    } else {
      RunPrefix(g, events, states);
      RunRemembers(g, Init(events), Init(states));
      LastIsSane(g, events, states);
      RemembersStep(g, History(Init(events)), Final(Init(states)), Final(events), Final(states));
    }
  }

  // Truncates that only shrink

  /** No truncate of a file is to more than an earlier one, as long as the file is not deleted in between. */
  ghost predicate OnlyShrinks(history: seq<Body>) {
    forall p, q :: 0 <= p < q < |history| && SameFileCut(history, p, q) ==> history[q].size <= history[p].size
  }

  ghost predicate SameFileCut(history: seq<Body>, p: nat, q: nat)
    requires p < q < |history|
  {
    && history[p].Truncate? && history[q].Truncate? && history[p].id == history[q].id
    && forall r :: p < r < q ==> !Erases(history[r], history[p].id)
  }

  lemma OnlyShrinksInit(history: seq<Body>)
    requires OnlyShrinks(history) && history != []
    ensures OnlyShrinks(Init(history))
  {
    forall p, q | 0 <= p < q < |Init(history)| && SameFileCut(Init(history), p, q)
      ensures Init(history)[q].size <= Init(history)[p].size
    {
      assert forall r :: p < r < q ==> Init(history)[r] == history[r];
      assert SameFileCut(history, p, q);
    }
  }

  /** A record that a later delete stands over is deleted in the log. */
  lemma StoodOverIsDeleted(s: State, i: nat)
    requires Stamped(s) && Mirrors(s) && i < |LogOf(s.disk)|
    requires StandsOver(s.disk, LogOf(s.disk)[i].rec.body.Node(), LogOf(s.disk)[i].rec.seqno)
    ensures Deleted(LogOf(s.disk)[i + 1..], LogOf(s.disk)[i].rec.body.Node())
  {
    hide LogOf;
    LogShape(s);
    var log, node := LogOf(s.disk), LogOf(s.disk)[i].rec.body.Node();
    var c :| c in s.disk && s.disk[c].seqno > log[i].rec.seqno && Erases(s.disk[c].body, node);
    var j := PositionOf(s, c);
    assert j > i;
    HasDelete(log[i + 1..], j - i - 1, node);
  }

  /** Between two truncates on the disk that nothing newer deletes, the history has no delete either. */
  lemma CutsInHistory(history: seq<Body>, s: State, i: nat, q: nat)
    requires Stamped(s) && Mirrors(s) && Dated(history, s) && DeletesStand(history, s.disk)
    requires i < |LogOf(s.disk)| && LogOf(s.disk)[i].rec.body.Truncate?
    requires !Deleted(LogOf(s.disk)[i + 1..], LogOf(s.disk)[i].rec.body.id)
    requires LogOf(s.disk)[i].rec.seqno <= q <= |history|
    ensures var p := LogOf(s.disk)[i].rec.seqno - 1;
      && 0 <= p < |history| && history[p] == LogOf(s.disk)[i].rec.body
      && forall r :: p < r < q ==> !Erases(history[r], history[p].id)
  {
    hide LogOf, DistinctBlocks, DataNotEmpty, Deleted, StandsOver;
    LogShape(s);
    var rec := LogOf(s.disk)[i].rec;
    var b := LogOf(s.disk)[i].block;
    assert b in s.disk && s.disk[b] == rec;
    assert OfHistory(history, rec);
    if r :| rec.seqno <= r < q && Erases(history[r], rec.body.id) {
      assert Erases(history[r], s.disk[b].body.Node());
      StoodOverIsDeleted(s, i);
    }
  }

  lemma LogIsDated(history: seq<Body>, s: State, i: nat, j: nat)
    requires Stamped(s) && Mirrors(s) && Dated(history, s) && i < j < |LogOf(s.disk)|
    ensures OfHistory(history, LogOf(s.disk)[j].rec) && LogOf(s.disk)[i].rec.seqno < LogOf(s.disk)[j].rec.seqno
  {
    hide LogOf;
    LogShape(s);
    assert OfHistory(history, s.disk[LogOf(s.disk)[j].block]);
  }

  /** Two truncates of one file on the disk, the older one not deleted, shrink it. */
  lemma PairShrinks(history: seq<Body>, s: State, i: nat, j: nat)
    requires Stamped(s) && Mirrors(s) && Dated(history, s) && DeletesStand(history, s.disk) && OnlyShrinks(history)
    requires i < j < |LogOf(s.disk)| && Outlives(LogOf(s.disk), i, j)
    ensures LogOf(s.disk)[j].rec.body.size <= LogOf(s.disk)[i].rec.body.size
  {
    hide LogOf, DeletesStand, Dated, Stamped, Mirrors, Deleted;
    LogIsDated(history, s, i, j);
    var a, b := LogOf(s.disk)[i].rec, LogOf(s.disk)[j].rec;
    CutsInHistory(history, s, i, b.seqno - 1);
    assert SameFileCut(history, a.seqno - 1, b.seqno - 1);
  }

  lemma HistoryShrinksLog(history: seq<Body>, s: State)
    requires Stamped(s) && Mirrors(s) && Dated(history, s) && DeletesStand(history, s.disk) && OnlyShrinks(history)
    ensures ShrinkingLog(LogOf(s.disk))
  {
    hide LogOf, DeletesStand, Dated, OnlyShrinks, Outlives, Stamped, Mirrors;
    var log := LogOf(s.disk);
    forall i, j | 0 <= i < j < |log| && Outlives(log, i, j)
      ensures log[i].rec.body.Truncate? && log[j].rec.body.Truncate? && log[j].rec.body.size <= log[i].rec.body.size
    {
      OutlivesCuts(log, i, j);
      PairShrinks(history, s, i, j);
    }
  }

  lemma OutlivesCuts(log: seq<Logged>, i: nat, j: nat)
    requires i < j < |log| && Outlives(log, i, j)
    ensures log[i].rec.body.Truncate? && log[j].rec.body.Truncate?
  {
  }

  lemma HistoryShrinksNext(history: seq<Body>, s: State, body: Body)
    requires Stamped(s) && Mirrors(s) && Dated(history, s) && DeletesStand(history, s.disk)
    requires OnlyShrinks(history + [body])
    ensures Shrinks(LogOf(s.disk), body)
  {
    hide LogOf, DeletesStand, StandsOver, DistinctBlocks, DataNotEmpty;
    LogShape(s);
    var log, h := LogOf(s.disk), history + [body];
    forall i | 0 <= i < |log| && body.Truncate? && IsTruncate(log[i], body.id) && !Deleted(log[i + 1..], body.id)
      ensures body.size <= log[i].rec.body.size
    {
      CutsInHistory(history, s, i, |history|);
      assert SameFileCut(h, log[i].rec.seqno - 1, |history|);
    }
  }

  /** One event of a run whose truncates only shrink. */
  lemma ShrinkingStep(g: Geometry, history: seq<Body>, s: State, b: nat, body: Body)
    requires Sane(g, s) && RowsRecoverable(g, s) && Remembers(history, s) && OnlyShrinks(history + [body])
    requires Picks(g, Effect(s.mem, body), body.Node(), b)
    ensures CutsStay(s, b, body)
  {
    hide RowsRecoverable, Picks, CutsStay, Dated, DeletesStand, OnlyShrinks, Shrinks, ShrinkingLog, LogOf;
    assert Init(history + [body]) == history;
    OnlyShrinksInit(history + [body]);
    HistoryShrinksLog(history, s);
    HistoryShrinksNext(history, s, body);
    ShrinkingCuts(g, s, b, body);
  }

  /**
   * For a caller that never truncates a file to more than before no overwritten truncate is missed, takeovers
   * included.
   */
  lemma {:induction false} ShrinkingKeepsCuts(g: Geometry, events: seq<Event>, states: seq<State>)
    requires Run(g, events, states) && OnlyShrinks(History(events))
    ensures KeepingCuts(events, states)
  {
    hide RowsRecoverable, CutsStay, Remembers, Sane, Legal, OnlyShrinks, Appending, SafelyReusing, WithoutTakeover;
    hide RevivingNothing, Picks;
    if events != [] {
      RunPrefix(g, events, states);
      ShorterShrinks(events);
      ShrinkingKeepsCuts(g, Init(events), Init(states));
      KeepingRunsKeepRows(g, Init(events), Init(states));
      RunRemembers(g, Init(events), Init(states));
      LastIsSane(g, events, states);
      if Final(events).Recorded? {
        ShrinkingStep(g, History(Init(events)), Final(Init(states)), Final(events).block, Final(events).body);
      }
      KeepingCutsSnoc(events, states);
    }
  }

  lemma KeepingCutsSnoc(events: seq<Event>, states: seq<State>)
    requires events != [] && |states| == |events| + 1 && KeepingCuts(Init(events), Init(states))
    requires Final(events).Recorded? ==> CutsStay(Final(Init(states)), Final(events).block, Final(events).body)
    ensures KeepingCuts(events, states)
  {
    hide CutsStay;
    forall i | 0 <= i < |events| && events[i].Recorded?
      ensures CutsStay(states[i], events[i].block, events[i].body)
    {
      if i < |events| - 1 {
        assert Init(events)[i] == events[i] && Init(states)[i] == states[i];
      }
    }
  }

  lemma ShorterShrinks(events: seq<Event>)
    requires events != [] && OnlyShrinks(History(events))
    ensures OnlyShrinks(History(Init(events)))
  {
    if Final(events).Recorded? {
      assert Init(History(events)) == History(Init(events));
      OnlyShrinksInit(History(events));
    }
  }

  /** Such a caller, if moreover no node record is taken over, reuses blocks safely. */
  lemma ShrinkingIsSafe(g: Geometry, events: seq<Event>, states: seq<State>)
    requires Run(g, events, states) && WithoutTakeover(g, events, states) && OnlyShrinks(History(events))
    ensures SafelyReusing(g, events, states)
  {
    hide SafelyReusing, KeepingCuts, WithoutTakeover, OnlyShrinks;
    ShrinkingKeepsCuts(g, events, states);
    KeepingIsSafe(g, events, states);
  }
}
