/** A caller's condition on renames: names that nobody had keep every disk mountable. */
module FreshNames {
  import opened Indexes
  import opened Records
  import opened Log
  import opened Lifetimes
  import opened Reuse
  import opened Trees
  import opened Engine
  import opened Recovery
  import opened Runs
  import opened Histories

  /** The move at `q` goes to the slot that the record at `r` put a row into. */
  ghost predicate Reoccupies(history: seq<Body>, r: nat, q: nat)
    requires r < q < |history|
  {
    history[q].Move? && (history[r].Entry? || history[r].Move?) && SameSlot(history[r].entry, history[q].entry)
  }

  /** The node was deleted between `r` and `q`, and never again from there on. */
  ghost predicate GoneBy(history: seq<Body>, node: nat, r: nat, q: nat) {
    && (exists d :: r < d < q && d < |history| && Erases(history[d], node))
    && forall d :: q <= d < |history| ==> !Erases(history[d], node)
  }

  /** Every move goes to a name that no entry has had, apart from entries deleted for good before. */
  ghost predicate FreshSlots(history: seq<Body>) {
    forall r, q :: 0 <= r < q < |history| && Reoccupies(history, r, q) ==> GoneBy(history, history[r].Node(), r, q)
  }

  lemma FreshSlotsInit(history: seq<Body>)
    requires history != [] && FreshSlots(history)
    ensures FreshSlots(Init(history))
  {
    var h := Init(history);
    forall r, q | 0 <= r < q < |h| && Reoccupies(h, r, q)
      ensures GoneBy(h, h[r].Node(), r, q)
    {
      assert Reoccupies(history, r, q);
      assert GoneBy(history, history[r].Node(), r, q);
      assert forall d :: 0 <= d < |h| ==> h[d] == history[d];
    }
  }

  /** The disk has a delete record of a node that is gone by `q`, older than the record of `q`. */
  lemma GoneStands(history: seq<Body>, s: State, b: nat, q: nat) returns (c: nat)
    requires Dated(history, s) && DeletesStand(history, s.disk) && b in s.disk && q < |history|
    requires OfHistory(history, s.disk[b]) && GoneBy(history, s.disk[b].body.Node(), s.disk[b].seqno - 1, q)
    ensures c in s.disk && s.disk[b].seqno < s.disk[c].seqno <= q && Erases(s.disk[c].body, s.disk[b].body.Node())
  {
    var seqno, node := s.disk[b].seqno, s.disk[b].body.Node();
    var d :| seqno - 1 < d < q && d < |history| && Erases(history[d], node);
    assert StandsOver(s.disk, node, seqno);
    c :| c in s.disk && s.disk[c].seqno > seqno && Erases(s.disk[c].body, node);
    assert OfHistory(history, s.disk[c]);
    assert Erases(history[s.disk[c].seqno - 1], node);
  }

  /** So in the log it is followed by a delete before the move at position `m`. */
  lemma GoneInLog(history: seq<Body>, s: State, j: nat, m: nat)
    requires Stamped(s) && Mirrors(s) && Dated(history, s) && DeletesStand(history, s.disk)
    requires j < m < |LogOf(s.disk)|
    requires var log := LogOf(s.disk);
      && log[j].block in s.disk && s.disk[log[j].block] == log[j].rec
      && OfHistory(history, log[j].rec) && OfHistory(history, log[m].rec)
      && GoneBy(history, log[j].rec.body.Node(), log[j].rec.seqno - 1, log[m].rec.seqno - 1)
    ensures Deleted(LogOf(s.disk)[..m][j + 1..], LogOf(s.disk)[j].rec.body.Node())
  {
    hide LogOf, GoneBy, DeletesStand, Dated, Deleted;
    LogShape(s);
    var log := LogOf(s.disk);
    var c := GoneStands(history, s, log[j].block, log[m].rec.seqno - 1);
    var i := PositionOf(s, c);
    assert j < i < m;
    assert log[..m][j + 1..][i - j - 1] == log[i];
    HasDelete(log[..m][j + 1..], i - j - 1, log[j].rec.body.Node());
  }

  /** So no move finds its slot taken when the log of the disk is replayed. */
  lemma NoConflict(history: seq<Body>, s: State, first: nat, m: nat)
    requires Stamped(s) && Mirrors(s) && Dated(history, s) && DeletesStand(history, s.disk) && FreshSlots(history)
    requires m < |LogOf(s.disk)|
    ensures !Conflict(Rebuild(first, LogOf(s.disk)[..m]).nodes, LogOf(s.disk)[m].rec.body)
  {
    hide LogOf, Rebuild, NodeLater, DeletesStand, GoneBy;
    LogShape(s);
    var log := LogOf(s.disk);
    ConflictIsHeld(first, log[..m], log[m].rec.body);
    if log[m].rec.body.Move? {
      if k: NodeKey :| HoldsSlot(NodeLater(None, log[..m], k), log[m].rec.body.entry) {
        var j := RowComesFrom(log[..m], k);
        assert OfHistory(history, s.disk[log[j].block]) && OfHistory(history, s.disk[log[m].block]);
        assert Reoccupies(history, log[j].rec.seqno - 1, log[m].rec.seqno - 1);
        GoneInLog(history, s, j, m);
      }
    }
  }

  lemma {:induction false} ReplaysWithoutConflict(first: nat, log: seq<Logged>)
    requires forall m :: 0 <= m < |log| ==> !Conflict(Rebuild(first, log[..m]).nodes, log[m].rec.body)
    ensures Replay(first, log).Some?
  {
    hide Rebuild, Conflict;
    if log != [] {
      forall m | 0 <= m < |Init(log)|
        ensures !Conflict(Rebuild(first, Init(log)[..m]).nodes, Init(log)[m].rec.body)
      {
        assert Init(log)[..m] == log[..m];
      }
      ReplaysWithoutConflict(first, Init(log));
      ReplayIsRebuild(first, Init(log));
      assert Init(log) == log[..|log| - 1];
    }
  }

  lemma FreshMounts(g: Geometry, history: seq<Body>, s: State)
    requires Sane(g, s) && Remembers(history, s) && FreshSlots(history)
    ensures Mountable(g, s)
  {
    hide LogOf, Rebuild, Replay, Dated, DeletesStand, FreshSlots, Stamped, Mirrors, Conflict;
    forall m | 0 <= m < |LogOf(s.disk)|
      ensures !Conflict(Rebuild(g.first, LogOf(s.disk)[..m]).nodes, LogOf(s.disk)[m].rec.body)
    {
      NoConflict(history, s, g.first, m);
    }
    ReplaysWithoutConflict(g.first, LogOf(s.disk));
  }

  /**
   * If every rename goes to a name that nobody had, or only entries deleted for good, every disk of the run can be
   * mounted: with any reuse, takeovers and harmful overwrites included.
   */
  lemma {:induction false} FreshRunMounts(g: Geometry, events: seq<Event>, states: seq<State>)
    requires Run(g, events, states) && FreshSlots(History(events))
    ensures forall k :: 0 <= k < |states| ==> Mountable(g, states[k])
  {
    hide Mountable, Remembers, Sane, Happens, DiskFits, FreshSlots, Appending, SafelyReusing, KeepingCuts;
    hide WithoutTakeover;
    hide RevivingNothing;
    RunStaysSane(g, events, states);
    RunRemembers(g, events, states);
    FreshMounts(g, History(events), Final(states));
    if events != [] {
      RunPrefix(g, events, states);
      ShorterIsFresh(events);
      FreshRunMounts(g, Init(events), Init(states));
      forall k | 0 <= k < |states|
        ensures Mountable(g, states[k])
      {
        assert k < |states| - 1 ==> Init(states)[k] == states[k];
      }
    }
  }

  lemma ShorterIsFresh(events: seq<Event>)
    requires events != [] && FreshSlots(History(events))
    ensures FreshSlots(History(Init(events)))
  {
    hide FreshSlots;
    if Final(events).Recorded? {
      assert Init(History(events)) == History(Init(events));
      FreshSlotsInit(History(events));
    }
  }

  /**
   * For a caller that renames to fresh names only and never truncates a file to more than before, in a run that takes
   * no node record over: every disk can be mounted, and the mount recovers everything.
   */
  lemma FreshAndShrinkingRecovers(g: Geometry, events: seq<Event>, states: seq<State>)
    requires Run(g, events, states) && WithoutTakeover(g, events, states)
    requires OnlyShrinks(History(events)) && FreshSlots(History(events))
    ensures forall k :: 0 <= k < |states| ==>
      Mountable(g, states[k]) && Recovers(g, states[k]) && Tree(states[k].mem.nodes)
  {
    hide Mountable, Recovers, Tree, SafelyReusing, WithoutTakeover, RevivingNothing, OnlyShrinks, FreshSlots;
    ShrinkingIsSafe(g, events, states);
    ReuseRecovery(g, events, states);
    FreshRunMounts(g, events, states);
  }
}
