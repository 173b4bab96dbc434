/** Whole runs, one block write or remount at a time, so that every state of a run is also a crash point. */
module Runs {
  import opened Indexes
  import opened Records
  import opened Log
  import opened Lifetimes
  import opened Reuse
  import opened Engine
  import opened Recovery
  import opened Space
  import opened Trees
  import opened Reading
  import opened FileShapes
  import opened FileSizes

  datatype Event = Recorded(block: nat, body: Body) | Remounted

  /** A record that the operations may write goes to a block the allocator picks, or the volume is mounted again. */
  ghost predicate Happens(g: Geometry, s: State, event: Event, t: State) {
    match event
    case Recorded(b, body) => Wrote(g, s, body, b, t)
    case Remounted => Mount(g, s.disk) == Some(t)
  }

  /** A run from a freshly formatted volume. */
  ghost predicate Run(g: Geometry, events: seq<Event>, states: seq<State>) {
    && |states| == |events| + 1 && states[0] == Formatted(g)
    && forall i :: 0 <= i < |events| ==> Happens(g, states[i], events[i], states[i + 1])
  }

  ghost function SourceFor(g: Geometry, s: State, body: Body): Source {
    SourceOf(g, Effect(s.mem, body), body.Node())
  }

  /** Nothing was ever overwritten. */
  ghost predicate Appending(g: Geometry, events: seq<Event>, states: seq<State>)
    requires |states| == |events| + 1
  {
    forall i :: 0 <= i < |events| && events[i].Recorded? ==> SourceFor(g, states[i], events[i].body).Fresh?
  }

  /** Nothing that was overwritten was still needed. */
  ghost predicate SafelyReusing(g: Geometry, events: seq<Event>, states: seq<State>)
    requires |states| == |events| + 1
  {
    forall i :: 0 <= i < |events| && events[i].Recorded? ==> SafeOverwrite(states[i], events[i].block, events[i].body)
  }

  /** No overwritten truncate was missed. */
  ghost predicate KeepingCuts(events: seq<Event>, states: seq<State>)
    requires |states| == |events| + 1
  {
    forall i :: 0 <= i < |events| && events[i].Recorded? ==> CutsStay(states[i], events[i].block, events[i].body)
  }

  /** No overwritten record had cleared a name that a later move goes to. */
  ghost predicate RevivingNothing(events: seq<Event>, states: seq<State>)
    requires |states| == |events| + 1
  {
    forall i :: 0 <= i < |events| && events[i].Recorded? ==> RevivesNothing(states[i], events[i].block, events[i].body)
  }

  /** Every write kept a mountable disk mountable. */
  ghost predicate KeepingMountable(g: Geometry, events: seq<Event>, states: seq<State>)
    requires |states| == |events| + 1
  {
    forall i :: 0 <= i < |events| && events[i].Recorded? ==>
      KeepsMountable(g, states[i], events[i].block, events[i].body)
  }

  /** The allocator never took over a node record. */
  ghost predicate WithoutTakeover(g: Geometry, events: seq<Event>, states: seq<State>)
    requires |states| == |events| + 1
  {
    forall i :: 0 <= i < |events| && events[i].Recorded? ==> !SourceFor(g, states[i], events[i].body).TakenOver?
  }

  predicate NoMoves(events: seq<Event>) {
    forall i :: 0 <= i < |events| && events[i].Recorded? ==> !events[i].body.Move?
  }

  lemma RunPrefix(g: Geometry, events: seq<Event>, states: seq<State>)
    requires Run(g, events, states) && events != []
    ensures Run(g, Init(events), Init(states))
    ensures Happens(g, Final(Init(states)), Final(events), Final(states))
    ensures Appending(g, events, states) ==> Appending(g, Init(events), Init(states))
    ensures SafelyReusing(g, events, states) ==> SafelyReusing(g, Init(events), Init(states))
    ensures KeepingCuts(events, states) ==> KeepingCuts(Init(events), Init(states))
    ensures WithoutTakeover(g, events, states) ==> WithoutTakeover(g, Init(events), Init(states))
    ensures RevivingNothing(events, states) ==> RevivingNothing(Init(events), Init(states))
  {
    var i := |events| - 1;
    assert Happens(g, states[i], events[i], states[i + 1]);
  }

  // Append-only

  /** A state of an append-only run: loading its disk gives it back exactly, and its nodes are a tree. */
  ghost predicate Faithful(g: Geometry, s: State) {
    Sane(g, s) && Exact(g, s) && Tree(s.mem.nodes)
  }

  lemma MountExact(g: Geometry, s: State)
    requires Sane(g, s) && Exact(g, s)
    ensures Mount(g, s.disk) == Some(s)
  {
    CountersReturn(g, s);
  }

  lemma AppendStep(g: Geometry, s: State, event: Event, t: State)
    requires Faithful(g, s) && Happens(g, s, event, t)
    requires event.Recorded? ==> SourceFor(g, s, event.body).Fresh?
    ensures Faithful(g, t)
  {
    match event
    case Recorded(b, body) =>
      WriteSane(g, s, b, body);
      PickedBlock(g, s, body, b);
      LegalMoves(s.mem.nodes, body);
      AppendExact(g, s, b, body);
      LegalKeepsTree(s.mem.nodes, body);
    case Remounted =>
      MountExact(g, s);
  }

  lemma FormattedFaithful(g: Geometry)
    ensures Faithful(g, Formatted(g))
  {
    FormattedSane(g);
  }

  lemma {:induction false} AppendingRunIsFaithful(g: Geometry, events: seq<Event>, states: seq<State>)
    requires Run(g, events, states) && Appending(g, events, states)
    ensures forall k :: 0 <= k < |states| ==> Faithful(g, states[k])
  {
    hide Faithful, Happens, SourceFor;
    if events == [] {
      FormattedFaithful(g);
    } else {
      RunPrefix(g, events, states);
      AppendingRunIsFaithful(g, Init(events), Init(states));
      LastIsFresh(g, events, states);
      AppendStep(g, Final(Init(states)), Final(events), Final(states));
      forall k | 0 <= k < |states|
        ensures Faithful(g, states[k])
      {
        assert k < |states| - 1 ==> Init(states)[k] == states[k];
      }
    }
  }

  lemma LastIsFresh(g: Geometry, events: seq<Event>, states: seq<State>)
    requires events != [] && |states| == |events| + 1 && Appending(g, events, states)
    ensures Final(events).Recorded? ==> SourceFor(g, Final(Init(states)), Final(events).body).Fresh?
  {
  }

  /**
   * Append-only recovery, moves included: mounting the disk after any record of the run, also in the middle of an
   * operation, gives exactly the memory and counters the volume had at that point, with a sound tree in it.
   */
  lemma AppendOnlyRecovery(g: Geometry, events: seq<Event>, states: seq<State>)
    requires Run(g, events, states) && Appending(g, events, states)
    ensures forall k :: 0 <= k < |states| ==> Mount(g, states[k].disk) == Some(states[k]) && Tree(states[k].mem.nodes)
  {
    hide Mount, Tree, Sane, Exact;
    AppendingRunIsFaithful(g, events, states);
    forall k | 0 <= k < |states|
      ensures Mount(g, states[k].disk) == Some(states[k]) && Tree(states[k].mem.nodes)
    {
      MountExact(g, states[k]);
    }
  }

  // Reuse

  lemma LaterMatches(b: nat, rec: Record, s: seq<Logged>)
    requires rec.body.Data? ==> rec.body.bytes != []
    ensures RowMatches(b, Later(RowOf(b, rec), s), rec)
  {
    var row := RowOf(b, rec);
    LaterForm(row, s);
    CutEndMonotone(s, row.node, EndOf(row), EndOf(row));
  }

  /** A rebuilt row repeats the record in its block. */
  lemma RebuiltRowMatches(g: Geometry, s: State, b: nat)
    requires Stamped(s) && Mirrors(s) && b in s.disk
    ensures b in Rebuild(g.first, LogOf(s.disk)).blocks
    ensures RowMatches(b, Rebuild(g.first, LogOf(s.disk)).blocks[b], s.disk[b])
  {
    var log := LogOf(s.disk);
    LogShape(s);
    assert Logged(b, s.disk[b]) in log;
    var i :| 0 <= i < |log| && log[i] == Logged(b, s.disk[b]);
    RebuildRow(g.first, log, i);
    LaterMatches(b, s.disk[b], log[i + 1..]);
  }

  // Every reachable state

  lemma MountSane(g: Geometry, s: State, t: State)
    requires Sane(g, s) && Mount(g, s.disk) == Some(t)
    ensures Sane(g, t) && t.disk == s.disk
  {
    hide Rebuild, LogOf, RowMatches;
    var log := LogOf(s.disk);
    ReplayIsRebuild(g.first, log);
    CountersReturn(g, s);
    MountKeys(g, s);
    forall b | b in t.mem.blocks && b in t.disk
      ensures RowMatches(b, t.mem.blocks[b], t.disk[b])
    {
      RebuiltRowMatches(g, s, b);
    }
  }

  /** A mount has a row for every block that holds a record, and no other. */
  lemma MountKeys(g: Geometry, s: State)
    requires Sane(g, s)
    ensures Rebuild(g.first, LogOf(s.disk)).blocks.Keys == s.disk.Keys
  {
    hide Rebuild, LogOf;
    var log := LogOf(s.disk);
    LogShape(s);
    RebuildKeys(g.first, log);
    forall b
      ensures b in Rebuild(g.first, log).blocks <==> b in s.disk
    {
      if b in s.disk {
        assert Logged(b, s.disk[b]) in log;
      }
    }
  }

  /** No record on the disk holds more than a payload. */
  ghost predicate DiskFits(disk: Disk, payload: nat) {
    forall b :: b in disk ==> disk[b].body.Fill() <= payload
  }

  lemma EventKeepsSane(g: Geometry, s: State, event: Event, t: State)
    requires Sane(g, s) && DiskFits(s.disk, g.payload) && Happens(g, s, event, t)
    ensures Sane(g, t) && DiskFits(t.disk, g.payload)
  {
    match event
    case Recorded(b, body) => WriteSane(g, s, b, body);
    case Remounted => MountSane(g, s, t);
  }

  /** Whatever is overwritten, takeovers included: the tables cover the blocks, and the disk can be read back. */
  lemma {:induction false} RunStaysSane(g: Geometry, events: seq<Event>, states: seq<State>)
    requires Run(g, events, states)
    ensures forall k :: 0 <= k < |states| ==> Sane(g, states[k]) && DiskFits(states[k].disk, g.payload)
  {
    hide Sane, Happens, DiskFits, Appending, SafelyReusing, RevivingNothing;
    if events == [] {
      FormattedSane(g);
      assert DiskFits(Formatted(g).disk, g.payload) by {
        NothingFits(g);
      }
    } else {
      RunPrefix(g, events, states);
      RunStaysSane(g, Init(events), Init(states));
      EventKeepsSane(g, Final(Init(states)), Final(events), Final(states));
      forall k | 0 <= k < |states|
        ensures Sane(g, states[k]) && DiskFits(states[k].disk, g.payload)
      {
        assert k < |states| - 1 ==> Init(states)[k] == states[k];
      }
    }
  }

  lemma NothingFits(g: Geometry)
    ensures DiskFits(Formatted(g).disk, g.payload)
  {
  }

  /** Mounting again gives an equivalent volume with the same counters for blocks and sequence numbers. */
  lemma MountRecovers(g: Geometry, s: State, t: State)
    requires Sane(g, s) && Recoverable(g, s) && Mount(g, s.disk) == Some(t)
    ensures Sane(g, t) && Recoverable(g, t) && Exact(g, t) && Equivalent(t.mem, s.mem)
    ensures t.disk == s.disk && t.nextSeq == s.nextSeq && t.mem.nextBlock == s.mem.nextBlock
  {
    hide LogOf, Rebuild, RowMatches;
    var log := LogOf(s.disk);
    ReplayIsRebuild(g.first, log);
    CountersReturn(g, s);
    forall b | b in t.mem.blocks && b in t.disk
      ensures RowMatches(b, t.mem.blocks[b], t.disk[b])
    {
      RebuiltRowMatches(g, s, b);
    }
    EquivalentReflexive(t.mem);
  }

  lemma {:induction false} RebuiltNumbered(first: nat, log: seq<Logged>)
    ensures Numbered(Rebuild(first, log))
  {
    if log != [] {
      RebuiltNumbered(first, Init(log));
    }
  }

  /** Although the node counter may come back smaller, it lies above everything that is still there. */
  lemma MountNumbered(g: Geometry, s: State, t: State)
    requires Mount(g, s.disk) == Some(t)
    ensures Numbered(t.mem)
  {
    ReplayIsRebuild(g.first, LogOf(s.disk));
    RebuiltNumbered(g.first, LogOf(s.disk));
  }

  lemma EventKeepsNumbered(g: Geometry, s: State, event: Event, t: State)
    requires Numbered(s.mem) && Happens(g, s, event, t)
    ensures Numbered(t.mem)
  {
    hide Numbered, Mount, Picks, Legal;
    match event
    case Recorded(b, body) => WriteNumbered(s, b, body);
    case Remounted => MountNumbered(g, s, t);
  }

  lemma {:induction false} RunStaysNumbered(g: Geometry, events: seq<Event>, states: seq<State>)
    requires Run(g, events, states)
    ensures forall k :: 0 <= k < |states| ==> Numbered(states[k].mem)
  {
    hide Numbered, Happens, Appending, SafelyReusing, RevivingNothing, WithoutTakeover;
    if events == [] {
      FormattedNumbered(g);
    } else {
      RunPrefix(g, events, states);
      RunStaysNumbered(g, Init(events), Init(states));
      EventKeepsNumbered(g, Final(Init(states)), Final(events), Final(states));
      forall k | 0 <= k < |states|
        ensures Numbered(states[k].mem)
      {
        assert k < |states| - 1 ==> Init(states)[k] == states[k];
      }
    }
  }

  lemma FormattedNumbered(g: Geometry)
    ensures Numbered(Formatted(g).mem)
  {
  }

  /**
   * In any state of a run: a mount brings the node counter back if and only if the highest number is still on the
   * disk.
   */
  lemma CounterExact(g: Geometry, events: seq<Event>, states: seq<State>, k: nat, t: State)
    requires Run(g, events, states) && k < |states| && Mount(g, states[k].disk) == Some(t)
    ensures t.mem.nextNode <= states[k].mem.nextNode
    ensures t.mem.nextNode == states[k].mem.nextNode <==> HighestNamed(states[k])
  {
    hide Run, Sane, Numbered, DiskFits, HighestNamed, LogOf, Rebuild, Replay;
    RunStaysSane(g, events, states);
    RunStaysNumbered(g, events, states);
    NodeCounterExact(g, states[k]);
    ReplayIsRebuild(g.first, LogOf(states[k].disk));
  }

  /** A state from which everything can be recovered. */
  ghost predicate Sound(g: Geometry, s: State) {
    Sane(g, s) && Recoverable(g, s) && Tree(s.mem.nodes) && Numbered(s.mem) && Fits(s.mem, g.payload)
  }

  lemma RecordedStep(g: Geometry, s: State, b: nat, body: Body)
    requires Sound(g, s) && Wrote(g, s, body, b, Write(s, b, body)) && SafeOverwrite(s, b, body)
    ensures Sound(g, Write(s, b, body))
  {
    hide SafeOverwrite, Recoverable, Picks, Legal, Numbered, Tree, Sane, Reading.Fits;
    WriteNumbered(s, b, body);
    WriteSane(g, s, b, body);
    WriteRecoverable(g, s, b, body);
    LegalKeepsTree(s.mem.nodes, body);
    WriteFits(s, b, body, g.payload);
  }

  lemma RemountedStep(g: Geometry, s: State, t: State)
    requires Sound(g, s) && Mount(g, s.disk) == Some(t)
    ensures Sound(g, t)
  {
    MountRecovers(g, s, t);
    MountNumbered(g, s, t);
    EquivalentFits(t.mem, s.mem, g.payload);
  }

  lemma ReuseStep(g: Geometry, s: State, event: Event, t: State)
    requires Sound(g, s) && Happens(g, s, event, t)
    requires event.Recorded? ==> SafeOverwrite(s, event.block, event.body)
    ensures Sound(g, t)
  {
    hide Sound, SafeOverwrite;
    match event
    case Recorded(b, body) => RecordedStep(g, s, b, body);
    case Remounted => RemountedStep(g, s, t);
  }

  lemma EquivalentFits(m: Mem, n: Mem, payload: nat)
    requires Equivalent(m, n) && Fits(n, payload)
    ensures Fits(m, payload)
  {
  }

  /** What a mount of the disk finds, compared with the live volume. */
  ghost predicate Recovers(g: Geometry, s: State) {
    Mount(g, s.disk).Some? ==>
      var t := Mount(g, s.disk).value;
      Equivalent(t.mem, s.mem) && t.nextSeq == s.nextSeq && t.mem.nextBlock == s.mem.nextBlock
  }

  lemma SoundRecovers(g: Geometry, s: State)
    requires Sound(g, s)
    ensures Recovers(g, s)
  {
    if Mount(g, s.disk).Some? {
      MountRecovers(g, s, Mount(g, s.disk).value);
    }
  }

  lemma FormattedSound(g: Geometry)
    ensures Sound(g, Formatted(g))
  {
    FormattedSane(g);
  }

  lemma {:induction false} ReusingRunIsSound(g: Geometry, events: seq<Event>, states: seq<State>)
    requires Run(g, events, states) && SafelyReusing(g, events, states)
    ensures forall k :: 0 <= k < |states| ==> Sound(g, states[k])
  {
    hide Sound, Happens, SafeOverwrite, Appending, WithoutTakeover, RevivingNothing;
    if events == [] {
      FormattedSound(g);
    } else {
      RunPrefix(g, events, states);
      ReusingRunIsSound(g, Init(events), Init(states));
      LastIsSafe(g, events, states);
      ReuseStep(g, Final(Init(states)), Final(events), Final(states));
      forall k | 0 <= k < |states|
        ensures Sound(g, states[k])
      {
        assert k < |states| - 1 ==> Init(states)[k] == states[k];
      }
    }
  }

  lemma LastIsSafe(g: Geometry, events: seq<Event>, states: seq<State>)
    requires events != [] && |states| == |events| + 1 && SafelyReusing(g, events, states)
    ensures Final(events).Recorded? ==> SafeOverwrite(Final(Init(states)), Final(events).block, Final(events).body)
  {
    hide SafeOverwrite;
  }

  /**
   * Every state of a run can be recovered from its disk if and only if nothing was overwritten that was still needed.
   */
  lemma RecoverableExact(g: Geometry, events: seq<Event>, states: seq<State>)
    requires Run(g, events, states)
    ensures (forall k :: 0 <= k < |states| ==> Recoverable(g, states[k])) <==> SafelyReusing(g, events, states)
  {
    hide Recoverable, SafeOverwrite, Sane, Picks, Legal;
    if SafelyReusing(g, events, states) {
      ReusingRunIsSound(g, events, states);
    } else {
      var i :| 0 <= i < |events| && events[i].Recorded? && !SafeOverwrite(states[i], events[i].block, events[i].body);
      assert Happens(g, states[i], events[i], states[i + 1]);
      RunStaysSane(g, events, states);
      if Recoverable(g, states[i]) {
        WriteRecoverable(g, states[i], events[i].block, events[i].body);
      }
    }
  }

  // Rows under reuse

  /** A mount has every row just as the disk rebuilds it, whatever the volume looked like before. */
  lemma MountRows(g: Geometry, s: State, t: State)
    requires Sane(g, s) && Mount(g, s.disk) == Some(t)
    ensures RowsRecoverable(g, t)
    ensures RowsRecoverable(g, s) ==> RowsAlike(t.mem, s.mem)
  {
    hide LogOf, Rebuild, Replay;
    ReplayIsRebuild(g.first, LogOf(s.disk));
    AlikeReflexive(t.mem);
  }

  lemma AlikeReflexive(m: Mem)
    ensures RowsAlike(m, m)
  {
  }

  lemma EventKeepsRows(g: Geometry, s: State, event: Event, t: State)
    requires Sane(g, s) && RowsRecoverable(g, s) && Happens(g, s, event, t)
    ensures RowsRecoverable(g, t) <==> (event.Recorded? ==> CutsStay(s, event.block, event.body))
  {
    hide Sane, RowsRecoverable, CutsStay, Mount, Picks, Legal;
    match event
    case Recorded(b, body) => WriteKeepsRows(g, s, b, body);
    case Remounted => MountRows(g, s, t);
  }

  lemma {:induction false} KeepingRunsKeepRows(g: Geometry, events: seq<Event>, states: seq<State>)
    requires Run(g, events, states) && KeepingCuts(events, states)
    ensures forall k :: 0 <= k < |states| ==> RowsRecoverable(g, states[k])
  {
    hide Sane, RowsRecoverable, Happens, CutsStay, DiskFits, Appending, SafelyReusing, WithoutTakeover, RevivingNothing;
    if events == [] {
      FormattedRows(g);
    } else {
      RunPrefix(g, events, states);
      KeepingRunsKeepRows(g, Init(events), Init(states));
      RunStaysSane(g, events, states);
      LastKeepsCuts(events, states);
      assert Final(Init(states)) == states[|states| - 2];
      EventKeepsRows(g, Final(Init(states)), Final(events), Final(states));
      forall k | 0 <= k < |states|
        ensures RowsRecoverable(g, states[k])
      {
        assert k < |states| - 1 ==> Init(states)[k] == states[k];
      }
    }
  }

  lemma FormattedRows(g: Geometry)
    ensures RowsRecoverable(g, Formatted(g))
  {
  }

  lemma LastKeepsCuts(events: seq<Event>, states: seq<State>)
    requires events != [] && |states| == |events| + 1 && KeepingCuts(events, states)
    ensures Final(events).Recorded? ==> CutsStay(Final(Init(states)), Final(events).block, Final(events).body)
  {
    hide CutsStay;
  }

  /**
   * The rows of every state come back from its disk if and only if no overwritten truncate was missed; takeovers do no
   * harm to rows.
   */
  lemma RowsExact(g: Geometry, events: seq<Event>, states: seq<State>)
    requires Run(g, events, states)
    ensures (forall k :: 0 <= k < |states| ==> RowsRecoverable(g, states[k])) <==> KeepingCuts(events, states)
  {
    hide RowsRecoverable, CutsStay, Sane, Happens, DiskFits;
    if KeepingCuts(events, states) {
      KeepingRunsKeepRows(g, events, states);
    } else {
      var i :| 0 <= i < |events| && events[i].Recorded? && !CutsStay(states[i], events[i].block, events[i].body);
      assert Happens(g, states[i], events[i], states[i + 1]);
      RunStaysSane(g, events, states);
      if RowsRecoverable(g, states[i]) {
        EventKeepsRows(g, states[i], events[i], states[i + 1]);
      }
    }
  }

  /** Without takeovers nothing else can do harm. */
  lemma {:induction false} KeepingIsSafe(g: Geometry, events: seq<Event>, states: seq<State>)
    requires Run(g, events, states) && WithoutTakeover(g, events, states)
    ensures SafelyReusing(g, events, states) <==> KeepingCuts(events, states)
  {
    hide Sound, Happens, SafeOverwrite, CutsStay, SourceFor, Appending, RevivingNothing;
    if KeepingCuts(events, states) && events != [] {
      RunPrefix(g, events, states);
      KeepingIsSafe(g, Init(events), Init(states));
      ReusingRunIsSound(g, Init(events), Init(states));
      LastKeepsCuts(events, states);
      LastNotTaken(g, events, states);
      KeptIsSafe(g, Final(Init(states)), Final(events), Final(states));
      SafelyReusingSnoc(g, events, states);
    }
    forall i | 0 <= i < |events| && events[i].Recorded?
      ensures SafeOverwrite(states[i], events[i].block, events[i].body) ==>
        CutsStay(states[i], events[i].block, events[i].body)
    {
      if SafeOverwrite(states[i], events[i].block, events[i].body) {
        SafeKeepsCuts(states[i], events[i].block, events[i].body);
      }
    }
  }

  lemma SafeKeepsCuts(s: State, b: nat, body: Body)
    requires SafeOverwrite(s, b, body)
    ensures CutsStay(s, b, body)
  {
    hide LogOf, Shadowed;
  }

  lemma KeptIsSafe(g: Geometry, s: State, event: Event, t: State)
    requires Sound(g, s) && Happens(g, s, event, t)
    requires event.Recorded? ==> CutsStay(s, event.block, event.body) && !SourceFor(g, s, event.body).TakenOver?
    ensures event.Recorded? ==> SafeOverwrite(s, event.block, event.body)
  {
    hide LogOf, Shadowed, Recoverable, Sane, Picks, Legal, SafeOverwrite, SourceOf;
    if event.Recorded? {
      SafeWithoutTakeover(g, s, event.block, event.body);
    }
  }

  lemma LastNotTaken(g: Geometry, events: seq<Event>, states: seq<State>)
    requires events != [] && |states| == |events| + 1 && WithoutTakeover(g, events, states)
    ensures Final(events).Recorded? ==> !SourceFor(g, Final(Init(states)), Final(events).body).TakenOver?
  {
  }

  lemma SafelyReusingSnoc(g: Geometry, events: seq<Event>, states: seq<State>)
    requires events != [] && |states| == |events| + 1 && SafelyReusing(g, Init(events), Init(states))
    requires Final(events).Recorded? ==> SafeOverwrite(Final(Init(states)), Final(events).block, Final(events).body)
    ensures SafelyReusing(g, events, states)
  {
    hide SafeOverwrite;
    forall i | 0 <= i < |events| && events[i].Recorded?
      ensures SafeOverwrite(states[i], events[i].block, events[i].body)
    {
      if i < |events| - 1 {
        assert Init(events)[i] == events[i] && Init(states)[i] == states[i];
      }
    }
  }

  // Reclaimed delete records

  lemma EventKeepsOldFree(g: Geometry, s: State, event: Event, t: State)
    requires Sane(g, s) && OldAreFree(s) && Happens(g, s, event, t)
    ensures OldAreFree(t)
  {
    hide OldAreFree, RowsRecoverable, Sane, Mount, Picks, Legal;
    match event
    case Recorded(b, body) => WriteKeepsOldFree(g, s, b, body);
    case Remounted =>
      MountSane(g, s, t);
      MountRows(g, s, t);
      RowsFreeOld(g, t);
  }

  /**
   * In every reachable state, whatever was overwritten, a record older than a delete of its node is in a free block.
   */
  lemma {:induction false} RunFreesOld(g: Geometry, events: seq<Event>, states: seq<State>)
    requires Run(g, events, states)
    ensures forall k :: 0 <= k < |states| ==> OldAreFree(states[k])
  {
    hide Sane, OldAreFree, Happens, DiskFits, Appending, SafelyReusing, KeepingCuts, WithoutTakeover, RevivingNothing;
    if events == [] {
      FormattedOldFree(g);
    } else {
      RunPrefix(g, events, states);
      RunFreesOld(g, Init(events), Init(states));
      RunStaysSane(g, events, states);
      assert Final(Init(states)) == states[|states| - 2];
      EventKeepsOldFree(g, Final(Init(states)), Final(events), Final(states));
      forall k | 0 <= k < |states|
        ensures OldAreFree(states[k])
      {
        assert k < |states| - 1 ==> Init(states)[k] == states[k];
      }
    }
  }

  lemma FormattedOldFree(g: Geometry)
    ensures OldAreFree(Formatted(g))
  {
  }

  /**
   * Whenever the allocator reclaims a delete record, in whatever state a run has reached, no older record of its node
   * is left, and leaving the delete record out changes nothing that a replay rebuilds.
   */
  lemma RunReclaims(g: Geometry, events: seq<Event>, states: seq<State>, k: nat, b: nat, body: Body)
    requires Run(g, events, states) && k < |states| && Picks(g, Effect(states[k].mem, body), body.Node(), b)
    requires SourceFor(g, states[k], body).Reclaimed?
    ensures var disk := states[k].disk;
      && b in disk && disk[b].body.Delete?
      && forall c :: c in disk && disk[c].seqno < disk[b].seqno ==> disk[c].body.Node() != disk[b].body.Node()
    ensures Equivalent(Rebuild(g.first, LogOf(Write(states[k], b, body).disk)),
                       Rebuild(g.first, LogOf(states[k].disk) + [Logged(b, Record(states[k].nextSeq, body))]))
  {
    hide Run, Sane, OldAreFree, DiskFits, Picks, SourceOf, Equivalent, Rebuild, LogOf;
    RunStaysSane(g, events, states);
    RunFreesOld(g, events, states);
    ReclaimIsInvisible(g, states[k], b, body);
  }

  // Live blocks

  /** A node that a mount brings back has the live block its record is in. */
  lemma MountOwns(g: Geometry, s: State, t: State)
    requires Sane(g, s) && Mount(g, s.disk) == Some(t)
    ensures AllOwned(t.mem)
  {
    hide LogOf, Rebuild, Replay, Later;
    LogShape(s);
    var log := LogOf(s.disk);
    ReplayIsRebuild(g.first, log);
    forall k | k in t.mem.nodes
      ensures exists b :: Owned(t.mem, b, k.node)
    {
      RebuildNode(g.first, log, k);
      var j := RowComesFrom(log, k);
      RebuildRow(g.first, log, j);
      RowOfKind(log, j);
      LaterForm(Row(log, j), log[j + 1..]);
      assert Owned(t.mem, log[j].block, k.node);
    }
  }

  /** In every reachable state, whatever was overwritten, each node of the table has a live block. */
  lemma {:induction false} RunOwns(g: Geometry, events: seq<Event>, states: seq<State>)
    requires Run(g, events, states)
    ensures forall k :: 0 <= k < |states| ==> AllOwned(states[k].mem)
  {
    hide Sane, AllOwned, Happens, DiskFits, Appending, SafelyReusing, KeepingCuts, WithoutTakeover, RevivingNothing;
    if events == [] {
      FormattedOwns(g);
    } else {
      RunPrefix(g, events, states);
      RunOwns(g, Init(events), Init(states));
      RunStaysSane(g, events, states);
      assert Final(Init(states)) == states[|states| - 2];
      EventOwns(g, Final(Init(states)), Final(events), Final(states));
      forall k | 0 <= k < |states|
        ensures AllOwned(states[k].mem)
      {
        assert k < |states| - 1 ==> Init(states)[k] == states[k];
      }
    }
  }

  lemma EventOwns(g: Geometry, s: State, event: Event, t: State)
    requires Sane(g, s) && AllOwned(s.mem) && Happens(g, s, event, t)
    ensures AllOwned(t.mem)
  {
    hide Sane, AllOwned, Mount, Picks, Legal;
    match event
    case Recorded(b, body) => WriteKeepsOwned(g, s, b, body);
    case Remounted => MountOwns(g, s, t);
  }

  lemma FormattedOwns(g: Geometry)
    ensures AllOwned(Formatted(g).mem)
  {
  }

  // Mounting under reuse

  ghost predicate Mountable(g: Geometry, s: State) {
    Mount(g, s.disk).Some?
  }

  /** One event keeps the disk mountable if and only if its write does. */
  lemma EventMounts(g: Geometry, s: State, event: Event, t: State)
    requires Sane(g, s) && Happens(g, s, event, t) && Mountable(g, s)
    ensures Mountable(g, t) <==> (event.Recorded? ==> KeepsMountable(g, s, event.block, event.body))
  {
    hide KeepsMountable, Replay, Sane, Picks, Legal;
    match event
    case Recorded(b, body) => WriteMounts(g, s, b, body);
    case Remounted => MountSane(g, s, t);
  }

  lemma {:induction false} KeepingRunMounts(g: Geometry, events: seq<Event>, states: seq<State>, k: nat)
    requires Run(g, events, states) && KeepingMountable(g, events, states) && k < |states|
    ensures Mountable(g, states[k])
  {
    hide Sane, Happens, KeepsMountable, Mountable, DiskFits;
    if k == 0 {
      FormattedMounts(g);
    } else {
      KeepingRunMounts(g, events, states, k - 1);
      RunStaysSane(g, events, states);
      assert Happens(g, states[k - 1], events[k - 1], states[k]);
      EventMounts(g, states[k - 1], events[k - 1], states[k]);
    }
  }

  /** For every run: all its disks can be mounted if and only if every write kept the disk mountable. */
  lemma MountsExact(g: Geometry, events: seq<Event>, states: seq<State>)
    requires Run(g, events, states)
    ensures (forall k :: 0 <= k < |states| ==> Mountable(g, states[k])) <==> KeepingMountable(g, events, states)
  {
    hide Sane, Happens, KeepsMountable, Mountable, DiskFits;
    if KeepingMountable(g, events, states) {
      forall k | 0 <= k < |states|
        ensures Mountable(g, states[k])
      {
        KeepingRunMounts(g, events, states, k);
      }
    } else {
      var i :|
        0 <= i < |events| && events[i].Recorded? && !KeepsMountable(g, states[i], events[i].block, events[i].body);
      RunStaysSane(g, events, states);
      assert Happens(g, states[i], events[i], states[i + 1]);
      if Mountable(g, states[i]) {
        EventMounts(g, states[i], events[i], states[i + 1]);
      }
    }
  }

  // For a run that reuses safely, what the overwritten records had cleared decides

  /** There a write keeps the disk mountable if and only if it revives nothing. */
  lemma SafelyMounts(g: Geometry, s: State, event: Event, t: State)
    requires Sound(g, s) && Happens(g, s, event, t) && Mountable(g, s) && event.Recorded?
    ensures KeepsMountable(g, s, event.block, event.body) <==> RevivesNothing(s, event.block, event.body)
  {
    hide RevivesNothing, KeepsMountable, Recoverable, Replay, Sane, Picks;
    LegalMoves(s.mem.nodes, event.body);
    MountAfterWrite(g, s, event.block, event.body);
    WriteMounts(g, s, event.block, event.body);
  }

  lemma {:induction false} RevivingRunMounts(g: Geometry, events: seq<Event>, states: seq<State>, k: nat)
    requires Run(g, events, states) && SafelyReusing(g, events, states) && RevivingNothing(events, states)
    requires k < |states|
    ensures Mountable(g, states[k])
  {
    hide Sound, Happens, SafeOverwrite, RevivesNothing, Mountable, KeepsMountable, Sane, DiskFits;
    if k == 0 {
      FormattedMounts(g);
    } else {
      RevivingRunMounts(g, events, states, k - 1);
      ReusingRunIsSound(g, events, states);
      RunStaysSane(g, events, states);
      assert Happens(g, states[k - 1], events[k - 1], states[k]);
      if events[k - 1].Recorded? {
        SafelyMounts(g, states[k - 1], events[k - 1], states[k]);
      }
      EventMounts(g, states[k - 1], events[k - 1], states[k]);
    }
  }

  lemma FormattedMounts(g: Geometry)
    ensures Mountable(g, Formatted(g))
  {
  }

  /** Every disk of a safely reusing run can be mounted if and only if no write revived a name. */
  lemma MountableExact(g: Geometry, events: seq<Event>, states: seq<State>)
    requires Run(g, events, states) && SafelyReusing(g, events, states)
    ensures (forall k :: 0 <= k < |states| ==> Mountable(g, states[k])) <==> RevivingNothing(events, states)
  {
    hide Sound, SafeOverwrite, RevivesNothing, Mountable, KeepsMountable, Happens;
    if RevivingNothing(events, states) {
      forall k | 0 <= k < |states|
        ensures Mountable(g, states[k])
      {
        RevivingRunMounts(g, events, states, k);
      }
    }
    if forall k :: 0 <= k < |states| ==> Mountable(g, states[k]) {
      MountsExact(g, events, states);
      ReusingRunIsSound(g, events, states);
      forall i | 0 <= i < |events| && events[i].Recorded?
        ensures RevivesNothing(states[i], events[i].block, events[i].body)
      {
        assert Happens(g, states[i], events[i], states[i + 1]);
        SafelyMounts(g, states[i], events[i], states[i + 1]);
      }
    }
  }

  /**
   * Reuse-safe recovery: after any run with overwritten blocks and remounts in which nothing still needed was
   * overwritten, loading rebuilds the live nodes, the live non-free rows, the places of the free ones and the counters;
   * and at every point of the run it succeeds if and only if no write revived a name.
   */
  lemma ReuseRecovery(g: Geometry, events: seq<Event>, states: seq<State>)
    requires Run(g, events, states) && SafelyReusing(g, events, states)
    ensures forall k :: 0 <= k < |states| ==> Recovers(g, states[k]) && Tree(states[k].mem.nodes)
    ensures (forall k :: 0 <= k < |states| ==> Mountable(g, states[k])) <==> RevivingNothing(events, states)
  {
    hide Recovers, SafelyReusing, RevivingNothing, Mountable, Recoverable, Tree;
    ReusingRunIsSound(g, events, states);
    MountableExact(g, events, states);
    forall k | 0 <= k < |states|
      ensures Recovers(g, states[k]) && Tree(states[k].mem.nodes)
    {
      SoundRecovers(g, states[k]);
    }
  }

  /** A run without moves revives nothing. */
  lemma NoMovesReviveNothing(g: Geometry, events: seq<Event>, states: seq<State>)
    requires Run(g, events, states) && NoMoves(events)
    ensures RevivingNothing(events, states)
  {
    hide NoneRevived;
    RunStaysSane(g, events, states);
    forall i | 0 <= i < |events| && events[i].Recorded?
      ensures RevivesNothing(states[i], events[i].block, events[i].body)
    {
      OnlyRecorded(g, events, states, i);
      NoMoveNoRevival(g, states[i], events[i].block, events[i].body);
    }
  }

  lemma NoMoveNoRevival(g: Geometry, s: State, b: nat, body: Body)
    requires Sane(g, s) && !body.Move? && forall c :: c in s.disk ==> !s.disk[c].body.Move?
    ensures RevivesNothing(s, b, body)
  {
    hide LogOf, NoneRevived;
    LogShape(s);
    var log, e := LogOf(s.disk), Logged(b, Record(s.nextSeq, body));
    forall i | 0 <= i < |log| && log[i].block == b
      ensures NoneRevived(log[..i], log[i].rec.body.Node(), log[i + 1..] + [e])
    {
      var later := log[i + 1..] + [e];
      forall m | 0 <= m < |later|
        ensures !later[m].rec.body.Move?
      {
        assert m < |later| - 1 ==> later[m] == log[i + 1 + m];
      }
      StillNotRevived(log[..i], log[i].rec.body.Node(), later);
    }
  }

  lemma StillNotRevived(a: seq<Logged>, node: nat, b: seq<Logged>)
    requires forall m :: 0 <= m < |b| ==> !b[m].rec.body.Move?
    ensures NoneRevived(a, node, b)
  {
  }

  lemma {:induction false} OnlyRecorded(g: Geometry, events: seq<Event>, states: seq<State>, k: nat)
    requires Run(g, events, states) && NoMoves(events) && k < |states|
    ensures forall b :: b in states[k].disk ==> !states[k].disk[b].body.Move?
    decreases |events|
  {
    hide Appending, SafelyReusing, WithoutTakeover, RevivingNothing;
    if events != [] {
      RunPrefix(g, events, states);
      if k < |states| - 1 {
        OnlyRecorded(g, Init(events), Init(states), k);
      } else {
        OnlyRecorded(g, Init(events), Init(states), k - 1);
      }
    }
  }

  /** The records of a run, in order. */
  function History(events: seq<Event>): seq<Body> {
    if events == [] then []
    else if Final(events).Recorded? then History(Init(events)) + [Final(events).body]
    else History(Init(events))
  }
}
