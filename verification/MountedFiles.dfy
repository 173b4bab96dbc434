/** What files show after a mount: the fold of the records still on the disk, whatever was overwritten. */
module MountedFiles {
  import opened Indexes
  import opened Records
  import opened Log
  import opened Lifetimes
  import opened Reuse
  import opened Engine
  import opened Recovery
  import opened FileData
  import opened Runs
  import opened RunFiles

  /** The records of a log without their blocks and numbers. */
  function Bodies(log: seq<Logged>): seq<Body> {
    if log == [] then [] else Bodies(Init(log)) + [Final(log).rec.body]
  }

  /** What the records on a disk say of a file. */
  ghost function DiskFile(disk: Disk, id: nat): map<nat, byte> {
    FileData.File(id, Bodies(LogOf(disk)))
  }

  // One position, record by record

  /** The row of the record at `i`, as the later ones leave it, covers the position. */
  predicate StillCovers(log: seq<Logged>, i: nat, id: nat, p: nat)
    requires i < |log|
  {
    Covers(Later(Row(log, i), log[i + 1..]), id, p)
  }

  /** The newest record whose row still covers the position. */
  ghost predicate NewestIn(log: seq<Logged>, i: nat, id: nat, p: nat) {
    i < |log| && StillCovers(log, i, id, p) && forall j :: i < j < |log| ==> !StillCovers(log, j, id, p)
  }

  /** The byte of the fold is the one in the newest record that still covers the position, or neither is there. */
  ghost predicate Tells(log: seq<Logged>, id: nat, p: nat, byte_: Option<byte>) {
    match byte_
    case None => forall i :: 0 <= i < |log| ==> !StillCovers(log, i, id, p)
    case Some(x) => exists i: nat :: NewestIn(log, i, id, p) && Holds(log[i].rec.body, p, x)
  }

  predicate Holds(body: Body, p: nat, x: byte) {
    body.Data? && body.offset <= p < body.offset + |body.bytes| && body.bytes[p - body.offset] == x
  }

  /** One more record, seen from an older one. */
  lemma CoversNext(log: seq<Logged>, i: nat, id: nat, p: nat)
    requires log != [] && i < |log| - 1
    ensures StillCovers(log, i, id, p) <==>
      && StillCovers(Init(log), i, id, p)
      && !(Final(log).rec.body.Truncate? && Final(log).rec.body.id == id && p >= Final(log).rec.body.size)
      && !(Final(log).rec.body.Delete? && Final(log).rec.body.entry.node == id)
  {
    var rest := log[i + 1..];
    assert Init(rest) == Init(log)[i + 1..] && Final(rest) == Final(log);
    CoversAfter(Later(Row(log, i), Init(rest)), Final(log).rec.body, id, p);
  }

  /** And from itself. */
  lemma CoversNow(log: seq<Logged>, id: nat, p: nat)
    requires log != []
    ensures var body := Final(log).rec.body;
      StillCovers(log, |log| - 1, id, p) <==> body.Data? && !Untouched(body, id, p)
  {
    assert log[|log| - 1 + 1..] == [];
  }

  /** New data at the position: it is told by the newest record. */
  lemma TellsData(log: seq<Logged>, id: nat, p: nat)
    requires log != [] && Final(log).rec.body.Data? && !Untouched(Final(log).rec.body, id, p)
    ensures Tells(log, id, p, Some(Final(log).rec.body.bytes[p - Final(log).rec.body.offset]))
  {
    CoversNow(log, id, p);
    assert NewestIn(log, |log| - 1, id, p);
  }

  /** No new data there: what was told stays, or is cut off. */
  lemma TellsOld(log: seq<Logged>, id: nat, p: nat, byte_: Option<byte>)
    requires log != [] && Tells(Init(log), id, p, byte_)
    requires Final(log).rec.body.Data? ==> Untouched(Final(log).rec.body, id, p)
    ensures Tells(log, id, p, if Untouched(Final(log).rec.body, id, p) then byte_ else None)
  {
    hide StillCovers;
    CoversNow(log, id, p);
    forall i | 0 <= i < |log| - 1
      ensures StillCovers(log, i, id, p) <==> Untouched(Final(log).rec.body, id, p) && StillCovers(Init(log), i, id, p)
    {
      CoversNext(log, i, id, p);
    }
    if Untouched(Final(log).rec.body, id, p) && byte_.Some? {
      var i: nat :| NewestIn(Init(log), i, id, p) && Holds(Init(log)[i].rec.body, p, byte_.value);
      assert NewestIn(log, i, id, p);
    }
  }

  lemma {:induction false} FoldTells(log: seq<Logged>, id: nat, p: nat)
    ensures Tells(log, id, p, Get(FileData.File(id, Bodies(log)), p))
  {
    hide Tells;
    if log == [] {
      TellsNothing(id, p);
    } else {
      var body := Final(log).rec.body;
      FoldTells(Init(log), id, p);
      assert Init(Bodies(log)) == Bodies(Init(log));
      FileStepAt(FileData.File(id, Bodies(Init(log))), id, body, p);
      if body.Data? && !Untouched(body, id, p) {
        TellsData(log, id, p);
      } else {
        TellsOld(log, id, p, Get(FileData.File(id, Bodies(Init(log))), p));
      }
    }
  }

  lemma TellsNothing(id: nat, p: nat)
    ensures Tells([], id, p, Get(FileData.File(id, Bodies([])), p))
  {
  }

  // The mounted volume

  /** The row of the block that holds the record at `i`. */
  lemma MountedRow(g: Geometry, s: State, t: State, i: nat)
    requires Sane(g, s) && Mount(g, s.disk) == Some(t) && i < |LogOf(s.disk)|
    ensures var log := LogOf(s.disk);
      && log[i].block in t.mem.blocks && t.mem.blocks[log[i].block] == Later(Row(log, i), log[i + 1..])
      && log[i].block in t.disk && t.disk[log[i].block] == log[i].rec
  {
    hide LogOf, Rebuild, Replay, Later;
    LogShape(s);
    ReplayIsRebuild(g.first, LogOf(s.disk));
    RebuildRow(g.first, LogOf(s.disk), i);
  }

  lemma MountedSeqno(g: Geometry, s: State, t: State, i: nat)
    requires Sane(g, s) && Mount(g, s.disk) == Some(t) && i < |LogOf(s.disk)|
    ensures var log := LogOf(s.disk);
      log[i].block in t.mem.blocks && t.mem.blocks[log[i].block].seqno == log[i].rec.seqno
  {
    hide LogOf, Mount;
    LogShape(s);
    MountedRow(g, s, t, i);
    RowOfKind(LogOf(s.disk), i);
    LaterForm(Row(LogOf(s.disk), i), LogOf(s.disk)[i + 1..]);
  }

  /** Every row of a mount is that of some record. */
  lemma RowIsMounted(g: Geometry, s: State, t: State, b: nat) returns (i: nat)
    requires Sane(g, s) && Mount(g, s.disk) == Some(t) && b in t.mem.blocks
    ensures i < |LogOf(s.disk)| && LogOf(s.disk)[i].block == b
  {
    hide LogOf, Mount;
    MountSane(g, s, t);
    i := PositionOf(s, b);
  }

  /** The newest record that still covers a position is the one on top in the mounted volume. */
  lemma NewestIsTop(g: Geometry, s: State, t: State, i: nat, id: nat, p: nat)
    requires Sane(g, s) && Mount(g, s.disk) == Some(t) && NewestIn(LogOf(s.disk), i, id, p)
    ensures Top(t.mem, id, p, LogOf(s.disk)[i].block)
  {
    hide LogOf, Mount, Sane, Covers;
    var log := LogOf(s.disk);
    MountedRow(g, s, t, i);
    MountedSeqno(g, s, t, i);
    forall c | c in t.mem.blocks && Covers(t.mem.blocks[c], id, p)
      ensures t.mem.blocks[c].seqno <= t.mem.blocks[log[i].block].seqno
    {
      var j := RowIsMounted(g, s, t, c);
      MountedRow(g, s, t, j);
      MountedSeqno(g, s, t, j);
      assert StillCovers(log, j, id, p);
      assert j <= i;
      LogAges(g, s, j, i);
    }
  }

  lemma LogAges(g: Geometry, s: State, j: nat, i: nat)
    requires Sane(g, s) && j <= i < |LogOf(s.disk)|
    ensures LogOf(s.disk)[j].rec.seqno <= LogOf(s.disk)[i].rec.seqno
  {
    hide LogOf;
    LogShape(s);
  }

  lemma MountedByte(g: Geometry, s: State, t: State, id: nat, p: nat)
    requires Sane(g, s) && Sane(g, t) && t.disk == s.disk && Mount(g, s.disk) == Some(t)
    ensures ByteAt(t, id, p) == Get(DiskFile(s.disk, id), p)
  {
    hide LogOf, Mount, Sane, Covers, Stored, FileData.File, Bodies, StillCovers;
    var log := LogOf(s.disk);
    FoldTells(log, id, p);
    match Get(DiskFile(s.disk, id), p)
    case Some(x) =>
      var i: nat :| NewestIn(log, i, id, p) && Holds(log[i].rec.body, p, x);
      NewestIsTop(g, s, t, i, id, p);
      ByteFrom(g, t, id, p, log[i].block);
      MountedRow(g, s, t, i);
      HeldIsStored(t.disk, log[i].block, p, x);
    case None =>
      forall b
        ensures !Top(t.mem, id, p, b)
      {
        if b in t.mem.blocks {
          var i := RowIsMounted(g, s, t, b);
          MountedRow(g, s, t, i);
          NotCovered(log, i, id, p);
        }
      }
  }

  lemma NotCovered(log: seq<Logged>, i: nat, id: nat, p: nat)
    requires i < |log| && !StillCovers(log, i, id, p)
    ensures !Covers(Later(Row(log, i), log[i + 1..]), id, p)
  {
  }

  lemma HeldIsStored(disk: Disk, b: nat, p: nat, x: byte)
    requires b in disk && Holds(disk[b].body, p, x)
    ensures Stored(disk, b, p) == Some(x)
  {
  }

  /** After any mount each file is the fold of the records that are still on the disk. */
  lemma MountShowsDisk(g: Geometry, s: State, t: State, id: nat)
    requires Sane(g, s) && Mount(g, s.disk) == Some(t)
    ensures Shows(t, id, DiskFile(s.disk, id))
  {
    hide Mount, Sane, DiskFile, ByteAt;
    MountSane(g, s, t);
    forall p: nat
      ensures ByteAt(t, id, p) == Get(DiskFile(s.disk, id), p)
    {
      MountedByte(g, s, t, id, p);
    }
  }

  // Runs

  /** What an event does to a plain file: a mount puts what the disk still says in its place. */
  ghost function FileThrough(file: map<nat, byte>, id: nat, s: State, event: Event): map<nat, byte> {
    match event
    case Recorded(_, body) => FileStep(file, id, body)
    case Remounted => DiskFile(s.disk, id)
  }

  /** What a file shows after a run. */
  ghost function FileAlong(events: seq<Event>, states: seq<State>, id: nat): map<nat, byte>
    requires |states| == |events| + 1
  {
    if events == [] then map[]
    else FileThrough(FileAlong(Init(events), Init(states), id), id, Final(Init(states)), Final(events))
  }

  lemma ThroughStep(g: Geometry, s: State, event: Event, t: State, id: nat, file: map<nat, byte>)
    requires Sane(g, s) && Sane(g, t) && Happens(g, s, event, t) && Shows(s, id, file)
    ensures Shows(t, id, FileThrough(file, id, s, event))
  {
    hide Shows, Sane, DiskFile, Mount;
    match event
    case Recorded(b, body) =>
      PickedHoldsNoData(g, s, b, body);
      WriteShows(g, s, b, body, id, file);
    case Remounted =>
      MountShowsDisk(g, s, t, id);
  }

  /**
   * After every run, whatever was overwritten: files are what was written since the last mount, over what the disk
   * told it.
   */
  lemma {:induction false} RunShows(g: Geometry, events: seq<Event>, states: seq<State>, id: nat)
    requires Run(g, events, states)
    ensures Shows(Final(states), id, FileAlong(events, states, id))
  {
    hide Shows, FileThrough, Sane, Happens, Appending, SafelyReusing, KeepingCuts, KeepingMountable, WithoutTakeover;
    hide RevivingNothing;
    if events == [] {
      FormattedShows(g, id);
    } else {
      RunPrefix(g, events, states);
      RunShows(g, Init(events), Init(states), id);
      LastStates(g, events, states);
      var before := FileAlong(Init(events), Init(states), id);
      ThroughStep(g, Final(Init(states)), Final(events), Final(states), id, before);
    }
  }

  lemma ShownOnce(s: State, id: nat, file: map<nat, byte>, file': map<nat, byte>)
    requires Shows(s, id, file)
    ensures Shows(s, id, file') <==> file == file'
  {
    if Shows(s, id, file') {
      forall p: nat
        ensures Get(file, p) == Get(file', p)
      {
        assert ByteAt(s, id, p) == Get(file, p);
        assert ByteAt(s, id, p) == Get(file', p);
      }
      MapsByGet(file, file');
    }
  }

  /** In any state of any run: a mount shows the file of the history if and only if the records left say the same. */
  lemma MountShowsHistory(g: Geometry, events: seq<Event>, states: seq<State>, t: State, id: nat)
    requires Run(g, events, states) && Mount(g, Final(states).disk) == Some(t)
    ensures Shows(t, id, FileData.File(id, History(events))) <==>
      DiskFile(Final(states).disk, id) == FileData.File(id, History(events))
  {
    hide Run, Shows, Sane, DiskFile, Mount;
    RunLastSane(g, events, states);
    MountShowsDisk(g, Final(states), t, id);
    ShownOnce(t, id, DiskFile(Final(states).disk, id), FileData.File(id, History(events)));
  }

  lemma RunLastSane(g: Geometry, events: seq<Event>, states: seq<State>)
    requires Run(g, events, states)
    ensures states != [] && Sane(g, Final(states))
  {
    hide Sane, DiskFits;
    RunStaysSane(g, events, states);
  }

  /** At every mount of the run the records left on the disk said of the file what the history had made of it. */
  ghost predicate ToldAtMounts(events: seq<Event>, states: seq<State>, id: nat)
    requires |states| == |events| + 1
  {
    forall k :: 0 <= k < |events| && events[k].Remounted? ==>
      DiskFile(states[k].disk, id) == FileData.File(id, History(events[..k]))
  }

  lemma ToldInit(events: seq<Event>, states: seq<State>, id: nat)
    requires events != [] && |states| == |events| + 1
    ensures ToldAtMounts(events, states, id) <==>
      && ToldAtMounts(Init(events), Init(states), id)
      && (Final(events).Remounted? ==>
            DiskFile(Final(Init(states)).disk, id) == FileData.File(id, History(Init(events))))
  {
    hide DiskFile, FileData.File;
    forall k | 0 <= k < |Init(events)|
      ensures Init(events)[..k] == events[..k] && Init(states)[k] == states[k] && Init(events)[k] == events[k]
    {
    }
    assert events[..|events| - 1] == Init(events) && states[|events| - 1] == Final(Init(states));
  }

  /** After which the file goes on as the history does. */
  ghost predicate ShowsHistory(events: seq<Event>, states: seq<State>, id: nat, k: nat)
    requires |states| == |events| + 1 && k <= |events|
  {
    Shows(states[k], id, FileData.File(id, History(events[..k])))
  }

  /**
   * A file shows its history at every point of a run if and only if at every mount the records left on the disk said of
   * it what the history had made of it.
   */
  lemma {:induction false} FilesExact(g: Geometry, events: seq<Event>, states: seq<State>, id: nat)
    requires Run(g, events, states)
    ensures (forall k :: 0 <= k <= |events| ==> ShowsHistory(events, states, id, k)) <==>
      ToldAtMounts(events, states, id)
  {
    hide Sane, Happens, Shows, DiskFile, ToldAtMounts, Appending, SafelyReusing, KeepingCuts, KeepingMountable;
    hide WithoutTakeover, RevivingNothing, FileStep, ShowsHistory;
    if events == [] {
      FormattedShows(g, id);
      NothingTold(g, events, states, id);
    } else {
      RunPrefix(g, events, states);
      FilesExact(g, Init(events), Init(states), id);
      ToldInit(events, states, id);
      ShownInit(events, states, id);
      if ToldAtMounts(Init(events), Init(states), id) {
        LastShown(events, states, id);
        LastShows(g, events, states, id);
      }
    }
  }

  lemma ShownInit(events: seq<Event>, states: seq<State>, id: nat)
    requires events != [] && |states| == |events| + 1
    ensures (forall k :: 0 <= k <= |events| ==> ShowsHistory(events, states, id, k)) <==>
      && (forall k :: 0 <= k <= |Init(events)| ==> ShowsHistory(Init(events), Init(states), id, k))
      && ShowsHistory(events, states, id, |events|)
  {
    hide Shows, FileData.File;
    forall k | 0 <= k <= |Init(events)|
      ensures ShowsHistory(Init(events), Init(states), id, k) <==> ShowsHistory(events, states, id, k)
    {
      assert Init(events)[..k] == events[..k] && Init(states)[k] == states[k];
    }
  }

  lemma LastShown(events: seq<Event>, states: seq<State>, id: nat)
    requires events != [] && |states| == |events| + 1
    requires forall k :: 0 <= k <= |Init(events)| ==> ShowsHistory(Init(events), Init(states), id, k)
    ensures Shows(Final(Init(states)), id, FileData.File(id, History(Init(events))))
    ensures ShowsHistory(events, states, id, |events|) <==> Shows(Final(states), id, FileData.File(id, History(events)))
  {
    hide Shows, FileData.File;
    assert ShowsHistory(Init(events), Init(states), id, |Init(events)|);
    assert Init(events)[..|Init(events)|] == Init(events) && events[..|events|] == events;
  }

  lemma NothingTold(g: Geometry, events: seq<Event>, states: seq<State>, id: nat)
    requires Run(g, events, states) && events == [] && Shows(Formatted(g), id, map[])
    ensures ToldAtMounts(events, states, id) && ShowsHistory(events, states, id, 0)
  {
    hide Shows;
    assert events[..0] == events;
  }

  /** The last event keeps the file as the history has it, unless it is a mount of a disk that says otherwise. */
  lemma LastShows(g: Geometry, events: seq<Event>, states: seq<State>, id: nat)
    requires Run(g, events, states) && events != []
    requires Shows(Final(Init(states)), id, FileData.File(id, History(Init(events))))
    ensures Shows(Final(states), id, FileData.File(id, History(events))) <==>
      (Final(events).Remounted? ==>
         DiskFile(Final(Init(states)).disk, id) == FileData.File(id, History(Init(events))))
  {
    hide Sane, Shows, DiskFile, FileStep, Mount;
    LastStates(g, events, states);
    HistoryStep(id, events);
    var before := FileData.File(id, History(Init(events)));
    ThroughStep(g, Final(Init(states)), Final(events), Final(states), id, before);
    if Final(events).Remounted? {
      ShownOnce(Final(states), id, DiskFile(Final(Init(states)).disk, id), before);
    }
  }

  // When an overwritten truncate is missed by its file

  /** Some record says what is at the position, whatever was there before. */
  ghost predicate Retouched(bodies: seq<Body>, id: nat, p: nat) {
    exists m :: 0 <= m < |bodies| && !Untouched(bodies[m], id, p)
  }

  lemma {:induction false} LaterForgets(bodies: seq<Body>, id: nat, p: nat, a: Option<byte>, b: Option<byte>)
    ensures Retouched(bodies, id, p) ==> ByteLater(a, bodies, id, p) == ByteLater(b, bodies, id, p)
    ensures !Retouched(bodies, id, p) ==> ByteLater(a, bodies, id, p) == a
    decreases |bodies|
  {
    if bodies != [] {
      var rest := bodies[1..];
      LaterForgets(rest, id, p, ByteStep(a, bodies[0], id, p), ByteStep(b, bodies[0], id, p));
      if Retouched(rest, id, p) {
        var m :| 0 <= m < |rest| && !Untouched(rest[m], id, p);
        assert !Untouched(bodies[m + 1], id, p);
      } else if Untouched(bodies[0], id, p) {
        forall m | 0 <= m < |bodies|
          ensures Untouched(bodies[m], id, p)
        {
          assert m > 0 ==> bodies[m] == rest[m - 1];
        }
      }
    }
  }

  /** A fold continued, position by position. */
  lemma {:induction false} FoldOn(id: nat, a: seq<Body>, b: seq<Body>, p: nat)
    ensures Get(FileData.File(id, a + b), p) == ByteLater(Get(FileData.File(id, a), p), b, id, p)
  {
    if b == [] {
      assert a + b == a;
    } else {
      assert Init(a + b) == a + Init(b);
      FoldOn(id, a, Init(b), p);
      FileStepAt(FileData.File(id, a + Init(b)), id, Final(b), p);
      ByteLaterSnoc(Get(FileData.File(id, a), p), b, id, p);
    }
  }

  /** What a truncate cut off at a position, unless later records settle it, comes back without the truncate. */
  lemma CutAt(id: nat, a: seq<Body>, size: nat, b: seq<Body>, p: nat)
    ensures Get(FileData.File(id, a + b), p) == Get(FileData.File(id, a + [Truncate(id, size)] + b), p) <==>
      (p in FileData.File(id, a) && p >= size ==> Retouched(b, id, p))
  {
    var cut := a + [Truncate(id, size)];
    var old_ := Get(FileData.File(id, a), p);
    FoldOn(id, a, b, p);
    FoldOn(id, cut, b, p);
    assert Init(cut) == a && Final(cut) == Truncate(id, size);
    FileStepAt(FileData.File(id, a), id, Truncate(id, size), p);
    LaterForgets(b, id, p, old_, Get(FileData.File(id, cut), p));
    LaterForgets(b, id, p, Get(FileData.File(id, cut), p), old_);
  }

  lemma FoldsAgree(id: nat, a: seq<Body>, size: nat, b: seq<Body>)
    ensures FileData.File(id, a + b) == FileData.File(id, a + [Truncate(id, size)] + b) <==>
      forall p: nat :: p in FileData.File(id, a) && p >= size ==> Retouched(b, id, p)
  {
    hide FileData.File, Retouched;
    var f, h := FileData.File(id, a + b), FileData.File(id, a + [Truncate(id, size)] + b);
    forall p: nat
      ensures Get(f, p) == Get(h, p) <==> (p in FileData.File(id, a) && p >= size ==> Retouched(b, id, p))
    {
      CutAt(id, a, size, b, p);
    }
    if forall p: nat :: Get(f, p) == Get(h, p) {
      MapsByGet(f, h);
    }
  }

  lemma {:induction false} BodiesConcat(a: seq<Logged>, b: seq<Logged>)
    ensures Bodies(a + b) == Bodies(a) + Bodies(b)
  {
    if b == [] {
      assert a + b == a;
    } else {
      assert Init(a + b) == a + Init(b);
      BodiesConcat(a, Init(b));
    }
  }

  lemma OneBody(e: Logged)
    ensures Bodies([e]) == [e.rec.body]
  {
    assert Init([e]) == [] && Bodies([]) == [];
  }

  /** The records around one. */
  lemma BodiesAround(a: seq<Logged>, x: Logged, b: seq<Logged>, e: Logged)
    ensures Bodies(a + [x] + b + [e]) == Bodies(a) + [x.rec.body] + (Bodies(b) + [e.rec.body])
    ensures Bodies(a + b + [e]) == Bodies(a) + (Bodies(b) + [e.rec.body])
  {
    hide Bodies;
    OneBody(x);
    OneBody(e);
    BodiesConcat(a, [x]);
    BodiesConcat(a + [x], b);
    BodiesConcat(a + [x] + b, [e]);
    BodiesConcat(a, b);
    BodiesConcat(a + b, [e]);
  }

  /**
   * Writing over a truncate record leaves the disk saying of the file what the write means if and only if every
   * position that the truncate had cut off is settled by a later record.
   */
  lemma MissedCutExact(s: State, b: nat, body: Body, i: nat)
    requires Stamped(s) && Mirrors(s) && i < |LogOf(s.disk)| && LogOf(s.disk)[i].block == b
    requires LogOf(s.disk)[i].rec.body.Truncate?
    ensures var log, cut := LogOf(s.disk), LogOf(s.disk)[i].rec.body;
      DiskFile(Write(s, b, body).disk, cut.id) == FileStep(DiskFile(s.disk, cut.id), cut.id, body) <==>
      forall p: nat :: p in FileData.File(cut.id, Bodies(log[..i])) && p >= cut.size ==>
        Retouched(Bodies(log[i + 1..]) + [body], cut.id, p)
  {
    hide LogOf, Retouched, FileStep, Bodies, Mirrors;
    var log, e := LogOf(s.disk), Logged(b, Record(s.nextSeq, body));
    var cut := log[i].rec.body;
    LogOfOverwrite(s, b, body, i);
    assert log == log[..i] + [log[i]] + log[i + 1..];
    BodiesAround(log[..i], log[i], log[i + 1..], e);
    FoldsAgree(cut.id, Bodies(log[..i]), cut.size, Bodies(log[i + 1..]) + [body]);
    NextFold(log, e, cut.id);
  }

  lemma NextFold(log: seq<Logged>, e: Logged, id: nat)
    ensures FileData.File(id, Bodies(log + [e])) == FileStep(FileData.File(id, Bodies(log)), id, e.rec.body)
  {
    assert Init(log + [e]) == log;
    assert Init(Bodies(log + [e])) == Bodies(log);
  }

  lemma LogOfOverwrite(s: State, b: nat, body: Body, i: nat)
    requires Stamped(s) && Mirrors(s) && i < |LogOf(s.disk)| && LogOf(s.disk)[i].block == b
    ensures LogOf(Write(s, b, body).disk) ==
      LogOf(s.disk)[..i] + LogOf(s.disk)[i + 1..] + [Logged(b, Record(s.nextSeq, body))]
  {
    hide LogOf;
    LogShape(s);
    assert LogOf(s.disk)[i].block in s.disk;
    var j := PositionInLog(s, b);
    OneInBlock(LogOf(s.disk), i);
    LogOfWrite(s.disk, b, Record(s.nextSeq, body));
  }
}
