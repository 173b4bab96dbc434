/** Files over whole runs: what they show, and when the lengths reported for them are exact. */
module RunFiles {
  import opened Records
  import opened Log
  import opened Lifetimes
  import opened Reuse
  import opened Engine
  import opened Recovery
  import opened FileData
  import opened FileSizes
  import opened Runs

  /** Up to position `r` no overwritten truncate was missed, and from there on the volume was not mounted again. */
  ghost predicate KeepingUntil(events: seq<Event>, states: seq<State>, r: nat)
    requires |states| == |events| + 1
  {
    && r <= |events| && KeepingCuts(events[..r], states[..r + 1])
    && forall i :: r <= i < |events| ==> events[i].Recorded?
  }

  lemma KeepingUntilInit(events: seq<Event>, states: seq<State>, r: nat)
    requires events != [] && |states| == |events| + 1 && KeepingUntil(events, states, r)
    ensures KeepingUntil(Init(events), Init(states), Min(r, |events| - 1))
  {
    hide CutsStay;
    var q := Min(r, |events| - 1);
    assert Init(events)[..q] == events[..r][..q] && Init(states)[..q + 1] == states[..r + 1][..q + 1];
    forall i | 0 <= i < q && Init(events)[..q][i].Recorded?
      ensures CutsStay(Init(states)[..q + 1][i], Init(events)[..q][i].block, Init(events)[..q][i].body)
    {
      assert Init(events)[..q][i] == events[..r][i] && Init(states)[..q + 1][i] == states[..r + 1][i];
    }
  }

  /** Where a run is mounted again its rows can be recovered. */
  lemma RemountedKeepsRows(g: Geometry, events: seq<Event>, states: seq<State>, r: nat)
    requires Run(g, events, states) && KeepingUntil(events, states, r) && events != [] && Final(events).Remounted?
    ensures RowsRecoverable(g, Final(Init(states)))
  {
    hide RowsRecoverable, CutsStay, Happens;
    assert events[..r] == events && states[..r + 1] == states;
    KeepingRunsKeepRows(g, events, states);
    assert Final(Init(states)) == states[|states| - 2];
  }

  // Bytes

  /** What an event does to a plain file. */
  function FileAfter(file: map<nat, byte>, id: nat, event: Event): map<nat, byte> {
    match event
    case Recorded(_, body) => FileStep(file, id, body)
    case Remounted => file
  }

  lemma FilesStep(g: Geometry, s: State, event: Event, t: State, id: nat, file: map<nat, byte>)
    requires Sane(g, s) && Sane(g, t) && Happens(g, s, event, t) && Shows(s, id, file)
    requires event.Remounted? ==> RowsRecoverable(g, s)
    ensures Shows(t, id, FileAfter(file, id, event))
  {
    hide Shows, RowsRecoverable, RowsAlike, Sane;
    match event
    case Recorded(b, body) =>
      PickedHoldsNoData(g, s, b, body);
      WriteShows(g, s, b, body, id, file);
    case Remounted =>
      MountRows(g, s, t);
      AlikeSymmetric(t.mem, s.mem);
      AlikeShows(g, s, t, id, file);
  }

  lemma HistoryStep(id: nat, events: seq<Event>)
    requires events != []
    ensures FileData.File(id, History(events)) == FileAfter(FileData.File(id, History(Init(events))), id, Final(events))
  {
    assert Final(events).Recorded? ==> Init(History(events)) == History(Init(events));
  }

  lemma FormattedShows(g: Geometry, id: nat)
    ensures Shows(Formatted(g), id, map[])
  {
  }

  /** The states on both sides of the last event. */
  lemma LastStates(g: Geometry, events: seq<Event>, states: seq<State>)
    requires Run(g, events, states) && events != []
    ensures Sane(g, Final(Init(states))) && Sane(g, Final(states))
    ensures Happens(g, Final(Init(states)), Final(events), Final(states))
  {
    hide Sane, Happens, DiskFits;
    RunStaysSane(g, events, states);
    assert Final(Init(states)) == states[|states| - 2] && Final(states) == states[|states| - 1];
    assert Happens(g, states[|events| - 1], events[|events| - 1], states[|events|]);
  }

  /**
   * Files survive everything, takeovers included: each file shows exactly the bytes that its writes, truncates and
   * deletes mean in the order they were made. Only truncates overwritten before the last mount can do harm.
   */
  lemma {:induction false} FilesSurvive(g: Geometry, events: seq<Event>, states: seq<State>, id: nat, r: nat)
    requires Run(g, events, states) && KeepingUntil(events, states, r)
    ensures Shows(Final(states), id, FileData.File(id, History(events)))
  {
    hide Shows, FileAfter, Sane, Happens, KeepingUntil, RowsRecoverable;
    if events == [] {
      FormattedShows(g, id);
    } else {
      RunPrefix(g, events, states);
      KeepingUntilInit(events, states, r);
      FilesSurvive(g, Init(events), Init(states), id, Min(r, |events| - 1));
      LastStates(g, events, states);
      if Final(events).Remounted? {
        RemountedKeepsRows(g, events, states, r);
      }
      FilesStep(g, Final(Init(states)), Final(events), Final(states), id, FileData.File(id, History(Init(events))));
      HistoryStep(id, events);
    }
  }

  // Append-style files

  function FileEnd(id: nat, history: seq<Body>): nat {
    if history == [] then 0 else EndAfter(Final(history), id, FileEnd(id, Init(history)))
  }

  /** Every write to the file in the run starts at the end the file has at that point. */
  predicate OnlyAppends(id: nat, events: seq<Event>) {
    events == [] ||
    (OnlyAppends(id, Init(events)) &&
     (Final(events).Recorded? ==> Appends(Final(events).body, id, FileEnd(id, History(Init(events))))))
  }

  function EndAfterEvent(end: nat, id: nat, event: Event): nat {
    match event
    case Recorded(_, body) => EndAfter(body, id, end)
    case Remounted => end
  }

  lemma EndStep(id: nat, events: seq<Event>)
    requires events != []
    ensures FileEnd(id, History(events)) == EndAfterEvent(FileEnd(id, History(Init(events))), id, Final(events))
  {
    assert Final(events).Recorded? ==> Init(History(events)) == History(Init(events));
  }

  lemma FormattedAppendStyle(g: Geometry, id: nat)
    ensures AppendStyle(Formatted(g), id, map[], 0)
  {
  }

  /**
   * A file that is only ever appended to and truncated stays gap-free, its blocks disjoint, through reuse and mounts.
   */
  lemma {:induction false} AppendedFilesStaySolid(g: Geometry, events: seq<Event>, states: seq<State>, id: nat, r: nat)
    requires Run(g, events, states) && KeepingUntil(events, states, r) && OnlyAppends(id, events)
    ensures AppendStyle(Final(states), id, FileData.File(id, History(events)), FileEnd(id, History(events)))
  {
    hide AppendStyle, FileAfter, EndAfterEvent, Sane, Happens, KeepingUntil, RowsRecoverable;
    if events == [] {
      FormattedAppendStyle(g, id);
    } else {
      RunPrefix(g, events, states);
      KeepingUntilInit(events, states, r);
      AppendedFilesStaySolid(g, Init(events), Init(states), id, Min(r, |events| - 1));
      LastStates(g, events, states);
      if Final(events).Remounted? {
        RemountedKeepsRows(g, events, states, r);
      }
      var before := History(Init(events));
      var file, end := FileData.File(id, before), FileEnd(id, before);
      AppendStyleStep(g, Final(Init(states)), Final(events), Final(states), id, file, end);
      HistoryStep(id, events);
      EndStep(id, events);
    }
  }

  lemma AppendStyleStep(g: Geometry, s: State, event: Event, t: State, id: nat, file: map<nat, byte>, end: nat)
    requires Sane(g, s) && Sane(g, t) && Happens(g, s, event, t) && AppendStyle(s, id, file, end)
    requires event.Remounted? ==> RowsRecoverable(g, s)
    requires event.Recorded? ==> Appends(event.body, id, end)
    ensures AppendStyle(t, id, FileAfter(file, id, event), EndAfterEvent(end, id, event))
  {
    hide Sane, RowsRecoverable, RowsAlike, Shows, Solid, Disjoint, Picks;
    match event
    case Recorded(b, body) => AppendStyleKept(g, s, b, body, id, file, end);
    case Remounted =>
      MountRows(g, s, t);
      AlikeSymmetric(t.mem, s.mem);
      AlikeShows(g, s, t, id, file);
      AlikeDisjoint(s.mem, t.mem, id);
  }

  lemma AlikeDisjoint(m: Mem, n: Mem, id: nat)
    requires RowsAlike(m, n) && Disjoint(m, id)
    ensures Disjoint(n, id)
  {
    forall b
      ensures IsData(n, id, b) ==> IsData(m, id, b) && n.blocks[b] == m.blocks[b]
    {
      AlikeRow(m, n, b);
    }
  }
}
