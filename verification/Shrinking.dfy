/** When truncates only shrink a file, as far as the disk still knows, overwritten truncate records are harmless. */
module Shrinking {
  import opened Records
  import opened Log
  import opened Lifetimes
  import opened Reuse
  import opened Engine
  import opened Recovery

  /** The new end of file is at most that of every recorded truncate of the node that no later record deletes. */
  ghost predicate Shrinks(log: seq<Logged>, body: Body) {
    body.Truncate? ==> forall i :: 0 <= i < |log| && IsTruncate(log[i], body.id) && !Deleted(log[i + 1..], body.id) ==>
      body.size <= log[i].rec.body.size
  }

  ghost predicate ShrinkingLog(log: seq<Logged>) {
    forall i, j :: 0 <= i < j < |log| && Outlives(log, i, j) ==> log[j].rec.body.size <= log[i].rec.body.size
  }

  /** Two truncates of one node, not followed by a delete of it. */
  ghost predicate Outlives(log: seq<Logged>, i: nat, j: nat)
    requires i < j < |log|
  {
    && log[i].rec.body.Truncate? && IsTruncate(log[j], log[i].rec.body.id)
    && !Deleted(log[i + 1..], log[i].rec.body.id)
  }

  /** A truncate in `s` bounds what `s` leaves of the node. */
  lemma {:induction false} TruncateCuts(s: seq<Logged>, t: nat, node: nat, end: nat)
    requires t < |s| && IsTruncate(s[t], node)
    ensures Truncated(s, node) && CutEnd(s, node, end) <= s[t].rec.body.size
  {
    if t < |s| - 1 {
      assert Init(s)[t] == s[t];
      TruncateCuts(Init(s), t, node, end);
    }
  }

  lemma {:induction false} FindTruncate(s: seq<Logged>, node: nat) returns (t: nat)
    requires Truncated(s, node)
    ensures t < |s| && IsTruncate(s[t], node)
  {
    if IsTruncate(Final(s), node) {
      t := |s| - 1;
    } else {
      t := FindTruncate(Init(s), node);
      assert Init(s)[t] == s[t];
    }
  }

  lemma ShrinkingAppend(log: seq<Logged>, e: Logged)
    requires ShrinkingLog(log) && Shrinks(log, e.rec.body)
    ensures ShrinkingLog(log + [e])
  {
    var l := log + [e];
    forall i, j | 0 <= i < j < |l| && Outlives(l, i, j)
      ensures l[j].rec.body.size <= l[i].rec.body.size
    {
      assert Init(l[i + 1..]) == log[i + 1..];
      assert l[i] == log[i];
      assert j < |log| ==> l[j] == log[j] && Outlives(log, i, j);
    }
  }

  /** In a shrinking log a freed truncate is shadowed by whatever freed it. */
  lemma ShrinkingShadows(log: seq<Logged>, i: nat, e: Logged)
    requires ShrinkingLog(log + [e]) && i < |log| && log[i].rec.body.Truncate?
    requires Deleted(log[i + 1..] + [e], log[i].rec.body.id) || Truncated(log[i + 1..] + [e], log[i].rec.body.id)
    ensures Shadowed(log, i, e)
  {
    var id, b := log[i].rec.body.id, log[i + 1..] + [e];
    forall j | 0 <= j < i
      ensures Covered(Row(log, j), log[i].rec.body, Rest(log, i, e, j))
    {
      TracesConcat(log[j + 1..i], b, id, 0);
      if !Deleted(b, id) {
        var t := FindTruncate(b, id);
        assert (log + [e])[i + 1..] == b;
        assert (log + [e])[i + 1 + t] == b[t];
        assert Outlives(log + [e], i, i + 1 + t);
        TracesConcat(log[j + 1..i], b, id, Row(log, j).offset + Row(log, j).fill);
        TruncateCuts(b, t, id, CutEnd(log[j + 1..i], id, Row(log, j).offset + Row(log, j).fill));
      }
    }
  }

  /** With shrinking truncates no overwritten truncate is missed, not even in a takeover. */
  lemma ShrinkingCuts(g: Geometry, s: State, b: nat, body: Body)
    requires Sane(g, s) && RowsRecoverable(g, s)
    requires ShrinkingLog(LogOf(s.disk)) && Shrinks(LogOf(s.disk), body)
    requires Picks(g, Effect(s.mem, body), body.Node(), b)
    ensures CutsStay(s, b, body)
  {
    hide LogOf, RowsRecoverable, Shadowed, Picks, SourceOf, ShrinkingLog, Shrinks;
    var log, e := LogOf(s.disk), Logged(b, Record(s.nextSeq, body));
    LogShape(s);
    ShrinkingAppend(log, e);
    if SourceOf(g, Effect(s.mem, body), body.Node()).TakenOver? {
      TakenIsEntry(g, s, body, b);
    } else {
      forall i | 0 <= i < |log| && log[i].block == b && log[i].rec.body.Truncate?
        ensures Shadowed(log, i, e)
      {
        TruncateWasFreed(g, s, i, body);
        ShrinkingShadows(log, i, e);
      }
    }
  }

  /** A truncate record is only handed out again once something freed it. */
  lemma TruncateWasFreed(g: Geometry, s: State, i: nat, body: Body)
    requires Sane(g, s) && RowsRecoverable(g, s) && i < |LogOf(s.disk)| && LogOf(s.disk)[i].rec.body.Truncate?
    requires Picks(g, Effect(s.mem, body), body.Node(), LogOf(s.disk)[i].block)
    requires !SourceOf(g, Effect(s.mem, body), body.Node()).TakenOver?
    ensures var log := LogOf(s.disk);
      var later := log[i + 1..] + [Logged(log[i].block, Record(s.nextSeq, body))];
      Deleted(later, log[i].rec.body.id) || Truncated(later, log[i].rec.body.id)
  {
    hide Later, RowEffect, LogOf, RowsRecoverable;
    var log := LogOf(s.disk);
    var e := Logged(log[i].block, Record(s.nextSeq, body));
    LogShape(s);
    assert log[i].block in s.disk;
    RowAfterEffect(g, s, i, body);
    RowOfKind(log, i);
    LaterForm(Row(log, i), log[i + 1..] + [e]);
    DeleteRow(log[i].block, s.mem.blocks[log[i].block], log[i].rec, body);
  }
}
