/** Runs of at most four blocks, without any takeover, that show what reuse and renames can lose. */
module ReuseLimits {
  import opened Indexes
  import opened Records
  import opened Log
  import opened Lifetimes
  import opened Trees
  import opened Engine
  import opened Recovery
  import opened FileData
  import opened Runs
  import opened Operations
  import opened Guarantees
  import opened Outcomes
  import opened Renames
  import opened Limits

  const FOUR := Geometry(1, 4, 10)

  function Row(b: nat, seqno: nat, op: nat, node: nat, fill: nat, offset: nat): Block {
    Block(b, seqno, op, node, fill, offset)
  }

  function Named(node: nat, typ: NodeType, name: string): Node {
    Node(node, 0, typ, 0, 0, 0, name)
  }

  /** One more write, to a block that is not taken over. */
  ghost predicate Step(s: State, body: Body, b: nat, t: State) {
    Wrote(FOUR, s, body, b, t) && !SourceFor(FOUR, s, body).TakenOver?
  }

  ghost predicate Reached(history: seq<Body>, s: State) {
    exists events, states ::
      && Run(FOUR, events, states) && WithoutTakeover(FOUR, events, states)
      && Final(states) == s && History(events) == history
  }

  lemma ReachedFormatted()
    ensures Reached([], Formatted(FOUR))
  {
    var events: seq<Event> := [];
    assert Run(FOUR, events, [Formatted(FOUR)]) && WithoutTakeover(FOUR, events, [Formatted(FOUR)]);
  }

  lemma ReachedStep(history: seq<Body>, s: State, body: Body, b: nat, t: State)
    requires Reached(history, s) && Step(s, body, b, t)
    ensures Reached(history + [body], t)
  {
    hide Step, Happens, WithoutTakeover;
    var events, states :|
      && Run(FOUR, events, states) && WithoutTakeover(FOUR, events, states)
      && Final(states) == s && History(events) == history;
    RunStep(events, states, body, b, t);
    assert Final(states + [t]) == t;
  }

  lemma RunStep(events: seq<Event>, states: seq<State>, body: Body, b: nat, t: State)
    requires Run(FOUR, events, states) && WithoutTakeover(FOUR, events, states) && Step(Final(states), body, b, t)
    ensures Run(FOUR, events + [Recorded(b, body)], states + [t])
    ensures WithoutTakeover(FOUR, events + [Recorded(b, body)], states + [t])
    ensures History(events + [Recorded(b, body)]) == History(events) + [body]
  {
    hide Wrote, SourceFor, WithoutTakeover, Run, Formatted;
    RunSnoc(FOUR, events, states, Recorded(b, body), t);
    WithoutTakeoverSnoc(events, states, b, body, t);
    assert Init(events + [Recorded(b, body)]) == events;
  }

  lemma WithoutTakeoverSnoc(events: seq<Event>, states: seq<State>, b: nat, body: Body, t: State)
    requires Run(FOUR, events, states) && WithoutTakeover(FOUR, events, states)
    requires !SourceFor(FOUR, Final(states), body).TakenOver?
    ensures WithoutTakeover(FOUR, events + [Recorded(b, body)], states + [t])
  {
    hide SourceFor, Happens;
    var events', states' := events + [Recorded(b, body)], states + [t];
    forall i | 0 <= i < |events'| && events'[i].Recorded?
      ensures !SourceFor(FOUR, states'[i], events'[i].body).TakenOver?
    {
      assert i < |events| ==> events'[i] == events[i] && states'[i] == states[i];
    }
  }

  /** The three things to check about a step. */
  lemma StepIs(s: State, body: Body, b: nat, t: State)
    requires Legal(s.mem.nodes, body) && WellSized(body, FOUR.payload) && t == Write(s, b, body)
    requires Picks(FOUR, Effect(s.mem, body), body.Node(), b) && !SourceFor(FOUR, s, body).TakenOver?
    ensures Step(s, body, b, t)
  {
  }

  lemma PicksFresh(m: Mem, node: nat)
    requires m.nextBlock <= FOUR.last
    ensures Picks(FOUR, m, node, m.nextBlock) && SourceOf(FOUR, m, node).Fresh?
  {
  }

  /** The allocator reuses a free block when it is the first one. */
  lemma PicksFree(m: Mem, node: nat, b: nat)
    requires m.nextBlock > FOUR.last && b in m.blocks && m.blocks[b].op == FREE
    requires forall c :: c in m.blocks && m.blocks[c].op == FREE ==> BlockLookup(m.blocks[b], m.blocks[c]) <= 0
    ensures Picks(FOUR, m, node, b) && SourceOf(FOUR, m, node).Reused?
  {
    assert OpFilter(FREE)(m.blocks[b]) == 0;
    assert FirstIn(m, OpFilter(FREE), b);
  }

  /** Without free blocks it reclaims the first delete record. */
  lemma PicksDelete(m: Mem, node: nat, b: nat)
    requires m.nextBlock > FOUR.last && b in m.blocks && m.blocks[b].op == DELETE
    requires forall c :: c in m.blocks ==> m.blocks[c].op != FREE
    requires forall c :: c in m.blocks && m.blocks[c].op == DELETE ==> BlockLookup(m.blocks[b], m.blocks[c]) <= 0
    ensures Picks(FOUR, m, node, b) && SourceOf(FOUR, m, node).Reclaimed?
  {
    assert OpFilter(DELETE)(m.blocks[b]) == 0;
    assert FirstIn(m, OpFilter(DELETE), b);
  }

  /** One write, part by part. */
  lemma WriteIs(s: State, b: nat, body: Body, e: Mem, row: Block, rec: Record, t: State)
    requires Effect(s.mem, body) == e && rec == Record(s.nextSeq, body) && row == RowOf(b, rec)
    requires t.mem.nodes == e.nodes && t.mem.blocks == e.blocks[b := row] && t.disk == s.disk[b := rec]
    requires t.mem.nextNode == Max(e.nextNode, body.Node() + 1) && t.mem.nextBlock == Max(e.nextBlock, b + 1)
    requires t.nextSeq == s.nextSeq + 1
    ensures Write(s, b, body) == t
  {
  }

  // An erased move

  const T := Named(1, File, "t")
  const X := Named(2, File, "x")
  const Z := Named(3, File, "z")
  const Y := Named(2, File, "y")
  const ZX := Named(3, File, "x")

  function M1(): State {
    State(Mem(map[KeyOf(T) := T], map[1 := Row(1, 1, NODE, 1, 0, 0)], 2, 2), map[1 := Record(1, Entry(T))], 2)
  }

  function M2(): State {
    State(Mem(map[], map[1 := Row(1, 1, FREE, 1, 0, 0), 2 := Row(2, 2, DELETE, 1, 0, 0)], 2, 3),
          map[1 := Record(1, Entry(T)), 2 := Record(2, Delete(T))], 3)
  }

  function M3(): State {
    State(Mem(map[KeyOf(X) := X],
              map[1 := Row(1, 1, FREE, 1, 0, 0), 2 := Row(2, 2, DELETE, 1, 0, 0), 3 := Row(3, 3, NODE, 2, 0, 0)], 3, 4),
          map[1 := Record(1, Entry(T)), 2 := Record(2, Delete(T)), 3 := Record(3, Entry(X))], 4)
  }

  function M4(): State {
    var s := M3();
    State(Mem(s.mem.nodes[KeyOf(Z) := Z], s.mem.blocks[4 := Row(4, 4, NODE, 3, 0, 0)], 4, 5),
          s.disk[4 := Record(4, Entry(Z))], 5)
  }

  function M5(): State {
    var s := M4();
    State(s.mem.(nodes := s.mem.nodes[KeyOf(Y) := Y], blocks := s.mem.blocks[1 := Row(1, 5, MOVE, 2, 0, 0)]),
          s.disk[1 := Record(5, Move(Y))], 6)
  }

  function M6(): State {
    var s := M5();
    State(s.mem.(nodes := s.mem.nodes[KeyOf(ZX) := ZX], blocks := s.mem.blocks[2 := Row(2, 6, MOVE, 3, 0, 0)]),
          s.disk[2 := Record(6, Move(ZX))], 7)
  }

  function M7(): State {
    var s := M6();
    State(s.mem.(nodes := map[KeyOf(Z) := ZX], blocks := Freed7()[1 := Row(1, 7, DELETE, 2, 0, 0)]),
          s.disk[1 := Record(7, Delete(Y))], 8)
  }

  lemma Names()
    ensures "t" != "x" && "t" != "z" && "x" != "y" && "x" != "z" && "y" != "z"
  {
    assert "t"[0] == 't' && "x"[0] == 'x' && "y"[0] == 'y' && "z"[0] == 'z';
  }

  lemma MoveSteps1()
    ensures Step(Formatted(FOUR), Entry(T), 1, M1()) && Step(M1(), Delete(T), 2, M2())
  {
    assert Write(Formatted(FOUR), 1, Entry(T)) == M1();
    assert Write(M1(), 2, Delete(T)) == M2();
  }

  lemma MoveStep3()
    ensures Step(M2(), Entry(X), 3, M3())
  {
    Names();
    assert Write(M2(), 3, Entry(X)) == M3();
  }

  lemma MoveStep4()
    ensures Step(M3(), Entry(Z), 4, M4())
  {
    hide Step, Picks, SourceOf, Effect;
    Names();
    EntryEffect(M3().mem, Z);
    PicksFresh(Effect(M3().mem, Entry(Z)), 3);
    WriteIs(M3(), 4, Entry(Z), Effect(M3().mem, Entry(Z)), Row(4, 4, NODE, 3, 0, 0), Record(4, Entry(Z)), M4());
    StepIs(M3(), Entry(Z), 4, M4());
  }

  lemma MoveStep5()
    ensures Step(M4(), Move(Y), 1, M5())
  {
    hide Step, Picks, SourceOf;
    Names();
    MoveEffect(M4().mem, Y);
    PicksFree(Effect(M4().mem, Move(Y)), 2, 1);
    WriteOf5();
    StepIs(M4(), Move(Y), 1, M5());
  }

  lemma WriteOf5()
    ensures Write(M4(), 1, Move(Y)) == M5()
  {
    hide Effect;
    MoveEffect(M4().mem, Y);
    WriteIs(M4(), 1, Move(Y), Effect(M4().mem, Move(Y)), Row(1, 5, MOVE, 2, 0, 0), Record(5, Move(Y)), M5());
  }

  lemma MoveStep6()
    ensures Step(M5(), Move(ZX), 2, M6())
  {
    hide Step, Picks, SourceOf;
    Names();
    MoveEffect(M5().mem, ZX);
    PicksDelete(Effect(M5().mem, Move(ZX)), 3, 2);
    WriteOf6();
    StepIs(M5(), Move(ZX), 2, M6());
  }

  lemma WriteOf6()
    ensures Write(M5(), 2, Move(ZX)) == M6()
  {
    hide Effect;
    MoveEffect(M5().mem, ZX);
    WriteIs(M5(), 2, Move(ZX), Effect(M5().mem, Move(ZX)), Row(2, 6, MOVE, 3, 0, 0), Record(6, Move(ZX)), M6());
  }

  function Freed7(): map<nat, Block> {
    M6().mem.blocks[1 := Row(1, 5, FREE, 2, 0, 0)][3 := Row(3, 3, FREE, 2, 0, 0)]
  }

  lemma NodesOf7()
    ensures NodesEffect(M6().mem.nodes, Delete(Y)) == map[KeyOf(Z) := ZX]
  {
  }

  lemma RowsOf7(b: nat)
    ensures b in M6().mem.blocks <==> b in Freed7()
    ensures b in M6().mem.blocks ==> RowEffect(M6().mem.blocks[b], Delete(Y)) == Freed7()[b]
  {
  }

  lemma EffectOf7()
    ensures Effect(M6().mem, Delete(Y)) == M6().mem.(nodes := map[KeyOf(Z) := ZX], blocks := Freed7())
  {
    hide M6, Freed7, NodesEffect, RowEffect;
    NodesOf7();
    forall b: nat {
      RowsOf7(b);
    }
    assert Effect(M6().mem, Delete(Y)).blocks == Freed7();
  }

  lemma MoveStep7()
    ensures Step(M6(), Delete(Y), 1, M7())
  {
    hide Step, Picks, SourceOf, Effect, M7;
    EffectOf7();
    PicksFree(Effect(M6().mem, Delete(Y)), 2, 1);
    WriteOf7();
    StepIs(M6(), Delete(Y), 1, M7());
  }

  lemma WriteOf7()
    ensures Write(M6(), 1, Delete(Y)) == M7()
  {
    hide Effect;
    EffectOf7();
    WriteIs(M6(), 1, Delete(Y), Effect(M6().mem, Delete(Y)), Row(1, 7, DELETE, 2, 0, 0), Record(7, Delete(Y)), M7());
  }

  function MoveHistory(): seq<Body> {
    [Entry(T)] + [Delete(T)] + [Entry(X)] + [Entry(Z)] + [Move(Y)] + [Move(ZX)] + [Delete(Y)]
  }

  lemma MovesReached()
    ensures Reached(MoveHistory(), M7())
  {
    hide Step, Reached, M1, M2, M3, M4, M5, M6, M7;
    ReachedFormatted();
    MoveSteps1();
    MoveStep3();
    MoveStep4();
    MoveStep5();
    MoveStep6();
    MoveStep7();
    ReachedStep([], Formatted(FOUR), Entry(T), 1, M1());
    var h := [] + [Entry(T)];
    ReachedStep(h, M1(), Delete(T), 2, M2());
    ReachedStep(h + [Delete(T)], M2(), Entry(X), 3, M3());
    ReachedStep(h + [Delete(T)] + [Entry(X)], M3(), Entry(Z), 4, M4());
    ReachedStep(h + [Delete(T)] + [Entry(X)] + [Entry(Z)], M4(), Move(Y), 1, M5());
    ReachedStep(h + [Delete(T)] + [Entry(X)] + [Entry(Z)] + [Move(Y)], M5(), Move(ZX), 2, M6());
    ReachedStep(h + [Delete(T)] + [Entry(X)] + [Entry(Z)] + [Move(Y)] + [Move(ZX)], M6(), Delete(Y), 1, M7());
    assert h == [Entry(T)];
  }

  function MoveLog(): seq<Logged> {
    [Logged(3, Record(3, Entry(X))), Logged(4, Record(4, Entry(Z))),
     Logged(2, Record(6, Move(ZX))), Logged(1, Record(7, Delete(Y)))]
  }

  lemma MoveLogFails()
    ensures Replay(1, MoveLog()).None?
  {
    var log := MoveLog();
    NothingLoaded(1, log);
    ReplayStep(1, log, 0, Empty(1));
    var m1 := Apply(Empty(1), log[0]);
    ReplayStep(1, log, 1, m1);
    var m2 := Apply(m1, log[1]);
    Names();
    assert KeyOf(X) in m2.nodes && SameSlot(m2.nodes[KeyOf(X)], ZX);
    ReplayStep(1, log, 2, m2);
    ReplayFails(1, log, 3);
  }

  /**
   * Creates, renames and deletes alone, but the move that cleared a name was overwritten: the disk cannot be mounted.
   */
  lemma MovesUnderReuseFail()
    ensures Reached(MoveHistory(), M7()) && Mount(FOUR, M7().disk).None?
  {
    hide Reached, Enumerates, OneSeqnoEach, LogOf, Replay, MoveHistory, M7, MoveLog;
    MovesReached();
    MoveSeqnos();
    MoveLogEnumerates();
    LogUnique(M7().disk, MoveLog());
    MoveLogFails();
  }

  lemma MoveDisk()
    ensures M7().disk == map[
      1 := Record(7, Delete(Y)), 2 := Record(6, Move(ZX)), 3 := Record(3, Entry(X)), 4 := Record(4, Entry(Z))]
  {
  }

  lemma MoveSeqnos()
    ensures OneSeqnoEach(M7().disk)
  {
    hide M7;
    MoveDisk();
  }

  lemma MoveLogEnumerates()
    ensures Enumerates(M7().disk, MoveLog())
  {
    hide M7;
    MoveDisk();
    var disk, log := M7().disk, MoveLog();
    assert log[0].block == 3 && log[1].block == 4 && log[2].block == 2 && log[3].block == 1;
    assert log[0] in log && log[1] in log && log[2] in log && log[3] in log;
  }

  // An erased truncate

  const F := Named(1, File, "f")
  const D := Named(2, Dir, "d")

  function Ten(): seq<byte> {
    [0, 1, 2, 3, 4, 5, 6, 7, 8, 9]
  }

  function T1(): State {
    State(Mem(map[KeyOf(F) := F], map[1 := Row(1, 1, NODE, 1, 0, 0)], 2, 2), map[1 := Record(1, Entry(F))], 2)
  }

  function T2(): State {
    State(Mem(map[KeyOf(F) := F], map[1 := Row(1, 1, NODE, 1, 0, 0), 2 := Row(2, 2, DATA, 1, 10, 0)], 2, 3),
          map[1 := Record(1, Entry(F)), 2 := Record(2, Data(1, 0, Ten()))], 3)
  }

  function T3(): State {
    State(Mem(map[KeyOf(F) := F],
              map[1 := Row(1, 1, NODE, 1, 0, 0), 2 := Row(2, 2, DATA, 1, 4, 0),
                  3 := Row(3, 3, TRUNCATE, 1, 0, 4)], 2, 4),
          map[1 := Record(1, Entry(F)), 2 := Record(2, Data(1, 0, Ten())), 3 := Record(3, Truncate(1, 4))], 4)
  }

  function T4(): State {
    State(Mem(map[KeyOf(F) := F],
              map[1 := Row(1, 1, NODE, 1, 0, 0), 2 := Row(2, 2, DATA, 1, 4, 0),
                  3 := Row(3, 3, FREE, 1, 0, 4), 4 := Row(4, 4, TRUNCATE, 1, 0, 8)], 2, 5),
          map[1 := Record(1, Entry(F)), 2 := Record(2, Data(1, 0, Ten())),
              3 := Record(3, Truncate(1, 4)), 4 := Record(4, Truncate(1, 8))], 5)
  }

  function T5(): State {
    State(Mem(map[KeyOf(F) := F, KeyOf(D) := D],
              map[1 := Row(1, 1, NODE, 1, 0, 0), 2 := Row(2, 2, DATA, 1, 4, 0),
                  3 := Row(3, 5, NODE, 2, 0, 0), 4 := Row(4, 4, TRUNCATE, 1, 0, 8)], 3, 5),
          map[1 := Record(1, Entry(F)), 2 := Record(2, Data(1, 0, Ten())),
              3 := Record(5, Entry(D)), 4 := Record(4, Truncate(1, 8))], 6)
  }

  lemma CutSteps12()
    ensures Step(Formatted(FOUR), Entry(F), 1, T1()) && Step(T1(), Data(1, 0, Ten()), 2, T2())
  {
    assert Write(Formatted(FOUR), 1, Entry(F)) == T1();
    assert Write(T1(), 2, Data(1, 0, Ten())) == T2();
  }

  lemma CutStep3()
    ensures Step(T2(), Truncate(1, 4), 3, T3())
  {
    assert Write(T2(), 3, Truncate(1, 4)) == T3();
  }

  lemma CutStep4()
    ensures Step(T3(), Truncate(1, 8), 4, T4())
  {
    hide Step, Picks, SourceOf, Effect;
    EffectOfCut();
    var e := Effect(T3().mem, Truncate(1, 8));
    WriteIs(T3(), 4, Truncate(1, 8), e, Row(4, 4, TRUNCATE, 1, 0, 8), Record(4, Truncate(1, 8)), T4());
    PicksFresh(e, 1);
    StepIs(T3(), Truncate(1, 8), 4, T4());
  }

  lemma EffectOfCut()
    ensures Effect(T3().mem, Truncate(1, 8)) == T3().mem.(blocks := map[
      1 := Row(1, 1, NODE, 1, 0, 0), 2 := Row(2, 2, DATA, 1, 4, 0), 3 := Row(3, 3, FREE, 1, 0, 4)])
  {
  }

  lemma CutStep5()
    ensures Step(T4(), Entry(D), 3, T5())
  {
    hide Step, Picks, SourceOf;
    EntryEffect(T4().mem, D);
    PicksFree(Effect(T4().mem, Entry(D)), 2, 3);
    assert "f"[0] != "d"[0];
    WriteOfD();
    StepIs(T4(), Entry(D), 3, T5());
  }

  lemma WriteOfD()
    ensures Write(T4(), 3, Entry(D)) == T5()
  {
    EntryEffect(T4().mem, D);
  }

  function CutHistory(): seq<Body> {
    [Entry(F)] + [Data(1, 0, Ten())] + [Truncate(1, 4)] + [Truncate(1, 8)] + [Entry(D)]
  }

  lemma CutsReached()
    ensures Reached(CutHistory(), T5())
  {
    hide Step, Reached, T1, T2, T3, T4, T5;
    ReachedFormatted();
    CutSteps12();
    CutStep3();
    CutStep4();
    CutStep5();
    ReachedStep([], Formatted(FOUR), Entry(F), 1, T1());
    var h := [] + [Entry(F)];
    ReachedStep(h, T1(), Data(1, 0, Ten()), 2, T2());
    ReachedStep(h + [Data(1, 0, Ten())], T2(), Truncate(1, 4), 3, T3());
    ReachedStep(h + [Data(1, 0, Ten())] + [Truncate(1, 4)], T3(), Truncate(1, 8), 4, T4());
    ReachedStep(h + [Data(1, 0, Ten())] + [Truncate(1, 4)] + [Truncate(1, 8)], T4(), Entry(D), 3, T5());
    assert h == [Entry(F)];
  }

  function CutLog(): seq<Logged> {
    [Logged(1, Record(1, Entry(F))), Logged(2, Record(2, Data(1, 0, Ten()))),
     Logged(4, Record(4, Truncate(1, 8))), Logged(3, Record(5, Entry(D)))]
  }

  /**
   * A truncate to more than before freed the tighter one, whose block is then reused: six bytes are cut, four come
   * back.
   */
  lemma GrowingTruncateForgets()
    ensures Reached(CutHistory(), T5()) && T5().mem.blocks[2].fill == 4
    ensures Mount(FOUR, T5().disk).Some?
    ensures 2 in Mount(FOUR, T5().disk).value.mem.blocks && Mount(FOUR, T5().disk).value.mem.blocks[2].fill == 8
  {
    hide Reached, Enumerates, OneSeqnoEach, LogOf, Replay, CutHistory, CutLog;
    CutsReached();
    CutSeqnos();
    CutLogEnumerates();
    LogUnique(T5().disk, CutLog());
    CutLogReplays();
  }

  lemma CutSeqnos()
    ensures OneSeqnoEach(T5().disk)
  {
  }

  lemma CutLogEnumerates()
    ensures Enumerates(T5().disk, CutLog())
  {
    var disk, log := T5().disk, CutLog();
    assert log[0].block == 1 && log[1].block == 2 && log[2].block == 4 && log[3].block == 3;
    assert log[0] in log && log[1] in log && log[2] in log && log[3] in log;
  }

  lemma CutLogReplays()
    ensures Replay(1, CutLog()).Some?
    ensures 2 in Replay(1, CutLog()).value.blocks && Replay(1, CutLog()).value.blocks[2].fill == 8
  {
    var log := CutLog();
    NothingLoaded(1, log);
    ReplayStep(1, log, 0, Empty(1));
    var m1 := Apply(Empty(1), log[0]);
    ReplayStep(1, log, 1, m1);
    var m2 := Apply(m1, log[1]);
    ReplayStep(1, log, 2, m2);
    var m3 := Apply(m2, log[2]);
    ReplayStep(1, log, 3, m3);
    assert log[..4] == log;
  }

  // A rename onto itself

  /** The file with ten bytes, deleted and entered again by a rename to its own path. */
  function T2Deleted(): State {
    Write(T2(), 3, Delete(F))
  }

  function T2Renamed(): State {
    Write(T2Deleted(), 4, Move(F))
  }

  lemma SelfRenameSteps()
    ensures Wrote(FOUR, T2(), Delete(F), 3, T2Deleted()) && Wrote(FOUR, T2Deleted(), Move(F), 4, T2Renamed())
    ensures !SourceOf(FOUR, Effect(T2().mem, Delete(F)), 1).NoSpace?
    ensures !SourceOf(FOUR, Effect(T2Deleted().mem, Move(F)), 1).NoSpace?
  {
    assert T2Deleted().mem.nodes == map[];
  }

  lemma FileAtF(time: int)
    ensures Tree(T2().mem.nodes) && Resolve(T2().mem.nodes, ["f"], time) == Ok(F)
  {
    var nodes := T2().mem.nodes;
    assert nodes[KeyOf(F)] == F;
    assert Tree(nodes);
    ChildIs(nodes, KeyOf(F));
    assert Init(["f"]) == [] && Final(["f"]) == "f";
    ResolveStep(nodes, [], "f", time);
    assert [] + ["f"] == ["f"];
  }

  lemma SelfRenameMoves(time: int)
    ensures Moves(FOUR, T2(), ["f"], ["f"], time, Ok(()), T2Renamed())
  {
    hide Wrote, SourceOf, Resolve, Tree, Effect, T2, T2Deleted, T2Renamed;
    SelfRenameSteps();
    FileAtF(time);
    SelfTarget(T2().mem.nodes, ["f"], time);
    assert Performs(FOUR, T2(), Delete(F), Ok(()), T2Deleted());
    assert Performs(FOUR, T2Deleted(), Move(F), Ok(()), T2Renamed());
    ReplaceDone(FOUR, T2(), F, F, T2Deleted(), Ok(()), T2Renamed());
  }

  /** In a reachable state a file with bytes is renamed to its own path, and afterwards has none. */
  lemma SelfRenameLoses(time: int)
    ensures Reached([Entry(F)] + [Data(1, 0, Ten())], T2())
    ensures Moves(FOUR, T2(), ["f"], ["f"], time, Ok(()), T2Renamed())
    ensures ByteAt(T2(), 1, 0) == Some(0) && ByteAt(T2Renamed(), 1, 0) == None
  {
    hide Step, Reached, Moves, T2, T2Renamed, ByteAt;
    ReachedFormatted();
    CutSteps12();
    ReachedStep([], Formatted(FOUR), Entry(F), 1, T1());
    assert [] + [Entry(F)] == [Entry(F)];
    ReachedStep([Entry(F)], T1(), Data(1, 0, Ten()), 2, T2());
    SelfRenameMoves(time);
    FileAtF(time);
    T2Consistent();
    SelfRenameEmpties(FOUR, T2(), ["f"], time, Ok(()), T2Renamed());
    FirstByte();
  }

  lemma T2Consistent()
    ensures Consistent(FOUR, T2())
  {
    hide Sane, Tree;
    FileAtF(0);
    T2Sane();
  }

  lemma T2Sane()
    ensures Sane(FOUR, T2())
  {
    FormattedSane(FOUR);
    CutSteps12();
    WriteSane(FOUR, Formatted(FOUR), 1, Entry(F));
    WriteSane(FOUR, T1(), 2, Data(1, 0, Ten()));
  }

  lemma FirstByte()
    ensures ByteAt(T2(), 1, 0) == Some(0)
  {
    T2Sane();
    assert Top(T2().mem, 1, 0, 2);
    ByteFrom(FOUR, T2(), 1, 0, 2);
  }

  // A rename into itself

  const A := Named(1, Dir, "a")

  /** A directory. */
  function S1(): State {
    State(Mem(map[KeyOf(A) := A], map[1 := Row(1, 1, NODE, 1, 0, 0)], 2, 2), map[1 := Record(1, Entry(A))], 2)
  }

  lemma DirectoryAtA(time: int)
    ensures Tree(S1().mem.nodes) && Resolve(S1().mem.nodes, ["a"], time) == Ok(A)
    ensures Resolve(S1().mem.nodes, ["a", "b"], time) == Err(ENOENT)
  {
    var nodes := S1().mem.nodes;
    assert nodes[KeyOf(A)] == A;
    assert Tree(nodes);
    ChildIs(nodes, KeyOf(A));
    assert Init(["a"]) == [] && Final(["a"]) == "a";
    ResolveStep(nodes, [], "a", time);
    assert [] + ["a"] == ["a"];
    ResolveStep(nodes, ["a"], "b", time);
    assert ["a"] + ["b"] == ["a", "b"];
    assert forall k :: !InSlot(nodes, k, 1, "b");
  }

  /** In a reachable state every entry has a path, and after a rename that passes all checks one has none. */
  lemma RenameIntoItselfLoses(time: int)
    ensures Reached([Entry(A)], S1()) && Renamable(S1().mem.nodes, ["a"], ["a", "b"], time)
    ensures AllReachable(S1().mem.nodes, time)
    ensures !AllReachable(Renamed(S1().mem.nodes, A, ["a", "b"], time), time)
  {
    ReachedFormatted();
    DirectoryAtA(time);
    ReachedA();
    assert Init(["a", "b"]) == ["a"] && Final(["a", "b"]) == "b";
    assert LeadsTo(S1().mem.nodes, ["a"], time, KeyOf(A));
    RenameReachableExact(S1().mem.nodes, ["a"], ["a", "b"], time);
  }

  lemma ReachedA()
    ensures Reached([Entry(A)], S1())
  {
    hide Reached;
    ReachedFormatted();
    assert Write(Formatted(FOUR), 1, Entry(A)) == S1();
    assert Step(Formatted(FOUR), Entry(A), 1, S1());
    ReachedStep([], Formatted(FOUR), Entry(A), 1, S1());
    assert [] + [Entry(A)] == [Entry(A)];
  }

  // A forgotten node number

  const B := Named(2, File, "b")

  /** The directory with the times a caller has set. */
  function Aged(time: int): Node {
    A.(access := time, modification := time)
  }

  function K2(): State {
    State(Mem(map[KeyOf(A) := A, KeyOf(B) := B],
              map[1 := Row(1, 1, NODE, 1, 0, 0), 2 := Row(2, 2, NODE, 2, 0, 0)], 3, 3),
          map[1 := Record(1, Entry(A)), 2 := Record(2, Entry(B))], 3)
  }

  function K3(): State {
    State(Mem(map[KeyOf(A) := A],
              map[1 := Row(1, 1, NODE, 1, 0, 0), 2 := Row(2, 2, FREE, 2, 0, 0), 3 := Row(3, 3, DELETE, 2, 0, 0)], 3, 4),
          map[1 := Record(1, Entry(A)), 2 := Record(2, Entry(B)), 3 := Record(3, Delete(B))], 4)
  }

  /** One more time set on the directory, whose record goes to block `b`. */
  function Touched(s: State, b: nat, time: int): State {
    State(s.mem.(nodes := s.mem.nodes[KeyOf(A) := Aged(time)],
                 blocks := s.mem.blocks[b := Row(b, s.nextSeq, NODE, 1, 0, 0)],
                 nextBlock := Max(s.mem.nextBlock, b + 1)),
          s.disk[b := Record(s.nextSeq, Entry(Aged(time)))], s.nextSeq + 1)
  }

  function K4(): State {
    Touched(K3(), 4, 1)
  }

  function K5(): State {
    Touched(K4(), 2, 2)
  }

  function K6(): State {
    Touched(K5(), 3, 3)
  }

  lemma CounterStep2()
    ensures Step(S1(), Entry(B), 2, K2())
  {
    hide Step, Picks, SourceOf, Effect;
    assert "a"[0] == 'a' && "b"[0] == 'b';
    var e := Effect(S1().mem, Entry(B));
    EntryEffect(S1().mem, B);
    PicksFresh(e, 2);
    WriteIs(S1(), 2, Entry(B), e, Row(2, 2, NODE, 2, 0, 0), Record(2, Entry(B)), K2());
    StepIs(S1(), Entry(B), 2, K2());
  }

  lemma EffectOfCounter()
    ensures Effect(K2().mem, Delete(B)) == K2().mem.(nodes := map[KeyOf(A) := A],
      blocks := map[1 := Row(1, 1, NODE, 1, 0, 0), 2 := Row(2, 2, FREE, 2, 0, 0)])
  {
  }

  lemma CounterStep3()
    ensures Step(K2(), Delete(B), 3, K3())
  {
    hide Step, Picks, SourceOf, Effect;
    var e := Effect(K2().mem, Delete(B));
    EffectOfCounter();
    PicksFresh(e, 2);
    WriteIs(K2(), 3, Delete(B), e, Row(3, 3, DELETE, 2, 0, 0), Record(3, Delete(B)), K3());
    StepIs(K2(), Delete(B), 3, K3());
  }

  lemma TouchedIs(s: State, b: nat, time: int)
    requires s.mem.nextNode >= 2
    ensures Write(s, b, Entry(Aged(time))) == Touched(s, b, time)
  {
    hide Effect;
    var e := Effect(s.mem, Entry(Aged(time)));
    EntryEffect(s.mem, Aged(time));
    var row, rec := Row(b, s.nextSeq, NODE, 1, 0, 0), Record(s.nextSeq, Entry(Aged(time)));
    WriteIs(s, b, Entry(Aged(time)), e, row, rec, Touched(s, b, time));
  }

  lemma TouchStep(s: State, b: nat, time: int)
    requires s.mem.nextNode >= 2 && KeyOf(A) in s.mem.nodes && SameSlot(s.mem.nodes[KeyOf(A)], A)
    requires Picks(FOUR, Effect(s.mem, Entry(Aged(time))), 1, b)
    requires !SourceOf(FOUR, Effect(s.mem, Entry(Aged(time))), 1).TakenOver?
    ensures Step(s, Entry(Aged(time)), b, Touched(s, b, time))
  {
    hide Step, Picks, SourceOf, Effect, Touched;
    TouchedIs(s, b, time);
    StepIs(s, Entry(Aged(time)), b, Touched(s, b, time));
  }

  lemma CounterStep4()
    ensures Step(K3(), Entry(Aged(1)), 4, K4())
  {
    hide Step, Picks, SourceOf, Effect, Touched;
    EntryEffect(K3().mem, Aged(1));
    PicksFresh(Effect(K3().mem, Entry(Aged(1))), 1);
    TouchStep(K3(), 4, 1);
  }

  lemma CounterStep5()
    ensures Step(K4(), Entry(Aged(2)), 2, K5())
  {
    hide Step, Picks, SourceOf, Effect;
    EntryEffect(K4().mem, Aged(2));
    PicksFree(Effect(K4().mem, Entry(Aged(2))), 1, 2);
    TouchStep(K4(), 2, 2);
  }

  lemma CounterStep6()
    ensures Step(K5(), Entry(Aged(3)), 3, K6())
  {
    hide Step, Picks, SourceOf, Effect;
    EntryEffect(K5().mem, Aged(3));
    PicksDelete(Effect(K5().mem, Entry(Aged(3))), 1, 3);
    TouchStep(K5(), 3, 3);
  }

  function CounterHistory(): seq<Body> {
    [Entry(A)] + [Entry(B)] + [Delete(B)] + [Entry(Aged(1))] + [Entry(Aged(2))] + [Entry(Aged(3))]
  }

  lemma CounterReached()
    ensures Reached(CounterHistory(), K6())
  {
    hide Step, Reached, S1, K2, K3, K4, K5, K6;
    ReachedA();
    CounterStep2();
    CounterStep3();
    CounterStep4();
    CounterStep5();
    CounterStep6();
    var h := [Entry(A)];
    ReachedStep(h, S1(), Entry(B), 2, K2());
    ReachedStep(h + [Entry(B)], K2(), Delete(B), 3, K3());
    ReachedStep(h + [Entry(B)] + [Delete(B)], K3(), Entry(Aged(1)), 4, K4());
    ReachedStep(h + [Entry(B)] + [Delete(B)] + [Entry(Aged(1))], K4(), Entry(Aged(2)), 2, K5());
    ReachedStep(h + [Entry(B)] + [Delete(B)] + [Entry(Aged(1))] + [Entry(Aged(2))], K5(), Entry(Aged(3)), 3, K6());
  }

  lemma NoMoveMounts(s: State)
    requires Sane(FOUR, s) && forall b :: b in s.disk ==> !s.disk[b].body.Move?
    ensures Mount(FOUR, s.disk).Some?
  {
    hide LogOf, Replay;
    LogShape(s);
    var log := LogOf(s.disk);
    assert forall i :: 0 <= i < |log| ==> log[i].block in s.disk && s.disk[log[i].block] == log[i].rec;
    ReplayIsRebuild(FOUR.first, log);
  }

  /**
   * The highest node is created, deleted, and its records written over: after a mount its number is handed out again.
   */
  lemma CounterShrinks()
    ensures Reached(CounterHistory(), K6()) && K6().mem.nextNode == 3
    ensures Mount(FOUR, K6().disk).Some? && Mount(FOUR, K6().disk).value.mem.nextNode < 3
  {
    hide Mount, CounterHistory, Happens, SourceFor, Sane, DiskFits;
    CounterReached();
    var events, states :|
      Run(FOUR, events, states) && WithoutTakeover(FOUR, events, states) && Final(states) == K6() &&
      History(events) == CounterHistory();
    FinalIsSane(FOUR, events, states);
    CounterDisk();
    NoMoveMounts(K6());
    CounterExact(FOUR, events, states, |states| - 1, Mount(FOUR, K6().disk).value);
  }

  lemma CounterDisk()
    ensures forall b :: b in K6().disk ==> !K6().disk[b].body.Move? && K6().disk[b].body.Node() == 1
    ensures K6().mem.nextNode == 3
  {
  }
}
