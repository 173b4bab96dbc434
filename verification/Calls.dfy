/** The calls of the program as data: what any sequence of them keeps, whatever the answers. */
module Calls {
  import opened Records
  import opened Log
  import opened Lifetimes
  import opened Outcomes
  import opened Trees
  import opened Renames
  import opened Entries
  import opened Engine
  import opened Space
  import opened FileData
  import opened Runs
  import opened Operations
  import opened Guarantees
  import opened LinkGuarantees

  datatype Call =
    | Make(path: Path, typ: NodeType, now: int)
    | MakeLink(path: Path, target: string, now: int)
    | Touch(path: Path, access: int, modification: int)
    | Store(node: nat, data: seq<byte>, offset: nat)
    | Cut(node: nat, size: nat)
    | Remove(path: Path)
    | Rename(from: Path, to: Path)

  /** The call was made in state `s`, answered `r`, and left state `t`: what the methods of the volume ensure. */
  ghost predicate Answers(g: Geometry, time: int, s: State, call: Call, r: Result<()>, t: State) {
    match call
    case Make(path, typ, now) => (typ == File || typ == Dir) && Creates(g, s, path, typ, time, now, r, t)
    case MakeLink(path, to, now) => MakesLink(g, s, path, to, time, now, r, t)
    case Touch(path, access, modification) =>
      (path != [] || modification == time) && Touches(g, s, path, access, modification, time, r, t)
    case Store(node, data, offset) => g.payload > 0 && Stores(g, s, node, data, offset, r, t)
    case Cut(node, size) => Cuts(g, s, node, size, r, t)
    case Remove(path) => Removes(g, s, path, time, r, t)
    case Rename(from, to) => from != [] && Moves(g, s, from, to, time, r, t)
  }

  // A successful call is a sequence of writes

  ghost predicate WritesOf(g: Geometry, s: State, t: State) {
    exists bodies :: Writes(g, s, bodies, t)
  }

  lemma PerformsIsWrites(g: Geometry, s: State, body: Body, r: Result<()>, t: State)
    requires Performs(g, s, body, r, t) && r.Ok?
    ensures WritesOf(g, s, t)
  {
    hide Writes, Performs;
    PerformsWrites(g, s, body, r, t);
  }

  lemma NothingIsWrites(g: Geometry, s: State)
    ensures WritesOf(g, s, s)
  {
    WritesNothing(g, s);
  }

  /** Every successful rename is one or two writes. */
  lemma MovesIsWrites(g: Geometry, s: State, from: Path, to: Path, time: int, r: Result<()>, t: State)
    requires Moves(g, s, from, to, time, r, t) && r.Ok?
    ensures WritesOf(g, s, t)
  {
    hide Performs, Replaces, Writes, WritesOf, Resolve, Child;
    var n, parent := Resolve(s.mem.nodes, from, time).value, Resolve(s.mem.nodes, Dirname(to), time).value;
    var moved := Moved(n, parent.node, Clip(Basename(to)));
    match Child(s.mem.nodes, parent.node, moved.name)
    case Err(_) =>
      PerformsIsWrites(g, s, Move(moved), r, t);
    case Ok(target) =>
      ReplacesWrites(g, s, target, moved, r, t);
      WritesAre(g, s, [Delete(target), Move(moved)], t);
  }

  lemma WritesAre(g: Geometry, s: State, bodies: seq<Body>, t: State)
    requires Writes(g, s, bodies, t)
    ensures WritesOf(g, s, t)
  {
  }

  lemma LinksIsWrites(g: Geometry, s: State, n: Node, p: Node, r: Result<()>, t: State)
    requires Links(g, s, n, p, r, t) && r.Ok?
    ensures WritesOf(g, s, t)
  {
    hide Writes;
    WritesAre(g, s, [Entry(n), Entry(p)], t);
  }

  /** Whatever the call: when it succeeds, it has written some records in order and done nothing else. */
  lemma AnswerWrites(g: Geometry, time: int, s: State, call: Call, r: Result<()>, t: State)
    requires Answers(g, time, s, call, r, t) && r.Ok?
    ensures WritesOf(g, s, t)
  {
    hide Performs, Links, Moves, Writes, WritesOf, Resolve, NewNode, IsChunks, Parental;
    NothingIsWrites(g, s);
    match call
    case Make(path, typ, now) =>
      PerformsIsWrites(g, s, Entry(NewNode(s.mem, path, typ, time, now).value), r, t);
    case MakeLink(path, to, now) =>
      var n := NewNode(s.mem, path, Link, time, now).value;
      LinksIsWrites(g, s, n, PayloadOf(n, to), r, t);
    case Touch(path, access, modification) =>
      var n := Resolve(s.mem.nodes, path, time).value;
      if n.modification != modification {
        PerformsIsWrites(g, s, Entry(n.(access := access, modification := modification)), r, t);
      }
    case Store(node, data, offset) =>
      var all :| IsChunks(all, node, offset, data, g.payload) && Writes(g, s, all, t);
      WritesAre(g, s, all, t);
    case Cut(node, size) =>
      PerformsIsWrites(g, s, Truncate(node, size), r, t);
    case Remove(path) =>
      PerformsIsWrites(g, s, Delete(Resolve(s.mem.nodes, path, time).value), r, t);
    case Rename(from, to) =>
      MovesIsWrites(g, s, from, to, time, r, t);
  }

  // Every call keeps what the next one relies on

  lemma PerformsConsistent(g: Geometry, s: State, body: Body, r: Result<()>, t: State)
    requires Consistent(g, s) && Legal(s.mem.nodes, body) && Performs(g, s, body, r, t)
    ensures Consistent(g, t)
  {
    hide Consistent, Legal, Wrote;
    if SourceOf(g, Effect(s.mem, body), body.Node()).NoSpace? {
      AheadConsistent(g, s, body);
    } else {
      var b :| Wrote(g, s, body, b, t);
      WroteConsistent(g, s, body, b, t);
    }
  }

  lemma LinksConsistent(g: Geometry, s: State, n: Node, to: string, r: Result<()>, t: State)
    requires Consistent(g, s) && Legal(s.mem.nodes, Entry(n)) && n.typ == Link && |to| <= NAME_MAX
    requires Links(g, s, n, PayloadOf(n, to), r, t)
    ensures Consistent(g, t)
  {
    hide Consistent, Legal, Writes;
    if SourceOf(g, s.mem, n.node).NoSpace? {
      LinkAheadConsistent(g, s, n, to);
    } else {
      WritesConsistent(g, s, [Entry(n), Entry(PayloadOf(n, to))], t);
    }
  }

  lemma StoresConsistent(g: Geometry, s: State, node: nat, data: seq<byte>, offset: nat, r: Result<()>, t: State)
    requires g.payload > 0 && Consistent(g, s) && Stores(g, s, node, data, offset, r, t)
    ensures Consistent(g, t)
  {
    hide Consistent, Writes, IsChunks, SourceOf;
    if r.Ok? {
      var all :| IsChunks(all, node, offset, data, g.payload) && Writes(g, s, all, t);
      WritesConsistent(g, s, all, t);
    } else {
      var all :| IsChunks(all, node, offset, data, g.payload) && WritesSome(g, s, all, t);
      var k: nat :| k < |all| && Writes(g, s, all[..k], t);
      WritesConsistent(g, s, all[..k], t);
    }
  }

  lemma MovesConsistent(g: Geometry, s: State, from: Path, to: Path, time: int, r: Result<()>, t: State)
    requires Consistent(g, s) && from != [] && Moves(g, s, from, to, time, r, t)
    ensures Consistent(g, t)
  {
    hide Sane, Tree, Numbered, Reading.Fits, Legal, Performs, Replaces, Resolve, Child;
    if Resolve(s.mem.nodes, from, time).Ok? && Resolve(s.mem.nodes, Dirname(to), time).Ok? &&
       Resolve(s.mem.nodes, Dirname(to), time).value.typ == Dir {
      var n, parent := Resolve(s.mem.nodes, from, time).value, Resolve(s.mem.nodes, Dirname(to), time).value;
      var moved := Moved(n, parent.node, Clip(Basename(to)));
      match Child(s.mem.nodes, moved.parent, moved.name)
      case Err(_) =>
        MoveLegal(g, s, from, to, time, moved, s);
        PerformsConsistent(g, s, Move(moved), r, t);
      case Ok(target) =>
        if target.typ == File && |Basename(to)| <= NAME_MAX && to != [] {
          ReplacesConsistent(g, s, from, to, time, target, moved, r, t);
        }
    }
  }

  lemma ReplacesConsistent(g: Geometry, s: State, from: Path, to: Path, time: int, target: Node, moved: Node,
                           r: Result<()>, t: State)
    requires Consistent(g, s) && from != [] && to != [] && Targets(s.mem.nodes, from, to, time, moved)
    requires Child(s.mem.nodes, moved.parent, moved.name) == Ok(target) && target.typ == File && |Final(to)| <= NAME_MAX
    requires Replaces(g, s, target, moved, r, t)
    ensures Consistent(g, t)
  {
    hide Sane, Tree, Numbered, Reading.Fits, Legal, Performs, Resolve, Child, Cleared;
    TargetResolves(s.mem.nodes, to, time);
    ResolvedIn(s.mem.nodes, to, time);
    FileHasNoChildren(s.mem.nodes, target);
    if u :| Performs(g, s, Delete(target), Ok(()), u) && Performs(g, u, Move(moved), r, t) {
      PerformsConsistent(g, s, Delete(target), Ok(()), u);
      ClearedByDelete(g, s, moved.parent, moved.name, Ok(()), u);
      MoveLegal(g, s, from, to, time, moved, u);
      PerformsConsistent(g, u, Move(moved), r, t);
    } else {
      PerformsConsistent(g, s, Delete(target), Err(ENOSPC), t);
    }
  }

  /** Whatever the call and its answer: the volume stays consistent. */
  lemma AnswerConsistent(g: Geometry, time: int, s: State, call: Call, r: Result<()>, t: State)
    requires Consistent(g, s) && Answers(g, time, s, call, r, t)
    ensures Consistent(g, t)
  {
    hide Sane, Tree, Numbered, Reading.Fits, Legal, Performs, Links, Moves, Stores, Resolve, NewNode, Parental;
    RootResolves(s.mem.nodes, time);
    match call
    case Make(path, typ, now) =>
      if NewNode(s.mem, path, typ, time, now).Ok? {
        NewNodeLegal(s.mem, path, typ, time, now);
        PerformsConsistent(g, s, Entry(NewNode(s.mem, path, typ, time, now).value), r, t);
      }
    case MakeLink(path, to, now) =>
      if |to| <= NAME_MAX && NewNode(s.mem, path, Link, time, now).Ok? {
        NewNodeLegal(s.mem, path, Link, time, now);
        LinksConsistent(g, s, NewNode(s.mem, path, Link, time, now).value, to, r, t);
      }
    case Touch(path, access, modification) =>
      var found := Resolve(s.mem.nodes, path, time);
      if found.Ok? && found.value.modification != modification {
        TouchLegal(s.mem, path, time, access, modification);
        PerformsConsistent(g, s, Entry(found.value.(access := access, modification := modification)), r, t);
      }
    case Store(node, data, offset) =>
      StoresConsistent(g, s, node, data, offset, r, t);
    case Cut(node, size) =>
      if NodeKey(node, File) in s.mem.nodes {
        CutIsLegal(s.mem.nodes, node, size);
        PerformsConsistent(g, s, Truncate(node, size), r, t);
      }
    case Remove(path) =>
      var found := Resolve(s.mem.nodes, path, time);
      if found.Ok? && !(found.value.typ == Dir && Parental(s.mem.nodes, found.value.node)) {
        DeleteLegal(s, path, time);
        PerformsConsistent(g, s, Delete(found.value), r, t);
      }
    case Rename(from, to) =>
      MovesConsistent(g, s, from, to, time, r, t);
  }

  lemma CutIsLegal(nodes: Nodes, node: nat, size: nat)
    ensures Legal(nodes, Truncate(node, size))
  {
  }

  // Sessions

  /** Calls and their answers, one after the other, from any consistent state. */
  ghost predicate Session(g: Geometry, time: int, calls: seq<Call>, answers: seq<Result<()>>, states: seq<State>) {
    && |states| == |calls| + 1 && |answers| == |calls| && Consistent(g, states[0])
    && forall i :: 0 <= i < |calls| ==> Answers(g, time, states[i], calls[i], answers[i], states[i + 1])
  }

  lemma SessionInit(g: Geometry, time: int, calls: seq<Call>, answers: seq<Result<()>>, states: seq<State>)
    requires Session(g, time, calls, answers, states) && calls != []
    ensures Session(g, time, Init(calls), Init(answers), Init(states))
    ensures Answers(g, time, Final(Init(states)), Final(calls), Final(answers), Final(states))
  {
    hide Answers, Consistent;
    var i := |calls| - 1;
    assert Answers(g, time, states[i], calls[i], answers[i], states[i + 1]);
    forall j | 0 <= j < |Init(calls)|
      ensures Answers(g, time, Init(states)[j], Init(calls)[j], Init(answers)[j], Init(states)[j + 1])
    {
      assert Answers(g, time, states[j], calls[j], answers[j], states[j + 1]);
    }
  }

  /** Through any calls, failed ones included, the volume stays consistent. */
  lemma {:induction false} SessionStaysConsistent(g: Geometry, time: int, calls: seq<Call>, answers: seq<Result<()>>,
                                                  states: seq<State>)
    requires Session(g, time, calls, answers, states)
    ensures Consistent(g, Final(states))
  {
    hide Answers, Consistent;
    if calls != [] {
      SessionInit(g, time, calls, answers, states);
      SessionStaysConsistent(g, time, Init(calls), Init(answers), Init(states));
      AnswerConsistent(g, time, Final(Init(states)), Final(calls), Final(answers), Final(states));
    }
  }

  /** Every call succeeded or changed nothing. */
  predicate DoneOrNothing(answers: seq<Result<()>>, states: seq<State>)
    requires |states| == |answers| + 1
  {
    forall i :: 0 <= i < |answers| ==> answers[i].Ok? || states[i + 1] == states[i]
  }

  /** Such calls on a fresh volume are a run, so whatever holds of every run holds after them. */
  lemma {:induction false} SessionIsRun(g: Geometry, time: int, calls: seq<Call>, answers: seq<Result<()>>,
                                        states: seq<State>)
    returns (events: seq<Event>, at: seq<State>)
    requires Session(g, time, calls, answers, states) && states[0] == Formatted(g) && DoneOrNothing(answers, states)
    ensures Run(g, events, at) && Final(at) == Final(states)
  {
    hide Answers, Consistent, WritesOf, Happens;
    if calls == [] {
      events, at := [], states;
    } else {
      SessionInit(g, time, calls, answers, states);
      DoneInit(answers, states);
      events, at := SessionIsRun(g, time, Init(calls), Init(answers), Init(states));
      if Final(answers).Ok? {
        AnswerWrites(g, time, Final(at), Final(calls), Final(answers), Final(states));
        events, at := WritesExtendRun(g, events, at, Final(states));
      } else {
        assert states[|answers|] == states[|answers| - 1];
      }
    }
  }

  lemma DoneInit(answers: seq<Result<()>>, states: seq<State>)
    requires |states| == |answers| + 1 && answers != [] && DoneOrNothing(answers, states)
    ensures DoneOrNothing(Init(answers), Init(states))
  {
  }

  lemma WritesExtendRun(g: Geometry, events: seq<Event>, states: seq<State>, t: State)
    returns (events': seq<Event>, states': seq<State>)
    requires Run(g, events, states) && WritesOf(g, Final(states), t)
    ensures Run(g, events', states') && Final(states') == t
  {
    hide Writes, Happens;
    var bodies :| Writes(g, Final(states), bodies, t);
    events', states' := RecordsExtendRun(g, events, states, bodies, t);
  }

  /** And no block is lost or counted twice, also where memory has run ahead of the disk. */
  lemma SessionConservesSpace(g: Geometry, time: int, calls: seq<Call>, answers: seq<Result<()>>, states: seq<State>)
    requires Session(g, time, calls, answers, states) && g.first <= g.last + 1
    ensures FreeBlocks(g, Final(states).mem) + |LiveBlocks(Final(states).mem)| == TotalBlocks(g)
  {
    hide Session, Sane, Tree, Numbered, Reading.Fits;
    SessionIsNotEmpty(g, time, calls, answers, states);
    SessionStaysConsistent(g, time, calls, answers, states);
    SpaceConserved(g, Final(states));
  }

  lemma SessionIsNotEmpty(g: Geometry, time: int, calls: seq<Call>, answers: seq<Result<()>>, states: seq<State>)
    requires Session(g, time, calls, answers, states)
    ensures states != []
  {
  }

  // Reachability

  lemma PerformsNodes(g: Geometry, s: State, body: Body, r: Result<()>, t: State)
    requires Performs(g, s, body, r, t)
    ensures t.mem.nodes == NodesEffect(s.mem.nodes, body)
  {
    hide NodesEffect, Picks, Legal;
  }

  lemma LinksNodes(g: Geometry, s: State, n: Node, p: Node, r: Result<()>, t: State)
    requires Links(g, s, n, p, r, t)
    ensures t.mem.nodes == s.mem.nodes[KeyOf(n) := n][KeyOf(p) := p]
  {
    hide Writes;
    if r.Ok? {
      LinkNodes(g, s, n, p, r, t);
    }
  }

  lemma {:induction false} DataKeepsNodes(g: Geometry, s: State, all: seq<Body>, t: State)
    requires Writes(g, s, all, t) && forall i :: 0 <= i < |all| ==> all[i].Data?
    ensures t.mem.nodes == s.mem.nodes
  {
    hide Picks, Legal;
    if all != [] {
      var u, b :| Writes(g, s, Init(all), u) && Wrote(g, u, Final(all), b, t);
      DataKeepsNodes(g, s, Init(all), u);
    }
  }

  lemma StoresNodes(g: Geometry, s: State, node: nat, data: seq<byte>, offset: nat, r: Result<()>, t: State)
    requires g.payload > 0 && Stores(g, s, node, data, offset, r, t)
    ensures t.mem.nodes == s.mem.nodes
  {
    hide Writes, IsChunks, SourceOf;
    if r.Ok? {
      var all :| IsChunks(all, node, offset, data, g.payload) && Writes(g, s, all, t);
      FileShapes.ChunksAreData(all, node, offset, data, g.payload);
      DataKeepsNodes(g, s, all, t);
    } else {
      var all :| IsChunks(all, node, offset, data, g.payload) && WritesSome(g, s, all, t);
      var k: nat :| k < |all| && Writes(g, s, all[..k], t);
      FileShapes.ChunksAreData(all, node, offset, data, g.payload);
      DataKeepsNodes(g, s, all[..k], t);
    }
  }

  /** The path a rename really goes to, its last name clipped. */
  function Clipped(to: Path): Path
    requires to != []
  {
    Init(to) + [Clip(Final(to))]
  }

  lemma ClippedRename(nodes: Nodes, from: Path, to: Path, time: int, moved: Node)
    requires Tree(nodes) && from != [] && to != [] && Targets(nodes, from, to, time, moved)
    requires Child(nodes, moved.parent, moved.name).Ok? ==> Child(nodes, moved.parent, moved.name).value.typ == File
    requires Clipped(to) != from && !(from <= Init(to))
    ensures CanRename(nodes, from, Clipped(to), time)
    ensures Resolve(nodes, Clipped(to), time) == Child(nodes, moved.parent, moved.name)
    ensures Init(Clipped(to)) == Init(to) && Final(Clipped(to)) == moved.name
  {
    hide Tree, Child, Resolve;
    ResolveStep(nodes, Init(to), Clip(Final(to)), time);
  }

  /** A move into a free slot outside its own subtree. */
  lemma MoveKeepsReachable(nodes: Nodes, from: Path, to: Path, time: int, moved: Node)
    requires Tree(nodes) && from != [] && to != [] && Targets(nodes, from, to, time, moved) && AllReachable(nodes, time)
    requires Child(nodes, moved.parent, moved.name).Err? && !(from <= Init(to)) && Clipped(to) != from
    ensures AllReachable(NodesEffect(nodes, Move(moved)), time)
  {
    hide Tree, Child, Resolve, AllReachable;
    ClippedRename(nodes, from, to, time, moved);
    RenameKeepsReachable(nodes, from, Clipped(to), time);
  }

  /** A move over a file, another one than itself. */
  lemma ReplaceKeepsReachable(nodes: Nodes, from: Path, to: Path, time: int, moved: Node)
    requires Tree(nodes) && from != [] && to != [] && Targets(nodes, from, to, time, moved) && AllReachable(nodes, time)
    requires Child(nodes, moved.parent, moved.name).Ok? && Child(nodes, moved.parent, moved.name).value.typ == File
    requires !(from <= Init(to)) && Clipped(to) != from
    ensures var cleared := NodesEffect(nodes, Delete(Child(nodes, moved.parent, moved.name).value));
      AllReachable(NodesEffect(cleared, Move(moved)), time)
  {
    hide Tree, Child, Resolve, AllReachable, NodesEffect;
    ClippedRename(nodes, from, to, time, moved);
    RenameKeepsReachable(nodes, from, Clipped(to), time);
  }

  /** A file that a rename takes for being in its own way comes back as it was. */
  lemma SelfKeepsNodes(nodes: Nodes, n: Node)
    requires Tree(nodes) && KeyOf(n) in nodes && nodes[KeyOf(n)] == n && n.typ == File
    ensures NodesEffect(NodesEffect(nodes, Delete(n)), Move(n)) == nodes
  {
    FileHasNoChildren(nodes, n);
  }

  lemma TouchedKeepsReachable(nodes: Nodes, n: Node, time: int)
    requires Tree(nodes) && AllReachable(nodes, time) && KeyOf(n) in nodes && n.typ != LinkPayload
    requires SameSlot(nodes[KeyOf(n)], n)
    ensures AllReachable(nodes[KeyOf(n) := n], time)
  {
    hide Tree, Resolve;
    var nodes' := nodes[KeyOf(n) := n];
    forall k | k in nodes' && k.typ != LinkPayload
      ensures exists p :: LeadsTo(nodes', p, time, k)
    {
      var p :| LeadsTo(nodes, p, time, k);
      TouchedPath(nodes, n, time, p, k);
    }
  }

  /** With new times in its row an entry is found on its path as before, and so is everything else. */
  lemma {:induction false} TouchedPath(nodes: Nodes, n: Node, time: int, p: Path, k: NodeKey)
    requires Tree(nodes) && KeyOf(n) in nodes && n.typ != LinkPayload && SameSlot(nodes[KeyOf(n)], n)
    requires LeadsTo(nodes, p, time, k)
    ensures LeadsTo(nodes[KeyOf(n) := n], p, time, k)
    decreases |p|
  {
    var nodes' := nodes[KeyOf(n) := n];
    TouchedTree(nodes, n);
    if p != [] {
      ResolvedIn(nodes, p, time);
      if Init(p) != [] {
        ResolvedIn(nodes, Init(p), time);
        var at := Resolve(nodes, Init(p), time).value;
        TouchedPath(nodes, n, time, Init(p), KeyOf(at));
      }
      ChildIs(nodes', k);
    } else {
      RootIsNoEntry(nodes, k, time);
    }
  }

  lemma TouchedTree(nodes: Nodes, n: Node)
    requires Tree(nodes) && KeyOf(n) in nodes && n.typ != LinkPayload && SameSlot(nodes[KeyOf(n)], n)
    ensures Tree(nodes[KeyOf(n) := n])
  {
  }

  lemma RootIsNoEntry(nodes: Nodes, k: NodeKey, time: int)
    requires Tree(nodes)
    ensures !LeadsTo(nodes, [], time, k)
  {
  }

  /** A rename into the source itself, or to the name of the root, is the one call that can cut entries off. */
  predicate CutsOff(call: Call) {
    call.Rename? && (call.to == [] || (call.from != call.to && call.from <= call.to))
  }

  /** Deleting an entry without children, or the empty root, which changes nothing. */
  lemma RemoveKeepsReachable(nodes: Nodes, path: Path, time: int)
    requires Tree(nodes) && Resolve(nodes, path, time).Ok? && Legal(nodes, Delete(Resolve(nodes, path, time).value))
    requires AllReachable(nodes, time)
    ensures AllReachable(NodesEffect(nodes, Delete(Resolve(nodes, path, time).value)), time)
  {
    hide AllReachable, Legal;
    if path != [] {
      DeleteKeepsReachable(nodes, path, time);
    } else {
      assert NodesEffect(nodes, Delete(Root(time))) == nodes;
    }
  }

  lemma MovesKeepReachable(g: Geometry, s: State, from: Path, to: Path, time: int, r: Result<()>, t: State)
    requires Consistent(g, s) && from != [] && to != [] && (from == to || !(from <= to))
    requires Moves(g, s, from, to, time, r, t) && AllReachable(s.mem.nodes, time)
    ensures AllReachable(t.mem.nodes, time)
  {
    hide Sane, Tree, Numbered, Reading.Fits, Performs, Replaces, Resolve, Child, AllReachable, NodesEffect;
    var nodes := s.mem.nodes;
    if Resolve(nodes, from, time).Ok? && Resolve(nodes, Init(to), time).Ok? &&
       Resolve(nodes, Init(to), time).value.typ == Dir {
      var moved := Moved(Resolve(nodes, from, time).value, Resolve(nodes, Init(to), time).value.node, Clip(Final(to)));
      ClipFacts(nodes, from, to, time, moved);
      match Child(nodes, moved.parent, moved.name)
      case Err(_) =>
        PerformsNodes(g, s, Move(moved), r, t);
        MoveKeepsReachable(nodes, from, to, time, moved);
      case Ok(target) =>
        if target.typ == File && |Final(to)| <= NAME_MAX {
          ReplacesKeepReachable(g, s, from, to, time, target, moved, r, t);
        }
    }
  }

  /** The slot at `to` is the source's own only when both paths are the same. */
  lemma ClipFacts(nodes: Nodes, from: Path, to: Path, time: int, moved: Node)
    requires Tree(nodes) && from != [] && to != [] && Targets(nodes, from, to, time, moved)
    requires from == to || !(from <= to)
    ensures !(from <= Init(to))
    ensures Child(nodes, moved.parent, moved.name).Err? ==> Clipped(to) != from
    ensures |Final(to)| <= NAME_MAX ==> Clipped(to) == to
  {
    hide Tree, Child, Resolve;
    if Clipped(to) == from {
      ResolveStep(nodes, Init(to), Clip(Final(to)), time);
    }
    if |Final(to)| <= NAME_MAX {
      assert Clip(Final(to)) == Final(to);
      Snoc(to);
    }
  }

  lemma ReplacesKeepReachable(g: Geometry, s: State, from: Path, to: Path, time: int, target: Node, moved: Node,
                              r: Result<()>, t: State)
    requires Consistent(g, s) && from != [] && to != [] && Targets(s.mem.nodes, from, to, time, moved)
    requires (from == to || !(from <= to)) && AllReachable(s.mem.nodes, time)
    requires Child(s.mem.nodes, moved.parent, moved.name) == Ok(target) && target.typ == File && |Final(to)| <= NAME_MAX
    requires Replaces(g, s, target, moved, r, t)
    ensures AllReachable(t.mem.nodes, time)
  {
    hide Sane, Tree, Numbered, Reading.Fits, Performs, Resolve, Child, AllReachable, NodesEffect;
    var nodes := s.mem.nodes;
    TargetResolves(nodes, to, time);
    ResolvedIn(nodes, to, time);
    FileHasNoChildren(nodes, target);
    ClipFacts(nodes, from, to, time, moved);
    if u :| Performs(g, s, Delete(target), Ok(()), u) && Performs(g, u, Move(moved), r, t) {
      PerformsNodes(g, s, Delete(target), Ok(()), u);
      PerformsNodes(g, u, Move(moved), r, t);
      if from == to {
        SelfIsMoved(nodes, from, time, moved);
        SelfKeepsNodes(nodes, target);
      } else {
        ReplaceKeepsReachable(nodes, from, to, time, moved);
      }
    } else {
      PerformsNodes(g, s, Delete(target), Err(ENOSPC), t);
      DeleteKeepsReachable(nodes, to, time);
    }
  }

  lemma SelfIsMoved(nodes: Nodes, path: Path, time: int, moved: Node)
    requires Tree(nodes) && path != [] && Targets(nodes, path, path, time, moved)
    ensures moved == Resolve(nodes, path, time).value
  {
    ResolvedIn(nodes, path, time);
    TargetResolves(nodes, path, time);
    assert Clip(Final(path)) == Final(path);
  }

  /** Whatever the call, other than a rename that cuts off, and whatever its answer: every entry keeps a path. */
  lemma AnswerKeepsReachable(g: Geometry, time: int, s: State, call: Call, r: Result<()>, t: State)
    requires Consistent(g, s) && Answers(g, time, s, call, r, t) && !CutsOff(call) && AllReachable(s.mem.nodes, time)
    ensures AllReachable(t.mem.nodes, time)
  {
    hide Sane, Tree, Numbered, Reading.Fits, Performs, Links, Moves, Stores, Resolve, NewNode, Parental;
    hide AllReachable, Legal;
    RootResolves(s.mem.nodes, time);
    match call
    case Make(path, typ, now) =>
      if NewNode(s.mem, path, typ, time, now).Ok? {
        NewNodeCreatable(g, s, path, typ, time, now);
        PerformsNodes(g, s, Entry(NewNode(s.mem, path, typ, time, now).value), r, t);
        CreateKeepsReachable(s.mem.nodes, path, time, NewNode(s.mem, path, typ, time, now).value);
      }
    case MakeLink(path, to, now) =>
      if |to| <= NAME_MAX && NewNode(s.mem, path, Link, time, now).Ok? {
        LinkKeepsReachable(g, s, path, to, time, now, r, t);
      }
    case Touch(path, access, modification) =>
      var found := Resolve(s.mem.nodes, path, time);
      if found.Ok? && found.value.modification != modification {
        var n := found.value.(access := access, modification := modification);
        ResolvedIn(s.mem.nodes, path, time);
        PerformsNodes(g, s, Entry(n), r, t);
        TouchedKeepsReachable(s.mem.nodes, n, time);
      }
    case Store(node, data, offset) =>
      StoresNodes(g, s, node, data, offset, r, t);
    case Cut(node, size) =>
      if NodeKey(node, File) in s.mem.nodes {
        PerformsNodes(g, s, Truncate(node, size), r, t);
      }
    case Remove(path) =>
      var found := Resolve(s.mem.nodes, path, time);
      if found.Ok? && !(found.value.typ == Dir && Parental(s.mem.nodes, found.value.node)) {
        DeleteLegal(s, path, time);
        PerformsNodes(g, s, Delete(found.value), r, t);
        RemoveKeepsReachable(s.mem.nodes, path, time);
      }
    case Rename(from, to) =>
      MovesKeepReachable(g, s, from, to, time, r, t);
  }

  lemma LinkKeepsReachable(g: Geometry, s: State, path: Path, to: string, time: int, now: int, r: Result<()>, t: State)
    requires Consistent(g, s) && AllReachable(s.mem.nodes, time) && NewNode(s.mem, path, Link, time, now).Ok?
    requires |to| <= NAME_MAX
    requires var n := NewNode(s.mem, path, Link, time, now).value; Links(g, s, n, PayloadOf(n, to), r, t)
    ensures AllReachable(t.mem.nodes, time)
  {
    hide Sane, Numbered, Reading.Fits, Links, Resolve, NewNode, AllReachable, Tree, Legal;
    var n := NewNode(s.mem, path, Link, time, now).value;
    NewNodeCreatable(g, s, path, Link, time, now);
    NewNodeLegal(s.mem, path, Link, time, now);
    LinksNodes(g, s, n, PayloadOf(n, to), r, t);
    CreatedTree(s.mem.nodes, path, time, n);
    CreateKeepsReachable(s.mem.nodes, path, time, n);
    PayloadLegal(s.mem.nodes, n, to);
    PayloadKeepsReachable(s.mem.nodes[KeyOf(n) := n], PayloadOf(n, to), time);
  }

  /** Through any calls, failed ones included, without such a rename every entry keeps a path from the root. */
  lemma {:induction false} SessionKeepsReachable(g: Geometry, time: int, calls: seq<Call>, answers: seq<Result<()>>,
                                                 states: seq<State>)
    requires Session(g, time, calls, answers, states) && AllReachable(states[0].mem.nodes, time)
    requires forall i :: 0 <= i < |calls| ==> !CutsOff(calls[i])
    ensures AllReachable(Final(states).mem.nodes, time)
  {
    hide Answers, Consistent, AllReachable, CutsOff;
    if calls != [] {
      SessionInit(g, time, calls, answers, states);
      SessionStaysConsistent(g, time, Init(calls), Init(answers), Init(states));
      assert forall i :: 0 <= i < |Init(calls)| ==> Init(calls)[i] == calls[i];
      SessionKeepsReachable(g, time, Init(calls), Init(answers), Init(states));
      AnswerKeepsReachable(g, time, Final(Init(states)), Final(calls), Final(answers), Final(states));
    }
  }
}
