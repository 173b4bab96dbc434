/** What a rename does to the bytes of files. */
module FileRenames {
  import opened Indexes
  import opened Records
  import opened Outcomes
  import opened Trees
  import opened Renames
  import opened Engine
  import opened FileData
  import opened FileShapes
  import opened Operations
  import opened Guarantees

  /** The node that is in the way at `to`. */
  ghost predicate InTheWay(nodes: Nodes, to: Path, time: int, id: nat) {
    to != [] && Resolve(nodes, to, time).Ok? && Resolve(nodes, to, time).value.node == id
  }

  lemma MovedKeepsByte(old_: Option<byte>, moved: Node, id: nat, p: nat)
    ensures ByteLater(old_, [Move(moved)], id, p) == old_
  {
    assert [Move(moved)][1..] == [];
  }

  lemma ReplacedLosesByte(old_: Option<byte>, target: Node, moved: Node, id: nat, p: nat)
    ensures ByteLater(old_, [Delete(target), Move(moved)], id, p) == if id == target.node then None else old_
  {
    assert [Delete(target), Move(moved)][1..] == [Move(moved)];
    MovedKeepsByte(None, moved, id, p);
    MovedKeepsByte(old_, moved, id, p);
  }

  /** A rename that succeeds drops the bytes of the file in the way and leaves every other file as it was. */
  lemma RenameBytes(g: Geometry, s: State, from: Path, to: Path, time: int, r: Result<()>, t: State, id: nat, p: nat)
    requires Consistent(g, s) && from != [] && Moves(g, s, from, to, time, r, t) && r.Ok?
    ensures ByteAt(t, id, p) == if InTheWay(s.mem.nodes, to, time, id) then None else ByteAt(s, id, p)
  {
    hide Sane, Tree, Numbered, Reading.Fits, Resolve, Child, Replaces, Performs, Writes, ByteLater, ByteAt;
    var nodes := s.mem.nodes;
    var n, parent := Resolve(nodes, from, time).value, Resolve(nodes, Dirname(to), time).value;
    var moved := Moved(n, parent.node, Clip(Basename(to)));
    if to != [] {
      TargetResolves(nodes, to, time);
    }
    match Child(nodes, parent.node, moved.name)
    case Err(_) =>
      PerformsWrites(g, s, Move(moved), r, t);
      WritesByte(g, s, [Move(moved)], t, id, p);
      MovedKeepsByte(ByteAt(s, id, p), moved, id, p);
    case Ok(target) =>
      ReplacesWrites(g, s, target, moved, r, t);
      WritesByte(g, s, [Delete(target), Move(moved)], t, id, p);
      ReplacedLosesByte(ByteAt(s, id, p), target, moved, id, p);
  }

  /** The file that moves keeps its bytes if and only if it goes to another path, or had none. */
  lemma RenameKeepsBytes(g: Geometry, s: State, from: Path, to: Path, time: int, r: Result<()>, t: State)
    requires Consistent(g, s) && from != [] && Moves(g, s, from, to, time, r, t) && r.Ok?
    requires Resolve(s.mem.nodes, from, time).Ok?
    ensures var id := Resolve(s.mem.nodes, from, time).value.node;
      (forall p: nat :: ByteAt(t, id, p) == ByteAt(s, id, p)) <==>
      from != to || forall p: nat :: ByteAt(s, id, p) == None
  {
    hide Sane, Tree, Numbered, Reading.Fits, Resolve, Moves, ByteAt;
    var id := Resolve(s.mem.nodes, from, time).value.node;
    if from != to && InTheWay(s.mem.nodes, to, time, id) {
      OnePath(s.mem.nodes, from, to, time);
    }
    forall p: nat
      ensures ByteAt(t, id, p) == if from == to then None else ByteAt(s, id, p)
    {
      RenameBytes(g, s, from, to, time, r, t, id, p);
    }
  }
}
