/** A rename moves a whole subtree and leaves every other path alone. */
module Renames {
  import opened Records
  import opened Log
  import opened Lifetimes
  import opened Outcomes
  import opened Trees

  /** The node row a rename writes: the same node in another slot. */
  function Moved(n: Node, parent: nat, name: string): Node {
    n.(parent := parent, name := name)
  }

  /**
   * What a successful rename of `from` to `to` does to the nodes: a file in the way is deleted, then the row moves.
   */
  ghost function Renamed(nodes: Nodes, n: Node, to: Path, time: int): Nodes
    requires to != [] && Resolve(nodes, Init(to), time).Ok?
  {
    var target := Moved(n, Resolve(nodes, Init(to), time).value.node, Final(to));
    var cleared := match Resolve(nodes, to, time)
      case Ok(old_) => NodesEffect(nodes, Delete(old_))
      case Err(_) => nodes;
    NodesEffect(cleared, Move(target))
  }

  /** The situation in which a rename to another path passes all the checks of the code. */
  ghost predicate Renamable(nodes: Nodes, from: Path, to: Path, time: int) {
    && Tree(nodes) && from != [] && to != [] && from != to && |Final(to)| <= NAME_MAX
    && Resolve(nodes, from, time).Ok?
    && Resolve(nodes, Init(to), time).Ok? && Resolve(nodes, Init(to), time).value.typ == Dir
    && (Resolve(nodes, to, time).Ok? ==> Resolve(nodes, to, time).value.typ == File)
  }

  /** The check the code does not make: the destination must not lie inside the source. */
  ghost predicate CanRename(nodes: Nodes, from: Path, to: Path, time: int) {
    Renamable(nodes, from, to, time) && !(from <= to)
  }

  lemma FileHasNoChildren(nodes: Nodes, n: Node)
    requires Tree(nodes) && KeyOf(n) in nodes && n.typ == File
    ensures Legal(nodes, Delete(n))
    ensures forall k :: k in nodes && k.node == n.node ==> k == KeyOf(n)
  {
    forall k | k in nodes && nodes[k].parent == n.node
      ensures k.node == n.node
    {
      ChildrenAreOfDirectories(nodes, k);
    }
  }

  /** Each of the two steps of a rename is legal, so a crash between them leaves a tree as well. */
  lemma RenameLegal(nodes: Nodes, from: Path, to: Path, time: int)
    requires Renamable(nodes, from, to, time)
    ensures var n, parent := Resolve(nodes, from, time).value, Resolve(nodes, Init(to), time).value;
      var old_ := Resolve(nodes, to, time);
      && (old_.Ok? ==> Legal(nodes, Delete(old_.value)) && old_.value.node != n.node && old_.value.typ == File)
      && Legal(if old_.Ok? then NodesEffect(nodes, Delete(old_.value)) else nodes,
               Move(Moved(n, parent.node, Final(to))))
      && Tree(Renamed(nodes, n, to, time))
  {
    hide OneKind, UniqueSlots;
    var n, parent := Resolve(nodes, from, time).value, Resolve(nodes, Init(to), time).value;
    var old_ := Resolve(nodes, to, time);
    ResolvedIn(nodes, from, time);
    if Init(to) != [] {
      ResolvedIn(nodes, Init(to), time);
    }
    var moved := Moved(n, parent.node, Final(to));
    var cleared := if old_.Ok? then NodesEffect(nodes, Delete(old_.value)) else nodes;
    if old_.Ok? {
      ResolvedIn(nodes, to, time);
      FileHasNoChildren(nodes, old_.value);
      if old_.value.node == n.node {
        OnePath(nodes, from, to, time);
      }
      LegalKeepsTree(nodes, Delete(old_.value));
    }
    assert SlotFree(cleared, moved) by {
      forall k | k in cleared
        ensures !SameSlot(cleared[k], moved)
      {
        if SameSlot(nodes[k], moved) {
          ChildIs(nodes, k);
        }
      }
    }
    LegalKeepsTree(cleared, Move(moved));
  }

  lemma ResolveStep(nodes: Nodes, dir: Path, name: string, time: int)
    requires Resolve(nodes, dir, time).Ok? && Resolve(nodes, dir, time).value.typ == Dir && |name| <= NAME_MAX
    ensures Resolve(nodes, dir + [name], time) == Child(nodes, Resolve(nodes, dir, time).value.node, name)
  {
    assert Init(dir + [name]) == dir;
  }

  /** One lookup in a directory, before and after. */
  lemma ChildAfter(nodes: Nodes, from: Path, to: Path, time: int, dir: Path, name: string)
    requires CanRename(nodes, from, to, time) && |name| <= NAME_MAX
    requires Resolve(nodes, dir, time).Ok? && Resolve(nodes, dir, time).value.typ == Dir
    ensures var n := Resolve(nodes, from, time).value;
      var at := Resolve(nodes, dir, time).value.node;
      Child(Renamed(nodes, n, to, time), at, name) ==
        if dir + [name] == to then Ok(Moved(n, at, name))
        else if dir + [name] == from then Err(ENOENT)
        else Child(nodes, at, name)
  {
    var n, at := Resolve(nodes, from, time).value, Resolve(nodes, dir, time).value.node;
    var nodes' := Renamed(nodes, n, to, time);
    RenameLegal(nodes, from, to, time);
    ResolvedIn(nodes, from, time);
    if dir + [name] == to {
      assert Init(to) == dir && Final(to) == name;
      ChildIs(nodes', KeyOf(n));
    } else {
      forall k
        ensures InSlot(nodes', k, at, name) <==> InSlot(nodes, k, at, name) && dir + [name] != from
        ensures InSlot(nodes', k, at, name) ==> nodes'[k] == nodes[k]
      {
        SlotAfter(nodes, from, to, time, dir, name, k);
      }
      if k :| InSlot(nodes', k, at, name) {
        ChildIs(nodes', k);
        ChildIs(nodes, k);
      }
    }
  }

  lemma SlotAfter(nodes: Nodes, from: Path, to: Path, time: int, dir: Path, name: string, k: NodeKey)
    requires CanRename(nodes, from, to, time) && |name| <= NAME_MAX
    requires Resolve(nodes, dir, time).Ok? && Resolve(nodes, dir, time).value.typ == Dir && dir + [name] != to
    ensures var nodes' := Renamed(nodes, Resolve(nodes, from, time).value, to, time);
      var at := Resolve(nodes, dir, time).value.node;
      && (InSlot(nodes', k, at, name) <==> InSlot(nodes, k, at, name) && dir + [name] != from)
      && (InSlot(nodes', k, at, name) ==> nodes'[k] == nodes[k])
  {
    SourceSlot(nodes, from, to, time, dir, name);
    if k != KeyOf(Resolve(nodes, from, time).value) {
      OtherSlot(nodes, from, to, time, dir, name, k);
    }
  }

  lemma SourceSlot(nodes: Nodes, from: Path, to: Path, time: int, dir: Path, name: string)
    requires CanRename(nodes, from, to, time) && |name| <= NAME_MAX
    requires Resolve(nodes, dir, time).Ok? && Resolve(nodes, dir, time).value.typ == Dir && dir + [name] != to
    ensures var n, at := Resolve(nodes, from, time).value, Resolve(nodes, dir, time).value.node;
      && KeyOf(n) in nodes
      && (InSlot(nodes, KeyOf(n), at, name) <==> dir + [name] == from)
      && !InSlot(Renamed(nodes, n, to, time), KeyOf(n), at, name)
  {
    hide Tree;
    var n, at := Resolve(nodes, from, time).value, Resolve(nodes, dir, time).value.node;
    ResolvedIn(nodes, from, time);
    ResolveStep(nodes, dir, name, time);
    if at == Resolve(nodes, Init(to), time).value.node {
      OnePath(nodes, dir, Init(to), time);
      Snoc(to);
    }
    if InSlot(nodes, KeyOf(n), at, name) {
      ChildIs(nodes, KeyOf(n));
      OnePath(nodes, from, dir + [name], time);
    }
  }

  lemma OtherSlot(nodes: Nodes, from: Path, to: Path, time: int, dir: Path, name: string, k: NodeKey)
    requires CanRename(nodes, from, to, time) && |name| <= NAME_MAX
    requires Resolve(nodes, dir, time).Ok? && Resolve(nodes, dir, time).value.typ == Dir && dir + [name] != to
    requires k != KeyOf(Resolve(nodes, from, time).value)
    ensures var nodes' := Renamed(nodes, Resolve(nodes, from, time).value, to, time);
      var at := Resolve(nodes, dir, time).value.node;
      && (InSlot(nodes', k, at, name) <==> InSlot(nodes, k, at, name) && dir + [name] != from)
      && (InSlot(nodes', k, at, name) ==> nodes'[k] == nodes[k])
  {
    hide Resolve;
    var old_ := Resolve(nodes, to, time);
    SourceSlot(nodes, from, to, time, dir, name);
    ResolveStep(nodes, dir, name, time);
    if InSlot(nodes, k, Resolve(nodes, dir, time).value.node, name) && old_.Ok? && k.node == old_.value.node {
      ChildIs(nodes, k);
      ResolvedIn(nodes, to, time);
      FileHasNoChildren(nodes, old_.value);
      OnePath(nodes, to, dir + [name], time);
    }
  }

  // Whole paths

  /** `dir` is neither the source nor the destination of the rename, nor inside either. */
  predicate Apart(from: Path, to: Path, p: Path) {
    !(from <= p) && !(to <= p)
  }

  /** Paths not through the source or the destination keep their answer. */
  lemma {:induction false} OtherPathsStay(nodes: Nodes, from: Path, to: Path, time: int, p: Path)
    requires CanRename(nodes, from, to, time) && Apart(from, to, p)
    ensures Resolve(Renamed(nodes, Resolve(nodes, from, time).value, to, time), p, time) == Resolve(nodes, p, time)
  {
    hide CanRename, Renamed, Child;
    if p != [] {
      assert Apart(from, to, Init(p));
      OtherPathsStay(nodes, from, to, time, Init(p));
      var at := Resolve(nodes, Init(p), time);
      Snoc(p);
      if at.Ok? && at.value.typ == Dir && |Final(p)| <= NAME_MAX {
        ChildAfter(nodes, from, to, time, Init(p), Final(p));
      }
    }
  }

  /** The new path leads to the moved node. */
  lemma DestinationAfter(nodes: Nodes, from: Path, to: Path, time: int)
    requires CanRename(nodes, from, to, time)
    ensures var n := Resolve(nodes, from, time).value;
      Resolve(Renamed(nodes, n, to, time), to, time) ==
        Ok(Moved(n, Resolve(nodes, Init(to), time).value.node, Final(to)))
  {
    NotBelow(nodes, from, to, time);
    OtherPathsStay(nodes, from, to, time, Init(to));
    Snoc(to);
    ChildAfter(nodes, from, to, time, Init(to), Final(to));
  }

  /** The old path leads to nothing. */
  lemma SourceAfter(nodes: Nodes, from: Path, to: Path, time: int)
    requires CanRename(nodes, from, to, time)
    ensures Resolve(Renamed(nodes, Resolve(nodes, from, time).value, to, time), from, time) == Err(ENOENT)
  {
    NotBelow(nodes, from, to, time);
    OtherPathsStay(nodes, from, to, time, Init(from));
    Snoc(from);
    PrefixResolves(nodes, Init(from), from, time);
    ChildAfter(nodes, from, to, time, Init(from), Final(from));
  }

  lemma {:induction false} PrefixResolves(nodes: Nodes, p: Path, q: Path, time: int)
    requires p <= q && Resolve(nodes, q, time).Ok?
    ensures Resolve(nodes, p, time).Ok?
    ensures p != q ==> Resolve(nodes, p, time).value.typ == Dir
  {
    if p != q {
      assert p <= Init(q);
      PrefixResolves(nodes, p, Init(q), time);
    }
  }

  /** Neither end of the rename lies on the way to the parent of the other. */
  lemma NotBelow(nodes: Nodes, from: Path, to: Path, time: int)
    requires CanRename(nodes, from, to, time)
    ensures Apart(from, to, Init(to)) && Apart(from, to, Init(from))
  {
    if to <= Init(from) {
      PrefixResolves(nodes, to, from, time);
    }
  }

  /**
   * The whole subtree moves: below the destination every path answers as it did below the source, and the
   * destination itself is the moved node.
   */
  lemma {:induction false} SubtreeMoves(nodes: Nodes, from: Path, to: Path, time: int, suffix: Path)
    requires CanRename(nodes, from, to, time)
    ensures var n := Resolve(nodes, from, time).value;
      Resolve(Renamed(nodes, n, to, time), to + suffix, time) ==
        if suffix == [] then Ok(Moved(n, Resolve(nodes, Init(to), time).value.node, Final(to)))
        else Resolve(nodes, from + suffix, time)
  {
    DestinationAfter(nodes, from, to, time);
    if suffix == [] {
      assert to + suffix == to;
    } else {
      SubtreeMoves(nodes, from, to, time, Init(suffix));
      InitConcat(to, suffix);
      InitConcat(from, suffix);
      var at := Resolve(nodes, from + Init(suffix), time);
      if at.Ok? && at.value.typ == Dir && |Final(suffix)| <= NAME_MAX {
        BelowSource(nodes, from, to, time, suffix);
      }
    }
  }

  /** One step below the moved node. */
  lemma BelowSource(nodes: Nodes, from: Path, to: Path, time: int, suffix: Path)
    requires CanRename(nodes, from, to, time) && suffix != [] && |Final(suffix)| <= NAME_MAX
    requires Resolve(nodes, from + Init(suffix), time).Ok? && Resolve(nodes, from + Init(suffix), time).value.typ == Dir
    ensures var dir, n := from + Init(suffix), Resolve(nodes, from, time).value;
      Child(Renamed(nodes, n, to, time), Resolve(nodes, dir, time).value.node, Final(suffix)) ==
        Child(nodes, Resolve(nodes, dir, time).value.node, Final(suffix))
  {
    var dir := from + Init(suffix);
    assert from <= dir + [Final(suffix)];
    ChildAfter(nodes, from, to, time, dir, Final(suffix));
  }

  // Nothing is lost

  ghost predicate LeadsTo(nodes: Nodes, p: Path, time: int, k: NodeKey) {
    k in nodes && Resolve(nodes, p, time) == Ok(nodes[k])
  }

  /** Every entry has a path from the root: the tree has no cycle and no orphan. */
  ghost predicate AllReachable(nodes: Nodes, time: int) {
    forall k :: k in nodes && k.typ != LinkPayload ==> exists p :: LeadsTo(nodes, p, time, k)
  }

  /** The path of an entry after the rename. */
  function PathAfter(from: Path, to: Path, p: Path): Path {
    if from <= p then to + p[|from|..] else p
  }

  lemma StillReachable(nodes: Nodes, from: Path, to: Path, time: int, k: NodeKey, p: Path)
    requires CanRename(nodes, from, to, time) && LeadsTo(nodes, p, time, k) && p != to
    ensures var nodes' := Renamed(nodes, Resolve(nodes, from, time).value, to, time);
      k in nodes' ==> LeadsTo(nodes', PathAfter(from, to, p), time, k)
  {
    ResolvedIn(nodes, from, time);
    RenameLegal(nodes, from, to, time);
    if from <= p {
      SplitPrefix(from, p);
      BelowStillReachable(nodes, from, to, time, k, p[|from|..]);
    } else {
      if to <= p {
        PrefixResolves(nodes, to, p, time);
      }
      OtherPathsStay(nodes, from, to, time, p);
      SameEntry(nodes, from, to, time, k, p);
    }
  }

  /** An entry that is not the moved one keeps its row, if it keeps it at all. */
  lemma SameEntry(nodes: Nodes, from: Path, to: Path, time: int, k: NodeKey, p: Path)
    requires CanRename(nodes, from, to, time) && LeadsTo(nodes, p, time, k) && p != from
    ensures var n := Resolve(nodes, from, time).value;
      && k != KeyOf(n)
      && (k in Renamed(nodes, n, to, time) ==> Renamed(nodes, n, to, time)[k] == nodes[k])
  {
    if k == KeyOf(Resolve(nodes, from, time).value) {
      OnePath(nodes, p, from, time);
    }
  }

  lemma BelowStillReachable(nodes: Nodes, from: Path, to: Path, time: int, k: NodeKey, suffix: Path)
    requires CanRename(nodes, from, to, time) && LeadsTo(nodes, from + suffix, time, k)
    ensures var nodes' := Renamed(nodes, Resolve(nodes, from, time).value, to, time);
      k in nodes' ==> LeadsTo(nodes', to + suffix, time, k)
  {
    SubtreeMoves(nodes, from, to, time, suffix);
    ResolvedIn(nodes, from, time);
    if suffix != [] {
      SameEntry(nodes, from, to, time, k, from + suffix);
    } else {
      assert from + suffix == from;
    }
  }

  lemma RenameKeepsReachable(nodes: Nodes, from: Path, to: Path, time: int)
    requires CanRename(nodes, from, to, time) && AllReachable(nodes, time)
    ensures AllReachable(Renamed(nodes, Resolve(nodes, from, time).value, to, time), time)
  {
    var nodes' := Renamed(nodes, Resolve(nodes, from, time).value, to, time);
    RenameLegal(nodes, from, to, time);
    ResolvedIn(nodes, from, time);
    forall k | k in nodes' && k.typ != LinkPayload
      ensures exists p :: LeadsTo(nodes', p, time, k)
    {
      var p :| LeadsTo(nodes, p, time, k);
      StillReachable(nodes, from, to, time, k, p);
      assert LeadsTo(nodes', PathAfter(from, to, p), time, k);
    }
  }

  /**
   * Where the row of an entry at or below the source hangs after a rename into itself: again at or below the source.
   */
  lemma SwallowedParent(nodes: Nodes, from: Path, to: Path, time: int, suffix: Path, k: NodeKey) returns (above: Path)
    requires Renamable(nodes, from, to, time) && from <= to
    requires Resolve(nodes, from + suffix, time).Ok? && from + suffix != to
    ensures from + above != to && Resolve(nodes, from + above, time).Ok?
    ensures var nodes' := Renamed(nodes, Resolve(nodes, from, time).value, to, time);
      k in nodes' && k.typ != LinkPayload && k.node == Resolve(nodes, from + suffix, time).value.node ==>
        nodes'[k].parent == Resolve(nodes, from + above, time).value.node
  {
    RenameLegal(nodes, from, to, time);
    ResolvedIn(nodes, from + suffix, time);
    ResolvedIn(nodes, from, time);
    if suffix == [] {
      assert from + suffix == from;
      SplitPrefix(from, Init(to));
      above := Init(to)[|from|..];
    } else {
      above := Init(suffix);
      InitConcat(from, suffix);
      NotTheFile(nodes, from, to, time, suffix);
    }
  }

  lemma NotTheFile(nodes: Nodes, from: Path, to: Path, time: int, suffix: Path)
    requires Renamable(nodes, from, to, time) && suffix != [] && Resolve(nodes, from + suffix, time).Ok?
    ensures from + Init(suffix) != to
    ensures Resolve(nodes, from, time).value.node != Resolve(nodes, from + suffix, time).value.node
  {
    InitConcat(from, suffix);
    PrefixResolves(nodes, from + Init(suffix), from + suffix, time);
    if Resolve(nodes, from, time).value.node == Resolve(nodes, from + suffix, time).value.node {
      OnePath(nodes, from, from + suffix, time);
    }
  }

  /** After a rename into itself nothing that was at or below the source has a path any more. */
  lemma {:induction false} SwallowedIsLost(nodes: Nodes, from: Path, to: Path, time: int, suffix: Path, p: Path)
    requires Renamable(nodes, from, to, time) && from <= to
    requires Resolve(nodes, from + suffix, time).Ok? && from + suffix != to
    ensures var nodes' := Renamed(nodes, Resolve(nodes, from, time).value, to, time);
      Resolve(nodes', p, time).Ok? ==>
        Resolve(nodes', p, time).value.node != Resolve(nodes, from + suffix, time).value.node
    decreases |p|
  {
    var nodes' := Renamed(nodes, Resolve(nodes, from, time).value, to, time);
    ResolvedIn(nodes, from + suffix, time);
    if p != [] && Resolve(nodes', p, time).Ok? {
      RenameLegal(nodes, from, to, time);
      ResolvedIn(nodes', p, time);
      var k := KeyOf(Resolve(nodes', p, time).value);
      var above := SwallowedParent(nodes, from, to, time, suffix, k);
      SwallowedIsLost(nodes, from, to, time, above, Init(p));
    }
  }

  /** A rename keeps every entry reachable if and only if the destination is not inside the source. */
  lemma RenameReachableExact(nodes: Nodes, from: Path, to: Path, time: int)
    requires Renamable(nodes, from, to, time) && AllReachable(nodes, time)
    ensures AllReachable(Renamed(nodes, Resolve(nodes, from, time).value, to, time), time) <==> !(from <= to)
  {
    if !(from <= to) {
      RenameKeepsReachable(nodes, from, to, time);
    } else {
      var n := Resolve(nodes, from, time).value;
      var nodes' := Renamed(nodes, n, to, time);
      ResolvedIn(nodes, from, time);
      forall p
        ensures !LeadsTo(nodes', p, time, KeyOf(n))
      {
        assert from + [] == from;
        SwallowedIsLost(nodes, from, to, time, [], p);
      }
      assert KeyOf(n) in nodes';
    }
  }
}
