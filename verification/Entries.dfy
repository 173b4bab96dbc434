/** Creating and deleting an entry changes the answer for its own path and for no other. */
module Entries {
  import opened Records
  import opened Log
  import opened Lifetimes
  import opened Outcomes
  import opened Trees
  import opened Renames

  /** The entry `n` can be created at `path`: the slot is free, the parent a directory, the number new. */
  ghost predicate Creatable(nodes: Nodes, path: Path, time: int, n: Node) {
    && Tree(nodes) && path != [] && |Final(path)| <= NAME_MAX && Resolve(nodes, path, time) == Err(ENOENT)
    && Resolve(nodes, Init(path), time).Ok? && Resolve(nodes, Init(path), time).value.typ == Dir
    && n.parent == Resolve(nodes, Init(path), time).value.node && n.name == Final(path)
    && Unused(nodes, n.node) && n.node > 0 && n.typ != LinkPayload
  }

  /** One lookup in a directory, before and after a create. */
  lemma ChildCreated(nodes: Nodes, path: Path, time: int, n: Node, dir: Path, name: string)
    requires Creatable(nodes, path, time, n)
    requires Resolve(nodes, dir, time).Ok? && Resolve(nodes, dir, time).value.typ == Dir
    ensures var at := Resolve(nodes, dir, time).value.node;
      Child(nodes[KeyOf(n) := n], at, name) == if dir + [name] == path then Ok(n) else Child(nodes, at, name)
  {
    hide Tree;
    var nodes', at := nodes[KeyOf(n) := n], Resolve(nodes, dir, time).value.node;
    CreatedTree(nodes, path, time, n);
    if at == n.parent && name == n.name {
      OnePath(nodes, dir, Init(path), time);
      assert dir + [name] == path;
      ChildIs(nodes', KeyOf(n));
    } else {
      SameChild(nodes, nodes', at, name);
    }
  }

  /** Equal slots hold equal children. */
  lemma SameChild(nodes: Nodes, nodes': Nodes, at: nat, name: string)
    requires Tree(nodes) && Tree(nodes')
    requires forall k :: InSlot(nodes', k, at, name) <==> InSlot(nodes, k, at, name)
    requires forall k :: k in nodes && InSlot(nodes', k, at, name) ==> nodes'[k] == nodes[k]
    ensures Child(nodes', at, name) == Child(nodes, at, name)
  {
    if k :| InSlot(nodes, k, at, name) {
      ChildIs(nodes, k);
      ChildIs(nodes', k);
    }
  }

  lemma CreatedTree(nodes: Nodes, path: Path, time: int, n: Node)
    requires Creatable(nodes, path, time, n)
    ensures Tree(nodes[KeyOf(n) := n]) && KeyOf(n) !in nodes
  {
    assert ParentOk(nodes, n.parent) by {
      if Init(path) != [] {
        ResolvedIn(nodes, Init(path), time);
      }
    }
    forall k | k in nodes
      ensures !SameSlot(nodes[k], n)
    {
      if SameSlot(nodes[k], n) {
        ChildIs(nodes, k);
      }
    }
    EntryKeepsTree(nodes, n);
  }

  /** A new entry is found at its path; paths that do not go through it keep their answer. */
  lemma {:induction false} CreatedPaths(nodes: Nodes, path: Path, time: int, n: Node, p: Path)
    requires Creatable(nodes, path, time, n)
    ensures p == path ==> Resolve(nodes[KeyOf(n) := n], p, time) == Ok(n)
    ensures !(path <= p) ==> Resolve(nodes[KeyOf(n) := n], p, time) == Resolve(nodes, p, time)
  {
    hide Creatable, Child;
    ParentIsDirectory(nodes, path, time, n);
    if p != [] && !(path <= Init(p)) {
      CreatedPaths(nodes, path, time, n, Init(p));
      Snoc(p);
      var at := Resolve(nodes, Init(p), time);
      if at.Ok? && at.value.typ == Dir && |Final(p)| <= NAME_MAX {
        ChildCreated(nodes, path, time, n, Init(p), Final(p));
      }
    }
  }

  lemma ParentIsDirectory(nodes: Nodes, path: Path, time: int, n: Node)
    requires Creatable(nodes, path, time, n)
    ensures path != [] && |Final(path)| <= NAME_MAX
    ensures Resolve(nodes, Init(path), time).Ok? && Resolve(nodes, Init(path), time).value.typ == Dir
    ensures forall p :: path <= p ==> !Resolve(nodes, p, time).Ok?
  {
    forall p | path <= p
      ensures !Resolve(nodes, p, time).Ok?
    {
      if Resolve(nodes, p, time).Ok? {
        PrefixResolves(nodes, path, p, time);
      }
    }
  }

  /** A create keeps every entry reachable, the new one included. */
  lemma CreateKeepsReachable(nodes: Nodes, path: Path, time: int, n: Node)
    requires Creatable(nodes, path, time, n) && AllReachable(nodes, time)
    ensures AllReachable(nodes[KeyOf(n) := n], time)
  {
    hide Tree;
    var nodes' := nodes[KeyOf(n) := n];
    CreatedTree(nodes, path, time, n);
    ParentIsDirectory(nodes, path, time, n);
    forall k | k in nodes' && k.typ != LinkPayload
      ensures exists p :: LeadsTo(nodes', p, time, k)
    {
      if k == KeyOf(n) {
        CreatedPaths(nodes, path, time, n, path);
        assert LeadsTo(nodes', path, time, k);
      } else {
        var p :| LeadsTo(nodes, p, time, k);
        CreatedPaths(nodes, path, time, n, p);
        assert LeadsTo(nodes', p, time, k);
      }
    }
  }

  /** The payload row of a link is on no path. */
  lemma {:induction false} PayloadOnNoPath(nodes: Nodes, payload: Node, time: int, p: Path)
    requires Tree(nodes) && Legal(nodes, Entry(payload)) && payload.typ == LinkPayload
    ensures Resolve(nodes[KeyOf(payload) := payload], p, time) == Resolve(nodes, p, time)
  {
    if p != [] {
      PayloadOnNoPath(nodes, payload, time, Init(p));
      var at := Resolve(nodes, Init(p), time);
      if at.Ok? && at.value.typ == Dir {
        if Init(p) != [] {
          ResolvedIn(nodes, Init(p), time);
        }
        EntryKeepsTree(nodes, payload);
        SameChild(nodes, nodes[KeyOf(payload) := payload], at.value.node, Final(p));
      }
    }
  }

  // Deleting

  /** The entry at `path` may be deleted: it is there, and nothing hangs below it. */
  ghost predicate Deletable(nodes: Nodes, path: Path, time: int) {
    && Tree(nodes) && path != [] && Resolve(nodes, path, time).Ok?
    && Legal(nodes, Delete(Resolve(nodes, path, time).value))
  }

  /** Which row of a directory slot a delete takes. */
  lemma SlotDeleted(nodes: Nodes, path: Path, time: int, dir: Path, name: string, k: NodeKey)
    requires Deletable(nodes, path, time) && |name| <= NAME_MAX
    requires Resolve(nodes, dir, time).Ok? && Resolve(nodes, dir, time).value.typ == Dir
    ensures var n, at := Resolve(nodes, path, time).value, Resolve(nodes, dir, time).value.node;
      InSlot(nodes, k, at, name) ==> (k.node == n.node <==> dir + [name] == path)
  {
    var n, at := Resolve(nodes, path, time).value, Resolve(nodes, dir, time).value.node;
    ResolvedIn(nodes, path, time);
    if InSlot(nodes, k, at, name) {
      ChildIs(nodes, k);
      ResolveStep(nodes, dir, name, time);
      ResolvedIn(nodes, dir + [name], time);
      if k.node == n.node {
        OnePath(nodes, dir + [name], path, time);
      }
    }
  }

  lemma ChildDeleted(nodes: Nodes, path: Path, time: int, dir: Path, name: string)
    requires Deletable(nodes, path, time) && |name| <= NAME_MAX
    requires Resolve(nodes, dir, time).Ok? && Resolve(nodes, dir, time).value.typ == Dir
    ensures var n, at := Resolve(nodes, path, time).value, Resolve(nodes, dir, time).value.node;
      Child(NodesEffect(nodes, Delete(n)), at, name) ==
        if dir + [name] == path then Err(ENOENT) else Child(nodes, at, name)
  {
    hide Tree, Resolve;
    var n, at := Resolve(nodes, path, time).value, Resolve(nodes, dir, time).value.node;
    var nodes' := NodesEffect(nodes, Delete(n));
    LegalKeepsTree(nodes, Delete(n));
    forall k
      ensures InSlot(nodes, k, at, name) ==> (k.node == n.node <==> dir + [name] == path)
    {
      SlotDeleted(nodes, path, time, dir, name, k);
    }
    if dir + [name] != path {
      SameChild(nodes, nodes', at, name);
    }
  }

  /** A deleted entry is gone from its path; paths that did not go through it keep their answer. */
  lemma {:induction false} DeletedPaths(nodes: Nodes, path: Path, time: int, p: Path)
    requires Deletable(nodes, path, time)
    ensures var nodes' := NodesEffect(nodes, Delete(Resolve(nodes, path, time).value));
      && (p == path ==> Resolve(nodes', p, time) == Err(ENOENT))
      && (!(path <= p) ==> Resolve(nodes', p, time) == Resolve(nodes, p, time))
  {
    hide Child, Tree, Legal, NodesEffect;
    if p != [] && !(path <= Init(p)) {
      DeletedPaths(nodes, path, time, Init(p));
      Snoc(p);
      var at := Resolve(nodes, Init(p), time);
      if at.Ok? && at.value.typ == Dir && |Final(p)| <= NAME_MAX {
        ChildDeleted(nodes, path, time, Init(p), Final(p));
      }
    }
  }

  /** Nothing resolves below an entry that may be deleted. */
  lemma NothingBelow(nodes: Nodes, path: Path, time: int, p: Path)
    requires Deletable(nodes, path, time) && path <= p && Resolve(nodes, p, time).Ok?
    ensures p == path
  {
    if p != path {
      var q := p[..|path| + 1];
      PrefixResolves(nodes, q, p, time);
      assert Init(q) == path;
      ResolvedIn(nodes, q, time);
      ResolvedIn(nodes, path, time);
      OnePath(nodes, q, path, time);
    }
  }

  /** An entry that survives the delete had a path elsewhere. */
  lemma SurvivorElsewhere(nodes: Nodes, path: Path, time: int, p: Path, k: NodeKey)
    requires Deletable(nodes, path, time) && LeadsTo(nodes, p, time, k)
    requires k.node != Resolve(nodes, path, time).value.node
    ensures !(path <= p)
  {
    if path <= p {
      NothingBelow(nodes, path, time, p);
    }
  }

  /** A delete keeps every other entry reachable. */
  lemma DeleteKeepsReachable(nodes: Nodes, path: Path, time: int)
    requires Deletable(nodes, path, time) && AllReachable(nodes, time)
    ensures AllReachable(NodesEffect(nodes, Delete(Resolve(nodes, path, time).value)), time)
  {
    hide Tree, Legal;
    var n := Resolve(nodes, path, time).value;
    var nodes' := NodesEffect(nodes, Delete(n));
    forall k | k in nodes' && k.typ != LinkPayload
      ensures exists p :: LeadsTo(nodes', p, time, k)
    {
      var p :| LeadsTo(nodes, p, time, k);
      SurvivorElsewhere(nodes, path, time, p, k);
      DeletedPaths(nodes, path, time, p);
      assert LeadsTo(nodes', p, time, k);
    }
  }
}
