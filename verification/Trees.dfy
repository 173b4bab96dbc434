/** Directory structure: what keeps the node table a tree of uniquely named entries, and path resolution on it. */
module Trees {
  import opened Records
  import opened Log
  import opened Lifetimes
  import opened Outcomes

  type Nodes = map<NodeKey, Node>
  type Path = seq<string>

  // Shape

  /** The root is node 0 and always there; any other parent must be a present directory. */
  predicate ParentOk(nodes: Nodes, parent: nat) {
    parent == 0 || NodeKey(parent, Dir) in nodes
  }

  ghost predicate Keyed(nodes: Nodes) {
    forall k :: k in nodes ==> KeyOf(nodes[k]) == k && k.node > 0
  }

  /** A node number has one entry, and only a link has a payload besides. */
  ghost predicate OneKind(nodes: Nodes) {
    && (forall a, b :: a in nodes && b in nodes && a.node == b.node && a.typ != LinkPayload && b.typ != LinkPayload ==>
          a == b)
    && (forall k :: k in nodes && k.typ == LinkPayload ==> NodeKey(k.node, Link) in nodes)
  }

  ghost predicate Rooted(nodes: Nodes) {
    forall k :: k in nodes ==>
      if k.typ == LinkPayload then nodes[k].parent == k.node else ParentOk(nodes, nodes[k].parent)
  }

  ghost predicate UniqueSlots(nodes: Nodes) {
    forall a, b :: a in nodes && b in nodes && SameSlot(nodes[a], nodes[b]) ==> a == b
  }

  /** No name is longer than its buffer. */
  ghost predicate Named(nodes: Nodes) {
    forall k :: k in nodes ==> |nodes[k].name| <= NAME_MAX
  }

  /** Unique (parent, name) pairs, every parent present, one entry per node number, no over-long name. */
  ghost predicate Tree(nodes: Nodes) {
    Keyed(nodes) && OneKind(nodes) && Rooted(nodes) && UniqueSlots(nodes) && Named(nodes)
  }

  ghost predicate SlotFree(nodes: Nodes, n: Node) {
    forall k :: k in nodes ==> !SameSlot(nodes[k], n)
  }

  ghost predicate Unused(nodes: Nodes, node: nat) {
    forall k :: k in nodes ==> k.node != node
  }

  /** What the operations check or arrange before they write a record. */
  ghost predicate Legal(nodes: Nodes, body: Body) {
    match body
    case Entry(n) =>
      n.node > 0 && |n.name| <= NAME_MAX &&
      if n.typ == LinkPayload then
        n.parent == n.node && NodeKey(n.node, Link) in nodes
      else
        ParentOk(nodes, n.parent) &&
        if KeyOf(n) in nodes then SameSlot(nodes[KeyOf(n)], n) else Unused(nodes, n.node) && SlotFree(nodes, n)
    case Move(n) =>
      n.node > 0 && |n.name| <= NAME_MAX && n.typ != LinkPayload && ParentOk(nodes, n.parent) && SlotFree(nodes, n) &&
      (KeyOf(n) in nodes || Unused(nodes, n.node))
    case Delete(n) => forall k :: k in nodes && nodes[k].parent == n.node ==> k.node == n.node
    case _ => true
  }

  lemma LegalMoves(nodes: Nodes, body: Body)
    requires Legal(nodes, body)
    ensures !Conflict(nodes, body)
  {
  }

  /** A child of a node that is no directory can only be that node's own link payload. */
  lemma ChildrenAreOfDirectories(nodes: Nodes, k: NodeKey)
    requires Tree(nodes) && k in nodes && nodes[k].parent != 0
    ensures NodeKey(nodes[k].parent, Dir) in nodes || (k.typ == LinkPayload && NodeKey(nodes[k].parent, Link) in nodes)
  {
  }

  lemma EntrySlot(nodes: Nodes, n: Node, k: NodeKey)
    requires Tree(nodes) && Legal(nodes, Entry(n)) && k in nodes && k != KeyOf(n)
    ensures !SameSlot(nodes[k], n)
  {
    if n.typ == LinkPayload && nodes[k].parent == n.node {
      ChildrenAreOfDirectories(nodes, k);
    }
  }

  lemma EntryKeepsTree(nodes: Nodes, n: Node)
    requires Tree(nodes) && Legal(nodes, Entry(n))
    ensures Tree(nodes[KeyOf(n) := n])
  {
    var nodes' := nodes[KeyOf(n) := n];
    assert UniqueSlots(nodes') by {
      forall a, b | a in nodes' && b in nodes' && SameSlot(nodes'[a], nodes'[b])
        ensures a == b
      {
        if a == KeyOf(n) && b != KeyOf(n) {
          EntrySlot(nodes, n, b);
        } else if a != KeyOf(n) && b == KeyOf(n) {
          EntrySlot(nodes, n, a);
        }
      }
    }
    assert OneKind(nodes');
    assert Rooted(nodes');
  }

  lemma MoveKeepsTree(nodes: Nodes, n: Node)
    requires Tree(nodes) && Legal(nodes, Move(n))
    ensures Tree(nodes[KeyOf(n) := n])
  {
    var nodes' := nodes[KeyOf(n) := n];
    assert UniqueSlots(nodes') by {
      hide OneKind, Rooted, Keyed, Named;
    }
    assert OneKind(nodes') by {
      hide UniqueSlots, Rooted, Named, SlotFree;
    }
    assert Rooted(nodes') by {
      hide UniqueSlots, Named, SlotFree;
    }
  }

  lemma DeleteKeepsTree(nodes: Nodes, n: Node)
    requires Tree(nodes) && Legal(nodes, Delete(n))
    ensures Tree(NodesEffect(nodes, Delete(n)))
  {
  }

  /** Each block write on its own keeps the tree, so every crash point has one. */
  lemma LegalKeepsTree(nodes: Nodes, body: Body)
    requires Tree(nodes) && Legal(nodes, body)
    ensures Tree(NodesEffect(nodes, body))
  {
    match body
    case Entry(n) => EntryKeepsTree(nodes, n);
    case Move(n) => MoveKeepsTree(nodes, n);
    case Delete(n) => DeleteKeepsTree(nodes, n);
    case _ =>
  }

  // Paths

  function Root(time: int): Node {
    Node(0, 0, Dir, time, time, 0, "")
  }

  ghost predicate InSlot(nodes: Nodes, k: NodeKey, parent: nat, name: string) {
    k in nodes && nodes[k].parent == parent && nodes[k].name == name
  }

  ghost function Child(nodes: Nodes, parent: nat, name: string): (r: Result<Node>)
    ensures r.Ok? ==> r.value in nodes.Values && r.value.parent == parent && r.value.name == name
    ensures r.Err? ==> r.errno == ENOENT
  {
    if k :| InSlot(nodes, k, parent, name) then Ok(nodes[k]) else Err(ENOENT)
  }

  /** Path resolution: every name but the last must lead to a directory, and the first problem decides. */
  ghost function Resolve(nodes: Nodes, path: Path, time: int): Result<Node> {
    if path == [] then Ok(Root(time))
    else
      match Resolve(nodes, Init(path), time)
      case Err(e) => Err(e)
      case Ok(at) =>
        if at.typ != Dir || |Final(path)| > NAME_MAX then Err(EINVAL)
        else Child(nodes, at.node, Final(path))
  }

  lemma ChildIs(nodes: Nodes, k: NodeKey)
    requires Tree(nodes) && k in nodes
    ensures Child(nodes, nodes[k].parent, nodes[k].name) == Ok(nodes[k])
  {
    assert InSlot(nodes, k, nodes[k].parent, nodes[k].name);
  }

  lemma ResolvedIn(nodes: Nodes, path: Path, time: int)
    requires Tree(nodes) && path != [] && Resolve(nodes, path, time).Ok?
    ensures var n := Resolve(nodes, path, time).value;
      && KeyOf(n) in nodes && nodes[KeyOf(n)] == n && n.node > 0 && n.typ != LinkPayload
      && n.name == Final(path) && Resolve(nodes, Init(path), time).Ok?
      && n.parent == Resolve(nodes, Init(path), time).value.node
  {
    var n, at := Resolve(nodes, path, time).value, Resolve(nodes, Init(path), time).value;
    var k :| k in nodes && nodes[k] == n;
    if Init(path) != [] {
      ResolvedIn(nodes, Init(path), time);
    }
    if n.typ == LinkPayload {
      ChildrenAreOfDirectories(nodes, k);
    }
  }

  /** A node has one path. */
  lemma {:induction false} OnePath(nodes: Nodes, p: Path, q: Path, time: int)
    requires Tree(nodes) && Resolve(nodes, p, time).Ok? && Resolve(nodes, q, time).Ok?
    requires Resolve(nodes, p, time).value.node == Resolve(nodes, q, time).value.node
    ensures p == q
  {
    if p != [] {
      ResolvedIn(nodes, p, time);
    }
    if q != [] {
      ResolvedIn(nodes, q, time);
    }
    if p != [] && q != [] {
      OnePath(nodes, Init(p), Init(q), time);
      assert p == Init(p) + [Final(p)] && q == Init(q) + [Final(q)];
    }
  }
}
