/** Path resolution told by the rows: the chain a path follows, and where it breaks off. */
module Resolution {
  import opened Records
  import opened Lifetimes
  import opened Outcomes
  import opened Trees
  import opened Operations

  /** Where a chain of rows ends: the root, if it has not left it. */
  function EndNode(ks: seq<NodeKey>): nat {
    if ks == [] then 0 else Final(ks).node
  }

  predicate EndsInDir(ks: seq<NodeKey>) {
    ks == [] || Final(ks).typ == Dir
  }

  /** The next row of a chain is the one with the next name in the directory where the chain has come to. */
  ghost predicate Follows(nodes: Nodes, path: Path, ks: seq<NodeKey>, i: nat)
    requires i < |ks| && i < |path|
  {
    |path[i]| <= NAME_MAX && EndsInDir(ks[..i]) && InSlot(nodes, ks[i], EndNode(ks[..i]), path[i])
  }

  /** The rows a path leads through, from the root on. */
  ghost predicate Chain(nodes: Nodes, path: Path, ks: seq<NodeKey>) {
    |ks| == |path| && forall i :: 0 <= i < |ks| ==> Follows(nodes, path, ks, i)
  }

  /** The path leads as far as its first `i` names, and these to no directory, or the next name is over-long. */
  ghost predicate StuckAt(nodes: Nodes, path: Path, i: nat, ks: seq<NodeKey>) {
    i < |path| && Chain(nodes, path[..i], ks) && (!EndsInDir(ks) || |path[i]| > NAME_MAX)
  }

  /** The path leads as far as its first `i` names, to a directory without the next. */
  ghost predicate MissingAt(nodes: Nodes, path: Path, i: nat, ks: seq<NodeKey>) {
    && i < |path| && Chain(nodes, path[..i], ks) && EndsInDir(ks) && |path[i]| <= NAME_MAX
    && forall k :: !InSlot(nodes, k, EndNode(ks), path[i])
  }

  lemma ChainInit(nodes: Nodes, path: Path, ks: seq<NodeKey>)
    requires Chain(nodes, path, ks) && path != []
    ensures Chain(nodes, Init(path), Init(ks)) && Follows(nodes, path, ks, |path| - 1)
    ensures ks[..|path| - 1] == Init(ks)
  {
    forall i | 0 <= i < |Init(ks)|
      ensures Follows(nodes, Init(path), Init(ks), i)
    {
      assert Follows(nodes, path, ks, i);
      assert Init(ks)[..i] == ks[..i];
    }
  }

  lemma ChainSnoc(nodes: Nodes, path: Path, ks: seq<NodeKey>, k: NodeKey)
    requires path != [] && Chain(nodes, Init(path), ks)
    requires |Final(path)| <= NAME_MAX && EndsInDir(ks) && InSlot(nodes, k, EndNode(ks), Final(path))
    ensures Chain(nodes, path, ks + [k])
  {
    forall i | 0 <= i < |ks + [k]|
      ensures Follows(nodes, path, ks + [k], i)
    {
      assert (ks + [k])[..i] == ks[..i];
      if i < |ks| {
        assert Follows(nodes, Init(path), ks, i);
      } else {
        assert ks[..i] == ks;
      }
    }
  }

  /** A chain of the whole path ends in what the path resolves to. */
  lemma {:induction false} ChainResolves(nodes: Nodes, path: Path, ks: seq<NodeKey>, time: int)
    requires Tree(nodes) && Chain(nodes, path, ks)
    ensures Resolve(nodes, path, time).Ok?
    ensures var n := Resolve(nodes, path, time).value;
      && n.node == EndNode(ks) && (n.typ == Dir <==> EndsInDir(ks))
      && (path != [] ==> Final(ks) in nodes && n == nodes[Final(ks)])
    decreases |path|
  {
    hide Tree, Chain, Child;
    ChainLength(nodes, path, ks);
    if path != [] {
      ChainInit(nodes, path, ks);
      ChainResolves(nodes, Init(path), Init(ks), time);
      ChildIs(nodes, Final(ks));
      KeyOfRow(nodes, Final(ks));
    }
  }

  lemma ChainLength(nodes: Nodes, path: Path, ks: seq<NodeKey>)
    requires Chain(nodes, path, ks)
    ensures |ks| == |path|
  {
  }

  lemma KeyOfRow(nodes: Nodes, k: NodeKey)
    requires Tree(nodes) && k in nodes
    ensures KeyOf(nodes[k]) == k
  {
  }

  /** What a path resolves to lies at the end of a chain. */
  lemma {:induction false} ResolvedHasChain(nodes: Nodes, path: Path, time: int) returns (ks: seq<NodeKey>)
    requires Tree(nodes) && Resolve(nodes, path, time).Ok?
    ensures Chain(nodes, path, ks)
  {
    hide Tree, Chain;
    if path == [] {
      ks := [];
      NoChain(nodes);
    } else {
      ks := ResolvedHasChain(nodes, Init(path), time);
      ChainResolves(nodes, Init(path), ks, time);
      ResolvedIn(nodes, path, time);
      var k := KeyOf(Resolve(nodes, path, time).value);
      ChainSnoc(nodes, path, ks, k);
      ks := ks + [k];
    }
  }

  lemma NoChain(nodes: Nodes)
    ensures Chain(nodes, [], [])
  {
  }

  /** A path resolves to the row at the end of its chain, and to nothing without one; the root is always there. */
  lemma ResolveFinds(nodes: Nodes, path: Path, time: int, n: Node)
    requires Tree(nodes)
    ensures path == [] ==> Resolve(nodes, path, time) == Ok(Node(0, 0, Dir, time, time, 0, ""))
    ensures path != [] ==> (Resolve(nodes, path, time) == Ok(n) <==>
      exists ks :: Chain(nodes, path, ks) && Final(ks) in nodes && nodes[Final(ks)] == n)
  {
    hide Tree, Chain, Resolve;
    RootResolves(nodes, time);
    if path == [] {
      return;
    }
    if Resolve(nodes, path, time) == Ok(n) {
      var ks := ResolvedHasChain(nodes, path, time);
      ChainLength(nodes, path, ks);
      ChainResolves(nodes, path, ks, time);
    }
    forall ks | Chain(nodes, path, ks)
      ensures |ks| == |path| && Final(ks) in nodes && Resolve(nodes, path, time) == Ok(nodes[Final(ks)])
    {
      ChainLength(nodes, path, ks);
      ChainResolves(nodes, path, ks, time);
    }
  }

  /** A path that does not resolve breaks off somewhere. */
  lemma {:induction false} BreaksOff(nodes: Nodes, path: Path, time: int) returns (i: nat, ks: seq<NodeKey>)
    requires Tree(nodes) && Resolve(nodes, path, time).Err?
    ensures Resolve(nodes, path, time) == Err(EINVAL) ==> StuckAt(nodes, path, i, ks)
    ensures Resolve(nodes, path, time) != Err(EINVAL) ==> MissingAt(nodes, path, i, ks)
    ensures Resolve(nodes, path, time).errno in {ENOENT, EINVAL}
  {
    hide Tree, Chain;
    if Resolve(nodes, Init(path), time).Err? {
      i, ks := BreaksOff(nodes, Init(path), time);
      assert Init(path)[..i] == path[..i];
    } else {
      i := |path| - 1;
      ks := ResolvedHasChain(nodes, Init(path), time);
      ChainResolves(nodes, Init(path), ks, time);
    }
  }

  /** Where a path breaks off decides its error. */
  lemma BrokenFails(nodes: Nodes, path: Path, time: int, i: nat, ks: seq<NodeKey>)
    requires Tree(nodes)
    ensures StuckAt(nodes, path, i, ks) ==> Resolve(nodes, path, time) == Err(EINVAL)
    ensures MissingAt(nodes, path, i, ks) ==> Resolve(nodes, path, time) == Err(ENOENT)
  {
    hide Tree, Chain;
    if StuckAt(nodes, path, i, ks) || MissingAt(nodes, path, i, ks) {
      ChainResolves(nodes, path[..i], ks, time);
      assert Init(path[..i + 1]) == path[..i];
      PrefixFails(nodes, path, i + 1, time);
    }
  }

  /** The error tells whether it broke off behind something that is no directory, at a long name, or at a gap. */
  lemma ResolveFails(nodes: Nodes, path: Path, time: int)
    requires Tree(nodes)
    ensures Resolve(nodes, path, time) == Err(EINVAL) <==> exists i: nat, ks :: StuckAt(nodes, path, i, ks)
    ensures Resolve(nodes, path, time) == Err(ENOENT) <==> exists i: nat, ks :: MissingAt(nodes, path, i, ks)
    ensures Resolve(nodes, path, time).Err? ==> Resolve(nodes, path, time).errno in {ENOENT, EINVAL}
  {
    hide Tree, StuckAt, MissingAt, Resolve;
    if Resolve(nodes, path, time).Err? {
      var i, ks := BreaksOff(nodes, path, time);
    }
    forall i: nat, ks
      ensures StuckAt(nodes, path, i, ks) ==> Resolve(nodes, path, time) == Err(EINVAL)
      ensures MissingAt(nodes, path, i, ks) ==> Resolve(nodes, path, time) == Err(ENOENT)
    {
      BrokenFails(nodes, path, time, i, ks);
    }
  }
}
