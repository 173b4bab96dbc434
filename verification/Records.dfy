/** Nodes, block rows and on-disk records, with the comparators and filters of oncefs.c. */
module Records {
  import opened Orders
  import opened Indexes

  type byte = b: int | 0 <= b < 256

  datatype NodeType = Dir | File | Link | LinkPayload

  /** A path component has at most this many characters. */
  const NAME_MAX := 256

  datatype Node = Node(node: nat, parent: nat, typ: NodeType, access: int, modification: int, mode: int, name: string)

  /** The primary key of a node row: a link and its payload share the node number. */
  datatype NodeKey = NodeKey(node: nat, typ: NodeType)

  const FREE := 0
  const NODE := 1
  const DATA := 2
  const TRUNCATE := 3
  const DELETE := 4
  const MOVE := 5
  const LAST := 8

  /** A row of the in-memory blocks table: the tag and the data header of one disk block. */
  datatype Block = Block(block: nat, seqno: nat, op: nat, node: nat, fill: nat, offset: nat)

  /** What one disk block holds behind its sequence number. */
  datatype Body =
    | Entry(entry: Node)
    | Move(entry: Node)
    | Delete(entry: Node)
    | Data(id: nat, offset: nat, bytes: seq<byte>)
    | Truncate(id: nat, size: nat)
  {
    function Op(): nat {
      match this
      case Entry(_) => NODE
      case Move(_) => MOVE
      case Delete(_) => DELETE
      case Data(_, _, _) => DATA
      case Truncate(_, _) => TRUNCATE
    }

    function Node(): nat {
      match this
      case Entry(n) => n.node
      case Move(n) => n.node
      case Delete(n) => n.node
      case Data(id, _, _) => id
      case Truncate(id, _) => id
    }

    function Fill(): nat {
      if Data? then |bytes| else 0
    }

    function Offset(): nat {
      match this
      case Data(_, offset, _) => offset
      case Truncate(_, size) => size
      case _ => 0
    }
  }

  datatype Record = Record(seqno: nat, body: Body)

  /** The table row of a record as first written or loaded. */
  function RowOf(b: nat, rec: Record): Block {
    Block(b, rec.seqno, rec.body.Op(), rec.body.Node(), rec.body.Fill(), rec.body.Offset())
  }

  function KeyOf(n: Node): NodeKey {
    NodeKey(n.node, n.typ)
  }

  function TypeRank(t: NodeType): nat {
    match t
    case Dir => 1
    case File => 2
    case Link => 3
    case LinkPayload => 4
  }

  function Compare(a: int, b: int): int {
    if a < b then -1 else if a > b then 1 else 0
  }

  /** strcmp: the first difference decides, a proper prefix comes first. */
  function StrCmp(a: string, b: string): int
    decreases |a|
  {
    if a == "" then if b == "" then 0 else -1
    else if b == "" then 1
    else if a[0] != b[0] then Compare(a[0] as int, b[0] as int)
    else StrCmp(a[1..], b[1..])
  }

  /** Compare by the first answer that is not a tie. */
  function Then(first: int, second: int): int {
    if first != 0 then first else second
  }

  function NodePrimary(a: Node, b: Node): int {
    Then(Compare(a.node, b.node), Compare(TypeRank(a.typ), TypeRank(b.typ)))
  }

  function NodeLookup(a: Node, b: Node): int {
    Then(Compare(a.parent, b.parent), StrCmp(a.name, b.name))
  }

  function BlockPrimary(a: Block, b: Block): int {
    Compare(a.block, b.block)
  }

  function BlockFuzzy(a: Block, b: Block): int {
    Then(Compare(a.op, b.op), Compare(a.node, b.node))
  }

  function BlockLookup(a: Block, b: Block): int {
    Then(BlockFuzzy(a, b), Then(Compare(a.offset, b.offset), Then(Compare(a.fill, b.fill), Compare(a.block, b.block))))
  }

  function BySeqno(a: Block, b: Block): int {
    Compare(a.seqno, b.seqno)
  }

  const NODES: Schema<NodeKey, Node> := Schema(KeyOf, NodePrimary, NodeLookup)
  const BLOCKS: Schema<nat, Block> := Schema((b: Block) => b.block, BlockPrimary, BlockLookup)

  lemma {:induction false} StrCmpOrder(a: string, b: string, c: string)
    ensures StrCmp(a, b) < 0 <==> StrCmp(b, a) > 0
    ensures StrCmp(a, b) == 0 <==> a == b
    ensures StrCmp(a, b) <= 0 && StrCmp(b, c) <= 0 ==> StrCmp(a, c) <= 0
    decreases |a| + |b| + |c|
  {
    if a != "" && b != "" {
      assert a == [a[0]] + a[1..] && b == [b[0]] + b[1..];
      StrCmpOrder(a[1..], b[1..], if c != "" then c[1..] else c);
    }
  }

  /** The first difference of the two names decides, or that one is a proper prefix of the other. */
  ghost predicate Precedes(a: string, b: string, i: nat) {
    i <= |a| && i < |b| && a[..i] == b[..i] && (i < |a| ==> a[i] < b[i])
  }

  lemma {:induction false} StrCmpIsLexical(a: string, b: string)
    ensures StrCmp(a, b) < 0 <==> exists i: nat :: Precedes(a, b, i)
    decreases |a|
  {
    if a == "" || b == "" {
      assert b != "" ==> Precedes(a, b, 0);
    } else if a[0] != b[0] {
      assert a[0] < b[0] ==> Precedes(a, b, 0);
    } else {
      StrCmpIsLexical(a[1..], b[1..]);
      forall i: nat
        ensures Precedes(a[1..], b[1..], i) <==> Precedes(a, b, i + 1)
      {
        PrecedesStep(a, b, i);
      }
      if i: nat :| Precedes(a[1..], b[1..], i) {
        assert Precedes(a, b, i + 1);
      }
      if i: nat :| Precedes(a, b, i) {
        assert i > 0 && Precedes(a[1..], b[1..], i - 1);
      }
    }
  }

  lemma PrecedesStep(a: string, b: string, i: nat)
    requires a != "" && b != "" && a[0] == b[0]
    ensures Precedes(a[1..], b[1..], i) <==> Precedes(a, b, i + 1)
  {
    if i <= |a| - 1 && i < |b| - 1 {
      assert a[..i + 1] == [a[0]] + a[1..][..i] && b[..i + 1] == [b[0]] + b[1..][..i];
    }
  }

  lemma NodesSound()
    ensures Sound(NODES)
  {
    forall a, b
      ensures NodeLookup(a, b) < 0 <==> NodeLookup(b, a) > 0
    {
      StrCmpOrder(a.name, b.name, b.name);
    }
    forall a, b, c | NodeLookup(a, b) <= 0 && NodeLookup(b, c) <= 0
      ensures NodeLookup(a, c) <= 0
    {
      StrCmpOrder(a.name, b.name, c.name);
    }
    assert TotalPreorder(NodeLookup);
    assert TotalPreorder(NodePrimary);
  }

  lemma BlocksSound()
    ensures Sound(BLOCKS)
  {
    assert TotalPreorder(BlockPrimary);
    assert TotalPreorder(BlockLookup);
  }

  lemma BySeqnoSound()
    ensures TotalPreorder(BySeqno)
  {
  }

  /** Equal in the lookup order means the same directory slot. */
  lemma NodeLookupTie(a: Node, b: Node)
    ensures NodeLookup(a, b) == 0 <==> a.parent == b.parent && a.name == b.name
  {
    StrCmpOrder(a.name, b.name, b.name);
  }

  // Filters: each answers for a fixed key, and each falls along the order of its index.

  /** Directory slot (the NULL filter on the lookup index). */
  function SlotFilter(key: Node): Node -> int {
    (n: Node) => NodeLookup(key, n)
  }

  /** Children of a node. */
  function ChildFilter(node: nat): Node -> int {
    (n: Node) => Compare(node, n.parent)
  }

  /** Every row of a node number, a link's payload included. */
  function NodeFilter(node: nat): Node -> int {
    (n: Node) => Compare(node, n.node)
  }

  /** One node row (the NULL filter on the primary index). */
  function NodeKeyFilter(key: Node): Node -> int {
    (n: Node) => NodePrimary(key, n)
  }

  function OpFilter(op: nat): Block -> int {
    (b: Block) => Compare(op, b.op)
  }

  function OpNodeFilter(op: nat, node: nat): Block -> int {
    (b: Block) => Then(Compare(op, b.op), Compare(node, b.node))
  }

  /** Data blocks that could reach into `[offset, offset + size)`, widened by one payload on each side. */
  function WindowFilter(node: nat, size: nat, offset: nat, payload: nat): Block -> int {
    (b: Block) =>
      Then(OpNodeFilter(DATA, node)(b),
           if offset + size + payload < b.offset then -1 else if offset > b.offset + size + payload then 1 else 0)
  }

  /** Data blocks that could reach past `size`. */
  function TailFilter(node: nat, size: nat, payload: nat): Block -> int {
    (b: Block) => Then(OpNodeFilter(DATA, node)(b), if size > b.offset + payload then 1 else 0)
  }

  lemma NodeFiltersMonotone(key: Node, node: nat)
    ensures Monotone(NodeLookup, SlotFilter(key)) && Monotone(NodePrimary, NodeKeyFilter(key))
    ensures Monotone(NodeLookup, ChildFilter(node)) && Monotone(NodePrimary, NodeFilter(node))
  {
    NodesSound();
    KeyFilterMonotone(NodeLookup, key);
    KeyFilterMonotone(NodePrimary, key);
    assert Monotone(NodeLookup, SlotFilter(key)) by {
      var f := x => NodeLookup(key, x);
      assert Monotone(NodeLookup, f);
      assert forall x :: SlotFilter(key)(x) == f(x);
    }
    assert Monotone(NodePrimary, NodeKeyFilter(key)) by {
      assert forall a, b, c :: NodePrimary(a, b) <= 0 && NodePrimary(b, c) <= 0 ==> NodePrimary(a, c) <= 0;
    }
  }

  lemma BlockFiltersMonotone(op: nat, node: nat, size: nat, offset: nat, payload: nat)
    ensures Monotone(BlockLookup, OpFilter(op)) && Monotone(BlockLookup, OpNodeFilter(op, node))
    ensures Monotone(BlockLookup, WindowFilter(node, size, offset, payload))
    ensures Monotone(BlockLookup, TailFilter(node, size, payload))
  {
    var f, w, t := OpNodeFilter(DATA, node), WindowFilter(node, size, offset, payload), TailFilter(node, size, payload);
    forall a, b | BlockLookup(a, b) <= 0
      ensures (w(a) < 0 ==> w(b) < 0) && (w(a) == 0 ==> w(b) <= 0)
      ensures (t(a) < 0 ==> t(b) < 0) && (t(a) == 0 ==> t(b) <= 0)
    {
      assert (f(a) < 0 ==> f(b) < 0) && (f(a) == 0 ==> f(b) <= 0);
      assert f(a) == 0 && f(b) == 0 ==> a.offset <= b.offset;
      assert w(a) == Then(f(a), if offset + size + payload < a.offset then -1
                          else if offset > a.offset + size + payload then 1 else 0);
      assert w(b) == Then(f(b), if offset + size + payload < b.offset then -1
                          else if offset > b.offset + size + payload then 1 else 0);
      assert t(a) == Then(f(a), if size > a.offset + payload then 1 else 0);
      assert t(b) == Then(f(b), if size > b.offset + payload then 1 else 0);
    }
  }
}
