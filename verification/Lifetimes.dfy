/** What later records make of one row or one node: the pointwise reading of a replay. */
module Lifetimes {
  import opened Indexes
  import opened Records
  import opened Log

  function Init<T>(s: seq<T>): seq<T>
    requires s != []
  {
    s[..|s| - 1]
  }

  function Final<T>(s: seq<T>): T
    requires s != []
  {
    s[|s| - 1]
  }

  lemma Snoc<T>(s: seq<T>)
    requires s != []
    ensures s == Init(s) + [Final(s)]
  {
  }

  lemma SplitPrefix<T>(a: seq<T>, b: seq<T>)
    requires a <= b
    ensures b == a + b[|a|..]
  {
  }

  lemma InitConcat<T>(a: seq<T>, b: seq<T>)
    requires b != []
    ensures Init(a + b) == a + Init(b) && Final(a + b) == Final(b)
  {
  }

  /** A row after the records `s`. */
  function Later(row: Block, s: seq<Logged>): Block {
    if s == [] then row else RowEffect(Later(row, Init(s)), Final(s).rec.body)
  }

  /** Some record in `s` deletes the node. */
  predicate Deleted(s: seq<Logged>, node: nat) {
    s != [] && (Deleted(Init(s), node) || (Final(s).rec.body.Delete? && Final(s).rec.body.entry.node == node))
  }

  predicate IsTruncate(e: Logged, node: nat) {
    e.rec.body.Truncate? && e.rec.body.id == node
  }

  /** Some record in `s` truncates the node. */
  predicate Truncated(s: seq<Logged>, node: nat) {
    s != [] && (Truncated(Init(s), node) || IsTruncate(Final(s), node))
  }

  /** Where data of the node that reached up to `end` is cut off by the truncates in `s`. */
  function CutEnd(s: seq<Logged>, node: nat, end: nat): nat {
    if s == [] then end
    else
      var e := CutEnd(Init(s), node, end);
      if IsTruncate(Final(s), node) && Final(s).rec.body.size < e then Final(s).rec.body.size else e
  }

  /** A node row after the records `s`, starting from `start`. */
  function NodeLater(start: Option<Node>, s: seq<Logged>, k: NodeKey): Option<Node> {
    if s == [] then start
    else
      match Final(s).rec.body
      case Entry(n) => if KeyOf(n) == k then Some(n) else NodeLater(start, Init(s), k)
      case Move(n) => if KeyOf(n) == k then Some(n) else NodeLater(start, Init(s), k)
      case Delete(n) => if n.node == k.node then None else NodeLater(start, Init(s), k)
      case _ => NodeLater(start, Init(s), k)
  }

  function Get<K, V>(m: map<K, V>, k: K): Option<V> {
    if k in m then Some(m[k]) else None
  }

  /** Equal, or both free: the content of a free row means nothing. */
  predicate Similar(a: Block, b: Block) {
    a == b || (a.op == FREE && b.op == FREE)
  }

  // Concatenation

  lemma {:induction false} LaterConcat(row: Block, a: seq<Logged>, b: seq<Logged>)
    ensures Later(row, a + b) == Later(Later(row, a), b)
  {
    if b == [] {
      assert a + b == a;
    } else {
      LaterConcat(row, a, Init(b));
      assert Init(a + b) == a + Init(b);
    }
  }

  lemma {:induction false} TracesConcat(a: seq<Logged>, b: seq<Logged>, node: nat, end: nat)
    ensures Deleted(a + b, node) <==> Deleted(a, node) || Deleted(b, node)
    ensures Truncated(a + b, node) <==> Truncated(a, node) || Truncated(b, node)
    ensures CutEnd(a + b, node, end) == CutEnd(b, node, CutEnd(a, node, end))
  {
    if b == [] {
      assert a + b == a;
    } else {
      TracesConcat(a, Init(b), node, end);
      assert Init(a + b) == a + Init(b);
    }
  }

  lemma {:induction false} NodeLaterConcat(start: Option<Node>, a: seq<Logged>, b: seq<Logged>, k: NodeKey)
    ensures NodeLater(start, a + b, k) == NodeLater(NodeLater(start, a, k), b, k)
  {
    if b == [] {
      assert a + b == a;
    } else {
      NodeLaterConcat(start, a, Init(b), k);
      assert Init(a + b) == a + Init(b);
    }
  }

  lemma {:induction false} CutEndMonotone(s: seq<Logged>, node: nat, end: nat, end': nat)
    requires end <= end'
    ensures CutEnd(s, node, end) <= CutEnd(s, node, end') && CutEnd(s, node, end) <= end
    ensures CutEnd(s, node, end) == (if end < CutEnd(s, node, end') then end else CutEnd(s, node, end'))
  {
    if s != [] {
      CutEndMonotone(Init(s), node, end, end');
    }
  }

  // Closed forms

  /** The fate of a row depends only on whether its node was deleted or truncated, and how far down it was cut. */
  lemma {:induction false} LaterForm(row: Block, s: seq<Logged>)
    requires 1 <= row.op < LAST && (row.op == DATA ==> row.fill > 0)
    ensures var last := Later(row, s);
      && last.block == row.block && last.node == row.node && last.offset == row.offset && last.seqno == row.seqno
      && (if Deleted(s, row.node) then last.op == FREE
          else if row.op == DATA then
            var end := CutEnd(s, row.node, row.offset + row.fill);
            if end <= row.offset then last.op == FREE else last == row.(fill := end - row.offset)
          else if row.op == TRUNCATE && Truncated(s, row.node) then last.op == FREE
          else last == row)
  {
    if s != [] {
      LaterForm(row, Init(s));
    }
  }

  /** After a delete of the node nothing earlier matters to it. */
  lemma {:induction false} NodeLaterForgets(a: Option<Node>, b: Option<Node>, s: seq<Logged>, k: NodeKey)
    requires a == b || Deleted(s, k.node)
    ensures NodeLater(a, s, k) == NodeLater(b, s, k)
  {
    if s != [] {
      if a == b || Deleted(Init(s), k.node) {
        NodeLaterForgets(a, b, Init(s), k);
      }
    }
  }

  lemma {:induction false} NodeLaterSilent(s: seq<Logged>, k: NodeKey)
    requires forall i :: 0 <= i < |s| ==> s[i].rec.body.Node() != k.node
    ensures NodeLater(None, s, k) == None
  {
    if s != [] {
      NodeLaterSilent(Init(s), k);
      assert Final(s) == s[|s| - 1];
    }
  }

  /** A node row comes from a record that nothing has deleted since. */
  lemma {:induction false} RowComesFrom(s: seq<Logged>, k: NodeKey) returns (j: nat)
    requires NodeLater(None, s, k).Some?
    ensures j < |s| && (s[j].rec.body.Entry? || s[j].rec.body.Move?)
    ensures s[j].rec.body.entry == NodeLater(None, s, k).value && KeyOf(s[j].rec.body.entry) == k
    ensures !Deleted(s[j + 1..], k.node)
  {
    var body := Final(s).rec.body;
    if (body.Entry? || body.Move?) && KeyOf(body.entry) == k {
      j := |s| - 1;
    } else {
      j := RowComesFrom(Init(s), k);
      assert Init(s)[j] == s[j];
      assert Init(s[j + 1..]) == Init(s)[j + 1..];
    }
  }

  // The rebuilt state, point by point

  ghost predicate DistinctBlocks(log: seq<Logged>) {
    forall i, j :: 0 <= i < j < |log| ==> log[i].block != log[j].block
  }

  lemma {:induction false} RebuildRow(first: nat, log: seq<Logged>, i: nat)
    requires DistinctBlocks(log) && i < |log|
    ensures log[i].block in Rebuild(first, log).blocks
    ensures Rebuild(first, log).blocks[log[i].block] == Later(RowOf(log[i].block, log[i].rec), log[i + 1..])
  {
    if i == |log| - 1 {
      assert log[i + 1..] == [];
    } else {
      assert DistinctBlocks(Init(log));
      assert Init(log)[i] == log[i];
      RebuildRow(first, Init(log), i);
      assert Init(log[i + 1..]) == Init(log)[i + 1..];
      assert Final(log[i + 1..]) == Final(log);
    }
  }

  lemma {:induction false} RebuildKeys(first: nat, log: seq<Logged>)
    ensures forall b :: b in Rebuild(first, log).blocks <==> exists i :: 0 <= i < |log| && log[i].block == b
  {
    if log != [] {
      RebuildKeys(first, Init(log));
      forall b
        ensures b in Rebuild(first, log).blocks <==> exists i :: 0 <= i < |log| && log[i].block == b
      {
        if b in Rebuild(first, Init(log)).blocks {
          var i :| 0 <= i < |Init(log)| && Init(log)[i].block == b;
          assert log[i].block == b;
        } else if b == Final(log).block {
          assert log[|log| - 1].block == b;
        } else {
          assert forall i :: 0 <= i < |log| ==> i == |log| - 1 || log[i] == Init(log)[i];
        }
      }
    }
  }

  lemma {:induction false} RebuildNode(first: nat, log: seq<Logged>, k: NodeKey)
    ensures Get(Rebuild(first, log).nodes, k) == NodeLater(None, log, k)
  {
    if log != [] {
      RebuildNode(first, Init(log), k);
    }
  }
}
