/**
 * The scenarios of the program's tests, for all inputs: several calls on one volume, or on a volume and its remount.
 */
module Scenarios {
  import opened Tables
  import opened Records
  import opened Log
  import opened Lifetimes
  import opened Outcomes
  import opened Reuse
  import opened Trees
  import opened Renames
  import opened Engine
  import opened Recovery
  import opened Space
  import opened FileData
  import opened Holes
  import opened Reading
  import opened Runs
  import opened Operations
  import opened Guarantees
  import opened LinkGuarantees
  import opened Calls
  import opened Replies
  import opened Resolution
  import opened Volume

  /** Write data and read the same range back. */
  method WriteThenRead(fs: OnceFS, node: nat, data: seq<byte>, offset: nat, buffer: array<byte>)
    returns (written: Result<()>, total: nat)
    requires fs.Valid() && fs.g.payload > 0 && buffer.Length == |data| && (buffer as object) !in fs.Repr()
    modifies fs.Repr(), buffer
    ensures fs.Valid()
    ensures written.Ok? ==> buffer[..] == data && |data| <= total < |data| + fs.g.payload
    ensures fs.g.first <= fs.g.last + 1 ==>
      written == if |data| <= Fitting(fs.g, old(fs.Memory()), node) then Ok(()) else Err(ENOSPC)
  {
    hide Table.Valid, Sane, Tree, Numbered, Reading.Fits, IsChunks, Writes, ReadUpTo, FileBytes, ReadTotal, WritesSome;
    hide Fitting;
    ghost var s, before := fs.Now(), buffer[..];
    written := fs.SetData(node, data, offset);
    ghost var t := fs.Now();
    total := fs.GetData(node, buffer, offset);
    if written.Ok? {
      ghost var all :| IsChunks(all, node, offset, data, fs.g.payload) && Writes(fs.g, s, all, t);
      ReadYourWrite(fs.g, s, all, node, offset, data, t, before, buffer[..], total);
    }
    if fs.g.first <= fs.g.last + 1 {
      StoreAnswer(fs.g, s, node, data, offset, written, t);
    }
  }

  /** Read any part of a file that has no hole in it. */
  method ReadPart(fs: OnceFS, node: nat, ghost file: map<nat, byte>, offset: nat, buffer: array<byte>)
    returns (total: nat)
    requires fs.Valid() && Shows(fs.Now(), node, file) && (buffer as object) !in fs.Repr()
    requires HoleFree(file, fs.g.payload, offset, offset + buffer.Length)
    modifies buffer
    ensures HoldsFile(file, offset, old(buffer[..]), buffer[..])
  {
    hide Table.Valid, Sane, Tree, Numbered, Reading.Fits, ReadUpTo, FileBytes, ReadTotal, Shows, HoleFree, HoldsFile;
    ghost var before := buffer[..];
    total := fs.GetData(node, buffer, offset);
    FileReadBack(fs.g, fs.Now(), node, file, offset, before, buffer[..], total);
  }

  /** Fill an empty file from the start, cut it, and read at least what is left. */
  method WriteCutRead(fs: OnceFS, node: nat, data: seq<byte>, size: nat, buffer: array<byte>)
    returns (done: bool, total: nat)
    requires fs.Valid() && fs.g.payload > 0 && size <= |data| && size <= buffer.Length
    requires (buffer as object) !in fs.Repr()
    requires Shows(fs.Now(), node, map[]) && NodeKey(node, File) in fs.Memory().nodes
    modifies fs.Repr(), buffer
    ensures fs.Valid()
    ensures done ==> total == size && buffer[..] == data[..size] + old(buffer[..])[size..]
    ensures fs.g.first <= fs.g.last + 1 && |data| <= fs.g.payload * (FreeBlocks(fs.g, old(fs.Memory())) - 1) ==> done
  {
    hide Table.Valid, Sane, Tree, Numbered, Reading.Fits, ReadUpTo, FileBytes, ReadTotal, Shows, Stores, Cuts;
    hide FreeBlocks;
    ghost var s, before := fs.Now(), buffer[..];
    total := 0;
    var written := fs.SetData(node, data, 0);
    ghost var t := fs.Now();
    ghost var roomy := fs.g.first <= fs.g.last + 1 && |data| <= fs.g.payload * (FreeBlocks(fs.g, s.mem) - 1);
    if roomy {
      OneIsLeft(fs.g, s, node, data, 0, written, t);
    }
    if written.Err? {
      return false, 0;
    }
    var cut := fs.DelData(node, size);
    if roomy {
      StoresNodes(fs.g, s, node, data, 0, written, t);
      CutAnswer(fs.g, t, node, size, cut, fs.Now());
    }
    if cut.Err? {
      return false, 0;
    }
    total := fs.GetData(node, buffer, 0);
    FilledAndCut(fs.g, s, node, data, written, t, size, cut, fs.Now(), before, buffer[..], total);
    done := true;
  }

  lemma FilledAndCut(g: Geometry, s: State, id: nat, data: seq<byte>, written: Result<()>, t: State,
                     size: nat, cut: Result<()>, u: State, before: seq<byte>, now: seq<byte>, total: nat)
    requires g.payload > 0 && Consistent(g, s) && Shows(s, id, map[]) && NodeKey(id, File) in s.mem.nodes
    requires Stores(g, s, id, data, 0, written, t) && Cuts(g, t, id, size, cut, u) && written.Ok? && cut.Ok?
    requires size <= |data| && size <= |before| && total == ReadTotal(g, u.mem, id, |before|, 0, 0)
    requires ReadUpTo(before, now, 0, total, FileBytes(u, id))
    ensures total == size && now == data[..size] + before[size..]
  {
    hide Consistent, IsChunks, Writes, ReadUpTo, FileBytes, ReadTotal, Performs, Shows, Wrote;
    var all :| IsChunks(all, id, 0, data, g.payload) && Writes(g, s, all, t);
    StoresNodes(g, s, id, data, 0, written, t);
    PerformsOutcome(g, t, Truncate(id, size), cut, u);
    var b :| Wrote(g, t, Truncate(id, size), b, u);
    ExactEnd(g, s, id, data, all, t, size, b, u, before, now, total);
  }

  /**
   * Mount the container of a volume again: an exact one comes back as it was, a recoverable one up to its free rows.
   */
  method Remount(fs: OnceFS, time: int) returns (again: OnceFS, r: Result<()>)
    requires fs.Valid() && DiskFits(fs.disk, fs.g.payload)
    ensures again.Structured() && fresh(again.Repr())
    ensures r.Ok? <==> Mount(fs.g, fs.disk).Some?
    ensures r.Err? ==> exists i: nat, row ::
      StopsAt(fs.g.first, LogOf(fs.disk), i, row) && r.errno == if row.typ == File then EEXIST else EINVAL
    ensures Exact(fs.g, fs.Now()) ==> r.Ok? && again.Valid() && again.Now() == fs.Now()
    ensures Recoverable(fs.g, fs.Now()) && r.Ok? ==> again.Valid() && Equivalent(again.Memory(), fs.Memory())
    ensures Recoverable(fs.g, fs.Now()) && r.Ok? ==> again.nextSeq == fs.nextSeq && again.nextBlock == fs.nextBlock
  {
    hide Table.Valid, Sane, Tree, Numbered, Reading.Fits, Exact, Recoverable, Mount, Readable, OneSeqnoEach;
    hide Equivalent, Loads, StopsAt, LogOf;
    ghost var s := fs.Now();
    LiveIsReadable(fs.g, s);
    again, r := Open(fs.g, time, fs.disk);
    LoadIsMount(fs.g, fs.disk, r, again.Now());
    if Exact(fs.g, s) {
      MountExact(fs.g, s);
    }
    if Recoverable(fs.g, s) && r.Ok? {
      MountRecovers(fs.g, s, again.Now());
      MountConsistent(fs.g, s, again.Now());
    }
  }

  lemma LiveIsReadable(g: Geometry, s: State)
    requires Sane(g, s)
    ensures Readable(g, s.disk) == s.disk && OneSeqnoEach(s.disk)
    ensures Mount(g, s.disk).Some? ==> Mount(g, s.disk).value.disk == s.disk
  {
    ReadableIsAll(g, s);
  }

  /** Delete on a container that may be full. */
  method DeleteWhenFull(fs: OnceFS, path: Path) returns (r: Result<()>)
    requires fs.Valid() && fs.g.first <= fs.g.last + 1
    modifies fs.Repr()
    ensures fs.Valid()
    ensures var m := old(fs.Memory());
      match Resolve(m.nodes, path, fs.time)
      case Err(e) => r == Err(e) && r != Err(ENOSPC) && fs.Now() == old(fs.Now())
      case Ok(n) =>
        if n.typ == Dir && exists k :: k in m.nodes && m.nodes[k].parent == n.node
        then r == Err(EINVAL) && fs.Now() == old(fs.Now())
        else if FreeBlocks(fs.g, m) == 0 && LiveOf(m, n.node) == {} then r == Err(ENOSPC)
        else r == Ok(()) && FreeBlocks(fs.g, fs.Memory()) == FreeBlocks(fs.g, m) + |LiveOf(m, n.node)|
    ensures r.Ok? && path != [] ==> Resolve(fs.Memory().nodes, path, fs.time) == Err(ENOENT)
    ensures AllOwned(old(fs.Memory())) && path != [] ==> r != Err(ENOSPC)
  {
    hide Table.Valid, Sane, Tree, Numbered, Reading.Fits, Resolve, Performs, AllOwned, FreeBlocks, LiveOf, Removes;
    ghost var s := fs.Now();
    r := fs.DelNode(path);
    ghost var found := Resolve(s.mem.nodes, path, fs.time);
    ResolveFails(s.mem.nodes, path, fs.time);
    RemoveAnswer(fs.g, s, path, fs.time, r, fs.Now());
    if found.Ok? && path != [] {
      ResolvedIn(s.mem.nodes, path, fs.time);
      if AllOwned(s.mem) {
        BackedIsLive(s.mem, found.value);
      }
      if r.Ok? {
        RemovedIsGone(fs.g, s, path, fs.time, r, fs.Now());
      }
    }
  }

  lemma RemovedIsGone(g: Geometry, s: State, path: Path, time: int, r: Result<()>, t: State)
    requires Consistent(g, s) && Removes(g, s, path, time, r, t) && r.Ok? && path != []
    ensures Resolve(t.mem.nodes, path, time) == Err(ENOENT)
  {
    hide Consistent, Performs, Resolve, Parental, AllReachable;
    DeleteGone(g, s, path, time, r, t, path);
  }

  /** Delete a directory below which nothing resolves: all it takes is a free block or a live one of its own. */
  method DeleteEmpty(fs: OnceFS, path: Path) returns (r: Result<()>)
    requires fs.Valid() && fs.g.first <= fs.g.last + 1
    requires Resolve(fs.Memory().nodes, path, fs.time).Ok? && Resolve(fs.Memory().nodes, path, fs.time).value.typ == Dir
    requires forall name :: Resolve(fs.Memory().nodes, path + [name], fs.time).Err?
    modifies fs.Repr()
    ensures fs.Valid()
    ensures var m := old(fs.Memory());
      FreeBlocks(fs.g, m) > 0 || LiveOf(m, Resolve(m.nodes, path, fs.time).value.node) != {} ==> r == Ok(())
  {
    hide Table.Valid, Sane, Tree, Numbered, Reading.Fits, Resolve, FreeBlocks, LiveOf, Removes;
    ghost var s := fs.Now();
    r := fs.DelNode(path);
    if FreeBlocks(fs.g, s.mem) > 0 || LiveOf(s.mem, Resolve(s.mem.nodes, path, fs.time).value.node) != {} {
      EmptyIsDeleted(fs.g, s, path, fs.time, r, fs.Now());
    }
  }

  /** Rename, and look up something that was below the source. */
  method RenameThenResolve(fs: OnceFS, from: Path, to: Path, suffix: Path) returns (r: Result<()>, found: Result<Node>)
    requires fs.Valid() && suffix != [] && CanRename(fs.Memory().nodes, from, to, fs.time)
    modifies fs.Repr()
    ensures fs.Valid()
    ensures r.Ok? ==> found == Resolve(old(fs.Memory()).nodes, from + suffix, fs.time)
  {
    hide Table.Valid, Sane, Tree, Numbered, Reading.Fits, Resolve, Moves;
    ghost var s := fs.Now();
    r := fs.MoveNode(from, to);
    if r.Ok? {
      RenameMovesSubtree(fs.g, s, from, to, fs.time, r, fs.Now(), suffix, []);
    }
    found := fs.ResolvePath(to + suffix);
  }

  /** Rename, and look at both ends. */
  method RenameThenLook(fs: OnceFS, from: Path, to: Path)
    returns (r: Result<()>, there: Result<(Node, nat)>, here: Result<(Node, nat)>)
    requires fs.Valid() && fs.g.first <= fs.g.last + 1
    requires from != [] && to != [] && |Final(to)| <= NAME_MAX
    modifies fs.Repr()
    ensures fs.Valid()
    ensures var m := old(fs.Memory());
      match Resolve(m.nodes, from, fs.time)
      case Err(e) => r == Err(e) && fs.Now() == old(fs.Now())
      case Ok(n) =>
        match Resolve(m.nodes, Init(to), fs.time)
        case Err(e) => r == Err(e) && fs.Now() == old(fs.Now())
        case Ok(parent) =>
          if parent.typ != Dir then r == Err(EINVAL) && fs.Now() == old(fs.Now())
          else
            match Resolve(m.nodes, to, fs.time)
            case Ok(target) =>
              if target.typ != File then r == Err(EINVAL) && fs.Now() == old(fs.Now())
              else if FreeBlocks(fs.g, m) == 0 && LiveOf(m, target.node) == {} then r == Err(ENOSPC)
              else r == Ok(())
            case Err(_) =>
              if FreeBlocks(fs.g, m) == 0 && Takeable(m, n.node) == {} then r == Err(ENOSPC)
              else r == Ok(())
    ensures Renamable(old(fs.Memory()).nodes, from, to, fs.time) && FreeBlocks(fs.g, old(fs.Memory())) > 0 ==>
      r == Ok(())
    ensures r.Ok? && CanRename(old(fs.Memory()).nodes, from, to, fs.time) ==>
      var n := Resolve(old(fs.Memory()).nodes, from, fs.time).value;
      var parent := Resolve(old(fs.Memory()).nodes, Init(to), fs.time).value;
      && there.Ok? && here == Err(ENOENT)
      && there.value.0 == Node(n.node, parent.node, n.typ, n.access, n.modification, n.mode, Final(to))
  {
    hide Table.Valid, Sane, Tree, Numbered, Reading.Fits, Resolve, Moves, FreeBlocks, LiveOf, Takeable;
    ghost var s := fs.Now();
    r := fs.MoveNode(from, to);
    RenameAnswer(fs.g, s, from, to, fs.time, r, fs.Now());
    if r.Ok? && CanRename(s.mem.nodes, from, to, fs.time) {
      RenameDone(fs.g, s, from, to, fs.time, r, fs.Now());
      DestinationAfter(s.mem.nodes, from, to, fs.time);
      SourceAfter(s.mem.nodes, from, to, fs.time);
    }
    there := fs.GetNode(to);
    here := fs.GetNode(from);
  }

  /** Create a file or directory, ask for it, and list the directory it is in. */
  method CreateThenList(fs: OnceFS, path: Path, directory: bool, now: int)
    returns (r: Result<()>, found: Result<(Node, nat)>, listed: Result<seq<Node>>)
    requires fs.Valid() && fs.g.first <= fs.g.last + 1 && path != []
    modifies fs.Repr()
    ensures fs.Valid()
    ensures var m := old(fs.Memory());
      match Resolve(m.nodes, path, fs.time)
      case Ok(_) => r == Err(EEXIST) && fs.Now() == old(fs.Now())
      case Err(EINVAL) => r == Err(EINVAL) && fs.Now() == old(fs.Now())
      case Err(_) =>
        match Resolve(m.nodes, Init(path), fs.time)
        case Err(e) => r == Err(e) && fs.Now() == old(fs.Now())
        case Ok(parent) =>
          var n := Node(m.nextNode, parent.node, if directory then Dir else File, now, now, 0, Final(path));
          if FreeBlocks(fs.g, m) == 0 then r == Err(ENOSPC) && fs.disk == old(fs.disk)
          else
            && r == Ok(()) && found == Ok((n, 0)) && listed.Ok?
            && forall x :: x in listed.value <==> x == n || (x in m.nodes.Values && x.parent == parent.node)
    ensures var parent := Resolve(old(fs.Memory()).nodes, Init(path), fs.time);
      parent.Ok? && parent.value.typ != Dir ==> r == Err(EINVAL)
    ensures forall q :: !(path <= q) ==>
      Resolve(fs.Memory().nodes, q, fs.time) == Resolve(old(fs.Memory()).nodes, q, fs.time)
  {
    hide Table.Valid, Sane, Tree, Numbered, Reading.Fits, Resolve, Creates, FreeBlocks, ListsChildren, Sized;
    ghost var s := fs.Now();
    if directory {
      r := fs.SetDir(path, now);
    } else {
      r := fs.SetFile(path, now);
    }
    ghost var t, typ := fs.Now(), if directory then Dir else File;
    CreateAnswer(fs.g, s, path, typ, fs.time, now, r, t);
    LastNameDecides(s.mem.nodes, path, fs.time);
    ResolveFails(s.mem.nodes, path, fs.time);
    CreateElsewhere(fs.g, s, path, typ, fs.time, now, r, t);
    found := fs.GetNode(path);
    listed := fs.GetDir(Init(path));
    if r.Ok? {
      NewIsUnused(s.mem, typ);
      NewIsListed(s.mem.nodes, path, fs.time, found.value.0, listed.value);
      if !directory {
        CreatedIsEmpty(fs.g, s, path, typ, fs.time, now, r, t, found.value.1);
      }
    }
  }

  lemma NewIsUnused(m: Mem, typ: NodeType)
    requires Numbered(m)
    ensures NodeKey(m.nextNode, typ) !in m.nodes
  {
  }

  /** The listing of a directory with a new entry. */
  lemma NewIsListed(nodes: Nodes, path: Path, time: int, n: Node, entries: seq<Node>)
    requires path != [] && Resolve(nodes, Init(path), time).Ok? && KeyOf(n) !in nodes
    requires n.parent == Resolve(nodes, Init(path), time).value.node
    requires ListsChildren(nodes[KeyOf(n) := n], n.parent, entries)
    ensures forall x :: x in entries <==> x == n || (x in nodes.Values && x.parent == n.parent)
  {
    hide Resolve;
    var nodes' := nodes[KeyOf(n) := n];
    forall x
      ensures x in nodes'.Values <==> x == n || x in nodes.Values
    {
      if x in nodes.Values {
        var k :| k in nodes && nodes[k] == x;
        assert k in nodes' && nodes'[k] == x;
      }
      assert KeyOf(n) in nodes' && nodes'[KeyOf(n)] == n;
    }
  }

  /** Set the times of an entry and ask for them. */
  method TouchThenGet(fs: OnceFS, path: Path, access: int, modification: int, unset: Node)
    returns (r: Result<()>, found: Result<(Node, nat)>)
    requires fs.Valid() && fs.g.first <= fs.g.last + 1 && path != []
    modifies fs.Repr()
    ensures fs.Valid()
    ensures var m := old(fs.Memory());
      match Resolve(m.nodes, path, fs.time)
      case Err(e) => r == Err(e) && found == Err(e) && fs.Now() == old(fs.Now())
      case Ok(n) =>
        && found.Ok?
        && if modification == n.modification then r == Ok(()) && found.value.0 == n && fs.Now() == old(fs.Now())
           else
             && r == (if FreeBlocks(fs.g, m) == 0 && Takeable(m, n.node) == {} then Err(ENOSPC) else Ok(()))
             && found.value.0 == Node(n.node, n.parent, n.typ, access, modification, n.mode, n.name)
    ensures forall q :: q != path ==>
      Resolve(fs.Memory().nodes, q, fs.time) == Resolve(old(fs.Memory()).nodes, q, fs.time)
  {
    hide Table.Valid, Sane, Tree, Numbered, Reading.Fits, Resolve, Touches, FreeBlocks, Takeable, Sized;
    ghost var s := fs.Now();
    r := fs.SetTime(path, access, modification, unset);
    TouchAnswer(fs.g, s, path, access, modification, fs.time, r, fs.Now());
    found := fs.GetNode(path);
  }

  /** List a directory and look up a name in it. */
  method ListThenResolve(fs: OnceFS, path: Path, name: string)
    returns (listed: Result<seq<Node>>, found: Result<Node>)
    requires fs.Valid()
    ensures match Resolve(fs.Memory().nodes, path, fs.time)
      case Err(e) => listed == Err(e) && found == Err(e)
      case Ok(n) =>
        && listed.Ok?
        && (forall x :: x in listed.value <==> x in fs.Memory().nodes.Values && x.parent == n.node)
        && (forall i, j :: 0 <= i < j < |listed.value| ==> listed.value[i] != listed.value[j])
        && (n.typ == Dir ==> (found.Ok? <==> exists x :: x in listed.value && x.name == name))
        && (n.typ == Dir && found.Ok? ==> found.value in listed.value && found.value.name == name)
        && (n.typ != Dir ==> found == Err(EINVAL))
  {
    hide Table.Valid, Sane, Tree, Numbered, Reading.Fits, ListsChildren;
    listed := fs.GetDir(path);
    found := fs.ResolvePath(path + [name]);
    assert Init(path + [name]) == path;
    if listed.Ok? {
      ListedAndFound(fs.Memory().nodes, path, fs.time, listed.value, name);
    }
  }

  lemma ListedAndFound(nodes: Nodes, path: Path, time: int, entries: seq<Node>, name: string)
    requires Tree(nodes) && Resolve(nodes, path, time).Ok?
    requires ListsChildren(nodes, Resolve(nodes, path, time).value.node, entries)
    ensures forall x :: x in entries <==> x in nodes.Values && x.parent == Resolve(nodes, path, time).value.node
    ensures forall i, j :: 0 <= i < j < |entries| ==> entries[i] != entries[j]
    ensures Resolve(nodes, path, time).value.typ == Dir ==>
      var found := Resolve(nodes, path + [name], time);
      && (found.Ok? <==> exists x :: x in entries && x.name == name)
      && (found.Ok? ==> found.value in entries && found.value.name == name)
  {
    hide Tree, Resolve;
    forall i, j | 0 <= i < j < |entries|
      ensures entries[i] != entries[j]
    {
      StrCmpOrder(entries[i].name, entries[j].name, "");
    }
    if Resolve(nodes, path, time).value.typ == Dir {
      hide ListsChildren;
      ListingExact(nodes, path, time, entries);
    }
  }

  /** Create a link and ask where it points. */
  method LinkThenRead(fs: OnceFS, path: Path, to: string, now: int) returns (r: Result<()>, found: Result<string>)
    requires fs.Valid()
    modifies fs.Repr()
    ensures fs.Valid()
    ensures r.Ok? ==> found == Ok(to)
    ensures fs.g.first <= fs.g.last + 1 ==>
      var m := old(fs.Memory());
      if |to| > NAME_MAX then r == Err(EINVAL) && fs.Now() == old(fs.Now())
      else
        match Resolve(m.nodes, path, fs.time)
        case Ok(_) => r == Err(EEXIST) && fs.Now() == old(fs.Now())
        case Err(EINVAL) => r == Err(EINVAL) && fs.Now() == old(fs.Now())
        case Err(_) =>
          match Resolve(m.nodes, Init(path), fs.time)
          case Err(e) => r == Err(e) && fs.Now() == old(fs.Now())
          case Ok(_) => r == if FreeBlocks(fs.g, m) == 0 then Err(ENOSPC) else Ok(())
  {
    hide Table.Valid, Sane, Tree, Numbered, Reading.Fits, Resolve, MakesLink, AllReachable, FreeBlocks;
    ghost var s := fs.Now();
    r := fs.SetLink(path, to, now);
    if r.Ok? {
      LinkFound(fs.g, s, path, to, fs.time, now, r, fs.Now(), []);
    }
    if fs.g.first <= fs.g.last + 1 {
      RootResolves(s.mem.nodes, fs.time);
      LinkAnswer(fs.g, s, path, to, fs.time, now, r, fs.Now());
      ResolveFails(s.mem.nodes, path, fs.time);
      if path != [] {
        LastNameDecides(s.mem.nodes, path, fs.time);
      }
    }
    found := fs.GetLink(path);
  }
}
