// Taking entries out of the tree and putting them somewhere else
// (kernel/src/vfsmove.c).
module VfsMove {
  import opened Common
  import opened VfsTypes
  import opened VfsTree
  import opened VfsReroot
  import opened VfsNames
  import opened VfsSpec
  import opened VfsTable
  import opened VfsBlock
  import opened VfsPath
  import opened VfsLink
  import opened VfsFile

  /** `is_within`: the climb from `node`, looking for `maybe`. */
  method IsWithin(fs: Vfs, node: int, maybe: int) returns (within: bool)
    requires Walkable(fs) && InTree(fs.t, node)
    ensures Rooted(fs.t, node) && within == Within(fs.t, node, maybe)
  {
    RepAt(fs, node);
    var here := node;
    ghost var n: nat := |fs.t|;
    while true
      invariant Climb(fs.t, here, n)
      invariant Inside(fs.t, here, maybe, n) == Within(fs.t, node, maybe)
      decreases n
    {
      if here == maybe { return true; }
      if here == 0 { return false; }
      RepAt(fs, here);
      here := fs.nodes[here].parent;
      n := n - 1;
    }
  }

  /** The guard of `vfs_remove`: whether the working directory is at or under an
      entry without children, which can only be the entry itself. */
  method HoldsCwd(fs: Vfs, at: int) returns (holds: bool)
    requires Walkable(fs) && MayRemove(fs.t, at)
    ensures holds <==> fs.cwd == at
  {
    RepAt(fs, fs.cwd);
    RepAt(fs, at);
    var here := fs.cwd;
    ghost var n: nat := |fs.t|;
    while true
      invariant Climb(fs.t, here, n)
      invariant here == fs.cwd || (here != at && fs.cwd != at)
      decreases n
    {
      if here == at { return true; }
      if here == 0 { return false; }
      RepAt(fs, here);
      here := fs.nodes[here].parent;
      n := n - 1;
    }
  }

  lemma DetachLists(t: Tree, at: int)
    requires TreeOk(t) && InTree(t, at) && at != 0
    ensures ParentOk(t, at) && t[at].parent != at
    ensures Listing(Detach(t, at)) && Unlisted(Detach(t, at), at)
  {
    assert ParentOk(t, at) && Rooted(t, at);
    if t[at].parent == at { SelfNeverClimbs(t, at, |t|); }
    var p := t[at].parent;
    assert KidsOk(t, p);
    WithoutNoDup(t[p].kids, at);
    var t' := Detach(t, at);
    forall d | 0 <= d < |t'| && t'[d].Dir? ensures KidsOk(t', d) && at !in t'[d].kids {
      assert KidsOk(t, d);
    }
  }

  /** `vfs_remove`. */
  method RemovePath(fs: Vfs, path: Text) returns (result: VfsResult)
    requires fs.Valid()
    modifies fs`t, fs`owner, fs.nodes, fs.blockUsed
    ensures fs.Valid()
    ensures Outcome(result, fs.View()) == Remove(old(fs.View()), path)
  {
    var at, _ := Walk(fs, path, false);
    if at == NONE { return NotFound; }
    if at == 0 { return BadName; }
    RepAt(fs, at);
    if fs.nodes[at].kind == DirKind && fs.nodes[at].first != NONE {
      return NotEmpty;
    }
    var standing := HoldsCwd(fs, at);
    if standing { return NotEmpty; }
    RemoveKeeps(fs.View(), path);
    RemoveLeaf(fs, at);
    return Ok;
  }

  /** The entry out of its list, its blocks back, and its slot free. */
  method RemoveLeaf(fs: Vfs, at: int)
    requires fs.Valid() && MayRemove(fs.t, at)
    modifies fs`t, fs`owner, fs.nodes, fs.blockUsed
    ensures ParentOk(old(fs.t), at) && fs.t == RemoveEntry(old(fs.t), at)
    ensures fs.Rep()
  {
    ghost var t, nodes, used, owner := fs.t, fs.nodes[..], fs.blockUsed[..], fs.owner;
    DetachLists(t, at);
    UnlinkFromParent(fs, at);
    ghost var t1, nodes1 := fs.t, fs.nodes[..];
    DetachData(t, at);
    StoreKept(nodes, nodes1, fs.pool[..], used, owner, t, t1);
    assert Owned(fs.nodes[..], fs.blockUsed[..], fs.owner, HeldBy(t1));
    Release(fs, at);
    fs.SetNode(at, fs.nodes[at].(used := false));
    fs.t := t1[at := Free];
    FreedLinks(nodes1, t1, fs.nodes[..], at);
    assert HeldBy(fs.t) == HeldBy(t1)[at := 0];
    SameBlocksOwned(nodes1[at := nodes1[at].(blocks := NoBlocks(), length := 0)], fs.nodes[..], fs.blockUsed[..], fs.owner, HeldBy(fs.t));
    FreedContent(nodes1, fs.pool[..], t1, fs.nodes[..], at);
  }

  lemma DetachData(t: Tree, at: int)
    requires InTree(t, at) && 0 <= t[at].parent < |t| && t[t[at].parent].Dir?
    ensures SameData(t, Detach(t, at))
  {
  }

  lemma FreedLinks(nodes: seq<Node>, t: Tree, nodes': seq<Node>, at: int)
    requires LinksRep(nodes, t) && Listing(t) && Unlisted(t, at) && 0 < at < |t| && |nodes'| == |nodes|
    requires forall i :: 0 <= i < |nodes| && i != at ==> nodes'[i] == nodes[i]
    requires !nodes'[at].used
    ensures LinksRep(nodes', t[at := Free])
  {
    var t' := t[at := Free];
    forall i | 0 <= i < |t'| ensures EntryRep(nodes'[i], t'[i]) { assert EntryRep(nodes[i], t[i]); }
    forall d | 0 <= d < |t'| && t'[d].Dir? ensures Listed(nodes', nodes'[d].first, t'[d].kids) {
      assert Listed(nodes, nodes[d].first, t[d].kids);
      assert at !in t[d].kids;
      ListedSame(nodes, nodes', nodes[d].first, t[d].kids);
    }
  }

  lemma FreedContent(nodes: seq<Node>, pool: seq<Byte>, t: Tree, nodes': seq<Node>, at: int)
    requires ContentRep(nodes, pool, t) && 0 <= at < |t| && |nodes'| == |nodes|
    requires forall i :: 0 <= i < |nodes| && i != at ==> nodes'[i] == nodes[i]
    ensures ContentRep(nodes', pool, t[at := Free])
  {
    var t' := t[at := Free];
    forall i | 0 <= i < |t'| && t'[i].File? ensures Content(nodes'[i], pool, t'[i].data) {
      assert Content(nodes[i], pool, t[i].data);
    }
  }

  /** `vfs_move`: the checks in their order, then the surgery. */
  method MovePath(fs: Vfs, from: Text, to: Text) returns (result: VfsResult)
    requires fs.Valid()
    modifies fs`t, fs.nodes
    ensures fs.Valid()
    ensures Outcome(result, fs.View()) == Move(old(fs.View()), from, to)
  {
    var at, _ := Walk(fs, from, false);
    if at == NONE { return NotFound; }
    if at == 0 { return BadName; }
    var parent, name := Walk(fs, to, true);
    if parent == NONE { return NotFound; }
    RepAt(fs, parent);
    if fs.nodes[parent].kind != DirKind { return NotADirectory; }
    var usable := Usable(name);
    if !usable { return BadName; }
    var existing := ChildNamed(fs, parent, name);
    if existing != NONE { return Exists; }
    var within := IsWithin(fs, parent, at);
    if within { return BadName; }
    MoveChecked(fs, from, to, at, parent, name);
    return Ok;
  }

  /** The move, once nothing stands against it. */
  method MoveChecked(fs: Vfs, ghost from: Text, ghost to: Text, at: int, parent: int, name: Text)
    requires fs.Valid() && MoveVerdict(fs.View(), from, to) == Ok && name == LastName(to)
    requires at == Resolve(fs.t, fs.cwd, from) && parent == Holder(fs.t, fs.cwd, to)
    modifies fs`t, fs.nodes
    ensures fs.Valid() && Outcome(Ok, fs.View()) == Move(old(fs.View()), from, to)
  {
    MoveKeeps(fs.View(), from, to);
    Regraft(fs, at, parent, name);
  }

  /** Out of one list, renamed, and into another. */
  method Regraft(fs: Vfs, at: int, parent: int, name: Text)
    requires fs.Valid() && MayMove(fs.t, at, parent) && |name| < NAME_MAX
    modifies fs`t, fs.nodes
    ensures parent != at && ParentOk(old(fs.t), at) && fs.t == MoveTree(old(fs.t), at, parent, name)
    ensures fs.Rep()
  {
    ghost var t, nodes := fs.t, fs.nodes[..];
    Relink(fs, at, parent, name);
    MoveTreeMoves(t, at, parent, name);
    MovedData(t, fs.t, at, parent, name);
    StoreKept(nodes, fs.nodes[..], fs.pool[..], fs.blockUsed[..], fs.owner, t, fs.t);
  }

  method Relink(fs: Vfs, at: int, parent: int, name: Text)
    requires Walkable(fs) && MayMove(fs.t, at, parent) && |name| < NAME_MAX
    modifies fs`t, fs.nodes
    ensures parent != at && ParentOk(old(fs.t), at) && old(fs.t)[at].parent != at
    ensures fs.t == MoveTree(old(fs.t), at, parent, name)
    ensures LinksRep(fs.nodes[..], fs.t) && SameStore(old(fs.nodes[..]), fs.nodes[..])
  {
    MayMoveParts(fs.t, at, parent);
    DetachLists(fs.t, at);
    ghost var nodes := fs.nodes[..];
    UnlinkFromParent(fs, at);
    ghost var nodes1 := fs.nodes[..];
    Rename(fs, at, name);
    ghost var nodes2 := fs.nodes[..];
    LinkInto(fs, parent, at);
    StoresChain(nodes, nodes1, nodes2, fs.nodes[..]);
  }

  lemma StoresChain(a: seq<Node>, b: seq<Node>, c: seq<Node>, d: seq<Node>)
    requires SameStore(a, b) && SameStore(b, c) && SameStore(c, d)
    ensures SameStore(a, d)
  {
  }

  method Rename(fs: Vfs, at: int, name: Text)
    requires fs.Sized() && LinksRep(fs.nodes[..], fs.t) && Listing(fs.t) && Unlisted(fs.t, at)
    requires 0 < at < MAX_NODES && !fs.t[at].Free? && |name| < NAME_MAX
    modifies fs`t, fs.nodes
    ensures fs.t == old(fs.t)[at := old(fs.t)[at].(name := name)]
    ensures LinksRep(fs.nodes[..], fs.t) && Listing(fs.t) && Unlisted(fs.t, at)
    ensures SameStore(old(fs.nodes[..]), fs.nodes[..])
  {
    ghost var t, nodes := fs.t, fs.nodes[..];
    assert EntryRep(nodes[at], t[at]);
    var raw := PutNodeName(fs.nodes[at].name, name);
    fs.SetNode(at, fs.nodes[at].(name := raw));
    fs.t := t[at := t[at].(name := name)];
    Reheaded(nodes, t, fs.nodes[..], fs.t, at);
  }

  lemma MovedData(t: Tree, t': Tree, at: int, q: int, name: Text)
    requires Moved(t, t', at, q, name)
    ensures SameData(t, t')
  {
    forall i | 0 <= i < |t|
      ensures EntryBlocks(t'[i]) == EntryBlocks(t[i]) && (t'[i].Dir? ==> t[i].Dir?)
      ensures t'[i].File? ==> t[i].File? && t[i].data == t'[i].data
    {
      assert MovedEntry(t[i], t'[i], i, at, t[at].parent, q, name);
    }
  }

  // ----- copying

  /** The byte loop of `vfs_copy`. */
  method CopyBetween(fs: Vfs, at: int, made: int, ghost held: seq<nat>, ghost data: seq<Byte>)
    requires fs.Sized() && 0 <= at < MAX_NODES && 0 <= made < MAX_NODES && at != made
    requires Owned(fs.nodes[..], fs.blockUsed[..], fs.owner, held)
    requires |data| <= FILE_MAX && |data| <= held[at] * BLOCK && |data| <= held[made] * BLOCK
    requires Content(fs.nodes[at], fs.pool[..], data)
    modifies fs.pool
    ensures OthersKept(fs.owner, made, old(fs.pool[..]), fs.pool[..])
    ensures Reads(fs.nodes[made], fs.pool[..], data, |data|)
  {
    ghost var nodes := fs.nodes[..];
    var length := fs.nodes[at].length;
    for i := 0 to length
      invariant OthersKept(fs.owner, made, old(fs.pool[..]), fs.pool[..])
      invariant Reads(nodes[made], fs.pool[..], data, i)
    {
      SpotOwned(nodes, fs.blockUsed[..], fs.owner, held, at, i);
      SpotOwned(nodes, fs.blockUsed[..], fs.owner, held, made, i);
      assert SlotOk(nodes, fs.owner, held, at, i / BLOCK) && SlotOk(nodes, fs.owner, held, made, i / BLOCK);
      var fromAt := BlockAt(fs, at, i);
      var toAt := BlockAt(fs, made, i);
      if fromAt == NONE || toAt == NONE { assert false; }
      assert fs.pool[fromAt] == old(fs.pool[fromAt]) == data[i];
      fs.SetByte(toAt, fs.pool[fromAt]);
      forall k | 0 <= k < i ensures Spot(nodes[made].blocks, k) != toAt {
        SpotsDiffer(nodes, fs.blockUsed[..], fs.owner, held, made, k, i);
      }
    }
  }

  /** `vfs_copy`: a whole copy under the new name, or, refused at any point,
      every path and every byte as they were. */
  method CopyPath(fs: Vfs, from: Text, to: Text) returns (result: VfsResult)
    requires fs.Valid()
    modifies fs`t, fs`owner, fs.nodes, fs.pool, fs.blockUsed
    ensures fs.Valid()
    ensures Outcome(result, fs.View()) == Copy(old(fs.View()), from, to)
  {
    ghost var before := fs.View();
    HolderLands(fs.t, fs.cwd, from);
    var at, _ := Walk(fs, from, false);
    if at == NONE { return NotFound; }
    RepAt(fs, at);
    if fs.nodes[at].kind != FileKind { return IsADirectory; }
    var existing, _ := Walk(fs, to, false);
    if existing != NONE { return Exists; }
    var created, made := MakeEntry(fs, to, FileKind);
    if created != Ok { return created; }

    CopyFacts(before, from, to);
    result := CopyOrUndo(fs, to, at, made, before);
  }

  /** The new file filled, or taken away again. */
  method CopyOrUndo(fs: Vfs, to: Text, at: int, made: int, ghost before: Fs) returns (result: VfsResult)
    requires fs.Valid() && 0 <= at < MAX_NODES && 0 <= made < MAX_NODES && at != made
    requires fs.t[at].File? && fs.t[made].File? && fs.t[made].data == []
    requires FsOk(before) && MakeVerdict(before, to) == Ok && fs.View() == Made(before, to, FileKind)
    modifies fs`t, fs`owner, fs.nodes, fs.pool, fs.blockUsed
    ensures fs.Valid()
    ensures var full := WithData(old(fs.View()), made, old(fs.t)[at].data);
            if BlocksHeld(full.t) <= MAX_BLOCKS then result == Ok && fs.View() == full
            else result == NoSpace && fs.View() == before
  {
    var ok := CopyData(fs, at, made);
    if !ok {
      UndoFacts(before, to);
      var _ := RemovePath(fs, to);
      return NoSpace;
    }
    return Ok;
  }

  /** Room for the copy and then its bytes; refused, the new file stays empty. */
  method CopyData(fs: Vfs, at: int, made: int) returns (ok: bool)
    requires fs.Valid() && 0 <= at < MAX_NODES && 0 <= made < MAX_NODES && at != made
    requires fs.t[at].File? && fs.t[made].File? && fs.t[made].data == []
    modifies fs`t, fs`owner, fs.nodes, fs.pool, fs.blockUsed
    ensures fs.Valid()
    ensures ok <==> BlocksHeld(WithData(old(fs.View()), made, old(fs.t)[at].data).t) <= MAX_BLOCKS
    ensures fs.View() == if ok then WithData(old(fs.View()), made, old(fs.t)[at].data) else old(fs.View())
  {
    ghost var t, nodes, pool, owner := fs.t, fs.nodes[..], fs.pool[..], fs.owner;
    ghost var held, data := HeldBy(t), t[at].data;
    assert Content(nodes[at], pool, data) && EntryFits(t[at]);
    RoomFor(t, made, data);
    RoomFor(t, at, data);
    var length := fs.nodes[at].length;
    ok := Reserve(fs, made, BlocksFor(length), held);
    if !ok {
      StillHeld(nodes, owner, fs.blockUsed[..], pool, fs.pool[..], t);
      return;
    }
    FinishCopy(fs, at, made, nodes, old(fs.blockUsed[..]), owner, pool);
  }

  method FinishCopy(fs: Vfs, at: int, made: int,
                    ghost nodes: seq<Node>, ghost used: seq<bool>, ghost owner: Owner, ghost pool: seq<Byte>)
    requires fs.Sized() && FsOk(fs.View()) && 0 <= at < MAX_NODES && 0 <= made < MAX_NODES && at != made
    requires fs.t[at].File? && fs.t[made].File? && fs.t[made].data == []
    requires LinksRep(nodes, fs.t) && Owned(nodes, used, owner, HeldBy(fs.t)) && ContentRep(nodes, pool, fs.t)
    requires |pool| == MAX_BLOCKS * BLOCK && HeldBytesKept(owner, pool, fs.pool[..])
    requires Grown(nodes, owner, HeldBy(fs.t), fs.nodes[..], fs.blockUsed[..], fs.owner, made, BlocksFor(|fs.t[at].data|))
    requires BlocksHeld(WithData(fs.View(), made, fs.t[at].data).t) <= MAX_BLOCKS
    modifies fs`t, fs.nodes, fs.pool
    ensures fs.Valid() && fs.View() == WithData(old(fs.View()), made, old(fs.t)[at].data)
  {
    ghost var t, held, data := fs.t, HeldBy(fs.t), fs.t[at].data;
    assert Content(nodes[at], pool, data) && EntryFits(t[at]);
    RoomFor(t, made, data);
    RoomFor(t, at, data);
    ghost var held' := held[made := BlocksFor(|data|)];
    assert held[made] == BlocksFor(|data|) ==> held' == held;
    assert fs.nodes[at] == nodes[at];
    StillHeld(nodes, owner, used, pool, fs.pool[..], t);
    assert Content(nodes[at], fs.pool[..], data);
    ghost var nodes1, pool1 := fs.nodes[..], fs.pool[..];
    CopyBetween(fs, at, made, held', data);
    var length := fs.nodes[at].length;
    fs.SetNode(made, fs.nodes[made].(length := length));
    fs.t := WithData(Fs(t, fs.cwd), made, data).t;
    DataKeeps(Fs(t, fs.cwd), made, data);
    StoreAfterAppend(nodes, used, owner, pool, t, nodes1, fs.blockUsed[..], fs.owner, pool1, fs.nodes[..], fs.pool[..], made, data);
  }

  /** The source is still the same file once the destination was made. */
  lemma CopyFacts(fs: Fs, from: Text, to: Text)
    requires FsOk(fs) && MakeVerdict(fs, to) == Ok
    requires InTree(fs.t, Resolve(fs.t, fs.cwd, from)) && fs.t[Resolve(fs.t, fs.cwd, from)].File?
    ensures var at, made, t' := Resolve(fs.t, fs.cwd, from), FirstFree(fs.t, 1), Made(fs, to, FileKind).t;
            at != made && t'[at] == fs.t[at] && t'[made].File? && t'[made].data == []
  {
  }

  /** Removing the destination again restores the tree. */
  lemma UndoFacts(fs: Fs, to: Text)
    requires FsOk(fs) && MakeVerdict(fs, to) == Ok
    ensures Remove(Made(fs, to, FileKind), to) == Outcome(Ok, fs)
  {
    MadeResolves(fs, to, FileKind);
    var h, made := Holder(fs.t, fs.cwd, to), FirstFree(fs.t, 1);
    assert MayAdd(fs.t, h, made);
    RemoveUndoesAdd(fs.t, h, made, FileKind, LastName(to));
  }
}
