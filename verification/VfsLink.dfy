// Making entries, and where in the tree they go: the loops that splice the
// sibling lists (kernel/src/vfstree.c).
module VfsLink {
  import opened Common
  import opened VfsTypes
  import opened VfsTree
  import opened VfsReroot
  import opened VfsNames
  import opened VfsSpec
  import opened VfsTable
  import opened VfsPath

  // ----- what a change of links leaves alone

  /** No node's blocks or length changed. */
  ghost predicate SameStore(nodes: seq<Node>, nodes': seq<Node>) {
    && |nodes'| == |nodes|
    && forall i :: 0 <= i < |nodes| ==> nodes'[i].blocks == nodes[i].blocks && nodes'[i].length == nodes[i].length
  }

  /** Each entry holds the same bytes. */
  ghost predicate SameData(t: Tree, t': Tree) {
    && |t'| == |t|
    && forall i :: 0 <= i < |t| ==>
         && EntryBlocks(t'[i]) == EntryBlocks(t[i])
         && (t'[i].Dir? ==> t[i].Dir?) && (t'[i].File? ==> t[i].File? && t[i].data == t'[i].data)
  }

  lemma StoreKept(nodes: seq<Node>, nodes': seq<Node>, pool: seq<Byte>, used: seq<bool>, owner: Owner, t: Tree,
                  t': Tree)
    requires Owned(nodes, used, owner, HeldBy(t)) && ContentRep(nodes, pool, t)
    requires SameStore(nodes, nodes') && SameData(t, t')
    ensures Owned(nodes', used, owner, HeldBy(t')) && ContentRep(nodes', pool, t')
  {
    var held := HeldBy(t);
    assert HeldBy(t') == held;
    forall i, k ensures SlotOk(nodes', owner, held, i, k) { assert SlotOk(nodes, owner, held, i, k); }
    forall b | b in owner ensures ClaimOk(nodes', held, b, owner[b]) { assert ClaimOk(nodes, held, b, owner[b]); }
    forall i | 0 <= i < |t'| && t'[i].File? ensures Content(nodes'[i], pool, t'[i].data) {
      assert Content(nodes[i], pool, t[i].data);
    }
  }

  // ----- the sibling lists

  /** Every directory's list names its own children, each once. */
  ghost predicate Listing(t: Tree) {
    forall d {:trigger KidsOk(t, d)} :: 0 <= d < |t| && t[d].Dir? ==> KidsOk(t, d)
  }

  ghost predicate Unlisted(t: Tree, at: int) {
    forall d :: 0 <= d < |t| && t[d].Dir? ==> at !in t[d].kids
  }

  /** A list reads the same when none of its nodes changed its sibling link. */
  lemma ListedSame(nodes: seq<Node>, nodes': seq<Node>, head: int, list: seq<int>)
    requires Listed(nodes, head, list) && |nodes'| == |nodes|
    requires forall j :: 0 <= j < |list| && list[j] < |nodes| ==> nodes'[list[j]].next == nodes[list[j]].next
    ensures Listed(nodes', head, list)
  {
  }

  function WithKids(t: Tree, d: int, kids: seq<int>): Tree
    requires 0 <= d < |t| && t[d].Dir?
  {
    t[d := t[d].(kids := kids)]
  }

  /** One link of directory `p` rewritten: its own list must be spelled out
      again, and every other list is untouched. */
  lemma Relinked(nodes: seq<Node>, t: Tree, nodes': seq<Node>, p: int, kids: seq<int>, changed: int)
    requires LinksRep(nodes, t) && Listing(t) && 0 <= p < |t| && t[p].Dir?
    requires |nodes'| == |nodes|
    requires forall i :: 0 <= i < |nodes| ==>
               nodes'[i] == nodes[i].(first := nodes'[i].first, next := nodes'[i].next)
    requires forall i :: 0 <= i < |nodes| && i != p ==> nodes'[i].first == nodes[i].first
    requires forall i :: 0 <= i < |nodes| && i != changed ==> nodes'[i].next == nodes[i].next
    requires changed == NONE || changed in t[p].kids
    requires Listed(nodes', nodes'[p].first, kids)
    ensures LinksRep(nodes', WithKids(t, p, kids))
  {
    var t' := WithKids(t, p, kids);
    assert KidsOk(t, p);
    forall i | 0 <= i < |t'| ensures EntryRep(nodes'[i], t'[i]) { assert EntryRep(nodes[i], t[i]); }
    forall d | 0 <= d < |t'| && t'[d].Dir? ensures Listed(nodes', nodes'[d].first, t'[d].kids) {
      if d != p {
        assert Listed(nodes, nodes[d].first, t[d].kids) && KidsOk(t, d);
        assert changed !in t[d].kids;
        ListedSame(nodes, nodes', nodes[d].first, t[d].kids);
      }
    }
  }

  /** The walk to the end of a list and the new entry after it. */
  method AppendToList(fs: Vfs, parent: int, at: int)
    requires fs.Sized() && LinksRep(fs.nodes[..], fs.t) && Listing(fs.t)
    requires 0 <= parent < MAX_NODES && fs.t[parent].Dir?
    requires 0 <= at < MAX_NODES && Unlisted(fs.t, at) && fs.nodes[at].next == NONE
    modifies fs.nodes, fs`t
    ensures fs.t == WithKids(old(fs.t), parent, old(fs.t)[parent].kids + [at])
    ensures LinksRep(fs.nodes[..], fs.t)
    ensures SameStore(old(fs.nodes[..]), fs.nodes[..])
  {
    ghost var nodes, t, kids := fs.nodes[..], fs.t, fs.t[parent].kids;
    assert Listed(nodes, nodes[parent].first, kids) && KidsOk(t, parent);
    if fs.nodes[parent].first == NONE {
      assert kids == [];
      fs.SetNode(parent, fs.nodes[parent].(first := at));
      Relinked(nodes, t, fs.nodes[..], parent, [at], NONE);
      assert kids + [at] == [at];
    } else {
      var last := fs.nodes[parent].first;
      ghost var j := 0;
      while fs.nodes[last].next != NONE
        invariant 0 <= j < |kids| && last == kids[j]
        invariant fs.nodes[..] == nodes
        decreases |kids| - j
      {
        assert nodes[kids[j]].next == At(kids, j + 1);
        last := fs.nodes[last].next;
        j := j + 1;
      }
      assert nodes[kids[j]].next == At(kids, j + 1);
      fs.SetNode(last, fs.nodes[last].(next := at));
      AppendedList(nodes, fs.nodes[..], kids, at, fs.nodes[parent].first);
      Relinked(nodes, t, fs.nodes[..], parent, kids + [at], last);
    }
    fs.t := WithKids(t, parent, kids + [at]);
  }

  lemma AppendedList(nodes: seq<Node>, nodes': seq<Node>, kids: seq<int>, at: int, head: int)
    requires kids != [] && Listed(nodes, head, kids) && NoDup(kids) && at !in kids
    requires 0 <= at < |nodes| < 0x8000 && nodes[at].next == NONE
    requires nodes' == nodes[kids[|kids| - 1] := nodes[kids[|kids| - 1]].(next := at)]
    ensures Listed(nodes', head, kids + [at])
  {
    var list := kids + [at];
    forall j | 0 <= j < |list| ensures 0 <= list[j] < |nodes'| && nodes'[list[j]].next == At(list, j + 1) {
      if j < |kids| { assert nodes[kids[j]].next == At(kids, j + 1); }
    }
  }

  /** The sibling before `kids[m]`, found by walking from the front. */
  method SiblingBefore(fs: Vfs, parent: int, at: int, ghost kids: seq<int>, ghost m: nat) returns (before: Int16)
    requires 0 <= parent < fs.nodes.Length && Listed(fs.nodes[..], fs.nodes[parent].first, kids) && NoDup(kids)
    requires 0 < m < |kids| && kids[m] == at
    ensures before == kids[m - 1]
  {
    ghost var nodes := fs.nodes[..];
    before := fs.nodes[parent].first;
    ghost var j := 0;
    assert nodes[kids[m - 1]].next == At(kids, m);
    while before != NONE && fs.nodes[before].next != at
      invariant 0 <= j < m && before == kids[j]
      decreases |kids| - j
    {
      assert nodes[kids[j]].next == At(kids, j + 1);
      before := fs.nodes[before].next;
      j := j + 1;
    }
    assert nodes[kids[j]].next == At(kids, j + 1);
  }

  /** `vfs_unlink_from_parent`. */
  method UnlinkFromParent(fs: Vfs, at: int)
    requires Walkable(fs) && InTree(fs.t, at) && at != 0
    modifies fs.nodes, fs`t
    ensures ParentOk(old(fs.t), at) && fs.t == Detach(old(fs.t), at)
    ensures LinksRep(fs.nodes[..], fs.t)
    ensures SameStore(old(fs.nodes[..]), fs.nodes[..])
  {
    RepAt(fs, at);
    ghost var nodes, t := fs.nodes[..], fs.t;
    var parent := fs.nodes[at].parent;
    RepAt(fs, parent);
    ghost var kids := t[parent].kids;
    ghost var m: nat :| m < |kids| && kids[m] == at;
    assert Listing(t);
    if fs.nodes[parent].first == at {
      fs.SetNode(parent, fs.nodes[parent].(first := fs.nodes[at].next));
      UnlinkedFirst(nodes, t, fs.nodes[..], parent, at, m);
    } else {
      assert m > 0;
      var before := SiblingBefore(fs, parent, at, kids, m);
      if before != NONE {
        fs.SetNode(before, fs.nodes[before].(next := fs.nodes[at].next));
      }
      UnlinkedLater(nodes, t, fs.nodes[..], parent, at, m);
    }
    fs.t := Detach(t, at);
  }

  lemma UnlinkedFirst(nodes: seq<Node>, t: Tree, nodes': seq<Node>, p: int, at: int, m: nat)
    requires LinksRep(nodes, t) && Listing(t) && 0 <= p < |t| && t[p].Dir? && 0 <= at < |t|
    requires m < |t[p].kids| && t[p].kids[m] == at && nodes[p].first == at
    requires nodes' == nodes[p := nodes[p].(first := nodes[at].next)]
    ensures LinksRep(nodes', WithKids(t, p, Without(t[p].kids, at)))
  {
    var kids := t[p].kids;
    assert Listed(nodes, nodes[p].first, kids) && KidsOk(t, p);
    assert m == 0;
    WithoutIs(kids, m);
    UnlinkedList(nodes, nodes', kids, 0, nodes[p].first, nodes'[p].first);
    Relinked(nodes, t, nodes', p, Without(kids, at), NONE);
  }

  lemma UnlinkedLater(nodes: seq<Node>, t: Tree, nodes': seq<Node>, p: int, at: int, m: nat)
    requires LinksRep(nodes, t) && Listing(t) && 0 <= p < |t| && t[p].Dir? && 0 <= at < |t|
    requires 0 < m < |t[p].kids| && t[p].kids[m] == at && 0 <= t[p].kids[m - 1] < |t|
    requires nodes' == nodes[t[p].kids[m - 1] := nodes[t[p].kids[m - 1]].(next := nodes[at].next)]
    ensures LinksRep(nodes', WithKids(t, p, Without(t[p].kids, at)))
  {
    var kids := t[p].kids;
    var before := kids[m - 1];
    assert Listed(nodes, nodes[p].first, kids) && KidsOk(t, p);
    assert before in kids;
    WithoutIs(kids, m);
    UnlinkedList(nodes, nodes', kids, m, nodes[p].first, nodes'[p].first);
    Relinked(nodes, t, nodes', p, Without(kids, at), before);
  }

  lemma {:induction false} WithoutIs(kids: seq<int>, m: nat)
    requires m < |kids| && NoDup(kids)
    ensures Without(kids, kids[m]) == kids[..m] + kids[m + 1..]
  {
    if m > 0 {
      WithoutIs(kids[1..], m - 1);
      assert kids[1..][..m - 1] == kids[1..m] && kids[1..][m..] == kids[m + 1..];
    }
  }

  lemma UnlinkedList(nodes: seq<Node>, nodes': seq<Node>, kids: seq<int>, m: nat, head: int, head': int)
    requires m < |kids| && Listed(nodes, head, kids) && NoDup(kids) && |nodes'| == |nodes|
    requires head' == if m == 0 then nodes[kids[0]].next else head
    requires forall j :: 0 <= j < |kids| && j + 1 != m ==> nodes'[kids[j]].next == nodes[kids[j]].next
    requires m > 0 ==> nodes'[kids[m - 1]].next == nodes[kids[m]].next
    ensures Listed(nodes', head', kids[..m] + kids[m + 1..])
  {
    var list := kids[..m] + kids[m + 1..];
    assert nodes[kids[m]].next == At(kids, m + 1);
    forall j | 0 <= j < |list| ensures 0 <= list[j] < |nodes'| && nodes'[list[j]].next == At(list, j + 1) {
      var i := if j < m then j else j + 1;
      assert nodes[kids[i]].next == At(kids, i + 1);
    }
  }

  /** `vfs_link_into`: the entry gets its new parent and goes to the end of its
      list. */
  method LinkInto(fs: Vfs, parent: int, at: int)
    requires fs.Sized() && LinksRep(fs.nodes[..], fs.t) && Listing(fs.t)
    requires 0 <= parent < MAX_NODES && fs.t[parent].Dir? && InTree(fs.t, at) && at != 0 && at != parent
    requires Unlisted(fs.t, at)
    modifies fs.nodes, fs`t
    ensures fs.t == Attach(old(fs.t), parent, at)
    ensures LinksRep(fs.nodes[..], fs.t)
    ensures SameStore(old(fs.nodes[..]), fs.nodes[..])
  {
    ghost var nodes, t := fs.nodes[..], fs.t;
    assert EntryRep(nodes[at], t[at]);
    fs.SetNode(at, fs.nodes[at].(parent := parent, next := NONE));
    fs.t := t[at := t[at].(parent := parent)];
    Reheaded(nodes, t, fs.nodes[..], fs.t, at);
    AppendToList(fs, parent, at);
  }

  /** An unlisted entry got a new heading; every list is untouched. */
  lemma Reheaded(nodes: seq<Node>, t: Tree, nodes': seq<Node>, t': Tree, at: int)
    requires LinksRep(nodes, t) && Listing(t) && 0 < at < |t| && Unlisted(t, at)
    requires |nodes'| == |nodes| && |t'| == |t| && !t'[at].Free? && t'[at].Dir? == t[at].Dir?
    requires forall i :: 0 <= i < |t| && i != at ==> nodes'[i] == nodes[i] && t'[i] == t[i]
    requires EntryRep(nodes'[at], t'[at]) && nodes'[at].first == nodes[at].first
    requires t'[at].Dir? ==> t'[at].kids == t[at].kids
    ensures LinksRep(nodes', t') && Listing(t') && Unlisted(t', at)
  {
    forall i | 0 <= i < |t'| ensures EntryRep(nodes'[i], t'[i]) { assert i != at ==> EntryRep(nodes[i], t[i]); }
    forall d | 0 <= d < |t'| && t'[d].Dir?
      ensures Listed(nodes', nodes'[d].first, t'[d].kids) && KidsOk(t', d)
    {
      assert Listed(nodes, nodes[d].first, t[d].kids) && KidsOk(t, d);
      assert at !in t[d].kids;
      ListedSame(nodes, nodes', nodes[d].first, t[d].kids);
    }
  }

  // ----- making

  /** `free_node`: the lowest free slot, never the root's. */
  method FreeNode(fs: Vfs) returns (r: Int16)
    requires Walkable(fs)
    ensures r == FirstFree(fs.t, 1)
  {
    for i := 1 to MAX_NODES
      invariant FirstFree(fs.t, 1) == FirstFree(fs.t, i)
    {
      RepAt(fs, i);
      if !fs.nodes[i].used { return i; }
    }
    return NONE;
  }

  /** `vfs_usable_name`. */
  method Usable(name: Text) returns (ok: bool)
    ensures ok <==> UsableName(name)
  {
    if |name| == 0 || |name| >= NAME_MAX { return false; }
    if |name| == 1 && name[0] == DOT {
      assert name == [DOT];
      return false;
    }
    if |name| == 2 && name[0] == DOT && name[1] == DOT {
      assert name == [DOT, DOT];
      return false;
    }
    for i := 0 to |name|
      invariant SLASH !in name[..i]
    {
      if name[i] == SLASH { return false; }
      assert name[..i + 1] == name[..i] + [name[i]];
    }
    assert name[..|name|] == name;
    return true;
  }

  /** A name copied into a node's buffer, with its terminator; what stood after
      it is left. */
  method PutNodeName(raw: seq<Byte>, name: Text) returns (raw': seq<Byte>)
    requires |raw| == NAME_MAX && |name| < NAME_MAX
    ensures |raw'| == NAME_MAX && CString(raw') == name
  {
    raw' := raw;
    for i := 0 to |name|
      invariant |raw'| == NAME_MAX && forall k :: 0 <= k < i ==> raw'[k] == name[k]
    {
      raw' := raw'[i := name[i]];
    }
    raw' := raw'[|name| := 0];
    CStringIs(raw', |name|);
    assert raw'[..|name|] == name;
  }

  /** The checks of `vfs_make`, in their order. */
  method FindPlace(fs: Vfs, path: Text) returns (result: VfsResult, parent: Int16, name: Text, made: Int16)
    requires fs.Valid()
    ensures result == MakeVerdict(fs.View(), path)
    ensures result == Ok ==>
              parent == Holder(fs.t, fs.cwd, path) && name == LastName(path) && made == FirstFree(fs.t, 1)
  {
    made := NONE;
    parent, name := Walk(fs, path, true);
    if parent == NONE { return NotFound, parent, name, made; }
    RepAt(fs, parent);
    if fs.nodes[parent].kind != DirKind { return NotADirectory, parent, name, made; }
    var usable := Usable(name);
    if !usable { return BadName, parent, name, made; }
    var existing := ChildNamed(fs, parent, name);
    if existing != NONE { return Exists, parent, name, made; }
    made := FreeNode(fs);
    result := if made == NONE then NoSpace else Ok;
  }

  /** `vfs_make`: one entry made at the end of its directory, or a refusal that
      changes nothing. */
  method MakeEntry(fs: Vfs, path: Text, kind: Kind) returns (result: VfsResult, made: Int16)
    requires fs.Valid()
    modifies fs.nodes, fs`t
    ensures fs.Valid()
    ensures Outcome(result, fs.View()) == Make(old(fs.View()), path, kind)
    ensures result == Ok ==> made == FirstFree(old(fs.t), 1)
  {
    var parent, name;
    result, parent, name, made := FindPlace(fs, path);
    if result != Ok { return; }
    MakeKeeps(fs.View(), path, kind);
    Enter(fs, made, kind, name, parent);
  }

  /** The node filled and joined to its directory. */
  method Enter(fs: Vfs, made: int, kind: Kind, name: Text, parent: int)
    requires fs.Valid() && 0 < made < MAX_NODES && fs.t[made].Free?
    requires 0 <= parent < MAX_NODES && fs.t[parent].Dir? && |name| < NAME_MAX
    modifies fs.nodes, fs`t
    ensures fs.Rep() && fs.t == AddEntry(old(fs.t), parent, made, kind, name)
  {
    FillNode(fs, made, kind, name, parent);
    ListNew(fs, parent, made);
  }

  /** The new node joined to its directory. */
  method ListNew(fs: Vfs, parent: int, made: int)
    requires fs.Rep() && Listing(fs.t) && 0 <= parent < MAX_NODES && fs.t[parent].Dir?
    requires 0 <= made < MAX_NODES && Unlisted(fs.t, made) && fs.nodes[made].next == NONE
    modifies fs.nodes, fs`t
    ensures fs.Rep() && fs.t == WithKids(old(fs.t), parent, old(fs.t)[parent].kids + [made])
  {
    ghost var nodes, t := fs.nodes[..], fs.t;
    AppendToList(fs, parent, made);
    StoreKept(nodes, fs.nodes[..], fs.pool[..], fs.blockUsed[..], fs.owner, t, fs.t);
  }

  /** The new node's fields, before anything lists it. */
  method FillNode(fs: Vfs, made: int, kind: Kind, name: Text, parent: int)
    requires fs.Valid() && 0 < made < MAX_NODES && fs.t[made].Free?
    requires 0 <= parent < MAX_NODES && fs.t[parent].Dir? && |name| < NAME_MAX
    modifies fs.nodes, fs`t
    ensures fs.t == old(fs.t)[made := NewEntry(kind, name, parent)]
    ensures fs.Rep() && Listing(fs.t) && Unlisted(fs.t, made) && fs.nodes[made].next == NONE
  {
    ghost var nodes, t := fs.nodes[..], fs.t;
    var n := fs.nodes[made];
    var raw := PutNodeName(n.name, name);
    fs.SetNode(made, n.(used := true, kind := kind, name := raw, parent := parent, first := NONE,
                        length := 0, blocks := NoBlocks(), next := NONE));
    fs.t := t[made := NewEntry(kind, name, parent)];
    NewNodeKeeps(nodes, t, fs.nodes[..], fs.t, made, kind);
    NewNodeStore(nodes, t, fs.nodes[..], fs.t, fs.pool[..], fs.blockUsed[..], fs.owner, made);
  }

  lemma NewNodeKeeps(nodes: seq<Node>, t: Tree, nodes': seq<Node>, t': Tree, made: int, kind: Kind)
    requires LinksRep(nodes, t) && TreeOk(t) && 0 < made < |t| && t[made].Free?
    requires |nodes'| == |nodes| && |t'| == |t|
    requires forall i :: 0 <= i < |t| && i != made ==> nodes'[i] == nodes[i] && t'[i] == t[i]
    requires EntryRep(nodes'[made], t'[made]) && !t'[made].Free? && nodes'[made].first == NONE
    requires t'[made].Dir? ==> t'[made].kids == []
    ensures LinksRep(nodes', t') && Listing(t') && Unlisted(t', made)
  {
    forall i | 0 <= i < |t'| ensures EntryRep(nodes'[i], t'[i]) { assert i != made ==> EntryRep(nodes[i], t[i]); }
    forall d | 0 <= d < |t'| && t'[d].Dir?
      ensures Listed(nodes', nodes'[d].first, t'[d].kids) && KidsOk(t', d) && made !in t'[d].kids
    {
      if d != made {
        assert Listed(nodes, nodes[d].first, t[d].kids) && KidsOk(t, d);
        assert made !in t[d].kids;
        ListedSame(nodes, nodes', nodes[d].first, t[d].kids);
      }
    }
  }

  lemma NewNodeStore(nodes: seq<Node>, t: Tree, nodes': seq<Node>, t': Tree,
                     pool: seq<Byte>, used: seq<bool>, owner: Owner, made: int)
    requires Owned(nodes, used, owner, HeldBy(t)) && ContentRep(nodes, pool, t)
    requires 0 <= made < |t| && t[made].Free? && |nodes'| == |nodes| && |t'| == |t|
    requires forall i :: 0 <= i < |t| && i != made ==> nodes'[i] == nodes[i] && t'[i] == t[i]
    requires nodes'[made].blocks == NoBlocks() && nodes'[made].length == 0
    requires t'[made].File? ==> t'[made].data == []
    ensures Owned(nodes', used, owner, HeldBy(t')) && ContentRep(nodes', pool, t')
  {
    var held := HeldBy(t);
    assert HeldBy(t') == held;
    forall i, k ensures SlotOk(nodes', owner, held, i, k) { assert SlotOk(nodes, owner, held, i, k); }
    forall b | b in owner ensures ClaimOk(nodes', held, b, owner[b]) { assert ClaimOk(nodes, held, b, owner[b]); }
    forall i | 0 <= i < |t'| && t'[i].File? ensures Content(nodes'[i], pool, t'[i].data) {
      if i != made { assert Content(nodes[i], pool, t[i].data); }
    }
  }

  /** `vfs_chdir`. */
  method ChangeDir(fs: Vfs, path: Text) returns (result: VfsResult)
    requires fs.Valid()
    modifies fs`cwd
    ensures fs.Valid()
    ensures Outcome(result, fs.View()) == Chdir(old(fs.View()), path)
  {
    var at, _ := Walk(fs, path, false);
    if at == NONE { return NotFound; }
    RepAt(fs, at);
    if fs.nodes[at].kind != DirKind { return NotADirectory; }
    fs.cwd := at;
    return Ok;
  }
}
