// The checker that decides whether a table off a disk may become the
// filesystem: sound and complete for the trees (kernel/src/vfsdisk_check.c).
module VfsSound {
  import opened Common
  import opened Counting
  import opened VfsTypes
  import opened VfsTree
  import opened VfsReroot
  import opened VfsSpec
  import opened VfsTable
  import opened VfsBlock
  import opened VfsLink

  // ----- one node's own fields

  ghost predicate LinkSane(nodes: seq<Node>, at: int) {
    at == NONE || (0 <= at < |nodes| && nodes[at].used)
  }

  /** A name a disk may hold. Plain `char` is signed on this machine, so a byte
      from 128 up compares below a space and is refused too. */
  ghost predicate DiskName(raw: seq<Byte>) {
    var name := CString(raw);
    0 < |name| < |raw| && Printable(name)
  }

  predicate Printable(name: Text) { forall k :: 0 <= k < |name| ==> 32 <= name[k] < 128 && name[k] != SLASH }

  ghost predicate ParentSane(nodes: seq<Node>, n: Node) {
    0 <= n.parent < |nodes| && nodes[n.parent].used && nodes[n.parent].kind == DirKind
  }

  ghost predicate RoomSane(n: Node, used: seq<bool>)
    requires |used| == MAX_BLOCKS
  {
    && n.length <= FILE_MAX
    && (n.kind == DirKind ==> n.length == 0)
    && CountHeld(n.blocks) == BlocksFor(n.length)
    && forall k :: 0 <= k < DIRECT_BLOCKS && n.blocks[k] != NONE ==> 0 <= n.blocks[k] < MAX_BLOCKS && used[n.blocks[k]]
  }

  ghost predicate FieldsSane(nodes: seq<Node>, used: seq<bool>, at: int)
    requires |used| == MAX_BLOCKS && 0 <= at < |nodes|
  {
    var n := nodes[at];
    && LinkSane(nodes, n.first) && LinkSane(nodes, n.next)
    && ParentSane(nodes, n)
    && RoomSane(n, used)
    && (n.kind == FileKind ==> n.first == NONE)
    && (if at == 0 then n.name[0] == 0 else DiskName(n.name))
  }

  /** `name_ok`. */
  method NameOk(raw: seq<Byte>) returns (ok: bool)
    requires |raw| == NAME_MAX
    ensures ok <==> DiskName(raw)
  {
    for i := 0 to NAME_MAX
      invariant i <= |CString(raw)| && Printable(CString(raw)[..i])
    {
      if raw[i] == 0 {
        assert |CString(raw)| == i && CString(raw)[..i] == CString(raw);
        return i > 0;
      }
      if raw[i] == SLASH || raw[i] < 32 || raw[i] >= 128 {
        NotEnded(raw, i);
        return false;
      }
      NotEnded(raw, i);
    }
    return false;
  }

  lemma {:induction false} NotEnded(raw: seq<Byte>, i: nat)
    requires i < |raw| && i <= |CString(raw)| && raw[i] != 0
    ensures i < |CString(raw)|
  {
    var n := |CString(raw)|;
    assert n < |raw| ==> raw[n] == 0;
  }

  method LinkOk(fs: Vfs, at: Int16) returns (ok: bool)
    requires fs.Sized()
    ensures ok <==> LinkSane(fs.nodes[..], at)
  {
    ok := at == NONE || (0 <= at && at < MAX_NODES && fs.nodes[at].used);
  }

  /** `fields_ok`. */
  method FieldsOk(fs: Vfs, at: int) returns (ok: bool)
    requires fs.Sized() && 0 <= at < MAX_NODES
    ensures ok <==> FieldsSane(fs.nodes[..], fs.blockUsed[..], at)
  {
    var node := fs.nodes[at];
    var first := LinkOk(fs, node.first);
    var next := LinkOk(fs, node.next);
    if !first || !next { return false; }
    if node.parent < 0 || node.parent >= MAX_NODES || !fs.nodes[node.parent].used ||
       fs.nodes[node.parent].kind != DirKind {
      return false;
    }
    if node.length > FILE_MAX { return false; }
    if node.kind == DirKind && node.length != 0 { return false; }
    var held := Held(node);
    if held != BlocksFor(node.length) { return false; }
    for i := 0 to DIRECT_BLOCKS
      invariant forall k :: 0 <= k < i && node.blocks[k] != NONE ==>
                  0 <= node.blocks[k] < MAX_BLOCKS && fs.blockUsed[node.blocks[k]]
    {
      var block := node.blocks[i];
      if block == NONE { continue; }
      if block < 0 || block >= MAX_BLOCKS || !fs.blockUsed[block] { return false; }
    }
    if node.kind == FileKind && node.first != NONE { return false; }
    if at == 0 { return node.name[0] == 0; }
    ok := NameOk(node.name);
  }

  // ----- climbing in a table nobody has vouched for

  /** What the machine reads as the parent of slot `at`. Past either end of the
      table that is whatever lies there, which `beyond` stands for. */
  function ParentRead(nodes: seq<Node>, at: Int16, beyond: Int16 -> Int16): Int16 {
    if 0 <= at < |nodes| then nodes[at].parent else beyond(at)
  }

  ghost predicate Reaches(nodes: seq<Node>, at: int, n: nat)
    decreases n
  {
    0 <= at < |nodes| && (at == 0 || (n > 0 && Reaches(nodes, nodes[at].parent, n - 1)))
  }

  /** Within `n` steps the chain of parents names a slot that is not in the
      table, before it meets the root. */
  ghost predicate Strays(nodes: seq<Node>, at: int, n: nat)
    decreases n
  {
    at != 0 && (!(0 <= at < |nodes|) || (n > 0 && Strays(nodes, nodes[at].parent, n - 1)))
  }

  /** The climb the check makes: as many steps as the table has slots. */
  ghost predicate GetsHome(nodes: seq<Node>, at: int) { Reaches(nodes, at, |nodes|) }

  ghost predicate Leaves(nodes: seq<Node>, at: int) { Strays(nodes, at, |nodes|) }

  /** `climbs_to_the_root`. `strayed` reports a read outside the table, which
      happens exactly when the chain of parents leaves it. */
  method ClimbsToTheRoot(fs: Vfs, from: Int16, beyond: Int16 -> Int16) returns (ok: bool, strayed: bool)
    requires fs.Sized()
    ensures strayed <==> Leaves(fs.nodes[..], from)
    ensures !strayed ==> (ok <==> GetsHome(fs.nodes[..], from))
  {
    ghost var nodes := fs.nodes[..];
    var at: Int16 := from;
    strayed := false;
    var steps := 0;
    while steps <= MAX_NODES
      invariant 0 <= steps <= MAX_NODES + 1
      invariant !strayed && steps <= MAX_NODES ==>
                  && (Strays(nodes, at, MAX_NODES - steps) <==> Strays(nodes, from, MAX_NODES))
                  && (Reaches(nodes, at, MAX_NODES - steps) <==> Reaches(nodes, from, MAX_NODES))
      invariant strayed ==> Strays(nodes, from, MAX_NODES)
      invariant !strayed && steps > MAX_NODES ==> !Strays(nodes, from, MAX_NODES) && !Reaches(nodes, from, MAX_NODES)
    {
      if at == 0 { return true, strayed; }
      if at < 0 || at >= MAX_NODES { strayed := true; }
      at := if 0 <= at && at < MAX_NODES then fs.nodes[at].parent else beyond(at);
      steps := steps + 1;
    }
    return false, strayed;
  }

  /** When every used node's parent is a used node of the table, no climb from
      a used node reads outside it. */
  lemma {:induction false} ParentsKeepInside(nodes: seq<Node>, at: int, n: nat)
    requires forall i :: 0 <= i < |nodes| && nodes[i].used ==> ParentSane(nodes, nodes[i])
    requires 0 <= at < |nodes| && nodes[at].used
    ensures !Strays(nodes, at, n)
    decreases n
  {
    if at != 0 && n > 0 { ParentsKeepInside(nodes, nodes[at].parent, n - 1); }
  }

  ghost predicate IsDir(nodes: seq<Node>, d: int) { 0 <= d < |nodes| && nodes[d].used && nodes[d].kind == DirKind }

  ghost predicate RootSane(nodes: seq<Node>) {
    |nodes| > 0 && IsDir(nodes, 0) && nodes[0].parent == 0 && nodes[0].next == NONE
  }

  /** The check climbs from node `at` and leaves the table: every node in use up to it has
      sane fields, every one before it reached the root, and its own ancestors, which may
      come later and have not been looked at, lead out. */
  ghost predicate StraysAt(nodes: seq<Node>, used: seq<bool>, at: int)
    requires |used| == MAX_BLOCKS
  {
    && 0 <= at < |nodes| && nodes[at].used && Leaves(nodes, at)
    && (forall i {:trigger FieldsSane(nodes, used, i)} :: 0 <= i <= at && nodes[i].used ==> FieldsSane(nodes, used, i))
    && (forall i {:trigger GetsHome(nodes, i)} :: 0 <= i < at && nodes[i].used ==> GetsHome(nodes, i))
  }

  /** The check reads outside the table. */
  ghost predicate CheckStrays(nodes: seq<Node>, used: seq<bool>)
    requires |used| == MAX_BLOCKS
  {
    RootSane(nodes) && exists at :: StraysAt(nodes, used, at)
  }

  /** A chain of parents does not both reach the root and leave the table. */
  lemma {:induction false} ReachesInside(nodes: seq<Node>, at: int, n: nat)
    requires Reaches(nodes, at, n)
    ensures !Strays(nodes, at, n)
    decreases n
  {
    if at != 0 { ReachesInside(nodes, nodes[at].parent, n - 1); }
  }

  // ----- the sibling lists

  function Or(list: seq<int>, j: nat, next: int): int { if j < |list| then list[j] else next }

  /** The links from directory `d` read `list` and then lead to `next`. */
  ghost predicate ListedTo(nodes: seq<Node>, d: int, list: seq<int>, next: int)
    requires 0 <= d < |nodes|
  {
    && nodes[d].first == Or(list, 0, next)
    && (forall j {:trigger list[j]} :: 0 <= j < |list| ==> 0 <= list[j] < |nodes|)
    && (forall j {:trigger nodes[list[j]].next} :: 0 <= j < |list| ==> nodes[list[j]].next == Or(list, j + 1, next))
  }

  /** `c` was listed, under the directory it names as its parent. */
  ghost predicate ListedChild(nodes: seq<Node>, kids: seq<seq<int>>, c: int)
    requires |kids| == |nodes|
  {
    0 <= c < |nodes| && nodes[c].used && IsDir(nodes, nodes[c].parent) && c in kids[nodes[c].parent]
  }

  /** The list of `d` so far: its own children, each once and each marked. */
  ghost predicate KidsSane(nodes: seq<Node>, kids: seq<seq<int>>, listed: seq<bool>, d: int)
    requires |kids| == |nodes| == |listed| && 0 <= d < |nodes|
  {
    && NoDup(kids[d])
    && (kids[d] != [] ==> IsDir(nodes, d))
    && forall c :: c in kids[d] ==> 0 <= c < |nodes| && nodes[c].used && nodes[c].parent == d && listed[c]
  }

  /** Directories below `dir` have been read to the end, those above not at all. */
  ghost predicate DirRead(nodes: seq<Node>, kids: seq<seq<int>>, d: int, dir: int)
    requires |kids| == |nodes| && 0 <= d < |nodes|
  {
    && (dir < d ==> kids[d] == [])
    && (d < dir && IsDir(nodes, d) ==> ListedTo(nodes, d, kids[d], NONE))
  }

  /** What has been listed, directory by directory, when those below `dir` are
      done and `dir` itself is under way. */
  ghost predicate ListedSoFar(nodes: seq<Node>, kids: seq<seq<int>>, listed: seq<bool>, dir: int) {
    && |kids| == |nodes| == |listed|
    && (forall c {:trigger ListedChild(nodes, kids, c)} :: 0 <= c < |nodes| && listed[c] ==> ListedChild(nodes, kids, c))
    && (forall d {:trigger KidsSane(nodes, kids, listed, d)} :: 0 <= d < |nodes| ==> KidsSane(nodes, kids, listed, d))
    && (forall d {:trigger DirRead(nodes, kids, d, dir)} :: 0 <= d < |nodes| ==> DirRead(nodes, kids, d, dir))
  }

  lemma NothingListed(nodes: seq<Node>, kids: seq<seq<int>>, listed: seq<bool>)
    requires |listed| == |nodes| == |kids|
    requires forall c :: 0 <= c < |nodes| ==> !listed[c] && kids[c] == []
    ensures ListedSoFar(nodes, kids, listed, 0)
  {
  }

  lemma NextDir(nodes: seq<Node>, kids: seq<seq<int>>, listed: seq<bool>, dir: int)
    requires ListedSoFar(nodes, kids, listed, dir) && 0 <= dir < |nodes|
    requires IsDir(nodes, dir) ==> ListedTo(nodes, dir, kids[dir], NONE)
    ensures ListedSoFar(nodes, kids, listed, dir + 1)
    ensures dir + 1 < |nodes| ==> kids[dir + 1] == []
  {
    var next := dir + 1;
    forall d | 0 <= d < |nodes| ensures DirRead(nodes, kids, d, next) { assert DirRead(nodes, kids, d, dir); }
    if dir + 1 < |nodes| { assert DirRead(nodes, kids, dir + 1, dir); }
  }

  ghost predicate AllSane(nodes: seq<Node>, used: seq<bool>) {
    |used| == MAX_BLOCKS &&
    forall i {:trigger FieldsSane(nodes, used, i)} :: 0 <= i < |nodes| && nodes[i].used ==> FieldsSane(nodes, used, i)
  }

  /** The links of `nodes` spell out some tree. */
  ghost predicate SpellsTree(nodes: seq<Node>, t: Tree) { LinksRep(nodes, t) && TreeOk(t) }

  /** The list read so far is a prefix of the directory's list in any tree the
      table spells, and what comes next is the child after it. */
  lemma ReadsPrefix(nodes: seq<Node>, t: Tree, d: int, list: seq<int>, next: int)
    requires SpellsTree(nodes, t) && IsDir(nodes, d) && ListedTo(nodes, d, list, next)
    ensures t[d].Dir? && list <= t[d].kids && next == At(t[d].kids, |list|)
  {
    assert EntryRep(nodes[d], t[d]);
    assert Listed(nodes, nodes[d].first, t[d].kids);
    SamePrefix(nodes, d, list, next, t[d].kids);
  }

  lemma {:induction false} SamePrefix(nodes: seq<Node>, d: int, list: seq<int>, next: int, kids: seq<int>)
    requires 0 <= d < |nodes| && ListedTo(nodes, d, list, next) && Listed(nodes, nodes[d].first, kids)
    ensures list <= kids && next == At(kids, |list|)
  {
    if list != [] {
      var last := |list| - 1;
      FrontListed(nodes, d, list, next);
      SamePrefix(nodes, d, list[..last], list[last], kids);
      assert nodes[kids[last]].next == At(kids, last + 1);
      assert list == list[..last] + [list[last]];
    }
  }

  lemma FrontListed(nodes: seq<Node>, d: int, list: seq<int>, next: int)
    requires 0 <= d < |nodes| && list != [] && ListedTo(nodes, d, list, next)
    ensures ListedTo(nodes, d, list[..|list| - 1], list[|list| - 1])
    ensures 0 <= list[|list| - 1] < |nodes| && nodes[list[|list| - 1]].next == next
  {
    var last := |list| - 1;
    assert nodes[list[last]].next == Or(list, last + 1, next);
    forall j | 0 <= j < last ensures nodes[list[j]].next == Or(list[..last], j + 1, list[last]) {
      assert nodes[list[j]].next == Or(list, j + 1, next);
    }
  }

  /** In a tree the next child names its directory as its parent, and is met for the first
      time. */
  lemma NextChild(nodes: seq<Node>, t: Tree, kids: seq<seq<int>>, listed: seq<bool>, dir: int, child: int)
    requires SpellsTree(nodes, t) && IsDir(nodes, dir) && ListedSoFar(nodes, kids, listed, dir)
    requires ListedTo(nodes, dir, kids[dir], child) && 0 <= child < |nodes|
    ensures nodes[child].parent == dir && !listed[child]
  {
    ReadsPrefix(nodes, t, dir, kids[dir], child);
    var list := t[dir].kids;
    assert list[|kids[dir]|] == child;
    assert KidsOk(t, dir);
    assert EntryRep(nodes[child], t[child]);
    forall k | 0 <= k < |kids[dir]| ensures kids[dir][k] != child { assert list[k] == kids[dir][k]; }
    assert !ListedChild(nodes, kids, child);
  }

  lemma ListTooLong(nodes: seq<Node>, list: seq<int>)
    requires NoDup(list) && forall c :: c in list ==> 0 <= c < |nodes|
    ensures |list| <= |nodes|
  {
    DistinctSize(list);
    var s := set x | x in list;
    SubsetSize(s, Below(|nodes|));
  }

  /** The list of one directory. */
  method ListChildren(fs: Vfs, dir: int, listed: array<bool>, ghost kids: seq<seq<int>>)
    returns (ok: bool, ghost kids': seq<seq<int>>)
    requires fs.Sized() && 0 <= dir < MAX_NODES && listed.Length == MAX_NODES && listed != fs.blockUsed
    requires AllSane(fs.nodes[..], fs.blockUsed[..]) && IsDir(fs.nodes[..], dir)
    requires ListedSoFar(fs.nodes[..], kids, listed[..], dir) && kids[dir] == []
    modifies listed
    ensures !ok ==> forall t :: !SpellsTree(fs.nodes[..], t)
    ensures ok ==> ListedSoFar(fs.nodes[..], kids', listed[..], dir + 1)
    ensures ok && dir + 1 < MAX_NODES ==> kids'[dir + 1] == []
  {
    ghost var nodes, used := fs.nodes[..], fs.blockUsed[..];
    kids' := kids;
    var child := fs.nodes[dir].first;
    var steps := 0;
    assert FieldsSane(nodes, used, dir);
    while child != NONE
      invariant ListedSoFar(nodes, kids', listed[..], dir)
      invariant ListedTo(nodes, dir, kids'[dir], child)
      invariant child == NONE || (0 <= child < MAX_NODES && nodes[child].used)
      invariant steps == |kids'[dir]| <= MAX_NODES
      decreases MAX_NODES + 1 - steps
    {
      if steps > MAX_NODES { assert false; }
      if fs.nodes[child].parent != dir || listed[child] {
        forall t ensures !SpellsTree(nodes, t) {
          if SpellsTree(nodes, t) { NextChild(nodes, t, kids', listed[..], dir, child); }
        }
        return false, kids';
      }
      ghost var before := listed[..];
      listed[child] := true;
      ListOne(nodes, kids', before, dir, child);
      kids' := kids'[dir := kids'[dir] + [child]];
      assert KidsSane(nodes, kids', listed[..], dir);
      ListTooLong(nodes, kids'[dir]);
      assert FieldsSane(nodes, used, child);
      child := fs.nodes[child].next;
      steps := steps + 1;
    }
    NextDir(nodes, kids', listed[..], dir);
    ok := true;
  }

  lemma ListOne(nodes: seq<Node>, kids: seq<seq<int>>, listed: seq<bool>, dir: int, child: int)
    requires ListedSoFar(nodes, kids, listed, dir) && IsDir(nodes, dir) && ListedTo(nodes, dir, kids[dir], child)
    requires 0 <= child < |nodes| && nodes[child].used && nodes[child].parent == dir && !listed[child]
    ensures var kids' := kids[dir := kids[dir] + [child]];
            && ListedSoFar(nodes, kids', listed[child := true], dir)
            && ListedTo(nodes, dir, kids'[dir], nodes[child].next)
  {
    var kids', listed' := kids[dir := kids[dir] + [child]], listed[child := true];
    assert KidsSane(nodes, kids, listed, dir);
    var list := kids[dir];
    forall j | 0 <= j < |list + [child]|
      ensures 0 <= (list + [child])[j] < |nodes|
      ensures nodes[(list + [child])[j]].next == Or(list + [child], j + 1, nodes[child].next)
    {
      if j < |list| { assert nodes[list[j]].next == Or(list, j + 1, child); }
    }
    forall c | 0 <= c < |nodes| && listed'[c] ensures ListedChild(nodes, kids', c) {
      assert c != child ==> ListedChild(nodes, kids, c);
    }
    forall d | 0 <= d < |nodes| ensures KidsSane(nodes, kids', listed', d) && DirRead(nodes, kids', d, dir) {
      assert KidsSane(nodes, kids, listed, d) && DirRead(nodes, kids, d, dir);
    }
  }

  /** `children_agree_with_parents`. */
  method ChildrenAgree(fs: Vfs) returns (ok: bool, ghost kids: seq<seq<int>>)
    requires fs.Sized() && AllSane(fs.nodes[..], fs.blockUsed[..]) && IsDir(fs.nodes[..], 0)
    requires fs.nodes[0].parent == 0
    ensures ok ==> ListsAgree(fs.nodes[..], kids)
    ensures !ok ==> forall t :: !SpellsTree(fs.nodes[..], t)
  {
    ghost var nodes, used := fs.nodes[..], fs.blockUsed[..];
    var listed := new bool[MAX_NODES](_ => false);
    kids := seq(|nodes|, _ => []);
    NothingListed(nodes, kids, listed[..]);
    for dir := 0 to MAX_NODES
      invariant ListedSoFar(nodes, kids, listed[..], dir)
      invariant dir < MAX_NODES ==> kids[dir] == []
      invariant fs.nodes[..] == nodes && fs.blockUsed[..] == used
    {
      if !fs.nodes[dir].used || fs.nodes[dir].kind != DirKind {
        NextDir(nodes, kids, listed[..], dir);
        continue;
      }
      ok, kids := ListChildren(fs, dir, listed, kids);
      if !ok { return; }
    }
    for at := 1 to MAX_NODES
      invariant forall i :: 1 <= i < at && nodes[i].used ==> listed[i]
    {
      if fs.nodes[at].used && !listed[at] {
        forall t ensures !SpellsTree(nodes, t) {
          if SpellsTree(nodes, t) { ChildListed(nodes, t, kids, listed[..], at); }
        }
        return false, kids;
      }
    }
    ok := !listed[0];
    if listed[0] {
      forall t ensures !SpellsTree(nodes, t) {
        if SpellsTree(nodes, t) { RootNotListed(nodes, t, kids, listed[..]); }
      }
    } else {
      AllListed(nodes, kids, listed[..]);
    }
  }

  lemma AllListed(nodes: seq<Node>, kids: seq<seq<int>>, listed: seq<bool>)
    requires |nodes| == MAX_NODES && ListedSoFar(nodes, kids, listed, MAX_NODES) && !listed[0]
    requires forall i :: 1 <= i < |nodes| && nodes[i].used ==> listed[i]
    ensures ListsAgree(nodes, kids)
  {
    forall d | 0 <= d < |nodes|
      ensures IsDir(nodes, d) ==> Listed(nodes, nodes[d].first, kids[d])
      ensures KidsSane(nodes, kids, listed, d)
    {
      assert KidsSane(nodes, kids, listed, d) && DirRead(nodes, kids, d, MAX_NODES);
      if IsDir(nodes, d) { ListedToEnd(nodes, d, kids[d]); }
    }
  }

  lemma ListedToEnd(nodes: seq<Node>, d: int, list: seq<int>)
    requires 0 <= d < |nodes| && ListedTo(nodes, d, list, NONE)
    ensures Listed(nodes, nodes[d].first, list)
  {
    forall j | 0 <= j < |list| ensures 0 <= list[j] < |nodes| && nodes[list[j]].next == At(list, j + 1) {
      assert nodes[list[j]].next == Or(list, j + 1, NONE);
    }
  }

  /** Every directory's links spell out a list of its own children without
      repeats, and every used node but the root is in one. */
  ghost predicate ListsAgree(nodes: seq<Node>, kids: seq<seq<int>>) {
    && |kids| == |nodes|
    && (forall d :: IsDir(nodes, d) ==> Listed(nodes, nodes[d].first, kids[d]))
    && (forall d :: 0 <= d < |nodes| ==> NoDup(kids[d]))
    && (forall d, c :: 0 <= d < |nodes| && c in kids[d] ==> 0 < c < |nodes| && nodes[c].used && nodes[c].parent == d)
    && (forall c {:trigger ListedChild(nodes, kids, c)} :: 0 < c < |nodes| && nodes[c].used ==> ListedChild(nodes, kids, c))
  }

  /** In a tree every node but the root has been listed once all directories are read. */
  lemma ChildListed(nodes: seq<Node>, t: Tree, kids: seq<seq<int>>, listed: seq<bool>, at: int)
    requires SpellsTree(nodes, t) && ListedSoFar(nodes, kids, listed, MAX_NODES)
    requires 0 < at < |nodes| && nodes[at].used
    ensures listed[at]
  {
    assert EntryRep(nodes[at], t[at]);
    assert ParentOk(t, at);
    var p := t[at].parent;
    assert EntryRep(nodes[p], t[p]);
    assert DirRead(nodes, kids, p, MAX_NODES) && KidsSane(nodes, kids, listed, p);
    ReadsPrefix(nodes, t, p, kids[p], NONE);
    assert KidsOk(t, p);
    forall k | 0 <= k < |t[p].kids| ensures t[p].kids[k] != NONE { assert t[p].kids[k] in t[p].kids; }
    assert kids[p] == t[p].kids;
  }

  /** And the root has not. */
  lemma RootNotListed(nodes: seq<Node>, t: Tree, kids: seq<seq<int>>, listed: seq<bool>)
    requires SpellsTree(nodes, t) && ListedSoFar(nodes, kids, listed, MAX_NODES)
    ensures !listed[0]
  {
    var p := nodes[0].parent;
    if IsDir(nodes, p) {
      assert DirRead(nodes, kids, p, MAX_NODES);
      ReadsPrefix(nodes, t, p, kids[p], NONE);
      assert KidsOk(t, p);
      forall k | 0 <= k < |kids[p]| ensures kids[p][k] != 0 { assert t[p].kids[k] in t[p].kids; }
    }
    assert !ListedChild(nodes, kids, 0);
  }

  // ----- the whole judgement

  /** The bytes a file of this length reads, through its blocks. */
  ghost function DataOf(n: Node, pool: seq<Byte>): seq<Byte> {
    if n.length > FILE_MAX then []
    else seq(n.length, k requires 0 <= k < n.length =>
               var p := Spot(n.blocks, k); if 0 <= p < |pool| then pool[p] else 0)
  }

  ghost function EntryOf(n: Node, pool: seq<Byte>, kids: seq<int>): Entry {
    if !n.used then Free
    else if n.kind == DirKind then Dir(CString(n.name), n.parent, kids)
    else File(CString(n.name), n.parent, DataOf(n, pool))
  }

  /** The tree a table with these child lists spells. */
  ghost function TreeOf(nodes: seq<Node>, pool: seq<Byte>, kids: seq<seq<int>>): Tree
    requires |kids| == |nodes|
  {
    seq(|nodes|, i requires 0 <= i < |nodes| => EntryOf(nodes[i], pool, kids[i]))
  }

  lemma {:induction false} ReachIsClimb(nodes: seq<Node>, used: seq<bool>, t: Tree, i: int, n: nat)
    requires AllSane(nodes, used) && |t| == |nodes| && Reaches(nodes, i, n) && nodes[i].used
    requires forall j :: 0 <= j < |t| && nodes[j].used ==> !t[j].Free? && t[j].parent == nodes[j].parent
    ensures Climb(t, i, n)
    decreases n
  {
    assert FieldsSane(nodes, used, i);
    if i != 0 { ReachIsClimb(nodes, used, t, nodes[i].parent, n - 1); }
  }

  lemma {:induction false} ClimbIsReach(nodes: seq<Node>, t: Tree, i: int, n: nat)
    requires LinksRep(nodes, t) && Climb(t, i, n)
    ensures Reaches(nodes, i, n)
    decreases n
  {
    assert EntryRep(nodes[i], t[i]);
    if i != 0 { ClimbIsReach(nodes, t, t[i].parent, n - 1); }
  }

  lemma BuiltTree(nodes: seq<Node>, used: seq<bool>, pool: seq<Byte>, kids: seq<seq<int>>)
    requires |nodes| == MAX_NODES && RootSane(nodes) && AllSane(nodes, used) && ListsAgree(nodes, kids)
    requires forall i :: 0 <= i < |nodes| && nodes[i].used ==> GetsHome(nodes, i)
    ensures SpellsTree(nodes, TreeOf(nodes, pool, kids))
  {
    var t := TreeOf(nodes, pool, kids);
    assert FieldsSane(nodes, used, 0);
    forall i | 0 <= i < |nodes| ensures EntryRep(nodes[i], t[i]) {
      assert nodes[i].used ==> FieldsSane(nodes, used, i);
    }
    forall d | 0 <= d < |t| && t[d].Dir? ensures Listed(nodes, nodes[d].first, t[d].kids) && KidsOk(t, d) {
      assert IsDir(nodes, d) && NoDup(kids[d]);
    }
    forall i | InTree(t, i) ensures ParentOk(t, i) && Rooted(t, i) {
      assert FieldsSane(nodes, used, i);
      assert i != 0 ==> ListedChild(nodes, kids, i);
      ReachIsClimb(nodes, used, t, i, MAX_NODES);
    }
  }

  /** In a tree every node in use reaches the root. */
  lemma TreeReaches(nodes: seq<Node>, i: int, t: Tree)
    requires SpellsTree(nodes, t) && 0 <= i < |nodes| && nodes[i].used
    ensures GetsHome(nodes, i)
  {
    assert EntryRep(nodes[i], t[i]);
    assert Rooted(t, i);
    ClimbIsReach(nodes, t, i, |t|);
  }

  lemma TreeRoot(nodes: seq<Node>, t: Tree)
    requires SpellsTree(nodes, t)
    ensures RootSane(nodes)
  {
    assert EntryRep(nodes[0], t[0]);
  }

  /** `vfsdisk_sound`: it accepts exactly the tables whose fields are sane and
      whose links spell a tree, with the working directory a directory of it; and it reads
      outside the table exactly when a climb from a node leads out past nodes it has not
      yet looked at. */
  method DiskSound(fs: Vfs, beyond: Int16 -> Int16) returns (ok: bool, strayed: bool, ghost kids: seq<seq<int>>)
    requires fs.Sized()
    ensures ok <==>
              && AllSane(fs.nodes[..], fs.blockUsed[..])
              && (exists t :: SpellsTree(fs.nodes[..], t))
              && IsDir(fs.nodes[..], fs.cwd)
    ensures ok ==> |kids| == MAX_NODES && SpellsTree(fs.nodes[..], TreeOf(fs.nodes[..], fs.pool[..], kids))
    ensures strayed <==> CheckStrays(fs.nodes[..], fs.blockUsed[..])
  {
    ghost var nodes, used := fs.nodes[..], fs.blockUsed[..];
    kids := [];
    strayed := false;
    if !fs.nodes[0].used || fs.nodes[0].kind != DirKind || fs.nodes[0].parent != 0 || fs.nodes[0].next != NONE {
      assert !RootSane(nodes);
      forall t ensures !SpellsTree(nodes, t) { if SpellsTree(nodes, t) { TreeRoot(nodes, t); } }
      return false, strayed, kids;
    }
    var climbed;
    climbed, strayed := CheckNodes(fs, beyond);
    if !climbed { return false, strayed, kids; }
    assert AllSane(nodes, used);
    forall i | 0 <= i < |nodes| && nodes[i].used ensures GetsHome(nodes, i) {
      assert FieldsSane(nodes, used, i);
      SaneStays(nodes, used, i);
    }
    var agree;
    agree, kids := ChildrenAgree(fs);
    if !agree { return false, strayed, kids; }
    BuiltTree(nodes, used, fs.pool[..], kids);
    ok := 0 <= fs.cwd && fs.cwd < MAX_NODES && fs.nodes[fs.cwd].used && fs.nodes[fs.cwd].kind == DirKind;
  }

  /** Below `at` every node in use has sane fields and a climb that ended, one way or the
      other; `strayed` says whether one of them left the table. */
  ghost predicate CheckedTo(nodes: seq<Node>, used: seq<bool>, at: int, strayed: bool)
    requires |used| == MAX_BLOCKS
  {
    && LookedAt(nodes, used, at)
    && (strayed ==> StrayedBelow(nodes, used, at))
    && (!strayed ==> NoneStrayed(nodes, used, at))
  }

  ghost predicate LookedAt(nodes: seq<Node>, used: seq<bool>, at: int)
    requires |used| == MAX_BLOCKS
  {
    forall i {:trigger FieldsSane(nodes, used, i)} :: 0 <= i < at && i < |nodes| && nodes[i].used ==>
      FieldsSane(nodes, used, i) && (Leaves(nodes, i) || GetsHome(nodes, i))
  }

  lemma LookedNext(nodes: seq<Node>, used: seq<bool>, at: int)
    requires |used| == MAX_BLOCKS && LookedAt(nodes, used, at) && 0 <= at < |nodes| && nodes[at].used
    requires FieldsSane(nodes, used, at) && (Leaves(nodes, at) || GetsHome(nodes, at))
    ensures LookedAt(nodes, used, at + 1)
  {
    forall i | 0 <= i < at + 1 && i < |nodes| && nodes[i].used
      ensures FieldsSane(nodes, used, i) && (Leaves(nodes, i) || GetsHome(nodes, i))
    {
      if i < at { assert FieldsSane(nodes, used, i); }
    }
  }

  ghost predicate StrayedBelow(nodes: seq<Node>, used: seq<bool>, at: int)
    requires |used| == MAX_BLOCKS
  {
    exists i {:trigger StraysAt(nodes, used, i)} :: i < at && StraysAt(nodes, used, i)
  }

  ghost predicate NoneStrayed(nodes: seq<Node>, used: seq<bool>, at: int)
    requires |used| == MAX_BLOCKS
  {
    (forall i {:trigger StraysAt(nodes, used, i)} :: i < at ==> !StraysAt(nodes, used, i)) &&
    forall i {:trigger GetsHome(nodes, i)} :: 0 <= i < at && i < |nodes| && nodes[i].used ==> GetsHome(nodes, i)
  }

  lemma NextUnused(nodes: seq<Node>, used: seq<bool>, at: int, strayed: bool)
    requires |used| == MAX_BLOCKS && CheckedTo(nodes, used, at, strayed) && 0 <= at < |nodes| && !nodes[at].used
    ensures CheckedTo(nodes, used, at + 1, strayed)
  {
    assert !StraysAt(nodes, used, at);
  }

  lemma NextClimbed(nodes: seq<Node>, used: seq<bool>, at: int, strayed: bool, left: bool)
    requires |used| == MAX_BLOCKS && CheckedTo(nodes, used, at, strayed) && 0 <= at < |nodes| && nodes[at].used
    requires FieldsSane(nodes, used, at) && (left <==> Leaves(nodes, at))
    requires left || GetsHome(nodes, at)
    ensures CheckedTo(nodes, used, at + 1, strayed || left)
  {
    LookedNext(nodes, used, at);
    if strayed {
      assert StrayedBelow(nodes, used, at + 1);
    } else {
      StrayHere(nodes, used, at, left);
      if left { assert StrayedBelow(nodes, used, at + 1); } else { assert NoneStrayed(nodes, used, at + 1); }
    }
  }

  /** While nothing has strayed, the check strays at a node exactly when its climb does. */
  lemma StrayHere(nodes: seq<Node>, used: seq<bool>, at: int, left: bool)
    requires |used| == MAX_BLOCKS && CheckedTo(nodes, used, at, false) && 0 <= at < |nodes| && nodes[at].used
    requires FieldsSane(nodes, used, at) && (left <==> Leaves(nodes, at))
    ensures left <==> StraysAt(nodes, used, at)
  {
  }

  lemma StopsThere(nodes: seq<Node>, used: seq<bool>, at: int, i: int)
    requires |used| == MAX_BLOCKS && 0 <= at <= i && at < |nodes| && nodes[at].used
    requires FieldsSane(nodes, used, at) ==> !Leaves(nodes, at) && !GetsHome(nodes, at)
    ensures !StraysAt(nodes, used, i)
  {
    var sane, home := FieldsSane(nodes, used, at), GetsHome(nodes, at);
  }

  /** Where the check stops, what it has seen is all there is. */
  lemma StoppedAt(nodes: seq<Node>, used: seq<bool>, at: int, strayed: bool, left: bool)
    requires |used| == MAX_BLOCKS && CheckedTo(nodes, used, at, strayed) && 0 <= at < |nodes| && nodes[at].used
    requires FieldsSane(nodes, used, at) ==> (left <==> Leaves(nodes, at)) && (left || !GetsHome(nodes, at))
    requires !FieldsSane(nodes, used, at) ==> !left
    ensures strayed || left <==> exists i {:trigger StraysAt(nodes, used, i)} :: StraysAt(nodes, used, i)
  {
    if strayed {
      assert StrayedBelow(nodes, used, at);
    } else if FieldsSane(nodes, used, at) {
      StrayHere(nodes, used, at, left);
    }
    if !strayed && !left {
      assert NoneStrayed(nodes, used, at);
      forall i | i >= at ensures !StraysAt(nodes, used, i) { StopsThere(nodes, used, at, i); }
    }
  }

  lemma AllChecked(nodes: seq<Node>, used: seq<bool>, strayed: bool)
    requires |used| == MAX_BLOCKS && CheckedTo(nodes, used, |nodes|, strayed)
    ensures strayed <==> exists i {:trigger StraysAt(nodes, used, i)} :: StraysAt(nodes, used, i)
  {
    if !strayed { assert NoneStrayed(nodes, used, |nodes|); }
  }

  /** The fields and the climb of every node in use, in turn, up to the first that
      fails. */
  method CheckNodes(fs: Vfs, beyond: Int16 -> Int16) returns (ok: bool, strayed: bool)
    requires fs.Sized() && RootSane(fs.nodes[..])
    ensures ok ==> CheckedTo(fs.nodes[..], fs.blockUsed[..], MAX_NODES, strayed)
    ensures !ok ==> !AllSane(fs.nodes[..], fs.blockUsed[..]) || forall t :: !SpellsTree(fs.nodes[..], t)
    ensures strayed <==> CheckStrays(fs.nodes[..], fs.blockUsed[..])
  {
    ghost var nodes, used := fs.nodes[..], fs.blockUsed[..];
    strayed := false;
    for at := 0 to MAX_NODES
      invariant CheckedTo(nodes, used, at, strayed)
    {
      if !fs.nodes[at].used {
        NextUnused(nodes, used, at, strayed);
        continue;
      }
      var fields := FieldsOk(fs, at);
      if !fields {
        StoppedAt(nodes, used, at, strayed, false);
        return false, strayed;
      }
      var climbs, left := ClimbsToTheRoot(fs, at, beyond);
      if !climbs {
        StoppedAt(nodes, used, at, strayed, left);
        NotClimbed(nodes, used, at, left);
        return false, strayed || left;
      }
      NextClimbed(nodes, used, at, strayed, left);
      strayed := strayed || left;
    }
    AllChecked(nodes, used, strayed);
    return true, strayed;
  }

  lemma NotClimbed(nodes: seq<Node>, used: seq<bool>, at: int, left: bool)
    requires 0 <= at < |nodes| && nodes[at].used && (left <==> Leaves(nodes, at))
    requires !left ==> !GetsHome(nodes, at)
    ensures !AllSane(nodes, used) || forall t :: !SpellsTree(nodes, t)
  {
    if AllSane(nodes, used) {
      SaneStays(nodes, used, at);
      forall t ensures !SpellsTree(nodes, t) { if SpellsTree(nodes, t) { TreeReaches(nodes, at, t); } }
    }
  }

  lemma SaneStays(nodes: seq<Node>, used: seq<bool>, i: int)
    requires AllSane(nodes, used) && 0 <= i < |nodes| && nodes[i].used
    ensures !Leaves(nodes, i)
  {
    forall j | 0 <= j < |nodes| && nodes[j].used ensures ParentSane(nodes, nodes[j]) {
      assert FieldsSane(nodes, used, j);
    }
    ParentsKeepInside(nodes, i, |nodes|);
  }

  /** A table whose fields are all sane is checked without straying. */
  lemma SaneNeverStrays(nodes: seq<Node>, used: seq<bool>)
    requires AllSane(nodes, used)
    ensures !CheckStrays(nodes, used)
  {
    forall at ensures !StraysAt(nodes, used, at) {
      if 0 <= at < |nodes| && nodes[at].used { SaneStays(nodes, used, at); }
    }
  }

  /** Nor is one whose links spell a tree, whatever its names. */
  lemma TreeNeverStrays(nodes: seq<Node>, used: seq<bool>, t: Tree)
    requires |used| == MAX_BLOCKS && SpellsTree(nodes, t)
    ensures !CheckStrays(nodes, used)
  {
    forall at ensures !StraysAt(nodes, used, at) {
      if 0 <= at < |nodes| && nodes[at].used {
        TreeReaches(nodes, at, t);
        ReachesInside(nodes, at, |nodes|);
      }
    }
  }
}
