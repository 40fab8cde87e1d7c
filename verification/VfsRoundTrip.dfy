// What is saved loads back: every node in use, every byte in use, and the
// bitmap, exactly when every name is one the checker will read.
module VfsRoundTrip {
  import opened Common
  import opened VfsTypes
  import opened VfsTree
  import opened VfsReroot
  import opened VfsNames
  import opened VfsSpec
  import opened VfsTable
  import opened VfsBlock
  import opened VfsLink
  import opened VfsFile
  import opened VfsFormat
  import opened VfsCheck
  import opened VfsSound
  import opened VfsDisk

  /** `name_ok` would accept every name in the tree. */
  ghost predicate PrintableNames(t: Tree) {
    forall i {:trigger Printable(t[i].name)} :: InTree(t, i) && i != 0 ==> Printable(t[i].name)
  }

  /** Equal where a node is in use; free and holding nothing where it is not. */
  ghost predicate SameWhereUsed(nodes: seq<Node>, nodes': seq<Node>) {
    && |nodes'| == |nodes|
    && (forall i :: 0 <= i < |nodes| && nodes[i].used ==> nodes'[i] == nodes[i])
    && (forall i :: 0 <= i < |nodes| && !nodes[i].used ==> !nodes'[i].used && nodes'[i].blocks == NoBlocks())
  }

  lemma SavedNodes(data: seq<Sector>, nodes: seq<Node>, pool: seq<Byte>, used: seq<bool>)
    requires SECTORS <= |data| && IsImage(data, nodes, pool, used, SECTORS)
    ensures SameWhereUsed(nodes, NodesOn(data))
  {
    forall i | 0 <= i < |nodes|
      ensures nodes[i].used ==> NodesOn(data)[i] == nodes[i]
      ensures !nodes[i].used ==> !NodesOn(data)[i].used && NodesOn(data)[i].blocks == NoBlocks()
    {
      assert RecordSaved(data, nodes, i);
      RecordRoundTrip(data[1 + i], nodes[i]);
    }
  }

  lemma SavedPool(data: seq<Sector>, nodes: seq<Node>, pool: seq<Byte>, used: seq<bool>)
    requires SECTORS <= |data| && IsImage(data, nodes, pool, used, SECTORS)
    ensures forall p :: 0 <= p < MAX_BLOCKS * BLOCK ==> PoolOn(data)[p] == if used[p / BLOCK] then pool[p] else 0
  {
    forall p | 0 <= p < MAX_BLOCKS * BLOCK ensures PoolOn(data)[p] == if used[p / BLOCK] then pool[p] else 0 {
      assert BlockSaved(data, pool, used, p / BLOCK);
      assert p / BLOCK * BLOCK + p % BLOCK == p;
    }
  }

  lemma SameLinks(nodes: seq<Node>, nodes': seq<Node>, t: Tree)
    requires LinksRep(nodes, t) && TreeOk(t) && SameWhereUsed(nodes, nodes')
    ensures LinksRep(nodes', t)
  {
    forall i | 0 <= i < |t| ensures EntryRep(nodes'[i], t[i]) { assert EntryRep(nodes[i], t[i]); }
    forall d | 0 <= d < |t| && t[d].Dir? ensures Listed(nodes', nodes'[d].first, t[d].kids) {
      assert EntryRep(nodes[d], t[d]) && KidsOk(t, d) && Listed(nodes, nodes[d].first, t[d].kids);
      forall j | 0 <= j < |t[d].kids| ensures nodes'[t[d].kids[j]] == nodes[t[d].kids[j]] {
        assert t[d].kids[j] in t[d].kids;
        assert EntryRep(nodes[t[d].kids[j]], t[t[d].kids[j]]);
      }
      ListedSame(nodes, nodes', nodes[d].first, t[d].kids);
    }
    assert EntryRep(nodes[0], t[0]);
  }

  lemma SameStoreWhereUsed(nodes: seq<Node>, nodes': seq<Node>, pool: seq<Byte>, pool': seq<Byte>,
                           used: seq<bool>, owner: Owner, t: Tree)
    requires LinksRep(nodes, t) && Owned(nodes, used, owner, HeldBy(t)) && ContentRep(nodes, pool, t)
    requires SameWhereUsed(nodes, nodes') && |pool| == |pool'| == MAX_BLOCKS * BLOCK
    requires forall p :: 0 <= p < |pool| && used[p / BLOCK] ==> pool'[p] == pool[p]
    ensures Owned(nodes', used, owner, HeldBy(t)) && ContentRep(nodes', pool', t)
  {
    var held := HeldBy(t);
    forall i | 0 <= i < |nodes| ensures nodes'[i].blocks == nodes[i].blocks {
      assert EntryRep(nodes[i], t[i]);
      if !nodes[i].used {
        forall k | 0 <= k < DIRECT_BLOCKS ensures nodes[i].blocks[k] == NONE { assert SlotOk(nodes, owner, held, i, k); }
        assert nodes[i].blocks == NoBlocks();
      }
    }
    SameBlocksOwned(nodes, nodes', used, owner, held);
    forall i | 0 <= i < |t| && t[i].File? ensures Content(nodes'[i], pool', t[i].data) {
      assert EntryRep(nodes[i], t[i]) && Content(nodes[i], pool, t[i].data);
      forall k | 0 <= k < |t[i].data|
        ensures 0 <= Spot(nodes'[i].blocks, k) < |pool'| && pool'[Spot(nodes'[i].blocks, k)] == t[i].data[k]
      {
        SpotOwned(nodes, used, owner, held, i, k);
      }
    }
    forall i | 0 <= i < |t| && t[i].Dir? ensures nodes'[i].length == 0 { assert EntryRep(nodes[i], t[i]); }
  }

  /** A table that stands for a filesystem is accepted exactly when its names
      are printable. */
  lemma AcceptedIffPrintable(nodes: seq<Node>, used: seq<bool>, owner: Owner, pool: seq<Byte>, t: Tree)
    requires SpellsTree(nodes, t) && Owned(nodes, used, owner, HeldBy(t)) && ContentRep(nodes, pool, t)
    requires FsOk(Fs(t, 0)) && forall i :: InTree(t, i) && i != 0 ==> t[i].name != []
    ensures Acceptable(nodes) <==> PrintableNames(t)
  {
    SaneClaims(nodes, used, owner, pool, t);
    forall i | 0 <= i < |nodes| && nodes[i].used
      ensures InTree(t, i)
      ensures FieldsSane(nodes, AllMarked(), i) <==> (i != 0 ==> Printable(t[i].name))
    {
      assert EntryRep(nodes[i], t[i]);
      SaneFields(nodes, used, owner, pool, t, i);
    }
    if Acceptable(nodes) {
      forall i | InTree(t, i) && i != 0 ensures Printable(t[i].name) {
        assert EntryRep(nodes[i], t[i]);
        assert FieldsSane(nodes, AllMarked(), i);
      }
    }
  }

  lemma SaneClaims(nodes: seq<Node>, used: seq<bool>, owner: Owner, pool: seq<Byte>, t: Tree)
    requires LinksRep(nodes, t) && Owned(nodes, used, owner, HeldBy(t))
    ensures ClaimsSane(nodes)
  {
    var held := HeldBy(t);
    forall i, k | 0 <= i < |nodes| && 0 <= k < DIRECT_BLOCKS ensures SlotSane(nodes[i], k) {
      assert EntryRep(nodes[i], t[i]) && SlotOk(nodes, owner, held, i, k);
      forall l | 0 <= l < k ensures nodes[i].blocks[k] != NONE ==> nodes[i].blocks[l] != NONE {
        assert SlotOk(nodes, owner, held, i, l);
      }
    }
    forall i, k, j, l | 0 <= i < |nodes| && 0 <= j < |nodes| && 0 <= k < DIRECT_BLOCKS && 0 <= l < DIRECT_BLOCKS
      ensures SlotsApart(nodes, i, k, j, l)
    {
      assert SlotOk(nodes, owner, held, i, k) && SlotOk(nodes, owner, held, j, l);
    }
  }

  lemma SaneFields(nodes: seq<Node>, used: seq<bool>, owner: Owner, pool: seq<Byte>, t: Tree, i: int)
    requires SpellsTree(nodes, t) && Owned(nodes, used, owner, HeldBy(t)) && ContentRep(nodes, pool, t)
    requires FsOk(Fs(t, 0)) && InTree(t, i) && (i != 0 ==> t[i].name != [])
    ensures FieldsSane(nodes, AllMarked(), i) <==> (i != 0 ==> Printable(t[i].name))
  {
    var n := nodes[i];
    var held := HeldBy(t);
    assert EntryRep(n, t[i]) && ParentOk(t, i) && EntryFits(t[i]);
    assert EntryRep(nodes[n.parent], t[n.parent]);
    assert t[i].File? ==> Content(n, pool, t[i].data);
    HeldCount(nodes, used, owner, held, i);
    forall k | 0 <= k < DIRECT_BLOCKS && n.blocks[k] != NONE ensures 0 <= n.blocks[k] < MAX_BLOCKS {
      assert SlotOk(nodes, owner, held, i, k);
    }
    FirstSane(nodes, t, i);
    NextSane(nodes, t, i);
  }

  lemma FirstSane(nodes: seq<Node>, t: Tree, i: int)
    requires SpellsTree(nodes, t) && InTree(t, i)
    ensures LinkSane(nodes, nodes[i].first)
  {
    assert EntryRep(nodes[i], t[i]);
    if t[i].Dir? {
      assert Listed(nodes, nodes[i].first, t[i].kids) && KidsOk(t, i);
      if t[i].kids != [] {
        assert t[i].kids[0] in t[i].kids;
        assert EntryRep(nodes[t[i].kids[0]], t[t[i].kids[0]]);
      }
    }
  }

  lemma NextSane(nodes: seq<Node>, t: Tree, i: int)
    requires SpellsTree(nodes, t) && InTree(t, i)
    ensures LinkSane(nodes, nodes[i].next)
  {
    if i != 0 {
      assert ParentOk(t, i);
      var p := t[i].parent;
      var kids := t[p].kids;
      assert Listed(nodes, nodes[p].first, kids) && KidsOk(t, p);
      var j :| 0 <= j < |kids| && kids[j] == i;
      assert nodes[kids[j]].next == At(kids, j + 1);
      if j + 1 < |kids| {
        assert kids[j + 1] in kids;
        assert EntryRep(nodes[kids[j + 1]], t[kids[j + 1]]);
      }
    }
  }

  /** A table spells one tree only. */
  lemma OneTree(nodes: seq<Node>, pool: seq<Byte>, t: Tree, t': Tree)
    requires SpellsTree(nodes, t) && SpellsTree(nodes, t') && ContentRep(nodes, pool, t) && ContentRep(nodes, pool, t')
    ensures t == t'
  {
    forall i | 0 <= i < |t| ensures t[i] == t'[i] {
      assert EntryRep(nodes[i], t[i]) && EntryRep(nodes[i], t'[i]);
      if t[i].Dir? {
        SameList(nodes, nodes[i].first, t[i].kids, t'[i].kids, |t[i].kids|);
        SameList(nodes, nodes[i].first, t'[i].kids, t[i].kids, |t'[i].kids|);
      } else if t[i].File? {
        assert Content(nodes[i], pool, t[i].data) && Content(nodes[i], pool, t'[i].data);
        assert t[i].data == t'[i].data;
      }
    }
  }

  lemma {:induction false} SameList(nodes: seq<Node>, head: int, a: seq<int>, b: seq<int>, n: nat)
    requires Listed(nodes, head, a) && Listed(nodes, head, b) && n <= |a|
    ensures a[..n] <= b
  {
    if n > 0 {
      var k := n - 1;
      SameList(nodes, head, a, b, k);
      if k > 0 {
        assert a[..k][k - 1] == b[k - 1];
        assert nodes[a[k - 1]].next == At(a, k) && nodes[b[k - 1]].next == At(b, k);
      }
      assert At(a, k) == At(b, k) && a[k] != NONE;
      assert a[..n] == a[..k] + [a[k]];
    }
  }

  /** One table and one set of claims have one bitmap. */
  lemma OneBitmap(nodes: seq<Node>, used: seq<bool>, owner: Owner, used': seq<bool>, owner': Owner, held: seq<nat>)
    requires Owned(nodes, used, owner, held) && Owned(nodes, used', owner', held)
    ensures used == used'
  {
    forall b | 0 <= b < MAX_BLOCKS ensures used[b] == used'[b] {
      if used[b] { assert ClaimOk(nodes, held, b, owner[b]) && SlotOk(nodes, owner', held, owner[b].node, owner[b].slot); }
      if used'[b] { assert ClaimOk(nodes, held, b, owner'[b]) && SlotOk(nodes, owner, held, owner'[b].node, owner'[b].slot); }
    }
  }

  /** Save, then load into another filesystem: it comes back whole, with the
      working directory at the root, if and only if every name is printable. */
  method SaveAndLoad(fs: Vfs, disk: Disk, other: Vfs, beyond: Int16 -> Int16)
    returns (saved: DiskResult, loaded: DiskResult)
    requires fs.Valid() && NamesOk(fs.t) && other.Sized() && AllAnswer(disk)
    requires fs != other && fs.nodes != other.nodes && fs.pool != other.pool && fs.blockUsed != other.blockUsed
    modifies disk, other, other.nodes, other.pool, other.blockUsed
    ensures saved == DiskOk && other.Valid()
    ensures loaded == DiskOk <==> PrintableNames(fs.t)
    ensures loaded == DiskOk ==>
              Restored(fs.t, fs.nodes[..], fs.pool[..], fs.blockUsed[..], other.View(), other.nodes[..], other.pool[..], other.blockUsed[..])
    ensures loaded != DiskOk ==> loaded == Corrupt && other.View() == InitFs()
  {
    ghost var nodes, pool, used, t := fs.nodes[..], fs.pool[..], fs.blockUsed[..], fs.t;
    assert InTree(t, 0);
    saved := Save(fs, disk);
    ghost var data := disk.data;
    forall s | 0 <= s < SECTORS ensures disk.Answers(s) { assert old(disk.Answers(s)); }
    assert AllAnswer(disk) && disk.Answers(0);
    SavedFacts(data, nodes, pool, used, fs.owner, t);
    HeaderRoundTrip(data[0]);
    var strayed;
    loaded, strayed := Load(other, disk, beyond);
    if loaded == DiskOk {
      LoadedFacts(nodes, pool, data, used, fs.owner, t, other);
    }
  }

  /** The tree, every node in use, the bitmap and every byte in use are the ones
      saved; the working directory is the root. */
  ghost predicate Restored(t: Tree, nodes: seq<Node>, pool: seq<Byte>, used: seq<bool>,
                           view: Fs, nodes': seq<Node>, pool': seq<Byte>, used': seq<bool>)
  {
    && view == Fs(t, 0) && SameWhereUsed(nodes, nodes') && used' == used && |used| == MAX_BLOCKS
    && |pool'| == |pool| == MAX_BLOCKS * BLOCK
    && forall p :: 0 <= p < |pool| && used[p / BLOCK] ==> pool'[p] == pool[p]
  }

  lemma LoadedFacts(nodes: seq<Node>, pool: seq<Byte>, data: seq<Sector>, used: seq<bool>, owner: Owner, t: Tree,
                    other: Vfs)
    requires SECTORS <= |data| && IsImage(data, nodes, pool, used, SECTORS)
    requires other.Valid() && other.cwd == 0 && other.nodes[..] == NodesOn(data) && other.pool[..] == PoolOn(data)
    requires LinksRep(nodes, t) && Owned(nodes, used, owner, HeldBy(t)) && ContentRep(nodes, pool, t)
    requires FsOk(Fs(t, 0)) && NamesOk(t)
    ensures Restored(t, nodes, pool, used, other.View(), other.nodes[..], other.pool[..], other.blockUsed[..])
  {
    SavedFacts(data, nodes, pool, used, owner, t);
    OneTree(NodesOn(data), PoolOn(data), t, other.t);
    OneBitmap(NodesOn(data), used, owner, other.blockUsed[..], other.owner, HeldBy(t));
  }

  lemma SavedFacts(data: seq<Sector>, nodes: seq<Node>, pool: seq<Byte>, used: seq<bool>, owner: Owner, t: Tree)
    requires SECTORS <= |data| && IsImage(data, nodes, pool, used, SECTORS)
    requires LinksRep(nodes, t) && Owned(nodes, used, owner, HeldBy(t)) && ContentRep(nodes, pool, t)
    requires FsOk(Fs(t, 0)) && NamesOk(t)
    ensures SameWhereUsed(nodes, NodesOn(data))
    ensures forall p :: 0 <= p < MAX_BLOCKS * BLOCK && used[p / BLOCK] ==> PoolOn(data)[p] == pool[p]
    ensures SpellsTree(NodesOn(data), t) && ContentRep(NodesOn(data), PoolOn(data), t)
    ensures Owned(NodesOn(data), used, owner, HeldBy(t))
    ensures Acceptable(NodesOn(data)) <==> PrintableNames(t)
  {
    SavedNodes(data, nodes, pool, used);
    SavedPool(data, nodes, pool, used);
    SameLinks(nodes, NodesOn(data), t);
    SameStoreWhereUsed(nodes, NodesOn(data), pool, PoolOn(data), used, owner, t);
    forall i | InTree(t, i) && i != 0 ensures t[i].name != [] { assert UsableName(t[i].name); }
    AcceptedIffPrintable(NodesOn(data), used, owner, PoolOn(data), t);
  }

  // ----- which runs can be saved

  predicate PrintablePath(path: Text) { forall k :: 0 <= k < |path| ==> 32 <= path[k] < 128 }

  lemma {:induction false} ComponentPrintable(path: Text, c: Text)
    requires PrintablePath(path) && c in Components(path)
    ensures Printable(c)
    decreases |path|
  {
    if path[0] == SLASH {
      ComponentPrintable(path[1..], c);
    } else {
      var n := WordLength(path);
      if c == path[..n] {
        forall k | 0 <= k < |c| ensures c[k] != SLASH { assert path[..n][k] == c[k]; }
      } else {
        ComponentPrintable(path[n..], c);
      }
    }
  }

  ghost function NamingPath(op: Op): Text {
    if op.MoveOp? || op.CopyOp? then op.to else op.path
  }

  /** Entry `i` has the name it had, or the last name of `path`. */
  ghost predicate NameFrom(t: Tree, t': Tree, i: int, path: Text)
    requires InTree(t', i)
  {
    (InTree(t, i) && t'[i].name == t[i].name) || (Components(path) != [] && t'[i].name == LastName(path))
  }

  lemma MadeNames(fs: Fs, path: Text, kind: Kind, i: int)
    requires MakeVerdict(fs, path) == Ok && InTree(Made(fs, path, kind).t, i)
    ensures NameFrom(fs.t, Made(fs, path, kind).t, i, path)
  {
  }

  lemma TargetNames(fs: Fs, path: Text, i: int)
    requires InTree(TargetFile(fs, path).fs.t, i)
    ensures NameFrom(fs.t, TargetFile(fs, path).fs.t, i, path)
  {
    if MakeVerdict(fs, path) == Ok && InTree(Made(fs, path, FileKind).t, i) { MadeNames(fs, path, FileKind, i); }
  }

  lemma CopyNames(fs: Fs, from: Text, to: Text, i: int)
    requires InTree(Copy(fs, from, to).fs.t, i)
    ensures NameFrom(fs.t, Copy(fs, from, to).fs.t, i, to)
  {
    if Copy(fs, from, to).result == Ok { MadeNames(fs, to, FileKind, i); }
  }

  lemma MoveNames(fs: Fs, from: Text, to: Text, i: int)
    requires FsOk(fs) && InTree(Move(fs, from, to).fs.t, i)
    ensures NameFrom(fs.t, Move(fs, from, to).fs.t, i, to)
  {
    if MoveVerdict(fs, from, to) == Ok {
      var t, at, q := fs.t, Resolve(fs.t, fs.cwd, from), Holder(fs.t, fs.cwd, to);
      assert Rooted(t, q);
      MayMoveParts(t, at, q);
      MoveTreeMoves(t, at, q, LastName(to));
      assert MovedEntry(t[i], Move(fs, from, to).fs.t[i], i, at, t[at].parent, q, LastName(to));
    }
  }

  lemma AppendNames(fs: Fs, path: Text, data: seq<Byte>, i: int)
    requires InTree(Append(fs, path, data).fs.t, i)
    ensures NameFrom(fs.t, Append(fs, path, data).fs.t, i, path)
  {
    TargetNames(fs, path, i);
  }

  lemma WriteNames(fs: Fs, path: Text, data: seq<Byte>, i: int)
    requires InTree(Write(fs, path, data).fs.t, i)
    ensures NameFrom(fs.t, Write(fs, path, data).fs.t, i, path)
  {
    TargetNames(fs, path, i);
  }

  lemma RemoveNames(fs: Fs, path: Text, i: int)
    requires InTree(Remove(fs, path).fs.t, i)
    ensures NameFrom(fs.t, Remove(fs, path).fs.t, i, path)
  {
  }

  /** One step names nothing but what its path spells. */
  lemma StepNames(fs: Fs, op: Op, i: int)
    requires FsOk(fs) && InTree(Do(fs, op).fs.t, i)
    ensures NameFrom(fs.t, Do(fs, op).fs.t, i, NamingPath(op))
  {
    match op
    case MakeOp(path, kind) => if MakeVerdict(fs, path) == Ok { MadeNames(fs, path, kind, i); }
    case ChdirOp(path) =>
    case WriteOp(path, data) => WriteNames(fs, path, data, i);
    case AppendOp(path, data) => AppendNames(fs, path, data, i);
    case RemoveOp(path) => RemoveNames(fs, path, i);
    case MoveOp(from, to) => MoveNames(fs, from, to, i);
    case CopyOp(from, to) => CopyNames(fs, from, to, i);
  }

  lemma NamePrintable(t: Tree, t': Tree, i: int, path: Text)
    requires PrintableNames(t) && PrintablePath(path) && InTree(t', i) && i != 0 && NameFrom(t, t', i, path)
    ensures Printable(t'[i].name)
  {
    if !(InTree(t, i) && t'[i].name == t[i].name) { ComponentPrintable(path, LastName(path)); }
  }

  lemma StepPrintable(fs: Fs, op: Op)
    requires FsOk(fs) && PrintableNames(fs.t) && PrintablePath(NamingPath(op))
    ensures PrintableNames(Do(fs, op).fs.t)
  {
    var t' := Do(fs, op).fs.t;
    forall i | InTree(t', i) && i != 0 ensures Printable(t'[i].name) {
      StepNames(fs, op, i);
      NamePrintable(fs.t, t', i, NamingPath(op));
    }
  }

  /** Every run whose paths are printable text can be saved and loaded back. */
  lemma {:induction false} RunPrintable(ops: seq<Op>)
    requires forall k :: 0 <= k < |ops| ==> PrintablePath(NamingPath(ops[k]))
    ensures PrintableNames(Run(ops).t)
  {
    if ops != [] {
      var last := |ops| - 1;
      RunPrintable(ops[..last]);
      StepPrintable(Run(ops[..last]), ops[last]);
    }
  }

  /** And one that made a name with a control character in it cannot: the file
      made by this run is refused with the disk it was saved on. */
  lemma ControlCharacterLost()
    ensures !PrintableNames(Run([MakeOp([7], FileKind)]).t)
  {
    var ops := [MakeOp([7], FileKind)];
    assert ops[..0] == [];
    var t := InitTree();
    InitOk();
    assert WordLength([7]) == 1;
    assert Components([7]) == [[7]] by { assert [7][..1] == [7] && [7][1..] == []; }
    assert FirstFree(t, 1) == 1;
    assert MakeVerdict(InitFs(), [7]) == Ok;
    assert Run(ops) == Made(InitFs(), [7], FileKind);
    assert !Printable(Run(ops).t[1].name);
  }
}
