// The node table and the block pool as the kernel keeps them, and how they
// stand for a tree (kernel/include/vfs.h, kernel/src/vfs.c).
module VfsTable {
  import opened Common
  import opened VfsTypes
  import opened VfsTree
  import opened VfsReroot
  import opened VfsSpec

  datatype RawNode = RawNode(
    name: seq<Byte>,
    kind: Kind,
    used: bool,
    parent: Int16,
    first: Int16,
    next: Int16,
    length: Uint32,
    blocks: seq<Int16>)

  predicate NodeSized(n: RawNode) { |n.name| == NAME_MAX && |n.blocks| == DIRECT_BLOCKS }

  function NoBlocks(): (b: seq<Int16>)
    ensures |b| == DIRECT_BLOCKS && forall k :: 0 <= k < DIRECT_BLOCKS ==> b[k] == NONE
  {
    seq(DIRECT_BLOCKS, _ => NONE)
  }

  const BLANK_NODE: RawNode :=
    RawNode(seq(NAME_MAX, _ => 0), DirKind, false, 0, 0, 0, 0, NoBlocks())

  type Node = n: RawNode | NodeSized(n) witness BLANK_NODE

  /** The characters before the terminator. */
  function CString(raw: seq<Byte>): (r: Text)
    ensures |r| <= |raw| && (forall k :: 0 <= k < |r| ==> r[k] == raw[k])
    ensures |r| < |raw| ==> raw[|r|] == 0
  {
    if raw == [] || raw[0] == 0 then [] else [raw[0]] + CString(raw[1..])
  }

  lemma {:induction false} CStringIs(raw: seq<Byte>, n: nat)
    requires n < |raw| && raw[n] == 0 && forall k :: 0 <= k < n ==> raw[k] != 0
    ensures CString(raw) == raw[..n]
  {
    if n > 0 {
      CStringIs(raw[1..], n - 1);
      assert raw[..n] == [raw[0]] + raw[1..][..n - 1];
    }
  }

  // ----- links

  function At(list: seq<int>, j: nat): int { if j < |list| then list[j] else NONE }

  /** `head` and the sibling links from it spell out `list`. */
  ghost predicate Listed(nodes: seq<Node>, head: int, list: seq<int>) {
    && head == At(list, 0)
    && (forall j {:trigger list[j]} :: 0 <= j < |list| ==> 0 <= list[j] < |nodes|)
    && (forall j {:trigger nodes[list[j]].next} :: 0 <= j < |list| ==> nodes[list[j]].next == At(list, j + 1))
  }

  ghost predicate EntryRep(n: Node, e: Entry) {
    match e
    case Free => !n.used
    case Dir(name, parent, _) => n.used && n.kind == DirKind && CString(n.name) == name && n.parent == parent
    case File(name, parent, _) =>
      n.used && n.kind == FileKind && CString(n.name) == name && n.parent == parent && n.first == NONE
  }

  ghost predicate LinksRep(nodes: seq<Node>, t: Tree) {
    && |nodes| == |t| == MAX_NODES
    && nodes[0].next == NONE
    && (forall i {:trigger EntryRep(nodes[i], t[i])} :: 0 <= i < |t| ==> EntryRep(nodes[i], t[i]))
    && (forall d {:trigger Listed(nodes, nodes[d].first, t[d].kids)} ::
          0 <= d < |t| && t[d].Dir? ==> Listed(nodes, nodes[d].first, t[d].kids))
  }

  // ----- blocks

  /** Which node holds each block, and as which of its blocks. */
  datatype Claim = Claim(node: int, slot: int)

  type Owner = map<int, Claim>

  /** The bitmap marks exactly the blocks that have a holder. */
  ghost predicate Marked(used: seq<bool>, owner: Owner) {
    && |used| == MAX_BLOCKS
    && (forall b :: b in owner ==> 0 <= b < MAX_BLOCKS && used[b])
    && (forall b :: 0 <= b < MAX_BLOCKS && used[b] ==> b in owner)
  }

  /** Slot `k` of node `i` holds a block, claimed for it alone, exactly below
      `held[i]`. */
  ghost predicate SlotOk(nodes: seq<Node>, owner: Owner, held: seq<nat>, i: int, k: int)
    requires |held| == |nodes|
  {
    0 <= i < |nodes| && 0 <= k < DIRECT_BLOCKS ==>
      var b := nodes[i].blocks[k];
      if k < held[i] then b in owner && owner[b] == Claim(i, k) else b == NONE
  }

  ghost predicate ClaimOk(nodes: seq<Node>, held: seq<nat>, b: int, c: Claim)
    requires |held| == |nodes|
  {
    0 <= c.node < |nodes| && 0 <= c.slot < held[c.node] && c.slot < DIRECT_BLOCKS && nodes[c.node].blocks[c.slot] == b
  }

  /** Block lists without gaps, no block in two of them, and a bitmap that is
      exactly their union. */
  ghost predicate Owned(nodes: seq<Node>, used: seq<bool>, owner: Owner, held: seq<nat>) {
    && |held| == |nodes|
    && Marked(used, owner)
    && (forall i :: 0 <= i < |nodes| ==> held[i] <= DIRECT_BLOCKS)
    && (forall i, k {:trigger SlotOk(nodes, owner, held, i, k)} :: SlotOk(nodes, owner, held, i, k))
    && (forall b {:trigger ClaimOk(nodes, held, b, owner[b])} :: b in owner ==> ClaimOk(nodes, held, b, owner[b]))
  }

  ghost function HeldBy(t: Tree): (h: seq<nat>)
    ensures |h| == |t| && forall i :: 0 <= i < |t| ==> h[i] == EntryBlocks(t[i])
  {
    seq(|t|, i requires 0 <= i < |t| => EntryBlocks(t[i]))
  }

  /** Where byte `k` of a file with these blocks lives in the pool. */
  function Spot(blocks: seq<Int16>, k: nat): int
    requires k / BLOCK < |blocks|
  {
    blocks[k / BLOCK] * BLOCK + k % BLOCK
  }

  ghost predicate Content(n: Node, pool: seq<Byte>, data: seq<Byte>) {
    && n.length == |data| <= FILE_MAX
    && forall k :: 0 <= k < |data| ==> 0 <= Spot(n.blocks, k) < |pool| && pool[Spot(n.blocks, k)] == data[k]
  }

  ghost predicate ContentRep(nodes: seq<Node>, pool: seq<Byte>, t: Tree) {
    && |nodes| == |t|
    && (forall i {:trigger Content(nodes[i], pool, t[i].data)} ::
          0 <= i < |t| && t[i].File? ==> Content(nodes[i], pool, t[i].data))
    && (forall i :: 0 <= i < |t| && t[i].Dir? ==> nodes[i].length == 0)
  }

  class Vfs {
    const nodes: array<Node>
    const pool: array<Byte>
    const blockUsed: array<bool>
    var cwd: Int16
    /** The tree the table stands for. */
    ghost var t: Tree
    ghost var owner: Owner

    ghost predicate Sized()
      reads this
    {
      nodes.Length == MAX_NODES && pool.Length == MAX_BLOCKS * BLOCK && blockUsed.Length == MAX_BLOCKS
    }

    /** The table, bitmap and pool say what `t` says. */
    ghost predicate Rep()
      reads this, nodes, pool, blockUsed
    {
      && Sized()
      && LinksRep(nodes[..], t)
      && Owned(nodes[..], blockUsed[..], owner, HeldBy(t))
      && ContentRep(nodes[..], pool[..], t)
    }

    ghost predicate Valid()
      reads this, nodes, pool, blockUsed
    {
      Rep() && FsOk(Fs(t, cwd))
    }

    ghost function View(): Fs
      reads this
    {
      Fs(t, cwd)
    }

    constructor ()
      ensures Valid() && View() == InitFs()
      ensures fresh(nodes) && fresh(pool) && fresh(blockUsed)
    {
      nodes := new Node[MAX_NODES](_ => BLANK_NODE);
      pool := new Byte[MAX_BLOCKS * BLOCK](_ => 0);
      blockUsed := new bool[MAX_BLOCKS](_ => false);
      cwd := 0;
      new;
      Init(this);
    }

    method SetNode(i: int, n: Node)
      requires 0 <= i < nodes.Length
      modifies nodes
      ensures nodes[..] == old(nodes[..])[i := n]
    {
      nodes[i] := n;
    }

    method SetUsed(b: int, mark: bool)
      requires 0 <= b < blockUsed.Length
      modifies blockUsed
      ensures blockUsed[..] == old(blockUsed[..])[b := mark]
    {
      blockUsed[b] := mark;
    }

    method SetByte(at: int, value: Byte)
      requires 0 <= at < pool.Length
      modifies pool
      ensures pool[..] == old(pool[..])[at := value]
    {
      pool[at] := value;
    }
  }

  /** `vfs_init` (kernel/src/vfs.c:35-69): an empty filesystem, whatever the
      table held before. */
  method Init(fs: Vfs)
    requires fs.Sized()
    modifies fs, fs.nodes, fs.blockUsed
    ensures fs.Valid() && fs.View() == InitFs()
  {
    for i := 0 to MAX_NODES
      invariant fs.Sized()
      invariant forall j :: 0 <= j < i ==> !fs.nodes[j].used && fs.nodes[j].blocks == NoBlocks()
    {
      fs.nodes[i] := fs.nodes[i].(used := false, blocks := NoBlocks());
    }
    for b := 0 to MAX_BLOCKS
      invariant fs.Sized()
      invariant forall c :: 0 <= c < b ==> !fs.blockUsed[c]
      invariant forall j :: 0 <= j < MAX_NODES ==> !fs.nodes[j].used && fs.nodes[j].blocks == NoBlocks()
    {
      fs.blockUsed[b] := false;
    }
    fs.nodes[0] := fs.nodes[0].(used := true, kind := DirKind, name := fs.nodes[0].name[0 := 0],
                                parent := 0, first := NONE, next := NONE, length := 0);
    fs.cwd := 0;
    fs.t := InitTree();
    fs.owner := map[];
    InitOk();
  }
}
