// Whether a table read off a disk is one the kernel can safely walk
// (kernel/src/vfsdisk_check.c, kernel/src/vfsblock.c:156-194).
module VfsCheck {
  import opened VfsTypes
  import opened VfsTree
  import opened VfsReroot
  import opened VfsSpec
  import opened VfsTable
  import opened VfsBlock
  import opened VfsLink
  import opened VfsPath

  // ----- what the block claims of any table at all should be

  ghost predicate MayHold(n: Node) { n.used && n.kind == FileKind }

  ghost predicate InPool(b: int) { 0 <= b < MAX_BLOCKS }

  /** Slot `k` is empty, or a block a file in use may claim with no gap before it. */
  ghost predicate SlotSane(n: Node, k: int)
    requires 0 <= k < DIRECT_BLOCKS
  {
    n.blocks[k] != NONE ==>
      MayHold(n) && InPool(n.blocks[k]) && forall l :: 0 <= l < k ==> n.blocks[l] != NONE
  }

  /** Two different slots do not claim one block. */
  ghost predicate SlotsApart(nodes: seq<Node>, i: int, k: int, j: int, l: int)
    requires 0 <= i < |nodes| && 0 <= j < |nodes| && 0 <= k < DIRECT_BLOCKS && 0 <= l < DIRECT_BLOCKS
  {
    (i != j || k != l) && nodes[i].blocks[k] != NONE ==> nodes[i].blocks[k] != nodes[j].blocks[l]
  }

  /** No gap, no block out of range, no block held by anything but a file in
      use, and no block held twice. */
  ghost predicate ClaimsSane(nodes: seq<Node>) {
    && (forall i, k {:trigger SlotSane(nodes[i], k)} ::
          0 <= i < |nodes| && 0 <= k < DIRECT_BLOCKS ==> SlotSane(nodes[i], k))
    && (forall i, k, j, l {:trigger SlotsApart(nodes, i, k, j, l)} ::
          0 <= i < |nodes| && 0 <= j < |nodes| && 0 <= k < DIRECT_BLOCKS && 0 <= l < DIRECT_BLOCKS ==>
          SlotsApart(nodes, i, k, j, l))
  }

  /** The slots before slot `k` of node `i`, in the order they are read. */
  predicate Earlier(j: int, l: int, i: int, k: int) { j < i || (j == i && l < k) }

  /** Slot `l` of node `j` has been read, and its claim recorded. */
  ghost predicate SlotRead(nodes: seq<Node>, owner: Owner, j: int, l: int) {
    0 <= j < |nodes| && 0 <= l < DIRECT_BLOCKS ==>
      var b := nodes[j].blocks[l];
      SlotSane(nodes[j], l) && (b != NONE ==> b in owner && owner[b] == Claim(j, l))
  }

  /** The record of block `b` is a claim from before slot `k` of node `i`. */
  ghost predicate ClaimRead(nodes: seq<Node>, b: int, c: Claim, i: int, k: int) {
    0 <= c.node < |nodes| && 0 <= c.slot < DIRECT_BLOCKS && Earlier(c.node, c.slot, i, k) &&
    nodes[c.node].blocks[c.slot] == b
  }

  /** The claims read so far: exactly the slots before slot `k` of node `i`. */
  ghost predicate ReadSoFar(nodes: seq<Node>, used: seq<bool>, owner: Owner, i: int, k: int) {
    && Marked(used, owner)
    && (forall b {:trigger ClaimRead(nodes, b, owner[b], i, k)} :: b in owner ==> ClaimRead(nodes, b, owner[b], i, k))
    && (forall j, l {:trigger SlotRead(nodes, owner, j, l)} :: Earlier(j, l, i, k) ==> SlotRead(nodes, owner, j, l))
  }

  lemma NothingRead(nodes: seq<Node>, used: seq<bool>)
    requires |used| == MAX_BLOCKS && forall b :: 0 <= b < MAX_BLOCKS ==> !used[b]
    ensures ReadSoFar(nodes, used, map[], 0, 0)
  {
  }

  /** One more slot read: an empty one. */
  lemma ReadEmpty(nodes: seq<Node>, used: seq<bool>, owner: Owner, i: int, k: int)
    requires ReadSoFar(nodes, used, owner, i, k) && 0 <= i < |nodes| && 0 <= k < DIRECT_BLOCKS
    requires nodes[i].blocks[k] == NONE
    ensures ReadSoFar(nodes, used, owner, i, k + 1)
  {
    forall b | b in owner ensures ClaimRead(nodes, b, owner[b], i, k + 1) { assert ClaimRead(nodes, b, owner[b], i, k); }
    forall j, l | Earlier(j, l, i, k + 1) ensures SlotRead(nodes, owner, j, l) {
      assert Earlier(j, l, i, k) ==> SlotRead(nodes, owner, j, l);
    }
  }

  /** One more slot read: a block nobody claimed yet. */
  lemma ReadClaim(nodes: seq<Node>, used: seq<bool>, owner: Owner, i: int, k: int, b: int)
    requires ReadSoFar(nodes, used, owner, i, k) && 0 <= i < |nodes| && 0 <= k < DIRECT_BLOCKS
    requires nodes[i].blocks[k] == b && InPool(b) && !used[b] && SlotSane(nodes[i], k)
    ensures ReadSoFar(nodes, used[b := true], owner[b := Claim(i, k)], i, k + 1)
  {
    var owner' := owner[b := Claim(i, k)];
    forall c | c in owner' ensures ClaimRead(nodes, c, owner'[c], i, k + 1) {
      if c != b { assert ClaimRead(nodes, c, owner[c], i, k); }
    }
    forall j, l | Earlier(j, l, i, k + 1) ensures SlotRead(nodes, owner', j, l) {
      assert Earlier(j, l, i, k) ==> SlotRead(nodes, owner, j, l);
    }
  }

  lemma NodeRead(nodes: seq<Node>, used: seq<bool>, owner: Owner, i: int)
    requires ReadSoFar(nodes, used, owner, i, DIRECT_BLOCKS)
    ensures ReadSoFar(nodes, used, owner, i + 1, 0)
  {
    forall b | b in owner ensures ClaimRead(nodes, b, owner[b], i + 1, 0) {
      assert ClaimRead(nodes, b, owner[b], i, DIRECT_BLOCKS);
    }
    forall j, l | Earlier(j, l, i + 1, 0) ensures SlotRead(nodes, owner, j, l) {
      assert Earlier(j, l, i, DIRECT_BLOCKS) ==> SlotRead(nodes, owner, j, l);
    }
  }

  ghost function HeldOf(nodes: seq<Node>): (h: seq<nat>)
    ensures |h| == |nodes| && forall i :: 0 <= i < |nodes| ==> h[i] == CountHeld(nodes[i].blocks)
  {
    seq(|nodes|, i requires 0 <= i < |nodes| => CountHeld(nodes[i].blocks))
  }

  /** `vfsblock_rebuild`: it accepts exactly the sane claims, and then the
      bitmap is exactly their union. */
  method Rebuild(fs: Vfs) returns (ok: bool)
    requires fs.Sized()
    modifies fs`owner, fs.blockUsed
    ensures ok <==> ClaimsSane(fs.nodes[..])
    ensures ok ==> Owned(fs.nodes[..], fs.blockUsed[..], fs.owner, HeldOf(fs.nodes[..]))
  {
    ghost var nodes := fs.nodes[..];
    for b := 0 to MAX_BLOCKS
      invariant forall c :: 0 <= c < b ==> !fs.blockUsed[c]
    {
      fs.blockUsed[b] := false;
    }
    fs.owner := map[];
    NothingRead(nodes, fs.blockUsed[..]);
    for at := 0 to MAX_NODES
      invariant ReadSoFar(nodes, fs.blockUsed[..], fs.owner, at, 0)
    {
      ok := RebuildNode(fs, at);
      if !ok { return; }
    }
    ReadAll(nodes, fs.blockUsed[..], fs.owner);
    ok := true;
  }

  /** The claims of one node. */
  method RebuildNode(fs: Vfs, at: int) returns (ok: bool)
    requires fs.Sized() && 0 <= at < MAX_NODES && ReadSoFar(fs.nodes[..], fs.blockUsed[..], fs.owner, at, 0)
    modifies fs`owner, fs.blockUsed
    ensures ok ==> ReadSoFar(fs.nodes[..], fs.blockUsed[..], fs.owner, at + 1, 0)
    ensures !ok ==> !ClaimsSane(fs.nodes[..])
  {
    ghost var nodes := fs.nodes[..];
    var node := fs.nodes[at];
    var mayHold := node.used && node.kind == FileKind;
    var ended := false;
    for i := 0 to DIRECT_BLOCKS
      invariant ReadSoFar(nodes, fs.blockUsed[..], fs.owner, at, i)
      invariant ended <==> exists l :: 0 <= l < i && node.blocks[l] == NONE
    {
      var block := node.blocks[i];
      if block == NONE {
        ended := true;
        ReadEmpty(nodes, fs.blockUsed[..], fs.owner, at, i);
        continue;
      }
      if ended || !mayHold || block < 0 || block >= MAX_BLOCKS {
        assert !SlotSane(nodes[at], i);
        return false;
      }
      assert SlotSane(nodes[at], i);
      if fs.blockUsed[block] {
        ghost var c := fs.owner[block];
        assert ClaimRead(nodes, block, c, at, i);
        assert !SlotsApart(nodes, at, i, c.node, c.slot);
        return false;
      }
      ReadClaim(nodes, fs.blockUsed[..], fs.owner, at, i, block);
      fs.SetUsed(block, true);
      fs.owner := fs.owner[block := Claim(at, i)];
    }
    NodeRead(nodes, fs.blockUsed[..], fs.owner, at);
    return true;
  }

  lemma ReadAll(nodes: seq<Node>, used: seq<bool>, owner: Owner)
    requires |nodes| == MAX_NODES && ReadSoFar(nodes, used, owner, MAX_NODES, 0)
    ensures ClaimsSane(nodes) && Owned(nodes, used, owner, HeldOf(nodes))
  {
    var held := HeldOf(nodes);
    forall i, k | 0 <= i < |nodes| && 0 <= k < DIRECT_BLOCKS ensures SlotSane(nodes[i], k) {
      assert SlotRead(nodes, owner, i, k);
    }
    forall i, k, j, l | 0 <= i < |nodes| && 0 <= j < |nodes| && 0 <= k < DIRECT_BLOCKS && 0 <= l < DIRECT_BLOCKS
      ensures SlotsApart(nodes, i, k, j, l)
    {
      assert SlotRead(nodes, owner, i, k) && SlotRead(nodes, owner, j, l);
    }
    forall i | 0 <= i < |nodes|
      ensures held[i] <= DIRECT_BLOCKS
      ensures forall k :: 0 <= k < DIRECT_BLOCKS ==> (nodes[i].blocks[k] != NONE <==> k < held[i])
    {
      GapFree(nodes[i]);
    }
    forall i, k ensures SlotOk(nodes, owner, held, i, k) { assert SlotRead(nodes, owner, i, k); }
    forall b | b in owner ensures ClaimOk(nodes, held, b, owner[b]) {
      assert ClaimRead(nodes, b, owner[b], MAX_NODES, 0);
    }
  }

  /** Without gaps, the slots in use are the first ones. */
  lemma GapFree(n: Node)
    requires forall k :: 0 <= k < DIRECT_BLOCKS ==> SlotSane(n, k)
    ensures CountHeld(n.blocks) <= DIRECT_BLOCKS
    ensures forall k :: 0 <= k < DIRECT_BLOCKS ==> (n.blocks[k] != NONE <==> k < CountHeld(n.blocks))
  {
    var h := 0;
    while h < DIRECT_BLOCKS && n.blocks[h] != NONE
      invariant 0 <= h <= DIRECT_BLOCKS
      invariant forall k :: 0 <= k < h ==> n.blocks[k] != NONE
    {
      h := h + 1;
    }
    forall k | h <= k < DIRECT_BLOCKS ensures n.blocks[k] == NONE { assert SlotSane(n, k); }
    CountPrefix(n.blocks, h);
  }
}
