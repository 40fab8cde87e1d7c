// The block pool: taking, giving back, reserving all or nothing, and working
// the bitmap out again from what the files claim (kernel/src/vfsblock.c).
module VfsBlock {
  import opened Common
  import opened Counting
  import opened VfsTypes
  import opened VfsSpec
  import opened VfsTable

  // ----- counting what is held

  function SumOf(held: seq<nat>): nat {
    if held == [] then 0 else SumOf(held[..|held| - 1]) + held[|held| - 1]
  }

  lemma {:induction false} SumUpdate(held: seq<nat>, i: int, n: nat)
    requires 0 <= i < |held|
    ensures SumOf(held[i := n]) == SumOf(held) - held[i] + n
  {
    var last := |held| - 1;
    if i == last {
      assert held[i := n][..last] == held[..last];
    } else {
      assert held[i := n][..last] == held[..last][i := n];
      SumUpdate(held[..last], i, n);
    }
  }

  lemma {:induction false} SumHeldBy(t: Tree)
    ensures SumOf(HeldBy(t)) == BlocksHeld(t)
  {
    if t != [] {
      assert HeldBy(t)[..|t| - 1] == HeldBy(t[..|t| - 1]);
      SumHeldBy(t[..|t| - 1]);
    }
  }

  /** The blocks of nodes below `m`, and of node `m` the first `k`. */
  ghost function ClaimedBelow(owner: Owner, m: int, k: int): set<int> {
    set b | b in owner && (owner[b].node < m || (owner[b].node == m && owner[b].slot < k))
  }

  lemma {:induction false} ClaimsOfOne(nodes: seq<Node>, used: seq<bool>, owner: Owner, held: seq<nat>, m: nat, k: nat)
    requires Owned(nodes, used, owner, held) && m < |nodes| && k <= held[m]
    ensures |ClaimedBelow(owner, m, k)| == |ClaimedBelow(owner, m, 0)| + k
  {
    if k > 0 {
      ClaimsOfOne(nodes, used, owner, held, m, k - 1);
      var b := nodes[m].blocks[k - 1];
      assert SlotOk(nodes, owner, held, m, k - 1);
      forall c | c in ClaimedBelow(owner, m, k) && c !in ClaimedBelow(owner, m, k - 1) ensures c == b {
        assert ClaimOk(nodes, held, c, owner[c]);
      }
      assert ClaimedBelow(owner, m, k) == ClaimedBelow(owner, m, k - 1) + {b};
    }
  }

  lemma {:induction false} ClaimsBelow(nodes: seq<Node>, used: seq<bool>, owner: Owner, held: seq<nat>, m: nat)
    requires Owned(nodes, used, owner, held) && m <= |nodes|
    ensures |ClaimedBelow(owner, m, 0)| == SumOf(held[..m])
  {
    if m == 0 {
      forall b | b in owner ensures owner[b].node >= 0 && owner[b].slot >= 0 { assert ClaimOk(nodes, held, b, owner[b]); }
      assert ClaimedBelow(owner, 0, 0) == {};
    } else {
      ClaimsBelow(nodes, used, owner, held, m - 1);
      ClaimsOfOne(nodes, used, owner, held, m - 1, held[m - 1]);
      forall b | b in owner ensures b in ClaimedBelow(owner, m, 0) <==> b in ClaimedBelow(owner, m - 1, held[m - 1]) {
        assert ClaimOk(nodes, held, b, owner[b]);
      }
      assert ClaimedBelow(owner, m, 0) == ClaimedBelow(owner, m - 1, held[m - 1]);
      assert held[..m][..m - 1] == held[..m - 1];
    }
  }

  /** The blocks spoken for are as many as the nodes hold between them. */
  lemma OwnerCount(nodes: seq<Node>, used: seq<bool>, owner: Owner, held: seq<nat>)
    requires Owned(nodes, used, owner, held)
    ensures |owner| == SumOf(held) <= MAX_BLOCKS
  {
    ClaimsBelow(nodes, used, owner, held, |nodes|);
    assert held[..|nodes|] == held;
    forall b | b in owner ensures b in ClaimedBelow(owner, |nodes|, 0) {
      assert ClaimOk(nodes, held, b, owner[b]);
    }
    assert ClaimedBelow(owner, |nodes|, 0) == owner.Keys;
    SubsetSize(owner.Keys, Below(|used|));
  }

  // ----- the pool

  /** `vfsblock_take`: one free block, cleared, or `NONE` when there is none. */
  method Take(fs: Vfs) returns (b: Int16)
    requires fs.Sized()
    modifies fs.pool, fs.blockUsed
    ensures b == NONE ==>
              && (forall c :: 0 <= c < MAX_BLOCKS ==> fs.blockUsed[c])
              && fs.blockUsed[..] == old(fs.blockUsed[..]) && fs.pool[..] == old(fs.pool[..])
    ensures b != NONE ==>
              && 0 <= b < MAX_BLOCKS && !old(fs.blockUsed[b])
              && (forall c :: 0 <= c < b ==> old(fs.blockUsed[c]))
              && fs.blockUsed[..] == old(fs.blockUsed[..])[b := true]
              && ClearedBlock(old(fs.pool[..]), fs.pool[..], b)
  {
    for i := 0 to MAX_BLOCKS
      invariant forall c :: 0 <= c < i ==> fs.blockUsed[c]
      invariant fs.blockUsed[..] == old(fs.blockUsed[..]) && fs.pool[..] == old(fs.pool[..])
    {
      if fs.blockUsed[i] { continue; }
      fs.SetUsed(i, true);
      for at := 0 to BLOCK
        invariant fs.blockUsed[..] == old(fs.blockUsed[..])[i := true]
        invariant forall p :: 0 <= p < fs.pool.Length ==>
                    fs.pool[p] == if i * BLOCK <= p < i * BLOCK + at then 0 else old(fs.pool[p])
      {
        fs.pool[i * BLOCK + at] := 0;
      }
      return i;
    }
    return NONE;
  }

  /** Block `b` reads zero and every other byte is as it was. */
  ghost predicate ClearedBlock(pool: seq<Byte>, pool': seq<Byte>, b: int) {
    && |pool'| == |pool|
    && forall p :: 0 <= p < |pool| ==> pool'[p] == if b * BLOCK <= p < b * BLOCK + BLOCK then 0 else pool[p]
  }

  /** `vfsblock_give`. */
  method Give(fs: Vfs, b: Int16)
    requires fs.Sized()
    modifies fs.blockUsed
    ensures fs.blockUsed[..] ==
            if 0 <= b < MAX_BLOCKS then old(fs.blockUsed[..])[b := false] else old(fs.blockUsed[..])
  {
    if b >= 0 && b < MAX_BLOCKS { fs.SetUsed(b, false); }
  }

  function CountHeld(blocks: seq<Int16>): nat {
    if blocks == [] then 0
    else CountHeld(blocks[..|blocks| - 1]) + if blocks[|blocks| - 1] != NONE then 1 else 0
  }

  lemma {:induction false} CountPrefix(blocks: seq<Int16>, h: nat)
    requires h <= |blocks|
    requires forall k :: 0 <= k < |blocks| ==> (blocks[k] != NONE <==> k < h)
    ensures CountHeld(blocks) == h
  {
    if blocks != [] { CountPrefix(blocks[..|blocks| - 1], if h == |blocks| then h - 1 else h); }
  }

  /** `vfsblock_held`. */
  method Held(node: Node) returns (held: nat)
    ensures held == CountHeld(node.blocks)
  {
    held := 0;
    for i := 0 to DIRECT_BLOCKS
      invariant held == CountHeld(node.blocks[..i])
    {
      assert node.blocks[..i + 1][..i] == node.blocks[..i];
      if node.blocks[i] != NONE { held := held + 1; }
    }
    assert node.blocks[..DIRECT_BLOCKS] == node.blocks;
  }

  lemma HeldCount(nodes: seq<Node>, used: seq<bool>, owner: Owner, held: seq<nat>, at: int)
    requires Owned(nodes, used, owner, held) && 0 <= at < |nodes|
    ensures forall k :: 0 <= k < DIRECT_BLOCKS ==> (nodes[at].blocks[k] != NONE <==> k < held[at])
    ensures CountHeld(nodes[at].blocks) == held[at]
  {
    forall k | 0 <= k < DIRECT_BLOCKS ensures nodes[at].blocks[k] != NONE <==> k < held[at] {
      assert SlotOk(nodes, owner, held, at, k);
    }
    CountPrefix(nodes[at].blocks, held[at]);
  }

  /** What is left of `owner` when `at` gives up its slots below `i`. */
  ghost function Released(owner: Owner, at: int, i: int): Owner {
    map b | b in owner && !(owner[b].node == at && owner[b].slot < i) :: owner[b]
  }

  /** `vfsblock_release`: every block back, and the file empty. */
  method Release(fs: Vfs, at: int)
    requires fs.Sized() && 0 <= at < MAX_NODES
    requires exists held :: Owned(fs.nodes[..], fs.blockUsed[..], fs.owner, held)
    modifies fs`owner, fs.nodes, fs.blockUsed
    ensures fs.nodes[..] == old(fs.nodes[..])[at := old(fs.nodes[at]).(blocks := NoBlocks(), length := 0)]
    ensures fs.owner == Released(old(fs.owner), at, DIRECT_BLOCKS)
    ensures forall held :: Owned(old(fs.nodes[..]), old(fs.blockUsed[..]), old(fs.owner), held) ==>
              Owned(fs.nodes[..], fs.blockUsed[..], fs.owner, held[at := 0])
  {
    ghost var nodes, used, owner := fs.nodes[..], fs.blockUsed[..], fs.owner;
    ghost var held :| Owned(nodes, used, owner, held);
    forall b | b in owner ensures owner[b].slot >= 0 { assert ClaimOk(nodes, held, b, owner[b]); }
    for i := 0 to DIRECT_BLOCKS
      invariant fs.Sized()
      invariant |fs.nodes[at].blocks| == DIRECT_BLOCKS
      invariant forall k :: 0 <= k < DIRECT_BLOCKS ==>
                  fs.nodes[at].blocks[k] == if k < i then NONE else nodes[at].blocks[k]
      invariant fs.nodes[..] == nodes[at := nodes[at].(blocks := fs.nodes[at].blocks)]
      invariant forall b :: 0 <= b < MAX_BLOCKS ==> (fs.blockUsed[b] <==> b in Released(owner, at, i))
    {
      var b := fs.nodes[at].blocks[i];
      Give(fs, b);
      forall c | c in owner && owner[c] == Claim(at, i) ensures c == b { assert ClaimOk(nodes, held, c, owner[c]); }
      assert SlotOk(nodes, owner, held, at, i);
      fs.SetNode(at, fs.nodes[at].(blocks := fs.nodes[at].blocks[i := NONE]));
    }
    assert fs.nodes[at].blocks == NoBlocks();
    fs.SetNode(at, fs.nodes[at].(length := 0));
    fs.owner := Released(owner, at, DIRECT_BLOCKS);
    forall h | Owned(nodes, used, owner, h)
      ensures Owned(fs.nodes[..], fs.blockUsed[..], fs.owner, h[at := 0])
    {
      ReleaseKeeps(nodes, used, owner, h, fs.nodes[..], fs.blockUsed[..], at);
    }
  }

  lemma ReleaseKeeps(nodes: seq<Node>, used: seq<bool>, owner: Owner, held: seq<nat>,
                     nodes': seq<Node>, used': seq<bool>, at: int)
    requires Owned(nodes, used, owner, held) && 0 <= at < |nodes|
    requires nodes' == nodes[at := nodes[at].(blocks := NoBlocks(), length := 0)]
    requires |used'| == MAX_BLOCKS
    requires forall b :: 0 <= b < MAX_BLOCKS ==> (used'[b] <==> b in Released(owner, at, DIRECT_BLOCKS))
    ensures Owned(nodes', used', Released(owner, at, DIRECT_BLOCKS), held[at := 0])
  {
    var owner' := Released(owner, at, DIRECT_BLOCKS);
    var held' := held[at := 0];
    forall i, k ensures SlotOk(nodes', owner', held', i, k) { assert SlotOk(nodes, owner, held, i, k); }
    forall b | b in owner' ensures 0 <= b < MAX_BLOCKS && ClaimOk(nodes', held', b, owner'[b]) {
      assert ClaimOk(nodes, held, b, owner[b]);
    }
  }

  /** `owner` with `taken` joined on as the next slots of `at`. */
  ghost function Granted(owner: Owner, at: int, h: int, taken: seq<int>): Owner {
    map b | b in owner.Keys + (set x | x in taken) ::
      if b in owner then owner[b] else Claim(at, h + IndexIn(taken, b))
  }

  ghost function IndexIn(s: seq<int>, x: int): (k: int)
    ensures x in s ==> 0 <= k < |s| && s[k] == x
  {
    if x in s then (var k :| 0 <= k < |s| && s[k] == x; k) else NONE
  }

  /** Bytes of blocks that had a holder are as they were. */
  ghost predicate HeldBytesKept(owner: Owner, pool: seq<Byte>, pool': seq<Byte>) {
    && |pool'| == |pool|
    && forall p :: 0 <= p < |pool| && p / BLOCK in owner ==> pool'[p] == pool[p]
  }

  /** The taking half of `vfsblock_reserve`: `count` blocks, or, when the pool
      runs out part way, every one of them back. */
  method TakeMany(fs: Vfs, count: nat) returns (ok: bool, taken: seq<Int16>)
    requires fs.Sized() && Marked(fs.blockUsed[..], fs.owner)
    modifies fs.blockUsed, fs.pool
    ensures HeldBytesKept(fs.owner, old(fs.pool[..]), fs.pool[..])
    ensures ok ==> |taken| == count && TakenFrom(old(fs.blockUsed[..]), fs.blockUsed[..], taken)
    ensures !ok ==> fs.blockUsed[..] == old(fs.blockUsed[..]) && |fs.owner| + count > MAX_BLOCKS
  {
    ghost var used := fs.blockUsed[..];
    taken := [];
    while |taken| < count
      invariant |taken| <= count
      invariant TakenFrom(used, fs.blockUsed[..], taken)
      invariant HeldBytesKept(fs.owner, old(fs.pool[..]), fs.pool[..])
    {
      ghost var pool, marks := fs.pool[..], fs.blockUsed[..];
      var block := Take(fs);
      if block == NONE {
        AllTaken(used, fs.owner, fs.blockUsed[..], taken);
        GiveBack(fs, used, taken);
        return false, [];
      }
      assert marks[block] == old(fs.blockUsed[block]) || block in taken;
      ClearedFree(fs.owner, pool, fs.pool[..], block);
      taken := taken + [block];
    }
    ok := true;
  }

  method GiveBack(fs: Vfs, ghost used: seq<bool>, taken: seq<Int16>)
    requires fs.Sized() && TakenFrom(used, fs.blockUsed[..], taken)
    modifies fs.blockUsed
    ensures fs.blockUsed[..] == used
  {
    for back := 0 to |taken|
      invariant TakenFrom(used, fs.blockUsed[..], taken[back..])
    {
      assert taken[back..][0] == taken[back] && taken[back..][1..] == taken[back + 1..];
      Give(fs, taken[back]);
    }
  }

  lemma ClearedFree(owner: Owner, pool: seq<Byte>, pool': seq<Byte>, b: int)
    requires ClearedBlock(pool, pool', b) && b !in owner
    ensures HeldBytesKept(owner, pool, pool')
  {
    forall p | 0 <= p < |pool| && p / BLOCK in owner ensures pool'[p] == pool[p] {
      assert p / BLOCK != b;
    }
  }

  /** Node `at` came to hold `wanted` blocks; the ones it held, and everything
      else, stayed. */
  ghost predicate Grown(nodes: seq<Node>, owner: Owner, held: seq<nat>,
                        nodes': seq<Node>, used': seq<bool>, owner': Owner, at: int, wanted: nat)
  {
    && |held| == |nodes| == |nodes'| && 0 <= at < |nodes|
    && Owned(nodes', used', owner', if wanted <= held[at] then held else held[at := wanted])
    && nodes' == nodes[at := nodes[at].(blocks := nodes'[at].blocks)]
    && (forall k :: 0 <= k < held[at] && k < DIRECT_BLOCKS ==> nodes'[at].blocks[k] == nodes[at].blocks[k])
    && (forall b :: b in owner ==> b in owner' && owner'[b] == owner[b])
  }

  lemma GrantGrows(nodes: seq<Node>, used: seq<bool>, owner: Owner, held: seq<nat>,
                   nodes': seq<Node>, used': seq<bool>, at: int, taken: seq<int>)
    requires Owned(nodes, used, owner, held) && 0 <= at < |nodes|
    requires TakenFrom(used, used', taken) && held[at] + |taken| <= DIRECT_BLOCKS && taken != []
    requires |nodes'| == |nodes| && nodes' == nodes[at := nodes[at].(blocks := nodes'[at].blocks)]
    requires forall k :: 0 <= k < DIRECT_BLOCKS ==>
               nodes'[at].blocks[k] ==
               if held[at] <= k < held[at] + |taken| then taken[k - held[at]] else nodes[at].blocks[k]
    ensures Grown(nodes, owner, held, nodes', used', Granted(owner, at, held[at], taken), at, held[at] + |taken|)
    ensures SumOf(held) + |taken| <= MAX_BLOCKS
  {
    var held' := held[at := held[at] + |taken|];
    GrantKeeps(nodes, used, owner, held, nodes', used', at, taken);
    assert held[at] < held[at] + |taken|;
    GrantFits(nodes', used', Granted(owner, at, held[at], taken), held, at, |taken|);
  }

  lemma GrantFits(nodes: seq<Node>, used: seq<bool>, owner: Owner, held: seq<nat>, at: nat, more: nat)
    requires at < |held| && Owned(nodes, used, owner, held[at := held[at] + more])
    ensures SumOf(held) + more <= MAX_BLOCKS
  {
    SumUpdate(held, at, held[at] + more);
    OwnerCount(nodes, used, owner, held[at := held[at] + more]);
  }

  /** The handing-out half: into the node only once every block came back. */
  method Grant(fs: Vfs, at: int, taken: seq<Int16>, ghost used: seq<bool>, ghost held: seq<nat>)
    requires fs.Sized() && 0 <= at < MAX_NODES
    requires Owned(fs.nodes[..], used, fs.owner, held) && TakenFrom(used, fs.blockUsed[..], taken)
    requires held[at] + |taken| <= DIRECT_BLOCKS && taken != []
    modifies fs`owner, fs.nodes
    ensures SumOf(held) + |taken| <= MAX_BLOCKS
    ensures Grown(old(fs.nodes[..]), old(fs.owner), held, fs.nodes[..], fs.blockUsed[..], fs.owner, at, held[at] + |taken|)
  {
    ghost var nodes, owner := fs.nodes[..], fs.owner;
    HeldCount(nodes, used, owner, held, at);
    FillSlots(fs, at, held[at], taken);
    fs.owner := Granted(owner, at, held[at], taken);
    GrantGrows(nodes, used, owner, held, fs.nodes[..], fs.blockUsed[..], at, taken);
  }

  /** `vfsblock_reserve`: all or nothing. It succeeds exactly when the pool can
      cover the whole request, and a refusal takes nothing. */
  method Reserve(fs: Vfs, at: int, wanted: nat, ghost held: seq<nat>) returns (ok: bool)
    requires fs.Sized() && 0 <= at < MAX_NODES
    requires Owned(fs.nodes[..], fs.blockUsed[..], fs.owner, held)
    modifies fs`owner, fs.nodes, fs.blockUsed, fs.pool
    ensures HeldBytesKept(old(fs.owner), old(fs.pool[..]), fs.pool[..])
    ensures ok <==> wanted <= DIRECT_BLOCKS && (wanted <= held[at] || SumOf(held) - held[at] + wanted <= MAX_BLOCKS)
    ensures !ok ==>
              fs.nodes[..] == old(fs.nodes[..]) && fs.blockUsed[..] == old(fs.blockUsed[..]) && fs.owner == old(fs.owner)
    ensures ok ==> Grown(old(fs.nodes[..]), old(fs.owner), held, fs.nodes[..], fs.blockUsed[..], fs.owner, at, wanted)
  {
    ghost var nodes, used, owner := fs.nodes[..], fs.blockUsed[..], fs.owner;
    OwnerCount(nodes, used, owner, held);
    HeldCount(nodes, used, owner, held, at);
    if wanted > DIRECT_BLOCKS { return false; }
    var h := Held(fs.nodes[at]);
    if h >= wanted { return true; }

    var got, taken := TakeMany(fs, wanted - h);
    if !got { return false; }
    Grant(fs, at, taken, used, held);
    ok := true;
  }

  /** `used'` is `used` with the blocks of `taken`, free before, marked. */
  ghost predicate TakenFrom(used: seq<bool>, used': seq<bool>, taken: seq<int>) {
    && |used'| == |used| == MAX_BLOCKS
    && (forall k :: 0 <= k < |taken| ==> 0 <= taken[k] < MAX_BLOCKS && !used[taken[k]])
    && (forall j, k :: 0 <= j < k < |taken| ==> taken[j] != taken[k])
    && (forall b :: 0 <= b < MAX_BLOCKS ==> (used'[b] <==> used[b] || b in taken))
  }

  lemma AllTaken(used: seq<bool>, owner: Owner, used': seq<bool>, taken: seq<int>)
    requires Marked(used, owner) && TakenFrom(used, used', taken)
    requires forall b :: 0 <= b < MAX_BLOCKS ==> used'[b]
    ensures |owner| + |taken| == MAX_BLOCKS
  {
    var s := set x | x in taken;
    DistinctSize(taken);
    DisjointCover(owner.Keys, s, |used|);
  }

  lemma DisjointCover(a: set<int>, b: set<int>, n: nat)
    requires a !! b && forall x :: x in a || x in b <==> 0 <= x < n
    ensures |a| + |b| == n
  {
    assert a + b == Below(n);
  }

  lemma {:induction false} DistinctSize(s: seq<int>)
    requires forall j, k :: 0 <= j < k < |s| ==> s[j] != s[k]
    ensures |set x | x in s| == |s|
  {
    if s == [] {
      assert (set x | x in s) == {};
    } else {
      var last := |s| - 1;
      DistinctSize(s[..last]);
      assert (set x | x in s) == (set x | x in s[..last]) + {s[last]};
    }
  }

  /** The taken blocks go into the first free slots of the node. */
  method FillSlots(fs: Vfs, at: int, ghost h: nat, taken: seq<Int16>)
    requires fs.Sized() && 0 <= at < MAX_NODES && h + |taken| <= DIRECT_BLOCKS
    requires forall k :: 0 <= k < DIRECT_BLOCKS ==> (fs.nodes[at].blocks[k] != NONE <==> k < h)
    requires forall k :: 0 <= k < |taken| ==> taken[k] != NONE
    modifies fs.nodes
    ensures NodeSized(fs.nodes[at])
    ensures fs.nodes[..] == old(fs.nodes[..])[at := old(fs.nodes[at]).(blocks := fs.nodes[at].blocks)]
    ensures forall k :: 0 <= k < DIRECT_BLOCKS ==>
              fs.nodes[at].blocks[k] == if h <= k < h + |taken| then taken[k - h] else old(fs.nodes[at]).blocks[k]
  {
    var next, i := 0, 0;
    while i < DIRECT_BLOCKS && next < |taken|
      invariant 0 <= i <= DIRECT_BLOCKS && 0 <= next <= |taken|
      invariant next == if i <= h then 0 else if i - h <= |taken| then i - h else |taken|
      invariant fs.nodes[..] == old(fs.nodes[..])[at := old(fs.nodes[at]).(blocks := fs.nodes[at].blocks)]
      invariant NodeSized(fs.nodes[at])
      invariant forall k :: 0 <= k < DIRECT_BLOCKS ==>
                  fs.nodes[at].blocks[k] ==
                  if h <= k < h + |taken| && k < i then taken[k - h] else old(fs.nodes[at]).blocks[k]
    {
      if fs.nodes[at].blocks[i] == NONE {
        fs.SetNode(at, fs.nodes[at].(blocks := fs.nodes[at].blocks[i := taken[next]]));
        next := next + 1;
      }
      i := i + 1;
    }
  }

  lemma GrantMarks(used: seq<bool>, owner: Owner, used': seq<bool>, at: int, h: int, taken: seq<int>)
    requires Marked(used, owner) && TakenFrom(used, used', taken)
    ensures Marked(used', Granted(owner, at, h, taken))
  {
  }

  lemma GrantKeeps(nodes: seq<Node>, used: seq<bool>, owner: Owner, held: seq<nat>,
                   nodes': seq<Node>, used': seq<bool>, at: int, taken: seq<int>)
    requires Owned(nodes, used, owner, held) && 0 <= at < |nodes|
    requires TakenFrom(used, used', taken) && held[at] + |taken| <= DIRECT_BLOCKS
    requires |nodes'| == |nodes| && forall i :: 0 <= i < |nodes| && i != at ==> nodes'[i].blocks == nodes[i].blocks
    requires forall k :: 0 <= k < DIRECT_BLOCKS ==>
               nodes'[at].blocks[k] ==
               if held[at] <= k < held[at] + |taken| then taken[k - held[at]] else nodes[at].blocks[k]
    ensures Owned(nodes', used', Granted(owner, at, held[at], taken), held[at := held[at] + |taken|])
  {
    var owner' := Granted(owner, at, held[at], taken);
    var held' := held[at := held[at] + |taken|];
    GrantMarks(used, owner, used', at, held[at], taken);
    forall b | b in owner' ensures ClaimOk(nodes', held', b, owner'[b]) {
      if b in owner { assert ClaimOk(nodes, held, b, owner[b]); }
    }
    forall i, k ensures SlotOk(nodes', owner', held', i, k) {
      assert SlotOk(nodes, owner, held, i, k);
      if i == at && held[at] <= k < held'[at] {
        var b := taken[k - held[at]];
        assert b in taken && b !in owner;
      }
    }
  }
}
