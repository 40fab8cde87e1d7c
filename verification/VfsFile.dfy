// What is inside a file: writing it, adding to it, and reading it back, byte
// by byte through the block lists (kernel/src/vfsfile.c).
module VfsFile {
  import opened Common
  import opened VfsTypes
  import opened VfsTree
  import opened VfsReroot
  import opened VfsNames
  import opened VfsSpec
  import opened VfsTable
  import opened VfsBlock
  import opened VfsPath
  import opened VfsLink

  // ----- where bytes live

  lemma SpotOwned(nodes: seq<Node>, used: seq<bool>, owner: Owner, held: seq<nat>, at: int, k: nat)
    requires Owned(nodes, used, owner, held) && 0 <= at < |nodes| && k < held[at] * BLOCK
    ensures k / BLOCK < held[at] <= DIRECT_BLOCKS
    ensures var p := Spot(nodes[at].blocks, k);
            0 <= p < MAX_BLOCKS * BLOCK && p / BLOCK in owner && owner[p / BLOCK] == Claim(at, k / BLOCK) && p % BLOCK == k % BLOCK
  {
    assert SlotOk(nodes, owner, held, at, k / BLOCK);
    var b := nodes[at].blocks[k / BLOCK];
    assert (b * BLOCK + k % BLOCK) / BLOCK == b;
  }

  /** Two bytes of one file live in different places. */
  lemma SpotsDiffer(nodes: seq<Node>, used: seq<bool>, owner: Owner, held: seq<nat>, at: int, j: nat, k: nat)
    requires Owned(nodes, used, owner, held) && 0 <= at < |nodes| && j < held[at] * BLOCK && k < held[at] * BLOCK &&
             j != k
    ensures j / BLOCK < held[at] <= DIRECT_BLOCKS && k / BLOCK < held[at]
    ensures Spot(nodes[at].blocks, j) != Spot(nodes[at].blocks, k)
  {
    SpotOwned(nodes, used, owner, held, at, j);
    SpotOwned(nodes, used, owner, held, at, k);
  }

  /** `vfsblock_at`: where byte `offset` of the node is, or `NONE`. */
  method BlockAt(fs: Vfs, at: int, offset: nat) returns (p: int)
    requires fs.Sized() && 0 <= at < MAX_NODES
    ensures p == if offset / BLOCK < DIRECT_BLOCKS && 0 <= fs.nodes[at].blocks[offset / BLOCK] < MAX_BLOCKS
                 then Spot(fs.nodes[at].blocks, offset) else NONE
  {
    var which := offset / BLOCK;
    if which >= DIRECT_BLOCKS { return NONE; }
    var block := fs.nodes[at].blocks[which];
    if block < 0 || block >= MAX_BLOCKS { return NONE; }
    return block * BLOCK + offset % BLOCK;
  }

  // ----- the store after a change to one file

  /** Bytes that belong to other nodes are as they were. */
  ghost predicate OthersKept(owner: Owner, at: int, pool: seq<Byte>, pool': seq<Byte>) {
    && |pool'| == |pool|
    && forall p :: 0 <= p < |pool| && p / BLOCK in owner && owner[p / BLOCK].node != at ==> pool'[p] == pool[p]
  }

  /** The first `n` bytes of node `at` read `data[..n]`. */
  ghost predicate Reads(node: Node, pool: seq<Byte>, data: seq<Byte>, n: nat) {
    n <= |data| && n <= FILE_MAX &&
    forall k :: 0 <= k < n ==> 0 <= Spot(node.blocks, k) < |pool| && pool[Spot(node.blocks, k)] == data[k]
  }

  lemma LinksAfterData(nodes: seq<Node>, t: Tree, nodes': seq<Node>, at: int, data: seq<Byte>)
    requires LinksRep(nodes, t) && 0 <= at < |t| && t[at].File?
    requires |nodes'| == |nodes|
    requires nodes' == nodes[at := nodes[at].(blocks := nodes'[at].blocks, length := nodes'[at].length)]
    ensures LinksRep(nodes', t[at := t[at].(data := data)])
  {
    var t' := t[at := t[at].(data := data)];
    forall i | 0 <= i < |t'| ensures EntryRep(nodes'[i], t'[i]) { assert EntryRep(nodes[i], t[i]); }
    forall d | 0 <= d < |t'| && t'[d].Dir? ensures Listed(nodes', nodes'[d].first, t'[d].kids) {
      assert Listed(nodes, nodes[d].first, t[d].kids);
      ListedSame(nodes, nodes', nodes[d].first, t[d].kids);
    }
  }

  /** Every file but `at` still reads what it did. */
  lemma ContentOfOthers(nodes: seq<Node>, used: seq<bool>, owner: Owner, held: seq<nat>, pool: seq<Byte>, t: Tree,
                        nodes': seq<Node>, pool': seq<Byte>, at: int, data: seq<Byte>)
    requires Owned(nodes, used, owner, held) && ContentRep(nodes, pool, t) && |pool| == MAX_BLOCKS * BLOCK
    requires forall i :: 0 <= i < |t| && i != at ==> held[i] == EntryBlocks(t[i])
    requires 0 <= at < |t| && t[at].File? && OthersKept(owner, at, pool, pool')
    requires |nodes'| == |nodes| && forall i :: 0 <= i < |nodes| && i != at ==> nodes'[i] == nodes[i]
    requires Content(nodes'[at], pool', data)
    ensures ContentRep(nodes', pool', t[at := t[at].(data := data)])
  {
    var t' := t[at := t[at].(data := data)];
    forall i | 0 <= i < |t'| && t'[i].File? ensures Content(nodes'[i], pool', t'[i].data) {
      if i != at {
        assert Content(nodes[i], pool, t[i].data);
        forall k | 0 <= k < |t[i].data|
          ensures 0 <= Spot(nodes[i].blocks, k) < |pool'| && pool'[Spot(nodes[i].blocks, k)] == t[i].data[k]
        {
          SpotOwned(nodes, used, owner, held, i, k);
        }
      }
    }
  }

  // ----- writing

  /** The byte loop of `vfs_append_bytes`, after the room is there. */
  method CopyIn(fs: Vfs, at: int, from: nat, data: seq<Byte>, ghost held: seq<nat>, ghost whole: seq<Byte>)
    requires fs.Sized() && 0 <= at < MAX_NODES && Owned(fs.nodes[..], fs.blockUsed[..], fs.owner, held)
    requires |whole| == from + |data| <= held[at] * BLOCK && whole[from..] == data
    requires Reads(fs.nodes[at], fs.pool[..], whole, from)
    modifies fs.pool
    ensures OthersKept(fs.owner, at, old(fs.pool[..]), fs.pool[..])
    ensures Reads(fs.nodes[at], fs.pool[..], whole, |whole|)
  {
    ghost var nodes := fs.nodes[..];
    for i := 0 to |data|
      invariant OthersKept(fs.owner, at, old(fs.pool[..]), fs.pool[..])
      invariant Reads(nodes[at], fs.pool[..], whole, from + i)
    {
      ghost var pool := fs.pool[..];
      SpotOwned(nodes, fs.blockUsed[..], fs.owner, held, at, from + i);
      assert SlotOk(nodes, fs.owner, held, at, (from + i) / BLOCK);
      var byte := BlockAt(fs, at, from + i);
      if byte == NONE { assert false; }
      fs.SetByte(byte, data[i]);
      forall k | 0 <= k < from + i ensures Spot(nodes[at].blocks, k) != byte {
        SpotsDiffer(nodes, fs.blockUsed[..], fs.owner, held, at, k, from + i);
      }
      assert data[i] == whole[from + i];
    }
  }

  /** The part of `vfs_append_bytes` after the file is found. */
  method AppendAt(fs: Vfs, at: int, data: seq<Byte>) returns (result: VfsResult)
    requires fs.Valid() && 0 <= at < MAX_NODES && fs.t[at].File?
    modifies fs`t, fs`owner, fs.nodes, fs.pool, fs.blockUsed
    ensures fs.Valid()
    ensures Outcome(result, fs.View()) == AppendTo(old(fs.View()), at, data)
  {
    ghost var t, nodes, pool, owner := fs.t, fs.nodes[..], fs.pool[..], fs.owner;
    ghost var old_, held := t[at].data, HeldBy(t);
    ghost var whole := old_ + data;
    assert Content(nodes[at], pool, old_) && EntryFits(t[at]);
    var length := fs.nodes[at].length;
    if length + |data| > FILE_MAX { return TooBig; }
    RoomFor(t, at, whole);
    var ok := Reserve(fs, at, BlocksFor(length + |data|), held);
    if !ok {
      StillHeld(nodes, owner, fs.blockUsed[..], pool, fs.pool[..], t);
      return NoSpace;
    }
    FinishAppend(fs, at, data, nodes, old(fs.blockUsed[..]), owner, pool);
    return Ok;
  }

  /** The bytes and the new length, once the blocks are there. */
  method FinishAppend(fs: Vfs, at: int, data: seq<Byte>,
                      ghost nodes: seq<Node>, ghost used: seq<bool>, ghost owner: Owner, ghost pool: seq<Byte>)
    requires fs.Sized() && FsOk(fs.View()) && 0 <= at < MAX_NODES && fs.t[at].File?
    requires LinksRep(nodes, fs.t) && Owned(nodes, used, owner, HeldBy(fs.t)) && ContentRep(nodes, pool, fs.t)
    requires |pool| == MAX_BLOCKS * BLOCK && HeldBytesKept(owner, pool, fs.pool[..])
    requires |fs.t[at].data + data| <= FILE_MAX
    requires Grown(nodes, owner, HeldBy(fs.t), fs.nodes[..], fs.blockUsed[..], fs.owner, at,
                   BlocksFor(|fs.t[at].data + data|))
    requires BlocksHeld(WithData(fs.View(), at, fs.t[at].data + data).t) <= MAX_BLOCKS
    modifies fs`t, fs.nodes, fs.pool
    ensures fs.Valid() && fs.View() == WithData(old(fs.View()), at, old(fs.t)[at].data + data)
  {
    ghost var t, held := fs.t, HeldBy(fs.t);
    ghost var old_ := t[at].data;
    ghost var whole := old_ + data;
    assert Content(nodes[at], pool, old_);
    RoomFor(t, at, whole);
    ghost var held' := held[at := BlocksFor(|whole|)];
    assert held[at] == BlocksFor(|whole|) ==> held' == held;
    GrownReads(nodes, used, owner, held, pool, fs.nodes[..], fs.blockUsed[..], fs.owner, fs.pool[..], at, whole, |old_|);
    ghost var nodes1, pool1 := fs.nodes[..], fs.pool[..];
    var length := fs.nodes[at].length;
    assert whole[length..] == data;
    CopyIn(fs, at, length, data, held', whole);
    fs.SetNode(at, fs.nodes[at].(length := length + |data|));
    fs.t := WithData(Fs(t, fs.cwd), at, whole).t;
    DataKeeps(Fs(t, fs.cwd), at, whole);
    StoreAfterAppend(nodes, used, owner, pool, t, nodes1, fs.blockUsed[..], fs.owner, pool1, fs.nodes[..], fs.pool[..], at, whole);
  }

  lemma RoomFor(t: Tree, at: int, whole: seq<Byte>)
    requires 0 <= at < |t| && t[at].File?
    ensures BlocksHeld(t[at := t[at].(data := whole)]) == SumOf(HeldBy(t)) - HeldBy(t)[at] + BlocksFor(|whole|)
    ensures SumOf(HeldBy(t)) == BlocksHeld(t)
    ensures |t[at].data| <= |whole| ==> HeldBy(t)[at] <= BlocksFor(|whole|)
    ensures |whole| <= FILE_MAX ==> BlocksFor(|whole|) <= DIRECT_BLOCKS
    ensures |whole| <= BlocksFor(|whole|) * BLOCK
  {
    HeldUpdate(t, at, t[at].(data := whole));
    SumHeldBy(t);
  }

  /** Reserving, even when refused, left every file's bytes where they were. */
  lemma StillHeld(nodes: seq<Node>, owner: Owner, used: seq<bool>, pool: seq<Byte>, pool': seq<Byte>, t: Tree)
    requires Owned(nodes, used, owner, HeldBy(t)) && ContentRep(nodes, pool, t) && |pool| == MAX_BLOCKS * BLOCK
    requires HeldBytesKept(owner, pool, pool')
    ensures ContentRep(nodes, pool', t)
  {
    forall i | 0 <= i < |t| && t[i].File? ensures Content(nodes[i], pool', t[i].data) {
      assert Content(nodes[i], pool, t[i].data);
      forall k | 0 <= k < |t[i].data|
        ensures 0 <= Spot(nodes[i].blocks, k) < |pool'| && pool'[Spot(nodes[i].blocks, k)] == t[i].data[k]
      {
        SpotOwned(nodes, used, owner, HeldBy(t), i, k);
      }
    }
  }

  /** The bytes there before are read through the grown block list too. */
  lemma GrownReads(nodes: seq<Node>, used: seq<bool>, owner: Owner, held: seq<nat>, pool: seq<Byte>,
                   nodes': seq<Node>, used': seq<bool>, owner': Owner, pool': seq<Byte>,
                   at: int, whole: seq<Byte>, n: nat)
    requires Owned(nodes, used, owner, held) && |pool| == MAX_BLOCKS * BLOCK
    requires Grown(nodes, owner, held, nodes', used', owner', at, BlocksFor(|whole|))
    requires HeldBytesKept(owner, pool, pool')
    requires n <= held[at] * BLOCK && Reads(nodes[at], pool, whole, n)
    ensures Reads(nodes'[at], pool', whole, n)
  {
    forall k | 0 <= k < n
      ensures 0 <= Spot(nodes'[at].blocks, k) < |pool'| && pool'[Spot(nodes'[at].blocks, k)] == whole[k]
    {
      SpotOwned(nodes, used, owner, held, at, k);
      assert nodes'[at].blocks[k / BLOCK] == nodes[at].blocks[k / BLOCK];
    }
  }

  lemma StoreAfterAppend(nodes: seq<Node>, used: seq<bool>, owner: Owner, pool: seq<Byte>, t: Tree,
                         nodes1: seq<Node>, used1: seq<bool>, owner1: Owner, pool1: seq<Byte>,
                         nodes2: seq<Node>, pool2: seq<Byte>, at: int, whole: seq<Byte>)
    requires LinksRep(nodes, t) && Owned(nodes, used, owner, HeldBy(t)) && ContentRep(nodes, pool, t)
    requires 0 <= at < |t| && t[at].File? && |whole| <= FILE_MAX && |t[at].data| <= |whole|
    requires |pool| == MAX_BLOCKS * BLOCK && HeldBytesKept(owner, pool, pool1)
    requires Grown(nodes, owner, HeldBy(t), nodes1, used1, owner1, at, BlocksFor(|whole|))
    requires OthersKept(owner1, at, pool1, pool2) && Reads(nodes1[at], pool2, whole, |whole|)
    requires nodes2 == nodes1[at := nodes1[at].(length := |whole|)]
    ensures var t' := t[at := t[at].(data := whole)];
            LinksRep(nodes2, t') && Owned(nodes2, used1, owner1, HeldBy(t')) && ContentRep(nodes2, pool2, t')
  {
    var t' := t[at := t[at].(data := whole)];
    var held, held' := HeldBy(t), HeldBy(t');
    RoomFor(t, at, whole);
    assert held' == held[at := BlocksFor(|whole|)];
    assert held' == if BlocksFor(|whole|) <= held[at] then held else held[at := BlocksFor(|whole|)];
    SameBlocksOwned(nodes1, nodes2, used1, owner1, held');
    LinksAfterData(nodes, t, nodes2, at, whole);
    forall p | 0 <= p < |pool| && p / BLOCK in owner && owner[p / BLOCK].node != at ensures pool2[p] == pool[p] {
      assert p / BLOCK in owner1;
    }
    ContentOfOthers(nodes, used, owner, held, pool, t, nodes2, pool2, at, whole);
  }

  lemma SameBlocksOwned(nodes: seq<Node>, nodes': seq<Node>, used: seq<bool>, owner: Owner, held: seq<nat>)
    requires Owned(nodes, used, owner, held) && |nodes'| == |nodes|
    requires forall i :: 0 <= i < |nodes| ==> nodes'[i].blocks == nodes[i].blocks
    ensures Owned(nodes', used, owner, held)
  {
    forall i, k ensures SlotOk(nodes', owner, held, i, k) { assert SlotOk(nodes, owner, held, i, k); }
    forall b | b in owner ensures ClaimOk(nodes', held, b, owner[b]) { assert ClaimOk(nodes, held, b, owner[b]); }
  }

  /** `file_for_writing`. */
  method FileForWriting(fs: Vfs, path: Text) returns (result: VfsResult, at: Int16)
    requires fs.Valid()
    modifies fs`t, fs.nodes
    ensures fs.Valid()
    ensures Target(result, fs.View(), at) == TargetFile(old(fs.View()), path)
    ensures result == Ok ==> 0 <= at < MAX_NODES && fs.t[at].File?
  {
    HolderLands(fs.t, fs.cwd, path);
    var found, _ := Walk(fs, path, false);
    if found == NONE {
      var made;
      made, found := MakeEntry(fs, path, FileKind);
      if made != Ok { return made, NONE; }
    }
    RepAt(fs, found);
    if fs.nodes[found].kind != FileKind { return IsADirectory, NONE; }
    return Ok, found;
  }

  /** `vfs_append_bytes`. */
  method AppendBytes(fs: Vfs, path: Text, data: seq<Byte>) returns (result: VfsResult)
    requires fs.Valid()
    modifies fs`t, fs`owner, fs.nodes, fs.pool, fs.blockUsed
    ensures fs.Valid()
    ensures Outcome(result, fs.View()) == Append(old(fs.View()), path, data)
  {
    var at;
    result, at := FileForWriting(fs, path);
    if result != Ok { return; }
    result := AppendAt(fs, at, data);
  }

  /** `vfsblock_release` on a file of the tree. */
  method EmptyFile(fs: Vfs, at: int)
    requires fs.Valid() && 0 <= at < MAX_NODES && fs.t[at].File?
    modifies fs`t, fs`owner, fs.nodes, fs.blockUsed
    ensures fs.Valid()
    ensures fs.View() == WithData(old(fs.View()), at, [])
  {
    ghost var t, nodes, used, owner := fs.t, fs.nodes[..], fs.blockUsed[..], fs.owner;
    ghost var held := HeldBy(t);
    Release(fs, at);
    fs.t := WithData(Fs(t, fs.cwd), at, []).t;
    EmptyingKeeps(Fs(t, fs.cwd), at);
    assert HeldBy(fs.t) == held[at := 0];
    LinksAfterData(nodes, t, fs.nodes[..], at, []);
    ContentOfOthers(nodes, used, owner, held, fs.pool[..], t, fs.nodes[..], fs.pool[..], at, []);
  }

  /** `vfs_write_bytes`. */
  method WriteBytes(fs: Vfs, path: Text, data: seq<Byte>) returns (result: VfsResult)
    requires fs.Valid()
    modifies fs`t, fs`owner, fs.nodes, fs.pool, fs.blockUsed
    ensures fs.Valid()
    ensures Outcome(result, fs.View()) == Write(old(fs.View()), path, data)
  {
    var at;
    result, at := FileForWriting(fs, path);
    if result != Ok { return; }
    TargetResolves(old(fs.View()), path);
    DataResolves(fs.View(), at, [], path);
    EmptyFile(fs, at);
    result := AppendBytes(fs, path, data);
  }

  // ----- reading

  /** `vfs_read`: as much of the file as the buffer holds, and a terminator. */
  method ReadFile(fs: Vfs, path: Text, out: array<Byte>) returns (result: VfsResult, length: nat)
    requires fs.Valid() && out != fs.pool
    modifies out
    ensures var at := Resolve(fs.t, fs.cwd, path);
            result == if out.Length == 0 then BadName
                      else if !InTree(fs.t, at) then NotFound
                      else if !fs.t[at].File? then IsADirectory
                      else Ok
    ensures result == Ok ==>
              var text := ReadBytes(fs.t[Resolve(fs.t, fs.cwd, path)].data, out.Length);
              length == |text| && length < out.Length && out[..length] == text && out[length] == 0
    ensures result != Ok ==> length == 0
  {
    length := 0;
    if out.Length == 0 { return BadName, length; }
    out[0] := 0;
    var at, _ := Walk(fs, path, false);
    if at == NONE { return NotFound, length; }
    RepAt(fs, at);
    if fs.nodes[at].kind != FileKind { return IsADirectory, length; }
    length := ReadInto(fs, at, out);
    result := Ok;
  }

  /** The loop over the bytes of the file. */
  method ReadInto(fs: Vfs, at: int, out: array<Byte>) returns (length: nat)
    requires fs.Valid() && out != fs.pool && out.Length > 0 && 0 <= at < MAX_NODES && fs.t[at].File?
    modifies out
    ensures length < out.Length && out[..length] == ReadBytes(fs.t[at].data, out.Length) && out[length] == 0
  {
    length := 0;
    ghost var nodes, data := fs.nodes[..], fs.t[at].data;
    assert Content(nodes[at], fs.pool[..], data);
    RoomFor(fs.t, at, data);
    while length < fs.nodes[at].length && length + 1 < out.Length
      invariant length <= |data| && length < out.Length
      invariant out[..length] == data[..length]
    {
      SpotOwned(nodes, fs.blockUsed[..], fs.owner, HeldBy(fs.t), at, length);
      assert SlotOk(nodes, fs.owner, HeldBy(fs.t), at, length / BLOCK);
      var byte := BlockAt(fs, at, length);
      if byte == NONE { assert false; }
      out[length] := fs.pool[byte];
      assert out[length] == data[length];
      length := length + 1;
    }
    out[length] := 0;
  }

  // ----- paths after a change

  lemma {:induction false} DataFollow(t: Tree, at: int, data: seq<Byte>, from: int, comps: seq<Text>)
    requires 0 <= at < |t| && t[at].File?
    ensures Follow(t[at := t[at].(data := data)], from, comps) == Follow(t, from, comps)
    decreases |comps|
  {
    if comps != [] && from != NONE {
      var t' := t[at := t[at].(data := data)];
      if 0 <= from < |t| && t[from].Dir? { DataNamed(t, at, data, t[from].kids, comps[0]); }
      DataFollow(t, at, data, Step(t, from, comps[0]), comps[1..]);
    }
  }

  lemma {:induction false} DataNamed(t: Tree, at: int, data: seq<Byte>, list: seq<int>, name: Text)
    requires 0 <= at < |t| && t[at].File?
    ensures FindNamed(t[at := t[at].(data := data)], list, name) == FindNamed(t, list, name)
  {
    if list != [] { DataNamed(t, at, data, list[1..], name); }
  }

  /** Changing a file's bytes changes no path. */
  lemma DataResolves(fs: Fs, at: int, data: seq<Byte>, path: Text)
    requires 0 <= at < |fs.t| && fs.t[at].File?
    ensures Resolve(WithData(fs, at, data).t, fs.cwd, path) == Resolve(fs.t, fs.cwd, path)
  {
    DataFollow(fs.t, at, data, StartAt(fs.cwd, path), Components(path));
  }

  lemma {:induction false} AddNamed(t: Tree, p: int, made: int, kind: Kind, name: Text, list: seq<int>, c: Text)
    requires 0 <= made < |t| && t[made].Free? && 0 <= p < |t| && t[p].Dir? && made !in list
    ensures FindNamed(AddEntry(t, p, made, kind, name), list, c) == FindNamed(t, list, c)
    ensures FindNamed(AddEntry(t, p, made, kind, name), list + [made], c) ==
            if FindNamed(t, list, c) != NONE then FindNamed(t, list, c) else if c == name then made else NONE
  {
    if list == [] {
      assert [] + [made] == [made];
    } else {
      assert (list + [made])[1..] == list[1..] + [made];
      AddNamed(t, p, made, kind, name, list[1..], c);
    }
  }

  /** Whatever a walk found, it still finds after an entry is added. */
  lemma {:induction false} AddFollow(t: Tree, p: int, made: int, kind: Kind, name: Text, from: int, comps: seq<Text>)
    requires MayAdd(t, p, made) && InTree(t, from)
    requires Follow(t, from, comps) != NONE
    ensures Follow(AddEntry(t, p, made, kind, name), from, comps) == Follow(t, from, comps)
    decreases |comps|
  {
    if comps != [] {
      var next := Step(t, from, comps[0]);
      assert ParentOk(t, from);
      assert next != NONE by { NowhereStays(t, comps[1..]); }
      if t[from].Dir? {
        assert KidsOk(t, from);
        AddNamed(t, p, made, kind, name, t[from].kids, comps[0]);
      }
      AddFollow(t, p, made, kind, name, next, comps[1..]);
    }
  }

  lemma NowhereStays(t: Tree, comps: seq<Text>)
    ensures Follow(t, NONE, comps) == NONE
  {
  }

  /** A path that was made resolves to the new entry. */
  lemma MadeResolves(fs: Fs, path: Text, kind: Kind)
    requires FsOk(fs) && MakeVerdict(fs, path) == Ok
    ensures Resolve(Made(fs, path, kind).t, fs.cwd, path) == FirstFree(fs.t, 1)
  {
    var t, t', h, made := fs.t, Made(fs, path, kind).t, Holder(fs.t, fs.cwd, path), FirstFree(fs.t, 1);
    var comps := Components(path);
    assert comps != [];
    var at := StartAt(fs.cwd, path);
    assert InTree(t, at) && MayAdd(t, h, made);
    AddFollow(t, h, made, kind, LastName(path), at, comps[..|comps| - 1]);
    assert KidsOk(t, h);
    AddNamed(t, h, made, kind, LastName(path), t[h].kids, LastName(path));
    HolderThenName(t', fs.cwd, path);
  }

  /** A path that already resolved still resolves to the same node. */
  lemma AddResolves(fs: Fs, path: Text, kind: Kind, other: Text)
    requires FsOk(fs) && MakeVerdict(fs, path) == Ok && Resolve(fs.t, fs.cwd, other) != NONE
    ensures Resolve(Made(fs, path, kind).t, fs.cwd, other) == Resolve(fs.t, fs.cwd, other)
  {
    var at := StartAt(fs.cwd, other);
    assert InTree(fs.t, at);
    AddFollow(fs.t, Holder(fs.t, fs.cwd, path), FirstFree(fs.t, 1), kind, LastName(path), at, Components(other));
  }

  lemma TargetResolves(fs: Fs, path: Text)
    requires FsOk(fs) && TargetFile(fs, path).result == Ok
    ensures var file := TargetFile(fs, path);
            Resolve(file.fs.t, file.fs.cwd, path) == file.at && 0 <= file.at < |file.fs.t| && file.fs.t[file.at].File?
  {
    HolderLands(fs.t, fs.cwd, path);
    if Resolve(fs.t, fs.cwd, path) == NONE { MadeResolves(fs, path, FileKind); }
  }
}
