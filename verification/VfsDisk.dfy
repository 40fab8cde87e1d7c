// Saving the filesystem and reading it back (kernel/src/vfsdisk.c,
// kernel/src/disk.c).
module VfsDisk {
  import opened Common
  import opened VfsTypes
  import opened VfsTree
  import opened VfsReroot
  import opened VfsSpec
  import opened VfsTable
  import opened VfsBlock
  import opened VfsLink
  import opened VfsFile
  import opened VfsFormat
  import opened VfsCheck
  import opened VfsSound

  const BLOCKS_AT: nat := 97
  const SECTORS: nat := 1121

  /** A device. `reported` is the size it gives, or 0 when it does not say, and
      `refuses` the sectors it will not read or write. */
  class Disk {
    var data: seq<Sector>
    const reported: nat
    const refuses: set<int>

    constructor (data: seq<Sector>, reported: nat, refuses: set<int>)
      ensures this.data == data && this.reported == reported && this.refuses == refuses
    {
      this.data, this.reported, this.refuses := data, reported, refuses;
    }

    predicate Answers(sector: int)
      reads this
    {
      (reported == 0 || sector < reported) && 0 <= sector < |data| && sector !in refuses
    }
  }

  /** `disk_read` of one sector. */
  method DiskRead(disk: Disk, sector: nat, out: array<Byte>) returns (ok: bool)
    requires out.Length == SECTOR
    modifies out
    ensures ok <==> disk.Answers(sector)
    ensures ok ==> out[..] == disk.data[sector]
  {
    if disk.reported != 0 && sector >= disk.reported { return false; }
    if sector >= |disk.data| || sector in disk.refuses { return false; }
    for i := 0 to SECTOR
      invariant forall k :: 0 <= k < i ==> out[k] == disk.data[sector][k]
    {
      out[i] := disk.data[sector][i];
    }
    return true;
  }

  /** `disk_write` of one sector. */
  method DiskWrite(disk: Disk, sector: nat, record: array<Byte>) returns (ok: bool)
    requires record.Length == SECTOR
    modifies disk`data
    ensures ok <==> old(disk.Answers(sector))
    ensures ok ==> disk.data == old(disk.data)[sector := record[..]]
    ensures !ok ==> disk.data == old(disk.data)
  {
    if disk.reported != 0 && sector >= disk.reported { return false; }
    if sector >= |disk.data| || sector in disk.refuses { return false; }
    disk.data := disk.data[sector := record[..]];
    return true;
  }

  // ----- what a saved disk holds

  ghost predicate IsBlock(s: Sector, pool: seq<Byte>, marked: bool, b: nat)
    requires |pool| == MAX_BLOCKS * BLOCK && b < MAX_BLOCKS
  {
    forall k :: 0 <= k < BLOCK ==> s[k] == if marked then pool[b * BLOCK + k] else 0
  }

  ghost predicate RecordSaved(data: seq<Sector>, nodes: seq<Node>, i: int) {
    0 <= i < |nodes| && 1 + i < |data| ==> IsRecord(data[1 + i], nodes[i])
  }

  ghost predicate BlockSaved(data: seq<Sector>, pool: seq<Byte>, used: seq<bool>, b: int)
    requires |pool| == MAX_BLOCKS * BLOCK && |used| == MAX_BLOCKS
  {
    0 <= b < MAX_BLOCKS && BLOCKS_AT + b < |data| ==> IsBlock(data[BLOCKS_AT + b], pool, used[b], b)
  }

  /** Sectors below `n` hold what a save writes there. */
  ghost predicate IsImage(data: seq<Sector>, nodes: seq<Node>, pool: seq<Byte>, used: seq<bool>, n: nat) {
    && |nodes| == MAX_NODES && |pool| == MAX_BLOCKS * BLOCK && |used| == MAX_BLOCKS && n <= |data| && n <= SECTORS
    && (0 < n ==> IsHeader(data[0]))
    && (forall i {:trigger RecordSaved(data, nodes, i)} :: 1 + i < n ==> RecordSaved(data, nodes, i))
    && (forall b {:trigger BlockSaved(data, pool, used, b)} :: BLOCKS_AT + b < n ==> BlockSaved(data, pool, used, b))
  }

  lemma ImageGrows(data: seq<Sector>, nodes: seq<Node>, pool: seq<Byte>, used: seq<bool>, n: nat, s: Sector)
    requires IsImage(data, nodes, pool, used, n) && n < SECTORS && n < |data|
    requires n == 0 ==> IsHeader(s)
    requires 1 <= n < BLOCKS_AT ==> IsRecord(s, nodes[n - 1])
    requires BLOCKS_AT <= n ==> IsBlock(s, pool, used[n - BLOCKS_AT], n - BLOCKS_AT)
    ensures IsImage(data[n := s], nodes, pool, used, n + 1)
  {
    var data', m := data[n := s], n + 1;
    forall i | 1 + i < m ensures RecordSaved(data', nodes, i) { assert 1 + i < n ==> RecordSaved(data, nodes, i); }
    forall b | BLOCKS_AT + b < m ensures BlockSaved(data', pool, used, b) {
      assert BLOCKS_AT + b < n ==> BlockSaved(data, pool, used, b);
    }
  }

  ghost predicate AllAnswer(disk: Disk)
    reads disk
  {
    forall s {:trigger disk.Answers(s)} :: 0 <= s < SECTORS ==> disk.Answers(s)
  }

  /** One block as it is written: zeros when nobody holds it. */
  method BlockRecord(fs: Vfs, b: nat, record: array<Byte>)
    requires fs.Sized() && b < MAX_BLOCKS && record.Length == SECTOR && record != fs.pool
    modifies record
    ensures IsBlock(record[..], fs.pool[..], fs.blockUsed[..][b], b)
  {
    for at := 0 to BLOCK
      invariant forall k :: 0 <= k < at ==> record[k] == if fs.blockUsed[b] then fs.pool[b * BLOCK + k] else 0
    {
      record[at] := if fs.blockUsed[b] then fs.pool[b * BLOCK + at] else 0;
    }
  }

  /** `vfsdisk_save`: the whole filesystem, or the first sector that would not
      be written. */
  method Save(fs: Vfs, disk: Disk?) returns (result: DiskResult)
    requires fs.Sized()
    modifies if disk == null then {} else {disk}
    ensures result == NoDisk <==> disk == null
    ensures result in {DiskOk, NoDisk, IoFailed}
    ensures disk != null ==>
              && (result == DiskOk <==> old(AllAnswer(disk)))
              && |disk.data| == |old(disk.data)|
              && (forall s :: SECTORS <= s < |disk.data| ==> disk.data[s] == old(disk.data)[s])
    ensures result == DiskOk ==>
              SECTORS <= |disk.data| && IsImage(disk.data, fs.nodes[..], fs.pool[..], fs.blockUsed[..], SECTORS)
  {
    if disk == null { return NoDisk; }
    var record := new Byte[SECTOR](_ => 0);
    ghost var nodes, pool, used := fs.nodes[..], fs.pool[..], fs.blockUsed[..];
    ghost var before := disk.data;
    WriteHeader(record);
    var ok := DiskWrite(disk, 0, record);
    if !ok {
      assert !old(disk.Answers(0));
      return IoFailed;
    }
    ImageGrows(before, nodes, pool, used, 0, record[..]);
    for n := 1 to SECTORS
      invariant |disk.data| == |before| && n <= |before|
      invariant IsImage(disk.data, nodes, pool, used, n)
      invariant forall s :: SECTORS <= s < |before| ==> disk.data[s] == before[s]
      invariant forall s :: 0 <= s < n ==> old(disk.Answers(s))
    {
      ok := SaveSector(fs, disk, n, record);
      if !ok {
        assert !old(disk.Answers(n));
        return IoFailed;
      }
    }
    return DiskOk;
  }

  /** Sector `n`: a node record or a block. */
  method SaveSector(fs: Vfs, disk: Disk, n: nat, record: array<Byte>) returns (ok: bool)
    requires fs.Sized() && 1 <= n < SECTORS && record.Length == SECTOR && record != fs.pool
    requires IsImage(disk.data, fs.nodes[..], fs.pool[..], fs.blockUsed[..], n)
    modifies disk`data, record
    ensures ok <==> old(disk.Answers(n))
    ensures |disk.data| == |old(disk.data)|
    ensures forall s :: SECTORS <= s < |disk.data| ==> disk.data[s] == old(disk.data)[s]
    ensures ok ==> n < |disk.data| && IsImage(disk.data, fs.nodes[..], fs.pool[..], fs.blockUsed[..], n + 1)
  {
    ghost var nodes, pool, used, data := fs.nodes[..], fs.pool[..], fs.blockUsed[..], disk.data;
    if n < BLOCKS_AT {
      WriteRecord(record, fs.nodes[n - 1]);
    } else {
      BlockRecord(fs, n - BLOCKS_AT, record);
    }
    ok := DiskWrite(disk, n, record);
    if ok { ImageGrows(data, nodes, pool, used, n, record[..]); }
  }

  // ----- what a disk says

  ghost function NodesOn(data: seq<Sector>): seq<Node>
    requires SECTORS <= |data|
  {
    seq(MAX_NODES, i requires 0 <= i < MAX_NODES => ReadRecord(data[1 + i]))
  }

  ghost function PoolOn(data: seq<Sector>): seq<Byte>
    requires SECTORS <= |data|
  {
    seq(MAX_BLOCKS * BLOCK, p requires 0 <= p < MAX_BLOCKS * BLOCK => data[BLOCKS_AT + p / BLOCK][p % BLOCK])
  }

  ghost function AllMarked(): seq<bool> { seq(MAX_BLOCKS, _ => true) }

  /** The table can become the filesystem: its claims on blocks are sane, its
      fields are, and its links spell a tree. */
  ghost predicate Acceptable(nodes: seq<Node>) {
    ClaimsSane(nodes) && AllSane(nodes, AllMarked()) && exists t :: SpellsTree(nodes, t)
  }

  ghost predicate HeaderOk(s: Sector) {
    && s[0..8] == MAGIC && Get32(s, 8) == VERSION && Get32(s, 12) == MAX_NODES && Get32(s, 16) == FILE_MAX
    && Get32(s, 20) == NAME_MAX && Get32(s, 24) == NODE_SECTORS && Get32(s, 28) == MAX_BLOCKS && Get32(s, 32) == BLOCK
  }

  /** After a rebuild the marks add nothing to what the claims already say. */
  lemma MarksAgree(nodes: seq<Node>, used: seq<bool>, owner: Owner)
    requires Owned(nodes, used, owner, HeldOf(nodes)) && ClaimsSane(nodes)
    ensures AllSane(nodes, used) <==> AllSane(nodes, AllMarked())
    ensures CheckStrays(nodes, used) <==> CheckStrays(nodes, AllMarked())
  {
    forall i, k | 0 <= i < |nodes| && 0 <= k < DIRECT_BLOCKS && nodes[i].blocks[k] != NONE
      ensures 0 <= nodes[i].blocks[k] < MAX_BLOCKS && used[nodes[i].blocks[k]]
    {
      assert SlotOk(nodes, owner, HeldOf(nodes), i, k);
    }
    forall i | 0 <= i < |nodes| ensures FieldsSane(nodes, used, i) <==> FieldsSane(nodes, AllMarked(), i) {
    }
    SameStrays(nodes, used, AllMarked());
    if AllSane(nodes, used) {
      forall i | 0 <= i < |nodes| && nodes[i].used ensures FieldsSane(nodes, AllMarked(), i) {
        assert FieldsSane(nodes, used, i);
      }
    }
    if AllSane(nodes, AllMarked()) {
      forall i | 0 <= i < |nodes| && nodes[i].used ensures FieldsSane(nodes, used, i) {
        assert FieldsSane(nodes, AllMarked(), i);
      }
    }
  }

  lemma SameStrays(nodes: seq<Node>, used: seq<bool>, used': seq<bool>)
    requires |used| == |used'| == MAX_BLOCKS
    requires forall i :: 0 <= i < |nodes| ==> (FieldsSane(nodes, used, i) <==> FieldsSane(nodes, used', i))
    ensures CheckStrays(nodes, used) <==> CheckStrays(nodes, used')
  {
    forall at ensures StraysAt(nodes, used, at) <==> StraysAt(nodes, used', at) { }
  }

  /** The tree an accepted table spells is a filesystem. */
  lemma AcceptedIsFs(nodes: seq<Node>, used: seq<bool>, owner: Owner, pool: seq<Byte>, kids: seq<seq<int>>)
    requires |nodes| == |kids| == MAX_NODES && |pool| == MAX_BLOCKS * BLOCK
    requires Owned(nodes, used, owner, HeldOf(nodes)) && ClaimsSane(nodes) && AllSane(nodes, used)
    requires SpellsTree(nodes, TreeOf(nodes, pool, kids))
    ensures var t := TreeOf(nodes, pool, kids);
            Owned(nodes, used, owner, HeldBy(t)) && ContentRep(nodes, pool, t) && FsOk(Fs(t, 0))
  {
    var t := TreeOf(nodes, pool, kids);
    forall i | 0 <= i < |t|
      ensures HeldOf(nodes)[i] == EntryBlocks(t[i]) && EntryFits(t[i])
      ensures t[i].File? ==> Content(nodes[i], pool, t[i].data)
      ensures t[i].Dir? ==> nodes[i].length == 0
    {
      if nodes[i].used {
        assert FieldsSane(nodes, used, i);
        if nodes[i].kind == FileKind { FileContent(nodes, used, owner, pool, i); }
      } else {
        forall k | 0 <= k < DIRECT_BLOCKS ensures nodes[i].blocks[k] == NONE { assert SlotSane(nodes[i], k); }
        CountPrefix(nodes[i].blocks, 0);
      }
    }
    assert HeldOf(nodes) == HeldBy(t);
    OwnerCount(nodes, used, owner, HeldBy(t));
    SumHeldBy(t);
    assert InTree(t, 0);
  }

  lemma FileContent(nodes: seq<Node>, used: seq<bool>, owner: Owner, pool: seq<Byte>, i: int)
    requires Owned(nodes, used, owner, HeldOf(nodes)) && 0 <= i < |nodes| && |pool| == MAX_BLOCKS * BLOCK
    requires nodes[i].length <= FILE_MAX && CountHeld(nodes[i].blocks) == BlocksFor(nodes[i].length)
    ensures Content(nodes[i], pool, DataOf(nodes[i], pool))
  {
    forall k | 0 <= k < nodes[i].length ensures 0 <= Spot(nodes[i].blocks, k) < |pool| {
      SpotOwned(nodes, used, owner, HeldOf(nodes), i, k);
    }
  }

  /** The sectors read into the table and the pool. */
  method ReadAllSectors(fs: Vfs, disk: Disk, record: array<Byte>) returns (ok: bool)
    requires fs.Sized() && record.Length == SECTOR
    requires record != fs.pool
    modifies record, fs.nodes, fs.pool
    ensures ok <==> forall s :: 1 <= s < SECTORS ==> disk.Answers(s)
    ensures ok ==> SECTORS <= |disk.data| && fs.nodes[..] == NodesOn(disk.data) && fs.pool[..] == PoolOn(disk.data)
  {
    for i := 0 to MAX_NODES
      invariant forall s :: 1 <= s < 1 + i ==> disk.Answers(s)
      invariant i < |disk.data| || i == 0
      invariant forall j :: 0 <= j < i ==> fs.nodes[j] == ReadRecord(disk.data[1 + j])
    {
      ok := DiskRead(disk, 1 + i, record);
      if !ok { return; }
      fs.nodes[i] := ReadRecord(record[..]);
    }
    for i := 0 to MAX_BLOCKS
      invariant forall s :: 1 <= s < BLOCKS_AT + i ==> disk.Answers(s)
      invariant BLOCKS_AT + i <= |disk.data|
      invariant forall j :: 0 <= j < MAX_NODES ==> fs.nodes[j] == ReadRecord(disk.data[1 + j])
      invariant forall p :: 0 <= p < i * BLOCK ==> fs.pool[p] == disk.data[BLOCKS_AT + p / BLOCK][p % BLOCK]
    {
      ok := DiskRead(disk, BLOCKS_AT + i, record);
      if !ok { return; }
      for at := 0 to BLOCK
        invariant forall j :: 0 <= j < MAX_NODES ==> fs.nodes[j] == ReadRecord(disk.data[1 + j])
        invariant forall p :: 0 <= p < i * BLOCK + at ==> fs.pool[p] == disk.data[BLOCKS_AT + p / BLOCK][p % BLOCK]
        invariant record[..] == disk.data[BLOCKS_AT + i]
      {
        fs.pool[i * BLOCK + at] := record[at];
        assert (i * BLOCK + at) / BLOCK == i && (i * BLOCK + at) % BLOCK == at;
      }
    }
    ok := true;
  }

  /** Judging the table reads outside it: the claims on blocks pass, and then a climb leads
      out past nodes the check has not come to. */
  ghost predicate JudgeStrays(nodes: seq<Node>) { ClaimsSane(nodes) && CheckStrays(nodes, AllMarked()) }

  /** A table that is accepted is judged without reading outside it. */
  lemma AcceptedStays(nodes: seq<Node>)
    requires Acceptable(nodes)
    ensures !JudgeStrays(nodes)
  {
    SaneNeverStrays(nodes, AllMarked());
  }

  /** The table judged before anybody walks it. */
  method JudgeTable(fs: Vfs, beyond: Int16 -> Int16) returns (ok: bool, strayed: bool)
    requires fs.Sized() && fs.cwd == 0
    modifies fs`owner, fs`t, fs.blockUsed
    ensures ok <==> Acceptable(fs.nodes[..])
    ensures strayed <==> JudgeStrays(fs.nodes[..])
    ensures ok ==> fs.Valid()
  {
    ghost var nodes := fs.nodes[..];
    strayed := false;
    ok := Rebuild(fs);
    if !ok { return; }
    ghost var kids;
    ok, strayed, kids := DiskSound(fs, beyond);
    MarksAgree(nodes, fs.blockUsed[..], fs.owner);
    if !ok {
      if Acceptable(nodes) {
        var t :| SpellsTree(nodes, t);
        TreeRoot(nodes, t);
      }
      return;
    }
    AcceptedIsFs(nodes, fs.blockUsed[..], fs.owner, fs.pool[..], kids);
    fs.t := TreeOf(nodes, fs.pool[..], kids);
  }

  /** Nothing of `fs` was touched. */
  twostate predicate Untouched(fs: Vfs)
    reads fs, fs.nodes, fs.pool, fs.blockUsed
  {
    fs.View() == old(fs.View()) && fs.owner == old(fs.owner) && fs.nodes[..] == old(fs.nodes[..]) &&
    fs.pool[..] == old(fs.pool[..]) && fs.blockUsed[..] == old(fs.blockUsed[..])
  }

  /** `vfsdisk_load`: for any disk at all, either a filesystem that can be
      walked, exactly when the table on it is acceptable, or the one that was
      there untouched when the header is refused, or an empty one. It reads outside the
      node table for exactly those disks whose records say so, all of them refused. */
  method Load(fs: Vfs, disk: Disk?, beyond: Int16 -> Int16) returns (result: DiskResult, strayed: bool)
    requires fs.Sized()
    modifies fs, fs.nodes, fs.pool, fs.blockUsed
    ensures disk == null ==> result == NoDisk
    ensures disk != null && !disk.Answers(0) ==> result == IoFailed
    ensures disk != null && disk.Answers(0) && !HeaderOk(disk.data[0]) ==> result in {NotFormatted, WrongVersion, WrongShape}
    ensures disk == null || !disk.Answers(0) || !HeaderOk(disk.data[0]) ==> Untouched(fs)
    ensures disk != null && disk.Answers(0) && HeaderOk(disk.data[0]) ==>
              && fs.Valid()
              && result in {DiskOk, IoFailed, Corrupt}
              && (result == IoFailed <==> !AllAnswer(disk))
              && (result != DiskOk ==> fs.View() == InitFs())
              && (result == DiskOk ==>
                    SECTORS <= |disk.data| && fs.nodes[..] == NodesOn(disk.data) && fs.pool[..] == PoolOn(disk.data) && fs.cwd == 0)
              && (AllAnswer(disk) ==> SECTORS <= |disk.data| && (result == DiskOk <==> Acceptable(NodesOn(disk.data))))
    ensures strayed <==>
              && disk != null && AllAnswer(disk) && SECTORS <= |disk.data| && HeaderOk(disk.data[0])
              && JudgeStrays(NodesOn(disk.data))
  {
    strayed := false;
    if disk == null { return NoDisk, strayed; }
    var record := new Byte[SECTOR](_ => 0);
    var ok := DiskRead(disk, 0, record);
    if !ok { return IoFailed, strayed; }
    result := JudgeHeader(record[..]);
    if result != DiskOk { return; }

    ok := ReadAllSectors(fs, disk, record);
    if !ok {
      Init(fs);
      return IoFailed, strayed;
    }
    assert AllAnswer(disk);
    result, strayed := Judge(fs, beyond);
  }

  /** What was read is kept when it is acceptable, and emptied when it is not. */
  method Judge(fs: Vfs, beyond: Int16 -> Int16) returns (result: DiskResult, strayed: bool)
    requires fs.Sized()
    modifies fs, fs.nodes, fs.blockUsed
    ensures fs.Valid() && result in {DiskOk, Corrupt}
    ensures result == DiskOk <==> Acceptable(old(fs.nodes[..]))
    ensures result == DiskOk ==> fs.nodes[..] == old(fs.nodes[..]) && fs.pool[..] == old(fs.pool[..]) && fs.cwd == 0
    ensures result != DiskOk ==> fs.View() == InitFs()
    ensures strayed <==> JudgeStrays(old(fs.nodes[..]))
  {
    fs.cwd := 0;
    var accepted;
    accepted, strayed := JudgeTable(fs, beyond);
    if !accepted { Init(fs); }
    result := if accepted then DiskOk else Corrupt;
  }

  // ----- a disk that makes the check stray

  /** A record with no blocks, no child and no sibling. */
  function LoneRecord(letter: Byte, kind: Byte, parentLow: Byte, parentHigh: Byte): Sector {
    seq(SECTOR, k =>
      if k == 0 then letter else if k == 24 then kind else if k == 25 then 1
      else if k == 26 then parentLow else if k == 27 then parentHigh
      else if 28 <= k < 32 || DATA_AT <= k < DATA_AT + 2 * DIRECT_BLOCKS then 255 else 0)
  }

  function Zeros(n: nat): (s: seq<Byte>)
    ensures |s| == n
  {
    seq(n, _ => 0)
  }

  function HeaderSector(): Sector {
    MAGIC + Le32(VERSION) + Le32(MAX_NODES) + Le32(FILE_MAX) + Le32(NAME_MAX) + Le32(NODE_SECTORS) + Le32(MAX_BLOCKS) +
    Le32(BLOCK) + Zeros(SECTOR - 36)
  }

  function StraySector(s: nat): Sector {
    if s == 0 then HeaderSector() else if s == 1 then LoneRecord(0, 0, 0, 0)
    else if s == 2 then LoneRecord(65, 1, 2, 0) else if s == 3 then LoneRecord(0, 0, 0x88, 0x13)
    else Zeros(SECTOR)
  }

  /** A root, a file "A" whose directory is node 2, and a node 2 whose parent is slot 5000
      of a table of 96. */
  function StrayingDisk(): (data: seq<Sector>)
    ensures |data| == SECTORS
  {
    seq<Sector>(SECTORS, s requires 0 <= s => StraySector(s))
  }

  lemma LoneRecordRead(letter: Byte, kind: Byte, parentLow: Byte, parentHigh: Byte)
    ensures var n := ReadRecord(LoneRecord(letter, kind, parentLow, parentHigh));
            && n.used && n.kind == (if kind == 0 then DirKind else FileKind) && n.first == NONE && n.next == NONE
            && n.length == 0 && n.blocks == NoBlocks() && n.parent == Get16([parentLow, parentHigh], 0)
            && n.name == [letter] + Zeros(23)
  {
    var s := LoneRecord(letter, kind, parentLow, parentHigh);
    assert s[28] == 255 && s[29] == 255 && s[30] == 255 && s[31] == 255;
    assert s[32] == 0 && s[33] == 0 && s[34] == 0 && s[35] == 0;
    forall k | 0 <= k < DIRECT_BLOCKS ensures Get16(s, DATA_AT + 2 * k) == NONE {
      assert s[DATA_AT + 2 * k] == 255 && s[DATA_AT + 2 * k + 1] == 255;
    }
    assert ReadRecord(s).blocks == NoBlocks();
    assert s[0..24] == [letter] + Zeros(23);
  }

  lemma HeaderSectorOk()
    ensures HeaderOk(HeaderSector())
  {
    var s := HeaderSector();
    assert s[0..8] == MAGIC;
    assert s[8..12] == Le32(VERSION) && s[12..16] == Le32(MAX_NODES) && s[16..20] == Le32(FILE_MAX);
    assert s[20..24] == Le32(NAME_MAX) && s[24..28] == Le32(NODE_SECTORS) && s[28..32] == Le32(MAX_BLOCKS);
    assert s[32..36] == Le32(BLOCK);
    assert IsHeader(s);
    HeaderRoundTrip(s);
  }

  /** Loading that disk reads outside the node table: the climb from node 1 goes through
      node 2 before anything has looked at node 2. */
  lemma LoadStrays()
    ensures HeaderOk(StrayingDisk()[0]) && JudgeStrays(NodesOn(StrayingDisk()))
  {
    HeaderSectorOk();
    var nodes := NodesOn(StrayingDisk());
    LoneRecordRead(0, 0, 0, 0);
    LoneRecordRead(65, 1, 2, 0);
    LoneRecordRead(0, 0, 0x88, 0x13);
    assert nodes[0] == ReadRecord(LoneRecord(0, 0, 0, 0)) && nodes[1] == ReadRecord(LoneRecord(65, 1, 2, 0));
    assert nodes[2] == ReadRecord(LoneRecord(0, 0, 0x88, 0x13));
    forall i | 3 <= i < MAX_NODES ensures nodes[i].blocks == NoBlocks() { assert nodes[i] == ReadRecord(Zeros(SECTOR)); }
    StrayingNodes(nodes);
  }

  lemma StrayingNodes(nodes: seq<Node>)
    requires |nodes| == MAX_NODES && RootSane(nodes) && nodes[0].name[0] == 0 && nodes[0].length == 0 &&
             nodes[0].first == NONE
    requires nodes[1].used && nodes[1].kind == FileKind && nodes[1].parent == 2 && nodes[1].length == 0
    requires nodes[1].first == NONE && nodes[1].next == NONE && nodes[1].name == [65] + Zeros(23)
    requires nodes[2].used && nodes[2].kind == DirKind && nodes[2].parent == 5000
    requires forall i :: 0 <= i < MAX_NODES ==> nodes[i].blocks == NoBlocks()
    ensures JudgeStrays(nodes)
  {
    var used, n := AllMarked(), |nodes|;
    CStringIs(nodes[1].name, 1);
    CountPrefix(NoBlocks(), 0);
    assert Strays(nodes, 5000, n - 2);
    assert Strays(nodes, 2, n - 1);
    assert Strays(nodes, 1, n);
    assert FieldsSane(nodes, used, 0) && FieldsSane(nodes, used, 1);
    assert Reaches(nodes, 0, n);
    assert StraysAt(nodes, used, 1);
  }

  // ----- where things are on the disk

  /** The disk as bytes, one sector after another. */
  ghost function DiskByte(data: seq<Sector>, at: nat): Byte
    requires at / 512 < |data|
  {
    data[at / 512][at % 512]
  }

  /** A saved filesystem on the disk: the magic first; the record of node `i` at byte
      512 * (1 + i), with its name, kind, mark, links and length in their places; and after
      96 records the pool, byte by byte where a block is in use. */
  lemma ImageLayout(data: seq<Sector>, nodes: seq<Node>, pool: seq<Byte>, used: seq<bool>, i: nat, k: nat, p: nat)
    requires |data| >= SECTORS && IsImage(data, nodes, pool, used, SECTORS)
    requires i < MAX_NODES && k < NAME_MAX && p < MAX_BLOCKS * BLOCK
    ensures var at := 512 * (1 + i);
            && (k < 8 ==> DiskByte(data, k) == MAGIC[k])
            && (!nodes[i].used ==> DiskByte(data, at + 25) == 0)
            && (nodes[i].used ==>
                  && DiskByte(data, at + k) == nodes[i].name[k]
                  && DiskByte(data, at + 24) == (if nodes[i].kind == FileKind then 1 else 0) && DiskByte(data, at + 25) == 1
                  && InTwo(DiskByte(data, at + 26), DiskByte(data, at + 27)) == nodes[i].parent
                  && InTwo(DiskByte(data, at + 28), DiskByte(data, at + 29)) == nodes[i].first
                  && InTwo(DiskByte(data, at + 30), DiskByte(data, at + 31)) == nodes[i].next)
            && DiskByte(data, 512 * 97 + p) == if used[p / 512] then pool[p] else 0
  {
    var s, at := data[1 + i], 512 * (1 + i);
    assert RecordSaved(data, nodes, i) && IsRecord(s, nodes[i]);
    SectorByte(data, 1 + i);
    FirstSector(data, k);
    if nodes[i].used { LinksInRecord(s, nodes[i], k); }
    var b := p / BLOCK;
    assert BlockSaved(data, pool, used, b);
    assert IsBlock(data[BLOCKS_AT + b], pool, used[b], b);
    PoolPlace(p);
  }

  lemma SectorByte(data: seq<Sector>, s: nat)
    requires s < |data|
    ensures forall k: nat {:trigger data[s][k]} :: k < SECTOR ==> (512 * s + k) / 512 < |data| && DiskByte(data, 512 * s + k) == data[s][k]
  {
    forall k: nat | k < SECTOR ensures (512 * s + k) / 512 < |data| && DiskByte(data, 512 * s + k) == data[s][k] {
      assert (512 * s + k) / 512 == s && (512 * s + k) % 512 == k;
    }
  }

  lemma FirstSector(data: seq<Sector>, k: nat)
    requires |data| > 0 && IsHeader(data[0]) && k < 512
    ensures DiskByte(data, k) == data[0][k] && (k < 8 ==> data[0][k] == MAGIC[k])
  {
    assert k < 8 ==> data[0][0..8][k] == data[0][k];
  }

  /** Two bytes, the low one first, as a signed number. */
  function InTwo(low: Byte, high: Byte): int {
    var v := low + 256 * high;
    if high >= 128 then v - 65536 else v
  }

  lemma LinksInRecord(s: Sector, n: Node, k: nat)
    requires IsRecord(s, n) && n.used && k < NAME_MAX
    ensures s[k] == n.name[k]
    ensures InTwo(s[26], s[27]) == n.parent && InTwo(s[28], s[29]) == n.first && InTwo(s[30], s[31]) == n.next
  {
    assert s[0..24][k] == s[k];
    assert s[26..28] == [s[26], s[27]] && s[28..30] == [s[28], s[29]] && s[30..32] == [s[30], s[31]];
    Two(n.parent);
    Two(n.first);
    Two(n.next);
  }

  lemma Two(v: Int16)
    ensures InTwo(Le16(v)[0], Le16(v)[1]) == v
  {
  }

  lemma PoolPlace(p: nat)
    ensures (512 * 97 + p) / 512 == BLOCKS_AT + p / BLOCK && (512 * 97 + p) % 512 == p % BLOCK
    ensures p / BLOCK * BLOCK + p % BLOCK == p
  {
  }
}
