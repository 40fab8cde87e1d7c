// The bytes on the disk: little-endian fields at fixed offsets
// (kernel/include/vfsdisk_format.h, kernel/src/vfsdisk_format.c).
module VfsFormat {
  import opened Common
  import opened VfsTypes
  import opened VfsTable

  const SECTOR: nat := 512
  const DATA_AT: nat := 64
  const NODE_SECTORS: nat := 1
  const VERSION: nat := 2
  /** "ME-OS FS". */
  const MAGIC: seq<Byte> := [77, 69, 45, 79, 83, 32, 70, 83]

  datatype DiskResult = DiskOk | NoDisk | IoFailed | NotFormatted | WrongVersion | WrongShape | Corrupt

  type Sector = s: seq<Byte> | |s| == SECTOR witness seq(SECTOR, _ => 0)

  // ----- numbers

  function Raw16(v: Int16): nat { if v < 0 then v + 0x1_0000 else v }

  function Le16(v: Int16): (s: seq<Byte>)
    ensures |s| == 2
  {
    [Raw16(v) % 256, Raw16(v) / 256]
  }

  function Le32(v: Uint32): (s: seq<Byte>)
    ensures |s| == 4
  {
    [v % 256, v / 256 % 256, v / 0x1_0000 % 256, v / 0x100_0000]
  }

  /** `get16`: the two bytes at `at`, as a signed number. */
  ghost function Power256(k: nat): (p: nat)
    ensures p > 0
  {
    if k == 0 then 1 else 256 * Power256(k - 1)
  }

  /** The byte at place `k` counts 256 to that power: the lowest comes first. */
  lemma LowestFirst(v: Uint32, k: nat)
    requires k < 4
    ensures Le32(v)[k] == v / Power256(k) % 256
    ensures v >= 0 && k < 2 && v < 0x8000 ==> Le16(v)[k] == v / Power256(k) % 256
  {
    assert Power256(1) == 256 * Power256(0) == 256;
    assert Power256(2) == 256 * Power256(1) == 0x1_0000;
    assert Power256(3) == 256 * Power256(2) == 0x100_0000;
  }

  function Get16(s: seq<Byte>, at: nat): Int16
    requires at + 2 <= |s|
  {
    var low: int, high: int := s[at], s[at + 1];
    var raw := low + 256 * high;
    if raw >= 0x8000 then raw - 0x1_0000 else raw
  }

  function Get32(s: seq<Byte>, at: nat): Uint32
    requires at + 4 <= |s|
  {
    var a: int, b: int, c: int, d: int := s[at], s[at + 1], s[at + 2], s[at + 3];
    a + 256 * b + 0x1_0000 * c + 0x100_0000 * d
  }

  lemma Get16Le(s: seq<Byte>, at: nat, v: Int16)
    requires at + 2 <= |s| && s[at..at + 2] == Le16(v)
    ensures Get16(s, at) == v
  {
    assert s[at] == s[at..at + 2][0] && s[at + 1] == s[at..at + 2][1];
  }

  lemma Get32Le(s: seq<Byte>, at: nat, v: Uint32)
    requires at + 4 <= |s| && s[at..at + 4] == Le32(v)
    ensures Get32(s, at) == v
  {
    var w := s[at..at + 4];
    assert s[at] == w[0] && s[at + 1] == w[1] && s[at + 2] == w[2] && s[at + 3] == w[3];
    assert v / 256 == v / 0x1_0000 * 256 + v / 256 % 256;
    assert v / 0x1_0000 == v / 0x100_0000 * 256 + v / 0x1_0000 % 256;
  }

  // ----- what a sector says

  /** The layout of the header sector. */
  ghost predicate IsHeader(s: Sector) {
    && s[0..8] == MAGIC
    && s[8..12] == Le32(VERSION)
    && s[12..16] == Le32(MAX_NODES)
    && s[16..20] == Le32(FILE_MAX)
    && s[20..24] == Le32(NAME_MAX)
    && s[24..28] == Le32(NODE_SECTORS)
    && s[28..32] == Le32(MAX_BLOCKS)
    && s[32..36] == Le32(BLOCK)
    && forall k :: 36 <= k < SECTOR ==> s[k] == 0
  }

  /** The layout of a node record: a free node is all zeros. */
  ghost predicate IsRecord(s: Sector, n: Node) {
    if !n.used then forall k :: 0 <= k < SECTOR ==> s[k] == 0
    else
      && s[0..24] == n.name
      && s[24] == (if n.kind == FileKind then 1 else 0)
      && s[25] == 1
      && s[26..28] == Le16(n.parent)
      && s[28..30] == Le16(n.first)
      && s[30..32] == Le16(n.next)
      && s[32..36] == Le32(n.length)
      && (forall k :: 36 <= k < DATA_AT ==> s[k] == 0)
      && (forall k :: 0 <= k < DIRECT_BLOCKS ==> s[DATA_AT + 2 * k..DATA_AT + 2 * k + 2] == Le16(n.blocks[k]))
      && (forall k :: DATA_AT + 2 * DIRECT_BLOCKS <= k < SECTOR ==> s[k] == 0)
  }

  /** `vfsdisk_read_node`, whatever the record holds. */
  function ReadRecord(s: Sector): Node {
    var used := s[25] != 0;
    RawNode(s[0..24], if s[24] == 0 then DirKind else FileKind, used,
            Get16(s, 26), Get16(s, 28), Get16(s, 30), Get32(s, 32),
            if used then seq(DIRECT_BLOCKS, k requires 0 <= k < DIRECT_BLOCKS => Get16(s, DATA_AT + 2 * k))
            else NoBlocks())
  }

  /** A used node comes back as it was; a free one comes back free and holding
      no blocks. */
  lemma RecordRoundTrip(s: Sector, n: Node)
    requires IsRecord(s, n)
    ensures n.used ==> ReadRecord(s) == n
    ensures !n.used ==> !ReadRecord(s).used && ReadRecord(s).blocks == NoBlocks()
  {
    if n.used {
      Get16Le(s, 26, n.parent);
      Get16Le(s, 28, n.first);
      Get16Le(s, 30, n.next);
      Get32Le(s, 32, n.length);
      forall k | 0 <= k < DIRECT_BLOCKS ensures Get16(s, DATA_AT + 2 * k) == n.blocks[k] {
        Get16Le(s, DATA_AT + 2 * k, n.blocks[k]);
      }
      assert ReadRecord(s).blocks == n.blocks;
    }
  }

  /** `vfsdisk_judge_header`: the first promise this build cannot keep. */
  method JudgeHeader(s: Sector) returns (r: DiskResult)
    ensures r == NotFormatted <==> s[0..8] != MAGIC
    ensures r == WrongVersion <==> s[0..8] == MAGIC && Get32(s, 8) != VERSION
    ensures r == DiskOk <==>
              && s[0..8] == MAGIC && Get32(s, 8) == VERSION && Get32(s, 12) == MAX_NODES && Get32(s, 16) == FILE_MAX
              && Get32(s, 20) == NAME_MAX && Get32(s, 24) == NODE_SECTORS && Get32(s, 28) == MAX_BLOCKS && Get32(s, 32) == BLOCK
    ensures r in {DiskOk, NotFormatted, WrongVersion, WrongShape}
  {
    for i := 0 to 8
      invariant s[0..i] == MAGIC[..i]
    {
      if s[i] != MAGIC[i] {
        assert s[0..8][i] != MAGIC[i];
        return NotFormatted;
      }
    }
    assert MAGIC[..8] == MAGIC;
    if Get32(s, 8) != VERSION { return WrongVersion; }
    if Get32(s, 12) != MAX_NODES || Get32(s, 16) != FILE_MAX || Get32(s, 20) != NAME_MAX ||
       Get32(s, 24) != NODE_SECTORS || Get32(s, 28) != MAX_BLOCKS || Get32(s, 32) != BLOCK {
      return WrongShape;
    }
    return DiskOk;
  }

  /** The header that is written is one that is accepted. */
  lemma HeaderRoundTrip(s: Sector)
    requires IsHeader(s)
    ensures s[0..8] == MAGIC && Get32(s, 8) == VERSION && Get32(s, 12) == MAX_NODES && Get32(s, 16) == FILE_MAX
    ensures Get32(s, 20) == NAME_MAX && Get32(s, 24) == NODE_SECTORS && Get32(s, 28) == MAX_BLOCKS &&
            Get32(s, 32) == BLOCK
  {
    Get32Le(s, 8, VERSION);
    Get32Le(s, 12, MAX_NODES);
    Get32Le(s, 16, FILE_MAX);
    Get32Le(s, 20, NAME_MAX);
    Get32Le(s, 24, NODE_SECTORS);
    Get32Le(s, 28, MAX_BLOCKS);
    Get32Le(s, 32, BLOCK);
  }

  // ----- writing, in place

  method Fill(at: array<Byte>, value: Byte)
    modifies at
    ensures forall k :: 0 <= k < at.Length ==> at[k] == value
  {
    for i := 0 to at.Length
      invariant forall k :: 0 <= k < i ==> at[k] == value
    {
      at[i] := value;
    }
  }

  /** `put16` at an offset. */
  method Put16(to: array<Byte>, at: nat, v: Int16)
    requires at + 2 <= to.Length
    modifies to
    ensures to[at..at + 2] == Le16(v)
    ensures forall k :: 0 <= k < to.Length && !(at <= k < at + 2) ==> to[k] == old(to[k])
  {
    var raw := if v < 0 then v + 0x1_0000 else v;
    to[at] := raw % 256;
    to[at + 1] := raw / 256;
  }

  /** `put32` at an offset. */
  method Put32(to: array<Byte>, at: nat, v: Uint32)
    requires at + 4 <= to.Length
    modifies to
    ensures to[at..at + 4] == Le32(v)
    ensures forall k :: 0 <= k < to.Length && !(at <= k < at + 4) ==> to[k] == old(to[k])
  {
    var rest := v;
    for i := 0 to 4
      invariant 0 <= rest && rest == if i == 0 then v else if i == 1 then v / 256 else if i == 2 then v / 0x1_0000
                                     else if i == 3 then v / 0x100_0000 else 0
      invariant forall k :: 0 <= k < i ==> to[at + k] == Le32(v)[k]
      invariant forall k :: 0 <= k < to.Length && !(at <= k < at + 4) ==> to[k] == old(to[k])
    {
      to[at + i] := rest % 256;
      rest := rest / 256;
    }
  }

  /** `vfsdisk_write_header`. */
  method WriteHeader(to: array<Byte>)
    requires to.Length == SECTOR
    modifies to
    ensures IsHeader(to[..])
  {
    Fill(to, 0);
    for i := 0 to 8
      invariant forall k :: 0 <= k < SECTOR ==> to[k] == if k < i then MAGIC[k] else 0
    {
      to[i] := MAGIC[i];
    }
    PutAll32(to);
    assert to[..][0..8] == MAGIC;
  }

  method PutAll32(to: array<Byte>)
    requires to.Length == SECTOR && forall k :: 36 <= k < SECTOR ==> to[k] == 0
    modifies to
    ensures forall k :: 0 <= k < 8 || 36 <= k < SECTOR ==> to[k] == old(to[k])
    ensures var s := to[..];
            && s[8..12] == Le32(VERSION) && s[12..16] == Le32(MAX_NODES) && s[16..20] == Le32(FILE_MAX)
            && s[20..24] == Le32(NAME_MAX) && s[24..28] == Le32(NODE_SECTORS) && s[28..32] == Le32(MAX_BLOCKS)
            && s[32..36] == Le32(BLOCK)
  {
    Put32(to, 8, VERSION);
    Put32(to, 12, MAX_NODES);
    Put32(to, 16, FILE_MAX);
    Put32(to, 20, NAME_MAX);
    Put32(to, 24, NODE_SECTORS);
    Put32(to, 28, MAX_BLOCKS);
    Put32(to, 32, BLOCK);
  }

  /** `vfsdisk_write_node`. */
  method WriteRecord(to: array<Byte>, n: Node)
    requires to.Length == SECTOR
    modifies to
    ensures IsRecord(to[..], n)
  {
    Fill(to, 0);
    if !n.used { return; }
    for i := 0 to NAME_MAX
      invariant forall k :: 0 <= k < SECTOR ==> to[k] == if k < i then n.name[k] else 0
    {
      to[i] := n.name[i];
    }
    to[24] := if n.kind == FileKind then 1 else 0;
    to[25] := 1;
    PutFields(to, n);
    PutBlocks(to, n);
    assert to[..][0..24] == n.name;
  }

  method PutFields(to: array<Byte>, n: Node)
    requires to.Length == SECTOR
    modifies to
    ensures forall k :: 0 <= k < 26 || 36 <= k < SECTOR ==> to[k] == old(to[k])
    ensures to[26..28] == Le16(n.parent) && to[28..30] == Le16(n.first) && to[30..32] == Le16(n.next)
    ensures to[32..36] == Le32(n.length)
  {
    Put16(to, 26, n.parent);
    Put16(to, 28, n.first);
    Put16(to, 30, n.next);
    Put32(to, 32, n.length);
  }

  method PutBlocks(to: array<Byte>, n: Node)
    requires to.Length == SECTOR
    modifies to
    ensures forall k :: 0 <= k < DATA_AT || DATA_AT + 2 * DIRECT_BLOCKS <= k < SECTOR ==> to[k] == old(to[k])
    ensures forall k :: 0 <= k < DIRECT_BLOCKS ==> to[DATA_AT + 2 * k..DATA_AT + 2 * k + 2] == Le16(n.blocks[k])
  {
    for i := 0 to DIRECT_BLOCKS
      invariant forall k :: 0 <= k < DATA_AT || DATA_AT + 2 * DIRECT_BLOCKS <= k < SECTOR ==> to[k] == old(to[k])
      invariant forall k :: 0 <= k < i ==> to[DATA_AT + 2 * k] == Le16(n.blocks[k])[0] && to[DATA_AT + 2 * k + 1] == Le16(n.blocks[k])[1]
    {
      Put16(to, DATA_AT + 2 * i, n.blocks[i]);
      assert to[DATA_AT + 2 * i] == to[DATA_AT + 2 * i..DATA_AT + 2 * i + 2][0];
      assert to[DATA_AT + 2 * i + 1] == to[DATA_AT + 2 * i..DATA_AT + 2 * i + 2][1];
    }
  }
}
