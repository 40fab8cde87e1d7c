// The page table format (kernel/src/paging.c): the bit arithmetic on 64-bit
// words, and the reading of an entry as a frame with named permissions that the
// walk is modelled on.
module Paging {
  import opened Common
  import opened Pmm

  const ENTRIES: nat := 512
  const PTE_PRESENT: bv64 := 1
  const PTE_WRITE: bv64 := 2
  const PTE_USER: bv64 := 4
  const PTE_HUGE: bv64 := 0x80
  const PTE_NX: bv64 := 0x8000_0000_0000_0000
  const PTE_ADDR_MASK: bv64 := 0x000F_FFFF_FFFF_F000

  /** `paging_entry`. */
  function RawEntry(phys: bv64, flags: bv64): bv64 { (phys & PTE_ADDR_MASK) | flags }

  function RawAddr(entry: bv64): bv64 { entry & PTE_ADDR_MASK }

  /** `paging_parent_flags`. */
  function RawParentFlags(leaf: bv64): bv64 {
    if leaf & PTE_USER != 0 then PTE_PRESENT | PTE_WRITE | PTE_USER else PTE_PRESENT | PTE_WRITE
  }

  /** The flags of an entry, with the bits this kernel acts on named and the
      others kept as they are. */
  datatype Flags = Flags(present: bool, write: bool, user: bool, huge: bool, nx: bool, rest: bv64)

  function FlagsOf(entry: bv64): Flags {
    Flags(entry & PTE_PRESENT != 0, entry & PTE_WRITE != 0, entry & PTE_USER != 0, entry & PTE_HUGE != 0,
          entry & PTE_NX != 0,
          entry & !(PTE_ADDR_MASK | PTE_PRESENT | PTE_WRITE | PTE_USER | PTE_HUGE | PTE_NX))
  }

  function OrFlags(a: Flags, b: Flags): Flags {
    Flags(a.present || b.present, a.write || b.write, a.user || b.user, a.huge || b.huge, a.nx || b.nx, a.rest | b.rest)
  }

  const NO_FLAGS: Flags := Flags(false, false, false, false, false, 0)

  function ParentFlags(leaf: Flags): Flags { Flags(true, true, leaf.user, false, false, 0) }

  /** Where the flags are (section 4.5 of the Intel SDM, volume 3A): present, writable, user
      and large are bits 0, 1, 2 and 7, and no-execute is bit 63. */
  lemma EntryBits(e: bv64)
    ensures FlagsOf(e).present <==> e & 1 == 1
    ensures FlagsOf(e).write <==> (e >> 1) & 1 == 1
    ensures FlagsOf(e).user <==> (e >> 2) & 1 == 1
    ensures FlagsOf(e).huge <==> (e >> 7) & 1 == 1
    ensures FlagsOf(e).nx <==> e >> 63 == 1
  {
  }

  /** And the address is bits 12 to 51, with nothing of it among the flags. */
  lemma AddressBits(e: bv64)
    ensures RawAddr(e) >> 12 == (e >> 12) & 0xFF_FFFF_FFFF && RawAddr(e) & 0xFFF == 0 && RawAddr(e) >> 52 == 0
    ensures FlagsOf(e).rest & PTE_ADDR_MASK == 0
  {
  }

  /** An entry built from any address and flags that carry no address bits is
      that address, masked, and those flags: neither spills into the other. */
  lemma EntryKeepsFlags(phys: bv64, flags: bv64)
    requires flags & PTE_ADDR_MASK == 0
    ensures FlagsOf(RawEntry(phys, flags)) == FlagsOf(flags)
  {
  }

  lemma EntryKeepsAddress(phys: bv64, flags: bv64)
    requires flags & PTE_ADDR_MASK == 0
    ensures RawAddr(RawEntry(phys, flags)) == phys & PTE_ADDR_MASK
  {
  }

  /** Named flags lose nothing: two words with the same address and the same
      named flags are the same word. */
  lemma NamedFlagsFaithful(a: bv64, b: bv64)
    requires RawAddr(a) == RawAddr(b) && FlagsOf(a) == FlagsOf(b)
    ensures a == b
  {
    WordFromParts(a);
    WordFromParts(b);
  }

  lemma WordFromParts(a: bv64)
    ensures a == (a & PTE_ADDR_MASK) | (a & PTE_PRESENT) | (a & PTE_WRITE) | (a & PTE_USER) | (a & PTE_HUGE) | (a & PTE_NX)
                 | (a & !(PTE_ADDR_MASK | PTE_PRESENT | PTE_WRITE | PTE_USER | PTE_HUGE | PTE_NX))
    ensures a & PTE_PRESENT == (if a & PTE_PRESENT != 0 then PTE_PRESENT else 0)
    ensures a & PTE_WRITE == (if a & PTE_WRITE != 0 then PTE_WRITE else 0)
    ensures a & PTE_USER == (if a & PTE_USER != 0 then PTE_USER else 0)
    ensures a & PTE_HUGE == (if a & PTE_HUGE != 0 then PTE_HUGE else 0)
    ensures a & PTE_NX == (if a & PTE_NX != 0 then PTE_NX else 0)
  {
  }

  /** Widening: or-ing in the missing bits is or-ing the named flags, and the
      address is kept. */
  lemma WidenParts(entry: bv64, want: bv64)
    requires want & PTE_ADDR_MASK == 0
    ensures RawAddr(entry | (want & !entry)) == RawAddr(entry)
    ensures FlagsOf(entry | (want & !entry)) == OrFlags(FlagsOf(entry), FlagsOf(want))
  {
  }

  lemma ParentFlagsParts(leaf: bv64)
    ensures FlagsOf(RawParentFlags(leaf)) == ParentFlags(FlagsOf(leaf))
    ensures RawParentFlags(leaf) & PTE_ADDR_MASK == 0
  {
  }

  // ----- addresses

  /** `paging_index`, for a level in range: the shift is a division. */
  function Index(virt: nat, level: nat): (i: nat)
    requires level < 4
    ensures i < ENTRIES
  {
    if level == 0 then virt / 0x1000 % ENTRIES
    else if level == 1 then virt / 0x20_0000 % ENTRIES
    else if level == 2 then virt / 0x4000_0000 % ENTRIES
    else virt / 0x80_0000_0000 % ENTRIES
  }

  /** `paging_canonical`: bits 63 to 48 are copies of bit 47. */
  predicate Canonical(virt: nat) { virt < 0x8000_0000_0000 || 0xFFFF_8000_0000_0000 <= virt < WORD }

  predicate Aligned(a: nat) { a % PAGE_SIZE == 0 }

  /** The half of the address space programs live in. */
  predicate LowerHalf(virt: nat) { virt < 0x8000_0000_0000 }

  /** The entries an address selects, from the top level down. */
  function Indices(virt: nat): (p: seq<nat>)
    ensures |p| == 4 && forall k :: 0 <= k < 4 ==> p[k] < ENTRIES
  {
    [Index(virt, 3), Index(virt, 2), Index(virt, 1), Index(virt, 0)]
  }

  /** A lower-half page is known by its four indices, the first below 256. */
  lemma IndicesFaithful(a: nat, b: nat)
    requires LowerHalf(a) && LowerHalf(b) && Aligned(a) && Aligned(b)
    ensures Index(a, 3) < 256
    ensures Indices(a) == Indices(b) ==> a == b
  {
    FromIndices(a);
    FromIndices(b);
    if Indices(a) == Indices(b) {
      assert forall k :: 0 <= k < 4 ==> Indices(a)[k] == Indices(b)[k];
      assert Index(a, 3) == Indices(a)[0] && Index(a, 2) == Indices(a)[1] && Index(a, 1) == Indices(a)[2] &&
        Index(a, 0) == Indices(a)[3];
      assert Index(b, 3) == Indices(b)[0] && Index(b, 2) == Indices(b)[1] && Index(b, 1) == Indices(b)[2] &&
        Index(b, 0) == Indices(b)[3];
    }
  }

  lemma FromIndices(a: nat)
    requires LowerHalf(a) && Aligned(a)
    ensures a == Index(a, 3) * 0x80_0000_0000 + Index(a, 2) * 0x4000_0000 + Index(a, 1) * 0x20_0000 + Index(a, 0) * 0x1000
    ensures Index(a, 3) < 256
  {
    var p := a / 0x1000;
    assert a / 0x20_0000 == p / 512;
    assert a / 0x4000_0000 == p / 512 / 512;
    assert a / 0x80_0000_0000 == p / 512 / 512 / 512;
  }
}
