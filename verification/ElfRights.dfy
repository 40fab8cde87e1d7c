// What the permission bits of a program file come to: the entry that runs, and what the
// processor allows on the pages loaded (kernel/src/elf.c, kernel/src/elfload.c).
module ElfRights {
  import opened Common
  import Pmm
  import opened Paging
  import opened Vmm
  import opened VmmSpace
  import opened VmmWalk
  import opened ProcessImage
  import opened Process
  import opened Elf
  import opened ElfLoad
  import opened ElfWritten

  /** The permission bits of a flags word, whatever stands above them: readable is worth 4,
      writable 2 and executable 1. */
  ghost predicate Bits(flags: nat, r: nat, w: nat, x: nat) {
    r <= 1 && w <= 1 && x <= 1 && exists above: nat :: flags == 8 * above + 4 * r + 2 * w + x
  }

  lemma Halves(q: nat, bit: nat)
    requires bit <= 1
    ensures (2 * q + bit) / 2 == q && (2 * q + bit) % 2 == bit
  {
  }

  lemma BitsSay(flags: nat, r: nat, w: nat, x: nat)
    requires Bits(flags, r, w, x)
    ensures Writable(flags) <==> w == 1
    ensures Executable(flags) <==> x == 1
  {
    var above: nat :| flags == 8 * above + 4 * r + 2 * w + x;
    Halves(4 * above + 2 * r + w, x);
    Halves(2 * above + r, w);
  }

  /** A file of one segment in range, with the entry inside it, is accepted exactly when the
      segment may be executed. */
  lemma EntryRuns(entry: nat, s: Segment, r: nat, w: nat, x: nat)
    requires Small(entry) && SmallFields(s) && Bits(s.flags, r, w, x)
    requires SegmentOk(Written(entry, [s]), USER_LOWEST, USER_HIGHEST, s) && s.vaddr <= entry < s.End()
    ensures Acceptable(Written(entry, [s]), USER_LOWEST, USER_HIGHEST) <==> x == 1
  {
    BitsSay(s.flags, r, w, x);
    AcceptedByEntry(entry, [s], USER_LOWEST, USER_HIGHEST);
    OneEntry(entry, [s]);
  }

  lemma OneEntry(entry: nat, segs: seq<Segment>)
    requires |segs| == 1 && segs[0].vaddr <= entry < segs[0].End()
    ensures EntryOk(segs, entry) <==> Executable(segs[0].flags)
  {
  }

  /** A page is as its first segment asks: the program's, writable exactly with the writable
      bit, and, where it is enforced, not executable exactly without the executable one. */
  lemma PageRights(segs: seq<Segment>, nx: bool, page: nat, f: nat, r: nat, w: nat, x: nat)
    requires f < |segs| && Touches(segs[f], page, page + 1) && forall j :: 0 <= j < f ==> !Touches(segs[j], page, page + 1)
    requires Bits(segs[f].flags, r, w, x)
    ensures var flags := FlagsLoaded(segs, nx, page, None);
            && flags.Some? && flags.value.present && flags.value.user && !flags.value.huge
            && (flags.value.write <==> w == 1) && (flags.value.nx <==> nx && x == 0)
  {
    BitsSay(segs[f].flags, r, w, x);
    FirstFlags(segs, nx, page, f);
  }

  /** The processor's walk of an address takes its rights from the flags of its page. */
  lemma PageAllows(v: View, root: int, a: nat)
    requires TreeOk(v.ram, root, v.tree) && LowerHalf(a) && FlagsAt(v, PageOf(a)).Some?
    ensures var rights, flags := RightsFor(v.ram, root, a), FlagsAt(v, PageOf(a)).value;
            rights.Some? && rights.value.user == flags.user && rights.value.write == flags.write && rights.value.nx == flags.nx
  {
    assert PageOf(a) == a - a % Pmm.PAGE_SIZE;
    WalkOfAddress(v.ram, root, v.tree, a);
  }

  /** Loaded into a process that had nothing there, that is what the processor allows at
      every address of the page. */
  lemma LoadedRights(was: View, now: View, root: int, file: seq<Byte>, segs: seq<Segment>, nx: bool, a: nat, f: nat,
                     r: nat, w: nat, x: nat)
    requires InsideFile(file, segs) && AllLoaded(was, now, file, segs, nx) && TreeOk(now.ram, root, now.tree)
    requires LowerHalf(a) && Meaning(was.ram, was.tree, PageOf(a)) == None
    requires f < |segs| && Touches(segs[f], PageOf(a), PageOf(a) + 1)
    requires forall j :: 0 <= j < f ==> !Touches(segs[j], PageOf(a), PageOf(a) + 1)
    requires Bits(segs[f].flags, r, w, x)
    ensures var rights := RightsFor(now.ram, root, a);
            && rights.Some? && rights.value.user && (rights.value.write <==> w == 1)
            && (rights.value.nx <==> nx && x == 0)
  {
    var page := PageOf(a);
    PageRights(segs, nx, page, f, r, w, x);
    assert Page(page) && FlagsAt(now, page) == FlagsLoaded(segs, nx, page, FlagsAt(was, page));
    PageAllows(now, root, a);
  }
}
