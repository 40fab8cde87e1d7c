// Reading an ELF64 executable: every field is a number a stranger wrote
// (kernel/src/elf.c).
module Elf {
  import opened Common
  import opened Pmm
  import opened Vmm

  const ELF_MAX_SEGMENTS: nat := 8
  const ELF_HEADER_BYTES: nat := 64
  const ELF_PHENT_BYTES: nat := 56

  datatype ElfResult =
    | ElfOk | TooSmall | NotElf | Not64Bit | NotLittleEndian | BadVersion | NotExecutable | WrongMachine
    | BadHeaderTable | TooManySegments | NoLoadableSegments | SegmentPastEnd | SegmentOutOfRange
    | SegmentShrinks | SegmentsOverlap | BadEntry

  datatype Segment = Segment(vaddr: nat, offset: nat, fileBytes: nat, memBytes: nat, flags: nat) {
    function End(): nat { vaddr + memBytes }
  }

  datatype Image = Image(entry: nat, segments: seq<Segment>, lowest: nat, highest: nat)

  const NO_IMAGE: Image := Image(0, [], 0, 0)

  predicate Executable(flags: nat) { flags % 2 == 1 }

  predicate Writable(flags: nat) { flags / 2 % 2 == 1 }

  // ----- little-endian fields

  function Read16(file: seq<Byte>, at: nat): (v: nat)
    requires at + 2 <= |file|
    ensures v < 0x1_0000
  {
    (file[at] as int) + (file[at + 1] as int) * 0x100
  }

  function Read32(file: seq<Byte>, at: nat): (v: nat)
    requires at + 4 <= |file|
    ensures v < 0x1_0000_0000
  {
    Read16(file, at) + Read16(file, at + 2) * 0x1_0000
  }

  function Read64(file: seq<Byte>, at: nat): (v: nat)
    requires at + 8 <= |file|
    ensures v < WORD
  {
    Read32(file, at) + Read32(file, at + 4) * 0x1_0000_0000
  }

  /** `fits`: 64-bit sums, and still exactly the range test they stand for. */
  function Fits(start: nat, length: nat, limit: nat): (r: bool)
    requires start < WORD && length < WORD && limit < WORD
    ensures r <==> start + length <= limit
  {
    start <= limit && (start + length) % WORD >= start && (start + length) % WORD <= limit
  }

  // ----- what the file says

  function CheckHeader(file: seq<Byte>): ElfResult {
    if |file| < ELF_HEADER_BYTES then TooSmall
    else if file[..4] != [0x7F, 0x45, 0x4C, 0x46] then NotElf
    else if file[4] != 2 then Not64Bit
    else if file[5] != 1 then NotLittleEndian
    else if file[6] != 1 then BadVersion
    else if Read16(file, 0x10) != 2 then NotExecutable
    else if Read16(file, 0x12) != 0x3E then WrongMachine
    else if Read16(file, 0x36) != ELF_PHENT_BYTES then BadHeaderTable
    else ElfOk
  }

  ghost predicate TableInside(file: seq<Byte>, table: nat, n: nat) { table + n * ELF_PHENT_BYTES <= |file| }

  predicate Asks(file: seq<Byte>, table: nat, i: nat)
    requires TableInside(file, table, i + 1)
  {
    Read32(file, table + i * ELF_PHENT_BYTES) == 1
  }

  function SegmentAt(file: seq<Byte>, table: nat, i: nat): Segment
    requires TableInside(file, table, i + 1)
  {
    var entry := table + i * ELF_PHENT_BYTES;
    Segment(Read64(file, entry + 0x10), Read64(file, entry + 0x08), Read64(file, entry + 0x20), Read64(file, entry + 0x28),
            Read32(file, entry + 0x04))
  }

  /** The segments the first `n` entries ask memory for, in the file's order. */
  ghost function Loads(file: seq<Byte>, table: nat, n: nat): seq<Segment>
    requires TableInside(file, table, n)
  {
    if n == 0 then []
    else if Asks(file, table, n - 1) && SegmentAt(file, table, n - 1).memBytes != 0
    then Loads(file, table, n - 1) + [SegmentAt(file, table, n - 1)]
    else Loads(file, table, n - 1)
  }

  /** A segment that lies within the file and within the memory allowed. */
  ghost predicate SegmentOk(file: seq<Byte>, lowest: nat, highest: nat, s: Segment) {
    && 0 < s.memBytes && s.fileBytes <= s.memBytes && s.offset + s.fileBytes <= |file|
    && lowest <= s.vaddr && s.End() <= highest && s.End() < WORD
  }

  ghost predicate Disjoint(s: Segment, t: Segment) { s.End() <= t.vaddr || t.End() <= s.vaddr }

  ghost predicate SegmentsOk(file: seq<Byte>, lowest: nat, highest: nat, segs: seq<Segment>) {
    && (forall i :: 0 <= i < |segs| ==> SegmentOk(file, lowest, highest, segs[i]))
    && (forall i, j :: 0 <= i < j < |segs| ==> Disjoint(segs[i], segs[j]))
  }

  /** Entry `i` comes while there is still room, if it asks for memory at all. */
  ghost predicate RoomFor(file: seq<Byte>, table: nat, i: nat)
    requires TableInside(file, table, i + 1)
  {
    Asks(file, table, i) ==> |Loads(file, table, i)| < ELF_MAX_SEGMENTS
  }

  ghost predicate AllRoom(file: seq<Byte>, table: nat, n: nat)
    requires TableInside(file, table, n)
  {
    forall i {:trigger RoomFor(file, table, i)} :: 0 <= i < n ==> RoomFor(file, table, i)
  }

  ghost predicate EntryOk(segs: seq<Segment>, entry: nat) {
    exists k :: 0 <= k < |segs| && segs[k].vaddr <= entry < segs[k].End() && Executable(segs[k].flags)
  }

  /** A file that may be loaded, said outright. */
  ghost predicate Acceptable(file: seq<Byte>, lowest: nat, highest: nat) {
    && CheckHeader(file) == ElfOk
    && var table, n := Read64(file, 0x20), Read16(file, 0x38);
       && n != 0 && TableInside(file, table, n) && AllRoom(file, table, n)
       && var segs := Loads(file, table, n);
          && segs != [] && SegmentsOk(file, lowest, highest, segs)
          && EntryOk(segs, Read64(file, 0x18))
  }

  lemma {:induction false} OneMore(file: seq<Byte>, table: nat, n: nat, m: nat)
    requires n <= m && TableInside(file, table, m)
    ensures TableInside(file, table, n) && Loads(file, table, n) <= Loads(file, table, m)
    ensures AllRoom(file, table, m) ==> AllRoom(file, table, n)
    decreases m
  {
    if n < m { OneMore(file, table, n, m - 1); }
  }

  lemma RoomNext(file: seq<Byte>, table: nat, n: nat)
    requires TableInside(file, table, n + 1) && TableInside(file, table, n) && AllRoom(file, table, n) && RoomFor(file, table, n)
    ensures AllRoom(file, table, n + 1)
  {
  }

  // ----- the check

  /** What is wrong with a segment, the first thing in this order: it has more bytes in the
      file than in memory, it reaches past the end of the file, it is out of range, or it
      overlaps one before it. */
  ghost predicate Wrong(file: seq<Byte>, lowest: nat, highest: nat, before: seq<Segment>, s: Segment, r: ElfResult) {
    var shrinks, past := s.fileBytes > s.memBytes, s.offset + s.fileBytes > |file|;
    var out := s.vaddr < lowest || s.End() > highest || s.End() >= WORD;
    var overlaps := exists j :: 0 <= j < |before| && s.vaddr < before[j].End() && before[j].vaddr < s.End();
    && (r == SegmentShrinks <==> shrinks)
    && (r == SegmentPastEnd <==> !shrinks && past)
    && (r == SegmentOutOfRange <==> !shrinks && !past && out)
    && (r == SegmentsOverlap <==> !shrinks && !past && !out && overlaps)
  }

  /** `elf_check`'s tests on one segment, against those before it. */
  method CheckSegment(file: seq<Byte>, lowest: nat, highest: nat, before: seq<Segment>, s: Segment)
    returns (r: ElfResult)
    requires |file| < WORD && lowest < WORD && highest < WORD && SegmentsOk(file, lowest, highest, before)
    requires s.vaddr < WORD && s.offset < WORD && s.fileBytes < WORD && 0 < s.memBytes < WORD
    ensures r == ElfOk <==> SegmentsOk(file, lowest, highest, before + [s])
    ensures r in {ElfOk, SegmentShrinks, SegmentPastEnd, SegmentOutOfRange, SegmentsOverlap}
    ensures Wrong(file, lowest, highest, before, s, r)
  {
    var all := before + [s];
    assert all[|before|] == s;
    if s.fileBytes > s.memBytes { return SegmentShrinks; }
    if !Fits(s.offset, s.fileBytes, |file|) { return SegmentPastEnd; }
    if (s.vaddr + s.memBytes) % WORD < s.vaddr { return SegmentOutOfRange; }
    if s.vaddr < lowest || (s.vaddr + s.memBytes) % WORD > highest { return SegmentOutOfRange; }
    var j := 0;
    while j < |before|
      invariant 0 <= j <= |before|
      invariant forall k :: 0 <= k < j ==> Disjoint(before[k], s)
    {
      if s.vaddr < before[j].vaddr + before[j].memBytes && before[j].vaddr < s.vaddr + s.memBytes {
        assert !Disjoint(all[j], all[|before|]);
        return SegmentsOverlap;
      }
      j := j + 1;
    }
    return ElfOk;
  }

  /** Entry `i` of the table is the first that cannot be taken, and why: it is loadable and
      eight segments came before it, or its segment is wrong. */
  ghost predicate Stops(file: seq<Byte>, table: nat, n: nat, lowest: nat, highest: nat, i: nat, r: ElfResult) {
    && i < n && TableInside(file, table, n) && TableInside(file, table, i + 1) && Asks(file, table, i)
    && AllRoom(file, table, i) && SegmentsOk(file, lowest, highest, Loads(file, table, i))
    && if |Loads(file, table, i)| >= ELF_MAX_SEGMENTS then r == TooManySegments
       else
         && SegmentAt(file, table, i).memBytes != 0
         && r in {SegmentShrinks, SegmentPastEnd, SegmentOutOfRange, SegmentsOverlap}
         && Wrong(file, lowest, highest, Loads(file, table, i), SegmentAt(file, table, i), r)
  }

  /** A segment checked against those taken so far and, when nothing is wrong, taken. */
  method TakeIn(file: seq<Byte>, lowest: nat, highest: nat, image: Image, s: Segment) returns (r: ElfResult, next: Image)
    requires |file| < WORD && lowest < WORD && highest < WORD && SegmentsOk(file, lowest, highest, image.segments)
    requires s.vaddr < WORD && s.offset < WORD && s.fileBytes < WORD && 0 < s.memBytes < WORD && Bounds(image)
    ensures r == ElfOk <==> SegmentsOk(file, lowest, highest, image.segments + [s])
    ensures r == ElfOk ==> next == Extend(image, s) && SegmentsOk(file, lowest, highest, next.segments) && Bounds(next)
    ensures r in {ElfOk, SegmentShrinks, SegmentPastEnd, SegmentOutOfRange, SegmentsOverlap}
    ensures Wrong(file, lowest, highest, image.segments, s, r)
  {
    next := image;
    r := CheckSegment(file, lowest, highest, image.segments, s);
    if r == ElfOk {
      ExtendBounds(image, s);
      next := Extend(image, s);
    }
  }

  /** The entries before `i` are in order, and their segments are those of the image. */
  ghost predicate InOrder(file: seq<Byte>, table: nat, lowest: nat, highest: nat, i: nat, image: Image) {
    && TableInside(file, table, i) && AllRoom(file, table, i)
    && image.segments == Loads(file, table, i) && |image.segments| <= ELF_MAX_SEGMENTS
    && SegmentsOk(file, lowest, highest, image.segments) && Bounds(image)
  }

  /** One turn of the loop of `elf_check`. */
  method TakeEntry(file: seq<Byte>, table: nat, entries: nat, lowest: nat, highest: nat, i: nat, image: Image)
    returns (r: ElfResult, next: Image)
    requires |file| < WORD && lowest < WORD && highest < WORD && TableInside(file, table, entries) && i < entries
    requires InOrder(file, table, lowest, highest, i, image)
    ensures r == ElfOk ==> InOrder(file, table, lowest, highest, i + 1, next)
    ensures r != ElfOk ==> Stops(file, table, entries, lowest, highest, i, r)
    ensures r != ElfOk ==>
              !AllRoom(file, table, entries) || !SegmentsOk(file, lowest, highest, Loads(file, table, entries))
  {
    next := image;
    OneMore(file, table, i + 1, entries);
    if Asks(file, table, i) {
      if |image.segments| >= ELF_MAX_SEGMENTS {
        assert !RoomFor(file, table, i);
        return TooManySegments, next;
      }
      var s := SegmentAt(file, table, i);
      if s.memBytes != 0 {
        r, next := TakeIn(file, lowest, highest, image, s);
        if r != ElfOk {
          PrefixBad(file, lowest, highest, Loads(file, table, i + 1), Loads(file, table, entries));
          return;
        }
      }
    }
    RoomNext(file, table, i);
    r := ElfOk;
  }

  /** The loop of `elf_check` over the program headers. */
  method ReadTable(file: seq<Byte>, table: nat, entries: nat, lowest: nat, highest: nat)
    returns (r: ElfResult, image: Image, ghost bad: nat)
    requires |file| < WORD && lowest < WORD && highest < WORD && TableInside(file, table, entries)
    ensures r == ElfOk <==> AllRoom(file, table, entries) && SegmentsOk(file, lowest, highest, Loads(file, table, entries))
    ensures r == ElfOk ==>
              image.segments == Loads(file, table, entries) && |image.segments| <= ELF_MAX_SEGMENTS && Bounds(image)
    ensures r != ElfOk ==> Stops(file, table, entries, lowest, highest, bad, r)
  {
    image := NO_IMAGE;
    var i := 0;
    while i < entries
      invariant 0 <= i <= entries && InOrder(file, table, lowest, highest, i, image)
    {
      bad := i;
      r, image := TakeEntry(file, table, entries, lowest, highest, i, image);
      if r != ElfOk { return; }
      i := i + 1;
    }
    bad := entries;
    r := ElfOk;
  }

  /** Why a file is refused: its header, its table, the entry of the table that stops the
      loop, no segment at all, or an entry point in no segment that runs. */
  ghost predicate Reason(file: seq<Byte>, lowest: nat, highest: nat, r: ElfResult, bad: nat) {
    if CheckHeader(file) != ElfOk then r == CheckHeader(file)
    else
      var table, n := Read64(file, 0x20), Read16(file, 0x38);
      if n == 0 then r == NoLoadableSegments
      else if !TableInside(file, table, n) then r == BadHeaderTable
      else if !(AllRoom(file, table, n) && SegmentsOk(file, lowest, highest, Loads(file, table, n)))
      then Stops(file, table, n, lowest, highest, bad, r)
      else if Loads(file, table, n) == [] then r == NoLoadableSegments
      else if EntryOk(Loads(file, table, n), Read64(file, 0x18)) then r == ElfOk else r == BadEntry
  }

  /** `elf_check`: it accepts exactly the acceptable files, and then says just
      what they ask for; and otherwise it says why. */
  method Check(file: seq<Byte>, lowest: nat, highest: nat) returns (r: ElfResult, image: Image, ghost bad: nat)
    requires |file| < WORD && lowest < WORD && highest < WORD
    ensures r == ElfOk <==> Acceptable(file, lowest, highest)
    ensures r == ElfOk ==>
              && image.segments == Loads(file, Read64(file, 0x20), Read16(file, 0x38)) && 0 < |image.segments| <= ELF_MAX_SEGMENTS
              && SegmentsOk(file, lowest, highest, image.segments)
              && image.entry == Read64(file, 0x18) && EntryOk(image.segments, image.entry)
              && Bounds(image)
    ensures Reason(file, lowest, highest, r, bad)
  {
    image, bad := NO_IMAGE, 0;
    r := CheckHeader(file);
    if r != ElfOk { return; }
    var table, entries := Read64(file, 0x20), Read16(file, 0x38);
    if entries == 0 { return NoLoadableSegments, image, bad; }
    if !Fits(table, entries * ELF_PHENT_BYTES, |file|) { return BadHeaderTable, image, bad; }
    r, image, bad := ReadTable(file, table, entries, lowest, highest);
    if r != ElfOk { return; }
    if |image.segments| == 0 { return NoLoadableSegments, image, bad; }
    image := image.(entry := Read64(file, 0x18));
    r := CheckEntry(file, lowest, highest, image.segments, image.entry);
  }

  lemma PrefixBad(file: seq<Byte>, lowest: nat, highest: nat, a: seq<Segment>, b: seq<Segment>)
    requires a <= b && !SegmentsOk(file, lowest, highest, a)
    ensures !SegmentsOk(file, lowest, highest, b)
  {
    if SegmentsOk(file, lowest, highest, b) {
      forall i | 0 <= i < |a| ensures SegmentOk(file, lowest, highest, a[i]) { assert a[i] == b[i]; }
      forall i, j | 0 <= i < j < |a| ensures Disjoint(a[i], a[j]) { assert a[i] == b[i] && a[j] == b[j]; }
    }
  }

  /** The lowest and highest addresses any segment covers. */
  ghost predicate Bounds(image: Image) {
    && (image.segments == [] ==> image.lowest == 0 && image.highest == 0)
    && (image.segments != [] ==>
      && (forall k :: 0 <= k < |image.segments| ==> image.lowest <= image.segments[k].vaddr && image.segments[k].End() <= image.highest)
      && (exists k :: 0 <= k < |image.segments| && image.lowest == image.segments[k].vaddr)
      && (exists k :: 0 <= k < |image.segments| && image.highest == image.segments[k].End()))
  }

  lemma ExtendBounds(image: Image, s: Segment)
    requires Bounds(image) && s.memBytes > 0
    ensures Bounds(Extend(image, s))
  {
    var next := Extend(image, s);
    var n := |image.segments|;
    assert next.segments[n] == s;
    forall k | 0 <= k < n ensures next.segments[k] == image.segments[k] { }
    if image.segments == [] {
      assert next.lowest == next.segments[0].vaddr && next.highest == next.segments[0].End();
    } else {
      var a :| 0 <= a < n && image.lowest == image.segments[a].vaddr;
      var b :| 0 <= b < n && image.highest == image.segments[b].End();
      assert next.lowest == next.segments[if s.vaddr < image.lowest then n else a].vaddr;
      assert next.highest == next.segments[if s.End() > image.highest then n else b].End();
    }
  }

  function Extend(image: Image, s: Segment): Image {
    Image(image.entry, image.segments + [s],
          if image.segments == [] || s.vaddr < image.lowest then s.vaddr else image.lowest,
          if s.End() > image.highest then s.End() else image.highest)
  }

  /** The first segment the entry lies in decides. */
  method CheckEntry(file: seq<Byte>, lowest: nat, highest: nat, segs: seq<Segment>, entry: nat) returns (r: ElfResult)
    requires SegmentsOk(file, lowest, highest, segs)
    ensures r == ElfOk <==> EntryOk(segs, entry)
    ensures r in {ElfOk, BadEntry}
  {
    var i := 0;
    while i < |segs|
      invariant 0 <= i <= |segs|
      invariant forall k :: 0 <= k < i ==> !(segs[k].vaddr <= entry < segs[k].End())
    {
      if segs[i].vaddr <= entry < segs[i].vaddr + segs[i].memBytes {
        if !Executable(segs[i].flags) {
          forall k | 0 <= k < |segs| && k != i ensures !(segs[k].vaddr <= entry < segs[k].End()) {
            assert Disjoint(segs[if i < k then i else k], segs[if i < k then k else i]);
          }
          return BadEntry;
        }
        return ElfOk;
      }
      i := i + 1;
    }
    return BadEntry;
  }

  // ----- an entry that asks for nothing

  /** Entry `i` is loadable, and of no size. */
  predicate AsksNothing(file: seq<Byte>, table: nat, i: nat)
    requires TableInside(file, table, i + 1)
  {
    Asks(file, table, i) && SegmentAt(file, table, i).memBytes == 0
  }

  /** What acceptance would be if an entry that asks for nothing were always passed over:
      the segments that do ask count, and no others. */
  ghost predicate Deserving(file: seq<Byte>, lowest: nat, highest: nat) {
    && CheckHeader(file) == ElfOk
    && var table, n := Read64(file, 0x20), Read16(file, 0x38);
       && n != 0 && TableInside(file, table, n)
       && var segs := Loads(file, table, n);
          && segs != [] && |segs| <= ELF_MAX_SEGMENTS && SegmentsOk(file, lowest, highest, segs)
          && EntryOk(segs, Read64(file, 0x18))
  }

  /** Some entry that asks for nothing comes after the eighth segment. */
  ghost predicate NothingTooLate(file: seq<Byte>, table: nat, n: nat)
    requires TableInside(file, table, n)
  {
    exists i {:trigger AsksNothing(file, table, i)} ::
      0 <= i < n && AsksNothing(file, table, i) && |Loads(file, table, i)| == ELF_MAX_SEGMENTS
  }

  lemma {:induction false} RoomBounds(file: seq<Byte>, table: nat, n: nat)
    requires TableInside(file, table, n) && AllRoom(file, table, n)
    ensures |Loads(file, table, n)| <= ELF_MAX_SEGMENTS
  {
    if n > 0 {
      OneMore(file, table, n - 1, n);
      RoomBounds(file, table, n - 1);
      assert RoomFor(file, table, n - 1);
    }
  }

  lemma RoomUnlessLate(file: seq<Byte>, table: nat, n: nat)
    requires TableInside(file, table, n) && |Loads(file, table, n)| <= ELF_MAX_SEGMENTS
    ensures AllRoom(file, table, n) <==> !NothingTooLate(file, table, n)
  {
    if NothingTooLate(file, table, n) {
      var i :| 0 <= i < n && AsksNothing(file, table, i) && |Loads(file, table, i)| == ELF_MAX_SEGMENTS;
      RoomAt(file, table, n, i);
      assert !RoomFor(file, table, i);
    } else {
      forall i | 0 <= i < n ensures RoomFor(file, table, i) { RoomAt(file, table, n, i); }
    }
  }

  lemma RoomAt(file: seq<Byte>, table: nat, n: nat, i: nat)
    requires i < n && TableInside(file, table, n) && |Loads(file, table, n)| <= ELF_MAX_SEGMENTS
    ensures RoomFor(file, table, i) <==> !(AsksNothing(file, table, i) && |Loads(file, table, i)| == ELF_MAX_SEGMENTS)
  {
    OneMore(file, table, i, n);
    OneMore(file, table, i + 1, n);
  }

  /** A file that deserves to be accepted is, exactly when no entry that asks for nothing
      comes after the eighth segment; and no other file is. */
  lemma AcceptedUnlessLate(file: seq<Byte>, lowest: nat, highest: nat)
    ensures Acceptable(file, lowest, highest) <==>
            Deserving(file, lowest, highest) && !NothingTooLate(file, Read64(file, 0x20), Read16(file, 0x38))
  {
    if CheckHeader(file) == ElfOk {
      var table, n := Read64(file, 0x20), Read16(file, 0x38);
      if TableInside(file, table, n) {
        if AllRoom(file, table, n) { RoomBounds(file, table, n); }
        if |Loads(file, table, n)| <= ELF_MAX_SEGMENTS { RoomUnlessLate(file, table, n); }
      }
    }
  }
}
