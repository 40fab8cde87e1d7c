// Executables written out from their segments, and two that show where the check and the
// loader do not do what their comments say (kernel/src/elf.c, kernel/src/elfload.c).
module ElfWritten {
  import opened Common
  import opened Process
  import opened Elf
  import opened ElfLoad

  /** Byte `j` of a number, lowest first, of the four it has. */
  function Le(v: nat, j: nat): Byte {
    if j == 0 then v % 0x100
    else if j == 1 then v / 0x100 % 0x100
    else if j == 2 then v / 0x1_0000 % 0x100
    else if j == 3 then v / 0x100_0000 % 0x100
    else 0
  }

  function HeaderByte(entry: nat, count: nat, k: nat): Byte {
    if k == 0 then 0x7F else if k == 1 then 0x45 else if k == 2 then 0x4C else if k == 3 then 0x46
    else if k == 4 then 2 else if k == 5 || k == 6 then 1
    else if k == 0x10 then 2 else if k == 0x12 then 0x3E
    else if 0x18 <= k < 0x20 then Le(entry, k - 0x18)
    else if k == 0x20 then 64 else if k == 0x36 then 56
    else if 0x38 <= k < 0x3A then Le(count, k - 0x38)
    else 0
  }

  function EntryByte(s: Segment, k: nat): Byte {
    if k == 0 then 1
    else if 0x04 <= k < 0x08 then Le(s.flags, k - 0x04)
    else if 0x08 <= k < 0x10 then Le(s.offset, k - 0x08)
    else if 0x10 <= k < 0x18 then Le(s.vaddr, k - 0x10)
    else if 0x20 <= k < 0x28 then Le(s.fileBytes, k - 0x20)
    else if 0x28 <= k < 0x30 then Le(s.memBytes, k - 0x28)
    else 0
  }

  function FileByte(entry: nat, segs: seq<Segment>, k: nat): Byte
    requires k < 64 + 56 * |segs|
  {
    if k < 64 then HeaderByte(entry, |segs|, k) else EntryByte(segs[(k - 64) / 56], (k - 64) % 56)
  }

  /** A header and a loadable entry for each segment. */
  function Written(entry: nat, segs: seq<Segment>): (file: seq<Byte>)
    ensures |file| == 64 + 56 * |segs|
  {
    seq(64 + 56 * |segs|, k requires 0 <= k < 64 + 56 * |segs| => FileByte(entry, segs, k))
  }

  predicate Small(v: nat) { v < 0x1_0000_0000 }

  predicate SmallFields(s: Segment) {
    Small(s.vaddr) && Small(s.offset) && Small(s.fileBytes) && Small(s.memBytes) && Small(s.flags)
  }

  lemma Pieces(v: nat)
    requires Small(v)
    ensures Le(v, 0) + Le(v, 1) * 0x100 + (Le(v, 2) + Le(v, 3) * 0x100) * 0x1_0000 == v
    ensures v < 0x1_0000 ==> Le(v, 0) + Le(v, 1) * 0x100 == v
  {
    assert v / 0x1_0000 == v / 0x100 / 0x100 && v / 0x100_0000 == v / 0x1_0000 / 0x100;
  }

  /** Four bytes of a number, read back. */
  lemma Reads32(file: seq<Byte>, at: nat, v: nat)
    requires at + 4 <= |file| && Small(v) && forall j :: 0 <= j < 4 ==> file[at + j] == Le(v, j)
    ensures Read32(file, at) == v
  {
    Pieces(v);
    assert file[at + 0] == Le(v, 0) && file[at + 1] == Le(v, 1) && file[at + 2] == Le(v, 2) && file[at + 3] == Le(v, 3);
  }

  lemma Reads64(file: seq<Byte>, at: nat, v: nat)
    requires at + 8 <= |file| && Small(v) && forall j :: 0 <= j < 8 ==> file[at + j] == Le(v, j)
    ensures Read64(file, at) == v
  {
    Reads32(file, at, v);
    assert file[at + 4] == Le(v, 4) && file[at + 5] == Le(v, 5) && file[at + 6] == Le(v, 6) && file[at + 7] == Le(v, 7);
  }

  lemma ByteOfEntry(entry: nat, segs: seq<Segment>, i: nat, k: nat)
    requires i < |segs| && k < 56
    ensures Written(entry, segs)[64 + i * 56 + k] == EntryByte(segs[i], k)
  {
    assert (i * 56 + k) / 56 == i && (i * 56 + k) % 56 == k;
  }

  lemma EntryBytes(entry: nat, segs: seq<Segment>, i: nat, at: nat)
    requires i < |segs| && at == 64 + i * 56
    ensures at + 56 <= |Written(entry, segs)|
    ensures forall k: nat {:trigger EntryByte(segs[i], k)} :: k < 56 ==> Written(entry, segs)[at + k] == EntryByte(segs[i], k)
  {
    forall k: nat | k < 56 ensures Written(entry, segs)[at + k] == EntryByte(segs[i], k) { ByteOfEntry(entry, segs, i, k); }
  }

  /** The header says where the entries are, how many, and where to start. */
  lemma HeaderWritten(entry: nat, segs: seq<Segment>)
    requires Small(entry) && |segs| < 0x1_0000
    ensures var file := Written(entry, segs);
            && CheckHeader(file) == ElfOk && TableInside(file, 64, |segs|)
            && Read64(file, 0x18) == entry && Read64(file, 0x20) == 64 && Read16(file, 0x38) == |segs|
  {
    var file := Written(entry, segs);
    assert file[..4] == [0x7F, 0x45, 0x4C, 0x46];
    Reads64(file, 0x18, entry);
    Reads64(file, 0x20, 64);
    Pieces(|segs|);
  }

  /** Each entry reads back as its segment. */
  lemma EntryWritten(entry: nat, segs: seq<Segment>, i: nat)
    requires i < |segs| && SmallFields(segs[i])
    ensures TableInside(Written(entry, segs), 64, i + 1)
    ensures Asks(Written(entry, segs), 64, i) && SegmentAt(Written(entry, segs), 64, i) == segs[i]
  {
    EntryBytes(entry, segs, i, 64 + i * 56);
    EntryReads(Written(entry, segs), i, 64 + i * 56, segs[i]);
  }

  lemma EntryReads(file: seq<Byte>, i: nat, at: nat, s: Segment)
    requires at == 64 + i * 56 && at + 56 <= |file| && SmallFields(s)
    requires forall k: nat {:trigger EntryByte(s, k)} :: k < 56 ==> file[at + k] == EntryByte(s, k)
    ensures TableInside(file, 64, i + 1) && Asks(file, 64, i) && SegmentAt(file, 64, i) == s
  {
    FieldsRead(file, at, s);
  }

  lemma FieldsRead(file: seq<Byte>, at: nat, s: Segment)
    requires at + 56 <= |file| && SmallFields(s)
    requires forall k: nat {:trigger EntryByte(s, k)} :: k < 56 ==> file[at + k] == EntryByte(s, k)
    ensures Read32(file, at) == 1 && Read32(file, at + 0x04) == s.flags && Read64(file, at + 0x08) == s.offset
    ensures Read64(file, at + 0x10) == s.vaddr && Read64(file, at + 0x20) == s.fileBytes && Read64(file, at + 0x28) == s.memBytes
  {
    assert EntryByte(s, 0) == 1 && EntryByte(s, 1) == 0 && EntryByte(s, 2) == 0 && EntryByte(s, 3) == 0;
    forall j | 0 <= j < 4 ensures file[at + 0x04 + j] == Le(s.flags, j) { assert EntryByte(s, 0x04 + j) == Le(s.flags, j); }
    Reads32(file, at + 0x04, s.flags);
    forall j | 0 <= j < 8 ensures file[at + 0x08 + j] == Le(s.offset, j) { assert EntryByte(s, 0x08 + j) == Le(s.offset, j); }
    Reads64(file, at + 0x08, s.offset);
    forall j | 0 <= j < 8 ensures file[at + 0x10 + j] == Le(s.vaddr, j) { assert EntryByte(s, 0x10 + j) == Le(s.vaddr, j); }
    Reads64(file, at + 0x10, s.vaddr);
    forall j | 0 <= j < 8 ensures file[at + 0x20 + j] == Le(s.fileBytes, j) { assert EntryByte(s, 0x20 + j) == Le(s.fileBytes, j); }
    Reads64(file, at + 0x20, s.fileBytes);
    forall j | 0 <= j < 8 ensures file[at + 0x28 + j] == Le(s.memBytes, j) { assert EntryByte(s, 0x28 + j) == Le(s.memBytes, j); }
    Reads64(file, at + 0x28, s.memBytes);
  }

  /** The segments that ask for memory. */
  function Asking(segs: seq<Segment>): seq<Segment> {
    if segs == [] then []
    else
      var last := segs[|segs| - 1];
      Asking(segs[..|segs| - 1]) + if last.memBytes != 0 then [last] else []
  }

  lemma LoadsOneMore(file: seq<Byte>, segs: seq<Segment>, n: nat)
    requires 0 < n <= |segs| && TableInside(file, 64, n)
    requires Asks(file, 64, n - 1) && SegmentAt(file, 64, n - 1) == segs[n - 1]
    requires Loads(file, 64, n - 1) == Asking(segs[..n - 1])
    ensures Loads(file, 64, n) == Asking(segs[..n])
  {
    assert segs[..n][..n - 1] == segs[..n - 1];
  }

  /** What is written is what is loaded. */
  lemma {:induction false} LoadsWritten(entry: nat, segs: seq<Segment>, n: nat)
    requires n <= |segs| && forall i :: 0 <= i < |segs| ==> SmallFields(segs[i])
    ensures TableInside(Written(entry, segs), 64, n)
    ensures Loads(Written(entry, segs), 64, n) == Asking(segs[..n])
    decreases n
  {
    if n > 0 {
      LoadsWritten(entry, segs, n - 1);
      EntryWritten(entry, segs, n - 1);
      LoadsOneMore(Written(entry, segs), segs, n);
    }
  }

  /** A file written out deserves to be accepted exactly when the segments that ask do. */
  lemma WrittenDeserves(entry: nat, segs: seq<Segment>, lowest: nat, highest: nat)
    requires Small(entry) && 0 < |segs| < 0x1_0000 && forall i :: 0 <= i < |segs| ==> SmallFields(segs[i])
    ensures var file, asking := Written(entry, segs), Asking(segs);
            && TableInside(file, 64, |segs|) && Read64(file, 0x20) == 64 && Read16(file, 0x38) == |segs|
            && Loads(file, 64, |segs|) == asking
            && (Deserving(file, lowest, highest) <==>
                  asking != [] && |asking| <= ELF_MAX_SEGMENTS && SegmentsOk(file, lowest, highest, asking) && EntryOk(asking, entry))
  {
    HeaderWritten(entry, segs);
    LoadsWritten(entry, segs, |segs|);
    assert segs[..|segs|] == segs;
  }

  lemma {:induction false} AllAsking(segs: seq<Segment>)
    requires forall i :: 0 <= i < |segs| ==> segs[i].memBytes != 0
    ensures Asking(segs) == segs
  {
    if segs != [] { AllAsking(segs[..|segs| - 1]); }
  }

  lemma NoneTooLate(entry: nat, segs: seq<Segment>)
    requires forall i :: 0 <= i < |segs| ==> SmallFields(segs[i]) && segs[i].memBytes != 0
    ensures TableInside(Written(entry, segs), 64, |segs|) && !NothingTooLate(Written(entry, segs), 64, |segs|)
  {
    forall i | 0 <= i < |segs|
      ensures TableInside(Written(entry, segs), 64, i + 1) && !AsksNothing(Written(entry, segs), 64, i)
    {
      EntryWritten(entry, segs, i);
    }
  }

  /** A file of a few segments that all ask is accepted as soon as they are in order. */
  lemma WrittenAccepted(entry: nat, segs: seq<Segment>, lowest: nat, highest: nat)
    requires Small(entry) && 0 < |segs| <= ELF_MAX_SEGMENTS && EntryOk(segs, entry)
    requires forall i :: 0 <= i < |segs| ==> SmallFields(segs[i]) && segs[i].memBytes != 0
    requires SegmentsOk(Written(entry, segs), lowest, highest, segs)
    ensures var file := Written(entry, segs);
            && Acceptable(file, lowest, highest)
            && Read64(file, 0x20) == 64 && Read16(file, 0x38) == |segs|
            && TableInside(file, 64, |segs|) && Loads(file, 64, |segs|) == segs
  {
    AllAsking(segs);
    WrittenDeserves(entry, segs, lowest, highest);
    NoneTooLate(entry, segs);
    AcceptedUnlessLate(Written(entry, segs), lowest, highest);
  }

  /** A file whose segments are all in order stands and falls with its entry. */
  lemma AcceptedByEntry(entry: nat, segs: seq<Segment>, lowest: nat, highest: nat)
    requires Small(entry) && 0 < |segs| <= ELF_MAX_SEGMENTS && SegmentsOk(Written(entry, segs), lowest, highest, segs)
    requires forall i :: 0 <= i < |segs| ==> SmallFields(segs[i])
    ensures Acceptable(Written(entry, segs), lowest, highest) <==> EntryOk(segs, entry)
  {
    assert forall i :: 0 <= i < |segs| ==> segs[i].memBytes != 0;
    AllAsking(segs);
    WrittenDeserves(entry, segs, lowest, highest);
    NoneTooLate(entry, segs);
    AcceptedUnlessLate(Written(entry, segs), lowest, highest);
  }

  // ----- two segments in one page

  /** Two segments in one page, the first to run and the second to write. */
  predicate CodeThenData(segs: seq<Segment>) {
    |segs| == 2 && segs[0] == Segment(0x1_0000, 0, 0, 16, 5) && segs[1] == Segment(0x1_0010, 0, 0, 16, 6)
  }

  /** The file that says so is accepted. */
  lemma TwoInAPage(entry: nat, segs: seq<Segment>)
    requires CodeThenData(segs) && entry == segs[0].vaddr
    ensures Acceptable(Written(entry, segs), USER_LOWEST, USER_HIGHEST) && SegmentsOf(Written(entry, segs)) == segs
  {
    TwoInOrder(entry, segs);
    WrittenAccepted(entry, segs, USER_LOWEST, USER_HIGHEST);
  }

  lemma TwoInOrder(entry: nat, segs: seq<Segment>)
    requires CodeThenData(segs) && entry == segs[0].vaddr
    ensures Small(entry) && EntryOk(segs, entry) && SegmentsOk(Written(entry, segs), USER_LOWEST, USER_HIGHEST, segs)
    ensures forall i :: 0 <= i < |segs| ==> SmallFields(segs[i]) && segs[i].memBytes != 0
  {
    assert segs[0].vaddr <= entry < segs[0].End() && Executable(segs[0].flags);
  }

  /** Its page cannot be written, as the second segment asks. */
  lemma WriteLost(segs: seq<Segment>, nx: bool, page: nat)
    requires CodeThenData(segs) && page == segs[0].vaddr
    ensures Writable(segs[1].flags) && Touches(segs[1], page, page + 1)
    ensures FlagsLoaded(segs, nx, page, None).Some? && !FlagsLoaded(segs, nx, page, None).value.write
    ensures FlagsLoaded(segs, nx, page, None) != Some(ProgramFlags(FlagsFor(segs[1].flags, nx)))
  {
    FirstFlags(segs, nx, page, 0);
    SharedFlags(segs, nx, page, 0, 1);
  }

  // ----- eight segments, and one of no size

  lemma TooLate(entry: nat, segs: seq<Segment>, late: nat, before: seq<Segment>)
    requires forall i :: 0 <= i < |segs| ==> SmallFields(segs[i])
    requires late < |segs| && before == segs[..late] && |before| == ELF_MAX_SEGMENTS && Asking(before) == before
    requires segs[late].memBytes == 0
    ensures TableInside(Written(entry, segs), 64, |segs|) && NothingTooLate(Written(entry, segs), 64, |segs|)
  {
    LoadsWritten(entry, segs, late);
    EntryWritten(entry, segs, late);
    assert AsksNothing(Written(entry, segs), 64, late);
  }

  /** Eight segments to run, and an entry that asks for nothing. */
  predicate EightAndNothing(segs: seq<Segment>) {
    && |segs| == 9 && segs[8] == Segment(0, 0, 0, 0, 4)
    && forall i :: 0 <= i < 8 ==> segs[i] == Segment(0x1_0000 + i * 0x1000, 0, 0, 16, 5)
  }

  lemma EightAsk(segs: seq<Segment>)
    requires EightAndNothing(segs)
    ensures Asking(segs) == segs[..8] && Asking(segs[..8]) == segs[..8]
  {
    AllAsking(segs[..8]);
    assert segs[|segs| - 1].memBytes == 0;
  }

  lemma EightApart(file: seq<Byte>, segs: seq<Segment>)
    requires EightAndNothing(segs) && |file| >= 16
    ensures SegmentsOk(file, USER_LOWEST, USER_HIGHEST, segs[..8])
  {
    var eight := segs[..8];
    forall i | 0 <= i < 8 ensures SegmentOk(file, USER_LOWEST, USER_HIGHEST, eight[i]) { assert eight[i] == segs[i]; }
    forall i, j | 0 <= i < j < 8 ensures Disjoint(eight[i], eight[j]) {
      assert eight[i] == segs[i] && eight[j] == segs[j];
    }
  }

  lemma EightSmall(segs: seq<Segment>)
    requires EightAndNothing(segs)
    ensures forall i :: 0 <= i < |segs| ==> SmallFields(segs[i])
  {
    forall i | 0 <= i < |segs| ensures SmallFields(segs[i]) { }
  }

  lemma FirstRuns(segs: seq<Segment>, entry: nat)
    requires segs != [] && segs[0].vaddr <= entry < segs[0].End() && Executable(segs[0].flags)
    ensures EntryOk(segs, entry)
  {
  }

  /** They are in order, and all that the file asks for. */
  lemma EightDeserve(entry: nat, segs: seq<Segment>)
    requires EightAndNothing(segs) && entry == segs[0].vaddr
    ensures Deserving(Written(entry, segs), USER_LOWEST, USER_HIGHEST)
    ensures Read64(Written(entry, segs), 0x20) == 64 && Read16(Written(entry, segs), 0x38) == |segs|
  {
    EightSmall(segs);
    EightAsk(segs);
    EightApart(Written(entry, segs), segs);
    FirstRuns(segs[..8], entry);
    WrittenDeserves(entry, segs, USER_LOWEST, USER_HIGHEST);
  }

  /** The file deserves to be accepted, and is not. */
  lemma NinthRefused(entry: nat, segs: seq<Segment>)
    requires EightAndNothing(segs) && entry == segs[0].vaddr
    ensures Deserving(Written(entry, segs), USER_LOWEST, USER_HIGHEST)
    ensures !Acceptable(Written(entry, segs), USER_LOWEST, USER_HIGHEST)
  {
    EightDeserve(entry, segs);
    EightSmall(segs);
    EightAsk(segs);
    TooLate(entry, segs, 8, Asking(segs));
    AcceptedUnlessLate(Written(entry, segs), USER_LOWEST, USER_HIGHEST);
  }
}
