// Loading a checked executable into a process: segments split into pages
// (kernel/src/elfload.c).
module ElfLoad {
  import opened Common
  import opened Pmm
  import opened Paging
  import opened Vmm
  import opened VmmSpace
  import opened ProcessImage
  import opened Process
  import opened PageCosts
  import opened Elf

  const USER_LOWEST: nat := 0x1_0000
  const USER_HIGHEST: nat := 0x1000_0000

  /** `flags_for`: writable and runnable only as the file says, the last only
      where the processor can refuse. */
  function FlagsFor(flags: nat, nx: bool): Flags {
    Flags(false, Writable(flags), false, false, !Executable(flags) && nx, 0)
  }

  // ----- what loading means, a byte at a time

  function LastPage(s: Segment): nat
    requires s.memBytes > 0
  {
    PageOf(s.End() - 1)
  }

  /** Page `page` is one of the segment's, below `at`. */
  predicate Touches(s: Segment, page: nat, at: nat) {
    s.memBytes > 0 && PageOf(s.vaddr) <= page <= LastPage(s) && page < at
  }

  predicate InFile(s: Segment, a: nat) { s.vaddr <= a < s.vaddr + s.fileBytes }

  /** The byte at `a` once the segment's pages below `at` are filled, over what
      was there before. */
  ghost function Over(file: seq<Byte>, s: Segment, at: nat, a: nat, below: Option<Byte>): Option<Byte>
    requires s.offset + s.fileBytes <= |file|
  {
    if !Touches(s, PageOf(a), at) then below
    else if InFile(s, a) then Some(file[s.offset + (a - s.vaddr)])
    else if below.Some? then below else Some(0)
  }

  ghost predicate InsideFile(file: seq<Byte>, segs: seq<Segment>) {
    forall k :: 0 <= k < |segs| ==> segs[k].offset + segs[k].fileBytes <= |file|
  }

  /** The byte at `a` once every segment is loaded, one after another. */
  ghost function Loaded(file: seq<Byte>, segs: seq<Segment>, a: nat, below: Option<Byte>): Option<Byte>
    requires InsideFile(file, segs)
  {
    if segs == [] then below
    else
      var last := segs[|segs| - 1];
      Over(file, last, PageOf(a) + 1, a, Loaded(file, segs[..|segs| - 1], a, below))
  }

  ghost predicate InMemory(s: Segment, a: nat) { s.vaddr <= a < s.End() }

  ghost predicate SomeTouches(segs: seq<Segment>, page: nat) {
    exists k :: 0 <= k < |segs| && Touches(segs[k], page, page + 1)
  }

  /** What the program headers describe: a byte of a segment is its file's byte,
      or zero past those, every other byte of a page a segment touches is zero,
      and nothing else is mapped. */
  ghost predicate Described(file: seq<Byte>, segs: seq<Segment>, a: nat, b: Option<Byte>)
    requires InsideFile(file, segs)
  {
    && (b.Some? <==> SomeTouches(segs, PageOf(a)))
    && (forall k :: 0 <= k < |segs| && InMemory(segs[k], a) ==>
          b == Some(if InFile(segs[k], a) then file[segs[k].offset + (a - segs[k].vaddr)] else 0))
    && ((forall k :: 0 <= k < |segs| ==> !InMemory(segs[k], a)) && b.Some? ==> b == Some(0))
  }

  /** Loading one segment after another into nothing gives the described image:
      because the segments are disjoint, even where two share a page. */
  lemma {:induction false} LoadedIsDescribed(file: seq<Byte>, lowest: nat, highest: nat, segs: seq<Segment>, a: nat)
    requires SegmentsOk(file, lowest, highest, segs)
    ensures InsideFile(file, segs) && Described(file, segs, a, Loaded(file, segs, a, None))
  {
    assert InsideFile(file, segs) by {
      forall k | 0 <= k < |segs| ensures segs[k].offset + segs[k].fileBytes <= |file| {
        assert SegmentOk(file, lowest, highest, segs[k]);
      }
    }
    if segs != [] {
      var n := |segs| - 1;
      var front, last := segs[..n], segs[n];
      FrontOk(file, lowest, highest, segs);
      LoadedIsDescribed(file, lowest, highest, front, a);
      var below := Loaded(file, front, a, None);
      OverDescribed(file, lowest, highest, segs, a, below);
    }
  }

  lemma FrontOk(file: seq<Byte>, lowest: nat, highest: nat, segs: seq<Segment>)
    requires SegmentsOk(file, lowest, highest, segs) && segs != []
    ensures SegmentsOk(file, lowest, highest, segs[..|segs| - 1])
  {
  }

  lemma OverDescribed(file: seq<Byte>, lowest: nat, highest: nat, segs: seq<Segment>, a: nat, below: Option<Byte>)
    requires SegmentsOk(file, lowest, highest, segs) && segs != [] && InsideFile(file, segs)
    requires InsideFile(file, segs[..|segs| - 1]) && Described(file, segs[..|segs| - 1], a, below)
    ensures Described(file, segs, a, Over(file, segs[|segs| - 1], PageOf(a) + 1, a, below))
  {
    var n := |segs| - 1;
    var front, last := segs[..n], segs[n];
    var b := Over(file, last, PageOf(a) + 1, a, below);
    assert forall k :: 0 <= k < n ==> front[k] == segs[k];
    assert SegmentOk(file, lowest, highest, last);
    if InMemory(last, a) { InMemoryTouches(last, a); }
    assert SomeTouches(segs, PageOf(a)) <==> SomeTouches(front, PageOf(a)) || Touches(last, PageOf(a), PageOf(a) + 1) by {
      if SomeTouches(front, PageOf(a)) {
        var k :| 0 <= k < n && Touches(front[k], PageOf(a), PageOf(a) + 1);
        assert Touches(segs[k], PageOf(a), PageOf(a) + 1);
      }
    }
    forall k | 0 <= k < |segs| && InMemory(segs[k], a)
      ensures b == Some(if InFile(segs[k], a) then file[segs[k].offset + (a - segs[k].vaddr)] else 0)
    {
      assert SegmentOk(file, lowest, highest, segs[k]);
      if k < n {
        assert InMemory(front[k], a) && Disjoint(segs[k], last);
      } else {
        forall j | 0 <= j < n ensures !InMemory(front[j], a) { assert Disjoint(segs[j], last); }
      }
    }
  }

  lemma InMemoryTouches(s: Segment, a: nat)
    requires InMemory(s, a)
    ensures Touches(s, PageOf(a), PageOf(a) + 1)
  {
  }

  // ----- one page's share of a segment

  datatype Part = Part(into: nat, data: seq<Byte>)

  /** Which bytes of the file land in page `at`, and where in it. */
  function PartOf(file: seq<Byte>, s: Segment, at: nat): Part
    requires s.offset + s.fileBytes <= |file|
  {
    var pageEnd, dataEnd := at + PAGE_SIZE, s.vaddr + s.fileBytes;
    if s.vaddr < pageEnd && dataEnd > at then
      var start := if s.vaddr > at then s.vaddr else at;
      var end := if dataEnd < pageEnd then dataEnd else pageEnd;
      Part(start - at, file[s.offset + (start - s.vaddr)..s.offset + (end - s.vaddr)])
    else Part(0, [])
  }

  /** A page's share is the segment's file bytes in that page, no more and no
      fewer. */
  lemma PartExact(file: seq<Byte>, s: Segment, at: nat, a: nat)
    requires s.offset + s.fileBytes <= |file| && PageOf(a) == at
    ensures var part := PartOf(file, s, at);
            && part.into + |part.data| <= PAGE_SIZE
            && (part.into <= a % PAGE_SIZE < part.into + |part.data| <==> InFile(s, a))
            && (InFile(s, a) ==> part.data[a % PAGE_SIZE - part.into] == file[s.offset + (a - s.vaddr)])
  {
    assert a == at + a % PAGE_SIZE;
  }

  // ----- the loader

  /** What every address means while segment `k` is loaded up to page `at`. */
  ghost predicate LoadedTo(was: View, now: View, file: seq<Byte>, segs: seq<Segment>, k: nat, at: nat)
    requires InsideFile(file, segs) && k <= |segs|
  {
    forall a {:trigger ByteAt(now.ram, now.tree, a)} :: LowerHalf(a) ==>
      ByteAt(now.ram, now.tree, a) == SoFar(file, segs, k, at, a, ByteAt(was.ram, was.tree, a))
  }

  ghost function SoFar(file: seq<Byte>, segs: seq<Segment>, k: nat, at: nat, a: nat, below: Option<Byte>): Option<Byte>
    requires InsideFile(file, segs) && k <= |segs|
  {
    if k < |segs| then Over(file, segs[k], at, a, Loaded(file, segs[..k], a, below)) else Loaded(file, segs, a, below)
  }

  /** What one page adds at one of its addresses. */
  lemma OnThePage(file: seq<Byte>, s: Segment, at: nat, x: nat, below: Option<Byte>)
    requires s.offset + s.fileBytes <= |file| && PageOf(x) == at && Page(at)
    requires PageOf(s.vaddr) <= at && s.memBytes > 0 && at <= LastPage(s)
    ensures var part, held := PartOf(file, s, at), Over(file, s, at, x, below);
            Over(file, s, at + PAGE_SIZE, x, below) ==
            if part.into <= x % PAGE_SIZE < part.into + |part.data| then Some(part.data[x % PAGE_SIZE - part.into])
            else if held.Some? then held else Some(0)
  {
    PartExact(file, s, at, x);
  }

  /** And at the addresses off it. */
  lemma OffThePage(file: seq<Byte>, s: Segment, at: nat, x: nat, below: Option<Byte>)
    requires s.offset + s.fileBytes <= |file| && PageOf(x) != at && Page(at)
    ensures Over(file, s, at + PAGE_SIZE, x, below) == Over(file, s, at, x, below)
  {
    PagesStep(PageOf(x), at);
  }

  /** One more page of the segment. */
  lemma PageLoaded(was: View, a: View, pages: seq<nat>, b: View, pages': seq<nat>, file: seq<Byte>, segs: seq<Segment>,
                   k: nat, at: nat, flags: Flags)
    requires InsideFile(file, segs) && k < |segs| && LoadedTo(was, a, file, segs, k, at)
    requires Page(at) && PageOf(segs[k].vaddr) <= at && segs[k].memBytes > 0 && at <= LastPage(segs[k])
    requires var part := PartOf(file, segs[k], at);
             PageOutcome(a, pages, b, pages', true, at, flags, part.into, part.data)
    ensures LoadedTo(was, b, file, segs, k, at + PAGE_SIZE)
  {
    forall x | LowerHalf(x)
      ensures ByteAt(b.ram, b.tree, x) == SoFar(file, segs, k, at + PAGE_SIZE, x, ByteAt(was.ram, was.tree, x))
    {
      AddressLoaded(was, a, pages, b, pages', file, segs, k, at, flags, x);
    }
  }

  lemma AddressLoaded(was: View, a: View, pages: seq<nat>, b: View, pages': seq<nat>, file: seq<Byte>,
                      segs: seq<Segment>,
                      k: nat, at: nat, flags: Flags, x: nat)
    requires InsideFile(file, segs) && k < |segs| && LoadedTo(was, a, file, segs, k, at) && LowerHalf(x)
    requires Page(at) && PageOf(segs[k].vaddr) <= at && segs[k].memBytes > 0 && at <= LastPage(segs[k])
    requires var part := PartOf(file, segs[k], at);
             PageOutcome(a, pages, b, pages', true, at, flags, part.into, part.data)
    ensures ByteAt(b.ram, b.tree, x) == SoFar(file, segs, k, at + PAGE_SIZE, x, ByteAt(was.ram, was.tree, x))
  {
    var s, part, below := segs[k], PartOf(file, segs[k], at), Loaded(file, segs[..k], x, ByteAt(was.ram, was.tree, x));
    assert ByteAt(a.ram, a.tree, x) == Over(file, s, at, x, below);
    FilledAt(a, pages, b, pages', at, flags, part.into, part.data, x);
    if PageOf(x) == at { OnThePage(file, s, at, x, below); } else { OffThePage(file, s, at, x, below); }
  }

  lemma PagesStep(p: nat, at: nat)
    requires Aligned(p) && Aligned(at) && p != at
    ensures p < at + PAGE_SIZE <==> p < at
  {
  }

  lemma FilledByte(ram: Ram, tree: Tables, ram': Ram, tree': Tables, at: nat, into: nat, data: seq<Byte>, x: nat)
    requires Page(at) && LowerHalf(x) && Filled(ram, tree, ram', tree', Indices(at), into, data)
    ensures ByteAt(ram', tree', x) ==
            if PageOf(x) != at then ByteAt(ram, tree, x)
            else if into <= x % PAGE_SIZE < into + |data| then Some(data[x % PAGE_SIZE - into])
            else if ByteAt(ram, tree, x).Some? then ByteAt(ram, tree, x) else Some(0)
  {
    if PageOf(x) != at { IndicesFaithful(PageOf(x), at); }
    assert ByteAt(ram', tree', x) == ByteOf(ram', tree', Indices(PageOf(x)), x % PAGE_SIZE);
  }

  /** A page filled or added, read by address. */
  lemma FilledAt(a: View, pages: seq<nat>, b: View, pages': seq<nat>, at: nat, flags: Flags, into: nat,
                 data: seq<Byte>, x: nat)
    requires Page(at) && LowerHalf(x) && PageOutcome(a, pages, b, pages', true, at, flags, into, data)
    ensures ByteAt(b.ram, b.tree, x) ==
            if PageOf(x) != at then ByteAt(a.ram, a.tree, x)
            else if into <= x % PAGE_SIZE < into + |data| then Some(data[x % PAGE_SIZE - into])
            else if ByteAt(a.ram, a.tree, x).Some? then ByteAt(a.ram, a.tree, x) else Some(0)
  {
    assert PageOf(at) == at;
    FilledByte(a.ram, a.tree, b.ram, b.tree, at, into, data, x);
  }

  /** A whole segment done is the next one begun. */
  lemma SegmentDone(was: View, now: View, file: seq<Byte>, segs: seq<Segment>, k: nat, at: nat, next: nat)
    requires InsideFile(file, segs) && k < |segs| && segs[k].memBytes > 0 && LoadedTo(was, now, file, segs, k, at)
    requires at > LastPage(segs[k]) && (k + 1 < |segs| ==> next <= PageOf(segs[k + 1].vaddr))
    ensures LoadedTo(was, now, file, segs, k + 1, next)
  {
    forall a | LowerHalf(a)
      ensures ByteAt(now.ram, now.tree, a) == SoFar(file, segs, k + 1, next, a, ByteAt(was.ram, was.tree, a))
    {
      var below := ByteAt(was.ram, was.tree, a);
      assert ByteAt(now.ram, now.tree, a) == SoFar(file, segs, k, at, a, below);
      assert segs[..k + 1][..k] == segs[..k] && segs[..k + 1][k] == segs[k];
      assert segs[..|segs|] == segs;
    }
  }

  // ----- the flags of the pages

  ghost function FlagsAt(v: View, page: nat): Option<Flags> {
    var e := Meaning(v.ram, v.tree, page);
    if e.Some? then Some(e.value.flags) else None
  }

  /** The first segment to touch a page decides its flags. */
  ghost function FlagsLoaded(segs: seq<Segment>, nx: bool, page: nat, below: Option<Flags>): Option<Flags> {
    if segs == [] then below
    else
      var last := segs[|segs| - 1];
      FlagsOver(last, nx, page + 1, page, FlagsLoaded(segs[..|segs| - 1], nx, page, below))
  }

  ghost function FlagsOver(s: Segment, nx: bool, at: nat, page: nat, below: Option<Flags>): Option<Flags> {
    if below.Some? || !Touches(s, page, at) then below else Some(ProgramFlags(FlagsFor(s.flags, nx)))
  }

  ghost function FlagsSoFar(segs: seq<Segment>, nx: bool, k: nat, at: nat, page: nat,
                            below: Option<Flags>): Option<Flags>
    requires k <= |segs|
  {
    if k < |segs| then FlagsOver(segs[k], nx, at, page, FlagsLoaded(segs[..k], nx, page, below))
    else FlagsLoaded(segs, nx, page, below)
  }

  ghost predicate FlaggedTo(was: View, now: View, segs: seq<Segment>, nx: bool, k: nat, at: nat)
    requires k <= |segs|
  {
    forall v {:trigger FlagsAt(now, v)} :: Page(v) ==> FlagsAt(now, v) == FlagsSoFar(segs, nx, k, at, v, FlagsAt(was, v))
  }

  lemma PageFlagged(was: View, a: View, pages: seq<nat>, b: View, pages': seq<nat>, segs: seq<Segment>, nx: bool,
                    k: nat, at: nat, into: nat, data: seq<Byte>)
    requires k < |segs| && FlaggedTo(was, a, segs, nx, k, at)
    requires Page(at) && PageOf(segs[k].vaddr) <= at && segs[k].memBytes > 0 && at <= LastPage(segs[k])
    requires PageOutcome(a, pages, b, pages', true, at, FlagsFor(segs[k].flags, nx), into, data)
    ensures FlaggedTo(was, b, segs, nx, k, at + PAGE_SIZE)
  {
    forall v | Page(v) ensures FlagsAt(b, v) == FlagsSoFar(segs, nx, k, at + PAGE_SIZE, v, FlagsAt(was, v)) {
      assert FlagsAt(a, v) == FlagsSoFar(segs, nx, k, at, v, FlagsAt(was, v));
      assert PageOf(at) == at;
      IndicesFaithful(v, at);
      if v != at { PagesStep(v, at); }
    }
  }

  lemma SegmentFlagged(was: View, now: View, segs: seq<Segment>, nx: bool, k: nat, at: nat, next: nat)
    requires k < |segs| && segs[k].memBytes > 0 && FlaggedTo(was, now, segs, nx, k, at)
    requires at > LastPage(segs[k]) && (k + 1 < |segs| ==> next <= PageOf(segs[k + 1].vaddr))
    ensures FlaggedTo(was, now, segs, nx, k + 1, next)
  {
    forall v | Page(v) ensures FlagsAt(now, v) == FlagsSoFar(segs, nx, k + 1, next, v, FlagsAt(was, v)) {
      assert FlagsAt(now, v) == FlagsSoFar(segs, nx, k, at, v, FlagsAt(was, v));
      assert segs[..k + 1][..k] == segs[..k] && segs[..k + 1][k] == segs[k];
      assert segs[..|segs|] == segs;
    }
  }

  // ----- what loading needs

  /** The pages the segments touch that are not there yet. */
  ghost function NewPages(was: View, segs: seq<Segment>): set<nat> {
    set v: nat | v < USER_HIGHEST && Page(v) && !There(was, v) && SomeTouches(segs, v)
  }

  ghost predicate BelowHighest(segs: seq<Segment>) {
    forall k :: 0 <= k < |segs| ==> 0 < segs[k].memBytes && segs[k].End() <= USER_HIGHEST
  }

  lemma TouchedIsNew(was: View, segs: seq<Segment>, v: nat)
    requires BelowHighest(segs) && Page(v) && !There(was, v) && SomeTouches(segs, v)
    ensures v in NewPages(was, segs)
  {
    var k :| 0 <= k < |segs| && Touches(segs[k], v, v + 1);
    LastPageAfter(segs[k]);
  }

  /** A page has flags once it had them or some segment touches it. */
  lemma {:induction false} FlaggedIff(segs: seq<Segment>, nx: bool, page: nat, below: Option<Flags>)
    ensures FlagsLoaded(segs, nx, page, below).Some? <==> below.Some? || SomeTouches(segs, page)
  {
    if segs != [] {
      var n := |segs| - 1;
      var front, last := segs[..n], segs[n];
      FlaggedIff(front, nx, page, below);
      if SomeTouches(segs, page) {
        var k :| 0 <= k < |segs| && Touches(segs[k], page, page + 1);
        assert k < n ==> Touches(front[k], page, page + 1);
      }
      if SomeTouches(front, page) {
        var k :| 0 <= k < n && Touches(front[k], page, page + 1);
        assert Touches(segs[k], page, page + 1);
      }
    }
  }

  /** The same half way. */
  lemma FlaggedSoFar(segs: seq<Segment>, nx: bool, k: nat, at: nat, page: nat, below: Option<Flags>)
    requires k < |segs|
    ensures below.Some? ==> FlagsSoFar(segs, nx, k, at, page, below).Some?
    ensures FlagsSoFar(segs, nx, k, at, page, below).Some? ==> below.Some? || SomeTouches(segs, page)
  {
    FlaggedIff(segs[..k], nx, page, below);
    if SomeTouches(segs[..k], page) {
      var j :| 0 <= j < k && Touches(segs[..k][j], page, page + 1);
      assert Touches(segs[j], page, page + 1);
    }
    if Touches(segs[k], page, at) { assert Touches(segs[k], page, page + 1); }
  }

  /** A page refused half way means that there was never enough for all. */
  lemma PageTooMuch(was: View, pages0: seq<nat>, root: int, now: View, pages: seq<nat>, added: set<nat>,
                    segs: seq<Segment>, nx: bool, k: nat, at: nat)
    requires Costs(was, pages0, root, now, pages, added) && k < |segs| && FlaggedTo(was, now, segs, nx, k, at)
    requires BelowHighest(segs) && Page(at) && Touches(segs[k], at, at + 1) && !There(now, at)
    requires |pages| >= PROC_MAX_PAGES || !Affords(now, root, at)
    ensures !Enough(was, pages0, root, NewPages(was, segs))
  {
    forall v | v in added ensures v in NewPages(was, segs) {
      assert FlagsAt(now, v) == FlagsSoFar(segs, nx, k, at, v, FlagsAt(was, v));
      AddedIsNew(was, now, added, segs, nx, k, at, v);
    }
    StillThere(was, now, segs, nx, k, at, at);
    TouchedIsNew(was, segs, at);
    TooMuch(was, pages0, root, now, pages, added, at, NewPages(was, segs));
  }

  lemma AddedIsNew(was: View, now: View, added: set<nat>, segs: seq<Segment>, nx: bool, k: nat, at: nat, v: nat)
    requires k < |segs| && BelowHighest(segs) && AddedAre(was, now, added) && v in added
    requires FlagsAt(now, v) == FlagsSoFar(segs, nx, k, at, v, FlagsAt(was, v))
    ensures v in NewPages(was, segs)
  {
    FlaggedSoFar(segs, nx, k, at, v, FlagsAt(was, v));
    TouchedIsNew(was, segs, v);
  }

  lemma StillThere(was: View, now: View, segs: seq<Segment>, nx: bool, k: nat, at: nat, v: nat)
    requires k < |segs| && FlaggedTo(was, now, segs, nx, k, at) && Page(v)
    ensures There(was, v) ==> There(now, v)
  {
    assert FlagsAt(now, v) == FlagsSoFar(segs, nx, k, at, v, FlagsAt(was, v));
    FlaggedSoFar(segs, nx, k, at, v, FlagsAt(was, v));
  }

  /** All loaded, what was added is every new page, and there was enough. */
  lemma LoadedWasEnough(was: View, pages0: seq<nat>, root: int, now: View, pages: seq<nat>, added: set<nat>,
                        file: seq<Byte>, segs: seq<Segment>, nx: bool)
    requires InsideFile(file, segs) && AllLoaded(was, now, file, segs, nx) && BelowHighest(segs)
    requires Costs(was, pages0, root, now, pages, added) && |pages| <= PROC_MAX_PAGES
    ensures Enough(was, pages0, root, NewPages(was, segs))
  {
    AddedAreAll(was, now, added, segs, nx);
    SpentEnough(was, pages0, root, now, pages, added);
  }

  lemma AddedAreAll(was: View, now: View, added: set<nat>, segs: seq<Segment>, nx: bool)
    requires AddedAre(was, now, added) && BelowHighest(segs)
    requires forall v {:trigger FlagsAt(now, v)} :: Page(v) ==> FlagsAt(now, v) == FlagsLoaded(segs, nx, v, FlagsAt(was, v))
    ensures added == NewPages(was, segs)
  {
    forall v: nat ensures v in added <==> v in NewPages(was, segs) {
      if Page(v) {
        assert FlagsAt(now, v) == FlagsLoaded(segs, nx, v, FlagsAt(was, v));
        NewIff(was, now, added, segs, nx, v);
      }
    }
  }

  lemma NewIff(was: View, now: View, added: set<nat>, segs: seq<Segment>, nx: bool, v: nat)
    requires AddedAre(was, now, added) && BelowHighest(segs) && Page(v)
    requires FlagsAt(now, v) == FlagsLoaded(segs, nx, v, FlagsAt(was, v))
    ensures v in added <==> v in NewPages(was, segs)
  {
    FlaggedIff(segs, nx, v, FlagsAt(was, v));
    if !There(was, v) && SomeTouches(segs, v) { TouchedIsNew(was, segs, v); }
    assert v in added <==> !There(was, v) && There(now, v);
  }

  // ----- the loader itself

  ghost predicate Progress(was: View, now: View, file: seq<Byte>, segs: seq<Segment>, nx: bool, k: nat, at: nat)
    requires InsideFile(file, segs) && k <= |segs|
  {
    LoadedTo(was, now, file, segs, k, at) && FlaggedTo(was, now, segs, nx, k, at)
  }

  lemma GivenOnce(a: View, pa: seq<nat>, root: int, b: View, pb: seq<nat>, c: View, pc: seq<nat>)
    requires PageGiven(a, pa, root, b, pb) && PageGiven(b, pb, root, c, pc)
    ensures PageGiven(a, pa, root, c, pc)
  {
    MovedOnce(a.ram, a.free, Owned(a.tree, pa), b.ram, b.free, Owned(b.tree, pb), c.ram, c.free, Owned(c.tree, pc));
    if root != 0 {
      forall i, e | KernelEntry(a.ram, root, i, e) ensures KernelEntry(c.ram, root, i, e) {
        assert KernelEntry(b.ram, root, i, e);
      }
    }
  }

  /** The page a new segment starts from. */
  function FirstPage(segs: seq<Segment>, k: nat): nat { if k < |segs| then PageOf(segs[k].vaddr) else 0 }

  /** Why a page can be refused in the middle of loading. */
  ghost predicate NoRoom(m: Machine, p: Process)
    reads m, m.pmm, p, p.space
  {
    |p.pages| == PROC_MAX_PAGES || p.space.root == 0 || |m.pmm.free| <= 1
  }

  /** A process while it is being loaded, and what loading has moved so far. */
  ghost predicate Loading(m: Machine, p: Process, v0: View, pages0: seq<nat>)
    reads m, m.pmm, m.pmm.bitmap, p, p.space
  {
    ProcessSound(m, p) && FreeFits(m.pmm.free) && PageGiven(v0, pages0, p.space.root, Seen(m, p.space), p.pages)
  }

  /** One page of one segment. */
  method LoadPage(m: Machine, p: Process, file: seq<Byte>, segs: seq<Segment>, nx: bool, k: nat, at: nat,
                  ghost was: View, ghost pages0: seq<nat>, ghost added: set<nat>)
    returns (ok: bool, ghost added': set<nat>)
    requires Loading(m, p, was, pages0) && InsideFile(file, segs) && k < |segs| && BelowHighest(segs)
    requires Costs(was, pages0, p.space.root, Seen(m, p.space), p.pages, added)
    requires SegmentOk(file, USER_LOWEST, USER_HIGHEST, segs[k])
    requires Page(at) && PageOf(segs[k].vaddr) <= at && at <= LastPage(segs[k])
    requires Progress(was, Seen(m, p.space), file, segs, nx, k, at)
    modifies m`ram, m.pmm`freePages, m.pmm`free, m.pmm`hint, m.pmm`badFrees, m.pmm.bitmap, p.space`tables,
             p.space`tree, p`pages
    ensures Loading(m, p, was, pages0) && m.pmm.badFrees == old(m.pmm.badFrees)
    ensures p.state == old(p.state) && p.space.root == old(p.space.root)
    ensures ok ==> Progress(was, Seen(m, p.space), file, segs, nx, k, at + PAGE_SIZE)
    ensures ok ==> Costs(was, pages0, p.space.root, Seen(m, p.space), p.pages, added')
    ensures !ok ==> NoRoom(m, p) && !Enough(was, pages0, p.space.root, NewPages(was, segs))
  {
    var part := PartOf(file, segs[k], at);
    PartExact(file, segs[k], at, at);
    ghost var v1, pages1 := Seen(m, p.space), p.pages;
    added' := AddedAfter(v1, added, at);
    StillThere(was, v1, segs, nx, k, at, at);
    ok := AddPageAt(m, p, at, FlagsFor(segs[k].flags, nx), part.into, part.data);
    GivenOnce(was, pages0, p.space.root, v1, pages1, Seen(m, p.space), p.pages);
    assert PageOf(at) == at;
    if !ok {
      PageTooMuch(was, pages0, p.space.root, v1, pages1, added, segs, nx, k, at);
      return;
    }
    CostsMore(was, pages0, p.space.root, v1, pages1, added, Seen(m, p.space), p.pages, at, FlagsFor(segs[k].flags, nx),
              part.into, part.data);
    PageLoaded(was, v1, pages1, Seen(m, p.space), p.pages, file, segs, k, at, FlagsFor(segs[k].flags, nx));
    PageFlagged(was, v1, pages1, Seen(m, p.space), p.pages, segs, nx, k, at, part.into, part.data);
  }

  /** One segment of `elfload`, from the page it starts in to the page its last
      byte is in. */
  method LoadSegment(m: Machine, p: Process, file: seq<Byte>, segs: seq<Segment>, nx: bool, k: nat,
                     ghost was: View, ghost pages0: seq<nat>, ghost added: set<nat>)
    returns (ok: bool, ghost added': set<nat>)
    requires Loading(m, p, was, pages0) && InsideFile(file, segs) && k < |segs| && BelowHighest(segs)
    requires Costs(was, pages0, p.space.root, Seen(m, p.space), p.pages, added)
    requires SegmentOk(file, USER_LOWEST, USER_HIGHEST, segs[k])
    requires Progress(was, Seen(m, p.space), file, segs, nx, k, FirstPage(segs, k))
    modifies m`ram, m.pmm`freePages, m.pmm`free, m.pmm`hint, m.pmm`badFrees, m.pmm.bitmap, p.space`tables,
             p.space`tree, p`pages
    ensures Loading(m, p, was, pages0) && m.pmm.badFrees == old(m.pmm.badFrees)
    ensures p.state == old(p.state) && p.space.root == old(p.space.root)
    ensures ok ==> Progress(was, Seen(m, p.space), file, segs, nx, k + 1, FirstPage(segs, k + 1))
    ensures ok ==> Costs(was, pages0, p.space.root, Seen(m, p.space), p.pages, added')
    ensures !ok ==> NoRoom(m, p) && !Enough(was, pages0, p.space.root, NewPages(was, segs))
  {
    added' := added;
    var at, last := PageOf(segs[k].vaddr), LastPage(segs[k]);
    LastPageAfter(segs[k]);
    while at <= last
      invariant PageOf(segs[k].vaddr) <= at <= last + PAGE_SIZE && Aligned(at)
      invariant Loading(m, p, was, pages0) && m.pmm.badFrees == old(m.pmm.badFrees)
      invariant p.state == old(p.state) && p.space.root == old(p.space.root)
      invariant Progress(was, Seen(m, p.space), file, segs, nx, k, at)
      invariant Costs(was, pages0, p.space.root, Seen(m, p.space), p.pages, added')
    {
      ok, added' := LoadPage(m, p, file, segs, nx, k, at, was, pages0, added');
      if !ok { return; }
      NextAligned(at);
      at := at + PAGE_SIZE;
    }
    SegmentDone(was, Seen(m, p.space), file, segs, k, at, FirstPage(segs, k + 1));
    SegmentFlagged(was, Seen(m, p.space), segs, nx, k, at, FirstPage(segs, k + 1));
    ok := true;
  }

  /** Every address means what loading the segments one after another makes it
      mean, and every page has the flags of the first segment to touch it. */
  ghost predicate AllLoaded(was: View, now: View, file: seq<Byte>, segs: seq<Segment>, nx: bool)
    requires InsideFile(file, segs)
  {
    && (forall a {:trigger ByteAt(now.ram, now.tree, a)} :: LowerHalf(a) ==>
          ByteAt(now.ram, now.tree, a) == Loaded(file, segs, a, ByteAt(was.ram, was.tree, a)))
    && (forall v {:trigger FlagsAt(now, v)} :: Page(v) ==> FlagsAt(now, v) == FlagsLoaded(segs, nx, v, FlagsAt(was, v)))
  }

  /** Before the first of them. */
  lemma AtFirst(m: Machine, p: Process, file: seq<Byte>, segs: seq<Segment>, nx: bool)
    requires ProcessSound(m, p) && FreeFits(m.pmm.free) && InsideFile(file, segs)
    requires SegmentsOk(file, USER_LOWEST, USER_HIGHEST, segs)
    ensures var was := Seen(m, p.space);
            && Loading(m, p, was, p.pages) && BelowHighest(segs)
            && Progress(was, was, file, segs, nx, 0, FirstPage(segs, 0))
            && Costs(was, p.pages, p.space.root, was, p.pages, {})
  {
    var was := Seen(m, p.space);
    OwnedIsApart(m.ram, m.pmm.free, p.space.root, p.space.tables, p.space.tree, p.pages);
    NothingMoved(was, p.pages, p.space.root);
    NothingLoaded(was, file, segs, nx);
    CostsNone(was, p.pages, p.space.root);
    AllBelowHighest(file, segs);
  }

  /** All the segments in turn. */
  method LoadSegments(m: Machine, p: Process, file: seq<Byte>, segs: seq<Segment>, nx: bool) returns (ok: bool)
    requires ProcessSound(m, p) && FreeFits(m.pmm.free) && InsideFile(file, segs) &&
             SegmentsOk(file, USER_LOWEST, USER_HIGHEST, segs)
    modifies m`ram, m.pmm`freePages, m.pmm`free, m.pmm`hint, m.pmm`badFrees, m.pmm.bitmap, p.space`tables,
             p.space`tree, p`pages
    ensures Loading(m, p, old(Seen(m, p.space)), old(p.pages)) && m.pmm.badFrees == old(m.pmm.badFrees)
    ensures p.state == old(p.state) && p.space.root == old(p.space.root)
    ensures ok ==> AllLoaded(old(Seen(m, p.space)), Seen(m, p.space), file, segs, nx)
    ensures !ok ==> NoRoom(m, p)
    ensures ok <==> Enough(old(Seen(m, p.space)), old(p.pages), p.space.root, NewPages(old(Seen(m, p.space)), segs))
  {
    ghost var was, pages0 := Seen(m, p.space), p.pages;
    ghost var added: set<nat> := {};
    AtFirst(m, p, file, segs, nx);
    var i := 0;
    while i < |segs|
      invariant 0 <= i <= |segs|
      invariant Loading(m, p, was, pages0) && m.pmm.badFrees == old(m.pmm.badFrees)
      invariant p.state == old(p.state) && p.space.root == old(p.space.root)
      invariant Progress(was, Seen(m, p.space), file, segs, nx, i, FirstPage(segs, i))
      invariant Costs(was, pages0, p.space.root, Seen(m, p.space), p.pages, added)
    {
      ok, added := LoadSegment(m, p, file, segs, nx, i, was, pages0, added);
      if !ok { return; }
      i := i + 1;
    }
    AllIn(was, pages0, p.space.root, Seen(m, p.space), p.pages, added, file, segs, nx);
    ok := true;
  }

  lemma AllIn(was: View, pages0: seq<nat>, root: int, now: View, pages: seq<nat>, added: set<nat>, file: seq<Byte>,
              segs: seq<Segment>, nx: bool)
    requires InsideFile(file, segs) && Progress(was, now, file, segs, nx, |segs|, FirstPage(segs, |segs|))
    requires BelowHighest(segs) && Costs(was, pages0, root, now, pages, added) && |pages| <= PROC_MAX_PAGES
    ensures AllLoaded(was, now, file, segs, nx) && Enough(was, pages0, root, NewPages(was, segs))
  {
    EverythingLoaded(was, now, file, segs, nx);
    LoadedWasEnough(was, pages0, root, now, pages, added, file, segs, nx);
  }

  lemma AllBelowHighest(file: seq<Byte>, segs: seq<Segment>)
    requires SegmentsOk(file, USER_LOWEST, USER_HIGHEST, segs)
    ensures BelowHighest(segs)
  {
    forall k | 0 <= k < |segs| ensures 0 < segs[k].memBytes && segs[k].End() <= USER_HIGHEST {
      assert SegmentOk(file, USER_LOWEST, USER_HIGHEST, segs[k]);
    }
  }

  lemma NothingLoaded(was: View, file: seq<Byte>, segs: seq<Segment>, nx: bool)
    requires InsideFile(file, segs)
    ensures Progress(was, was, file, segs, nx, 0, FirstPage(segs, 0))
  {
    assert segs[..0] == [];
  }

  lemma EverythingLoaded(was: View, now: View, file: seq<Byte>, segs: seq<Segment>, nx: bool)
    requires InsideFile(file, segs) && Progress(was, now, file, segs, nx, |segs|, FirstPage(segs, |segs|))
    ensures AllLoaded(was, now, file, segs, nx)
  {
    forall a | LowerHalf(a) ensures ByteAt(now.ram, now.tree, a) == Loaded(file, segs, a, ByteAt(was.ram, was.tree, a)) {
      assert ByteAt(now.ram, now.tree, a) == SoFar(file, segs, |segs|, FirstPage(segs, |segs|), a, ByteAt(was.ram, was.tree, a));
    }
    forall v | Page(v) ensures FlagsAt(now, v) == FlagsLoaded(segs, nx, v, FlagsAt(was, v)) {
      assert FlagsAt(now, v) == FlagsSoFar(segs, nx, |segs|, FirstPage(segs, |segs|), v, FlagsAt(was, v));
    }
  }

  /** The segments a file asks to have loaded. */
  ghost function SegmentsOf(file: seq<Byte>): seq<Segment>
    requires Acceptable(file, USER_LOWEST, USER_HIGHEST)
  {
    Loads(file, Read64(file, 0x20), Read16(file, 0x38))
  }

  /** `elfload`: a file that is not acceptable changes nothing; one that is loads
      completely, unless pages run out on the way. */
  method Load(m: Machine, p: Process, file: seq<Byte>, nx: bool) returns (r: ElfResult)
    requires ProcessSound(m, p) && FreeFits(m.pmm.free) && |file| < WORD
    modifies m`ram, m.pmm`freePages, m.pmm`free, m.pmm`hint, m.pmm`badFrees, m.pmm.bitmap, p.space`tables,
             p.space`tree, p`pages, p`entry
    ensures Loading(m, p, old(Seen(m, p.space)), old(p.pages)) && m.pmm.badFrees == old(m.pmm.badFrees)
    ensures p.state == old(p.state) && p.space.root == old(p.space.root)
    ensures !Acceptable(file, USER_LOWEST, USER_HIGHEST) ==>
              r != ElfOk && Seen(m, p.space) == old(Seen(m, p.space)) && p.pages == old(p.pages) && p.entry == old(p.entry)
    ensures Acceptable(file, USER_LOWEST, USER_HIGHEST) && r != ElfOk ==> NoRoom(m, p) && p.entry == old(p.entry)
    ensures r == ElfOk <==>
              && Acceptable(file, USER_LOWEST, USER_HIGHEST)
              && Enough(old(Seen(m, p.space)), old(p.pages), p.space.root, NewPages(old(Seen(m, p.space)), SegmentsOf(file)))
    ensures r == ElfOk ==>
              && Acceptable(file, USER_LOWEST, USER_HIGHEST) && InsideFile(file, SegmentsOf(file))
              && AllLoaded(old(Seen(m, p.space)), Seen(m, p.space), file, SegmentsOf(file), nx)
              && p.entry == Read64(file, 0x18) && EntryOk(SegmentsOf(file), p.entry)
  {
    ghost var was, pages0 := Seen(m, p.space), p.pages;
    OwnedIsApart(m.ram, m.pmm.free, p.space.root, p.space.tables, p.space.tree, p.pages);
    NothingMoved(was, pages0, p.space.root);
    var image;
    ghost var bad;
    r, image, bad := Check(file, USER_LOWEST, USER_HIGHEST);
    if r != ElfOk { return; }
    LoadedIsDescribed(file, USER_LOWEST, USER_HIGHEST, image.segments, 0);
    var ok := LoadImage(m, p, file, image.segments, image.entry, nx);
    if !ok { return SegmentOutOfRange; }
  }

  /** The segments of a checked file, and where it starts. */
  method LoadImage(m: Machine, p: Process, file: seq<Byte>, segs: seq<Segment>, entry: nat, nx: bool) returns (ok: bool)
    requires ProcessSound(m, p) && FreeFits(m.pmm.free) && InsideFile(file, segs) &&
             SegmentsOk(file, USER_LOWEST, USER_HIGHEST, segs)
    modifies m`ram, m.pmm`freePages, m.pmm`free, m.pmm`hint, m.pmm`badFrees, m.pmm.bitmap, p.space`tables,
             p.space`tree, p`pages, p`entry
    ensures Loading(m, p, old(Seen(m, p.space)), old(p.pages)) && m.pmm.badFrees == old(m.pmm.badFrees)
    ensures p.state == old(p.state) && p.space.root == old(p.space.root)
    ensures ok ==> AllLoaded(old(Seen(m, p.space)), Seen(m, p.space), file, segs, nx) && p.entry == entry
    ensures !ok ==> NoRoom(m, p) && p.entry == old(p.entry)
    ensures ok <==> Enough(old(Seen(m, p.space)), old(p.pages), p.space.root, NewPages(old(Seen(m, p.space)), segs))
  {
    ghost var was, pages0 := Seen(m, p.space), p.pages;
    ok := LoadSegments(m, p, file, segs, nx);
    if ok { SetEntry(m, p, entry, was, pages0); }
  }

  method SetEntry(m: Machine, p: Process, entry: nat, ghost v0: View, ghost pages0: seq<nat>)
    requires Loading(m, p, v0, pages0)
    modifies p`entry
    ensures Loading(m, p, v0, pages0) && p.entry == entry && Seen(m, p.space) == old(Seen(m, p.space))
    ensures m.pmm.badFrees == old(m.pmm.badFrees) && p.state == old(p.state) && p.space.root == old(p.space.root)
  {
    p.entry := entry;
  }

  lemma NextAligned(at: nat)
    requires Aligned(at)
    ensures Aligned(at + PAGE_SIZE)
  {
  }

  lemma LastPageAfter(s: Segment)
    requires 0 < s.memBytes && s.End() <= USER_HIGHEST
    ensures PageOf(s.vaddr) <= LastPage(s) < USER_HIGHEST && Aligned(LastPage(s)) && Aligned(PageOf(s.vaddr))
  {
  }

  /** A process that mapped nothing has exactly the image the program headers
      describe once an executable is loaded. */
  lemma FreshImage(was: View, now: View, file: seq<Byte>, nx: bool, a: nat)
    requires Acceptable(file, USER_LOWEST, USER_HIGHEST) && InsideFile(file, SegmentsOf(file))
    requires AllLoaded(was, now, file, SegmentsOf(file), nx) && LowerHalf(a)
    requires forall path: seq<nat> {:trigger Leaf(was.ram, was.tree, path)} :: |path| == 4 ==> Leaf(was.ram, was.tree, path) == None
    ensures Described(file, SegmentsOf(file), a, ByteAt(now.ram, now.tree, a))
  {
    assert ByteAt(was.ram, was.tree, a) == None;
    LoadedIsDescribed(file, USER_LOWEST, USER_HIGHEST, SegmentsOf(file), a);
  }

  /** A page has the permissions of the first segment that touches it: writable and
      runnable as the file says of that one, and for the program to use. */
  lemma {:induction false} FirstFlags(segs: seq<Segment>, nx: bool, page: nat, f: nat)
    requires f < |segs| && Touches(segs[f], page, page + 1)
    requires forall j :: 0 <= j < f ==> !Touches(segs[j], page, page + 1)
    ensures FlagsLoaded(segs, nx, page, None) == Some(ProgramFlags(FlagsFor(segs[f].flags, nx)))
    decreases |segs|
  {
    var n := |segs| - 1;
    var front := segs[..n];
    if f < n {
      FirstFlags(front, nx, page, f);
    } else {
      NobodyFlags(front, nx, page);
    }
  }

  /** The same permissions, where the processor can refuse to run a page. */
  predicate SamePermissions(s: Segment, t: Segment, nx: bool) {
    Writable(s.flags) == Writable(t.flags) && (nx ==> Executable(s.flags) == Executable(t.flags))
  }

  /** A segment that shares a page has its permissions there exactly when the first
      segment of the page asks for the same. */
  lemma SharedFlags(segs: seq<Segment>, nx: bool, page: nat, f: nat, k: nat)
    requires f <= k < |segs| && Touches(segs[f], page, page + 1) && Touches(segs[k], page, page + 1)
    requires forall j :: 0 <= j < f ==> !Touches(segs[j], page, page + 1)
    ensures FlagsLoaded(segs, nx, page, None) == Some(ProgramFlags(FlagsFor(segs[k].flags, nx))) <==>
            SamePermissions(segs[f], segs[k], nx)
  {
    FirstFlags(segs, nx, page, f);
    var a, b := FlagsFor(segs[f].flags, nx), FlagsFor(segs[k].flags, nx);
    assert ProgramFlags(a).write == a.write && ProgramFlags(a).nx == a.nx;
    assert ProgramFlags(b).write == b.write && ProgramFlags(b).nx == b.nx;
  }

  lemma {:induction false} NobodyFlags(segs: seq<Segment>, nx: bool, page: nat)
    requires forall j :: 0 <= j < |segs| ==> !Touches(segs[j], page, page + 1)
    ensures FlagsLoaded(segs, nx, page, None) == None
    decreases |segs|
  {
    if segs != [] { NobodyFlags(segs[..|segs| - 1], nx, page); }
  }
}
