// Giving one process its pages, and taking them back (kernel/src/process.c,
// kernel/src/pmmboot.c).
module Process {
  import opened Common
  import opened Pmm
  import opened Paging
  import opened Vmm
  import opened VmmSpace
  import opened VmmFree
  import opened ProcessImage

  datatype ProcState = Unused | Ready | Running | Exited

  class Process {
    var state: ProcState
    const space: Space
    /** `pages`, up to `page_count`. */
    var pages: seq<nat>
    var pid: nat
    var entry: nat
    var userStack: nat

    constructor (space: Space)
      ensures state == Unused && pages == [] && this.space == space
    {
      state, pages, pid, entry, userStack := Unused, [], 0, 0, 0;
      this.space := space;
    }
  }

  ghost predicate ProcessSound(m: Machine, p: Process)
    reads m, m.pmm, m.pmm.bitmap, p, p.space
  {
    && m.pmm.Valid()
    && ProcOk(m.ram, m.pmm.free, p.space.root, p.space.tables, p.space.tree, p.pages)
    && (p.state == Unused ==> p.space.root == 0 && p.pages == [])
  }

  /** Every free frame has an address an entry can hold. */
  ghost predicate FreeFits(free: set<int>) { forall f {:trigger f in free} :: f in free ==> f < FRAME_LIMIT }

  /** The page a path leads to is there and holds the data where it was asked
      for, and elsewhere what it held, or zero when it is new; every other page
      is as it was. */
  ghost predicate Filled(ram: Ram, tree: Tables, ram': Ram, tree': Tables, path: seq<nat>, into: nat, data: seq<Byte>) {
    forall p: seq<nat>, o: nat {:trigger ByteOf(ram', tree', p, o)} :: |p| == 4 && o < PAGE_SIZE ==>
      ByteOf(ram', tree', p, o) ==
      if p != path then ByteOf(ram, tree, p, o)
      else if into <= o < into + |data| then Some(data[o - into])
      else if ByteOf(ram, tree, p, o).Some? then ByteOf(ram, tree, p, o) else Some(0)
  }

  // ----- on values

  lemma PageFilled(ram: Ram, free: set<int>, root: int, tables: nat, tree: Tables, pages: seq<nat>,
                   path: seq<nat>, into: nat, data: seq<Byte>)
    requires ProcOk(ram, free, root, tables, tree, pages) && |path| == 4 && Leaf(ram, tree, path).Some?
    requires into + |data| <= PAGE_SIZE
    ensures var f := Leaf(ram, tree, path).value.frame;
            && IsPage(ram, f) && f in pages
            && var ram' := ram[f := Bytes(Splice(ram[f].b, into, data))];
               && ProcOk(ram', free, root, tables, tree, pages)
               && SameLeaves(ram, tree, ram', tree) && (root != 0 ==> UpperKept(ram, root, ram'))
               && Filled(ram, tree, ram', tree, path, into, data)
  {
    var f := Leaf(ram, tree, path).value.frame;
    assert LeafOwned(ram, tree, pages, path);
    var j :| 0 <= j < |pages| && pages[j] == f;
    assert PageOk(ram, free, tree, pages, j);
    var ram' := ram[f := Bytes(Splice(ram[f].b, into, data))];
    if root != 0 {
      TreeKept(ram, ram', root, tree);
      assert tree[[]] in tree.Values;
    }
    SameProc(ram, ram', free, root, tables, tree, pages);
    forall p: seq<nat>, o: nat | |p| == 4 && o < PAGE_SIZE
      ensures ByteOf(ram', tree, p, o) ==
              if p != path then ByteOf(ram, tree, p, o)
              else if into <= o < into + |data| then Some(data[o - into])
              else if ByteOf(ram, tree, p, o).Some? then ByteOf(ram, tree, p, o) else Some(0)
    {
      assert Leaf(ram', tree, p) == Leaf(ram, tree, p);
      assert LeafApart(ram, tree, p, path);
    }
  }

  /** Pages written and nothing else. */
  lemma SameProc(ram: Ram, ram': Ram, free: set<int>, root: int, tables: nat, tree: Tables, pages: seq<nat>)
    requires ProcOk(ram, free, root, tables, tree, pages) && SpaceOk(ram', free, root, tables, tree)
    requires SameLeaves(ram, tree, ram', tree) && forall f :: IsPage(ram, f) ==> IsPage(ram', f)
    ensures ProcOk(ram', free, root, tables, tree, pages)
  {
    forall j ensures PageOk(ram', free, tree, pages, j) {
      assert PageOk(ram, free, tree, pages, j);
      if 0 <= j < |pages| {
        var p :| LeadsTo(ram, tree, p, pages[j]);
        assert LeadsTo(ram', tree, p, pages[j]);
      }
    }
    forall p ensures LeafOwned(ram', tree, pages, p) { assert LeafOwned(ram, tree, pages, p); }
    forall p, q ensures LeafApart(ram', tree, p, q) { assert LeafApart(ram, tree, p, q); }
  }

  /** The moment between a page being taken and being mapped. */
  ghost function Taken(a: View, f: nat, page: seq<Byte>): View
    requires |page| == PAGE_SIZE
  {
    View(a.ram[f := Bytes(page)], a.free - {f}, a.tree)
  }

  lemma TakenSound(a: View, root: int, tables: nat, f: nat, page: seq<Byte>)
    requires SpaceOk(a.ram, a.free, root, tables, a.tree) && f in a.free && |page| == PAGE_SIZE
    ensures var t := Taken(a, f, page);
            && SpaceOk(t.ram, t.free, root, tables, t.tree) && SameLeaves(a.ram, a.tree, t.ram, t.tree)
            && (root != 0 ==> UpperKept(a.ram, root, t.ram))
  {
    if root != 0 {
      TreeKept(a.ram, Taken(a, f, page).ram, root, a.tree);
      assert a.tree[[]] in a.tree.Values;
    }
  }

  /** A page of the list while tables are added around it. */
  lemma OldPage(a: View, root: int, tables: nat, pages: seq<nat>, f: nat, page: seq<Byte>, b: View, j: int)
    requires ProcOk(a.ram, a.free, root, tables, a.tree, pages) && f in a.free && |page| == PAGE_SIZE
    requires Grew(Taken(a, f, page), b) && 0 <= j < |pages|
    ensures IsPage(a.ram, pages[j]) && IsPage(b.ram, pages[j]) && b.ram[pages[j]] == a.ram[pages[j]]
    ensures pages[j] !in b.free && pages[j] !in b.tree.Values && pages[j] != f
  {
    assert PageOk(a.ram, a.free, a.tree, pages, j);
    assert FrameKept(Taken(a, f, page), b, pages[j]);
  }

  /** The page taken, once tables are added around it. */
  lemma NewPage(a: View, f: nat, page: seq<Byte>, b: View)
    requires f in a.free && a.free !! a.tree.Values && |page| == PAGE_SIZE && Grew(Taken(a, f, page), b)
    ensures f !in b.free && f !in b.tree.Values && f in b.ram && b.ram[f] == Bytes(page)
  {
    assert FrameKept(Taken(a, f, page), b, f);
  }

  /** Taking a page and building tables moves frames and writes nothing else. */
  lemma TakenMoved(a: View, pages: seq<nat>, f: nat, page: seq<Byte>, b: View)
    requires f in a.free && a.free !! a.tree.Values && |page| == PAGE_SIZE && Grew(Taken(a, f, page), b)
    requires forall j :: 0 <= j < |pages| ==> pages[j] !in a.free && pages[j] !in b.free && pages[j] !in a.tree.Values
    ensures Moved(a.ram, a.free, Owned(a.tree, pages), b.ram, b.free, Owned(b.tree, pages + [f]))
    ensures Moved(a.ram, a.free, Owned(a.tree, pages), b.ram, b.free + {f}, Owned(b.tree, pages))
  {
    var t := Taken(a, f, page);
    NewPage(a, f, page, b);
    forall x | x in a.tree.Values ensures x in b.tree.Values { ValuesKept(t, b, x); }
    forall x ensures FrameKept(t, b, x) { }
    forall x | x in a.ram && x !in a.free + Owned(a.tree, pages) ensures x in b.ram && b.ram[x] == a.ram[x] {
      assert FrameKept(t, b, x);
    }
    assert forall x :: x in pages + [f] <==> x in pages || x == f;
    forall x ensures x in b.free + Owned(b.tree, pages + [f]) <==> x in a.free + Owned(a.tree, pages) {
      assert FrameKept(t, b, x);
    }
    forall x ensures x in b.free + {f} + Owned(b.tree, pages) <==> x in a.free + Owned(a.tree, pages) {
      assert FrameKept(t, b, x);
    }
    forall x | x in b.free ensures x !in Owned(b.tree, pages + [f]) {
      assert FrameKept(t, b, x);
    }
  }

  /** A page taken and mapped: one more page, zero but for the data. */
  lemma PageAdded(a: View, root: int, tables: nat, pages: seq<nat>, f: nat, page: seq<Byte>,
                  b: View, tables': nat, path: seq<nat>)
    requires ProcOk(a.ram, a.free, root, tables, a.tree, pages) && |pages| < PROC_MAX_PAGES
    requires f in a.free && 0 < f < FRAME_LIMIT && |page| == PAGE_SIZE && |path| == 4
    requires Grew(Taken(a, f, page), b) && SpaceOk(b.ram, b.free, root, tables', b.tree)
    requires OnlyLeaf(Taken(a, f, page).ram, a.tree, b.ram, b.tree, path) && Leaf(a.ram, a.tree, path) == None
    requires Leaf(b.ram, b.tree, path).Some?
    requires Leaf(b.ram, b.tree, path).value.frame == f && Leaf(b.ram, b.tree, path).value.flags.user
    ensures ProcOk(b.ram, b.free, root, tables', b.tree, pages + [f])
    ensures OnlyLeaf(a.ram, a.tree, b.ram, b.tree, path)
    ensures forall p: seq<nat>, o: nat {:trigger ByteOf(b.ram, b.tree, p, o)} :: |p| == 4 && o < PAGE_SIZE ==>
              ByteOf(b.ram, b.tree, p, o) == if p == path then Some(page[o]) else ByteOf(a.ram, a.tree, p, o)
  {
    TakenSound(a, root, tables, f, page);
    NewPage(a, f, page, b);
    var t := Taken(a, f, page);
    var pages' := pages + [f];
    forall p: seq<nat> | |p| == 4 && p != path ensures Leaf(b.ram, b.tree, p) == Leaf(a.ram, a.tree, p) {
      assert Leaf(t.ram, t.tree, p) == Leaf(a.ram, a.tree, p);
    }
    forall j ensures PageOk(b.ram, b.free, b.tree, pages', j) {
      if 0 <= j < |pages| {
        OldPage(a, root, tables, pages, f, page, b, j);
        assert PageOk(a.ram, a.free, a.tree, pages, j);
        var p :| LeadsTo(a.ram, a.tree, p, pages[j]);
        assert LeadsTo(b.ram, b.tree, p, pages'[j]);
      } else if j == |pages| {
        assert LeadsTo(b.ram, b.tree, path, f);
        forall k | 0 <= k < |pages| ensures pages'[k] != f { OldPage(a, root, tables, pages, f, page, b, k); }
      }
    }
    forall p ensures LeafOwned(b.ram, b.tree, pages', p) { assert LeafOwned(a.ram, a.tree, pages, p); }
    forall p, q ensures LeafApart(b.ram, b.tree, p, q) {
      assert LeafApart(a.ram, a.tree, p, q);
      if |p| == 4 && p != path && Leaf(a.ram, a.tree, p).Some? { OldLeaf(a, root, tables, pages, f, page, b, p); }
      if |q| == 4 && q != path && Leaf(a.ram, a.tree, q).Some? { OldLeaf(a, root, tables, pages, f, page, b, q); }
    }
    forall p: seq<nat>, o: nat | |p| == 4 && o < PAGE_SIZE
      ensures ByteOf(b.ram, b.tree, p, o) == if p == path then Some(page[o]) else ByteOf(a.ram, a.tree, p, o)
    {
      if p != path && Leaf(a.ram, a.tree, p).Some? { OldLeaf(a, root, tables, pages, f, page, b, p); }
    }
  }

  /** What an earlier page's path leads to. */
  lemma OldLeaf(a: View, root: int, tables: nat, pages: seq<nat>, f: nat, page: seq<Byte>, b: View, p: seq<nat>)
    requires ProcOk(a.ram, a.free, root, tables, a.tree, pages) && f in a.free && |page| == PAGE_SIZE
    requires Grew(Taken(a, f, page), b) && |p| == 4 && Leaf(a.ram, a.tree, p).Some?
    ensures var g := Leaf(a.ram, a.tree, p).value.frame;
            g != f && IsPage(a.ram, g) && IsPage(b.ram, g) && b.ram[g] == a.ram[g]
  {
    assert LeafOwned(a.ram, a.tree, pages, p);
    var j :| 0 <= j < |pages| && pages[j] == Leaf(a.ram, a.tree, p).value.frame;
    OldPage(a, root, tables, pages, f, page, b, j);
  }

  /** A page taken and given back because it could not be mapped: the tables that
      were built stay, and nothing else has changed. */
  lemma PageNotAdded(a: View, root: int, tables: nat, pages: seq<nat>, f: nat, page: seq<Byte>, b: View, tables': nat)
    requires ProcOk(a.ram, a.free, root, tables, a.tree, pages)
    requires f in a.free && |page| == PAGE_SIZE
    requires Grew(Taken(a, f, page), b) && SpaceOk(b.ram, b.free, root, tables', b.tree)
    requires SameLeaves(Taken(a, f, page).ram, a.tree, b.ram, b.tree)
    ensures ProcOk(b.ram, b.free + {f}, root, tables', b.tree, pages)
    ensures SameLeaves(a.ram, a.tree, b.ram, b.tree)
    ensures forall p: seq<nat>, o: nat {:trigger ByteOf(b.ram, b.tree, p, o)} :: |p| == 4 && o < PAGE_SIZE ==>
              ByteOf(b.ram, b.tree, p, o) == ByteOf(a.ram, a.tree, p, o)
  {
    TakenSound(a, root, tables, f, page);
    NewPage(a, f, page, b);
    var t := Taken(a, f, page);
    forall p: seq<nat> | |p| == 4 ensures Leaf(b.ram, b.tree, p) == Leaf(a.ram, a.tree, p) {
      assert Leaf(t.ram, t.tree, p) == Leaf(a.ram, a.tree, p);
    }
    forall j ensures PageOk(b.ram, b.free + {f}, b.tree, pages, j) {
      if 0 <= j < |pages| {
        OldPage(a, root, tables, pages, f, page, b, j);
        assert PageOk(a.ram, a.free, a.tree, pages, j);
        var p :| LeadsTo(a.ram, a.tree, p, pages[j]);
        assert LeadsTo(b.ram, b.tree, p, pages[j]);
      }
    }
    forall p ensures LeafOwned(b.ram, b.tree, pages, p) { assert LeafOwned(a.ram, a.tree, pages, p); }
    forall p, q ensures LeafApart(b.ram, b.tree, p, q) { assert LeafApart(a.ram, a.tree, p, q); }
    forall p: seq<nat>, o: nat | |p| == 4 && o < PAGE_SIZE ensures ByteOf(b.ram, b.tree, p, o) == ByteOf(a.ram, a.tree, p, o) {
      if Leaf(a.ram, a.tree, p).Some? { OldLeaf(a, root, tables, pages, f, page, b, p); }
    }
  }

  // ----- the operations

  /** What giving a process a page does, whether or not it succeeds. */
  ghost predicate PageGiven(a: View, pages: seq<nat>, root: int, b: View, pages': seq<nat>) {
    && Moved(a.ram, a.free, Owned(a.tree, pages), b.ram, b.free, Owned(b.tree, pages'))
    && (root != 0 ==> UpperKept(a.ram, root, b.ram))
  }

  /** Nothing any address means has changed. */
  ghost predicate SameImage(a: View, b: View) {
    && SameLeaves(a.ram, a.tree, b.ram, b.tree)
    && forall p: seq<nat>, o: nat {:trigger ByteOf(b.ram, b.tree, p, o)} :: |p| == 4 && o < PAGE_SIZE ==>
         ByteOf(b.ram, b.tree, p, o) == ByteOf(a.ram, a.tree, p, o)
  }

  /** The flags a new page of a program is mapped with. */
  function ProgramFlags(flags: Flags): Flags { OrFlags(flags.(user := true), NO_FLAGS.(present := true)) }

  /** A page that is there already is filled: its mapping and its owner stay. */
  method FillPage(m: Machine, p: Process, phys: nat, into: nat, data: seq<Byte>, ghost path: seq<nat>)
    requires ProcessSound(m, p) && into + |data| <= PAGE_SIZE && |path| == 4
    requires Leaf(m.ram, p.space.tree, path).Some? && Leaf(m.ram, p.space.tree, path).value.frame == phys / PAGE_SIZE
    modifies m`ram
    ensures ProcessSound(m, p)
    ensures m.pmm.badFrees == old(m.pmm.badFrees)
    ensures PageGiven(old(Seen(m, p.space)), p.pages, p.space.root, Seen(m, p.space), p.pages)
    ensures SameLeaves(old(m.ram), p.space.tree, m.ram, p.space.tree)
    ensures Filled(old(m.ram), p.space.tree, m.ram, p.space.tree, path, into, data)
  {
    var f := phys / PAGE_SIZE;
    PageFilled(m.ram, m.pmm.free, p.space.root, p.space.tables, p.space.tree, p.pages, path, into, data);
    assert f in Owned(p.space.tree, p.pages);
    assert OwnedApart(m.pmm.free, p.space.tree, p.pages) by {
      OwnedIsApart(m.ram, m.pmm.free, p.space.root, p.space.tables, p.space.tree, p.pages);
    }
    if |data| > 0 {
      m.ram := m.ram[f := Bytes(Splice(m.ram[f].b, into, data))];
    } else {
      assert Splice(m.ram[f].b, into, data) == m.ram[f].b;
      assert m.ram[f := Bytes(Splice(m.ram[f].b, into, data))] == m.ram;
    }
  }

  ghost predicate OwnedApart(free: set<int>, tree: Tables, pages: seq<nat>) { free !! Owned(tree, pages) }

  lemma OwnedIsApart(ram: Ram, free: set<int>, root: int, tables: nat, tree: Tables, pages: seq<nat>)
    requires ProcOk(ram, free, root, tables, tree, pages)
    ensures OwnedApart(free, tree, pages)
  {
    forall f | f in Owned(tree, pages) ensures f !in free {
      if f !in tree.Values {
        var j :| 0 <= j < |pages| && pages[j] == f;
        assert PageOk(ram, free, tree, pages, j);
      }
    }
  }

  lemma NothingMoved(a: View, pages: seq<nat>, root: int)
    requires OwnedApart(a.free, a.tree, pages)
    ensures PageGiven(a, pages, root, a, pages)
  {
  }

  lemma MovedPages(a: View, root: int, tables: nat, pages: seq<nat>, f: nat, page: seq<Byte>, b: View)
    requires ProcOk(a.ram, a.free, root, tables, a.tree, pages) && f in a.free && |page| == PAGE_SIZE
    requires Grew(Taken(a, f, page), b) && UpperKept(Taken(a, f, page).ram, root, b.ram)
    ensures PageGiven(a, pages, root, b, pages + [f])
    ensures PageGiven(a, pages, root, b.(free := b.free + {f}), pages)
  {
    TakenSound(a, root, tables, f, page);
    forall j | 0 <= j < |pages| ensures pages[j] !in a.free && pages[j] !in b.free && pages[j] !in a.tree.Values {
      OldPage(a, root, tables, pages, f, page, b, j);
      assert PageOk(a.ram, a.free, a.tree, pages, j);
    }
    TakenMoved(a, pages, f, page, b);
    if root != 0 {
      forall i, e | KernelEntry(a.ram, root, i, e) ensures KernelEntry(b.ram, root, i, e) {
        assert KernelEntry(Taken(a, f, page).ram, root, i, e);
      }
    }
  }

  /** `pmm_alloc_zeroed` and the copy into the page. */
  method TakePage(m: Machine, s: Space, into: nat, data: seq<Byte>) returns (f: nat)
    requires SpaceSound(m, s) && FreeFits(m.pmm.free) && into + |data| <= PAGE_SIZE
    modifies m`ram, m.pmm`freePages, m.pmm`free, m.pmm`hint, m.pmm.bitmap
    ensures SpaceSound(m, s) && m.pmm.badFrees == old(m.pmm.badFrees)
    ensures f == 0 <==> old(m.pmm.free) == {}
    ensures f == 0 ==> Seen(m, s) == old(Seen(m, s))
    ensures f != 0 ==>
              && f in old(m.pmm.free) && f < FRAME_LIMIT
              && Seen(m, s) == Taken(old(Seen(m, s)), f, Splice(ZeroPage(), into, data))
  {
    ghost var a := Seen(m, s);
    var phys := m.pmm.Alloc();
    if phys == PMM_NONE { return 0; }
    f := phys / PAGE_SIZE;
    TakenSound(a, s.root, s.tables, f, Splice(ZeroPage(), into, data));
    m.ram := m.ram[f := Bytes(Splice(ZeroPage(), into, data))];
  }

  /** The entry that a frame handed to `vmm_map` becomes. */
  lemma ProgramEntry(f: nat, flags: Flags)
    requires f < FRAME_LIMIT
    ensures Aligned(f * PAGE_SIZE)
    ensures Pte(f * PAGE_SIZE / PAGE_SIZE % 0x100_0000_0000, OrFlags(flags.(user := true), NO_FLAGS.(present := true)))
              == Pte(f, ProgramFlags(flags))
  {
    assert f * PAGE_SIZE / PAGE_SIZE == f;
  }

  /** `vmm_map` of a frame at an unmapped page. */
  method MapFrame(m: Machine, s: Space, virt: nat, f: nat, flags: Flags) returns (ok: bool)
    requires SpaceSound(m, s) && Walkable(virt) && 0 < f < FRAME_LIMIT
    requires Page(virt) ==> Meaning(m.ram, s.tree, virt) == None
    modifies m`ram, m.pmm`freePages, m.pmm`free, m.pmm`hint, m.pmm.bitmap, s`tables, s`tree
    ensures SpaceSound(m, s) && s.root == old(s.root) && m.pmm.badFrees == old(m.pmm.badFrees)
    ensures Grew(old(Seen(m, s)), Seen(m, s)) && UpperKept(old(m.ram), s.root, m.ram)
    ensures !ok ==> SameLeaves(old(m.ram), old(s.tree), m.ram, s.tree)
    ensures !ok ==> s.root == 0 || !Page(virt) || m.pmm.free == {}
    ensures ok <==> s.root != 0 && Page(virt) && |old(m.pmm.free)| >= Short(old(s.tree), Indices(virt))
    ensures ok ==> Page(virt) && s.root != 0 && OnlyLeaf(old(m.ram), old(s.tree), m.ram, s.tree, Indices(virt))
    ensures ok ==> Leaf(m.ram, s.tree, Indices(virt)) == Some(Pte(f, ProgramFlags(flags)))
    ensures ok ==> WayBuilt(old(Seen(m, s)), Seen(m, s), virt)
  {
    ghost var tree := s.tree;
    ProgramEntry(f, flags);
    var result := Map(m, s, virt, f * PAGE_SIZE, flags.(user := true));
    ShortIsMissing(tree, Indices(virt));
    assert result == VmmResult.Ok ==> Meaning(m.ram, s.tree, virt) == Some(Pte(f, ProgramFlags(flags)));
    return result == VmmResult.Ok;
  }

  /** There are frames for a new page at `virt` and for every table on the way to it
      that is not there yet. */
  ghost predicate Affords(v: View, root: int, virt: nat) {
    root != 0 && Page(virt) && |v.free| > Short(v.tree, Indices(virt))
  }

  /** What a new page costs: its frame, and one for every table on the way that is not
      there. */
  ghost predicate PageSpent(a: View, b: View, virt: nat) {
    && BuiltTo(a.tree, b.tree, Indices(virt), |Indices(virt)| - 1)
    && |b.free| == |a.free| - 1 - Short(a.tree, Indices(virt))
  }

  /** One that is there already costs nothing. */
  ghost predicate PageCost(a: View, b: View, virt: nat) {
    if Mapped(a, virt) then b.tree == a.tree && b.free == a.free else PageSpent(a, b, virt)
  }

  lemma SpentOnce(a: View, f: nat, page: seq<Byte>, b: View, virt: nat)
    requires |page| == PAGE_SIZE && f in a.free && WayBuilt(Taken(a, f, page), b, virt)
    ensures PageSpent(a, b, virt)
  {
  }

  /** A page taken, filled and mapped; or, when the mapping is refused, given
      back. */
  method MapNewPage(m: Machine, p: Process, virt: nat, flags: Flags, into: nat, data: seq<Byte>) returns (ok: bool)
    requires ProcessSound(m, p) && FreeFits(m.pmm.free) && Walkable(virt) && into + |data| <= PAGE_SIZE
    requires |p.pages| < PROC_MAX_PAGES && (Page(virt) ==> Meaning(m.ram, p.space.tree, virt) == None)
    modifies m`ram, m.pmm`freePages, m.pmm`free, m.pmm`hint, m.pmm`badFrees, m.pmm.bitmap, p.space`tables,
             p.space`tree, p`pages
    ensures ProcessSound(m, p) && m.pmm.badFrees == old(m.pmm.badFrees)
    ensures PageGiven(old(Seen(m, p.space)), old(p.pages), p.space.root, Seen(m, p.space), p.pages)
    ensures !ok ==> p.pages == old(p.pages) && SameImage(old(Seen(m, p.space)), Seen(m, p.space))
    ensures !ok ==> p.space.root == 0 || !Page(virt) || |m.pmm.free| <= 1
    ensures ok <==> Affords(old(Seen(m, p.space)), p.space.root, virt)
    ensures ok ==> PageSpent(old(Seen(m, p.space)), Seen(m, p.space), virt)
    ensures m.pmm.free <= old(m.pmm.free)
    ensures ok ==> PageNew(old(Seen(m, p.space)), old(p.pages), Seen(m, p.space), p.pages, virt, flags, into, data)
  {
    ghost var a, root := Seen(m, p.space), p.space.root;
    OwnedIsApart(m.ram, m.pmm.free, root, p.space.tables, p.space.tree, p.pages);
    var f := TakePage(m, p.space, into, data);
    if f == 0 {
      NothingMoved(a, p.pages, root);
      return false;
    }
    ok := MapTaken(m, p, virt, flags, into, data, f, a, p.space.tables);
  }

  /** The page is taken and filled: what is left is to map it, or give it back. */
  method MapTaken(m: Machine, p: Process, virt: nat, flags: Flags, into: nat, data: seq<Byte>, f: nat,
                  ghost a: View, ghost tables: nat)
    returns (ok: bool)
    requires ProcOk(a.ram, a.free, p.space.root, tables, a.tree, p.pages) && f in a.free && 0 < f < FRAME_LIMIT
    requires m.pmm.Covers(f) && (p.state == Unused ==> p.space.root == 0 && p.pages == [])
    requires Walkable(virt) && into + |data| <= PAGE_SIZE && |p.pages| < PROC_MAX_PAGES
    requires SpaceSound(m, p.space) && Seen(m, p.space) == Taken(a, f, Splice(ZeroPage(), into, data))
    requires Page(virt) ==> Meaning(a.ram, a.tree, virt) == None
    modifies m`ram, m.pmm`freePages, m.pmm`free, m.pmm`hint, m.pmm`badFrees, m.pmm.bitmap, p.space`tables,
             p.space`tree, p`pages
    ensures ProcessSound(m, p) && m.pmm.badFrees == old(m.pmm.badFrees)
    ensures PageGiven(a, old(p.pages), p.space.root, Seen(m, p.space), p.pages)
    ensures !ok ==> p.pages == old(p.pages) && SameImage(a, Seen(m, p.space))
    ensures !ok ==> p.space.root == 0 || !Page(virt) || |m.pmm.free| <= 1
    ensures ok <==> Affords(a, p.space.root, virt)
    ensures ok ==> PageSpent(a, Seen(m, p.space), virt)
    ensures m.pmm.free <= a.free
    ensures ok ==> PageNew(a, old(p.pages), Seen(m, p.space), p.pages, virt, flags, into, data)
  {
    ghost var root, page := p.space.root, Splice(ZeroPage(), into, data);
    TakenSound(a, root, tables, f, page);
    ok := MapFrame(m, p.space, virt, f, flags);
    ghost var b := Seen(m, p.space);
    if !ok {
      MapRefused(a, root, tables, p.pages, f, page, b, p.space.tables);
      GiveFrame(m, f);
      return;
    }
    MapAccepted(a, root, tables, p.pages, f, b, p.space.tables, virt, flags, into, data);
    SpentOnce(a, f, page, b, virt);
    AppendPage(m, p, f);
  }

  /** `pages[page_count++] = phys`. */
  method AppendPage(m: Machine, p: Process, f: nat)
    requires m.pmm.Valid() && p.space.root != 0
    requires ProcOk(m.ram, m.pmm.free, p.space.root, p.space.tables, p.space.tree, p.pages + [f])
    requires p.state == Unused ==> p.space.root == 0
    modifies p`pages
    ensures ProcessSound(m, p) && p.pages == old(p.pages) + [f] && m.pmm.badFrees == old(m.pmm.badFrees)
  {
    p.pages := p.pages + [f];
  }

  lemma StillFree(a: View, f: nat, page: seq<Byte>, b: View)
    requires |page| == PAGE_SIZE && Grew(Taken(a, f, page), b)
    ensures b.free <= a.free - {f}
  {
    forall x | x in b.free ensures x in a.free - {f} { assert FrameKept(Taken(a, f, page), b, x); }
  }

  lemma MapRefused(a: View, root: int, tables: nat, pages: seq<nat>, f: nat, page: seq<Byte>, b: View, tables': nat)
    requires ProcOk(a.ram, a.free, root, tables, a.tree, pages) && f in a.free && |page| == PAGE_SIZE
    requires Grew(Taken(a, f, page), b) && UpperKept(Taken(a, f, page).ram, root, b.ram)
    requires SpaceOk(b.ram, b.free, root, tables', b.tree) && SameLeaves(Taken(a, f, page).ram, a.tree, b.ram, b.tree)
    ensures f !in b.free && b.free + {f} <= a.free
    ensures var c := b.(free := b.free + {f});
            ProcOk(c.ram, c.free, root, tables', c.tree, pages) && PageGiven(a, pages, root, c, pages) && SameImage(a, c)
  {
    MovedPages(a, root, tables, pages, f, page, b);
    PageNotAdded(a, root, tables, pages, f, page, b, tables');
    NewPage(a, f, page, b);
    StillFree(a, f, page, b);
  }

  lemma MapAccepted(a: View, root: int, tables: nat, pages: seq<nat>, f: nat, b: View, tables': nat,
                    virt: nat, flags: Flags, into: nat, data: seq<Byte>)
    requires ProcOk(a.ram, a.free, root, tables, a.tree, pages) && f in a.free && 0 < f < FRAME_LIMIT
    requires |pages| < PROC_MAX_PAGES && into + |data| <= PAGE_SIZE && Page(virt) &&
             Leaf(a.ram, a.tree, Indices(virt)) == None
    requires var t := Taken(a, f, Splice(ZeroPage(), into, data));
             Grew(t, b) && UpperKept(t.ram, root, b.ram) && OnlyLeaf(t.ram, t.tree, b.ram, b.tree, Indices(virt))
    requires SpaceOk(b.ram, b.free, root, tables', b.tree)
    requires Leaf(b.ram, b.tree, Indices(virt)) == Some(Pte(f, ProgramFlags(flags)))
    ensures ProcOk(b.ram, b.free, root, tables', b.tree, pages + [f]) && b.free <= a.free
    ensures PageGiven(a, pages, root, b, pages + [f]) && PageNew(a, pages, b, pages + [f], virt, flags, into, data)
  {
    var page := Splice(ZeroPage(), into, data);
    MovedPages(a, root, tables, pages, f, page, b);
    StillFree(a, f, page, b);
    PageAdded(a, root, tables, pages, f, page, b, tables', Indices(virt));
    ShowsNew(a, pages, f, b, virt, flags, into, data);
  }

  lemma ShowsNew(a: View, pages: seq<nat>, f: nat, b: View, virt: nat, flags: Flags, into: nat, data: seq<Byte>)
    requires into + |data| <= PAGE_SIZE && Page(virt) && Leaf(a.ram, a.tree, Indices(virt)) == None
    requires OnlyLeaf(a.ram, a.tree, b.ram, b.tree, Indices(virt))
    requires Leaf(b.ram, b.tree, Indices(virt)) == Some(Pte(f, ProgramFlags(flags)))
    requires forall p: seq<nat>, o: nat {:trigger ByteOf(b.ram, b.tree, p, o)} :: |p| == 4 && o < PAGE_SIZE ==>
               ByteOf(b.ram, b.tree, p, o) ==
               if p == Indices(virt) then Some(Splice(ZeroPage(), into, data)[o]) else ByteOf(a.ram, a.tree, p, o)
    ensures PageNew(a, pages, b, pages + [f], virt, flags, into, data)
  {
  }

  /** A page added to a process: at the end of its list, mapped for the program
      with the flags asked for, zero but for the data. */
  ghost predicate PageNew(a: View, pages: seq<nat>, b: View, pages': seq<nat>, virt: nat, flags: Flags, into: nat,
                          data: seq<Byte>) {
    && Page(virt) && |pages'| == |pages| + 1 && pages'[..|pages|] == pages
    && OnlyLeaf(a.ram, a.tree, b.ram, b.tree, Indices(virt))
    && Leaf(b.ram, b.tree, Indices(virt)) == Some(Pte(pages'[|pages|], ProgramFlags(flags)))
    && Filled(a.ram, a.tree, b.ram, b.tree, Indices(virt), into, data)
  }

  /** `pmm_free` of a frame the caller holds. */
  method GiveFrame(m: Machine, f: nat)
    requires m.pmm.Valid() && f != 0 && m.pmm.Covers(f) && f !in m.pmm.free
    modifies m.pmm`freePages, m.pmm`free, m.pmm`hint, m.pmm`badFrees, m.pmm.bitmap
    ensures m.pmm.Valid() && m.pmm.badFrees == old(m.pmm.badFrees)
    ensures m.pmm.free == old(m.pmm.free) + {f}
  {
    assert f * PAGE_SIZE / PAGE_SIZE == f;
    m.pmm.Free(f * PAGE_SIZE);
  }

  /** The page at `virt` filled when it is there already, added when it is not,
      and nothing any address means changed when the request is refused. */
  ghost predicate PageOutcome(a: View, pages: seq<nat>, b: View, pages': seq<nat>, ok: bool,
                              virt: nat, flags: Flags, into: nat, data: seq<Byte>) {
    if !ok then pages' == pages && SameImage(a, b)
    else
      && into + |data| <= PAGE_SIZE && LowerHalf(virt)
      && if Mapped(a, virt)
         then
           && pages' == pages && SameLeaves(a.ram, a.tree, b.ram, b.tree)
           && Filled(a.ram, a.tree, b.ram, b.tree, Indices(PageOf(virt)), into, data)
         else PageNew(a, pages, b, pages', virt, flags, into, data)
  }

  /** When a page can be filled or added: the bytes fit a page, and either the page is
      there or the list has a place and there are frames for it. */
  ghost predicate CanAdd(v: View, pages: seq<nat>, root: int, virt: nat, into: nat, data: seq<Byte>) {
    into + |data| <= PAGE_SIZE && (Mapped(v, virt) || (|pages| < PROC_MAX_PAGES && Affords(v, root, virt)))
  }

  /** `process_add_page_at`: the page at `virt` filled when it is there already,
      added when it is not, and nothing any address means changed when it is
      refused. The requests refused are those that do not fit a page, and those
      for a new page when the list is full, the address is no page of the lower
      half, or memory has run out. */
  method AddPageAt(m: Machine, p: Process, virt: nat, flags: Flags, into: nat, data: seq<Byte>) returns (ok: bool)
    requires ProcessSound(m, p) && FreeFits(m.pmm.free) && (LowerHalf(virt) || !Canonical(virt))
    modifies m`ram, m.pmm`freePages, m.pmm`free, m.pmm`hint, m.pmm`badFrees, m.pmm.bitmap, p.space`tables,
             p.space`tree, p`pages
    ensures ProcessSound(m, p) && m.pmm.badFrees == old(m.pmm.badFrees)
    ensures PageGiven(old(Seen(m, p.space)), old(p.pages), p.space.root, Seen(m, p.space), p.pages)
    ensures p.state == old(p.state) && p.space.root == old(p.space.root)
    ensures PageOutcome(old(Seen(m, p.space)), old(p.pages), Seen(m, p.space), p.pages, ok, virt, flags, into, data)
    ensures m.pmm.free <= old(m.pmm.free)
    ensures !ok && into + |data| <= PAGE_SIZE ==>
              && !Mapped(old(Seen(m, p.space)), virt)
              && (|p.pages| == PROC_MAX_PAGES || p.space.root == 0 || !Page(virt) || |m.pmm.free| <= 1)
    ensures ok <==> CanAdd(old(Seen(m, p.space)), old(p.pages), p.space.root, virt, into, data)
    ensures ok ==> PageCost(old(Seen(m, p.space)), Seen(m, p.space), virt)
  {
    ghost var a := Seen(m, p.space);
    OwnedIsApart(m.ram, m.pmm.free, p.space.root, p.space.tables, p.space.tree, p.pages);
    NothingMoved(a, p.pages, p.space.root);
    if into > PAGE_SIZE || |data| > PAGE_SIZE - into { return false; }
    var mapped, existing := Lookup(m, p, virt);
    if mapped {
      FillPage(m, p, existing, into, data, Indices(PageOf(virt)));
      return true;
    }
    ok := AddNew(m, p, virt, flags, into, data);
  }

  /** A page that is not there: refused when the list is full. */
  method AddNew(m: Machine, p: Process, virt: nat, flags: Flags, into: nat, data: seq<Byte>) returns (ok: bool)
    requires ProcessSound(m, p) && FreeFits(m.pmm.free) && Walkable(virt) && into + |data| <= PAGE_SIZE
    requires Page(virt) ==> Meaning(m.ram, p.space.tree, virt) == None
    modifies m`ram, m.pmm`freePages, m.pmm`free, m.pmm`hint, m.pmm`badFrees, m.pmm.bitmap
    modifies p.space`tables, p.space`tree, p`pages
    ensures ProcessSound(m, p) && m.pmm.badFrees == old(m.pmm.badFrees)
    ensures PageGiven(old(Seen(m, p.space)), old(p.pages), p.space.root, Seen(m, p.space), p.pages)
    ensures !ok ==> p.pages == old(p.pages) && SameImage(old(Seen(m, p.space)), Seen(m, p.space))
    ensures !ok ==> |p.pages| == PROC_MAX_PAGES || p.space.root == 0 || !Page(virt) || |m.pmm.free| <= 1
    ensures ok <==> |old(p.pages)| < PROC_MAX_PAGES && Affords(old(Seen(m, p.space)), p.space.root, virt)
    ensures ok ==> PageSpent(old(Seen(m, p.space)), Seen(m, p.space), virt)
    ensures m.pmm.free <= old(m.pmm.free)
    ensures ok ==> PageNew(old(Seen(m, p.space)), old(p.pages), Seen(m, p.space), p.pages, virt, flags, into, data)
  {
    if |p.pages| >= PROC_MAX_PAGES {
      OwnedIsApart(m.ram, m.pmm.free, p.space.root, p.space.tables, p.space.tree, p.pages);
      NothingMoved(Seen(m, p.space), p.pages, p.space.root);
      return false;
    }
    ok := MapNewPage(m, p, virt, flags, into, data);
  }

  /** `vmm_translate`, for the frame. */
  method Lookup(m: Machine, p: Process, virt: nat) returns (mapped: bool, phys: nat)
    requires ProcessSound(m, p) && (LowerHalf(virt) || !Canonical(virt))
    ensures mapped == Mapped(Seen(m, p.space), virt)
    ensures mapped ==> phys / PAGE_SIZE == Meaning(m.ram, p.space.tree, PageOf(virt)).value.frame
    ensures !mapped && Page(virt) ==> Meaning(m.ram, p.space.tree, virt) == None
  {
    var result, leaf;
    result, phys, leaf := Translate(m, p.space, virt);
    mapped := result == VmmResult.Ok;
  }

  /** The page an address is in is mapped. */
  ghost predicate Mapped(v: View, virt: nat) { LowerHalf(virt) && Meaning(v.ram, v.tree, PageOf(virt)).Some? }

  const USER_CODE_AT: nat := 0x40_0000
  const USER_STACK_TOP: nat := 0x80_0000

  /** `vmm_new_user_space`: a tree of one table, empty below, the kernel's half
      shared; or nothing at all. */
  method NewUserSpace(m: Machine, s: Space, kernelRoot: int) returns (ok: bool)
    requires m.pmm.Valid() && s.root == 0 &&
             (kernelRoot != 0 ==> IsTable(m.ram, kernelRoot) && kernelRoot !in m.pmm.free)
    modifies m`ram, m.pmm`freePages, m.pmm`free, m.pmm`hint, m.pmm`badFrees, m.pmm.bitmap, s
    ensures SpaceSound(m, s) && m.pmm.badFrees == old(m.pmm.badFrees)
    ensures ok == (old(m.pmm.free) != {} && kernelRoot != 0)
    ensures ok ==>
              && s.root in old(m.pmm.free) && s.tree == map[[] := s.root] && m.pmm.free == old(m.pmm.free) - {s.root}
              && SharesKernel(m.ram, s.root, kernelRoot) && KeptOutside(old(m.ram), m.ram, {s.root})
              && forall p: seq<nat> {:trigger Leaf(m.ram, s.tree, p)} :: |p| == 4 ==> Leaf(m.ram, s.tree, p) == None
    ensures !ok ==> s.root == 0 && s.tree == map[] && m.pmm.free == old(m.pmm.free) && KeptOutside(old(m.ram), m.ram, old(m.pmm.free))
  {
    ghost var free, ram := m.pmm.free, m.ram;
    var result := Create(m, s);
    if result != VmmResult.Ok { return false; }
    ghost var made, root := m.ram, s.root;
    assert m.pmm.free + {root} == free;
    ok := Share(m, s, kernelRoot);
    NewKept(ram, made, m.ram, root, free);
  }

  lemma NewKept(ram: Ram, made: Ram, after: Ram, root: int, free: set<int>)
    requires made == ram[root := ZeroTable()] && KeptOutside(made, after, {root}) && root in free
    ensures KeptOutside(ram, after, {root}) && KeptOutside(ram, after, free)
  {
  }

  /** The kernel's half, or the new space taken apart again. */
  method Share(m: Machine, s: Space, kernelRoot: int) returns (ok: bool)
    requires SpaceSound(m, s) && s.root != 0 && s.tree == map[[] := s.root] && s.root !in m.pmm.free
    requires Returnable(m.pmm, {s.root}) && kernelRoot != s.root && (kernelRoot != 0 ==> IsTable(m.ram, kernelRoot))
    modifies m`ram, m.pmm`freePages, m.pmm`free, m.pmm`hint, m.pmm`badFrees, m.pmm.bitmap, s
    ensures SpaceSound(m, s) && m.pmm.badFrees == old(m.pmm.badFrees) && ok == (kernelRoot != 0)
    ensures KeptOutside(old(m.ram), m.ram, {old(s.root)})
    ensures ok ==>
              && s.root == old(s.root) && s.tree == old(s.tree) && m.pmm.free == old(m.pmm.free)
              && SharesKernel(m.ram, s.root, kernelRoot)
              && forall p: seq<nat> {:trigger Leaf(m.ram, s.tree, p)} :: |p| == 4 ==> Leaf(m.ram, s.tree, p) == None
    ensures !ok ==> s.root == 0 && s.tree == map[] && m.pmm.free == old(m.pmm.free) + {old(s.root)}
  {
    assert s.tree.Values == {s.root} by { assert s.tree[[]] == s.root; }
    var result := ShareKernel(m, s, kernelRoot);
    if result != VmmResult.Ok {
      Destroy(m, s);
      return false;
    }
    NoLeaves(m.ram, s.root);
    return true;
  }

  lemma NoLeaves(ram: Ram, root: int)
    ensures forall p: seq<nat> {:trigger Leaf(ram, map[[] := root], p)} :: |p| == 4 ==> Leaf(ram, map[[] := root], p) == None
  {
    forall p: seq<nat> | |p| == 4 ensures Leaf(ram, map[[] := root], p) == None { assert p[..3] != []; }
  }

  /** A space that maps nothing and no pages. */
  ghost predicate Fresh(ram: Ram, p: Process)
    reads p, p.space
  {
    && p.pages == [] && p.entry == USER_CODE_AT && p.userStack == USER_STACK_TOP
    && forall path: seq<nat> {:trigger Leaf(ram, p.space.tree, path)} :: |path| == 4 ==> Leaf(ram, p.space.tree, path) == None
  }

  /** What `process_create` does to the slot it found. */
  method Start(m: Machine, p: Process, kernelRoot: int, pid: nat) returns (ok: bool)
    requires ProcessSound(m, p) && p.state == Unused
    requires kernelRoot != 0 && IsTable(m.ram, kernelRoot) && kernelRoot !in m.pmm.free
    modifies m`ram, m.pmm`freePages, m.pmm`free, m.pmm`hint, m.pmm`badFrees, m.pmm.bitmap, p.space, p
    ensures ProcessSound(m, p) && m.pmm.badFrees == old(m.pmm.badFrees)
    ensures ok == (old(m.pmm.free) != {})
    ensures Moved(old(m.ram), old(m.pmm.free), {}, m.ram, m.pmm.free, Owned(p.space.tree, p.pages))
    ensures ok ==>
              && p.state == Ready && p.pid == pid && Fresh(m.ram, p) && p.space.root != 0
              && SharesKernel(m.ram, p.space.root, kernelRoot)
              && Owned(p.space.tree, p.pages) == {p.space.root}
    ensures !ok ==> p.state == Unused && Owned(p.space.tree, p.pages) == {}
    ensures !ok ==> p.pages == [] && p.pid == 0 && p.entry == 0 && p.userStack == 0
  {
    ghost var ram, free := m.ram, m.pmm.free;
    p.pages, p.pid, p.entry, p.userStack := [], 0, 0, 0;
    ok := NewUserSpace(m, p.space, kernelRoot);
    StartMoved(ram, free, ok, p.space.root, m.ram, m.pmm.free);
    if ok { SetUp(m, p, pid); } else { NobodyOk(m.ram, m.pmm.free); }
  }

  lemma StartMoved(ram: Ram, free: set<int>, ok: bool, root: int, ram': Ram, free': set<int>)
    requires if ok then root in free && free' == free - {root} && KeptOutside(ram, ram', {root})
             else free' == free && KeptOutside(ram, ram', free)
    ensures Moved(ram, free, {}, ram', free', if ok then {root} else {})
  {
  }

  /** The fields of a process that has its space. */
  method SetUp(m: Machine, p: Process, pid: nat)
    requires SpaceSound(m, p.space) && p.pages == [] && p.space.tree == map[[] := p.space.root]
    requires forall q: seq<nat> {:trigger Leaf(m.ram, p.space.tree, q)} :: |q| == 4 ==> Leaf(m.ram, p.space.tree, q) == None
    modifies p`pid, p`state, p`entry, p`userStack
    ensures ProcessSound(m, p) && p.state == Ready && p.pid == pid && Fresh(m.ram, p)
    ensures Owned(p.space.tree, p.pages) == {p.space.root}
  {
    OneTable(m.ram, m.pmm.free, p.space.root, p.space.tables, p.space.tree);
    p.pid, p.state, p.entry, p.userStack := pid, Ready, USER_CODE_AT, USER_STACK_TOP;
  }

  lemma OneTable(ram: Ram, free: set<int>, root: int, tables: nat, tree: Tables)
    requires SpaceOk(ram, free, root, tables, tree) && tree == map[[] := root]
    requires forall p: seq<nat> {:trigger Leaf(ram, tree, p)} :: |p| == 4 ==> Leaf(ram, tree, p) == None
    ensures ProcOk(ram, free, root, tables, tree, []) && Owned(tree, []) == {root}
  {
    assert tree[[]] == root;
    forall p ensures LeafOwned(ram, tree, [], p) { }
    forall p, q ensures LeafApart(ram, tree, p, q) { }
  }

  // ----- taking a process apart

  ghost function PagesUpto(pages: seq<nat>, i: nat): set<int>
    requires i <= |pages|
  {
    set f: int | f in pages[..i]
  }

  lemma NextPage(pages: seq<nat>, i: nat)
    requires i < |pages|
    ensures PagesUpto(pages, i + 1) == PagesUpto(pages, i) + {pages[i]}
  {
    assert pages[..i + 1] == pages[..i] + [pages[i]];
  }

  /** No page is listed twice. */
  ghost predicate Distinct(pages: seq<nat>) {
    forall j, k {:trigger Twice(pages, j, k)} :: !Twice(pages, j, k)
  }

  ghost predicate Twice(pages: seq<nat>, j: int, k: int) { 0 <= j < k < |pages| && pages[j] == pages[k] }

  /** The pages from `i` on are frames the allocator covers and has not got. */
  ghost predicate Held(pmm: Allocator, free: set<int>, pages: seq<nat>, i: nat) {
    forall j {:trigger pages[j]} :: i <= j < |pages| ==> pages[j] != 0 && pmm.Covers(pages[j]) && pages[j] !in free
  }

  lemma HeldNext(pmm: Allocator, free: set<int>, pages: seq<nat>, i: nat)
    requires Distinct(pages) && Held(pmm, free, pages, i) && i < |pages|
    ensures Held(pmm, free + {pages[i]}, pages, i + 1)
  {
    forall j | i + 1 <= j < |pages| ensures pages[j] != pages[i] { assert !Twice(pages, i, j); }
  }

  /** The pages of a process given back, each once. */
  method GivePages(m: Machine, p: Process)
    requires m.pmm.Valid() && Distinct(p.pages) && Held(m.pmm, m.pmm.free, p.pages, 0)
    modifies m.pmm`freePages, m.pmm`free, m.pmm`hint, m.pmm`badFrees, m.pmm.bitmap, p`pages
    ensures m.pmm.Valid() && m.pmm.badFrees == old(m.pmm.badFrees) && p.pages == []
    ensures m.pmm.free == old(m.pmm.free) + PagesUpto(old(p.pages), |old(p.pages)|)
  {
    var i := 0;
    while i < |p.pages|
      invariant 0 <= i <= |p.pages| && p.pages == old(p.pages)
      invariant m.pmm.Valid() && m.pmm.badFrees == old(m.pmm.badFrees) && Held(m.pmm, m.pmm.free, p.pages, i)
      invariant m.pmm.free == old(m.pmm.free) + PagesUpto(p.pages, i)
    {
      GiveNext(m, p.pages, i);
      i := i + 1;
    }
    p.pages := [];
  }

  /** One turn of the loop. */
  method GiveNext(m: Machine, pages: seq<nat>, i: nat)
    requires m.pmm.Valid() && i < |pages| && Distinct(pages) && Held(m.pmm, m.pmm.free, pages, i)
    modifies m.pmm`freePages, m.pmm`free, m.pmm`hint, m.pmm`badFrees, m.pmm.bitmap
    ensures m.pmm.Valid() && m.pmm.badFrees == old(m.pmm.badFrees) && Held(m.pmm, m.pmm.free, pages, i + 1)
    ensures forall free :: old(m.pmm.free) == free + PagesUpto(pages, i) ==> m.pmm.free == free + PagesUpto(pages, i + 1)
  {
    NextPage(pages, i);
    HeldNext(m.pmm, m.pmm.free, pages, i);
    GiveFrame(m, pages[i]);
  }

  /** `process_destroy`: exactly the frames the process held are free again, each
      given back once, and no memory but its top-level table is written. */
  method Discard(m: Machine, p: Process)
    requires ProcessSound(m, p) && Returnable(m.pmm, Owned(p.space.tree, p.pages))
    modifies m`ram, m.pmm`freePages, m.pmm`free, m.pmm`hint, m.pmm`badFrees, m.pmm.bitmap, p.space, p`pages, p`state
    ensures ProcessSound(m, p) && m.pmm.badFrees == old(m.pmm.badFrees) && p.state == Unused
    ensures m.pmm.free == old(m.pmm.free) + Owned(old(p.space.tree), old(p.pages))
    ensures KeptOutside(old(m.ram), m.ram, TopFrame(old(p.space.root))) && Owned(p.space.tree, p.pages) == {}
    ensures Moved(old(m.ram), old(m.pmm.free), Owned(old(p.space.tree), old(p.pages)), m.ram, m.pmm.free, {})
  {
    if p.state == Unused {
      NobodyOk(m.ram, m.pmm.free);
      return;
    }
    ghost var ram, free := m.ram, m.pmm.free;
    ghost var root, tables, tree, pages := p.space.root, p.space.tables, p.space.tree, p.pages;
    DiscardUsed(m, p);
    DiscardMoved(ram, free, root, tables, tree, pages, m.ram, m.pmm.free);
  }

  method DiscardUsed(m: Machine, p: Process)
    requires ProcessSound(m, p) && Returnable(m.pmm, Owned(p.space.tree, p.pages))
    modifies m`ram, m.pmm`freePages, m.pmm`free, m.pmm`hint, m.pmm`badFrees, m.pmm.bitmap, p.space, p`pages, p`state
    ensures ProcessSound(m, p) && m.pmm.badFrees == old(m.pmm.badFrees) && p.state == Unused
    ensures m.pmm.free == old(m.pmm.free) + Owned(old(p.space.tree), old(p.pages))
    ensures KeptOutside(old(m.ram), m.ram, TopFrame(old(p.space.root))) && Owned(p.space.tree, p.pages) == {}
  {
    ghost var tree, pages := p.space.tree, p.pages;
    PagesApart(m.ram, m.pmm.free, p.space.root, p.space.tables, tree, pages);
    PagesHeld(m.pmm, tree, pages);
    GivePages(m, p);
    PagesGiven(m.ram, old(m.pmm.free), p.space.root, p.space.tables, tree, pages, m.pmm.free);
    DiscardSpace(m, p);
  }

  /** The tables given back, and the slot. */
  method DiscardSpace(m: Machine, p: Process)
    requires SpaceSound(m, p.space) && p.pages == [] && Returnable(m.pmm, p.space.tree.Values)
    modifies m`ram, m.pmm`freePages, m.pmm`free, m.pmm`hint, m.pmm`badFrees, m.pmm.bitmap, p.space, p`state
    ensures ProcessSound(m, p) && m.pmm.badFrees == old(m.pmm.badFrees) && p.state == Unused && p.pages == []
    ensures m.pmm.free == old(m.pmm.free) + old(p.space.tree).Values
    ensures KeptOutside(old(m.ram), m.ram, TopFrame(old(p.space.root))) && Owned(p.space.tree, p.pages) == {}
  {
    Destroy(m, p.space);
    NobodyOk(m.ram, m.pmm.free);
    p.state := Unused;
  }

  /** Everything given back is frames moved. */
  lemma DiscardMoved(ram: Ram, free: set<int>, root: int, tables: nat, tree: Tables, pages: seq<nat>, ram': Ram,
                     free': set<int>)
    requires ProcOk(ram, free, root, tables, tree, pages) && free' == free + Owned(tree, pages)
    requires KeptOutside(ram, ram', TopFrame(root))
    ensures Moved(ram, free, Owned(tree, pages), ram', free', {})
  {
    if root != 0 { assert tree[[]] in tree.Values; }
  }

  lemma PagesGiven(ram: Ram, free: set<int>, root: int, tables: nat, tree: Tables, pages: seq<nat>, free': set<int>)
    requires ProcOk(ram, free, root, tables, tree, pages) && free' == free + PagesUpto(pages, |pages|)
    ensures SpaceOk(ram, free', root, tables, tree)
    ensures free' + tree.Values == free + Owned(tree, pages)
  {
    PagesApart(ram, free, root, tables, tree, pages);
  }

  lemma PagesHeld(pmm: Allocator, tree: Tables, pages: seq<nat>)
    requires Returnable(pmm, Owned(tree, pages))
    ensures Held(pmm, pmm.free, pages, 0)
  {
    forall j | 0 <= j < |pages| ensures pages[j] != 0 && pmm.Covers(pages[j]) && pages[j] !in pmm.free {
      assert pages[j] in Owned(tree, pages);
    }
  }

  lemma PagesApart(ram: Ram, free: set<int>, root: int, tables: nat, tree: Tables, pages: seq<nat>)
    requires ProcOk(ram, free, root, tables, tree, pages)
    ensures Distinct(pages)
    ensures PagesUpto(pages, |pages|) !! tree.Values && Owned(tree, pages) == tree.Values + PagesUpto(pages, |pages|)
  {
    forall j, k ensures !Twice(pages, j, k) { assert PageOk(ram, free, tree, pages, j); }
    assert pages[..|pages|] == pages;
    forall f | f in PagesUpto(pages, |pages|) ensures f !in tree.Values {
      var j :| 0 <= j < |pages| && pages[j] == f;
      assert PageOk(ram, free, tree, pages, j);
    }
  }
}
