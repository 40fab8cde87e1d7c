// What a process is in memory: the pages it owns, the tables that map them, and
// the bytes its addresses mean. Everything here is about values; Process.dfy
// and Processes.dfy change them (kernel/src/process.c).
module ProcessImage {
  import opened Common
  import opened Pmm
  import opened Paging
  import opened Vmm
  import opened VmmSpace

  const PROC_MAX_PAGES: nat := 16

  /** Frames whose addresses fit the 52 bits an entry has room for. */
  const FRAME_LIMIT: nat := 0x100_0000_0000

  ghost predicate IsPage(ram: Ram, f: int) { f in ram && ram[f].Bytes? && |ram[f].b| == PAGE_SIZE }

  // ----- bytes

  function PageOf(a: nat): nat { a - a % PAGE_SIZE }

  /** The byte at an offset of the page a path leads to, when it is a page of
      bytes. */
  ghost function ByteOf(ram: Ram, tree: Tables, path: seq<nat>, offset: nat): Option<Byte>
    requires |path| == 4 && offset < PAGE_SIZE
  {
    var e := Leaf(ram, tree, path);
    if e.Some? && IsPage(ram, e.value.frame) then Some(ram[e.value.frame].b[offset]) else None
  }

  /** The byte address `a` means. */
  ghost function ByteAt(ram: Ram, tree: Tables, a: nat): Option<Byte> {
    if LowerHalf(a) then ByteOf(ram, tree, Indices(PageOf(a)), a % PAGE_SIZE) else None
  }

  /** `memcpy` into a page. */
  function Splice(page: seq<Byte>, into: nat, data: seq<Byte>): (r: seq<Byte>)
    requires into + |data| <= |page|
    ensures |r| == |page|
    ensures forall k :: 0 <= k < |r| ==> r[k] == if into <= k < into + |data| then data[k - into] else page[k]
  {
    page[..into] + data + page[into + |data|..]
  }

  function ZeroPage(): seq<Byte> { seq(PAGE_SIZE, _ => 0) }

  // ----- one process

  ghost predicate LeadsTo(ram: Ram, tree: Tables, path: seq<nat>, f: int) {
    |path| == 4 && Leaf(ram, tree, path).Some? && Leaf(ram, tree, path).value.frame == f
  }

  /** Page `j` of the list is a page of bytes of this process alone, mapped
      somewhere. */
  ghost predicate PageOk(ram: Ram, free: set<int>, tree: Tables, pages: seq<nat>, j: int) {
    0 <= j < |pages| ==>
      && IsPage(ram, pages[j]) && pages[j] !in free && pages[j] !in tree.Values && 0 < pages[j] < FRAME_LIMIT
      && (forall k :: 0 <= k < |pages| && k != j ==> pages[k] != pages[j])
      && exists path :: LeadsTo(ram, tree, path, pages[j])
  }

  /** What is mapped is a page of the list, for the program to use. */
  ghost predicate LeafOwned(ram: Ram, tree: Tables, pages: seq<nat>, path: seq<nat>) {
    |path| == 4 && Leaf(ram, tree, path).Some? ==>
      Leaf(ram, tree, path).value.frame in pages && Leaf(ram, tree, path).value.flags.user
  }

  /** No page is mapped twice. */
  ghost predicate LeafApart(ram: Ram, tree: Tables, p: seq<nat>, q: seq<nat>) {
    |p| == 4 && |q| == 4 && p != q && Leaf(ram, tree, p).Some? && Leaf(ram, tree, q).Some? ==>
      Leaf(ram, tree, p).value.frame != Leaf(ram, tree, q).value.frame
  }

  ghost predicate ProcOk(ram: Ram, free: set<int>, root: int, tables: nat, tree: Tables, pages: seq<nat>) {
    && SpaceOk(ram, free, root, tables, tree)
    && |pages| <= PROC_MAX_PAGES
    && (forall j {:trigger PageOk(ram, free, tree, pages, j)} :: PageOk(ram, free, tree, pages, j))
    && (forall p {:trigger LeafOwned(ram, tree, pages, p)} :: LeafOwned(ram, tree, pages, p))
    && (forall p, q {:trigger LeafApart(ram, tree, p, q)} :: LeafApart(ram, tree, p, q))
  }

  /** The frames a process holds: its tables and its pages. */
  ghost function Owned(tree: Tables, pages: seq<nat>): set<int> { tree.Values + set f: int | f in pages }

  /** Frames moved between the free ones and one process, and no other memory
      was written. */
  ghost predicate Moved(ram: Ram, free: set<int>, own: set<int>, ram': Ram, free': set<int>, own': set<int>) {
    free' + own' == free + own && free' !! own' && KeptOutside(ram, ram', free + own)
  }

  lemma MovedOnce(ram: Ram, free: set<int>, own: set<int>, ram1: Ram, free1: set<int>, own1: set<int>,
                  ram2: Ram, free2: set<int>, own2: set<int>)
    requires Moved(ram, free, own, ram1, free1, own1) && Moved(ram1, free1, own1, ram2, free2, own2)
    ensures Moved(ram, free, own, ram2, free2, own2)
  {
    forall f | f in ram && f !in free + own ensures f in ram2 && ram2[f] == ram[f] {
      assert f in ram1 && ram1[f] == ram[f];
    }
  }

  // ----- what memory that is not a process's own cannot change

  /** A tree whose tables are as they were. */
  lemma TreeKept(ram: Ram, ram': Ram, root: int, tree: Tables)
    requires TreeOk(ram, root, tree) && forall f :: f in tree.Values && f in ram ==> f in ram' && ram'[f] == ram[f]
    ensures TreeOk(ram', root, tree) && SameLeaves(ram, tree, ram', tree)
  {
    forall p | p in tree ensures IsTable(ram, tree[p]) && IsTable(ram', tree[p]) && ram'[tree[p]] == ram[tree[p]] {
      assert NodeOk(ram, tree, p);
      assert tree[p] in tree.Values;
    }
    forall p ensures NodeOk(ram', tree, p) { assert NodeOk(ram, tree, p); }
    forall p, i ensures ParentEntryOk(ram', tree, p, i) { assert ParentEntryOk(ram, tree, p, i); }
    forall p, i ensures LeafOk(ram', tree, p, i) {
      assert LeafOk(ram, tree, p, i);
    }
    forall path: seq<nat> | |path| == 4 ensures Leaf(ram', tree, path) == Leaf(ram, tree, path) { }
  }

  /** Another process's memory is none of this one's: what it owns, what it maps
      and every byte it can see are as they were. */
  lemma OtherKept(ram: Ram, free: set<int>, root: int, tables: nat, tree: Tables, pages: seq<nat>,
                  ram': Ram, free': set<int>, touched: set<int>)
    requires ProcOk(ram, free, root, tables, tree, pages) && Owned(tree, pages) !! touched
    requires KeptOutside(ram, ram', touched) && free' <= free + touched
    ensures ProcOk(ram', free', root, tables, tree, pages) && SameLeaves(ram, tree, ram', tree)
    ensures forall a {:trigger ByteAt(ram', tree, a)} :: ByteAt(ram', tree, a) == ByteAt(ram, tree, a)
  {
    if root != 0 { TreeKept(ram, ram', root, tree); }
    forall j ensures PageOk(ram', free', tree, pages, j) {
      assert PageOk(ram, free, tree, pages, j);
      if 0 <= j < |pages| {
        assert pages[j] in Owned(tree, pages);
        var p :| LeadsTo(ram, tree, p, pages[j]);
        assert LeadsTo(ram', tree, p, pages[j]);
      }
    }
    forall p ensures LeafOwned(ram', tree, pages, p) { assert LeafOwned(ram, tree, pages, p); }
    forall p, q ensures LeafApart(ram', tree, p, q) { assert LeafApart(ram, tree, p, q); }
    forall p: seq<nat>, o: nat | |p| == 4 && o < PAGE_SIZE ensures ByteOf(ram', tree, p, o) == ByteOf(ram, tree, p, o) {
      OtherByte(ram, free, root, tables, tree, pages, ram', free', touched, p, o);
    }
  }

  lemma OtherByte(ram: Ram, free: set<int>, root: int, tables: nat, tree: Tables, pages: seq<nat>,
                  ram': Ram, free': set<int>, touched: set<int>, p: seq<nat>, o: nat)
    requires ProcOk(ram, free, root, tables, tree, pages) && Owned(tree, pages) !! touched
    requires KeptOutside(ram, ram', touched) && SameLeaves(ram, tree, ram', tree) && |p| == 4 && o < PAGE_SIZE
    ensures ByteOf(ram', tree, p, o) == ByteOf(ram, tree, p, o)
  {
    assert LeafOwned(ram, tree, pages, p);
    assert Leaf(ram', tree, p) == Leaf(ram, tree, p);
    if Leaf(ram, tree, p).Some? {
      var f := Leaf(ram, tree, p).value.frame;
      assert f in Owned(tree, pages);
      var j :| 0 <= j < |pages| && pages[j] == f;
      assert PageOk(ram, free, tree, pages, j);
    }
  }

  /** A process that has no address space. */
  lemma NobodyOk(ram: Ram, free: set<int>)
    ensures ProcOk(ram, free, 0, 0, map[], []) && Owned(map[], []) == {}
  {
    forall p ensures LeafOwned(ram, map[], [], p) { }
  }
}
