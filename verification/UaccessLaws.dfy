// What copying across the boundary means for whole processes
// (kernel/src/uaccess.c, kernel/src/process.c).
module UaccessLaws {
  import opened Common
  import opened Pmm
  import opened Paging
  import opened Vmm
  import opened VmmSpace
  import opened VmmWalk
  import opened ProcessImage
  import opened Process
  import opened Processes
  import opened VmmTrace
  import opened Uaccess

  /** Everything a process maps is a page of bytes it owns. */
  lemma ProcessPages(ram: Ram, free: set<int>, root: int, tables: nat, tree: Tables, pages: seq<nat>)
    requires ProcOk(ram, free, root, tables, tree, pages)
    ensures UserPages(ram, tree)
  {
    forall path ensures UserPage(ram, tree, path) {
      assert LeafOwned(ram, tree, pages, path);
      if |path| == 4 && Leaf(ram, tree, path).Some? {
        var j :| 0 <= j < |pages| && pages[j] == Leaf(ram, tree, path).value.frame;
        assert PageOk(ram, free, tree, pages, j);
      }
    }
  }

  ghost function PagesOf(pages: seq<nat>): set<int> { set f: int | f in pages }

  /** One byte written: that address reads back, and no other address of the
      process has changed. */
  lemma OneByte(ram: Ram, free: set<int>, root: int, tables: nat, tree: Tables, pages: seq<nat>, a: nat, b: Byte)
    requires ProcOk(ram, free, root, tables, tree, pages) && Reachable(ram, tree, a, true)
    ensures var ram' := PutByte(ram, tree, a, b);
            && ProcOk(ram', free, root, tables, tree, pages) && SameLeaves(ram, tree, ram', tree)
            && KeptOutside(ram, ram', PagesOf(pages))
            && forall x: nat {:trigger ByteAt(ram', tree, x)} :: LowerHalf(x) ==>
                 ByteAt(ram', tree, x) == if x == a then Some(b) else ByteAt(ram, tree, x)
  {
    ProcessPages(ram, free, root, tables, tree, pages);
    var path := Indices(PageOf(a));
    assert UserPage(ram, tree, path) && LeafOwned(ram, tree, pages, path);
    PutByteKeeps(ram, free, root, tables, tree, a, b);
    var ram' := PutByte(ram, tree, a, b);
    SameProc(ram, ram', free, root, tables, tree, pages);
    forall x: nat | LowerHalf(x) ensures ByteAt(ram', tree, x) == if x == a then Some(b) else ByteAt(ram, tree, x) {
      OtherAddress(ram, free, root, tables, tree, pages, a, b, x);
    }
  }

  lemma OtherAddress(ram: Ram, free: set<int>, root: int, tables: nat, tree: Tables, pages: seq<nat>, a: nat, b: Byte,
                     x: nat)
    requires ProcOk(ram, free, root, tables, tree, pages) && Reachable(ram, tree, a, true) && LowerHalf(x)
    requires IsPage(ram, Meaning(ram, tree, PageOf(a)).value.frame) &&
             SameLeaves(ram, tree, PutByte(ram, tree, a, b), tree)
    ensures ByteAt(PutByte(ram, tree, a, b), tree, x) == if x == a then Some(b) else ByteAt(ram, tree, x)
  {
    var p, q := Indices(PageOf(a)), Indices(PageOf(x));
    assert LeafApart(ram, tree, p, q);
    Address(a, x);
    WrittenByte(ram, PutByte(ram, tree, a, b), tree, p, q, a % PAGE_SIZE, x % PAGE_SIZE, b);
  }

  /** An address of the lower half is its path and its offset. */
  lemma Address(a: nat, x: nat)
    requires LowerHalf(a) && LowerHalf(x)
    ensures a == x <==> Indices(PageOf(a)) == Indices(PageOf(x)) && a % PAGE_SIZE == x % PAGE_SIZE
  {
    PageBounds(a);
    PageBounds(x);
    IndicesFaithful(PageOf(a), PageOf(x));
  }

  /** The same, by path and offset. */
  lemma WrittenByte(ram: Ram, ram': Ram, tree: Tables, p: seq<nat>, q: seq<nat>, o: nat, u: nat, b: Byte)
    requires |p| == 4 && |q| == 4 && o < PAGE_SIZE && u < PAGE_SIZE && Leaf(ram, tree, p).Some?
    requires Leaf(ram', tree, q) == Leaf(ram, tree, q) && LeafApart(ram, tree, p, q)
    requires var f := Leaf(ram, tree, p).value.frame;
             IsPage(ram, f) && ram' == ram[f := Bytes(ram[f].b[o := b])]
    ensures ByteOf(ram', tree, q, u) == if p == q && u == o then Some(b) else ByteOf(ram, tree, q, u)
  {
  }

  /** Copying out to a process: every address of the range reads back the byte
      copied to it, and every other address reads what it did. */
  lemma {:induction false} CopyImage(ram: Ram, free: set<int>, root: int, tables: nat, tree: Tables, pages: seq<nat>,
                                     user: nat, src: seq<Byte>, n: nat)
    requires ProcOk(ram, free, root, tables, tree, pages) && n <= |src| && AllReachable(ram, tree, user, user + n, true)
    ensures var ram' := PutBytes(ram, tree, user, src, n);
            && ProcOk(ram', free, root, tables, tree, pages) && SameLeaves(ram, tree, ram', tree)
            && KeptOutside(ram, ram', PagesOf(pages))
            && forall x: nat {:trigger ByteAt(ram', tree, x)} :: LowerHalf(x) ==>
                 ByteAt(ram', tree, x) == if user <= x < user + n then Some(src[x - user]) else ByteAt(ram, tree, x)
    decreases n
  {
    if n > 0 {
      CopyImage(ram, free, root, tables, tree, pages, user, src, n - 1);
      var mid := PutBytes(ram, tree, user, src, n - 1);
      var a := user + n - 1;
      assert Reachable(ram, tree, a, true);
      assert Meaning(mid, tree, PageOf(a)) == Meaning(ram, tree, PageOf(a));
      OneByte(mid, free, root, tables, tree, pages, a, src[n - 1]);
      CopyStep(ram, mid, PutByte(mid, tree, a, src[n - 1]), tree, pages, user, src, n);
    }
  }

  lemma CopyStep(ram: Ram, mid: Ram, ram': Ram, tree: Tables, pages: seq<nat>, user: nat, src: seq<Byte>, n: nat)
    requires 0 < n <= |src| && SameLeaves(ram, tree, mid, tree) && SameLeaves(mid, tree, ram', tree)
    requires KeptOutside(ram, mid, PagesOf(pages)) && KeptOutside(mid, ram', PagesOf(pages))
    requires forall x: nat {:trigger ByteAt(mid, tree, x)} :: LowerHalf(x) ==>
               ByteAt(mid, tree, x) == if user <= x < user + n - 1 then Some(src[x - user]) else ByteAt(ram, tree, x)
    requires forall x: nat {:trigger ByteAt(ram', tree, x)} :: LowerHalf(x) ==>
               ByteAt(ram', tree, x) == if x == user + n - 1 then Some(src[n - 1]) else ByteAt(mid, tree, x)
    ensures SameLeaves(ram, tree, ram', tree) && KeptOutside(ram, ram', PagesOf(pages))
    ensures forall x: nat {:trigger ByteAt(ram', tree, x)} :: LowerHalf(x) ==>
              ByteAt(ram', tree, x) == if user <= x < user + n then Some(src[x - user]) else ByteAt(ram, tree, x)
  {
    StillSame(ram, mid, ram', tree);
    forall f | f in ram && f !in PagesOf(pages) ensures f in ram' && ram'[f] == ram[f] {
      assert f in mid && mid[f] == ram[f];
    }
    forall x: nat | LowerHalf(x)
      ensures ByteAt(ram', tree, x) == if user <= x < user + n then Some(src[x - user]) else ByteAt(ram, tree, x)
    {
      var between := ByteAt(mid, tree, x);
    }
  }

  /** A copy into one process changes no byte, no mapping and no table of another
      that shares no frame with it. */
  lemma CopyIsolated(ram: Ram, free: set<int>, root: int, tables: nat, tree: Tables, pages: seq<nat>,
                     user: nat, src: seq<Byte>, root2: int, tables2: nat, tree2: Tables, pages2: seq<nat>)
    requires ProcOk(ram, free, root, tables, tree, pages) && AllReachable(ram, tree, user, user + |src|, true)
    requires ProcOk(ram, free, root2, tables2, tree2, pages2) && Owned(tree, pages) !! Owned(tree2, pages2)
    ensures var ram' := PutBytes(ram, tree, user, src, |src|);
            && ProcOk(ram', free, root2, tables2, tree2, pages2) && SameLeaves(ram, tree2, ram', tree2)
            && forall x: nat {:trigger ByteAt(ram', tree2, x)} :: ByteAt(ram', tree2, x) == ByteAt(ram, tree2, x)
  {
    CopyImage(ram, free, root, tables, tree, pages, user, src, |src|);
    OtherKept(ram, free, root2, tables2, tree2, pages2, PutBytes(ram, tree, user, src, |src|), free, PagesOf(pages));
  }

  /** Over any run of the process table, every live process can be copied to and from:
      what is above its own half is the kernel's, and none of it the program's. */
  lemma ProcessAccessible(t: ProcessTable, i: nat)
    requires t.Valid() && i < |t.procs| && t.procs[i].state != Unused
    ensures Accessible(t.m, t.procs[i].space)
  {
    assert t.SlotOk(i);
    var p := t.procs[i];
    ProcessPages(t.m.ram, t.m.pmm.free, p.space.root, p.space.tables, p.space.tree, p.pages);
    KernelHalfKept(t.m.ram, t.kernelRoot, t.m.ram, p.space.root, t.kernel);
  }

  /** An address is the program's to read, or to write, exactly when the processor walking
      it would let the program do so, and it lies below the kernel's half. */
  lemma ReachableIsAllowed(ram: Ram, free: set<int>, root: int, tables: nat, tree: Tables, a: nat, write: bool)
    requires SpaceOk(ram, free, root, tables, tree) && root != 0
    ensures Reachable(ram, tree, a, write) <==>
            && a < 0x8000_0000_0000
            && var r := RightsFor(ram, root, a); r.Some? && r.value.user && (write ==> r.value.write)
  {
    if a < 0x8000_0000_0000 {
      assert PageOf(a) == a - a % PAGE_SIZE;
      WalkOfAddress(ram, root, tree, a);
    }
  }

  /** A page given to a process is its own to use through the processor's walk: writable and
      runnable as was asked. */
  lemma GivenRights(a: View, pages: seq<nat>, b: View, pages': seq<nat>, free: set<int>, root: int, tables: nat, virt: nat,
                    flags: Flags, into: nat, data: seq<Byte>)
    requires PageNew(a, pages, b, pages', virt, flags, into, data) && SpaceOk(b.ram, free, root, tables, b.tree) && root != 0
    ensures RightsFor(b.ram, root, virt) == Some(Rights(pages'[|pages|], flags.write, true, flags.nx))
  {
    WalkIsLeaf(b.ram, root, b.tree, virt);
  }

  /** And the byte there is the one at the same offset of the frame the walk ends in. */
  lemma ByteIsWalked(ram: Ram, free: set<int>, root: int, tables: nat, tree: Tables, a: nat)
    requires SpaceOk(ram, free, root, tables, tree) && root != 0 && a < 0x8000_0000_0000
    ensures var e := EntryFor(ram, root, a);
            ByteAt(ram, tree, a) == if e.Some? && IsPage(ram, e.value.frame) then Some(ram[e.value.frame].b[a % 0x1000]) else None
  {
    assert PageOf(a) == a - a % PAGE_SIZE;
    WalkOfAddress(ram, root, tree, a);
  }
}
