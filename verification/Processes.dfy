// The process table: processes created, given pages and destroyed in any order
// over one allocator (kernel/src/process.c).
module Processes {
  import opened Common
  import opened Pmm
  import opened Paging
  import opened Vmm
  import opened VmmTrace
  import opened VmmSpace
  import opened VmmFree
  import opened ProcessImage
  import opened Process

  const PROC_MAX: nat := 8

  /** A slot nothing has used. */
  ghost predicate Untouched(p: Process)
    reads p, p.space
  {
    p.state == Unused && p.pages == [] && p.space.root == 0 && p.space.tables == 0 && p.space.tree == map[]
  }

  /** One request to the table. */
  datatype Request =
    | CreateOne(pid: nat)
    | AddOne(slot: nat, virt: nat, flags: Flags, into: nat, data: seq<Byte>)
    | DestroyOne(slot: nat)

  predicate Sensible(r: Request) {
    match r
    case CreateOne(_) => true
    case AddOne(slot, virt, _, _, _) => slot < PROC_MAX && (LowerHalf(virt) || !Canonical(virt))
    case DestroyOne(slot) => slot < PROC_MAX
  }

  /** What moving frames between the free ones and one process does to another. */
  lemma OtherSlot(ram: Ram, free: set<int>, own: set<int>, root: int, tables: nat, tree: Tables, pages: seq<nat>,
                  live: bool, kernelRoot: int, pool: set<int>, ram': Ram, free': set<int>, own': set<int>)
    requires ProcOk(ram, free, root, tables, tree, pages) && Owned(tree, pages) <= pool && Owned(tree, pages) !! own
    requires live ==> root != 0 && SharesKernel(ram, root, kernelRoot)
    requires IsTable(ram, kernelRoot) && kernelRoot !in pool && free <= pool && own <= pool
    requires Moved(ram, free, own, ram', free', own')
    ensures ProcOk(ram', free', root, tables, tree, pages) && SameLeaves(ram, tree, ram', tree)
    ensures forall a {:trigger ByteAt(ram', tree, a)} :: ByteAt(ram', tree, a) == ByteAt(ram, tree, a)
    ensures live ==> SharesKernel(ram', root, kernelRoot)
    ensures Owned(tree, pages) !! own' && Owned(tree, pages) !! free'
  {
    OwnedIsApart(ram, free, root, tables, tree, pages);
    OtherKept(ram, free, root, tables, tree, pages, ram', free', free + own);
    if live { assert NodeOk(ram, tree, []) && tree[[]] in tree.Values; }
  }

  /** Where no table is, nothing is seen. */
  lemma NothingSeen(ram: Ram, ram': Ram)
    ensures SameLeaves(ram, map[], ram', map[])
    ensures forall a {:trigger ByteAt(ram', map[], a)} :: ByteAt(ram', map[], a) == ByteAt(ram, map[], a)
  {
  }

  /** The kernel's tables are no process's, and stay as they were. */
  lemma KernelKept(ram: Ram, ram': Ram, kernelRoot: int, kernel: set<int>, pool: set<int>)
    requires KernelHalf(ram, kernelRoot, kernel) && kernelRoot !in pool && kernel !! pool &&
             KeptOutside(ram, ram', pool)
    ensures KernelHalf(ram', kernelRoot, kernel)
  {
    KernelHalfKept(ram, kernelRoot, ram', kernelRoot, kernel);
  }

  class ProcessTable {
    const m: Machine
    /** The top-level table every process borrows its upper half from. */
    const kernelRoot: int
    const procs: seq<Process>
    /** The tables under that half. */
    ghost const kernel: set<int>
    /** The frames processes are made of. */
    ghost const pool: set<int>

    /** The table as it is at boot: every slot unused, and what is free then is
        what processes can be made of. */
    constructor (m: Machine, kernelRoot: int, ghost kernel: set<int>)
      requires m.pmm.Valid() && kernelRoot != 0 && kernelRoot !in m.pmm.free
      requires KernelHalf(m.ram, kernelRoot, kernel) && kernel !! m.pmm.free
      requires FreeFits(m.pmm.free)
      ensures Valid() && this.m == m && this.kernelRoot == kernelRoot && pool == m.pmm.free
      ensures fresh(procs) && forall p :: p in procs ==> p.state == Unused && fresh(p.space)
    {
      var made: seq<Process> := [];
      for i := 0 to PROC_MAX
        invariant |made| == i && fresh(made)
        invariant forall p :: p in made ==> Untouched(p) && fresh(p.space)
        invariant forall j, k :: 0 <= j < k < i ==> made[j] != made[k] && made[j].space != made[k].space
      {
        var space := new Space();
        var p := new Process(space);
        made := made + [p];
      }
      this.m, this.kernelRoot, procs := m, kernelRoot, made;
      this.kernel, pool := kernel, m.pmm.free;
      new;
      NobodyOk(m.ram, m.pmm.free);
      forall i | 0 <= i < |procs| ensures SlotOk(i) && OwnedBy(i) == {} { assert Untouched(procs[i]); }
      forall i, j | 0 <= i < |procs| && 0 <= j < |procs| ensures SlotsApart(i, j) {
        assert i < j ==> procs[i] != procs[j];
        assert j < i ==> procs[j] != procs[i];
      }
      forall f ensures Placed(f) { }
    }

    ghost function Footprint(): set<object> {
      {m, m.pmm, m.pmm.bitmap} + (set p: Process | p in procs) + (set p: Process | p in procs :: p.space)
    }

    ghost function OwnedBy(i: nat): set<int>
      requires i < |procs|
      reads procs[i], procs[i].space
    {
      Owned(procs[i].space.tree, procs[i].pages)
    }

    ghost predicate SlotOk(i: nat)
      requires i < |procs|
      reads m, m.pmm, m.pmm.bitmap, procs[i], procs[i].space
    {
      && ProcessSound(m, procs[i]) && OwnedBy(i) <= pool
      && (procs[i].state != Unused ==> procs[i].space.root != 0 && SharesKernel(m.ram, procs[i].space.root, kernelRoot))
    }

    ghost predicate SlotsApart(i: nat, j: nat)
      requires i < |procs| && j < |procs|
      reads procs[i], procs[i].space, procs[j], procs[j].space
    {
      i != j ==> procs[i] != procs[j] && procs[i].space != procs[j].space && OwnedBy(i) !! OwnedBy(j)
    }

    /** Frame `f` of the pool is free or somebody's. */
    ghost predicate Placed(f: int)
      reads Footprint()
    {
      f in pool ==> f in m.pmm.free || exists i {:trigger OwnedBy(i)} :: 0 <= i < |procs| && f in OwnedBy(i)
    }

    /** Every frame of the pool is in exactly one place: free, a page of one
        process, or a table of one process; and the kernel's is none of them. */
    ghost predicate Valid()
      reads Footprint()
    {
      && |procs| == PROC_MAX && m.pmm.Valid()
      && kernelRoot != 0 && kernelRoot !in pool && kernel !! pool && KernelHalf(m.ram, kernelRoot, kernel)
      && (forall f {:trigger f in pool} :: f in pool ==> m.pmm.Covers(f) && 0 < f < FRAME_LIMIT)
      && m.pmm.free <= pool
      && (forall i {:trigger SlotOk(i)} :: 0 <= i < |procs| ==> SlotOk(i))
      && (forall i, j {:trigger SlotsApart(i, j)} :: 0 <= i < |procs| && 0 <= j < |procs| ==> SlotsApart(i, j))
      && (forall f {:trigger Placed(f)} :: Placed(f))
    }

    /** Every other process owns, maps and sees what it did. */
    twostate predicate OthersSame(i: nat)
      requires i < |procs|
      reads Footprint()
    {
      forall j {:trigger OwnedBy(j)} :: 0 <= j < |procs| && j != i ==> SameProcess(j)
    }

    twostate predicate AllSame()
      reads Footprint()
    {
      forall j {:trigger OwnedBy(j)} :: 0 <= j < |procs| ==> SameProcess(j)
    }

    twostate lemma OthersToo(i: nat)
      requires i < |procs| && OthersSame(i) && SameProcess(i)
      ensures AllSame()
    {
      forall j | 0 <= j < |procs| ensures SameProcess(j) { var own := OwnedBy(j); }
    }

    twostate lemma NothingChanged()
      requires unchanged(Footprint())
      ensures AllSame()
    {
      forall j | 0 <= j < |procs| ensures SameProcess(j) {
        assert procs[j] in Footprint() && procs[j].space in Footprint();
      }
    }

    twostate predicate SameProcess(j: nat)
      requires j < |procs|
      reads m, procs[j], procs[j].space
    {
      && procs[j].state == old(procs[j].state) && procs[j].pages == old(procs[j].pages)
      && procs[j].space.root == old(procs[j].space.root) && procs[j].space.tree == old(procs[j].space.tree)
      && SameLeaves(old(m.ram), procs[j].space.tree, m.ram, procs[j].space.tree)
      && forall a {:trigger ByteAt(m.ram, procs[j].space.tree, a)} ::
           ByteAt(m.ram, procs[j].space.tree, a) == ByteAt(old(m.ram), procs[j].space.tree, a)
    }

    /** Whatever moved frames between one process and the free ones left the
        others alone. */
    twostate lemma OneChanged(i: nat)
      requires i < |procs| && old(Valid()) && m.pmm.Valid()
      requires forall j :: 0 <= j < |procs| && j != i ==> unchanged(procs[j]) && unchanged(procs[j].space)
      requires ProcessSound(m, procs[i])
      requires Moved(old(m.ram), old(m.pmm.free), old(OwnedBy(i)), m.ram, m.pmm.free, OwnedBy(i))
      requires procs[i].state != Unused ==> procs[i].space.root != 0 && SharesKernel(m.ram, procs[i].space.root, kernelRoot)
      ensures Valid() && OthersSame(i) && KeptOutside(old(m.ram), m.ram, pool)
    {
      assert old(SlotOk(i));
      KernelKept(old(m.ram), m.ram, kernelRoot, kernel, pool);
      OthersKept(i);
      forall j ensures 0 <= j < |procs| ==> SlotOk(j) { }
      forall j, k | 0 <= j < |procs| && 0 <= k < |procs| ensures SlotsApart(j, k) { assert old(SlotsApart(j, k)); }
      StillPlaced(i);
    }

    twostate lemma StillPlaced(i: nat)
      requires i < |procs| && forall f {:trigger old(Placed(f))} :: old(Placed(f))
      requires m.pmm.free + OwnedBy(i) == old(m.pmm.free) + old(OwnedBy(i))
      requires forall j {:trigger OwnedBy(j)} {:trigger old(OwnedBy(j))} ::
                 0 <= j < |procs| && j != i ==> OwnedBy(j) == old(OwnedBy(j))
      ensures forall f {:trigger Placed(f)} :: Placed(f)
    {
      forall f ensures Placed(f) {
        assert old(Placed(f));
        if f in pool && f !in m.pmm.free && f !in OwnedBy(i) {
          assert f !in old(m.pmm.free) + old(OwnedBy(i));
          var k :| 0 <= k < |procs| && f in old(OwnedBy(k));
          assert f in OwnedBy(k);
        }
      }
    }

    twostate lemma OthersKept(i: nat)
      requires i < |procs| && old(Valid()) && m.pmm.Valid()
      requires forall j :: 0 <= j < |procs| && j != i ==> unchanged(procs[j]) && unchanged(procs[j].space)
      requires Moved(old(m.ram), old(m.pmm.free), old(OwnedBy(i)), m.ram, m.pmm.free, OwnedBy(i))
      ensures OthersSame(i)
      ensures forall j :: 0 <= j < |procs| && j != i ==>
                SlotOk(j) && OwnedBy(j) == old(OwnedBy(j)) && OwnedBy(j) !! OwnedBy(i) && OwnedBy(j) !! m.pmm.free
    {
      assert old(SlotOk(i));
      var ram, free, own := old(m.ram), old(m.pmm.free), old(OwnedBy(i));
      forall j | 0 <= j < |procs| && j != i
        ensures SlotOk(j) && SameProcess(j) && OwnedBy(j) == old(OwnedBy(j)) && OwnedBy(j) !! OwnedBy(i) &&
                OwnedBy(j) !! m.pmm.free
      {
        assert old(SlotOk(j)) && old(SlotsApart(j, i));
        var p := procs[j];
        OtherSlot(ram, free, own, p.space.root, p.space.tables, p.space.tree, p.pages, p.state != Unused, kernelRoot, pool,
                  m.ram, m.pmm.free, OwnedBy(i));
      }
    }

    /** Nothing outside the pool is written, and nothing is ever given back twice. */
    twostate predicate PoolOnly()
      reads Footprint()
    {
      KeptOutside(old(m.ram), m.ram, pool) && m.pmm.badFrees == old(m.pmm.badFrees)
    }

    /** `process_create`: the first unused slot, with a space of one table that
        maps nothing and shares the kernel's half. It fails only when every slot
        is used or no frame is free. */
    method Create(pid: nat) returns (i: nat)
      requires Valid()
      modifies Footprint()
      ensures Valid() && PoolOnly() && i <= |procs|
      ensures i == |procs| <==>
                old(m.pmm.free) == {} || forall j {:trigger procs[j]} :: 0 <= j < |procs| ==> old(procs[j].state) != Unused
      ensures i == |procs| ==> m.pmm.free == old(m.pmm.free) && AllSame()
      ensures forall j {:trigger procs[j]} :: 0 <= j < i < |procs| ==> old(procs[j].state) != Unused
      ensures i < |procs| ==>
                && OthersSame(i) && old(procs[i].state) == Unused && procs[i].state == Ready
                && Fresh(m.ram, procs[i]) && procs[i].pid == pid
                && m.pmm.free == old(m.pmm.free) - OwnedBy(i) && |OwnedBy(i)| == 1
    {
      i := 0;
      while i < |procs| && procs[i].state != Unused
        invariant i <= |procs| && forall j {:trigger procs[j]} :: 0 <= j < i ==> procs[j].state != Unused
      {
        i := i + 1;
      }
      if i == |procs| {
        NothingChanged();
        return;
      }
      var ok := StartIn(i, pid);
      if !ok {
        OthersToo(i);
        return |procs|;
      }
    }

    method StartIn(i: nat, pid: nat) returns (ok: bool)
      requires Valid() && i < |procs| && procs[i].state == Unused
      modifies Footprint()
      ensures Valid() && PoolOnly() && OthersSame(i)
      ensures ok <==> old(m.pmm.free) != {}
      ensures m.pmm.free == old(m.pmm.free) - OwnedBy(i)
      ensures ok ==> procs[i].state == Ready && Fresh(m.ram, procs[i]) && procs[i].pid == pid && |OwnedBy(i)| == 1
      ensures !ok ==> SameProcess(i)
    {
      assert SlotOk(i);
      UnusedOwnsNothing(i);
      OthersApart(i);
      ghost var ram := m.ram;
      ok := Start(m, procs[i], kernelRoot, pid);
      NothingSeen(ram, m.ram);
      OneChanged(i);
    }

    lemma OthersApart(i: nat)
      requires i < |procs| && forall j {:trigger SlotsApart(i, j)} :: 0 <= j < |procs| ==> SlotsApart(i, j)
      ensures forall j :: 0 <= j < |procs| && j != i ==> procs[j] != procs[i] && procs[j].space != procs[i].space
    {
      forall j | 0 <= j < |procs| && j != i ensures procs[j] != procs[i] && procs[j].space != procs[i].space {
        assert SlotsApart(i, j);
      }
    }

    lemma UnusedOwnsNothing(i: nat)
      requires i < |procs| && SlotOk(i) && procs[i].state == Unused
      ensures OwnedBy(i) == {}
    {
    }

    /** `process_add_page_at` on one process of the table. */
    method AddPage(i: nat, virt: nat, flags: Flags, into: nat, data: seq<Byte>) returns (ok: bool)
      requires Valid() && i < |procs| && (LowerHalf(virt) || !Canonical(virt))
      modifies Footprint()
      ensures Valid() && PoolOnly() && OthersSame(i)
      ensures procs[i].state == old(procs[i].state) && procs[i].space.root == old(procs[i].space.root)
      ensures m.pmm.free + OwnedBy(i) == old(m.pmm.free) + old(OwnedBy(i))
      ensures PageOutcome(old(Seen(m, procs[i].space)), old(procs[i].pages), Seen(m, procs[i].space), procs[i].pages,
                          ok, virt, flags, into, data)
      ensures ok <==> CanAdd(old(Seen(m, procs[i].space)), old(procs[i].pages), procs[i].space.root, virt, into, data)
    {
      OthersApart(i);
      ok := GivePage(i, virt, flags, into, data);
      OneChanged(i);
    }

    /** The same, before the others are looked at. */
    method GivePage(i: nat, virt: nat, flags: Flags, into: nat, data: seq<Byte>) returns (ok: bool)
      requires Valid() && i < |procs| && (LowerHalf(virt) || !Canonical(virt))
      modifies m`ram, m.pmm, m.pmm.bitmap, procs[i], procs[i].space
      ensures m.pmm.Valid() && ProcessSound(m, procs[i]) && m.pmm.badFrees == old(m.pmm.badFrees)
      ensures Moved(old(m.ram), old(m.pmm.free), old(OwnedBy(i)), m.ram, m.pmm.free, OwnedBy(i))
      ensures procs[i].state != Unused ==> procs[i].space.root != 0 && SharesKernel(m.ram, procs[i].space.root, kernelRoot)
      ensures procs[i].state == old(procs[i].state) && procs[i].space.root == old(procs[i].space.root)
      ensures PageOutcome(old(Seen(m, procs[i].space)), old(procs[i].pages), Seen(m, procs[i].space), procs[i].pages,
                          ok, virt, flags, into, data)
      ensures ok <==> CanAdd(old(Seen(m, procs[i].space)), old(procs[i].pages), procs[i].space.root, virt, into, data)
    {
      assert SlotOk(i);
      FitsFromPool();
      ok := AddPageAt(m, procs[i], virt, flags, into, data);
      KernelStillShared(i);
    }

    lemma FitsFromPool()
      requires m.pmm.free <= pool && forall f {:trigger f in pool} :: f in pool ==> m.pmm.Covers(f) && 0 < f < FRAME_LIMIT
      ensures FreeFits(m.pmm.free)
    {
    }

    /** A process's kernel half survives what is done to its lower half. */
    twostate lemma KernelStillShared(i: nat)
      requires i < |procs| && old(Valid()) && procs[i].state == old(procs[i].state)
      requires PageGiven(old(Seen(m, procs[i].space)), old(procs[i].pages), procs[i].space.root, Seen(m, procs[i].space), procs[i].pages)
      requires procs[i].space.root == old(procs[i].space.root)
      ensures procs[i].state != Unused ==> procs[i].space.root != 0 && SharesKernel(m.ram, procs[i].space.root, kernelRoot)
    {
      assert old(SlotOk(i));
      var root := procs[i].space.root;
      if procs[i].state != Unused {
        assert m.pmm == m.pmm;
        forall k | 256 <= k < ENTRIES ensures KernelEntry(m.ram, root, k, old(m.ram)[kernelRoot].w[k]) {
          assert KernelEntry(old(m.ram), root, k, old(m.ram)[kernelRoot].w[k]);
        }
        assert IsTable(m.ram, root) by { assert KernelEntry(m.ram, root, 256, old(m.ram)[kernelRoot].w[256]); }
      }
    }

    /** `process_destroy`: exactly the frames the process held are free again. */
    method Destroy(i: nat)
      requires Valid() && i < |procs|
      modifies Footprint()
      ensures Valid() && PoolOnly() && OthersSame(i)
      ensures procs[i].state == Unused && OwnedBy(i) == {}
      ensures m.pmm.free == old(m.pmm.free) + old(OwnedBy(i))
    {
      assert SlotOk(i);
      OthersApart(i);
      ReturnableFromPool(i);
      var p := procs[i];
      Discard(m, p);
      assert OwnedBy(i) == {};
      OneChanged(i);
    }

    lemma ReturnableFromPool(i: nat)
      requires i < |procs| && SlotOk(i) && forall f {:trigger f in pool} :: f in pool ==> m.pmm.Covers(f) && 0 < f < FRAME_LIMIT
      ensures Returnable(m.pmm, OwnedBy(i))
      ensures procs[i].space.root == 0 || procs[i].space.root in OwnedBy(i)
    {
      var p := procs[i];
      OwnedIsApart(m.ram, m.pmm.free, p.space.root, p.space.tables, p.space.tree, p.pages);
      if p.space.root != 0 { assert p.space.tree[[]] in p.space.tree.Values; }
    }

    /** Nothing leaks: once every process is gone every frame processes were ever
        made of is free again. */
    lemma NothingLeaks()
      requires Valid() && forall i {:trigger SlotOk(i)} :: 0 <= i < |procs| ==> procs[i].state == Unused
      ensures m.pmm.free == pool && m.pmm.freePages == |pool|
    {
      forall f | f in pool ensures f in m.pmm.free {
        assert Placed(f);
        if f !in m.pmm.free {
          var i :| 0 <= i < |procs| && f in OwnedBy(i);
          assert SlotOk(i);
          UnusedOwnsNothing(i);
        }
      }
    }

    method Serve(r: Request)
      requires Valid() && Sensible(r)
      modifies Footprint()
      ensures Valid() && PoolOnly()
    {
      match r
      case CreateOne(pid) => var i := Create(pid);
      case AddOne(slot, virt, flags, into, data) => var ok := AddPage(slot, virt, flags, into, data);
      case DestroyOne(slot) => Destroy(slot);
    }

    /** Any requests in any order: every frame stays in exactly one place, nothing
        is given back twice, and no memory but the pool is ever written. */
    method Run(requests: seq<Request>)
      requires Valid() && forall k :: 0 <= k < |requests| ==> Sensible(requests[k])
      modifies Footprint()
      ensures Valid() && PoolOnly()
    {
      for k := 0 to |requests|
        invariant Valid() && PoolOnly()
      {
        ghost var ram := m.ram;
        Serve(requests[k]);
        StillOutside(old(m.ram), ram, m.ram);
      }
    }

    lemma StillOutside(a: Ram, b: Ram, c: Ram)
      requires KeptOutside(a, b, pool) && KeptOutside(b, c, pool)
      ensures KeptOutside(a, c, pool)
    {
      forall f | f in a && f !in pool ensures f in c && c[f] == a[f] { assert f in b && b[f] == a[f]; }
    }

    ghost predicate EmptyUpto(i: nat)
      requires i <= |procs|
      reads procs
    {
      forall j {:trigger procs[j]} :: 0 <= j < i ==> procs[j].state == Unused
    }

    method DestroyNext(i: nat)
      requires Valid() && i < |procs| && EmptyUpto(i)
      modifies Footprint()
      ensures Valid() && PoolOnly() && EmptyUpto(i + 1)
    {
      Destroy(i);
      forall j | 0 <= j < i ensures procs[j].state == Unused { assert OwnedBy(j) == OwnedBy(j); }
    }

    /** Destroying everything, whatever has happened before, frees everything. */
    method DestroyAll()
      requires Valid()
      modifies Footprint()
      ensures Valid() && PoolOnly() && m.pmm.free == pool && m.pmm.freePages == |pool|
    {
      for i := 0 to |procs|
        invariant Valid() && PoolOnly() && EmptyUpto(i)
      {
        ghost var ram := m.ram;
        DestroyNext(i);
        StillOutside(old(m.ram), ram, m.ram);
      }
      NothingLeaks();
    }
  }
}
