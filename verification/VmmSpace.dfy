// The operations on one address space: each keeps the tree and changes at most
// the one page it is asked about (kernel/src/vmm.c:22-199).
module VmmSpace {
  import opened Common
  import opened Pmm
  import opened Paging
  import opened Vmm
  import opened VmmTrace
  import opened VmmWalk

  class Machine {
    const pmm: Allocator
    var ram: Ram

    constructor (pmm: Allocator, ram: Ram)
      ensures this.pmm == pmm && this.ram == ram
    {
      this.pmm, this.ram := pmm, ram;
    }
  }

  /** An address space: its top-level table, 0 when there is none, and how many
      tables it was built from. */
  class Space {
    var root: int
    var tables: nat
    ghost var tree: Tables

    constructor ()
      ensures root == 0 && tables == 0 && tree == map[]
    {
      root, tables, tree := 0, 0, map[];
    }
  }

  /** A space's tables are a tree in memory, counted, and none of them is free. */
  ghost predicate SpaceOk(ram: Ram, free: set<int>, root: int, tables: nat, tree: Tables) {
    && tables == |tree|
    && (root == 0 ==> tree == map[])
    && (root != 0 ==> TreeOk(ram, root, tree))
    && tree.Values !! free && 0 !in tree.Values
  }

  ghost predicate SpaceSound(m: Machine, s: Space)
    reads m, m.pmm, m.pmm.bitmap, s
  {
    m.pmm.Valid() && SpaceOk(m.ram, m.pmm.free, s.root, s.tables, s.tree)
  }

  /** What an address space and the memory under it look like at one moment. */
  datatype View = View(ram: Ram, free: set<int>, tree: Tables)

  ghost function Seen(m: Machine, s: Space): View
    reads m, m.pmm, s
  {
    View(m.ram, m.pmm.free, s.tree)
  }

  /** A table stays where it hangs. */
  ghost predicate TableKept(a: View, b: View, p: seq<nat>) { p in a.tree ==> p in b.tree && b.tree[p] == a.tree[p] }

  /** A frame became a table only if it was free, is free no longer exactly when
      it became one, and is as it was if it was neither free nor a table. */
  ghost predicate FrameKept(a: View, b: View, f: int) {
    && (f in b.tree.Values ==> f in a.tree.Values || f in a.free)
    && (f in b.free <==> f in a.free && f !in b.tree.Values)
    && (f in a.ram && f !in a.free && f !in a.tree.Values ==> f in b.ram && b.ram[f] == a.ram[f])
  }

  /** The tree gained tables made of frames that were free, and memory that was
      neither free nor a table of this space is as it was. */
  ghost predicate Grew(a: View, b: View) {
    && (forall p {:trigger TableKept(a, b, p)} :: TableKept(a, b, p))
    && (forall f {:trigger FrameKept(a, b, f)} :: FrameKept(a, b, f))
  }

  lemma GrewOnce(a: View, b: View, c: View)
    requires Grew(a, b) && Grew(b, c)
    ensures Grew(a, c)
  {
    forall p ensures TableKept(a, c, p) { assert TableKept(a, b, p) && TableKept(b, c, p); }
    forall f ensures FrameKept(a, c, f) {
      assert FrameKept(a, b, f) && FrameKept(b, c, f);
      if f in a.tree.Values { ValuesKept(a, b, f); }
      if f in b.tree.Values { ValuesKept(b, c, f); }
    }
  }

  lemma ValuesKept(a: View, b: View, f: int)
    requires Grew(a, b) && f in a.tree.Values
    ensures f in b.tree.Values
  {
    var p :| p in a.tree && a.tree[p] == f;
    assert TableKept(a, b, p);
    assert b.tree[p] in b.tree.Values;
  }

  /** `fresh_table`. */
  method FreshTable(m: Machine, s: Space) returns (f: nat)
    requires m.pmm.Valid()
    modifies m`ram, m.pmm`freePages, m.pmm`free, m.pmm`hint, m.pmm.bitmap, s`tables
    ensures m.pmm.Valid()
    ensures f == 0 ==>
              old(m.pmm.free) == {} && m.pmm.free == {} && m.ram == old(m.ram) && s.tables == old(s.tables)
    ensures f != 0 ==>
              && f in old(m.pmm.free) && m.pmm.free == old(m.pmm.free) - {f}
              && m.ram == old(m.ram)[f := ZeroTable()] && s.tables == old(s.tables) + 1
  {
    var phys := m.pmm.Alloc();
    if phys == PMM_NONE { return 0; }
    f := phys / PAGE_SIZE;
    m.ram := m.ram[f := ZeroTable()];
    s.tables := s.tables + 1;
  }

  /** `vmm_create`. */
  method Create(m: Machine, s: Space) returns (result: VmmResult)
    requires m.pmm.Valid()
    modifies m`ram, m.pmm`freePages, m.pmm`free, m.pmm`hint, m.pmm.bitmap, s
    ensures SpaceSound(m, s)
    ensures result == (if old(m.pmm.free) == {} then NoMemory else VmmResult.Ok)
    ensures result == VmmResult.Ok ==>
              && s.root in old(m.pmm.free) && m.pmm.free == old(m.pmm.free) - {s.root}
              && s.tree == map[[] := s.root] && m.ram == old(m.ram)[s.root := ZeroTable()]
    ensures result != VmmResult.Ok ==> s.root == 0 && m.pmm.free == old(m.pmm.free) && m.ram == old(m.ram)
  {
    s.root, s.tables, s.tree := 0, 0, map[];
    var root := FreshTable(m, s);
    if root == 0 { return NoMemory; }
    s.root, s.tree := root, map[[] := root];
    FreshTree(m.ram, root);
    return VmmResult.Ok;
  }

  lemma FreshTree(ram: Ram, root: int)
    requires root in ram && ram[root] == ZeroTable()
    ensures TreeOk(ram, root, map[[] := root])
  {
    var tree: Tables := map[[] := root];
    forall p, i ensures ParentEntryOk(ram, tree, p, i) { }
  }

  /** Entries of the tree that carried the user bit still do. */
  ghost predicate UserKept(a: View, b: View) {
    forall q: seq<nat>, j: nat {:trigger UserEntry(b.ram, b.tree, q, j)} ::
      UserEntry(a.ram, a.tree, q, j) && q + [j] in a.tree && |q| < 3 && (q == [] ==> j < 256) ==>
        UserEntry(b.ram, b.tree, q, j)
  }

  /** An entry of the kernel's half of a top-level table. */
  ghost predicate KernelEntry(ram: Ram, root: int, i: nat, e: Pte) {
    IsTable(ram, root) && 256 <= i < ENTRIES && ram[root].w[i] == e
  }

  /** The kernel's half of the top-level table is as it was. */
  ghost predicate UpperKept(ram: Ram, root: int, ram': Ram) {
    forall i, e {:trigger KernelEntry(ram', root, i, e)} :: KernelEntry(ram, root, i, e) ==> KernelEntry(ram', root, i, e)
  }

  /** What one step of a walk that may create keeps. */
  ghost predicate Stepped(a: View, b: View, root: int) {
    SameLeaves(a.ram, a.tree, b.ram, b.tree) && Grew(a, b) && UserKept(a, b) && UpperKept(a.ram, root, b.ram)
  }

  /** An entry written below the kernel's half. */
  lemma UpperPut(ram: Ram, root: int, tree: Tables, p: seq<nat>, i: nat, e: Pte)
    requires TreeOk(ram, root, tree) && p in tree && IsTable(ram, tree[p]) && i < ENTRIES && (p == [] ==> i < 256)
    ensures UpperKept(ram, root, PutEntry(ram, tree[p], i, e))
  {
    assert Apart(tree, p, []);
  }

  lemma SteppedOnce(a: View, b: View, c: View, root: int)
    requires Stepped(a, b, root) && Stepped(b, c, root)
    ensures Stepped(a, c, root)
  {
    GrewOnce(a, b, c);
    forall path: seq<nat> | |path| == 4 ensures Leaf(c.ram, c.tree, path) == Leaf(a.ram, a.tree, path) {
      assert Leaf(b.ram, b.tree, path) == Leaf(a.ram, a.tree, path);
    }
    forall q: seq<nat>, j: nat |
      UserEntry(a.ram, a.tree, q, j) && q + [j] in a.tree && |q| < 3 && (q == [] ==> j < 256)
      ensures UserEntry(c.ram, c.tree, q, j)
    {
      assert UserEntry(b.ram, b.tree, q, j);
      assert TableKept(a, b, q + [j]);
    }
    forall i, e | KernelEntry(a.ram, root, i, e) ensures KernelEntry(c.ram, root, i, e) {
      assert KernelEntry(b.ram, root, i, e);
    }
  }

  /** The next table built under an absent entry. */
  method Build(m: Machine, s: Space, ghost p: seq<nat>, table: int, i: nat, want: Flags) returns (f: nat)
    requires SpaceSound(m, s) && s.root != 0 && p in s.tree && s.tree[p] == table && |p| < 3
    requires i < ENTRIES && (p == [] ==> i < 256) && p + [i] !in s.tree && IsTable(m.ram, table)
    requires want.present && want.write && !want.huge && !want.nx
    modifies m`ram, m.pmm`freePages, m.pmm`free, m.pmm`hint, m.pmm.bitmap, s`tables, s`tree
    ensures SpaceSound(m, s)
    ensures Stepped(old(Seen(m, s)), Seen(m, s), s.root)
    ensures f == 0 <==> old(m.pmm.free) == {}
    ensures f == 0 ==> Seen(m, s) == old(Seen(m, s))
    ensures f != 0 ==> p + [i] in s.tree && s.tree[p + [i]] == f && (want.user ==> UserEntry(m.ram, s.tree, p, i))
    ensures f != 0 ==> s.tree.Keys == old(s.tree).Keys + {p + [i]} && |m.pmm.free| == |old(m.pmm.free)| - 1
  {
    ghost var v := Seen(m, s);
    assert table in s.tree.Values;
    f := FreshTable(m, s);
    if f == 0 {
      SteppedNone(v, s.root);
      return;
    }
    m.ram := PutEntry(m.ram, table, i, Pte(f, want));
    s.tree := s.tree[p + [i] := f];
    BuildSound(v, s.root, p, i, f, want);
  }

  lemma SteppedNone(a: View, root: int)
    requires a.free !! a.tree.Values
    ensures Stepped(a, a, root)
  {
    forall p ensures TableKept(a, a, p) { }
    forall f ensures FrameKept(a, a, f) { }
  }

  /** The view after a table is built. */
  ghost function Built(a: View, p: seq<nat>, i: nat, f: nat, want: Flags): View
    requires p in a.tree && IsTable(a.ram, a.tree[p]) && i < ENTRIES && f != a.tree[p]
  {
    View(PutEntry(a.ram[f := ZeroTable()], a.tree[p], i, Pte(f, want)), a.free - {f}, a.tree[p + [i] := f])
  }

  lemma BuildSound(a: View, root: int, p: seq<nat>, i: nat, f: nat, want: Flags)
    requires root != 0 && SpaceOk(a.ram, a.free, root, |a.tree|, a.tree) && p in a.tree &&
             IsTable(a.ram, a.tree[p]) && |p| < 3
    requires i < ENTRIES && (p == [] ==> i < 256) && p + [i] !in a.tree && f in a.free && f != 0 && f != a.tree[p]
    requires want.present && want.write && !want.huge && !want.nx
    ensures var b := Built(a, p, i, f, want);
            SpaceOk(b.ram, b.free, root, |a.tree| + 1, b.tree) && Stepped(a, b, root) && UserEntry(b.ram, b.tree, p, i) == want.user
  {
    assert a.tree[p] in a.tree.Values;
    Extended(a.ram, root, a.tree, p, i, f, want);
    ExtendedCount(a.tree, p + [i], f);
    BuildKeepsUser(a, root, p, i, f, want);
    BuildGrew(a, p, i, f, want);
    BuildKeepsUpper(a, root, p, i, f, want);
  }

  lemma BuildKeepsUpper(a: View, root: int, p: seq<nat>, i: nat, f: nat, want: Flags)
    requires TreeOk(a.ram, root, a.tree) && p in a.tree && IsTable(a.ram, a.tree[p]) && i < ENTRIES &&
             (p == [] ==> i < 256)
    requires f !in a.tree.Values && f != a.tree[p]
    ensures UpperKept(a.ram, root, Built(a, p, i, f, want).ram)
  {
    assert Apart(a.tree, p, []);
    assert a.tree[[]] in a.tree.Values;
  }

  lemma BuildGrew(a: View, p: seq<nat>, i: nat, f: nat, want: Flags)
    requires p in a.tree && IsTable(a.ram, a.tree[p]) && i < ENTRIES && f in a.free && f !in a.tree.Values &&
             f != a.tree[p]
    requires p + [i] !in a.tree && a.tree.Values !! a.free
    ensures Grew(a, Built(a, p, i, f, want))
  {
    ExtendedCount(a.tree, p + [i], f);
    assert a.tree[p] in a.tree.Values;
  }

  lemma BuildKeepsUser(a: View, root: int, p: seq<nat>, i: nat, f: nat, want: Flags)
    requires TreeOk(a.ram, root, a.tree) && p in a.tree && IsTable(a.ram, a.tree[p]) && i < ENTRIES && |p| < 3
    requires f !in a.tree.Values && p + [i] !in a.tree && (p == [] ==> i < 256) && f != a.tree[p]
    ensures UserKept(a, Built(a, p, i, f, want))
  {
    var b := Built(a, p, i, f, want);
    assert ParentEntryOk(a.ram, a.tree, p, i);
    forall q: seq<nat>, j: nat |
      UserEntry(a.ram, a.tree, q, j) && q + [j] in a.tree && |q| < 3 && (q == [] ==> j < 256)
      ensures UserEntry(b.ram, b.tree, q, j)
    {
      assert Apart(a.tree, p, q);
      KeptUser(a.ram, a.tree, p, i, f, want, q, j);
    }
  }

  /** The rights of a table that is there widened. */
  method Widen(m: Machine, s: Space, ghost p: seq<nat>, table: int, i: nat, want: Flags)
    requires SpaceSound(m, s) && s.root != 0 && p in s.tree && s.tree[p] == table && |p| < 3
    requires i < ENTRIES && (p == [] ==> i < 256) && p + [i] in s.tree && IsTable(m.ram, table)
    requires want.present && want.write && !want.huge && !want.nx
    modifies m`ram
    ensures SpaceSound(m, s)
    ensures Stepped(old(Seen(m, s)), Seen(m, s), s.root)
    ensures IsTable(m.ram, table) && m.ram[table].w[i].frame == old(m.ram)[table].w[i].frame
    ensures want.user ==> UserEntry(m.ram, s.tree, p, i)
  {
    ghost var ram, tree := m.ram, s.tree;
    assert table in tree.Values;
    var entry := m.ram[table].w[i];
    m.ram := PutEntry(m.ram, table, i, entry.(flags := OrFlags(entry.flags, want)));
    Widened(ram, s.root, tree, p, i, want);
    UpperPut(ram, s.root, tree, p, i, entry.(flags := OrFlags(entry.flags, want)));
    forall q: seq<nat>, j: nat | UserEntry(ram, tree, q, j) ensures UserEntry(m.ram, tree, q, j) {
      assert Apart(tree, p, q);
      StillUser(ram, m.ram, tree, p, i, q, j);
    }
  }

  /** One level of a walk that may create: the table under the entry built, or
      the parent widened. */
  method Descend(m: Machine, s: Space, ghost p: seq<nat>, table: int, i: nat, want: Flags)
    returns (result: VmmResult, next: int)
    requires SpaceSound(m, s) && s.root != 0 && p in s.tree && s.tree[p] == table && |p| < 3
    requires i < ENTRIES && (p == [] ==> i < 256)
    requires want.present && want.write && !want.huge && !want.nx
    modifies m`ram, m.pmm`freePages, m.pmm`free, m.pmm`hint, m.pmm.bitmap, s`tables, s`tree
    ensures SpaceSound(m, s)
    ensures Stepped(old(Seen(m, s)), Seen(m, s), s.root)
    ensures result == if p + [i] in old(s.tree) || old(m.pmm.free) != {} then VmmResult.Ok else NoMemory
    ensures result == NoMemory ==> m.pmm.free == {} && s.tree == old(s.tree) && p + [i] !in s.tree
    ensures result == VmmResult.Ok ==> p + [i] in s.tree && next == s.tree[p + [i]]
    ensures result == VmmResult.Ok ==>
              s.tree.Keys == old(s.tree).Keys + {p + [i]} &&
              |m.pmm.free| == |old(m.pmm.free)| - (if p + [i] in old(s.tree) then 0 else 1)
    ensures result == VmmResult.Ok && want.user ==> UserEntry(m.ram, s.tree, p, i)
  {
    next := 0;
    assert NodeOk(m.ram, s.tree, p) && ParentEntryOk(m.ram, s.tree, p, i);
    var entry := m.ram[table].w[i];
    if !entry.flags.present {
      var f := Build(m, s, p, table, i, want);
      if f == 0 { return NoMemory, next; }
      return VmmResult.Ok, f;
    }
    if entry.flags.huge { assert false; }
    Widen(m, s, p, table, i, want);
    return VmmResult.Ok, entry.frame;
  }

  lemma ExtendedCount(tree: Tables, p: seq<nat>, f: int)
    requires p !in tree
    ensures |tree[p := f]| == |tree| + 1
    ensures tree[p := f].Values == tree.Values + {f}
  {
    assert tree[p := f].Keys == tree.Keys + {p};
    forall x | x in tree.Values + {f} ensures x in tree[p := f].Values {
      if x != f {
        var q :| q in tree && tree[q] == x;
        assert tree[p := f][q] == x;
      } else {
        assert tree[p := f][p] == f;
      }
    }
  }

  // ----- the walk

  /** The addresses this model walks: the lower half, and those no walk starts
      from. */
  predicate Walkable(virt: nat) { LowerHalf(virt) || !Canonical(virt) || !Aligned(virt) }

  /** How many of the tables at the last `level` steps of the way down are missing. */
  ghost function Missing(tree: Tables, path: seq<nat>, level: nat): nat
    requires |path| == 4 && level <= 3
  {
    if level == 0 then 0
    else (if path[..4 - level] in tree then 0 else 1) + Missing(tree, path, level - 1)
  }

  /** A table put higher up leaves those further down as missing as they were. */
  lemma {:induction false} MissingSame(a: Tables, b: Tables, path: seq<nat>, level: nat, p: seq<nat>)
    requires |path| == 4 && level <= 3 && b.Keys == a.Keys + {p} && |p| < 4 - level
    ensures Missing(b, path, level) == Missing(a, path, level)
  {
    if level > 0 { MissingSame(a, b, path, level - 1, p); }
  }

  lemma MissingLess(a: Tables, b: Tables, path: seq<nat>, level: nat)
    requires |path| == 4 && 0 < level <= 3 && b.Keys == a.Keys + {path[..4 - level]}
    ensures Missing(a, path, level) == (if path[..4 - level] in a then 0 else 1) + Missing(b, path, level - 1)
  {
    MissingSame(a, b, path, level - 1, path[..4 - level]);
  }

  /** The tables below the top one on the first `n` steps of the way down. */
  ghost function Way(path: seq<nat>, n: nat): set<seq<nat>>
    requires n <= |path|
  {
    if n == 0 then {} else Way(path, n - 1) + {path[..n]}
  }

  /** The tables a walk has come by are there, and no others are new. */
  ghost predicate BuiltTo(a: Tables, b: Tables, path: seq<nat>, n: nat)
    requires n <= |path|
  {
    forall u {:trigger Asked(u)} :: Asked(u) ==> b.Keys == a.Keys + Way(path, n)
  }

  lemma BuiltNone(a: Tables, path: seq<nat>)
    ensures BuiltTo(a, a, path, 0)
  {
  }

  lemma BuiltSays(a: Tables, b: Tables, path: seq<nat>, n: nat)
    requires n <= |path| && BuiltTo(a, b, path, n)
    ensures b.Keys == a.Keys + Way(path, n)
  {
    assert Asked(0);
  }

  lemma BuiltNext(a: Tables, b: Tables, c: Tables, path: seq<nat>, n: nat)
    requires n < |path| && BuiltTo(a, b, path, n) && c.Keys == b.Keys + {path[..n] + [path[n]]}
    ensures BuiltTo(a, c, path, n + 1)
  {
    assert Asked(0);
    assert path[..n + 1] == path[..n] + [path[n]];
  }

  /** The way to an address has its tables, each that was missing made of one frame. */
  ghost predicate WayBuilt(a: View, b: View, virt: nat) {
    && BuiltTo(a.tree, b.tree, Indices(virt), |Indices(virt)| - 1)
    && |b.free| == |a.free| - Short(a.tree, Indices(virt))
  }

  /** How many tables of the whole way are missing. */
  ghost function Short(tree: Tables, path: seq<nat>): nat
    requires |path| == 4
  {
    |Way(path, |path| - 1) - tree.Keys|
  }

  lemma ShortIsMissing(tree: Tables, path: seq<nat>)
    requires |path| == 4
    ensures Short(tree, path) == Missing(tree, path, |path| - 1)
  {
    MissingSplit(tree, path, |path| - 1, 0);
  }

  lemma {:induction false} WayShort(path: seq<nat>, n: nat, q: seq<nat>)
    requires n <= |path| && q in Way(path, n)
    ensures 0 < |q| <= n && q == path[..|q|]
  {
    if q != path[..n] { WayShort(path, n - 1, q); }
  }

  /** Of the first `n` tables of the way, those that are missing. */
  lemma {:induction false} MissingSplit(tree: Tables, path: seq<nat>, n: nat, level: nat)
    requires |path| == 4 && n + level == 3
    ensures Missing(tree, path, |path| - 1) == |Way(path, n) - tree.Keys| + Missing(tree, path, level)
  {
    if n > 0 {
      MissingSplit(tree, path, n - 1, level + 1);
      OneStep(tree, path, n);
      MissingStep(tree, path, level + 1, n);
    } else {
      NoWay(tree, path);
    }
  }

  lemma NoWay(tree: Tables, path: seq<nat>)
    ensures |Way(path, 0) - tree.Keys| == 0
  {
    assert Way(path, 0) - tree.Keys == {};
  }

  lemma MissingStep(tree: Tables, path: seq<nat>, level: nat, n: nat)
    requires |path| == 4 && 0 < level <= 3 && n == 4 - level
    ensures Missing(tree, path, level) == (if path[..n] in tree then 0 else 1) + Missing(tree, path, level - 1)
  {
  }

  lemma OneStep(tree: Tables, path: seq<nat>, n: nat)
    requires 0 < n <= |path|
    ensures |Way(path, n) - tree.Keys| == |Way(path, n - 1) - tree.Keys| + (if path[..n] in tree then 0 else 1)
  {
    var before, q := Way(path, n - 1), path[..n];
    if q in before { WayShort(path, n - 1, q); }
    assert Way(path, n) == before + {q};
    assert before + {q} - tree.Keys == if q in tree then before - tree.Keys else before - tree.Keys + {q};
  }

  /** The loop of `walk` with `create`, on the indices of an address: down to the
      last table, building and widening on the way, or out of memory. */
  method WalkTables(m: Machine, s: Space, path: seq<nat>, leaf: Flags) returns (result: VmmResult, table: int)
    requires SpaceSound(m, s) && s.root != 0 && |path| == 4 && path[0] < 256
    requires forall k :: 0 <= k < 4 ==> path[k] < ENTRIES
    modifies m`ram, m.pmm`freePages, m.pmm`free, m.pmm`hint, m.pmm.bitmap, s`tables, s`tree
    ensures SpaceSound(m, s)
    ensures Stepped(old(Seen(m, s)), Seen(m, s), s.root)
    ensures result in {VmmResult.Ok, NoMemory}
    ensures result == VmmResult.Ok ==>
              && path[..3] in s.tree && table == s.tree[path[..3]]
              && (leaf.user ==> UserWay(m.ram, s.tree, path[..3]))
    ensures result == NoMemory ==> m.pmm.free == {} && path[..3] !in s.tree
    ensures result == NoMemory <==> |old(m.pmm.free)| < Missing(old(s.tree), path, 3)
    ensures result == VmmResult.Ok ==>
              && BuiltTo(old(s.tree), s.tree, path, |path| - 1)
              && |m.pmm.free| == |old(m.pmm.free)| - Missing(old(s.tree), path, 3)
  {
    ghost var v := Seen(m, s);
    SteppedNone(v, s.root);
    BuiltNone(v.tree, path);
    table := s.root;
    var level := 3;
    while level > 0
      invariant 0 <= level <= 3 && SpaceSound(m, s) && Walked(v, Seen(m, s), s.root, path, leaf, level, table)
    {
      result, table := WalkOn(m, s, path, leaf, level, table, v);
      if result != VmmResult.Ok { return; }
      level := level - 1;
    }
    assert path[..3] == [path[0], path[1], path[2]];
    result := VmmResult.Ok;
  }

  /** How far down a walk has come, and what it has cost. */
  ghost predicate Walked(v: View, now: View, root: int, path: seq<nat>, leaf: Flags, level: nat, table: int)
    requires |path| == 4 && level <= 3
  {
    && At(now.tree, path, 3 - level, table) && Stepped(v, now, root)
    && (leaf.user ==> WayUser(now.ram, now.tree, path, 3 - level))
    && |now.free| - Missing(now.tree, path, level) == |v.free| - Missing(v.tree, path, 3)
    && BuiltTo(v.tree, now.tree, path, 3 - level)
  }

  /** One turn of the loop. */
  method WalkOn(m: Machine, s: Space, path: seq<nat>, leaf: Flags, level: nat, table: int, ghost v: View)
    returns (result: VmmResult, next: int)
    requires SpaceSound(m, s) && s.root != 0 && |path| == 4 && path[0] < 256
    requires forall k :: 0 <= k < 4 ==> path[k] < ENTRIES
    requires 0 < level <= 3 && Walked(v, Seen(m, s), s.root, path, leaf, level, table)
    modifies m`ram, m.pmm`freePages, m.pmm`free, m.pmm`hint, m.pmm.bitmap, s`tables, s`tree
    ensures SpaceSound(m, s) && Stepped(v, Seen(m, s), s.root) && result in {VmmResult.Ok, NoMemory}
    ensures result == VmmResult.Ok ==> Walked(v, Seen(m, s), s.root, path, leaf, level - 1, next)
    ensures result == NoMemory ==>
              m.pmm.free == {} && path[..3] !in s.tree && |v.free| < Missing(v.tree, path, 3)
  {
    ghost var k := 3 - level;
    ghost var v1 := Seen(m, s);
    PathStep(path, k);
    result, next := Descend(m, s, path[..k], table, path[3 - level], ParentFlags(leaf));
    SteppedOnce(v, v1, Seen(m, s), s.root);
    if result != VmmResult.Ok {
      MissingBelow(m.ram, s.root, s.tree, path, k);
      return;
    }
    MissingLess(v1.tree, s.tree, path, level);
    BuiltNext(v.tree, v1.tree, s.tree, path, k);
    if leaf.user {
      WayLonger(v1, Seen(m, s), s.root, path, k);
    }
  }

  /** The same loop without `create`: it writes nothing, and reads nothing but tables. */
  method SeekTables(m: Machine, root: int, path: seq<nat>) returns (result: VmmResult, table: int)
    requires |path| == 4 && Traceable(m.ram, root, path)
    ensures result == SeekResult(Trace(m.ram, root, path))
    ensures result == VmmResult.Ok ==> table == Trace(m.ram, root, path).table && IsTable(m.ram, table)
  {
    TraceIsTable(m.ram, root, path);
    table := root;
    var level := 3;
    while level > 0
      invariant 0 <= level <= 3
      invariant Traceable(m.ram, table, path[3 - level..])
      invariant Trace(m.ram, table, path[3 - level..]) == Trace(m.ram, root, path)
    {
      assert path[3 - level..][1..] == path[3 - (level - 1)..];
      var entry := m.ram[table].w[path[3 - level]];
      if !entry.flags.present { return NotMapped, table; }
      if entry.flags.huge { return HugePage, table; }
      table := entry.frame;
      level := level - 1;
    }
    result := VmmResult.Ok;
  }

  function SeekResult(t: Trail): VmmResult {
    match t
    case Reached(_) => VmmResult.Ok
    case Absent => NotMapped
    case Large => HugePage
  }

  /** `walk` with `create`: it leaves what every page means as it was, however far
      it got. */
  method Walk(m: Machine, s: Space, virt: nat, leaf: Flags) returns (result: VmmResult, table: int, index: nat)
    requires SpaceSound(m, s) && Walkable(virt)
    modifies m`ram, m.pmm`freePages, m.pmm`free, m.pmm`hint, m.pmm.bitmap, s`tables, s`tree
    ensures SpaceSound(m, s) && s.root == old(s.root)
    ensures Stepped(old(Seen(m, s)), Seen(m, s), s.root)
    ensures result == NoSpace <==> s.root == 0
    ensures result == BadAddress <==> s.root != 0 && !(Canonical(virt) && Aligned(virt))
    ensures result == VmmResult.Ok ==>
              && LowerHalf(virt) && Indices(virt)[..3] in s.tree && table == s.tree[Indices(virt)[..3]] && index == Indices(virt)[3]
              && (leaf.user ==> UserWay(m.ram, s.tree, Indices(virt)[..3]))
    ensures result in {VmmResult.Ok, NoSpace, BadAddress, NoMemory}
    ensures result == NoMemory ==> m.pmm.free == {} && Indices(virt)[..3] !in s.tree
    ensures result == NoMemory <==> s.root != 0 && Page(virt) && |old(m.pmm.free)| < Missing(old(s.tree), Indices(virt), 3)
    ensures result == VmmResult.Ok ==> WayBuilt(old(Seen(m, s)), Seen(m, s), virt)
  {
    table, index := 0, 0;
    if s.root == 0 { return NoSpace, table, index; }
    if !Canonical(virt) || !Aligned(virt) { return BadAddress, table, index; }
    var path := Indices(virt);
    LowerIndices(virt);
    ShortIsMissing(s.tree, path);
    result, table := WalkTables(m, s, path, leaf);
    index := path[3];
  }

  /** What lies above a space's own half is the kernel's. */
  ghost predicate KernelAbove(ram: Ram, root: int) {
    root == 0 || exists kernel: set<int> :: KernelHalf(ram, root, kernel)
  }

  /** A page address a walk that writes nothing can be asked about: every one where the
      kernel's half is known, and otherwise those that do not lead there. */
  ghost predicate Askable(ram: Ram, root: int, virt: nat) { Walkable(virt) || KernelAbove(ram, root) }

  lemma AskedTrace(ram: Ram, free: set<int>, root: int, tables: nat, tree: Tables, virt: nat)
    requires SpaceOk(ram, free, root, tables, tree) && root != 0 && Askable(ram, root, virt)
    requires Canonical(virt) && Aligned(virt)
    ensures Traceable(ram, root, Indices(virt))
    ensures LowerHalf(virt) ==>
              EntryAt(ram, root, Indices(virt)) == Meaning(ram, tree, virt) &&
              Trace(ram, root, Indices(virt)) ==
                if Indices(virt)[..3] in tree then Reached(tree[Indices(virt)[..3]]) else Absent
    ensures !LowerHalf(virt) && EntryAt(ram, root, Indices(virt)).Some? ==>
              !EntryAt(ram, root, Indices(virt)).value.flags.user
  {
    if LowerHalf(virt) {
      LowerIndices(virt);
      LowerTrace(ram, root, tree, Indices(virt));
    } else {
      UpperIndices(virt);
      var kernel :| KernelHalf(ram, root, kernel);
      UpperTrace(ram, root, kernel, Indices(virt));
    }
  }

  /** `walk` without `create`. */
  method Seek(m: Machine, s: Space, virt: nat) returns (result: VmmResult, table: int, index: nat)
    requires SpaceSound(m, s) && Askable(m.ram, s.root, virt)
    ensures result == if s.root == 0 then NoSpace else if !(Canonical(virt) && Aligned(virt)) then BadAddress
                      else SeekResult(Trace(m.ram, s.root, Indices(virt)))
    ensures result == VmmResult.Ok ==>
              table == Trace(m.ram, s.root, Indices(virt)).table && IsTable(m.ram, table) && index == Indices(virt)[3]
    ensures s.root != 0 && Page(virt) ==>
              result == if Indices(virt)[..3] in s.tree then VmmResult.Ok else NotMapped
    ensures result == VmmResult.Ok && LowerHalf(virt) ==> Indices(virt)[..3] in s.tree && table == s.tree[Indices(virt)[..3]]
  {
    table, index := 0, 0;
    if s.root == 0 { return NoSpace, table, index; }
    if !Canonical(virt) || !Aligned(virt) { return BadAddress, table, index; }
    var path := Indices(virt);
    AskedTrace(m.ram, m.pmm.free, s.root, s.tables, s.tree, virt);
    result, table := SeekTables(m, s.root, path);
    index := path[3];
  }

  lemma UpperIndices(virt: nat)
    requires Canonical(virt) && !LowerHalf(virt)
    ensures 256 <= Indices(virt)[0]
  {
    TopIndex(virt);
  }

  lemma TopIndex(virt: nat)
    requires 0xFFFF_8000_0000_0000 <= virt < WORD
    ensures 256 <= virt / 0x80_0000_0000 % ENTRIES
  {
    var q := virt / 0x80_0000_0000;
    assert 0x1FF_FF00 <= q < 0x200_0000;
    assert q - 0x1FF_FE00 == q % 512;
  }

  lemma LowerIndices(virt: nat)
    requires LowerHalf(virt) && Aligned(virt)
    ensures Indices(virt)[0] < 256
  {
    IndicesFaithful(virt, virt);
  }

  /** The table `k` levels down the path. */
  ghost predicate At(tree: Tables, path: seq<nat>, k: nat, table: int) {
    k <= |path| && path[..k] in tree && tree[path[..k]] == table
  }

  lemma PathStep(path: seq<nat>, k: nat)
    requires k < |path|
    ensures path[..k + 1] == path[..k] + [path[k]] && (path[..k] == [] <==> k == 0)
  {
  }

  /** The first `k` entries on the way down carry the user bit. */
  ghost predicate WayUser(ram: Ram, tree: Tables, path: seq<nat>, k: nat)
    requires |path| == 4
  {
    && (k > 0 ==> UserEntry(ram, tree, [], path[0]))
    && (k > 1 ==> UserEntry(ram, tree, [path[0]], path[1]))
    && (k > 2 ==> UserEntry(ram, tree, [path[0], path[1]], path[2]))
  }

  lemma WayLonger(a: View, b: View, root: int, path: seq<nat>, k: nat)
    requires TreeOk(a.ram, root, a.tree) && |path| == 4 && path[0] < 256 && k < 3 && path[..k] in a.tree
    requires Stepped(a, b, root)
    requires WayUser(a.ram, a.tree, path, k) && UserEntry(b.ram, b.tree, path[..k], path[k])
    ensures WayUser(b.ram, b.tree, path, k + 1)
  {
    HeldWay(a.ram, root, a.tree, path, k);
    assert path[..k] == if k == 0 then [] else if k == 1 then [path[0]] else [path[0], path[1]];
  }

  /** The entries already walked through lead to tables of the tree. */
  lemma HeldWay(ram: Ram, root: int, tree: Tables, path: seq<nat>, k: nat)
    requires TreeOk(ram, root, tree) && |path| == 4 && k <= 3 && path[..k] in tree
    ensures k > 0 ==> [] + [path[0]] in tree
    ensures k > 1 ==> [path[0]] + [path[1]] in tree
    ensures k > 2 ==> [path[0], path[1]] + [path[2]] in tree
  {
    if k > 0 {
      assert NodeOk(ram, tree, path[..k]);
      assert path[..k][..k - 1] == path[..k - 1];
      HeldWay(ram, root, tree, path, k - 1);
      assert k == 1 ==> path[..1] == [] + [path[0]];
      assert k == 2 ==> path[..2] == [path[0]] + [path[1]];
      assert k == 3 ==> path[..3] == [path[0], path[1]] + [path[2]];
    }
  }

  /** Below a missing table every table is missing. */
  lemma MissingBelow(ram: Ram, root: int, tree: Tables, path: seq<nat>, k: nat)
    requires TreeOk(ram, root, tree) && |path| == 4 && k < 3 && path[..k + 1] !in tree
    ensures path[..3] !in tree
    decreases 3 - k
  {
    if k < 2 {
      assert NodeOk(ram, tree, path[..k + 2]);
      assert path[..k + 2][..k + 1] == path[..k + 1];
      MissingBelow(ram, root, tree, path, k + 1);
    }
  }

  // ----- the finite map a space refines

  /** What page `virt` means in a space. */
  ghost function Meaning(ram: Ram, tree: Tables, virt: nat): Option<Pte> { Leaf(ram, tree, Indices(virt)) }

  ghost predicate Page(virt: nat) { LowerHalf(virt) && Aligned(virt) }

  /** Every page but `virt` means what it did. */
  ghost predicate OnlyPage(ram: Ram, tree: Tables, ram': Ram, tree': Tables, virt: nat) {
    forall v {:trigger Meaning(ram', tree', v)} :: Page(v) && v != virt ==> Meaning(ram', tree', v) == Meaning(ram, tree, v)
  }

  /** Every path but one leads where it did. */
  ghost predicate OnlyLeaf(ram: Ram, tree: Tables, ram': Ram, tree': Tables, path: seq<nat>) {
    forall q: seq<nat> {:trigger Leaf(ram', tree', q)} :: |q| == 4 && q != path ==> Leaf(ram', tree', q) == Leaf(ram, tree, q)
  }

  /** A leaf entry rewritten: that page means the new entry and every other page
      what it did. */
  lemma LeafPut(ram: Ram, root: int, tree: Tables, virt: nat, e: Pte)
    requires TreeOk(ram, root, tree) && Page(virt) && Indices(virt)[..3] in tree
    requires e.flags.present && e.flags.user ==> UserWay(ram, tree, Indices(virt)[..3])
    ensures var p := Indices(virt)[..3];
            IsTable(ram, tree[p]) &&
            var ram' := PutEntry(ram, tree[p], Indices(virt)[3], e);
            && TreeOk(ram', root, tree)
            && Meaning(ram', tree, virt) == (if e.flags.present then Some(e) else None)
            && OnlyLeaf(ram, tree, ram', tree, Indices(virt))
            && OnlyPage(ram, tree, ram', tree, virt)
  {
    var path := Indices(virt);
    var p, i := path[..3], path[3];
    assert NodeOk(ram, tree, p);
    var ram' := PutEntry(ram, tree[p], i, e);
    forall q ensures NodeOk(ram', tree, q) { assert NodeOk(ram, tree, q); }
    forall q, j ensures ParentEntryOk(ram', tree, q, j) {
      assert ParentEntryOk(ram, tree, q, j) && Apart(tree, p, q);
    }
    forall q: seq<nat>, j: nat | UserEntry(ram, tree, q, j) && |q| < 3 ensures UserEntry(ram', tree, q, j) {
      assert Apart(tree, p, q);
    }
    forall q, j ensures LeafOk(ram', tree, q, j) {
      assert LeafOk(ram, tree, q, j) && Apart(tree, p, q);
    }
    forall w: seq<nat> | |w| == 4 && w != path ensures Leaf(ram', tree, w) == Leaf(ram, tree, w) {
      assert Apart(tree, p, w[..3]);
      assert w == w[..3] + [w[3]] && path == p + [i];
    }
    PagesFromLeaves(ram, tree, ram', tree, virt);
  }

  lemma PagesFromLeaves(ram: Ram, tree: Tables, ram': Ram, tree': Tables, virt: nat)
    requires Page(virt) && OnlyLeaf(ram, tree, ram', tree', Indices(virt))
    ensures OnlyPage(ram, tree, ram', tree', virt)
  {
    forall v | Page(v) && v != virt ensures Meaning(ram', tree', v) == Meaning(ram, tree, v) {
      IndicesFaithful(v, virt);
    }
  }

  /** `vmm_map`: exactly one page added, or, refused for any reason, none
      changed. */
  method Map(m: Machine, s: Space, virt: nat, phys: nat, flags: Flags) returns (result: VmmResult)
    requires SpaceSound(m, s) && Walkable(virt)
    modifies m`ram, m.pmm`freePages, m.pmm`free, m.pmm`hint, m.pmm.bitmap, s`tables, s`tree
    ensures SpaceSound(m, s) && s.root == old(s.root)
    ensures Grew(old(Seen(m, s)), Seen(m, s)) && UpperKept(old(m.ram), s.root, m.ram)
    ensures forall v {:trigger Meaning(m.ram, s.tree, v)} :: Page(v) ==>
              Meaning(m.ram, s.tree, v) ==
              if result == VmmResult.Ok && v == virt
              then Some(Pte(phys / PAGE_SIZE % 0x100_0000_0000, OrFlags(flags, NO_FLAGS.(present := true))))
              else Meaning(old(m.ram), old(s.tree), v)
    ensures if result == VmmResult.Ok then OnlyLeaf(old(m.ram), old(s.tree), m.ram, s.tree, Indices(virt))
            else SameLeaves(old(m.ram), old(s.tree), m.ram, s.tree)
    ensures result == VmmResult.Ok ==> Page(virt) && Aligned(phys) && Meaning(old(m.ram), old(s.tree), virt) == None
    ensures result == AlreadyMapped <==>
              Aligned(phys) && s.root != 0 && Page(virt) && Meaning(old(m.ram), old(s.tree), virt) != None
    ensures result == BadAddress <==> !Aligned(phys) || (s.root != 0 && !(Canonical(virt) && Aligned(virt)))
    ensures result == NoSpace <==> Aligned(phys) && s.root == 0
    ensures result == NoMemory ==> m.pmm.free == {}
    ensures result == NoMemory <==>
              Aligned(phys) && s.root != 0 && Page(virt) && |old(m.pmm.free)| < Missing(old(s.tree), Indices(virt), 3)
    ensures result in {VmmResult.Ok, AlreadyMapped, BadAddress, NoSpace, NoMemory}
    ensures result == VmmResult.Ok ==> WayBuilt(old(Seen(m, s)), Seen(m, s), virt)
    ensures result == VmmResult.Ok ==> MappedAt(m.ram, s.root, virt, phys, flags)
    ensures s.root != 0 ==> WalksKept(old(m.ram), m.ram, s.root, if result == VmmResult.Ok then {virt} else {})
  {
    result := MapLeaf(m, s, virt, phys, flags);
    if s.root != 0 { MapWalks(old(Seen(m, s)), Seen(m, s), s.root, virt, phys, flags, result); }
  }

  /** The walk at an address finds the entry mapped there, and with the rights asked for. */
  ghost predicate MappedAt(ram: Ram, root: int, virt: nat, phys: nat, flags: Flags) {
    EntryFor(ram, root, virt) == Some(Pte(phys / PAGE_SIZE % 0x100_0000_0000, OrFlags(flags, NO_FLAGS.(present := true)))) &&
    RightsFor(ram, root, virt) == Some(Rights(phys / PAGE_SIZE % 0x100_0000_0000, flags.write, flags.user, flags.nx))
  }

  /** The walk at every page of the lower half but those finds what it did. */
  ghost predicate WalksKept(ram: Ram, ram': Ram, root: int, but: set<nat>) {
    forall v: nat {:trigger EntryFor(ram', root, v)} :: Page(v) && v !in but ==> EntryFor(ram', root, v) == EntryFor(ram, root, v)
  }

  lemma MapWalks(a: View, b: View, root: int, virt: nat, phys: nat, flags: Flags, result: VmmResult)
    requires TreeOk(a.ram, root, a.tree) && TreeOk(b.ram, root, b.tree)
    requires result == VmmResult.Ok ==> Page(virt)
    requires forall v {:trigger Meaning(b.ram, b.tree, v)} :: Page(v) ==>
               Meaning(b.ram, b.tree, v) ==
               if result == VmmResult.Ok && v == virt
               then Some(Pte(phys / PAGE_SIZE % 0x100_0000_0000, OrFlags(flags, NO_FLAGS.(present := true))))
               else Meaning(a.ram, a.tree, v)
    ensures result == VmmResult.Ok ==> MappedAt(b.ram, root, virt, phys, flags)
    ensures WalksKept(a.ram, b.ram, root, if result == VmmResult.Ok then {virt} else {})
  {
    WalksAreLeaves(a.ram, root, a.tree);
    WalksAreLeaves(b.ram, root, b.tree);
    forall v: nat | Page(v) && !(result == VmmResult.Ok && v == virt) ensures EntryFor(b.ram, root, v) == EntryFor(a.ram, root, v) {
      assert Meaning(b.ram, b.tree, v) == Meaning(a.ram, a.tree, v);
      assert EntryFor(a.ram, root, v) == Leaf(a.ram, a.tree, Indices(v));
    }
    if result == VmmResult.Ok {
      assert Meaning(b.ram, b.tree, virt).Some?;
      WalkIsLeaf(b.ram, root, b.tree, virt);
    }
  }

  /** The way down, and the entry. */
  method MapLeaf(m: Machine, s: Space, virt: nat, phys: nat, flags: Flags) returns (result: VmmResult)
    requires SpaceSound(m, s) && Walkable(virt)
    modifies m`ram, m.pmm`freePages, m.pmm`free, m.pmm`hint, m.pmm.bitmap, s`tables, s`tree
    ensures SpaceSound(m, s) && s.root == old(s.root)
    ensures Grew(old(Seen(m, s)), Seen(m, s)) && UpperKept(old(m.ram), s.root, m.ram)
    ensures forall v {:trigger Meaning(m.ram, s.tree, v)} :: Page(v) ==>
              Meaning(m.ram, s.tree, v) ==
              if result == VmmResult.Ok && v == virt
              then Some(Pte(phys / PAGE_SIZE % 0x100_0000_0000, OrFlags(flags, NO_FLAGS.(present := true))))
              else Meaning(old(m.ram), old(s.tree), v)
    ensures if result == VmmResult.Ok then OnlyLeaf(old(m.ram), old(s.tree), m.ram, s.tree, Indices(virt))
            else SameLeaves(old(m.ram), old(s.tree), m.ram, s.tree)
    ensures result == VmmResult.Ok ==> Page(virt) && Aligned(phys) && Meaning(old(m.ram), old(s.tree), virt) == None
    ensures result == AlreadyMapped <==>
              Aligned(phys) && s.root != 0 && Page(virt) && Meaning(old(m.ram), old(s.tree), virt) != None
    ensures result == BadAddress <==> !Aligned(phys) || (s.root != 0 && !(Canonical(virt) && Aligned(virt)))
    ensures result == NoSpace <==> Aligned(phys) && s.root == 0
    ensures result == NoMemory ==> m.pmm.free == {}
    ensures result == NoMemory <==>
              Aligned(phys) && s.root != 0 && Page(virt) && |old(m.pmm.free)| < Missing(old(s.tree), Indices(virt), 3)
    ensures result in {VmmResult.Ok, AlreadyMapped, BadAddress, NoSpace, NoMemory}
    ensures result == VmmResult.Ok ==> WayBuilt(old(Seen(m, s)), Seen(m, s), virt)
  {
    if !Aligned(phys) { return BadAddress; }
    ghost var was := Seen(m, s);
    var table, index;
    result, table, index := Walk(m, s, virt, flags);
    forall v | Page(v) ensures Meaning(m.ram, s.tree, v) == Meaning(was.ram, was.tree, v) { }
    if result != VmmResult.Ok { return; }
    ghost var p := Indices(virt)[..3];
    assert NodeOk(m.ram, s.tree, p);
    if m.ram[table].w[index].flags.present {
      assert Meaning(m.ram, s.tree, virt) != None;
      return AlreadyMapped;
    }
    var entry := Pte(phys / PAGE_SIZE % 0x100_0000_0000, OrFlags(flags, NO_FLAGS.(present := true)));
    assert Meaning(m.ram, s.tree, virt) == None;
    LeafPut(m.ram, s.root, s.tree, virt, entry);
    PutKept(was, Seen(m, s), p, index, entry);
    UpperPut(m.ram, s.root, s.tree, p, index, entry);
    m.ram := PutEntry(m.ram, table, index, entry);
  }

  /** A leaf written in a table of the grown tree touches nothing else. */
  lemma PutKept(a: View, b: View, p: seq<nat>, i: nat, e: Pte)
    requires Grew(a, b) && p in b.tree && IsTable(b.ram, b.tree[p]) && i < ENTRIES
    ensures Grew(a, b.(ram := PutEntry(b.ram, b.tree[p], i, e)))
  {
    var c := b.(ram := PutEntry(b.ram, b.tree[p], i, e));
    assert b.tree[p] in b.tree.Values;
    forall q ensures TableKept(a, c, q) { assert TableKept(a, b, q); }
    forall f ensures FrameKept(a, c, f) { assert FrameKept(a, b, f); }
  }

  /** `vmm_share_kernel`: the kernel's half of the other space's top-level table,
      entry by entry. No page of the lower half means anything else. */
  method ShareKernel(m: Machine, s: Space, from: int) returns (result: VmmResult)
    requires SpaceSound(m, s) && (from != 0 ==> IsTable(m.ram, from)) && from !in s.tree.Values
    modifies m`ram
    ensures SpaceSound(m, s) && SameLeaves(old(m.ram), s.tree, m.ram, s.tree)
    ensures result == if s.root == 0 || from == 0 then NoSpace else VmmResult.Ok
    ensures KeptOutside(old(m.ram), m.ram, if result == VmmResult.Ok then {s.root} else {})
    ensures result == VmmResult.Ok ==> SharesKernel(m.ram, s.root, from)
  {
    if s.root == 0 || from == 0 { return NoSpace; }
    ghost var ram := m.ram;
    assert NodeOk(ram, s.tree, []);
    assert s.root in s.tree.Values;
    var i := ENTRIES / 2;
    while i < ENTRIES
      invariant 256 <= i <= ENTRIES && IsTable(m.ram, from) && IsTable(m.ram, s.root)
      invariant forall f :: f in ram && f != s.root ==> f in m.ram && m.ram[f] == ram[f]
      invariant forall j :: 0 <= j < ENTRIES && !(256 <= j < i) ==> m.ram[s.root].w[j] == ram[s.root].w[j]
      invariant forall j :: 256 <= j < i ==> m.ram[s.root].w[j] == ram[from].w[j]
    {
      m.ram := PutEntry(m.ram, s.root, i, m.ram[from].w[i]);
      i := i + 1;
    }
    UpperChanged(ram, m.ram, s.root, s.tree);
    return VmmResult.Ok;
  }

  /** The kernel's half is the same in both top-level tables. */
  ghost predicate SharesKernel(ram: Ram, root: int, from: int) {
    IsTable(ram, root) && IsTable(ram, from) && forall i :: 256 <= i < ENTRIES ==> ram[root].w[i] == ram[from].w[i]
  }

  lemma UpperChanged(ram: Ram, ram': Ram, root: int, tree: Tables)
    requires TreeOk(ram, root, tree) && IsTable(ram', root) && IsTable(ram, root)
    requires forall f :: f in ram && f != root ==> f in ram' && ram'[f] == ram[f]
    requires forall j :: 0 <= j < 256 ==> ram'[root].w[j] == ram[root].w[j]
    ensures TreeOk(ram', root, tree) && SameLeaves(ram, tree, ram', tree)
  {
    forall q ensures NodeOk(ram', tree, q) { assert NodeOk(ram, tree, q); }
    forall q, j ensures ParentEntryOk(ram', tree, q, j) {
      assert NodeOk(ram, tree, q) && ParentEntryOk(ram, tree, q, j) && Apart(tree, q, []);
    }
    forall q, j ensures LeafOk(ram', tree, q, j) {
      assert NodeOk(ram, tree, q) && LeafOk(ram, tree, q, j) && Apart(tree, q, []);
      if q in tree && |q| == 3 && UserWay(ram, tree, q) {
        Prefixes(ram, tree, q);
        assert Apart(tree, [q[0]], []) && Apart(tree, [q[0], q[1]], []);
        assert NodeOk(ram, tree, [q[0]]) && NodeOk(ram, tree, [q[0], q[1]]);
      }
    }
    forall path: seq<nat> | |path| == 4 ensures Leaf(ram', tree, path) == Leaf(ram, tree, path) {
      assert Apart(tree, path[..3], []) && NodeOk(ram, tree, path[..3]);
    }
  }

  /** `vmm_unmap`: exactly one page removed, or none changed. */
  method Unmap(m: Machine, s: Space, virt: nat) returns (result: VmmResult)
    requires SpaceSound(m, s) && Walkable(virt)
    modifies m`ram
    ensures SpaceSound(m, s)
    ensures KeptOutside(old(m.ram), m.ram, s.tree.Values) && UpperKept(old(m.ram), s.root, m.ram)
    ensures forall v {:trigger Meaning(m.ram, s.tree, v)} :: Page(v) ==>
              Meaning(m.ram, s.tree, v) == if result == VmmResult.Ok && v == virt then None else Meaning(old(m.ram), s.tree, v)
    ensures result == VmmResult.Ok <==> s.root != 0 && Page(virt) && Meaning(old(m.ram), s.tree, virt) != None
    ensures result == NoSpace <==> s.root == 0
    ensures result == BadAddress <==> s.root != 0 && !(Canonical(virt) && Aligned(virt))
    ensures s.root != 0 ==> WalksKept(old(m.ram), m.ram, s.root, if result == VmmResult.Ok then {virt} else {})
    ensures result == VmmResult.Ok ==> EntryFor(old(m.ram), s.root, virt) != None && EntryFor(m.ram, s.root, virt) == None
  {
    result := UnmapLeaf(m, s, virt);
    if s.root != 0 {
      WalksAreLeaves(old(m.ram), s.root, s.tree);
      UnmapWalks(old(m.ram), m.ram, s.root, s.tree, if result == VmmResult.Ok then {virt} else {});
    }
  }

  lemma UnmapWalks(ram: Ram, ram': Ram, root: int, tree: Tables, but: set<nat>)
    requires TreeOk(ram, root, tree) && TreeOk(ram', root, tree)
    requires forall v {:trigger Meaning(ram', tree, v)} :: Page(v) ==>
               Meaning(ram', tree, v) == if v in but then None else Meaning(ram, tree, v)
    ensures WalksKept(ram, ram', root, but) && forall v :: v in but && Page(v) ==> EntryFor(ram', root, v) == None
  {
    WalksAreLeaves(ram, root, tree);
    WalksAreLeaves(ram', root, tree);
    forall v: nat | Page(v) ensures EntryFor(ram', root, v) == if v in but then None else EntryFor(ram, root, v) {
      assert Meaning(ram', tree, v) == if v in but then None else Meaning(ram, tree, v);
      assert EntryFor(ram, root, v) == Leaf(ram, tree, Indices(v));
    }
  }

  method UnmapLeaf(m: Machine, s: Space, virt: nat) returns (result: VmmResult)
    requires SpaceSound(m, s) && Walkable(virt)
    modifies m`ram
    ensures SpaceSound(m, s)
    ensures KeptOutside(old(m.ram), m.ram, s.tree.Values) && UpperKept(old(m.ram), s.root, m.ram)
    ensures forall v {:trigger Meaning(m.ram, s.tree, v)} :: Page(v) ==>
              Meaning(m.ram, s.tree, v) == if result == VmmResult.Ok && v == virt then None else Meaning(old(m.ram), s.tree, v)
    ensures result == VmmResult.Ok <==> s.root != 0 && Page(virt) && Meaning(old(m.ram), s.tree, virt) != None
    ensures result == NoSpace <==> s.root == 0
    ensures result == BadAddress <==> s.root != 0 && !(Canonical(virt) && Aligned(virt))
  {
    var table, index;
    result, table, index := Seek(m, s, virt);
    if result != VmmResult.Ok { return; }
    ghost var p := Indices(virt)[..3];
    assert NodeOk(m.ram, s.tree, p);
    if !m.ram[table].w[index].flags.present {
      assert Meaning(m.ram, s.tree, virt) == None;
      return NotMapped;
    }
    assert Meaning(m.ram, s.tree, virt) != None;
    assert table in s.tree.Values;
    LeafPut(m.ram, s.root, s.tree, virt, ZERO);
    UpperPut(m.ram, s.root, s.tree, p, index, ZERO);
    m.ram := PutEntry(m.ram, table, index, ZERO);
  }

  lemma PageBounds(virt: nat)
    ensures Aligned(virt - virt % PAGE_SIZE) && (Canonical(virt - virt % PAGE_SIZE) <==> Canonical(virt))
    ensures LowerHalf(virt - virt % PAGE_SIZE) <==> LowerHalf(virt)
  {
  }

  /** What `vmm_translate` finds at an address, in whichever half it lies. */
  ghost function Found(ram: Ram, root: int, virt: nat): Option<Pte> {
    if root != 0 && Canonical(virt) then EntryAt(ram, root, Indices(virt - virt % PAGE_SIZE)) else None
  }

  /** `vmm_translate`: the entry of the page of `virt`, and the offset into it. In the
      lower half that is what the page means in the space's own tree; in the upper half
      it is the kernel's, and never a program's. */
  method Translate(m: Machine, s: Space, virt: nat) returns (result: VmmResult, phys: nat, flags: Flags)
    requires SpaceSound(m, s) && Askable(m.ram, s.root, virt - virt % PAGE_SIZE)
    ensures result == VmmResult.Ok <==> Found(m.ram, s.root, virt).Some?
    ensures result == VmmResult.Ok ==>
              var e := Found(m.ram, s.root, virt).value;
              phys == e.frame * PAGE_SIZE + virt % PAGE_SIZE && flags == e.flags
    ensures result == BadAddress <==> s.root != 0 && !Canonical(virt)
    ensures LowerHalf(virt) && s.root != 0 ==> Found(m.ram, s.root, virt) == Meaning(m.ram, s.tree, virt - virt % PAGE_SIZE)
    ensures result == VmmResult.Ok && !LowerHalf(virt) ==> !flags.user
    ensures s.root != 0 && Canonical(virt) ==> Found(m.ram, s.root, virt) == EntryFor(m.ram, s.root, virt)
    ensures result == NoSpace <==> s.root == 0
    ensures result == HugePage <==> s.root != 0 && Canonical(virt) && MeetsLarge(m.ram, s.root, virt, 3)
    ensures result in {VmmResult.Ok, BadAddress, NoSpace, HugePage, NotMapped}
  {
    WalkOfPage(m.ram, s.root, virt);
    WalkIsEntryAt(m.ram, s.root, virt - virt % PAGE_SIZE);
    phys, flags := 0, NO_FLAGS;
    var page := virt - virt % PAGE_SIZE;
    var table, index;
    PageBounds(virt);
    if s.root != 0 && Canonical(virt) { AskedTrace(m.ram, m.pmm.free, s.root, s.tables, s.tree, page); }
    result, table, index := Seek(m, s, page);
    if result != VmmResult.Ok { return; }
    var entry := m.ram[table].w[index];
    if !entry.flags.present { return NotMapped, phys, flags; }
    phys, flags := entry.frame * PAGE_SIZE + virt % PAGE_SIZE, entry.flags;
  }
}
