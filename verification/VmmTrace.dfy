// Following the entries from a top-level table down, and what is known of the two
// halves it may lead into: a program's own tree, and the kernel's, which every
// program shares (kernel/src/vmm.c:61-109, kernel/src/vmm.c:176-192).
module VmmTrace {
  import opened Common
  import opened Pmm
  import opened Paging
  import opened Vmm

  /** Where the loop of a `walk` that may not create ends up: the last table, or why
      there is none. */
  datatype Trail = Reached(table: int) | Absent | Large

  ghost function Trace(ram: Ram, table: int, path: seq<nat>): Trail
    decreases |path|
  {
    if |path| <= 1 then Reached(table)
    else if !IsTable(ram, table) || path[0] >= ENTRIES || !ram[table].w[path[0]].flags.present then Absent
    else if ram[table].w[path[0]].flags.huge then Large
    else Trace(ram, ram[table].w[path[0]].frame, path[1..])
  }

  /** Everything that loop reads is a table. */
  ghost predicate Traceable(ram: Ram, table: int, path: seq<nat>)
    decreases |path|
  {
    path != [] && IsTable(ram, table) && path[0] < ENTRIES &&
    (|path| > 1 && ram[table].w[path[0]].flags.present && !ram[table].w[path[0]].flags.huge ==>
       Traceable(ram, ram[table].w[path[0]].frame, path[1..]))
  }

  lemma {:induction false} TraceIsTable(ram: Ram, table: int, path: seq<nat>)
    requires Traceable(ram, table, path)
    ensures Trace(ram, table, path).Reached? ==> IsTable(ram, Trace(ram, table, path).table)
    decreases |path|
  {
    if |path| > 1 && ram[table].w[path[0]].flags.present && !ram[table].w[path[0]].flags.huge {
      TraceIsTable(ram, ram[table].w[path[0]].frame, path[1..]);
    }
  }

  /** The entry an address has, when it is present. */
  ghost function EntryAt(ram: Ram, root: int, path: seq<nat>): Option<Pte>
    requires |path| == 4
  {
    var t := Trace(ram, root, path);
    if t.Reached? && IsTable(ram, t.table) && path[3] < ENTRIES && ram[t.table].w[path[3]].flags.present
    then Some(ram[t.table].w[path[3]]) else None
  }

  // ----- the program's half

  /** Table `p` of the tree, traced from. */
  lemma {:induction false} TraceFrom(ram: Ram, root: int, tree: Tables, p: seq<nat>, path: seq<nat>)
    requires TreeOk(ram, root, tree) && p in tree && path != [] && |p| + |path| == 4
    requires (p == [] ==> path[0] < 256) && forall k :: 0 <= k < |path| ==> path[k] < ENTRIES
    ensures Traceable(ram, tree[p], path)
    ensures Trace(ram, tree[p], path) ==
              if p + path[..|path| - 1] in tree then Reached(tree[p + path[..|path| - 1]]) else Absent
    decreases |path|
  {
    assert NodeOk(ram, tree, p);
    if |path| == 1 {
      assert p + path[..0] == p;
    } else {
      assert ParentEntryOk(ram, tree, p, path[0]);
      var next, rest := p + [path[0]], path[1..];
      assert p + path[..|path| - 1] == next + rest[..|rest| - 1];
      if next in tree {
        TraceFrom(ram, root, tree, next, rest);
      } else {
        NoneBelow(ram, root, tree, next, rest[..|rest| - 1]);
      }
    }
  }

  lemma {:induction false} NoneBelow(ram: Ram, root: int, tree: Tables, p: seq<nat>, rest: seq<nat>)
    requires TreeOk(ram, root, tree) && p != [] && p !in tree
    ensures p + rest !in tree
    decreases |rest|
  {
    if rest == [] {
      assert p + rest == p;
    } else {
      NoneBelow(ram, root, tree, p, rest[..|rest| - 1]);
      assert NodeOk(ram, tree, p + rest);
      assert (p + rest)[..|p + rest| - 1] == p + rest[..|rest| - 1];
    }
  }

  /** In the lower half the loop reaches exactly the tables of the tree. */
  lemma LowerTrace(ram: Ram, root: int, tree: Tables, path: seq<nat>)
    requires TreeOk(ram, root, tree) && |path| == 4 && path[0] < 256 && forall k :: 0 <= k < 4 ==> path[k] < ENTRIES
    ensures Traceable(ram, root, path)
    ensures Trace(ram, root, path) == if path[..3] in tree then Reached(tree[path[..3]]) else Absent
    ensures EntryAt(ram, root, path) == Leaf(ram, tree, path)
  {
    var top := [];
    TraceFrom(ram, root, tree, top, path);
    assert top + path[..3] == path[..3];
    assert NodeOk(ram, tree, path[..3]);
  }

  // ----- the kernel's half

  /** What an entry of the kernel's leads to: a page no program may use, a large page,
      or a table of such entries. `kernel` has every such table. */
  ghost predicate KernelLink(ram: Ram, e: Pte, level: nat, kernel: set<int>)
    decreases level, 0
  {
    e.flags.present ==>
      if level == 0 then !e.flags.user else e.flags.huge || KernelTable(ram, e.frame, level - 1, kernel)
  }

  ghost predicate KernelTable(ram: Ram, f: int, level: nat, kernel: set<int>)
    decreases level, 1
  {
    f in kernel && IsTable(ram, f) &&
    forall i {:trigger ram[f].w[i]} :: 0 <= i < ENTRIES ==> KernelLink(ram, ram[f].w[i], level, kernel)
  }

  /** The upper half of a top-level table is the kernel's. */
  ghost predicate KernelHalf(ram: Ram, root: int, kernel: set<int>) {
    IsTable(ram, root) &&
    forall i {:trigger ram[root].w[i]} :: 256 <= i < ENTRIES ==> KernelLink(ram, ram[root].w[i], 3, kernel)
  }

  /** Traced from a table of the kernel's, no page is a program's. */
  lemma {:induction false} KernelTrace(ram: Ram, f: int, level: nat, kernel: set<int>, path: seq<nat>)
    requires KernelTable(ram, f, level, kernel) && |path| == level + 1
    requires forall k :: 0 <= k < |path| ==> path[k] < ENTRIES
    ensures Traceable(ram, f, path)
    ensures var t := Trace(ram, f, path);
            t.Reached? ==>
              IsTable(ram, t.table) &&
              var e := ram[t.table].w[path[level]]; e.flags.present ==> !e.flags.user
    decreases level
  {
    var e := ram[f].w[path[0]];
    assert KernelLink(ram, e, level, kernel);
    if level > 0 && e.flags.present && !e.flags.huge {
      KernelTrace(ram, e.frame, level - 1, kernel, path[1..]);
    }
    TraceIsTable(ram, f, path);
  }

  /** No address of the upper half is a program's to use. */
  lemma UpperTrace(ram: Ram, root: int, kernel: set<int>, path: seq<nat>)
    requires KernelHalf(ram, root, kernel) && |path| == 4 && 256 <= path[0]
    requires forall k :: 0 <= k < 4 ==> path[k] < ENTRIES
    ensures Traceable(ram, root, path)
    ensures EntryAt(ram, root, path).Some? ==> !EntryAt(ram, root, path).value.flags.user
  {
    var e := ram[root].w[path[0]];
    assert KernelLink(ram, e, 3, kernel);
    if e.flags.present && !e.flags.huge {
      KernelTrace(ram, e.frame, 2, kernel, path[1..]);
    }
  }

  // ----- what keeps it

  lemma {:induction false} KernelTableKept(ram: Ram, ram': Ram, f: int, level: nat, kernel: set<int>)
    requires KernelTable(ram, f, level, kernel)
    requires forall g :: g in kernel && IsTable(ram, g) ==> g in ram' && ram'[g] == ram[g]
    ensures KernelTable(ram', f, level, kernel)
    decreases level
  {
    forall i | 0 <= i < ENTRIES ensures KernelLink(ram', ram'[f].w[i], level, kernel) {
      LinkKept(ram, ram', ram[f].w[i], level, kernel);
    }
  }

  lemma {:induction false} LinkKept(ram: Ram, ram': Ram, e: Pte, level: nat, kernel: set<int>)
    requires KernelLink(ram, e, level, kernel)
    requires forall g :: g in kernel && IsTable(ram, g) ==> g in ram' && ram'[g] == ram[g]
    ensures KernelLink(ram', e, level, kernel)
    decreases level, 0
  {
    if level > 0 && e.flags.present && !e.flags.huge { KernelTableKept(ram, ram', e.frame, level - 1, kernel); }
  }

  /** Another top-level table with the same upper half, in memory where the kernel's
      tables are as they were. */
  lemma KernelHalfKept(ram: Ram, root: int, ram': Ram, root': int, kernel: set<int>)
    requires KernelHalf(ram, root, kernel) && IsTable(ram', root')
    requires forall i :: 256 <= i < ENTRIES ==> ram'[root'].w[i] == ram[root].w[i]
    requires forall g :: g in kernel && IsTable(ram, g) ==> g in ram' && ram'[g] == ram[g]
    ensures KernelHalf(ram', root', kernel)
  {
    forall i | 256 <= i < ENTRIES ensures KernelLink(ram', ram'[root'].w[i], 3, kernel) {
      LinkKept(ram, ram', ram[root].w[i], 3, kernel);
    }
  }
}
