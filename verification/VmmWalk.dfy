// The walk the processor makes, from the bits of an address and nothing else, and what it
// has to do with the paths of indices the operations are specified by
// (section 4.5 of the Intel SDM, volume 3A; kernel/src/vmm.c:61-109).
module VmmWalk {
  import opened Common
  import opened Pmm
  import opened Paging
  import opened Vmm
  import opened VmmTrace

  // ----- the nine bits of a level

  /** What one entry at `level` covers: a page, and 512 times as much with every level. */
  ghost function Reach(level: nat): nat {
    if level == 0 then 0x1000 else ENTRIES * Reach(level - 1)
  }

  lemma {:induction false} ReachPositive(level: nat)
    ensures Reach(level) > 0
  {
    if level > 0 { ReachPositive(level - 1); }
  }

  /** The entry an address selects at `level`. */
  ghost function Slot(virt: nat, level: nat): (i: nat)
    ensures i < ENTRIES
  {
    ReachPositive(level);
    virt / Reach(level) % ENTRIES
  }

  lemma Reaches()
    ensures Reach(0) == 0x1000 && Reach(1) == 0x20_0000 && Reach(2) == 0x4000_0000 && Reach(3) == 0x80_0000_0000
  {
    assert Reach(1) == ENTRIES * Reach(0);
    assert Reach(2) == ENTRIES * Reach(1);
    assert Reach(3) == ENTRIES * Reach(2);
  }

  /** The path of an address lists its slots, the top level first. */
  lemma PathIsSlots(virt: nat, k: nat)
    requires k < 4
    ensures Indices(virt)[k] == Slot(virt, 3 - k)
  {
    Reaches();
  }

  /** A lower-half page is what its path spells in base 512. */
  lemma PathSpells(virt: nat)
    requires LowerHalf(virt) && Aligned(virt)
    ensures var p := Indices(virt);
            virt == (((p[0] * ENTRIES + p[1]) * ENTRIES + p[2]) * ENTRIES + p[3]) * PAGE_SIZE
  {
    FromIndices(virt);
  }

  // ----- walking by the address

  /** The entry at the end of the walk, when nothing on the way is absent or large. */
  ghost function Descend(ram: Ram, table: int, virt: nat, level: nat): Option<Pte>
    decreases level
  {
    if !IsTable(ram, table) || !ram[table].w[Slot(virt, level)].flags.present then None
    else
      var e := ram[table].w[Slot(virt, level)];
      if level == 0 then Some(e) else if e.flags.huge then None else Descend(ram, e.frame, virt, level - 1)
  }

  /** Whether the walk meets an entry that maps a large page instead of leading to a table. */
  ghost predicate MeetsLarge(ram: Ram, table: int, virt: nat, level: nat)
    decreases level
  {
    level > 0 && IsTable(ram, table) &&
    var e := ram[table].w[Slot(virt, level)];
    e.flags.present && (e.flags.huge || MeetsLarge(ram, e.frame, virt, level - 1))
  }

  /** What the processor lets a program do with an address: every level may take away. */
  ghost function Processor(ram: Ram, table: int, virt: nat, level: nat, rights: Rights): Option<Rights>
    decreases level
  {
    if !IsTable(ram, table) || !ram[table].w[Slot(virt, level)].flags.present then None
    else
      var e := ram[table].w[Slot(virt, level)];
      var r := Rights(e.frame, rights.write && e.flags.write, rights.user && e.flags.user, rights.nx || e.flags.nx);
      if level == 0 then Some(r) else Processor(ram, e.frame, virt, level - 1, r)
  }

  /** The walk of an address, from the top-level table of a space. */
  ghost function EntryFor(ram: Ram, root: int, virt: nat): Option<Pte> { Descend(ram, root, virt, 3) }

  ghost function RightsFor(ram: Ram, root: int, virt: nat): Option<Rights> {
    Processor(ram, root, virt, 3, Rights(root, true, true, false))
  }

  /** An entry with the rights it has by itself. */
  ghost function OwnRights(e: Pte): Rights { Rights(e.frame, e.flags.write, e.flags.user, e.flags.nx) }

  ghost predicate Spells(path: seq<nat>, virt: nat, level: nat) {
    |path| == level + 1 && forall k :: 0 <= k <= level ==> path[k] == Slot(virt, level - k)
  }

  lemma {:induction false} WalkTraces(ram: Ram, table: int, virt: nat, level: nat, path: seq<nat>)
    requires Spells(path, virt, level)
    ensures Descend(ram, table, virt, level) ==
            var t := Trace(ram, table, path);
            if t.Reached? && IsTable(ram, t.table) && ram[t.table].w[path[level]].flags.present
            then Some(ram[t.table].w[path[level]]) else None
    ensures Trace(ram, table, path) == Large <==> MeetsLarge(ram, table, virt, level)
    decreases level
  {
    assert path[0] == Slot(virt, level);
    assert MeetsLarge(ram, table, virt, level) ==> level > 0;
    if level > 0 && IsTable(ram, table) && ram[table].w[path[0]].flags.present && !ram[table].w[path[0]].flags.huge {
      WalkTraces(ram, ram[table].w[path[0]].frame, virt, level - 1, path[1..]);
    }
  }

  lemma {:induction false} ProcessorTraces(ram: Ram, table: int, virt: nat, level: nat, path: seq<nat>, rights: Rights)
    requires Spells(path, virt, level)
    ensures Processor(ram, table, virt, level, rights) == Hardware(ram, table, path, rights)
    decreases level
  {
    assert path[0] == Slot(virt, level);
    if IsTable(ram, table) && ram[table].w[path[0]].flags.present {
      var e := ram[table].w[path[0]];
      var r := Rights(e.frame, rights.write && e.flags.write, rights.user && e.flags.user, rights.nx || e.flags.nx);
      if level > 0 {
        ProcessorTraces(ram, e.frame, virt, level - 1, path[1..], r);
      } else {
        assert path[1..] == [];
      }
    }
  }

  lemma IndicesSpell(virt: nat)
    ensures Spells(Indices(virt), virt, 3)
  {
    forall k | 0 <= k <= 3 ensures Indices(virt)[k] == Slot(virt, 3 - k) { PathIsSlots(virt, k); }
  }

  /** In either half the walk by the address finds the entry the path leads to. */
  lemma WalkIsEntryAt(ram: Ram, root: int, virt: nat)
    ensures EntryFor(ram, root, virt) == EntryAt(ram, root, Indices(virt))
    ensures MeetsLarge(ram, root, virt, 3) <==> Trace(ram, root, Indices(virt)) == Large
  {
    IndicesSpell(virt);
    WalkTraces(ram, root, virt, 3, Indices(virt));
  }

  /** In the lower half it finds what the tree says, and with the rights of that entry. */
  lemma WalkIsLeaf(ram: Ram, root: int, tree: Tables, virt: nat)
    requires TreeOk(ram, root, tree) && LowerHalf(virt) && Aligned(virt)
    ensures EntryFor(ram, root, virt) == Leaf(ram, tree, Indices(virt))
    ensures RightsFor(ram, root, virt) == match EntryFor(ram, root, virt) { case None => None case Some(e) => Some(OwnRights(e)) }
  {
    var path := Indices(virt);
    IndicesFaithful(virt, virt);
    WalkIsEntryAt(ram, root, virt);
    LowerTrace(ram, root, tree, path);
    IndicesSpell(virt);
    ProcessorTraces(ram, root, virt, 3, path, Rights(root, true, true, false));
    LeafRights(ram, root, tree, path);
  }

  lemma WalksAreLeaves(ram: Ram, root: int, tree: Tables)
    requires TreeOk(ram, root, tree)
    ensures forall v: nat {:trigger EntryFor(ram, root, v)} :: LowerHalf(v) && Aligned(v) ==>
              EntryFor(ram, root, v) == Leaf(ram, tree, Indices(v))
  {
    forall v: nat | LowerHalf(v) && Aligned(v) ensures EntryFor(ram, root, v) == Leaf(ram, tree, Indices(v)) {
      WalkIsLeaf(ram, root, tree, v);
    }
  }

  /** The whole of an address walks as its page does. */
  lemma WalkOfPage(ram: Ram, root: int, virt: nat)
    ensures EntryFor(ram, root, virt - virt % PAGE_SIZE) == EntryFor(ram, root, virt)
    ensures RightsFor(ram, root, virt - virt % PAGE_SIZE) == RightsFor(ram, root, virt)
    ensures MeetsLarge(ram, root, virt - virt % PAGE_SIZE, 3) <==> MeetsLarge(ram, root, virt, 3)
  {
    DescendOfPage(ram, root, virt, 3, Rights(root, true, true, false));
  }

  /** The walk of an address of the lower half: what its page means, and with those rights. */
  lemma WalkOfAddress(ram: Ram, root: int, tree: Tables, virt: nat)
    requires TreeOk(ram, root, tree) && LowerHalf(virt)
    ensures EntryFor(ram, root, virt) == Leaf(ram, tree, Indices(virt - virt % PAGE_SIZE))
    ensures RightsFor(ram, root, virt) == match EntryFor(ram, root, virt) { case None => None case Some(e) => Some(OwnRights(e)) }
  {
    PageStart(virt);
    WalkOfPage(ram, root, virt);
    WalkIsLeaf(ram, root, tree, virt - virt % PAGE_SIZE);
  }

  lemma PageStart(virt: nat)
    requires LowerHalf(virt)
    ensures LowerHalf(virt - virt % PAGE_SIZE) && Aligned(virt - virt % PAGE_SIZE)
  {
  }

  lemma {:induction false} DescendOfPage(ram: Ram, table: int, virt: nat, level: nat, rights: Rights)
    ensures Descend(ram, table, virt - virt % PAGE_SIZE, level) == Descend(ram, table, virt, level)
    ensures Processor(ram, table, virt - virt % PAGE_SIZE, level, rights) == Processor(ram, table, virt, level, rights)
    ensures MeetsLarge(ram, table, virt - virt % PAGE_SIZE, level) <==> MeetsLarge(ram, table, virt, level)
    decreases level
  {
    SlotsOfPage(virt, level);
    if level > 0 && IsTable(ram, table) {
      var e := ram[table].w[Slot(virt, level)];
      var r := Rights(e.frame, rights.write && e.flags.write, rights.user && e.flags.user, rights.nx || e.flags.nx);
      DescendOfPage(ram, e.frame, virt, level - 1, r);
    }
  }

  /** The offset of an address does not matter to its slots. */
  lemma SlotsOfPage(virt: nat, level: nat)
    ensures Slot(virt - virt % PAGE_SIZE, level) == Slot(virt, level)
  {
    var page := virt / PAGE_SIZE;
    assert virt - virt % PAGE_SIZE == page * PAGE_SIZE;
    ReachDivides(page, virt % PAGE_SIZE, level);
    ReachDivides(page, 0, level);
  }

  lemma {:induction false} ReachDivides(page: nat, offset: nat, level: nat)
    requires offset < PAGE_SIZE
    ensures Reach(level) > 0 && (page * PAGE_SIZE + offset) / Reach(level) == page / Pages(level)
  {
    ReachPositive(level);
    ReachIsPages(level);
    NestedDivision(page * PAGE_SIZE + offset, PAGE_SIZE, Pages(level));
  }

  ghost function Pages(level: nat): (n: nat)
    ensures n > 0
  {
    if level == 0 then 1 else ENTRIES * Pages(level - 1)
  }

  lemma {:induction false} ReachIsPages(level: nat)
    ensures Reach(level) == PAGE_SIZE * Pages(level)
  {
    if level > 0 { ReachIsPages(level - 1); }
  }

  lemma NestedDivision(x: nat, a: nat, b: nat)
    requires a > 0 && b > 0
    ensures a * b > 0 && x / (a * b) == x / a / b
  {
    var q, r := x / a, x % a;
    var k, s := q / b, q % b;
    assert x == a * (b * k + s) + r;
    assert a * (b * k + s) == (a * b) * k + a * s;
    assert a * s + r < a * b by { assert a * s + a <= a * b by { Grows(a, s + 1, b); } }
    QuotientIs(x, a * b, k, a * s + r);
  }

  lemma Grows(a: nat, m: nat, n: nat)
    requires m <= n
    ensures a * m <= a * n
  {
  }

  lemma QuotientIs(x: nat, n: nat, k: nat, rest: nat)
    requires n > 0 && x == n * k + rest && rest < n
    ensures x / n == k
  {
    var q := x / n;
    assert x == n * q + x % n;
    if q > k { Grows(n, k + 1, q); }
    if q < k { Grows(n, q + 1, k); }
  }
}
