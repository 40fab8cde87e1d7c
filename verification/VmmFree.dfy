// Taking an address space apart: the tables of the lower half, and nothing else
// (kernel/src/vmmfree.c).
module VmmFree {
  import opened Counting
  import opened Pmm
  import opened Paging
  import opened Vmm
  import opened VmmSpace

  /** Frame `f` is a table at or below `p`. */
  ghost predicate Hangs(tree: Tables, p: seq<nat>, q: seq<nat>, f: int) { q in tree && p <= q && tree[q] == f }

  ghost predicate HangsAt(tree: Tables, p: seq<nat>, f: int) { exists q :: Hangs(tree, p, q, f) }

  /** The same, below one of the first `i` entries of `p`. */
  ghost predicate HangsUpto(tree: Tables, p: seq<nat>, i: nat, f: int) {
    exists q :: Hangs(tree, p, q, f) && |q| > |p| && q[|p|] < i
  }

  ghost predicate AllAt(tree: Tables, p: seq<nat>, s: set<int>) {
    forall f {:trigger HangsAt(tree, p, f)} :: f in s <==> HangsAt(tree, p, f)
  }

  ghost predicate AllUpto(tree: Tables, p: seq<nat>, i: nat, s: set<int>) {
    forall f {:trigger HangsUpto(tree, p, i, f)} :: f in s <==> HangsUpto(tree, p, i, f)
  }

  lemma FramesAt(tree: Tables, p: seq<nat>) returns (s: set<int>)
    ensures AllAt(tree, p, s)
  {
    s := set q | q in tree && p <= q :: tree[q];
    forall f ensures f in s <==> HangsAt(tree, p, f) {
      if f in s {
        var q :| q in tree && p <= q && tree[q] == f;
        assert Hangs(tree, p, q, f);
      }
    }
  }

  ghost predicate NoSharing(tree: Tables) { forall p, q {:trigger Apart(tree, p, q)} :: Apart(tree, p, q) }

  /** The tables below the top one are as the tree says: what the recursion
      reads, and never writes. */
  ghost predicate BelowOk(ram: Ram, tree: Tables) {
    && (forall p {:trigger NodeOk(ram, tree, p)} :: p != [] ==> NodeOk(ram, tree, p))
    && (forall p, i {:trigger ParentEntryOk(ram, tree, p, i)} :: p != [] ==> ParentEntryOk(ram, tree, p, i))
    && NoSharing(tree)
  }

  lemma OneTable(tree: Tables, p: seq<nat>, q: seq<nat>)
    requires NoSharing(tree) && p in tree && q in tree && tree[p] == tree[q]
    ensures p == q
  {
    assert Apart(tree, p, q);
  }

  lemma NoneUpto(tree: Tables, p: seq<nat>)
    ensures AllUpto(tree, p, 0, {})
  {
  }

  /** One more entry: what hangs at it, none of which hung before it. */
  lemma NextUpto(tree: Tables, p: seq<nat>, i: nat, given: set<int>, next: set<int>)
    requires NoSharing(tree) && AllUpto(tree, p, i, given) && AllAt(tree, p + [i], next)
    ensures AllUpto(tree, p, i + 1, given + next) && given !! next && |given + next| == |given| + |next|
  {
    forall f ensures f in given + next <==> HangsUpto(tree, p, i + 1, f) {
      assert HangsUpto(tree, p, i, f) <==> f in given;
      assert HangsAt(tree, p + [i], f) <==> f in next;
      if HangsUpto(tree, p, i + 1, f) && f !in given {
        var q :| Hangs(tree, p, q, f) && |q| > |p| && q[|p|] < i + 1;
        assert q[..|p| + 1] == p + [i];
        assert Hangs(tree, p + [i], q, f);
      }
      if f in next {
        var q :| Hangs(tree, p + [i], q, f);
        UnderEntry(tree, p, i, q, f);
      }
    }
    forall f | f in given ensures f !in next {
      assert HangsUpto(tree, p, i, f);
      if f in next {
        assert HangsAt(tree, p + [i], f);
        var q :| Hangs(tree, p, q, f) && |q| > |p| && q[|p|] < i;
        var r :| Hangs(tree, p + [i], r, f);
        UnderEntry(tree, p, i, r, f);
        OneTable(tree, q, r);
      }
    }
  }

  lemma UnderEntry(tree: Tables, p: seq<nat>, i: nat, q: seq<nat>, f: int)
    requires Hangs(tree, p + [i], q, f)
    ensures Hangs(tree, p, q, f) && |q| > |p| && q[|p|] == i
  {
    assert q[|p|] == (p + [i])[|p|];
    assert q[..|p|] == (p + [i])[..|p|] == p;
  }

  /** All the entries: the table itself and everything below it. */
  lemma AllUnder(tree: Tables, p: seq<nat>, n: nat, given: set<int>, frames: set<int>)
    requires NoSharing(tree) && p in tree && AllUpto(tree, p, n, given) && AllAt(tree, p, frames)
    requires forall q :: q in tree && p <= q && |q| > |p| ==> q[|p|] < n
    ensures frames == given + {tree[p]} && tree[p] !in given
  {
    forall f ensures f in frames <==> f in given + {tree[p]} {
      assert HangsAt(tree, p, f) <==> f in frames;
      assert HangsUpto(tree, p, n, f) <==> f in given;
      if f in frames {
        var q :| Hangs(tree, p, q, f);
        if q != p { assert HangsUpto(tree, p, n, f); }
      }
      if f == tree[p] { assert Hangs(tree, p, p, f); }
    }
    if tree[p] in given {
      assert HangsUpto(tree, p, n, tree[p]);
      var q :| Hangs(tree, p, q, tree[p]) && |q| > |p|;
      OneTable(tree, p, q);
    }
  }

  /** What is given back so far is part of all there is to give back. */
  lemma UptoWithin(tree: Tables, p: seq<nat>, i: nat, given: set<int>, frames: set<int>)
    requires AllUpto(tree, p, i, given) && AllAt(tree, p, frames)
    ensures given <= frames && |given| <= |frames|
  {
    forall f | f in given ensures f in frames {
      assert HangsUpto(tree, p, i, f);
      assert HangsAt(tree, p, f);
    }
    SubsetSize(given, frames);
  }

  lemma Bounded(ram: Ram, tree: Tables, p: seq<nat>)
    requires BelowOk(ram, tree)
    ensures forall q :: q in tree && p <= q && |q| > |p| ==> q[|p|] < ENTRIES
  {
    forall q | q in tree && p <= q && |q| > |p| ensures q[|p|] < ENTRIES { assert NodeOk(ram, tree, q); }
  }

  /** A table of the last level has none below it. */
  lemma Bottom(ram: Ram, tree: Tables, p: seq<nat>, frames: set<int>)
    requires BelowOk(ram, tree) && |p| == 3 && p in tree && AllAt(tree, p, frames)
    ensures frames == {tree[p]}
  {
    forall q | q in tree && p <= q ensures |q| <= |p| {
      assert q != [];
      assert NodeOk(ram, tree, q);
    }
    NoneUpto(tree, p);
    AllUnder(tree, p, 0, {}, frames);
  }

  lemma NothingAt(ram: Ram, tree: Tables, p: seq<nat>, frames: set<int>)
    requires BelowOk(ram, tree) && p !in tree && p != [] && AllAt(tree, p, frames)
    ensures frames == {}
  {
    forall f ensures f !in frames {
      assert HangsAt(tree, p, f) <==> f in frames;
      if f in frames {
        var q :| Hangs(tree, p, q, f);
        PrefixIn(ram, tree, p, q);
      }
    }
  }

  /** Every table hangs off tables of the tree. */
  lemma {:induction false} PrefixIn(ram: Ram, tree: Tables, p: seq<nat>, q: seq<nat>)
    requires BelowOk(ram, tree) && q in tree && p <= q && p != []
    ensures p in tree
    decreases |q|
  {
    if p != q {
      assert NodeOk(ram, tree, q);
      assert p <= q[..|q| - 1];
      PrefixIn(ram, tree, p, q[..|q| - 1]);
    }
  }

  /** What entry `i` of the table at `p` holds. */
  ghost predicate Holds(tree: Tables, q: seq<nat>, e: Pte) {
    (e.flags.present <==> q in tree) && (e.flags.present ==> e.frame == tree[q] && !e.flags.huge)
  }

  lemma EntryHolds(ram: Ram, tree: Tables, p: seq<nat>, i: nat)
    requires BelowOk(ram, tree) && p in tree && p != [] && |p| < 3 && i < ENTRIES
    ensures IsTable(ram, tree[p]) && Holds(tree, p + [i], ram[tree[p]].w[i])
  {
    assert NodeOk(ram, tree, p) && ParentEntryOk(ram, tree, p, i);
  }

  /** The frames of a set of tables can be given back. */
  ghost predicate Returnable(pmm: Allocator, frames: set<int>)
    reads pmm
  {
    forall f {:trigger f in frames} :: f in frames ==> f != 0 && pmm.Covers(f) && f !in pmm.free
  }

  /** One table given back: `pmm_free` and the count. */
  method GiveTable(m: Machine, s: Space, f: nat)
    requires m.pmm.Valid() && f != 0 && m.pmm.Covers(f) && f !in m.pmm.free && s.tables > 0
    modifies m.pmm`freePages, m.pmm`free, m.pmm`hint, m.pmm`badFrees, m.pmm.bitmap, s`tables
    ensures m.pmm.Valid() && m.pmm.badFrees == old(m.pmm.badFrees)
    ensures m.pmm.free == old(m.pmm.free) + {f} && s.tables == old(s.tables) - 1
  {
    assert f * PAGE_SIZE / PAGE_SIZE == f;
    m.pmm.Free(f * PAGE_SIZE);
    if s.tables > 0 { s.tables := s.tables - 1; }
  }

  lemma GivenNext(before: set<int>, given: set<int>, next: set<int>)
    ensures before + given + next == before + (given + next)
  {
  }

  lemma GivenLast(before: set<int>, given: set<int>, f: int, frames: set<int>)
    requires frames == given + {f}
    ensures before + given + {f} == before + frames
  {
  }

  /** One turn of the loop, before the frames are given back. */
  lemma NextEntry(ram: Ram, tree: Tables, p: seq<nat>, i: nat, given: set<int>, next: set<int>, frames: set<int>)
    requires BelowOk(ram, tree) && p in tree && p != [] && |p| < 3 && i < ENTRIES
    requires NoSharing(tree) && AllUpto(tree, p, i, given) && AllAt(tree, p + [i], next) && AllAt(tree, p, frames)
    ensures IsTable(ram, tree[p]) && Holds(tree, p + [i], ram[tree[p]].w[i])
    ensures AllUpto(tree, p, i + 1, given + next) && given !! next && |given + next| == |given| + |next|
    ensures given + next <= frames && |given| + |next| <= |frames|
  {
    NextUpto(tree, p, i, given, next);
    UptoWithin(tree, p, i + 1, given + next, frames);
    EntryHolds(ram, tree, p, i);
  }

  /** `free_below`: exactly the table the entry points at and the tables below
      it, each once. */
  method FreeBelow(m: Machine, s: Space, ghost tree: Tables, ghost p: seq<nat>, ghost frames: set<int>, entry: Pte,
                   level: nat)
    requires 1 <= level <= 3 && |p| + level == 4 && m.pmm.Valid() && BelowOk(m.ram, tree) && AllAt(tree, p, frames)
    requires Holds(tree, p, entry) && Returnable(m.pmm, frames) && s.tables >= |frames|
    modifies m.pmm`freePages, m.pmm`free, m.pmm`hint, m.pmm`badFrees, m.pmm.bitmap, s`tables
    ensures m.pmm.Valid() && m.pmm.badFrees == old(m.pmm.badFrees)
    ensures m.pmm.free == old(m.pmm.free) + frames
    ensures s.tables == old(s.tables) - |frames|
    decreases level, 1
  {
    if !entry.flags.present || entry.flags.huge {
      NothingAt(m.ram, tree, p, frames);
      return;
    }
    ghost var given: set<int> := {};
    if level > 1 {
      NoneUpto(tree, p);
      var i := 0;
      while i < ENTRIES
        invariant 0 <= i <= ENTRIES && m.pmm.Valid() && m.pmm.badFrees == old(m.pmm.badFrees)
        invariant AllUpto(tree, p, i, given)
        invariant m.pmm.free == old(m.pmm.free) + given && s.tables == old(s.tables) - |given|
      {
        given := FreeEntry(m, s, tree, p, i, given, frames, entry.frame, level, old(m.pmm.free), old(s.tables));
        i := i + 1;
      }
      Bounded(m.ram, tree, p);
      AllUnder(tree, p, ENTRIES, given, frames);
    } else {
      Bottom(m.ram, tree, p, frames);
    }
    GivenLast(old(m.pmm.free), given, entry.frame, frames);
    GiveTable(m, s, entry.frame);
  }

  /** One turn of the loop. */
  method FreeEntry(m: Machine, s: Space, ghost tree: Tables, ghost p: seq<nat>, i: nat, ghost given: set<int>,
                   ghost frames: set<int>,
                   frame: int, level: nat, ghost free: set<int>, ghost tables: int) returns (ghost given': set<int>)
    requires 1 < level <= 3 && |p| + level == 4 && m.pmm.Valid() && BelowOk(m.ram, tree) && AllAt(tree, p, frames)
    requires p in tree && tree[p] == frame && i < ENTRIES && AllUpto(tree, p, i, given)
    requires forall f {:trigger f in frames} :: f in frames ==> f != 0 && m.pmm.Covers(f) && f !in free
    requires m.pmm.free == free + given && s.tables == tables - |given| && tables >= |frames|
    modifies m.pmm`freePages, m.pmm`free, m.pmm`hint, m.pmm`badFrees, m.pmm.bitmap, s`tables
    ensures m.pmm.Valid() && m.pmm.badFrees == old(m.pmm.badFrees) && AllUpto(tree, p, i + 1, given')
    ensures m.pmm.free == free + given' && s.tables == tables - |given'|
    decreases level, 0
  {
    ghost var next := FramesAt(tree, p + [i]);
    NextEntry(m.ram, tree, p, i, given, next, frames);
    FreeBelow(m, s, tree, p + [i], next, m.ram[frame].w[i], level - 1);
    given' := given + next;
    GivenNext(free, given, next);
  }

  method ClearEntry(m: Machine, root: int, i: nat, ghost ram: Ram)
    requires m.pmm.Valid() && TopLeft(ram, m.ram, root, i) && i < ENTRIES
    modifies m`ram
    ensures m.pmm.Valid() && TopLeft(ram, m.ram, root, i + 1)
  {
    m.ram := PutEntry(m.ram, root, i, ZERO);
  }

  /** The lower half of `vmm_destroy`: each entry followed, then cleared. */
  method FreeLower(m: Machine, s: Space, ghost tree: Tables) returns (ghost given: set<int>)
    requires m.pmm.Valid() && TreeOk(m.ram, s.root, tree)
    requires Returnable(m.pmm, tree.Values) && s.tables >= |tree.Values|
    modifies m`ram, m.pmm`freePages, m.pmm`free, m.pmm`hint, m.pmm`badFrees, m.pmm.bitmap, s`tables
    ensures m.pmm.Valid() && m.pmm.badFrees == old(m.pmm.badFrees)
    ensures AllUpto(tree, [], 256, given) && TopLeft(old(m.ram), m.ram, s.root, 256)
    ensures m.pmm.free == old(m.pmm.free) + given && s.tables == old(s.tables) - |given|
  {
    ghost var ram := m.ram;
    assert NodeOk(ram, tree, []);
    given := {};
    NoneUpto(tree, []);
    EverythingAt(tree);
    var i := 0;
    while i < ENTRIES / 2
      invariant 0 <= i <= 256 && m.pmm.Valid() && m.pmm.badFrees == old(m.pmm.badFrees)
      invariant TopLeft(ram, m.ram, s.root, i)
      invariant AllUpto(tree, [], i, given)
      invariant m.pmm.free == old(m.pmm.free) + given && s.tables == old(s.tables) - |given|
    {
      ghost var next := FramesAt(tree, [] + [i]);
      NextUpto(tree, [], i, given, next);
      UptoWithin(tree, [], i + 1, given + next, tree.Values);
      StillBelow(ram, m.ram, s.root, tree, i);
      FreeBelow(m, s, tree, [] + [i], next, m.ram[s.root].w[i], 3);
      GivenNext(old(m.pmm.free), given, next);
      ClearEntry(m, s.root, i, ram);
      given := given + next;
      i := i + 1;
    }
  }

  /** The kernel's half is cleared and not followed. */
  method ClearUpper(m: Machine, root: int, ghost ram: Ram)
    requires m.pmm.Valid() && TopLeft(ram, m.ram, root, 256)
    modifies m`ram
    ensures m.pmm.Valid() && TopLeft(ram, m.ram, root, ENTRIES)
  {
    var i := ENTRIES / 2;
    while i < ENTRIES
      invariant 256 <= i <= ENTRIES && m.pmm.Valid() && TopLeft(ram, m.ram, root, i)
    {
      ClearEntry(m, root, i, ram);
      i := i + 1;
    }
  }

  /** The frame of a top-level table, when there is one. */
  ghost function TopFrame(root: int): set<int> { if root == 0 then {} else {root} }

  /** Nothing is left in a table. */
  ghost predicate Blank(ram: Ram, root: int) { IsTable(ram, root) && forall j :: 0 <= j < ENTRIES ==> ram[root].w[j] == ZERO }

  /** A space that was adopted runs on tables it did not make. */
  ghost predicate Adopted(s: Space)
    reads s
  {
    s.root != 0 && s.tables == 0
  }

  /** `vmm_destroy`: the frames given back are exactly the space's tables, each
      once; no page it mapped is given back, and no memory but its own top-level
      table is written. An adopted space gives nothing back and writes nothing. */
  method Destroy(m: Machine, s: Space)
    requires m.pmm.Valid() && (!Adopted(s) ==> SpaceSound(m, s) && Returnable(m.pmm, s.tree.Values))
    modifies m`ram, m.pmm`freePages, m.pmm`free, m.pmm`hint, m.pmm`badFrees, m.pmm.bitmap, s
    ensures SpaceSound(m, s) && s.root == 0 && s.tree == map[] && s.tables == 0
    ensures m.pmm.free == old(m.pmm.free) + (if old(Adopted(s)) then {} else old(s.tree).Values)
    ensures m.pmm.badFrees == old(m.pmm.badFrees)
    ensures if old(Adopted(s)) then m.ram == old(m.ram) else KeptOutside(old(m.ram), m.ram, TopFrame(old(s.root)))
    ensures old(s.root) != 0 && !old(Adopted(s)) ==> Blank(m.ram, old(s.root))
  {
    if s.root == 0 { return; }
    if s.tables == 0 {
      Forget(m, s);
      return;
    }
    DestroyOwn(m, s);
  }

  /** The tables it made. */
  method DestroyOwn(m: Machine, s: Space)
    requires SpaceSound(m, s) && Returnable(m.pmm, s.tree.Values) && s.root != 0
    modifies m`ram, m.pmm`freePages, m.pmm`free, m.pmm`hint, m.pmm`badFrees, m.pmm.bitmap, s
    ensures SpaceSound(m, s) && s.root == 0 && s.tree == map[] && s.tables == 0
    ensures m.pmm.free == old(m.pmm.free) + old(s.tree).Values && m.pmm.badFrees == old(m.pmm.badFrees)
    ensures KeptOutside(old(m.ram), m.ram, TopFrame(old(s.root))) && Blank(m.ram, old(s.root))
  {
    ghost var tree, ram := s.tree, m.ram;
    ValuesCounted(tree);
    RootTable(tree, s.root);
    ghost var given := FreeLower(m, s, tree);
    ClearUpper(m, s.root, ram);
    TopLast(ram, s.root, tree, given);
    GivenLast(old(m.pmm.free), given, s.root, tree.Values);
    GiveTable(m, s, s.root);
    Forget(m, s);
  }

  /** No tables left, and none named. */
  method Forget(m: Machine, s: Space)
    requires m.pmm.Valid() && s.tables == 0
    modifies s
    ensures SpaceSound(m, s) && s.root == 0 && s.tree == map[] && s.tables == 0
  {
    s.root, s.tree := 0, map[];
  }

  lemma RootTable(tree: Tables, root: int)
    requires [] in tree && tree[[]] == root
    ensures root in tree.Values && tree != map[]
  {
    assert tree[[]] in tree.Values;
  }

  lemma TopLast(ram: Ram, root: int, tree: Tables, given: set<int>)
    requires TreeOk(ram, root, tree) && AllUpto(tree, [], 256, given)
    ensures tree.Values == given + {root} && root !in given && |tree.Values| == |given| + 1
  {
    LowerOnly(ram, root, tree);
    EverythingAt(tree);
    AllUnder(tree, [], 256, given, tree.Values);
  }

  /** The top-level table is cleared up to entry `i`, and nothing else is
      written. */
  ghost predicate TopLeft(ram: Ram, ram': Ram, root: int, i: nat) {
    && IsTable(ram, root) && IsTable(ram', root) && KeptOutside(ram, ram', {root})
    && forall j :: 0 <= j < ENTRIES ==> ram'[root].w[j] == if j < i then ZERO else ram[root].w[j]
  }

  lemma EverythingAt(tree: Tables)
    ensures AllAt(tree, [], tree.Values)
  {
    forall f ensures f in tree.Values <==> HangsAt(tree, [], f) {
      if f in tree.Values {
        var q :| q in tree && tree[q] == f;
        assert Hangs(tree, [], q, f);
      }
    }
  }

  lemma LowerOnly(ram: Ram, root: int, tree: Tables)
    requires TreeOk(ram, root, tree)
    ensures forall q: seq<nat> :: q in tree && [] <= q && |q| > 0 ==> q[0] < 256
  {
    forall q: seq<nat> | q in tree && |q| > 0 ensures q[0] < 256 { assert NodeOk(ram, tree, q); }
  }

  /** As many frames as tables. */
  lemma {:induction false} ValuesCounted(tree: Tables)
    requires NoSharing(tree)
    ensures |tree.Values| == |tree|
    decreases |tree|
  {
    if p :| p in tree {
      var rest := tree - {p};
      assert rest.Keys == tree.Keys - {p};
      forall a, b ensures Apart(rest, a, b) { assert Apart(tree, a, b); }
      ValuesCounted(rest);
      assert tree.Values == rest.Values + {tree[p]} by {
        forall f | f in tree.Values ensures f in rest.Values + {tree[p]} {
          var q :| q in tree && tree[q] == f;
          if q != p { assert rest[q] == f; }
        }
      }
      if tree[p] in rest.Values {
        var q :| q in rest && rest[q] == tree[p];
        OneTable(tree, p, q);
      }
    }
  }

  lemma StillBelow(ram: Ram, ram': Ram, root: int, tree: Tables, i: nat)
    requires TreeOk(ram, root, tree) && TopLeft(ram, ram', root, i) && i < 256
    ensures BelowOk(ram', tree)
    ensures Holds(tree, [] + [i], ram'[root].w[i])
  {
    assert ParentEntryOk(ram, tree, [], i);
    forall p | p != [] ensures NodeOk(ram', tree, p) {
      assert NodeOk(ram, tree, p) && Apart(tree, p, []);
    }
    forall p, j | p != [] ensures ParentEntryOk(ram', tree, p, j) {
      assert NodeOk(ram, tree, p) && ParentEntryOk(ram, tree, p, j) && Apart(tree, p, []);
    }
  }
}
