// What a set of new pages costs a process in frames, and when there is enough
// (kernel/src/process.c:173-213, kernel/src/vmm.c:61-131).
module PageCosts {
  import opened Common
  import opened Counting
  import opened Paging
  import opened Vmm
  import opened VmmSpace
  import opened ProcessImage
  import opened Process

  /** The tables on the way to some page. */
  ghost function Ways(pages: set<nat>): set<seq<nat>> {
    set v, q | v in pages && q in WayTo(v) :: q
  }

  ghost function WayTo(v: nat): set<seq<nat>> { Way(Indices(v), |Indices(v)| - 1) }

  /** Those the tree has not. */
  ghost function Lacking(v: View, pages: set<nat>): set<seq<nat>> { Ways(pages) - v.tree.Keys }

  /** `added` are the pages added to the list, and this is what it cost. */
  ghost predicate Spent(a: View, pa: seq<nat>, b: View, pb: seq<nat>, added: set<nat>) {
    && b.tree.Keys == a.tree.Keys + Ways(added)
    && |pb| == |pa| + |added|
    && |b.free| == |a.free| - |added| - |Lacking(a, added)|
  }

  /** There is a place for every new page, and a frame for every one and for every table
      they lack. */
  ghost predicate Enough(a: View, pages: seq<nat>, root: int, added: set<nat>) {
    added == {} ||
    (root != 0 && |pages| + |added| <= PROC_MAX_PAGES && |added| + |Lacking(a, added)| <= |a.free|)
  }

  lemma SpentNone(a: View, pages: seq<nat>)
    ensures Spent(a, pages, a, pages, {})
  {
    assert Ways({}) == {} && Lacking(a, {}) == {};
  }

  lemma WaysMore(added: set<nat>, v: nat)
    ensures Ways(added + {v}) == Ways(added) + WayTo(v)
  {
    forall q ensures q in Ways(added + {v}) <==> q in Ways(added) + WayTo(v) {
      if q in WayTo(v) { assert v in added + {v}; }
    }
  }

  /** What one more page lacks is what the way to it lacks by now. */
  lemma LackingMore(a: View, b: View, added: set<nat>, v: nat)
    requires b.tree.Keys == a.tree.Keys + Ways(added)
    ensures |Lacking(a, added + {v})| == |Lacking(a, added)| + Short(b.tree, Indices(v))
  {
    WaysMore(added, v);
    SplitKeys(a.tree.Keys, Ways(added), WayTo(v));
  }

  lemma SplitKeys(keys: set<seq<nat>>, ways: set<seq<nat>>, more: set<seq<nat>>)
    ensures |ways + more - keys| == |ways - keys| + |more - (keys + ways)|
  {
    assert ways + more - keys == (ways - keys) + (more - (keys + ways));
  }

  lemma SpentMore(a: View, pa: seq<nat>, b: View, pb: seq<nat>, added: set<nat>, c: View, pc: seq<nat>, v: nat)
    requires Spent(a, pa, b, pb, added) && v !in added && PageSpent(b, c, v) && |pc| == |pb| + 1
    ensures Spent(a, pa, c, pc, added + {v})
  {
    SpentTables(a, b, added, c, v);
    OneMore(added, v);
    LackingMore(a, b, added, v);
  }

  lemma OneMore(s: set<nat>, v: nat)
    requires v !in s
    ensures |s + {v}| == |s| + 1
  {
  }

  lemma SpentTables(a: View, b: View, added: set<nat>, c: View, v: nat)
    requires b.tree.Keys == a.tree.Keys + Ways(added) && PageSpent(b, c, v)
    ensures c.tree.Keys == a.tree.Keys + Ways(added + {v})
  {
    BuiltSays(b.tree, c.tree, Indices(v), |Indices(v)| - 1);
    WaysMore(added, v);
    assert a.tree.Keys + Ways(added) + WayTo(v) == a.tree.Keys + (Ways(added) + WayTo(v));
  }

  /** A page that cannot be had is one too many of any that hold it. */
  lemma TooMuch(a: View, pa: seq<nat>, root: int, b: View, pb: seq<nat>, added: set<nat>, v: nat, all: set<nat>)
    requires Spent(a, pa, b, pb, added) && v !in added && added + {v} <= all && Page(v)
    requires |pb| >= PROC_MAX_PAGES || !Affords(b, root, v)
    ensures !Enough(a, pa, root, all)
  {
    LackingMore(a, b, added, v);
    SubsetSize(added + {v}, all);
    LackingWithin(a, added + {v}, all);
    OneMore(added, v);
  }

  lemma LackingWithin(a: View, some: set<nat>, all: set<nat>)
    requires some <= all
    ensures |Lacking(a, some)| <= |Lacking(a, all)|
  {
    forall q | q in Ways(some) ensures q in Ways(all) {
      var v :| v in some && q in WayTo(v);
      assert v in all;
    }
    SubsetSize(Lacking(a, some), Lacking(a, all));
  }

  lemma SpentEnough(a: View, pa: seq<nat>, root: int, b: View, pb: seq<nat>, added: set<nat>)
    requires Spent(a, pa, b, pb, added) && |pb| <= PROC_MAX_PAGES && (added != {} ==> root != 0)
    ensures Enough(a, pa, root, added)
  {
  }

  // ----- the pages that are new

  ghost predicate There(v: View, page: nat) { Meaning(v.ram, v.tree, page).Some? }

  /** `added` are the pages that were not there and are, and all that was spent is theirs. */
  ghost predicate Costs(a: View, pa: seq<nat>, root: int, b: View, pb: seq<nat>, added: set<nat>) {
    && Spent(a, pa, b, pb, added) && (added != {} ==> root != 0)
    && AddedAre(a, b, added)
  }

  ghost predicate AddedAre(a: View, b: View, added: set<nat>) {
    forall v: nat {:trigger There(b, v)} {:trigger v in added} :: v in added <==> Page(v) && !There(a, v) && There(b, v)
  }

  lemma CostsNone(a: View, pages: seq<nat>, root: int)
    ensures Costs(a, pages, root, a, pages, {})
  {
    SpentNone(a, pages);
  }

  /** The set after one more page was asked for. */
  ghost function AddedAfter(b: View, added: set<nat>, at: nat): set<nat> {
    if There(b, at) then added else added + {at}
  }

  lemma CostsMore(a: View, pa: seq<nat>, root: int, b: View, pb: seq<nat>, added: set<nat>, c: View, pc: seq<nat>, at: nat,
                  flags: Flags, into: nat, data: seq<Byte>)
    requires Costs(a, pa, root, b, pb, added) && Page(at) && (There(a, at) ==> There(b, at))
    requires PageOutcome(b, pb, c, pc, true, at, flags, into, data) && PageCost(b, c, at) && (There(b, at) || root != 0)
    ensures Costs(a, pa, root, c, pc, AddedAfter(b, added, at))
  {
    ThereAfter(b, pb, c, pc, at, flags, into, data);
    CostPaid(b, c, at);
    CostsStep(a, pa, root, b, pb, added, c, pc, at);
  }

  lemma CostPaid(b: View, c: View, at: nat)
    requires Page(at) && PageCost(b, c, at)
    ensures if There(b, at) then c.tree == b.tree && c.free == b.free else PageSpent(b, c, at)
  {
    assert PageOf(at) == at;
  }

  lemma CostsStep(a: View, pa: seq<nat>, root: int, b: View, pb: seq<nat>, added: set<nat>, c: View, pc: seq<nat>,
                  at: nat)
    requires Costs(a, pa, root, b, pb, added) && Page(at) && (There(a, at) ==> There(b, at))
    requires There(b, at) || root != 0
    requires if There(b, at) then c.tree == b.tree && c.free == b.free && pc == pb
             else PageSpent(b, c, at) && |pc| == |pb| + 1
    requires forall v: nat {:trigger There(c, v)} :: Page(v) ==> (There(c, v) <==> There(b, v) || v == at)
    ensures Costs(a, pa, root, c, pc, AddedAfter(b, added, at))
  {
    AddedStep(a, b, added, c, at);
    if There(b, at) {
      assert AddedAfter(b, added, at) == added;
    } else {
      SpentMore(a, pa, b, pb, added, c, pc, at);
    }
  }

  lemma AddedStep(a: View, b: View, added: set<nat>, c: View, at: nat)
    requires AddedAre(a, b, added) && Page(at) && (There(a, at) ==> There(b, at))
    requires forall v: nat {:trigger There(c, v)} :: Page(v) ==> (There(c, v) <==> There(b, v) || v == at)
    ensures AddedAre(a, c, AddedAfter(b, added, at))
    ensures !There(b, at) ==> at !in added
  {
    forall v: nat ensures v in AddedAfter(b, added, at) <==> Page(v) && !There(a, v) && There(c, v) {
      assert v in added <==> Page(v) && !There(a, v) && There(b, v);
    }
  }

  /** The page asked for is there afterwards, and no other is new. */
  lemma ThereAfter(b: View, pb: seq<nat>, c: View, pc: seq<nat>, at: nat, flags: Flags, into: nat, data: seq<Byte>)
    requires Page(at) && PageOutcome(b, pb, c, pc, true, at, flags, into, data)
    ensures forall v: nat {:trigger There(c, v)} :: Page(v) ==> (There(c, v) <==> There(b, v) || v == at)
    ensures if There(b, at) then pc == pb else |pc| == |pb| + 1
  {
    assert PageOf(at) == at;
    forall v: nat | Page(v) ensures There(c, v) <==> There(b, v) || v == at {
      if v != at { IndicesFaithful(v, at); }
    }
  }
}
