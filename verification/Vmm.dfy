// Address spaces: building, changing and reading four-level page table trees in
// physical memory (kernel/src/vmm.c).
module Vmm {
  import opened Common
  import opened Pmm
  import opened Paging

  /** An entry: the frame it points at, and its flags. */
  datatype Pte = Pte(frame: nat, flags: Flags)

  const ZERO: Pte := Pte(0, NO_FLAGS)

  /** A frame of memory, by what it was last written as: a table of entries, or
      the bytes of a page. */
  datatype Frame = Words(w: seq<Pte>) | Bytes(b: seq<Byte>)

  type Ram = map<int, Frame>

  /** The tables of an address space, by the indices that lead to them. */
  type Tables = map<seq<nat>, int>

  datatype VmmResult = Ok | BadAddress | NoMemory | NotMapped | AlreadyMapped | HugePage | NoSpace

  // ----- what a tree of tables is

  ghost predicate IsTable(ram: Ram, f: int) { f in ram && ram[f].Words? && |ram[f].w| == ENTRIES }

  /** Table `p` hangs off the table one index shorter. */
  ghost predicate NodeOk(ram: Ram, tree: Tables, p: seq<nat>) {
    p in tree ==>
      && |p| <= 3 && IsTable(ram, tree[p])
      && (forall k :: 0 <= k < |p| ==> p[k] < ENTRIES)
      && (p != [] ==> p[0] < 256 && p[..|p| - 1] in tree)
  }

  /** An entry above the last level: present exactly when a table hangs there,
      pointing at it, and permitting whatever a leaf below may permit. */
  ghost predicate ParentEntryOk(ram: Ram, tree: Tables, p: seq<nat>, i: nat) {
    p in tree && |p| < 3 && i < ENTRIES && (p == [] ==> i < 256) && IsTable(ram, tree[p]) ==>
      var e := ram[tree[p]].w[i];
      && (p + [i] in tree <==> e.flags.present)
      && (e.flags.present ==> e.frame == tree[p + [i]] && e.flags.write && !e.flags.huge && !e.flags.nx)
  }

  ghost predicate UserEntry(ram: Ram, tree: Tables, p: seq<nat>, i: nat) {
    p in tree && IsTable(ram, tree[p]) && i < ENTRIES && ram[tree[p]].w[i].flags.user
  }

  /** Every entry on the way down to table `p` carries the user bit. */
  ghost predicate UserWay(ram: Ram, tree: Tables, p: seq<nat>)
    requires |p| == 3
  {
    UserEntry(ram, tree, [], p[0]) && UserEntry(ram, tree, [p[0]], p[1]) && UserEntry(ram, tree, [p[0], p[1]], p[2])
  }

  ghost predicate LeafOk(ram: Ram, tree: Tables, p: seq<nat>, i: nat) {
    p in tree && |p| == 3 && i < ENTRIES && IsTable(ram, tree[p]) ==>
      var e := ram[tree[p]].w[i];
      e.flags.present && e.flags.user ==> UserWay(ram, tree, p)
  }

  /** No table hangs in two places. */
  ghost predicate Apart(tree: Tables, p: seq<nat>, q: seq<nat>) {
    p in tree && q in tree && p != q ==> tree[p] != tree[q]
  }

  ghost predicate TreeOk(ram: Ram, root: int, tree: Tables) {
    && [] in tree && tree[[]] == root
    && (forall p {:trigger NodeOk(ram, tree, p)} :: NodeOk(ram, tree, p))
    && (forall p, i {:trigger ParentEntryOk(ram, tree, p, i)} :: ParentEntryOk(ram, tree, p, i))
    && (forall p, i {:trigger LeafOk(ram, tree, p, i)} :: LeafOk(ram, tree, p, i))
    && (forall p, q {:trigger Apart(tree, p, q)} :: Apart(tree, p, q))
  }

  /** What a page means: the entry its four indices lead to, when present. */
  ghost function Leaf(ram: Ram, tree: Tables, path: seq<nat>): Option<Pte>
    requires |path| == 4
  {
    var p := path[..3];
    if p in tree && IsTable(ram, tree[p]) && path[3] < ENTRIES && ram[tree[p]].w[path[3]].flags.present
    then Some(ram[tree[p]].w[path[3]]) else None
  }

  /** The two trees mean the same for every page. */
  ghost predicate SameLeaves(ram: Ram, tree: Tables, ram': Ram, tree': Tables) {
    forall path: seq<nat> {:trigger Leaf(ram', tree', path)} :: |path| == 4 ==> Leaf(ram', tree', path) == Leaf(ram, tree, path)
  }

  /** Memory outside `mine` is as it was. */
  ghost predicate KeptOutside(ram: Ram, ram': Ram, mine: set<int>) {
    forall f {:trigger ram'[f]} {:trigger f in ram'} :: f in ram && f !in mine ==> f in ram' && ram'[f] == ram[f]
  }

  // ----- the rights the processor computes

  datatype Rights = Rights(frame: int, write: bool, user: bool, nx: bool)

  /** The processor's own walk: any entry on the way that is absent stops it,
      write and user need every level, no-execute any (section 4.6 of the Intel
      SDM, volume 3A). */
  ghost function Hardware(ram: Ram, table: int, path: seq<nat>, rights: Rights): Option<Rights>
    decreases |path|
  {
    if path == [] then Some(rights)
    else if !IsTable(ram, table) || path[0] >= ENTRIES || !ram[table].w[path[0]].flags.present then None
    else
      var e := ram[table].w[path[0]];
      Hardware(ram, e.frame, path[1..],
               Rights(e.frame, rights.write && e.flags.write, rights.user && e.flags.user, rights.nx || e.flags.nx))
  }

  /** Combining all four levels always gives the leaf's own rights. */
  lemma LeafRights(ram: Ram, root: int, tree: Tables, path: seq<nat>)
    requires TreeOk(ram, root, tree) && |path| == 4 && path[0] < 256 && forall k :: 0 <= k < 4 ==> path[k] < ENTRIES
    ensures Hardware(ram, root, path, Rights(root, true, true, false)) ==
            match Leaf(ram, tree, path)
            case None => None
            case Some(e) => Some(Rights(e.frame, e.flags.write, e.flags.user, e.flags.nx))
  {
    var a, b, c, d := path[0], path[1], path[2], path[3];
    assert path[1..] == [b, c, d] && path[1..][1..] == [c, d] && path[1..][1..][1..] == [d] &&
      path[1..][1..][1..][1..] == [];
    assert path[..3] == [a, b, c];
    assert NodeOk(ram, tree, []) && NodeOk(ram, tree, [a]) && NodeOk(ram, tree, [a, b]) && NodeOk(ram, tree, [a, b, c]);
    assert [] + [a] == [a] && [a] + [b] == [a, b] && [a, b] + [c] == [a, b, c];
    assert [a][..0] == [] && [a, b][..1] == [a] && [a, b, c][..2] == [a, b];
    assert ParentEntryOk(ram, tree, [], a) && ParentEntryOk(ram, tree, [a], b) && ParentEntryOk(ram, tree, [a, b], c);
    assert LeafOk(ram, tree, [a, b, c], d);
    var top := Rights(root, true, true, false);
    assert Hardware(ram, root, path, top) == Below(ram, root, a, [b, c, d], top);
    if [a] in tree {
      var r1 := Through(ram, root, a, top);
      assert Hardware(ram, tree[[a]], [b, c, d], r1) == Below(ram, tree[[a]], b, [c, d], r1);
      if [a, b] in tree {
        var r2 := Through(ram, tree[[a]], b, r1);
        assert Hardware(ram, tree[[a, b]], [c, d], r2) == Below(ram, tree[[a, b]], c, [d], r2);
        if [a, b, c] in tree {
          var r3 := Through(ram, tree[[a, b]], c, r2);
          assert Hardware(ram, tree[[a, b, c]], [d], r3) == Below(ram, tree[[a, b, c]], d, [], r3);
        }
      }
    }
  }

  ghost function Through(ram: Ram, table: int, i: nat, rights: Rights): Rights
    requires IsTable(ram, table) && i < ENTRIES
  {
    var e := ram[table].w[i];
    Rights(e.frame, rights.write && e.flags.write, rights.user && e.flags.user, rights.nx || e.flags.nx)
  }

  ghost function Below(ram: Ram, table: int, i: nat, path: seq<nat>, rights: Rights): Option<Rights>
    requires IsTable(ram, table) && i < ENTRIES
  {
    if !ram[table].w[i].flags.present then None
    else Hardware(ram, ram[table].w[i].frame, path, Through(ram, table, i, rights))
  }

  // ----- changing a tree, on values

  function PutEntry(ram: Ram, f: int, i: nat, e: Pte): Ram
    requires f in ram && ram[f].Words? && i < |ram[f].w|
  {
    ram[f := Words(ram[f].w[i := e])]
  }

  function ZeroTable(): Frame { Words(seq(ENTRIES, _ => ZERO)) }

  /** A parent widened keeps every leaf and every rule. */
  lemma Widened(ram: Ram, root: int, tree: Tables, p: seq<nat>, i: nat, want: Flags)
    requires TreeOk(ram, root, tree) && p in tree && |p| < 3 && i < ENTRIES && (p == [] ==> i < 256) && p + [i] in tree
    requires want.present && want.write && !want.huge && !want.nx && IsTable(ram, tree[p])
    ensures var e := ram[tree[p]].w[i];
            var ram' := PutEntry(ram, tree[p], i, e.(flags := OrFlags(e.flags, want)));
            TreeOk(ram', root, tree) && SameLeaves(ram, tree, ram', tree)
  {
    var e := ram[tree[p]].w[i];
    var ram' := PutEntry(ram, tree[p], i, e.(flags := OrFlags(e.flags, want)));
    forall q ensures NodeOk(ram', tree, q) { assert NodeOk(ram, tree, q); }
    forall q, j ensures ParentEntryOk(ram', tree, q, j) {
      assert NodeOk(ram, tree, q) && ParentEntryOk(ram, tree, q, j) && Apart(tree, p, q);
    }
    forall q, j ensures LeafOk(ram', tree, q, j) {
      assert NodeOk(ram, tree, q) && LeafOk(ram, tree, q, j) && Apart(tree, p, q);
      if q in tree && |q| == 3 && UserWay(ram, tree, q) {
        StillUser(ram, ram', tree, p, i, [], q[0]);
        StillUser(ram, ram', tree, p, i, [q[0]], q[1]);
        StillUser(ram, ram', tree, p, i, [q[0], q[1]], q[2]);
      }
    }
    forall path: seq<nat> | |path| == 4 ensures Leaf(ram', tree, path) == Leaf(ram, tree, path) {
      assert Apart(tree, p, path[..3]) && NodeOk(ram, tree, path[..3]);
    }
  }

  lemma StillUser(ram: Ram, ram': Ram, tree: Tables, p: seq<nat>, i: nat, q: seq<nat>, j: nat)
    requires p in tree && IsTable(ram, tree[p]) && i < ENTRIES && UserEntry(ram, tree, q, j) && Apart(tree, p, q)
    requires exists e: Pte :: ram' == PutEntry(ram, tree[p], i, e) && (ram[tree[p]].w[i].flags.user ==> e.flags.user)
    ensures UserEntry(ram', tree, q, j)
  {
  }

  /** A fresh table hung under an absent entry adds no page. */
  lemma Extended(ram: Ram, root: int, tree: Tables, p: seq<nat>, i: nat, f: nat, want: Flags)
    requires TreeOk(ram, root, tree) && p in tree && |p| < 3 && i < ENTRIES && (p == [] ==> i < 256) && p + [i] !in tree
    requires f !in tree.Values && IsTable(ram, tree[p])
    requires want.present && want.write && !want.huge && !want.nx
    ensures var ram' := PutEntry(ram[f := ZeroTable()], tree[p], i, Pte(f, want));
            var tree' := tree[p + [i] := f];
            TreeOk(ram', root, tree') && SameLeaves(ram, tree, ram', tree')
  {
    var ram' := PutEntry(ram[f := ZeroTable()], tree[p], i, Pte(f, want));
    var new' := p + [i];
    var tree' := tree[new' := f];
    assert NodeOk(ram, tree, p);
    assert new'[..|new'| - 1] == p;
    forall q ensures NodeOk(ram', tree', q) {
      assert NodeOk(ram, tree, q);
      if q in tree { assert tree[q] in tree.Values; }
    }
    forall q, j ensures ParentEntryOk(ram', tree', q, j) {
      if q in tree {
        assert tree[q] in tree.Values;
        assert NodeOk(ram, tree, q) && ParentEntryOk(ram, tree, q, j) && Apart(tree, p, q);
        assert q + [j] == new' <==> q == p && j == i by {
          assert (q + [j])[..|q|] == q && (q + [j])[|q|] == j;
        }
      } else if q == new' {
        assert NodeOk(ram, tree, q + [j]);
        assert (q + [j])[..|q|] == q;
      }
    }
    forall q, j ensures LeafOk(ram', tree', q, j) {
      if q in tree {
        assert tree[q] in tree.Values;
        assert NodeOk(ram, tree, q) && LeafOk(ram, tree, q, j) && Apart(tree, p, q);
        if |q| == 3 && UserWay(ram, tree, q) {
          Prefixes(ram, tree, q);
          KeptUser(ram, tree, p, i, f, want, [], q[0]);
          KeptUser(ram, tree, p, i, f, want, [q[0]], q[1]);
          KeptUser(ram, tree, p, i, f, want, [q[0], q[1]], q[2]);
        }
      }
    }
    forall a, b ensures Apart(tree', a, b) {
      assert Apart(tree, a, b);
      assert a in tree ==> tree[a] in tree.Values;
      assert b in tree ==> tree[b] in tree.Values;
    }
    forall path: seq<nat> | |path| == 4 ensures Leaf(ram', tree', path) == Leaf(ram, tree, path) {
      var q := path[..3];
      assert q in tree ==> tree[q] in tree.Values;
      assert Apart(tree, p, q) && NodeOk(ram, tree, q);
    }
  }

  lemma Prefixes(ram: Ram, tree: Tables, q: seq<nat>)
    requires forall p {:trigger NodeOk(ram, tree, p)} :: NodeOk(ram, tree, p)
    requires q in tree && |q| == 3
    ensures [] + [q[0]] in tree && [q[0]] + [q[1]] in tree && [q[0], q[1]] + [q[2]] in tree && q[0] < 256
  {
    assert NodeOk(ram, tree, q);
    assert q[..2] == [q[0], q[1]] && [q[0], q[1]] + [q[2]] == q;
    assert NodeOk(ram, tree, [q[0], q[1]]);
    assert [q[0], q[1]][..1] == [q[0]] && [q[0]] + [q[1]] == [q[0], q[1]];
    assert [] + [q[0]] == [q[0]];
  }

  lemma KeptUser(ram: Ram, tree: Tables, p: seq<nat>, i: nat, f: nat, want: Flags, q: seq<nat>, j: nat)
    requires p in tree && IsTable(ram, tree[p]) && i < ENTRIES && f !in tree.Values && UserEntry(ram, tree, q, j)
    requires Apart(tree, p, q) && p + [i] !in tree && ParentEntryOk(ram, tree, p, i) && |p| < 3 && (p == [] ==> i < 256)
    requires q + [j] in tree
    ensures UserEntry(PutEntry(ram[f := ZeroTable()], tree[p], i, Pte(f, want)), tree[p + [i] := f], q, j)
  {
    assert tree[q] in tree.Values;
  }
}
