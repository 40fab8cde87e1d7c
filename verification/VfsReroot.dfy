// Tree surgery: taking an entry out of its directory, joining one into another,
// and the law of moving: exactly one subtree changes its path
// (kernel/src/vfstree.c:24-53, kernel/src/vfsmove.c:61-103).
module VfsReroot {
  import opened Common
  import opened VfsTypes
  import opened VfsTree

  function Without(s: seq<int>, x: int): (r: seq<int>)
    ensures forall c :: c in r ==> c in s
    ensures forall c :: c in s && c != x ==> c in r
    ensures x !in s ==> r == s
  {
    if s == [] then []
    else if s[0] == x then
      assert forall c :: c in s ==> c == x || c in s[1..];
      s[1..]
    else
      var r := [s[0]] + Without(s[1..], x);
      assert forall c :: c in s ==> c == s[0] || c in s[1..];
      assert forall c :: c in r ==> c == s[0] || c in Without(s[1..], x);
      r
  }

  lemma {:induction false} WithoutNoDup(s: seq<int>, x: int)
    requires NoDup(s)
    ensures NoDup(Without(s, x)) && x !in Without(s, x)
  {
    if s != [] {
      WithoutNoDup(s[1..], x);
      assert s[0] !in s[1..];
    }
  }

  /** `at` taken out of its parent's list; its own entry is left as it was. */
  function Detach(t: Tree, at: int): Tree
    requires 0 <= at < |t| && !t[at].Free?
    requires 0 <= t[at].parent < |t| && t[t[at].parent].Dir?
  {
    var p := t[at].parent;
    t[p := t[p].(kids := Without(t[p].kids, at))]
  }

  /** `at` joined to the end of `q`'s list. */
  function Attach(t: Tree, q: int, at: int): Tree
    requires 0 <= at < |t| && !t[at].Free? && 0 <= q < |t| && t[q].Dir? && q != at
  {
    t[at := t[at].(parent := q)][q := t[q].(kids := t[q].kids + [at])]
  }

  function MoveTree(t: Tree, at: int, q: int, name: Text): Tree
    requires 0 <= at < |t| && !t[at].Free? && 0 <= q < |t| && t[q].Dir? && q != at
    requires 0 <= t[at].parent < |t| && t[t[at].parent].Dir?
  {
    var d := Detach(t, at);
    Attach(d[at := d[at].(name := name)], q, at)
  }

  /** What `MoveTree` does, entry by entry. */
  ghost predicate Moved(t: Tree, t': Tree, at: int, q: int, name: Text) {
    && |t'| == |t| && InTree(t, at)
    && (forall i :: 0 <= i < |t| ==> MovedEntry(t[i], t'[i], i, at, t[at].parent, q, name))
  }

  ghost predicate MovedEntry(e: Entry, e': Entry, i: int, at: int, p: int, q: int, name: Text) {
    match e
    case Free => e' == Free
    case File(_, _, data) =>
      e'.File? && e'.data == data && Heading(e, e', i == at, q, name)
    case Dir(_, _, kids) =>
      && e'.Dir? && Heading(e, e', i == at, q, name)
      && var left := if i == p then Without(kids, at) else kids;
         e'.kids == if i == q then left + [at] else left
  }

  ghost predicate Heading(e: Entry, e': Entry, moved: bool, q: int, name: Text)
    requires !e.Free? && !e'.Free?
  {
    if moved then e'.parent == q && e'.name == name
    else e'.parent == e.parent && e'.name == e.name
  }

  lemma MoveTreeMoves(t: Tree, at: int, q: int, name: Text)
    requires InTree(t, at) && 0 <= q < |t| && t[q].Dir? && q != at
    requires 0 <= t[at].parent < |t| && t[t[at].parent].Dir? && t[at].parent != at
    ensures Moved(t, MoveTree(t, at, q, name), at, q, name)
  {
  }

  ghost predicate MayMove(t: Tree, at: int, q: int) {
    TreeOk(t) && InTree(t, at) && at != 0 && 0 <= q < |t| && t[q].Dir? && Rooted(t, q) && !Within(t, q, at)
  }

  lemma MayMoveParts(t: Tree, at: int, q: int)
    requires MayMove(t, at, q)
    ensures q != at && ParentOk(t, at) && t[at].parent != at && InTree(t, q)
    ensures Rooted(t, at)
  {
    WithinStep(t, q, at);
    assert ParentOk(t, at) && Rooted(t, at);
    if t[at].parent == at { SelfNeverClimbs(t, at, |t|); }
  }

  lemma {:induction false} SelfNeverClimbs(t: Tree, i: int, n: nat)
    requires 0 <= i < |t| && i != 0 && !t[i].Free? && t[i].parent == i
    ensures !Climb(t, i, n)
  {
    if n > 0 { SelfNeverClimbs(t, i, n - 1); }
  }

  /** Outside the moved subtree every climb goes on as before. */
  lemma {:induction false} OutsideClimb(t: Tree, t': Tree, at: int, q: int, name: Text, i: int, n: nat)
    requires Moved(t, t', at, q, name) && Climb(t, i, n) && !Inside(t, i, at, n)
    ensures Climb(t', i, n) && PathTo(t', i, n) == PathTo(t, i, n)
    decreases n
  {
    assert MovedEntry(t[i], t'[i], i, at, t[at].parent, q, name);
    if i != 0 { OutsideClimb(t, t', at, q, name, t[i].parent, n - 1); }
  }

  /** Inside it, a climb reaches `at` and goes on from the new parent. */
  lemma {:induction false} InsideClimb(t: Tree, t': Tree, at: int, q: int, name: Text, i: int, n: nat, m: nat)
    requires Moved(t, t', at, q, name) && at != 0 && Climb(t, at, m) && Climb(t, q, m) && !Inside(t, q, at, m)
    requires Climb(t, i, n) && Inside(t, i, at, n)
    ensures var src, dst := PathTo(t, at, m), PathTo(t, q, m) + [name];
            && src <= PathTo(t, i, n)
            && Climb(t', i, n + 1 + m)
            && PathTo(t', i, n + 1 + m) == dst + PathTo(t, i, n)[|src|..]
    decreases n
  {
    assert MovedEntry(t[i], t'[i], i, at, t[at].parent, q, name);
    if i == at {
      OutsideClimb(t, t', at, q, name, q, m);
      ClimbMore(t', q, m, n + m);
      PathToSame(t', q, m, n + m);
      PathToSame(t, at, n, m);
    } else {
      InsideClimb(t, t', at, q, name, t[i].parent, n - 1, m);
      var src := PathTo(t, at, m);
      var up := PathTo(t, t[i].parent, n - 1);
      assert (up + [t[i].name])[|src|..] == up[|src|..] + [t[i].name];
    }
  }

  lemma MoveClimb(t: Tree, t': Tree, at: int, q: int, name: Text, i: int, m: nat)
    requires Moved(t, t', at, q, name) && at != 0 && Climb(t, at, m) && Climb(t, q, m) && !Inside(t, q, at, m)
    requires Climb(t, i, m)
    ensures Climb(t', i, |t'|)
  {
    if Inside(t, i, at, m) {
      InsideClimb(t, t', at, q, name, i, m, m);
      ClimbBound(t', i, m + 1 + m);
    } else {
      OutsideClimb(t, t', at, q, name, i, m);
      ClimbBound(t', i, m);
    }
  }

  lemma MoveParent(t: Tree, t': Tree, at: int, q: int, name: Text, i: int)
    requires Moved(t, t', at, q, name) && at != q && InTree(t, q) && t[q].Dir?
    requires InTree(t, i) && InTree(t', i) && ParentOk(t, i) && ParentOk(t, at)
    ensures ParentOk(t', i)
  {
    var p' := if i == at then q else t[i].parent;
    assert MovedEntry(t[i], t'[i], i, at, t[at].parent, q, name);
    assert MovedEntry(t[p'], t'[p'], p', at, t[at].parent, q, name);
  }

  lemma MoveKids(t: Tree, t': Tree, at: int, q: int, name: Text, d: int)
    requires Moved(t, t', at, q, name) && at > 0 && 0 <= d < |t| && t[d].Dir? && t'[d].Dir? && KidsOk(t, d)
    ensures KidsOk(t', d)
  {
    var p := t[at].parent;
    var kids, kids' := t[d].kids, t'[d].kids;
    assert MovedEntry(t[d], t'[d], d, at, p, q, name);
    var left := if d == p then Without(kids, at) else kids;
    if d == p { WithoutNoDup(kids, at); }
    assert at !in left;
    forall c | c in kids'
      ensures 0 < c && InTree(t', c) && t'[c].parent == d
    {
      if c in left { assert c in kids; } else { assert c == at; }
      assert MovedEntry(t[c], t'[c], c, at, p, q, name);
    }
  }

  /** The guard of `is_within` is what keeps a move a tree. */
  lemma MoveKeepsTree(t: Tree, t': Tree, at: int, q: int, name: Text)
    requires MayMove(t, at, q) && Moved(t, t', at, q, name)
    ensures TreeOk(t')
  {
    MayMoveParts(t, at, q);
    forall i | InTree(t', i)
      ensures ParentOk(t', i) && Rooted(t', i)
    {
      assert MovedEntry(t[i], t'[i], i, at, t[at].parent, q, name);
      assert InTree(t, i) && ParentOk(t, i) && Rooted(t, i);
      MoveParent(t, t', at, q, name, i);
      MoveClimb(t, t', at, q, name, i, |t|);
    }
    forall d | 0 <= d < |t'| && t'[d].Dir?
      ensures KidsOk(t', d)
    {
      assert MovedEntry(t[d], t'[d], d, at, t[at].parent, q, name);
      MoveKids(t, t', at, q, name, d);
    }
    assert MovedEntry(t[0], t'[0], 0, at, t[at].parent, q, name);
  }

  lemma MoveKeepsNames(t: Tree, t': Tree, at: int, q: int, name: Text)
    requires MayMove(t, at, q) && Moved(t, t', at, q, name) && NamesOk(t) && UsableName(name)
    requires FindNamed(t, t[q].kids, name) == NONE
    ensures NamesOk(t')
  {
    MayMoveParts(t, at, q);
    var p := t[at].parent;
    forall i | InTree(t', i)
      ensures InTree(t, i) && Heading(t[i], t'[i], i == at, q, name)
    {
      assert MovedEntry(t[i], t'[i], i, at, p, q, name);
    }
    forall i | InTree(t, i) && i != 0 && t[i].parent == q
      ensures t[i].name != name
    {
      assert ParentOk(t, i);
    }
    forall i | InTree(t', i) && i != 0 ensures UsableName(t'[i].name) {
      assert UsableName(t[i].name) || i == at;
    }
    forall i, j ensures NamedApart(t', i, j) {
      assert NamedApart(t, i, j);
    }
  }

  /** Where every node's path goes. */
  lemma MovedPath(t: Tree, t': Tree, at: int, q: int, name: Text, i: int)
    requires MayMove(t, at, q) && Moved(t, t', at, q, name) && TreeOk(t') && InTree(t, i)
    ensures InTree(t, q) && InTree(t', i) && Rooted(t, i) && Rooted(t', i) && Rooted(t, at)
    ensures Within(t, i, at) ==>
              && PathOf(t, at) <= PathOf(t, i)
              && PathOf(t', i) == PathOf(t, q) + [name] + PathOf(t, i)[|PathOf(t, at)|..]
    ensures !Within(t, i, at) ==> PathOf(t', i) == PathOf(t, i)
  {
    MayMoveParts(t, at, q);
    var m := |t|;
    assert MovedEntry(t[i], t'[i], i, at, t[at].parent, q, name);
    assert InTree(t', i) && Rooted(t, i) && Rooted(t', i);
    if Within(t, i, at) {
      InsideClimb(t, t', at, q, name, i, m, m);
      PathToSame(t', i, m + 1 + m, m);
    } else {
      OutsideClimb(t, t', at, q, name, i, m);
    }
  }

  /** With distinct sibling names, the nodes under `at` are the ones whose path
      begins with `at`'s. */
  lemma {:induction false} PrefixIsWithin(t: Tree, at: int, i: int, n: nat)
    requires TreeOk(t) && NamesOk(t) && Rooted(t, at) && Rooted(t, i) && Climb(t, i, n) && PathOf(t, at) <= PathOf(t, i)
    ensures Within(t, i, at)
    decreases n
  {
    WithinStep(t, i, at);
    if i != at {
      if i == 0 {
        FindIffPath(t, [], at);
      } else {
        PathStep(t, i);
        if PathOf(t, at) == PathOf(t, i) {
          FindIffPath(t, PathOf(t, i), at);
          FindIffPath(t, PathOf(t, i), i);
        } else {
          assert PathOf(t, at) <= PathOf(t, t[i].parent);
          PrefixIsWithin(t, at, t[i].parent, n - 1);
        }
      }
    }
  }

  /** A move re-roots one subtree. For every list of names at all: below the
      destination it finds what the same suffix found below the source, below
      the source it finds nothing, and anywhere else it finds what it did. */
  lemma MoveReroots(t: Tree, t': Tree, at: int, q: int, name: Text, x: seq<Text>)
    requires MayMove(t, at, q) && Moved(t, t', at, q, name) && NamesOk(t) && UsableName(name)
    requires FindNamed(t, t[q].kids, name) == NONE
    ensures Rooted(t, at) && Find(t', 0, x) == FoundAfterMove(t, PathOf(t, at), PathOf(t, q) + [name], x)
  {
    MayMoveParts(t, at, q);
    MoveKeepsTree(t, t', at, q, name);
    MoveKeepsNames(t, t', at, q, name);
    var now, was := Find(t', 0, x), FoundAfterMove(t, PathOf(t, at), PathOf(t, q) + [name], x);
    if now != NONE { FoundAfter(t, t', at, q, name, x); }
    if was != NONE { FoundBefore(t, t', at, q, name, x); }
  }

  ghost function FoundAfterMove(t: Tree, src: seq<Text>, dst: seq<Text>, x: seq<Text>): int {
    if dst <= x then Find(t, 0, src + x[|dst|..])
    else if src <= x then NONE
    else Find(t, 0, x)
  }

  /** What the new tree finds had, in the old one, the path the law says. */
  lemma FoundAfter(t: Tree, t': Tree, at: int, q: int, name: Text, x: seq<Text>)
    requires MayMove(t, at, q) && Moved(t, t', at, q, name) && TreeOk(t') && NamesOk(t) && NamesOk(t')
    requires FindNamed(t, t[q].kids, name) == NONE && Rooted(t, at)
    requires Find(t', 0, x) != NONE
    ensures Find(t', 0, x) == FoundAfterMove(t, PathOf(t, at), PathOf(t, q) + [name], x)
  {
    var src, dst := PathOf(t, at), PathOf(t, q) + [name];
    var found := Find(t', 0, x);
    FoundHasPath(t', x);
    assert MovedEntry(t[found], t'[found], found, at, t[at].parent, q, name);
    MovedPath(t, t', at, q, name, found);
    if Within(t, found, at) {
      var y := PathOf(t, found);
      assert x[|dst|..] == y[|src|..];
      assert src + x[|dst|..] == y;
      FindIffPath(t, y, found);
    } else {
      FindIffPath(t, x, found);
      if src <= x { PrefixIsWithin(t, at, found, |t|); }
      if dst <= x { DestinationWasFree(t, q, name, x); }
    }
  }

  /** And what the old tree found is found again under its new path. */
  lemma FoundBefore(t: Tree, t': Tree, at: int, q: int, name: Text, x: seq<Text>)
    requires MayMove(t, at, q) && Moved(t, t', at, q, name) && TreeOk(t') && NamesOk(t) && NamesOk(t')
    requires Rooted(t, at)
    requires FoundAfterMove(t, PathOf(t, at), PathOf(t, q) + [name], x) != NONE
    ensures Find(t', 0, x) == FoundAfterMove(t, PathOf(t, at), PathOf(t, q) + [name], x)
  {
    var src, dst := PathOf(t, at), PathOf(t, q) + [name];
    var y := if dst <= x then src + x[|dst|..] else x;
    var found := Find(t, 0, y);
    FoundHasPath(t, y);
    MovedPath(t, t', at, q, name, found);
    if dst <= x {
      PrefixIsWithin(t, at, found, |t|);
      assert y[|src|..] == x[|dst|..];
      assert dst + x[|dst|..] == x;
    }
    FindIffPath(t', x, found);
  }

  /** Nothing was under a name its directory did not hold. */
  lemma DestinationWasFree(t: Tree, q: int, name: Text, x: seq<Text>)
    requires TreeOk(t) && NamesOk(t) && 0 <= q < |t| && t[q].Dir?
    requires FindNamed(t, t[q].kids, name) == NONE && Rooted(t, q) && PathOf(t, q) + [name] <= x
    ensures Find(t, 0, x) == NONE
  {
    var dst := PathOf(t, q) + [name];
    FindIffPath(t, PathOf(t, q), q);
    FindSnoc(t, 0, PathOf(t, q), name);
    assert x == dst + x[|dst|..];
    FindSplit(t, 0, dst, x[|dst|..]);
    NothingBelowNone(t, x[|dst|..]);
  }

  lemma {:induction false} NothingBelowNone(t: Tree, x: seq<Text>)
    ensures Find(t, NONE, x) == NONE
  {
    if x != [] { NothingBelowNone(t, x[1..]); }
  }

  // ----- adding and removing one entry

  function NewEntry(kind: Kind, name: Text, parent: int): Entry {
    match kind
    case DirKind => Dir(name, parent, [])
    case FileKind => File(name, parent, [])
  }

  function AddEntry(t: Tree, p: int, made: int, kind: Kind, name: Text): Tree
    requires 0 <= made < |t| && 0 <= p < |t| && t[p].Dir? && made != p
  {
    t[made := NewEntry(kind, name, p)][p := t[p].(kids := t[p].kids + [made])]
  }

  function RemoveEntry(t: Tree, at: int): Tree
    requires 0 <= at < |t| && !t[at].Free?
    requires 0 <= t[at].parent < |t| && t[t[at].parent].Dir?
  {
    Detach(t, at)[at := Free]
  }

  ghost predicate MayAdd(t: Tree, p: int, made: int) {
    TreeOk(t) && 0 < made < |t| && t[made].Free? && 0 <= p < |t| && t[p].Dir?
  }

  lemma {:induction false} AddClimb(t: Tree, p: int, made: int, kind: Kind, name: Text, i: int, n: nat)
    requires 0 < made < |t| && t[made].Free? && InTree(t, p) && t[p].Dir? && Climb(t, i, n)
    ensures Climb(AddEntry(t, p, made, kind, name), i, n)
    decreases n
  {
    if i != 0 { AddClimb(t, p, made, kind, name, t[i].parent, n - 1); }
  }

  lemma AddKeepsTree(t: Tree, p: int, made: int, kind: Kind, name: Text)
    requires MayAdd(t, p, made)
    ensures TreeOk(AddEntry(t, p, made, kind, name))
  {
    var t' := AddEntry(t, p, made, kind, name);
    assert Rooted(t, p);
    AddClimb(t, p, made, kind, name, p, |t|);
    assert Climb(t', made, |t| + 1);
    ClimbBound(t', made, |t| + 1);
    forall i | InTree(t', i)
      ensures ParentOk(t', i) && Rooted(t', i)
    {
      if i != made {
        assert InTree(t, i) && ParentOk(t, i) && Rooted(t, i);
        AddClimb(t, p, made, kind, name, i, |t|);
        if t[i].parent == p { assert forall k :: k in t[p].kids ==> k in t'[p].kids; }
      }
    }
    forall d | 0 <= d < |t'| && t'[d].Dir?
      ensures KidsOk(t', d)
    {
      if d != made {
        assert KidsOk(t, d);
        forall c | c in t'[d].kids ensures 0 < c && InTree(t', c) && t'[c].parent == d {
          assert c in t[d].kids || c == made;
        }
      }
    }
  }

  lemma AddKeepsNames(t: Tree, p: int, made: int, kind: Kind, name: Text)
    requires MayAdd(t, p, made) && NamesOk(t) && UsableName(name) && FindNamed(t, t[p].kids, name) == NONE
    ensures NamesOk(AddEntry(t, p, made, kind, name))
  {
    var t' := AddEntry(t, p, made, kind, name);
    forall i | InTree(t, i) && i != 0 && t[i].parent == p
      ensures t[i].name != name
    {
      assert ParentOk(t, i);
    }
    forall i | InTree(t', i) && i != made
      ensures InTree(t, i) && t'[i].name == t[i].name && t'[i].parent == t[i].parent
    {
    }
    forall i | InTree(t', i) && i != 0 ensures UsableName(t'[i].name) {
      assert i != made ==> UsableName(t[i].name);
    }
    forall i, j ensures NamedApart(t', i, j) {
      assert NamedApart(t, i, j);
    }
  }

  ghost predicate MayRemove(t: Tree, at: int) {
    TreeOk(t) && InTree(t, at) && at != 0 && (t[at].Dir? ==> t[at].kids == [])
  }

  /** Nothing climbs through an entry that has no children. */
  lemma {:induction false} RemoveClimb(t: Tree, at: int, i: int, n: nat)
    requires MayRemove(t, at) && ParentOk(t, at) && t[at].parent != at && Climb(t, i, n) && i != at
    ensures Climb(RemoveEntry(t, at), i, n)
    decreases n
  {
    if i != 0 {
      assert ParentOk(t, i);
      RemoveClimb(t, at, t[i].parent, n - 1);
    }
  }

  lemma RemoveKeepsTree(t: Tree, at: int)
    requires MayRemove(t, at)
    ensures ParentOk(t, at) && t[at].parent != at && TreeOk(RemoveEntry(t, at))
  {
    assert ParentOk(t, at);
    var t' := RemoveEntry(t, at);
    var p := t[at].parent;
    assert KidsOk(t, p);
    WithoutNoDup(t[p].kids, at);
    forall i | InTree(t', i)
      ensures ParentOk(t', i) && Rooted(t', i)
    {
      assert InTree(t, i) && ParentOk(t, i) && Rooted(t, i);
      RemoveClimb(t, at, i, |t|);
    }
    forall d | 0 <= d < |t'| && t'[d].Dir?
      ensures KidsOk(t', d)
    {
      assert KidsOk(t, d);
      forall c | c in t'[d].kids ensures 0 < c && InTree(t', c) && t'[c].parent == d {
        assert c in t[d].kids && c != at;
      }
    }
  }

  /** Removing what was just added leaves the tree it was added to. */
  lemma RemoveUndoesAdd(t: Tree, p: int, made: int, kind: Kind, name: Text)
    requires MayAdd(t, p, made)
    ensures RemoveEntry(AddEntry(t, p, made, kind, name), made) == t
  {
    assert KidsOk(t, p);
    assert made !in t[p].kids;
    WithoutLast(t[p].kids, made);
  }

  lemma {:induction false} WithoutLast(s: seq<int>, x: int)
    requires x !in s
    ensures Without(s + [x], x) == s
  {
    if s != [] {
      assert (s + [x])[1..] == s[1..] + [x];
      WithoutLast(s[1..], x);
    } else {
      assert s + [x] == [x];
    }
  }

  /** Names stay usable and distinct when entries keep their headings or go. */
  lemma SameHeadingsSameNames(t: Tree, t': Tree)
    requires NamesOk(t)
    requires forall i :: InTree(t', i) ==> InTree(t, i) && t'[i].name == t[i].name && t'[i].parent == t[i].parent
    ensures NamesOk(t')
  {
    forall i | InTree(t', i) && i != 0 ensures UsableName(t'[i].name) { assert UsableName(t[i].name); }
    forall i, j ensures NamedApart(t', i, j) { assert NamedApart(t, i, j); }
  }

  // ----- changing what is inside a file

  lemma {:induction false} DataClimb(t: Tree, at: int, data: seq<Byte>, i: int, n: nat)
    requires 0 <= at < |t| && t[at].File? && Climb(t, i, n)
    ensures Climb(t[at := t[at].(data := data)], i, n)
    decreases n
  {
    if i != 0 { DataClimb(t, at, data, t[i].parent, n - 1); }
  }

  lemma DataKeepsTree(t: Tree, at: int, data: seq<Byte>)
    requires TreeOk(t) && 0 <= at < |t| && t[at].File?
    ensures TreeOk(t[at := t[at].(data := data)])
    ensures NamesOk(t) ==> NamesOk(t[at := t[at].(data := data)])
  {
    var t' := t[at := t[at].(data := data)];
    forall i | InTree(t', i)
      ensures ParentOk(t', i) && Rooted(t', i)
    {
      assert InTree(t, i) && ParentOk(t, i) && Rooted(t, i);
      DataClimb(t, at, data, i, |t|);
    }
    forall d | 0 <= d < |t'| && t'[d].Dir?
      ensures KidsOk(t', d)
    {
      assert KidsOk(t, d);
    }
    if NamesOk(t) { SameHeadingsSameNames(t, t'); }
  }
}
