// The tree the node table stands for: climbing to the root, paths as lists of
// names, and what detaching and attaching one entry does to both.
module VfsTree {
  import opened Counting
  import opened VfsTypes

  ghost predicate InTree(t: Tree, i: int) { 0 <= i < |t| && !t[i].Free? }

  ghost predicate NoDup(s: seq<int>) { forall j, k :: 0 <= j < k < |s| ==> s[j] != s[k] }

  /** Going up from `i` reaches the root in at most `n` steps. */
  ghost predicate Climb(t: Tree, i: int, n: nat)
    decreases n
  {
    InTree(t, i) && (i == 0 || (n > 0 && Climb(t, t[i].parent, n - 1)))
  }

  ghost predicate Rooted(t: Tree, i: int) { Climb(t, i, |t|) }

  /** One acyclic tree rooted at node 0, in which every used node but the root
      is listed once, by its own parent. The triggers keep each clause quiet
      until a proof names the node it needs. */
  ghost predicate TreeOk(t: Tree) {
    && |t| == MAX_NODES
    && t[0].Dir? && t[0].parent == 0 && t[0].name == []
    && (forall i {:trigger ParentOk(t, i)} :: InTree(t, i) ==> ParentOk(t, i))
    && (forall i {:trigger Rooted(t, i)} :: InTree(t, i) ==> Rooted(t, i))
    && (forall d {:trigger KidsOk(t, d)} :: 0 <= d < |t| && t[d].Dir? ==> KidsOk(t, d))
  }

  ghost predicate ParentOk(t: Tree, i: int)
    requires InTree(t, i)
  {
    var p := t[i].parent;
    0 <= p < |t| && t[p].Dir? && (i != 0 ==> i in t[p].kids)
  }

  ghost predicate KidsOk(t: Tree, d: int)
    requires 0 <= d < |t| && t[d].Dir?
  {
    NoDup(t[d].kids) &&
    forall c :: c in t[d].kids ==> 0 < c && InTree(t, c) && t[c].parent == d
  }

  /** A name a path can spell (kernel/src/vfspath.c:166-184). */
  predicate UsableName(name: Text) {
    0 < |name| < NAME_MAX && name != [DOT] && name != [DOT, DOT] && SLASH !in name
  }

  ghost predicate NamesOk(t: Tree) {
    && (forall i {:trigger UsableName(t[i].name)} :: InTree(t, i) && i != 0 ==> UsableName(t[i].name))
    && (forall i, j {:trigger NamedApart(t, i, j)} :: NamedApart(t, i, j))
  }

  /** Two entries of one directory have different names. */
  ghost predicate NamedApart(t: Tree, i: int, j: int) {
    (InTree(t, i) && InTree(t, j) && i != 0 && j != 0 && i != j && t[i].parent == t[j].parent) ==>
    t[i].name != t[j].name
  }

  // ----- how long a climb can be

  lemma {:induction false} ClimbMore(t: Tree, i: int, n: nat, m: nat)
    requires Climb(t, i, n) && n <= m
    ensures Climb(t, i, m)
    decreases n
  {
    if i != 0 { ClimbMore(t, t[i].parent, n - 1, m - 1); }
  }

  /** A climb that meets no node of `avoid`. */
  ghost predicate ClimbAvoiding(t: Tree, i: int, n: nat, avoid: set<int>)
    decreases n
  {
    InTree(t, i) && i !in avoid &&
    (i == 0 || (n > 0 && ClimbAvoiding(t, t[i].parent, n - 1, avoid)))
  }

  lemma {:induction false} ClimbAvoidsNothing(t: Tree, i: int, n: nat)
    requires Climb(t, i, n)
    ensures ClimbAvoiding(t, i, n, {})
    decreases n
  {
    if i != 0 { ClimbAvoidsNothing(t, t[i].parent, n - 1); }
  }

  /** Either the climb also misses `x`, or `x` itself climbs no further. */
  lemma {:induction false} AvoidOrMeet(t: Tree, i: int, n: nat, avoid: set<int>, x: int)
    requires ClimbAvoiding(t, i, n, avoid)
    ensures ClimbAvoiding(t, i, n, avoid + {x}) || ClimbAvoiding(t, x, n, avoid)
    decreases n
  {
    if i != x && i != 0 {
      AvoidOrMeet(t, t[i].parent, n - 1, avoid, x);
      if ClimbAvoiding(t, x, n - 1, avoid) { AvoidingMore(t, x, n - 1, avoid); }
    }
  }

  lemma {:induction false} AvoidingMore(t: Tree, i: int, n: nat, avoid: set<int>)
    requires ClimbAvoiding(t, i, n, avoid)
    ensures ClimbAvoiding(t, i, n + 1, avoid)
    decreases n
  {
    if i != 0 { AvoidingMore(t, t[i].parent, n - 1, avoid); }
  }

  /** The pigeonhole step: no climb needs more steps than there are nodes left
      to meet. */
  lemma {:induction false} ClimbWithin(t: Tree, i: int, n: nat, avoid: set<int>)
    requires ClimbAvoiding(t, i, n, avoid) && avoid <= Below(|t|)
    ensures |avoid| < |t|
    ensures Climb(t, i, |t| - 1 - |avoid|)
    decreases n
  {
    var more := avoid + {i};
    assert more <= Below(|t|);
    SubsetSize(more, Below(|t|));
    if i != 0 {
      var p := t[i].parent;
      AvoidOrMeet(t, p, n - 1, avoid, i);
      if ClimbAvoiding(t, p, n - 1, more) {
        ClimbWithin(t, p, n - 1, more);
      } else {
        ClimbWithin(t, i, n - 1, avoid);
      }
    }
  }

  /** However long the climb that was found, one within the size of the table
      exists. This is what makes the disk checker's step limit harmless. */
  lemma ClimbBound(t: Tree, i: int, n: nat)
    requires Climb(t, i, n)
    ensures |t| > 0 && Climb(t, i, |t| - 1) && Climb(t, i, |t|)
  {
    ClimbAvoidsNothing(t, i, n);
    ClimbWithin(t, i, n, {});
    ClimbMore(t, i, |t| - 1, |t|);
  }

  // ----- paths

  /** The names from the root down to `i`. */
  ghost function PathTo(t: Tree, i: int, n: nat): seq<Text>
    requires Climb(t, i, n)
    decreases n
  {
    if i == 0 then [] else PathTo(t, t[i].parent, n - 1) + [t[i].name]
  }

  ghost function PathOf(t: Tree, i: int): seq<Text>
    requires Rooted(t, i)
  {
    PathTo(t, i, |t|)
  }

  lemma {:induction false} PathToSame(t: Tree, i: int, n: nat, m: nat)
    requires Climb(t, i, n) && Climb(t, i, m)
    ensures PathTo(t, i, n) == PathTo(t, i, m)
    decreases n
  {
    if i != 0 { PathToSame(t, t[i].parent, n - 1, m - 1); }
  }

  lemma PathStep(t: Tree, i: int)
    requires TreeOk(t) && InTree(t, i) && i != 0
    ensures InTree(t, t[i].parent) && Rooted(t, i) && Rooted(t, t[i].parent)
    ensures PathOf(t, i) == PathOf(t, t[i].parent) + [t[i].name]
  {
    assert ParentOk(t, i) && Rooted(t, i) && Rooted(t, t[i].parent);
    PathToSame(t, t[i].parent, |t| - 1, |t|);
  }

  /** Whether the climb from `i` meets `a`, `i` itself included. */
  ghost predicate Inside(t: Tree, i: int, a: int, n: nat)
    requires Climb(t, i, n)
    decreases n
  {
    i == a || (i != 0 && Inside(t, t[i].parent, a, n - 1))
  }

  lemma {:induction false} InsideSame(t: Tree, i: int, a: int, n: nat, m: nat)
    requires Climb(t, i, n) && Climb(t, i, m)
    ensures Inside(t, i, a, n) == Inside(t, i, a, m)
    decreases n
  {
    if i != 0 { InsideSame(t, t[i].parent, a, n - 1, m - 1); }
  }

  ghost predicate Within(t: Tree, i: int, a: int)
    requires Rooted(t, i)
  {
    Inside(t, i, a, |t|)
  }

  lemma WithinStep(t: Tree, i: int, a: int)
    requires TreeOk(t) && InTree(t, i)
    ensures InTree(t, t[i].parent) && Rooted(t, i) && Rooted(t, t[i].parent)
    ensures Within(t, i, a) <==> i == a || (i != 0 && Within(t, t[i].parent, a))
  {
    assert ParentOk(t, i) && Rooted(t, i) && Rooted(t, t[i].parent);
    if i != 0 { InsideSame(t, t[i].parent, a, |t| - 1, |t|); }
  }

  // ----- looking names up

  /** The first of `list` called `name`. */
  function FindNamed(t: Tree, list: seq<int>, name: Text): (r: int)
    ensures r != NONE ==> r in list && 0 <= r < |t| && !t[r].Free? && t[r].name == name
    ensures r == NONE ==> forall c :: c in list && 0 <= c < |t| && !t[c].Free? ==> t[c].name != name
  {
    if list == [] then NONE
    else
      var c := list[0];
      if 0 <= c < |t| && !t[c].Free? && t[c].name == name then c
      else
        var r := FindNamed(t, list[1..], name);
        assert forall c' :: c' in list ==> c' == c || c' in list[1..];
        r
  }

  function FindStep(t: Tree, d: int, name: Text): int {
    if 0 <= d < |t| && t[d].Dir? then FindNamed(t, t[d].kids, name) else NONE
  }

  /** The node reached from `d` by going down one name after another. */
  function Find(t: Tree, d: int, names: seq<Text>): int
    decreases |names|
  {
    if names == [] then d else Find(t, FindStep(t, d, names[0]), names[1..])
  }

  lemma {:induction false} FindSplit(t: Tree, d: int, a: seq<Text>, b: seq<Text>)
    ensures Find(t, d, a + b) == Find(t, Find(t, d, a), b)
    decreases |a|
  {
    if a == [] {
      assert a + b == b;
    } else {
      assert (a + b)[1..] == a[1..] + b;
      FindSplit(t, FindStep(t, d, a[0]), a[1..], b);
    }
  }

  lemma FindSnoc(t: Tree, d: int, a: seq<Text>, n: Text)
    ensures Find(t, d, a + [n]) == FindStep(t, Find(t, d, a), n)
  {
    FindSplit(t, d, a, [n]);
    assert Find(t, Find(t, d, a), [n]) == Find(t, FindStep(t, Find(t, d, a), n), []);
  }

  /** A node is found under its own path. */
  lemma {:induction false} FindsPath(t: Tree, i: int, n: nat)
    requires TreeOk(t) && NamesOk(t) && Climb(t, i, n)
    ensures Rooted(t, i) && Find(t, 0, PathOf(t, i)) == i
    decreases n
  {
    if i != 0 {
      var p := t[i].parent;
      assert ParentOk(t, i) && KidsOk(t, p);
      PathStep(t, i);
      FindsPath(t, p, n - 1);
      FindSnoc(t, 0, PathOf(t, p), t[i].name);
      var r := FindNamed(t, t[p].kids, t[i].name);
      assert InTree(t, r) && NamedApart(t, i, r);
    }
  }

  /** What a list of names finds is the node with exactly that path. */
  lemma {:induction false} FoundHasPath(t: Tree, x: seq<Text>)
    requires TreeOk(t) && Find(t, 0, x) != NONE
    ensures InTree(t, Find(t, 0, x)) && Rooted(t, Find(t, 0, x)) && PathOf(t, Find(t, 0, x)) == x
    decreases |x|
  {
    if x != [] {
      var y := x[..|x| - 1];
      assert x == y + [x[|x| - 1]];
      FindSnoc(t, 0, y, x[|x| - 1]);
      var d, i := Find(t, 0, y), Find(t, 0, x);
      FoundHasPath(t, y);
      assert KidsOk(t, d);
      PathStep(t, i);
    }
  }

  /** Names and nodes correspond one to one. */
  lemma FindIffPath(t: Tree, x: seq<Text>, i: int)
    requires TreeOk(t) && NamesOk(t) && InTree(t, i)
    ensures Rooted(t, i)
    ensures Find(t, 0, x) == i <==> PathOf(t, i) == x
  {
    assert Rooted(t, i);
    FindsPath(t, i, |t|);
    if Find(t, 0, x) == i { FoundHasPath(t, x); }
  }
}
