// What a path means: its components, the walk they describe, and the printed
// form of a node's path (kernel/src/vfspath.c).
module VfsNames {
  import opened VfsTypes
  import opened VfsTree

  /** How many characters stand before the first slash. */
  function WordLength(path: Text): (n: nat)
    ensures n <= |path|
    ensures SLASH !in path[..n]
    ensures n < |path| ==> path[n] == SLASH
  {
    if path == [] || path[0] == SLASH then 0
    else
      var n := 1 + WordLength(path[1..]);
      assert path[..n] == [path[0]] + path[1..][..n - 1];
      n
  }

  /** The pieces between slashes; empty ones do not count. */
  function Components(path: Text): seq<Text>
    decreases |path|
  {
    if path == [] then []
    else if path[0] == SLASH then Components(path[1..])
    else
      var n := WordLength(path);
      [path[..n]] + Components(path[n..])
  }

  function StartAt(cwd: int, path: Text): int {
    if path != [] && path[0] == SLASH then 0 else cwd
  }

  function Step(t: Tree, at: int, c: Text): int {
    if !(0 <= at < |t|) || t[at].Free? then NONE
    else if c == [DOT] then at
    else if c == [DOT, DOT] then t[at].parent
    else FindStep(t, at, c)
  }

  function Follow(t: Tree, at: int, comps: seq<Text>): int
    decreases |comps|
  {
    if comps == [] || at == NONE then at else Follow(t, Step(t, at, comps[0]), comps[1..])
  }

  function Resolve(t: Tree, cwd: int, path: Text): int {
    Follow(t, StartAt(cwd, path), Components(path))
  }

  /** The directory that would hold the last component. */
  function Holder(t: Tree, cwd: int, path: Text): int {
    var comps := Components(path);
    if comps == [] then StartAt(cwd, path) else Follow(t, StartAt(cwd, path), comps[..|comps| - 1])
  }

  function LastName(path: Text): Text {
    var comps := Components(path);
    if comps == [] then [] else comps[|comps| - 1]
  }

  lemma {:induction false} FollowSplit(t: Tree, at: int, a: seq<Text>, b: seq<Text>)
    ensures Follow(t, at, a + b) == Follow(t, Follow(t, at, a), b)
    decreases |a|
  {
    if a == [] || at == NONE {
      assert at != NONE ==> a + b == b;
    } else {
      assert (a + b)[1..] == a[1..] + b;
      FollowSplit(t, Step(t, at, a[0]), a[1..], b);
    }
  }

  /** A walk in a tree ends on a node or nowhere. */
  lemma {:induction false} FollowLands(t: Tree, at: int, comps: seq<Text>)
    requires TreeOk(t) && (at == NONE || InTree(t, at))
    ensures Follow(t, at, comps) == NONE || InTree(t, Follow(t, at, comps))
    decreases |comps|
  {
    if comps != [] && at != NONE {
      assert ParentOk(t, at);
      FollowLands(t, Step(t, at, comps[0]), comps[1..]);
    }
  }

  lemma {:induction false} ComponentsAreWords(path: Text, c: Text)
    requires c in Components(path)
    ensures c != [] && SLASH !in c
    decreases |path|
  {
    if path[0] == SLASH {
      ComponentsAreWords(path[1..], c);
    } else {
      var n := WordLength(path);
      if c != path[..n] { ComponentsAreWords(path[n..], c); }
    }
  }

  /** Stopping before the last component and then looking it up is the full
      walk, whenever that component is a name and the holder is a directory. */
  lemma HolderThenName(t: Tree, cwd: int, path: Text)
    requires Components(path) != [] && LastName(path) != [DOT] && LastName(path) != [DOT, DOT]
    requires InTree(t, Holder(t, cwd, path)) && t[Holder(t, cwd, path)].Dir?
    ensures Resolve(t, cwd, path) == FindNamed(t, t[Holder(t, cwd, path)].kids, LastName(path))
  {
    var comps, start := Components(path), StartAt(cwd, path);
    var last := |comps| - 1;
    assert comps == comps[..last] + [comps[last]];
    FollowSplit(t, start, comps[..last], [comps[last]]);
    FollowOne(t, Holder(t, cwd, path), LastName(path));
  }

  lemma FollowOne(t: Tree, at: int, c: Text)
    requires InTree(t, at) && t[at].Dir? && c != [DOT] && c != [DOT, DOT]
    ensures Follow(t, at, [c]) == FindNamed(t, t[at].kids, c)
  {
    var rest: seq<Text> := [c][1..];
    assert rest == [];
    assert Follow(t, at, [c]) == Follow(t, Step(t, at, c), rest);
  }

  // ----- printing

  /** Every name with a slash before it; the root alone prints as a slash. */
  function Joined(names: seq<Text>): Text {
    if names == [] then [] else Joined(names[..|names| - 1]) + [SLASH] + names[|names| - 1]
  }

  function Printed(names: seq<Text>): Text {
    if names == [] then [SLASH] else Joined(names)
  }

  ghost predicate Words(names: seq<Text>) {
    forall n :: n in names ==> n != [] && SLASH !in n
  }

  lemma {:induction false} WordEnds(word: Text, rest: Text)
    requires word != [] && SLASH !in word && (rest == [] || rest[0] == SLASH)
    ensures WordLength(word + rest) == |word|
    decreases |word|
  {
    if |word| > 1 {
      assert (word + rest)[1..] == word[1..] + rest;
      WordEnds(word[1..], rest);
    } else {
      assert (word + rest)[1..] == rest;
    }
  }

  lemma {:induction false} JoinedStarts(names: seq<Text>)
    requires names != []
    ensures |Joined(names)| > 0 && Joined(names)[0] == SLASH
  {
    if |names| > 1 { JoinedStarts(names[..|names| - 1]); }
  }

  lemma {:induction false} ComponentsOfJoined(names: seq<Text>)
    requires Words(names)
    ensures Components(Joined(names)) == names
  {
    if names == [] {
      assert Joined(names) == [] && Components([]) == [];
    } else {
      var front, word := names[..|names| - 1], names[|names| - 1];
      WordsFront(names);
      ComponentsOfJoined(front);
      ComponentsAppend(Joined(front), word);
      assert Joined(names) == Joined(front) + [SLASH] + word;
      assert Joined(front) + [SLASH] + word == Joined(front) + ([SLASH] + word);
      assert names == front + [word];
    }
  }

  lemma WordsFront(names: seq<Text>)
    requires Words(names) && names != []
    ensures Words(names[..|names| - 1]) && names[|names| - 1] != [] && SLASH !in names[|names| - 1]
  {
    var front, last := names[..|names| - 1], names[|names| - 1];
    assert last in names;
    forall n | n in front ensures n != [] && SLASH !in n {
      var k :| 0 <= k < |front| && front[k] == n;
      assert names[k] in names;
    }
  }

  lemma {:induction false} ComponentsAppend(a: Text, word: Text)
    requires word != [] && SLASH !in word
    ensures Components(a + ([SLASH] + word)) == Components(a) + [word]
    decreases |a|
  {
    var tail := [SLASH] + word;
    if a == [] {
      assert a + tail == tail && tail[1..] == word;
      WordEnds(word, []);
      assert word + [] == word;
      assert word[..|word|] == word && word[|word|..] == [];
      assert Components([]) == [];
    } else if a[0] == SLASH {
      assert (a + tail)[1..] == a[1..] + tail;
      ComponentsAppend(a[1..], word);
    } else {
      var n := WordLength(a);
      ComponentsAppend(a[n..], word);
      WordFirst(a, tail);
    }
  }

  /** A path that starts with a word, with more after it. */
  lemma WordFirst(a: Text, tail: Text)
    requires a != [] && a[0] != SLASH && tail != [] && tail[0] == SLASH
    ensures Components(a + tail) == [a[..WordLength(a)]] + Components(a[WordLength(a)..] + tail)
    ensures Components(a) == [a[..WordLength(a)]] + Components(a[WordLength(a)..])
  {
    var n := WordLength(a);
    assert a + tail == a[..n] + (a[n..] + tail);
    WordEnds(a[..n], a[n..] + tail);
    assert (a + tail)[..n] == a[..n] && (a + tail)[n..] == a[n..] + tail;
  }

  /** Following names that are not dots is looking them up. */
  lemma {:induction false} FollowIsFind(t: Tree, at: int, names: seq<Text>)
    requires at == NONE || InTree(t, at)
    requires forall n :: n in names ==> n != [DOT] && n != [DOT, DOT]
    ensures Follow(t, at, names) == Find(t, at, names)
    decreases |names|
  {
    if names != [] {
      assert names[0] in names && forall n :: n in names[1..] ==> n in names;
      if at == NONE { FindNowhere(t, names); }
      else { FollowIsFind(t, FindStep(t, at, names[0]), names[1..]); }
    }
  }

  lemma {:induction false} FindNowhere(t: Tree, names: seq<Text>)
    ensures Find(t, NONE, names) == NONE
  {
    if names != [] { FindNowhere(t, names[1..]); }
  }

  lemma {:induction false} PathIsNames(t: Tree, i: int, n: nat)
    requires TreeOk(t) && NamesOk(t) && Climb(t, i, n)
    ensures Rooted(t, i) && forall c :: c in PathOf(t, i) ==> UsableName(c)
    decreases n
  {
    if i != 0 {
      PathStep(t, i);
      assert UsableName(t[i].name);
      PathIsNames(t, t[i].parent, n - 1);
    }
  }

  /** A printed path resolves to the node it was printed for, from any working
      directory. */
  lemma PrintedResolves(t: Tree, cwd: int, i: int)
    requires TreeOk(t) && NamesOk(t) && Rooted(t, i)
    ensures Resolve(t, cwd, Printed(PathOf(t, i))) == i
  {
    var names := PathOf(t, i);
    PathIsNames(t, i, |t|);
    if names == [] {
      assert Components(Printed(names)) == Components([]);
    } else {
      JoinedStarts(names);
      ComponentsOfJoined(names);
    }
    assert InTree(t, 0);
    FollowIsFind(t, 0, names);
    FindsPath(t, i, |t|);
  }
}
