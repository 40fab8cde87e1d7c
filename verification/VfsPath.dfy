// Turning a path into a node and a node into its path, by the loops the kernel
// runs over the linked table (kernel/src/vfspath.c).
module VfsPath {
  import opened Common
  import opened VfsTypes
  import opened VfsTree
  import opened VfsReroot
  import opened VfsNames
  import opened VfsSpec
  import opened VfsTable

  /** The table can be walked: its links say what the tree says. */
  ghost predicate Walkable(fs: Vfs)
    reads fs, fs.nodes
  {
    fs.Sized() && LinksRep(fs.nodes[..], fs.t) && FsOk(fs.View())
  }

  lemma RepAt(fs: Vfs, i: int)
    requires Walkable(fs) && 0 <= i < MAX_NODES
    ensures i < fs.nodes.Length && i < |fs.t| && EntryRep(fs.nodes[i], fs.t[i]) && EntryFits(fs.t[i])
    ensures fs.t[i].Dir? ==> Listed(fs.nodes[..], fs.nodes[i].first, fs.t[i].kids)
    ensures InTree(fs.t, i) ==> ParentOk(fs.t, i) && Rooted(fs.t, i)
    ensures fs.t[i].Dir? ==> KidsOk(fs.t, i)
  {
    assert EntryRep(fs.nodes[..][i], fs.t[i]);
    assert fs.t[i].Dir? ==> Listed(fs.nodes[..], fs.nodes[..][i].first, fs.t[i].kids);
    assert InTree(fs.t, i) ==> ParentOk(fs.t, i) && Rooted(fs.t, i);
    assert fs.t[i].Dir? ==> KidsOk(fs.t, i);
  }

  /** `vfs_length_of`, on a name held in a node. */
  method LengthOf(raw: seq<Byte>) returns (n: nat)
    requires |CString(raw)| < |raw|
    ensures n == |CString(raw)|
  {
    n := 0;
    while raw[n] != 0
      invariant n <= |CString(raw)|
      decreases |raw| - n
    {
      n := n + 1;
    }
  }

  /** `vfs_names_match`. However long `b` is, no byte past the terminator of
      `a` is read. */
  method NamesMatch(a: seq<Byte>, b: Text) returns (same: bool)
    requires |CString(a)| < |a|
    ensures same <==> CString(a) == b
  {
    for i := 0 to |b|
      invariant i <= |CString(a)| && CString(a)[..i] == b[..i]
    {
      if a[i] != b[i] { return false; }
    }
    return a[|b|] == 0;
  }

  /** `vfs_child_named`: the first child in list order with this name. */
  method ChildNamed(fs: Vfs, dir: int, name: Text) returns (at: Int16)
    requires Walkable(fs) && 0 <= dir < MAX_NODES && fs.t[dir].Dir?
    ensures at == FindNamed(fs.t, fs.t[dir].kids, name)
  {
    RepAt(fs, dir);
    ghost var kids := fs.t[dir].kids;
    at := fs.nodes[dir].first;
    ghost var j := 0;
    while at != NONE
      invariant 0 <= j <= |kids| && at == At(kids, j)
      invariant FindNamed(fs.t, kids, name) == FindNamed(fs.t, kids[j..], name)
      decreases |kids| - j
    {
      assert kids[j] in kids;
      RepAt(fs, at);
      var same := NamesMatch(fs.nodes[at].name, name);
      if same { return; }
      at := fs.nodes[at].next;
      j := j + 1;
    }
  }

  lemma {:induction false} NoComponents(path: Text)
    requires forall k :: 0 <= k < |path| ==> path[k] == SLASH
    ensures Components(path) == []
  {
    if path != [] { NoComponents(path[1..]); }
  }

  lemma {:induction false} SkipSlashes(path: Text, n: nat)
    requires n <= |path| && forall k :: 0 <= k < n ==> path[k] == SLASH
    ensures Components(path) == Components(path[n..])
  {
    if n > 0 {
      SkipSlashes(path[1..], n - 1);
      assert path[1..][n - 1..] == path[n..];
    }
  }

  lemma {:induction false} WordIs(path: Text, n: nat)
    requires n <= |path| && (forall k :: 0 <= k < n ==> path[k] != SLASH) && (n < |path| ==> path[n] == SLASH)
    ensures WordLength(path) == n
  {
    if n > 0 { WordIs(path[1..], n - 1); }
  }

  /** The scan for one component, from `i`: where it starts and ends. */
  method NextWord(path: Text, from: nat) returns (start: nat, end: nat)
    requires from <= |path|
    ensures from <= start <= end <= |path|
    ensures start == |path| <==> Components(path[from..]) == []
    ensures start < |path| ==>
              && start < end
              && Components(path[from..]) == [path[start..end]] + Components(path[end..])
  {
    start := from;
    while start < |path| && path[start] == SLASH
      invariant from <= start <= |path|
      invariant forall k :: from <= k < start ==> path[k] == SLASH
    {
      start := start + 1;
    }
    SkipSlashes(path[from..], start - from);
    assert path[from..][start - from..] == path[start..];
    end := start;
    while end < |path| && path[end] != SLASH
      invariant start <= end <= |path|
      invariant forall k :: start <= k < end ==> path[k] != SLASH
    {
      end := end + 1;
    }
    if start < |path| {
      var rest, n := path[start..], end - start;
      FirstWord(rest, n);
      assert rest[..n] == path[start..end] && rest[n..] == path[end..];
    }
  }

  lemma FirstWord(path: Text, n: nat)
    requires 0 < n <= |path| && (forall k :: 0 <= k < n ==> path[k] != SLASH) && (n < |path| ==> path[n] == SLASH)
    ensures Components(path) == [path[..n]] + Components(path[n..])
  {
    WordIs(path, n);
  }

  /** `vfs_walk`: the full walk, or, with `parentOnly`, the walk to the holder
      of the last component and that component. */
  method Walk(fs: Vfs, path: Text, parentOnly: bool) returns (at: Int16, last: Text)
    requires Walkable(fs)
    ensures !parentOnly ==> at == Resolve(fs.t, fs.cwd, path)
    ensures parentOnly ==> at == Holder(fs.t, fs.cwd, path) && (at != NONE ==> last == LastName(path))
    ensures at == NONE || InTree(fs.t, at)
  {
    at := if |path| > 0 && path[0] == SLASH then 0 else fs.cwd;
    var i := if |path| > 0 && path[0] == SLASH then 1 else 0;
    last := [];
    ghost var t, start, all := fs.t, StartAt(fs.cwd, path), Components(path);
    ghost var done: seq<Text> := [];
    assert path[0..] == path;

    while i < |path|
      invariant 0 <= i <= |path|
      invariant Walked(t, start, all, done, Components(path[i..]), at)
      invariant InTree(t, at)
      invariant last == []
      invariant parentOnly && done != [] ==> Components(path[i..]) != []
      decreases |path| - i
    {
      var from, to := NextWord(path, i);
      if from == |path| {
        i := |path|;
        break;
      }
      ghost var rest := Components(path[to..]);
      var word := path[from..to];
      i := to;
      // Whether anything but slashes is left.
      var peek, _ := NextWord(path, i);
      var isLast := peek == |path|;

      WalkOn(t, start, all, done, word, rest, at);
      if isLast && parentOnly {
        HolderReached(t, fs.cwd, path, done, word, at);
        last := word;
        return;
      }
      RepAt(fs, at);
      done := done + [word];

      if |word| == 1 && word[0] == DOT {
        continue;
      }
      if |word| == 2 && word[0] == DOT && word[1] == DOT {
        assert word == [DOT, DOT];
        at := fs.nodes[at].parent;
        continue;
      }
      if fs.nodes[at].kind != DirKind {
        WalkFails(t, fs.cwd, path, done, rest);
        return NONE, last;
      }
      at := ChildNamed(fs, at, word);
      if at == NONE {
        WalkFails(t, fs.cwd, path, done, rest);
        return NONE, last;
      }
    }
    assert path[i..] == [] && Components(path[i..]) == [];
    WalkEnds(t, fs.cwd, path, done, at);
  }

  /** The components of `done` lead from `start` to `at`, and `rest` is left. */
  ghost predicate Walked(t: Tree, start: int, all: seq<Text>, done: seq<Text>, rest: seq<Text>, at: int) {
    all == done + rest && Follow(t, start, done) == at
  }

  lemma WalkOn(t: Tree, start: int, all: seq<Text>, done: seq<Text>, word: Text, rest: seq<Text>, at: int)
    requires Walked(t, start, all, done, [word] + rest, at) && at != NONE
    ensures Walked(t, start, all, done + [word], rest, Step(t, at, word))
  {
    assert all == (done + [word]) + rest;
    FollowSplit(t, start, done, [word]);
    assert Follow(t, at, [word]) == Follow(t, Step(t, at, word), []);
  }

  lemma HolderReached(t: Tree, cwd: int, path: Text, done: seq<Text>, word: Text, at: int)
    requires Walked(t, StartAt(cwd, path), Components(path), done, [word], at)
    ensures Holder(t, cwd, path) == at && LastName(path) == word
  {
    var all := Components(path);
    assert all[..|all| - 1] == done;
  }

  lemma WalkEnds(t: Tree, cwd: int, path: Text, done: seq<Text>, at: int)
    requires Walked(t, StartAt(cwd, path), Components(path), done, [], at)
    ensures Resolve(t, cwd, path) == at
    ensures done == [] ==> Holder(t, cwd, path) == at && LastName(path) == []
  {
    assert done + [] == done;
  }

  /** A walk that stopped nowhere ends nowhere, short of its last name or not. */
  lemma WalkFails(t: Tree, cwd: int, path: Text, done: seq<Text>, rest: seq<Text>)
    requires Walked(t, StartAt(cwd, path), Components(path), done, rest, NONE)
    ensures Resolve(t, cwd, path) == NONE
    ensures rest != [] ==> Holder(t, cwd, path) == NONE
  {
    var all, start := Components(path), StartAt(cwd, path);
    FollowSplit(t, start, done, rest);
    if rest != [] {
      assert all[..|all| - 1] == done + rest[..|rest| - 1];
      FollowSplit(t, start, done, rest[..|rest| - 1]);
    }
  }

  // ----- printing a node's path

  /** Whether the printed path and its terminator fit in `capacity` bytes. */
  ghost predicate PathFits(t: Tree, node: int, capacity: nat)
    requires Rooted(t, node)
  {
    |Printed(PathOf(t, node))| + 1 <= capacity
  }

  /** One name put down in the buffer. */
  method PutName(out: array<Byte>, at: nat, name: seq<Byte>, length: nat)
    requires length <= |name| && at + length <= out.Length
    modifies out
    ensures forall k :: 0 <= k < out.Length ==>
              out[k] == if at <= k < at + length then name[k - at] else old(out[k])
  {
    for i := 0 to length
      invariant forall k :: 0 <= k < out.Length ==>
                  out[k] == if at <= k < at + i then name[k - at] else old(out[k])
    {
      out[at + i] := name[i];
    }
  }

  /** One more name and its slash in front of what is written. */
  method PrependName(out: array<Byte>, at: nat, name: seq<Byte>, length: nat, ghost done: seq<Text>)
    returns (front: nat)
    requires length == |CString(name)| < |name| && length + 1 <= at < out.Length
    requires out[at..out.Length - 1] == Joined(done)
    modifies out
    ensures front == at - length - 1 && out[out.Length - 1] == old(out[out.Length - 1])
    ensures out[front..out.Length - 1] == Joined([CString(name)] + done)
  {
    ghost var text := [SLASH] + CString(name) + Joined(done);
    PutName(out, at - length, name, length);
    front := at - length - 1;
    out[front] := SLASH;
    forall k | 0 <= k < |text| ensures out[front + k] == text[k] {
      if k > length { assert out[front + k] == Joined(done)[k - length - 1]; }
    }
    assert out[front..out.Length - 1] == text;
    JoinedFront(CString(name), done);
  }

  lemma JoinedStep(up: seq<Text>, word: Text, done: seq<Text>)
    ensures up + [word] + done == up + ([word] + done)
    ensures |Joined(up + [word] + done)| >= |Joined(done)| + |word| + 1
  {
    assert up + [word] + done == up + ([word] + done);
    JoinedFront(word, done);
    JoinedSplit(up, [word] + done);
  }

  /** The names from `node` up to the root, written back from the end. */
  method WriteBackwards(fs: Vfs, node: int, out: array<Byte>) returns (ok: bool, at: nat)
    requires Walkable(fs) && InTree(fs.t, node) && Rooted(fs.t, node) && out.Length > 0
    requires out as object != fs.nodes as object
    modifies out
    ensures ok <==> |Joined(PathOf(fs.t, node))| + 1 <= out.Length
    ensures ok ==> at < out.Length && out[out.Length - 1] == 0
    ensures ok ==> out[at..out.Length - 1] == Joined(PathOf(fs.t, node))
  {
    ghost var names := PathOf(fs.t, node);
    var cap := out.Length;
    at := cap - 1;
    out[at] := 0;
    var here := node;
    ghost var done: seq<Text> := [];
    while here != 0
      invariant InTree(fs.t, here) && Rooted(fs.t, here)
      invariant names == PathOf(fs.t, here) + done
      invariant 0 <= at < cap == out.Length && out[cap - 1] == 0
      invariant out[at..cap - 1] == Joined(done)
      decreases |PathOf(fs.t, here)|
    {
      RepAt(fs, here);
      PathStep(fs.t, here);
      var name := fs.nodes[here].name;
      var length := LengthOf(name);
      ghost var word := CString(name);
      ghost var up := PathOf(fs.t, fs.t[here].parent);
      JoinedStep(up, word, done);
      if at < length + 1 { return false, at; }
      at := PrependName(out, at, name, length, done);
      done := [word] + done;
      here := fs.nodes[here].parent;
    }
    assert done == names;
    ok := true;
  }

  /** The text moved from `at` to the front of the buffer. */
  method MoveToFront(out: array<Byte>, from: nat, ghost text: Text) returns (written: nat)
    requires from + |text| + 1 == out.Length && out[out.Length - 1] == 0 && out[from..out.Length - 1] == text
    modifies out
    ensures written == |text| && out[..written] == text && out[written] == 0
  {
    written := 0;
    var at := from;
    ghost var cap := out.Length;
    while out[at] != 0
      invariant written <= |text| && at == from + written
      invariant forall k :: written <= k < |text| ==> out[from + k] == text[k]
      invariant forall k :: 0 <= k < written ==> out[k] == text[k]
      invariant out[cap - 1] == 0
      decreases cap - at
    {
      out[written] := out[at];
      written, at := written + 1, at + 1;
    }
    out[written] := 0;
  }

  /** `vfs_path_of`: the names are written backwards from the end of the buffer
      and the text is then moved to the front. */
  method PathOfNode(fs: Vfs, node: int, out: array<Byte>) returns (written: nat)
    requires Walkable(fs)
    requires out as object != fs.nodes as object
    modifies out
    ensures !InTree(fs.t, node) ==> written == 0 && (out.Length > 0 ==> out[0] == 0)
    ensures InTree(fs.t, node) ==> Rooted(fs.t, node)
    ensures InTree(fs.t, node) && !PathFits(fs.t, node, out.Length) ==> written == 0
    ensures InTree(fs.t, node) && PathFits(fs.t, node, out.Length) ==>
              written < out.Length && out[..written] == Printed(PathOf(fs.t, node)) && out[written] == 0
  {
    if InTree(fs.t, node) { assert Rooted(fs.t, node); }
    if out.Length == 0 { return 0; }
    out[0] := 0;
    if node < 0 || node >= MAX_NODES { return 0; }
    RepAt(fs, node);
    if !fs.nodes[node].used { return 0; }
    if node == 0 {
      if out.Length > 1 {
        out[0], out[1] := SLASH, 0;
        return 1;
      }
      return 0;
    }
    PathStep(fs.t, node);
    var fits, at := WriteBackwards(fs, node, out);
    if !fits { return 0; }
    written := MoveToFront(out, at, Joined(PathOf(fs.t, node)));
  }

  lemma {:induction false} JoinedSplit(a: seq<Text>, b: seq<Text>)
    ensures Joined(a + b) == Joined(a) + Joined(b)
  {
    if b == [] {
      assert a + b == a;
    } else {
      var last := |b| - 1;
      assert (a + b)[..|a + b| - 1] == a + b[..last];
      JoinedSplit(a, b[..last]);
    }
  }

  lemma JoinedFront(name: Text, names: seq<Text>)
    ensures Joined([name] + names) == [SLASH] + name + Joined(names)
  {
    JoinedSplit([name], names);
    assert Joined([name]) == Joined([]) + [SLASH] + name;
  }
}
