// What each operation does to every path, and exactly when it is accepted
// (kernel/src/vfspath.c, vfstree.c, vfsmove.c, vfsfile.c).
module VfsPathLaws {
  import opened Common
  import opened VfsTypes
  import opened VfsTree
  import opened VfsReroot
  import opened VfsNames
  import opened VfsSpec
  import opened VfsFile

  predicate Relative(path: Text) { path == [] || path[0] != SLASH }

  // ----- paths put together

  lemma {:induction false} ComponentsJoin(a: Text, b: Text)
    ensures Components(a + ([SLASH] + b)) == Components(a) + Components(b)
    decreases |a|
  {
    var tail := [SLASH] + b;
    if a == [] {
      assert a + tail == tail && tail[1..] == b;
    } else if a[0] == SLASH {
      assert (a + tail)[1..] == a[1..] + tail;
      ComponentsJoin(a[1..], b);
    } else {
      ComponentsJoin(a[WordLength(a)..], b);
      WordFirst(a, tail);
    }
  }

  /** A path, a slash and another: the second starts where the first leads. */
  lemma Joins(t: Tree, cwd: int, a: Text, b: Text)
    requires a != [] && Relative(b) && Resolve(t, cwd, a) != NONE
    ensures Resolve(t, cwd, a + ([SLASH] + b)) == Resolve(t, Resolve(t, cwd, a), b)
  {
    ComponentsJoin(a, b);
    FollowSplit(t, StartAt(cwd, a), Components(a), Components(b));
  }

  lemma OneWord(word: Text)
    requires word != [] && SLASH !in word
    ensures Components(word) == [word] && Relative(word)
  {
    ComponentsAppend([], word);
    assert [] + ([SLASH] + word) == [SLASH] + word;
    assert ([SLASH] + word)[1..] == word;
    assert Components([]) == [];
    assert [] + [word] == [word];
  }

  /** Making something under a path looks for its directory there. */
  lemma HolderIs(t: Tree, cwd: int, a: Text, word: Text)
    requires word != [] && SLASH !in word
    ensures a != [] ==> Holder(t, cwd, a + ([SLASH] + word)) == Resolve(t, cwd, a) && LastName(a + ([SLASH] + word)) == word
    ensures Holder(t, cwd, word) == cwd && LastName(word) == word
    ensures Holder(t, cwd, [SLASH] + word) == 0 && LastName([SLASH] + word) == word
  {
    OneWord(word);
    ComponentsAppend(a, word);
    assert (Components(a) + [word])[..|Components(a)|] == Components(a);
    assert [word][..0] == [];
    assert ([SLASH] + word)[1..] == word;
  }

  /** A dot stays, two dots go up, and stay at the root. */
  lemma Dots(fs: Fs, path: Text)
    requires FsOk(fs) && path != [] && Resolve(fs.t, fs.cwd, path) != NONE
    ensures Resolve(fs.t, fs.cwd, path + ([SLASH] + [DOT])) == Resolve(fs.t, fs.cwd, path)
    ensures var at, up := Resolve(fs.t, fs.cwd, path), Resolve(fs.t, fs.cwd, path + ([SLASH] + [DOT, DOT]));
            && Rooted(fs.t, at) && Rooted(fs.t, up)
            && PathOf(fs.t, up) == if at == 0 then [] else PathOf(fs.t, at)[..|PathOf(fs.t, at)| - 1]
  {
    var at := Resolve(fs.t, fs.cwd, path);
    HolderLands(fs.t, fs.cwd, path);
    Joins(fs.t, fs.cwd, path, [DOT]);
    Joins(fs.t, fs.cwd, path, [DOT, DOT]);
    OneWord([DOT]);
    OneWord([DOT, DOT]);
    FollowWord(fs.t, at, [DOT]);
    FollowWord(fs.t, at, [DOT, DOT]);
    assert ParentOk(fs.t, at) && Rooted(fs.t, at) && Rooted(fs.t, fs.t[at].parent);
    if at != 0 { PathStep(fs.t, at); }
  }

  lemma FollowWord(t: Tree, at: int, c: Text)
    requires at != NONE
    ensures Follow(t, at, [c]) == Step(t, at, c)
  {
    assert [c][1..] == [];
  }

  /** Any other word goes down to the entry of that name, if the directory has one. */
  lemma WordGoesDown(fs: Fs, path: Text, word: Text)
    requires FsOk(fs) && NamesOk(fs.t) && path != [] && Resolve(fs.t, fs.cwd, path) != NONE
    requires word != [] && SLASH !in word && word != [DOT] && word != [DOT, DOT]
    ensures Rooted(fs.t, Resolve(fs.t, fs.cwd, path))
    ensures Resolve(fs.t, fs.cwd, path + ([SLASH] + word)) == Find(fs.t, 0, PathOf(fs.t, Resolve(fs.t, fs.cwd, path)) + [word])
  {
    var at := Resolve(fs.t, fs.cwd, path);
    HolderLands(fs.t, fs.cwd, path);
    Joins(fs.t, fs.cwd, path, word);
    OneWord(word);
    FollowWord(fs.t, at, word);
    assert Rooted(fs.t, at);
    FindsPath(fs.t, at, |fs.t|);
    FindSnoc(fs.t, 0, PathOf(fs.t, at), word);
  }

  /** What a name has to be: one word of a path, other than the dots, that fits its field
      with a terminator. */
  lemma UsableIs(name: Text)
    ensures UsableName(name) <==> Components(name) == [name] && name != [DOT] && name != [DOT, DOT] && |name| + 1 <= 24
  {
    if name != [] && SLASH !in name { OneWord(name); }
    if Components(name) == [name] {
      assert name in Components(name);
      ComponentsAreWords(name, name);
    }
  }

  // ----- changing directory

  /** Accepted exactly for a path that leads to a directory; the tree stays. */
  lemma ChdirAccepted(fs: Fs, path: Text)
    requires FsOk(fs)
    ensures Chdir(fs, path).fs.t == fs.t
    ensures var at := Resolve(fs.t, fs.cwd, path);
            && (Chdir(fs, path).result == NotFound <==> at == NONE)
            && (Chdir(fs, path).result == NotADirectory <==> at != NONE && InTree(fs.t, at) && fs.t[at].File?)
            && (Chdir(fs, path).result == Ok <==> at != NONE && InTree(fs.t, at) && fs.t[at].Dir?)
            && (Chdir(fs, path).result != Ok ==> Chdir(fs, path).fs == fs)
  {
    HolderLands(fs.t, fs.cwd, path);
  }

  /** From then on a relative path leads where the directory's path, a slash and it led
      before, and an absolute one where it did. */
  lemma ChdirLaw(fs: Fs, path: Text, rest: Text)
    requires FsOk(fs) && Chdir(fs, path).result == Ok
    ensures var fs' := Chdir(fs, path).fs;
            if !Relative(rest) then Resolve(fs'.t, fs'.cwd, rest) == Resolve(fs.t, fs.cwd, rest)
            else if path == [] then Resolve(fs'.t, fs'.cwd, rest) == Resolve(fs.t, fs.cwd, rest)
            else Resolve(fs'.t, fs'.cwd, rest) == Resolve(fs.t, fs.cwd, path + ([SLASH] + rest))
  {
    if path != [] {
      if Relative(rest) { Joins(fs.t, fs.cwd, path, rest); }
    } else {
      assert Components([]) == [];
    }
  }

  // ----- trees with the same paths

  ghost predicate SamePath(t: Tree, t': Tree, i: int) {
    InTree(t, i) && InTree(t', i) ==> Rooted(t, i) && Rooted(t', i) && PathOf(t', i) == PathOf(t, i)
  }

  /** A node in both trees, with one path, is found in both by one list of names. */
  lemma SamePathFound(t: Tree, t': Tree, x: seq<Text>)
    requires TreeOk(t) && NamesOk(t) && TreeOk(t') && NamesOk(t')
    requires forall i {:trigger SamePath(t, t', i)} :: SamePath(t, t', i)
    ensures Find(t, 0, x) != NONE && InTree(t', Find(t, 0, x)) ==> Find(t', 0, x) == Find(t, 0, x)
    ensures Find(t', 0, x) != NONE && InTree(t, Find(t', 0, x)) ==> Find(t', 0, x) == Find(t, 0, x)
  {
    var i, j := Find(t, 0, x), Find(t', 0, x);
    if i != NONE && InTree(t', i) {
      FoundHasPath(t, x);
      assert SamePath(t, t', i);
      FindIffPath(t', x, i);
    }
    if j != NONE && InTree(t, j) {
      FoundHasPath(t', x);
      assert SamePath(t, t', j);
      FindIffPath(t, x, j);
    }
  }

  lemma {:induction false} AddedPath(t: Tree, p: int, made: int, kind: Kind, name: Text, i: int, n: nat)
    requires 0 < made < |t| && t[made].Free? && InTree(t, p) && t[p].Dir? && Climb(t, i, n)
    ensures Climb(AddEntry(t, p, made, kind, name), i, n)
    ensures PathTo(AddEntry(t, p, made, kind, name), i, n) == PathTo(t, i, n)
    decreases n
  {
    if i != 0 { AddedPath(t, p, made, kind, name, t[i].parent, n - 1); }
  }

  lemma {:induction false} RemovedPath(t: Tree, at: int, i: int, n: nat)
    requires MayRemove(t, at) && ParentOk(t, at) && t[at].parent != at && Climb(t, i, n) && i != at
    ensures Climb(RemoveEntry(t, at), i, n)
    ensures PathTo(RemoveEntry(t, at), i, n) == PathTo(t, i, n)
    decreases n
  {
    if i != 0 {
      assert ParentOk(t, i);
      RemovedPath(t, at, t[i].parent, n - 1);
    }
  }

  // ----- making

  /** One entry more, and every list of names finds what it did but the new one's. */
  lemma AddedFinds(t: Tree, p: int, made: int, kind: Kind, name: Text, x: seq<Text>)
    requires MayAdd(t, p, made) && NamesOk(t) && UsableName(name) && FindNamed(t, t[p].kids, name) == NONE
    ensures Rooted(t, p)
    ensures Find(AddEntry(t, p, made, kind, name), 0, x) ==
            if x == PathOf(t, p) + [name] then made else Find(t, 0, x)
  {
    var t' := AddEntry(t, p, made, kind, name);
    AddKeepsTree(t, p, made, kind, name);
    AddKeepsNames(t, p, made, kind, name);
    assert Rooted(t, p);
    forall i ensures SamePath(t, t', i) {
      if InTree(t, i) {
        assert Rooted(t, i);
        AddedPath(t, p, made, kind, name, i, |t|);
      }
    }
    SamePathFound(t, t', x);
    assert SamePath(t, t', p);
    PathStep(t', made);
    FindIffPath(t', x, made);
    if Find(t, 0, x) != NONE { FoundHasPath(t, x); }
    if Find(t', 0, x) != NONE { FoundHasPath(t', x); }
  }

  /** What an accepted make leaves: an entry of the kind asked for and with nothing in it,
      of the last name of the path and last in its directory, in a slot that was free; and
      every other entry and every other list of names as they were. */
  lemma MakeLaw(fs: Fs, path: Text, kind: Kind, x: seq<Text>)
    requires FsOk(fs) && NamesOk(fs.t) && Make(fs, path, kind).result == Ok
    ensures var fs', h := Make(fs, path, kind).fs, Holder(fs.t, fs.cwd, path);
            var at := Resolve(fs'.t, fs'.cwd, path);
            && InTree(fs.t, h) && fs.t[h].Dir? && Rooted(fs.t, h)
            && 0 < at < |fs.t| == |fs'.t| && fs.t[at].Free? && fs'.cwd == fs.cwd
            && (kind == DirKind ==> fs'.t[at] == Dir(LastName(path), h, []))
            && (kind == FileKind ==> fs'.t[at] == File(LastName(path), h, []))
            && fs'.t[h] == fs.t[h].(kids := fs.t[h].kids + [at])
            && (forall i :: 0 <= i < |fs.t| && i != at && i != h ==> fs'.t[i] == fs.t[i])
            && Find(fs'.t, 0, x) == if x == PathOf(fs.t, h) + [LastName(path)] then at else Find(fs.t, 0, x)
  {
    var h, made := Holder(fs.t, fs.cwd, path), FirstFree(fs.t, 1);
    MadeResolves(fs, path, kind);
    assert MayAdd(fs.t, h, made);
    AddedFinds(fs.t, h, made, kind, LastName(path), x);
  }

  /** Every path that led somewhere leads there still. */
  lemma MakeResolves(fs: Fs, path: Text, kind: Kind, other: Text)
    requires FsOk(fs) && Make(fs, path, kind).result == Ok && Resolve(fs.t, fs.cwd, other) != NONE
    ensures Resolve(Make(fs, path, kind).fs.t, Make(fs, path, kind).fs.cwd, other) == Resolve(fs.t, fs.cwd, other)
  {
    AddResolves(fs, path, kind, other);
  }

  /** When something can be made, in terms of what is there: its directory is one, the name
      can be used and finds nothing in it, and there is a free slot. Each refusal has its
      own reason and changes nothing. */
  lemma MakeAccepted(fs: Fs, path: Text, kind: Kind)
    requires FsOk(fs) && NamesOk(fs.t)
    ensures var h, r := Holder(fs.t, fs.cwd, path), Make(fs, path, kind).result;
            var room := exists i :: 0 < i < |fs.t| && fs.t[i].Free?;
            && (h != NONE ==> Rooted(fs.t, h))
            && (r == NotFound <==> h == NONE)
            && (r == NotADirectory <==> h != NONE && fs.t[h].File?)
            && (r == BadName <==> h != NONE && fs.t[h].Dir? && !UsableName(LastName(path)))
            && (r == Exists <==> h != NONE && fs.t[h].Dir? && UsableName(LastName(path)) &&
                                 Find(fs.t, 0, PathOf(fs.t, h) + [LastName(path)]) != NONE)
            && (r == Ok <==> h != NONE && fs.t[h].Dir? && UsableName(LastName(path)) &&
                             Find(fs.t, 0, PathOf(fs.t, h) + [LastName(path)]) == NONE && room)
            && (r != Ok ==> Make(fs, path, kind).fs == fs)
  {
    var h := Holder(fs.t, fs.cwd, path);
    HolderLands(fs.t, fs.cwd, path);
    if h != NONE {
      assert Rooted(fs.t, h);
      FindsPath(fs.t, h, |fs.t|);
      FindSnoc(fs.t, 0, PathOf(fs.t, h), LastName(path));
      if fs.t[h].File? { NothingInAFile(fs.t, h, LastName(path)); }
    }
  }

  lemma NothingInAFile(t: Tree, h: int, name: Text)
    requires 0 <= h < |t| && t[h].File?
    ensures FindStep(t, h, name) == NONE
  {
  }

  // ----- removing

  /** One entry fewer, and every list of names finds what it did but the removed one's. */
  lemma RemovedFinds(t: Tree, at: int, x: seq<Text>)
    requires MayRemove(t, at) && NamesOk(t)
    ensures ParentOk(t, at) && Rooted(t, at)
    ensures Find(RemoveEntry(t, at), 0, x) == if x == PathOf(t, at) then NONE else Find(t, 0, x)
  {
    RemoveKeepsTree(t, at);
    var t' := RemoveEntry(t, at);
    SameHeadingsSameNames(t, t');
    assert Rooted(t, at);
    forall i ensures SamePath(t, t', i) {
      if InTree(t, i) && i != at {
        assert Rooted(t, i);
        RemovedPath(t, at, i, |t|);
      }
    }
    SamePathFound(t, t', x);
    FindIffPath(t, x, at);
    if Find(t, 0, x) != NONE { FoundHasPath(t, x); }
    if Find(t', 0, x) != NONE { FoundHasPath(t', x); }
  }

  /** When something can be removed: it is there, is neither the root nor the working
      directory, and is a file or an empty directory. */
  lemma RemoveAccepted(fs: Fs, path: Text)
    requires FsOk(fs)
    ensures var at, r := Resolve(fs.t, fs.cwd, path), Remove(fs, path).result;
            && (at != NONE ==> InTree(fs.t, at))
            && (r == NotFound <==> at == NONE)
            && (r == BadName <==> at == 0)
            && (r == NotEmpty <==> at != NONE && at != 0 && (at == fs.cwd || (fs.t[at].Dir? && fs.t[at].kids != [])))
            && (r == Ok <==> at != NONE && at != 0 && at != fs.cwd && (fs.t[at].File? || fs.t[at].kids == []))
            && (r != Ok ==> Remove(fs, path).fs == fs)
  {
    HolderLands(fs.t, fs.cwd, path);
    var at := Resolve(fs.t, fs.cwd, path);
    if at != NONE { assert ParentOk(fs.t, at); }
  }

  /** The path then finds nothing, every other list of names what it did, and every other
      entry is what it was. */
  lemma RemoveLaw(fs: Fs, path: Text, x: seq<Text>)
    requires FsOk(fs) && NamesOk(fs.t) && Remove(fs, path).result == Ok
    ensures var fs', at := Remove(fs, path).fs, Resolve(fs.t, fs.cwd, path);
            && InTree(fs.t, at) && Rooted(fs.t, at) && ParentOk(fs.t, at) && |fs'.t| == |fs.t| && fs'.cwd == fs.cwd
            && fs'.t[at] == Free
            && (forall i :: 0 <= i < |fs.t| && i != at && i != fs.t[at].parent ==> fs'.t[i] == fs.t[i])
            && fs'.t[fs.t[at].parent] == fs.t[fs.t[at].parent].(kids := Without(fs.t[fs.t[at].parent].kids, at))
            && Find(fs'.t, 0, x) == (if x == PathOf(fs.t, at) then NONE else Find(fs.t, 0, x))
            && Resolve(fs'.t, fs'.cwd, Printed(PathOf(fs.t, at))) == NONE
  {
    RemoveAccepted(fs, path);
    var at := Resolve(fs.t, fs.cwd, path);
    RemovedFinds(fs.t, at, x);
    RemovedFinds(fs.t, at, PathOf(fs.t, at));
    PrintedFinds(fs.t, RemoveEntry(fs.t, at), fs.cwd, at);
  }

  /** A printed path looks for the names it was printed from. */
  lemma PrintedFinds(t: Tree, t': Tree, cwd: int, i: int)
    requires TreeOk(t) && NamesOk(t) && Rooted(t, i) && InTree(t', 0)
    ensures Resolve(t', cwd, Printed(PathOf(t, i))) == Find(t', 0, PathOf(t, i))
  {
    var names := PathOf(t, i);
    PathIsNames(t, i, |t|);
    if names == [] {
      assert Components(Printed(names)) == Components([]);
    } else {
      JoinedStarts(names);
      ComponentsOfJoined(names);
    }
    FollowIsFind(t', 0, names);
  }

  // ----- moving

  /** When something can be moved, by paths: it is there and not the root, the destination's
      directory is one and is not below it, and the new name can be used and finds nothing. */
  lemma MoveAccepted(fs: Fs, from: Text, to: Text)
    requires FsOk(fs) && NamesOk(fs.t)
    ensures var at, q, r := Resolve(fs.t, fs.cwd, from), Holder(fs.t, fs.cwd, to), Move(fs, from, to).result;
            && (at != NONE ==> Rooted(fs.t, at)) && (q != NONE ==> Rooted(fs.t, q))
            && (r == Ok <==>
                  && at != NONE && at != 0 && q != NONE && fs.t[q].Dir? && UsableName(LastName(to))
                  && Find(fs.t, 0, PathOf(fs.t, q) + [LastName(to)]) == NONE
                  && !(PathOf(fs.t, at) <= PathOf(fs.t, q)))
            && (r == NotFound <==> at == NONE || (at != 0 && q == NONE))
            && (r == NotADirectory <==> at != NONE && at != 0 && q != NONE && fs.t[q].File?)
            && (r == Exists <==> at != NONE && at != 0 && q != NONE && fs.t[q].Dir? && UsableName(LastName(to)) &&
                                 Find(fs.t, 0, PathOf(fs.t, q) + [LastName(to)]) != NONE)
            && r in {Ok, NotFound, NotADirectory, Exists, BadName}
            && (r != Ok ==> Move(fs, from, to).fs == fs)
  {
    var t, at, q := fs.t, Resolve(fs.t, fs.cwd, from), Holder(fs.t, fs.cwd, to);
    HolderLands(t, fs.cwd, from);
    HolderLands(t, fs.cwd, to);
    if q != NONE && at != NONE {
      assert Rooted(t, q) && Rooted(t, at);
      FindsPath(t, q, |t|);
      FindSnoc(t, 0, PathOf(t, q), LastName(to));
      if t[q].File? { NothingInAFile(t, q, LastName(to)); }
      WithinIsPrefix(t, at, q, |t|);
    } else if q != NONE {
      assert Rooted(t, q);
    } else if at != NONE {
      assert Rooted(t, at);
    }
  }

  /** Being inside an entry is having a path that starts with its own. */
  lemma {:induction false} WithinIsPrefix(t: Tree, at: int, i: int, n: nat)
    requires TreeOk(t) && NamesOk(t) && InTree(t, at) && Climb(t, i, n)
    ensures Rooted(t, at) && Rooted(t, i)
    ensures Within(t, i, at) <==> PathOf(t, at) <= PathOf(t, i)
    decreases n
  {
    assert Rooted(t, at) && Rooted(t, i);
    WithinStep(t, i, at);
    if i != 0 {
      var p := t[i].parent;
      PathStep(t, i);
      WithinIsPrefix(t, at, p, n - 1);
      if PathOf(t, at) <= PathOf(t, i) && !(PathOf(t, at) <= PathOf(t, p)) {
        assert PathOf(t, at) == PathOf(t, i);
        FindsPath(t, i, |t|);
        FindsPath(t, at, |t|);
      }
    } else {
      if PathOf(t, at) <= [] { FindsPath(t, at, |t|); }
    }
  }

  /** One entry taken out of a list, the others in their order. */
  lemma {:induction false} WithoutAt(s: seq<int>, x: int) returns (k: nat)
    requires x in s
    ensures k < |s| && s[k] == x && Without(s, x) == s[..k] + s[k + 1..]
  {
    if s[0] == x {
      k := 0;
      assert s[..0] + s[1..] == s[1..];
    } else {
      var rest := s[1..];
      var j := WithoutAt(rest, x);
      k := j + 1;
      assert s[..k] == [s[0]] + rest[..j] && s[k + 1..] == rest[j + 1..];
      assert Without(s, x) == [s[0]] + (rest[..j] + rest[j + 1..]);
    }
  }

  /** Where a moved entry is listed: last in the directory it went to, and no longer where it
      was; the other entries of both stay in their order, and so does every other list. */
  lemma MoveLists(fs: Fs, from: Text, to: Text, d: int)
    requires FsOk(fs) && Move(fs, from, to).result == Ok && 0 <= d < |fs.t| && fs.t[d].Dir?
    ensures var at, q, t' := Resolve(fs.t, fs.cwd, from), Holder(fs.t, fs.cwd, to), Move(fs, from, to).fs.t;
            && InTree(fs.t, at) && InTree(t', at) && 0 <= d < |t'| && t'[d].Dir?
            && (at in fs.t[d].kids <==> d == fs.t[at].parent)
            && t'[d].kids == Without(fs.t[d].kids, at) + (if d == q then [at] else [])
            && t'[at].parent == q && t'[at].name == LastName(to)
            && Move(fs, from, to).fs.cwd == fs.cwd
  {
    var t, at, q, name := fs.t, Resolve(fs.t, fs.cwd, from), Holder(fs.t, fs.cwd, to), LastName(to);
    assert Rooted(t, q);
    MayMoveParts(t, at, q);
    MoveTreeMoves(t, at, q, name);
    var t' := MoveTree(t, at, q, name);
    assert MovedEntry(t[d], t'[d], d, at, t[at].parent, q, name);
    assert MovedEntry(t[at], t'[at], at, at, t[at].parent, q, name);
    assert KidsOk(t, d) && ParentOk(t, at);
  }

  // ----- contents

  /** The fewest blocks that hold that many bytes. */
  lemma BlocksForIsLeast(length: nat, n: nat)
    ensures 512 * BlocksFor(length) >= length
    ensures 512 * n >= length <==> n >= BlocksFor(length)
  {
  }

  /** Room for a file to become `data`: it is not too long, and with every other file's
      blocks it is within the pool. */
  predicate HasRoom(t: Tree, had: seq<Byte>, data: seq<Byte>) {
    |data| <= FILE_MAX && BlocksHeld(t) - BlocksFor(|had|) + BlocksFor(|data|) <= MAX_BLOCKS
  }

  /** When bytes can be written: the path leads to a file, or nowhere and one can be made
      there; and there is room for what the file is to hold. */
  lemma WriteAccepted(fs: Fs, path: Text, data: seq<Byte>, appending: bool)
    requires FsOk(fs)
    ensures var at := Resolve(fs.t, fs.cwd, path);
            var r := if appending then Append(fs, path, data) else Write(fs, path, data);
            && (at != NONE ==> InTree(fs.t, at))
            && (r.result == Ok <==>
                  if at != NONE then
                    fs.t[at].File? && HasRoom(fs.t, fs.t[at].data, if appending then fs.t[at].data + data else data)
                  else Make(fs, path, FileKind).result == Ok && HasRoom(fs.t, [], data))
            && (r.result == IsADirectory <==> at != NONE && fs.t[at].Dir?)
            && (at == NONE && Make(fs, path, FileKind).result != Ok ==> r == Make(fs, path, FileKind))
            && (at != NONE && fs.t[at].File? ==>
                  (r.result == TooBig <==> |data| + (if appending then |fs.t[at].data| else 0) > FILE_MAX))
  {
    var file := TargetFile(fs, path);
    HolderLands(fs.t, fs.cwd, path);
    if file.result == Ok {
      TargetResolves(fs, path);
      if Resolve(fs.t, fs.cwd, path) == NONE { MadeHolds(fs, path); }
      var had := file.fs.t[file.at].data;
      var whole := if appending then had + data else data;
      HeldUpdate(file.fs.t, file.at, file.fs.t[file.at].(data := whole));
      WrittenOver(file.fs, file.at, data);
    }
  }

  lemma WrittenOver(fs: Fs, at: int, data: seq<Byte>)
    requires 0 <= at < |fs.t| && fs.t[at].File?
    ensures WithData(WithData(fs, at, []), at, [] + data) == WithData(fs, at, data)
  {
    assert [] + data == data;
  }

  lemma MadeHolds(fs: Fs, path: Text)
    requires FsOk(fs) && MakeVerdict(fs, path) == Ok
    ensures BlocksHeld(Made(fs, path, FileKind).t) == BlocksHeld(fs.t)
    ensures Made(fs, path, FileKind).t[FirstFree(fs.t, 1)].File? && Made(fs, path, FileKind).t[FirstFree(fs.t, 1)].data == []
  {
    var h, made, e := Holder(fs.t, fs.cwd, path), FirstFree(fs.t, 1), NewEntry(FileKind, LastName(path), Holder(fs.t, fs.cwd, path));
    HeldUpdate(fs.t, made, e);
    HeldUpdate(fs.t[made := e], h, fs.t[h].(kids := fs.t[h].kids + [made]));
  }

  /** A write moves nothing: every list of names finds what it did, but the one of a file
      made for it. */
  lemma WriteFinds(fs: Fs, path: Text, data: seq<Byte>, appending: bool, x: seq<Text>)
    requires FsOk(fs) && NamesOk(fs.t)
    requires (if appending then Append(fs, path, data) else Write(fs, path, data)).result == Ok
    ensures var fs' := (if appending then Append(fs, path, data) else Write(fs, path, data)).fs;
            && fs'.cwd == fs.cwd
            && Find(fs'.t, 0, x) == Find(if Resolve(fs.t, fs.cwd, path) != NONE then fs.t else Make(fs, path, FileKind).fs.t, 0, x)
  {
    HolderLands(fs.t, fs.cwd, path);
    var file := TargetFile(fs, path);
    TargetResolves(fs, path);
    var whole := if appending then file.fs.t[file.at].data + data else data;
    DataFinds(file.fs.t, file.at, whole, 0, x);
    WrittenOver(file.fs, file.at, data);
  }

  lemma {:induction false} DataFinds(t: Tree, at: int, data: seq<Byte>, d: int, x: seq<Text>)
    requires 0 <= at < |t| && t[at].File?
    ensures Find(t[at := t[at].(data := data)], d, x) == Find(t, d, x)
    decreases |x|
  {
    if x != [] {
      if 0 <= d < |t| && t[d].Dir? { DataNamed(t, at, data, t[d].kids, x[0]); }
      DataFinds(t, at, data, FindStep(t, d, x[0]), x[1..]);
    }
  }

  /** A buffer gets the start of the contents, all of them or one byte less than it has. */
  lemma ReadIsStart(data: seq<Byte>, capacity: nat)
    requires capacity > 0
    ensures ReadBytes(data, capacity) <= data
    ensures |ReadBytes(data, capacity)| == if |data| + 1 <= capacity then |data| else capacity - 1
  {
  }

  /** When a file can be copied: the source is a file, nothing is at the destination, one can
      be made there, and there is room for both. */
  lemma CopyAccepted(fs: Fs, from: Text, to: Text)
    requires FsOk(fs)
    ensures var at, r := Resolve(fs.t, fs.cwd, from), Copy(fs, from, to);
            && (at != NONE ==> InTree(fs.t, at))
            && (r.result == Ok <==>
                  && at != NONE && fs.t[at].File? && Resolve(fs.t, fs.cwd, to) == NONE
                  && Make(fs, to, FileKind).result == Ok && HasRoom(fs.t, [], fs.t[at].data))
            && (at == NONE ==> r.result == NotFound)
            && (r.result == IsADirectory <==> at != NONE && fs.t[at].Dir?)
            && (r.result != Ok ==> r.fs == fs)
  {
    HolderLands(fs.t, fs.cwd, from);
    if MakeVerdict(fs, to) == Ok && Resolve(fs.t, fs.cwd, from) != NONE && fs.t[Resolve(fs.t, fs.cwd, from)].File? {
      MadeHolds(fs, to);
      var made := Made(fs, to, FileKind);
      var e := made.t[FirstFree(fs.t, 1)];
      HeldUpdate(made.t, FirstFree(fs.t, 1), e.(data := fs.t[Resolve(fs.t, fs.cwd, from)].data));
    }
  }

  /** Every list of names finds after a copy what it would find after making the file. */
  lemma CopyFinds(fs: Fs, from: Text, to: Text, x: seq<Text>)
    requires FsOk(fs) && Copy(fs, from, to).result == Ok
    ensures var fs', made := Copy(fs, from, to).fs, Make(fs, to, FileKind).fs;
            && fs'.cwd == fs.cwd && Find(fs'.t, 0, x) == Find(made.t, 0, x)
            && |fs'.t| == |made.t| && forall i :: 0 <= i < |made.t| && i != Resolve(made.t, made.cwd, to) ==> fs'.t[i] == made.t[i]
  {
    MadeHolds(fs, to);
    MadeResolves(fs, to, FileKind);
    DataFinds(Made(fs, to, FileKind).t, FirstFree(fs.t, 1), fs.t[Resolve(fs.t, fs.cwd, from)].data, 0, x);
  }
}
