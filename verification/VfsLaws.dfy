// What the operations promise each other: a move re-roots one subtree, what
// was written is read back, and a refusal changes nothing.
module VfsLaws {
  import opened Common
  import opened VfsTypes
  import opened VfsTree
  import opened VfsReroot
  import opened VfsNames
  import opened VfsSpec
  import opened VfsFile

  /** `vfs_move`, seen through every list of names from the root and through
      every node's contents. */
  lemma MoveLaw(fs: Fs, from: Text, to: Text, x: seq<Text>)
    requires FsOk(fs) && NamesOk(fs.t) && Move(fs, from, to).result == Ok
    ensures var at, q, t' := Resolve(fs.t, fs.cwd, from), Holder(fs.t, fs.cwd, to), Move(fs, from, to).fs.t;
            && Rooted(fs.t, at) && Rooted(fs.t, q)
            && Find(t', 0, x) == FoundAfterMove(fs.t, PathOf(fs.t, at), PathOf(fs.t, q) + [LastName(to)], x)
            && |t'| == |fs.t|
            && forall i :: 0 <= i < |t'| && t'[i].File? ==> fs.t[i].File? && t'[i].data == fs.t[i].data
  {
    var t, at, q, name := fs.t, Resolve(fs.t, fs.cwd, from), Holder(fs.t, fs.cwd, to), LastName(to);
    assert Rooted(t, q);
    MayMoveParts(t, at, q);
    MoveTreeMoves(t, at, q, name);
    var t' := MoveTree(t, at, q, name);
    MoveReroots(t, t', at, q, name, x);
    forall i | 0 <= i < |t'| && t'[i].File? ensures t[i].File? && t'[i].data == t[i].data {
      assert MovedEntry(t[i], t'[i], i, at, t[at].parent, q, name);
    }
  }

  /** The guard against moving a directory into itself is exact: the surgery it
      stands before yields a tree if and only if the guard lets it through. */
  lemma MoveUnderItself(t: Tree, at: int, q: int, name: Text)
    requires TreeOk(t) && InTree(t, at) && at != 0 && 0 <= q < |t| && t[q].Dir? && Rooted(t, q) && q != at
    requires 0 <= t[at].parent < |t| && t[t[at].parent].Dir? && t[at].parent != at
    ensures TreeOk(MoveTree(t, at, q, name)) <==> !Within(t, q, at)
  {
    MoveTreeMoves(t, at, q, name);
    var t' := MoveTree(t, at, q, name);
    if Within(t, q, at) {
      if TreeOk(t') {
        assert MovedEntry(t[q], t'[q], q, at, t[at].parent, q, name);
        assert Rooted(t', q);
        NeverRooted(t, t', at, q, name, q, |t|, |t'|);
      }
    } else {
      MoveKeepsTree(t, t', at, q, name);
    }
  }

  /** Hung under itself, a subtree climbs round and round. */
  lemma {:induction false} NeverRooted(t: Tree, t': Tree, at: int, q: int, name: Text, i: int, n: nat, m: nat)
    requires Moved(t, t', at, q, name) && at != 0 && Climb(t, i, n) && Inside(t, i, at, n)
    requires Rooted(t, q) && Within(t, q, at)
    ensures !Climb(t', i, m)
    decreases m, n
  {
    assert MovedEntry(t[i], t'[i], i, at, t[at].parent, q, name);
    if Climb(t', i, m) {
      if i == 0 {
      } else if i == at {
        if m > 0 { NeverRooted(t, t', at, q, name, q, |t|, m - 1); }
      } else {
        if m > 0 { NeverRooted(t, t', at, q, name, t[i].parent, n - 1, m - 1); }
      }
    }
  }

  /** What a path reads as. */
  datatype Reading = Nothing | Bytes(data: seq<Byte>)

  function Read(fs: Fs, path: Text): Reading {
    var at := Resolve(fs.t, fs.cwd, path);
    if 0 <= at < |fs.t| && fs.t[at].File? then Bytes(fs.t[at].data) else Nothing
  }

  /** The bytes a write starts from: the file's, or none when it is new. */
  function Before(fs: Fs, path: Text): seq<Byte> {
    match Read(fs, path)
    case Nothing => []
    case Bytes(data) => data
  }

  /** An accepted write reads back as written, an accepted append as the old
      bytes and the new; every other file reads as before by every path that
      reached it. */
  lemma WrittenReads(fs: Fs, path: Text, data: seq<Byte>, appending: bool, other: Text)
    requires FsOk(fs)
    requires (if appending then Append(fs, path, data) else Write(fs, path, data)).result == Ok
    ensures var fs' := (if appending then Append(fs, path, data) else Write(fs, path, data)).fs;
            && Read(fs', path) == Bytes(if appending then Before(fs, path) + data else data)
            && (Resolve(fs.t, fs.cwd, other) != NONE && Resolve(fs.t, fs.cwd, other) != Resolve(fs.t, fs.cwd, path) ==>
                  Read(fs', other) == Read(fs, other))
  {
    var file := TargetFile(fs, path);
    var at, fs1 := file.at, file.fs;
    TargetResolves(fs, path);
    HolderLands(fs.t, fs.cwd, path);
    HolderLands(fs.t, fs.cwd, other);
    var kept := if appending then fs1.t[at].data else [];
    var start := if appending then fs1 else WithData(fs1, at, []);
    var fs' := WithData(start, at, kept + data);
    assert fs' == WithData(fs1, at, kept + data);
    DataResolves(fs1, at, kept + data, path);
    DataResolves(fs1, at, kept + data, other);
    if Resolve(fs.t, fs.cwd, path) == NONE && Resolve(fs.t, fs.cwd, other) != NONE {
      AddResolves(fs, path, FileKind, other);
    }
  }

  /** A refused append to a file that exists, and a refused copy, leave every
      path and every byte as they were. */
  lemma RefusalsKeep(fs: Fs, path: Text, data: seq<Byte>, to: Text)
    requires FsOk(fs)
    ensures Append(fs, path, data).result != Ok && Resolve(fs.t, fs.cwd, path) != NONE ==> Append(fs, path, data).fs == fs
    ensures Copy(fs, path, to).result != Ok ==> Copy(fs, path, to).fs == fs
  {
    HolderLands(fs.t, fs.cwd, path);
  }

  /** An accepted copy reads as its source, which still reads as it did. */
  lemma CopyReads(fs: Fs, from: Text, to: Text)
    requires FsOk(fs) && Copy(fs, from, to).result == Ok
    ensures Read(Copy(fs, from, to).fs, to) == Read(fs, from)
    ensures Read(Copy(fs, from, to).fs, from) == Read(fs, from)
  {
    var at, made := Resolve(fs.t, fs.cwd, from), FirstFree(fs.t, 1);
    var fs1 := Made(fs, to, FileKind);
    MadeResolves(fs, to, FileKind);
    AddResolves(fs, to, FileKind, from);
    DataResolves(fs1, made, fs.t[at].data, to);
    DataResolves(fs1, made, fs.t[at].data, from);
  }

  /** An overwrite that is refused for want of room has already given the old
      contents back: the file is left empty. */
  lemma RefusedWriteEmpties(fs: Fs, path: Text, data: seq<Byte>)
    requires FsOk(fs) && TargetFile(fs, path).result == Ok && Write(fs, path, data).result != Ok
    ensures Read(Write(fs, path, data).fs, path) == Bytes([])
  {
    TargetResolves(fs, path);
    var file := TargetFile(fs, path);
    DataResolves(file.fs, file.at, [], path);
  }

  /** A refused overwrite of something that exists leaves the filesystem as it was
      exactly when there were no bytes to lose. */
  lemma RefusedWriteKeeps(fs: Fs, path: Text, data: seq<Byte>)
    requires FsOk(fs) && Resolve(fs.t, fs.cwd, path) != NONE && Write(fs, path, data).result != Ok
    ensures Write(fs, path, data).fs == fs <==> Before(fs, path) == []
  {
    HolderLands(fs.t, fs.cwd, path);
    var at := Resolve(fs.t, fs.cwd, path);
    if fs.t[at].File? { assert fs.t[at := fs.t[at].(data := [])][at].data == []; }
  }

  /** One byte written to "A", then more than a file can hold: the byte is gone. */
  lemma OverwriteLoses(big: seq<Byte>)
    requires |big| > FILE_MAX
    ensures var fs := Run([WriteOp([65], [1])]);
            && Read(fs, [65]) == Bytes([1])
            && Write(fs, [65], big).result == TooBig && Read(Write(fs, [65], big).fs, [65]) == Bytes([])
  {
    var ops := [WriteOp([65], [1])];
    assert ops[..0] == [];
    InitOk();
    FirstWrite();
    WrittenReads(InitFs(), [65], [1], false, [65]);
    var fs := Run(ops);
    assert fs == Write(InitFs(), [65], [1]).fs;
    assert TargetFile(fs, [65]).result == Ok;
    RefusedWriteEmpties(fs, [65], big);
  }

  lemma FirstWrite()
    ensures Write(InitFs(), [65], [1]).result == Ok
  {
    var fs := InitFs();
    InitOk();
    assert WordLength([65]) == 1;
    assert Components([65]) == [[65]] by { assert [65][..1] == [65] && [65][1..] == []; }
    assert FirstFree(fs.t, 1) == 1;
    assert MakeVerdict(fs, [65]) == Ok;
    MakeKeeps(fs, [65], FileKind);
    var made := Made(fs, [65], FileKind);
    assert made == fs.(t := AddEntry(fs.t, 0, 1, FileKind, [65]));
    OneByteFits(fs, made);
    HolderThenName(fs.t, 0, [65]);
    assert TargetFile(fs, [65]) == Target(Ok, made, 1);
  }

  /** A new file of one byte, where there is nothing else. */
  lemma OneByteFits(fs: Fs, made: Fs)
    requires fs == InitFs() && made == fs.(t := AddEntry(fs.t, 0, 1, FileKind, [65]))
    ensures made.t[1].File? && AppendTo(WithData(made, 1, []), 1, [1]).result == Ok
  {
    NothingHeld(fs.t);
    var t1 := fs.t[1 := NewEntry(FileKind, [65], 0)];
    HeldUpdate(fs.t, 1, t1[1]);
    HeldUpdate(t1, 0, made.t[0]);
    var emptied, byte := WithData(made, 1, []), [1];
    assert emptied.t == made.t;
    assert emptied.t[1].data + byte == byte;
    HeldUpdate(made.t, 1, made.t[1].(data := byte));
  }
}
