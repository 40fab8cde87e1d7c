// What each filesystem operation does to the tree and the working directory,
// and what every run of them keeps (kernel/src/vfstree.c, vfsmove.c, vfsfile.c).
module VfsSpec {
  import opened Common
  import opened VfsTypes
  import opened VfsTree
  import opened VfsReroot
  import opened VfsNames

  datatype Fs = Fs(t: Tree, cwd: int)

  datatype Outcome = Outcome(result: VfsResult, fs: Fs)

  // ----- room

  function EntryBlocks(e: Entry): nat { if e.File? then BlocksFor(|e.data|) else 0 }

  function BlocksHeld(t: Tree): nat {
    if t == [] then 0 else BlocksHeld(t[..|t| - 1]) + EntryBlocks(t[|t| - 1])
  }

  lemma {:induction false} HeldUpdate(t: Tree, i: int, e: Entry)
    requires 0 <= i < |t|
    ensures BlocksHeld(t[i := e]) == BlocksHeld(t) - EntryBlocks(t[i]) + EntryBlocks(e)
  {
    var last := |t| - 1;
    if i == last {
      assert t[i := e][..last] == t[..last];
    } else {
      assert t[i := e][..last] == t[..last][i := e];
      HeldUpdate(t[..last], i, e);
    }
  }

  /** The lowest free slot from `from` up. */
  function FirstFree(t: Tree, from: nat): (r: int)
    ensures r == NONE || (from <= r < |t| && t[r].Free?)
    ensures forall i :: from <= i < |t| && (r == NONE || i < r) ==> !t[i].Free?
    decreases |t| - from
  {
    if from >= |t| then NONE else if t[from].Free? then from else FirstFree(t, from + 1)
  }

  // ----- the operations

  /** Why `path` cannot be made, or `Ok`. */
  function MakeVerdict(fs: Fs, path: Text): VfsResult {
    var h := Holder(fs.t, fs.cwd, path);
    if !(0 <= h < |fs.t|) then NotFound
    else if !fs.t[h].Dir? then NotADirectory
    else if !UsableName(LastName(path)) then BadName
    else if FindNamed(fs.t, fs.t[h].kids, LastName(path)) != NONE then Exists
    else if FirstFree(fs.t, 1) == NONE then NoSpace
    else Ok
  }

  function Made(fs: Fs, path: Text, kind: Kind): Fs
    requires MakeVerdict(fs, path) == Ok
  {
    var h := Holder(fs.t, fs.cwd, path);
    fs.(t := AddEntry(fs.t, h, FirstFree(fs.t, 1), kind, LastName(path)))
  }

  function Make(fs: Fs, path: Text, kind: Kind): Outcome {
    var verdict := MakeVerdict(fs, path);
    Outcome(verdict, if verdict == Ok then Made(fs, path, kind) else fs)
  }

  function Chdir(fs: Fs, path: Text): Outcome {
    var at := Resolve(fs.t, fs.cwd, path);
    if !(0 <= at < |fs.t|) then Outcome(NotFound, fs)
    else if !fs.t[at].Dir? then Outcome(NotADirectory, fs)
    else Outcome(Ok, fs.(cwd := at))
  }

  /** The file a write goes to, made when the path names nothing. */
  datatype Target = Target(result: VfsResult, fs: Fs, at: int)

  function TargetFile(fs: Fs, path: Text): Target {
    var at := Resolve(fs.t, fs.cwd, path);
    var found := 0 <= at < |fs.t|;
    if !found && MakeVerdict(fs, path) != Ok then Target(MakeVerdict(fs, path), fs, NONE)
    else
      var fs' := if found then fs else Made(fs, path, FileKind);
      var at' := if found then at else FirstFree(fs.t, 1);
      if !fs'.t[at'].File? then Target(IsADirectory, fs', NONE) else Target(Ok, fs', at')
  }

  function WithData(fs: Fs, at: int, data: seq<Byte>): Fs
    requires 0 <= at < |fs.t| && fs.t[at].File?
  {
    fs.(t := fs.t[at := fs.t[at].(data := data)])
  }

  function AppendTo(fs: Fs, at: int, data: seq<Byte>): Outcome
    requires 0 <= at < |fs.t| && fs.t[at].File?
  {
    var whole := fs.t[at].data + data;
    if |whole| > FILE_MAX then Outcome(TooBig, fs)
    else if BlocksHeld(WithData(fs, at, whole).t) > MAX_BLOCKS then Outcome(NoSpace, fs)
    else Outcome(Ok, WithData(fs, at, whole))
  }

  function Append(fs: Fs, path: Text, data: seq<Byte>): Outcome {
    var file := TargetFile(fs, path);
    if file.result != Ok then Outcome(file.result, file.fs) else AppendTo(file.fs, file.at, data)
  }

  /** The old contents go back to the pool before the new ones are asked for,
      so a refused overwrite leaves the file empty. */
  function Write(fs: Fs, path: Text, data: seq<Byte>): Outcome {
    var file := TargetFile(fs, path);
    if file.result != Ok then Outcome(file.result, file.fs)
    else AppendTo(WithData(file.fs, file.at, []), file.at, data)
  }

  function Remove(fs: Fs, path: Text): Outcome {
    var at := Resolve(fs.t, fs.cwd, path);
    if !(0 <= at < |fs.t|) then Outcome(NotFound, fs)
    else if at == 0 then Outcome(BadName, fs)
    else if fs.t[at].Dir? && fs.t[at].kids != [] then Outcome(NotEmpty, fs)
    else if at == fs.cwd then Outcome(NotEmpty, fs)
    else if fs.t[at].Free? || !(0 <= fs.t[at].parent < |fs.t|) || !fs.t[fs.t[at].parent].Dir? then Outcome(NotFound, fs)
    else Outcome(Ok, fs.(t := RemoveEntry(fs.t, at)))
  }

  ghost function MoveVerdict(fs: Fs, from: Text, to: Text): VfsResult
    requires TreeOk(fs.t)
  {
    var at := Resolve(fs.t, fs.cwd, from);
    var q := Holder(fs.t, fs.cwd, to);
    if !InTree(fs.t, at) then NotFound
    else if at == 0 then BadName
    else if !InTree(fs.t, q) then NotFound
    else if !fs.t[q].Dir? then NotADirectory
    else if !UsableName(LastName(to)) then BadName
    else if FindNamed(fs.t, fs.t[q].kids, LastName(to)) != NONE then Exists
    else if Rooted(fs.t, q) && Within(fs.t, q, at) then BadName
    else Ok
  }

  ghost function Move(fs: Fs, from: Text, to: Text): Outcome
    requires TreeOk(fs.t)
  {
    var verdict := MoveVerdict(fs, from, to);
    if verdict != Ok then Outcome(verdict, fs)
    else
      var at, q := Resolve(fs.t, fs.cwd, from), Holder(fs.t, fs.cwd, to);
      assert Rooted(fs.t, q);
      MayMoveParts(fs.t, at, q);
      Outcome(Ok, fs.(t := MoveTree(fs.t, at, q, LastName(to))))
  }

  function Copy(fs: Fs, from: Text, to: Text): Outcome {
    var at := Resolve(fs.t, fs.cwd, from);
    if !(0 <= at < |fs.t|) then Outcome(NotFound, fs)
    else if !fs.t[at].File? then Outcome(IsADirectory, fs)
    else if Resolve(fs.t, fs.cwd, to) != NONE then Outcome(Exists, fs)
    else if MakeVerdict(fs, to) != Ok then Outcome(MakeVerdict(fs, to), fs)
    else
      var made := FirstFree(fs.t, 1);
      var fs' := WithData(Made(fs, to, FileKind), made, fs.t[at].data);
      if BlocksHeld(fs'.t) > MAX_BLOCKS then Outcome(NoSpace, fs) else Outcome(Ok, fs')
  }

  /** What `vfs_read` puts in a buffer of `capacity` bytes. */
  function ReadBytes(data: seq<Byte>, capacity: nat): seq<Byte>
    requires capacity > 0
  {
    if |data| < capacity then data else data[..capacity - 1]
  }

  // ----- what is always true

  /** Everything the kernel relies on when it walks the tree and its blocks. */
  ghost predicate FsOk(fs: Fs) {
    && TreeOk(fs.t)
    && InTree(fs.t, fs.cwd) && fs.t[fs.cwd].Dir?
    && (forall i :: 0 <= i < |fs.t| ==> EntryFits(fs.t[i]))
    && BlocksHeld(fs.t) <= MAX_BLOCKS
  }

  ghost predicate EntryFits(e: Entry) {
    (!e.Free? ==> |e.name| < NAME_MAX) && (e.File? ==> |e.data| <= FILE_MAX)
  }

  ghost function InitTree(): Tree {
    seq(MAX_NODES, i => if i == 0 then Dir([], 0, []) else Free)
  }

  ghost function InitFs(): Fs { Fs(InitTree(), 0) }

  lemma {:induction false} NothingHeld(t: Tree)
    requires forall i :: 0 <= i < |t| ==> !t[i].File?
    ensures BlocksHeld(t) == 0
  {
    if t != [] { NothingHeld(t[..|t| - 1]); }
  }

  lemma InitOk()
    ensures FsOk(InitFs()) && NamesOk(InitFs().t)
  {
    var t := InitTree();
    NothingHeld(t);
    assert forall i :: InTree(t, i) ==> i == 0;
    assert KidsOk(t, 0) && ParentOk(t, 0);
  }

  lemma {:induction false} HolderLands(t: Tree, cwd: int, path: Text)
    requires TreeOk(t) && InTree(t, cwd)
    ensures Holder(t, cwd, path) == NONE || InTree(t, Holder(t, cwd, path))
    ensures Resolve(t, cwd, path) == NONE || InTree(t, Resolve(t, cwd, path))
  {
    var comps := Components(path);
    var at := StartAt(cwd, path);
    assert InTree(t, at);
    FollowLands(t, at, comps);
    if comps != [] { FollowLands(t, at, comps[..|comps| - 1]); }
  }

  lemma MakeKeeps(fs: Fs, path: Text, kind: Kind)
    requires FsOk(fs)
    ensures FsOk(Make(fs, path, kind).fs)
    ensures NamesOk(fs.t) ==> NamesOk(Make(fs, path, kind).fs.t)
  {
    if MakeVerdict(fs, path) == Ok {
      var t, h, made, name := fs.t, Holder(fs.t, fs.cwd, path), FirstFree(fs.t, 1), LastName(path);
      assert MayAdd(t, h, made);
      AddKeepsTree(t, h, made, kind, name);
      if NamesOk(t) { AddKeepsNames(t, h, made, kind, name); }
      var e := NewEntry(kind, name, h);
      HeldUpdate(t, made, e);
      HeldUpdate(t[made := e], h, t[h].(kids := t[h].kids + [made]));
    }
  }

  lemma DataKeeps(fs: Fs, at: int, data: seq<Byte>)
    requires FsOk(fs) && 0 <= at < |fs.t| && fs.t[at].File? && |data| <= FILE_MAX
    requires BlocksHeld(WithData(fs, at, data).t) <= MAX_BLOCKS
    ensures FsOk(WithData(fs, at, data))
    ensures NamesOk(fs.t) ==> NamesOk(WithData(fs, at, data).t)
  {
    DataKeepsTree(fs.t, at, data);
  }

  lemma EmptyingKeeps(fs: Fs, at: int)
    requires FsOk(fs) && 0 <= at < |fs.t| && fs.t[at].File?
    ensures FsOk(WithData(fs, at, []))
    ensures NamesOk(fs.t) ==> NamesOk(WithData(fs, at, []).t)
  {
    HeldUpdate(fs.t, at, fs.t[at].(data := []));
    DataKeeps(fs, at, []);
  }

  lemma TargetKeeps(fs: Fs, path: Text)
    requires FsOk(fs)
    ensures FsOk(TargetFile(fs, path).fs)
    ensures NamesOk(fs.t) ==> NamesOk(TargetFile(fs, path).fs.t)
  {
    HolderLands(fs.t, fs.cwd, path);
    MakeKeeps(fs, path, FileKind);
  }

  lemma AppendToKeeps(fs: Fs, at: int, data: seq<Byte>)
    requires FsOk(fs) && 0 <= at < |fs.t| && fs.t[at].File?
    ensures FsOk(AppendTo(fs, at, data).fs)
    ensures NamesOk(fs.t) ==> NamesOk(AppendTo(fs, at, data).fs.t)
  {
    if AppendTo(fs, at, data).result == Ok { DataKeeps(fs, at, fs.t[at].data + data); }
  }

  lemma RemoveKeeps(fs: Fs, path: Text)
    requires FsOk(fs)
    ensures FsOk(Remove(fs, path).fs)
    ensures NamesOk(fs.t) ==> NamesOk(Remove(fs, path).fs.t)
  {
    if Remove(fs, path).result == Ok {
      var t, at := fs.t, Resolve(fs.t, fs.cwd, path);
      RemoveKeepsTree(t, at);
      var p := t[at].parent;
      HeldUpdate(t, p, t[p].(kids := Without(t[p].kids, at)));
      HeldUpdate(Detach(t, at), at, Free);
      if NamesOk(t) { SameHeadingsSameNames(t, RemoveEntry(t, at)); }
    }
  }

  lemma MoveKeeps(fs: Fs, from: Text, to: Text)
    requires FsOk(fs)
    ensures FsOk(Move(fs, from, to).fs)
    ensures NamesOk(fs.t) ==> NamesOk(Move(fs, from, to).fs.t)
  {
    if MoveVerdict(fs, from, to) == Ok {
      var t, at, q, name := fs.t, Resolve(fs.t, fs.cwd, from), Holder(fs.t, fs.cwd, to), LastName(to);
      assert Rooted(t, q);
      MayMoveParts(t, at, q);
      MoveTreeMoves(t, at, q, name);
      var t' := MoveTree(t, at, q, name);
      MoveKeepsTree(t, t', at, q, name);
      if NamesOk(t) { MoveKeepsNames(t, t', at, q, name); }
      forall i | 0 <= i < |t| ensures EntryBlocks(t[i]) == EntryBlocks(t'[i]) && EntryFits(t'[i]) {
        assert MovedEntry(t[i], t'[i], i, at, t[at].parent, q, name) && EntryFits(t[i]);
      }
      SameDataSameRoom(t, t');
      assert InTree(t', fs.cwd);
    }
  }

  lemma {:induction false} SameDataSameRoom(t: Tree, t': Tree)
    requires |t| == |t'|
    requires forall i :: 0 <= i < |t| ==> EntryBlocks(t[i]) == EntryBlocks(t'[i])
    ensures BlocksHeld(t) == BlocksHeld(t')
  {
    if t != [] { SameDataSameRoom(t[..|t| - 1], t'[..|t| - 1]); }
  }

  lemma CopyKeeps(fs: Fs, from: Text, to: Text)
    requires FsOk(fs)
    ensures FsOk(Copy(fs, from, to).fs)
    ensures NamesOk(fs.t) ==> NamesOk(Copy(fs, from, to).fs.t)
  {
    if Copy(fs, from, to).result == Ok {
      MakeKeeps(fs, to, FileKind);
      DataKeeps(Made(fs, to, FileKind), FirstFree(fs.t, 1), fs.t[Resolve(fs.t, fs.cwd, from)].data);
    }
  }

  // ----- runs

  datatype Op =
    | MakeOp(path: Text, kind: Kind)
    | ChdirOp(path: Text)
    | WriteOp(path: Text, data: seq<Byte>)
    | AppendOp(path: Text, data: seq<Byte>)
    | RemoveOp(path: Text)
    | MoveOp(path: Text, to: Text)
    | CopyOp(path: Text, to: Text)

  ghost function Do(fs: Fs, op: Op): Outcome
    requires FsOk(fs)
  {
    match op
    case MakeOp(path, kind) => Make(fs, path, kind)
    case ChdirOp(path) => Chdir(fs, path)
    case WriteOp(path, data) => Write(fs, path, data)
    case AppendOp(path, data) => Append(fs, path, data)
    case RemoveOp(path) => Remove(fs, path)
    case MoveOp(path, to) => Move(fs, path, to)
    case CopyOp(path, to) => Copy(fs, path, to)
  }

  lemma DoKeeps(fs: Fs, op: Op)
    requires FsOk(fs)
    ensures FsOk(Do(fs, op).fs)
    ensures NamesOk(fs.t) ==> NamesOk(Do(fs, op).fs.t)
  {
    match op
    case MakeOp(path, kind) => MakeKeeps(fs, path, kind);
    case ChdirOp(path) => HolderLands(fs.t, fs.cwd, path);
    case WriteOp(path, data) =>
      var file := TargetFile(fs, path);
      TargetKeeps(fs, path);
      if file.result == Ok {
        EmptyingKeeps(file.fs, file.at);
        AppendToKeeps(WithData(file.fs, file.at, []), file.at, data);
      }
    case AppendOp(path, data) =>
      var file := TargetFile(fs, path);
      TargetKeeps(fs, path);
      if file.result == Ok { AppendToKeeps(file.fs, file.at, data); }
    case RemoveOp(path) => RemoveKeeps(fs, path);
    case MoveOp(path, to) => MoveKeeps(fs, path, to);
    case CopyOp(path, to) => CopyKeeps(fs, path, to);
  }

  /** The filesystem after a run of operations, accepted or refused. */
  ghost function Run(ops: seq<Op>): (fs: Fs)
    ensures FsOk(fs) && NamesOk(fs.t)
  {
    if ops == [] then
      InitOk();
      InitFs()
    else
      var before := Run(ops[..|ops| - 1]);
      DoKeeps(before, ops[|ops| - 1]);
      Do(before, ops[|ops| - 1]).fs
  }
}
