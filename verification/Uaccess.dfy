// Crossing between a program's memory and the kernel's, a page at a time
// (kernel/src/uaccess.c).
module Uaccess {
  import opened Common
  import opened Pmm
  import opened Paging
  import opened Vmm
  import opened VmmTrace
  import opened VmmSpace
  import opened ProcessImage

  /** The program may reach the byte at `a`, to write it when `write`. */
  ghost predicate Reachable(ram: Ram, tree: Tables, a: nat, write: bool) {
    && LowerHalf(a)
    && var e := Meaning(ram, tree, PageOf(a));
       e.Some? && e.value.flags.user && (write ==> e.value.flags.write)
  }

  /** What the program can reach is a page of bytes, and no table. */
  ghost predicate UserPage(ram: Ram, tree: Tables, path: seq<nat>) {
    |path| == 4 && Leaf(ram, tree, path).Some? && Leaf(ram, tree, path).value.flags.user ==>
      IsPage(ram, Leaf(ram, tree, path).value.frame) && Leaf(ram, tree, path).value.frame !in tree.Values
  }

  ghost predicate UserPages(ram: Ram, tree: Tables) {
    forall path {:trigger UserPage(ram, tree, path)} :: UserPage(ram, tree, path)
  }

  /** A space whose program's pages are pages of bytes, under the kernel's half. */
  ghost predicate Accessible(m: Machine, s: Space)
    reads m, m.pmm, m.pmm.bitmap, s
  {
    SpaceSound(m, s) && UserPages(m.ram, s.tree) && KernelAbove(m.ram, s.root)
  }

  /** `bytes_in_page`: never past the page, never past what is left. */
  function BytesInPage(at: nat, remaining: nat): (run: nat)
    ensures run <= remaining && PageOf(at) + PAGE_SIZE >= at + run
    ensures remaining > 0 ==> run > 0
    ensures run < remaining ==> at + run == PageOf(at) + PAGE_SIZE
  {
    var toEdge := PAGE_SIZE - at % PAGE_SIZE;
    if remaining < toEdge then remaining else toEdge
  }

  /** What an address of the program means is one of its pages, and the frame of an
      address within it is the page's. */
  lemma ReachesPage(ram: Ram, tree: Tables, user: nat)
    requires UserPages(ram, tree) && Meaning(ram, tree, PageOf(user)).Some?
    requires Meaning(ram, tree, PageOf(user)).value.flags.user
    ensures var frame := Meaning(ram, tree, PageOf(user)).value.frame;
            IsPage(ram, frame) && (frame * PAGE_SIZE + user % PAGE_SIZE) / PAGE_SIZE == frame
  {
    assert UserPage(ram, tree, Indices(PageOf(user)));
  }

  /** `user_byte`: the frame of the page, when the program may reach it. A page of the
      kernel's is found, and refused for want of the user bit. */
  method UserByte(m: Machine, s: Space, user: nat, write: bool) returns (ok: bool, frame: int)
    requires Accessible(m, s)
    ensures ok <==> Reachable(m.ram, s.tree, user, write)
    ensures ok ==> IsPage(m.ram, frame) && frame == Meaning(m.ram, s.tree, PageOf(user)).value.frame
  {
    var result, phys, flags;
    result, phys, flags := Translate(m, s, user);
    frame := phys / PAGE_SIZE;
    ok := result == VmmResult.Ok && flags.user && (write ==> flags.write);
    if ok { ReachesPage(m.ram, s.tree, user); }
  }

  /** Reachability is a property of the page. */
  lemma SamePage(ram: Ram, tree: Tables, a: nat, b: nat, write: bool)
    requires PageOf(a) == PageOf(b)
    ensures Reachable(ram, tree, a, write) <==> Reachable(ram, tree, b, write)
    ensures LowerHalf(a) <==> LowerHalf(b)
  {
    PageHalf(a);
    PageHalf(b);
  }

  lemma PageHalf(a: nat)
    ensures LowerHalf(a) <==> LowerHalf(PageOf(a))
  {
  }

  ghost predicate AllReachable(ram: Ram, tree: Tables, from: nat, to: nat, write: bool) {
    forall a {:trigger Reachable(ram, tree, a, write)} :: from <= a < to ==> Reachable(ram, tree, a, write)
  }

  /** `uaccess_range_ok`: exactly when every byte of the range is the program's to
      reach, whatever the address and the length: a range that wraps, runs into the
      kernel's half or lies in it is refused. */
  method RangeOk(m: Machine, s: Space, user: nat, bytes: nat, write: bool) returns (ok: bool)
    requires Accessible(m, s) && user < WORD && bytes < WORD
    ensures ok <==> AllReachable(m.ram, s.tree, user, user + bytes, write)
  {
    ghost var ram, tree := m.ram, s.tree;
    if bytes == 0 { return true; }
    if (user + bytes) % WORD < user {
      Wrapped(ram, tree, user, bytes, write);
      return false;
    }
    var at, end := PageOf(user), (user + bytes) % WORD;
    StartPage(ram, tree, user, end, write);
    while at < end
      invariant Aligned(at) && at < WORD && PageOf(user) <= at
      invariant AllReachable(ram, tree, user, if at < end then at else end, write)
      decreases end + PAGE_SIZE - at
    {
      ok, at := RangeTurn(m, s, user, end, at, write);
      if !ok { return; }
    }
    return true;
  }

  /** One page of the range. */
  method RangeTurn(m: Machine, s: Space, user: nat, end: nat, at: nat, write: bool) returns (ok: bool, next: nat)
    requires Accessible(m, s) && Aligned(at) && PageOf(user) <= at < end < WORD && user < end
    requires AllReachable(m.ram, s.tree, user, at, write)
    ensures !ok ==> !AllReachable(m.ram, s.tree, user, end, write)
    ensures ok ==> next == at + PAGE_SIZE < WORD && Aligned(next)
    ensures ok ==> AllReachable(m.ram, s.tree, user, if next < end then next else end, write)
  {
    var frame;
    ok, frame := UserByte(m, s, at, write);
    next := (at + PAGE_SIZE) % WORD;
    if ok {
      PageReached(m.ram, s.tree, user, end, at, write);
      NextPageFits(at);
    } else {
      PageStops(m.ram, s.tree, user, end, at, write);
    }
  }

  lemma Wrapped(ram: Ram, tree: Tables, user: nat, bytes: nat, write: bool)
    requires user < WORD && 0 < bytes < WORD && (user + bytes) % WORD < user
    ensures !AllReachable(ram, tree, user, user + bytes, write)
  {
    var a := if user < 0x8000_0000_0000 then 0x8000_0000_0000 else user;
    assert !Reachable(ram, tree, a, write);
  }

  lemma StartPage(ram: Ram, tree: Tables, user: nat, end: nat, write: bool)
    requires user < end
    ensures Aligned(PageOf(user)) && PageOf(user) <= user
    ensures AllReachable(ram, tree, user, if PageOf(user) < end then PageOf(user) else end, write)
  {
  }

  lemma PageStops(ram: Ram, tree: Tables, user: nat, end: nat, at: nat, write: bool)
    requires Aligned(at) && PageOf(user) <= at < end && user < end && !Reachable(ram, tree, at, write)
    ensures !AllReachable(ram, tree, user, end, write)
  {
    var x := if user > at then user else at;
    InPage(at, x);
    SamePage(ram, tree, at, x, write);
    assert !Reachable(ram, tree, x, write);
  }

  lemma InPage(at: nat, x: nat)
    requires Aligned(at) && (at <= x < at + PAGE_SIZE || (PageOf(x) <= at && at <= x))
    ensures PageOf(x) == at == PageOf(at)
  {
  }

  lemma PageReached(ram: Ram, tree: Tables, user: nat, end: nat, at: nat, write: bool)
    requires Aligned(at) && PageOf(user) <= at < end && Reachable(ram, tree, at, write)
    requires AllReachable(ram, tree, user, at, write)
    ensures AllReachable(ram, tree, user, if at + PAGE_SIZE < end then at + PAGE_SIZE else end, write)
  {
    forall a | user <= a < end && a < at + PAGE_SIZE ensures Reachable(ram, tree, a, write) {
      ReachedOnPage(ram, tree, user, at, a, write);
    }
  }

  lemma ReachedOnPage(ram: Ram, tree: Tables, user: nat, at: nat, a: nat, write: bool)
    requires Aligned(at) && Reachable(ram, tree, at, write) && AllReachable(ram, tree, user, at, write)
    requires user <= a < at + PAGE_SIZE
    ensures Reachable(ram, tree, a, write)
  {
    if a >= at {
      InPage(at, a);
      SamePage(ram, tree, at, a, write);
    }
  }

  lemma NextPageFits(at: nat)
    requires Aligned(at) && LowerHalf(at)
    ensures at + PAGE_SIZE < WORD && Aligned(at + PAGE_SIZE)
  {
  }

  // ----- copying in

  /** The first `n` bytes of the buffer are the program's, byte by byte. */
  ghost predicate CopiedIn(ram: Ram, tree: Tables, user: nat, buffer: seq<Byte>, n: nat) {
    n <= |buffer| && forall k {:trigger buffer[k]} :: 0 <= k < n ==> ByteAt(ram, tree, user + k) == Some(buffer[k])
  }

  /** The kernel's buffer is not the page bitmap. */
  ghost predicate BufferApart(m: Machine, dest: array<Byte>) {
    var d: object, b: object := dest, m.pmm.bitmap;
    d != b
  }

  /** `uaccess_copy_in`: all of it, or none of it. */
  method CopyIn(m: Machine, s: Space, dest: array<Byte>, user: nat, bytes: nat) returns (ok: bool)
    requires Accessible(m, s) && user < WORD && bytes < WORD && bytes <= dest.Length && BufferApart(m, dest)
    modifies dest
    ensures ok <==> AllReachable(m.ram, s.tree, user, user + bytes, false)
    ensures ok ==> CopiedIn(m.ram, s.tree, user, dest[..], bytes) && dest[bytes..] == old(dest[bytes..])
    ensures !ok ==> dest[..] == old(dest[..])
  {
    ok := RangeOk(m, s, user, bytes, false);
    if !ok { return; }
    var done := 0;
    while done < bytes
      invariant done <= bytes && Accessible(m, s)
      invariant CopiedIn(m.ram, s.tree, user, dest[..], done) && dest[done..] == old(dest[done..])
      decreases bytes - done
    {
      done := CopyInRun(m, s, dest, user, bytes, done);
    }
  }

  /** One page's worth. */
  method CopyInRun(m: Machine, s: Space, dest: array<Byte>, user: nat, bytes: nat, done: nat) returns (done': nat)
    requires Accessible(m, s) && done < bytes <= dest.Length && BufferApart(m, dest)
    requires AllReachable(m.ram, s.tree, user, user + bytes, false) && CopiedIn(m.ram, s.tree, user, dest[..], done)
    modifies dest
    ensures Accessible(m, s) && done < done' <= bytes
    ensures CopiedIn(m.ram, s.tree, user, dest[..], done') && dest[done'..] == old(dest[done'..])
  {
    var at := user + done;
    var run := BytesInPage(at, bytes - done);
    assert Reachable(m.ram, s.tree, at, false);
    var reached, frame := UserByte(m, s, at, false);
    if !reached { assert false; }
    ghost var ram, tree := m.ram, s.tree;
    CopyBytes(m, dest, frame, at % PAGE_SIZE, done, run);
    done' := done + run;
    RunCopied(ram, tree, user, old(dest[..]), dest[..], done, run, frame);
  }

  /** A run of one page added to what was copied. */
  lemma RunCopied(ram: Ram, tree: Tables, user: nat, was: seq<Byte>, now: seq<Byte>, done: nat, run: nat, frame: int)
    requires CopiedIn(ram, tree, user, was, done) && done + run <= |was|
    requires PageOf(user + done) + PAGE_SIZE >= user + done + run && (user + done) % PAGE_SIZE + run <= PAGE_SIZE
    requires LowerHalf(user + done) && Meaning(ram, tree, PageOf(user + done)).Some? && IsPage(ram, frame)
    requires Meaning(ram, tree, PageOf(user + done)).value.frame == frame
    requires var o := (user + done) % PAGE_SIZE; now == was[..done] + ram[frame].b[o..o + run] + was[done + run..]
    ensures CopiedIn(ram, tree, user, now, done + run)
  {
    forall k | 0 <= k < done + run ensures ByteAt(ram, tree, user + k) == Some(now[k]) {
      if k < done {
        assert was[k] == now[k];
      } else {
        SameRun(user + done, user + k, run);
      }
    }
  }

  /** Bytes of one page into the buffer. */
  method CopyBytes(m: Machine, dest: array<Byte>, frame: int, offset: nat, done: nat, run: nat)
    requires IsPage(m.ram, frame) && offset + run <= PAGE_SIZE && done + run <= dest.Length
    modifies dest
    ensures dest[..] == old(dest[..done]) + m.ram[frame].b[offset..offset + run] + old(dest[done + run..])
  {
    var i := 0;
    while i < run
      invariant 0 <= i <= run
      invariant dest[..] == old(dest[..done]) + m.ram[frame].b[offset..offset + i] + old(dest[done + i..])
    {
      OneMore(old(dest[..]), m.ram[frame].b, done, offset, i);
      StoreByte(dest, done + i, m.ram[frame].b[offset + i]);
      i := i + 1;
    }
  }

  method StoreByte(dest: array<Byte>, at: nat, b: Byte)
    requires at < dest.Length
    modifies dest
    ensures dest[..] == old(dest[..])[at := b]
  {
    dest[at] := b;
  }

  lemma OneMore(was: seq<Byte>, page: seq<Byte>, done: nat, offset: nat, i: nat)
    requires done + i < |was| && offset + i < |page|
    ensures (was[..done] + page[offset..offset + i] + was[done + i..])[done + i := page[offset + i]] ==
              was[..done] + page[offset..offset + i + 1] + was[done + i + 1..]
  {
  }

  /** An address of the same run is on the same page, that much further in. */
  lemma SameRun(at: nat, a: nat, run: nat)
    requires at <= a < at + run && PageOf(at) + PAGE_SIZE >= at + run
    ensures PageOf(a) == PageOf(at) && a % PAGE_SIZE == at % PAGE_SIZE + (a - at)
  {
    InPage(PageOf(at), a);
  }

  // ----- copying out

  /** One byte written through the address space, as a single translation says. */
  ghost function PutByte(ram: Ram, tree: Tables, a: nat, b: Byte): Ram {
    var e := Meaning(ram, tree, PageOf(a));
    if e.Some? && IsPage(ram, e.value.frame)
    then ram[e.value.frame := Bytes(ram[e.value.frame].b[a % PAGE_SIZE := b])] else ram
  }

  /** The plain copy: one byte after another, each through its own translation. */
  ghost function PutBytes(ram: Ram, tree: Tables, user: nat, src: seq<Byte>, n: nat): Ram
    requires n <= |src|
  {
    if n == 0 then ram else PutByte(PutBytes(ram, tree, user, src, n - 1), tree, user + n - 1, src[n - 1])
  }

  ghost predicate Steady(ram: Ram, ram': Ram, free: set<int>, root: int, tables: nat, tree: Tables) {
    SpaceOk(ram', free, root, tables, tree) && SameLeaves(ram, tree, ram', tree) && UserPages(ram', tree)
  }

  lemma PutByteKeeps(ram: Ram, free: set<int>, root: int, tables: nat, tree: Tables, a: nat, b: Byte)
    requires SpaceOk(ram, free, root, tables, tree) && UserPages(ram, tree) && Reachable(ram, tree, a, true)
    ensures Steady(ram, PutByte(ram, tree, a, b), free, root, tables, tree)
  {
    var path := Indices(PageOf(a));
    assert UserPage(ram, tree, path);
    PageWritten(ram, free, root, tables, tree, Leaf(ram, tree, path).value.frame, PutByte(ram, tree, a, b));
  }

  /** A page of bytes that is no table, written. */
  lemma PageWritten(ram: Ram, free: set<int>, root: int, tables: nat, tree: Tables, f: int, ram': Ram)
    requires SpaceOk(ram, free, root, tables, tree) && UserPages(ram, tree) && f !in tree.Values && IsPage(ram, f)
    requires IsPage(ram', f) && KeptOutside(ram, ram', {f})
    ensures Steady(ram, ram', free, root, tables, tree)
  {
    if root != 0 { TreeKept(ram, ram', root, tree); }
    forall p ensures UserPage(ram', tree, p) {
      assert UserPage(ram, tree, p);
      if |p| == 4 { assert Leaf(ram', tree, p) == Leaf(ram, tree, p); }
    }
  }

  lemma {:induction false} PutBytesKeeps(ram: Ram, free: set<int>, root: int, tables: nat, tree: Tables,
                                         user: nat, src: seq<Byte>, n: nat)
    requires SpaceOk(ram, free, root, tables, tree) && UserPages(ram, tree) && n <= |src|
    requires AllReachable(ram, tree, user, user + n, true)
    ensures Steady(ram, PutBytes(ram, tree, user, src, n), free, root, tables, tree)
    ensures forall a {:trigger Reachable(PutBytes(ram, tree, user, src, n), tree, a, true)} ::
              Reachable(ram, tree, a, true) ==> Reachable(PutBytes(ram, tree, user, src, n), tree, a, true)
    decreases n
  {
    if n > 0 {
      PutBytesKeeps(ram, free, root, tables, tree, user, src, n - 1);
      var mid := PutBytes(ram, tree, user, src, n - 1);
      assert Reachable(ram, tree, user + n - 1, true);
      PutByteKeeps(mid, free, root, tables, tree, user + n - 1, src[n - 1]);
      StillSame(ram, mid, PutBytes(ram, tree, user, src, n), tree);
    }
  }

  lemma StillSame(a: Ram, b: Ram, c: Ram, tree: Tables)
    requires SameLeaves(a, tree, b, tree) && SameLeaves(b, tree, c, tree)
    ensures SameLeaves(a, tree, c, tree)
  {
    forall path: seq<nat> | |path| == 4 ensures Leaf(c, tree, path) == Leaf(a, tree, path) {
      assert Leaf(b, tree, path) == Leaf(a, tree, path);
    }
  }

  /** `uaccess_copy_out`: refused before a byte is written, or exactly the plain
      byte-by-byte copy. */
  method CopyOut(m: Machine, s: Space, user: nat, src: seq<Byte>) returns (ok: bool)
    requires Accessible(m, s) && user < WORD && |src| < WORD
    modifies m`ram
    ensures Accessible(m, s)
    ensures ok <==> AllReachable(old(m.ram), s.tree, user, user + |src|, true)
    ensures m.ram == if ok then PutBytes(old(m.ram), s.tree, user, src, |src|) else old(m.ram)
  {
    ok := RangeOk(m, s, user, |src|, true);
    if !ok { return; }
    ghost var ram := m.ram;
    var done := 0;
    while done < |src|
      invariant done <= |src| && Accessible(m, s)
      invariant m.ram == PutBytes(ram, s.tree, user, src, done)
    {
      done := CopyOutRun(m, s, user, src, done, ram);
    }
  }

  /** One page's worth. */
  method CopyOutRun(m: Machine, s: Space, user: nat, src: seq<Byte>, done: nat, ghost ram: Ram) returns (done': nat)
    requires Accessible(m, s) && done < |src| && SpaceOk(ram, m.pmm.free, s.root, s.tables, s.tree) &&
             UserPages(ram, s.tree)
    requires AllReachable(ram, s.tree, user, user + |src|, true) && m.ram == PutBytes(ram, s.tree, user, src, done)
    requires KernelAbove(ram, s.root)
    modifies m`ram
    ensures Accessible(m, s) && done < done' <= |src|
    ensures m.ram == PutBytes(ram, s.tree, user, src, done')
  {
    var at := user + done;
    var run := BytesInPage(at, |src| - done);
    assert Reachable(ram, s.tree, at, true);
    PutBytesKeeps(ram, m.pmm.free, s.root, s.tables, s.tree, user, src, done);
    var reached, frame := UserByte(m, s, at, true);
    if !reached { assert false; }
    assert Meaning(m.ram, s.tree, PageOf(at)) == Meaning(ram, s.tree, PageOf(at));
    done' := done + run;
    WriteRun(m, s, user, src, done, run, frame, ram);
    PutBytesKeeps(ram, m.pmm.free, s.root, s.tables, s.tree, user, src, done');
    PutBytesKernel(ram, s.root, s.tree, user, src, done');
    StillAccessible(m, s);
  }

  lemma StillAccessible(m: Machine, s: Space)
    requires m.pmm.Valid() && SpaceOk(m.ram, m.pmm.free, s.root, s.tables, s.tree) && UserPages(m.ram, s.tree)
    requires KernelAbove(m.ram, s.root)
    ensures Accessible(m, s)
  {
  }

  /** Bytes written to a page leave every table, the kernel's too, as it was. */
  lemma PutByteKernel(ram: Ram, root: int, tree: Tables, a: nat, b: Byte)
    requires KernelAbove(ram, root)
    ensures KernelAbove(PutByte(ram, tree, a, b), root)
  {
    if root != 0 {
      var kernel :| KernelHalf(ram, root, kernel);
      KernelHalfKept(ram, root, PutByte(ram, tree, a, b), root, kernel);
    }
  }

  lemma {:induction false} PutBytesKernel(ram: Ram, root: int, tree: Tables, user: nat, src: seq<Byte>, n: nat)
    requires KernelAbove(ram, root) && n <= |src|
    ensures KernelAbove(PutBytes(ram, tree, user, src, n), root)
  {
    if n > 0 {
      PutBytesKernel(ram, root, tree, user, src, n - 1);
      PutByteKernel(PutBytes(ram, tree, user, src, n - 1), root, tree, user + n - 1, src[n - 1]);
    }
  }

  /** The bytes of one run written to their page. */
  method WriteRun(m: Machine, s: Space, user: nat, src: seq<Byte>, done: nat, run: nat, frame: int, ghost ram: Ram)
    requires done + run <= |src| && m.pmm.Valid()
    requires PageOf(user + done) + PAGE_SIZE >= user + done + run
    requires SpaceOk(ram, m.pmm.free, s.root, s.tables, s.tree) && UserPages(ram, s.tree)
    requires AllReachable(ram, s.tree, user, user + |src|, true)
    requires Meaning(ram, s.tree, PageOf(user + done)).Some? &&
             Meaning(ram, s.tree, PageOf(user + done)).value.frame == frame
    requires m.ram == PutBytes(ram, s.tree, user, src, done)
    modifies m`ram
    ensures m.pmm.Valid() && m.ram == PutBytes(ram, s.tree, user, src, done + run)
  {
    var at := user + done;
    var i := 0;
    while i < run
      invariant 0 <= i <= run && m.pmm.Valid()
      invariant m.ram == PutBytes(ram, s.tree, user, src, done + i)
    {
      RunPage(ram, m.pmm.free, s.root, s.tables, s.tree, user, src, done, run, i);
      WriteByte(m, frame, at % PAGE_SIZE + i, src[done + i]);
      i := i + 1;
    }
  }

  method WriteByte(m: Machine, frame: int, offset: nat, b: Byte)
    requires m.pmm.Valid() && IsPage(m.ram, frame) && offset < PAGE_SIZE
    modifies m`ram
    ensures m.pmm.Valid() && m.ram == old(m.ram)[frame := Bytes(old(m.ram)[frame].b[offset := b])]
  {
    m.ram := m.ram[frame := Bytes(m.ram[frame].b[offset := b])];
  }

  /** Every byte of a run is on the page the run started on, and still there. */
  lemma RunPage(ram: Ram, free: set<int>, root: int, tables: nat, tree: Tables, user: nat, src: seq<Byte>, done: nat,
                run: nat, i: nat)
    requires i < run && done + run <= |src| && PageOf(user + done) + PAGE_SIZE >= user + done + run
    requires SpaceOk(ram, free, root, tables, tree) && UserPages(ram, tree)
    requires AllReachable(ram, tree, user, user + |src|, true) && Meaning(ram, tree, PageOf(user + done)).Some?
    ensures var frame, now := Meaning(ram, tree, PageOf(user + done)).value.frame, PutBytes(ram, tree, user, src, done + i);
            && IsPage(now, frame) && (user + done) % PAGE_SIZE + i < PAGE_SIZE
            && PutBytes(ram, tree, user, src, done + i + 1) ==
               now[frame := Bytes(now[frame].b[(user + done) % PAGE_SIZE + i := src[done + i]])]
  {
    var a := user + done + i;
    SameRun(user + done, a, run);
    PutBytesKeeps(ram, free, root, tables, tree, user, src, done + i);
    var now := PutBytes(ram, tree, user, src, done + i);
    assert Reachable(ram, tree, a, true);
    var path := Indices(PageOf(a));
    assert Leaf(now, tree, path) == Leaf(ram, tree, path);
    assert UserPage(now, tree, path);
  }

  // ----- strings

  /** The program's string at `user` ends `n` bytes on, all of it readable. */
  ghost predicate EndsAt(ram: Ram, tree: Tables, user: nat, n: nat) {
    && AllReachable(ram, tree, user, user + n + 1, false) && ByteAt(ram, tree, user + n) == Some(0)
    && forall a {:trigger ByteAt(ram, tree, a)} :: user <= a < user + n ==> ByteAt(ram, tree, a) != Some(0)
  }

  /** The first `i` bytes are readable and none is the terminator. */
  ghost predicate NotYet(ram: Ram, tree: Tables, user: nat, i: nat) {
    && AllReachable(ram, tree, user, user + i, false)
    && forall a {:trigger ByteAt(ram, tree, a)} :: user <= a < user + i ==> ByteAt(ram, tree, a) != Some(0)
  }

  lemma NeverEnds(ram: Ram, tree: Tables, user: nat, i: nat, n: nat)
    requires NotYet(ram, tree, user, i) && EndsAt(ram, tree, user, n)
    ensures n >= i
  {
    var last := ByteAt(ram, tree, user + n);
  }

  lemma StoppedShort(ram: Ram, tree: Tables, user: nat, i: nat, capacity: nat)
    requires NotYet(ram, tree, user, i) && (i >= capacity || !Reachable(ram, tree, user + i, false))
    ensures forall n {:trigger EndsAt(ram, tree, user, n)} :: 0 <= n < capacity ==> !EndsAt(ram, tree, user, n)
    ensures i < capacity ==> !NotYet(ram, tree, user, capacity)
  {
    forall n | 0 <= n < capacity ensures !EndsAt(ram, tree, user, n) {
      if EndsAt(ram, tree, user, n) { NeverEnds(ram, tree, user, i, n); }
    }
  }

  /** A string has one end. */
  lemma EndsOnce(ram: Ram, tree: Tables, user: nat, i: nat)
    requires EndsAt(ram, tree, user, i)
    ensures forall n {:trigger EndsAt(ram, tree, user, n)} :: 0 <= n && EndsAt(ram, tree, user, n) ==> n == i
    ensures forall n {:trigger NotYet(ram, tree, user, n)} :: n > i ==> !NotYet(ram, tree, user, n)
  {
    forall n | 0 <= n && EndsAt(ram, tree, user, n) ensures n == i {
      var one, other := ByteAt(ram, tree, user + i), ByteAt(ram, tree, user + n);
    }
    forall n | n > i ensures !NotYet(ram, tree, user, n) {
      var last := ByteAt(ram, tree, user + i);
    }
  }

  /** `uaccess_copy_string`: it succeeds exactly when a readable terminator lies
      within the capacity, and then the buffer holds the string and its
      terminator; a string that is too long leaves the buffer terminated. */
  method CopyString(m: Machine, s: Space, dest: array<Byte>, capacity: nat, user: nat) returns (ok: bool)
    requires Accessible(m, s) && user < WORD && capacity <= dest.Length && BufferApart(m, dest)
    modifies dest
    ensures ok <==> exists n {:trigger EndsAt(m.ram, s.tree, user, n)} :: 0 <= n < capacity && EndsAt(m.ram, s.tree, user, n)
    ensures forall n {:trigger EndsAt(m.ram, s.tree, user, n)} :: 0 <= n < capacity && EndsAt(m.ram, s.tree, user, n) ==>
              CopiedIn(m.ram, s.tree, user, dest[..], n + 1) && dest[n + 1..] == old(dest[n + 1..])
    ensures dest[capacity..] == old(dest[capacity..])
    ensures capacity > 0 && NotYet(m.ram, s.tree, user, capacity) ==> dest[capacity - 1] == 0
  {
    if capacity == 0 { return false; }
    ghost var ram, tree := m.ram, s.tree;
    var i, page: Option<int> := 0, None;
    while i < capacity
      invariant 0 <= i <= capacity && Accessible(m, s)
      invariant NotYet(ram, tree, user, i) && CopiedIn(ram, tree, user, dest[..], i) && dest[i..] == old(dest[i..])
      invariant page.Some? <==> i > 0
      invariant i > 0 ==> PageHeld(ram, tree, user + i - 1, page.value)
    {
      var reached, c;
      reached, page, c := NextByte(m, s, user, i, page);
      if !reached {
        StoppedShort(ram, tree, user, i, capacity);
        return false;
      }
      dest[i] := c;
      assert CopiedIn(ram, tree, user, dest[..], i);
      StringStep(ram, tree, user, i, dest[..], c);
      if c == 0 {
        EndsOnce(ram, tree, user, i);
        return true;
      }
      i := i + 1;
    }
    StoppedShort(ram, tree, user, capacity, capacity);
    dest[capacity - 1] := 0;
    return false;
  }

  /** The next byte of the string: its page is looked up at the start and where a page
      begins, and held in between. */
  method NextByte(m: Machine, s: Space, user: nat, i: nat, page: Option<int>)
    returns (reached: bool, held: Option<int>, c: Byte)
    requires Accessible(m, s) && user < WORD && NotYet(m.ram, s.tree, user, i) && (page.Some? <==> i > 0)
    requires i > 0 ==> PageHeld(m.ram, s.tree, user + i - 1, page.value)
    ensures reached <==> Reachable(m.ram, s.tree, user + i, false)
    ensures reached ==> held.Some? && PageHeld(m.ram, s.tree, user + i, held.value) && ByteAt(m.ram, s.tree, user + i) == Some(c)
  {
    held, c := page, 0;
    var at := (user + i) % WORD;
    NotWrapped(m.ram, s.tree, user, i);
    if at < user { assert false; }
    if page.None? || at % PAGE_SIZE == 0 {
      var frame;
      reached, frame := UserByte(m, s, at, false);
      if !reached { return; }
      held := Some(frame);
    }
    HeldHere(m, s, user, i, held.value);
    reached, c := true, m.ram[held.value].b[at % PAGE_SIZE];
  }

  /** The page of an address the program may read. */
  ghost predicate PageHeld(ram: Ram, tree: Tables, a: nat, frame: int) {
    && Reachable(ram, tree, a, false) && IsPage(ram, frame)
    && Meaning(ram, tree, PageOf(a)).value.frame == frame
  }

  /** What follows bytes a program can read has not wrapped. */
  lemma NotWrapped(ram: Ram, tree: Tables, user: nat, i: nat)
    requires user < WORD && AllReachable(ram, tree, user, user + i, false)
    ensures (user + i) % WORD == user + i
  {
    if i > 0 { assert Reachable(ram, tree, user + i - 1, false); }
  }

  /** Away from a page's start the page is the one before's. */
  lemma HeldHere(m: Machine, s: Space, user: nat, i: nat, frame: int)
    requires Accessible(m, s)
    requires PageHeld(m.ram, s.tree, user + i, frame) ||
             (i > 0 && (user + i) % PAGE_SIZE != 0 && PageHeld(m.ram, s.tree, user + i - 1, frame))
    ensures PageHeld(m.ram, s.tree, user + i, frame)
    ensures ByteAt(m.ram, s.tree, user + i) == Some(m.ram[frame].b[(user + i) % PAGE_SIZE])
  {
    if !PageHeld(m.ram, s.tree, user + i, frame) {
      WithinPage(user + i - 1);
      SamePage(m.ram, s.tree, user + i - 1, user + i, false);
    }
  }

  lemma WithinPage(a: nat)
    requires (a + 1) % PAGE_SIZE != 0
    ensures PageOf(a + 1) == PageOf(a)
  {
  }

  lemma StringStep(ram: Ram, tree: Tables, user: nat, i: nat, buffer: seq<Byte>, c: Byte)
    requires NotYet(ram, tree, user, i) && Reachable(ram, tree, user + i, false) &&
             ByteAt(ram, tree, user + i) == Some(c)
    requires i < |buffer| && buffer[i] == c && CopiedIn(ram, tree, user, buffer, i)
    ensures CopiedIn(ram, tree, user, buffer, i + 1)
    ensures if c == 0 then EndsAt(ram, tree, user, i) else NotYet(ram, tree, user, i + 1)
  {
    ReachableNext(ram, tree, user, i);
    if c != 0 { NotYetNext(ram, tree, user, i); }
  }

  lemma ReachableNext(ram: Ram, tree: Tables, user: nat, i: nat)
    requires AllReachable(ram, tree, user, user + i, false) && Reachable(ram, tree, user + i, false)
    ensures AllReachable(ram, tree, user, user + i + 1, false)
  {
  }

  lemma NotYetNext(ram: Ram, tree: Tables, user: nat, i: nat)
    requires NotYet(ram, tree, user, i) && AllReachable(ram, tree, user, user + i + 1, false)
    requires ByteAt(ram, tree, user + i) != Some(0)
    ensures NotYet(ram, tree, user, i + 1)
  {
  }
}
