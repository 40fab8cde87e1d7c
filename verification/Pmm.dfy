// The physical page allocator: a bitmap with one bit a page, set when the page
// is in use (kernel/src/pmm.c).
module Pmm {
  import opened Common
  import opened Counting

  const PAGE_SIZE: nat := 4096
  const PMM_NONE: nat := 0

  // ----- one bit of one byte

  const MASKS: seq<bv8> := [1, 2, 4, 8, 16, 32, 64, 128]

  /** The bit of a byte that stands for its page `k`. */
  function Mask(k: nat): bv8
    requires k < 8
  {
    MASKS[k]
  }

  /** Which is one shifted that far. */
  lemma MaskIsShift(k: nat)
    requires k < 8
    ensures Mask(k) == (1 as bv8) << k
  {
  }

  /** Mask `k` is bit `k`. */
  lemma MaskIsBit(k: nat)
    requires k < 8
    ensures Mask(k) == (1 as bv8) << k
  {
  }

  predicate BitSet(b: bv8, k: nat)
    requires k < 8
  {
    b & Mask(k) != 0
  }

  /** Setting or clearing one bit of a byte leaves the other seven. */
  lemma BitUpdate(b: bv8, k: nat, j: nat)
    requires k < 8 && j < 8
    ensures BitSet(b | Mask(k), j) == (j == k || BitSet(b, j))
    ensures BitSet(b & !Mask(k), j) == (j != k && BitSet(b, j))
  {
    MasksApart(k, j);
    BothBits(b, Mask(k), Mask(j), j == k);
  }

  lemma BothBits(b: bv8, m: bv8, n: bv8, same: bool)
    requires m != 0 && if same then m == n else m & n == 0
    ensures ((b | m) & n != 0) == (same || b & n != 0)
    ensures ((b & !m) & n != 0) == (!same && b & n != 0)
  {
    if same { OwnBits(b, m); } else { OtherBits(b, m, n); }
  }

  lemma MasksApart(k: nat, j: nat)
    requires k < 8 && j < 8
    ensures Mask(k) != 0 && (j != k ==> Mask(k) & Mask(j) == 0)
  {
  }

  lemma OwnBits(b: bv8, m: bv8)
    requires m != 0
    ensures (b | m) & m != 0 && (b & !m) & m == 0
  {
  }

  lemma OtherBits(b: bv8, m: bv8, n: bv8)
    requires m & n == 0
    ensures ((b | m) & n != 0) == (b & n != 0) && ((b & !m) & n != 0) == (b & n != 0)
  {
  }

  function FramesCovering(bytes: nat): nat {
    bytes / PAGE_SIZE + if bytes % PAGE_SIZE != 0 then 1 else 0
  }

  /** Bit `s` of a bitmap. */
  predicate Bit(bytes: seq<bv8>, s: nat)
    requires s < 8 * |bytes|
  {
    BitSet(bytes[s / 8], s % 8)
  }

  function Marking(b: bv8, k: nat, mark: bool): bv8
    requires k < 8
  {
    if mark then b | Mask(k) else b & !Mask(k)
  }

  lemma MarkingBits(b: bv8, k: nat, mark: bool)
    requires k < 8
    ensures forall j: nat :: j < 8 ==> BitSet(Marking(b, k, mark), j) == if j == k then mark else BitSet(b, j)
  {
    forall j: nat | j < 8 ensures BitSet(Marking(b, k, mark), j) == if j == k then mark else BitSet(b, j) {
      BitUpdate(b, k, j);
    }
  }

  /** The byte of bit `slot` with that bit set or cleared: every other bit of the
      bitmap is as it was. */
  lemma BitAfter(bytes: seq<bv8>, b': bv8, slot: nat, mark: bool, s: nat)
    requires slot < 8 * |bytes| && s < 8 * |bytes|
    requires forall j: nat :: j < 8 ==> BitSet(b', j) == if j == slot % 8 then mark else BitSet(bytes[slot / 8], j)
    ensures Bit(bytes[slot / 8 := b'], s) == if s == slot then mark else Bit(bytes, s)
  {
    if s / 8 == slot / 8 { assert s == slot <==> s % 8 == slot % 8; }
  }

  class Allocator {
    const bitmap: array<bv8>
    const firstFrame: nat
    const pages: nat
    var freePages: nat
    var hint: nat
    var badFrees: nat
    /** The frames that are available. */
    ghost var free: set<int>

    predicate Covers(frame: int) { firstFrame <= frame < firstFrame + pages }

    ghost predicate Sized() { pages <= 8 * bitmap.Length }

    /** Frame `f` is marked in use. */
    ghost predicate Marked(f: int)
      requires Sized() && Covers(f)
      reads bitmap
    {
      Bit(bitmap[..], f - firstFrame)
    }

    /** The bitmap says what `free` says, `freePages` counts it, and frame 0,
        whose address is the failure value, is never in it. */
    ghost predicate Valid()
      reads this, bitmap
    {
      && Sized()
      && (forall f :: f in free ==> Covers(f) && f != 0)
      && (forall f {:trigger Marked(f)} :: Covers(f) ==> (f in free <==> !Marked(f)))
      && freePages == |free|
    }

    /** The same, but that frame 0 may be among them. */
    ghost predicate Sound()
      reads this, bitmap
    {
      && Sized()
      && (forall f :: f in free ==> Covers(f))
      && (forall f {:trigger Marked(f)} :: Covers(f) ==> (f in free <==> !Marked(f)))
      && freePages == |free|
    }

    /** `pmm_reset`: everything in use, and no more pages than the bitmap has
        bits for. */
    constructor (bitmap: array<bv8>, firstFrame: nat, pages: nat)
      modifies bitmap
      ensures Valid() && this.bitmap == bitmap && this.firstFrame == firstFrame
      ensures free == {} && badFrees == 0 && this.pages == (if pages > bitmap.Length * 8 then bitmap.Length * 8 else pages)
    {
      this.bitmap, this.firstFrame := bitmap, firstFrame;
      this.pages := if pages > bitmap.Length * 8 then bitmap.Length * 8 else pages;
      freePages, hint, badFrees := 0, 0, 0;
      free := {};
      new;
      for i := 0 to bitmap.Length
        invariant free == {} && freePages == 0 && badFrees == 0
        invariant forall j :: 0 <= j < i ==> bitmap[j] == 0xFF
      {
        bitmap[i] := 0xFF;
      }
      forall f | Covers(f) ensures Marked(f) { assert Mask((f - firstFrame) % 8) != 0; }
    }

    /** `slot_of` and the bounds check of its callers, on one frame. */
    method SlotOf(frame: nat) returns (slot: nat)
      ensures slot == if Covers(frame) then frame - firstFrame else pages
    {
      if frame < firstFrame { return pages; }
      slot := if frame - firstFrame < pages then frame - firstFrame else pages;
    }

    /** `slot_in_use`. */
    method SlotInUse(slot: nat) returns (used: bool)
      requires Sized() && slot < pages
      ensures used == Marked(firstFrame + slot)
    {
      used := BitSet(bitmap[slot / 8], slot % 8);
    }

    /** `mark_used`. */
    method MarkUsed(slot: nat)
      requires Sound() && slot < pages
      modifies this`freePages, this`free, bitmap
      ensures Sound() && free == old(free) - {firstFrame + slot}
    {
      var used := SlotInUse(slot);
      if used { return; }
      ghost var bytes := bitmap[..];
      bitmap[slot / 8] := bitmap[slot / 8] | Mask(slot % 8);
      freePages := freePages - 1;
      free := free - {firstFrame + slot};
      OneMarked(bytes, slot, true);
      forall f | Covers(f) ensures f in free <==> !Marked(f) { assert old(Marked(f)) <==> Bit(bytes, f - firstFrame); }
    }

    /** `mark_free`. */
    method MarkFree(slot: nat)
      requires Sound() && slot < pages
      modifies this`freePages, this`free, bitmap
      ensures Sound() && free == old(free) + {firstFrame + slot}
    {
      var used := SlotInUse(slot);
      if !used { return; }
      ghost var bytes := bitmap[..];
      bitmap[slot / 8] := bitmap[slot / 8] & !Mask(slot % 8);
      freePages := freePages + 1;
      free := free + {firstFrame + slot};
      OneMarked(bytes, slot, false);
      forall f | Covers(f) ensures f in free <==> !Marked(f) { assert old(Marked(f)) <==> Bit(bytes, f - firstFrame); }
    }

    lemma OneMarked(bytes: seq<bv8>, slot: nat, mark: bool)
      requires Sized() && slot < pages && |bytes| == bitmap.Length
      requires bitmap[..] == bytes[slot / 8 := Marking(bytes[slot / 8], slot % 8, mark)]
      ensures forall f {:trigger Marked(f)} :: Covers(f) ==>
                (Marked(f) <==> if f == firstFrame + slot then mark else Bit(bytes, f - firstFrame))
    {
      MarkingBits(bytes[slot / 8], slot % 8, mark);
      forall f | Covers(f)
        ensures Marked(f) <==> if f == firstFrame + slot then mark else Bit(bytes, f - firstFrame)
      {
        BitAfter(bytes, Marking(bytes[slot / 8], slot % 8, mark), slot, mark, f - firstFrame);
      }
    }

    /** The range covers the whole of page `f`, which is not page 0. */
    predicate InWhole(f: int, base: nat, length: nat) {
      Covers(f) && f != 0 && length >= PAGE_SIZE && FramesCovering(base) <= f < (base + length) % WORD / PAGE_SIZE
    }

    /** Page `f` is one the range touches, as far as its wrapped end. */
    predicate InTouched(f: int, base: nat, length: nat) {
      length != 0 && base / PAGE_SIZE <= f < FramesCovering((base + length) % WORD)
    }

    /** `pmm_add_free`: the whole pages of the range, frame 0 apart. The end of
        the range is worked out in 64 bits. */
    method AddFree(base: nat, length: nat)
      requires Valid() && base < WORD && length < WORD
      modifies this`freePages, this`free, bitmap
      ensures Valid()
      ensures forall f :: f in free <==> (f in old(free) || InWhole(f, base, length))
    {
      if length < PAGE_SIZE { return; }
      var first := FramesCovering(base);
      var end := (base + length) % WORD / PAGE_SIZE;
      if first == 0 { first := 1; }
      var frame := first;
      while frame < end
        invariant Valid() && first <= frame && (frame <= end || frame == first)
        invariant forall f :: f in free <==> f in old(free) || (Covers(f) && first <= f < frame)
      {
        var slot := SlotOf(frame);
        if slot < pages { MarkFree(slot); }
        frame := frame + 1;
      }
    }

    /** `pmm_reserve`: every page from the one the range starts in to the one it
        ends in, the end worked out in 64 bits. */
    method Reserve(base: nat, length: nat)
      requires Valid() && base < WORD && length < WORD
      modifies this`freePages, this`free, bitmap
      ensures Valid()
      ensures forall f :: f in free <==> (f in old(free) && !InTouched(f, base, length))
    {
      if length == 0 { return; }
      var first := base / PAGE_SIZE;
      var end := FramesCovering((base + length) % WORD);
      var frame := first;
      while frame < end
        invariant Valid() && first <= frame && (frame <= end || frame == first)
        invariant forall f :: f in free <==> f in old(free) && !(first <= f < frame)
      {
        var slot := SlotOf(frame);
        if slot < pages { MarkUsed(slot); }
        frame := frame + 1;
      }
    }

    /** One of the two passes of `pmm_alloc`: the first free slot from `from` up
        to `to`, taken. */
    method TakeFrom(from: nat, to: nat) returns (found: bool, phys: nat)
      requires Sound() && to <= pages
      modifies this`freePages, this`free, this`hint, bitmap
      ensures Sound()
      ensures !found ==>
                free == old(free) && hint == old(hint) &&
                forall f :: firstFrame + from <= f < firstFrame + to ==> f !in free
      ensures found ==>
                && phys % PAGE_SIZE == 0 && phys / PAGE_SIZE in old(free) && free == old(free) - {phys / PAGE_SIZE}
                && firstFrame + from <= phys / PAGE_SIZE < firstFrame + to && hint == phys / PAGE_SIZE - firstFrame + 1
                && forall g :: g in old(free) && firstFrame + from <= g ==> phys / PAGE_SIZE <= g
    {
      var slot := from;
      while slot < to
        invariant from <= slot && Sound() && free == old(free) && hint == old(hint)
        invariant forall f :: firstFrame + from <= f < firstFrame + slot && f < firstFrame + to ==> f !in free
      {
        var used := SlotInUse(slot);
        if !used {
          MarkUsed(slot);
          hint := slot + 1;
          return true, (firstFrame + slot) * PAGE_SIZE;
        }
        slot := slot + 1;
      }
      return false, PMM_NONE;
    }

    /** Counting up from `start` and then from the beginning, `f` comes no later than `g`. */
    predicate Sooner(start: int, f: int, g: int) { if f < start <= g then false else if g < start <= f then true else f <= g }

    /** `pmm_alloc`: the first free page from the hint to the end, and then from the
        beginning. It takes nothing only when nothing is free, and says so then, and when
        what it took is frame 0. */
    method Alloc() returns (phys: nat)
      requires Sound()
      modifies this`freePages, this`free, this`hint, bitmap
      ensures Sound() && (old(Valid()) ==> Valid())
      ensures old(free) == {} ==> phys == PMM_NONE && free == {}
      ensures old(free) != {} ==>
                && phys % PAGE_SIZE == 0 && (phys == PMM_NONE <==> phys / PAGE_SIZE == 0)
                && phys / PAGE_SIZE in old(free) && free == old(free) - {phys / PAGE_SIZE}
                && hint == phys / PAGE_SIZE - firstFrame + 1
                && forall g {:trigger g in old(free)} :: g in old(free) ==> Sooner(firstFrame + old(hint), phys / PAGE_SIZE, g)
    {
      if freePages == 0 { return PMM_NONE; }
      ghost var some := Member(free);
      var found;
      found, phys := TakeFrom(hint, pages);
      if found { return; }
      found, phys := TakeFrom(0, if hint < pages then hint else pages);
    }

    /** `pmm_free`: a frame outside the bitmap, or one already free, is counted
        and refused. Frame 0 is not, where the bitmap covers it: that is the one way to
        make its address, which stands for failure, one the allocator can hand out. */
    method Free(phys: nat)
      requires Sound()
      modifies this`freePages, this`free, this`hint, this`badFrees, bitmap
      ensures Sound()
      ensures old(Valid()) ==> (Valid() <==> phys / PAGE_SIZE != 0 || !Covers(0))
      ensures var frame := phys / PAGE_SIZE;
              if Covers(frame) && frame !in old(free)
              then free == old(free) + {frame} && badFrees == old(badFrees)
              else free == old(free) && badFrees == old(badFrees) + 1
      ensures var frame := phys / PAGE_SIZE;
              hint == if Covers(frame) && frame !in old(free) && frame < firstFrame + old(hint) then frame - firstFrame
                      else old(hint)
    {
      var slot := SlotOf(phys / PAGE_SIZE);
      if slot >= pages {
        badFrees := badFrees + 1;
        return;
      }
      var used := SlotInUse(slot);
      if !used {
        badFrees := badFrees + 1;
        return;
      }
      MarkFree(slot);
      if slot < hint { hint := slot; }
    }

    /** `pmm_is_free`. */
    method IsFree(phys: nat) returns (r: bool)
      requires Valid()
      ensures r <==> phys / PAGE_SIZE in free
    {
      var slot := SlotOf(phys / PAGE_SIZE);
      if slot >= pages { return false; }
      var used := SlotInUse(slot);
      return !used;
    }
  }

  /** Some byte of the range is in page `f`: they overlap, the end worked out in full. */
  predicate Touches(f: int, base: nat, length: nat) {
    length != 0 && f * PAGE_SIZE < base + length && base < (f + 1) * PAGE_SIZE
  }

  lemma TouchesByte(f: int, base: nat, length: nat, a: int)
    requires base <= a < base + length && a / PAGE_SIZE == f
    ensures Touches(f, base, length)
  {
  }

  lemma TouchedByte(f: int, base: nat, length: nat) returns (a: int)
    requires Touches(f, base, length)
    ensures base <= a < base + length && a / PAGE_SIZE == f
  {
    a := if f * PAGE_SIZE < base then base else f * PAGE_SIZE;
  }

  lemma TouchedFrames(f: int, base: nat, length: nat)
    ensures Touches(f, base, length) <==> length != 0 && base / PAGE_SIZE <= f < FramesCovering(base + length)
  {
  }

  /** The promise of `pmm_reserve` is that nothing the range touches is free afterwards.
      It is kept exactly when the end of the range fits in 64 bits, or nothing free is
      touched, apart from the first page when the wrapped end falls inside it. */
  lemma ReservePromise(pmm: Allocator, before: set<int>, after: set<int>, base: nat, length: nat)
    requires base < WORD && length < WORD
    requires forall f :: f in after <==> f in before && !pmm.InTouched(f, base, length)
    ensures (forall f :: f in after ==> !Touches(f, base, length)) <==>
            base + length < WORD ||
            forall f :: f in before && Touches(f, base, length) ==>
              f == base / PAGE_SIZE && f * PAGE_SIZE < base + length - WORD
  {
    forall f ensures Touches(f, base, length) <==> length != 0 && base / PAGE_SIZE <= f < FramesCovering(base + length) {
      TouchedFrames(f, base, length);
    }
    if base + length >= WORD {
      WrappedEnd(base, base + length - WORD);
      forall f | f in before
        ensures pmm.InTouched(f, base, length) <==> f == base / PAGE_SIZE && f * PAGE_SIZE < base + length - WORD
      {
        FirstPage(f, base, base + length - WORD);
      }
    }
  }

  /** Page `f`, not page 0, is one the range has every byte of, the end worked out in
      full. */
  predicate Whole(pmm: Allocator, f: int, base: nat, length: nat) {
    pmm.Covers(f) && f != 0 && base <= f * PAGE_SIZE && (f + 1) * PAGE_SIZE <= base + length
  }

  lemma WholeFrames(pmm: Allocator, f: int, base: nat, length: nat)
    ensures Whole(pmm, f, base, length) <==>
            pmm.Covers(f) && f != 0 && FramesCovering(base) <= f < (base + length) / PAGE_SIZE
  {
  }

  /** The promise of `pmm_add_free` is that every whole page of the range is free
      afterwards: kept exactly when the end fits in 64 bits, or they all were already. */
  lemma AddFreePromise(pmm: Allocator, before: set<int>, after: set<int>, base: nat, length: nat)
    requires base < WORD && length < WORD
    requires forall f :: f in after <==> f in before || pmm.InWhole(f, base, length)
    ensures (forall f :: Whole(pmm, f, base, length) ==> f in after) <==>
            base + length < WORD || forall f :: Whole(pmm, f, base, length) ==> f in before
  {
    forall f
      ensures Whole(pmm, f, base, length) <==>
              pmm.Covers(f) && f != 0 && FramesCovering(base) <= f < (base + length) / PAGE_SIZE
    {
      WholeFrames(pmm, f, base, length);
    }
    if base + length < WORD {
      forall f | Whole(pmm, f, base, length) ensures pmm.InWhole(f, base, length) { LongEnough(f, base, length); }
    } else {
      WrappedEnd(base, base + length - WORD);
      forall f ensures !pmm.InWhole(f, base, length) { NoneWhole(f, base, base + length - WORD); }
    }
  }

  lemma LongEnough(f: int, base: nat, length: nat)
    requires FramesCovering(base) <= f < (base + length) / PAGE_SIZE
    ensures length >= PAGE_SIZE
  {
  }

  lemma NoneWhole(f: int, base: nat, end: nat)
    requires end < base
    ensures !(FramesCovering(base) <= f < end / PAGE_SIZE)
  {
  }

  lemma WrappedEnd(base: nat, end: nat)
    requires end < base
    ensures FramesCovering(end) <= base / PAGE_SIZE + 1
  {
  }

  lemma FirstPage(f: int, base: nat, end: nat)
    requires end < base
    ensures base / PAGE_SIZE <= f < FramesCovering(end) <==> f == base / PAGE_SIZE && f * PAGE_SIZE < end
  {
    WrappedEnd(base, end);
  }

  /** The last page of memory, handed over with the one before it, is not taken in. */
  lemma AddFreeWraps(pmm: Allocator)
    requires pmm.Covers(WORD / PAGE_SIZE - 1)
    ensures var base, length, last := WORD - 2 * PAGE_SIZE, 2 * PAGE_SIZE, WORD / PAGE_SIZE - 1;
            Whole(pmm, last, base, length) && forall f :: !pmm.InWhole(f, base, length)
  {
  }

  const TOP_FRAME: nat := WORD / PAGE_SIZE - 2

  /** The last page but one of memory, free, is still free once it is reserved with the
      one after it: their end is 2^64. */
  lemma ReserveWraps(pmm: Allocator, before: set<int>, after: set<int>)
    requires TOP_FRAME in before
    requires forall f :: f in after <==> f in before && !pmm.InTouched(f, TOP_FRAME * PAGE_SIZE, 2 * PAGE_SIZE)
    ensures Touches(TOP_FRAME, TOP_FRAME * PAGE_SIZE, 2 * PAGE_SIZE) && TOP_FRAME in after
    ensures !(forall f :: f in after ==> !Touches(f, TOP_FRAME * PAGE_SIZE, 2 * PAGE_SIZE))
  {
    ReservePromise(pmm, before, after, TOP_FRAME * PAGE_SIZE, 2 * PAGE_SIZE);
  }

  lemma TopAlone(pmm: Allocator, f: int)
    ensures pmm.InWhole(f, TOP_FRAME * PAGE_SIZE, PAGE_SIZE) <==> pmm.Covers(f) && f == TOP_FRAME
    ensures !pmm.InTouched(f, TOP_FRAME * PAGE_SIZE, 2 * PAGE_SIZE)
  {
  }

  /** That page handed over, reserved, and still there to be handed out. */
  method ReservedAndFree() returns (pmm: Allocator, free: bool)
    ensures fresh(pmm) && pmm.Valid() && pmm.free == {TOP_FRAME} && free
  {
    var bitmap := new bv8[1];
    pmm := new Allocator(bitmap, TOP_FRAME, 2);
    pmm.AddFree(TOP_FRAME * PAGE_SIZE, PAGE_SIZE);
    forall f ensures f in pmm.free <==> f == TOP_FRAME { TopAlone(pmm, f); }
    pmm.Reserve(TOP_FRAME * PAGE_SIZE, 2 * PAGE_SIZE);
    forall f ensures f in pmm.free <==> f == TOP_FRAME { TopAlone(pmm, f); }
    free := pmm.IsFree(TOP_FRAME * PAGE_SIZE);
  }

  /** Frame 0 freed, and the allocator says that it has nothing, and then has nothing. */
  method FreedAndLost() returns (pmm: Allocator, ghost before: set<int>, phys: nat)
    ensures fresh(pmm) && pmm.Sound() && pmm.badFrees == 0
    ensures before == {0} && phys == PMM_NONE && pmm.free == {}
  {
    var bitmap := new bv8[1];
    pmm := new Allocator(bitmap, 0, 8);
    pmm.Free(0);
    before := pmm.free;
    phys := pmm.Alloc();
  }

  /** A page freed below the hint is the next one handed out. */
  method FreedIsNext(pmm: Allocator, phys: nat) returns (next: nat)
    requires pmm.Valid() && pmm.Covers(phys / PAGE_SIZE) && phys / PAGE_SIZE !in pmm.free && phys / PAGE_SIZE != 0
    requires phys / PAGE_SIZE < pmm.firstFrame + pmm.hint
    modifies pmm`freePages, pmm`free, pmm`hint, pmm`badFrees, pmm.bitmap
    ensures pmm.Valid() && pmm.free == old(pmm.free) && next / PAGE_SIZE == phys / PAGE_SIZE && next % PAGE_SIZE == 0
  {
    ghost var f := phys / PAGE_SIZE;
    pmm.Free(phys);
    next := pmm.Alloc();
    assert pmm.Sooner(f, next / PAGE_SIZE, f);
  }
}
