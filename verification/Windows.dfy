// The window table and its z-order, in place (kernel/src/window.c).
module Windows {
  import opened Surface
  import opened WindowStack
  import opened Counting

  /** The id `k` after `start`, going round and never nought. */
  function Candidate(start: nat, k: nat): (id: nat)
    requires 0 < start <= LAST_ID && k <= WINDOW_MAX
    ensures 0 < id <= LAST_ID
  {
    if start + k <= LAST_ID then start + k else start + k - LAST_ID
  }

  /** Where the counter stands: never at nought. */
  function StartOf(next: nat): nat { if next == NO_WINDOW then 1 else next }

  /** `id` is the first one from the counter on that no window of `order` has, and the
      counter goes on from there. */
  ghost predicate Counted(order: seq<Window>, next: nat, id: nat, skipped: nat, next': nat) {
    0 < StartOf(next) <= LAST_ID && skipped <= WINDOW_MAX && id == Candidate(StartOf(next), skipped) &&
    next' == Candidate(id, 1) && Place(order, id) == -1 &&
    forall k :: 0 <= k < skipped ==> Place(order, Candidate(StartOf(next), k)) >= 0
  }

  /** `n` steps on from `a`, round and round. */
  function Turn(a: nat, n: nat): (id: nat)
    requires 0 < a
    ensures 0 < id <= LAST_ID
  {
    (a - 1 + n) % LAST_ID + 1
  }

  lemma CandidateTurns(a: nat, n: nat)
    requires 0 < a <= LAST_ID && n <= WINDOW_MAX
    ensures Candidate(a, n) == Turn(a, n)
  {
  }

  lemma TurnsAdd(a: nat, m: nat, n: nat)
    requires 0 < a
    ensures Turn(Turn(a, m), n) == Turn(a, m + n)
  {
    var b := a - 1 + m;
    assert (b % LAST_ID + n) % LAST_ID == (b + n) % LAST_ID;
  }

  /** Windows made one after another, whatever happens between: what the counter was before
      each, and the identifiers given. */
  ghost predicate Issued(nexts: seq<nat>, ids: seq<nat>, skipped: seq<nat>) {
    |nexts| == |ids| + 1 && |skipped| == |ids| &&
    forall k {:trigger ids[k]} :: 0 <= k < |ids| ==>
      0 < StartOf(nexts[k]) <= LAST_ID && skipped[k] <= WINDOW_MAX && ids[k] == Candidate(StartOf(nexts[k]), skipped[k]) &&
      nexts[k + 1] == Candidate(ids[k], 1)
  }

  lemma {:induction false} IssuedLater(nexts: seq<nat>, ids: seq<nat>, skipped: seq<nat>, j: nat, k: nat)
    returns (on: nat)
    requires Issued(nexts, ids, skipped) && j <= k < |ids|
    ensures k - j <= on <= (WINDOW_MAX + 1) * (k - j) && 0 < ids[j] && ids[k] == Turn(ids[j], on)
    decreases k
  {
    if j == k {
      on := 0;
      CandidateTurns(ids[j], on);
    } else {
      var before := IssuedLater(nexts, ids, skipped, j, k - 1);
      on := before + 1 + skipped[k];
      CandidateTurns(ids[k - 1], 1);
      assert ids[k] > 0 && ids[k - 1] > 0 && nexts[k] == Candidate(ids[k - 1], 1) == StartOf(nexts[k]);
      CandidateTurns(nexts[k], skipped[k]);
      TurnsAdd(ids[k - 1], 1, skipped[k]);
      TurnsAdd(ids[j], before, 1 + skipped[k]);
    }
  }

  /** An identifier does not come back while the counter goes once round: every one of the
      next windows has another, were the first destroyed at once. */
  lemma NotSoonAgain(nexts: seq<nat>, ids: seq<nat>, skipped: seq<nat>, j: nat, k: nat)
    requires Issued(nexts, ids, skipped) && j < k < |ids| && (WINDOW_MAX + 1) * (k - j) < LAST_ID
    ensures ids[k] != ids[j]
  {
    var on := IssuedLater(nexts, ids, skipped, j, k);
    assert ids[j] <= LAST_ID && 0 < on < LAST_ID;
  }

  /** Everything above place `z` moved down one. */
  lemma MovedDown(was: seq<nat>, now: seq<nat>, z: nat)
    requires z < |was| == |now|
    requires forall j :: 0 <= j < z ==> now[j] == was[j]
    requires forall j {:trigger was[j]} :: z < j < |was| ==> now[j - 1] == was[j]
    ensures now[..|now| - 1] == was[..z] + was[z + 1..]
  {
    var rest := was[..z] + was[z + 1..];
    forall j | 0 <= j < |now| - 1 ensures now[j] == rest[j] {
      assert z <= j ==> rest[j] == was[j + 1];
    }
  }

  class Manager {
    const slots: array<Window>
    const zSlots: array<nat>
    var count: nat
    var nextId: nat

    ghost predicate Valid()
      reads this, slots, zSlots
    {
      slots.Length == WINDOW_MAX && zSlots.Length == WINDOW_MAX && count <= WINDOW_MAX && nextId <= LAST_ID &&
      Sound(slots[..], zSlots[..count])
    }

    /** The windows, bottom to top. */
    ghost function Order(): seq<Window>
      requires Valid()
      reads this, slots, zSlots
      ensures |Order()| == count
    {
      Stack(slots[..], zSlots[..count])
    }

    /** `window_manager_init`. */
    constructor ()
      ensures Valid() && Order() == [] && nextId == 1 && fresh(slots) && fresh(zSlots)
    {
      slots := new Window[WINDOW_MAX](_ => BLANK);
      zSlots := new nat[WINDOW_MAX];
      count := 0;
      nextId := 1;
    }

    /** `slot_for_id`, -1 for none. */
    method SlotFor(id: nat) returns (slot: int)
      requires Valid()
      ensures -1 <= slot < WINDOW_MAX
      ensures slot >= 0 ==> slots[slot].occupied && slots[slot].id == id
      ensures slot < 0 ==> forall i :: 0 <= i < WINDOW_MAX && slots[i].occupied ==> slots[i].id != id
    {
      if id == NO_WINDOW {
        Open(slots[..], zSlots[..count]);
        assert forall i :: 0 <= i < WINDOW_MAX ==> slots[i] == slots[..][i];
        return -1;
      }
      var i := 0;
      while i < WINDOW_MAX
        invariant i <= WINDOW_MAX
        invariant forall j :: 0 <= j < i && slots[j].occupied ==> slots[j].id != id
      {
        if slots[i].occupied && slots[i].id == id { return i; }
        i := i + 1;
      }
      return -1;
    }

    /** A slot's place in the order is its window's. */
    lemma SlotPlace(slot: nat) returns (k: nat)
      requires Valid() && slot < WINDOW_MAX && slots[slot].occupied
      ensures k < count && zSlots[k] == slot && Place(Order(), slots[slot].id) == k
    {
      Open(slots[..], zSlots[..count]);
      assert slots[..][slot].occupied;
      k :| 0 <= k < count && zSlots[..count][k] == slot;
      PlaceIs(slots[..], zSlots[..count], k);
    }

    lemma NoPlace(id: nat)
      requires Valid() && forall i :: 0 <= i < WINDOW_MAX && slots[i].occupied ==> slots[i].id != id
      ensures Place(Order(), id) == -1
    {
      Open(slots[..], zSlots[..count]);
      forall k | 0 <= k < count ensures Order()[k].id != id { assert Order()[k] == slots[zSlots[..count][k]]; }
    }

    /** A window's slot, and its place in the order. */
    method Find(id: nat) returns (slot: int, ghost k: int)
      requires Valid()
      ensures k == Place(Order(), id) && -1 <= slot < WINDOW_MAX && (slot < 0 <==> k < 0)
      ensures slot >= 0 ==> slots[slot].occupied && slots[slot].id == id && id != NO_WINDOW
      ensures slot >= 0 ==> Order()[k] == slots[slot] && zSlots[..count][k] == slot
    {
      slot := SlotFor(id);
      if slot < 0 {
        NoPlace(id);
        k := -1;
      } else {
        k := SlotPlace(slot);
        Kept(slot);
        assert Order()[k] == slots[zSlots[..count][k]];
      }
    }

    /** The candidates before it are all windows'. */
    lemma FirstFree(next: nat, taken: seq<nat>, id: nat)
      requires Valid() && 0 < StartOf(next) <= LAST_ID && |taken| <= WINDOW_MAX && id == Candidate(StartOf(next), |taken|)
      requires forall k :: 0 <= k < |taken| ==> taken[k] < WINDOW_MAX && slots[taken[k]].occupied &&
                                                slots[taken[k]].id == Candidate(StartOf(next), k)
      requires forall i :: 0 <= i < WINDOW_MAX && slots[i].occupied ==> slots[i].id != id
      ensures Counted(Order(), next, id, |taken|, Candidate(id, 1))
    {
      NoPlace(id);
      forall k | 0 <= k < |taken| ensures Place(Order(), Candidate(StartOf(next), k)) >= 0 {
        var z := SlotPlace(taken[k]);
      }
    }

    /** `take_id`: of nine ids in a row one is free, even when the counter wraps. */
    method TakeId() returns (id: nat, ghost skipped: nat)
      requires Valid()
      modifies this`nextId
      ensures Valid() && 0 < id <= LAST_ID
      ensures forall i :: 0 <= i < WINDOW_MAX && slots[i].occupied ==> slots[i].id != id
      ensures Counted(Order(), old(nextId), id, skipped, nextId)
    {
      ghost var start := if nextId == NO_WINDOW then 1 else nextId;
      id := nextId;
      if id == NO_WINDOW { id := 1; }
      var tries := 0;
      ghost var taken: seq<nat> := [];
      while tries <= WINDOW_MAX
        invariant tries <= WINDOW_MAX + 1 && |taken| == tries && Valid() && nextId == old(nextId)
        invariant tries <= WINDOW_MAX ==> id == Candidate(start, tries)
        invariant forall k :: 0 <= k < tries ==> taken[k] < WINDOW_MAX && slots[taken[k]].occupied &&
                                                 slots[taken[k]].id == Candidate(start, k)
      {
        var slot := SlotFor(id);
        if slot < 0 {
          FirstFree(nextId, taken, id);
          nextId := (id + 1) % 0x1_0000_0000;
          if nextId == NO_WINDOW { nextId := 1; }
          skipped := tries;
          return;
        }
        taken := taken + [slot];
        id := (id + 1) % 0x1_0000_0000;
        if id == NO_WINDOW { id := 1; }
        tries := tries + 1;
      }
      DistinctFew(taken, WINDOW_MAX);
      assert false;
    }

    method FreeSlot() returns (slot: nat)
      requires Valid() && count < WINDOW_MAX
      ensures slot < WINDOW_MAX && !slots[slot].occupied
    {
      slot := 0;
      while slot < WINDOW_MAX
        invariant slot <= WINDOW_MAX
        invariant forall j :: 0 <= j < slot ==> slots[j].occupied
      {
        if !slots[slot].occupied { return; }
        slot := slot + 1;
      }
      FullTable(slots[..], zSlots[..count]);
      assert false;
    }

    /** `window_create`: refused only for these three reasons; ids and slots never run
        out first. */
    method Create(geometry: Geometry, title: string) returns (id: nat, ghost skipped: nat)
      requires Valid()
      modifies this, slots, zSlots
      ensures Valid()
      ensures id == NO_WINDOW <==> |old(Order())| >= WINDOW_MAX || !Fits(geometry) || |title| >= TITLE_CAPACITY
      ensures id == NO_WINDOW ==> Order() == old(Order()) && nextId == old(nextId)
      ensures id != NO_WINDOW ==> Counted(old(Order()), old(nextId), id, skipped, nextId)
      ensures id != NO_WINDOW ==>
                Place(old(Order()), id) == -1 &&
                Order() == old(Order()) + [Window(id, geometry, title, false, false, true, Detached)]
    {
      if count >= WINDOW_MAX || !Fits(geometry) || |title| >= TITLE_CAPACITY { return NO_WINDOW, 0; }
      var slot := FreeSlot();
      id, skipped := TakeId();
      NoPlace(id);
      var w := Window(id, geometry, title, false, false, true, Detached);
      AddSlot(slots[..], zSlots[..count], slot, w);
      Occupy(slot, w);
    }

    /** The last steps of `window_create`. */
    method Occupy(slot: nat, w: Window)
      requires slot < slots.Length && count < zSlots.Length
      modifies this`count, slots, zSlots
      ensures count == old(count) + 1
      ensures zSlots[..count] == old(zSlots[..count]) + [slot] && slots[..] == old(slots[..])[slot := w]
    {
      slots[slot] := w;
      zSlots[count] := slot;
      count := count + 1;
    }

    /** The loops of `window_destroy` and `window_raise`: the order above a slot moves
        down over it. */
    method CloseUp(slot: nat) returns (z: nat)
      requires count <= zSlots.Length && slot in zSlots[..count]
      modifies zSlots
      ensures z < count && old(zSlots[..count])[z] == slot
      ensures zSlots[..count - 1] == old(zSlots[..count])[..z] + old(zSlots[..count])[z + 1..]
    {
      ghost var was := zSlots[..count];
      ghost var k :| 0 <= k < count && was[k] == slot;
      z := 0;
      while z < count && zSlots[z] != slot
        invariant z <= k
      {
        z := z + 1;
      }
      var i := z + 1;
      while i < count
        invariant z + 1 <= i <= count
        invariant forall j :: 0 <= j < z || i - 1 <= j < count ==> zSlots[j] == was[j]
        invariant forall j {:trigger was[j]} :: z < j < i ==> zSlots[j - 1] == was[j]
      {
        zSlots[i - 1] := zSlots[i];
        i := i + 1;
      }
      MovedDown(was, zSlots[..count], z);
    }

    /** The last steps of `window_destroy`. */
    method Forget(slot: nat)
      requires 0 < count <= zSlots.Length && slot < slots.Length
      modifies this`count, slots, zSlots
      ensures count == old(count) - 1
      ensures zSlots[..count] == old(zSlots[..count - 1]) && slots[..] == old(slots[..])[slot := BLANK]
    {
      count := count - 1;
      zSlots[count] := 0;
      slots[slot] := BLANK;
    }

    /** `window_destroy`. */
    method Destroy(id: nat) returns (ok: bool)
      requires Valid()
      modifies this, slots, zSlots
      ensures Valid() && nextId == old(nextId)
      ensures var z := Place(old(Order()), id);
              ok == (z >= 0) && Order() == if ok then old(Order())[..z] + old(Order())[z + 1..] else old(Order())
    {
      var slot, k := Find(id);
      if slot < 0 { return false; }
      Open(slots[..], zSlots[..count]);
      ghost var all, order := slots[..], zSlots[..count];
      var z := CloseUp(slot);
      SamePlace(order, k, z);
      DropSlot(all, order, z);
      Forget(slot);
      return true;
    }

    /** `window_raise`: the window goes to the top, the others keep their order. */
    method Raise(id: nat) returns (ok: bool)
      requires Valid()
      modifies zSlots
      ensures Valid()
      ensures var z := Place(old(Order()), id);
              ok == (z >= 0) && Order() == if ok then Raised(old(Order()), z) else old(Order())
    {
      var slot, k := Find(id);
      if slot < 0 { return false; }
      Open(slots[..], zSlots[..count]);
      ghost var order := zSlots[..count];
      var z := CloseUp(slot);
      SamePlace(order, k, z);
      RaiseSlot(slots[..], order, z);
      PutOnTop(slot);
      return true;
    }

    method PutOnTop(slot: nat)
      requires 0 < count <= zSlots.Length
      modifies zSlots
      ensures zSlots[..count] == old(zSlots[..count - 1]) + [slot]
    {
      zSlots[count - 1] := slot;
    }

    /** One window's fields, in place. */
    method Put(slot: nat, w: Window)
      requires Valid() && slot < WINDOW_MAX && slots[slot].occupied
      requires w.occupied && w.id == slots[slot].id && WindowOk(w)
      requires w.focused ==> forall i :: 0 <= i < WINDOW_MAX && i != slot && slots[i].occupied ==> !slots[i].focused
      modifies slots
      ensures Valid() && slots[..] == old(slots[..])[slot := w]
      ensures var z := Place(old(Order()), w.id); 0 <= z < count && zSlots[z] == slot && Order() == old(Order())[z := w]
    {
      ghost var k := SlotPlace(slot);
      PutSlot(slots[..], zSlots[..count], k, w);
      slots[slot] := w;
      assert slots[..] == old(slots[..])[slot := w];
    }

    /** `window_set_geometry`: refused while a picture of another size is attached. */
    method SetGeometry(id: nat, geometry: Geometry) returns (ok: bool)
      requires Valid()
      modifies slots
      ensures Valid()
      ensures var z := Place(old(Order()), id);
              ok == (z >= 0 && Fits(geometry) && Agrees(old(Order())[z].picture, geometry)) &&
              Order() == if ok then old(Order())[z := old(Order())[z].(geometry := geometry)] else old(Order())
    {
      var slot, k := Find(id);
      if slot < 0 { return false; }
      if !Fits(geometry) || !Agrees(slots[slot].picture, geometry) { return false; }
      Kept(slot);
      Put(slot, slots[slot].(geometry := geometry));
      return true;
    }

    /** `window_attach_surface`, nothing attached for a null surface. */
    method Attach(id: nat, picture: Picture) returns (ok: bool)
      requires Valid()
      modifies slots
      ensures Valid()
      ensures var z := Place(old(Order()), id);
              ok == (z >= 0 && (picture.Attached? ==> picture.pixels.Valid()) &&
                     Agrees(picture, old(Order())[z].geometry)) &&
              Order() == if ok then old(Order())[z := old(Order())[z].(picture := picture)] else old(Order())
    {
      var slot, k := Find(id);
      if slot < 0 { return false; }
      if picture.Attached? && (!picture.pixels.Valid() || !Agrees(picture, slots[slot].geometry)) { return false; }
      Kept(slot);
      Put(slot, slots[slot].(picture := picture));
      return true;
    }

    /** A caller's write to `minimized` through the pointer `window_get` gave it. */
    method SetMinimized(id: nat, minimized: bool) returns (ok: bool)
      requires Valid()
      modifies slots
      ensures Valid()
      ensures var z := Place(old(Order()), id);
              ok == (z >= 0) &&
              Order() == if ok then old(Order())[z := old(Order())[z].(minimized := minimized)] else old(Order())
    {
      var slot, k := Find(id);
      if slot < 0 { return false; }
      Kept(slot);
      Put(slot, slots[slot].(minimized := minimized));
      return true;
    }

    /** What a window already promises of itself and the focus. */
    lemma Kept(slot: nat)
      requires Valid() && slot < WINDOW_MAX && slots[slot].occupied
      ensures WindowOk(slots[slot])
      ensures slots[slot].focused ==>
                forall i :: 0 <= i < WINDOW_MAX && i != slot && slots[i].occupied ==> !slots[i].focused
    {
      Open(slots[..], zSlots[..count]);
      assert slots[..][slot] == slots[slot];
      forall i | 0 <= i < WINDOW_MAX && i != slot && slots[i].occupied && slots[slot].focused
        ensures !slots[i].focused
      {
        assert !Clash(slots[..][i], slots[..][slot]);
      }
    }

    /** `window_focused`. */
    method Focused() returns (id: nat)
      requires Valid()
      ensures id == FocusOf(Order())
      ensures id == NO_WINDOW ==> forall i :: 0 <= i < WINDOW_MAX && slots[i].occupied ==> !slots[i].focused
    {
      Open(slots[..], zSlots[..count]);
      var i := 0;
      while i < WINDOW_MAX
        invariant i <= WINDOW_MAX
        invariant forall j :: 0 <= j < i && slots[j].occupied ==> !slots[j].focused
      {
        if slots[i].occupied && slots[i].focused {
          ghost var k := SlotPlace(i);
          FocusAt(slots[..], zSlots[..count], k);
          assert slots[..][i] == slots[i];
          return slots[i].id;
        }
        i := i + 1;
      }
      forall k | 0 <= k < |Order()| ensures !Order()[k].focused {
        assert Order()[k] == slots[zSlots[..count][k]];
      }
      NoFocus(Order());
      return NO_WINDOW;
    }

    /** `window_focus`: the window and no other, then on top when asked. */
    method Focus(id: nat, raise: bool) returns (ok: bool)
      requires Valid()
      modifies slots, zSlots
      ensures Valid()
      ensures var stack := old(Order()); var z := Place(stack, id);
              ok == (id == NO_WINDOW || (z >= 0 && !stack[z].minimized)) &&
              Order() == if !ok then stack
                         else if raise && id != NO_WINDOW then Raised(FocusedOn(stack, id), z)
                         else FocusedOn(stack, id)
    {
      var slot, k := Find(id);
      if id != NO_WINDOW && (slot < 0 || slots[slot].minimized) { return false; }
      var before := Focused();
      StackKeyed(slots[..], zSlots[..count]);
      if before == id {
        assert FocusedOn(Order(), id) == Order();
        if !raise || id == NO_WINDOW { return true; }
        ok := Raise(id);
        return;
      }
      ok := MoveFocus(slot, id, before, raise);
    }

    method MoveFocus(slot: int, id: nat, before: nat, raise: bool) returns (ok: bool)
      requires Valid() && before == FocusOf(Order()) && -1 <= slot < WINDOW_MAX
      requires if slot < 0 then id == NO_WINDOW else slots[slot].occupied && slots[slot].id == id && id != NO_WINDOW
      modifies slots, zSlots
      ensures Valid() && ok
      ensures var stack := old(Order());
              Order() == if raise && id != NO_WINDOW && Place(stack, id) >= 0
                         then Raised(FocusedOn(stack, id), Place(stack, id)) else FocusedOn(stack, id)
    {
      ghost var stack := Order();
      Unfocus(before);
      if slot < 0 { return true; }
      assert FocusedOn(FocusedOn(stack, NO_WINDOW), id) == FocusedOn(stack, id);
      FocusOnly(slot);
      if !raise { return true; }
      ghost var k := SlotPlace(slot);
      SameIds(stack, Order(), id);
      ok := Raise(id);
    }

    /** The window that had the focus loses it. */
    method Unfocus(before: nat)
      requires Valid() && before == FocusOf(Order())
      modifies slots
      ensures Valid() && Order() == FocusedOn(old(Order()), NO_WINDOW)
      ensures forall i :: 0 <= i < WINDOW_MAX ==> slots[i].occupied == old(slots[i].occupied) &&
                                                  slots[i].id == old(slots[i].id)
      ensures forall i :: 0 <= i < WINDOW_MAX && slots[i].occupied ==> !slots[i].focused
    {
      ghost var stack := Order();
      StackKeyed(slots[..], zSlots[..count]);
      var slot := SlotFor(before);
      if slot >= 0 {
        Kept(slot);
        ghost var k := SlotPlace(slot);
        Put(slot, slots[slot].(focused := false));
      } else {
        NoPlace(before);
      }
      assert Order() == FocusedOn(stack, NO_WINDOW);
      forall i | 0 <= i < WINDOW_MAX && slots[i].occupied ensures !slots[i].focused {
        ghost var k := SlotPlace(i);
        assert Order()[k] == slots[i];
      }
    }

    method FocusOnly(slot: nat)
      requires Valid() && slot < WINDOW_MAX && slots[slot].occupied
      requires forall i :: 0 <= i < WINDOW_MAX && slots[i].occupied ==> !slots[i].focused
      modifies slots
      ensures Valid() && Order() == FocusedOn(old(Order()), old(slots[slot].id))
      ensures slots[slot].occupied && slots[slot].id == old(slots[slot].id)
    {
      ghost var stack := Order();
      StackKeyed(slots[..], zSlots[..count]);
      Open(slots[..], zSlots[..count]);
      Kept(slot);
      ghost var k := SlotPlace(slot);
      assert stack[k] == slots[slot];
      forall j | 0 <= j < count ensures !stack[j].focused { assert stack[j] == slots[zSlots[..count][j]]; }
      Put(slot, slots[slot].(focused := true));
      assert Order() == FocusedOn(stack, old(slots[slot].id));
    }

    /** `window_hit_test`: the topmost window there that is not minimized. */
    method HitTest(x: int, y: int) returns (id: nat)
      requires Valid()
      ensures var k := TopAt(Order(), x, y); id == if k < 0 then NO_WINDOW else Order()[k].id
    {
      var z := count;
      while z > 0
        invariant 0 <= z <= count
        invariant forall j :: z <= j < |Order()| ==> !Under(Order()[j], x, y)
      {
        var w := slots[zSlots[z - 1]];
        assert Order()[z - 1] == slots[zSlots[..count][z - 1]] == w;
        if Under(w, x, y) { return w.id; }
        z := z - 1;
      }
      return NO_WINDOW;
    }
  }
}
