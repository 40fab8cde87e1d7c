// Putting the windows on the screen, bottom to top (kernel/src/compositor.c).
module Compositor {
  import opened Region
  import opened Surface
  import opened WindowStack
  import Windows

  /** The memories the windows are drawn from. */
  ghost function Memories(stack: seq<Window>): set<object?> {
    set w | w in stack && w.picture.Attached? :: w.picture.pixels.mem
  }

  /** The window has a pixel there: it is drawn, and its own picture reaches it. */
  predicate Shows(w: Window, x: int, y: int) {
    !w.minimized && w.picture.Attached? && w.picture.pixels.Valid() &&
    w.picture.pixels.On(x - w.geometry.x, y - w.geometry.y)
  }

  ghost function PixelOf(w: Window, x: int, y: int): Colour
    requires Shows(w, x, y)
    reads w.picture.pixels.mem
  {
    w.picture.pixels.Pixel(x - w.geometry.x, y - w.geometry.y)
  }

  /** What is to be seen at a point: the topmost window that shows there, looked for from
      the top, and the background when there is none. */
  ghost function Seen(stack: seq<Window>, background: Colour, x: int, y: int): Colour
    reads Memories(stack)
  {
    if stack == [] then background
    else
      var top := stack[|stack| - 1];
      if Shows(top, x, y) then PixelOf(top, x, y)
      else Seen(stack[..|stack| - 1], background, x, y)
  }

  // ----- the picture

  /** Windows over windows: the lower ones are the background of the upper ones. */
  lemma {:induction false} SeenOver(lower: seq<Window>, upper: seq<Window>, background: Colour, x: int, y: int)
    ensures Seen(lower + upper, background, x, y) == Seen(upper, Seen(lower, background, x, y), x, y)
  {
    if upper == [] {
      assert lower + upper == lower;
    } else {
      var rest := upper[..|upper| - 1];
      assert (lower + upper)[..|lower + upper| - 1] == lower + rest;
      SeenOver(lower, rest, background, x, y);
    }
  }

  /** Where every drawn window has its picture, what is seen is the window a click would
      go to. */
  lemma {:induction false} SeenIsHit(stack: seq<Window>, background: Colour, x: int, y: int)
    requires forall w :: w in stack ==> WindowOk(w) && (!w.minimized ==> w.picture.Attached?)
    ensures var k := TopAt(stack, x, y);
            if k < 0 then Seen(stack, background, x, y) == background
            else Shows(stack[k], x, y) && Seen(stack, background, x, y) == PixelOf(stack[k], x, y)
  {
    if stack != [] {
      var top := stack[|stack| - 1];
      assert top in stack && (Under(top, x, y) <==> Shows(top, x, y));
      SeenIsHit(stack[..|stack| - 1], background, x, y);
    }
  }

  /** A window's rectangle, empty when nothing of it is drawn. */
  function Frame(w: Window): (r: Region)
    ensures forall x, y :: Shows(w, x, y) ==> Covers(r, x, y)
  {
    if w.minimized || w.picture.Detached? then NONE
    else Make(w.geometry.x, w.geometry.y, w.picture.pixels.width, w.picture.pixels.height)
  }

  /** Moving, hiding or redrawing one window changes nothing outside the union of where it
      was and where it is. */
  lemma ChangeIsInside(before: seq<Window>, after: seq<Window>, k: nat, background: Colour, x: int, y: int)
    requires k < |before| == |after| && after == before[k := after[k]]
    requires !Covers(Union(Frame(before[k]), Frame(after[k])), x, y)
    ensures Seen(after, background, x, y) == Seen(before, background, x, y)
  {
    Split(before, k, background, x, y);
    Split(after, k, background, x, y);
    assert after[..k] == before[..k] && after[k + 1..] == before[k + 1..];
  }

  /** A window that does not show at a point might as well not be there. */
  lemma Split(stack: seq<Window>, k: nat, background: Colour, x: int, y: int)
    requires k < |stack| && !Shows(stack[k], x, y)
    ensures Seen(stack, background, x, y) == Seen(stack[..k] + stack[k + 1..], background, x, y)
  {
    var under, over := stack[..k], stack[k + 1..];
    assert stack == (under + [stack[k]]) + over;
    SeenOver(under + [stack[k]], over, background, x, y);
    SeenOver(under, [stack[k]], background, x, y);
    SeenOver(under, over, background, x, y);
  }

  /** Raising a window changes nothing outside it. */
  lemma RaiseIsInside(stack: seq<Window>, k: nat, background: Colour, x: int, y: int)
    requires k < |stack| && !Covers(Frame(stack[k]), x, y)
    ensures Seen(Raised(stack, k), background, x, y) == Seen(stack, background, x, y)
  {
    Split(stack, k, background, x, y);
    var raised := Raised(stack, k);
    Split(raised, |stack| - 1, background, x, y);
    assert raised[..|stack| - 1] + raised[|stack|..] == stack[..k] + stack[k + 1..];
  }

  /** A raised window is seen wherever it shows and gets every click on it, and the
      others keep their order among themselves. */
  lemma RaisedIsSeen(stack: seq<Window>, k: nat, background: Colour, x: int, y: int)
    requires k < |stack|
    ensures var raised := Raised(stack, k);
            && |raised| == |stack|
            && (forall i :: 0 <= i < |stack| && i != k ==> raised[if i < k then i else i - 1] == stack[i])
            && (Shows(stack[k], x, y) ==> Seen(raised, background, x, y) == PixelOf(stack[k], x, y))
            && (Under(stack[k], x, y) ==> TopAt(raised, x, y) >= 0 && raised[TopAt(raised, x, y)] == stack[k])
  {
    assert Raised(stack, k)[|stack| - 1] == stack[k];
  }

  /** Removing one changes nothing outside it. */
  lemma RemovalIsInside(stack: seq<Window>, k: nat, background: Colour, x: int, y: int)
    requires k < |stack| && !Covers(Frame(stack[k]), x, y)
    ensures Seen(stack[..k] + stack[k + 1..], background, x, y) == Seen(stack, background, x, y)
  {
    Split(stack, k, background, x, y);
  }

  // ----- the painter

  /** The pictures are what their owners promised, and none is the target. */
  ghost predicate Drawable(stack: seq<Window>, target: Surface) {
    forall k :: 0 <= k < |stack| && stack[k].picture.Attached? ==>
      stack[k].picture.pixels.Backed() && stack[k].picture.pixels.mem != target.mem
  }

  /** Inside the region what is to be seen, everywhere else what was there. */
  ghost predicate Painted(target: Surface, stack: seq<Window>, background: Colour, r: Region, was: seq<Colour>)
    requires target.Valid()
    reads target.mem, Memories(stack)
  {
    target.mem.Length == |was| &&
    forall i :: 0 <= i < |was| ==>
      target.mem[i] == if target.Owns(i) && Covers(r, target.Column(i), target.Row(i))
                       then Seen(stack, background, target.Column(i), target.Row(i)) else was[i]
  }

  /** One window over those below it. */
  method Draw(target: Surface, w: Window, background: Colour, r: Region,
              ghost under: seq<Window>, ghost was: seq<Colour>)
    requires target.Valid() && target.Backed() && Drawable(under + [w], target)
    requires Painted(target, under, background, r, was)
    modifies target.mem
    ensures Painted(target, under + [w], background, r, was)
  {
    ghost var all := under + [w];
    assert all[|under|] == w && all[..|under|] == under;
    assert target.mem !in Memories(all) && target.mem !in Memories(under) by {
      assert forall k :: 0 <= k < |under| ==> all[k] == under[k];
    }
    if !w.minimized && w.picture.Attached? {
      BlitClipped(target, w.picture.pixels, w.geometry.x, w.geometry.y, r);
    }
  }

  /** `compositor_compose_region`. */
  method ComposeRegion(m: Windows.Manager, target: Surface, background: Colour, region: Region) returns (ok: bool)
    requires m.Valid() && target.Backed() && Drawable(m.Order(), target)
    modifies target.mem
    ensures m.Valid() && m.Order() == old(m.Order()) && ok == target.Valid()
    ensures ok ==> Painted(target, m.Order(), background, region, old(target.mem[..]))
  {
    if !target.Valid() { return false; }
    var within := Clip(region, target.width, target.height);
    ghost var stack, was := m.Order(), target.mem[..];
    if Empty(within) {
      SameRegion(target, stack, background, within, region, was);
      return true;
    }
    FillRect(target, within.x, within.y, within.width, within.height, background);
    assert Painted(target, stack[..0], background, within, was);
    var z := 0;
    while z < m.count
      invariant 0 <= z <= m.count && m.Valid() && m.Order() == stack
      invariant Painted(target, stack[..z], background, within, was)
    {
      assert stack[..z + 1] == stack[..z] + [stack[z]];
      var w := m.slots[m.zSlots[z]];
      assert w == stack[z];
      Draw(target, w, background, within, stack[..z], was);
      z := z + 1;
    }
    assert stack[..z] == stack;
    SameRegion(target, stack, background, within, region, was);
    return true;
  }

  /** Clipping to the target changes none of its pixels. */
  lemma SameRegion(target: Surface, stack: seq<Window>, background: Colour, within: Region, region: Region,
                   was: seq<Colour>)
    requires target.Valid() && within == Clip(region, target.width, target.height)
    requires Painted(target, stack, background, within, was) || (Empty(within) && target.mem[..] == was)
    ensures Painted(target, stack, background, region, was)
  {
  }

  /** `compositor_compose`: the whole target. */
  method Compose(m: Windows.Manager, target: Surface, background: Colour) returns (ok: bool)
    requires m.Valid() && target.Backed() && Drawable(m.Order(), target)
    modifies target.mem
    ensures m.Valid() && m.Order() == old(m.Order()) && ok == target.Valid()
    ensures ok ==> UpToDate(target, m.Order(), background)
    ensures ok ==> forall i :: 0 <= i < target.mem.Length && !target.Owns(i) ==> target.mem[i] == old(target.mem[i])
  {
    ok := ComposeRegion(m, target, background, Make(0, 0, target.width, target.height));
  }

  /** Every pixel of the target is what is to be seen there. */
  ghost predicate UpToDate(target: Surface, stack: seq<Window>, background: Colour)
    requires target.Valid()
    reads target.mem, Memories(stack)
  {
    forall i :: 0 <= i < target.mem.Length && target.Owns(i) ==>
      target.mem[i] == Seen(stack, background, target.Column(i), target.Row(i))
  }

  /** Outside the region everything is seen as it was. */
  ghost predicate SeenSameOutside(target: Surface, before: seq<Window>, after: seq<Window>, background: Colour,
                                  region: Region)
    reads Memories(before), Memories(after)
  {
    forall x, y {:trigger Covers(region, x, y)} :: target.On(x, y) && !Covers(region, x, y) ==>
      Seen(after, background, x, y) == Seen(before, background, x, y)
  }

  /** Whatever happened to the windows: when the memory was right before, composing a region
      with every pixel that is seen differently makes the whole target right again. */
  lemma DamageIsEnough(target: Surface, before: seq<Window>, after: seq<Window>, background: Colour,
                       region: Region, was: seq<Colour>)
    requires target.Valid() && SeenSameOutside(target, before, after, background, region)
    requires forall i :: 0 <= i < |was| && target.Owns(i) ==>
               was[i] == Seen(before, background, target.Column(i), target.Row(i))
    requires Painted(target, after, background, region, was)
    ensures UpToDate(target, after, background)
  {
    forall i | 0 <= i < |was| && target.Owns(i)
      ensures target.mem[i] == Seen(after, background, target.Column(i), target.Row(i))
    {
      var inside := Covers(region, target.Column(i), target.Row(i));
    }
  }

  /** For one window moved, hidden or redrawn, a region with where it was and where it is. */
  lemma ChangeDamage(target: Surface, before: seq<Window>, after: seq<Window>, k: nat, background: Colour,
                     region: Region)
    requires k < |before| == |after| && after == before[k := after[k]]
    requires Holds(region, Union(Frame(before[k]), Frame(after[k])))
    ensures SeenSameOutside(target, before, after, background, region)
  {
    forall x, y | !Covers(region, x, y) ensures Seen(after, background, x, y) == Seen(before, background, x, y) {
      ChangeIsInside(before, after, k, background, x, y);
    }
  }

  /** For one raised, its own rectangle. */
  lemma RaiseDamage(target: Surface, stack: seq<Window>, k: nat, background: Colour, region: Region)
    requires k < |stack| && Holds(region, Frame(stack[k]))
    ensures SeenSameOutside(target, stack, Raised(stack, k), background, region)
  {
    forall x, y | !Covers(region, x, y)
      ensures Seen(Raised(stack, k), background, x, y) == Seen(stack, background, x, y)
    {
      RaiseIsInside(stack, k, background, x, y);
    }
  }

  /** For one created or destroyed, the same. */
  lemma RemovalDamage(target: Surface, stack: seq<Window>, k: nat, background: Colour, region: Region)
    requires k < |stack| && Holds(region, Frame(stack[k]))
    ensures SeenSameOutside(target, stack, stack[..k] + stack[k + 1..], background, region)
    ensures SeenSameOutside(target, stack[..k] + stack[k + 1..], stack, background, region)
  {
    forall x, y | !Covers(region, x, y)
      ensures Seen(stack[..k] + stack[k + 1..], background, x, y) == Seen(stack, background, x, y)
    {
      RemovalIsInside(stack, k, background, x, y);
    }
  }
}
