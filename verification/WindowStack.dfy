// What the window table holds (kernel/include/window.h): slots, and the order of the
// occupied ones from bottom to top.
module WindowStack {
  import Common
  import opened Surface
  import opened Counting

  const WINDOW_MAX: nat := 8
  const TITLE_CAPACITY: nat := 32
  const MAX_DIMENSION: nat := 4096
  const NO_WINDOW: nat := 0
  const LAST_ID: nat := 0xFFFF_FFFF

  datatype Geometry = Geometry(x: int, y: int, width: nat, height: nat)

  datatype Picture = Detached | Attached(pixels: Surface)

  datatype Window = Window(id: nat, geometry: Geometry, title: string, focused: bool, minimized: bool,
                           occupied: bool, picture: Picture)

  const BLANK: Window := Window(0, Geometry(0, 0, 0, 0), "", false, false, false, Detached)

  /** `window_geometry_valid`. */
  predicate Fits(g: Geometry) { 0 < g.width <= MAX_DIMENSION && 0 < g.height <= MAX_DIMENSION }

  predicate Agrees(p: Picture, g: Geometry) {
    p.Attached? ==> p.pixels.width == g.width && p.pixels.height == g.height
  }

  predicate WindowOk(w: Window) {
    0 < w.id <= LAST_ID && Fits(w.geometry) && Agrees(w.picture, w.geometry) &&
    (w.picture.Attached? ==> w.picture.pixels.Valid())
  }

  /** Two windows that cannot both be in the table. */
  predicate Clash(v: Window, w: Window) { v.occupied && w.occupied && (v.id == w.id || (v.focused && w.focused)) }

  ghost predicate Distinct(z: seq<nat>) {
    forall a, b {:trigger z[a], z[b]} :: 0 <= a < b < |z| ==> z[a] != z[b]
  }

  lemma SamePlace(z: seq<nat>, a: nat, b: nat)
    requires Distinct(z) && a < |z| && b < |z| && z[a] == z[b]
    ensures a == b
  {
  }

  /** The table and the order agree. Kept behind `Open`, so that a proof that does not need
      the parts does not see them. */
  ghost predicate Sound(slots: seq<Window>, z: seq<nat>) {
    |slots| == WINDOW_MAX && (forall k :: 0 <= k < |z| ==> z[k] < WINDOW_MAX) &&
    forall u {:trigger Common.Asked(u)} :: Common.Asked(u) ==> Parts(slots, z)
  }

  lemma Open(slots: seq<Window>, z: seq<nat>)
    requires Sound(slots, z)
    ensures Parts(slots, z)
  {
    assert Common.Asked(0);
  }

  ghost predicate Parts(slots: seq<Window>, z: seq<nat>) {
    && |slots| == WINDOW_MAX
    && Distinct(z)
    && (forall k :: 0 <= k < |z| ==> z[k] < WINDOW_MAX && slots[z[k]].occupied)
    && (forall i: nat {:trigger slots[i]} :: i < WINDOW_MAX && slots[i].occupied ==> i in z && WindowOk(slots[i]))
    && (forall i: nat, j: nat {:trigger Clash(slots[i], slots[j])} ::
          i < WINDOW_MAX && j < WINDOW_MAX && i != j ==> !Clash(slots[i], slots[j]))
  }

  /** The windows, bottom to top. */
  ghost function Stack(slots: seq<Window>, z: seq<nat>): (s: seq<Window>)
    requires forall k :: 0 <= k < |z| ==> z[k] < |slots|
    ensures |s| == |z|
  {
    seq(|z|, k requires 0 <= k < |z| => slots[z[k]])
  }

  /** Where the window is in the order, or -1. */
  ghost function Place(stack: seq<Window>, id: nat): (z: int)
    ensures -1 <= z < |stack|
    ensures z >= 0 ==> stack[z].id == id
    ensures z < 0 ==> forall k :: 0 <= k < |stack| ==> stack[k].id != id
  {
    if stack == [] then -1
    else if stack[|stack| - 1].id == id then |stack| - 1
    else Place(stack[..|stack| - 1], id)
  }

  ghost function Raised(stack: seq<Window>, z: nat): seq<Window>
    requires z < |stack|
  {
    stack[..z] + stack[z + 1..] + [stack[z]]
  }

  ghost function FocusedOn(stack: seq<Window>, id: nat): (s: seq<Window>)
    ensures |s| == |stack|
  {
    seq(|stack|, k requires 0 <= k < |stack| => stack[k].(focused := stack[k].id == id))
  }

  ghost function FocusOf(stack: seq<Window>): (id: nat)
  {
    if stack == [] then NO_WINDOW
    else if stack[|stack| - 1].focused then stack[|stack| - 1].id
    else FocusOf(stack[..|stack| - 1])
  }

  lemma {:induction false} FocusIs(stack: seq<Window>, z: nat)
    requires z < |stack| && stack[z].focused
    requires forall k :: 0 <= k < |stack| && k != z ==> !stack[k].focused
    ensures FocusOf(stack) == stack[z].id
  {
    if z < |stack| - 1 { FocusIs(stack[..|stack| - 1], z); }
  }

  lemma {:induction false} NoFocus(stack: seq<Window>)
    requires forall k :: 0 <= k < |stack| ==> !stack[k].focused
    ensures FocusOf(stack) == NO_WINDOW
  {
    if stack != [] { NoFocus(stack[..|stack| - 1]); }
  }

  // ----- sizes

  /** A list without repeats is no longer than the numbers it can hold. */
  lemma DistinctFew(z: seq<nat>, n: nat)
    requires Distinct(z) && forall k :: 0 <= k < |z| ==> z[k] < n
    ensures |z| <= n
    ensures |z| == n ==> forall i :: 0 <= i < n ==> i in z
  {
    var members := Members(z);
    SubsetSize(members, Below(n));
    if |z| == n {
      forall i | 0 <= i < n ensures i in z {
        assert i in Below(n);
      }
    }
  }

  ghost function Members(z: seq<nat>): (m: set<int>)
    ensures forall i :: i in m <==> i in z
    ensures Distinct(z) ==> |m| == |z|
  {
    if z == [] then {}
    else
      var rest := Members(z[..|z| - 1]);
      assert z == z[..|z| - 1] + [z[|z| - 1]];
      rest + {z[|z| - 1]}
  }

  lemma FullTable(slots: seq<Window>, z: seq<nat>)
    requires Sound(slots, z) && forall i :: 0 <= i < WINDOW_MAX ==> slots[i].occupied
    ensures |z| >= WINDOW_MAX
  {
    Open(slots, z);
    forall i | i in Below(WINDOW_MAX) ensures i in Members(z) {
      assert slots[i].occupied;
    }
    SubsetSize(Below(WINDOW_MAX), Members(z));
  }

  // ----- the table, one change at a time

  /** A window changed where it stands. */
  lemma PutSlot(slots: seq<Window>, z: seq<nat>, k: nat, w: Window)
    requires Sound(slots, z) && k < |z|
    requires w.occupied && w.id == slots[z[k]].id && WindowOk(w)
    requires w.focused ==> forall i: nat {:trigger slots[i]} :: i < WINDOW_MAX && i != z[k] && slots[i].occupied ==> !slots[i].focused
    ensures Sound(slots[z[k] := w], z)
    ensures Stack(slots[z[k] := w], z) == Stack(slots, z)[k := w]
  {
    Open(slots, z);
    var now := slots[z[k] := w];
    forall i: nat, j: nat {:trigger Clash(now[i], now[j])} | i < WINDOW_MAX && j < WINDOW_MAX && i != j
      ensures !Clash(now[i], now[j])
    {
      assert !Clash(slots[i], slots[j]);
    }
  }

  /** A window put in a free slot, on top. */
  lemma AddSlot(slots: seq<Window>, z: seq<nat>, i: nat, w: Window)
    requires Sound(slots, z) && i < WINDOW_MAX && !slots[i].occupied
    requires w.occupied && WindowOk(w) && !w.focused
    requires forall j: nat {:trigger slots[j]} :: j < WINDOW_MAX && slots[j].occupied ==> slots[j].id != w.id
    ensures Sound(slots[i := w], z + [i])
    ensures Stack(slots[i := w], z + [i]) == Stack(slots, z) + [w]
  {
    Open(slots, z);
    var now := slots[i := w];
    assert i !in z;
    forall a: nat, b: nat {:trigger Clash(now[a], now[b])} | a < WINDOW_MAX && b < WINDOW_MAX && a != b
      ensures !Clash(now[a], now[b])
    {
      assert !Clash(slots[a], slots[b]);
    }
    forall j: nat | j < WINDOW_MAX && now[j].occupied ensures j in z + [i] {
      if j != i { assert slots[j] == now[j]; }
    }
  }

  /** The order without its place `k`. */
  lemma Dropped(z: seq<nat>, k: nat)
    requires Distinct(z) && k < |z|
    ensures Distinct(z[..k] + z[k + 1..]) && z[k] !in z[..k] + z[k + 1..]
    ensures forall i: nat :: i in z[..k] + z[k + 1..] <==> i in z && i != z[k]
  {
    var rest := z[..k] + z[k + 1..];
    forall i: nat | i in z && i != z[k] ensures i in rest {
      var a :| 0 <= a < |z| && z[a] == i;
      assert rest[if a < k then a else a - 1] == i;
    }
  }

  lemma DropSlot(slots: seq<Window>, z: seq<nat>, k: nat)
    requires Sound(slots, z) && k < |z|
    ensures Sound(slots[z[k] := BLANK], z[..k] + z[k + 1..])
    ensures Stack(slots[z[k] := BLANK], z[..k] + z[k + 1..]) == Stack(slots, z)[..k] + Stack(slots, z)[k + 1..]
  {
    Open(slots, z);
    var now, rest := slots[z[k] := BLANK], z[..k] + z[k + 1..];
    Dropped(z, k);
    forall a: nat, b: nat {:trigger Clash(now[a], now[b])} | a < WINDOW_MAX && b < WINDOW_MAX && a != b
      ensures !Clash(now[a], now[b])
    {
      assert !Clash(slots[a], slots[b]);
    }
  }

  lemma RaiseSlot(slots: seq<Window>, z: seq<nat>, k: nat)
    requires Sound(slots, z) && k < |z|
    ensures Sound(slots, z[..k] + z[k + 1..] + [z[k]])
    ensures Stack(slots, z[..k] + z[k + 1..] + [z[k]]) == Raised(Stack(slots, z), k)
  {
    Open(slots, z);
    Dropped(z, k);
  }

  /** An id is where its slot is. */
  lemma PlaceIs(slots: seq<Window>, z: seq<nat>, k: nat)
    requires Sound(slots, z) && k < |z|
    ensures Place(Stack(slots, z), slots[z[k]].id) == k
  {
    Open(slots, z);
    var p := Place(Stack(slots, z), slots[z[k]].id);
    if p != k {
      assert Stack(slots, z)[k] == slots[z[k]];
      assert Clash(slots[z[p]], slots[z[k]]);
    }
  }

  lemma FocusAt(slots: seq<Window>, z: seq<nat>, k: nat)
    requires Sound(slots, z) && k < |z| && slots[z[k]].focused
    ensures FocusOf(Stack(slots, z)) == slots[z[k]].id
    ensures forall j :: 0 <= j < |z| && j != k ==> !slots[z[j]].focused
  {
    Open(slots, z);
    forall j | 0 <= j < |z| && j != k ensures !slots[z[j]].focused {
      assert !Clash(slots[z[j]], slots[z[k]]);
    }
    FocusIs(Stack(slots, z), k);
  }

  /** In the table ids are proper and belong to one window, and a flag is set on the
      window the focus is on. */
  lemma StackKeyed(slots: seq<Window>, z: seq<nat>)
    requires Sound(slots, z)
    ensures var stack := Stack(slots, z);
            (forall j :: 0 <= j < |z| ==> stack[j].id > 0 && (stack[j].focused <==> stack[j].id == FocusOf(stack))) &&
            (forall j, k :: 0 <= j < |z| && 0 <= k < |z| && stack[j].id == stack[k].id ==> j == k)
  {
    Open(slots, z);
    var stack := Stack(slots, z);
    forall j, k | 0 <= j < |z| && 0 <= k < |z| && stack[j].id == stack[k].id ensures j == k {
      PlaceIs(slots, z, j);
      PlaceIs(slots, z, k);
    }
    if j :| 0 <= j < |z| && stack[j].focused {
      FocusAt(slots, z, j);
    } else {
      NoFocus(stack);
    }
    forall j | 0 <= j < |z| ensures stack[j].id > 0 { assert slots[z[j]].occupied; }
  }

  lemma {:induction false} SameIds(a: seq<Window>, b: seq<Window>, id: nat)
    requires |a| == |b| && forall k :: 0 <= k < |a| ==> a[k].id == b[k].id
    ensures Place(a, id) == Place(b, id)
  {
    if a != [] { SameIds(a[..|a| - 1], b[..|a| - 1], id); }
  }

  /** The window would be drawn, and the point is in its rectangle. */
  predicate Under(w: Window, x: int, y: int) {
    !w.minimized && w.geometry.x <= x < w.geometry.x + w.geometry.width &&
    w.geometry.y <= y < w.geometry.y + w.geometry.height
  }

  /** The place of the topmost such window, or -1. */
  ghost function TopAt(stack: seq<Window>, x: int, y: int): (k: int)
    ensures -1 <= k < |stack| && (k >= 0 ==> Under(stack[k], x, y))
    ensures forall j :: k < j < |stack| ==> !Under(stack[j], x, y)
  {
    if stack == [] then -1
    else if Under(stack[|stack| - 1], x, y) then |stack| - 1
    else TopAt(stack[..|stack| - 1], x, y)
  }
}
