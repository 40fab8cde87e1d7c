// What a relayout does to the window order and to the apps, one window at a time.
module DesktopSpec {
  import Common
  import opened Surface
  import opened WindowStack
  import Tile

  const MAX_APPS: nat := 6
  const TITLE_HEIGHT: int := 18

  datatype App = App(id: nat, title: string, frame: Surface, client: Surface, hidden: bool, workspace: int)

  const NO_APP: App := App(0, "", NOTHING, NOTHING, false, 0)

  /** What a window is given before the first layout. */
  const FIRST_GEOMETRY: Geometry := Geometry(0, 0, 64, 64)

  function NewWindow(id: nat, title: string): Window {
    Window(id, FIRST_GEOMETRY, title, false, false, true, Detached)
  }

  /** `desktop_on_screen`. */
  predicate OnScreen(a: App, workspace: int) { !a.hidden && a.workspace == workspace }

  ghost function Marks(apps: seq<App>, workspace: int): (m: seq<bool>)
    ensures |m| == |apps|
  {
    seq(|apps|, i requires 0 <= i < |apps| => OnScreen(apps[i], workspace))
  }

  /** An app off the screen has nothing to draw into. */
  function Emptied(a: App, workspace: int): App {
    if OnScreen(a, workspace) then a else a.(frame := NOTHING, client := NOTHING)
  }

  ghost function EmptiedTo(apps: seq<App>, workspace: int, n: nat): (s: seq<App>)
    ensures |s| == |apps|
  {
    seq(|apps|, i requires 0 <= i < |apps| => if i < n then Emptied(apps[i], workspace) else apps[i])
  }

  lemma EmptiedNext(apps: seq<App>, workspace: int, n: nat)
    requires n < |apps|
    ensures EmptiedTo(apps, workspace, n)[n] == apps[n]
    ensures EmptiedTo(apps, workspace, n + 1) == EmptiedTo(apps, workspace, n)[n := Emptied(apps[n], workspace)]
  {
  }

  /** The apps on the screen, in order. */
  ghost function Visible(apps: seq<App>, workspace: int): (v: seq<nat>)
    ensures |v| <= |apps|
    ensures forall k :: 0 <= k < |v| ==> v[k] < |apps| && OnScreen(apps[v[k]], workspace)
  {
    if apps == [] then []
    else
      var n := |apps| - 1;
      var rest := Visible(apps[..n], workspace);
      if OnScreen(apps[n], workspace) then rest + [n] else rest
  }

  /** In order, and all of them. */
  lemma {:induction false} VisibleIs(apps: seq<App>, workspace: int)
    ensures var v := Visible(apps, workspace);
            (forall j, k {:trigger v[j], v[k]} :: 0 <= j < k < |v| ==> v[j] < v[k]) &&
            (forall i :: 0 <= i < |apps| && OnScreen(apps[i], workspace) ==> i in v)
  {
    if apps != [] {
      var n := |apps| - 1;
      VisibleIs(apps[..n], workspace);
      assert forall i :: 0 <= i < n ==> apps[..n][i] == apps[i];
    }
  }

  lemma VisibleNext(apps: seq<App>, workspace: int, n: nat)
    requires n < |apps|
    ensures Visible(apps[..n + 1], workspace) ==
              Visible(apps[..n], workspace) + (if OnScreen(apps[n], workspace) then [n] else [])
  {
    assert apps[..n + 1][..n] == apps[..n];
  }

  /** A new window on top is where the app that made it looks. */
  lemma PlacedAdded(order: seq<Window>, apps: seq<App>, place: seq<nat>, w: Window, a: App)
    requires Placed(order, apps, place) && Apart(place) && Place(order, w.id) == -1 && a.id == w.id
    ensures Placed(order + [w], apps + [a], place + [|order|]) && Apart(place + [|order|])
  {
    var all := order + [w];
    assert all[..|order|] == order;
    forall i | 0 <= i < |apps| + 1 ensures Place(all, (apps + [a])[i].id) == (place + [|order|])[i] {
      if i < |apps| { assert order[place[i]].id == apps[i].id; }
    }
  }

  // ----- geometry

  function ToUint32(v: int): nat { v % 0x1_0000_0000 }

  function ToInt32(v: int): int { (v + 0x8000_0000) % 0x1_0000_0000 - 0x8000_0000 }

  function GeometryOf(t: Tile.Area): Geometry {
    Geometry(ToInt32(t.x), ToInt32(t.y), ToUint32(t.width), ToUint32(t.height))
  }

  /** `shell_client_area`: inside the border and under the title. */
  function ClientArea(width: int, height: int, border: int): Tile.Area {
    var b := Tile.Floor0(border);
    Tile.MakeArea(b, b + TITLE_HEIGHT, width - 2 * b, height - 2 * b - TITLE_HEIGHT)
  }

  function ClientOf(frame: Surface, t: Tile.Area, border: int): Surface {
    var c := ClientArea(t.width, t.height, border);
    View(frame, c.x, c.y, ToUint32(c.width), ToUint32(c.height))
  }

  /** The inside of a frame is what the border and the title over it leave, and its pixels
      are the frame's. */
  lemma ClientMeans(frame: Surface, t: Tile.Area, border: int, i: nat, j: nat)
    requires frame.Valid() && frame.Backed() && 0 < t.width == frame.width < 0x1_0000_0000
    requires 0 < t.height == frame.height < 0x1_0000_0000
    ensures var c, b := ClientOf(frame, t, border), if border > 0 then border else 0;
            && (c.Valid() <==> t.width - b > b && t.height - b > b + 18)
            && (c.Valid() ==> c.width == t.width - b - b && c.height == t.height - b - b - 18)
            && (c.Valid() && i < c.width && j < c.height ==> c.Backed() && c.At(i, j) == frame.At(b + i, b + 18 + j))
  {
    var c := ClientArea(t.width, t.height, border);
    if ClientOf(frame, t, border).Valid() { ViewShares(frame, c.x, c.y, c.width, c.height, i, j); }
  }

  /** A tile on a screen of the sizes there are keeps its place and its size as geometry. */
  lemma GeometryMeans(t: Tile.Area)
    requires -0x8000_0000 <= t.x < 0x8000_0000 && -0x8000_0000 <= t.y < 0x8000_0000
    requires 0 <= t.width < 0x1_0000_0000 && 0 <= t.height < 0x1_0000_0000
    ensures GeometryOf(t) == Geometry(t.x, t.y, t.width, t.height)
  {
  }

  /** The slice a tile gets: it starts where the one before it ended. */
  function FrameOf(arena: array<Colour>, capacity: nat, tiles: seq<Tile.Area>, k: nat): Surface
    requires k < |tiles|
  {
    var start, g := Tile.Taken(tiles, k), GeometryOf(tiles[k]);
    if 0 <= start <= capacity then Init(arena, start, capacity - start, g.width, g.height) else NOTHING
  }

  /** A window and an app with their tile. */
  function HandedWindow(w: Window, t: Tile.Area, frame: Surface): Window {
    w.(geometry := GeometryOf(t), picture := Attached(frame))
  }

  function HandedApp(a: App, t: Tile.Area, frame: Surface, border: int): App {
    a.(frame := frame, client := ClientOf(frame, t, border))
  }

  /** A window and an app whose tile was refused, with the frame it would have had. The
      geometry is set first, then the room is looked at, then the frame is set and then the
      inside of it; what comes after a refusal is left alone. */
  function StuckWindow(w: Window, t: Tile.Area): Window {
    if Fits(GeometryOf(t)) then w.(geometry := GeometryOf(t)) else w
  }

  function StuckApp(a: App, t: Tile.Area, room: int, frame: Surface): App {
    if !Fits(GeometryOf(t)) || Tile.Pixels(t) > room then a
    else if frame.Valid() then a.(frame := frame, client := NOTHING)
    else a.(frame := NOTHING)
  }

  ghost function FramesOf(arena: array<Colour>, capacity: nat, tiles: seq<Tile.Area>): (f: seq<Surface>)
    ensures |f| == |tiles|
  {
    seq(|tiles|, k requires 0 <= k < |tiles| => FrameOf(arena, capacity, tiles, k))
  }

  // ----- the window order

  /** Every app's window is where `place` says. */
  ghost predicate Placed(order: seq<Window>, apps: seq<App>, place: seq<nat>) {
    |place| == |apps| && forall i :: 0 <= i < |apps| ==> place[i] < |order| && Place(order, apps[i].id) == place[i]
  }

  /** No two apps have one window. */
  ghost predicate Apart(place: seq<nat>) {
    forall i, j {:trigger place[i], place[j]} :: 0 <= i < j < |place| ==> place[i] != place[j]
  }

  /** Where the windows of the apps `v` are. */
  ghost function PlacesOf(place: seq<nat>, v: seq<nat>): (at: seq<nat>)
    requires forall k :: 0 <= k < |v| ==> v[k] < |place|
    ensures |at| == |v|
  {
    seq(|v|, k requires 0 <= k < |v| => place[v[k]])
  }

  lemma PlacesApart(place: seq<nat>, v: seq<nat>)
    requires Apart(place) && forall k :: 0 <= k < |v| ==> v[k] < |place|
    requires forall j, k {:trigger v[j], v[k]} :: 0 <= j < k < |v| ==> v[j] < v[k]
    ensures Apart(v) && Apart(PlacesOf(place, v))
  {
  }

  ghost predicate SameWindows(a: seq<Window>, b: seq<Window>) {
    |a| == |b| && forall z :: 0 <= z < |a| ==> a[z].id == b[z].id && a[z].focused == b[z].focused
  }

  lemma StillPlaced(a: seq<Window>, b: seq<Window>, apps: seq<App>, now: seq<App>, place: seq<nat>)
    requires Placed(a, apps, place) && SameWindows(a, b)
    requires |now| == |apps| && forall i :: 0 <= i < |apps| ==> now[i].id == apps[i].id
    ensures Placed(b, now, place)
  {
    forall i | 0 <= i < |apps| ensures place[i] < |b| && Place(b, now[i].id) == place[i] {
      SameIds(a, b, apps[i].id);
    }
  }

  /** The first `n` apps' windows with nothing attached, and drawn only if on the screen. */
  ghost function Cleared(order: seq<Window>, place: seq<nat>, shown: seq<bool>, n: nat): (s: seq<Window>)
    requires n <= |place| == |shown| && forall i :: 0 <= i < |place| ==> place[i] < |order|
    ensures SameWindows(order, s) && forall z :: 0 <= z < |s| ==> s[z].geometry == order[z].geometry
  {
    if n == 0 then order
    else
      var rest := Cleared(order, place, shown, n - 1);
      var z := place[n - 1];
      rest[z := rest[z].(picture := Detached, minimized := !shown[n - 1])]
  }

  lemma {:induction false} ClearedAt(order: seq<Window>, place: seq<nat>, shown: seq<bool>, n: nat, i: nat)
    requires i < n <= |place| == |shown| && Apart(place) && forall j :: 0 <= j < |place| ==> place[j] < |order|
    ensures Cleared(order, place, shown, n)[place[i]].picture == Detached
    ensures Cleared(order, place, shown, n)[place[i]].minimized == !shown[i]
  {
    if i < n - 1 { ClearedAt(order, place, shown, n - 1, i); }
  }

  /** One more window cleared. */
  lemma ClearedNext(order: seq<Window>, place: seq<nat>, shown: seq<bool>, n: nat)
    requires n < |place| == |shown| && forall i :: 0 <= i < |place| ==> place[i] < |order|
    ensures var was := Cleared(order, place, shown, n);
            Cleared(order, place, shown, n + 1) == was[place[n] := was[place[n]].(picture := Detached, minimized := !shown[n])]
  {
  }

  /** The first `n` tiles given to their windows. */
  ghost function Given(order: seq<Window>, at: seq<nat>, tiles: seq<Tile.Area>, frames: seq<Surface>,
                       n: nat): (s: seq<Window>)
    requires n <= |at| && |at| <= |tiles| && n <= |frames| && forall i :: 0 <= i < |at| ==> at[i] < |order|
    ensures SameWindows(order, s)
    ensures forall z :: 0 <= z < |s| ==> s[z].minimized == order[z].minimized
  {
    if n == 0 then order
    else
      var rest := Given(order, at, tiles, frames, n - 1);
      var z := at[n - 1];
      rest[z := rest[z].(geometry := GeometryOf(tiles[n - 1]), picture := Attached(frames[n - 1]))]
  }

  lemma {:induction false} GivenAt(order: seq<Window>, at: seq<nat>, tiles: seq<Tile.Area>, frames: seq<Surface>,
                                   n: nat, k: nat)
    requires k < n <= |at| && |at| <= |tiles| && n <= |frames|
    requires Apart(at) && forall i :: 0 <= i < |at| ==> at[i] < |order|
    ensures Given(order, at, tiles, frames, n)[at[k]].geometry == GeometryOf(tiles[k])
    ensures Given(order, at, tiles, frames, n)[at[k]].picture == Attached(frames[k])
  {
    if k < n - 1 { GivenAt(order, at, tiles, frames, n - 1, k); }
  }

  lemma {:induction false} GivenElsewhere(order: seq<Window>, at: seq<nat>, tiles: seq<Tile.Area>,
                                          frames: seq<Surface>, n: nat, z: nat)
    requires n <= |at| && |at| <= |tiles| && n <= |frames| && z < |order|
    requires forall i :: 0 <= i < |at| ==> at[i] < |order|
    requires forall i :: 0 <= i < n ==> at[i] != z
    ensures Given(order, at, tiles, frames, n)[z] == order[z]
  {
    if n > 0 { GivenElsewhere(order, at, tiles, frames, n - 1, z); }
  }

  lemma GivenNext(order: seq<Window>, at: seq<nat>, tiles: seq<Tile.Area>, frames: seq<Surface>, n: nat)
    requires n < |at| <= |tiles| && n < |frames| && Apart(at) && forall i :: 0 <= i < |at| ==> at[i] < |order|
    ensures var was := Given(order, at, tiles, frames, n);
            was[at[n]] == order[at[n]] &&
            Given(order, at, tiles, frames, n + 1) ==
              was[at[n] := was[at[n]].(geometry := GeometryOf(tiles[n]), picture := Attached(frames[n]))]
  {
    GivenElsewhere(order, at, tiles, frames, n, at[n]);
  }

  /** The first `n` apps of `v` with their frames and the insides of them. */
  ghost function Framed(apps: seq<App>, v: seq<nat>, tiles: seq<Tile.Area>, frames: seq<Surface>, border: int,
                        n: nat): (s: seq<App>)
    requires n <= |v| && |v| == |tiles| == |frames| && forall k :: 0 <= k < |v| ==> v[k] < |apps|
    ensures |s| == |apps| && forall i :: 0 <= i < |s| ==> s[i].id == apps[i].id && OnScreen(s[i], apps[i].workspace) == !apps[i].hidden
    ensures forall i :: 0 <= i < |s| ==> s[i].workspace == apps[i].workspace
  {
    if n == 0 then apps
    else
      var rest := Framed(apps, v, tiles, frames, border, n - 1);
      var i := v[n - 1];
      rest[i := rest[i].(frame := frames[n - 1], client := ClientOf(frames[n - 1], tiles[n - 1], border))]
  }

  lemma {:induction false} FramedAt(apps: seq<App>, v: seq<nat>, tiles: seq<Tile.Area>, frames: seq<Surface>,
                                    border: int, n: nat, i: nat)
    requires n <= |v| && |v| == |tiles| == |frames| && i < |apps| && Apart(v) && forall k :: 0 <= k < |v| ==> v[k] < |apps|
    ensures (forall k :: 0 <= k < n ==> v[k] != i) ==> Framed(apps, v, tiles, frames, border, n)[i] == apps[i]
    ensures forall k :: 0 <= k < n && v[k] == i ==>
              Framed(apps, v, tiles, frames, border, n)[i].frame == frames[k] &&
              Framed(apps, v, tiles, frames, border, n)[i].client == ClientOf(frames[k], tiles[k], border)
  {
    if n > 0 { FramedAt(apps, v, tiles, frames, border, n - 1, i); }
  }

  // ----- handing out

  /** Whether tile `k` is a size the window table takes, the arena reaches to its end, and
      the border and title leave something inside it. */
  predicate CanHand(arena: array<Colour>, capacity: nat, border: int, tiles: seq<Tile.Area>, k: nat) {
    k < |tiles| && Fits(GeometryOf(tiles[k])) && Tile.Taken(tiles, k + 1) <= capacity &&
    FrameOf(arena, capacity, tiles, k).Valid() && ClientOf(FrameOf(arena, capacity, tiles, k), tiles[k], border).Valid()
  }

  /** What handing out is about: the order and the apps before it, where the visible apps'
      windows are, and their tiles. */
  datatype Plan = Plan(arena: array<Colour>, capacity: nat, border: int, before: seq<Window>, was: seq<App>,
                       place: seq<nat>, v: seq<nat>, tiles: seq<Tile.Area>) {

    /** The plan holds together. Kept behind `Open`. */
    ghost predicate Ready() {
      forall u {:trigger Common.Asked(u)} :: Common.Asked(u) ==> Parts()
    }

    ghost predicate Parts() {
      && Placed(before, was, place) && |v| == |tiles|
      && (forall k :: 0 <= k < |v| ==> v[k] < |place|)
      && Apart(v) && Apart(PlacesOf(place, v))
      && (forall k :: 0 <= k < |v| ==> before[place[v[k]]].picture == Detached)
      && (forall k :: 0 <= k < |v| ==> tiles[k].width >= 0 && tiles[k].height >= 0)
    }

    ghost function At(): seq<nat>
      requires Ready()
    {
      assert Common.Asked(0);
      PlacesOf(place, v)
    }

    ghost function Frames(): seq<Surface> { FramesOf(arena, capacity, tiles) }

    /** The first `k` apps have their tiles, which took `taken` pixels. */
    ghost predicate Handed(k: nat, taken: nat, order: seq<Window>, apps: seq<App>) {
      Ready() && forall u {:trigger Common.Asked(u)} :: Common.Asked(u) ==>
        k <= |v| && taken == Tile.Taken(tiles, k) <= capacity &&
        order == Given(before, At(), tiles, Frames(), k) && apps == Framed(was, v, tiles, Frames(), border, k)
    }

    /** The first `k` apps had their tiles and the next was refused its own. */
    ghost predicate Stuck(k: nat, taken: nat, order: seq<Window>, apps: seq<App>, after: seq<Window>, now: seq<App>) {
      Handed(k, taken, order, apps) && k < |v| && k < |tiles| && v[k] < |apps| && v[k] < |place| && place[v[k]] < |order| &&
      after == order[place[v[k]] := StuckWindow(order[place[v[k]]], tiles[k])] &&
      now == apps[v[k] := StuckApp(apps[v[k]], tiles[k], capacity - taken, FrameOf(arena, capacity, tiles, k))]
    }

    /** The first `k` can have their tiles. */
    ghost predicate CanAll(k: nat) {
      forall u {:trigger Common.Asked(u)} :: Common.Asked(u) ==>
        forall j {:trigger CanHand(arena, capacity, border, tiles, j)} :: 0 <= j < k ==> CanHand(arena, capacity, border, tiles, j)
    }

    /** One more, or none of a longer run. */
    lemma CanNext(k: nat, n: nat)
      requires CanAll(k) && k < n
      ensures CanAll(k + 1) <==> CanHand(arena, capacity, border, tiles, k)
      ensures CanAll(n) ==> CanAll(k + 1)
    {
      assert Common.Asked(0);
    }

    lemma CanAllSays(n: nat)
      ensures CanAll(n) <==> forall k :: 0 <= k < n ==> CanHand(arena, capacity, border, tiles, k)
    {
      assert Common.Asked(0);
    }

    lemma Start()
      requires Ready()
      ensures Handed(0, 0, before, was) && CanAll(0)
    {
      assert Common.Asked(0);
    }

    /** Where the next tile goes. */
    lemma Here(k: nat, taken: nat, order: seq<Window>, apps: seq<App>) returns (z: nat)
      requires Handed(k, taken, order, apps) && k < |v| && k < |tiles|
      ensures v[k] < |apps| && z < |order| && Place(order, apps[v[k]].id) == z && order[z].picture == Detached
      ensures Ready() && z == At()[k] && taken <= capacity && tiles[k].width >= 0 && tiles[k].height >= 0
      ensures FrameOf(arena, capacity, tiles, k) ==
                Init(arena, taken, capacity - taken, GeometryOf(tiles[k]).width, GeometryOf(tiles[k]).height)
      ensures Tile.Taken(tiles, k + 1) == taken + Tile.Pixels(tiles[k]) && Tile.Pixels(tiles[k]) >= 0
    {
      assert Common.Asked(0);
      GivenNext(before, At(), tiles, Frames(), k);
      StillPlaced(before, order, was, apps, place);
      Tile.Wider(0, tiles[k].width, tiles[k].height);
      z := At()[k];
    }

    /** The next tile refused. */
    lemma Stop(k: nat, taken: nat, order: seq<Window>, apps: seq<App>, z: nat, after: seq<Window>, now: seq<App>)
      requires Handed(k, taken, order, apps) && k < |v| && k < |tiles| && v[k] < |apps| && z < |order|
      requires Ready() && z == At()[k]
      requires after == order[z := StuckWindow(order[z], tiles[k])]
      requires now == apps[v[k] := StuckApp(apps[v[k]], tiles[k], capacity - taken, FrameOf(arena, capacity, tiles, k))]
      ensures Stuck(k, taken, order, apps, after, now)
    {
      assert Common.Asked(0);
    }

    /** The next tile handed out. */
    lemma Next(k: nat, taken: nat, order: seq<Window>, apps: seq<App>, z: nat, after: seq<Window>, now: seq<App>)
      requires Handed(k, taken, order, apps) && k < |v| && k < |tiles| && v[k] < |apps| && z < |order|
      requires Ready() && z == At()[k] && CanHand(arena, capacity, border, tiles, k)
      requires after == order[z := HandedWindow(order[z], tiles[k], FrameOf(arena, capacity, tiles, k))]
      requires now == apps[v[k] := HandedApp(apps[v[k]], tiles[k], FrameOf(arena, capacity, tiles, k), border)]
      ensures Handed(k + 1, taken + Tile.Pixels(tiles[k]), after, now)
    {
      assert Common.Asked(0);
      GivenNext(before, At(), tiles, Frames(), k);
    }
  }

  /** Clearing moves no window. */
  lemma ClearedPlaced(order: seq<Window>, apps: seq<App>, workspace: int, place: seq<nat>)
    requires Placed(order, apps, place)
    ensures Placed(Cleared(order, place, Marks(apps, workspace), |apps|), EmptiedTo(apps, workspace, |apps|), place)
  {
    StillPlaced(order, Cleared(order, place, Marks(apps, workspace), |apps|), apps, EmptiedTo(apps, workspace, |apps|), place);
  }

  /** Clearing leaves a plan that can be carried out. */
  lemma ClearedIsReady(order: seq<Window>, apps: seq<App>, workspace: int, p: Plan)
    requires Placed(order, apps, p.place) && Apart(p.place)
    requires p.before == Cleared(order, p.place, Marks(apps, workspace), |apps|)
    requires p.was == EmptiedTo(apps, workspace, |apps|)
    requires p.v == Visible(apps, workspace) && |p.v| == |p.tiles|
    requires forall k :: 0 <= k < |p.v| ==> p.tiles[k].width >= 0 && p.tiles[k].height >= 0
    ensures p.Ready()
  {
    StillPlaced(order, p.before, apps, p.was, p.place);
    VisibleIs(apps, workspace);
    PlacesApart(p.place, p.v);
    forall k | 0 <= k < |p.v| ensures p.before[p.place[p.v[k]]].picture == Detached {
      ClearedAt(order, p.place, Marks(apps, workspace), |apps|, p.v[k]);
    }
  }

  // ----- a desktop laid out

  ghost function TilesOf(c: Tile.Config, screenWidth: int, screenHeight: int, n: nat): (t: seq<Tile.Area>)
    ensures |t| == n
  {
    seq(n, i requires 0 <= i < n => Tile.TileOf(Tile.Floored(c), Tile.Workspace(c, screenWidth, screenHeight), n, i))
  }

  /** The window of an app that is not on the screen, and the app. */
  predicate PutAway(a: App, w: Window) {
    a.frame == NOTHING && a.client == NOTHING && w.minimized && w.picture == Detached
  }

  /** The window of the app that has tile `k`, and the app. */
  predicate Shown(a: App, w: Window, arena: array<Colour>, capacity: nat, tiles: seq<Tile.Area>, k: nat, border: int) {
    k < |tiles| && w.geometry == GeometryOf(tiles[k]) && w.picture == Attached(a.frame) && !w.minimized &&
    a.frame == FrameOf(arena, capacity, tiles, k) && a.frame.Valid() &&
    a.client == ClientOf(a.frame, tiles[k], border) && a.client.Valid()
  }

  /** Every app on the screen has its tile, in order, and every other is put away. */
  ghost predicate LaidOut(order: seq<Window>, apps: seq<App>, place: seq<nat>, workspace: int,
                          arena: array<Colour>, capacity: nat, tiles: seq<Tile.Area>, border: int) {
    var v := Visible(apps, workspace);
    Placed(order, apps, place) && |v| == |tiles| &&
    (forall k :: 0 <= k < |v| ==> Shown(apps[v[k]], order[place[v[k]]], arena, capacity, tiles, k, border)) &&
    (forall i :: 0 <= i < |apps| && !OnScreen(apps[i], workspace) ==> PutAway(apps[i], order[place[i]]))
  }

  /** The keyboard goes to an app on the screen, when there is one. */
  ghost predicate FocusSeen(order: seq<Window>, apps: seq<App>, place: seq<nat>, workspace: int)
    requires Placed(order, apps, place)
  {
    Visible(apps, workspace) == [] ||
    exists i :: 0 <= i < |apps| && OnScreen(apps[i], workspace) && order[place[i]].focused
  }

  lemma {:induction false} SameVisible(apps: seq<App>, now: seq<App>, workspace: int)
    requires |apps| == |now|
    requires forall i :: 0 <= i < |apps| ==> OnScreen(now[i], workspace) == OnScreen(apps[i], workspace)
    ensures Visible(now, workspace) == Visible(apps, workspace)
  {
    if apps != [] { SameVisible(apps[..|apps| - 1], now[..|apps| - 1], workspace); }
  }

  /** The windows and apps the two loops were given, and what they left when `n` tiles had
      been handed out. */
  ghost predicate Looped(order: seq<Window>, apps: seq<App>, p: Plan, workspace: int, n: nat, after: seq<Window>,
                         now: seq<App>) {
    p.Ready() && forall u {:trigger Common.Asked(u)} :: Common.Asked(u) ==>
      p.Parts() && Placed(order, apps, p.place) && Apart(p.place) &&
      p.before == Cleared(order, p.place, Marks(apps, workspace), |apps|) &&
      p.was == EmptiedTo(apps, workspace, |apps|) && p.v == Visible(apps, workspace) &&
      n <= |p.v| && after == Given(p.before, p.At(), p.tiles, p.Frames(), n) &&
      now == Framed(p.was, p.v, p.tiles, p.Frames(), p.border, n)
  }

  /** What the loops have done so far. */
  lemma HandedIsLooped(order: seq<Window>, apps: seq<App>, p: Plan, workspace: int, n: nat, taken: nat,
                       after: seq<Window>, now: seq<App>)
    requires Placed(order, apps, p.place) && Apart(p.place) && p.Handed(n, taken, after, now)
    requires p.before == Cleared(order, p.place, Marks(apps, workspace), |apps|)
    requires p.was == EmptiedTo(apps, workspace, |apps|) && p.v == Visible(apps, workspace)
    ensures Looped(order, apps, p, workspace, n, after, now) && n <= |p.tiles| && taken == Tile.Taken(p.tiles, n)
  {
    assert Common.Asked(0);
  }

  /** The window of the app with tile `k`. */
  lemma LoopsDress(order: seq<Window>, apps: seq<App>, p: Plan, workspace: int, n: nat, after: seq<Window>,
                   now: seq<App>, k: nat)
    requires Looped(order, apps, p, workspace, n, after, now) && k < n
    requires |p.v| == |p.tiles| && n <= |p.v| && p.v[k] < |apps| == |p.place| && p.place[p.v[k]] < |after|
    ensures after[p.place[p.v[k]]].geometry == GeometryOf(p.tiles[k])
    ensures after[p.place[p.v[k]]].picture == Attached(FrameOf(p.arena, p.capacity, p.tiles, k))
    ensures !after[p.place[p.v[k]]].minimized
  {
    assert Common.Asked(0);
    var i, z := p.v[k], p.place[p.v[k]];
    assert p.At()[k] == z && p.Frames()[k] == FrameOf(p.arena, p.capacity, p.tiles, k);
    assert !after[z].minimized by { ClearedAt(order, p.place, Marks(apps, workspace), |apps|, i); }
    GivenAt(p.before, p.At(), p.tiles, p.Frames(), n, k);
  }

  lemma LoopsShow(order: seq<Window>, apps: seq<App>, p: Plan, workspace: int, n: nat, after: seq<Window>,
                  now: seq<App>, k: nat)
    requires Looped(order, apps, p, workspace, n, after, now) && k < n && n <= |p.v| &&
             CanHand(p.arena, p.capacity, p.border, p.tiles, k)
    requires |p.v| == |p.tiles| && p.v[k] < |apps| == |now| == |p.place| && p.place[p.v[k]] < |after| == |order|
    ensures Shown(now[p.v[k]], after[p.place[p.v[k]]], p.arena, p.capacity, p.tiles, k, p.border)
  {
    LoopsDress(order, apps, p, workspace, n, after, now, k);
    assert Common.Asked(0);
    FramedAt(p.was, p.v, p.tiles, p.Frames(), p.border, n, p.v[k]);
  }

  /** A window on the screen that has no tile yet, and the app, which has what it had. */
  predicate Waiting(a: App, w: Window, had: App, g: Geometry) {
    a == had && w.geometry == g && w.picture == Detached && !w.minimized
  }

  /** No window is handed to those that come later. */
  lemma LoopsSkip(order: seq<Window>, apps: seq<App>, p: Plan, workspace: int, n: nat, after: seq<Window>,
                  now: seq<App>, k: nat)
    requires Looped(order, apps, p, workspace, n, after, now) && n <= k < |p.v|
    requires p.v[k] < |apps| == |p.place| && p.place[p.v[k]] < |after| == |order|
    ensures var w := after[p.place[p.v[k]]];
            w.geometry == order[p.place[p.v[k]]].geometry && w.picture == Detached && !w.minimized
  {
    assert Common.Asked(0);
    var i := p.v[k];
    assert p.At()[k] == p.place[i];
    GivenElsewhere(p.before, p.At(), p.tiles, p.Frames(), n, p.place[i]);
    ClearedAt(order, p.place, Marks(apps, workspace), |apps|, i);
  }

  /** Nothing at all is. */
  lemma LoopsLeave(order: seq<Window>, apps: seq<App>, p: Plan, workspace: int, n: nat, after: seq<Window>,
                   now: seq<App>, k: nat)
    requires Looped(order, apps, p, workspace, n, after, now) && n <= k < |p.v|
    requires |p.v| == |p.tiles| && p.v[k] < |apps| == |now| == |p.place| && p.place[p.v[k]] < |after| == |order|
    ensures Waiting(now[p.v[k]], after[p.place[p.v[k]]], apps[p.v[k]], order[p.place[p.v[k]]].geometry)
  {
    LoopsSkip(order, apps, p, workspace, n, after, now, k);
    assert Common.Asked(0);
    FramedAt(p.was, p.v, p.tiles, p.Frames(), p.border, n, p.v[k]);
  }

  /** No app on the screen has the place of one that is not. */
  lemma OtherPlaces(apps: seq<App>, place: seq<nat>, workspace: int, i: nat)
    requires |place| == |apps| && Apart(place) && i < |apps| && !OnScreen(apps[i], workspace)
    ensures forall k :: 0 <= k < |Visible(apps, workspace)| ==> Visible(apps, workspace)[k] < |apps|
    ensures var v := Visible(apps, workspace);
            forall k :: 0 <= k < |v| ==> v[k] != i && PlacesOf(place, v)[k] != place[i]
  {
    VisibleIs(apps, workspace);
    var v := Visible(apps, workspace);
    forall k | 0 <= k < |v| ensures v[k] != i && PlacesOf(place, v)[k] != place[i] {
      assert OnScreen(apps[v[k]], workspace);
      assert v[k] < i ==> place[v[k]] != place[i];
      assert i < v[k] ==> place[i] != place[v[k]];
    }
  }

  lemma LoopsMiss(order: seq<Window>, apps: seq<App>, p: Plan, workspace: int, n: nat, after: seq<Window>,
                  now: seq<App>, i: nat)
    requires Looped(order, apps, p, workspace, n, after, now) && i < |apps| && !OnScreen(apps[i], workspace)
    requires |apps| == |p.place|
    ensures n <= |p.v| == |p.At()| && forall k :: 0 <= k < |p.v| ==> p.v[k] != i && p.At()[k] != p.place[i]
  {
    LoopsKeep(order, apps, p, workspace, n, after, now);
    assert Apart(p.place) by { assert Common.Asked(0); }
    OtherPlaces(apps, p.place, workspace, i);
  }

  /** No tile goes to the window of an app that is off the screen. */
  lemma LoopsPass(order: seq<Window>, apps: seq<App>, p: Plan, workspace: int, n: nat, after: seq<Window>,
                  now: seq<App>, i: nat)
    requires Looped(order, apps, p, workspace, n, after, now) && i < |apps| && !OnScreen(apps[i], workspace)
    requires |apps| == |p.place| && p.place[i] < |after|
    ensures p.place[i] < |p.before| && after[p.place[i]] == p.before[p.place[i]]
  {
    LoopsMiss(order, apps, p, workspace, n, after, now, i);
    assert Common.Asked(0);
    GivenElsewhere(p.before, p.At(), p.tiles, p.Frames(), n, p.place[i]);
  }

  lemma LoopsHide(order: seq<Window>, apps: seq<App>, p: Plan, workspace: int, n: nat, after: seq<Window>,
                  now: seq<App>, i: nat)
    requires Looped(order, apps, p, workspace, n, after, now) && i < |apps| == |p.place| && p.place[i] < |p.before|
    ensures p.before[p.place[i]].picture == Detached && p.before[p.place[i]].minimized == !OnScreen(apps[i], workspace)
  {
    assert Common.Asked(0);
    ClearedAt(order, p.place, Marks(apps, workspace), |apps|, i);
  }

  lemma LoopsPutAway(order: seq<Window>, apps: seq<App>, p: Plan, workspace: int, n: nat, after: seq<Window>,
                     now: seq<App>, i: nat)
    requires Looped(order, apps, p, workspace, n, after, now) && i < |apps| && !OnScreen(apps[i], workspace)
    requires |apps| == |now| == |p.place| && p.place[i] < |after|
    ensures PutAway(now[i], after[p.place[i]])
  {
    LoopsMiss(order, apps, p, workspace, n, after, now, i);
    LoopsPass(order, apps, p, workspace, n, after, now, i);
    LoopsHide(order, apps, p, workspace, n, after, now, i);
    assert Common.Asked(0);
    FramedAt(p.was, p.v, p.tiles, p.Frames(), p.border, n, i);
  }

  lemma LoopsKeep(order: seq<Window>, apps: seq<App>, p: Plan, workspace: int, n: nat, after: seq<Window>,
                  now: seq<App>)
    requires Looped(order, apps, p, workspace, n, after, now)
    ensures Placed(after, now, p.place) && SameWindows(order, after)
    ensures |now| == |apps| && forall i :: 0 <= i < |apps| ==> OnScreen(now[i], workspace) == OnScreen(apps[i], workspace)
    ensures p.v == Visible(apps, workspace) && Placed(order, apps, p.place) && |p.v| == |p.tiles| && n <= |p.v|
    ensures Visible(now, workspace) == p.v
  {
    assert Common.Asked(0);
    StillPlaced(order, after, apps, now, p.place);
    SameVisible(apps, now, workspace);
  }

  /** The first `n` apps on the screen have their tiles, in order, the others on the screen
      wait with what they had, and the rest are put away. */
  ghost predicate Partly(before: seq<Window>, was: seq<App>, order: seq<Window>, apps: seq<App>, place: seq<nat>,
                         workspace: int, arena: array<Colour>, capacity: nat, tiles: seq<Tile.Area>, border: int,
                         n: nat) {
    var v := Visible(was, workspace);
    Placed(before, was, place) && Placed(order, apps, place) && SameWindows(before, order) && n <= |v| == |tiles| &&
    (forall k :: 0 <= k < n ==> Shown(apps[v[k]], order[place[v[k]]], arena, capacity, tiles, k, border)) &&
    (forall k :: n <= k < |v| ==> Waiting(apps[v[k]], order[place[v[k]]], was[v[k]], before[place[v[k]]].geometry)) &&
    (forall i :: 0 <= i < |was| && !OnScreen(was[i], workspace) ==> PutAway(apps[i], order[place[i]]))
  }

  /** The two loops, with `n` tiles handed out. */
  lemma LoopsPartly(order: seq<Window>, apps: seq<App>, p: Plan, workspace: int, n: nat, after: seq<Window>,
                    now: seq<App>)
    requires Looped(order, apps, p, workspace, n, after, now)
    requires forall k :: 0 <= k < n ==> CanHand(p.arena, p.capacity, p.border, p.tiles, k)
    ensures Partly(order, apps, after, now, p.place, workspace, p.arena, p.capacity, p.tiles, p.border, n)
    ensures Visible(now, workspace) == p.v
  {
    LoopsKeep(order, apps, p, workspace, n, after, now);
    forall k | 0 <= k < n
      ensures Shown(now[p.v[k]], after[p.place[p.v[k]]], p.arena, p.capacity, p.tiles, k, p.border)
    {
      LoopsShow(order, apps, p, workspace, n, after, now, k);
    }
    forall k | n <= k < |p.v|
      ensures Waiting(now[p.v[k]], after[p.place[p.v[k]]], apps[p.v[k]], order[p.place[p.v[k]]].geometry)
    {
      LoopsLeave(order, apps, p, workspace, n, after, now, k);
    }
    forall i | 0 <= i < |apps| && !OnScreen(apps[i], workspace) ensures PutAway(now[i], after[p.place[i]]) {
      LoopsPutAway(order, apps, p, workspace, n, after, now, i);
    }
  }

  /** The two loops together lay the desktop out. */
  lemma LoopsLayOut(order: seq<Window>, apps: seq<App>, p: Plan, workspace: int, after: seq<Window>, now: seq<App>)
    requires Looped(order, apps, p, workspace, |p.v|, after, now)
    requires forall k :: 0 <= k < |p.v| ==> CanHand(p.arena, p.capacity, p.border, p.tiles, k)
    ensures LaidOut(after, now, p.place, workspace, p.arena, p.capacity, p.tiles, p.border)
    ensures SameWindows(order, after) && Visible(now, workspace) == p.v
  {
    LoopsKeep(order, apps, p, workspace, |p.v|, after, now);
    LoopsPartly(order, apps, p, workspace, |p.v|, after, now);
  }

  /** The window whose tile was refused, and the app. */
  predicate Refused(a: App, w: Window, had: App, g: Geometry, t: Tile.Area, room: int, frame: Surface) {
    w.geometry == (if Fits(GeometryOf(t)) then GeometryOf(t) else g) && w.picture == Detached && !w.minimized &&
    a == StuckApp(had, t, room, frame)
  }

  /** The layout stopped at tile `n`, the first that cannot be handed out: those before it
      are shown, that one is refused, those after it wait with what they had, and the apps
      that are off the screen are put away. */
  ghost predicate HalfLaid(before: seq<Window>, was: seq<App>, order: seq<Window>, apps: seq<App>, place: seq<nat>,
                           workspace: int, arena: array<Colour>, capacity: nat, tiles: seq<Tile.Area>, border: int,
                           n: nat) {
    var v := Visible(was, workspace);
    Placed(before, was, place) && Placed(order, apps, place) && n < |v| && |v| == |tiles| &&
    (forall k :: 0 <= k < n ==> CanHand(arena, capacity, border, tiles, k)) && !CanHand(arena, capacity, border, tiles, n) &&
    (forall k :: 0 <= k < n ==> Shown(apps[v[k]], order[place[v[k]]], arena, capacity, tiles, k, border)) &&
    Refused(apps[v[n]], order[place[v[n]]], was[v[n]], before[place[v[n]]].geometry, tiles[n],
            capacity - Tile.Taken(tiles, n), FrameOf(arena, capacity, tiles, n)) &&
    (forall k :: n < k < |v| ==> Waiting(apps[v[k]], order[place[v[k]]], was[v[k]], before[place[v[k]]].geometry)) &&
    (forall i :: 0 <= i < |was| && !OnScreen(was[i], workspace) ==> PutAway(apps[i], order[place[i]]))
  }

  /** No two apps on the screen have one window, nor one on it and one off it. */
  lemma VisibleApart(apps: seq<App>, place: seq<nat>, workspace: int, n: nat)
    requires |place| == |apps| && Apart(place) && n < |Visible(apps, workspace)|
    ensures var v := Visible(apps, workspace);
            (forall k :: 0 <= k < |v| && k != n ==> v[k] != v[n] && place[v[k]] != place[v[n]]) &&
            (forall i :: 0 <= i < |apps| && !OnScreen(apps[i], workspace) ==> i != v[n] && place[i] != place[v[n]])
  {
    var v := Visible(apps, workspace);
    VisibleIs(apps, workspace);
    forall k | 0 <= k < |v| && k != n ensures v[k] != v[n] && place[v[k]] != place[v[n]] {
      assert k < n ==> v[k] < v[n] && place[v[k]] != place[v[n]];
      assert n < k ==> v[n] < v[k] && place[v[n]] != place[v[k]];
    }
    forall i | 0 <= i < |apps| && !OnScreen(apps[i], workspace) ensures i != v[n] && place[i] != place[v[n]] {
      assert i < v[n] ==> place[i] != place[v[n]];
      assert v[n] < i ==> place[v[n]] != place[i];
    }
  }

  /** A refusal changes one window and one app, and moves none. */
  lemma StuckPlaced(order: seq<Window>, apps: seq<App>, place: seq<nat>, i: nat, w: Window, a: App)
    requires Placed(order, apps, place) && i < |apps| && a.id == apps[i].id
    requires w.id == order[place[i]].id && w.focused == order[place[i]].focused
    ensures Placed(order[place[i] := w], apps[i := a], place)
  {
    StillPlaced(order, order[place[i] := w], apps, apps[i := a], place);
  }

  /** A refusal leaves the layout half done. */
  lemma StoppedIsHalf(before: seq<Window>, was: seq<App>, order: seq<Window>, apps: seq<App>, place: seq<nat>,
                      workspace: int, arena: array<Colour>, capacity: nat, tiles: seq<Tile.Area>, border: int, n: nat,
                      after: seq<Window>, now: seq<App>)
    requires Partly(before, was, order, apps, place, workspace, arena, capacity, tiles, border, n) && Apart(place)
    requires n < |tiles| && !CanHand(arena, capacity, border, tiles, n)
    requires forall k :: 0 <= k < n ==> CanHand(arena, capacity, border, tiles, k)
    requires var i := Visible(was, workspace)[n];
             after == order[place[i] := StuckWindow(order[place[i]], tiles[n])] &&
             now == apps[i := StuckApp(apps[i], tiles[n], capacity - Tile.Taken(tiles, n), FrameOf(arena, capacity, tiles, n))]
    ensures HalfLaid(before, was, after, now, place, workspace, arena, capacity, tiles, border, n)
  {
    VisibleApart(was, place, workspace, n);
    var i := Visible(was, workspace)[n];
    StuckPlaced(order, apps, place, i, after[place[i]], now[i]);
  }

  /** A plan that stopped leaves the desktop half laid out. */
  lemma StuckIsHalf(order: seq<Window>, apps: seq<App>, p: Plan, workspace: int, n: nat, taken: nat,
                    mid: seq<Window>, half: seq<App>, after: seq<Window>, now: seq<App>)
    requires Looped(order, apps, p, workspace, n, mid, half) && Apart(p.place) && p.Stuck(n, taken, mid, half, after, now)
    requires n < |p.tiles| && taken == Tile.Taken(p.tiles, n)
    requires forall k :: 0 <= k < n ==> CanHand(p.arena, p.capacity, p.border, p.tiles, k)
    requires !CanHand(p.arena, p.capacity, p.border, p.tiles, n)
    ensures HalfLaid(order, apps, after, now, p.place, workspace, p.arena, p.capacity, p.tiles, p.border, n)
    ensures Visible(now, workspace) == Visible(apps, workspace)
  {
    LoopsKeep(order, apps, p, workspace, n, mid, half);
    LoopsPartly(order, apps, p, workspace, n, mid, half);
    StoppedIsHalf(order, apps, mid, half, p.place, workspace, p.arena, p.capacity, p.tiles, p.border, n, after, now);
    SameVisible(apps, now, workspace);
  }

  /** What handing out leaves, whether it finished or stopped at tile `n`. */
  lemma HandedOut(order: seq<Window>, apps: seq<App>, p: Plan, workspace: int, n: nat, taken: nat,
                  half: seq<Window>, framed: seq<App>, after: seq<Window>, now: seq<App>)
    requires Placed(order, apps, p.place) && Apart(p.place) && p.Handed(n, taken, half, framed) && p.CanAll(n)
    requires p.before == Cleared(order, p.place, Marks(apps, workspace), |apps|)
    requires p.was == EmptiedTo(apps, workspace, |apps|) && p.v == Visible(apps, workspace)
    requires if n == |p.v| then half == after && framed == now
             else n < |p.v| && !p.CanAll(n + 1) && p.Stuck(n, taken, half, framed, after, now)
    ensures n == |p.v| ==> LaidOut(after, now, p.place, workspace, p.arena, p.capacity, p.tiles, p.border)
    ensures n < |p.v| ==> HalfLaid(order, apps, after, now, p.place, workspace, p.arena, p.capacity, p.tiles, p.border, n)
    ensures Placed(after, now, p.place) && Visible(now, workspace) == Visible(apps, workspace)
    ensures n == |p.v| ==> SameWindows(order, after)
  {
    HandedIsLooped(order, apps, p, workspace, n, taken, half, framed);
    p.CanAllSays(n);
    p.CanNext(n, n + 1);
    if n == |p.v| {
      LoopsLayOut(order, apps, p, workspace, half, framed);
    } else {
      StuckIsHalf(order, apps, p, workspace, n, taken, half, framed, after, now);
    }
  }

  /** Moving the focus leaves the layout alone. */
  lemma FocusLeavesLayout(order: seq<Window>, id: nat, apps: seq<App>, place: seq<nat>, workspace: int,
                          arena: array<Colour>, capacity: nat, tiles: seq<Tile.Area>, border: int)
    requires LaidOut(order, apps, place, workspace, arena, capacity, tiles, border)
    ensures LaidOut(FocusedOn(order, id), apps, place, workspace, arena, capacity, tiles, border)
  {
    var now := FocusedOn(order, id);
    forall i | 0 <= i < |apps| ensures Place(now, apps[i].id) == place[i] { SameIds(order, now, apps[i].id); }
  }

  /** Whoever has a tile is not minimised. */
  lemma ShownIsUp(order: seq<Window>, apps: seq<App>, place: seq<nat>, workspace: int,
                  arena: array<Colour>, capacity: nat, tiles: seq<Tile.Area>, border: int, i: nat)
    requires LaidOut(order, apps, place, workspace, arena, capacity, tiles, border)
    requires i < |apps| && OnScreen(apps[i], workspace)
    ensures !order[place[i]].minimized
  {
    VisibleIs(apps, workspace);
    var v := Visible(apps, workspace);
    var k :| 0 <= k < |v| && v[k] == i;
    assert Shown(apps[v[k]], order[place[v[k]]], arena, capacity, tiles, k, border);
  }

  /** A window the focus is moved to has it. */
  lemma FocusMoved(order: seq<Window>, apps: seq<App>, place: seq<nat>, workspace: int, i: nat)
    requires Placed(order, apps, place) && i < |apps| && OnScreen(apps[i], workspace)
    ensures Placed(FocusedOn(order, apps[i].id), apps, place)
    ensures FocusSeen(FocusedOn(order, apps[i].id), apps, place, workspace)
  {
    var now := FocusedOn(order, apps[i].id);
    forall j | 0 <= j < |apps| ensures Place(now, apps[j].id) == place[j] { SameIds(order, now, apps[j].id); }
    assert now[place[i]].focused;
  }

  lemma {:induction false} NoneOnScreen(apps: seq<App>, workspace: int)
    requires forall i :: 0 <= i < |apps| ==> !OnScreen(apps[i], workspace)
    ensures Visible(apps, workspace) == []
  {
    if apps != [] { NoneOnScreen(apps[..|apps| - 1], workspace); }
  }

  lemma OnePlace(place: seq<nat>, i: nat, j: nat)
    requires Apart(place) && i < |place| && j < |place| && place[i] == place[j]
    ensures i == j
  {
  }

  /** Nothing on the screen, nothing to focus. */
  lemma NoneVisible(order: seq<Window>, apps: seq<App>, place: seq<nat>, workspace: int)
    requires Placed(order, apps, place) && forall i :: 0 <= i < |apps| ==> !OnScreen(apps[i], workspace)
    ensures FocusSeen(order, apps, place, workspace)
  {
    NoneOnScreen(apps, workspace);
  }

  /** The app whose window has the focus is on the screen exactly when the focus is. */
  lemma FocusFound(slots: seq<Window>, z: seq<nat>, apps: seq<App>, place: seq<nat>, workspace: int, i: nat)
    requires Sound(slots, z) && Placed(Stack(slots, z), apps, place) && Apart(place)
    requires i < |apps| && apps[i].id == FocusOf(Stack(slots, z))
    ensures OnScreen(apps[i], workspace) <==> HasFocus(Stack(slots, z), apps, workspace)
    ensures OnScreen(apps[i], workspace) ==> FocusSeen(Stack(slots, z), apps, place, workspace)
  {
    StackKeyed(slots, z);
    assert Stack(slots, z)[place[i]].focused;
    forall j | 0 <= j < |apps| && apps[j].id == apps[i].id ensures j == i { OnePlace(place, i, j); }
  }

  /** The first app that is neither hidden nor on another workspace. */
  predicate FirstSeen(apps: seq<App>, workspace: int, i: int) {
    0 <= i < |apps| && !apps[i].hidden && apps[i].workspace == workspace &&
    forall j :: 0 <= j < i ==> apps[j].hidden || apps[j].workspace != workspace
  }

  /** Moved to the first app there is, that is where the focus goes. */
  lemma FirstHasFocus(order: seq<Window>, apps: seq<App>, place: seq<nat>, workspace: int, id: nat, i: int)
    requires Placed(order, apps, place) && FirstSeen(apps, workspace, i) && apps[i].id == id
    ensures FocusedOn(order, id)[place[i]].focused
  {
    assert order[place[i]].id == apps[i].id;
  }

  /** The visible apps are all of those, in their order. */
  lemma VisibleMeans(apps: seq<App>, workspace: int, i: nat)
    requires i < |apps|
    ensures var v := Visible(apps, workspace);
            && (i in v <==> !apps[i].hidden && apps[i].workspace == workspace)
            && (forall j, k {:trigger v[j], v[k]} :: 0 <= j < k < |v| ==> v[j] < v[k])
  {
    VisibleIs(apps, workspace);
  }

  ghost predicate HasFocus(order: seq<Window>, apps: seq<App>, workspace: int) {
    exists i :: 0 <= i < |apps| && OnScreen(apps[i], workspace) && apps[i].id == FocusOf(order)
  }

  // ----- room

  /** Sizes under which nothing but the number of windows can make a relayout fail: the
      defaults are such. */
  predicate Roomy(c: Tile.Config, screenWidth: int, screenHeight: int, capacity: nat) {
    0 < screenWidth <= MAX_DIMENSION && 0 < screenHeight <= MAX_DIMENSION && screenWidth * screenHeight <= capacity &&
    c.minWidth > 2 * Tile.Floor0(c.border) && c.minHeight > 2 * Tile.Floor0(c.border) + TITLE_HEIGHT
  }

  lemma DefaultsAreRoomy(screenWidth: int, screenHeight: int)
    requires 0 < screenWidth <= MAX_DIMENSION && 0 < screenHeight <= MAX_DIMENSION
    ensures Roomy(Tile.DEFAULTS, screenWidth, screenHeight, screenWidth * screenHeight)
  {
  }

  /** The tiles a layout places. */
  ghost predicate Tiled(c: Tile.Config, screenWidth: int, screenHeight: int, tiles: seq<Tile.Area>) {
    var w := Tile.Workspace(c, screenWidth, screenHeight);
    tiles == [] ||
    (Tile.HoldsAll(Tile.Floored(c), w, |tiles|) &&
     forall i :: 0 <= i < |tiles| ==> tiles[i] == Tile.TileOf(Tile.Floored(c), w, |tiles|, i))
  }

  lemma Small(v: int)
    requires 0 <= v < 0x8000_0000
    ensures ToInt32(v) == v && ToUint32(v) == v
  {
  }

  /** A tile on a screen of that size, no smaller than it may be, is a window the table
      takes and has a client area. */
  lemma TileFits(c: Tile.Config, screenWidth: int, screenHeight: int, capacity: nat, t: Tile.Area)
    requires Roomy(c, screenWidth, screenHeight, capacity) && Tile.BigEnough(c, t)
    requires Tile.Inside(t, Tile.Area(0, 0, screenWidth, screenHeight))
    ensures var client := ClientArea(t.width, t.height, c.border);
            GeometryOf(t) == Geometry(t.x, t.y, t.width, t.height) && Fits(GeometryOf(t)) &&
            client.width > 0 && client.height > 0 && ToUint32(client.width) == client.width &&
            ToUint32(client.height) == client.height
  {
    var client := ClientArea(t.width, t.height, c.border);
    Small(t.x); Small(t.y); Small(t.width); Small(t.height);
    Small(client.width); Small(client.height);
  }

  /** With room, all that a relayout tries with tile `k` succeeds. */
  lemma TileHasRoom(c: Tile.Config, screenWidth: int, screenHeight: int, capacity: nat, tiles: seq<Tile.Area>, k: nat)
    requires Roomy(c, screenWidth, screenHeight, capacity) && Tiled(c, screenWidth, screenHeight, tiles) && k < |tiles|
    ensures Tile.BigEnough(c, tiles[k]) && Tile.Inside(tiles[k], Tile.Area(0, 0, screenWidth, screenHeight))
    ensures forall j :: 0 <= j < k ==> Tile.Disjoint(tiles[j], tiles[k])
    ensures 0 <= Tile.Taken(tiles, k) && Tile.Taken(tiles, k + 1) <= capacity
  {
    var w := Tile.Workspace(c, screenWidth, screenHeight);
    var f := Tile.Floored(c);
    Tile.TilesFit(f, w, |tiles|, k);
    forall j | 0 <= j < k ensures Tile.Disjoint(tiles[j], tiles[k]) {
      assert tiles[j] == Tile.TileOf(f, w, |tiles|, j);
    }
    TilesHaveRoom(f, w, tiles, k);
    Product(w.width, w.height, screenWidth, screenHeight);
  }

  lemma TilesHaveRoom(c: Tile.Config, w: Tile.Area, tiles: seq<Tile.Area>, k: nat)
    requires c.minWidth > 0 && c.minHeight > 0 && c.innerGap >= 0 && Tile.HoldsAll(c, w, |tiles|) && k < |tiles|
    requires forall i :: 0 <= i < |tiles| ==> tiles[i] == Tile.TileOf(c, w, |tiles|, i)
    ensures 0 <= Tile.Taken(tiles, k) && Tile.Taken(tiles, k + 1) <= Tile.Pixels(w)
  {
    Tile.TilesTake(c, w, tiles);
    forall t | t in tiles ensures t.width >= 0 && t.height >= 0 {
      var i :| 0 <= i < |tiles| && tiles[i] == t;
      Tile.TilesFit(c, w, |tiles|, i);
    }
    Tile.TakenGrows(tiles, k, k);
    Tile.TakenGrows(tiles, k + 1, |tiles|);
  }

  lemma Product(a: nat, b: nat, c: nat, d: nat)
    requires a <= c && b <= d
    ensures a * b <= c * d
  {
    Tile.Wider(a, c, b);
    assert c * b <= c * d by { Tile.Wider(b, d, c); }
  }

  /** With room, every tile can be handed out. */
  lemma RoomIsEnough(c: Tile.Config, screenWidth: int, screenHeight: int, arena: array<Colour>, capacity: nat,
                     tiles: seq<Tile.Area>, k: nat)
    requires Roomy(c, screenWidth, screenHeight, capacity) && Tiled(c, screenWidth, screenHeight, tiles) && k < |tiles|
    ensures CanHand(arena, capacity, c.border, tiles, k)
  {
    TileHasRoom(c, screenWidth, screenHeight, capacity, tiles, k);
    TileFits(c, screenWidth, screenHeight, capacity, tiles[k]);
    Tile.Wider(1, tiles[k].width, tiles[k].height);
  }

  lemma RoomForAll(c: Tile.Config, screenWidth: int, screenHeight: int, arena: array<Colour>, capacity: nat,
                   tiles: seq<Tile.Area>)
    requires Roomy(c, screenWidth, screenHeight, capacity) && Tiled(c, screenWidth, screenHeight, tiles)
    ensures forall k :: 0 <= k < |tiles| ==> CanHand(arena, capacity, c.border, tiles, k)
  {
    forall k | 0 <= k < |tiles| ensures CanHand(arena, capacity, c.border, tiles, k) {
      RoomIsEnough(c, screenWidth, screenHeight, arena, capacity, tiles, k);
    }
  }

  /** Frames of a laid-out desktop with room: on the screen they share no pixel, and in the
      arena no two slices meet. */
  lemma FramesApart(order: seq<Window>, apps: seq<App>, place: seq<nat>, workspace: int, arena: array<Colour>,
                    capacity: nat, c: Tile.Config, screenWidth: int, screenHeight: int, j: nat, k: nat)
    requires Roomy(c, screenWidth, screenHeight, capacity)
    requires var tiles := TilesOf(c, screenWidth, screenHeight, |Visible(apps, workspace)|);
             Tiled(c, screenWidth, screenHeight, tiles) &&
             LaidOut(order, apps, place, workspace, arena, capacity, tiles, c.border)
    requires j < k < |Visible(apps, workspace)|
    ensures var v := Visible(apps, workspace);
            SlicesApart(apps[v[j]].frame, apps[v[k]].frame, arena, capacity) &&
            ScreensApart(order[place[v[j]]].geometry, order[place[v[k]]].geometry)
  {
    var v := Visible(apps, workspace);
    var tiles := TilesOf(c, screenWidth, screenHeight, |v|);
    assert Shown(apps[v[j]], order[place[v[j]]], arena, capacity, tiles, j, c.border);
    assert Shown(apps[v[k]], order[place[v[k]]], arena, capacity, tiles, k, c.border);
    TilesApart(c, screenWidth, screenHeight, arena, capacity, tiles, j, k);
  }

  /** One slice of the arena ends before the other begins. */
  predicate SlicesApart(a: Surface, b: Surface, arena: array<Colour>, capacity: nat) {
    a.mem == b.mem == arena && a.base + a.width * a.height <= b.base && b.base + b.width * b.height <= capacity
  }

  predicate ScreensApart(g: Geometry, h: Geometry) {
    g.x + g.width <= h.x || h.x + h.width <= g.x || g.y + g.height <= h.y || h.y + h.height <= g.y
  }

  lemma TilesApart(c: Tile.Config, screenWidth: int, screenHeight: int, arena: array<Colour>, capacity: nat,
                   tiles: seq<Tile.Area>, j: nat, k: nat)
    requires Roomy(c, screenWidth, screenHeight, capacity) && Tiled(c, screenWidth, screenHeight, tiles) &&
             j < k < |tiles|
    ensures SlicesApart(FrameOf(arena, capacity, tiles, j), FrameOf(arena, capacity, tiles, k), arena, capacity)
    ensures ScreensApart(GeometryOf(tiles[j]), GeometryOf(tiles[k]))
  {
    SliceOf(c, screenWidth, screenHeight, arena, capacity, tiles, j);
    SliceOf(c, screenWidth, screenHeight, arena, capacity, tiles, k);
    Steps(c, screenWidth, screenHeight, capacity, tiles, j + 1, k);
    TileHasRoom(c, screenWidth, screenHeight, capacity, tiles, k);
  }

  lemma SliceOf(c: Tile.Config, screenWidth: int, screenHeight: int, arena: array<Colour>, capacity: nat,
                tiles: seq<Tile.Area>, k: nat)
    requires Roomy(c, screenWidth, screenHeight, capacity) && Tiled(c, screenWidth, screenHeight, tiles) && k < |tiles|
    ensures GeometryOf(tiles[k]) == Geometry(tiles[k].x, tiles[k].y, tiles[k].width, tiles[k].height)
    ensures var f := FrameOf(arena, capacity, tiles, k);
            f.mem == arena && f.base == Tile.Taken(tiles, k) && f.width == tiles[k].width && f.height == tiles[k].height &&
            f.base + f.width * f.height == Tile.Taken(tiles, k + 1) <= capacity
  {
    TileHasRoom(c, screenWidth, screenHeight, capacity, tiles, k);
    TileFits(c, screenWidth, screenHeight, capacity, tiles[k]);
    RoomIsEnough(c, screenWidth, screenHeight, arena, capacity, tiles, k);
  }

  lemma Steps(c: Tile.Config, screenWidth: int, screenHeight: int, capacity: nat, tiles: seq<Tile.Area>, j: nat, k: nat)
    requires Roomy(c, screenWidth, screenHeight, capacity) && Tiled(c, screenWidth, screenHeight, tiles)
    requires j <= k <= |tiles|
    ensures Tile.Taken(tiles, j) <= Tile.Taken(tiles, k)
  {
    forall t | t in tiles ensures t.width >= 0 && t.height >= 0 {
      var i :| 0 <= i < |tiles| && tiles[i] == t;
      TileHasRoom(c, screenWidth, screenHeight, capacity, tiles, i);
    }
    Tile.TakenGrows(tiles, j, k);
  }

  lemma NoNegativeTiles(c: Tile.Config, screenWidth: int, screenHeight: int, tiles: seq<Tile.Area>)
    requires tiles == TilesOf(c, screenWidth, screenHeight, |tiles|)
    ensures forall k :: 0 <= k < |tiles| ==> tiles[k].width >= 0 && tiles[k].height >= 0
  {
  }

  lemma {:induction false} SameFocus(a: seq<Window>, b: seq<Window>)
    requires SameWindows(a, b)
    ensures FocusOf(a) == FocusOf(b)
  {
    if a != [] { SameFocus(a[..|a| - 1], b[..|b| - 1]); }
  }
}
