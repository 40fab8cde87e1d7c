// Tiles, frames and focus together (kernel/src/desktop.c).
module Desktop {
  import opened Surface
  import opened WindowStack
  import opened DesktopSpec
  import Windows
  import Tile

  class Desktop {
    const windows: Windows.Manager
    const arena: array<Colour>
    const arenaPixels: nat
    const apps: array<App>
    var appCount: nat
    var layout: Tile.Config
    var screenWidth: int
    var screenHeight: int
    var workspace: int

    ghost predicate Sized()
      reads this, windows, windows.slots, windows.zSlots
    {
      windows.Valid() && apps.Length == MAX_APPS && appCount <= MAX_APPS && arenaPixels <= arena.Length
    }

    /** Every app has a window of its own; `place` says where in the order. */
    ghost predicate Valid(place: seq<nat>)
      reads this, windows, windows.slots, windows.zSlots, apps
    {
      Sized() && Placed(windows.Order(), apps[..appCount], place) && Apart(place)
    }

    /** `desktop_init`, where it does not refuse. */
    constructor (windows: Windows.Manager, screenWidth: int, screenHeight: int, arena: array<Colour>, arenaPixels: nat)
      requires windows.Valid() && screenWidth > 0 && screenHeight > 0 && 0 < arenaPixels <= arena.Length
      ensures Valid([]) && this.windows == windows && this.arena == arena && this.arenaPixels == arenaPixels
      ensures fresh(apps) && appCount == 0 && layout == Tile.DEFAULTS && workspace == 1
      ensures this.screenWidth == screenWidth && this.screenHeight == screenHeight
    {
      this.windows, this.arena, this.arenaPixels := windows, arena, arenaPixels;
      apps := new App[MAX_APPS](_ => NO_APP);
      appCount := 0;
      layout := Tile.DEFAULTS;
      this.screenWidth, this.screenHeight := screenWidth, screenHeight;
      workspace := 1;
    }

    /** `desktop_add`, which gives `MAX_APPS` when it refuses. */
    method Add(title: string, ghost place: seq<nat>) returns (index: nat)
      requires Valid(place)
      modifies this`appCount, apps, windows, windows.slots, windows.zSlots
      ensures index == MAX_APPS ==>
                Valid(place) && appCount == old(appCount) && apps[..] == old(apps[..]) && windows.Order() == old(windows.Order())
      ensures index != MAX_APPS ==> index == old(appCount) && appCount == old(appCount) + 1
      ensures index != MAX_APPS ==> Valid(place + [|old(windows.Order())|])
      ensures index != MAX_APPS ==>
                && Place(old(windows.Order()), apps[index].id) == -1
                && windows.Order() == old(windows.Order()) + [NewWindow(apps[index].id, title)]
                && apps[..appCount] == old(apps[..appCount]) + [App(apps[index].id, title, NOTHING, NOTHING, false, workspace)]
      ensures (index == MAX_APPS) <==> (old(appCount) == MAX_APPS || |old(windows.Order())| >= WINDOW_MAX ||
                                        |title| >= TITLE_CAPACITY)
    {
      if appCount >= MAX_APPS { return MAX_APPS; }
      ghost var order := windows.Order();
      var id, _ := windows.Create(FIRST_GEOMETRY, title);
      if id == NO_WINDOW { return MAX_APPS; }
      index := appCount;
      TakeUp(App(id, title, NOTHING, NOTHING, false, workspace), order, windows.Order()[|order|], place);
    }

    /** An app for the window `w` just made. */
    method TakeUp(app: App, ghost order: seq<Window>, ghost w: Window, ghost place: seq<nat>)
      requires Sized() && appCount < MAX_APPS && Placed(order, apps[..appCount], place) && Apart(place)
      requires windows.Order() == order + [w] && Place(order, w.id) == -1 && w.id == app.id
      modifies this`appCount, apps
      ensures Valid(place + [|order|]) && windows.Order() == order + [w]
      ensures appCount == old(appCount) + 1 && apps[..appCount] == old(apps[..appCount]) + [app]
    {
      PlacedAdded(order, apps[..appCount], place, w, app);
      apps[appCount] := app;
      appCount := appCount + 1;
    }

    /** The first loop of `desktop_relayout`: which apps are on the screen. */
    method FindVisible(order: array<nat>) returns (visible: nat)
      requires apps.Length == MAX_APPS && appCount <= MAX_APPS && order.Length == MAX_APPS
      modifies order
      ensures visible <= MAX_APPS && order[..visible] == Visible(apps[..appCount], workspace)
    {
      ghost var all := apps[..appCount];
      visible := 0;
      var i := 0;
      while i < appCount
        invariant i <= appCount && visible <= i && order[..visible] == Visible(all[..i], workspace)
      {
        VisibleNext(all, workspace, i);
        assert apps[i] == all[i];
        if OnScreen(apps[i], workspace) {
          Note(order, visible, i);
          visible := visible + 1;
        }
        i := i + 1;
      }
      assert all[..i] == all;
    }

    static method Note(order: array<nat>, at: nat, i: nat)
      requires at < order.Length
      modifies order
      ensures order[..at + 1] == old(order[..at]) + [i]
    {
      order[at] := i;
    }

    /** The second loop: every window detached, and those off the screen put away. */
    method ClearAll(ghost place: seq<nat>) returns (ok: bool)
      requires Valid(place)
      modifies apps, windows.slots
      ensures Valid(place) && ok
      ensures windows.Order() == Cleared(old(windows.Order()), place, Marks(old(apps[..appCount]), workspace), appCount)
      ensures apps[..appCount] == EmptiedTo(old(apps[..appCount]), workspace, appCount)
    {
      ghost var before, was := windows.Order(), apps[..appCount];
      assert EmptiedTo(was, workspace, 0) == was;
      var i := 0;
      while i < appCount
        invariant i <= appCount && Sized()
        invariant windows.Order() == Cleared(before, place, Marks(was, workspace), i)
        invariant apps[..appCount] == EmptiedTo(was, workspace, i)
      {
        ok := ClearOne(i, before, was, place);
        if !ok { return; }
        i := i + 1;
      }
      ClearedPlaced(before, was, workspace, place);
      return true;
    }

    method ClearOne(i: nat, ghost before: seq<Window>, ghost was: seq<App>, ghost place: seq<nat>) returns (ok: bool)
      requires Sized() && i < appCount == |was| && Placed(before, was, place)
      requires windows.Order() == Cleared(before, place, Marks(was, workspace), i)
      requires apps[..appCount] == EmptiedTo(was, workspace, i)
      modifies apps, windows.slots
      ensures Sized() && ok
      ensures windows.Order() == Cleared(before, place, Marks(was, workspace), i + 1)
      ensures apps[..appCount] == EmptiedTo(was, workspace, i + 1)
    {
      StillPlaced(before, windows.Order(), was, was, place);
      EmptiedNext(was, workspace, i);
      ClearedNext(before, place, Marks(was, workspace), i);
      assert apps[i] == apps[..appCount][i];
      ok := Hide(i, place[i]);
      Empty(i);
    }

    /** Nothing is left to draw into off the screen. */
    method Empty(i: nat)
      requires i < appCount <= apps.Length
      modifies apps
      ensures apps[..appCount] == old(apps[..appCount])[i := Emptied(old(apps[i]), workspace)]
    {
      if !OnScreen(apps[i], workspace) {
        apps[i] := apps[i].(frame := NOTHING, client := NOTHING);
      }
    }

    method Hide(i: nat, ghost z: nat) returns (ok: bool)
      requires Sized() && i < appCount && z < |windows.Order()| && Place(windows.Order(), apps[i].id) == z
      modifies windows.slots
      ensures Sized() && ok
      ensures windows.Order() == old(windows.Order())[z := old(windows.Order())[z].
                                   (picture := Detached, minimized := !OnScreen(apps[i], workspace))]
    {
      ghost var before := windows.Order();
      ok := windows.Attach(apps[i].id, Detached);
      if !ok { return false; }
      SameIds(before, windows.Order(), apps[i].id);
      ok := windows.SetMinimized(apps[i].id, !OnScreen(apps[i], workspace));
    }

    /** The third loop: geometry, frame, client and picture for every visible app. */
    method HandOut(order: array<nat>, tiles: array<Tile.Area>, visible: nat, ghost p: Plan)
      returns (ok: bool, ghost taken: nat, ghost n: nat, ghost half: seq<Window>, ghost framed: seq<App>)
      requires Sized() && visible <= order.Length && visible <= tiles.Length
      requires p.Ready() && p.arena == arena && p.capacity == arenaPixels && p.border == layout.border
      requires p.v == order[..visible] && p.tiles == tiles[..visible]
      requires |p.was| == appCount && p.Handed(0, 0, windows.Order(), apps[..appCount]) && p.CanAll(0)
      modifies apps, windows.slots
      ensures Sized()
      ensures ok == p.CanAll(visible)
      ensures p.Handed(n, taken, half, framed) && n <= visible && p.CanAll(n)
      ensures ok ==> n == visible && half == windows.Order() && framed == apps[..appCount]
      ensures !ok ==> n < visible && !p.CanAll(n + 1) && p.Stuck(n, taken, half, framed, windows.Order(), apps[..appCount])
    {
      var used: nat := 0;
      var k := 0;
      while k < visible
        invariant k <= visible && Sized()
        invariant p.Handed(k, used, windows.Order(), apps[..appCount])
        invariant p.CanAll(k)
      {
        n, taken, half, framed := k, used, windows.Order(), apps[..appCount];
        ok, used := GiveNext(order, tiles, visible, k, used, p);
        if !ok { return; }
        k := k + 1;
      }
      return true, used, k, windows.Order(), apps[..appCount];
    }

    /** One turn of the loop. */
    method GiveNext(order: array<nat>, tiles: array<Tile.Area>, visible: nat, k: nat, taken: nat, ghost p: Plan)
      returns (ok: bool, now: nat)
      requires Sized() && k < visible <= order.Length && visible <= tiles.Length
      requires p.Ready() && p.arena == arena && p.capacity == arenaPixels && p.border == layout.border
      requires |p.was| == appCount && p.v == order[..visible] && p.tiles == tiles[..visible]
      requires p.Handed(k, taken, windows.Order(), apps[..appCount]) && p.CanAll(k)
      modifies apps, windows.slots
      ensures Sized() && ok == p.CanAll(k + 1) && (!ok ==> !p.CanAll(visible))
      ensures ok ==> p.Handed(k + 1, now, windows.Order(), apps[..appCount])
      ensures !ok ==> p.Stuck(k, taken, old(windows.Order()), old(apps[..appCount]), windows.Order(), apps[..appCount])
    {
      var i, tile := order[k], tiles[k];
      assert i == p.v[k] && tile == p.tiles[k];
      ok, now := GiveTile(i, tile, taken, p, k);
      p.CanNext(k, visible);
    }

    method GiveTile(i: nat, tile: Tile.Area, taken: nat, ghost p: Plan, ghost k: nat) returns (ok: bool, now: nat)
      requires Sized() && p.Ready() && p.arena == arena && p.capacity == arenaPixels && p.border == layout.border
      requires |p.was| == appCount && k < |p.v| && k < |p.tiles| && i == p.v[k] && tile == p.tiles[k]
      requires p.Handed(k, taken, windows.Order(), apps[..appCount])
      modifies apps, windows.slots
      ensures Sized() && ok == CanHand(p.arena, p.capacity, p.border, p.tiles, k)
      ensures ok ==> p.Handed(k + 1, now, windows.Order(), apps[..appCount])
      ensures !ok ==> p.Stuck(k, taken, old(windows.Order()), old(apps[..appCount]), windows.Order(), apps[..appCount])
    {
      ghost var order, all := windows.Order(), apps[..appCount];
      ghost var z := p.Here(k, taken, order, all);
      assert apps[i] == all[i];
      ok := GiveOne(i, tile, taken, z);
      now := taken + Tile.Pixels(tile);
      if ok {
        p.Next(k, taken, order, all, z, windows.Order(), apps[..appCount]);
      } else {
        p.Stop(k, taken, order, all, z, windows.Order(), apps[..appCount]);
      }
    }

    /** One app's tile. */
    method GiveOne(i: nat, tile: Tile.Area, taken: nat, ghost z: nat) returns (ok: bool)
      requires Sized() && i < appCount && taken <= arenaPixels && tile.width >= 0 && tile.height >= 0
      requires z < |windows.Order()| && Place(windows.Order(), apps[i].id) == z &&
               windows.Order()[z].picture == Detached
      modifies apps, windows.slots
      ensures Sized()
      ensures var g := GeometryOf(tile); var frame := Init(arena, taken, arenaPixels - taken, g.width, g.height);
              ok == (Fits(g) && taken + Tile.Pixels(tile) <= arenaPixels && frame.Valid() &&
                     ClientOf(frame, tile, layout.border).Valid()) &&
              (ok ==>
                windows.Order() == old(windows.Order())[z := old(windows.Order())[z].(geometry := g, picture := Attached(frame))] &&
                apps[..appCount] == old(apps[..appCount])[i :=
                  old(apps[i]).(frame := frame, client := ClientOf(frame, tile, layout.border))]) &&
              (!ok ==>
                windows.Order() == old(windows.Order())[z := StuckWindow(old(windows.Order())[z], tile)] &&
                apps[..appCount] == old(apps[..appCount])[i := StuckApp(old(apps[i]), tile, arenaPixels - taken, frame)])
    {
      var id := apps[i].id;
      ghost var before := windows.Order();
      var g := GeometryOf(tile);
      ok := windows.SetGeometry(id, g);
      if !ok { return; }
      SameIds(before, windows.Order(), id);
      ok := Dress(i, tile, taken, z);
    }

    /** The frame, the inside of it, and the picture of a window that has its geometry. */
    method Dress(i: nat, tile: Tile.Area, taken: nat, ghost z: nat) returns (ok: bool)
      requires Sized() && i < appCount && taken <= arenaPixels && tile.width >= 0 && tile.height >= 0
      requires z < |windows.Order()| && Place(windows.Order(), apps[i].id) == z
      requires Fits(GeometryOf(tile)) && windows.Order()[z].geometry == GeometryOf(tile)
      modifies apps, windows.slots
      ensures Sized()
      ensures var g := GeometryOf(tile); var frame := Init(arena, taken, arenaPixels - taken, g.width, g.height);
              ok == (taken + Tile.Pixels(tile) <= arenaPixels && frame.Valid() && ClientOf(frame, tile, layout.border).Valid()) &&
              windows.Order() == (if ok then old(windows.Order())[z := old(windows.Order())[z].(picture := Attached(frame))]
                                  else old(windows.Order())) &&
              apps[..appCount] == old(apps[..appCount])[i := if ok then HandedApp(old(apps[i]), tile, frame, layout.border)
                                                             else StuckApp(old(apps[i]), tile, arenaPixels - taken, frame)]
    {
      var g := GeometryOf(tile);
      if tile.width * tile.height > arenaPixels - taken { return false; }
      var frame := Init(arena, taken, arenaPixels - taken, g.width, g.height);
      SetFrame(i, frame);
      if !frame.Valid() { return false; }
      var client := ClientOf(frame, tile, layout.border);
      SetClient(i, client);
      if !client.Valid() { return false; }
      ok := Hang(apps[i].id, frame, z);
    }

    /** The frame is attached to its window. */
    method Hang(id: nat, frame: Surface, ghost z: nat) returns (ok: bool)
      requires Sized() && frame.Valid() && z < |windows.Order()| && Place(windows.Order(), id) == z
      modifies windows.slots
      ensures Sized() && ok == Agrees(Attached(frame), old(windows.Order())[z].geometry)
      ensures ok ==> windows.Order() == old(windows.Order())[z := old(windows.Order())[z].(picture := Attached(frame))]
    {
      ok := windows.Attach(id, Attached(frame));
    }

    method SetFrame(i: nat, frame: Surface)
      requires i < appCount <= apps.Length
      modifies apps
      ensures apps[..appCount] == old(apps[..appCount])[i := old(apps[i]).(frame := frame)]
    {
      apps[i] := apps[i].(frame := frame);
    }

    method SetClient(i: nat, client: Surface)
      requires i < appCount <= apps.Length
      modifies apps
      ensures apps[..appCount] == old(apps[..appCount])[i := old(apps[i]).(client := client)]
    {
      apps[i] := apps[i].(client := client);
    }

    /** `desktop_index_of`. */
    method IndexOf(id: nat) returns (index: nat)
      requires apps.Length == MAX_APPS && appCount <= MAX_APPS
      ensures index < appCount ==> apps[index].id == id
      ensures index >= appCount ==> index == MAX_APPS && forall i :: 0 <= i < appCount ==> apps[i].id != id
    {
      index := 0;
      while index < appCount
        invariant index <= appCount && forall i :: 0 <= i < index ==> apps[i].id != id
      {
        if apps[index].id == id { return; }
        index := index + 1;
      }
      index := MAX_APPS;
    }

    /** Whether the focus is on an app that is on the screen. */
    method FocusIsSeen(ghost place: seq<nat>) returns (seen: bool)
      requires Sized() && Placed(windows.Order(), apps[..appCount], place) && Apart(place)
      ensures seen == HasFocus(windows.Order(), apps[..appCount], workspace)
      ensures seen ==> FocusSeen(windows.Order(), apps[..appCount], place, workspace)
    {
      ghost var all := apps[..appCount];
      var focus := windows.Focused();
      var focused := IndexOf(focus);
      if focused >= appCount { return false; }
      FocusFound(windows.slots[..], windows.zSlots[..windows.count], all, place, workspace, focused);
      assert all[focused] == apps[focused];
      return OnScreen(apps[focused], workspace);
    }

    /** The last part of `desktop_relayout`: focus settles on the screen. It moves only
        when it was not there. */
    method SettleFocus(ghost place: seq<nat>) returns (ghost moved: int)
      requires Sized() && Placed(windows.Order(), apps[..appCount], place)
      requires forall i :: 0 <= i < appCount && OnScreen(apps[i], workspace) ==> !windows.Order()[place[i]].minimized
      requires Apart(place)
      modifies windows.slots, windows.zSlots
      ensures Sized() && Placed(windows.Order(), apps[..appCount], place)
      ensures FocusSeen(windows.Order(), apps[..appCount], place, workspace)
      ensures HasFocus(old(windows.Order()), apps[..appCount], workspace) ==> moved < 0
      ensures windows.Order() == if moved < 0 then old(windows.Order())
                                 else FocusedOn(old(windows.Order()), moved)
      ensures !HasFocus(old(windows.Order()), apps[..appCount], workspace) ==>
                forall i {:trigger FirstSeen(apps[..appCount], workspace, i)} ::
                  FirstSeen(apps[..appCount], workspace, i) ==> moved == apps[i].id
    {
      ghost var order, all := windows.Order(), apps[..appCount];
      var seen := FocusIsSeen(place);
      if seen { return -1; }
      var i := FirstOnScreen();
      if i == appCount {
        NoneVisible(order, all, place, workspace);
        return -1;
      }
      assert all[i] == apps[i];
      FocusMoved(order, all, place, workspace, i);
      GiveFocus(apps[i].id);
      return apps[i].id;
    }

    method GiveFocus(id: nat)
      requires Sized() && Place(windows.Order(), id) >= 0 && !windows.Order()[Place(windows.Order(), id)].minimized
      modifies windows.slots, windows.zSlots
      ensures Sized() && windows.Order() == FocusedOn(old(windows.Order()), id)
    {
      var ok := windows.Focus(id, false);
    }

    method FirstOnScreen() returns (i: nat)
      requires appCount <= apps.Length
      ensures i <= appCount && forall j :: 0 <= j < i ==> !OnScreen(apps[j], workspace)
      ensures i < appCount ==> OnScreen(apps[i], workspace)
    {
      i := 0;
      while i < appCount
        invariant i <= appCount && forall j :: 0 <= j < i ==> !OnScreen(apps[j], workspace)
      {
        if OnScreen(apps[i], workspace) { return; }
        i := i + 1;
      }
    }

    /** Where the visible apps go: nothing, or a tile each. */
    method PlaceTiles(visible: nat, tiles: array<Tile.Area>) returns (ok: bool)
      requires visible <= MAX_APPS && tiles.Length == MAX_APPS
      modifies tiles
      ensures ok == (visible == 0 || Tile.HoldsAll(Tile.Floored(layout), Tile.Workspace(layout, screenWidth, screenHeight), visible))
      ensures ok ==> tiles[..visible] == TilesOf(layout, screenWidth, screenHeight, visible)
      ensures ok ==> Tiled(layout, screenWidth, screenHeight, tiles[..visible])
    {
      if visible == 0 { return true; }
      var placed := Tile.Layout(layout, screenWidth, screenHeight, visible, tiles, MAX_APPS);
      ok := placed == visible;
    }

    /** Detaching and handing out. */
    method ArrangeAll(order: array<nat>, tiles: array<Tile.Area>, visible: nat, ghost place: seq<nat>)
      returns (ok: bool, ghost stopped: nat)
      requires Valid(place) && visible <= order.Length && visible <= tiles.Length
      requires order[..visible] == Visible(apps[..appCount], workspace)
      requires forall k :: 0 <= k < visible ==> tiles[k].width >= 0 && tiles[k].height >= 0
      modifies apps, windows.slots
      ensures Valid(place) && Visible(apps[..appCount], workspace) == old(Visible(apps[..appCount], workspace))
      ensures ok == forall k :: 0 <= k < visible ==> CanHand(arena, arenaPixels, layout.border, tiles[..visible], k)
      ensures ok ==> SameWindows(old(windows.Order()), windows.Order())
      ensures ok ==> LaidOut(windows.Order(), apps[..appCount], place, workspace, arena, arenaPixels, tiles[..visible], layout.border)
      ensures !ok ==> HalfLaid(old(windows.Order()), old(apps[..appCount]), windows.Order(), apps[..appCount], place, workspace,
                               arena, arenaPixels, tiles[..visible], layout.border, stopped)
    {
      ghost var before, was, v, t := windows.Order(), apps[..appCount], order[..visible], tiles[..visible];
      ok := ClearAll(place);
      if !ok { return; }
      ghost var p := Plan(arena, arenaPixels, layout.border, windows.Order(), apps[..appCount], place, v, t);
      ClearedIsReady(before, was, workspace, p);
      p.Start();
      ghost var taken, half, framed;
      ok, taken, stopped, half, framed := HandOut(order, tiles, visible, p);
      assert tiles[..visible] == t;
      p.CanAllSays(visible);
      HandedOut(before, was, p, workspace, stopped, taken, half, framed, windows.Order(), apps[..appCount]);
    }

    /** The layout can hold what is visible. */
    ghost predicate Holds()
      requires appCount <= apps.Length
      reads this, apps
    {
      Visible(apps[..appCount], workspace) == [] ||
      Tile.HoldsAll(Tile.Floored(layout), Tile.Workspace(layout, screenWidth, screenHeight),
                    |Visible(apps[..appCount], workspace)|)
    }

    /** The focus settles on a laid-out desktop. */
    method SettleLaidOut(ghost place: seq<nat>, ghost tiles: seq<Tile.Area>) returns (ghost moved: int)
      requires Sized() && Apart(place)
      requires LaidOut(windows.Order(), apps[..appCount], place, workspace, arena, arenaPixels, tiles, layout.border)
      modifies windows.slots, windows.zSlots
      ensures Valid(place) && FocusSeen(windows.Order(), apps[..appCount], place, workspace)
      ensures HasFocus(old(windows.Order()), apps[..appCount], workspace) ==> moved < 0
      ensures windows.Order() == if moved < 0 then old(windows.Order()) else FocusedOn(old(windows.Order()), moved)
      ensures !HasFocus(old(windows.Order()), apps[..appCount], workspace) ==>
                forall i {:trigger FirstSeen(apps[..appCount], workspace, i)} ::
                  FirstSeen(apps[..appCount], workspace, i) ==> windows.Order()[place[i]].focused
      ensures LaidOut(windows.Order(), apps[..appCount], place, workspace, arena, arenaPixels, tiles, layout.border)
    {
      ghost var order, all := windows.Order(), apps[..appCount];
      forall i | 0 <= i < appCount && OnScreen(apps[i], workspace) ensures !order[place[i]].minimized {
        ShownIsUp(order, all, place, workspace, arena, arenaPixels, tiles, layout.border, i);
      }
      moved := SettleFocus(place);
      if moved >= 0 {
        forall i | FirstSeen(all, workspace, i) && all[i].id == moved ensures windows.Order()[place[i]].focused {
          FirstHasFocus(order, all, place, workspace, moved, i);
        }
        FocusLeavesLayout(order, moved, all, place, workspace, arena, arenaPixels, tiles, layout.border);
      }
    }

    /** There is room for the tile of everything visible. */
    ghost predicate HasRoom()
      requires appCount <= apps.Length
      reads this, apps
    {
      var n := |Visible(apps[..appCount], workspace)|;
      forall k :: 0 <= k < n ==> CanHand(arena, arenaPixels, layout.border, TilesOf(layout, screenWidth, screenHeight, n), k)
    }

    /** `desktop_relayout`: refused without a change when the layout cannot hold what is
        visible; otherwise, with room, every app on the screen gets its tile and its slice,
        the others are put away, and the focus is on the screen, where it was if it could
        stay. */
    method Relayout(ghost place: seq<nat>) returns (ok: bool, ghost stopped: nat)
      requires Valid(place)
      modifies apps, windows.slots, windows.zSlots
      ensures Valid(place) && Visible(apps[..appCount], workspace) == old(Visible(apps[..appCount], workspace))
      ensures !old(Holds()) ==> !ok && windows.Order() == old(windows.Order()) && apps[..] == old(apps[..])
      ensures ok <==> old(Holds()) && old(HasRoom())
      ensures old(Holds()) && Roomy(layout, screenWidth, screenHeight, arenaPixels) ==> ok
      ensures ok ==> InPlace(place) && FocusSeen(windows.Order(), apps[..appCount], place, workspace)
      ensures !ok && old(Holds()) ==> StoppedAt(old(windows.Order()), old(apps[..appCount]), place, stopped)
      ensures ok && HasFocus(old(windows.Order()), apps[..appCount], workspace) ==>
                FocusOf(windows.Order()) == FocusOf(old(windows.Order()))
      ensures ok && !HasFocus(old(windows.Order()), apps[..appCount], workspace) ==>
                forall i {:trigger FirstSeen(apps[..appCount], workspace, i)} ::
                  FirstSeen(apps[..appCount], workspace, i) ==> windows.Order()[place[i]].focused
    {
      ghost var before := windows.Order();
      ok, stopped := Arrange(place);
      if !ok { return; }
      SameFocus(before, windows.Order());
      ghost var moved := SettleLaidOut(place, TilesOf(layout, screenWidth, screenHeight, |Visible(apps[..appCount], workspace)|));
    }

    /** Every app on the screen has the tile the layout gives it, and no other has one. */
    ghost predicate InPlace(place: seq<nat>)
      requires Sized()
      reads this, windows, windows.slots, windows.zSlots, apps
    {
      var tiles := TilesOf(layout, screenWidth, screenHeight, |Visible(apps[..appCount], workspace)|);
      Tiled(layout, screenWidth, screenHeight, tiles) &&
      LaidOut(windows.Order(), apps[..appCount], place, workspace, arena, arenaPixels, tiles, layout.border)
    }

    /** The tile `n` the layout gives is the first that cannot be handed out, and everything
        is as it was left there. */
    ghost predicate StoppedAt(before: seq<Window>, was: seq<App>, place: seq<nat>, n: nat)
      requires Sized()
      reads this, windows, windows.slots, windows.zSlots, apps
    {
      HalfLaid(before, was, windows.Order(), apps[..appCount], place, workspace, arena, arenaPixels,
               TilesOf(layout, screenWidth, screenHeight, |Visible(was, workspace)|), layout.border, n)
    }

    /** All of it but the focus. */
    method Arrange(ghost place: seq<nat>) returns (ok: bool, ghost stopped: nat)
      requires Valid(place)
      modifies apps, windows.slots
      ensures Valid(place) && Visible(apps[..appCount], workspace) == old(Visible(apps[..appCount], workspace))
      ensures !old(Holds()) ==> !ok && windows.Order() == old(windows.Order()) && apps[..] == old(apps[..])
      ensures ok <==> old(Holds()) && old(HasRoom())
      ensures old(Holds()) && Roomy(layout, screenWidth, screenHeight, arenaPixels) ==> ok
      ensures ok ==> SameWindows(old(windows.Order()), windows.Order()) && InPlace(place)
      ensures !ok && old(Holds()) ==> StoppedAt(old(windows.Order()), old(apps[..appCount]), place, stopped)
    {
      var order, tiles, visible;
      ok, order, tiles, visible := Survey();
      stopped := 0;
      if !ok { return; }
      ghost var t := tiles[..visible];
      ok, stopped := ArrangeAll(order, tiles, visible, place);
      if Roomy(layout, screenWidth, screenHeight, arenaPixels) {
        RoomForAll(layout, screenWidth, screenHeight, arena, arenaPixels, t);
      }
    }

    /** What is visible, and where it goes. */
    method Survey() returns (ok: bool, order: array<nat>, tiles: array<Tile.Area>, visible: nat)
      requires Sized()
      ensures fresh(order) && fresh(tiles) && visible <= order.Length && visible <= tiles.Length
      ensures order[..visible] == Visible(apps[..appCount], workspace)
      ensures ok == Holds()
      ensures ok ==> tiles[..visible] == TilesOf(layout, screenWidth, screenHeight, visible)
      ensures ok ==> Tiled(layout, screenWidth, screenHeight, tiles[..visible])
      ensures ok ==> forall k :: 0 <= k < visible ==> tiles[k].width >= 0 && tiles[k].height >= 0
    {
      order := new nat[MAX_APPS];
      visible := FindVisible(order);
      tiles := new Tile.Area[MAX_APPS];
      ok := PlaceTiles(visible, tiles);
      if ok { NoNegativeTiles(layout, screenWidth, screenHeight, tiles[..visible]); }
    }
  }
}
