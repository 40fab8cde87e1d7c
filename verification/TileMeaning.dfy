// Where the tiles are, said by the edges of the screen, the bars and the gaps alone
// (kernel/src/tile.c:44-143).
module TileMeaning {
  import opened Tile

  /** What a layout may use: between the bars, and the outer gap away from them and from
      the sides. */
  datatype Edges = Edges(left: int, top: int, right: int, bottom: int)

  function Max0(v: int): (m: int)
    ensures m >= 0 && m >= v && (m == 0 || m == v)
  {
    if v > 0 then v else 0
  }

  function EdgesOf(c: Config, screenWidth: int, screenHeight: int): Edges {
    var gap := Max0(c.outerGap);
    Edges(gap, Max0(c.topBar) + gap, screenWidth - gap, screenHeight - Max0(c.bottomBar) - gap)
  }

  /** An area that keeps inside the edges. */
  predicate Clear(a: Area, e: Edges) {
    a.width > 0 && a.height > 0 && e.left <= a.x && a.x + a.width <= e.right && e.top <= a.y && a.y + a.height <= e.bottom
  }

  /** That is the workspace, and it is the largest area inside the edges. */
  lemma WorkspaceIs(c: Config, screenWidth: int, screenHeight: int, a: Area)
    ensures var e, w := EdgesOf(c, screenWidth, screenHeight), Workspace(c, screenWidth, screenHeight);
            && (w.width > 0 <==> e.left < e.right && e.top < e.bottom)
            && (w.width > 0 ==> w == Area(e.left, e.top, e.right - e.left, e.bottom - e.top))
            && (Clear(a, e) ==> w.width > 0 && Inside(a, w))
  {
  }

  // ----- rows

  /** `count` tiles, one below the other with a gap between, from the top to the bottom. All
      are as high, but the last, which has what is left over of sharing the height out. */
  ghost predicate Column(tiles: seq<Area>, from: nat, count: nat, x: int, width: int, top: int, bottom: int, gap: int) {
    && 0 < count && from + count <= |tiles|
    && (forall i :: from <= i < from + count ==> tiles[i].x == x && tiles[i].width == width > 0 && tiles[i].height > 0)
    && tiles[from].y == top && tiles[from + count - 1].y + tiles[from + count - 1].height == bottom
    && (forall i {:trigger tiles[i]} :: from <= i < from + count - 1 ==>
          tiles[i + 1].y == tiles[i].y + tiles[i].height + gap && tiles[i].height == tiles[from].height)
    && tiles[from].height <= tiles[from + count - 1].height < tiles[from].height + count
  }

  lemma RowsAreColumn(c: Config, a: Area, count: nat, tiles: seq<Area>, from: nat)
    requires count > 0 && Holds(c, a, count) && c.minWidth > 0 && c.minHeight > 0 && c.innerGap >= 0
    requires from + count <= |tiles| && forall i :: from <= i < from + count ==> tiles[i] == RowOf(c, a, count, i - from)
    ensures Column(tiles, from, count, a.x, a.width, a.y, a.y + a.height, c.innerGap)
  {
    var each := Each(c, a, count);
    EachFits(c, a, count);
    Products(count, each, c.innerGap);
    LastRowEnds(c, a, count);
    forall i | from <= i < from + count
      ensures tiles[i].x == a.x && tiles[i].width == a.width > 0 && tiles[i].height > 0
    {
      RowFits(c, a, count, i - from);
    }
    forall i | from <= i < from + count - 1
      ensures tiles[i + 1].y == tiles[i].y + tiles[i].height + c.innerGap && tiles[i].height == tiles[from].height
    {
      NextTop(c, a, count, i - from);
    }
    assert tiles[from] == RowOf(c, a, count, 0);
    LastHeight(c, a, count);
  }

  lemma NextTop(c: Config, a: Area, count: nat, i: nat)
    requires i + 1 < count && Holds(c, a, count) && c.minWidth > 0 && c.minHeight > 0 && c.innerGap >= 0
    ensures RowOf(c, a, count, i + 1).y == RowOf(c, a, count, i).y + RowOf(c, a, count, i).height + c.innerGap
    ensures RowOf(c, a, count, i).height == Each(c, a, count) == RowOf(c, a, count, 0).height
  {
    RowFits(c, a, count, i);
    RowFits(c, a, count, i + 1);
    var step := Each(c, a, count) + c.innerGap;
    assert (i + 1) * step == i * step + step;
  }

  lemma LastHeight(c: Config, a: Area, count: nat)
    requires count > 0 && Holds(c, a, count) && c.minWidth > 0 && c.minHeight > 0 && c.innerGap >= 0
    ensures Each(c, a, count) <= RowOf(c, a, count, count - 1).height < Each(c, a, count) + count
    ensures count > 1 ==> RowOf(c, a, count, 0).height == Each(c, a, count)
  {
    var each, room := Each(c, a, count), a.height - c.innerGap * (count - 1);
    Products(count, each, c.innerGap);
    RowFits(c, a, count, count - 1);
    assert room == count * each + room % count;
    if count > 1 { RowFits(c, a, count, 0); }
  }

  // ----- the layout

  /** `tiles` is what a layout of so many gives. */
  ghost predicate LaidBy(config: Config, screenWidth: int, screenHeight: int, tiles: seq<Area>) {
    var c, w := Floored(config), Workspace(config, screenWidth, screenHeight);
    HoldsAll(c, w, |tiles|) && forall i :: 0 <= i < |tiles| ==> tiles[i] == TileOf(c, w, |tiles|, i)
  }

  /** The percentage of the left column, no less than 10 and no more than 90. */
  ghost predicate Share(percent: int, p: int) {
    10 <= p <= 90 && (10 <= percent <= 90 ==> p == percent) && (percent < 10 ==> p == 10) && (percent > 90 ==> p == 90)
  }

  /** One tile takes all there is between the edges. More stand in two columns that reach
      from edge to edge with a gap between them: half of them, rounded down, on the left,
      which has its share of the width, rounded down. */
  ghost predicate InColumns(config: Config, e: Edges, tiles: seq<Area>, p: int, width: int) {
    var n, gap := |tiles|, Max0(config.innerGap);
    var usable := e.right - e.left - gap;
    if n == 1 then Column(tiles, 0, 1, e.left, e.right - e.left, e.top, e.bottom, gap)
    else
      && n > 1 && Share(config.masterPercent, p) && 100 * width <= p * usable < 100 * (width + 1)
      && Column(tiles, 0, n / 2, e.left, width, e.top, e.bottom, gap)
      && Column(tiles, n / 2, n - n / 2, e.left + width + gap, usable - width, e.top, e.bottom, gap)
  }

  lemma LayoutMeans(config: Config, screenWidth: int, screenHeight: int, tiles: seq<Area>)
    requires LaidBy(config, screenWidth, screenHeight, tiles) && config.minWidth > 0 && config.minHeight > 0
    ensures InColumns(config, EdgesOf(config, screenWidth, screenHeight), tiles, Percent(config),
                      LeftWidth(Floored(config), Workspace(config, screenWidth, screenHeight)))
  {
    WorkspaceIs(config, screenWidth, screenHeight, NO_AREA);
    TilesInColumns(config, Floored(config), Workspace(config, screenWidth, screenHeight),
                   EdgesOf(config, screenWidth, screenHeight), tiles);
  }

  lemma TilesInColumns(config: Config, c: Config, w: Area, e: Edges, tiles: seq<Area>)
    requires c == Floored(config) && c.minWidth > 0 && c.minHeight > 0 && HoldsAll(c, w, |tiles|)
    requires w == Area(e.left, e.top, e.right - e.left, e.bottom - e.top)
    requires forall i :: 0 <= i < |tiles| ==> tiles[i] == TileOf(c, w, |tiles|, i)
    ensures InColumns(config, e, tiles, Percent(config), LeftWidth(c, w))
  {
    var n, none, gap := |tiles|, 0, Max0(config.innerGap);
    if n == 1 {
      RowsAreColumn(c, w, n, tiles, none);
    } else {
      Columns(c, w);
      SharesWidth(config, e, c, w);
      BothColumns(c, w, tiles, n / 2, e, gap, e.right - e.left - gap, LeftWidth(c, w));
    }
  }

  lemma BothColumns(c: Config, w: Area, tiles: seq<Area>, half: nat, e: Edges, gap: int, usable: int, width: int)
    requires |tiles| > 1 && half == |tiles| / 2 && HoldsAll(c, w, |tiles|)
    requires forall i :: 0 <= i < |tiles| ==> tiles[i] == TileOf(c, w, |tiles|, i)
    requires c.minWidth > 0 && c.minHeight > 0 && c.innerGap >= 0
    requires w.x == e.left && w.x + w.width == e.right && w.y == e.top && w.y + w.height == e.bottom
    requires gap == c.innerGap && usable == e.right - e.left - gap && width == LeftWidth(c, w)
    ensures Column(tiles, 0, half, e.left, width, e.top, e.bottom, gap)
    ensures Column(tiles, half, |tiles| - half, e.left + width + gap, usable - width, e.top, e.bottom, gap)
  {
    assert forall i :: 0 <= i < half ==> tiles[i] == RowOf(c, LeftColumn(c, w), half, i);
    assert forall i :: half <= i < |tiles| ==> tiles[i] == RowOf(c, RightColumn(c, w), |tiles| - half, i - half);
    LeftIsColumn(c, w, tiles, half, e);
    RightIsColumn(c, w, tiles, half, e);
  }

  lemma SharesWidth(config: Config, e: Edges, c: Config, w: Area)
    requires c == Floored(config) && w.width == e.right - e.left && LeftColumn(c, w).width > 0
    ensures var usable := e.right - e.left - Max0(config.innerGap);
            Share(config.masterPercent, Percent(config)) &&
            100 * LeftWidth(c, w) <= Percent(config) * usable < 100 * (LeftWidth(c, w) + 1)
  {
    LeftShare(c, w);
  }

  lemma LeftIsColumn(c: Config, w: Area, tiles: seq<Area>, half: nat, e: Edges)
    requires |tiles| > 1 && half == |tiles| / 2 && HoldsAll(c, w, |tiles|)
    requires forall i :: 0 <= i < half ==> tiles[i] == RowOf(c, LeftColumn(c, w), half, i)
    requires c.minWidth > 0 && c.minHeight > 0 && c.innerGap >= 0
    requires w.x == e.left && w.y == e.top && w.y + w.height == e.bottom
    ensures Column(tiles, 0, half, e.left, LeftWidth(c, w), e.top, e.bottom, c.innerGap)
  {
    var none := 0;
    RowsAreColumn(c, LeftColumn(c, w), half, tiles, none);
  }

  lemma RightIsColumn(c: Config, w: Area, tiles: seq<Area>, half: nat, e: Edges)
    requires |tiles| > 1 && half == |tiles| / 2 && HoldsAll(c, w, |tiles|)
    requires forall i :: half <= i < |tiles| ==> tiles[i] == RowOf(c, RightColumn(c, w), |tiles| - half, i - half)
    requires c.minWidth > 0 && c.minHeight > 0 && c.innerGap >= 0
    requires w.x == e.left && w.x + w.width == e.right && w.y == e.top && w.y + w.height == e.bottom
    ensures Column(tiles, half, |tiles| - half, e.left + LeftWidth(c, w) + c.innerGap,
                   e.right - e.left - c.innerGap - LeftWidth(c, w), e.top, e.bottom, c.innerGap)
  {
    RowsAreColumn(c, RightColumn(c, w), |tiles| - half, tiles, half);
  }

  lemma LeftShare(c: Config, w: Area)
    requires LeftWidth(c, w) > 0
    ensures var usable := w.width - c.innerGap;
            100 * LeftWidth(c, w) <= Percent(c) * usable < 100 * (LeftWidth(c, w) + 1)
  {
  }

  /** No tile is on a bar, or nearer to a bar or a side than the outer gap. */
  lemma KeepsClear(config: Config, screenWidth: int, screenHeight: int, tiles: seq<Area>, i: nat)
    requires LaidBy(config, screenWidth, screenHeight, tiles) && config.minWidth > 0 && config.minHeight > 0 && i < |tiles|
    ensures var t, gap := tiles[i], Max0(config.outerGap);
            && gap <= t.x && t.x + t.width <= screenWidth - gap
            && Max0(config.topBar) + gap <= t.y && t.y + t.height <= screenHeight - Max0(config.bottomBar) - gap
  {
    TilesFit(Floored(config), Workspace(config, screenWidth, screenHeight), |tiles|, i);
    WorkspaceIs(config, screenWidth, screenHeight, tiles[i]);
  }

  /** And some tile comes as near as that on each of the four sides. */
  lemma ReachesEdges(config: Config, screenWidth: int, screenHeight: int, tiles: seq<Area>)
    requires LaidBy(config, screenWidth, screenHeight, tiles) && config.minWidth > 0 && config.minHeight > 0
    ensures var e, last := EdgesOf(config, screenWidth, screenHeight), |tiles| - 1;
            && tiles != [] && tiles[0].x == e.left && tiles[0].y == e.top
            && tiles[last].x + tiles[last].width == e.right && tiles[last].y + tiles[last].height == e.bottom
  {
    LayoutMeans(config, screenWidth, screenHeight, tiles);
  }

  // ----- when there is a layout

  /** So many rows of at least the least height go into that height. */
  ghost predicate RowsGo(height: int, count: nat, least: int, gap: int) {
    count > 0 && count * least + (count - 1) * gap <= height
  }

  lemma EachIsEnough(c: Config, a: Area, count: nat)
    requires count > 0 && c.minHeight > 0
    ensures Each(c, a, count) >= c.minHeight <==> RowsGo(a.height, count, c.minHeight, c.innerGap)
  {
    var room := a.height - c.innerGap * (count - 1);
    assert c.innerGap * (count - 1) == (count - 1) * c.innerGap;
    if room >= 0 { Shares(room, count, c.minHeight); } else { NoShare(room, count, c.minHeight); }
  }

  lemma Shares(room: nat, count: nat, least: int)
    requires count > 0
    ensures room / count >= least <==> count * least <= room
  {
    var q, r := room / count, room % count;
    assert room == count * q + r;
    if q >= least { Times(count, least, q); } else { Times(count, q + 1, least); }
  }

  lemma Times(n: nat, a: int, b: int)
    requires a <= b
    ensures n * a <= n * b
  {
  }

  lemma NoShare(room: int, count: nat, least: int)
    requires count > 0 && room < 0 && least > 0
    ensures -(-room / count) < least && count * least > room
  {
    Times(count, 0, least);
  }

  /** There is a layout exactly when there is something between the edges, and every tile
      can be at least as wide and high as it must. */
  lemma LayoutAccepted(config: Config, screenWidth: int, screenHeight: int, n: nat)
    requires config.minWidth > 0 && config.minHeight > 0 && n > 0
    ensures var e, gap := EdgesOf(config, screenWidth, screenHeight), Max0(config.innerGap);
            var width, usable := LeftWidth(Floored(config), Workspace(config, screenWidth, screenHeight)), e.right - e.left - gap;
            HoldsAll(Floored(config), Workspace(config, screenWidth, screenHeight), n) <==>
              && e.left < e.right && e.top < e.bottom
              && (n == 1 ==> e.right - e.left >= config.minWidth && RowsGo(e.bottom - e.top, 1, config.minHeight, gap))
              && (n > 1 ==>
                    && Percent(config) * usable >= 100 * config.minWidth && usable - width >= config.minWidth
                    && RowsGo(e.bottom - e.top, n - n / 2, config.minHeight, gap)
                    && RowsGo(e.bottom - e.top, n / 2, config.minHeight, gap))
  {
    var c, w := Floored(config), Workspace(config, screenWidth, screenHeight);
    WorkspaceIs(config, screenWidth, screenHeight, w);
    if n == 1 {
      EachIsEnough(c, w, 1);
    } else {
      EachIsEnough(c, LeftColumn(c, w), n / 2);
      EachIsEnough(c, RightColumn(c, w), n - n / 2);
      WideEnough(c, w);
    }
  }

  lemma WideEnough(c: Config, w: Area)
    requires c.minWidth > 0
    ensures LeftWidth(c, w) >= c.minWidth <==> Percent(c) * (w.width - c.innerGap) >= 100 * c.minWidth
  {
  }
}
