// Where the visible windows go: two columns of rows (kernel/src/tile.c).
module Tile {

  datatype Area = Area(x: int, y: int, width: int, height: int)

  const NO_AREA: Area := Area(0, 0, 0, 0)

  datatype Config = Config(topBar: int, bottomBar: int, outerGap: int, innerGap: int, border: int,
                           minWidth: int, minHeight: int, masterPercent: int)

  const DEFAULTS: Config := Config(28, 34, 10, 8, 2, 120, 80, 50)

  function Floor0(v: int): int { if v < 0 then 0 else v }

  /** `area_make`. */
  function MakeArea(x: int, y: int, width: int, height: int): (r: Area)
    ensures r.width > 0 <==> width > 0 && height > 0
    ensures r.height > 0 <==> width > 0 && height > 0
  {
    if width <= 0 || height <= 0 then NO_AREA else Area(x, y, width, height)
  }

  /** `tile_workspace`: the screen less the bars and the outer gap. */
  function Workspace(c: Config, screenWidth: int, screenHeight: int): (r: Area)
    ensures r.width > 0 ==> Inside(r, Area(0, 0, screenWidth, screenHeight))
  {
    var top, bottom, gap := Floor0(c.topBar), Floor0(c.bottomBar), Floor0(c.outerGap);
    MakeArea(gap, top + gap, screenWidth - 2 * gap, screenHeight - top - bottom - 2 * gap)
  }

  predicate Inside(a: Area, b: Area) {
    b.x <= a.x && a.x + a.width <= b.x + b.width && b.y <= a.y && a.y + a.height <= b.y + b.height
  }

  /** No pixel is in both. */
  predicate Disjoint(a: Area, b: Area) {
    a.x + a.width <= b.x || b.x + b.width <= a.x || a.y + a.height <= b.y || b.y + b.height <= a.y
  }

  predicate BigEnough(c: Config, a: Area) { a.width >= c.minWidth && a.height >= c.minHeight }

  // ----- one column

  /** The height of every row but the last: C division, toward zero. */
  function Each(c: Config, a: Area, count: nat): int
    requires count > 0
  {
    var room := a.height - c.innerGap * (count - 1);
    if room >= 0 then room / count else -(-room / count)
  }

  function Top(c: Config, a: Area, each: int, i: nat): int { a.y + i * (each + c.innerGap) }

  /** Row `i`: the last takes what is left over. */
  function RowOf(c: Config, a: Area, count: nat, i: nat): Area
    requires i < count
  {
    var each := Each(c, a, count);
    var top := Top(c, a, each, i);
    MakeArea(a.x, top, a.width, if i + 1 == count then a.y + a.height - top else each)
  }

  /** The column can hold the rows. */
  predicate Holds(c: Config, a: Area, count: nat)
    requires count > 0
  {
    Each(c, a, count) >= c.minHeight && a.width >= c.minWidth
  }

  lemma Products(count: nat, each: int, gap: int)
    requires count > 0
    ensures (count - 1) * (each + gap) + each == count * each + gap * (count - 1)
  {
  }

  lemma EachFits(c: Config, a: Area, count: nat)
    requires count > 0 && Each(c, a, count) > 0
    ensures count * Each(c, a, count) + c.innerGap * (count - 1) <= a.height
  {
    var room := a.height - c.innerGap * (count - 1);
    assert room > 0;
    RoundsDown(room, count);
  }

  lemma RoundsDown(room: nat, count: nat)
    requires count > 0
    ensures count * (room / count) <= room
  {
  }

  /** Rows further down start further down. */
  lemma {:induction false} TopsGrow(c: Config, a: Area, each: int, i: nat, j: nat)
    requires i <= j && each + c.innerGap >= 0
    ensures Top(c, a, each, j) >= Top(c, a, each, i)
    ensures i < j ==> Top(c, a, each, j) >= Top(c, a, each, i) + each + c.innerGap
    decreases j
  {
    if i < j {
      TopsGrow(c, a, each, i, j - 1);
      assert j * (each + c.innerGap) == (j - 1) * (each + c.innerGap) + (each + c.innerGap);
    }
  }

  /** A row is in its column, at least as big as it must be, and clear of the rows
      above it. */
  lemma RowFits(c: Config, a: Area, count: nat, i: nat)
    requires count > 0 && i < count && Holds(c, a, count) && c.minWidth > 0 && c.minHeight > 0 && c.innerGap >= 0
    ensures Inside(RowOf(c, a, count, i), a) && BigEnough(c, RowOf(c, a, count, i))
    ensures RowOf(c, a, count, i).x == a.x && RowOf(c, a, count, i).width == a.width
    ensures forall j :: 0 <= j < i ==> Disjoint(RowOf(c, a, count, j), RowOf(c, a, count, i))
  {
    var each := Each(c, a, count);
    EachFits(c, a, count);
    Products(count, each, c.innerGap);
    TopsGrow(c, a, each, 0, i);
    TopsGrow(c, a, each, i, count - 1);
    forall j | 0 <= j < i ensures Disjoint(RowOf(c, a, count, j), RowOf(c, a, count, i)) { TopsGrow(c, a, each, j, i); }
  }

  /** The last row ends where the column does. */
  lemma LastRowEnds(c: Config, a: Area, count: nat)
    requires count > 0 && Holds(c, a, count) && c.minWidth > 0 && c.minHeight > 0 && c.innerGap >= 0
    ensures var r := RowOf(c, a, count, count - 1); r.y + r.height == a.y + a.height
  {
    RowFits(c, a, count, count - 1);
  }

  /** `split_rows`: all the rows, or none. */
  method SplitRows(c: Config, area: Area, count: nat, out: array<Area>, from: nat) returns (placed: nat)
    requires from + count <= out.Length
    modifies out
    ensures placed == if count > 0 && Holds(c, area, count) then count else 0
    ensures forall i :: 0 <= i < out.Length ==>
              out[i] == if from <= i < from + placed then RowOf(c, area, count, i - from) else old(out[i])
  {
    if count == 0 { return 0; }
    var gaps := c.innerGap * (count - 1);
    var each := if area.height - gaps >= 0 then (area.height - gaps) / count else -(-(area.height - gaps) / count);
    if each < c.minHeight || area.width < c.minWidth { return 0; }
    var i := 0;
    while i < count
      invariant 0 <= i <= count
      invariant forall k :: 0 <= k < out.Length ==>
                  out[k] == if from <= k < from + i then RowOf(c, area, count, k - from) else old(out[k])
    {
      var top := area.y + i * (each + c.innerGap);
      var height := if i + 1 == count then area.y + area.height - top else each;
      out[from + i] := MakeArea(area.x, top, area.width, height);
      i := i + 1;
    }
    return count;
  }

  // ----- two columns

  /** The settings `tile_layout` works with: nothing negative. */
  function Floored(c: Config): Config {
    c.(innerGap := Floor0(c.innerGap), minWidth := Floor0(c.minWidth), minHeight := Floor0(c.minHeight))
  }

  function Percent(c: Config): int {
    if c.masterPercent < 10 then 10 else if c.masterPercent > 90 then 90 else c.masterPercent
  }

  /** The width of the left column: C division, toward zero. */
  function LeftWidth(c: Config, w: Area): int {
    var usable := w.width - c.innerGap;
    if usable >= 0 then usable * Percent(c) / 100 else -(-usable * Percent(c) / 100)
  }

  function LeftColumn(c: Config, w: Area): Area { MakeArea(w.x, w.y, LeftWidth(c, w), w.height) }

  function RightColumn(c: Config, w: Area): Area {
    MakeArea(w.x + LeftWidth(c, w) + c.innerGap, w.y, w.width - c.innerGap - LeftWidth(c, w), w.height)
  }

  /** The workspace holds that many tiles. */
  predicate HoldsAll(c: Config, w: Area, count: nat) {
    count > 0 && w.width > 0 &&
    if count == 1 then Holds(c, w, 1)
    else Holds(c, LeftColumn(c, w), count / 2) && Holds(c, RightColumn(c, w), count - count / 2)
  }

  /** Tile `i` of `count`. */
  function TileOf(c: Config, w: Area, count: nat, i: nat): Area
    requires i < count
  {
    if count == 1 then RowOf(c, w, 1, 0)
    else if i < count / 2 then RowOf(c, LeftColumn(c, w), count / 2, i)
    else RowOf(c, RightColumn(c, w), count - count / 2, i - count / 2)
  }

  /** The two columns share the workspace without meeting. */
  lemma Columns(c: Config, w: Area)
    requires c.minWidth > 0 && c.innerGap >= 0
    requires LeftColumn(c, w).width >= c.minWidth && RightColumn(c, w).width >= c.minWidth
    ensures Inside(LeftColumn(c, w), w) && Inside(RightColumn(c, w), w)
    ensures LeftColumn(c, w).x + LeftColumn(c, w).width <= RightColumn(c, w).x
    ensures LeftColumn(c, w).width + RightColumn(c, w).width <= w.width
    ensures LeftColumn(c, w).height == w.height == RightColumn(c, w).height
  {
  }

  /** A tile is inside the workspace, no smaller than it may be, and shares no pixel with
      the tiles before it. */
  lemma TilesFit(c: Config, w: Area, count: nat, i: nat)
    requires c.minWidth > 0 && c.minHeight > 0 && c.innerGap >= 0 && HoldsAll(c, w, count) && i < count
    ensures Inside(TileOf(c, w, count, i), w) && BigEnough(c, TileOf(c, w, count, i))
    ensures forall j :: 0 <= j < i ==> Disjoint(TileOf(c, w, count, j), TileOf(c, w, count, i))
  {
    if count == 1 {
      RowFits(c, w, 1, 0);
    } else {
      Columns(c, w);
      var half := count / 2;
      if i < half {
        RowFits(c, LeftColumn(c, w), half, i);
      } else {
        RowFits(c, RightColumn(c, w), count - half, i - half);
        forall j | 0 <= j < i ensures Disjoint(TileOf(c, w, count, j), TileOf(c, w, count, i)) {
          if j < half { RowFits(c, LeftColumn(c, w), half, j); }
        }
      }
    }
  }

  /** `tile_layout`: all the tiles, or none. */
  method Layout(config: Config, screenWidth: int, screenHeight: int, count: nat, out: array<Area>, capacity: nat)
    returns (placed: nat)
    requires capacity <= out.Length
    modifies out
    ensures var c := Floored(config); var w := Workspace(config, screenWidth, screenHeight);
            var n := if count > capacity then capacity else count;
            placed == (if HoldsAll(c, w, n) then n else 0) &&
            forall i :: 0 <= i < placed ==> out[i] == TileOf(c, w, n, i)
  {
    if count == 0 || capacity == 0 { return 0; }
    var n := if count > capacity then capacity else count;
    var c := Floored(config);
    var w := Workspace(config, screenWidth, screenHeight);
    if w.width <= 0 || w.height <= 0 { return 0; }
    if n == 1 {
      placed := SplitRows(c, w, 1, out, 0);
      return;
    }
    var leftCount := n / 2;
    var rightCount := n - leftCount;
    var placedLeft := SplitRows(c, LeftColumn(c, w), leftCount, out, 0);
    if placedLeft != leftCount { return 0; }
    var placedRight := SplitRows(c, RightColumn(c, w), rightCount, out, leftCount);
    if placedRight != rightCount { return 0; }
    return n;
  }

  // ----- pixels

  function Pixels(a: Area): int { a.width * a.height }

  /** The pixels of the first `k` tiles. */
  function Taken(tiles: seq<Area>, k: nat): int
    requires k <= |tiles|
  {
    if k == 0 then 0 else Taken(tiles, k - 1) + Pixels(tiles[k - 1])
  }

  lemma Wider(a: int, b: int, height: nat)
    requires a <= b
    ensures a * height <= b * height
  {
  }

  /** How far down the column the first `k` rows and the gaps after them reach. */
  function Depth(c: Config, a: Area, count: nat, k: nat): int
    requires count > 0
  {
    if k == count then a.height else Top(c, a, Each(c, a, count), k) - a.y
  }

  lemma NextRow(c: Config, a: Area, count: nat, k: nat)
    requires k < count && Holds(c, a, count) && c.minWidth > 0 && c.minHeight > 0 && c.innerGap >= 0
    ensures Depth(c, a, count, k) + RowOf(c, a, count, k).height <= Depth(c, a, count, k + 1)
    ensures RowOf(c, a, count, k).width == a.width
  {
    RowFits(c, a, count, k);
    TopsGrow(c, a, Each(c, a, count), k, k + 1);
  }

  lemma Strip(width: nat, above: int, height: int, below: int)
    requires above + height <= below
    ensures width * above + width * height <= width * below
  {
    assert width * above + width * height == width * (above + height);
    Wider(above + height, below, width);
  }

  lemma {:induction false} RowsTake(c: Config, a: Area, count: nat, tiles: seq<Area>, from: nat, k: nat)
    requires count > 0 && Holds(c, a, count) && c.minWidth > 0 && c.minHeight > 0 && c.innerGap >= 0
    requires from + count <= |tiles| && forall i :: from <= i < from + count ==> tiles[i] == RowOf(c, a, count, i - from)
    requires k <= count
    ensures Taken(tiles, from + k) <= Taken(tiles, from) + a.width * Depth(c, a, count, k)
  {
    if k > 0 {
      RowsTake(c, a, count, tiles, from, k - 1);
      NextRow(c, a, count, k - 1);
      var row := tiles[from + k - 1];
      Strip(a.width, Depth(c, a, count, k - 1), row.height, Depth(c, a, count, k));
    }
  }

  lemma ColumnTakes(c: Config, a: Area, count: nat, tiles: seq<Area>, from: nat)
    requires count > 0 && Holds(c, a, count) && c.minWidth > 0 && c.minHeight > 0 && c.innerGap >= 0
    requires from + count <= |tiles| && forall i :: from <= i < from + count ==> tiles[i] == RowOf(c, a, count, i - from)
    ensures Taken(tiles, from + count) <= Taken(tiles, from) + Pixels(a)
  {
    RowsTake(c, a, count, tiles, from, count);
  }

  /** The tiles together take no more pixels than the workspace has. */
  lemma TilesTake(c: Config, w: Area, tiles: seq<Area>)
    requires c.minWidth > 0 && c.minHeight > 0 && c.innerGap >= 0 && HoldsAll(c, w, |tiles|)
    requires forall i :: 0 <= i < |tiles| ==> tiles[i] == TileOf(c, w, |tiles|, i)
    ensures Taken(tiles, |tiles|) <= Pixels(w)
  {
    var count, none := |tiles|, 0;
    if count == 1 {
      ColumnTakes(c, w, count, tiles, none);
    } else {
      var left, right := LeftColumn(c, w), RightColumn(c, w);
      Columns(c, w);
      ColumnTakes(c, left, count / 2, tiles, none);
      ColumnTakes(c, right, count - count / 2, tiles, count / 2);
      SideBySide(left, right, w);
    }
  }

  lemma SideBySide(left: Area, right: Area, w: Area)
    requires left.width + right.width <= w.width && left.height == w.height == right.height && w.height >= 0
    ensures Pixels(left) + Pixels(right) <= Pixels(w)
  {
    Wider(left.width + right.width, w.width, w.height);
  }

  lemma {:induction false} TakenGrows(tiles: seq<Area>, j: nat, k: nat)
    requires j <= k <= |tiles| && forall t :: t in tiles ==> t.width >= 0 && t.height >= 0
    ensures 0 <= Taken(tiles, j) <= Taken(tiles, k)
    decreases k
  {
    if j < k {
      TakenGrows(tiles, j, k - 1);
      assert tiles[k - 1] in tiles;
    } else if j > 0 {
      TakenGrows(tiles, j - 1, k - 1);
      assert tiles[k - 1] in tiles;
    }
  }
}
