// Rectangles of the screen (kernel/src/region.c). Coordinates are unbounded.
module Region {

  datatype Region = Region(x: int, y: int, width: int, height: int)

  const NONE: Region := Region(0, 0, 0, 0)

  predicate Empty(r: Region) { r.width <= 0 || r.height <= 0 }

  /** The pixel is in the rectangle. */
  predicate Covers(r: Region, x: int, y: int) {
    r.x <= x < r.x + r.width && r.y <= y < r.y + r.height
  }

  /** `region_make`: a rectangle with no pixels is always the same one. */
  function Make(x: int, y: int, width: int, height: int): (r: Region)
    ensures forall i, j :: Covers(r, i, j) <==> x <= i < x + width && y <= j < y + height
    ensures Empty(r) ==> r == NONE
  {
    if width <= 0 || height <= 0 then NONE else Region(x, y, width, height)
  }

  function Least(a: int, b: int): int { if a < b then a else b }

  function Most(a: int, b: int): int { if a > b then a else b }

  /** `region_intersect`: the pixels in both, and no others. */
  function Intersect(a: Region, b: Region): (r: Region)
    ensures forall i, j :: Covers(r, i, j) <==> Covers(a, i, j) && Covers(b, i, j)
    ensures Empty(r) ==> r == NONE
  {
    if Empty(a) || Empty(b) then
      NONE
    else
      var left, top := Most(a.x, b.x), Most(a.y, b.y);
      Make(left, top, Least(a.x + a.width, b.x + b.width) - left, Least(a.y + a.height, b.y + b.height) - top)
  }

  /** `region_union`: the smallest rectangle holding both. */
  function Union(a: Region, b: Region): (r: Region)
    ensures forall i, j :: Covers(a, i, j) || Covers(b, i, j) ==> Covers(r, i, j)
  {
    if Empty(a) then
      if Empty(b) then NONE else b
    else if Empty(b) then
      a
    else
      var left, top := Least(a.x, b.x), Least(a.y, b.y);
      Make(left, top, Most(a.x + a.width, b.x + b.width) - left, Most(a.y + a.height, b.y + b.height) - top)
  }

  ghost predicate Holds(r: Region, a: Region) { forall i, j :: Covers(a, i, j) ==> Covers(r, i, j) }

  /** Any rectangle holding both holds their union. */
  lemma UnionIsLeast(a: Region, b: Region, r: Region)
    requires Holds(r, a) && Holds(r, b)
    ensures Holds(r, Union(a, b))
  {
    if !Empty(a) { Corners(r, a); }
    if !Empty(b) { Corners(r, b); }
  }

  lemma Corners(r: Region, a: Region)
    requires Holds(r, a) && !Empty(a)
    ensures r.x <= a.x && a.x + a.width <= r.x + r.width
    ensures r.y <= a.y && a.y + a.height <= r.y + r.height
  {
    assert Covers(a, a.x, a.y);
    assert Covers(a, a.x + a.width - 1, a.y + a.height - 1);
  }

  /** `region_clip`: trimmed to a surface. */
  function Clip(r: Region, width: int, height: int): (c: Region)
    ensures forall i, j :: Covers(c, i, j) <==> Covers(r, i, j) && 0 <= i < width && 0 <= j < height
    ensures Empty(c) ==> c == NONE
  {
    Intersect(r, Make(0, 0, width, height))
  }
}
