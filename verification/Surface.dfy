// Pixels with local, clipped coordinates (kernel/src/surface.c).
module Surface {
  import opened Region

  type Colour = c: int | 0 <= c < 0x1_0000_0000

  /** Part of somebody's memory, read as rows `stride` apart. The memory is null in a
      surface that has been emptied. */
  datatype Surface = Surface(mem: array?<Colour>, base: nat, width: nat, height: nat, stride: nat) {

    /** `surface_valid`. */
    predicate Valid() { mem != null && width > 0 && height > 0 && stride >= width }

    /** What `surface_init` was promised: every pixel is inside the memory. */
    ghost predicate Backed() { Valid() ==> base + (height - 1) * stride + width <= mem.Length }

    function At(x: nat, y: nat): nat { base + y * stride + x }

    ghost function Column(i: nat): nat
      requires stride > 0 && i >= base
    {
      (i - base) % stride
    }

    ghost function Row(i: nat): nat
      requires stride > 0 && i >= base
    {
      (i - base) / stride
    }

    /** The cell is one of the surface's pixels, rather than between its rows. */
    ghost predicate Owns(i: nat) { Valid() && i >= base && Column(i) < width && Row(i) < height }

    predicate On(x: int, y: int) { 0 <= x < width && 0 <= y < height }

    /** `surface_pixel`. */
    function Pixel(x: int, y: int): Colour
      reads mem
    {
      if Valid() && On(x, y) && At(x, y) < mem.Length then mem[At(x, y)] else 0
    }

    lemma Placed(x: nat, y: nat)
      requires Valid() && Backed() && On(x, y)
      ensures At(x, y) < mem.Length && Owns(At(x, y)) && Column(At(x, y)) == x && Row(At(x, y)) == y
    {
      DivMod(x, y, stride);
      Rows(y, height - 1, stride);
    }

    lemma Unplaced(i: nat)
      requires Owns(i)
      ensures At(Column(i), Row(i)) == i
    {
    }
  }

  const NOTHING: Surface := Surface(null, 0, 0, 0, 0)

  lemma DivMod(x: nat, y: nat, stride: nat)
    requires x < stride
    ensures (y * stride + x) / stride == y && (y * stride + x) % stride == x
  {
    var q, r := (y * stride + x) / stride, (y * stride + x) % stride;
    assert (q - y) * stride == x - r;
    if q > y { Rows(1, q - y, stride); }
    if q < y { Rows(1, y - q, stride); }
  }

  lemma Rows(a: nat, b: nat, stride: nat)
    requires a <= b
    ensures a * stride <= b * stride
  {
  }

  /** `surface_init`. */
  function Init(pixels: array?<Colour>, start: nat, capacity: nat, width: nat, height: nat): (s: Surface)
    ensures s.Valid() <==> pixels != null && width > 0 && height > 0 && width * height <= capacity
    ensures s.Valid() ==> s == Surface(pixels, start, width, height, width)
    ensures !s.Valid() ==> s == NOTHING
  {
    if pixels == null || width == 0 || height == 0 || width * height > capacity then NOTHING
    else Surface(pixels, start, width, height, width)
  }

  lemma InitBacked(pixels: array<Colour>, start: nat, capacity: nat, width: nat, height: nat)
    requires start + capacity <= pixels.Length
    ensures Init(pixels, start, capacity, width, height).Backed()
  {
    if height > 0 { assert (height - 1) * width + width == width * height; }
  }

  /** `surface_view`: the whole rectangle, or nothing. */
  function View(parent: Surface, x: int, y: int, width: nat, height: nat): (s: Surface)
    ensures s.Valid() <==> parent.Valid() && width > 0 && height > 0 &&
                           x >= 0 && y >= 0 && x + width <= parent.width && y + height <= parent.height
    ensures !s.Valid() ==> s == NOTHING
    ensures s.Valid() ==> s.mem == parent.mem && s.width == width && s.height == height
  {
    if !parent.Valid() || width == 0 || height == 0 || x < 0 || y < 0 ||
       x + width > parent.width || y + height > parent.height then NOTHING
    else Surface(parent.mem, parent.At(x, y), width, height, parent.stride)
  }

  /** A view's pixels are its parent's, moved. */
  lemma ViewShares(parent: Surface, x: nat, y: nat, width: nat, height: nat, i: nat, j: nat)
    requires parent.Backed() && View(parent, x, y, width, height).Valid()
    ensures View(parent, x, y, width, height).Backed()
    ensures i < width && j < height ==> View(parent, x, y, width, height).At(i, j) == parent.At(x + i, y + j)
  {
    assert (y + height - 1) * parent.stride == y * parent.stride + (height - 1) * parent.stride;
    assert (y + j) * parent.stride == y * parent.stride + j * parent.stride;
    Rows(y + height - 1, parent.height - 1, parent.stride);
  }

  // ----- clipping

  datatype Axis = Outside | Axis(source: nat, target: nat, count: nat)

  predicate Hits(a: Axis, t: int) { a.Axis? && a.target <= t < a.target + a.count }

  /** `clip_axis`: exactly the places of the target something of the source falls on,
      and which part of the source that is. */
  function ClipAxis(origin: int, source: nat, target: nat): (a: Axis)
    ensures forall t :: Hits(a, t) <==> 0 <= t < target && 0 <= t - origin < source
    ensures a.Axis? ==> a.count > 0 && a.source - a.target == -origin
  {
    if source == 0 || target == 0 then
      Outside
    else if origin >= 0 then
      if origin >= target then Outside
      else Axis(0, origin, Least(source, target - origin))
    else
      if -origin >= source then Outside
      else Axis(-origin, 0, Least(source + origin, target))
  }

  /** The pixels of `r` in the rows above `row`, and in that row before `column`. */
  ghost predicate Done(r: Region, row: nat, column: nat, x: int, y: int) {
    Covers(r, x, y) && (y < r.y + row || (y == r.y + row && x < r.x + column))
  }

  /** `surface_fill_rect`. */
  method FillRect(s: Surface, x: int, y: int, width: nat, height: nat, colour: Colour)
    requires s.Backed()
    modifies s.mem
    ensures s.Valid() ==> forall i :: 0 <= i < s.mem.Length ==>
              s.mem[i] == if s.Owns(i) && Covers(Make(x, y, width, height), s.Column(i), s.Row(i)) then colour
                          else old(s.mem[i])
  {
    if !s.Valid() || width == 0 || height == 0 { return; }
    var horizontal := ClipAxis(x, width, s.width);
    var vertical := ClipAxis(y, height, s.height);
    if horizontal.Outside? || vertical.Outside? {
      NoneThere(s, x, y, width, height);
      return;
    }
    ghost var r := Region(horizontal.target, vertical.target, horizontal.count, vertical.count);
    FillsExactly(s, x, y, width, height, r);
    var row := 0;
    while row < vertical.count
      invariant 0 <= row <= vertical.count
      invariant forall i :: 0 <= i < s.mem.Length ==>
                  s.mem[i] == if s.Owns(i) && Done(r, row, 0, s.Column(i), s.Row(i)) then colour else old(s.mem[i])
    {
      var column := 0;
      while column < horizontal.count
        invariant 0 <= column <= horizontal.count
        invariant forall i :: 0 <= i < s.mem.Length ==>
                    s.mem[i] == if s.Owns(i) && Done(r, row, column, s.Column(i), s.Row(i)) then colour
                                else old(s.mem[i])
      {
        NextPixel(s, r, row, column);
        s.mem[s.At(horizontal.target + column, vertical.target + row)] := colour;
        column := column + 1;
      }
      row := row + 1;
    }
  }

  /** The region lies on the surface. */
  predicate Lies(s: Surface, r: Region) {
    0 <= r.x && 0 <= r.y && r.width > 0 && r.height > 0 && r.x + r.width <= s.width && r.y + r.height <= s.height
  }

  lemma NextPixel(s: Surface, r: Region, row: nat, column: nat)
    requires s.Valid() && s.Backed() && Lies(s, r) && row < r.height && column < r.width
    ensures s.At(r.x + column, r.y + row) < s.mem.Length
    ensures forall i :: 0 <= i < s.mem.Length && s.Owns(i) ==>
              (Done(r, row, column + 1, s.Column(i), s.Row(i)) <==>
               Done(r, row, column, s.Column(i), s.Row(i)) || i == s.At(r.x + column, r.y + row))
    ensures s.Owns(s.At(r.x + column, r.y + row))
    ensures s.Column(s.At(r.x + column, r.y + row)) == r.x + column
    ensures s.Row(s.At(r.x + column, r.y + row)) == r.y + row
  {
    s.Placed(r.x + column, r.y + row);
    forall i | 0 <= i < s.mem.Length && s.Owns(i)
      ensures Done(r, row, column + 1, s.Column(i), s.Row(i)) <==>
              Done(r, row, column, s.Column(i), s.Row(i)) || i == s.At(r.x + column, r.y + row)
    {
      s.Unplaced(i);
    }
  }

  lemma NoneThere(s: Surface, x: int, y: int, width: nat, height: nat)
    requires s.Valid() && (ClipAxis(x, width, s.width).Outside? || ClipAxis(y, height, s.height).Outside?)
    ensures forall i, j :: s.On(i, j) ==> !Covers(Make(x, y, width, height), i, j)
  {
    forall i, j | s.On(i, j) ensures !Covers(Make(x, y, width, height), i, j) {
      assert !Hits(ClipAxis(x, width, s.width), i) || !Hits(ClipAxis(y, height, s.height), j);
    }
  }

  lemma FillsExactly(s: Surface, x: int, y: int, width: nat, height: nat, r: Region)
    requires s.Valid() && ClipAxis(x, width, s.width).Axis? && ClipAxis(y, height, s.height).Axis?
    requires r == Region(ClipAxis(x, width, s.width).target, ClipAxis(y, height, s.height).target,
                         ClipAxis(x, width, s.width).count, ClipAxis(y, height, s.height).count)
    ensures Lies(s, r)
    ensures forall i, j :: s.On(i, j) ==> (Covers(r, i, j) <==> Covers(Make(x, y, width, height), i, j))
  {
    var across, down := ClipAxis(x, width, s.width), ClipAxis(y, height, s.height);
    assert Hits(across, across.target) && Hits(across, across.target + across.count - 1);
    assert Hits(down, down.target) && Hits(down, down.target + down.count - 1);
    forall i, j | s.On(i, j) ensures Covers(r, i, j) <==> Covers(Make(x, y, width, height), i, j) {
      assert Covers(r, i, j) <==> Hits(across, i) && Hits(down, j);
    }
  }

  /** The two loops of the blit: both starts move together. */
  method CopyPixels(s: Surface, source: Surface, x: int, y: int, wanted: Region, sourceX: nat, sourceY: nat)
    requires s.Valid() && s.Backed() && source.Valid() && source.Backed() && s.mem != source.mem
    requires Lies(s, wanted) && sourceX == wanted.x - x && sourceY == wanted.y - y
    requires sourceX + wanted.width <= source.width && sourceY + wanted.height <= source.height
    modifies s.mem
    ensures forall i :: 0 <= i < s.mem.Length ==>
              s.mem[i] == if s.Owns(i) && Covers(wanted, s.Column(i), s.Row(i))
                          then source.Pixel(s.Column(i) - x, s.Row(i) - y) else old(s.mem[i])
  {
    var row := 0;
    while row < wanted.height
      invariant 0 <= row <= wanted.height
      invariant forall i :: 0 <= i < s.mem.Length ==>
                  s.mem[i] == if s.Owns(i) && Done(wanted, row, 0, s.Column(i), s.Row(i))
                              then source.Pixel(s.Column(i) - x, s.Row(i) - y) else old(s.mem[i])
    {
      var column := 0;
      while column < wanted.width
        invariant 0 <= column <= wanted.width
        invariant forall i :: 0 <= i < s.mem.Length ==>
                    s.mem[i] == if s.Owns(i) && Done(wanted, row, column, s.Column(i), s.Row(i))
                                then source.Pixel(s.Column(i) - x, s.Row(i) - y) else old(s.mem[i])
      {
        NextPixel(s, wanted, row, column);
        source.Placed(sourceX + column, sourceY + row);
        s.mem[s.At(wanted.x + column, wanted.y + row)] := source.mem[source.At(sourceX + column, sourceY + row)];
        column := column + 1;
      }
      row := row + 1;
    }
  }

  /** `surface_blit_clipped`: the source's pixels where it falls inside the clip, and
      nothing else. */
  method BlitClipped(s: Surface, source: Surface, x: int, y: int, clip: Region)
    requires s.Backed() && source.Backed() && s.mem != source.mem
    modifies s.mem
    ensures s.Valid() ==> forall i :: 0 <= i < s.mem.Length ==>
              s.mem[i] == if s.Owns(i) && source.Valid() && Covers(clip, s.Column(i), s.Row(i)) &&
                             source.On(s.Column(i) - x, s.Row(i) - y)
                          then source.Pixel(s.Column(i) - x, s.Row(i) - y)
                          else old(s.mem[i])
  {
    if !s.Valid() || !source.Valid() { return; }
    var within := Clip(clip, s.width, s.height);
    if Empty(within) {
      assert forall i, j :: Covers(within, i, j) ==> false;
      return;
    }
    var horizontal := ClipAxis(x, source.width, s.width);
    var vertical := ClipAxis(y, source.height, s.height);
    if horizontal.Outside? || vertical.Outside? {
      NoneThere(s, x, y, source.width, source.height);
      assert forall i, j :: source.On(i - x, j - y) <==> Covers(Make(x, y, source.width, source.height), i, j);
      return;
    }
    var covered := Make(horizontal.target, vertical.target, horizontal.count, vertical.count);
    FillsExactly(s, x, y, source.width, source.height, covered);
    var wanted := Intersect(covered, within);
    BlitWanted(s, source, x, y, clip, covered, wanted);
    if Empty(wanted) {
      assert forall i, j :: Covers(wanted, i, j) ==> false;
      return;
    }
    CopyPixels(s, source, x, y, wanted, horizontal.source + (wanted.x - covered.x), vertical.source + (wanted.y - covered.y));
  }

  /** What a clipped blit goes over: the part of the source that is on the surface and
      in the clip. */
  lemma BlitWanted(s: Surface, source: Surface, x: int, y: int, clip: Region, covered: Region, wanted: Region)
    requires s.Valid() && source.Valid() && Lies(s, covered)
    requires forall i, j :: s.On(i, j) ==> (Covers(covered, i, j) <==> Covers(Make(x, y, source.width, source.height), i, j))
    requires wanted == Intersect(covered, Clip(clip, s.width, s.height))
    ensures forall i, j :: s.On(i, j) ==> (Covers(wanted, i, j) <==> Covers(clip, i, j) && source.On(i - x, j - y))
    ensures !Empty(wanted) ==> Lies(s, wanted) && covered.x <= wanted.x && covered.y <= wanted.y
    ensures !Empty(wanted) ==> source.On(wanted.x - x, wanted.y - y) &&
                               source.On(wanted.x + wanted.width - 1 - x, wanted.y + wanted.height - 1 - y)
  {
    forall i, j | s.On(i, j) ensures Covers(wanted, i, j) <==> Covers(clip, i, j) && source.On(i - x, j - y) {
      assert Covers(wanted, i, j) <==> Covers(covered, i, j) && Covers(Clip(clip, s.width, s.height), i, j);
    }
    if !Empty(wanted) {
      assert Covers(wanted, wanted.x, wanted.y);
      assert Covers(wanted, wanted.x + wanted.width - 1, wanted.y + wanted.height - 1);
      assert s.On(wanted.x, wanted.y) && s.On(wanted.x + wanted.width - 1, wanted.y + wanted.height - 1);
    }
  }
}
