/** Tile-grid frame differencing, and the patch a caller makes of its answer. */
module FrameDiff {
  import opened Arith
  import opened Words
  import opened Geometry

  datatype Rect = Rect(x: nat, y: nat, w: nat, h: nat)
  {
    predicate Covers(px: nat, py: nat) { x <= px < x + w && y <= py < y + h }
  }

  /** Two frames of the same shape compared in tiles of `tile` pixels. */
  datatype Grid = Grid(width: u32, height: u32, stride: u32, tile: nat)
  {
    predicate Valid() {
      0 < tile < 0x8000_0000 && width * 4 <= stride
    }

    /** The buffer holds every visible row; an empty frame needs no bytes. */
    predicate Holds(frame: seq<u8>) {
      width > 0 && height > 0 ==> (height - 1) * stride + width * 4 <= |frame| <= TWO32
    }

    /** Tiles to a row and to a column, in the 32-bit arithmetic of the scan. */
    function Across(): (n: nat)
      requires tile > 0
    {
      QuotientSmaller(W32(width + tile - 1), tile);
      W32(width + tile - 1) / tile
    }

    function Down(): (n: nat)
      requires tile > 0
    {
      QuotientSmaller(W32(height + tile - 1), tile);
      W32(height + tile - 1) / tile
    }

    function TileRect(tx: nat, ty: nat): (r: Rect)
      requires tx * tile < width && ty * tile < height
    {
      var x, y := tx * tile, ty * tile;
      Rect(x, y, if x + tile > width then width - x else tile, if y + tile > height then height - y else tile)
    }

    ghost predicate Inside(r: Rect) { r.x + r.w <= width && r.y + r.h <= height }
  }

  /** Neither sum wraps for a frame that is not empty, and an empty frame has no tile. */
  lemma NoWrap(g: Grid, frame: seq<u8>)
    requires g.Valid() && g.Holds(frame) && g.Across() > 0 && g.Down() > 0
    ensures g.width > 0 && g.height > 0 && g.width + g.tile < TWO32 && g.height + g.tile < TWO32
  {
    if g.width == 0 || g.height == 0 {
      QuotientIs(g.tile - 1, g.tile, 0, g.tile - 1);
    } else {
      DimsSmall(g, frame);
    }
  }

  lemma DimsSmall(g: Grid, frame: seq<u8>)
    requires g.Valid() && g.Holds(frame) && g.width > 0 && g.height > 0
    ensures g.width + g.tile < TWO32 && g.height + g.tile < TWO32
  {
    MulMonotone(4, g.stride, g.height - 1);
  }

  lemma TileInGrid(g: Grid, frame: seq<u8>, tx: nat, ty: nat)
    requires g.Valid() && g.Holds(frame) && tx < g.Across() && ty < g.Down()
    ensures tx * g.tile < g.width && ty * g.tile < g.height
    ensures g.Inside(g.TileRect(tx, ty)) && g.TileRect(tx, ty).w > 0 && g.TileRect(tx, ty).h > 0
  {
    hide Grid.Holds;
    NoWrap(g, frame);
    StepsBelow(tx, g.width, g.tile);
    StepsBelow(ty, g.height, g.tile);
  }

  lemma StepsBelow(k: nat, n: nat, d: nat)
    requires d > 0 && k < (n + d - 1) / d
    ensures k * d < n
  {
    var m := n + d - 1;
    assert m == m / d * d + m % d;
    MulMonotone(k + 1, m / d, d);
  }

  // ---- what makes a tile dirty ----

  lemma RowSpan(g: Grid, frame: seq<u8>, r: Rect, y: nat)
    requires g.Valid() && g.Holds(frame) && g.Inside(r) && r.w > 0 && r.y <= y < r.y + r.h
    ensures 0 <= y * g.stride && y * g.stride + r.x * 4 + r.w * 4 <= |frame|
  {
    MulMonotone(y, g.height - 1, g.stride);
  }

  /** The bytes of row y of rectangle r. */
  function Span(g: Grid, frame: seq<u8>, r: Rect, y: nat): (s: seq<u8>)
    requires g.Valid() && g.Holds(frame) && g.Inside(r) && r.w > 0 && r.y <= y < r.y + r.h
    ensures |s| == r.w * 4
  {
    RowSpan(g, frame, r, y);
    var at := y * g.stride + r.x * 4;
    frame[at..at + r.w * 4]
  }

  lemma SpanSlice(g: Grid, frame: seq<u8>, r: Rect, y: nat)
    requires g.Valid() && g.Holds(frame) && g.Inside(r) && r.w > 0 && r.y <= y < r.y + r.h
    ensures var at := y * g.stride + r.x * 4;
            0 <= at <= at + r.w * 4 <= |frame| && frame[at..at + r.w * 4] == Span(g, frame, r, y)
  {
    RowSpan(g, frame, r, y);
  }

  predicate SpansDiffer(g: Grid, a: seq<u8>, b: seq<u8>, r: Rect, y: nat)
    requires g.Valid() && g.Holds(a) && g.Holds(b) && g.Inside(r) && r.w > 0 && r.y <= y < r.y + r.h
  {
    Span(g, a, r, y) != Span(g, b, r, y)
  }

  predicate Dirty(g: Grid, a: seq<u8>, b: seq<u8>, r: Rect)
    requires g.Valid() && g.Holds(a) && g.Holds(b) && g.Inside(r) && r.w > 0
  {
    exists y | r.y <= y < r.y + r.h :: SpansDiffer(g, a, b, r, y)
  }

  lemma ByteInside(g: Grid, frame: seq<u8>, x: nat, y: nat, k: nat)
    requires g.Valid() && g.Holds(frame) && x < g.width && y < g.height && k < 4
    ensures y * g.stride + x * 4 + k < |frame|
  {
    MulMonotone(y, g.height - 1, g.stride);
  }

  /** Byte k of visible pixel (x, y). */
  function Byte(g: Grid, frame: seq<u8>, x: nat, y: nat, k: nat): (v: u8)
    requires g.Valid() && g.Holds(frame) && x < g.width && y < g.height && k < 4
  {
    ByteInside(g, frame, x, y, k);
    frame[y * g.stride + x * 4 + k]
  }

  predicate PixelDiffers(g: Grid, a: seq<u8>, b: seq<u8>, x: nat, y: nat)
    requires g.Valid() && g.Holds(a) && g.Holds(b) && x < g.width && y < g.height
  {
    exists k | 0 <= k < 4 :: Byte(g, a, x, y, k) != Byte(g, b, x, y, k)
  }

  /** A tile is dirty exactly when one of its visible pixels changed: padding never counts. */
  lemma DirtyExactly(g: Grid, a: seq<u8>, b: seq<u8>, r: Rect)
    requires g.Valid() && g.Holds(a) && g.Holds(b) && g.Inside(r) && r.w > 0
    ensures Dirty(g, a, b, r) <==> exists x: nat, y: nat | r.Covers(x, y) :: PixelDiffers(g, a, b, x, y)
  {
    hide Dirty, PixelDiffers, Grid.Holds;
    if Dirty(g, a, b, r) { DirtyHasPixel(g, a, b, r); }
    if x: nat, y: nat :| r.Covers(x, y) && PixelDiffers(g, a, b, x, y) { PixelMakesDirty(g, a, b, r, x, y); }
  }

  lemma DirtyHasPixel(g: Grid, a: seq<u8>, b: seq<u8>, r: Rect)
    requires g.Valid() && g.Holds(a) && g.Holds(b) && g.Inside(r) && r.w > 0 && Dirty(g, a, b, r)
    ensures exists x: nat, y: nat | r.Covers(x, y) :: PixelDiffers(g, a, b, x, y)
  {
    hide Grid.Holds, Span, Byte;
    var y :| r.y <= y < r.y + r.h && SpansDiffer(g, a, b, r, y);
    var s, t := Span(g, a, r, y), Span(g, b, r, y);
    var i :| 0 <= i < |s| && s[i] != t[i];
    SpanByte(g, a, r, y, i);
    SpanByte(g, b, r, y, i);
    assert r.Covers(r.x + i / 4, y) && PixelDiffers(g, a, b, r.x + i / 4, y);
  }

  lemma PixelMakesDirty(g: Grid, a: seq<u8>, b: seq<u8>, r: Rect, x: nat, y: nat)
    requires g.Valid() && g.Holds(a) && g.Holds(b) && g.Inside(r) && r.w > 0
    requires r.Covers(x, y) && PixelDiffers(g, a, b, x, y)
    ensures Dirty(g, a, b, r)
  {
    hide Grid.Holds, Span, Byte;
    var k :| 0 <= k < 4 && Byte(g, a, x, y, k) != Byte(g, b, x, y, k);
    var i := (x - r.x) * 4 + k;
    SpanByte(g, a, r, y, i);
    SpanByte(g, b, r, y, i);
    assert SpansDiffer(g, a, b, r, y);
  }

  lemma SpanByte(g: Grid, frame: seq<u8>, r: Rect, y: nat, i: nat)
    requires g.Valid() && g.Holds(frame) && g.Inside(r) && r.w > 0 && r.y <= y < r.y + r.h && i < r.w * 4
    ensures Span(g, frame, r, y)[i] == Byte(g, frame, r.x + i / 4, y, i % 4)
  {
    RowSpan(g, frame, r, y);
    ByteInside(g, frame, r.x + i / 4, y, i % 4);
    hide Grid.Holds;
    var p := y * g.stride + r.x * 4;
    assert frame[p..p + r.w * 4][i] == frame[p + i];
    assert r.x * 4 + i == (r.x + i / 4) * 4 + i % 4;
  }

  // ---- the answer, tile by tile ----

  /** Dirty tiles among the first `tx` of tile row ty. */
  function DirtyInRow(g: Grid, a: seq<u8>, b: seq<u8>, ty: nat, tx: nat): (rs: seq<Rect>)
    requires g.Valid() && g.Holds(a) && g.Holds(b) && ty < g.Down() && tx <= g.Across()
  {
    if tx == 0 then []
    else
      TileInGrid(g, a, tx - 1, ty);
      var r := g.TileRect(tx - 1, ty);
      DirtyInRow(g, a, b, ty, tx - 1) + if Dirty(g, a, b, r) then [r] else []
  }

  /** Dirty tiles of the first `ty` tile rows, in scan order. */
  function DirtyRows(g: Grid, a: seq<u8>, b: seq<u8>, ty: nat): (rs: seq<Rect>)
    requires g.Valid() && g.Holds(a) && g.Holds(b) && ty <= g.Down()
  {
    if ty == 0 then [] else DirtyRows(g, a, b, ty - 1) + DirtyInRow(g, a, b, ty - 1, g.Across())
  }

  function DirtyTiles(g: Grid, a: seq<u8>, b: seq<u8>): (rs: seq<Rect>)
    requires g.Valid() && g.Holds(a) && g.Holds(b)
  {
    DirtyRows(g, a, b, g.Down())
  }

  /** The rectangles array after `found` were reported: as many as fit. */
  ghost predicate Reported(cur: seq<Rect>, was: seq<Rect>, max: nat, found: seq<Rect>) {
    var n := if |found| < max then |found| else max;
    |cur| == |was| && n <= max <= |was| && cur[..n] == found[..n] && cur[n..] == was[n..]
  }

  /** memcmp of one row of a tile. */
  method RowDiffers(a: array<u8>, b: array<u8>, g: Grid, r: Rect, y: nat) returns (differs: bool)
    requires g.Valid() && g.Holds(a[..]) && g.Holds(b[..]) && g.Inside(r) && r.w > 0 && r.y <= y < r.y + r.h
    ensures differs == SpansDiffer(g, a[..], b[..], r, y)
  {
    hide Grid.Holds, Span;
    SpanSlice(g, a[..], r, y);
    SpanSlice(g, b[..], r, y);
    var at := y * g.stride + r.x * 4;
    assert a[at..at + r.w * 4] == a[..][at..at + r.w * 4] && b[at..at + r.w * 4] == b[..][at..at + r.w * 4];
    differs := a[at..at + r.w * 4] != b[at..at + r.w * 4];
  }

  method TileDirty(a: array<u8>, b: array<u8>, g: Grid, r: Rect) returns (dirty: bool)
    requires g.Valid() && g.Holds(a[..]) && g.Holds(b[..]) && g.Inside(r) && r.w > 0
    ensures dirty == Dirty(g, a[..], b[..], r)
  {
    hide Grid.Holds, SpansDiffer;
    dirty := false;
    var row := r.y;
    while row < r.y + r.h && !dirty
      invariant r.y <= row <= r.y + r.h
      invariant dirty ==> Dirty(g, a[..], b[..], r)
      invariant !dirty ==> forall y | r.y <= y < row :: !SpansDiffer(g, a[..], b[..], r, y)
    {
      var differs := RowDiffers(a, b, g, r, row);
      if differs { dirty := true; }
      row := row + 1;
    }
  }

  /** One more dirty tile: stored while there is room, counted always. */
  lemma ReportOne(before: seq<Rect>, after: seq<Rect>, was: seq<Rect>, max: nat, found: seq<Rect>, r: Rect)
    requires Reported(before, was, max, found)
    requires after == if |found| < max then before[|found| := r] else before
    ensures Reported(after, was, max, found + [r])
  {
    if |found| < max {
      var n := |found|;
      assert before[n := r][..n + 1] == before[..n] + [r];
      assert before[n := r][n + 1..] == before[n..][1..] == was[n + 1..];
    } else {
      assert (found + [r])[..max] == found[..max];
    }
  }

  /** The body of the scan for one tile. */
  method ScanTile(a: array<u8>, b: array<u8>, g: Grid, rects: array<Rect>, max: nat, count: nat, tx: nat, ty: nat,
                  ghost above: seq<Rect>, ghost was: seq<Rect>) returns (next: nat)
    requires g.Valid() && g.Holds(a[..]) && g.Holds(b[..]) && tx < g.Across() && ty < g.Down() && max <= rects.Length
    requires count == |above + DirtyInRow(g, a[..], b[..], ty, tx)|
    requires Reported(rects[..], was, max, above + DirtyInRow(g, a[..], b[..], ty, tx))
    modifies rects
    ensures next == |above + DirtyInRow(g, a[..], b[..], ty, tx + 1)|
    ensures Reported(rects[..], was, max, above + DirtyInRow(g, a[..], b[..], ty, tx + 1))
  {
    hide Dirty, Reported, Grid.Inside;
    TileInGrid(g, a[..], tx, ty);
    var rx, ry := tx * g.tile, ty * g.tile;
    var rw := if rx + g.tile > g.width then g.width - rx else g.tile;
    var rh := if ry + g.tile > g.height then g.height - ry else g.tile;
    var r := Rect(rx, ry, rw, rh);
    ghost var fa, fb, before := a[..], b[..], rects[..];
    ghost var found := above + DirtyInRow(g, fa, fb, ty, tx);
    assert r == g.TileRect(tx, ty);
    var dirty := TileDirty(a, b, g, r);
    next := count;
    if dirty {
      if count < max {
        rects[count] := r;
      }
      next := count + 1;
      ReportOne(before, rects[..], was, max, found, r);
      assert found + [r] == above + DirtyInRow(g, fa, fb, ty, tx + 1);
    } else {
      assert DirtyInRow(g, fa, fb, ty, tx) + [] == DirtyInRow(g, fa, fb, ty, tx);
    }
    assert a[..] == fa && b[..] == fb;
  }

  /** The inner loop of the scan: one row of tiles. */
  method ScanRow(a: array<u8>, b: array<u8>, g: Grid, rects: array<Rect>, max: nat, count: nat, ty: nat,
                 ghost was: seq<Rect>) returns (next: nat)
    requires g.Valid() && g.Holds(a[..]) && g.Holds(b[..]) && ty < g.Down() && max <= rects.Length
    requires count == |DirtyRows(g, a[..], b[..], ty)| && Reported(rects[..], was, max, DirtyRows(g, a[..], b[..], ty))
    modifies rects
    ensures next == |DirtyRows(g, a[..], b[..], ty + 1)|
    ensures Reported(rects[..], was, max, DirtyRows(g, a[..], b[..], ty + 1))
  {
    hide Dirty, Reported, Grid.Inside, Grid.TileRect, DirtyInRow, Grid.Across, Grid.Down;
    ghost var fa, fb := a[..], b[..];
    ghost var above := DirtyRows(g, fa, fb, ty);
    var tilesX := g.Across();
    RowStart(g, fa, fb, ty);
    assert above + [] == above;
    next := count;
    var tx := 0;
    while tx < tilesX
      invariant 0 <= tx <= tilesX
      invariant a[..] == fa && b[..] == fb
      invariant next == |above + DirtyInRow(g, fa, fb, ty, tx)|
      invariant Reported(rects[..], was, max, above + DirtyInRow(g, fa, fb, ty, tx))
    {
      next := ScanTile(a, b, g, rects, max, next, tx, ty, above, was);
      tx := tx + 1;
    }
  }

  method DiffFrames(a: array<u8>, b: array<u8>, width: u32, height: u32, stride: u32,
                    rects: array<Rect>, maxRects: int, tileSize: int) returns (count: int)
    requires maxRects <= rects.Length && tileSize < 0x8000_0000 && width * 4 <= stride
    requires Grid(width, height, stride, 1).Holds(a[..]) && Grid(width, height, stride, 1).Holds(b[..])
    modifies rects
    ensures maxRects <= 0 || tileSize <= 0 ==> count == EINVAL && rects[..] == old(rects[..])
    ensures maxRects > 0 && tileSize > 0 ==>
              var found := DirtyTiles(Grid(width, height, stride, tileSize), a[..], b[..]);
              count == |found| && Reported(rects[..], old(rects[..]), maxRects, found)
  {
    if maxRects <= 0 || tileSize <= 0 {
      return EINVAL;
    }
    hide Dirty, Reported, Grid.Inside, Grid.TileRect, DirtyInRow, Grid.Across, Grid.Down;
    ghost var was := rects[..];
    var g := Grid(width, height, stride, tileSize);
    ghost var fa, fb := a[..], b[..];
    count := 0;
    var tilesY := g.Down();
    ReportNone(was, maxRects);
    var ty := 0;
    while ty < tilesY
      invariant 0 <= ty <= tilesY
      invariant a[..] == fa && b[..] == fb
      invariant count == |DirtyRows(g, fa, fb, ty)|
      invariant Reported(rects[..], was, maxRects, DirtyRows(g, fa, fb, ty))
    {
      count := ScanRow(a, b, g, rects, maxRects, count, ty, was);
      ty := ty + 1;
    }
  }

  lemma RowStart(g: Grid, a: seq<u8>, b: seq<u8>, ty: nat)
    requires g.Valid() && g.Holds(a) && g.Holds(b) && ty < g.Down()
    ensures DirtyInRow(g, a, b, ty, 0) == []
  {}

  lemma ReportNone(was: seq<Rect>, max: nat)
    requires max <= |was|
    ensures Reported(was, was, max, [])
  {}

  // ---- what the answer means ----

  /** r is the tile in column tx of row ty, and it is dirty. */
  ghost predicate TileAt(g: Grid, a: seq<u8>, b: seq<u8>, r: Rect, tx: nat, ty: nat)
    requires g.Valid() && g.Holds(a) && g.Holds(b)
  {
    && tx < g.Across() && ty < g.Down()
    && tx * g.tile < g.width && ty * g.tile < g.height
    && r == g.TileRect(tx, ty) && g.Inside(r) && r.w > 0 && Dirty(g, a, b, r)
  }

  lemma {:induction false} RowMembers(g: Grid, a: seq<u8>, b: seq<u8>, ty: nat, tx: nat, r: Rect)
    requires g.Valid() && g.Holds(a) && g.Holds(b) && ty < g.Down() && tx <= g.Across()
    ensures r in DirtyInRow(g, a, b, ty, tx) <==> exists t: nat :: t < tx && TileAt(g, a, b, r, t, ty)
  {
    hide Dirty, Grid.Inside, Grid.TileRect, Grid.Across, Grid.Down;
    if tx > 0 {
      TileInGrid(g, a, tx - 1, ty);
      RowMembers(g, a, b, ty, tx - 1, r);
      if r in DirtyInRow(g, a, b, ty, tx) && r !in DirtyInRow(g, a, b, ty, tx - 1) {
        assert TileAt(g, a, b, r, tx - 1, ty);
      }
    }
  }

  lemma {:induction false} Members(g: Grid, a: seq<u8>, b: seq<u8>, ty: nat, r: Rect)
    requires g.Valid() && g.Holds(a) && g.Holds(b) && ty <= g.Down()
    ensures r in DirtyRows(g, a, b, ty) <==> exists t: nat, u: nat :: u < ty && TileAt(g, a, b, r, t, u)
  {
    hide TileAt, Grid.Across, Grid.Down, DirtyInRow;
    if ty > 0 {
      Members(g, a, b, ty - 1, r);
      RowMembers(g, a, b, ty - 1, g.Across(), r);
      if t: nat, u: nat :| u < ty && TileAt(g, a, b, r, t, u) {
        if u == ty - 1 { TileAtBound(g, a, b, r, t, u); }
      }
    }
  }

  lemma TileAtBound(g: Grid, a: seq<u8>, b: seq<u8>, r: Rect, t: nat, u: nat)
    requires g.Valid() && g.Holds(a) && g.Holds(b) && TileAt(g, a, b, r, t, u)
    ensures t < g.Across() && u < g.Down()
  {}

  /** Every visible pixel lies in the tile of its quotients and in no other. */
  lemma TilesPartition(g: Grid, frame: seq<u8>, x: nat, y: nat)
    requires g.Valid() && g.Holds(frame) && x < g.width && y < g.height
    ensures x / g.tile < g.Across() && y / g.tile < g.Down()
    ensures forall tx: nat, ty: nat
              | tx < g.Across() && ty < g.Down() && tx * g.tile < g.width && ty * g.tile < g.height ::
              g.TileRect(tx, ty).Covers(x, y) <==> tx == x / g.tile && ty == y / g.tile
  {
    hide Grid.TileRect, Grid.Across, Grid.Down, Rect.Covers;
    Counts(g, frame);
    QuotientBelow(x, g.width, g.tile);
    QuotientBelow(y, g.height, g.tile);
    forall tx: nat, ty: nat | tx < g.Across() && ty < g.Down() && tx * g.tile < g.width && ty * g.tile < g.height
      ensures g.TileRect(tx, ty).Covers(x, y) <==> tx == x / g.tile && ty == y / g.tile
    {
      CoversExactly(g, x, y, tx, ty);
    }
  }

  lemma CoversExactly(g: Grid, x: nat, y: nat, tx: nat, ty: nat)
    requires g.tile > 0 && tx * g.tile < g.width && ty * g.tile < g.height && x < g.width && y < g.height
    ensures g.TileRect(tx, ty).Covers(x, y) <==> tx == x / g.tile && ty == y / g.tile
  {
    InStep(x, tx, g.tile);
    InStep(y, ty, g.tile);
  }

  /** A frame that is not empty has its tiles counted without wrap-around. */
  lemma Counts(g: Grid, frame: seq<u8>)
    requires g.Valid() && g.Holds(frame) && g.width > 0 && g.height > 0
    ensures g.Across() == (g.width + g.tile - 1) / g.tile && g.Down() == (g.height + g.tile - 1) / g.tile
  {
    hide Grid.Holds;
    DimsSmall(g, frame);
    assert W32(g.width + g.tile - 1) == g.width + g.tile - 1 && W32(g.height + g.tile - 1) == g.height + g.tile - 1;
  }

  lemma QuotientBelow(x: nat, n: nat, d: nat)
    requires d > 0 && x < n
    ensures x / d < (n + d - 1) / d && x / d * d < n
  {
    assert x == x / d * d + x % d;
    var m := n + d - 1;
    assert m == m / d * d + m % d;
    if m / d <= x / d { MulMonotone(m / d, x / d, d); }
  }

  lemma InStep(x: nat, k: nat, d: nat)
    requires d > 0
    ensures k * d <= x < k * d + d <==> k == x / d
  {
    assert x == x / d * d + x % d;
    if k * d <= x < k * d + d { QuotientIs(x, d, k, x - k * d); }
  }

  /** A changed pixel is covered by a reported rectangle. */
  lemma ChangeCovered(g: Grid, a: seq<u8>, b: seq<u8>, x: nat, y: nat)
    requires g.Valid() && g.Holds(a) && g.Holds(b) && x < g.width && y < g.height
    requires PixelDiffers(g, a, b, x, y)
    ensures Covered(DirtyTiles(g, a, b), x, y)
  {
    hide Dirty, PixelDiffers, Grid.TileRect, Grid.Inside, Grid.Across, Grid.Down, DirtyRows, Rect.Covers;
    var tx, ty := OwnTile(g, a, x, y);
    var r := g.TileRect(tx, ty);
    DirtyExactly(g, a, b, r);
    assert TileAt(g, a, b, r, tx, ty);
    Members(g, a, b, g.Down(), r);
  }

  lemma OwnTile(g: Grid, frame: seq<u8>, x: nat, y: nat) returns (tx: nat, ty: nat)
    requires g.Valid() && g.Holds(frame) && x < g.width && y < g.height
    ensures tx < g.Across() && ty < g.Down() && tx * g.tile < g.width && ty * g.tile < g.height
    ensures g.Inside(g.TileRect(tx, ty)) && g.TileRect(tx, ty).w > 0 && g.TileRect(tx, ty).Covers(x, y)
  {
    hide Grid.TileRect, Grid.Inside, Grid.Across, Grid.Down, Rect.Covers;
    TilesPartition(g, frame, x, y);
    QuotientSmaller(x, g.tile);
    QuotientSmaller(y, g.tile);
    tx, ty := x / g.tile, y / g.tile;
    TileInGrid(g, frame, tx, ty);
    assert g.TileRect(tx, ty).Covers(x, y);
  }

  /** The reported list holds exactly the dirty tiles. */
  lemma ReportsDirtyTiles(g: Grid, a: seq<u8>, b: seq<u8>, r: Rect)
    requires g.Valid() && g.Holds(a) && g.Holds(b)
    ensures r in DirtyTiles(g, a, b) <==> exists tx: nat, ty: nat :: TileAt(g, a, b, r, tx, ty)
  {
    hide TileAt, DirtyRows;
    Members(g, a, b, g.Down(), r);
    forall tx: nat, ty: nat | TileAt(g, a, b, r, tx, ty) ensures ty < g.Down() { TileAtBound(g, a, b, r, tx, ty); }
  }

  ghost predicate Covered(rs: seq<Rect>, x: nat, y: nat) {
    exists r :: r in rs && r.Covers(x, y)
  }

  /** The pixel column and row a buffer index falls in. */
  function PixelColumn(g: Grid, i: nat): (x: nat)
    requires g.stride > 0
  {
    i % g.stride / 4
  }

  function PixelRow(g: Grid, i: nat): (y: nat)
    requires g.stride > 0
  {
    QuotientSmaller(i, g.stride);
    i / g.stride
  }

  ghost function PatchedAt(g: Grid, a: seq<u8>, b: seq<u8>, rs: seq<Rect>, i: nat): (v: u8)
    requires g.stride > 0 && i < |a|
  {
    if i < |b| && Covered(rs, PixelColumn(g, i), PixelRow(g, i)) then b[i] else a[i]
  }

  /** Frame a after the caller copies the given rectangles over from frame b. */
  ghost function Patched(g: Grid, a: seq<u8>, b: seq<u8>, rs: seq<Rect>): (out: seq<u8>)
    requires g.stride > 0
    ensures |out| == |a|
    ensures forall i | 0 <= i < |a| :: out[i] == PatchedAt(g, a, b, rs, i)
  {
    seq(|a|, i requires 0 <= i < |a| => PatchedAt(g, a, b, rs, i))
  }

  lemma PatchedByte(g: Grid, a: seq<u8>, b: seq<u8>, rs: seq<Rect>, x: nat, y: nat, k: nat)
    requires g.Valid() && g.Holds(a) && g.Holds(b) && x < g.width && y < g.height && k < 4
    ensures g.Holds(Patched(g, a, b, rs))
    ensures Byte(g, Patched(g, a, b, rs), x, y, k) == if Covered(rs, x, y) then Byte(g, b, x, y, k)
          else Byte(g, a, x, y, k)
  {
    hide Covered;
    ByteInside(g, a, x, y, k);
    ByteInside(g, b, x, y, k);
    QuotientIs(y * g.stride + x * 4 + k, g.stride, y, x * 4 + k);
    QuotientIs(x * 4 + k, 4, x, k);
  }

  /** Diff then patch: the reported rectangles, copied over, reproduce frame b wherever it is visible. */
  lemma DiffThenPatch(g: Grid, a: seq<u8>, b: seq<u8>, x: nat, y: nat, k: nat)
    requires g.Valid() && g.Holds(a) && g.Holds(b) && x < g.width && y < g.height && k < 4
    ensures var p := Patched(g, a, b, DirtyTiles(g, a, b));
            g.Holds(p) && Byte(g, p, x, y, k) == Byte(g, b, x, y, k)
  {
    hide Covered, DirtyTiles, Patched;
    var found := DirtyTiles(g, a, b);
    PatchedByte(g, a, b, found, x, y, k);
    if Byte(g, a, x, y, k) != Byte(g, b, x, y, k) {
      assert PixelDiffers(g, a, b, x, y);
      ChangeCovered(g, a, b, x, y);
    }
  }

  lemma TileRectInjective(g: Grid, t: nat, u: nat, t': nat, u': nat)
    requires g.tile > 0 && t * g.tile < g.width && u * g.tile < g.height && t' * g.tile < g.width
    requires u' * g.tile < g.height
    requires g.TileRect(t, u) == g.TileRect(t', u')
    ensures t == t' && u == u'
  {
    MulInjective(t, t', g.tile);
    MulInjective(u, u', g.tile);
  }

  ghost predicate Distinct(rs: seq<Rect>) {
    forall i, j | 0 <= i < j < |rs| :: rs[i] != rs[j]
  }

  /** From the top down, and within a tile row from the left. */
  ghost predicate InScanOrder(rs: seq<Rect>) {
    forall i, j | 0 <= i < j < |rs| :: rs[i].y < rs[j].y || (rs[i].y == rs[j].y && rs[i].x < rs[j].x)
  }

  lemma {:induction false} RowOrdered(g: Grid, a: seq<u8>, b: seq<u8>, ty: nat, tx: nat)
    requires g.Valid() && g.Holds(a) && g.Holds(b) && ty < g.Down() && tx <= g.Across()
    ensures InScanOrder(DirtyInRow(g, a, b, ty, tx))
    ensures forall r | r in DirtyInRow(g, a, b, ty, tx) :: r.y == ty * g.tile && r.x < tx * g.tile
  {
    hide Dirty, Grid.Inside, Grid.Across, Grid.Down;
    if tx > 0 {
      RowOrdered(g, a, b, ty, tx - 1);
      TileInGrid(g, a, tx - 1, ty);
      MulSum(tx - 1, 1, g.tile);
    }
  }

  /** The list is in scan order, so no tile is in it twice. */
  lemma {:induction false} RowsOrdered(g: Grid, a: seq<u8>, b: seq<u8>, ty: nat)
    requires g.Valid() && g.Holds(a) && g.Holds(b) && ty <= g.Down()
    ensures InScanOrder(DirtyRows(g, a, b, ty)) && Distinct(DirtyRows(g, a, b, ty))
    ensures forall r | r in DirtyRows(g, a, b, ty) :: r.y < ty * g.tile
  {
    hide Dirty, Grid.Inside, Grid.Across, Grid.Down, DirtyInRow, Grid.TileRect;
    if ty > 0 {
      RowsOrdered(g, a, b, ty - 1);
      RowOrdered(g, a, b, ty - 1, g.Across());
      MulSum(ty - 1, 1, g.tile);
    }
  }

  /** The buffers differ in byte k of pixel (x, y). */
  ghost predicate ByteChanged(stride: nat, a: seq<u8>, b: seq<u8>, x: nat, y: nat, k: nat) {
    var i := y * stride + x * 4 + k;
    k < 4 && 0 <= i < |a| && i < |b| && a[i] != b[i]
  }

  /** A square of `tile` pixels on the grid, cut off at the frame's edges. */
  predicate OnGrid(g: Grid, r: Rect)
    requires g.tile > 0
  {
    && r.x % g.tile == 0 && r.y % g.tile == 0 && r.x < g.width && r.y < g.height
    && r.w == (if g.tile < g.width - r.x then g.tile else g.width - r.x)
    && r.h == (if g.tile < g.height - r.y then g.tile else g.height - r.y)
  }

  /** Which rectangles are listed, by the bytes of the two buffers. */
  lemma ListedExactly(g: Grid, a: seq<u8>, b: seq<u8>, r: Rect)
    requires g.Valid() && g.Holds(a) && g.Holds(b)
    ensures r in DirtyTiles(g, a, b) <==>
            && OnGrid(g, r)
            && exists x: nat, y: nat, k: nat ::
                 r.x <= x < r.x + r.w && r.y <= y < r.y + r.h && ByteChanged(g.stride, a, b, x, y, k)
  {
    hide DirtyTiles, Grid.Holds, ByteChanged, OnGrid;
    if r in DirtyTiles(g, a, b) { var x, y, k := ListedChanged(g, a, b, r); }
    if OnGrid(g, r) {
      forall x: nat, y: nat, k: nat |
        r.x <= x < r.x + r.w && r.y <= y < r.y + r.h && ByteChanged(g.stride, a, b, x, y, k)
        ensures r in DirtyTiles(g, a, b)
      {
        ChangedListed(g, a, b, r, x, y, k);
      }
    }
  }

  lemma ListedChanged(g: Grid, a: seq<u8>, b: seq<u8>, r: Rect) returns (x: nat, y: nat, k: nat)
    requires g.Valid() && g.Holds(a) && g.Holds(b) && r in DirtyTiles(g, a, b)
    ensures OnGrid(g, r)
    ensures r.x <= x < r.x + r.w && r.y <= y < r.y + r.h && ByteChanged(g.stride, a, b, x, y, k)
  {
    hide DirtyTiles, Grid.Holds, Dirty, PixelDiffers, Grid.Across, Grid.Down, ByteChanged;
    ReportsDirtyTiles(g, a, b, r);
    var tx: nat, ty: nat :| TileAt(g, a, b, r, tx, ty);
    QuotientIs(r.x, g.tile, tx, 0);
    QuotientIs(r.y, g.tile, ty, 0);
    DirtyExactly(g, a, b, r);
    x, y :| r.Covers(x, y) && PixelDiffers(g, a, b, x, y);
    k := ChangedByte(g, a, b, x, y);
  }

  lemma ChangedByte(g: Grid, a: seq<u8>, b: seq<u8>, x: nat, y: nat) returns (k: nat)
    requires g.Valid() && g.Holds(a) && g.Holds(b) && x < g.width && y < g.height && PixelDiffers(g, a, b, x, y)
    ensures ByteChanged(g.stride, a, b, x, y, k)
  {
    k :| 0 <= k < 4 && Byte(g, a, x, y, k) != Byte(g, b, x, y, k);
    ByteInside(g, a, x, y, k);
    ByteInside(g, b, x, y, k);
    MulMonotone(0, y, g.stride);
  }

  lemma ChangedListed(g: Grid, a: seq<u8>, b: seq<u8>, r: Rect, x: nat, y: nat, k: nat)
    requires g.Valid() && g.Holds(a) && g.Holds(b) && OnGrid(g, r)
    requires r.x <= x < r.x + r.w && r.y <= y < r.y + r.h && ByteChanged(g.stride, a, b, x, y, k)
    ensures r in DirtyTiles(g, a, b)
  {
    hide DirtyTiles, Grid.Holds, Dirty, PixelDiffers, Grid.Across, Grid.Down, Byte, Grid.TileRect;
    var tx, ty := TileOf(g, a, r);
    ChangedDiffers(g, a, b, x, y, k);
    assert r.Covers(x, y);
    DirtyExactly(g, a, b, r);
    assert TileAt(g, a, b, r, tx, ty);
    ReportsDirtyTiles(g, a, b, r);
  }

  lemma TileOf(g: Grid, frame: seq<u8>, r: Rect) returns (tx: nat, ty: nat)
    requires g.Valid() && g.Holds(frame) && OnGrid(g, r)
    ensures tx < g.Across() && ty < g.Down() && tx * g.tile < g.width && ty * g.tile < g.height
    ensures g.Inside(r) && r.w > 0 && r == g.TileRect(tx, ty)
  {
    hide Grid.Holds, Grid.Across, Grid.Down;
    QuotientSmaller(r.x, g.tile);
    QuotientSmaller(r.y, g.tile);
    tx, ty := r.x / g.tile, r.y / g.tile;
    assert r.x == tx * g.tile && r.y == ty * g.tile;
    TilesPartition(g, frame, r.x, r.y);
  }

  lemma ChangedDiffers(g: Grid, a: seq<u8>, b: seq<u8>, x: nat, y: nat, k: nat)
    requires g.Valid() && g.Holds(a) && g.Holds(b) && x < g.width && y < g.height
    requires ByteChanged(g.stride, a, b, x, y, k)
    ensures PixelDiffers(g, a, b, x, y)
  {
    ByteInside(g, a, x, y, k);
    ByteInside(g, b, x, y, k);
    assert Byte(g, a, x, y, k) != Byte(g, b, x, y, k);
  }

  /** Tiles that share a pixel are the same tile. */
  lemma TilesDisjoint(g: Grid, a: seq<u8>, b: seq<u8>, r: Rect, q: Rect, t: nat, u: nat, t': nat, u': nat, x: nat,
                      y: nat)
    requires g.Valid() && g.Holds(a) && g.Holds(b)
    requires TileAt(g, a, b, r, t, u) && TileAt(g, a, b, q, t', u') && r.Covers(x, y) && q.Covers(x, y)
    ensures r == q
  {
    hide Dirty;
    InStep(x, t, g.tile);
    InStep(x, t', g.tile);
    InStep(y, u, g.tile);
    InStep(y, u', g.tile);
  }

  /** A pixel of the n-th reported tile is covered by none before it. */
  lemma NotCoveredEarlier(g: Grid, a: seq<u8>, b: seq<u8>, n: nat, x: nat, y: nat)
    requires g.Valid() && g.Holds(a) && g.Holds(b) && n < |DirtyTiles(g, a, b)|
    requires DirtyTiles(g, a, b)[n].Covers(x, y)
    ensures !Covered(DirtyTiles(g, a, b)[..n], x, y)
  {
    hide Dirty, DirtyRows, Grid.TileRect, Rect.Covers, TileAt;
    var found := DirtyTiles(g, a, b);
    RowsOrdered(g, a, b, g.Down());
    ReportsDirtyTiles(g, a, b, found[n]);
    var t: nat, u: nat :| TileAt(g, a, b, found[n], t, u);
    forall q | q in found[..n] && q.Covers(x, y) ensures false {
      ReportsDirtyTiles(g, a, b, q);
      var t': nat, u': nat :| TileAt(g, a, b, q, t', u');
      TilesDisjoint(g, a, b, found[n], q, t, u, t', u', x, y);
    }
  }

  ghost predicate Stale(g: Grid, p: seq<u8>, b: seq<u8>) {
    && g.Valid() && g.Holds(p) && g.Holds(b)
    && exists x, y :: 0 <= x < g.width && 0 <= y < g.height && PixelDiffers(g, p, b, x, y)
  }

  lemma UncoveredStaysStale(g: Grid, a: seq<u8>, b: seq<u8>, rs: seq<Rect>, x: nat, y: nat)
    requires g.Valid() && g.Holds(a) && g.Holds(b) && x < g.width && y < g.height
    requires PixelDiffers(g, a, b, x, y) && !Covered(rs, x, y)
    ensures Stale(g, Patched(g, a, b, rs), b)
  {
    hide Byte, Patched, Covered;
    var k :| 0 <= k < 4 && Byte(g, a, x, y, k) != Byte(g, b, x, y, k);
    PatchedByte(g, a, b, rs, x, y, k);
    assert PixelDiffers(g, Patched(g, a, b, rs), b, x, y);
  }

  /** When the dirty tiles do not all fit, the rectangles that did leave a changed pixel stale. */
  lemma TruncatedPatchIsStale(g: Grid, a: seq<u8>, b: seq<u8>, n: nat)
    requires g.Valid() && g.Holds(a) && g.Holds(b) && n < |DirtyTiles(g, a, b)|
    ensures g.stride > 0 && Stale(g, Patched(g, a, b, DirtyTiles(g, a, b)[..n]), b)
  {
    hide Dirty, DirtyTiles, PixelDiffers, Grid.TileRect, Patched, Covered, Grid.Holds;
    var r := DirtyTiles(g, a, b)[n];
    ReportsDirtyTiles(g, a, b, r);
    var t: nat, u: nat :| TileAt(g, a, b, r, t, u);
    DirtyExactly(g, a, b, r);
    var x: nat, y: nat :| r.Covers(x, y) && PixelDiffers(g, a, b, x, y);
    NotCoveredEarlier(g, a, b, n, x, y);
    UncoveredStaysStale(g, a, b, DirtyTiles(g, a, b)[..n], x, y);
  }

  /** The list depends on the visible bytes alone. */
  lemma PaddingIrrelevant(g: Grid, a: seq<u8>, b: seq<u8>, a': seq<u8>, b': seq<u8>)
    requires g.Valid() && g.Holds(a) && g.Holds(b) && g.Holds(a') && g.Holds(b')
    requires forall x, y, k | 0 <= x < g.width && 0 <= y < g.height && 0 <= k < 4 ::
               Byte(g, a, x, y, k) == Byte(g, a', x, y, k) && Byte(g, b, x, y, k) == Byte(g, b', x, y, k)
    ensures DirtyTiles(g, a, b) == DirtyTiles(g, a', b')
  {
    SameRows(g, a, b, a', b', g.Down());
  }

  lemma {:induction false} SameRows(g: Grid, a: seq<u8>, b: seq<u8>, a': seq<u8>, b': seq<u8>, ty: nat)
    requires g.Valid() && g.Holds(a) && g.Holds(b) && g.Holds(a') && g.Holds(b') && ty <= g.Down()
    requires forall x, y, k | 0 <= x < g.width && 0 <= y < g.height && 0 <= k < 4 ::
               Byte(g, a, x, y, k) == Byte(g, a', x, y, k) && Byte(g, b, x, y, k) == Byte(g, b', x, y, k)
    ensures DirtyRows(g, a, b, ty) == DirtyRows(g, a', b', ty)
  {
    if ty > 0 {
      SameRows(g, a, b, a', b', ty - 1);
      SameInRow(g, a, b, a', b', ty - 1, g.Across());
    }
  }

  lemma {:induction false} SameInRow(g: Grid, a: seq<u8>, b: seq<u8>, a': seq<u8>, b': seq<u8>, ty: nat, tx: nat)
    requires g.Valid() && g.Holds(a) && g.Holds(b) && g.Holds(a') && g.Holds(b') && ty < g.Down() && tx <= g.Across()
    requires forall x, y, k | 0 <= x < g.width && 0 <= y < g.height && 0 <= k < 4 ::
               Byte(g, a, x, y, k) == Byte(g, a', x, y, k) && Byte(g, b, x, y, k) == Byte(g, b', x, y, k)
    ensures DirtyInRow(g, a, b, ty, tx) == DirtyInRow(g, a', b', ty, tx)
  {
    hide Dirty;
    if tx > 0 {
      SameInRow(g, a, b, a', b', ty, tx - 1);
      TileInGrid(g, a, tx - 1, ty);
      var r := g.TileRect(tx - 1, ty);
      SameDirty(g, a, b, a', b', r);
    }
  }

  lemma SameDirty(g: Grid, a: seq<u8>, b: seq<u8>, a': seq<u8>, b': seq<u8>, r: Rect)
    requires g.Valid() && g.Holds(a) && g.Holds(b) && g.Holds(a') && g.Holds(b') && g.Inside(r) && r.w > 0
    requires forall x, y, k | 0 <= x < g.width && 0 <= y < g.height && 0 <= k < 4 ::
               Byte(g, a, x, y, k) == Byte(g, a', x, y, k) && Byte(g, b, x, y, k) == Byte(g, b', x, y, k)
    ensures Dirty(g, a, b, r) == Dirty(g, a', b', r)
  {
    hide Byte, Dirty;
    DirtyExactly(g, a, b, r);
    DirtyExactly(g, a', b', r);
    assert forall x: nat, y: nat | r.Covers(x, y) :: PixelDiffers(g, a, b, x, y) == PixelDiffers(g, a', b', x, y);
  }
}
