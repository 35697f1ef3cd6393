/**
 Intel X and Y tiling as the CPU deswizzle addresses it.  A tile is 4096 bytes either way:
 512 bytes by 8 rows stored row by row, or 128 bytes by 32 rows stored in 16-byte columns.
 */
module TileLayout {
  import opened Arith
  import opened Words
  import opened Geometry

  const TILE_BYTES := 4096

  datatype Tiling = XTiled | YTiled
  {
    function Width(): (w: nat) { if XTiled? then 512 else 128 }

    function Height(): (h: nat) { if XTiled? then 8 else 32 }

    /** Offset of byte column c, row r inside one tile. */
    function InTile(c: nat, r: nat): (o: nat) {
      if XTiled? then r * 512 + c else c / 16 * 512 + r * 16 + c % 16
    }

    function ColumnIn(o: nat): (c: nat) {
      if XTiled? then o % 512 else o / 512 * 16 + o % 16
    }

    function RowIn(o: nat): (r: nat) {
      if XTiled? then o / 512 else o % 512 / 16
    }

    /** Address of byte column c of row y, with n tiles to a row, on unbounded integers. */
    function Address(c: nat, y: nat, n: nat): (o: nat) {
      MulMonotone(0, y / Height(), n);
      (y / Height() * n + c / Width()) * TILE_BYTES + InTile(c % Width(), y % Height())
    }

    function TilesPerRow(stride: u32): (n: u32) {
      W32(stride + Width() - 1) / Width()
    }

    /** The offset of pixel (x, y) as the loop computes it, in uint32_t arithmetic. */
    function SourceOffset(x: u32, y: u32, stride: u32): (o: u32) {
      W32(Address(W32(x * 4), y, TilesPerRow(stride)))
    }

    /** Where address o came from. */
    function ColumnOf(o: nat, n: nat): (c: nat)
      requires n > 0
    {
      o / TILE_BYTES % n * Width() + ColumnIn(o % TILE_BYTES)
    }

    function RowOf(o: nat, n: nat): (y: nat)
      requires n > 0
    {
      o / TILE_BYTES / n * Height() + RowIn(o % TILE_BYTES)
    }
  }

  // ---- the map is a bijection ----

  lemma InTileInverse(l: Tiling, c: nat, r: nat)
    requires c < l.Width() && r < l.Height()
    ensures l.InTile(c, r) < TILE_BYTES
    ensures l.ColumnIn(l.InTile(c, r)) == c && l.RowIn(l.InTile(c, r)) == r
  {
    if l.YTiled? {
      var o := l.InTile(c, r);
      assert o / 512 == c / 16 && o % 512 == r * 16 + c % 16;
    }
  }

  lemma InTileOnto(l: Tiling, o: nat)
    requires o < TILE_BYTES
    ensures l.ColumnIn(o) < l.Width() && l.RowIn(o) < l.Height()
    ensures l.InTile(l.ColumnIn(o), l.RowIn(o)) == o
  {
    if l.YTiled? {
      var c := l.ColumnIn(o);
      assert c / 16 == o / 512 && c % 16 == o % 16;
      assert o % 512 % 16 == o % 16;
    }
  }

  /** Distinct (column, row) pairs have distinct addresses: the address gives both back. */
  lemma AddressInvertible(l: Tiling, c: nat, y: nat, n: nat)
    requires n > 0 && c < n * l.Width()
    ensures l.ColumnOf(l.Address(c, y, n), n) == c && l.RowOf(l.Address(c, y, n), n) == y
  {
    var w, h := l.Width(), l.Height();
    InTileInverse(l, c % w, y % h);
    var t := y / h * n + c / w;
    QuotientIs(l.Address(c, y, n), TILE_BYTES, t, l.InTile(c % w, y % h));
    ColumnBelow(c, w, n);
    QuotientIs(t, n, y / h, c / w);
  }

  lemma AddressOf(l: Tiling, q: nat, p: nat, n: nat, c: nat, r: nat)
    requires c < l.Width() && r < l.Height()
    ensures 0 <= p * l.Width() + c && 0 <= q * l.Height() + r
    ensures l.Address(p * l.Width() + c, q * l.Height() + r, n) == (q * n + p) * TILE_BYTES + l.InTile(c, r)
  {
    hide Tiling.InTile;
    QuotientIs(p * l.Width() + c, l.Width(), p, c);
    QuotientIs(q * l.Height() + r, l.Height(), q, r);
  }

  /** Every address is the image of a column inside the tile row. */
  lemma AddressOnto(l: Tiling, o: nat, n: nat)
    requires n > 0
    ensures l.ColumnOf(o, n) < n * l.Width()
    ensures l.Address(l.ColumnOf(o, n), l.RowOf(o, n), n) == o
  {
    var t, r := o / TILE_BYTES, o % TILE_BYTES;
    InTileOnto(l, r);
    hide Tiling.InTile, Tiling.ColumnIn, Tiling.RowIn, Tiling.Address;
    QuotientRest(t, n);
    AddressOf(l, t / n, t % n, n, l.ColumnIn(r), l.RowIn(r));
    MulMonotone(t % n + 1, n, l.Width());
    MulSum(t % n, 1, l.Width());
  }

  lemma ColumnBelow(c: nat, w: nat, n: nat)
    requires w > 0 && c < n * w
    ensures c / w < n
  {
    assert c == c / w * w + c % w;
    if n <= c / w { MulMonotone(n, c / w, w); }
  }

  lemma WordInside(c: nat, b: nat, w: nat)
    requires c % 4 == 0 && b < 4 && (w == 512 || w == 128)
    ensures (c + b) / w == c / w && (c + b) % w == c % w + b && c % w % 4 == 0
  {
    QuotientRest(c, w);
    var q, r := c / w, c % w;
    if w == 512 { assert c == 512 * q + r; } else { assert c == 128 * q + r; }
    QuotientIs(c + b, w, q, r + b);
  }

  lemma InTileContiguous(l: Tiling, c: nat, b: nat, r: nat)
    requires c % 4 == 0 && b < 4
    ensures l.InTile(c + b, r) == l.InTile(c, r) + b
  {
    assert (c + b) / 16 == c / 16 && (c + b) % 16 == c % 16 + b;
  }

  /** The four bytes of a pixel are contiguous in the tiled source. */
  lemma PixelContiguous(l: Tiling, x: nat, b: nat, y: nat, n: nat)
    requires b < 4
    ensures l.Address(4 * x + b, y, n) == l.Address(4 * x, y, n) + b
  {
    hide Tiling.InTile;
    WordInside(4 * x, b, l.Width());
    InTileContiguous(l, 4 * x % l.Width(), b, y % l.Height());
  }

  /** Addresses do not fall along a row or down a column. */
  lemma AddressMonotone(l: Tiling, c: nat, y: nat, c': nat, y': nat, n: nat)
    requires c <= c' < n * l.Width() && y <= y'
    ensures l.Address(c, y, n) <= l.Address(c', y', n)
  {
    var w, h := l.Width(), l.Height();
    var p, q, p', q' := c / w, y / h, c' / w, y' / h;
    QuotientMonotone(c, c', w);
    QuotientMonotone(y, y', h);
    InTileInverse(l, c % w, y % h);
    InTileInverse(l, c' % w, y' % h);
    if p == p' && q == q' { InTileMonotone(l, c, y, c', y'); }
    hide Tiling.InTile;
    if q < q' {
      ColumnBelow(c, w, n);
      NextTileRow(p, q, p', q', n);
    }
  }

  lemma NextTileRow(p: nat, q: nat, p': nat, q': nat, n: nat)
    requires p < n && q < q'
    ensures q * n + p < q' * n + p'
  {
    MulMonotone(q + 1, q', n);
    MulSum(q, 1, n);
  }

  lemma QuotientMonotone(a: nat, b: nat, d: nat)
    requires d > 0 && a <= b
    ensures a / d <= b / d
  {
    if b / d < a / d { MulMonotone(b / d + 1, a / d, d); }
  }

  /** In the same tile. */
  lemma InTileMonotone(l: Tiling, c: nat, y: nat, c': nat, y': nat)
    requires c <= c' && y <= y' && c / l.Width() == c' / l.Width() && y / l.Height() == y' / l.Height()
    ensures l.InTile(c % l.Width(), y % l.Height()) <= l.InTile(c' % l.Width(), y' % l.Height())
  {
    RestMonotone(c, c', l.Width());
    RestMonotone(y, y', l.Height());
    InTileGrows(l, c % l.Width(), y % l.Height(), c' % l.Width(), y' % l.Height());
  }

  lemma InTileGrows(l: Tiling, a: nat, r: nat, a': nat, r': nat)
    requires a <= a' < l.Width() && r <= r' < l.Height()
    ensures l.InTile(a, r) <= l.InTile(a', r')
  {
    if l.YTiled? {
      QuotientRest(a, 16);
      QuotientRest(a', 16);
      QuotientMonotone(a, a', 16);
      if a / 16 == a' / 16 { RestMonotone(a, a', 16); }
    }
  }

  lemma RestMonotone(a: nat, b: nat, d: nat)
    requires d > 0 && a <= b && a / d == b / d
    ensures a % d <= b % d < d
  {
    QuotientRest(a, d);
    QuotientRest(b, d);
  }

  // ---- no 32-bit offset wraps ----

  function RoundUp(n: nat, d: nat): (r: nat)
    requires d > 0
  {
    (n + d - 1) / d * d
  }

  /** Bytes covered when rows and columns are rounded up to whole tiles. */
  function Footprint(l: Tiling, stride: nat, height: nat): (bytes: nat) {
    RoundUp(stride, l.Width()) * RoundUp(height, l.Height())
  }

  lemma RoundUpBounds(n: nat, d: nat)
    requires d > 0
    ensures n <= RoundUp(n, d) < n + d && RoundUp(n, d) % d == 0
  {
    var m := n + d - 1;
    assert m == m / d * d + m % d;
    QuotientIs(RoundUp(n, d), d, m / d, 0);
  }

  /** The largest footprint of any accepted geometry is that of one row of MAX_FB_BYTES. */
  lemma FootprintBound(l: Tiling, width: u32, height: u32, stride: u32)
    requires Accepted(width, height, stride)
    ensures Footprint(l, stride, height) <= l.Height() * MAX_FB_BYTES < TWO32
  {
    hide RoundUp, Accepted;
    AcceptedBounds(width, height, stride);
    RoundUpBounds(stride, l.Width());
    if height <= l.Height() {
      OneTileRow(l, height, stride);
      MulMonotone(RoundUp(stride, l.Width()), MAX_FB_BYTES, l.Height());
    } else {
      RoundUpBounds(height, l.Height());
      ManyTileRows(stride, height, RoundUp(stride, l.Width()), RoundUp(height, l.Height()));
    }
  }

  lemma OneTileRow(l: Tiling, height: nat, stride: nat)
    requires 1 <= height <= l.Height() && stride <= MAX_FB_BYTES
    ensures RoundUp(height, l.Height()) == l.Height() && RoundUp(stride, l.Width()) <= MAX_FB_BYTES
  {}

  lemma ManyTileRows(stride: nat, height: nat, s: nat, h: nat)
    requires stride * height <= MAX_FB_BYTES && height <= MAX_DIM
    requires s <= stride + 511 && h <= 2 * height
    ensures s * h <= 8 * MAX_FB_BYTES
  {
    MulMonotone(s, stride + 511, h);
    assert (stride + 511) * h == stride * h + 511 * h;
    MulMonotone(h, 2 * height, stride);
    assert (2 * height) * stride == 2 * (stride * height);
  }

  /** The bound is attained, so it cannot be lowered. */
  lemma FootprintBoundAttained(l: Tiling)
    ensures Accepted(1, 1, MAX_FB_BYTES) && Footprint(l, MAX_FB_BYTES, 1) == l.Height() * MAX_FB_BYTES
    ensures 32 * MAX_FB_BYTES == 4_246_732_800
  {
    SizeBound(MAX_FB_BYTES, 1);
    OneTileRow(l, 1, MAX_FB_BYTES);
    assert RoundUp(MAX_FB_BYTES, l.Width()) == MAX_FB_BYTES;
  }

  lemma AddressInFootprint(l: Tiling, c: nat, y: nat, stride: nat, height: nat)
    requires c < stride && y < height
    ensures l.Address(c, y, RoundUp(stride, l.Width()) / l.Width()) < Footprint(l, stride, height)
  {
    var w, h := l.Width(), l.Height();
    RoundUpBounds(stride, w);
    RoundUpBounds(height, h);
    var n, m := (stride + w - 1) / w, (height + h - 1) / h;
    QuotientIs(n * w, w, n, 0);
    InTileInverse(l, c % w, y % h);
    TilesTimesArea(l, n, m);
    hide Tiling.InTile;
    ColumnBelow(c, w, n);
    ColumnBelow(y, h, m);
    RowMajorIndex(c / w, y / h, n, m);
  }

  lemma TilesTimesArea(l: Tiling, n: nat, m: nat)
    ensures (n * l.Width()) * (m * l.Height()) == (m * n) * TILE_BYTES
  {
    var w, h := l.Width(), l.Height();
    assert w * h == TILE_BYTES;
    calc {
      (n * w) * (m * h);
      (m * n) * (w * h);
    }
  }

  /** For accepted geometry the 32-bit offset is the exact address and the whole pixel is below 2^32. */
  lemma OffsetsDoNotWrap(l: Tiling, x: u32, y: u32, width: u32, height: u32, stride: u32)
    requires Accepted(width, height, stride) && x < width && y < height
    ensures l.SourceOffset(x, y, stride) == l.Address(4 * x, y, l.TilesPerRow(stride))
    ensures l.TilesPerRow(stride) == RoundUp(stride, l.Width()) / l.Width()
    ensures l.SourceOffset(x, y, stride) + 4 <= Footprint(l, stride, height) < TWO32
  {
    hide Tiling.Address, RoundUp, Accepted, Footprint, Tiling.TilesPerRow;
    AcceptedBounds(width, height, stride);
    FootprintBound(l, width, height, stride);
    TilesAreRoundUp(l, stride);
    LastByteInFootprint(l, x, y, width, height, stride);
    assert W32(x * 4) == 4 * x;
  }

  lemma LastByteInFootprint(l: Tiling, x: u32, y: u32, width: u32, height: u32, stride: u32)
    requires width * 4 <= stride <= MAX_FB_BYTES && x < width && y < height
    ensures l.Address(4 * x, y, l.TilesPerRow(stride)) + 4 <= Footprint(l, stride, height)
  {
    hide Tiling.Address, RoundUp, Footprint, Tiling.TilesPerRow;
    TilesAreRoundUp(l, stride);
    AddressInFootprint(l, 4 * x + 3, y, stride, height);
    PixelContiguous(l, x, 3, y, l.TilesPerRow(stride));
  }

  lemma TilesAreRoundUp(l: Tiling, stride: u32)
    requires stride <= MAX_FB_BYTES
    ensures l.TilesPerRow(stride) == RoundUp(stride, l.Width()) / l.Width()
  {
    var n := (stride + l.Width() - 1) / l.Width();
    QuotientIs(n * l.Width(), l.Width(), n, 0);
  }
}
