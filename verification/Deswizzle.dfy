/**
 The CPU deswizzle: bounded reads out of a tiled (or row-addressed) source into a
 row-addressed destination, four bytes per pixel whatever the format.
 */
module Deswizzle {
  import opened Arith
  import opened Words
  import opened Geometry
  import opened TileLayout
  import opened Buffers

  const MOD_LINEAR: u64 := 0
  const MOD_INVALID: u64 := 0x00ff_ffff_ffff_ffff

  const VENDOR_INTEL := 0x01

  datatype Layout = Rows | Tiles(tiling: Tiling)

  datatype Decoder = Decodes(layout: Layout) | Refuses

  /** Which decoder a modifier selects.  Yf (type 3) goes through the Y map. */
  function DecoderOf(modifier: u64): (d: Decoder) {
    var vendor, kind := modifier / 0x100_0000_0000_0000, modifier % 0x100;
    if modifier == MOD_LINEAR then Decodes(Rows)
    else if vendor == VENDOR_INTEL then
      if kind == 0x01 then Decodes(Tiles(XTiled))
      else if kind == 0x02 || kind == 0x03 then Decodes(Tiles(YTiled))
      else Refuses
    else if modifier == MOD_INVALID then Decodes(Rows)
    else Refuses
  }

  /** Geometry of one decode: what the loops index with. */
  datatype Shape = Shape(width: u32, height: u32, srcStride: u32, dstStride: u32, srcSize: nat)
  {
    predicate RowFits() { width * 4 <= dstStride }

    /** Where the last visible byte of the destination ends. */
    function DstEnd(): (n: nat)
      requires width > 0 && height > 0
    {
      (height - 1) * dstStride + width * 4
    }
  }

  const BLACK: seq<u8> := [0, 0, 0, 0]

  /** The four bytes of pixel (x, y) of the decoded image; zero where the source does not reach. */
  function Pixel(l: Layout, src: seq<u8>, s: Shape, x: u32, y: u32): (v: seq<u8>)
    requires s.srcSize <= |src| && x < s.width
    ensures |v| == 4
  {
    match l
    case Rows =>
      if y * s.srcStride + s.width * 4 <= s.srcSize then src[y * s.srcStride + x * 4..][..4] else BLACK
    case Tiles(t) =>
      var o := t.SourceOffset(x, y, s.srcStride);
      if o + 4 <= s.srcSize then src[o..][..4] else BLACK
  }

  /** Byte i of the destination afterwards: a visible pixel's byte, or what was there before. */
  function OutByte(l: Layout, src: seq<u8>, s: Shape, was: seq<u8>, i: nat): (v: u8)
    requires s.srcSize <= |src| && i < |was| && s.dstStride > 0
  {
    hide Line, Column, Pixel;
    var y, c := Line(i, s.dstStride), Column(i, s.dstStride);
    if y < s.height && c < s.width * 4 then
      Pixel(l, src, s, c / 4, y)[c % 4]
    else was[i]
  }

  ghost function Decoded(l: Layout, src: seq<u8>, s: Shape, was: seq<u8>): (out: seq<u8>)
    requires s.srcSize <= |src| && s.dstStride > 0
    ensures |out| == |was|
    ensures forall i | 0 <= i < |out| :: out[i] == OutByte(l, src, s, was, i)
  {
    seq(|was|, i requires 0 <= i < |was| => OutByte(l, src, s, was, i))
  }

  // ---- the loops reach the specified bytes ----

  lemma PixelPlace(l: Layout, src: seq<u8>, s: Shape, was: seq<u8>, x: u32, y: u32, b: nat)
    requires s.srcSize <= |src| && s.dstStride > 0 && s.RowFits()
    requires x < s.width && y < s.height && b < 4 && y * s.dstStride + x * 4 + b < |was|
    ensures var i := y * s.dstStride + x * 4 + b;
            0 <= i && Decoded(l, src, s, was)[i] == Pixel(l, src, s, x, y)[b]
  {
    hide Pixel;
    PlaceOf(y, x * 4 + b, s.dstStride);
    QuotientIs(x * 4 + b, 4, x, b);
  }

  /** Bytes right of the visible row keep their value. */
  lemma PaddingKept(l: Layout, src: seq<u8>, s: Shape, was: seq<u8>, y: nat, i: nat)
    requires s.srcSize <= |src| && s.dstStride > 0
    requires y * s.dstStride + s.width * 4 <= i < (y + 1) * s.dstStride && i < |was|
    ensures Decoded(l, src, s, was)[i] == was[i]
  {
    hide Pixel;
    PlaceOf(y, i - y * s.dstStride, s.dstStride);
  }

  /** Bytes below the last row keep their value. */
  lemma TailKept(l: Layout, src: seq<u8>, s: Shape, was: seq<u8>, i: nat)
    requires s.srcSize <= |src| && s.dstStride > 0
    requires s.height * s.dstStride <= i < |was|
    ensures Decoded(l, src, s, was)[i] == was[i]
  {
    hide Pixel;
    BelowLastRow(i, s.dstStride, s.height);
  }

  lemma RowAdvance(l: Layout, src: seq<u8>, s: Shape, was: seq<u8>, cur: seq<u8>, y: nat)
    requires s.srcSize <= |src| && s.dstStride > 0 && s.RowFits() && y < s.height
    requires Upto(cur, Decoded(l, src, s, was), was, y * s.dstStride + s.width * 4)
    ensures Upto(cur, Decoded(l, src, s, was), was, (y + 1) * s.dstStride)
  {
    hide OutByte, Upto;
    var out := Decoded(l, src, s, was);
    assert y * s.dstStride + s.dstStride == (y + 1) * s.dstStride;
    forall i | y * s.dstStride + s.width * 4 <= i < (y + 1) * s.dstStride && i < |was| ensures out[i] == was[i] {
      PaddingKept(l, src, s, was, y, i);
    }
    UptoSkip(cur, out, was, y * s.dstStride + s.width * 4, (y + 1) * s.dstStride);
  }

  lemma AllDone(l: Layout, src: seq<u8>, s: Shape, was: seq<u8>, cur: seq<u8>)
    requires s.srcSize <= |src| && s.dstStride > 0
    requires Upto(cur, Decoded(l, src, s, was), was, s.height * s.dstStride)
    ensures cur == Decoded(l, src, s, was)
  {
    hide OutByte, Upto;
    var out := Decoded(l, src, s, was);
    forall i | s.height * s.dstStride <= i < |was| ensures out[i] == was[i] {
      TailKept(l, src, s, was, i);
    }
    UptoDone(cur, out, was, s.height * s.dstStride);
  }

  lemma RowInside(s: Shape, y: nat)
    requires s.width > 0 && s.height > 0 && y < s.height
    ensures 0 <= y * s.dstStride <= y * s.dstStride + s.width * 4 <= s.DstEnd()
  {
    MulMonotone(y, s.height - 1, s.dstStride);
  }

  /** The 32-bit row offset is exact when the image ends below 2^32. */
  lemma RowDoesNotWrap(s: Shape, y: nat)
    requires s.width > 0 && s.height > 0 && y < s.height && s.DstEnd() <= TWO32
    ensures W32(y * s.dstStride) == y * s.dstStride
  {
    RowInside(s, y);
  }

  // ---- the loops ----

  /** One pixel: a bounded four-byte copy, or four zero bytes. */
  method PutPixel(src: array<u8>, srcSize: nat, dst: array<u8>, from: u32, at: nat)
    requires srcSize <= src.Length && src != dst && at + 4 <= dst.Length
    modifies dst
    ensures OnlyWrote(old(dst[..]), dst[..], at, 4)
    ensures dst[at..][..4] == if from + 4 <= srcSize then src[from..][..4] else BLACK
  {
    if from + 4 <= srcSize {
      dst[at] := src[from];
      dst[at + 1] := src[from + 1];
      dst[at + 2] := src[from + 2];
      dst[at + 3] := src[from + 3];
    } else {
      dst[at] := 0;
      dst[at + 1] := 0;
      dst[at + 2] := 0;
      dst[at + 3] := 0;
    }
  }

  /** The state after one more pixel of row y. */
  lemma PixelAdvance(l: Layout, src: seq<u8>, s: Shape, was: seq<u8>, before: seq<u8>, after: seq<u8>, x: u32, y: u32)
    requires s.srcSize <= |src| && s.dstStride > 0 && s.RowFits() && x < s.width && y < s.height
    requires OnlyWrote(before, after, y * s.dstStride + x * 4, 4)
    requires Upto(before, Decoded(l, src, s, was), was, y * s.dstStride + x * 4)
    requires after[y * s.dstStride + x * 4..][..4] == Pixel(l, src, s, x, y)
    ensures Upto(after, Decoded(l, src, s, was), was, y * s.dstStride + (x + 1) * 4)
  {
    hide Pixel, OutByte;
    PixelPlace(l, src, s, was, x, y, 0);
    PixelPlace(l, src, s, was, x, y, 1);
    PixelPlace(l, src, s, was, x, y, 2);
    PixelPlace(l, src, s, was, x, y, 3);
    UptoWrite(before, after, Decoded(l, src, s, was), was, y * s.dstStride + x * 4, 4);
  }

  lemma XOffset(x: u32, y: u32, stride: u32)
    ensures var xBytes := W32(x * 4);
            W32((y / 8 * (W32(stride + 511) / 512) + xBytes / 512) * 4096 + y % 8 * 512 + xBytes % 512)
              == XTiled.SourceOffset(x, y, stride)
  {}

  lemma YOffset(x: u32, y: u32, stride: u32)
    ensures var xBytes := W32(x * 4);
            var inTileX := xBytes % 128;
            W32((y / 32 * (W32(stride + 127) / 128) + xBytes / 128) * 4096
                + inTileX / 16 * 512 + y % 32 * 16 + inTileX % 16)
              == YTiled.SourceOffset(x, y, stride)
  {}

  method DeswizzleIntelX(src: array<u8>, dst: array<u8>, s: Shape)
    requires src != dst && s.srcSize <= src.Length
    requires s.width > 0 && s.height > 0 && s.RowFits() && s.DstEnd() <= dst.Length && s.DstEnd() <= TWO32
    modifies dst
    ensures dst[..] == Decoded(Tiles(XTiled), src[..], s, old(dst[..]))
  {
    hide OutByte, Tiling.SourceOffset, Upto, W32;
    ghost var from, was, l := src[..], dst[..], Tiles(XTiled);
    var tilesX := W32(s.srcStride + 511) / 512;
    var y := 0;
    UptoStart(Decoded(l, from, s, was), was);
    while y < s.height
      invariant 0 <= y <= s.height
      invariant src[..] == from
      invariant Upto(dst[..], Decoded(l, from, s, was), was, y * s.dstStride)
    {
      RowInside(s, y);
      var row := W32(y * s.dstStride);
      assert row == y * s.dstStride by { RowDoesNotWrap(s, y); }
      var tileRow, tileY := y / 8, y % 8;
      var x := 0;
      while x < s.width
        invariant 0 <= x <= s.width
        invariant src[..] == from
        invariant Upto(dst[..], Decoded(l, from, s, was), was, y * s.dstStride + x * 4)
      {
        var xBytes := W32(x * 4);
        var tileCol, inTileX := xBytes / 512, xBytes % 512;
        var off := W32((tileRow * tilesX + tileCol) * 4096 + tileY * 512 + inTileX);
        XOffset(x, y, s.srcStride);
        ghost var before := dst[..];
        PutPixel(src, s.srcSize, dst, off, row + x * 4);
        PixelAdvance(l, from, s, was, before, dst[..], x, y);
        x := x + 1;
      }
      RowAdvance(l, from, s, was, dst[..], y);
      y := y + 1;
    }
    AllDone(l, from, s, was, dst[..]);
  }

  method DeswizzleIntelY(src: array<u8>, dst: array<u8>, s: Shape)
    requires src != dst && s.srcSize <= src.Length
    requires s.width > 0 && s.height > 0 && s.RowFits() && s.DstEnd() <= dst.Length && s.DstEnd() <= TWO32
    modifies dst
    ensures dst[..] == Decoded(Tiles(YTiled), src[..], s, old(dst[..]))
  {
    hide OutByte, Tiling.SourceOffset, Upto, W32;
    ghost var from, was, l := src[..], dst[..], Tiles(YTiled);
    var tilesX := W32(s.srcStride + 127) / 128;
    var y := 0;
    UptoStart(Decoded(l, from, s, was), was);
    while y < s.height
      invariant 0 <= y <= s.height
      invariant src[..] == from
      invariant Upto(dst[..], Decoded(l, from, s, was), was, y * s.dstStride)
    {
      RowInside(s, y);
      var row := W32(y * s.dstStride);
      assert row == y * s.dstStride by { RowDoesNotWrap(s, y); }
      var tileRow, tileY := y / 32, y % 32;
      var x := 0;
      while x < s.width
        invariant 0 <= x <= s.width
        invariant src[..] == from
        invariant Upto(dst[..], Decoded(l, from, s, was), was, y * s.dstStride + x * 4)
      {
        var xBytes := W32(x * 4);
        var tileCol, inTileX := xBytes / 128, xBytes % 128;
        var column, columnOffset := inTileX / 16, inTileX % 16;
        var off := W32((tileRow * tilesX + tileCol) * 4096 + column * (16 * 32) + tileY * 16 + columnOffset);
        YOffset(x, y, s.srcStride);
        ghost var before := dst[..];
        PutPixel(src, s.srcSize, dst, off, row + x * 4);
        PixelAdvance(l, from, s, was, before, dst[..], x, y);
        x := x + 1;
      }
      RowAdvance(l, from, s, was, dst[..], y);
      y := y + 1;
    }
    AllDone(l, from, s, was, dst[..]);
  }

  /** One row of the row-addressed copy: the whole row, or zeros when the source ends inside it. */
  method CopyRow(src: array<u8>, srcSize: nat, dst: array<u8>, from: nat, to: nat, n: nat)
    requires src != dst && srcSize <= src.Length && to + n <= dst.Length
    modifies dst
    ensures OnlyWrote(old(dst[..]), dst[..], to, n)
    ensures dst[to..][..n] == if from + n <= srcSize then src[from..][..n] else Zeros(n)
  {
    if from + n > srcSize {
      forall i | to <= i < to + n { dst[i] := 0; }
    } else {
      forall i | to <= i < to + n { dst[i] := src[from + (i - to)]; }
    }
  }

  /** Row y of the source, or zeros when the source ends inside it. */
  function SourceRow(src: seq<u8>, s: Shape, y: u32): (row: seq<u8>)
    requires s.srcSize <= |src|
    ensures |row| == s.width * 4
  {
    var from: int := y * s.srcStride;
    if 0 <= from && from + s.width * 4 <= s.srcSize then src[from..][..s.width * 4] else Zeros(s.width * 4)
  }

  lemma RowDone(src: seq<u8>, s: Shape, was: seq<u8>, before: seq<u8>, after: seq<u8>, y: u32)
    requires s.srcSize <= |src| && s.dstStride > 0 && s.RowFits() && s.width > 0 && y < s.height
    requires OnlyWrote(before, after, y * s.dstStride, s.width * 4)
    requires Upto(before, Decoded(Rows, src, s, was), was, y * s.dstStride)
    requires after[y * s.dstStride..][..s.width * 4] == SourceRow(src, s, y)
    ensures Upto(after, Decoded(Rows, src, s, was), was, y * s.dstStride + s.width * 4)
  {
    hide OutByte, Pixel, SourceRow;
    var p, n := y * s.dstStride, s.width * 4;
    var out := Decoded(Rows, src, s, was);
    forall c | 0 <= c < n ensures after[p..][..n][c] == out[p..][..n][c] {
      RowByte(src, s, c / 4, y, c % 4);
      PixelPlace(Rows, src, s, was, c / 4, y, c % 4);
    }
    UptoWrite(before, after, out, was, p, n);
  }

  lemma RowByte(src: seq<u8>, s: Shape, x: u32, y: u32, b: nat)
    requires s.srcSize <= |src| && x < s.width && b < 4
    ensures Pixel(Rows, src, s, x, y)[b] == SourceRow(src, s, y)[x * 4 + b]
  {
    var from: int := y * s.srcStride;
    assert from >= 0 && y * s.srcStride + x * 4 == from + x * 4;
  }

  method CopyRows(src: array<u8>, dst: array<u8>, s: Shape)
    requires src != dst && s.srcSize <= src.Length
    requires s.width > 0 && s.height > 0 && s.RowFits() && s.DstEnd() <= dst.Length && s.DstEnd() <= TWO32
    modifies dst
    ensures dst[..] == Decoded(Rows, src[..], s, old(dst[..]))
  {
    hide OutByte, Pixel, Upto;
    ghost var from, was := src[..], dst[..];
    var y := 0;
    UptoStart(Decoded(Rows, from, s, was), was);
    while y < s.height
      invariant 0 <= y <= s.height
      invariant src[..] == from
      invariant Upto(dst[..], Decoded(Rows, from, s, was), was, y * s.dstStride)
    {
      RowInside(s, y);
      var row := W32(y * s.dstStride);
      assert row == y * s.dstStride by { RowDoesNotWrap(s, y); }
      ghost var before := dst[..];
      CopyRow(src, s.srcSize, dst, y * s.srcStride, row, s.width * 4);
      RowDone(from, s, was, before, dst[..], y);
      RowAdvance(Rows, from, s, was, dst[..], y);
      y := y + 1;
    }
    AllDone(Rows, from, s, was, dst[..]);
  }

  /** What drmtap_deswizzle answers for a modifier and shape. */
  function DeswizzleCode(modifier: u64, s: Shape): (ret: int) {
    if s.width == 0 || s.height == 0 then EINVAL
    else if DecoderOf(modifier).Refuses? then ENOTSUP
    else if !s.RowFits() then EINVAL
    else 0
  }

  method DeswizzleFrame(src: array<u8>, dst: array<u8>, s: Shape, modifier: u64) returns (ret: int)
    requires src != dst && s.srcSize <= src.Length
    requires s.width > 0 && s.height > 0 && s.RowFits() ==> s.DstEnd() <= dst.Length && s.DstEnd() <= TWO32
    modifies dst
    ensures ret == DeswizzleCode(modifier, s)
    ensures ret != 0 ==> dst[..] == old(dst[..])
    ensures ret == 0 ==> s.dstStride > 0 && dst[..] == Decoded(DecoderOf(modifier).layout, src[..], s, old(dst[..]))
  {
    hide Decoded;
    if s.width == 0 || s.height == 0 {
      return EINVAL;
    }
    var rowFits := s.width * 4 <= s.dstStride;
    if modifier == MOD_LINEAR {
      if !rowFits { return EINVAL; }
      CopyRows(src, dst, s);
      return 0;
    }
    var vendor, kind := modifier / 0x100_0000_0000_0000, modifier % 0x100;
    if vendor == VENDOR_INTEL {
      if kind == 0x01 {
        if !rowFits { return EINVAL; }
        DeswizzleIntelX(src, dst, s);
        return 0;
      } else if kind == 0x02 || kind == 0x03 {
        if !rowFits { return EINVAL; }
        DeswizzleIntelY(src, dst, s);
        return 0;
      }
      return ENOTSUP;
    }
    if modifier == MOD_INVALID {
      if !rowFits { return EINVAL; }
      CopyRows(src, dst, s);
      return 0;
    }
    return ENOTSUP;
  }

  // ---- what each modifier means, in bytes ----

  /** I915_FORMAT_MOD_X_TILED: tiles of 512 bytes by 8 rows, row by row; o is where pixel (x, y) is stored. */
  lemma XTiledPixel(src: seq<u8>, s: Shape, x: u32, y: u32, b: nat) returns (o: nat)
    requires s.srcSize <= |src| && x < s.width && b < 4
    ensures DecoderOf(0x0100_0000_0000_0001).Decodes?
    ensures var tiles, c := (s.srcStride + 511) % 0x1_0000_0000 / 512, x * 4 % 0x1_0000_0000;
            o == ((y / 8 * tiles + c / 512) * 4096 + y % 8 * 512 + c % 512) % 0x1_0000_0000
    ensures Pixel(DecoderOf(0x0100_0000_0000_0001).layout, src, s, x, y)[b] ==
            if o + 4 <= s.srcSize then src[o + b] else 0
  {
    hide Tiling.SourceOffset;
    o := XTiled.SourceOffset(x, y, s.srcStride);
    XOffset(x, y, s.srcStride);
    TiledByte(XTiled, src, s, x, y, b);
  }

  /** I915_FORMAT_MOD_Y_TILED, and Yf with it: tiles of 128 bytes by 32 rows, in columns of 16 bytes. */
  lemma YTiledPixel(modifier: u64, src: seq<u8>, s: Shape, x: u32, y: u32, b: nat) returns (o: nat)
    requires modifier == 0x0100_0000_0000_0002 || modifier == 0x0100_0000_0000_0003
    requires s.srcSize <= |src| && x < s.width && b < 4
    ensures DecoderOf(modifier).Decodes?
    ensures var tiles, c := (s.srcStride + 127) % 0x1_0000_0000 / 128, x * 4 % 0x1_0000_0000;
            o == ((y / 32 * tiles + c / 128) * 4096 + c % 128 / 16 * 512 + y % 32 * 16 + c % 128 % 16) % 0x1_0000_0000
    ensures Pixel(DecoderOf(modifier).layout, src, s, x, y)[b] == if o + 4 <= s.srcSize then src[o + b] else 0
  {
    hide Tiling.SourceOffset;
    o := YTiled.SourceOffset(x, y, s.srcStride);
    YOffset(x, y, s.srcStride);
    TiledByte(YTiled, src, s, x, y, b);
  }

  lemma TiledByte(t: Tiling, src: seq<u8>, s: Shape, x: u32, y: u32, b: nat)
    requires s.srcSize <= |src| && x < s.width && b < 4
    ensures var o := t.SourceOffset(x, y, s.srcStride);
            Pixel(Tiles(t), src, s, x, y)[b] == if o + 4 <= s.srcSize then src[o + b] else 0
  {
    hide Tiling.SourceOffset;
  }

  /** DRM_FORMAT_MOD_LINEAR and _INVALID: rows by the stride, each whole or not at all. */
  lemma LinearPixel(modifier: u64, src: seq<u8>, s: Shape, x: u32, y: u32, b: nat)
    requires modifier == 0 || modifier == 0x00ff_ffff_ffff_ffff
    requires s.srcSize <= |src| && x < s.width && b < 4
    ensures DecoderOf(modifier).Decodes? && 0 <= y * s.srcStride
    ensures Pixel(DecoderOf(modifier).layout, src, s, x, y)[b] ==
            if y * s.srcStride + s.width * 4 <= s.srcSize then src[y * s.srcStride + x * 4 + b] else 0
  {
    MulMonotone(0, y, s.srcStride);
    RowByte(src, s, x, y, b);
  }

  /** No other modifier is decoded: another vendor's, or a compressed or newer layout of Intel's. */
  lemma DecodesExactly(modifier: u64)
    ensures DecoderOf(modifier).Decodes? <==>
            || modifier == 0 || modifier == 0x00ff_ffff_ffff_ffff
            || (modifier / 0x0100_0000_0000_0000 == 1 && modifier % 0x100 in {1, 2, 3})
  {}

  /** Within a vendor only the low byte counts. */
  lemma LowByteDecides(modifier: u64)
    requires modifier / 0x0100_0000_0000_0000 == 1 && modifier % 0x100 in {1, 2, 3}
    ensures DecoderOf(modifier) == DecoderOf(0x0100_0000_0000_0000 + modifier % 0x100)
  {}

  // ---- deswizzle inverts the tiling ----

  /** The tiled storage of a linear image of whole tiles: address o holds the byte it came from. */
  ghost function TiledImage(l: Tiling, lin: seq<u8>, stride: nat, height: nat): (tiled: seq<u8>)
    requires stride > 0 && stride % l.Width() == 0 && height % l.Height() == 0 && |lin| == stride * height
    ensures |tiled| == |lin|
    ensures forall o | 0 <= o < |tiled| :: tiled[o] == LinearByte(l, lin, stride, o)
  {
    seq(|lin|, o requires 0 <= o < |lin| => LinearByte(l, lin, stride, o))
  }

  ghost function LinearByte(l: Tiling, lin: seq<u8>, stride: nat, o: nat): (v: u8)
    requires stride > 0 && stride % l.Width() == 0
  {
    var n := stride / l.Width();
    var i := l.RowOf(o, n) * stride + l.ColumnOf(o, n);
    if i < |lin| then lin[i] else 0
  }

  /** In whole-tile images every visible byte's address lies inside stride * height. */
  lemma WholeTileAddress(l: Tiling, c: nat, y: nat, stride: nat, height: nat)
    requires stride > 0 && stride % l.Width() == 0 && height % l.Height() == 0 && c < stride && y < height
    ensures l.Address(c, y, stride / l.Width()) < stride * height
  {
    hide Tiling.Address;
    var w, h := l.Width(), l.Height();
    QuotientIs(stride + w - 1, w, stride / w, w - 1);
    QuotientIs(height + h - 1, h, height / h, h - 1);
    QuotientIs(stride, w, stride / w, 0);
    AddressInFootprint(l, c, y, stride, height);
  }

  lemma TiledImageAt(l: Tiling, lin: seq<u8>, stride: nat, height: nat, c: nat, y: nat)
    requires stride > 0 && stride % l.Width() == 0 && height % l.Height() == 0 && |lin| == stride * height
    requires c < stride && y < height
    ensures var o := l.Address(c, y, stride / l.Width());
            o < |lin| && TiledImage(l, lin, stride, height)[o] == lin[LinearIndex(c, y, stride, height)]
  {
    hide Tiling.Address, Tiling.RowOf, Tiling.ColumnOf;
    var n := stride / l.Width();
    QuotientIs(stride, l.Width(), n, 0);
    WholeTileAddress(l, c, y, stride, height);
    AddressInvertible(l, c, y, n);
  }

  function LinearIndex(c: nat, y: nat, stride: nat, height: nat): (i: nat)
    requires c < stride && y < height
    ensures i < stride * height
  {
    MulMonotone(y + 1, height, stride);
    y * stride + c
  }

  /**
   Tile, then deswizzle: on whole tiles every visible byte comes back and nothing is zero-filled,
   for any destination stride that holds the row.
   */
  lemma DeswizzleInvertsTiling(l: Tiling, lin: seq<u8>, s: Shape, x: u32, y: u32, b: nat)
    requires Accepted(s.width, s.height, s.srcStride) && s.srcSize == s.srcStride * s.height == |lin|
    requires s.srcStride % l.Width() == 0 && s.height % l.Height() == 0
    requires x < s.width && y < s.height && b < 4
    ensures l.SourceOffset(x, y, s.srcStride) + 4 <= s.srcSize
    ensures Pixel(Tiles(l), TiledImage(l, lin, s.srcStride, s.height), s, x, y)[b]
         == lin[LinearIndex(4 * x + b, y, s.srcStride, s.height)]
  {
    hide Tiling.Address, Tiling.SourceOffset, Accepted;
    AcceptedBounds(s.width, s.height, s.srcStride);
    OffsetsDoNotWrap(l, x, y, s.width, s.height, s.srcStride);
    WholeTiles(l, s.srcStride);
    var n := s.srcStride / l.Width();
    PixelContiguous(l, x, b, y, n);
    PixelContiguous(l, x, 3, y, n);
    WholeTileAddress(l, 4 * x + 3, y, s.srcStride, s.height);
    TiledImageAt(l, lin, s.srcStride, s.height, 4 * x + b, y);
  }

  lemma WholeTiles(l: Tiling, stride: u32)
    requires stride <= MAX_FB_BYTES && stride % l.Width() == 0
    ensures l.TilesPerRow(stride) == stride / l.Width()
  {
    QuotientIs(stride + l.Width() - 1, l.Width(), stride / l.Width(), l.Width() - 1);
  }

  // ---- exactly when visible pixels are zero-filled ----

  /** Every visible pixel's tiled location lies inside the source size. */
  ghost predicate FullyBacked(l: Tiling, s: Shape) {
    forall x, y | 0 <= x < s.width && 0 <= y < s.height :: l.SourceOffset(x, y, s.srcStride) + 4 <= s.srcSize
  }

  /** Unpadded whole-tile rows, with the size the capture path passes. */
  predicate TileRows(l: Tiling, s: Shape) {
    && Accepted(s.width, s.height, s.srcStride)
    && s.srcStride % l.Width() == 0 && s.width * 4 == s.srcStride && s.srcSize == s.srcStride * s.height
  }

  /** How far past the source the last pixel of the last row reaches. */
  lemma LastPixelReach(l: Tiling, s: Shape, n: nat, m: nat, r: nat)
    requires TileRows(l, s) && s.srcStride == n * l.Width() && s.height == m * l.Height() + r && 1 <= r < l.Height()
    ensures l.Address(s.srcStride - 4, s.height - 1, n) + 4 - s.srcSize
         == (n - 1) * (4096 - l.Width() * r) + if l.XTiled? then 0 else 112 * (32 - r)
  {
    hide Accepted;
    AcceptedBounds(s.width, s.height, s.srcStride);
    var w, h := l.Width(), l.Height();
    var c, y := s.srcStride - 4, s.height - 1;
    assert c == (n - 1) * w + (w - 4);
    QuotientIs(c, w, n - 1, w - 4);
    QuotientIs(y, h, m, r - 1);
    ReachArithmetic(n, m, r, w, h);
    assert l.Address(c, y, n) == (m * n + (n - 1)) * 4096 + l.InTile(w - 4, r - 1);
  }

  lemma ReachArithmetic(n: int, m: int, r: int, w: int, h: int)
    requires w * h == 4096
    ensures (n * w) * (m * h + r) == (m * n + (n - 1)) * 4096 + w * r - (n - 1) * (4096 - w * r)
  {
    assert (n * w) * (m * h + r) == (n * m) * (w * h) + n * (w * r);
    assert (n - 1) * (4096 - w * r) == 4096 * (n - 1) - n * (w * r) + w * r;
  }

  /**
   No visible pixel is zero-filled if and only if the last one is backed: offsets grow along rows and
   columns.  Any accepted geometry, padded or not, and any source size.
   */
  lemma ZeroFillExactly(l: Tiling, s: Shape)
    requires Accepted(s.width, s.height, s.srcStride)
    ensures s.width > 0 && s.height > 0
    ensures FullyBacked(l, s) <==> l.SourceOffset(s.width - 1, s.height - 1, s.srcStride) + 4 <= s.srcSize
  {
    AcceptedBounds(s.width, s.height, s.srcStride);
    hide Accepted, Tiling.SourceOffset, Tiling.Address;
    forall x, y | 0 <= x < s.width && 0 <= y < s.height
      ensures l.SourceOffset(x, y, s.srcStride) <= l.SourceOffset(s.width - 1, s.height - 1, s.srcStride)
    {
      LastOffsetIsLargest(l, s, x, y);
    }
  }

  lemma LastOffsetIsLargest(l: Tiling, s: Shape, x: u32, y: u32)
    requires Accepted(s.width, s.height, s.srcStride) && x < s.width && y < s.height
    ensures l.SourceOffset(x, y, s.srcStride) <= l.SourceOffset(s.width - 1, s.height - 1, s.srcStride)
  {
    AcceptedBounds(s.width, s.height, s.srcStride);
    hide Accepted, Tiling.SourceOffset, Tiling.Address, Tiling.TilesPerRow, RoundUp;
    OffsetsDoNotWrap(l, x, y, s.width, s.height, s.srcStride);
    OffsetsDoNotWrap(l, s.width - 1, s.height - 1, s.width, s.height, s.srcStride);
    TilesCoverStride(l, s.srcStride);
    AddressMonotone(l, 4 * x, y, 4 * (s.width - 1), s.height - 1, l.TilesPerRow(s.srcStride));
  }

  lemma TilesCoverStride(l: Tiling, stride: u32)
    requires stride <= MAX_FB_BYTES
    ensures stride <= l.TilesPerRow(stride) * l.Width()
  {
    var w := l.Width();
    QuotientRest(stride + w - 1, w);
  }

  /**
   Unpadded rows of whole tiles, at the size the capture path passes: that is when the height is a
   whole number of tiles, or the X-tiled image is a single tile wide.
   */
  lemma UnpaddedZeroFill(l: Tiling, s: Shape)
    requires TileRows(l, s)
    ensures FullyBacked(l, s) <==> s.height % l.Height() == 0 || (l.XTiled? && s.srcStride == 512)
  {
    hide Tiling.Address, Tiling.SourceOffset, Tiling.TilesPerRow, Accepted, FullyBacked, RoundUp, Footprint;
    AcceptedBounds(s.width, s.height, s.srcStride);
    ZeroFillExactly(l, s);
    WholeTiles(l, s.srcStride);
    OffsetsDoNotWrap(l, s.width - 1, s.height - 1, s.width, s.height, s.srcStride);
    if s.height % l.Height() == 0 {
      WholeHeightBacked(l, s);
    } else {
      PartHeightBacked(l, s);
    }
  }

  lemma WholeHeightBacked(l: Tiling, s: Shape)
    requires TileRows(l, s) && s.height % l.Height() == 0
    ensures s.width > 0 && s.height > 0
    ensures l.Address(4 * (s.width - 1), s.height - 1, s.srcStride / l.Width()) + 4 <= s.srcSize
  {
    AcceptedBounds(s.width, s.height, s.srcStride);
    hide Tiling.Address, Accepted;
    PixelContiguous(l, s.width - 1, 3, s.height - 1, s.srcStride / l.Width());
    WholeTileAddress(l, s.srcStride - 1, s.height - 1, s.srcStride, s.height);
  }

  lemma PartHeightBacked(l: Tiling, s: Shape)
    requires TileRows(l, s) && s.height % l.Height() != 0
    ensures s.width > 0 && s.height > 0
    ensures l.Address(4 * (s.width - 1), s.height - 1, s.srcStride / l.Width()) + 4 <= s.srcSize <==>
              l.XTiled? && s.srcStride == 512
  {
    AcceptedBounds(s.width, s.height, s.srcStride);
    hide Tiling.Address, Accepted;
    var n, m, r := s.srcStride / l.Width(), s.height / l.Height(), s.height % l.Height();
    QuotientRest(s.srcStride, l.Width());
    QuotientRest(s.height, l.Height());
    LastPixelReach(l, s, n, m, r);
    ReachSign(l, n, r);
  }

  lemma ReachSign(l: Tiling, n: nat, r: nat)
    requires n >= 1 && 1 <= r < l.Height()
    ensures (n - 1) * (4096 - l.Width() * r) + (if l.XTiled? then 0 else 112 * (32 - r)) <= 0 <==> l.XTiled? && n == 1
  {
    var rest := 4096 - l.Width() * r;
    assert rest > 0;
    MulBounds(n - 1, rest);
  }

  /** A Y-tiled 1920x1080 scanout loses visible pixels: 1080 is not a multiple of 32. */
  lemma FullHdYTiledZeroFills()
    ensures var s := Shape(1920, 1080, 7680, 7680, 7680 * 1080);
            TileRows(YTiled, s) && !FullyBacked(YTiled, s)
    ensures var s := Shape(1920, 1080, 7680, 7680, 7680 * 1080);
            TileRows(XTiled, s) && FullyBacked(XTiled, s)
  {
    var s := Shape(1920, 1080, 7680, 7680, 7680 * 1080);
    SizeBound(7680, 1080);
    UnpaddedZeroFill(YTiled, s);
    UnpaddedZeroFill(XTiled, s);
  }

  /**
   Height alone does not decide it: with padding, an X-tiled height that is no whole number of tiles
   may lose pixels (1680 x 1050 at stride 7168) or none (1 x 9 at stride 51200).
   */
  lemma PaddedRowsGoBothWays()
    ensures var s := Shape(1680, 1050, 7168, 7168, 7168 * 1050);
            Accepted(1680, 1050, 7168) && 1050 % 8 != 0 && !FullyBacked(XTiled, s)
    ensures var s := Shape(1, 9, 51200, 51200, 51200 * 9);
            Accepted(1, 9, 51200) && 9 % 8 != 0 && FullyBacked(XTiled, s)
  {
    SizeBound(7168, 1050);
    SizeBound(51200, 9);
    PaddedOffsets();
    hide Tiling.SourceOffset, FullyBacked;
    ZeroFillExactly(XTiled, Shape(1680, 1050, 7168, 7168, 7168 * 1050));
    ZeroFillExactly(XTiled, Shape(1, 9, 51200, 51200, 51200 * 9));
  }

  lemma PaddedOffsets()
    ensures XTiled.SourceOffset(1679, 1049, 7168) == 7_565_884 && XTiled.SourceOffset(0, 8, 51200) == 409_600
  {
    WholeTiles(XTiled, 7168);
    WholeTiles(XTiled, 51200);
    QuotientIs(7168, 512, 14, 0);
    QuotientIs(51200, 512, 100, 0);
    AddressOf(XTiled, 131, 13, 14, 60, 1);
    AddressOf(XTiled, 1, 0, 100, 0, 0);
    hide Tiling.TilesPerRow, Tiling.Address;
  }
}
