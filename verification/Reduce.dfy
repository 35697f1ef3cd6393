/**
 The per-pixel format reductions to XRGB8888: 10-bit, 16-bit and the same-format copy, run over
 buffers row by row, possibly in place.  The tone-mapping curve is an arbitrary function of the
 source pixel, since only where it reads and writes matters here.
 */
module Reduce {
  import opened Arith
  import opened Words
  import opened Geometry
  import opened Buffers

  // DRM fourcc codes.
  const XR24: u32 := 0x34325258
  const AR24: u32 := 0x34325241
  const AB24: u32 := 0x34324241
  const XR30: u32 := 0x30335258
  const AR30: u32 := 0x30335241
  const XB30: u32 := 0x30334258
  const AB30: u32 := 0x30334241
  const XR48: u32 := 0x38345258
  const AR48: u32 := 0x38345241
  const XB48: u32 := 0x38344258
  const AB48: u32 := 0x38344241
  const XR4H: u32 := 0x48345258
  const AR4H: u32 := 0x48345241
  const XB4H: u32 := 0x48344258
  const AB4H: u32 := 0x48344241

  predicate IsTenBit(f: u32) { f == XR30 || f == AR30 || f == XB30 || f == AB30 }

  predicate IsSixteen(f: u32) { f == XR48 || f == AR48 || f == XB48 || f == AB48 }

  predicate IsHalfFloat(f: u32) { f == XR4H || f == AR4H || f == XB4H || f == AB4H }

  predicate IsBgr(f: u32) { f == XB30 || f == AB30 || f == XB48 || f == AB48 || f == XB4H || f == AB4H }

  /** The narrowest pixel a format can have.  Half-float formats fall in the default. */
  function MinBpp(f: u32): (n: nat) {
    if IsSixteen(f) then 8 else 4
  }

  type Pixel = p: seq<u8> | |p| == 4 witness [0, 0, 0, 0]

  /** A tone curve: source pixel bytes to an XRGB8888 pixel. */
  type Curve = seq<u8> -> Pixel

  datatype Conversion = Copy | SwapRedBlue | TenBit(bgr: bool) | Sixteen(bgr: bool) | Toned(bytes: nat, curve: Curve)
  {
    function Bpp(): (n: nat) {
      match this
      case Sixteen(_) => 8
      case Toned(n, _) => n
      case _ => 4
    }

    /** One pixel, little-endian: blue, green, red, unused. */
    function Apply(px: seq<u8>): (out: Pixel)
      requires |px| == Bpp()
    {
      match this
      case Copy => px
      case SwapRedBlue => [px[2], px[1], px[0], px[3]]
      case TenBit(bgr) => TenBitPixel(Word(px), bgr)
      case Sixteen(bgr) => if bgr then [px[5], px[3], px[1], 255] else [px[1], px[3], px[5], 255]
      case Toned(_, curve) => curve(px)
    }
  }

  function Word(px: seq<u8>): (w: u32)
    requires |px| == 4
  {
    var b0: int, b1: int, b2: int, b3: int := px[0], px[1], px[2], px[3];
    b0 + b1 * 0x100 + b2 * 0x1_0000 + b3 * 0x100_0000
  }

  /** The shifts and masks of the 10-bit reduction. */
  function TenBitPixel(p: u32, bgr: bool): (out: Pixel) {
    var cHi, g, cLo := p / 0x40_0000 % 0x100, p / 0x1000 % 0x100, p / 4 % 0x100;
    var r, b := if bgr then cLo else cHi, if bgr then cHi else cLo;
    [b, g, r, 255]
  }

  /** A 10-bit channel of the packed word: 0 is bits 9..0, 1 is bits 19..10, 2 is bits 29..20. */
  function Channel10(p: u32, k: nat): (c: nat)
    requires k < 3
    ensures c < 1024
  {
    (if k == 0 then p else if k == 1 then p / 0x400 else p / 0x10_0000) % 1024
  }

  /** Each output channel is a quarter of the matching 10-bit channel, in the order the format names. */
  lemma TenBitIsQuarter(p: u32, bgr: bool)
    ensures var o := TenBitPixel(p, bgr);
            o[0] == Channel10(p, if bgr then 2 else 0) / 4 &&
            o[1] == Channel10(p, 1) / 4 &&
            o[2] == Channel10(p, if bgr then 0 else 2) / 4 &&
            o[3] == 255
  {
    Quarter(p);
    Quarter(p / 0x400);
    Quarter(p / 0x10_0000);
    assert p / 0x400 / 4 == p / 0x1000;
    assert p / 0x10_0000 / 4 == p / 0x40_0000;
  }

  /** The same from the pixel's own bytes: blue, green, red, opaque. */
  lemma TenBitBytes(px: seq<u8>, bgr: bool)
    requires |px| == 4
    ensures var w := px[0] as int + px[1] as int * 0x100 + px[2] as int * 0x1_0000 + px[3] as int * 0x100_0000;
            var o := TenBit(bgr).Apply(px);
            && o[0] == (if bgr then w / 0x10_0000 else w) % 0x400 / 4
            && o[1] == w / 0x400 % 0x400 / 4
            && o[2] == (if bgr then w else w / 0x10_0000) % 0x400 / 4
            && o[3] == 255
  {
    TenBitIsQuarter(Word(px), bgr);
  }

  /** Each output channel is the high byte of its 16-bit channel; the format names their order from the top. */
  lemma SixteenIsHighByte(px: seq<u8>, bgr: bool)
    requires |px| == 8
    ensures var low, mid, high := px[0] as int + px[1] as int * 0x100, px[2] as int + px[3] as int * 0x100,
                                  px[4] as int + px[5] as int * 0x100;
            var o := Sixteen(bgr).Apply(px);
            && o[0] == (if bgr then high else low) / 0x100 && o[1] == mid / 0x100
            && o[2] == (if bgr then low else high) / 0x100 && o[3] == 255
  {}

  /** Red and blue change places, green and alpha stay; twice is nothing. */
  lemma SwapSwaps(px: seq<u8>)
    requires |px| == 4
    ensures SwapRedBlue.Apply(px) == [px[2], px[1], px[0], px[3]] && SwapRedBlue.Apply(SwapRedBlue.Apply(px)) == px
  {}

  lemma Quarter(n: nat)
    ensures n / 4 % 0x100 == n % 1024 / 4
  {
    assert n / 4 == n / 1024 * 0x100 + n % 1024 / 4;
    QuotientIs(n / 4, 0x100, n / 1024, n % 1024 / 4);
  }

  // ---- over a buffer ----

  datatype Area = Area(width: u32, height: u32, srcStride: u32, dstStride: u32)
  {
    predicate Fits(bpp: nat) {
      width > 0 && height > 0 && width * bpp <= srcStride && width * 4 <= dstStride
    }

    function SrcEnd(bpp: nat): (n: int) { (height - 1) * srcStride + width * bpp }

    function DstEnd(): (n: int) { (height - 1) * dstStride + width * 4 }
  }

  lemma PixelInside(a: Area, bpp: nat, x: u32, y: u32)
    requires a.Fits(bpp) && x < a.width && y < a.height
    ensures 0 <= y * a.srcStride + x * bpp <= y * a.srcStride + x * bpp + bpp <= a.SrcEnd(bpp)
    ensures 0 <= y * a.dstStride + x * 4 <= y * a.dstStride + x * 4 + 4 <= a.DstEnd()
  {
    RowBelow(y, a.height, a.srcStride);
    RowBelow(y, a.height, a.dstStride);
    ElementInside(x, a.width, bpp);
  }

  /** The pixel the reduction of pixel (x, y) reads. */
  function SourcePixel(src: seq<u8>, a: Area, bpp: nat, x: u32, y: u32): (px: seq<u8>)
    requires a.Fits(bpp) && a.SrcEnd(bpp) <= |src| && x < a.width && y < a.height
    ensures |px| == bpp
  {
    PixelInside(a, bpp, x, y);
    src[y * a.srcStride + x * bpp..][..bpp]
  }

  function ReducedByte(f: Conversion, src: seq<u8>, a: Area, was: seq<u8>, i: nat): (v: u8)
    requires a.Fits(f.Bpp()) && a.SrcEnd(f.Bpp()) <= |src| && i < |was|
  {
    hide Line, Column, SourcePixel, Conversion.Apply;
    var y, c := Line(i, a.dstStride), Column(i, a.dstStride);
    if y < a.height && c < a.width * 4 then f.Apply(SourcePixel(src, a, f.Bpp(), c / 4, y))[c % 4] else was[i]
  }

  /** The destination after reducing `src` into it. */
  ghost function Reduced(f: Conversion, src: seq<u8>, a: Area, was: seq<u8>): (out: seq<u8>)
    requires a.Fits(f.Bpp()) && a.SrcEnd(f.Bpp()) <= |src|
    ensures |out| == |was|
    ensures forall i | 0 <= i < |out| :: out[i] == ReducedByte(f, src, a, was, i)
  {
    seq(|was|, i requires 0 <= i < |was| => ReducedByte(f, src, a, was, i))
  }

  lemma ReducedAt(f: Conversion, src: seq<u8>, a: Area, was: seq<u8>, x: u32, y: u32, b: nat)
    requires a.Fits(f.Bpp()) && a.SrcEnd(f.Bpp()) <= |src|
    requires x < a.width && y < a.height && b < 4 && y * a.dstStride + x * 4 + b < |was|
    ensures var i := y * a.dstStride + x * 4 + b;
            0 <= i && Reduced(f, src, a, was)[i] == f.Apply(SourcePixel(src, a, f.Bpp(), x, y))[b]
  {
    hide SourcePixel, Conversion.Apply, Conversion.Bpp, Line, Column, Area.SrcEnd;
    PlaceOf(y, x * 4 + b, a.dstStride);
    QuotientIs(x * 4 + b, 4, x, b);
  }

  lemma ReducedOutside(f: Conversion, src: seq<u8>, a: Area, was: seq<u8>, i: nat)
    requires a.Fits(f.Bpp()) && a.SrcEnd(f.Bpp()) <= |src| && i < |was|
    requires Line(i, a.dstStride) >= a.height || Column(i, a.dstStride) >= a.width * 4
    ensures Reduced(f, src, a, was)[i] == was[i]
  {
    hide SourcePixel, Conversion.Apply, Conversion.Bpp;
  }

  lemma ReducedPixel(f: Conversion, src: seq<u8>, a: Area, was: seq<u8>, x: u32, y: u32)
    requires a.Fits(f.Bpp()) && a.SrcEnd(f.Bpp()) <= |src| && x < a.width && y < a.height
    requires a.DstEnd() <= |was|
    ensures var p := y * a.dstStride + x * 4;
            0 <= p && p + 4 <= |was| && Reduced(f, src, a, was)[p..][..4] == f.Apply(SourcePixel(src, a, f.Bpp(), x, y))
  {
    hide SourcePixel, Conversion.Apply, Conversion.Bpp, ReducedByte;
    PixelInside(a, f.Bpp(), x, y);
    ReducedAt(f, src, a, was, x, y, 0);
    ReducedAt(f, src, a, was, x, y, 1);
    ReducedAt(f, src, a, was, x, y, 2);
    ReducedAt(f, src, a, was, x, y, 3);
  }

  lemma RowAdvance(f: Conversion, src: seq<u8>, a: Area, was: seq<u8>, cur: seq<u8>, y: nat)
    requires a.Fits(f.Bpp()) && a.SrcEnd(f.Bpp()) <= |src| && y < a.height
    requires Upto(cur, Reduced(f, src, a, was), was, y * a.dstStride + a.width * 4)
    ensures Upto(cur, Reduced(f, src, a, was), was, (y + 1) * a.dstStride)
  {
    hide Conversion.Apply, Conversion.Bpp, ReducedByte, Upto;
    var out := Reduced(f, src, a, was);
    assert y * a.dstStride + a.dstStride == (y + 1) * a.dstStride;
    forall i | y * a.dstStride + a.width * 4 <= i < (y + 1) * a.dstStride && i < |was| ensures out[i] == was[i] {
      PlaceOf(y, i - y * a.dstStride, a.dstStride);
      ReducedOutside(f, src, a, was, i);
    }
    UptoSkip(cur, out, was, y * a.dstStride + a.width * 4, (y + 1) * a.dstStride);
  }

  lemma AllDone(f: Conversion, src: seq<u8>, a: Area, was: seq<u8>, cur: seq<u8>)
    requires a.Fits(f.Bpp()) && a.SrcEnd(f.Bpp()) <= |src|
    requires Upto(cur, Reduced(f, src, a, was), was, a.height * a.dstStride)
    ensures cur == Reduced(f, src, a, was)
  {
    hide Conversion.Apply, Conversion.Bpp, ReducedByte, Upto;
    var out := Reduced(f, src, a, was);
    forall i | a.height * a.dstStride <= i < |was| ensures out[i] == was[i] {
      BelowLastRow(i, a.dstStride, a.height);
      ReducedOutside(f, src, a, was, i);
    }
    UptoDone(cur, out, was, a.height * a.dstStride);
  }

  method PutPixel(dst: array<u8>, at: nat, px: Pixel)
    requires at + 4 <= dst.Length
    modifies dst
    ensures OnlyWrote(old(dst[..]), dst[..], at, 4)
    ensures dst[at..][..4] == px
  {
    dst[at] := px[0];
    dst[at + 1] := px[1];
    dst[at + 2] := px[2];
    dst[at + 3] := px[3];
  }

  /** The destination may be the source itself when strides agree and pixels keep their size. */
  ghost predicate Overlay(src: array<u8>, dst: array<u8>, a: Area, f: Conversion) {
    src == dst ==> a.srcStride == a.dstStride && f.Bpp() == 4
  }

  /** Where a row starts, computed in 32 bits (`narrow`) or in full. */
  function RowStart(y: nat, stride: nat, narrow: bool): (at: nat)
  {
    assert 0 <= y * stride;
    if narrow then W32(y * stride) else y * stride
  }

  /** A 32-bit row offset is exact when both images end below 2^32. */
  predicate NoWrap(a: Area, bpp: nat, narrow: bool) {
    narrow ==> a.SrcEnd(bpp) <= TWO32 && a.DstEnd() <= TWO32
  }

  lemma RowsExact(a: Area, bpp: nat, narrow: bool, y: nat)
    requires a.Fits(bpp) && bpp > 0 && y < a.height && NoWrap(a, bpp, narrow)
    ensures RowStart(y, a.srcStride, narrow) == y * a.srcStride && RowStart(y, a.dstStride, narrow) == y * a.dstStride
  {
    PixelInside(a, bpp, 0, y);
  }

  /** One step of the inner loop. */
  method MapPixel(src: array<u8>, dst: array<u8>, a: Area, f: Conversion, narrow: bool, x: u32, y: u32,
                  ghost from: seq<u8>, ghost was: seq<u8>)
    requires a.Fits(f.Bpp()) && a.SrcEnd(f.Bpp()) <= src.Length && a.DstEnd() <= dst.Length
    requires Overlay(src, dst, a, f) && x < a.width && y < a.height && f.Bpp() > 0 && NoWrap(a, f.Bpp(), narrow)
    requires |from| == src.Length && |was| == dst.Length && if src == dst then from == was else src[..] == from
    requires Upto(dst[..], Reduced(f, from, a, was), was, y * a.dstStride + x * 4)
    modifies dst
    ensures Upto(dst[..], Reduced(f, from, a, was), was, y * a.dstStride + (x + 1) * 4)
  {
    hide Conversion.Apply, Conversion.Bpp, ReducedByte, Upto, SourcePixel, Reduced, RowStart, NoWrap;
    var bpp := f.Bpp();
    PixelInside(a, bpp, x, y);
    RowsExact(a, bpp, narrow, y);
    var at, to := RowStart(y, a.srcStride, narrow) + x * bpp, RowStart(y, a.dstStride, narrow) + x * 4;
    var px := src[at..at + bpp];
    ghost var before, out := dst[..], Reduced(f, from, a, was);
    if src == dst { StillUnwritten(before, out, was, at, bpp); }
    SourceSlice(from, a, bpp, x, y);
    ReducedPixel(f, from, a, was, x, y);
    PutPixel(dst, to, f.Apply(px));
    UptoWrite(before, dst[..], out, was, to, 4);
  }

  /**
   The conversion loop.  In place, the result is still the reduction of what the buffer held
   before: every pixel is read before anything at or past it is written.
   */
  method MapPixels(src: array<u8>, dst: array<u8>, a: Area, f: Conversion, narrow: bool)
    requires a.Fits(f.Bpp()) && a.SrcEnd(f.Bpp()) <= src.Length && a.DstEnd() <= dst.Length
    requires Overlay(src, dst, a, f) && f.Bpp() > 0 && NoWrap(a, f.Bpp(), narrow)
    modifies dst
    ensures dst[..] == Reduced(f, old(src[..]), a, old(dst[..]))
  {
    hide Conversion.Apply, Conversion.Bpp, ReducedByte, Upto, Overlay, NoWrap;
    ghost var from, was := src[..], dst[..];
    UptoStart(Reduced(f, from, a, was), was);
    var y := 0;
    while y < a.height
      invariant 0 <= y <= a.height
      invariant src != dst ==> src[..] == from
      invariant Upto(dst[..], Reduced(f, from, a, was), was, y * a.dstStride)
    {
      var x := 0;
      while x < a.width
        invariant 0 <= x <= a.width
        invariant src != dst ==> src[..] == from
        invariant Upto(dst[..], Reduced(f, from, a, was), was, y * a.dstStride + x * 4)
      {
        MapPixel(src, dst, a, f, narrow, x, y, from, was);
        x := x + 1;
      }
      RowAdvance(f, from, a, was, dst[..], y);
      y := y + 1;
    }
    AllDone(f, from, a, was, dst[..]);
  }

  /** What is right of the visible row or below the last one keeps its bytes. */
  lemma OutsideKept(f: Conversion, src: seq<u8>, a: Area, was: seq<u8>, y: nat, i: nat)
    requires a.Fits(f.Bpp()) && a.SrcEnd(f.Bpp()) <= |src| && i < |was|
    requires y * a.dstStride + a.width * 4 <= i < (y + 1) * a.dstStride || a.height * a.dstStride <= i
    ensures Reduced(f, src, a, was)[i] == was[i]
  {
    hide SourcePixel, Conversion.Apply;
    if a.height * a.dstStride <= i {
      BelowLastRow(i, a.dstStride, a.height);
    } else {
      PlaceOf(y, i - y * a.dstStride, a.dstStride);
    }
  }

  lemma SourceSlice(src: seq<u8>, a: Area, bpp: nat, x: u32, y: u32)
    requires a.Fits(bpp) && a.SrcEnd(bpp) <= |src| && x < a.width && y < a.height
    ensures var at := y * a.srcStride + x * bpp;
            0 <= at && at + bpp <= |src| && SourcePixel(src, a, bpp, x, y) == src[at..at + bpp]
  {
    PixelInside(a, bpp, x, y);
  }

  // ---- the public converters ----

  datatype Choice = Use(conversion: Conversion) | Unsupported

  function FormatConversion(srcFormat: u32, dstFormat: u32): (c: Choice) {
    if srcFormat == dstFormat then Use(Copy)
    else if IsTenBit(srcFormat) && (dstFormat == XR24 || dstFormat == AR24) then Use(TenBit(IsBgr(srcFormat)))
    else if srcFormat == AB24 && (dstFormat == AR24 || dstFormat == XR24) then Use(SwapRedBlue)
    else Unsupported
  }

  /**
   The supported pairs by their codes: a format to itself; XR30, AR30, XB30, AB30 to XR24 or AR24, the last
   two in the other channel order; AB24 to AR24 or XR24.
   */
  lemma SupportedPairs(s: u32, d: u32)
    ensures FormatConversion(s, d).Use? <==>
            || s == d
            || (s in {0x30335258, 0x30335241, 0x30334258, 0x30334241, 0x34324241} && d in {0x34325258, 0x34325241})
    ensures s == d ==> FormatConversion(s, d) == Use(Copy)
    ensures s in {0x30335258, 0x30335241} && d in {0x34325258, 0x34325241} ==>
              FormatConversion(s, d) == Use(TenBit(false))
    ensures s in {0x30334258, 0x30334241} && d in {0x34325258, 0x34325241} ==>
              FormatConversion(s, d) == Use(TenBit(true))
    ensures s == 0x34324241 && d in {0x34325258, 0x34325241} ==> FormatConversion(s, d) == Use(SwapRedBlue)
  {}

  function ConvertCode(a: Area, srcFormat: u32, dstFormat: u32): (ret: int) {
    if !a.Fits(4) then EINVAL else if FormatConversion(srcFormat, dstFormat).Use? then 0 else ENOTSUP
  }

  method ConvertFormat(src: array<u8>, dst: array<u8>, a: Area, srcFormat: u32, dstFormat: u32) returns (ret: int)
    requires a.Fits(4) ==> a.SrcEnd(4) <= src.Length && a.DstEnd() <= dst.Length && NoWrap(a, 4, true)
    requires src == dst ==> a.srcStride == a.dstStride
    modifies dst
    ensures ret == ConvertCode(a, srcFormat, dstFormat)
    ensures ret != 0 ==> dst[..] == old(dst[..])
    ensures ret == 0 ==>
              dst[..] == Reduced(FormatConversion(srcFormat, dstFormat).conversion, old(src[..]), a, old(dst[..]))
  {
    hide Reduced;
    if a.width == 0 || a.height == 0 { return EINVAL; }
    if a.srcStride < a.width * 4 || a.dstStride < a.width * 4 { return EINVAL; }
    match FormatConversion(srcFormat, dstFormat) {
      case Unsupported =>
        return ENOTSUP;
      case Use(f) =>
        MapPixels(src, dst, a, f, true);
        return 0;
    }
  }

  method TonemapHdr10(src: array<u8>, dst: array<u8>, a: Area, srcFormat: u32, curve: Curve) returns (ret: int)
    requires a.Fits(4) ==> a.SrcEnd(4) <= src.Length && a.DstEnd() <= dst.Length
    requires src == dst ==> a.srcStride == a.dstStride
    modifies dst
    ensures ret == if a.width == 0 || a.height == 0 then EINVAL else if !IsTenBit(srcFormat) then ENOTSUP
                   else if !a.Fits(4) then EINVAL else 0
    ensures ret != 0 ==> dst[..] == old(dst[..])
    ensures ret == 0 ==> dst[..] == Reduced(Toned(4, curve), old(src[..]), a, old(dst[..]))
  {
    hide Reduced;
    if a.width == 0 || a.height == 0 { return EINVAL; }
    if !IsTenBit(srcFormat) { return ENOTSUP; }
    if a.width * 4 > 0xffff_ffff || a.srcStride < a.width * 4 || a.dstStride < a.width * 4 { return EINVAL; }
    MapPixels(src, dst, a, Toned(4, curve), false);
    ret := 0;
  }

  /** The 16-bit and half-float converters: eight source bytes to four. */
  method ConvertWide(src: array<u8>, dst: array<u8>, a: Area, f: Conversion) returns (ret: int)
    requires f.Bpp() == 8 && src != dst
    requires a.Fits(8) ==> a.SrcEnd(8) <= src.Length && a.DstEnd() <= dst.Length
    modifies dst
    ensures ret == if a.Fits(8) then 0 else EINVAL
    ensures ret != 0 ==> dst[..] == old(dst[..])
    ensures ret == 0 ==> dst[..] == Reduced(f, old(src[..]), a, old(dst[..]))
  {
    hide Reduced;
    if a.width == 0 || a.height == 0 { return EINVAL; }
    if a.width * 8 > 0xffff_ffff || a.srcStride < a.width * 8 || a.dstStride < a.width * 4 { return EINVAL; }
    MapPixels(src, dst, a, f, false);
    ret := 0;
  }

  /** Reducing a buffer over itself gives the same visible pixels as reducing it into any other. */
  lemma InPlaceEqualsSeparate(f: Conversion, data: seq<u8>, other: seq<u8>, a: Area, x: u32, y: u32, b: nat)
    requires a.Fits(4) && f.Bpp() == 4 && a.srcStride == a.dstStride
    requires a.SrcEnd(4) <= |data| && a.DstEnd() <= |other| && x < a.width && y < a.height && b < 4
    ensures var i := y * a.dstStride + x * 4 + b;
            0 <= i < |data| && i < |other| && Reduced(f, data, a, data)[i] == Reduced(f, data, a, other)[i]
  {
    PixelInside(a, 4, x, y);
    ReducedAt(f, data, a, data, x, y, b);
    ReducedAt(f, data, a, other, x, y, b);
  }
}
