/**
 From a mapped scanout to pixels a caller can use: the GPU detile, the CPU deswizzle and the depth
 reductions, in the order the library tries them, over real buffers.
 */
module AutoProcess {
  import opened Arith
  import opened Words
  import opened Geometry
  import opened OutputBuffers
  import D = Deswizzle
  import R = Reduce

  /** A frame as it passes through the conversions. */
  datatype View = View(data: array?<u8>, fd: int, width: u32, height: u32, stride: u32, format: u32, modifier: u64,
                       fb: u32)

  /** Geometry every entry point has validated. */
  predicate Checked(v: View) {
    ValidateFbDims(v.width, v.height) == 0 && ValidateFbSize(v.stride, v.height) == 0
  }

  /** Rows are addressed by the stride: linear, or unknown where no GPU can infer the layout. */
  predicate IsLinear(modifier: u64, egl: bool) {
    modifier == D.MOD_LINEAR || (modifier == D.MOD_INVALID && !egl)
  }

  /** A real tiling, advertised as such. */
  predicate IsTiled(modifier: u64) {
    modifier != D.MOD_LINEAR && modifier != D.MOD_INVALID
  }

  /** Both, by the modifiers' codes. */
  lemma LayoutsByCode(modifier: u64, egl: bool)
    ensures IsLinear(modifier, egl) <==> modifier == 0 || (modifier == 0x00ff_ffff_ffff_ffff && !egl)
    ensures IsTiled(modifier) <==> modifier !in {0, 0x00ff_ffff_ffff_ffff}
  {}

  /**
   What a caller may rely on without looking at pixels: whether there are any afterwards, given
   whether there was a mapping, a descriptor, a forced GPU readback and a linear layout.
   */
  predicate Outcome(mapped: bool, force: bool, hasFd: bool, linear: bool, ret: int, pixels: bool) {
    && (ret != 0 ==> ret < 0 && pixels == mapped)
    && (ret == 0 && mapped ==> pixels)
    && (ret == 0 && !mapped ==> (pixels <==> force || (hasFd && !linear)))
    && (!mapped && !force && (!hasFd || linear) ==> ret == 0)
  }

  /**
   How a finished frame is labelled: a frame passed through keeps its labels; converted pixels are XRGB8888
   at width * 4, or decoded at the source's stride, reduced in place when they were 10-bit.
   */
  predicate Labels(passed: bool, modifier: u64, width: u32, stride: u32, format: u32, stride': u32, format': u32) {
    if passed then stride' == stride && format' == format
    else
      || (format' == R.XR24 && stride' == width * 4)
      || (IsTiled(modifier) && stride' == stride && format' == if R.IsTenBit(format) then R.XR24 else format)
  }

  /** Pixel (x, y) of a `stride`-addressed image. */
  ghost predicate PixelIs(out: seq<u8>, stride: nat, x: nat, y: nat, px: seq<u8>) {
    y * stride + x * 4 + 4 <= |out| && |px| == 4 && out[y * stride + x * 4..][..4] == px
  }

  /** `out` shows the row-addressed source, each pixel through f. */
  ghost predicate ShowsLinear(out: seq<u8>, stride: nat, src: seq<u8>, a: R.Area, f: R.Conversion) {
    && a.Fits(f.Bpp()) && a.SrcEnd(f.Bpp()) <= |src|
    && forall x, y | 0 <= x < a.width && 0 <= y < a.height ::
        PixelIs(out, stride, x, y, f.Apply(R.SourcePixel(src, a, f.Bpp(), x, y)))
  }

  /** `out` shows the decoded source, each pixel through f. */
  ghost predicate ShowsDecoded(out: seq<u8>, stride: nat, l: D.Layout, src: seq<u8>, s: D.Shape, f: R.Conversion) {
    && f.Bpp() == 4 && s.srcSize <= |src|
    && forall x, y | 0 <= x < s.width && 0 <= y < s.height ::
        PixelIs(out, stride, x, y, f.Apply(D.Pixel(l, src, s, x, y)))
  }

  lemma ReducedShows(f: R.Conversion, src: seq<u8>, a: R.Area, was: seq<u8>)
    requires a.Fits(f.Bpp()) && a.SrcEnd(f.Bpp()) <= |src| && a.DstEnd() <= |was|
    ensures ShowsLinear(R.Reduced(f, src, a, was), a.dstStride, src, a, f)
  {
    hide R.Reduced, R.SourcePixel;
    forall x, y | 0 <= x < a.width && 0 <= y < a.height
      ensures PixelIs(R.Reduced(f, src, a, was), a.dstStride, x, y, f.Apply(R.SourcePixel(src, a, f.Bpp(), x, y)))
    {
      R.ReducedPixel(f, src, a, was, x, y);
    }
  }

  lemma DecodedPixel(l: D.Layout, src: seq<u8>, s: D.Shape, was: seq<u8>, x: nat, y: nat)
    requires s.srcSize <= |src| && s.dstStride > 0 && s.RowFits() && x < s.width && y < s.height && s.DstEnd() <= |was|
    ensures PixelIs(D.Decoded(l, src, s, was), s.dstStride, x, y, D.Pixel(l, src, s, x, y))
  {
    hide D.Decoded, D.Pixel;
    D.RowInside(s, y);
    D.PixelPlace(l, src, s, was, x, y, 0);
    D.PixelPlace(l, src, s, was, x, y, 1);
    D.PixelPlace(l, src, s, was, x, y, 2);
    D.PixelPlace(l, src, s, was, x, y, 3);
  }

  /** A decoded X-tiled source, byte by byte: o is where pixel (x, y) was stored, i where its byte b is shown. */
  lemma XTiledBytes(out: seq<u8>, src: seq<u8>, s: D.Shape, x: u32, y: u32, b: nat) returns (o: nat, i: nat)
    requires D.DecoderOf(0x0100_0000_0000_0001).Decodes? && x < s.width && y < s.height && b < 4
    requires ShowsDecoded(out, s.dstStride, D.DecoderOf(0x0100_0000_0000_0001).layout, src, s, R.Copy)
    ensures var tiles, c := (s.srcStride + 511) % 0x1_0000_0000 / 512, x * 4 % 0x1_0000_0000;
            o == ((y / 8 * tiles + c / 512) * 4096 + y % 8 * 512 + c % 512) % 0x1_0000_0000
    ensures i == y * s.dstStride + x * 4 + b && i < |out| && s.srcSize <= |src|
    ensures out[i] == if o + 4 <= s.srcSize then src[o + b] else 0
  {
    hide D.Pixel, D.DecoderOf;
    o := D.XTiledPixel(src, s, x, y, b);
    i := ShownByte(out, D.DecoderOf(0x0100_0000_0000_0001).layout, src, s, x, y, b);
  }

  /** The same for both Y tilings. */
  lemma YTiledBytes(modifier: u64, out: seq<u8>, src: seq<u8>, s: D.Shape, x: u32, y: u32, b: nat)
    returns (o: nat, i: nat)
    requires modifier in {0x0100_0000_0000_0002, 0x0100_0000_0000_0003}
    requires D.DecoderOf(modifier).Decodes? && x < s.width && y < s.height && b < 4
    requires ShowsDecoded(out, s.dstStride, D.DecoderOf(modifier).layout, src, s, R.Copy)
    ensures var tiles, c := (s.srcStride + 127) % 0x1_0000_0000 / 128, x * 4 % 0x1_0000_0000;
            o == ((y / 32 * tiles + c / 128) * 4096 + c % 128 / 16 * 512 + y % 32 * 16 + c % 128 % 16) % 0x1_0000_0000
    ensures i == y * s.dstStride + x * 4 + b && i < |out| && s.srcSize <= |src|
    ensures out[i] == if o + 4 <= s.srcSize then src[o + b] else 0
  {
    hide D.Pixel, D.DecoderOf;
    o := D.YTiledPixel(modifier, src, s, x, y, b);
    i := ShownByte(out, D.DecoderOf(modifier).layout, src, s, x, y, b);
  }

  lemma ShownByte(out: seq<u8>, l: D.Layout, src: seq<u8>, s: D.Shape, x: u32, y: u32, b: nat) returns (i: nat)
    requires ShowsDecoded(out, s.dstStride, l, src, s, R.Copy) && x < s.width && y < s.height && b < 4
    ensures i == y * s.dstStride + x * 4 + b && i < |out| && out[i] == D.Pixel(l, src, s, x, y)[b]
  {
    hide D.Pixel;
    assert PixelIs(out, s.dstStride, x, y, R.Conversion.Copy.Apply(D.Pixel(l, src, s, x, y)));
    MulMonotone(0, y, s.dstStride);
    i := y * s.dstStride + x * 4 + b;
    assert out[i - b..][..4][b] == out[i];
  }

  /** Deswizzle, then reduce in place: every pixel is the reduction of the decoded one. */
  lemma DecodedThenReduced(l: D.Layout, src: seq<u8>, s: D.Shape, was: seq<u8>, mid: seq<u8>, a: R.Area,
                           f: R.Conversion)
    requires s.srcSize <= |src| && s.dstStride > 0 && s.width > 0 && s.height > 0 && s.RowFits() && s.DstEnd() <= |was|
    requires a == R.Area(s.width, s.height, s.dstStride, s.dstStride) && f.Bpp() == 4
    requires mid == D.Decoded(l, src, s, was)
    ensures a.Fits(4) && a.SrcEnd(4) <= |mid| && ShowsDecoded(R.Reduced(f, mid, a, mid), s.dstStride, l, src, s, f)
  {
    hide D.Decoded, D.Pixel, R.Reduced, R.Conversion.Apply;
    forall x, y | 0 <= x < s.width && 0 <= y < s.height
      ensures PixelIs(R.Reduced(f, mid, a, mid), s.dstStride, x, y, f.Apply(D.Pixel(l, src, s, x, y)))
    {
      DecodedPixel(l, src, s, was, x, y);
      R.ReducedPixel(f, mid, a, mid, x, y);
      R.SourceSlice(mid, a, 4, x, y);
      assert mid[y * s.dstStride + x * 4..][..4] == mid[y * s.dstStride + x * 4..y * s.dstStride + x * 4 + 4];
    }
  }

  /** How a linear high-depth format becomes XRGB8888. */
  datatype Reduction = None | Via(conversion: R.Conversion)

  /** A context as the conversions see it: its output destination, tone curves, driver and GPU backend. */
  class Converter {
    const egl: bool
    const knownDriver: bool
    const toneTen: R.Curve
    const toneWide: R.Curve
    const halfFloat: R.Curve
    var hdr: bool
    var shadow: array<u8>
    var userOut: array?<u8>
    var userLen: nat

    constructor (egl: bool, knownDriver: bool, toneTen: R.Curve, toneWide: R.Curve, halfFloat: R.Curve)
      ensures Ready() && userOut == null && fresh(shadow)
    {
      this.egl, this.knownDriver := egl, knownDriver;
      this.toneTen, this.toneWide, this.halfFloat := toneTen, toneWide, halfFloat;
      hdr, shadow, userOut, userLen := false, new u8[0], null, 0;
    }

    /** A caller's buffer is as long as it said, and is not the context's own. */
    ghost predicate Ready()
      reads this
    {
      userOut != null ==> userLen <= userOut.Length && userOut != shadow
    }

    /** The source is no destination. */
    ghost predicate Apart(src: array?<u8>)
      reads this
    {
      src != null ==> src != shadow && src != userOut
    }

    /** A destination of this size may be had, memory permitting. */
    predicate Room(size: nat)
      reads this`userOut, this`userLen
    {
      size <= 132_710_400 && (userOut != null ==> size <= userLen)
    }

    method EnsureOut(size: nat) returns (ret: int, out: array<u8>)
      requires Ready()
      modifies this`shadow
      ensures Ready() && (shadow == old(shadow) || fresh(shadow))
      ensures ret == Refusal(size, userOut != null, userLen)
              || (ret == ENOMEM && userOut == null && size > old(shadow.Length))
      ensures ret != 0 && 0 < size ==> !Room(size) || (ret == ENOMEM && userOut == null)
      ensures ret == 0 ==> size <= out.Length && out == if userOut != null then userOut else shadow
    {
      out := shadow;
      if size == 0 { return EINVAL, out; }
      if size > MAX_FB_BYTES { return EFBIG, out; }
      if userOut != null {
        return if size > userLen then ENOSPC else 0, userOut;
      }
      if size <= shadow.Length { return 0, shadow; }
      var granted := *;
      if !granted {
        shadow := new u8[0];
        return ENOMEM, shadow;
      }
      shadow := new u8[size];
      return 0, shadow;
    }

    function ReductionOf(format: u32): (r: Reduction)
      reads this
    {
      if R.IsTenBit(format) then Via(if hdr then R.Toned(4, toneTen) else R.TenBit(R.IsBgr(format)))
      else if R.IsSixteen(format) then Via(if hdr then R.Toned(8, toneWide) else R.Sixteen(R.IsBgr(format)))
      else if R.IsHalfFloat(format) then Via(R.Toned(8, halfFloat))
      else None
    }

    /** One reduction into a destination that holds width * height pixels. */
    method ReduceInto(src: array<u8>, out: array<u8>, a: R.Area, format: u32) returns (ret: int)
      requires ReductionOf(format).Via? && src != out && a.width > 0 && a.height > 0 && a.dstStride == a.width * 4
      requires a.srcStride * a.height <= src.Length && a.width * a.height * 4 <= out.Length
      requires a.srcStride * a.height <= MAX_FB_BYTES && a.width * a.height * 4 <= MAX_FB_BYTES
      modifies out
      ensures ret == if a.Fits(ReductionOf(format).conversion.Bpp()) then 0 else EINVAL
      ensures ret == 0 ==> ShowsLinear(out[..], a.dstStride, src[..], a, ReductionOf(format).conversion)
    {
      hide R.Reduced, ShowsLinear, R.Conversion.Apply;
      var f := ReductionOf(format).conversion;
      ReduceExtents(a, f.Bpp());
      hide R.Area.SrcEnd, R.Area.DstEnd;
      ghost var was := out[..];
      if R.IsTenBit(format) {
        if hdr {
          ret := R.TonemapHdr10(src, out, a, format, toneTen);
        } else {
          ret := R.ConvertFormat(src, out, a, format, R.XR24);
        }
      } else {
        ret := R.ConvertWide(src, out, a, f);
      }
      if ret == 0 { ReducedShows(f, src[..], a, was); }
    }

    /** reduce_linear_to_xrgb8888: 1 reduced, 0 left as it is, negative refused. */
    method ReduceLinear(data: array<u8>, v: View) returns (ret: int, v': View)
      requires Ready() && Apart(data) && Checked(v) && v.stride * v.height <= data.Length
      modifies this`shadow, shadow, userOut
      ensures Ready() && (shadow == old(shadow) || fresh(shadow))
      ensures ret == 0 <==> ReductionOf(v.format).None?
      // it is refused only for want of room or memory, or for rows narrower than their pixels
      ensures ret < 0 ==>
                || !Room(v.width * v.height * 4) || (ret == ENOMEM && userOut == null)
                || v.width * ReductionOf(v.format).conversion.Bpp() > v.stride
      ensures ret <= 1 && (ret != 1 ==> v' == v)
      ensures ret == 1 ==>
                && v'.data != null && v'.data in {shadow, userOut}
                && v' == v.(data := v'.data, format := R.XR24, stride := v.width * 4)
      ensures ret == 1 ==> ShowsLinear(v'.data[..], v'.stride, data[..], R.Area(v.width, v.height, v.stride, v'.stride),
                                       ReductionOf(v.format).conversion)
    {
      hide ShowsLinear, R.Conversion.Apply;
      v' := v;
      if !R.IsTenBit(v.format) && !R.IsSixteen(v.format) && !R.IsHalfFloat(v.format) {
        return 0, v';
      }
      var out;
      CheckedBounds(v);
      ret, out := EnsureOut(v.width * v.height * 4);
      if ret != 0 { return; }
      var dstStride := v.width * 4;
      ret := ReduceInto(data, out, R.Area(v.width, v.height, v.stride, dstStride), v.format);
      if ret != 0 { return; }
      return 1, v.(data := out, format := R.XR24, stride := dstStride);
    }

    /** What the deswizzled pixels go through: 10-bit ones are reduced in place, others are kept. */
    function TiledConversion(format: u32): (f: R.Conversion)
      reads this
      ensures f.Bpp() == 4
    {
      if R.IsTenBit(format) then ReductionOf(format).conversion else R.Copy
    }

    /** The GPU detile: a linear XRGB8888 image in the resolved destination, or no frame. */
    method GpuDetile(v: View) returns (ret: int, out: array<u8>)
      requires Ready() && Checked(v)
      modifies this`shadow, shadow, userOut
      ensures Ready() && (shadow == old(shadow) || fresh(shadow)) && ret <= 0
      ensures ret == 0 ==> out in {shadow, userOut} && v.width * v.height * 4 <= out.Length
    {
      out := shadow;
      var failed := *;
      if failed { return EIO, out; }
      ret, out := EnsureOut(v.width * v.height * 4);
      if ret != 0 { return; }
      var rendered: u8 -> u8 := *;
      forall i | 0 <= i < out.Length { out[i] := rendered(out[i]); }
    }

    /** In place over what was just deswizzled. */
    method ReduceInPlace(out: array<u8>, a: R.Area, format: u32) returns (ret: int)
      requires R.IsTenBit(format) && a.Fits(4) && a.srcStride == a.dstStride && a.DstEnd() <= out.Length
      requires a.DstEnd() <= TWO32
      modifies out
      ensures ret == 0 && out[..] == R.Reduced(TiledConversion(format), old(out[..]), a, old(out[..]))
    {
      hide R.Reduced;
      if hdr {
        ret := R.TonemapHdr10(out, out, a, format, toneTen);
      } else {
        ret := R.ConvertFormat(out, out, a, format, R.XR24);
      }
    }

    /** Deswizzle into `out`, then reduce a 10-bit format in place. */
    method Decode(data: array<u8>, out: array<u8>, v: View) returns (ret: int)
      requires data != out && Checked(v) && v.stride * v.height <= data.Length && v.stride * v.height <= out.Length
      modifies out
      ensures ret == D.DeswizzleCode(v.modifier, ShapeOf(v))
      ensures ret == 0 ==> ShowsDecoded(out[..], v.stride, D.DecoderOf(v.modifier).layout, data[..], ShapeOf(v),
                                        TiledConversion(v.format))
    {
      hide ShowsDecoded, D.Decoded, R.Reduced, D.DecoderOf;
      var s := ShapeOf(v);
      ghost var was := out[..];
      DecodeExtent(v);
      hide D.Shape.DstEnd, R.Area.SrcEnd, R.Area.DstEnd;
      ret := D.DeswizzleFrame(data, out, s, v.modifier);
      if ret != 0 { return; }
      ghost var mid, l := out[..], D.DecoderOf(v.modifier).layout;
      var a := R.Area(v.width, v.height, v.stride, v.stride);
      DecodedThenReduced(l, data[..], s, was, mid, a, TiledConversion(v.format));
      if R.IsTenBit(v.format) {
        ret := ReduceInPlace(out, a, v.format);
      } else {
        DecodedShows(l, data[..], s, was);
      }
    }

    /** The CPU deswizzle of a real tiling; a layout or driver it does not know is refused. */
    method CpuDeswizzle(data: array<u8>, v: View) returns (ret: int, v': View)
      requires Ready() && Apart(data) && Checked(v) && v.stride * v.height <= data.Length
      modifies this`shadow, shadow, userOut
      ensures Ready() && (shadow == old(shadow) || fresh(shadow)) && ret <= 0
      ensures ret != 0 ==> v' == v
      ensures ret == 0 ==> knownDriver && v'.data != null && v'.data in {shadow, userOut}
      // refused only for want of room, memory or a known driver, an unknown layout, or a narrow row
      ensures ret != 0 ==>
                || !Room(v.stride * v.height) || (ret == ENOMEM && userOut == null) || !knownDriver
                || D.DeswizzleCode(v.modifier, ShapeOf(v)) != 0
      ensures ret == 0 ==> v' == v.(data := v'.data, format := if R.IsTenBit(v.format) then R.XR24 else v.format)
      ensures ret == 0 ==> D.DeswizzleCode(v.modifier, ShapeOf(v)) == 0
      ensures ret == 0 ==> ShowsDecoded(v'.data[..], v.stride, D.DecoderOf(v.modifier).layout, data[..], ShapeOf(v),
                                        TiledConversion(v.format))
    {
      hide ShowsDecoded, D.DecoderOf;
      v' := v;
      SizeBound(v.stride, v.height);
      var out;
      ret, out := EnsureOut(v.stride * v.height);
      if ret != 0 { return; }
      if !knownDriver { return ENOTSUP, v'; }
      ret := Decode(data, out, v);
      if ret != 0 { return; }
      v' := v.(data := out, format := if R.IsTenBit(v.format) then R.XR24 else v.format);
    }

    /** What gpu_auto_process did with the frame. */
    ghost predicate Processed(data: array?<u8>, v: View, v': View, src: seq<u8>)
      reads this, data, v'.data
    {
      if v'.data == data then
        v' == v                                        // passed through
      else
        && v'.data != null && v'.data in {shadow, userOut}
        && v'.width == v.width && v'.height == v.height && v'.modifier == v.modifier && v'.fb == v.fb && v'.fd == v.fd
        && (|| (v.fd >= 0 && egl && v'.format == R.XR24 && v'.stride == v.width * 4 &&
                v.width * v.height * 4 <= v'.data.Length)
            || (data != null && ReductionOf(v.format).Via? && v'.format == R.XR24 && v'.stride == v.width * 4 &&
                !IsTiled(v.modifier) &&
                ShowsLinear(v'.data[..], v'.stride, src, R.Area(v.width, v.height, v.stride, v'.stride),
                            ReductionOf(v.format).conversion))
            || (data != null && IsTiled(v.modifier) && v'.stride == v.stride &&
                D.DeswizzleCode(v.modifier, ShapeOf(v)) == 0 &&
                v'.format == (if R.IsTenBit(v.format) then R.XR24 else v.format) &&
                ShowsDecoded(v'.data[..], v.stride, D.DecoderOf(v.modifier).layout, src, ShapeOf(v),
                             TiledConversion(v.format))))
    }

    /** What each deep format is reduced by, by its code: 10 bits, 16 bits or half floats, toned under PQ. */
    lemma ReductionsByCode(format: u32)
      ensures format in {0x30335258, 0x30335241} ==>
                ReductionOf(format) == Via(if hdr then R.Toned(4, toneTen) else R.TenBit(false))
      ensures format in {0x30334258, 0x30334241} ==>
                ReductionOf(format) == Via(if hdr then R.Toned(4, toneTen) else R.TenBit(true))
      ensures format in {0x38345258, 0x38345241} ==>
                ReductionOf(format) == Via(if hdr then R.Toned(8, toneWide) else R.Sixteen(false))
      ensures format in {0x38344258, 0x38344241} ==>
                ReductionOf(format) == Via(if hdr then R.Toned(8, toneWide) else R.Sixteen(true))
      ensures format in {0x48345258, 0x48345241, 0x48344258, 0x48344241} ==>
                ReductionOf(format) == Via(R.Toned(8, halfFloat))
      ensures ReductionOf(format).None? <==>
              format !in {0x30335258, 0x30335241, 0x30334258, 0x30334241, 0x38345258, 0x38345241, 0x38344258,
                          0x38344241, 0x48345258, 0x48345241, 0x48344258, 0x48344241}
      ensures TiledConversion(format) ==
              if format in {0x30335258, 0x30335241, 0x30334258, 0x30334241} then ReductionOf(format).conversion
              else R.Copy
    {}

    /** A tiled 8-bit scanout on the CPU is decoded, at the source's own stride; XTiledBytes and YTiledBytes say how. */
    lemma TiledFrame(data: array?<u8>, v: View, v': View, src: seq<u8>)
      requires Checked(v) && data != null && v'.data != data
      requires |src| == v.stride * v.height && Processed(data, v, v', src)
      requires v.modifier !in {0, 0x00ff_ffff_ffff_ffff} && !R.IsTenBit(v.format) && (v.fd < 0 || !egl)
      ensures v'.data != null && v'.stride == v.stride && D.DecoderOf(v.modifier).Decodes?
      ensures ShowsDecoded(v'.data[..], v.stride, D.DecoderOf(v.modifier).layout, src,
                           D.Shape(v.width, v.height, v.stride, v.stride, v.stride * v.height), R.Copy)
    {
      hide ShowsDecoded, D.DecoderOf;
    }

    /** A deep row-addressed scanout reduced on the CPU: each pixel in its place, by the reduction of its code. */
    lemma ReducedFrame(data: array?<u8>, v: View, v': View, src: seq<u8>, x: u32, y: u32, b: nat)
      requires Checked(v) && data != null && v'.data != data
      requires |src| == v.stride * v.height && Processed(data, v, v', src)
      requires v.modifier in {0, 0x00ff_ffff_ffff_ffff} && ReductionOf(v.format).Via? && (v.fd < 0 || !egl)
      requires x < v.width && y < v.height && b < 4
      ensures v'.data != null && v'.stride == v.width * 4 && v'.format == 0x34325258
      ensures var f := ReductionOf(v.format).conversion;
              && 0 <= y * (v.width * 4) && y * (v.width * 4) + x * 4 + b < v'.data.Length
              && 0 <= y * v.stride && 0 <= x * f.Bpp() && y * v.stride + x * f.Bpp() + f.Bpp() <= |src|
              && v'.data[y * (v.width * 4) + x * 4 + b] == f.Apply(src[y * v.stride + x * f.Bpp()..][..f.Bpp()])[b]
    {
      hide R.Conversion.Apply;
      var f := ReductionOf(v.format).conversion;
      var a := R.Area(v.width, v.height, v.stride, v'.stride);
      var out := v'.data[..];
      assert PixelIs(out, v'.stride, x, y, f.Apply(R.SourcePixel(src, a, f.Bpp(), x, y)));
      R.PixelInside(a, f.Bpp(), x, y);
      MulMonotone(0, y, v.width * 4);
      MulMonotone(0, y, v.stride);
      MulMonotone(0, x, f.Bpp());
      var at := y * v'.stride + x * 4;
      assert out[at..][..4][b] == out[at + b];
    }

    /** The order of attempts: leave linear alone, detile on the GPU, decode on the CPU, or refuse. */
    method AutoProcess(data: array?<u8>, v: View, force: bool) returns (ret: int, v': View, ghost gpu: int)
      requires Ready() && Apart(data) && Checked(v) && v.data == data
      requires data != null ==> v.stride * v.height <= data.Length
      modifies this`shadow, shadow, userOut
      ensures Ready() && (shadow == old(shadow) || fresh(shadow))
      ensures ret != 0 ==> v' == v
      ensures Outcome(data != null, force, v.fd >= 0, IsLinear(v.modifier, egl), ret, v'.data != null)
      ensures ret == 0 && data != null ==> Processed(data, v, v', data[..])
      ensures ret == 0 && data == null ==> Processed(data, v, v', [])
      // a tiled scanout never comes back as its raw mapping, nor a forced readback as anything but the GPU's
      ensures ret == 0 && data != null && (IsTiled(v.modifier) || force) ==> v'.data != data
      ensures ret == 0 && force ==> v.fd >= 0 && egl
      ensures ret == 0 && data != null && v'.data == data ==> ReductionOf(v.format).None?
      ensures ret == 0 && v'.data != null ==>
                Labels(v'.data == data, v.modifier, v.width, v.stride, v.format, v'.stride, v'.format)
      // the GPU is asked whenever it can help; its pixels, and a destination too small for them, are final
      ensures gpu <= 0 <==> v.fd >= 0 && egl && (force || !IsLinear(v.modifier, egl))
      ensures gpu == 0 ==> ret == 0 && v' == v.(data := v'.data, format := R.XR24, stride := v.width * 4)
      ensures gpu == ENOSPC ==> ret == ENOSPC
      // it fails only for these reasons
      ensures ret != 0 ==>
                || gpu == ENOSPC || (gpu != 0 && (force || data == null)) || (ret == ENOMEM && userOut == null)
                || (!IsTiled(v.modifier) && ReductionOf(v.format).Via? &&
                    (!Room(v.width * v.height * 4) || v.width * ReductionOf(v.format).conversion.Bpp() > v.stride))
                || (IsTiled(v.modifier) &&
                    (!Room(v.stride * v.height) || !knownDriver || v.width * 4 > v.stride
                     || v.modifier / 0x0100_0000_0000_0000 != 1 || v.modifier % 0x100 !in {1, 2, 3}))
    {
      hide ShowsDecoded, ShowsLinear, D.DecoderOf, D.DeswizzleCode;
      v', gpu := v, 1;
      if data == null && !force && v.fd < 0 { return 0, v', gpu; }
      var linear := IsLinear(v.modifier, egl);
      if data != null && linear && !force {
        ret, v' := ReduceLinear(data, v);
        return if ret > 0 then 0 else ret, v', gpu;
      }
      if linear && !force { return 0, v', gpu; }
      if v.fd >= 0 && egl {
        var out;
        ret, out := GpuDetile(v);
        gpu := ret;
        if ret == 0 {
          return 0, v.(data := out, format := R.XR24, stride := v.width * 4), gpu;
        }
        if ret == ENOSPC { return; }
      }
      if force || data == null { return ENOTSUP, v', gpu; }
      if v.modifier == D.MOD_INVALID {
        ret, v' := ReduceLinear(data, v);
        return if ret > 0 then 0 else ret, v', gpu;
      }
      D.DecodesExactly(v.modifier);
      CodeSays(v);
      ret, v' := CpuDeswizzle(data, v);
    }
  }

  lemma CodeSays(v: View)
    requires Checked(v)
    ensures D.DeswizzleCode(v.modifier, ShapeOf(v)) ==
            if D.DecoderOf(v.modifier).Refuses? then ENOTSUP else if v.width * 4 > v.stride then EINVAL else 0
  {
    hide D.DecoderOf;
  }

  lemma CheckedBounds(v: View)
    requires Checked(v)
    ensures 0 < v.stride * v.height <= MAX_FB_BYTES && 0 < v.width * v.height * 4 <= MAX_FB_BYTES
  {
    SizeBound(v.stride, v.height);
    MulBounds(v.stride, v.height);
    MulBounds(v.width, v.height);
  }

  /** Both images of a reduction end inside their strides. */
  lemma ReduceExtents(a: R.Area, bpp: nat)
    requires a.width > 0 && a.height > 0 && a.dstStride == a.width * 4
    ensures a.DstEnd() == a.width * a.height * 4
    ensures a.Fits(bpp) ==> a.SrcEnd(bpp) <= a.srcStride * a.height
  {
    LastByte(a.srcStride, a.height, a.width * bpp);
    assert a.DstEnd() == (a.height - 1) * (a.width * 4) + a.width * 4;
    OneMore(a.height, a.width * 4);
    MulAssoc(a.height, a.width, 4);
  }

  lemma OneMore(n: int, d: int)
    ensures (n - 1) * d + d == n * d
  {}

  /** A decode into stride * height bytes ends inside them, and so below 2^32. */
  lemma DecodeExtent(v: View)
    requires Checked(v)
    ensures var s := ShapeOf(v); s.RowFits() ==> s.DstEnd() <= v.stride * v.height <= MAX_FB_BYTES
    ensures var a := R.Area(v.width, v.height, v.stride, v.stride); a.SrcEnd(4) == a.DstEnd() == ShapeOf(v).DstEnd()
  {
    CheckedBounds(v);
    LastByte(v.stride, v.height, v.width * 4);
  }

  lemma LastByte(stride: nat, height: nat, row: nat)
    requires height > 0
    ensures row <= stride ==> (height - 1) * stride + row <= stride * height
  {
    assert (height - 1) * stride + stride == stride * height;
  }

  function ShapeOf(v: View): D.Shape {
    D.Shape(v.width, v.height, v.stride, v.stride, v.stride * v.height)
  }

  lemma DecodedShows(l: D.Layout, src: seq<u8>, s: D.Shape, was: seq<u8>)
    requires s.srcSize <= |src| && s.dstStride > 0 && s.width > 0 && s.height > 0 && s.RowFits() && s.DstEnd() <= |was|
    ensures ShowsDecoded(D.Decoded(l, src, s, was), s.dstStride, l, src, s, R.Copy)
  {
    hide D.Decoded, D.Pixel;
    forall x, y | 0 <= x < s.width && 0 <= y < s.height
      ensures PixelIs(D.Decoded(l, src, s, was), s.dstStride, x, y, R.Conversion.Copy.Apply(D.Pixel(l, src, s, x, y)))
    {
      DecodedPixel(l, src, s, was, x, y);
    }
  }
}
