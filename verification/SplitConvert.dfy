/**
 The unprivileged half of split capture: a descriptor and dma-buf that crossed a process boundary are
 validated, then converted on the GPU or through a bounded mapping.
 */
module SplitConvert {
  import opened Arith
  import opened Words
  import opened Geometry
  import opened AutoProcess

  /** A supplied descriptor: its bytes are fixed in size; `windows` counts its open access windows. */
  class Supplied {
    const isDmaBuf: bool
    const bytes: seq<u8>
    var windows: nat
    /** Calls on a dma-buf that failed. */
    ghost var faults: nat

    constructor (isDmaBuf: bool, bytes: seq<u8>)
    {
      this.isDmaBuf, this.bytes, windows, faults := isDmaBuf, bytes, 0, 0;
    }

    /** DMA_BUF_SYNC_START: refused on anything that is not a dma-buf. */
    method SyncStart() returns (ok: bool)
      modifies this
      ensures windows == old(windows) + if ok then 1 else 0
      ensures ok ==> isDmaBuf
      ensures faults == old(faults) + if isDmaBuf && !ok then 1 else 0
    {
      ok := *;
      ok := ok && isDmaBuf;
      if isDmaBuf && !ok { faults := faults + 1; }
      if ok { windows := windows + 1; }
    }

    method SyncEnd()
      requires windows > 0
      modifies this`windows
      ensures windows == old(windows) - 1
    {
      windows := windows - 1;
    }

    /** lseek, else fstat: the size, or nothing usable. */
    method Size() returns (n: int)
      modifies this`faults
      ensures n <= 0 || n == |bytes|
      ensures faults == old(faults) + if n <= 0 < |bytes| then 1 else 0
    {
      n := *;
      if n > 0 { n := |bytes|; }
      if n <= 0 < |bytes| { faults := faults + 1; }
    }

    /** A private read-only view of n bytes from `offset`; mapping past the end is never asked for. */
    method Map(offset: nat, n: nat) returns (view: array?<u8>)
      requires offset + n <= |bytes|
      modifies this`faults
      ensures view != null ==> fresh(view) && view[..] == bytes[offset..offset + n]
      ensures faults == old(faults) + if view == null then 1 else 0
    {
      view := null;
      var granted := *;
      if granted {
        view := new u8[n](i requires 0 <= i < n => bytes[offset + i]);
      } else {
        faults := faults + 1;
      }
    }
  }

  datatype Desc = Desc(fd: int, width: u32, height: u32, format: u32, modifier: u64, fb: u32,
                       planes: u32, offsets: seq<u32>, pitches: seq<u32>, pq: bool)
  {
    predicate Shaped() { |offsets| == 4 && |pitches| == 4 }

    function Planes(): u32 { if planes == 0 then 1 else planes }
  }

  /** The checks on the numbers alone. */
  function DescVerdict(d: Desc): (ret: int)
    requires d.Shaped()
    ensures ret <= 0
  {
    if d.Planes() > 4 || d.width == 0 then EINVAL
    else if ValidateFbDims(d.width, d.height) != 0 then ValidateFbDims(d.width, d.height)
    else if ValidateFbSize(d.pitches[0], d.height) != 0 then ValidateFbSize(d.pitches[0], d.height)
    else if d.width * R.MinBpp(d.format) > d.pitches[0] then EINVAL
    else 0
  }

  /** Which descriptors are accepted, and how the others are refused. */
  lemma AcceptedExactly(d: Desc)
    requires d.Shaped()
    ensures DescVerdict(d) == 0 <==>
            && d.planes <= 4 && 1 <= d.width <= 32_768 && 1 <= d.height <= 32_768 && d.width * d.height <= 33_177_600
            && d.pitches[0] > 0 && d.pitches[0] * d.height <= 132_710_400
            && d.width * (if d.format in {0x38345258, 0x38345241, 0x38344258, 0x38344241} then 8 else 4) <= d.pitches[0]
    ensures DescVerdict(d) in {0, -22, -27}
    ensures DescVerdict(d) == -27 ==> d.width > 32_768 || d.height > 32_768 || d.width * d.height > 33_177_600
                                      || d.pitches[0] * d.height > 132_710_400
  {
    if d.pitches[0] > 0 && d.height > 0 { SizeBound(d.pitches[0], d.height); }
  }

  /** The image lies inside the buffer. */
  predicate Covers(d: Desc, size: int)
    requires d.Shaped()
  {
    d.offsets[0] + d.pitches[0] * d.height <= size
  }

  /** So does one row of every further plane. */
  predicate Inside(d: Desc, size: int)
    requires d.Shaped()
  {
    && Covers(d, size)
    && forall p | 1 <= p < 4 && p < d.Planes() :: d.offsets[p] + d.pitches[p] <= size
  }

  /** Both, plane by plane; a descriptor that counts no planes has one. */
  lemma InsideExactly(d: Desc, size: int)
    requires d.Shaped()
    ensures Inside(d, size) <==>
            && d.offsets[0] + d.pitches[0] * d.height <= size
            && (d.planes > 1 ==> d.offsets[1] + d.pitches[1] <= size)
            && (d.planes > 2 ==> d.offsets[2] + d.pitches[2] <= size)
            && (d.planes > 3 ==> d.offsets[3] + d.pitches[3] <= size)
  {}

  function ViewOf(d: Desc, data: array?<u8>): View
    requires d.Shaped()
  {
    View(data, d.fd, d.width, d.height, d.pitches[0], d.format, d.modifier, d.fb)
  }

  /** The check of the supplied buffer, with its own access window. */
  method Probe(d: Desc, buf: Supplied) returns (ok: bool)
    requires d.Shaped()
    modifies buf
    ensures buf.windows == old(buf.windows) && buf.faults >= old(buf.faults)
    ensures ok ==> buf.isDmaBuf && Inside(d, |buf.bytes|)
    ensures !ok && buf.faults == old(buf.faults) ==> !buf.isDmaBuf || !Inside(d, |buf.bytes|) || buf.bytes == []
  {
    var started := buf.SyncStart();
    if !started { return false; }
    var size := buf.Size();
    buf.SyncEnd();
    if size <= 0 || d.offsets[0] + d.pitches[0] * d.height > size { return false; }
    var p := 1;
    while p < d.Planes() && p < 4
      invariant 1 <= p <= 4
      invariant forall q | 1 <= q < p && q < d.Planes() :: d.offsets[q] + d.pitches[q] <= size
    {
      if d.offsets[p] + d.pitches[p] > size { return false; }
      p := p + 1;
    }
    ok := true;
  }

  /** A row-addressed source packed to width * 4 bytes a row. */
  function PackedShape(d: Desc): D.Shape
    requires d.Shaped() && d.width * 4 <= 0xffff_ffff
  {
    D.Shape(d.width, d.height, d.pitches[0], d.width * 4, d.pitches[0] * d.height)
  }

  /** Every packed pixel is the source's own. */
  lemma PackedPixel(d: Desc, src: seq<u8>, x: u32, y: u32)
    requires d.Shaped() && DescVerdict(d) == 0 && d.width * 4 <= 0xffff_ffff && |src| == d.pitches[0] * d.height
    requires x < d.width && y < d.height
    ensures d.width * 4 <= d.pitches[0] && 0 <= y * d.pitches[0] && y * d.pitches[0] + x * 4 + 4 <= |src|
    ensures D.Pixel(D.Rows, src, PackedShape(d), x, y) == src[y * d.pitches[0] + x * 4..][..4]
  {
    DescBounds(d);
    hide DescVerdict;
    RowEnd(y, d.height, d.pitches[0], d.width * 4);
  }

  /** A row no longer than the stride ends inside stride * height bytes. */
  lemma RowEnd(y: nat, height: nat, stride: nat, row: nat)
    requires y < height && row <= stride
    ensures 0 <= y * stride && y * stride + row <= stride * height
  {
    LastByte(stride, height, row);
    RowBelow(y, height, stride);
  }

  lemma DescBounds(d: Desc)
    requires d.Shaped() && DescVerdict(d) == 0
    ensures 1 <= d.width <= MAX_DIM && 1 <= d.height <= MAX_DIM && d.width * 4 <= d.pitches[0]
    ensures 0 < d.pitches[0] * d.height <= MAX_FB_BYTES && Checked(ViewOf(d, null))
  {
    hide R.IsSixteen;
    SizeBound(d.pitches[0], d.height);
    MulMonotone(1, d.height, d.pitches[0]);
    MulMonotone(4, R.MinBpp(d.format), d.width);
  }

  /** The bytes the descriptor's image occupies. */
  ghost function Window(d: Desc, bytes: seq<u8>): (src: seq<u8>)
    requires d.Shaped() && Covers(d, |bytes|) && 0 <= d.pitches[0] * d.height
    ensures |src| == d.pitches[0] * d.height
  {
    bytes[d.offsets[0]..d.offsets[0] + d.pitches[0] * d.height]
  }

  /** The finished frame: the GPU's image, or the source decoded, reduced or packed; never the raw bytes as they lay. */
  ghost predicate Converted(cx: Converter, d: Desc, bytes: seq<u8>, v: View)
    reads cx, v.data
    requires d.Shaped() && DescVerdict(d) == 0
  {
    DescBounds(d);
    && v.data != null && v.data in {cx.shadow, cx.userOut}
    && v.width == d.width && v.height == d.height && v.fb == d.fb && v.fd == d.fd
    && (|| (cx.egl && v.format == R.XR24 && v.stride == d.width * 4 && v.modifier == D.MOD_LINEAR &&
            d.width * d.height * 4 <= v.data.Length)
        || (d.fd >= 0 && Covers(d, |bytes|) && v.modifier == d.modifier && FromBytes(cx, d, Window(d, bytes), v)))
  }

  ghost predicate FromBytes(cx: Converter, d: Desc, src: seq<u8>, v: View)
    requires d.Shaped() && DescVerdict(d) == 0 && v.data != null
    reads cx, v.data
  {
    DescBounds(d);
    if IsTiled(d.modifier) then
      && v.stride == d.pitches[0] && D.DecoderOf(d.modifier).Decodes?
      && v.format == (if R.IsTenBit(d.format) then R.XR24 else d.format)
      && ShowsDecoded(v.data[..], v.stride, D.DecoderOf(d.modifier).layout, src, ShapeOf(ViewOf(d, null)),
                      cx.TiledConversion(d.format))
    else if cx.ReductionOf(d.format).Via? then
      && v.stride == d.width * 4 && v.format == R.XR24
      && ShowsLinear(v.data[..], v.stride, src, R.Area(d.width, d.height, d.pitches[0], v.stride),
                     cx.ReductionOf(d.format).conversion)
    else
      && v.stride == d.width * 4 && v.format == d.format
      && ShowsDecoded(v.data[..], v.stride, D.Rows, src, PackedShape(d), R.Copy)
  }

  /** No room for the result, or, of a tiled image, a driver or layout that the CPU does not decode. */
  predicate Unconvertible(cx: Converter, d: Desc)
    reads cx
    requires d.Shaped()
  {
    if IsTiled(d.modifier) then
      || !cx.Room(d.pitches[0] * d.height) || !cx.knownDriver
      || d.modifier / 0x0100_0000_0000_0000 != 1 || d.modifier % 0x100 !in {1, 2, 3}
    else
      || !cx.Room(d.width * d.height * 4)
      || (cx.ReductionOf(d.format).Via? && d.width * cx.ReductionOf(d.format).conversion.Bpp() > d.pitches[0])
  }

  /** A linear 8-bit image off the GPU, byte by byte from the supplied buffer. */
  lemma LinearFrame(cx: Converter, d: Desc, bytes: seq<u8>, v: View, x: u32, y: u32, b: nat)
    requires d.Shaped() && DescVerdict(d) == 0 && !cx.egl && Converted(cx, d, bytes, v)
    requires d.modifier in {0, 0x00ff_ffff_ffff_ffff} && cx.ReductionOf(d.format).None?
    requires x < d.width && y < d.height && b < 4
    ensures 0 <= y * (d.width * 4) && v.data != null && y * (d.width * 4) + x * 4 + b < v.data.Length
    ensures 0 <= y * d.pitches[0] && d.offsets[0] + y * d.pitches[0] + x * 4 + b < |bytes|
    ensures v.format == d.format && v.stride == d.width * 4
    ensures v.data[y * (d.width * 4) + x * 4 + b] == bytes[d.offsets[0] + y * d.pitches[0] + x * 4 + b]
  {
    DescBounds(d);
    hide DescVerdict;
    var src := Window(d, bytes);
    PackedPixel(d, src, x, y);
    var px, out := D.Pixel(D.Rows, src, PackedShape(d), x, y), v.data[..];
    assert PixelIs(out, v.stride, x, y, R.Conversion.Copy.Apply(px));
    hide D.Pixel;
    MulMonotone(0, y, d.width * 4);
    var at := y * (d.width * 4) + x * 4;
    assert out[at..][..4][b] == out[at + b];
    assert src[y * d.pitches[0] + x * 4..][..4][b] == src[y * d.pitches[0] + x * 4 + b];
  }

  /** Off the GPU, a converted frame is made of the bytes that the descriptor's image occupies. */
  lemma OffGpu(cx: Converter, d: Desc, bytes: seq<u8>, v: View) returns (src: seq<u8>)
    requires d.Shaped() && DescVerdict(d) == 0 && !cx.egl && Converted(cx, d, bytes, v)
    ensures 0 <= d.pitches[0] * d.height && d.offsets[0] + d.pitches[0] * d.height <= |bytes| && v.data != null
    ensures src == bytes[d.offsets[0]..][..d.pitches[0] * d.height] && FromBytes(cx, d, src, v)
  {
    DescBounds(d);
    hide DescVerdict, FromBytes;
    src := Window(d, bytes);
    var at, n := d.offsets[0], d.pitches[0] * d.height;
    assert bytes[at..at + n] == bytes[at..][..n];
  }

  /** A tiled 8-bit image is those bytes decoded, at the source's own stride; XTiledBytes and YTiledBytes say how. */
  lemma TiledFrom(cx: Converter, d: Desc, src: seq<u8>, v: View)
    requires d.Shaped() && DescVerdict(d) == 0 && v.data != null && |src| == d.pitches[0] * d.height
    requires FromBytes(cx, d, src, v) && d.modifier !in {0, 0x00ff_ffff_ffff_ffff} && !R.IsTenBit(d.format)
    ensures v.format == d.format && v.stride == d.pitches[0] && D.DecoderOf(d.modifier).Decodes?
    ensures ShowsDecoded(v.data[..], d.pitches[0], D.DecoderOf(d.modifier).layout, src,
                         D.Shape(d.width, d.height, d.pitches[0], d.pitches[0], d.pitches[0] * d.height), R.Copy)
  {
    hide DescVerdict, ShowsDecoded, D.DecoderOf;
  }

  /** The layout the header promises for a converted frame. */
  predicate Documented(d: Desc, v: View) {
    v.modifier == D.MOD_LINEAR && v.stride == d.width * 4
  }

  /** Off the GPU that promise is kept for linear descriptors and for no others. */
  lemma DocumentedExactly(cx: Converter, d: Desc, bytes: seq<u8>, v: View)
    requires d.Shaped() && DescVerdict(d) == 0 && Converted(cx, d, bytes, v)
    ensures cx.egl || (Documented(d, v) <==> d.modifier == D.MOD_LINEAR)
    ensures d.modifier == D.MOD_LINEAR ==> Documented(d, v)
  {
    hide ShowsDecoded, ShowsLinear, DescVerdict;
    DescBounds(d);
  }

  const X_TILED: u64 := 0x0100_0000_0000_0001

  /** One tile of X-tiled XRGB8888, 128 pixels by 8 rows. */
  const TILED_SAMPLE := Desc(3, 128, 8, R.XR24, X_TILED, 0, 1, [0, 0, 0, 0], [512, 0, 0, 0], false)

  /** A descriptor that breaks it: accepted and decodable, but what comes back is still marked tiled. */
  lemma TiledFrameIsNotAsDocumented(cx: Converter, bytes: seq<u8>, v: View)
    ensures DescVerdict(TILED_SAMPLE) == 0 && Inside(TILED_SAMPLE, 4096)
    ensures D.DeswizzleCode(X_TILED, ShapeOf(ViewOf(TILED_SAMPLE, null))) == 0
    ensures !cx.egl && Converted(cx, TILED_SAMPLE, bytes, v) ==> v.modifier == X_TILED && !Documented(TILED_SAMPLE, v)
  {
    hide ShowsDecoded, ShowsLinear;
  }

  /** Linear bytes are copied out of the temporary mapping without their row padding. */
  method Repack(cx: Converter, d: Desc, src: array<u8>, v: View) returns (ret: int, v': View)
    requires cx.Ready() && cx.Apart(src) && d.Shaped() && DescVerdict(d) == 0 && src.Length == d.pitches[0] * d.height
    modifies cx`shadow, cx.shadow, cx.userOut
    ensures cx.Ready() && (cx.shadow == old(cx.shadow) || fresh(cx.shadow)) && ret <= 0
    ensures ret != 0 ==> v' == v
    ensures ret != 0 ==> !cx.Room(d.width * d.height * 4) || (ret == ENOMEM && cx.userOut == null)
    ensures ret == 0 ==> v'.data != null && v'.data in {cx.shadow, cx.userOut}
    ensures ret == 0 ==> v' == v.(data := v'.data, stride := d.width * 4)
    ensures ret == 0 ==>
              && d.width * 4 <= 0xffff_ffff
              && ShowsDecoded(v'.data[..], v'.stride, D.Rows, src[..], PackedShape(d), R.Copy)
  {
    hide D.Decoded, ShowsDecoded;
    DescBounds(d);
    v' := v;
    var stride := d.width * 4;
    var out;
    MulAssoc(d.height, d.width, 4);
    MulBounds(d.width, d.height);
    ret, out := cx.EnsureOut(stride * d.height);
    if ret != 0 { return; }
    ghost var was := out[..];
    var s := PackedShape(d);
    LastByte(stride, d.height, stride);
    D.CopyRows(src, out, s);
    DecodedShows(D.Rows, src[..], s, was);
    v' := v.(data := out, stride := stride);
  }

  /** What the conversions made of a mapping, other than passing it through. */
  lemma FromMapping(cx: Converter, d: Desc, mapped: array<u8>, hidden: View, v: View)
    requires d.Shaped() && DescVerdict(d) == 0 && hidden == ViewOf(d, mapped).(fd := -1)
    requires v.data != null && v.data != mapped
    requires mapped.Length == d.pitches[0] * d.height && cx.Processed(mapped, hidden, v, mapped[..])
    ensures v.data in {cx.shadow, cx.userOut} && v.modifier == d.modifier && v.width == d.width && v.height == d.height
    ensures v.fb == d.fb && FromBytes(cx, d, mapped[..], v.(fd := d.fd))
  {
    hide ShowsDecoded, ShowsLinear, DescVerdict;
    DescBounds(d);
  }

  lemma Passed(cx: Converter, d: Desc, mapped: array<u8>, hidden: View, v: View)
    requires cx.Processed(mapped, hidden, v, mapped[..]) && v.data == mapped
    ensures v == hidden
  {}

  /** A packed image is what a passed-through mapping becomes. */
  lemma PackedFrom(cx: Converter, d: Desc, src: seq<u8>, v: View)
    requires d.Shaped() && DescVerdict(d) == 0 && !IsTiled(d.modifier) && cx.ReductionOf(d.format).None?
    requires v.data != null
    requires v.stride == d.width * 4 && v.format == d.format && d.width * 4 <= 0xffff_ffff
    requires ShowsDecoded(v.data[..], v.stride, D.Rows, src, PackedShape(d), R.Copy)
    ensures FromBytes(cx, d, src, v)
  {
    hide ShowsDecoded, ShowsLinear, DescVerdict;
  }

  /** The mapping goes through the CPU conversions with the descriptor hidden. */
  method ConvertMapping(cx: Converter, d: Desc, mapped: array<u8>) returns (ret: int, v: View)
    requires cx.Ready() && cx.Apart(mapped) && d.Shaped() && DescVerdict(d) == 0 && d.fd >= 0
    requires mapped.Length == d.pitches[0] * d.height
    modifies cx`shadow, cx.shadow, cx.userOut
    ensures cx.Ready() && (cx.shadow == old(cx.shadow) || fresh(cx.shadow)) && ret <= 0
    ensures ret == 0 ==> v.data != null && v.data in {cx.shadow, cx.userOut} && v.modifier == d.modifier
    ensures ret == 0 ==> v.width == d.width && v.height == d.height && v.fb == d.fb && v.fd == d.fd
    ensures ret == 0 ==> FromBytes(cx, d, mapped[..], v)
    ensures ret != 0 ==> Unconvertible(cx, d) || (ret == ENOMEM && cx.userOut == null)
  {
    hide ShowsDecoded, ShowsLinear, D.DecoderOf, DescVerdict, FromBytes, Converter.Processed, Labels;
    DescBounds(d);
    var hidden := ViewOf(d, mapped).(fd := -1);
    ghost var gpu, src := 1, mapped[..];
    ret, v, gpu := cx.AutoProcess(mapped, hidden, false);
    assert mapped[..] == src;
    if ret != 0 {
      v := v.(fd := d.fd);
      return;
    }
    if v.data == mapped {
      Passed(cx, d, mapped, hidden, v);
      v := v.(fd := d.fd);
      ret, v := Repack(cx, d, mapped, v);
      if ret == 0 { PackedFrom(cx, d, src, v); }
    } else {
      FromMapping(cx, d, mapped, hidden, v);
      v := v.(fd := d.fd);
    }
  }

  /** The CPU fallback: probe the buffer again, map exactly the image, convert, and close the window. */
  method ConvertOnCpu(cx: Converter, d: Desc, buf: Supplied, v0: View) returns (ret: int, v: View)
    requires cx.Ready() && d.Shaped() && DescVerdict(d) == 0 && d.fd >= 0 && v0.data == null
    modifies cx`shadow, cx.shadow, cx.userOut, buf
    ensures cx.Ready() && buf.windows == old(buf.windows) && ret <= 0
    ensures ret != 0 ==> v.data == null
    ensures ret == 0 ==> Converted(cx, d, buf.bytes, v)
    ensures buf.faults >= old(buf.faults)
    ensures ret != 0 && buf.faults == old(buf.faults) && buf.isDmaBuf && Covers(d, |buf.bytes|) ==>
              Unconvertible(cx, d) || (ret == ENOMEM && cx.userOut == null)
  {
    hide ShowsDecoded, ShowsLinear, D.DecoderOf, DescVerdict, FromBytes;
    DescBounds(d);
    v := v0;
    var n := d.pitches[0] * d.height;
    var started := buf.SyncStart();
    if !started { return EINVAL, v; }
    var size := buf.Size();
    if size <= 0 || d.offsets[0] + n > size {
      buf.SyncEnd();
      return EINVAL, v;
    }
    var mapped := buf.Map(d.offsets[0], n);
    if mapped == null {
      buf.SyncEnd();
      return EIO, v;
    }
    assert mapped[..] == Window(d, buf.bytes);
    ret, v := ConvertMapping(cx, d, mapped);
    buf.SyncEnd();
    if ret != 0 { v := v.(data := null); }
  }

  /**
   Convert an externally supplied frame.  Whatever the numbers claim, nothing is read outside the
   buffer or written outside the destination, the buffer's access windows end as they were, and a
   frame comes back only converted.
   */
  method ConvertDmabuf(cx: Converter, d: Desc, buf: Supplied, frame: View) returns (ret: int, v: View)
    requires cx.Ready() && d.Shaped()
    modifies cx`hdr, cx`shadow, cx.shadow, cx.userOut, buf
    ensures cx.Ready() && buf.windows == old(buf.windows) && ret <= 0
    ensures DescVerdict(d) != 0 ==> ret == DescVerdict(d) && v == frame
    ensures DescVerdict(d) == 0 && ret != 0 ==> v.data == null
    ensures DescVerdict(d) == 0 ==> cx.hdr == d.pq
    ensures ret == 0 ==> DescVerdict(d) == 0 && Converted(cx, d, buf.bytes, v)
    ensures ret == 0 && !cx.egl ==> (Documented(d, v) <==> d.modifier == D.MOD_LINEAR)
    ensures ret == 0 && d.fd >= 0 ==> buf.isDmaBuf && Inside(d, |buf.bytes|)
    ensures ret == 0 && d.fd < 0 ==> cx.egl
    // it fails only for these reasons
    ensures ret != 0 && buf.faults == old(buf.faults) ==>
              || DescVerdict(d) != 0 || d.fd < 0 || !buf.isDmaBuf || !Inside(d, |buf.bytes|)
              || Unconvertible(cx, d) || (ret == ENOMEM && cx.userOut == null)
  {
    hide ShowsDecoded, ShowsLinear, D.DecoderOf, FromBytes, ValidateFbDims, ValidateFbSize;
    ret := DescVerdict(d);
    v := frame;
    if ret != 0 { return; }
    DescBounds(d);
    cx.hdr := d.pq;
    v := ViewOf(d, null);
    if d.fd >= 0 {
      var ok := Probe(d, buf);
      if !ok { return EINVAL, v; }
    }
    if cx.egl {
      var out;
      ret, out := cx.GpuDetile(v);
      if ret == 0 {
        v := v.(data := out, format := R.XR24, stride := d.width * 4, modifier := D.MOD_LINEAR);
        return;
      }
    }
    if d.fd < 0 { return EINVAL, v; }
    ret, v := ConvertOnCpu(cx, d, buf, v);
    if ret == 0 { DocumentedExactly(cx, d, buf.bytes, v); }
  }
}
