/** The geometry limits every entry point checks before it sizes, maps or indexes anything. */
module Geometry {
  import opened Arith
  import opened Words

  const MAX_FB_BYTES := 7680 * 4320 * 4
  const MAX_DIM := 32768

  // Negative errno values returned by the library.
  const EIO := -5
  const EACCES := -13
  const EINVAL := -22
  const ENODEV := -19
  const EFBIG := -27
  const ENOSPC := -28
  const ENOMEM := -12
  const EPROTO := -71
  const ENOTSUP := -95

  function ValidateFbDims(width: u32, height: u32): (ret: int) {
    if width == 0 || height == 0 then EINVAL
    else if width > MAX_DIM || height > MAX_DIM then EFBIG
    else if width * height > MAX_FB_BYTES / 4 then EFBIG
    else 0
  }

  function ValidateFbSize(stride: u32, height: u32): (ret: int) {
    if stride == 0 || height == 0 then EINVAL
    else if height > MAX_FB_BYTES / stride then EFBIG
    else 0
  }

  /** Geometry that both validators pass and whose rows hold width 4-byte pixels. */
  predicate Accepted(width: u32, height: u32, stride: u32) {
    ValidateFbDims(width, height) == 0 && ValidateFbSize(stride, height) == 0 && width * 4 <= stride
  }

  lemma AreaBytes(width: u32, height: u32)
    requires ValidateFbDims(width, height) == 0
    ensures 0 < 4 * width * height <= MAX_FB_BYTES
  {
    MulMonotone(1, width, height);
    MulAssoc(4, width, height);
  }

  /** The size validator bounds stride * height exactly at the cap. */
  lemma SizeBound(stride: u32, height: u32)
    requires stride > 0 && height > 0
    ensures ValidateFbSize(stride, height) == 0 <==> stride * height <= MAX_FB_BYTES
  {
    var q := MAX_FB_BYTES / stride;
    assert MAX_FB_BYTES == q * stride + MAX_FB_BYTES % stride;
    if height <= q {
      MulMonotone(height, q, stride);
    } else {
      MulMonotone(q + 1, height, stride);
    }
  }

  /** Which dimensions and sizes pass, and with what codes the others are refused. */
  lemma AcceptedExactly(width: u32, height: u32, stride: u32)
    ensures ValidateFbDims(width, height) == 0 <==>
            1 <= width <= 32_768 && 1 <= height <= 32_768 && width * height <= 33_177_600
    ensures ValidateFbSize(stride, height) == 0 <==> stride > 0 && height > 0 && stride * height <= 132_710_400
    ensures ValidateFbDims(width, height) in {0, -22, -27} && ValidateFbSize(stride, height) in {0, -22, -27}
    ensures ValidateFbDims(width, height) == -22 <==> width == 0 || height == 0
    ensures ValidateFbSize(stride, height) == -22 <==> stride == 0 || height == 0
  {
    if stride > 0 && height > 0 { SizeBound(stride, height); }
  }

  lemma AcceptedBounds(width: u32, height: u32, stride: u32)
    requires Accepted(width, height, stride)
    ensures 1 <= width <= MAX_DIM && 1 <= height <= MAX_DIM && 4 <= stride <= MAX_FB_BYTES
    ensures stride * height <= MAX_FB_BYTES && width * height * 4 <= MAX_FB_BYTES && width * 4 <= stride
  {
    SizeBound(stride, height);
    MulMonotone(1, height, stride);
  }
}
