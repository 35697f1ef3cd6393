/**
 The width a frame is reported with: a framebuffer may be padded to a pitch alignment, and the plane's
 rectangle tells padding from scaling.
 */
module Scanout {
  import opened Words
  import D = Deswizzle

  /** The primary plane's source and screen rectangles, valid when all six were read. */
  datatype PlaneRect = PlaneRect(valid: bool, srcX: u32, srcY: u32, srcW: u32, srcH: u32, crtcW: u32, crtcH: u32)

  /** The CRTC as it is read: its mode's width, 0 when there is none, and its plane. */
  datatype Display = Display(mode: u32, rect: PlaneRect)

  /** The last decision and what it was made for. */
  datatype Memo = NoMemo | Memo(mode: u32, fbWidth: u32, modifier: u64, width: u32)

  /** Rows are addressed by the stride alone. */
  predicate RowAddressed(modifier: u64) {
    modifier == D.MOD_LINEAR || modifier == D.MOD_INVALID
  }

  /** drmtap_scanout_width_of: only ever shrinks. */
  function WidthOf(fbWidth: u32, rect: PlaneRect, rowAddressed: bool): (w: u32)
    ensures w <= fbWidth && (w < fbWidth ==> w > 0 && rowAddressed)
  {
    if !rowAddressed || !rect.valid then fbWidth
    else if rect.srcX != 0 || rect.srcY != 0 then fbWidth
    else if rect.srcW != rect.crtcW || rect.srcH != rect.crtcH then fbWidth
    else if 0 < rect.srcW < fbWidth then rect.srcW
    else fbWidth
  }

  /** A decision is only made for a mode narrower than the framebuffer, and kept for the same key. */
  function Decided(memo: Memo, d: Display, fbWidth: u32, modifier: u64): (w: u32) {
    if d.mode == 0 || d.mode >= fbWidth then fbWidth
    else if memo.Memo? && memo.mode == d.mode && memo.fbWidth == fbWidth && memo.modifier == modifier then memo.width
    else WidthOf(fbWidth, d.rect, RowAddressed(modifier))
  }

  /** What is kept is some plane's answer for that key. */
  ghost predicate MemoSound(memo: Memo) {
    memo.Memo? ==> exists rect :: memo.width == WidthOf(memo.fbWidth, rect, RowAddressed(memo.modifier))
  }

  function Kept(memo: Memo, d: Display, fbWidth: u32, modifier: u64): (m: Memo) {
    if d.mode == 0 || d.mode >= fbWidth then memo
    else Memo(d.mode, fbWidth, modifier, Decided(memo, d, fbWidth, modifier))
  }

  lemma KeptSound(memo: Memo, d: Display, fbWidth: u32, modifier: u64)
    requires MemoSound(memo)
    ensures MemoSound(Kept(memo, d, fbWidth, modifier))
    ensures var w := Decided(memo, d, fbWidth, modifier);
            w <= fbWidth && (fbWidth > 0 ==> w > 0) && (w < fbWidth ==> RowAddressed(modifier))
  {}

  /** A first decision narrows exactly a padded, row-addressed scanout that is shown one to one from the origin. */
  lemma NarrowsExactly(d: Display, fbWidth: u32, modifier: u64)
    ensures var w, r := Decided(NoMemo, d, fbWidth, modifier), d.rect;
            && (w < fbWidth <==>
                  && (modifier == 0 || modifier == 0x00ff_ffff_ffff_ffff) && 0 < d.mode < fbWidth
                  && r.valid && r.srcX == 0 && r.srcY == 0 && r.srcW == r.crtcW && r.srcH == r.crtcH
                  && 0 < r.srcW < fbWidth)
            && (w < fbWidth ==> w == r.srcW)
  {}

  /** A decision is remembered for exactly its mode, width and modifier; any other key is decided anew. */
  lemma RememberedExactly(memo: Memo, d: Display, fbWidth: u32, modifier: u64)
    ensures d.mode == 0 || d.mode >= fbWidth ==>
              Decided(memo, d, fbWidth, modifier) == fbWidth && Kept(memo, d, fbWidth, modifier) == memo
    ensures 0 < d.mode < fbWidth ==>
              var known := memo.Memo? && (memo.mode, memo.fbWidth, memo.modifier) == (d.mode, fbWidth, modifier);
              var w := Decided(memo, d, fbWidth, modifier);
              && w == (if known then memo.width else Decided(NoMemo, d, fbWidth, modifier))
              && Kept(memo, d, fbWidth, modifier) == Memo(d.mode, fbWidth, modifier, w)
  {}
}
