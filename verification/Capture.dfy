/**
 The capture entry points: slow grabs whose frames carry a private record, and the fast path's
 four-slot cache, moving kernel resources between the call in progress, frames and slots.
 */
module Capture {
  import opened Words
  import opened Arith
  import opened Geometry
  import opened Kernel
  import opened SkipCache
  import opened OutputBuffers
  import opened Scanout
  import AutoProcess
  import D = Deswizzle
  import R = Reduce

  const SLOTS := 4

  /** A plane layout as staged for the conversions. */
  datatype Planes = Planes(count: nat, pitches: seq<u32>, offsets: seq<u32>)

  /** One past the last plane in use. */
  function PlaneCount(used: seq<bool>): (n: nat)
    ensures n <= |used| && (n > 0 ==> used[n - 1])
    ensures forall p | n <= p < |used| :: !used[p]
  {
    if used == [] then 0
    else if used[|used| - 1] then |used|
    else PlaneCount(used[..|used| - 1])
  }

  /** The parts of a frame that the conversions may replace, and the buffer behind the descriptor they were given. */
  datatype Made = Made(data: nat, stride: u32, format: u32, bo: nat)

  /** A plane counts when it has a buffer or a pitch. */
  function InUse(present: seq<bool>, pitches: seq<u32>): (used: seq<bool>)
    requires |present| == |pitches|
    ensures |used| == |present|
  {
    seq(|present|, p requires 0 <= p < |present| => present[p] || pitches[p] != 0)
  }

  /** n is one past the last plane that has a buffer or a pitch; 0 if none does. */
  ghost predicate LastInUse(n: nat, fb: Fb)
    requires fb.Shaped()
  {
    && n <= 4 && (n > 0 ==> fb.present[n - 1] || fb.pitches[n - 1] != 0)
    && forall p | n <= p < 4 :: !fb.present[p] && fb.pitches[p] == 0
  }

  lemma PlanesCounted(fb: Fb)
    requires fb.Shaped()
    ensures LastInUse(PlanesOf(fb).count, fb)
  {
    var used := InUse(fb.present, fb.pitches);
    assert forall p | 0 <= p < 4 :: used[p] == (fb.present[p] || fb.pitches[p] != 0);
  }

  /** The layout a privileged GetFB2 of this framebuffer yields. */
  function PlanesOf(fb: Fb): Planes
    requires fb.Shaped()
  {
    Planes(PlaneCount(InUse(fb.present, fb.pitches)), fb.pitches, fb.offsets)
  }

  function EffectiveModifier(fb: Fb): u64 {
    if fb.hasModifiers then fb.rawModifier else D.MOD_INVALID
  }

  /** One entry of the fast cache; fb 0 is an unused slot. */
  datatype FastSlot = FastSlot(fb: u32, gem: nat, fd: int, view: nat, size: nat, width: u32, height: u32, stride: u32,
                               fbWidth: u32, format: u32, modifier: u64, planes: Planes, open: bool)
  {
    function Gems(): set<nat> { if gem == 0 then {} else {gem} }

    /** Unused and holding nothing, or used and holding all three. */
    predicate Whole() {
      if fb == 0 then this == UNUSED else gem != 0 && fd >= 0 && view != 0
    }
  }

  const UNUSED := FastSlot(0, 0, -1, 0, 0, 0, 0, 0, 0, 0, 0, Planes(0, [0, 0, 0, 0], [0, 0, 0, 0]), false)

  /** A frame's private record; view 0 is no mapping of its own. */
  datatype Priv = Priv(fd: int, view: nat, size: nat, gem: nat, open: bool)
  {
    function Gems(): set<nat> { if gem == 0 then {} else {gem} }
  }

  datatype Frame = FrameInfo(data: nat, fd: int, width: u32, height: u32, stride: u32, format: u32, modifier: u64,
                             fb: u32, priv: nat)

  const BLANK := FrameInfo(0, -1, 0, 0, 0, 0, 0, 0, 0)

  /** memset: the descriptor reads as 0 until it is set. */
  const ZEROED := BLANK.(fd := 0)

  /** How a slow grab got its frame. */
  datatype Route = NoRoute | Direct | HelperPixels | HelperFd(virgl: bool, viewed: bool)
  {
    /** A descriptor that could not be mapped and is not read back by the GPU. */
    predicate Blind() { HelperFd? && !viewed && !virgl }
  }

  /** The connector's transfer function and peak brightness. */
  datatype Hdr = Hdr(eotf: u32, nits: u32)

  /** What the helper reports about a frame. */
  datatype Report = Report(width: u32, height: u32, stride: u32, format: u32, modifier: u64, fb: u32, virgl: bool,
                           size: u32, hdr: Hdr)

  /** What another process needs to convert a frame. */
  datatype Desc = Desc(fd: int, width: u32, height: u32, format: u32, modifier: u64, fb: u32, planes: Planes, hdr: Hdr)

  /** Both validators pass. */
  predicate Bounded(width: u32, height: u32, stride: u32) {
    ValidateFbDims(width, height) == 0 && ValidateFbSize(stride, height) == 0
  }

  /** The stride covers a row of pixels. */
  predicate RowsFit(width: u32, format: u32, stride: u32) {
    width * R.MinBpp(format) <= stride
  }

  predicate Sane(width: u32, height: u32, stride: u32, format: u32) {
    Bounded(width, height, stride) && RowsFit(width, format, stride)
  }

  lemma SaneWide(width: u32, height: u32, stride: u32, format: u32)
    requires Sane(width, height, stride, format)
    ensures width > 0
  {}

  lemma NarrowerSane(w: u32, width: u32, height: u32, stride: u32, format: u32)
    requires Sane(width, height, stride, format) && 0 < w <= width
    ensures Sane(w, height, stride, format)
  {
    NarrowerBounded(w, width, height, stride);
    MulMonotone(w, width, R.MinBpp(format));
  }

  /** A part of the width is bounded with it. */
  lemma NarrowerBounded(w: u32, width: u32, height: u32, stride: u32)
    requires Bounded(width, height, stride) && 0 < w <= width
    ensures Bounded(w, height, stride)
  {
    MulMonotone(w, width, height);
  }

  /** What one call handed to the conversions; `force` insists on the GPU's readback. */
  datatype Call = Call(data: nat, fd: int, width: u32, height: u32, stride: u32, format: u32, modifier: u64, fb: u32,
                       planes: Planes,
                       force: bool)

  lemma BoundedSize(width: u32, height: u32, stride: u32)
    requires Bounded(width, height, stride)
    ensures 0 < stride * height <= MAX_FB_BYTES
  {
    SizeBound(stride, height);
    MulMonotone(1, height, stride);
  }

  /** What an uncached acquire of `fb` under `id` hands to the conversions, for a mapping, descriptor and width. */
  function FreshCall(fb: Fb, id: u32, data: nat, fd: int, width: u32): Call
    requires fb.Shaped()
  {
    Call(data, fd, width, fb.height, fb.pitches[0], fb.format, EffectiveModifier(fb), id, PlanesOf(fb), false)
  }

  /** What may happen to a context. */
  datatype Op = Grab | GrabMapped | Describe | Fast | Release(p: nat) | Reset | Flip

  /** Where a fast grab's pixels came from. */
  datatype Served = Nothing | FromSlot(i: nat, filled: bool) | FromFd(fb: Fb)

  // ---- invariants, on values ----

  ghost predicate Holders(holdings: map<Holder, Holding>, privs: map<nat, Priv>) {
    forall o :: o in holdings <==> o == Flight || (o.Slot? && o.i < SLOTS) || (o.Frame? && o.p in privs)
  }

  ghost predicate SlotsHold(holdings: map<Holder, Holding>, slots: seq<FastSlot>) {
    && |slots| == SLOTS
    && forall i | 0 <= i < SLOTS ::
        Slot(i) in holdings && holdings[Slot(i)].Has(slots[i].Gems(), slots[i].fd, slots[i].view, slots[i].open)
  }

  ghost predicate FramesHold(holdings: map<Holder, Holding>, privs: map<nat, Priv>) {
    forall p | p in privs ::
      && p != 0 && Frame(p) in holdings
      && holdings[Frame(p)].Has(privs[p].Gems(), privs[p].fd, privs[p].view, privs[p].open)
      && (privs[p].open ==> privs[p].view != 0 && privs[p].size > 0) && (privs[p].view != 0 ==> privs[p].size > 0)
  }

  ghost predicate UniqueFbs(slots: seq<FastSlot>) {
    forall i, j | 0 <= i < |slots| && 0 <= j < |slots| && i != j && slots[i].fb != 0 :: slots[i].fb != slots[j].fb
  }

  ghost predicate OneWindow(slots: seq<FastSlot>) {
    forall i, j | 0 <= i < |slots| && 0 <= j < |slots| && i != j && slots[i].open :: !slots[j].open
  }

  ghost predicate AllWhole(slots: seq<FastSlot>) {
    forall i | 0 <= i < |slots| :: slots[i].Whole()
  }

  /** The slot describes framebuffer `fb`, and its descriptor and mapping are of that buffer. */
  ghost predicate Agrees(virtio: bool, s: FastSlot, fb: Fb, h: Holding) {
    && fb.Shaped() && h.bo == fb.bo && h.size == s.size == fb.pitches[0] * fb.height
    && Bounded(fb.width, fb.height, fb.pitches[0]) && (h.base == At(fb.offsets[0]) || (virtio && h.base.Dumb?))
    && s.height == fb.height && s.stride == fb.pitches[0] && s.fbWidth == fb.width && 0 < s.width <= fb.width
    && s.format == fb.format && s.modifier == EffectiveModifier(fb) && s.planes == PlanesOf(fb)
  }

  ghost predicate AllAgree(virtio: bool, slots: seq<FastSlot>, seen: seq<Fb>, holdings: map<Holder, Holding>) {
    && |seen| == |slots|
    && forall i | 0 <= i < |slots| && slots[i].fb != 0 ::
        Slot(i) in holdings && Agrees(virtio, slots[i], seen[i], holdings[Slot(i)])
  }

  /** Holdings are exactly those of the call in progress, the slots and the unreleased frames. */
  ghost predicate Books(holdings: map<Holder, Holding>, slots: seq<FastSlot>, privs: map<nat, Priv>) {
    Holders(holdings, privs) && SlotsHold(holdings, slots) && FramesHold(holdings, privs)
  }

  ghost predicate CacheSound(virtio: bool, slots: seq<FastSlot>, seen: seq<Fb>, holdings: map<Holder, Holding>) {
    && |slots| == SLOTS && AllWhole(slots) && UniqueFbs(slots) && OneWindow(slots)
    && AllAgree(virtio, slots, seen, holdings)
  }

  lemma SlotChanges(virtio: bool, holdings: map<Holder, Holding>, slots: seq<FastSlot>, privs: map<nat, Priv>,
                    seen: seq<Fb>,
                    i: nat, s: FastSlot, h: Holding, fb: Fb)
    requires Books(holdings, slots, privs) && CacheSound(virtio, slots, seen, holdings) && i < SLOTS
    requires s.Whole() && h.Has(s.Gems(), s.fd, s.view, s.open) && (s.fb != 0 ==> Agrees(virtio, s, fb, h))
    requires forall j | 0 <= j < SLOTS && j != i :: (s.fb != 0 ==> slots[j].fb != s.fb) && (s.open ==> !slots[j].open)
    ensures Books(holdings[Slot(i) := h], slots[i := s], privs)
    ensures CacheSound(virtio, slots[i := s], seen[i := fb], holdings[Slot(i) := h])
  {}

  lemma FlightChanges(virtio: bool, holdings: map<Holder, Holding>, slots: seq<FastSlot>, privs: map<nat, Priv>,
                      seen: seq<Fb>, h: Holding)
    requires Books(holdings, slots, privs) && CacheSound(virtio, slots, seen, holdings)
    ensures Books(holdings[Flight := h], slots, privs) && CacheSound(virtio, slots, seen, holdings[Flight := h])
  {}

  lemma FrameChanges(virtio: bool, holdings: map<Holder, Holding>, slots: seq<FastSlot>, privs: map<nat, Priv>,
                     seen: seq<Fb>,
                     p: nat, priv: Priv, h: Holding)
    requires Books(holdings, slots, privs) && CacheSound(virtio, slots, seen, holdings) && p != 0
    requires h.Has(priv.Gems(), priv.fd, priv.view, priv.open)
    requires (priv.open ==> priv.view != 0) && (priv.view != 0 ==> priv.size > 0)
    ensures Books(holdings[Frame(p) := h], slots, privs[p := priv])
    ensures CacheSound(virtio, slots, seen, holdings[Frame(p) := h])
  {}

  lemma FrameGoes(virtio: bool, holdings: map<Holder, Holding>, slots: seq<FastSlot>, privs: map<nat, Priv>,
                  seen: seq<Fb>, p: nat)
    requires Books(holdings, slots, privs) && CacheSound(virtio, slots, seen, holdings)
    ensures Books(holdings - {Frame(p)}, slots, privs - {p}) && CacheSound(virtio, slots, seen, holdings - {Frame(p)})
  {}

  /** The ENDs that these slots owe. */
  function Ends(slots: seq<FastSlot>): (acts: seq<Act>) {
    if slots == [] then []
    else
      var last := slots[|slots| - 1];
      Ends(slots[..|slots| - 1]) + if last.open && last.fd >= 0 then [End(last.fd)] else []
  }

  /** One START on this descriptor was issued, after a host transfer at most. */
  predicate StartedOnce(before: seq<Act>, log: seq<Act>, host: bool, bo: nat, fd: int, open: bool) {
    log == before + [Start(fd, open)] || (host && log == before + [Transfer(bo), Start(fd, open)])
  }

  /** No START was. */
  predicate NotStarted(before: seq<Act>, log: seq<Act>, host: bool, bo: nat) {
    log == before || (host && log == before + [Transfer(bo)])
  }

  /** Every used slot was filled from the framebuffer its id names now. */
  ghost predicate Current(slots: seq<FastSlot>, seen: seq<Fb>, fbs: map<u32, Fb>) {
    |slots| == |seen| && forall i | 0 <= i < |slots| && slots[i].fb != 0 ::
        slots[i].fb in fbs && seen[i] == fbs[slots[i].fb]
  }

  const NO_FB := Fb(0, 0, [0, 0, 0, 0], [0, 0, 0, 0], 0, 0, false, [false, false, false, false], 0)

  lemma NoneSound(virtio: bool)
    ensures Books(NoneHeld(SLOTS), [UNUSED, UNUSED, UNUSED, UNUSED], map[])
    ensures CacheSound(virtio, [UNUSED, UNUSED, UNUSED, UNUSED], [NO_FB, NO_FB, NO_FB, NO_FB], NoneHeld(SLOTS))
  {}

  class Capture {
    const k: Kernel
    const heap: Heap
    const egl: bool
    const virtio: bool
    const forceMapFail: bool
    const renderOnly: bool
    var slots: seq<FastSlot>
    var privs: map<nat, Priv>
    var planes: Planes
    var fastPlane: nat
    var lastFb: u32
    var initialized: bool
    var noCpuMap: bool
    var noPrivilege: bool
    var grabPlane: nat
    var hdr: Hdr
    /** The last decision on a padded scanout's width. */
    var memo: Memo
    /** What the connector said when it was last asked. */
    ghost var connector: Hdr
    /** The receive buffer for a helper's pixels. */
    var pixelBuf: nat
    var pixelSize: nat
    /** The framebuffer each slot was filled from, and the last call to the conversions. */
    ghost var seen: seq<Fb>
    ghost var call: Call
    /** What the conversions made of it. */
    ghost var made: Made
    /** The framebuffer that was found on the plane, and the CRTC, when they were last read. */
    ghost var scanned: u32
    ghost var display: Display
    /** In the call at hand, whether the helper answered, and whether a descriptor came with it. */
    ghost var answered: bool
    /** How many bytes it was offered. */
    ghost var offered: nat
    ghost var passed: bool
    /** The helper's latest report, and the payload that came with it. */
    ghost var reported: Report
    ghost var received: seq<u8>

    /** Everything live is held by the call in progress (as given), a slot or an unreleased frame. */
    ghost predicate Accounted(gems: set<nat>, fd: int, view: nat, open: bool)
      reads this`slots, this`privs, k`fbs, k`handles, k`fds, k`views, k`holdings, k`log
    {
      && k.Sound() && Books(k.holdings, slots, privs) && k.holdings[Flight].Has(gems, fd, view, open)
    }

    /** The receive buffer is as long as noted. */
    ghost predicate Buffered()
      reads this`pixelBuf, this`pixelSize, heap`blocks
    {
      pixelBuf != 0 ==> pixelBuf in heap.blocks && |heap.blocks[pixelBuf]| == pixelSize
    }

    ghost predicate Cached()
      reads this`slots, this`seen, this`initialized, this`pixelBuf, this`pixelSize, this`memo, heap`blocks, k`holdings
    {
      && Buffered() && MemoSound(memo)
      && CacheSound(virtio, slots, seen, k.holdings)
      && (!initialized ==> forall i | 0 <= i < SLOTS :: slots[i] == UNUSED)
    }

    ghost predicate Valid()
      reads this`slots, this`privs, this`seen, this`initialized, this`pixelBuf, this`pixelSize, this`memo
      reads heap`blocks, k`fbs, k`handles, k`fds, k`views, k`holdings, k`log
    {
      Accounted({}, -1, 0, false) && Cached()
    }

    constructor (k: Kernel, heap: Heap, egl: bool, virtio: bool, forceMapFail: bool, renderOnly: bool)
      requires k.Sound() && k.holdings == NoneHeld(SLOTS)
      ensures Valid() && this.k == k && this.heap == heap && privs == map[] && !initialized
    {
      this.heap, pixelBuf, pixelSize, hdr, memo := heap, 0, 0, Hdr(0, 0), NoMemo;
      this.k, this.egl, this.virtio, this.forceMapFail, this.renderOnly := k, egl, virtio, forceMapFail, renderOnly;
      slots := [UNUSED, UNUSED, UNUSED, UNUSED];
      privs, planes := map[], UNUSED.planes;
      fastPlane, lastFb, grabPlane := 0, 0, 0;
      initialized, noCpuMap, noPrivilege := false, false, false;
      seen := [NO_FB, NO_FB, NO_FB, NO_FB];
      new;
      hide HandlesHeld, FdsHeld, ViewsHeld, Windows, Books, CacheSound;
      NoneSound(virtio);
    }

    /** Nothing released, everything given back: nothing is live. */
    lemma NothingLeft()
      requires Valid() && privs == map[] && forall i | 0 <= i < SLOTS :: slots[i] == UNUSED
      ensures k.handles == map[] && k.fds == map[] && k.views == map[] && forall f :: Owed(k.log, f) == 0
    {
      forall o | o in k.holdings ensures k.holdings[o].Empty() {
        if o.Slot? { assert slots[o.i] == UNUSED; }
      }
      k.NothingLive();
    }

    // ---- CPU-access windows of the slots ----

    lemma SlotHas(i: nat)
      requires Books(k.holdings, slots, privs) && CacheSound(virtio, slots, seen, k.holdings) && i < SLOTS
      ensures |slots| == SLOTS && slots[i].Whole() && Slot(i) in k.holdings
      ensures k.holdings[Slot(i)].Has(slots[i].Gems(), slots[i].fd, slots[i].view, slots[i].open)
      ensures slots[i].fb != 0 ==> Agrees(virtio, slots[i], seen[i], k.holdings[Slot(i)])
      ensures |seen| == SLOTS && (forall j | 0 <= j < SLOTS && j != i ::
                (slots[i].fb != 0 ==> slots[j].fb != slots[i].fb) && (slots[i].open ==> !slots[j].open))
    {}

    /** Slot i's window is closed, if it was open. */
    method CloseWindow(i: nat)
      requires Valid() && i < SLOTS
      modifies this`slots, k`fds, k`log, k`holdings
      ensures Valid() && slots == old(slots)[i := old(slots)[i].(open := false)]
      ensures k.log == old(k.log) + if old(slots)[i].open && old(slots)[i].fd >= 0 then [End(old(slots)[i].fd)] else []
    {
      hide HandlesHeld, FdsHeld, ViewsHeld, Windows, Books, CacheSound, Buffered, MemoSound, Agrees;
      SlotHas(i);
      var s := slots[i].(open := false);
      SlotChanges(virtio, k.holdings, slots, privs, seen, i, s, k.holdings[Slot(i)].(open := false), seen[i]);
      assert seen[i := seen[i]] == seen;
      if slots[i].open && slots[i].fd >= 0 {
        k.SyncEnd(slots[i].fd, Slot(i));
      } else {
        assert k.holdings[Slot(i)].(open := false) == k.holdings[Slot(i)];
        assert k.holdings[Slot(i) := k.holdings[Slot(i)]] == k.holdings;
      }
      slots := slots[i := s];
    }

    /** fast_sync_close: every window still owed is closed, once. */
    method FastSyncClose()
      requires Valid()
      modifies this`slots, k`fds, k`log, k`holdings
      ensures Valid() && |slots| == |old(slots)|
      ensures forall i | 0 <= i < SLOTS :: slots[i] == old(slots)[i].(open := false)
      ensures k.log == old(k.log) + Ends(old(slots))
    {
      hide Accounted, Cached, FastSlot.Whole;
      SlotKnown(0);
      var i := 0;
      while i < SLOTS
        invariant 0 <= i <= SLOTS && Valid() && |slots| == |old(slots)| == SLOTS
        invariant forall j | 0 <= j < i :: slots[j] == old(slots)[j].(open := false)
        invariant forall j | i <= j < SLOTS :: slots[j] == old(slots)[j]
        invariant k.log == old(k.log) + Ends(old(slots)[..i])
      {
        assert old(slots)[..i + 1][..i] == old(slots)[..i];
        CloseWindow(i);
        i := i + 1;
      }
      assert old(slots)[..SLOTS] == old(slots);
    }

    /** fast_sync_begin: at most this slot's window is open afterwards. */
    method FastSyncBegin(i: nat)
      requires Valid() && i < SLOTS
      modifies this`slots, k`fds, k`log, k`holdings
      ensures Valid() && |slots| == |old(slots)|
      ensures forall j | 0 <= j < SLOTS && j != i :: slots[j] == old(slots)[j].(open := false)
      ensures slots[i] == old(slots)[i].(open := slots[i].open)
      ensures k.log == old(k.log) + Ends(old(slots)) + if slots[i].fd >= 0 then [Start(slots[i].fd, slots[i].open)]
            else []
    {
      hide HandlesHeld, FdsHeld, ViewsHeld, Windows, Books, CacheSound, Buffered, MemoSound, Agrees;
      FastSyncClose();
      SlotHas(i);
      if slots[i].fd >= 0 {
        ghost var before := k.holdings;
        var ok := k.SyncStart(slots[i].fd, Slot(i));
        SlotChanges(virtio, before, slots, privs, seen, i, slots[i].(open := ok), k.holdings[Slot(i)], seen[i]);
        assert seen[i := seen[i]] == seen;
        slots := slots[i := slots[i].(open := ok)];
      }
    }

    /** Everything slot i holds is given back, its window first. */
    method ReleaseSlot(i: nat)
      requires Valid() && i < SLOTS
      modifies this`slots, k`handles, k`fds, k`log, k`views, k`holdings
      ensures Valid() && slots == old(slots)[i := UNUSED] && old(k.log) <= k.log
    {
      hide HandlesHeld, FdsHeld, ViewsHeld, Windows, Books, CacheSound, Buffered, MemoSound, Agrees, Ends, Bounded;
      SlotHas(i);
      CloseWindow(i);
      SlotHas(i);
      ghost var before := k.holdings;
      var s := slots[i];
      if s.view != 0 { k.Munmap(s.view, Slot(i)); }
      if s.fd >= 0 { k.CloseFd(s.fd, Slot(i)); }
      k.GemClose(s.gem, Slot(i));
      SlotChanges(virtio, before, slots, privs, seen, i, UNUSED, k.holdings[Slot(i)], seen[i]);
      assert k.holdings == before[Slot(i) := k.holdings[Slot(i)]];
      assert seen[i := seen[i]] == seen;
      slots := slots[i := UNUSED];
    }

    /** drmtap_fast_cleanup. */
    method FastCleanup()
      requires Valid()
      modifies this`slots, this`fastPlane, this`lastFb, this`initialized, this`noCpuMap, k`handles, k`fds, k`log
      modifies k`views, k`holdings
      ensures old(k.log) <= k.log
      ensures Valid() && !initialized && lastFb == 0 && !noCpuMap
      ensures forall i | 0 <= i < SLOTS :: slots[i] == UNUSED
    {
      hide Books, CacheSound, Buffered, MemoSound;
      ReleaseSlots();
      fastPlane, lastFb, initialized, noCpuMap := 0, 0, false, false;
    }

    /** Every slot is given back, its window first. */
    method ReleaseSlots()
      requires Valid()
      modifies this`slots, k`handles, k`fds, k`log, k`views, k`holdings
      ensures old(k.log) <= k.log
      ensures Valid() && forall i | 0 <= i < SLOTS :: slots[i] == UNUSED
    {
      hide Accounted, Cached, Ends;
      FastSyncClose();
      SlotKnown(0);
      var i := 0;
      while i < SLOTS
        invariant 0 <= i <= SLOTS && Valid() && |slots| == SLOTS && old(k.log) <= k.log
        invariant forall j | 0 <= j < i :: slots[j] == UNUSED
      {
        ReleaseSlot(i);
        i := i + 1;
      }
    }

    lemma SlotKnown(i: nat)
      requires Cached() && i < SLOTS
      ensures |slots| == |seen| == SLOTS && slots[i].Whole()
    {}

    /** The slot already holding fb, else an unused one, else slot 0, whatever its age, released. */
    method FindOrAllocSlot(fb: u32) returns (i: nat)
      requires Valid() && fb != 0
      modifies this`slots, k`handles, k`fds, k`log, k`views, k`holdings
      ensures Valid() && i < SLOTS
      ensures slots[i].fb == fb || (slots[i] == UNUSED && forall j | 0 <= j < SLOTS :: slots[j].fb != fb)
      ensures (exists j | 0 <= j < SLOTS :: old(slots)[j].fb == fb) ==> slots == old(slots)
      ensures (exists j | 0 <= j < SLOTS :: old(slots)[j].fb == 0) ==> slots == old(slots)
      ensures (forall j | 0 <= j < SLOTS :: old(slots)[j].fb !in {0, fb}) ==> i == 0 && slots == old(slots)[0 := UNUSED]
      ensures old(k.log) <= k.log
    {
      hide Books, CacheSound, Buffered, MemoSound;
      SlotHas(0);
      i := 0;
      while i < SLOTS
        invariant 0 <= i <= SLOTS && forall j | 0 <= j < i :: slots[j].fb != fb
      {
        if slots[i].fb == fb { return; }
        i := i + 1;
      }
      i := 0;
      while i < SLOTS
        invariant 0 <= i <= SLOTS && forall j | 0 <= j < i :: slots[j].fb != 0
      {
        if slots[i].fb == 0 {
          SlotHas(i);
          return;
        }
        i := i + 1;
      }
      i := 0;
      ReleaseSlot(0);
    }

    /** fast_slot_restage_planes. */
    method RestagePlanes(i: nat)
      requires |slots| == SLOTS && i < SLOTS
      modifies this`planes
      ensures planes == slots[i].planes
    {
      planes := slots[i].planes;
    }

    // ---- calls out of the capture path ----

    /** Either no pixels, or a mapping or the receive buffer with so many bytes. */
    ghost predicate Backed(data: nat, size: nat)
      reads this`pixelBuf, this`pixelSize, k`views
    {
      data == 0 || (data in k.views && size <= k.views[data].size) || (data == pixelBuf && size <= pixelSize)
    }

    /** The conversions, as far as the capture path can tell. */
    method Process(data: nat, v: Frame, force: bool) returns (ret: int, v': Frame)
      requires v.data == data && Bounded(v.width, v.height, v.stride) && Backed(data, v.stride * v.height)
      modifies this`call, this`made, k`faults
      ensures call == Call(data, v.fd, v.width, v.height, v.stride, v.format, v.modifier, v.fb, planes, force)
      ensures AutoProcess.Outcome(data != 0, force, v.fd >= 0, AutoProcess.IsLinear(v.modifier, egl), ret, v'.data != 0)
      ensures ret != 0 ==> v' == v
      ensures v' == v.(data := v'.data, stride := v'.stride, format := v'.format)
      ensures ret == 0 ==> Finished(v')
      ensures made.bo == if v.fd in k.fds then k.fds[v.fd].bo else 0
      ensures k.faults == old(k.faults) + if ret != 0 then 1 else 0
    {
      call := Call(data, v.fd, v.width, v.height, v.stride, v.format, v.modifier, v.fb, planes, force);
      var linear := AutoProcess.IsLinear(v.modifier, egl);
      var out: nat, stride: u32, format: u32 := *, *, *;
      ret, v' := 0, v.(data := out, stride := stride, format := format);
      ghost var bo := if v.fd in k.fds then k.fds[v.fd].bo else 0;
      made := Made(out, stride, format, bo);
      if !AutoProcess.Outcome(data != 0, force, v.fd >= 0, linear, 0, out != 0)
         || (out != 0 && !AutoProcess.Labels(out == data, v.modifier, v.width, v.stride, v.format, stride, format))
         || (data != 0 && out == data && (force || v.modifier !in {0, 0x00ff_ffff_ffff_ffff})) {
        v', made := v, Made(data, v.stride, v.format, bo);
        if !(data == 0 && !force && (v.fd < 0 || linear)) {
          ret := ENOTSUP;
          k.faults := k.faults + 1;
        }
      }
    }

    /**
     The frame is what the conversions made of the call: a real tiling or a forced readback never comes
     back as its raw mapping, and what does come back raw is relabelled in nothing.
     */
    ghost predicate Finished(frame: Frame)
      reads this`call, this`made
    {
      && frame.data == made.data && frame.stride == made.stride && frame.format == made.format
      && frame.width == call.width && frame.height == call.height
      && frame.modifier == call.modifier && frame.fb == call.fb
      && (frame.data != 0 ==>
            AutoProcess.Labels(frame.data == call.data, call.modifier, call.width, call.stride, call.format,
                               frame.stride, frame.format))
      && (call.data != 0 && (call.force || call.modifier !in {0, 0x00ff_ffff_ffff_ffff}) ==> frame.data != call.data)
    }

    /** The width actually scanned out, by the CRTC as it is read now or as remembered for it. */
    method ScanoutWidth(fbWidth: u32, modifier: u64, ghost height: u32, ghost stride: u32) returns (w: u32)
      requires Cached()
      modifies this`memo, this`display
      ensures Cached()
      ensures w == Decided(old(memo), display, fbWidth, modifier)
      ensures w <= fbWidth && (fbWidth > 0 ==> w > 0) && (w < fbWidth ==> modifier in {0, 0x00ff_ffff_ffff_ffff})
      ensures Bounded(fbWidth, height, stride) ==> w > 0 && Bounded(w, height, stride)
    {
      hide CacheSound, Buffered, MemoSound;
      var crtc: Display := *;
      display := crtc;
      KeptSound(memo, crtc, fbWidth, modifier);
      w := Decided(memo, crtc, fbWidth, modifier);
      memo := Kept(memo, crtc, fbWidth, modifier);
      if Bounded(fbWidth, height, stride) { NarrowerBounded(w, fbWidth, height, stride); }
    }

    /** The connector's HDR metadata, whatever it is now. */
    method ReadHdr()
      modifies this`hdr, this`connector
      ensures hdr == connector
    {
      var eotf: u32, nits: u32 := *, *;
      hdr := Hdr(eotf, nits);
      connector := hdr;
    }

    /** The framebuffer on a plane now; 0 for none, or when the plane is gone. */
    method PlaneFb(plane: nat) returns (fb: u32)
      modifies this`scanned, k`faults
      ensures fb == scanned && k.faults == old(k.faults) + (if fb == 0 then 1 else 0) && (plane == 0 ==> fb == 0)
    {
      fb := *;
      if plane == 0 { fb := 0; }
      scanned := fb;
      if fb == 0 { k.faults := k.faults + 1; }
    }

    /** The plane to capture and the framebuffer on it now. */
    method CurrentFb() returns (ret: int, plane: nat, fb: u32)
      modifies this`hdr, this`connector, this`scanned, k`faults
      ensures hdr == connector && ret in {0, ENODEV} && (ret == 0 ==> fb != 0 && fb == scanned)
      ensures k.faults == old(k.faults) + if ret != 0 then 1 else 0
    {
      plane := *;
      ReadHdr();
      fb := PlaneFb(plane);
      ret := if plane == 0 || fb == 0 then ENODEV else 0;
    }

    /** Calls that failed so far, and memory that was refused. */
    ghost function Faults(): nat
      reads k`faults, heap`faults
    {
      k.faults + heap.faults
    }

    // ---- handles and planes ----

    lemma HoldersOf()
      requires k.Sound()
      ensures Flight in k.holdings
    {}

    /** Close every handle GetFB2 minted except the first, each once however planes share buffers. */
    method CloseAuxiliary(hs: seq<nat>)
      requires k.Sound() && |hs| == 4 && k.holdings[Flight].gems == Minted(hs)
      modifies k`handles, k`holdings
      ensures k.Sound()
      ensures k.holdings ==
              old(k.holdings)[Flight := old(k.holdings)[Flight].(gems := if hs[0] == 0 then {} else {hs[0]})]
      ensures forall h | h in k.handles :: h in old(k.handles) && k.handles[h] == old(k.handles)[h]
    {
      hide HandlesHeld, FdsHeld, ViewsHeld, Windows;
      HoldersOf();
      ghost var before := k.holdings;
      ghost var gone: set<nat> := {};
      assert Minted(hs) - gone == Minted(hs);
      var p := 1;
      while p < 4
        invariant 1 <= p <= 4 && k.Sound()
        invariant gone == (set q | 1 <= q < p :: hs[q]) - {0, hs[0]}
        invariant k.holdings == before[Flight := k.holdings[Flight]]
        invariant k.holdings[Flight] == before[Flight].(gems := Minted(hs) - gone)
        invariant forall h | h in k.handles :: h in old(k.handles) && k.handles[h] == old(k.handles)[h]
      {
        var h := hs[p];
        if h != 0 && h != hs[0] {
          var dup := false;
          var q := 1;
          while q < p
            invariant 1 <= q <= p && (dup <==> exists r :: 1 <= r < q && hs[r] == h)
          {
            if hs[q] == h { dup := true; }
            q := q + 1;
          }
          assert dup ==> gone + {h} == gone;
          if !dup {
            assert h in Minted(hs) && h !in gone;
            k.GemClose(h, Flight);
            assert Minted(hs) - gone - {h} == Minted(hs) - (gone + {h});
          }
          gone := gone + {h};
        }
        p := p + 1;
      }
      assert Minted(hs) - gone == if hs[0] == 0 then {} else {hs[0]};
    }

    /** Cache the plane layout for the conversions. */
    method StagePlanes(fb: Fb, hs: seq<nat>)
      requires fb.Shaped() && |hs| == 4
      modifies this`planes
      ensures planes.pitches == fb.pitches && planes.offsets == fb.offsets
      ensures forall present | |present| == 4 && (forall p | 0 <= p < 4 :: hs[p] != 0 <==> present[p]) ::
                planes.count == PlaneCount(InUse(present, fb.pitches))
      ensures planes.count <= 4 && (fb.pitches[0] != 0 ==> planes.count > 0)
    {
      ghost var marks := seq(4, p requires 0 <= p < 4 => hs[p] != 0);
      ghost var used := InUse(marks, fb.pitches);
      var count := 0;
      var p := 0;
      while p < 4
        invariant 0 <= p <= 4 && count == PlaneCount(used[..p])
      {
        assert used[..p + 1][..p] == used[..p] && used[..p + 1][p] == used[p];
        if hs[p] != 0 || fb.pitches[p] != 0 { count := p + 1; }
        p := p + 1;
      }
      assert used[..4] == used;
      if fb.pitches[0] != 0 { assert used[0]; }
      forall present: seq<bool> | |present| == 4 && (forall p | 0 <= p < 4 :: hs[p] != 0 <==> present[p])
        ensures present == marks
      {}
      planes := Planes(count, fb.pitches, fb.offsets);
    }

    // ---- frames ----

    lemma FrameHas(p: nat)
      requires Books(k.holdings, slots, privs) && p in privs
      ensures p != 0 && Frame(p) in k.holdings
      ensures k.holdings[Frame(p)].Has(privs[p].Gems(), privs[p].fd, privs[p].view, privs[p].open)
      ensures (privs[p].open ==> privs[p].view != 0) && (privs[p].view != 0 ==> privs[p].size > 0)
    {}

    /** calloc a private record and move what is in flight into it; on failure nothing moves. */
    method AdoptIntoFrame(priv: Priv) returns (p: nat)
      requires Accounted(priv.Gems(), priv.fd, priv.view, priv.open) && Cached()
      requires (priv.open ==> priv.view != 0) && (priv.view != 0 ==> priv.size > 0)
      modifies this`privs, k`handles, k`fds, k`views, k`holdings, k`faults
      ensures k.faults == old(k.faults) + if p == 0 then 1 else 0
      ensures p == 0 ==>
                && Accounted(priv.Gems(), priv.fd, priv.view, priv.open) && Cached() && privs == old(privs)
                && k.holdings == old(k.holdings)
      ensures p != 0 ==> Valid() && p !in old(privs) && privs == old(privs)[p := priv]
      ensures p != 0 ==> Frame(p) in k.holdings && k.holdings[Frame(p)] == old(k.holdings)[Flight]
    {
      hide HandlesHeld, FdsHeld, ViewsHeld, Windows, Books, CacheSound, Buffered, MemoSound, FastSlot.Whole;
      p := *;
      if p in privs { p := 0; }
      if p == 0 {
        k.faults := k.faults + 1;
        return;
      }
      HoldersKnown();
      ghost var was := k.holdings;
      k.Enroll(Frame(p));
      k.Adopt(Frame(p));
      FrameChanges(virtio, was, slots, privs, seen, p, priv, was[Flight]);
      FlightChanges(virtio, was[Frame(p) := was[Flight]], slots, privs[p := priv], seen, NOTHING);
      assert k.holdings == was[Frame(p) := was[Flight]][Flight := NOTHING];
      privs := privs[p := priv];
    }

    lemma HoldersKnown()
      requires Books(k.holdings, slots, privs)
      ensures forall p :: Frame(p) in k.holdings <==> p in privs
    {}

    /** Free a private record that no longer holds anything. */
    method FreeFrame(p: nat, ghost priv: Priv)
      requires k.Sound() && Frame(p) in k.holdings && k.holdings[Frame(p)].Empty()
      requires k.holdings[Flight].Empty() && p in privs && Buffered() && MemoSound(memo)
      requires Books(k.holdings[Frame(p) := NOTHING], slots, privs[p := priv])
      requires CacheSound(virtio, slots, seen, k.holdings[Frame(p) := NOTHING])
      requires !initialized ==> forall i | 0 <= i < SLOTS :: slots[i] == UNUSED
      modifies this`privs, k`holdings
      ensures Valid() && privs == old(privs) - {p}
    {
      hide HandlesHeld, FdsHeld, ViewsHeld, Windows, Books, CacheSound, Buffered, MemoSound;
      FrameGoes(virtio, k.holdings[Frame(p) := NOTHING], slots, privs[p := priv], seen, p);
      assert k.holdings[Frame(p) := NOTHING] - {Frame(p)} == k.holdings - {Frame(p)};
      assert privs[p := priv] - {p} == privs - {p};
      k.Retire(Frame(p));
      privs := privs - {p};
    }

    /** drmtap_frame_release: the window, the mapping, the descriptor and the handle, then the record. */
    method FrameRelease(frame: Frame) returns (frame': Frame)
      requires Valid() && (frame.priv != 0 ==> frame.priv in privs)
      modifies this`privs, k`handles, k`fds, k`log, k`views, k`holdings
      ensures Valid() && frame' == BLANK && privs == old(privs) - {frame.priv}
    {
      hide HandlesHeld, FdsHeld, ViewsHeld, Windows, Books, CacheSound, Buffered, MemoSound, FastSlot.Whole, Bounded;
      frame' := BLANK;
      var p := frame.priv;
      if p == 0 {
        NoFrameZero();
        return;
      }
      FrameHas(p);
      ghost var was := k.holdings;
      var priv := privs[p];
      if priv.view != 0 && priv.size > 0 {
        if priv.open && priv.fd >= 0 { k.SyncEnd(priv.fd, Frame(p)); }
        k.Munmap(priv.view, Frame(p));
      }
      FdNeedsHolder(p);
      if priv.fd >= 0 { k.CloseFd(priv.fd, Frame(p)); }
      k.GemClose(priv.gem, Frame(p));
      assert k.holdings == was[Frame(p) := k.holdings[Frame(p)]];
      FrameChanges(virtio, was, slots, privs, seen, p, Priv(-1, 0, 0, 0, false), NOTHING);
      assert k.holdings[Frame(p) := NOTHING] == was[Frame(p) := NOTHING];
      FreeFrame(p, Priv(-1, 0, 0, 0, false));
    }

    lemma NoFrameZero()
      requires Valid()
      ensures 0 !in privs && privs - {0} == privs
    {}

    /** A window is only ever open on a descriptor. */
    lemma FdNeedsHolder(p: nat)
      requires k.Sound() && Frame(p) in k.holdings
      ensures k.holdings[Frame(p)].fd >= -1 && (k.holdings[Frame(p)].open ==> k.holdings[Frame(p)].fd >= 0)
    {}

    // ---- acquiring a framebuffer ----

    function GemSet(gem: nat): set<nat> { if gem == 0 then {} else {gem} }

    /** GetFB2, keeping only the first handle. */
    method GetFb(id: u32) returns (ok: bool, fb: Fb, hs: seq<nat>)
      requires Valid()
      modifies k`handles, k`holdings, k`faults
      ensures k.faults == old(k.faults) + if ok then 0 else 1
      ensures !ok ==> Valid()
      ensures ok ==> id in k.fbs && fb == k.fbs[id] && fb.Shaped() && |hs| == 4
      ensures ok ==> Accounted(GemSet(hs[0]), -1, 0, false) && Cached()
      ensures ok && hs[0] != 0 ==> hs[0] in k.handles && k.handles[hs[0]].bo == fb.bo && forall p | 0 <= p < 4 ::
          hs[p] != 0 <==> fb.present[p]
    {
      hide HandlesHeld, FdsHeld, ViewsHeld, Windows, Books, CacheSound, Buffered, MemoSound;
      ghost var was := k.holdings;
      ok, fb, hs := k.GetFB2(id);
      if !ok { return; }
      ghost var mid := k.handles;
      CloseAuxiliary(hs);
      FlightChanges(virtio, was, slots, privs, seen, k.holdings[Flight]);
      assert k.holdings == was[Flight := k.holdings[Flight]];
      if hs[0] != 0 { HandleLive(hs[0]); }
    }

    lemma HandleLive(h: nat)
      requires k.Sound() && Flight in k.holdings && h in k.holdings[Flight].gems
      ensures h in k.handles && (k.holdings[Flight].fd >= 0 ==> k.handles[h].bo == k.holdings[Flight].bo)
    {}

    /** Close the handle in flight, if there is one. */
    method DropGem(gem: nat)
      requires Accounted(GemSet(gem), -1, 0, false) && Cached()
      modifies k`handles, k`holdings
      ensures Valid()
    {
      hide HandlesHeld, FdsHeld, ViewsHeld, Windows, Books, CacheSound, Buffered, MemoSound;
      FlightChanges(virtio, k.holdings, slots, privs, seen, k.holdings[Flight].(gems := {}));
      assert k.holdings[Flight].gems - {gem} == {};
      k.GemClose(gem, Flight);
    }

    /** Bound the geometry, then stage the planes; refused geometry gives the handle back. */
    method CheckAndStage(fb: Fb, hs: seq<nat>) returns (ret: int)
      requires fb.Shaped() && |hs| == 4 && Accounted(GemSet(hs[0]), -1, 0, false) && Cached()
      modifies this`planes, k`handles, k`holdings
      ensures ret <= 0 && (ret == 0 <==> Bounded(fb.width, fb.height, fb.pitches[0]))
      ensures ret != 0 ==> Valid()
      ensures ret == 0 ==> Accounted(GemSet(hs[0]), -1, 0, false) && Cached() && k.handles == old(k.handles)
      ensures ret == 0 && (forall p | 0 <= p < 4 :: hs[p] != 0 <==> fb.present[p]) ==> planes == PlanesOf(fb)
      ensures ret == 0 ==> Staged() && planes.pitches == fb.pitches && planes.offsets == fb.offsets
    {
      hide HandlesHeld, FdsHeld, ViewsHeld, Windows, Books, CacheSound, Buffered, MemoSound;
      ret := ValidateFbDims(fb.width, fb.height);
      if ret == 0 { ret := ValidateFbSize(fb.pitches[0], fb.height); }
      if ret != 0 {
        DropGem(hs[0]);
        return;
      }
      StagePlanes(fb, hs);
    }

    /** At least the main plane is staged, and its pitch. */
    ghost predicate Staged()
      reads this`planes
    {
      1 <= planes.count <= 4 && |planes.pitches| == |planes.offsets| == 4 && planes.pitches[0] != 0
    }

    // ---- the slow path, with privilege ----

    /** Nothing adopted the descriptor and handle in flight: close both. */
    method DropExport(gem: nat, fd: int)
      requires gem != 0 && fd >= 0 && Accounted({gem}, fd, 0, false) && Cached()
      modifies k`handles, k`fds, k`holdings
      ensures Valid()
    {
      hide HandlesHeld, FdsHeld, ViewsHeld, Windows, Books, CacheSound, Buffered, MemoSound;
      FlightChanges(virtio, k.holdings, slots, privs, seen, k.holdings[Flight].(gems := {}, fd := -1));
      ghost var was := k.holdings;
      k.CloseFd(fd, Flight);
      k.GemClose(gem, Flight);
      assert was[Flight].gems - {gem} == {};
      assert k.holdings == was[Flight := was[Flight].(gems := {}, fd := -1)];
    }

    /** Map a frame's buffer and note it. */
    method MapView(p: nat, size: nat, base: Base) returns (view: nat)
      requires Valid() && p in privs && privs[p].fd >= 0 && privs[p].view == 0 && !privs[p].open && size > 0
      requires base.Dumb? ==> privs[p].gem != 0
      modifies this`privs, k`views, k`holdings, k`faults
      ensures k.faults == old(k.faults) + if view == 0 then 1 else 0
      ensures Valid()
      ensures view == 0 ==> privs == old(privs) && k.holdings == old(k.holdings)
      ensures view != 0 ==> privs == old(privs)[p := old(privs)[p].(view := view, size := size)]
      ensures view != 0 ==>
                && Frame(p) in k.holdings && view in k.views
                && k.views[view] == View(Frame(p), k.holdings[Frame(p)].bo, size, base)
      ensures Frame(p) in k.holdings && Frame(p) in old(k.holdings)
      ensures k.holdings[Frame(p)].bo == old(k.holdings)[Frame(p)].bo
    {
      hide HandlesHeld, FdsHeld, ViewsHeld, Windows, Books, CacheSound, Buffered, MemoSound;
      FrameHas(p);
      ghost var was := k.holdings;
      view := k.Mmap(size, base, Frame(p));
      if view == 0 { return; }
      var priv := privs[p].(view := view, size := size);
      assert k.holdings == was[Frame(p) := k.holdings[Frame(p)]];
      FrameChanges(virtio, was, slots, privs, seen, p, priv, k.holdings[Frame(p)]);
      privs := privs[p := priv];
    }

    /** The one START of a mapped frame; whether it succeeded is kept for the release. */
    method BeginRead(p: nat)
      requires Valid() && p in privs && privs[p].fd >= 0 && privs[p].view != 0 && !privs[p].open
      modifies this`privs, k`fds, k`log, k`holdings
      ensures Valid() && p in privs && privs == old(privs)[p := old(privs)[p].(open := privs[p].open)]
      ensures k.log == old(k.log) + [Start(privs[p].fd, privs[p].open)]
      ensures Frame(p) in k.holdings && Frame(p) in old(k.holdings)
      ensures k.holdings[Frame(p)].bo == old(k.holdings)[Frame(p)].bo
    {
      hide HandlesHeld, FdsHeld, ViewsHeld, Windows, Books, CacheSound, Buffered, MemoSound;
      FrameHas(p);
      ghost var was := k.holdings;
      var ok := k.SyncStart(privs[p].fd, Frame(p));
      var priv := privs[p].(open := ok);
      FrameChanges(virtio, was, slots, privs, seen, p, priv, k.holdings[Frame(p)]);
      privs := privs[p := priv];
    }

    /**
     Frame p reads a mapping of its own buffer, from the plane's offset on, after the one START issued
     since `before`; a frame without a mapping has had none.
     */
    ghost predicate Readable(p: nat, before: seq<Act>, host: bool, offset: nat)
      reads this`privs, k`views, k`holdings, k`log
    {
      && p in privs && Frame(p) in k.holdings
      && var priv, bo := privs[p], k.holdings[Frame(p)].bo;
         if priv.view == 0 then NotStarted(before, k.log, host, bo)
         else
           && priv.view in k.views && k.views[priv.view].bo == bo && k.views[priv.view].size == priv.size
           && StartedOnce(before, k.log, host, bo, priv.fd, priv.open)
           && var base := k.views[priv.view].base;
              base == At(offset) || (host && base.Dumb? && k.log != before + [Start(priv.fd, priv.open)])
    }

    lemma FrameHandle(p: nat)
      requires Valid() && p in privs && privs[p].gem != 0 && privs[p].fd >= 0
      ensures Frame(p) in k.holdings && privs[p].gem in k.handles
      ensures k.handles[privs[p].gem].bo == k.holdings[Frame(p)].bo
    {
      hide FdsHeld, ViewsHeld, Windows, CacheSound;
      assert privs[p].gem in k.holdings[Frame(p)].gems;
    }

    /** virtio's transfer and dumb mapping, else the descriptor's own; then the START. */
    method MapScanout(p: nat, size: nat, offset: nat) returns (view: nat)
      requires Valid() && p in privs && privs[p].fd >= 0 && privs[p].gem != 0 && privs[p].view == 0 && !privs[p].open
      requires size > 0
      modifies this`privs, k`fds, k`log, k`views, k`holdings, k`faults
      ensures k.faults >= old(k.faults) + if view == 0 then 1 else 0
      ensures Valid()
      ensures view == 0 ==> privs == old(privs)
      ensures view != 0 ==>
                && p in privs
                && privs == old(privs)[p := old(privs)[p].(view := view, size := size, open := privs[p].open)]
      ensures Readable(p, old(k.log), virtio, offset)
      ensures Frame(p) in old(k.holdings) && k.holdings[Frame(p)].bo == old(k.holdings)[Frame(p)].bo
    {
      hide HandlesHeld, FdsHeld, ViewsHeld, Windows, Books, CacheSound, Buffered, MemoSound, FastSlot.Whole, Owed;
      FrameHas(p);
      view := 0;
      if virtio {
        FrameHandle(p);
        var moved := k.TransferFromHost(privs[p].gem);
        if moved == 0 { view := MapView(p, size, Dumb); }
      }
      if view == 0 { view := MapView(p, size, At(offset)); }
      if view != 0 { BeginRead(p); }
    }

    /** A descriptor the helper sent: mapped from its start, then the START. */
    method MapReceived(p: nat, size: nat) returns (view: nat)
      requires Valid() && p in privs && privs[p].fd >= 0 && privs[p].view == 0 && !privs[p].open && size > 0
      modifies this`privs, k`fds, k`log, k`views, k`holdings, k`faults
      ensures k.faults >= old(k.faults) + if view == 0 then 1 else 0
      ensures Valid()
      ensures view == 0 ==> privs == old(privs)
      ensures view != 0 ==>
                && p in privs
                && privs == old(privs)[p := old(privs)[p].(view := view, size := size, open := privs[p].open)]
      ensures Readable(p, old(k.log), false, 0)
    {
      hide HandlesHeld, FdsHeld, ViewsHeld, Windows, Books, CacheSound, Buffered, MemoSound, FastSlot.Whole;
      view := MapView(p, size, At(0));
      if view != 0 { BeginRead(p); }
    }

    /** The mapped grab of a frame that owns its export. */
    method MapAndConvert(frame: Frame, offset: nat) returns (ret: int, frame': Frame)
      requires Valid() && frame.priv in privs && frame.data == 0 && Bounded(frame.width, frame.height, frame.stride)
      requires var priv := privs[frame.priv]; priv.fd == frame.fd >= 0 && priv.gem != 0 && priv.view == 0 && !priv.open
      modifies this`privs, this`call, this`made, k`handles, k`fds, k`log, k`views, k`holdings, k`faults
      ensures k.faults >= old(k.faults) + (if ret != 0 then 1 else 0) && (ret == 0 ==> Finished(frame'))
      ensures Valid()
      ensures ret != 0 ==> privs == old(privs) - {frame.priv} && frame'.priv == 0
      ensures ret == 0 ==>
                frame'.priv == frame.priv && frame'.data != 0 && frame'.fb == frame.fb && frame'.fd == frame.fd
      ensures ret == 0 ==>
                privs.Keys == old(privs).Keys && forall q | q in privs && q != frame.priv :: privs[q] == old(privs)[q]
      ensures ret == 0 ==> Readable(frame.priv, old(k.log), virtio, offset) && call.data == privs[frame.priv].view
      ensures ret == 0 ==>
                && Frame(frame.priv) in old(k.holdings)
                && k.holdings[Frame(frame.priv)].bo == old(k.holdings)[Frame(frame.priv)].bo
      ensures ret == 0 ==> privs[frame.priv].fd == frame.fd
      ensures call == Call(call.data, frame.fd, frame.width, frame.height, frame.stride, frame.format, frame.modifier,
                           frame.fb, planes, false)
    {
      hide Accounted, Cached, Readable;
      var p := frame.priv;
      BoundedSize(frame.width, frame.height, frame.stride);
      var view := MapScanout(p, frame.stride * frame.height, offset);
      ViewOf(p, old(k.log), virtio, offset);
      frame' := frame;
      if view == 0 {
        ret, frame' := Process(0, frame, false);
        if frame'.data == 0 {
          if ret == 0 { ret := EIO; }
          frame' := FrameRelease(frame);
        }
        return;
      }
      frame' := frame.(data := view);
      ret, frame' := Process(view, frame', false);
      if ret != 0 {
        frame' := FrameRelease(frame');
      }
    }

    lemma ViewOf(p: nat, before: seq<Act>, host: bool, offset: nat)
      requires Readable(p, before, host, offset)
      ensures p in privs
      ensures (privs[p].view != 0 ==> privs[p].view in k.views && k.views[privs[p].view].size == privs[p].size)
    {}

    method GrabDirect(id: u32, fb: Fb, gem: nat, fd: int, mapped: bool) returns (ret: int, frame: Frame)
      requires gem != 0 && fd >= 0 && Accounted({gem}, fd, 0, false) && Cached() && fb.Shaped()
      requires Bounded(fb.width, fb.height, fb.pitches[0])
      requires planes == PlanesOf(fb) && k.holdings[Flight].bo == fb.bo && id in k.fbs && fb == k.fbs[id]
      modifies this`privs, this`call, this`made, this`memo, this`display
      modifies k`handles, k`fds, k`log, k`views, k`holdings, k`faults
      ensures k.faults >= old(k.faults) + if ret != 0 then 1 else 0
      ensures ret == 0 ==> frame.width == Decided(old(memo), display, fb.width, EffectiveModifier(fb))
      ensures ret == 0 ==> frame.height == fb.height
      ensures ret == 0 ==> 0 < frame.width <= fb.width
      ensures ret == 0 ==> frame.modifier == EffectiveModifier(fb)
      ensures ret == 0 && !mapped ==> frame.format == fb.format && frame.data == 0
      ensures ret == 0 && mapped ==> Finished(frame)
      ensures Valid()
      ensures ret != 0 ==> privs == old(privs) && frame.priv == 0
      ensures ret == 0 ==>
                && frame.priv !in old(privs) && frame.priv in privs && frame.fb == id && (mapped ==> frame.data != 0)
                && frame.fd >= 0
      ensures ret == 0 ==> privs - {frame.priv} == old(privs)
      ensures ret == 0 && !mapped ==> frame.stride == fb.pitches[0] && k.log == old(k.log)
      ensures ret == 0 && mapped ==> DirectServed(frame, old(k.log))
      ensures ret == 0 ==> Exported(frame, fb.bo)
    {
      hide Accounted, Cached, Readable, Bounded;
      frame := BLANK;
      var p := AdoptIntoFrame(Priv(fd, 0, 0, gem, false));
      if p == 0 {
        DropExport(gem, fd);
        return ENOMEM, frame;
      }
      var width := ScanoutWidth(fb.width, EffectiveModifier(fb), fb.height, fb.pitches[0]);
      frame := FrameInfo(0, fd, width, fb.height, fb.pitches[0], fb.format, EffectiveModifier(fb), id, p);
      ret := 0;
      if mapped {
        ret, frame := MapAndConvert(frame, fb.offsets[0]);
        if ret == 0 { HolderOf(p, old(k.log), virtio, fb.offsets[0]); }
      }
      if ret == 0 { FrameFd(p); }
      assert privs - {p} == old(privs);
    }

    /** The frame's descriptor is its record's, and of this buffer. */
    ghost predicate Exported(frame: Frame, bo: nat)
      reads this`privs, k`fds
    {
      && frame.priv in privs && privs[frame.priv].fd == frame.fd >= 0
      && frame.fd in k.fds && k.fds[frame.fd].bo == bo
    }

    lemma FlightFd(gems: set<nat>, fd: int, open: bool)
      requires fd >= 0 && Accounted(gems, fd, 0, open)
      ensures fd in k.fds && k.fds[fd].bo == k.holdings[Flight].bo
    {
      hide HandlesHeld, ViewsHeld, Windows, Books;
      HoldersOf();
    }

    lemma FrameFd(p: nat)
      requires Valid() && p in privs && privs[p].fd >= 0
      ensures Frame(p) in k.holdings && privs[p].fd in k.fds && k.fds[privs[p].fd].bo == k.holdings[Frame(p)].bo
    {
      hide HandlesHeld, ViewsHeld, Windows, CacheSound;
      FrameHas(p);
    }

    lemma HolderOf(p: nat, before: seq<Act>, host: bool, offset: nat)
      requires Readable(p, before, host, offset)
      ensures Frame(p) in k.holdings
    {}

    // ---- the slow path through the helper ----

    /** calloc a private record that holds nothing yet. */
    method NewFrame(ghost fd: int) returns (p: nat)
      requires Accounted({}, fd, 0, false) && Cached()
      modifies this`privs, k`holdings, k`faults
      ensures k.faults == old(k.faults) + if p == 0 then 1 else 0
      ensures Accounted({}, fd, 0, false) && Cached() && (p == 0 ==> privs == old(privs))
      ensures p != 0 ==> p !in old(privs) && privs == old(privs)[p := Priv(-1, 0, 0, 0, false)]
    {
      hide HandlesHeld, FdsHeld, ViewsHeld, Windows, Books, CacheSound, Buffered, MemoSound, FastSlot.Whole;
      p := *;
      if p in privs { p := 0; }
      if p == 0 {
        k.faults := k.faults + 1;
        return;
      }
      HoldersKnown();
      FrameChanges(virtio, k.holdings, slots, privs, seen, p, Priv(-1, 0, 0, 0, false), NOTHING);
      k.Enroll(Frame(p));
      privs := privs[p := Priv(-1, 0, 0, 0, false)];
    }

    /** The descriptor in flight becomes the frame's. */
    method TakeFd(p: nat, fd: int)
      requires fd >= 0 && Accounted({}, fd, 0, false) && Cached() && p in privs && privs[p] == Priv(-1, 0, 0, 0, false)
      modifies this`privs, k`handles, k`fds, k`views, k`holdings
      ensures Valid() && privs == old(privs)[p := Priv(fd, 0, 0, 0, false)]
    {
      hide HandlesHeld, FdsHeld, ViewsHeld, Windows, Books, CacheSound, Buffered, MemoSound, FastSlot.Whole;
      FrameHas(p);
      ghost var was := k.holdings;
      var priv := Priv(fd, 0, 0, 0, false);
      k.Adopt(Frame(p));
      FrameChanges(virtio, was, slots, privs, seen, p, priv, was[Flight]);
      FlightChanges(virtio, was[Frame(p) := was[Flight]], slots, privs[p := priv], seen, NOTHING);
      assert k.holdings == was[Frame(p) := was[Flight]][Flight := NOTHING];
      privs := privs[p := priv];
    }

    /** Close the received descriptor, if one came. */
    method DropFd(fd: int)
      requires Accounted({}, fd, 0, false) && Cached() && fd >= -1
      modifies k`fds, k`holdings
      ensures Valid()
    {
      hide HandlesHeld, FdsHeld, ViewsHeld, Windows, Books, CacheSound, Buffered, MemoSound;
      FlightChanges(virtio, k.holdings, slots, privs, seen, k.holdings[Flight].(fd := -1));
      if fd >= 0 { k.CloseFd(fd, Flight); }
    }

    /** free(priv) for a record that never came to hold anything. */
    method DropFrame(p: nat)
      requires Valid() && p in privs && privs[p] == Priv(-1, 0, 0, 0, false)
      modifies this`privs, k`holdings
      ensures Valid() && privs == old(privs) - {p}
    {
      hide HandlesHeld, FdsHeld, ViewsHeld, Windows, Books, CacheSound, Buffered, MemoSound;
      FrameHas(p);
      FrameGoes(virtio, k.holdings, slots, privs, seen, p);
      k.Retire(Frame(p));
      privs := privs - {p};
    }

    /** The helper's descriptor, mapped here if it can be. */
    method GrabHelperFd(p: nat, fd: int, rep: Report, frame: Frame, mapped: bool)
      returns (ret: int, frame': Frame, ghost route: Route)
      requires fd >= 0 && Accounted({}, fd, 0, false) && Cached() && p in privs && privs[p] == Priv(-1, 0, 0, 0, false)
      requires ReportVerdict(rep) == 0 && frame == FrameOf(rep)
      modifies this`privs, this`call, this`made, k`handles, k`fds, k`log, k`views, k`holdings, k`faults
      ensures k.faults >= old(k.faults) + (if ret != 0 then 1 else 0) && (ret == 0 && mapped ==> Finished(frame'))
      ensures Valid() && route.HelperFd? && route.virgl == rep.virgl
      ensures ret != 0 ==> privs == old(privs) - {p} && frame'.priv == 0
      ensures ret == 0 ==>
                frame'.priv == p && frame'.fb == frame.fb && frame'.modifier == frame.modifier && frame'.fd == fd
      ensures ret == 0 ==> privs.Keys == old(privs).Keys && forall q | q in privs && q != p :: privs[q] == old(privs)[q]
      ensures ret == 0 ==> SaneReport(rep, frame', mapped) && Readable(p, old(k.log), false, 0)
      ensures ret == 0 ==> p in privs && privs[p].fd == fd && frame'.width == frame.width && (mapped ==> call.fd == fd)
      ensures ret == 0 ==> (route.viewed <==> privs[p].view != 0)
      // a host-side scanout is never taken from its CPU mapping
      ensures ret == 0 && mapped ==> call.data == privs[p].view && call.force == rep.virgl
      // success without pixels: a linear frame that could not be mapped
      ensures ret == 0 && mapped ==>
                (frame'.data == 0 <==> !route.viewed && !route.virgl && AutoProcess.IsLinear(frame.modifier, egl))
      ensures mapped && !route.viewed && !route.virgl && AutoProcess.IsLinear(frame.modifier, egl) ==>
                ret == 0 && frame'.data == 0
    {
      hide Accounted, Cached, Readable, AutoProcess.IsLinear;
      hide Finished, RowsFit;
      TakeFd(p, fd);
      ghost var kept := privs;
      BoundedSize(rep.width, rep.height, rep.stride);
      var view := MapReceived(p, rep.stride * rep.height);
      ViewOf(p, old(k.log), false, 0);
      frame' := frame.(data := view, fd := fd, priv := p);
      route := HelperFd(rep.virgl, view != 0);
      ret := 0;
      if mapped {
        ret, frame' := Process(view, frame', rep.virgl);
        if ret != 0 {
          frame' := FrameRelease(frame');
          assert privs == old(privs) - {p};
        }
      }
    }

    /** The frame a report describes, before its pixels are there. */
    function FrameOf(rep: Report): Frame {
      ZEROED.(width := rep.width, height := rep.height, stride := rep.stride, format := rep.format,
              modifier := rep.modifier, fb := rep.fb)
    }

    /** The reported frame, narrowed and checked, is what the conversions or the caller got. */
    ghost predicate SaneReport(rep: Report, frame: Frame, mapped: bool)
      reads this`call
    {
      if mapped then
        && call.width <= rep.width && call.height == rep.height && call.stride == rep.stride
        && call.format == rep.format
        && call.modifier == rep.modifier && call.fb == rep.fb && Sane(call.width, call.height, call.stride, call.format)
      else
        && frame.width <= rep.width && frame.height == rep.height && frame.stride == rep.stride
        && frame.format == rep.format
        && frame.modifier == rep.modifier && frame.fb == rep.fb
        && Sane(frame.width, frame.height, frame.stride, frame.format)
    }

    /** The receive buffer begins with exactly the payload. */
    ghost predicate Received()
      reads this`pixelBuf, this`received, heap`blocks
    {
      && pixelBuf in heap.blocks && |received| <= |heap.blocks[pixelBuf]|
      && heap.blocks[pixelBuf][..|received|] == received
    }

    /** The helper's pixels, already in the receive buffer: exactly one frame, so no older bytes show. */
    method GrabHelperPixels(p: nat, rep: Report, frame: Frame, mapped: bool) returns (ret: int, frame': Frame)
      requires Valid() && p in privs && privs[p] == Priv(-1, 0, 0, 0, false)
      requires ReportVerdict(rep) == 0 && frame == FrameOf(rep)
      requires pixelBuf != 0 && Received() && |received| == rep.size
      modifies this`privs, this`call, this`made, k`handles, k`fds, k`log, k`views, k`holdings, k`faults
      ensures k.faults >= old(k.faults) && (ret == 0 && mapped ==> Finished(frame'))
      ensures |received| == rep.stride * rep.height && k.faults == old(k.faults) ==> ret == 0
      ensures Valid()
      ensures ret != 0 ==> privs == old(privs) - {p} && frame'.priv == 0
      ensures ret == 0 ==>
                privs == old(privs) && frame'.priv == p && frame'.data != 0 && frame'.fd == -1 && frame'.fb == frame.fb
      ensures ret == 0 ==> SaneReport(rep, frame', mapped) && |received| == rep.stride * rep.height
      ensures ret == 0 ==> frame'.width == frame.width && (mapped ==> call.fd == -1)
      ensures !mapped ==>
                (ret == 0 <==> |received| == rep.stride * rep.height) && (ret == 0 ==> frame'.data == pixelBuf)
      ensures mapped && ret == 0 ==> call.data == pixelBuf && !call.force
      ensures |received| != rep.stride * rep.height ==> ret == EPROTO && call == old(call)
    {
      hide Accounted, AutoProcess.IsLinear;
      if rep.size != rep.stride * rep.height {
        DropFrame(p);
        return EPROTO, frame;
      }
      frame' := frame.(data := pixelBuf, fd := -1, priv := p);
      ret := 0;
      if mapped {
        ret, frame' := Process(pixelBuf, frame', false);
        if ret != 0 { frame' := FrameRelease(frame'); }
      }
    }

    /** One helper request: its report, and a descriptor or at most `bufSize` bytes of payload. */
    method AskHelper(bufSize: nat) returns (ok: bool, rep: Report, fd: int)
      requires Valid() && pixelBuf != 0 && bufSize <= pixelSize
      modifies this`reported, this`received, this`answered, this`offered, this`passed
      modifies heap`blocks, k`fds, k`holdings, k`faults
      ensures k.faults == old(k.faults) + (if ok then 0 else 1)
      ensures offered == bufSize && answered == ok && (ok ==> (passed <==> fd >= 0))
      ensures fd >= -1 && Accounted({}, fd, 0, false) && Cached()
      ensures !ok ==> fd == -1
      ensures ok ==> rep == reported && rep.size == |received| <= bufSize && Received()
    {
      hide Accounted, Cached, Received;
      ok := *;
      rep := Report(0, 0, 0, 0, 0, 0, false, 0, Hdr(0, 0));
      fd, answered, passed, offered := -1, ok, false, bufSize;
      if !ok { k.faults := k.faults + 1; }
      if ok {
        rep := TakeReport(bufSize);
        fd := TakePassed();
        passed := fd >= 0;
      }
    }

    /** A reply's report, with its payload put at the start of the receive buffer. */
    method TakeReport(bufSize: nat) returns (rep: Report)
      requires Valid() && pixelBuf != 0 && bufSize <= pixelSize
      modifies this`reported, this`received, heap`blocks
      ensures Valid() && rep == reported && rep.size == |received| <= bufSize && Received()
    {
      hide Accounted, CacheSound, MemoSound;
      var any: Report, pixels: seq<u8> := *, *;
      if |pixels| > bufSize || |pixels| >= TWO32 { pixels := []; }
      rep := any.(size := |pixels|);
      reported, received := rep, pixels;
      heap.Write(pixelBuf, pixels);
    }

    /** The descriptor that came with a reply, if one did. */
    method TakePassed() returns (fd: int)
      requires Valid()
      modifies k`fds, k`holdings
      ensures fd >= -1 && Accounted({}, fd, 0, false) && Cached()
    {
      hide HandlesHeld, FdsHeld, ViewsHeld, Windows, Books, CacheSound, Buffered, MemoSound;
      ghost var before := k.holdings;
      fd := k.ReceiveFd();
      FlightChanges(virtio, before, slots, privs, seen, k.holdings[Flight]);
      assert k.holdings == before[Flight := k.holdings[Flight]];
    }

    /** The reported geometry must be in bounds and its rows must hold their pixels. */
    function ReportVerdict(rep: Report): (ret: int)
      ensures ret <= 0 && (ret == 0 <==> Sane(rep.width, rep.height, rep.stride, rep.format))
    {
      if ValidateFbDims(rep.width, rep.height) != 0 then ValidateFbDims(rep.width, rep.height)
      else if ValidateFbSize(rep.stride, rep.height) != 0 then ValidateFbSize(rep.stride, rep.height)
      else if rep.width * R.MinBpp(rep.format) > rep.stride then EINVAL
      else 0
    }

    /** What a helper grab that succeeded handed to the conversions, or to the caller. */
    ghost predicate HelperServed(route: Route, frame: Frame, mapped: bool, before: seq<Act>)
      reads this`privs, this`call, this`pixelBuf, this`hdr, this`reported, this`received, heap`blocks
      reads k`views, k`holdings, k`log
    {
      && SaneReport(reported, frame, mapped) && hdr == reported.hdr
      && frame.priv in privs && frame.fd == privs[frame.priv].fd
      && (mapped ==> call.fd == frame.fd)
      && (mapped ==> call.force == (route.HelperFd? && reported.virgl))
      && (route.HelperPixels? ==>
            && |received| == reported.stride * reported.height && Received()
            && (if mapped then call.data else frame.data) == pixelBuf)
      && (route.HelperFd? ==>
            && Readable(frame.priv, before, false, 0) && (mapped ==> call.data == privs[frame.priv].view)
            && route.virgl == reported.virgl && (route.viewed <==> privs[frame.priv].view != 0))
    }

    /** The helper's report was such that a frame can be made of it. */
    ghost predicate Usable()
      reads this`reported, this`received, this`passed
    {
      && Sane(reported.width, reported.height, reported.stride, reported.format)
      && (passed || |received| == reported.stride * reported.height)
    }

    method GrabHelper(frame: Frame, bufSize: nat, mapped: bool) returns (ret: int, frame': Frame, ghost route: Route)
      requires Valid() && 0 < bufSize <= MAX_FB_BYTES
      modifies this`privs, this`call, this`made, this`memo, this`display, this`pixelBuf, this`pixelSize, this`hdr
      modifies this`reported, this`received, this`answered, this`offered, this`passed, heap, k`faults
      modifies k`handles, k`fds, k`log, k`views, k`holdings
      ensures Valid() && Faults() >= old(Faults())
      ensures (Faults() == old(Faults()) ==> answered && (Usable() ==> ret == 0)) && (ret == 0 ==> answered)
      ensures ret == 0 && mapped ==> Finished(frame')
      ensures ret != 0 ==> privs == old(privs) && frame'.priv in {0, frame.priv}
      ensures ret == 0 ==> frame'.priv !in old(privs) && frame'.priv in privs && privs - {frame'.priv} == old(privs)
      ensures ret == 0 ==> (route.HelperFd? || route.HelperPixels?) && HelperServed(route, frame', mapped, old(k.log))
      ensures ret == 0 && mapped ==> (frame'.data == 0 <==> route.Blind() && AutoProcess.IsLinear(frame'.modifier, egl))
      ensures ret == 0 ==> (frame'.fd < 0 <==> route.HelperPixels?)
      ensures (answered ==> offered == bufSize) && (ret == 0 ==> (route.HelperFd? <==> passed))
      ensures ret == 0 ==> frame'.width == Decided(old(memo), display, reported.width, reported.modifier)
    {
      hide Accounted, Cached, AutoProcess.IsLinear, HelperServed, FrameOf, Finished, Decided, Received;
      hide Usable;
      frame', route, answered := frame, NoRoute, false;
      ret := EnsureReceive(bufSize);
      if ret != 0 { return; }
      var ok, rep, fd;
      ok, rep, fd := AskHelper(bufSize);
      if !ok { return EACCES, frame.(priv := 0, fd := -1), NoRoute; }
      var p := NewFrame(fd);
      if p == 0 {
        DropFd(fd);
        return ENOMEM, frame', NoRoute;
      }
      ret, frame', route := NarrowReport(p, rep, fd, mapped);
      assert ret != 0 ==> privs == old(privs);
      assert ret == 0 ==> privs - {p} == old(privs);
    }

    /** The receive buffer, grown to hold so many bytes. */
    method EnsureReceive(size: nat) returns (ret: int)
      requires Valid() && size > 0
      modifies this`pixelBuf, this`pixelSize, heap
      ensures heap.faults >= old(heap.faults) && (heap.faults == old(heap.faults) && size <= MAX_FB_BYTES ==> ret == 0)
      ensures Valid() && (ret == 0 ==> pixelBuf != 0 && size <= pixelSize)
    {
      hide Books, CacheSound, MemoSound, HandlesHeld, FdsHeld, ViewsHeld, Windows;
      ret, pixelBuf, pixelSize := EnsureBuf(heap, pixelBuf, pixelSize, size);
    }

    /** The reported width is what the CRTC scans out, as on the direct path. */
    method NarrowReport(p: nat, rep: Report, fd: int, mapped: bool)
      returns (ret: int, frame': Frame, ghost route: Route)
      requires fd >= -1 && Accounted({}, fd, 0, false) && Cached() && p in privs && privs[p] == Priv(-1, 0, 0, 0, false)
      requires pixelBuf != 0 && Received() && |received| == rep.size && rep == reported && (passed <==> fd >= 0)
      modifies this`privs, this`call, this`made, this`memo, this`display, this`hdr
      modifies k`handles, k`fds, k`log, k`views, k`holdings, k`faults
      ensures k.faults >= old(k.faults) && (ret == 0 && mapped ==> Finished(frame'))
      ensures k.faults == old(k.faults) && Usable() ==> ret == 0
      ensures Valid()
      ensures ret != 0 ==> privs == old(privs) - {p} && frame'.priv == 0
      ensures ret == 0 ==> frame'.priv == p && privs.Keys == old(privs).Keys
      ensures ret == 0 ==> forall q | q in privs && q != p :: privs[q] == old(privs)[q]
      ensures ret == 0 ==> (route.HelperFd? || route.HelperPixels?) && HelperServed(route, frame', mapped, old(k.log))
      ensures ret == 0 && mapped ==> (frame'.data == 0 <==> route.Blind() && AutoProcess.IsLinear(frame'.modifier, egl))
      ensures ret == 0 ==> (frame'.fd < 0 <==> route.HelperPixels?)
      ensures ret == 0 ==> (route.HelperFd? <==> passed)
      ensures ret == 0 ==> frame'.width == Decided(old(memo), display, rep.width, rep.modifier)
    {
      hide Accounted, Cached, AutoProcess.IsLinear, HelperServed, Finished, Decided, Received, Sane;
      var width := ScanoutWidth(rep.width, rep.modifier, rep.height, rep.stride);
      if Sane(rep.width, rep.height, rep.stride, rep.format) {
        SaneWide(rep.width, rep.height, rep.stride, rep.format);
        NarrowerSane(width, rep.width, rep.height, rep.stride, rep.format);
      }
      ret, frame', route := UseReport(p, rep.(width := width), fd, mapped);
    }

    /** A report that passes the checks becomes a frame, from its descriptor or its payload. */
    method UseReport(p: nat, rep: Report, fd: int, mapped: bool) returns (ret: int, frame': Frame, ghost route: Route)
      requires fd >= -1 && Accounted({}, fd, 0, false) && Cached() && p in privs && privs[p] == Priv(-1, 0, 0, 0, false)
      requires pixelBuf != 0 && Received() && |received| == rep.size
      requires rep == reported.(width := rep.width) && rep.width <= reported.width
      modifies this`privs, this`call, this`made, this`hdr, k`handles, k`fds, k`log, k`views, k`holdings, k`faults
      ensures k.faults >= old(k.faults) && (ret == 0 && mapped ==> Finished(frame'))
      ensures k.faults == old(k.faults) && ReportVerdict(rep) == 0 ==>
                fd >= 0 || |received| == rep.stride * rep.height ==> ret == 0
      ensures Valid() && (ret == 0 ==> (route.HelperFd? <==> fd >= 0))
      ensures ret != 0 ==> privs == old(privs) - {p} && frame'.priv == 0
      ensures ret == 0 ==>
                && frame'.priv == p && privs.Keys == old(privs).Keys && forall q | q in privs
                && q != p :: privs[q] == old(privs)[q]
      ensures ret == 0 ==> (route.HelperFd? || route.HelperPixels?) && HelperServed(route, frame', mapped, old(k.log))
      ensures ret == 0 && mapped ==> (frame'.data == 0 <==> route.Blind() && AutoProcess.IsLinear(frame'.modifier, egl))
      ensures ret == 0 ==> (frame'.fd < 0 <==> route.HelperPixels?) && frame'.width == rep.width
    {
      hide Books, CacheSound, Buffered, MemoSound, HandlesHeld, FdsHeld, ViewsHeld, Windows, AutoProcess.IsLinear;
      hide Readable, Sane;
      hide AutoProcess.Outcome;
      frame', route := FrameOf(rep), NoRoute;
      hdr := rep.hdr;
      ret := ReportVerdict(rep);
      if ret != 0 {
        DropFd(fd);
        DropFrame(p);
        return;
      }
      if fd >= 0 {
        ret, frame', route := GrabHelperFd(p, fd, rep, frame', mapped);
      } else {
        route := HelperPixels;
        ret, frame' := GrabHelperPixels(p, rep, frame', mapped);
      }
    }

    /** Export the first handle, or settle that the helper must serve this grab. */
    method TryExport(gem: nat) returns (ret: int, fd: int, gem': nat)
      requires Accounted(GemSet(gem), -1, 0, false) && Cached()
      modifies k`handles, k`fds, k`holdings, k`faults, k`denials
      ensures k.faults == old(k.faults) + (if ret != 0 then 1 else 0) && k.denials >= old(k.denials)
      ensures ret == 0 && fd < 0 && gem != 0 ==> k.denials > old(k.denials)
      ensures ret <= 0
      ensures ret != 0 ==> Valid()
      ensures ret == 0 && fd < 0 ==> Valid() && gem' == 0
      ensures ret == 0 && fd >= 0 ==> gem' == gem != 0 && Accounted({gem}, fd, 0, false) && Cached()
      ensures ret == 0 && fd >= 0 ==> gem in old(k.handles) && k.holdings[Flight].bo == old(k.handles)[gem].bo
    {
      hide HandlesHeld, FdsHeld, ViewsHeld, Windows, Books, CacheSound, Buffered, MemoSound;
      ret, fd, gem' := 0, -1, gem;
      if gem == 0 { return; }
      HandleLive(gem);
      ghost var was := k.holdings;
      var e := k.PrimeExport(gem);
      match e {
        case Exported(f) =>
          fd := f;
          FlightChanges(virtio, was, slots, privs, seen, k.holdings[Flight]);
          assert k.holdings == was[Flight := k.holdings[Flight]];
        case Denied =>
          DropGem(gem);
          gem' := 0;
        case Failed(error) =>
          DropGem(gem);
          ret := error;
      }
    }

    /**
     The conversions got this framebuffer as it is now, and a mapping of its buffer made current by the
     one START issued since `before`; or no mapping, and no START was issued.
     */
    ghost predicate DirectServed(frame: Frame, before: seq<Act>)
      reads this`privs, this`call, k`fbs, k`views, k`holdings, k`log
    {
      && frame.fb in k.fbs && k.fbs[frame.fb].Shaped()
      && var fb := k.fbs[frame.fb];
         && call == FreshCall(fb, frame.fb, call.data, frame.fd, call.width) && call.width <= fb.width
         && Readable(frame.priv, before, virtio, fb.offsets[0]) && call.data == privs[frame.priv].view
         && k.holdings[Frame(frame.priv)].bo == fb.bo
    }

    /** The slow grab.  Whatever fails, only what unreleased frames and slots hold stays live. */
    method DoGrab(frame: Frame, mapped: bool) returns (ret: int, frame': Frame, ghost route: Route)
      requires Valid()
      modifies this`privs, this`planes, this`call, this`made, this`grabPlane, this`hdr, this`connector, this`scanned
      modifies this`memo, this`display, this`pixelBuf, this`pixelSize, this`reported, this`received, this`answered
      modifies this`offered, this`passed, heap, k`handles, k`fds, k`log, k`views, k`holdings, k`faults, k`denials
      ensures Valid()
      ensures ret != 0 ==> privs == old(privs) && frame'.priv in {0, frame.priv} && grabPlane == old(grabPlane)
      ensures ret == 0 ==> frame'.priv !in old(privs) && frame'.priv in privs && privs - {frame'.priv} == old(privs)
      // a mapped grab that succeeds has pixels, but for one case
      ensures ret == 0 && mapped ==> (frame'.data == 0 <==> route.Blind() && AutoProcess.IsLinear(frame'.modifier, egl))
      ensures ret == 0 ==> (frame'.fd < 0 <==> route.HelperPixels?)
      ensures ret == 0 ==> Staged() && (route.Direct? || HelperServed(route, frame', mapped, old(k.log)))
      // on the direct route: the framebuffer on the plane now, as it is
      ensures ret == 0 && route.Direct? ==>
                && frame'.fb == scanned && scanned in k.fbs && k.fbs[frame'.fb].Shaped()
                && var fb := k.fbs[frame'.fb];
                   && frame'.height == fb.height && 0 < frame'.width <= fb.width
                   && frame'.modifier == (if fb.hasModifiers then fb.rawModifier else 0x00ff_ffff_ffff_ffff)
                   && frame'.width == Decided(old(memo), display, fb.width, frame'.modifier)
      ensures ret == 0 && route.Direct? ==> planes == PlanesOf(k.fbs[frame'.fb])
      ensures ret == 0 && route.Direct? && !mapped ==>
                frame'.format == k.fbs[frame'.fb].format && frame'.stride == k.fbs[frame'.fb].pitches[0]
      ensures ret == 0 && route.Direct? ==> hdr == connector && (!mapped ==> frame'.stride == planes.pitches[0])
      ensures ret == 0 && mapped && route.Direct? ==> DirectServed(frame', old(k.log))
      // its descriptor is of that framebuffer's buffer
      ensures ret == 0 && route.Direct? ==> Exported(frame', k.fbs[frame'.fb].bo)
      // by the helper: the reported frame, narrowed as a direct one would be
      ensures ret == 0 && !route.Direct? ==>
                frame'.width == Decided(old(memo), display, reported.width, reported.modifier)
      // a mapped frame is what the conversions made of that
      ensures ret == 0 && mapped ==> Finished(frame')
      // which was offered room for exactly the framebuffer
      ensures answered ==>
                && scanned in k.fbs && k.fbs[scanned].Shaped()
                && offered == k.fbs[scanned].pitches[0] * k.fbs[scanned].height
      ensures ret == 0 && !route.Direct? ==> (route.HelperFd? <==> passed)
      // and it fails only if something did, or the geometry or the helper's report is out of bounds
      ensures Faults() >= old(Faults()) && (ret == 0 && !route.Direct? ==> answered)
      ensures ret != 0 && Faults() == old(Faults()) ==>
                || renderOnly || (answered && !Usable())
                || (scanned in k.fbs && k.fbs[scanned].Shaped() &&
                    var fb := k.fbs[scanned]; !Bounded(fb.width, fb.height, fb.pitches[0]))
    {
      hide Accounted, Cached, AutoProcess.IsLinear, HelperServed, DirectServed, Bounded, PlaneCount, InUse;
      hide Finished, Decided, Usable, FreshCall, Exported;
      frame', route, answered := frame, NoRoute, false;
      if renderOnly { return ENOTSUP, frame', NoRoute; }
      var found, plane, id, fb, hs;
      ret, found, plane, id, fb, hs := LookUp();
      if ret != 0 {
        if found { frame' := frame.(priv := 0, fd := -1); }
        return;
      }
      ret, frame', route := GrabStaged(id, fb, hs, frame, mapped);
      if ret == 0 { grabPlane := plane; }
    }

    /** The framebuffer on the plane now, with its geometry checked and its planes staged. */
    method LookUp() returns (ret: int, found: bool, plane: nat, id: u32, fb: Fb, hs: seq<nat>)
      requires Valid()
      modifies this`planes, this`hdr, this`connector, this`scanned, k`handles, k`holdings, k`faults
      ensures ret <= 0 && hdr == connector && k.faults >= old(k.faults)
      ensures ret != 0 ==> Valid()
      ensures ret == 0 ==> |hs| == 4 && Accounted(GemSet(hs[0]), -1, 0, false) && Cached() && Staged()
      ensures ret == 0 ==> id == scanned && id in k.fbs && fb == k.fbs[id] && fb.Shaped()
      ensures ret == 0 ==> Bounded(fb.width, fb.height, fb.pitches[0])
      ensures ret == 0 && hs[0] != 0 ==> planes == PlanesOf(fb) && hs[0] in k.handles && k.handles[hs[0]].bo == fb.bo
      ensures ret != 0 && k.faults == old(k.faults) ==>
                && scanned in k.fbs && k.fbs[scanned].Shaped()
                && var b := k.fbs[scanned]; !Bounded(b.width, b.height, b.pitches[0])
    {
      hide Accounted, Cached, Bounded, PlanesOf;
      found, fb, hs := false, NO_FB, [];
      ret, plane, id := CurrentFb();
      if ret != 0 { return; }
      found, fb, hs := GetFb(id);
      if !found {
        ret := EIO;
        return;
      }
      ret := CheckAndStage(fb, hs);
    }

    /** The grab of a framebuffer that passed the checks: exported and taken here, else the helper's. */
    method GrabStaged(id: u32, fb: Fb, hs: seq<nat>, frame: Frame, mapped: bool)
      returns (ret: int, frame': Frame, ghost route: Route)
      requires |hs| == 4 && Accounted(GemSet(hs[0]), -1, 0, false) && Cached()
      requires id in k.fbs && fb == k.fbs[id] && fb.Shaped() && Bounded(fb.width, fb.height, fb.pitches[0])
      requires hs[0] != 0 ==> planes == PlanesOf(fb) && hs[0] in k.handles && k.handles[hs[0]].bo == fb.bo
      modifies this`privs, this`call, this`made, this`hdr, this`memo, this`display, this`pixelBuf, this`pixelSize
      modifies this`reported, this`received, this`answered, this`offered, this`passed
      modifies heap, k`handles, k`fds, k`log, k`views, k`holdings, k`faults, k`denials
      ensures Valid()
      ensures ret != 0 ==> privs == old(privs) && frame'.priv in {0, frame.priv}
      ensures ret == 0 ==> frame'.priv !in old(privs) && frame'.priv in privs && privs - {frame'.priv} == old(privs)
      ensures ret == 0 && mapped ==> (frame'.data == 0 <==> route.Blind() && AutoProcess.IsLinear(frame'.modifier, egl))
      ensures ret == 0 ==> (frame'.fd < 0 <==> route.HelperPixels?) && (mapped ==> Finished(frame'))
      ensures ret == 0 && !route.Direct? ==> answered && HelperServed(route, frame', mapped, old(k.log))
      ensures ret == 0 && route.Direct? ==>
                && frame'.fb == id && frame'.height == fb.height && 0 < frame'.width <= fb.width
                && frame'.modifier == EffectiveModifier(fb) && planes == PlanesOf(fb) && hdr == old(hdr)
                && frame'.width == Decided(old(memo), display, fb.width, frame'.modifier)
      ensures ret == 0 && route.Direct? && !mapped ==> frame'.format == fb.format && frame'.stride == fb.pitches[0]
      ensures ret == 0 && mapped && route.Direct? ==> DirectServed(frame', old(k.log))
      ensures ret == 0 && route.Direct? ==> Exported(frame', fb.bo)
      ensures ret == 0 && !route.Direct? ==>
                frame'.width == Decided(old(memo), display, reported.width, reported.modifier)
      ensures !old(answered) && answered ==> offered == fb.pitches[0] * fb.height
      ensures ret == 0 && !route.Direct? ==> (route.HelperFd? <==> passed)
      ensures Faults() >= old(Faults())
      ensures ret != 0 && Faults() == old(Faults()) ==> answered && !Usable()
    {
      hide Accounted, Cached, AutoProcess.IsLinear, HelperServed, DirectServed, Bounded, PlanesOf;
      hide Finished, Decided, Usable, FreshCall, Exported;
      var fd, gem;
      ret, fd, gem := TryExport(hs[0]);
      if ret != 0 { return ret, frame.(priv := 0, fd := -1), NoRoute; }
      if fd < 0 {
        BoundedSize(fb.width, fb.height, fb.pitches[0]);
        ret, frame', route := GrabHelper(frame, fb.pitches[0] * fb.height, mapped);
      } else {
        route := Direct;
        ret, frame' := GrabDirect(id, fb, gem, fd, mapped);
      }
    }

    /** The frame's stride stands in for a missing main pitch. */
    function OrStride(pitches: seq<u32>, stride: u32): seq<u32>
      requires |pitches| == 4
    {
      if pitches[0] == 0 then pitches[0 := stride] else pitches
    }

    /** A grab that must yield a transferable descriptor; one that only has pixels is given back. */
    method GrabDesc(frame: Frame) returns (ret: int, frame': Frame, d: Desc, ghost route: Route)
      requires Valid()
      modifies this`privs, this`planes, this`call, this`made, this`grabPlane, this`hdr, this`connector, this`scanned
      modifies this`memo, this`display, this`pixelBuf, this`pixelSize, this`reported, this`received, this`answered
      modifies this`offered, this`passed, heap, k`handles, k`fds, k`log, k`views, k`holdings, k`faults, k`denials
      ensures Valid()
      ensures ret != 0 ==> privs == old(privs) && frame'.priv in {0, frame.priv} && grabPlane == old(grabPlane)
      ensures ret == 0 ==>
                && frame'.priv !in old(privs) && frame'.priv in privs && privs - {frame'.priv} == old(privs)
                && frame'.fd >= 0
      ensures ret == 0 ==>
                d == Desc(frame'.fd, frame'.width, frame'.height, frame'.format, frame'.modifier, frame'.fb,
                          d.planes, hdr)
      // the staged layout as it is: clamping its count and the pitch fallback change nothing
      ensures ret == 0 ==> d.planes == planes && Staged()
      ensures ret == 0 ==> d.hdr == if route.Direct? then connector else reported.hdr
      ensures ret == 0 && !route.Direct? ==> HelperServed(route, frame', false, old(k.log))
      ensures ret == 0 && !route.Direct? ==>
                d.width == Decided(old(memo), display, reported.width, reported.modifier)
      ensures ret == 0 && route.Direct? ==>
                && d.fb == scanned && scanned in k.fbs && k.fbs[d.fb].Shaped() && d.planes == PlanesOf(k.fbs[d.fb])
                && var fb := k.fbs[d.fb];
                   && d.height == fb.height && 0 < d.width <= fb.width && d.format == fb.format
                   && d.modifier == (if fb.hasModifiers then fb.rawModifier else 0x00ff_ffff_ffff_ffff)
                   && d.width == Decided(old(memo), display, fb.width, d.modifier)
                   && d.planes.pitches == fb.pitches && d.planes.offsets == fb.offsets
                   && Exported(frame', fb.bo)
                   && LastInUse(d.planes.count, fb)
      ensures Faults() >= old(Faults())
      ensures ret != 0 && Faults() == old(Faults()) ==>
                || renderOnly || (answered && (!Usable() || !passed))
                || (scanned in k.fbs && k.fbs[scanned].Shaped() &&
                    var fb := k.fbs[scanned]; !Bounded(fb.width, fb.height, fb.pitches[0]))
    {
      hide Accounted, Cached, DirectServed, Readable, SaneReport, Usable;
      d := Desc(-1, 0, 0, 0, 0, 0, UNUSED.planes, Hdr(0, 0));
      var before := grabPlane;
      ret, frame', route := DoGrab(frame, false);
      if ret != 0 { return; }
      if route.Direct? { PlanesCounted(k.fbs[frame'.fb]); }
      if frame'.fd < 0 {
        frame' := FrameRelease(frame');
        grabPlane := before;
        ret := ENOTSUP;
        return;
      }
      var np := if planes.count > 0 then planes.count else 1;
      if np > 4 { np := 4; }
      d := Desc(frame'.fd, frame'.width, frame'.height, frame'.format, frame'.modifier, frame'.fb,
                Planes(np, OrStride(planes.pitches, frame'.stride), planes.offsets), hdr);
    }

    // ---- the fast path ----

    /** Close the window, the mapping, the descriptor and the handle of an import no slot will keep. */
    method DropImport(gem: nat, fd: int, open: bool)
      requires gem != 0 && fd >= 0 && Accounted({gem}, fd, 0, open) && Cached()
      modifies k`handles, k`fds, k`log, k`holdings
      ensures Valid()
    {
      hide HandlesHeld, FdsHeld, ViewsHeld, Windows, Books, CacheSound, Buffered, MemoSound;
      ghost var was := k.holdings;
      FlightChanges(virtio, was, slots, privs, seen, was[Flight].(open := false));
      if open { k.SyncEnd(fd, Flight); }
      assert k.holdings == was[Flight := was[Flight].(open := false)];
      DropExport(gem, fd);
    }

    /** virtio's dumb mapping, else a START and the mapping itself; learns when no mapping will ever work. */
    method MapImport(gem: nat, fd: int, size: nat, offset: nat) returns (view: nat, open: bool)
      requires gem != 0 && fd >= 0 && Accounted({gem}, fd, 0, false) && Cached() && size > 0
      modifies this`noCpuMap, k`fds, k`log, k`views, k`holdings, k`faults
      ensures k.faults >= old(k.faults)
      ensures k.faults == old(k.faults) && !forceMapFail && !old(noCpuMap) ==> view != 0
      ensures Accounted({gem}, fd, view, open) && Cached()
      ensures k.holdings[Flight].bo == old(k.holdings)[Flight].bo && (view != 0 ==> k.holdings[Flight].size == size)
      ensures old(noCpuMap) && view != 0 ==> virtio
      ensures noCpuMap == (old(noCpuMap) || view == 0)
      ensures view != 0 ==> Imported(old(k.log), fd, open, offset)
      ensures view == 0 && !old(noCpuMap) ==> StartedOnce(old(k.log), k.log, virtio, k.holdings[Flight].bo, fd, open)
      ensures view == 0 && old(noCpuMap) ==> !open && NotStarted(old(k.log), k.log, virtio, k.holdings[Flight].bo)
    {
      hide HandlesHeld, FdsHeld, ViewsHeld, Windows, Books, CacheSound, Buffered, MemoSound;
      view, open := 0, false;
      if virtio {
        HandleLive(gem);
        var moved := k.TransferFromHost(gem);
        if moved == 0 {
          ghost var was := k.holdings;
          view := k.Mmap(size, Dumb, Flight);
          FlightChanges(virtio, was, slots, privs, seen, k.holdings[Flight]);
          assert k.holdings == was[Flight := k.holdings[Flight]];
        }
      }
      if view == 0 && !noCpuMap {
        view, open := MapExport(gem, fd, size, offset);
        if view == 0 { noCpuMap := true; }
      }
    }

    /** The recorded START, then the descriptor's own mapping. */
    method MapExport(ghost gem: nat, fd: int, size: nat, offset: nat) returns (view: nat, open: bool)
      requires gem != 0 && fd >= 0 && Accounted({gem}, fd, 0, false) && Cached() && size > 0
      modifies k`fds, k`log, k`views, k`holdings, k`faults
      ensures k.faults >= old(k.faults) && (k.faults == old(k.faults) && !forceMapFail ==> view != 0)
      ensures Accounted({gem}, fd, view, open) && Cached()
      ensures k.log == old(k.log) + [Start(fd, open)] && k.holdings[Flight].bo == old(k.holdings)[Flight].bo
      ensures view != 0 ==> k.holdings[Flight].size == size && k.holdings[Flight].base == At(offset)
    {
      hide HandlesHeld, FdsHeld, ViewsHeld, Windows, Books, CacheSound, Buffered, MemoSound;
      ghost var was := k.holdings;
      open := k.SyncStart(fd, Flight);
      view := k.Mmap(size, At(offset), Flight);
      if view != 0 && forceMapFail {
        k.Munmap(view, Flight);
        view := 0;
      }
      FlightChanges(virtio, was, slots, privs, seen, k.holdings[Flight]);
      assert k.holdings == was[Flight := k.holdings[Flight]];
    }

    /** The mapping in flight was made current: by a START on its descriptor, else by a transfer from the host. */
    ghost predicate Imported(before: seq<Act>, fd: int, open: bool, offset: nat)
      reads k`holdings, k`log
    {
      && Flight in k.holdings
      && var h := k.holdings[Flight];
         || (h.base == At(offset) && StartedOnce(before, k.log, virtio, h.bo, fd, open))
         || (h.base.Dumb? && virtio && !open && k.log == before + [Transfer(h.bo)])
    }

    lemma ImportedTail(before: seq<Act>, fd: int, open: bool, offset: nat)
      requires Imported(before, fd, open, offset)
      ensures before <= k.log && k.holdings[Flight].base in {At(offset), Dumb}
      ensures (k.holdings[Flight].base.Dumb? ==> virtio)
      ensures var tail := k.log[|before|..];
              (virtio && Transfer(k.holdings[Flight].bo) in tail) || (tail != [] && tail[|tail| - 1] == Start(fd, open))
    {}

    /** The import becomes slot i's, with the framebuffer it was made from. */
    method StoreSlot(i: nat, s: FastSlot, fb: Fb)
      requires i < SLOTS && s.fb != 0 && s.gem != 0 && s.fd >= 0 && s.view != 0
      requires Accounted({s.gem}, s.fd, s.view, s.open) && Cached() && slots[i] == UNUSED && initialized
      requires Agrees(virtio, s, fb, k.holdings[Flight])
      requires forall j | 0 <= j < SLOTS :: slots[j].fb != s.fb && !slots[j].open
      modifies this`slots, this`seen, k`handles, k`fds, k`views, k`holdings
      ensures Valid() && slots == old(slots)[i := s] && seen == old(seen)[i := fb]
    {
      hide HandlesHeld, FdsHeld, ViewsHeld, Windows, Books, CacheSound, Buffered, MemoSound, Agrees;
      SlotHas(i);
      ghost var was := k.holdings;
      k.Adopt(Slot(i));
      SlotChanges(virtio, was, slots, privs, seen, i, s, was[Flight], fb);
      FlightChanges(virtio, was[Slot(i) := was[Flight]], slots[i := s], privs, seen[i := fb], NOTHING);
      assert k.holdings == was[Slot(i) := was[Flight]][Flight := NOTHING];
      slots := slots[i := s];
      seen := seen[i := fb];
    }

    /** The slot's own framebuffer, buffer and layout were what the conversions got. */
    ghost predicate SlotServed(i: nat, id: u32)
      reads this`slots, this`seen, this`call, k`views, k`fds
    {
      && i < |slots| == |seen| && id != 0 && slots[i].fb == id && seen[i].Shaped()
      && 0 < slots[i].width <= seen[i].width
      && call == FreshCall(seen[i], id, slots[i].view, slots[i].fd, slots[i].width)
      && slots[i].view in k.views && k.views[slots[i].view].holder == Slot(i)
      && k.views[slots[i].view].bo == seen[i].bo && k.views[slots[i].view].size == seen[i].pitches[0] * seen[i].height
      && (k.views[slots[i].view].base == At(seen[i].offsets[0]) || (virtio && k.views[slots[i].view].base.Dumb?))
      && slots[i].fd in k.fds && k.fds[slots[i].fd].bo == seen[i].bo
    }

    /** What slot i was filled from, in so many words. */
    lemma ServedLiterally(i: nat, id: u32)
      requires SlotServed(i, id)
      ensures var fb := seen[i];
              && call.fb == id && call.height == fb.height && 0 < call.width <= fb.width
              && call.stride == fb.pitches[0] && call.format == fb.format
              && call.modifier == (if fb.hasModifiers then fb.rawModifier else 0x00ff_ffff_ffff_ffff)
              && call.planes.pitches == fb.pitches && call.planes.offsets == fb.offsets && !call.force
    {}

    /** The frame handed out, by the framebuffer it was served from. */
    lemma FrameLiterally(served: Served, frame: Frame)
      requires !served.Nothing? && Finished(frame)
      requires served.FromSlot? ==> SlotServed(served.i, call.fb)
      requires served.FromFd? ==>
                 && served.fb.Shaped() && 0 < call.width <= served.fb.width
                 && call == FreshCall(served.fb, call.fb, 0, call.fd, call.width)
      ensures served.FromSlot? ==> served.i < |seen|
      ensures var fb := if served.FromSlot? then seen[served.i] else served.fb;
              && frame.height == fb.height && 0 < frame.width <= fb.width
              && frame.modifier == if fb.hasModifiers then fb.rawModifier else 0x00ff_ffff_ffff_ffff
    {
      hide AutoProcess.Labels, PlanesOf;
      if served.FromSlot? { ServedLiterally(served.i, call.fb); }
    }

    /** Some slot was filled from framebuffer `id`. */
    predicate CachedAt(was: seq<FastSlot>, id: u32) {
      exists i | 0 <= i < |was| :: was[i].fb == id
    }

    /** Every used slot but one is what it was, in width and framebuffer. */
    ghost predicate OthersKept(was: seq<FastSlot>, seen0: seq<Fb>, but: int)
      reads this`slots, this`seen
    {
      forall j | 0 <= j < |slots| && j != but && slots[j].fb != 0 ::
        && j < |was| && slots[j].fb == was[j].fb && slots[j].width == was[j].width
        && j < |seen| && j < |seen0| && seen[j] == seen0[j]
    }

    lemma KeptHere(but: int)
      requires Cached()
      ensures OthersKept(slots, seen, but)
    {}

    lemma NoneLeft(was: seq<FastSlot>, seen0: seq<Fb>, but: int)
      requires |slots| == SLOTS && forall i | 0 <= i < SLOTS :: slots[i] == UNUSED
      ensures OthersKept(was, seen0, but)
    {}

    lemma KeptThrough(was: seq<FastSlot>, mid: seq<FastSlot>, seen0: seq<Fb>, but: int)
      requires OthersKept(mid, seen0, but) && |mid| <= |was|
      requires forall j | 0 <= j < |mid| && mid[j].fb != 0 :: mid[j].fb == was[j].fb && mid[j].width == was[j].width
      ensures OthersKept(was, seen0, but)
    {}

    /** The width handed out is the slot's from before, or what is decided now. */
    ghost predicate Widths(served: Served, was: seq<FastSlot>, seen0: seq<Fb>, memo0: Memo)
      reads this`slots, this`seen, this`call, this`display
    {
      && OthersKept(was, seen0, if served.FromSlot? && served.filled then served.i else -1)
      && match served
         case Nothing => true
         case FromFd(fb) => call.width == Decided(memo0, display, fb.width, EffectiveModifier(fb))
         case FromSlot(i, filled) =>
           && i < |slots| <= |seen| && slots[i].fb != 0 && call.width == slots[i].width
           && (filled ==> call.width == Decided(memo0, display, seen[i].width, EffectiveModifier(seen[i])))
    }

    lemma IdServed(i: nat, id: u32)
      requires SlotServed(i, id)
      ensures call.fb == id && i < |slots| == |seen| && slots[i].fb != 0 && call.width == slots[i].width
    {}

    lemma SlotBacked(i: nat)
      requires Valid() && i < SLOTS && slots[i].fb != 0
      ensures slots[i].view in k.views && k.views[slots[i].view].holder == Slot(i)
      ensures k.views[slots[i].view].bo == seen[i].bo
      ensures k.views[slots[i].view].size == seen[i].pitches[0] * seen[i].height
      ensures seen[i].Shaped()
      ensures (k.views[slots[i].view].base == At(seen[i].offsets[0]) || (virtio && k.views[slots[i].view].base.Dumb?))
      ensures Bounded(slots[i].width, slots[i].height, slots[i].stride) && slots[i].stride == seen[i].pitches[0]
      ensures slots[i].height == seen[i].height
      ensures slots[i].fd in k.fds && k.fds[slots[i].fd].bo == seen[i].bo
    {
      SlotHas(i);
      NarrowerBounded(slots[i].width, seen[i].width, slots[i].height, slots[i].stride);
    }

    /** What slot i hands to the conversions is what its framebuffer would. */
    lemma SlotCall(i: nat)
      requires Valid() && i < SLOTS && slots[i].fb != 0
      ensures seen[i].Shaped() && 0 < slots[i].width <= seen[i].width
      ensures FreshCall(seen[i], slots[i].fb, slots[i].view, slots[i].fd, slots[i].width) ==
              Call(slots[i].view, slots[i].fd, slots[i].width, slots[i].height, slots[i].stride, slots[i].format,
                   slots[i].modifier, slots[i].fb, slots[i].planes,
                   false)
      ensures call == FreshCall(seen[i], slots[i].fb, slots[i].view, slots[i].fd, slots[i].width) ==>
                SlotServed(i, slots[i].fb)
    {
      SlotHas(i);
      SlotBacked(i);
    }

    /** Slot i's handle names the buffer it was filled from. */
    lemma SlotHandle(i: nat)
      requires Valid() && i < SLOTS && slots[i].fb != 0
      ensures slots[i].gem in k.handles && k.handles[slots[i].gem].bo == seen[i].bo
    {
      hide FdsHeld, ViewsHeld, Windows, CacheSound, Books;
      SlotHas(i);
      assert slots[i].gem in k.holdings[Slot(i)].gems;
    }

    /** Since `before`, slot i's pixels were pulled from the host, or a START on its descriptor was the last act. */
    ghost predicate MadeCurrent(before: seq<Act>, i: nat)
      reads this`slots, this`seen, k`log
    {
      && i < |slots| == |seen| && before <= k.log
      && var tail := k.log[|before|..];
         || (virtio && Transfer(seen[i].bo) in tail)
         || (tail != [] && tail[|tail| - 1] == Start(slots[i].fd, slots[i].open))
    }

    lemma CurrentSince(earlier: seq<Act>, before: seq<Act>, i: nat)
      requires earlier <= before && MadeCurrent(before, i)
      ensures MadeCurrent(earlier, i)
    {
      assert k.log[|earlier|..] == k.log[|earlier|..|before|] + k.log[|before|..];
    }

    /** Make the slot's pixels current: a host transfer, or a new access window. */
    method MakeCoherent(i: nat) returns (ret: int)
      requires Valid() && i < SLOTS && slots[i].fb != 0
      modifies this`slots, k`fds, k`log, k`holdings, k`faults
      ensures k.faults == old(k.faults) + if ret != 0 then 1 else 0
      ensures Valid() && ret <= 0 && |slots| == |old(slots)|
      ensures forall j | 0 <= j < SLOTS :: slots[j] == old(slots)[j].(open := slots[j].open)
      ensures ret == 0 && virtio ==> forall j | 0 <= j < SLOTS :: !slots[j].open
      ensures k.log == old(k.log) + if !virtio then Ends(old(slots)) + [Start(slots[i].fd, slots[i].open)]
                                    else if ret == 0 then [Transfer(seen[i].bo)] + Ends(old(slots)) else []
      ensures ret == 0 ==> MadeCurrent(old(k.log), i)
    {
      hide Books, CacheSound, Buffered, MemoSound, HandlesHeld, FdsHeld, ViewsHeld, Windows;
      SlotHas(i);
      ret := 0;
      if virtio {
        SlotHandle(i);
        ret := k.TransferFromHost(slots[i].gem);
        if ret < 0 { return; }
        FastSyncClose();
      } else {
        FastSyncBegin(i);
      }
    }

    /** The frame that slot i describes goes through the conversions. */
    method ConvertSlot(i: nat, id: u32) returns (ret: int, frame: Frame)
      requires Valid() && i < SLOTS && id != 0 && slots[i].fb == id && planes == slots[i].planes
      modifies this`call, this`made, this`grabPlane, k`faults
      ensures Valid() && SlotServed(i, id) && call.width == slots[i].width
      ensures ret == 0 ==> frame.priv == 0 && frame.data != 0 && frame.fb == id && grabPlane == fastPlane
      ensures ret == 0 ==> frame.fd == call.fd && frame.width == slots[i].width
      ensures ret != 0 ==> grabPlane == old(grabPlane)
      ensures k.faults == old(k.faults) + (if ret != 0 then 1 else 0) && (ret == 0 ==> Finished(frame))
    {
      hide Accounted, Cached, PlanesOf, SlotServed, Finished, AutoProcess.IsLinear, Bounded;
      SlotKnown(i);
      SlotBacked(i);
      var s := slots[i];
      frame := FrameInfo(s.view, s.fd, s.width, s.height, s.stride, s.format, s.modifier, id, 0);
      ret, frame := Process(s.view, frame, false);
      SlotCall(i);
      if ret == 0 { grabPlane := fastPlane; }
    }

    /** Serve a frame from slot i's cached mapping. */
    method ServeSlot(i: nat, id: u32, frame: Frame) returns (ret: int, frame': Frame, ghost served: Served)
      requires Valid() && i < SLOTS && id != 0 && slots[i].fb == id
      modifies this`slots, this`planes, this`call, this`made, this`lastFb, this`grabPlane
      modifies k`fds, k`log, k`holdings, k`faults
      ensures k.faults == old(k.faults) + (if ret != 0 then 1 else 0) && (ret == 0 ==> Finished(frame'))
      ensures Valid() && served in {Nothing, FromSlot(i, false)} && lastFb in {old(lastFb), id}
      ensures |slots| == |old(slots)| && forall j | 0 <= j < |slots| :: slots[j].fb == old(slots)[j].fb
      ensures ret == 0 ==>
                && served == FromSlot(i, false) && frame'.priv == 0 && frame'.data != 0 && frame'.fb == id
                && grabPlane == fastPlane
      ensures ret == 0 ==> frame'.fd == call.fd
      ensures ret != 0 ==> grabPlane == old(grabPlane)
      ensures Current(old(slots), seen, k.fbs) ==> Current(slots, seen, k.fbs)
      ensures served.FromSlot? ==> SlotServed(i, id) && MadeCurrent(old(k.log), i)
      ensures OthersKept(old(slots), old(seen), -1) && (ret == 0 ==> frame'.width == slots[i].width)
    {
      hide Accounted, Cached, PlanesOf, Ends, MadeCurrent, SlotServed;
      frame', served := frame, Nothing;
      SlotKnown(i);
      ret := MakeCoherent(i);
      if ret != 0 { return; }
      lastFb := id;
      SlotKnown(i);
      RestagePlanes(i);
      ret, frame' := ConvertSlot(i, id);
      served := FromSlot(i, false);
    }

    /** No mapping: the GPU reads the export, which is then given back; nothing is cached. */
    method ServeFd(gem: nat, fd: int, open: bool, id: u32, fb: Fb, frame: Frame)
      returns (ret: int, frame': Frame, ghost served: Served)
      requires gem != 0 && fd >= 0 && Accounted({gem}, fd, 0, open) && Cached() && fb.Shaped() && planes == PlanesOf(fb)
      requires Bounded(fb.width, fb.height, fb.pitches[0])
      requires k.holdings[Flight].bo == fb.bo
      modifies this`call, this`made, this`lastFb, this`grabPlane, this`memo, this`display
      modifies k`handles, k`fds, k`log, k`holdings, k`faults
      ensures k.faults >= old(k.faults) && (ret == 0 ==> Finished(frame'))
      ensures served == FromFd(fb) ==> call.width == Decided(old(memo), display, fb.width, EffectiveModifier(fb))
      ensures served == FromFd(fb) ==> made.bo == fb.bo
      ensures Valid() && served in {Nothing, FromFd(fb)}
      ensures ret == 0 ==>
                && served == FromFd(fb) && frame'.priv == 0 && frame'.data != 0 && frame'.fd == -1 && frame'.fb == id
                && grabPlane == fastPlane
      ensures ret != 0 ==> grabPlane == old(grabPlane)
      ensures served == FromFd(fb) ==> 0 < call.width <= fb.width && call == FreshCall(fb, id, 0, fd, call.width)
    {
      hide Accounted, Cached, PlanesOf, Bounded;
      frame', served := frame, Nothing;
      if !egl {
        DropImport(gem, fd, open);
        return ENOMEM, frame', Nothing;
      }
      var width := ScanoutWidth(fb.width, EffectiveModifier(fb), fb.height, fb.pitches[0]);
      FlightFd({gem}, fd, open);
      frame' := FrameInfo(0, fd, width, fb.height, fb.pitches[0], fb.format, EffectiveModifier(fb), id, 0);
      ret, frame' := Process(0, frame', false);
      served := FromFd(fb);
      if ret == 0 && frame'.data == 0 { ret := EIO; }
      DropImport(gem, fd, open);
      frame' := frame'.(fd := -1);
      lastFb := 0;
      if ret == 0 { grabPlane := fastPlane; }
    }

    /** The fresh mapping goes into the slot and is served from there. */
    method FillSlot(i: nat, gem: nat, fd: int, view: nat, open: bool, id: u32, fb: Fb, frame: Frame,
                    ghost before: seq<Act>)
      returns (ret: int, frame': Frame, ghost served: Served)
      requires i < SLOTS && id != 0 && gem != 0 && fd >= 0 && view != 0 && fb.Shaped() && planes == PlanesOf(fb)
      requires Accounted({gem}, fd, view, open) && Cached() && initialized && slots[i] == UNUSED
      requires k.holdings[Flight].bo == fb.bo && k.holdings[Flight].size == fb.pitches[0] * fb.height
      requires Bounded(fb.width, fb.height, fb.pitches[0]) && Imported(before, fd, open, fb.offsets[0])
      requires forall j | 0 <= j < SLOTS :: slots[j].fb != id && !slots[j].open
      modifies this`slots, this`seen, this`call, this`made, this`lastFb, this`grabPlane, this`memo, this`display
      modifies k`handles, k`fds, k`views, k`holdings, k`faults
      ensures k.faults == old(k.faults) + (if ret != 0 then 1 else 0) && (ret == 0 ==> Finished(frame'))
      ensures call.width == Decided(old(memo), display, fb.width, EffectiveModifier(fb))
      ensures Valid() && served == FromSlot(i, true) && SlotServed(i, id) && seen == old(seen)[i := fb]
      ensures OthersKept(old(slots), old(seen), i)
      ensures MadeCurrent(before, i)
      ensures |slots| == |old(slots)|
      ensures forall j | 0 <= j < |slots| :: slots[j].fb == if j == i then id else old(slots)[j].fb
      ensures ret == 0 ==> frame'.priv == 0 && frame'.data != 0 && frame'.fb == id && grabPlane == fastPlane
      ensures ret == 0 ==> frame'.fd == call.fd
      ensures ret != 0 ==> grabPlane == old(grabPlane)
    {
      hide Accounted, Cached, PlanesOf, SlotServed, Bounded;
      hide Finished, Decided, AutoProcess.Outcome, AutoProcess.IsLinear;
      SlotKnown(i);
      var width := ScanoutWidth(fb.width, EffectiveModifier(fb), fb.height, fb.pitches[0]);
      var s := FastSlot(id, gem, fd, view, fb.pitches[0] * fb.height, width, fb.height, fb.pitches[0], fb.width,
                        fb.format,
                        EffectiveModifier(fb), planes, open);
      ImportedTail(before, fd, open, fb.offsets[0]);
      StoreSlot(i, s, fb);
      lastFb := id;
      ret, frame' := ConvertSlot(i, id);
      served := FromSlot(i, true);
    }

    /** The export is mapped and kept in slot i, or read once by the GPU. */
    method UseExport(i: nat, gem: nat, fd: int, id: u32, fb: Fb, frame: Frame)
      returns (ret: int, frame': Frame, ghost served: Served)
      requires i < SLOTS && id != 0 && gem != 0 && fd >= 0 && fb.Shaped() && planes == PlanesOf(fb)
      requires Bounded(fb.width, fb.height, fb.pitches[0])
      requires Accounted({gem}, fd, 0, false) && Cached() && initialized && slots[i] == UNUSED
      requires k.holdings[Flight].bo == fb.bo
      requires forall j | 0 <= j < SLOTS :: slots[j].fb != id && !slots[j].open
      modifies this`slots, this`seen, this`call, this`made, this`lastFb, this`noCpuMap, this`grabPlane, this`memo
      modifies this`display, k`handles, k`fds, k`log, k`views, k`holdings, k`faults
      ensures ret == 0 ==> frame'.fb == id
      ensures k.faults >= old(k.faults) && (ret == 0 ==> Finished(frame'))
      ensures k.faults == old(k.faults) && !forceMapFail && !old(noCpuMap) ==> ret == 0
      ensures !served.Nothing? ==> call.width == Decided(old(memo), display, fb.width, EffectiveModifier(fb))
      ensures OthersKept(old(slots), old(seen), if served.FromSlot? then i else -1)
      ensures served.FromFd? ==> made.bo == fb.bo
      ensures Valid()
      ensures ret == 0 ==> frame'.priv == 0 && frame'.data != 0 && grabPlane == fastPlane && !served.Nothing?
      ensures ret == 0 ==> frame'.fd == if served.FromSlot? then call.fd else -1
      ensures ret != 0 ==> grabPlane == old(grabPlane)
      ensures served.FromSlot? ==>
                served == FromSlot(i, true) && SlotServed(i, id) && seen[i] == fb && MadeCurrent(old(k.log), i)
      ensures id in k.fbs && k.fbs[id] == fb && Current(old(slots), old(seen), k.fbs) ==> Current(slots, seen, k.fbs)
      ensures served.FromFd? ==>
                served.fb == fb && 0 < call.width <= fb.width && call == FreshCall(fb, id, 0, call.fd, call.width)
    {
      hide Accounted, Cached, PlanesOf, MadeCurrent, Imported, Bounded, SlotServed;
      hide Finished, Decided, AutoProcess.Labels, OthersKept;
      KeptHere(-1);
      SlotKnown(i);
      BoundedSize(fb.width, fb.height, fb.pitches[0]);
      var view, open := MapImport(gem, fd, fb.pitches[0] * fb.height, fb.offsets[0]);
      if view == 0 {
        ret, frame', served := ServeFd(gem, fd, open, id, fb, frame);
      } else {
        ret, frame', served := FillSlot(i, gem, fd, view, open, id, fb, frame, old(k.log));
      }
    }

    /** First sight of this framebuffer: full setup into slot i, or the GPU route. */
    method Miss(i: nat, id: u32, frame: Frame) returns (ret: int, frame': Frame, ghost served: Served)
      requires Valid() && i < SLOTS && id != 0 && initialized && slots[i] == UNUSED
      requires forall j | 0 <= j < SLOTS :: slots[j].fb != id && !slots[j].open
      modifies this`slots, this`seen, this`call, this`made, this`lastFb, this`noCpuMap, this`noPrivilege, this`grabPlane
      modifies this`memo, this`display, this`planes, this`fastPlane, this`initialized
      modifies k`handles, k`fds, k`log, k`views, k`holdings, k`faults, k`denials
      ensures k.faults >= old(k.faults) && k.denials >= old(k.denials) && (ret == 0 ==> Finished(frame'))
      ensures ret == 0 ==> frame'.fb == id
      ensures Valid()
      ensures ret == 0 ==> frame'.priv == 0 && frame'.data != 0 && grabPlane == fastPlane && !served.Nothing?
      ensures ret == 0 ==> frame'.fd == if served.FromSlot? then call.fd else -1
      ensures ret != 0 ==> grabPlane == old(grabPlane)
      ensures served.FromSlot? ==>
                && served == FromSlot(i, true) && SlotServed(i, id) && id in k.fbs && seen[i] == k.fbs[id]
                && MadeCurrent(old(k.log), i)
      ensures served.FromFd? ==> id in k.fbs && served.fb == k.fbs[id] && served.fb.Shaped() && made.bo == served.fb.bo
      ensures OthersKept(old(slots), old(seen), if served.FromSlot? then i else -1)
      ensures !served.Nothing? ==>
                call.width == Decided(old(memo), display, k.fbs[id].width, EffectiveModifier(k.fbs[id]))
      ensures served.FromFd? ==>
                0 < call.width <= served.fb.width && call == FreshCall(served.fb, id, 0, call.fd, call.width)
      ensures ret != 0 && k.faults == old(k.faults) && k.denials == old(k.denials) ==>
                || noPrivilege || old(noCpuMap) || forceMapFail
                || (id in k.fbs && k.fbs[id].Shaped() &&
                    var fb := k.fbs[id]; !Bounded(fb.width, fb.height, fb.pitches[0]))
      ensures Current(old(slots), old(seen), k.fbs) ==> Current(slots, seen, k.fbs)
      ensures noPrivilege && !old(noPrivilege) ==> ret == EACCES && forall j | 0 <= j < SLOTS :: slots[j] == UNUSED
    {
      hide Accounted, Cached, Bounded, PlanesOf, MadeCurrent, SlotServed;
      hide Finished, Decided, FreshCall, OthersKept;
      frame', served := frame, Nothing;
      KeptHere(-1);
      var ok, fb, hs := GetFb(id);
      if !ok { return EIO, frame', Nothing; }
      if hs[0] == 0 {
        noPrivilege := true;
        FastCleanup();
        SlotKnown(0);
        NoneLeft(old(slots), old(seen), -1);
        return EACCES, frame', Nothing;
      }
      ret := CheckAndStage(fb, hs);
      if ret != 0 { return; }
      var fd, gem;
      ret, fd, gem := TryExport(hs[0]);
      if ret != 0 || fd < 0 {
        if ret == 0 { ret := EACCES; }
        return;
      }
      ret, frame', served := UseExport(i, gem, fd, id, fb, frame);
    }

    /** The slot holding this framebuffer's mapping, -1 for none. */
    method FindFast(id: u32) returns (i: int)
      requires |slots| == SLOTS
      ensures i < SLOTS && (i >= 0 ==> slots[i].fb == id)
    {
      i := 0;
      while i < SLOTS
        invariant 0 <= i <= SLOTS
      {
        if slots[i].fb == id && slots[i].view != 0 { return; }
        i := i + 1;
      }
      i := -1;
    }

    /**
     The fast grab.  Whatever is passed to the conversions from a slot is what an uncached acquire of
     the framebuffer the slot was filled from would pass, except for the width, which is as of the fill.
     */
    method GrabMappedFast(frame: Frame) returns (ret: int, frame': Frame, ghost served: Served)
      requires Valid()
      modifies this`slots, this`seen, this`call, this`made, this`lastFb, this`noCpuMap, this`noPrivilege, this`grabPlane
      modifies this`memo, this`display, this`planes, this`fastPlane, this`initialized, this`hdr
      modifies this`connector, this`scanned
      modifies k`handles, k`fds, k`log, k`views, k`holdings, k`faults, k`denials
      ensures k.faults >= old(k.faults) && k.denials >= old(k.denials) && (ret == 0 ==> Finished(frame'))
      ensures Valid() && privs == old(privs)
      ensures ret == 0 ==> frame'.priv == 0 && frame'.data != 0 && grabPlane == fastPlane && !served.Nothing?
      ensures ret == 0 ==> frame'.fd == if served.FromSlot? then call.fd else -1
      ensures ret != 0 ==> grabPlane == old(grabPlane)
      ensures served.FromSlot? ==>
                served.i < SLOTS && SlotServed(served.i, call.fb) && MadeCurrent(old(k.log), served.i)
      ensures served.FromFd? ==>
                && call.fb in k.fbs && served.fb == k.fbs[call.fb] && served.fb.Shaped()
                && call == FreshCall(served.fb, call.fb, 0, call.fd, call.width) && 0 < call.width <= served.fb.width
      // the frame handed out is what the conversions made of the framebuffer on the plane now
      ensures ret == 0 ==> frame'.fb == scanned
      ensures ret == 0 ==>
                && (served.FromSlot? ==> served.i < |seen|)
                && var fb := if served.FromSlot? then seen[served.i] else served.fb;
                   && frame'.height == fb.height && 0 < frame'.width <= fb.width
                   && frame'.modifier == if fb.hasModifiers then fb.rawModifier else 0x00ff_ffff_ffff_ffff
      // a framebuffer that is cached is served from the cache
      ensures ret == 0 && CachedAt(old(slots), scanned) ==> served.FromSlot? && !served.filled
      // a GPU read was of that framebuffer's buffer; the width is decided now, or was when the slot was filled
      ensures served.FromFd? ==> made.bo == served.fb.bo
      ensures Widths(served, old(slots), old(seen), old(memo)) && (hdr == connector || hdr == old(hdr))
      // and it fails only if something did, privilege is lost, no mapping will do, or the geometry is out of bounds
      ensures ret != 0 && k.faults == old(k.faults) && k.denials == old(k.denials) ==>
                || renderOnly || noPrivilege || forceMapFail || (old(initialized) && old(noCpuMap))
                || (scanned in k.fbs && k.fbs[scanned].Shaped() &&
                    var fb := k.fbs[scanned]; !Bounded(fb.width, fb.height, fb.pitches[0]))
      // while no framebuffer id is recycled, that is exactly what an uncached acquire passes now
      ensures Current(old(slots), old(seen), k.fbs) ==> Current(slots, seen, k.fbs)
      ensures old(noPrivilege) ==> ret in {EACCES, ENOTSUP} && slots == old(slots) && noPrivilege
    {
      hide Accounted, Cached, SlotServed, MadeCurrent, PlanesOf, Ends;
      hide Finished, Decided, FreshCall, Current, Bounded, OthersKept;
      frame', served := frame, Nothing;
      KeptHere(-1);
      if renderOnly { return ENOTSUP, frame', Nothing; }
      if noPrivilege { return EACCES, frame', Nothing; }
      var id;
      ret, id := FastFb();
      if ret != 0 { return; }
      ret, frame', served := Fetch(id, frame);
      if ret == 0 { FrameLiterally(served, frame'); }
    }

    /** The framebuffer on the fast path's plane, found on first use; without one the cache is emptied. */
    method FastFb() returns (ret: int, id: u32)
      requires Valid()
      modifies this`slots, this`fastPlane, this`lastFb, this`initialized, this`noCpuMap, this`hdr, this`connector
      modifies this`scanned, k`handles, k`fds, k`log, k`views, k`holdings, k`faults
      ensures Valid() && ret in {0, ENODEV} && old(k.log) <= k.log
      ensures ret == 0 ==> initialized && id == scanned && id != 0 && slots == old(slots)
      ensures ret == 0 ==> k.log == old(k.log) && (noCpuMap ==> old(initialized) && old(noCpuMap))
      ensures OthersKept(old(slots), seen, -1) && (hdr == connector || hdr == old(hdr))
      ensures k.faults >= old(k.faults) + if ret != 0 then 1 else 0
      ensures Current(old(slots), seen, k.fbs) ==> Current(slots, seen, k.fbs)
    {
      hide Accounted, Cached, Ends, OthersKept;
      id := 0;
      KeptHere(-1);
      if !initialized {
        ret := Initialize();
        if ret != 0 { return; }
      }
      id := PlaneFb(fastPlane);
      if id == 0 {
        FastCleanup();
        SlotKnown(0);
        NoneLeft(old(slots), seen, -1);
        return ENODEV, id;
      }
      ret := 0;
    }

    /** The same framebuffer as last time is served from its slot; another one is looked up. */
    method Fetch(id: u32, frame: Frame) returns (ret: int, frame': Frame, ghost served: Served)
      requires Valid() && initialized && id != 0
      modifies this`slots, this`seen, this`call, this`made, this`lastFb, this`noCpuMap, this`noPrivilege, this`grabPlane
      modifies this`memo, this`display, this`planes, this`fastPlane, this`initialized
      modifies k`handles, k`fds, k`log, k`views, k`holdings, k`faults, k`denials
      ensures k.faults >= old(k.faults) && k.denials >= old(k.denials) && (ret == 0 ==> Finished(frame'))
      ensures Valid()
      ensures ret == 0 ==> frame'.priv == 0 && frame'.data != 0 && grabPlane == fastPlane && !served.Nothing?
      ensures ret == 0 ==> frame'.fd == if served.FromSlot? then call.fd else -1
      ensures ret != 0 ==> grabPlane == old(grabPlane)
      ensures served.FromSlot? ==>
                served.i < SLOTS && SlotServed(served.i, call.fb) && MadeCurrent(old(k.log), served.i)
      ensures served.FromFd? ==>
                && call.fb in k.fbs && served.fb == k.fbs[call.fb] && served.fb.Shaped()
                && call == FreshCall(served.fb, call.fb, 0, call.fd, call.width) && 0 < call.width <= served.fb.width
      ensures ret == 0 ==> frame'.fb == id
      ensures ret == 0 && CachedAt(old(slots), id) ==> served.FromSlot? && !served.filled
      ensures served.FromFd? ==> made.bo == served.fb.bo
      ensures Widths(served, old(slots), old(seen), old(memo))
      ensures ret != 0 && k.faults == old(k.faults) && k.denials == old(k.denials) ==>
                || noPrivilege || old(noCpuMap) || forceMapFail
                || (id in k.fbs && k.fbs[id].Shaped() &&
                    var fb := k.fbs[id]; !Bounded(fb.width, fb.height, fb.pitches[0]))
      ensures Current(old(slots), old(seen), k.fbs) ==> Current(slots, seen, k.fbs)
    {
      hide Accounted, Cached, SlotServed, MadeCurrent, PlanesOf, Ends;
      hide Finished, Decided, OthersKept, Bounded, Current, FreshCall;
      SlotKnown(0);
      if id == lastFb {
        var i := FindFast(id);
        if i >= 0 {
          ret, frame', served := ServeSlot(i, id, frame);
          if served.FromSlot? { IdServed(i, id); }
          return;
        }
      }
      ret, frame', served := FromCache(id, frame);
    }

    /** Every window closed, and a slot for this framebuffer: its own, or one that is unused now. */
    method Claim(id: u32) returns (i: nat)
      requires Valid() && id != 0
      modifies this`slots, k`handles, k`fds, k`log, k`views, k`holdings
      ensures Valid() && i < SLOTS && old(k.log) <= k.log && |slots| <= |old(slots)|
      ensures || slots[i].fb == id
              || (slots[i] == UNUSED && forall j | 0 <= j < SLOTS :: slots[j].fb != id && !slots[j].open)
      ensures forall j | 0 <= j < |slots| && slots[j].fb != 0 ::
                slots[j].fb == old(slots)[j].fb && slots[j].width == old(slots)[j].width
      ensures CachedAt(old(slots), id) ==> slots[i].fb == id
      ensures Current(old(slots), seen, k.fbs) ==> Current(slots, seen, k.fbs)
    {
      hide Accounted, Cached, Ends;
      SlotKnown(0);
      FastSyncClose();
      SlotKnown(0);
      i := FindOrAllocSlot(id);
      SlotKnown(i);
    }

    /** The framebuffer changed: close the last window, then hit or fill a slot. */
    method FromCache(id: u32, frame: Frame) returns (ret: int, frame': Frame, ghost served: Served)
      requires Valid() && initialized && id != 0
      modifies this`slots, this`seen, this`call, this`made, this`lastFb, this`noCpuMap, this`noPrivilege, this`grabPlane
      modifies this`memo, this`display, this`planes, this`fastPlane, this`initialized
      modifies k`handles, k`fds, k`log, k`views, k`holdings, k`faults, k`denials
      ensures k.faults >= old(k.faults) && k.denials >= old(k.denials) && (ret == 0 ==> Finished(frame'))
      ensures Valid()
      ensures ret == 0 ==> frame'.priv == 0 && frame'.data != 0 && grabPlane == fastPlane && !served.Nothing?
      ensures ret == 0 ==> frame'.fd == if served.FromSlot? then call.fd else -1
      ensures ret != 0 ==> grabPlane == old(grabPlane)
      ensures served.FromSlot? ==>
                served.i < SLOTS && SlotServed(served.i, call.fb) && MadeCurrent(old(k.log), served.i)
      ensures served.FromFd? ==>
                && call.fb in k.fbs && served.fb == k.fbs[call.fb] && served.fb.Shaped()
                && call == FreshCall(served.fb, call.fb, 0, call.fd, call.width) && 0 < call.width <= served.fb.width
      ensures ret == 0 ==> frame'.fb == id
      ensures ret == 0 && CachedAt(old(slots), id) ==> served.FromSlot? && !served.filled
      ensures served.FromFd? ==> made.bo == served.fb.bo
      ensures Widths(served, old(slots), old(seen), old(memo))
      ensures ret != 0 && k.faults == old(k.faults) && k.denials == old(k.denials) ==>
                || noPrivilege || old(noCpuMap) || forceMapFail
                || (id in k.fbs && k.fbs[id].Shaped() &&
                    var fb := k.fbs[id]; !Bounded(fb.width, fb.height, fb.pitches[0]))
      ensures Current(old(slots), old(seen), k.fbs) ==> Current(slots, seen, k.fbs)
    {
      hide Accounted, Cached, SlotServed, MadeCurrent, PlanesOf, Ends;
      hide Finished, Decided, OthersKept, Bounded, Current;
      SlotKnown(0);
      var i := Claim(id);
      SlotKnown(i);
      ghost var before, mid := k.log, slots;
      if slots[i].fb == id && slots[i].view != 0 {
        ret, frame', served := ServeSlot(i, id, frame);
        if served.FromSlot? { IdServed(i, id); }
      } else {
        ret, frame', served := Miss(i, id, frame);
        if served.FromSlot? { IdServed(i, id); }
      }
      KeptThrough(old(slots), mid, old(seen), if served.FromSlot? && served.filled then i else -1);
      if served.FromSlot? { CurrentSince(old(k.log), before, i); }
    }

    /**
     While no framebuffer id is recycled, what was passed from a slot is exactly what an uncached
     acquire would pass now, but for the width.
     */
    lemma CacheRefinesAcquire(i: nat)
      requires Valid() && SlotServed(i, call.fb) && Current(slots, seen, k.fbs)
      ensures call.fb in k.fbs && k.fbs[call.fb].Shaped() && call.width <= k.fbs[call.fb].width
      ensures call == FreshCall(k.fbs[call.fb], call.fb, call.data, call.fd, call.width)
      ensures call.data in k.views && k.views[call.data].bo == k.fbs[call.fb].bo && call.fd in k.fds
      ensures k.fds[call.fd].bo == k.fbs[call.fb].bo
    {}

    /** First use: find the plane; the slots are unused already, so clearing them loses nothing. */
    method Initialize() returns (ret: int)
      requires Valid() && !initialized
      modifies this`fastPlane, this`slots, this`lastFb, this`noCpuMap, this`initialized, this`hdr, this`connector
      modifies k`faults
      ensures k.faults == old(k.faults) + (if ret != 0 then 1 else 0) && (ret == 0 ==> !noCpuMap)
      ensures hdr == connector
      ensures Valid() && slots == old(slots) && ret in {0, ENODEV} && (ret == 0 ==> initialized)
    {
      hide Books, CacheSound, Buffered, MemoSound, HandlesHeld, FdsHeld, ViewsHeld, Windows;
      SlotHas(0);
      var plane: nat := *;
      fastPlane := plane;
      ReadHdr();
      if plane == 0 {
        k.faults := k.faults + 1;
        return ENODEV;
      }
      slots := [UNUSED, UNUSED, UNUSED, UNUSED];
      assert slots == old(slots);
      lastFb, noCpuMap, initialized := 0, false, true;
      ret := 0;
    }

    /** drmtap_close, as far as captures go: the cache is emptied. */
    method Close()
      requires Valid()
      modifies this, k`handles, k`fds, k`log, k`views, k`holdings
      ensures Valid() && privs == old(privs)
      ensures privs == map[] ==>
                k.handles == map[] && k.fds == map[] && k.views == map[] && forall f :: Owed(k.log, f) == 0
    {
      hide Accounted, Cached;
      FastCleanup();
      if privs == map[] { NothingLeft(); }
    }

    // ---- whole runs ----

    /** The compositor acts between calls: framebuffers come, go and change under the cache. */
    method Flip()
      requires Valid()
      modifies k`fbs
      ensures Valid()
    {
      hide Books, CacheSound, Buffered, MemoSound, HandlesHeld, FdsHeld, ViewsHeld, Windows;
      k.Compositor();
    }

    /** One entry point, on behalf of a caller that keeps its frames apart. */
    method Perform(op: Op)
      requires Valid()
      modifies this, heap, k
      ensures Valid()
    {
      hide Accounted, Cached, HelperServed, DirectServed, MadeCurrent, SlotServed;
      var ret, frame, d;
      ghost var route, served;
      match op {
        case Grab => ret, frame, route := DoGrab(BLANK, false);
        case GrabMapped => ret, frame, route := DoGrab(BLANK, true);
        case Describe => ret, frame, d, route := GrabDesc(BLANK);
        case Fast => ret, frame, served := GrabMappedFast(BLANK);
        case Release(p) => if p in privs { frame := FrameRelease(BLANK.(priv := p)); }
        case Reset => FastCleanup();
        case Flip => Flip();
      }
    }

    /**
     Any interleaving of grabs, releases and compositor activity, every call free to fail anywhere;
     once the remaining frames are released and the context closed, nothing is live.
     */
    method AnyRun(ops: seq<Op>)
      requires Valid()
      modifies this, heap, k
      ensures k.handles == map[] && k.fds == map[] && k.views == map[]
      // every window that was opened was ended
      ensures forall f :: Owed(k.log, f) == 0
    {
      hide Accounted, Cached;
      var n := 0;
      while n < |ops|
        invariant 0 <= n <= |ops| && Valid()
      {
        Perform(ops[n]);
        n := n + 1;
      }
      while privs != map[]
        invariant Valid()
        decreases |privs|
      {
        var p :| p in privs;
        var frame := FrameRelease(BLANK.(priv := p));
      }
      Close();
    }
  }
}
