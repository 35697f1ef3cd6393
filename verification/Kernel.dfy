/**
 The kernel as ledgers: live GEM handles, dma-buf descriptors with their CPU-access window, and
 mappings, each with the holder that must give it back.  Closing anything not live is refused by the
 preconditions, so a verified caller never closes twice.
 */
module Kernel {
  import opened Words

  /** Who must give a resource back: the call in progress, a fast slot, or a frame's private record. */
  datatype Holder = Flight | Slot(i: nat) | Frame(p: nat)

  /** Where a mapping starts: the whole buffer through the dumb-buffer path, or a descriptor from an offset on. */
  datatype Base = Dumb | At(offset: nat)

  /** What one holder has: handles, a descriptor with its window, a mapping; all of buffer `bo`. */
  datatype Holding = Holding(gems: set<nat>, fd: int, view: nat, open: bool, bo: nat, size: nat, base: Base)
  {
    predicate Has(gems: set<nat>, fd: int, view: nat, open: bool) {
      this.gems == gems && this.fd == fd && this.view == view && this.open == open
    }

    predicate Empty() { Has({}, -1, 0, false) }
  }

  const NOTHING := Holding({}, -1, 0, false, 0, 0, At(0))

  datatype Handle = Handle(holder: Holder, bo: nat)
  datatype DmaBuf = DmaBuf(holder: Holder, bo: nat, open: bool)
  datatype View = View(holder: Holder, bo: nat, size: nat, base: Base)

  /** What was done to make pixels current: a window asked for or ended, or a transfer from the host. */
  datatype Act = Start(fd: int, ok: bool) | End(fd: int) | Transfer(bo: nat)

  /** Windows opened on this descriptor and not yet ended. */
  function Owed(log: seq<Act>, fd: int): (n: int) {
    if log == [] then 0
    else Owed(log[..|log| - 1], fd) + match log[|log| - 1]
      case Start(f, ok) => if f == fd && ok then 1 else 0
      case End(f) => if f == fd then -1 else 0
      case Transfer(_) => 0
  }

  lemma OwedNext(log: seq<Act>, a: Act, fd: int)
    ensures Owed(log + [a], fd) == Owed(log, fd) + (if a == Start(fd, true) then 1 else if a == End(fd) then -1 else 0)
  {
    assert (log + [a])[..|log|] == log;
  }

  /** An END is owed for exactly the open windows: one each. */
  ghost predicate Windows(log: seq<Act>, fds: map<int, DmaBuf>) {
    forall f :: Owed(log, f) == if f in fds && fds[f].open then 1 else 0
  }

  lemma WindowsAfter(log: seq<Act>, a: Act, fds: map<int, DmaBuf>, fd: int, open: bool)
    requires Windows(log, fds) && fd in fds
    requires ((a == Start(fd, open) && !fds[fd].open) || (a == End(fd) && fds[fd].open && !open))
    ensures Windows(log + [a], fds[fd := fds[fd].(open := open)])
  {
    forall f
      ensures Owed(log + [a], f) == Owed(log, f) + (if a == Start(f, true) then 1 else if a == End(f) then -1 else 0)
    {
      OwedNext(log, a, f);
    }
  }

  lemma WindowsKept(log: seq<Act>, fds: map<int, DmaBuf>, fds': map<int, DmaBuf>)
    requires Windows(log, fds)
    requires forall f :: (f in fds && fds[f].open) <==> (f in fds' && fds'[f].open)
    ensures Windows(log, fds')
  {}

  lemma TransferOwesNothing(log: seq<Act>, bo: nat, fds: map<int, DmaBuf>)
    requires Windows(log, fds)
    ensures Windows(log + [Transfer(bo)], fds)
  {
    forall f ensures Owed(log + [Transfer(bo)], f) == Owed(log, f) {
      OwedNext(log, Transfer(bo), f);
    }
  }

  /** A framebuffer object as GetFB2 describes it; `present` says which planes have a buffer. */
  datatype Fb = Fb(width: u32, height: u32, pitches: seq<u32>, offsets: seq<u32>, format: u32,
                   rawModifier: u64, hasModifiers: bool, present: seq<bool>, bo: nat)
  {
    predicate Shaped() { |pitches| == 4 && |offsets| == 4 && |present| == 4 }
  }

  // ---- ledgers against holdings (the holder arguments below are bookkeeping, not part of any call) ----

  ghost predicate HandlesHeld(handles: map<nat, Handle>, holdings: map<Holder, Holding>) {
    && (forall h | h in handles :: h != 0 && handles[h].holder in holdings && h in holdings[handles[h].holder].gems)
    && (forall o, h | o in holdings && h in holdings[o].gems ::
          h in handles && handles[h].holder == o && (holdings[o].fd >= 0 ==> handles[h].bo == holdings[o].bo))
  }

  ghost predicate FdsHeld(fds: map<int, DmaBuf>, holdings: map<Holder, Holding>) {
    && (forall f | f in fds ::
          && f >= 0 && fds[f].holder in holdings
          && var h := holdings[fds[f].holder]; h.fd == f && h.open == fds[f].open && h.bo == fds[f].bo)
    && (forall o | o in holdings :: if holdings[o].fd >= 0 then holdings[o].fd in fds && fds[holdings[o].fd].holder == o
                                    else holdings[o].fd == -1 && !holdings[o].open)
  }

  ghost predicate ViewsHeld(views: map<nat, View>, holdings: map<Holder, Holding>) {
    && (forall v | v in views ::
          && v != 0 && views[v].holder in holdings
          && var h := holdings[views[v].holder];
             h.view == v && h.bo == views[v].bo && h.size == views[v].size && h.base == views[v].base)
    && (forall o | o in holdings && holdings[o].view != 0 ::
          holdings[o].view in views && views[holdings[o].view].holder == o)
  }

  function Minted(hs: seq<nat>): set<nat> {
    set h | h in hs && h != 0
  }

  /** The call in progress and `slots` slots, holding nothing. */
  function NoneHeld(slots: nat): (m: map<Holder, Holding>)
    ensures forall o :: o in m <==> o == Flight || (o.Slot? && o.i < slots)
    ensures forall o | o in m :: m[o].Empty()
  {
    var holders := {Flight} + set i | 0 <= i < slots :: Slot(i);
    map o | o in holders :: NOTHING
  }

  lemma HandleGone(handles: map<nat, Handle>, holdings: map<Holder, Holding>, o: Holder, h: nat)
    requires HandlesHeld(handles, holdings) && o in holdings && (h != 0 ==> h in holdings[o].gems)
    ensures HandlesHeld(handles - {h}, holdings[o := holdings[o].(gems := holdings[o].gems - {h})])
  {
    var holdings' := holdings[o := holdings[o].(gems := holdings[o].gems - {h})];
    forall p, g | p in holdings' && g in holdings'[p].gems
      ensures g in handles - {h} && (handles - {h})[g].holder == p
      ensures holdings'[p].fd >= 0 ==> handles[g].bo == holdings'[p].bo
    {
      assert g in holdings[p].gems && g in handles && handles[g].holder == p;
    }
  }

  lemma HandlesMinted(handles: map<nat, Handle>, holdings: map<Holder, Holding>, hs: set<nat>, bo: nat)
    requires HandlesHeld(handles, holdings) && Flight in holdings && holdings[Flight].gems == {}
    requires holdings[Flight].fd == -1 && hs !! handles.Keys && 0 !in hs
    ensures HandlesHeld(WithMinted(handles, hs, bo), holdings[Flight := holdings[Flight].(gems := hs)])
  {}

  lemma FdTaken(fds: map<int, DmaBuf>, holdings: map<Holder, Holding>, fd: nat, bo: nat)
    requires FdsHeld(fds, holdings) && Flight in holdings && holdings[Flight].fd == -1 && fd !in fds
    ensures FdsHeld(fds[fd := DmaBuf(Flight, bo, false)], holdings[Flight := holdings[Flight].(fd := fd, bo := bo)])
  {
    forall f | f in fds ensures fds[f].holder != Flight {}
  }

  // A change that a ledger does not look at.

  lemma HandlesIgnore(handles: map<nat, Handle>, holdings: map<Holder, Holding>, o: Holder, h: Holding)
    requires HandlesHeld(handles, holdings) && o in holdings && h.gems == holdings[o].gems
    requires h.fd >= 0 ==> holdings[o].fd >= 0 && h.bo == holdings[o].bo
    ensures HandlesHeld(handles, holdings[o := h])
  {}

  lemma FdsIgnore(fds: map<int, DmaBuf>, holdings: map<Holder, Holding>, o: Holder, h: Holding)
    requires FdsHeld(fds, holdings) && o in holdings && h.fd == holdings[o].fd && h.open == holdings[o].open
    requires h.bo == holdings[o].bo
    ensures FdsHeld(fds, holdings[o := h])
  {}

  lemma ViewsIgnore(views: map<nat, View>, holdings: map<Holder, Holding>, o: Holder, h: Holding)
    requires ViewsHeld(views, holdings) && o in holdings && h.view == holdings[o].view
    requires h.bo == holdings[o].bo && h.size == holdings[o].size && h.base == holdings[o].base
    ensures ViewsHeld(views, holdings[o := h])
  {}

  lemma HandlesWithFd(handles: map<nat, Handle>, holdings: map<Holder, Holding>, fd: int, bo: nat)
    requires HandlesHeld(handles, holdings) && Flight in holdings
    requires forall h | h in holdings[Flight].gems && h in handles :: handles[h].bo == bo
    ensures HandlesHeld(handles, holdings[Flight := holdings[Flight].(fd := fd, bo := bo)])
  {}

  lemma ViewsWithFd(views: map<nat, View>, holdings: map<Holder, Holding>, fd: int, bo: nat)
    requires ViewsHeld(views, holdings) && Flight in holdings && holdings[Flight].view == 0
    ensures ViewsHeld(views, holdings[Flight := holdings[Flight].(fd := fd, bo := bo)])
  {}

  lemma ViewGone(views: map<nat, View>, holdings: map<Holder, Holding>, o: Holder)
    requires ViewsHeld(views, holdings) && o in holdings && holdings[o].view != 0
    ensures ViewsHeld(views - {holdings[o].view}, holdings[o := holdings[o].(view := 0)])
  {}

  lemma FdGone(fds: map<int, DmaBuf>, holdings: map<Holder, Holding>, o: Holder)
    requires FdsHeld(fds, holdings) && o in holdings && holdings[o].fd >= 0 && !holdings[o].open
    ensures FdsHeld(fds - {holdings[o].fd}, holdings[o := holdings[o].(fd := -1)])
    ensures holdings[o].fd in fds && !fds[holdings[o].fd].open
  {}

  lemma FdWindow(fds: map<int, DmaBuf>, holdings: map<Holder, Holding>, o: Holder, fd: int, open: bool)
    requires FdsHeld(fds, holdings) && o in holdings && holdings[o].fd == fd >= 0
    ensures fd in fds && fds[fd].open == holdings[o].open
    ensures FdsHeld(fds[fd := fds[fd].(open := open)], holdings[o := holdings[o].(open := open)])
  {}

  lemma HolderAdded(handles: map<nat, Handle>, fds: map<int, DmaBuf>, views: map<nat, View>, holdings: map<Holder,
                    Holding>, o: Holder)
    requires HandlesHeld(handles, holdings) && FdsHeld(fds, holdings) && ViewsHeld(views, holdings) && o !in holdings
    ensures HandlesHeld(handles, holdings[o := NOTHING]) && FdsHeld(fds, holdings[o := NOTHING])
    ensures ViewsHeld(views, holdings[o := NOTHING])
  {}

  function WithMinted(handles: map<nat, Handle>, hs: set<nat>, bo: nat): map<nat, Handle> {
    map h | h in handles.Keys + hs :: if h in handles then handles[h] else Handle(Flight, bo)
  }

  // ---- what is in flight becomes another holder's ----

  function Handed(holdings: map<Holder, Holding>, to: Holder): map<Holder, Holding>
    requires Flight in holdings
  {
    holdings[to := holdings[Flight]][Flight := NOTHING]
  }

  function MoveHandles(handles: map<nat, Handle>, to: Holder): map<nat, Handle> {
    map h | h in handles :: if handles[h].holder == Flight then handles[h].(holder := to) else handles[h]
  }

  function MoveFds(fds: map<int, DmaBuf>, to: Holder): map<int, DmaBuf> {
    map f | f in fds :: if fds[f].holder == Flight then fds[f].(holder := to) else fds[f]
  }

  function MoveViews(views: map<nat, View>, to: Holder): map<nat, View> {
    map v | v in views :: if views[v].holder == Flight then views[v].(holder := to) else views[v]
  }

  lemma HandlesMoved(handles: map<nat, Handle>, holdings: map<Holder, Holding>, to: Holder)
    requires HandlesHeld(handles, holdings) && Flight in holdings && to in holdings && to != Flight
    requires holdings[to].Empty()
    ensures HandlesHeld(MoveHandles(handles, to), Handed(holdings, to))
  {}

  lemma FdsMoved(fds: map<int, DmaBuf>, holdings: map<Holder, Holding>, to: Holder)
    requires FdsHeld(fds, holdings) && Flight in holdings && to in holdings && to != Flight && holdings[to].Empty()
    ensures FdsHeld(MoveFds(fds, to), Handed(holdings, to))
  {}

  lemma ViewsMoved(views: map<nat, View>, holdings: map<Holder, Holding>, to: Holder)
    requires ViewsHeld(views, holdings) && Flight in holdings && to in holdings && to != Flight && holdings[to].Empty()
    ensures ViewsHeld(MoveViews(views, to), Handed(holdings, to))
  {}

  /** An answer GetFB2 may give: fresh handles, all present planes or none of the first. */
  predicate Plausible(fb: Fb, hs: seq<nat>, handles: map<nat, Handle>) {
    && |hs| == 4 && fb.Shaped() && Minted(hs) !! handles.Keys
    && (hs[0] != 0 ==> forall p | 0 <= p < 4 :: hs[p] != 0 <==> fb.present[p])
  }

  datatype Export = Exported(fd: nat) | Denied | Failed(error: int)

  class Kernel {
    var fbs: map<u32, Fb>
    var handles: map<nat, Handle>
    var fds: map<int, DmaBuf>
    var views: map<nat, View>
    var holdings: map<Holder, Holding>
    ghost var log: seq<Act>
    /** Calls that failed, and exports refused for want of privilege. */
    ghost var faults: nat
    ghost var denials: nat

    constructor (slots: nat)
      ensures Sound() && handles == map[] && fds == map[] && views == map[]
      ensures holdings == NoneHeld(slots) && log == []
    {
      fbs, handles, fds, views := map[], map[], map[], map[];
      holdings, log, faults, denials := NoneHeld(slots), [], 0, 0;
    }

    ghost predicate Sound()
      reads this`fbs, this`handles, this`fds, this`views, this`holdings, this`log
    {
      && Flight in holdings && HandlesHeld(handles, holdings) && FdsHeld(fds, holdings) && ViewsHeld(views, holdings)
      && Windows(log, fds) && forall f | f in fbs :: fbs[f].Shaped()
    }

    /** When every holder has given everything back, nothing is live. */
    lemma NothingLive()
      requires Sound() && forall o | o in holdings :: holdings[o].Empty()
      ensures handles == map[] && fds == map[] && views == map[]
    {
      hide Windows;
      assert (forall h :: h !in handles) && (forall f :: f !in fds) && (forall v :: v !in views);
    }

    /** The compositor flips, creates and destroys framebuffers between calls. */
    method Compositor()
      requires Sound()
      modifies this`fbs
      ensures Sound()
    {
      hide HandlesHeld, FdsHeld, ViewsHeld, Windows;
      var id: u32, fb: Fb := *, *;
      var gone: set<u32> := *;
      fbs := fbs - gone;
      if fb.Shaped() { fbs := fbs[id := fb]; }
    }

    /**
     GetFB2 mints a handle per plane, the same one for planes that share a buffer; an unprivileged
     caller gets zeroes.
     */
    method GetFB2(id: u32) returns (ok: bool, fb: Fb, hs: seq<nat>)
      requires Sound() && holdings[Flight].gems == {} && holdings[Flight].fd == -1
      modifies this`handles, this`holdings, this`faults
      ensures faults == old(faults) + if ok then 0 else 1
      ensures Sound()
      ensures !ok ==> handles == old(handles) && holdings == old(holdings)
      ensures ok ==> id in fbs && fb == fbs[id] && |hs| == 4
      ensures ok ==> holdings == old(holdings)[Flight := old(holdings)[Flight].(gems := Minted(hs))]
      ensures ok ==> Minted(hs) !! old(handles).Keys && handles.Keys == old(handles).Keys + Minted(hs)
      ensures ok ==> forall h | h in old(handles) :: handles[h] == old(handles)[h]
      ensures ok && hs[0] != 0 ==> handles[hs[0]].bo == fb.bo && forall p | 0 <= p < 4 :: hs[p] != 0 <==> fb.present[p]
    {
      hide HandlesHeld, FdsHeld, ViewsHeld, Windows;
      ok, hs := *, *;
      fb := Fb(0, 0, [0, 0, 0, 0], [0, 0, 0, 0], 0, 0, false, [false, false, false, false], 0);
      if ok && id in fbs && Plausible(fbs[id], hs, handles) {
        fb := fbs[id];
        HandlesMinted(handles, holdings, Minted(hs), fb.bo);
        FlightGemsOnly(Minted(hs));
        handles := WithMinted(handles, Minted(hs), fb.bo);
        holdings := holdings[Flight := holdings[Flight].(gems := Minted(hs))];
      } else {
        ok := false;
        faults := faults + 1;
      }
    }

    /** The other two ledgers do not look at handles. */
    lemma FlightGemsOnly(gems: set<nat>)
      requires Sound()
      ensures var h := holdings[Flight := holdings[Flight].(gems := gems)]; FdsHeld(fds, h) && ViewsHeld(views, h)
    {}

    method GemClose(h: nat, o: Holder)
      requires Sound() && o in holdings && (h != 0 ==> h in holdings[o].gems)
      modifies this`handles, this`holdings
      ensures Sound() && handles == old(handles) - {h}
      ensures holdings == old(holdings)[o := old(holdings)[o].(gems := old(holdings)[o].gems - {h})]
    {
      hide HandlesHeld, FdsHeld, ViewsHeld, Windows;
      HandleGone(handles, holdings, o, h);
      FdsIgnore(fds, holdings, o, holdings[o].(gems := holdings[o].gems - {h}));
      ViewsIgnore(views, holdings, o, holdings[o].(gems := holdings[o].gems - {h}));
      handles := handles - {h};
      holdings := holdings[o := holdings[o].(gems := holdings[o].gems - {h})];
    }

    /** drmPrimeHandleToFD. */
    method PrimeExport(h: nat) returns (e: Export)
      requires Sound() && holdings[Flight].gems == {h} && holdings[Flight].fd == -1 && holdings[Flight].view == 0
      modifies this`fds, this`holdings, this`faults, this`denials
      ensures faults == old(faults) + (if e.Failed? then 1 else 0)
      ensures denials == old(denials) + if e.Denied? then 1 else 0
      ensures Sound()
      ensures !e.Exported? ==> fds == old(fds) && holdings == old(holdings)
      ensures e.Exported? ==> e.fd !in old(fds) && fds == old(fds)[e.fd := DmaBuf(Flight, handles[h].bo, false)]
      ensures e.Exported? ==>
                holdings == old(holdings)[Flight := old(holdings)[Flight].(fd := e.fd, bo := handles[h].bo)]
      ensures e.Failed? ==> e.error < 0
    {
      hide Windows;
      e := *;
      if e.Failed? && e.error >= 0 { e := Denied; }
      if e.Failed? { faults := faults + 1; }
      if e.Denied? { denials := denials + 1; }
      if e.Exported? {
        var fd: int := e.fd;
        if fd < 0 || fd in fds {
          e := Denied;
          denials := denials + 1;
          return;
        }
        FdTaken(fds, holdings, fd, handles[h].bo);
        HandlesWithFd(handles, holdings, fd, handles[h].bo);
        ViewsWithFd(views, holdings, fd, handles[h].bo);
        hide HandlesHeld, FdsHeld, ViewsHeld;
        WindowsKept(log, fds, fds[fd := DmaBuf(Flight, handles[h].bo, false)]);
        fds := fds[fd := DmaBuf(Flight, handles[h].bo, false)];
        holdings := holdings[Flight := holdings[Flight].(fd := fd, bo := handles[h].bo)];
      }
    }

    /** A descriptor the helper passes over its socket. */
    method ReceiveFd() returns (fd: int)
      requires Sound() && holdings[Flight].gems == {} && holdings[Flight].fd == -1 && holdings[Flight].view == 0
      modifies this`fds, this`holdings
      ensures Sound() && fd >= -1
      ensures fd < 0 ==> fds == old(fds) && holdings == old(holdings)
      ensures fd >= 0 ==> fd !in old(fds) && fd in fds && fds == old(fds)[fd := DmaBuf(Flight, fds[fd].bo, false)]
      ensures fd >= 0 ==> holdings == old(holdings)[Flight := old(holdings)[Flight].(fd := fd, bo := fds[fd].bo)]
    {
      hide Windows;
      fd := *;
      var bo: nat := *;
      if fd < -1 || fd in fds { fd := -1; }
      if fd >= 0 {
        FdTaken(fds, holdings, fd, bo);
        HandlesWithFd(handles, holdings, fd, bo);
        ViewsWithFd(views, holdings, fd, bo);
        hide HandlesHeld, FdsHeld, ViewsHeld;
        WindowsKept(log, fds, fds[fd := DmaBuf(Flight, bo, false)]);
        fds := fds[fd := DmaBuf(Flight, bo, false)];
        holdings := holdings[Flight := holdings[Flight].(fd := fd, bo := bo)];
      }
    }

    /** close(fd): the access window must have been closed first. */
    method CloseFd(fd: int, o: Holder)
      requires Sound() && o in holdings && holdings[o].fd == fd >= 0 && !holdings[o].open
      modifies this`fds, this`holdings
      ensures Sound() && fds == old(fds) - {fd} && holdings == old(holdings)[o := old(holdings)[o].(fd := -1)]
    {
      hide HandlesHeld, FdsHeld, ViewsHeld, Windows;
      FdGone(fds, holdings, o);
      HandlesIgnore(handles, holdings, o, holdings[o].(fd := -1));
      ViewsIgnore(views, holdings, o, holdings[o].(fd := -1));
      WindowsKept(log, fds, fds - {fd});
      fds := fds - {fd};
      holdings := holdings[o := holdings[o].(fd := -1)];
    }

    /** DMA_BUF_SYNC_START; on failure no window opens. */
    method SyncStart(fd: int, o: Holder) returns (ok: bool)
      requires Sound() && o in holdings && holdings[o].fd == fd >= 0 && !holdings[o].open
      modifies this`fds, this`holdings, this`log
      ensures Sound() && holdings == old(holdings)[o := old(holdings)[o].(open := ok)]
      ensures log == old(log) + [Start(fd, ok)]
      ensures fds == old(fds)[fd := old(fds)[fd].(open := ok)]
    {
      hide HandlesHeld, FdsHeld, ViewsHeld, Windows;
      ok := *;
      FdWindow(fds, holdings, o, fd, ok);
      HandlesIgnore(handles, holdings, o, holdings[o].(open := ok));
      ViewsIgnore(views, holdings, o, holdings[o].(open := ok));
      WindowsAfter(log, Start(fd, ok), fds, fd, ok);
      log := log + [Start(fd, ok)];
      fds := fds[fd := fds[fd].(open := ok)];
      holdings := holdings[o := holdings[o].(open := ok)];
    }

    /** DMA_BUF_SYNC_END: only for a window that is open. */
    method SyncEnd(fd: int, o: Holder)
      requires Sound() && o in holdings && holdings[o].fd == fd >= 0 && holdings[o].open
      modifies this`fds, this`holdings, this`log
      ensures Sound() && holdings == old(holdings)[o := old(holdings)[o].(open := false)] && log == old(log) + [End(fd)]
      ensures fds == old(fds)[fd := old(fds)[fd].(open := false)]
    {
      hide HandlesHeld, FdsHeld, ViewsHeld, Windows;
      FdWindow(fds, holdings, o, fd, false);
      HandlesIgnore(handles, holdings, o, holdings[o].(open := false));
      ViewsIgnore(views, holdings, o, holdings[o].(open := false));
      WindowsAfter(log, End(fd), fds, fd, false);
      log := log + [End(fd)];
      fds := fds[fd := fds[fd].(open := false)];
      holdings := holdings[o := holdings[o].(open := false)];
    }

    /** virtio: the host's pixels are pulled into this handle's buffer, or the transfer fails. */
    method TransferFromHost(h: nat) returns (ret: int)
      requires Sound() && h in handles
      modifies this`log, this`faults
      ensures faults == old(faults) + if ret < 0 then 1 else 0
      ensures Sound() && ret <= 0
      ensures log == if ret == 0 then old(log) + [Transfer(handles[h].bo)] else old(log)
    {
      hide HandlesHeld, FdsHeld, ViewsHeld, Windows;
      ret := *;
      if ret > 0 { ret := 0; }
      if ret < 0 { faults := faults + 1; }
      if ret == 0 {
        TransferOwesNothing(log, handles[h].bo, fds);
        log := log + [Transfer(handles[h].bo)];
      }
    }

    /** mmap: of the holder's descriptor, or of its handle through the dumb-buffer path. */
    method Mmap(size: nat, base: Base, o: Holder) returns (v: nat)
      requires Sound() && o in holdings && holdings[o].view == 0 && holdings[o].fd >= 0
      requires base.Dumb? ==> holdings[o].gems != {}
      modifies this`views, this`holdings, this`faults
      ensures faults == old(faults) + if v == 0 then 1 else 0
      ensures Sound()
      ensures v == 0 ==> views == old(views) && holdings == old(holdings)
      ensures v != 0 ==> v !in old(views) && views == old(views)[v := View(o, old(holdings)[o].bo, size, base)]
      ensures v != 0 ==> holdings == old(holdings)[o := old(holdings)[o].(view := v, size := size, base := base)]
    {
      hide Windows;
      v := *;
      if v in views { v := 0; }
      if v == 0 { faults := faults + 1; }
      if v != 0 {
        ViewTaken(v, size, base, o);
        hide HandlesHeld, FdsHeld, ViewsHeld;
        views := views[v := View(o, holdings[o].bo, size, base)];
        holdings := holdings[o := holdings[o].(view := v, size := size, base := base)];
      }
    }

    lemma ViewTaken(v: nat, size: nat, base: Base, o: Holder)
      requires Sound() && o in holdings && holdings[o].view == 0 && v != 0 && v !in views
      ensures var h := holdings[o := holdings[o].(view := v, size := size, base := base)];
              && HandlesHeld(handles, h) && FdsHeld(fds, h)
              && ViewsHeld(views[v := View(o, holdings[o].bo, size, base)], h)
    {
      hide Windows;
    }

    method Munmap(v: nat, o: Holder)
      requires Sound() && o in holdings && holdings[o].view == v != 0
      modifies this`views, this`holdings
      ensures Sound() && views == old(views) - {v} && holdings == old(holdings)[o := old(holdings)[o].(view := 0)]
    {
      hide HandlesHeld, FdsHeld, ViewsHeld, Windows;
      ViewGone(views, holdings, o);
      HandlesIgnore(handles, holdings, o, holdings[o].(view := 0));
      FdsIgnore(fds, holdings, o, holdings[o].(view := 0));
      views := views - {v};
      holdings := holdings[o := holdings[o].(view := 0)];
    }

    // ---- handing over ----

    /** A new record that may come to hold things. */
    method Enroll(o: Holder)
      requires Sound() && o !in holdings
      modifies this`holdings
      ensures Sound() && holdings == old(holdings)[o := NOTHING]
    {
      hide HandlesHeld, FdsHeld, ViewsHeld, Windows;
      HolderAdded(handles, fds, views, holdings, o);
      holdings := holdings[o := NOTHING];
    }

    /** A record is freed: it must not hold anything any more, or that would leak. */
    method Retire(o: Holder)
      requires Sound() && o != Flight && o in holdings && holdings[o].Empty()
      modifies this`holdings
      ensures Sound() && holdings == old(holdings) - {o}
    {
      hide Windows;
      holdings := holdings - {o};
    }

    /** What the call in progress holds becomes another holder's. */
    method Adopt(to: Holder)
      requires Sound() && to in holdings && to != Flight && holdings[to].Empty()
      modifies this`handles, this`fds, this`views, this`holdings
      ensures Sound() && holdings == old(holdings)[to := old(holdings)[Flight]][Flight := NOTHING]
      ensures views.Keys == old(views).Keys
      ensures forall v | v in views :: views[v] == old(views)[v].(holder := views[v].holder)
      ensures handles.Keys == old(handles).Keys && forall h | h in handles :: handles[h].bo == old(handles)[h].bo
    {
      hide HandlesHeld, FdsHeld, ViewsHeld, Windows;
      HandlesMoved(handles, holdings, to);
      FdsMoved(fds, holdings, to);
      ViewsMoved(views, holdings, to);
      WindowsKept(log, fds, MoveFds(fds, to));
      handles := MoveHandles(handles, to);
      fds := MoveFds(fds, to);
      views := MoveViews(views, to);
      holdings := Handed(holdings, to);
    }
  }
}
