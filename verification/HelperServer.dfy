/**
 The helper's side of the channel: how each reply is built from what the kernel answers, and the
 command loop on one connection.
 */
module HelperServer {
  import opened Arith
  import opened Words
  import opened Geometry
  import opened Options
  import opened Wire
  import opened HelperProtocol
  import opened AutoProcess

  // ---- which plane ----

  datatype Kind = Primary | Overlay | Pointer

  /** The whole of a mapped framebuffer. */
  function BytesOf(f: Fb, bytes: (Fb, nat) -> u8): (b: seq<u8>)
    ensures |b| == f.pitch * f.height && forall i | 0 <= i < |b| :: b[i] == bytes(f, i)
  {
    MulMonotone(0, f.pitch, f.height);
    seq(f.pitch * f.height, i requires 0 <= i => bytes(f, i))
  }

  /** A plane as the kernel lists it, with the cursor properties it has. */
  datatype Plane = Plane(crtc: u32, fb: u32, kind: Kind, x: u32, y: u32, hotX: Option<u32>, hotY: Option<u32>)

  /** A framebuffer as drmModeGetFB2 describes it. */
  datatype Fb = Fb(handle: nat, width: u32, height: u32, pitch: u32, format: u32, rawModifier: u64,
                   hasModifiers: bool)
  {
    function Modifier(): u64 { if hasModifiers then rawModifier else D.MOD_INVALID }
  }

  /** The plane could be read, shows a framebuffer, and is on the target; target 0 is any CRTC. */
  predicate Active(p: Option<Plane>, target: u32) {
    p.Some? && p.value.fb != 0 && (target == 0 || p.value.crtc == target)
  }

  predicate ActivePrimary(p: Option<Plane>, target: u32) {
    Active(p, target) && p.value.kind.Primary?
  }

  predicate ActivePointer(p: Option<Plane>, target: u32) {
    Active(p, target) && p.value.kind.Pointer?
  }

  /** The scanout of a target: its first active primary plane, else its first active plane. */
  ghost predicate Scanout(planes: seq<Option<Plane>>, target: u32, i: nat) {
    && i < |planes| && Active(planes[i], target)
    && if planes[i].value.kind.Primary? then forall j | 0 <= j < i :: !ActivePrimary(planes[j], target)
       else
         && (forall j | 0 <= j < |planes| :: !ActivePrimary(planes[j], target))
         && (forall j | 0 <= j < i :: !Active(planes[j], target))
  }

  /** The sweep for the plane to grab: its index, or -1. */
  method PickScanout(planes: seq<Option<Plane>>, target: u32) returns (at: int)
    ensures at < |planes| && (at >= 0 ==> Scanout(planes, target, at))
    ensures at < 0 ==> forall i | 0 <= i < |planes| :: !Active(planes[i], target)
  {
    at := -1;
    var i := 0;
    while i < |planes|
      invariant 0 <= i <= |planes| && at < i
      invariant forall j | 0 <= j < i :: !ActivePrimary(planes[j], target)
      invariant at < 0 ==> forall j | 0 <= j < i :: !Active(planes[j], target)
      invariant at >= 0 ==> Active(planes[at], target) && forall j | 0 <= j < at :: !Active(planes[j], target)
    {
      if Active(planes[i], target) {
        var primary := planes[i].value.kind.Primary?;
        if primary || at < 0 { at := i; }
        if primary { break; }
      }
      i := i + 1;
    }
  }

  /** The sweep for the cursor plane: the first active one of that kind, or -1. */
  method PickPointer(planes: seq<Option<Plane>>, target: u32) returns (at: int)
    ensures at < |planes| && (at >= 0 ==> ActivePointer(planes[at], target))
    ensures forall j | 0 <= j < (if at < 0 then |planes| else at) :: !ActivePointer(planes[j], target)
  {
    at := 0;
    while at < |planes|
      invariant 0 <= at <= |planes|
      invariant forall j | 0 <= j < at :: !ActivePointer(planes[j], target)
    {
      if ActivePointer(planes[at], target) { return; }
      at := at + 1;
    }
    at := -1;
  }

  // ---- grab ----

  datatype Hdr = Hdr(eotf: u32, nits: u32)

  /** What the kernel answers while one grab is served: planes, framebuffers, mappings, and each CRTC's HDR state. */
  datatype GrabWorld = GrabWorld(planes: Option<seq<Option<Plane>>>, fbs: u32 -> Option<Fb>, virtio: bool, virgl: bool,
                                 exported: bool, mappable: Fb -> bool, bytes: (Fb, nat) -> u8, stamp: seq<u32>,
                                 hdr: u32 -> Hdr)
  {
    /** Sequence number and timestamp are four words; the features are those of virtio. */
    predicate Consistent() { |stamp| == 4 && (virgl ==> virtio) }

    /** A mapping has the bytes it was asked for. */
    function View(f: Fb): Option<seq<u8>> { if mappable(f) then Option.Some(BytesOf(f, bytes)) else Option.None }

    /** No CRTC, no HDR metadata. */
    function HdrOf(crtc: u32): Hdr { if crtc == 0 then Hdr(0, 0) else hdr(crtc) }
  }

  /** There is a framebuffer to serve, and its geometry is in bounds. */
  predicate Servable(f: Option<Fb>) {
    f.Some? && f.value.handle != 0 && ValidateFbSize(f.value.pitch, f.value.height) == 0
  }

  function ErrorMeta(): (m: seq<u32>)
    ensures |m| == META_WORDS && m[META_SIZE] == 0 && m[META_FLAGS] == 0
  {
    Zeros(META_WORDS)
  }

  function GrabMeta(k: GrabWorld, p: Plane, f: Fb, size: u32, flags: u32): (m: seq<u32>)
    requires |k.stamp| == 4
    ensures |m| == META_WORDS && m[META_SIZE] == size && m[META_FLAGS] == flags
  {
    [f.width, f.height, f.pitch, f.format, p.fb, size, f.Modifier() % 0x1_0000_0000, f.Modifier() / 0x1_0000_0000]
    + k.stamp + [flags, k.HdrOf(p.crtc).eotf, k.HdrOf(p.crtc).nits, 0]
  }

  /** The words that describe the frame, whichever way its pixels travel. */
  ghost predicate Describes(m: seq<u32>, k: GrabWorld, p: Plane, f: Fb) {
    && |m| == 16 && |k.stamp| == 4
    && m[0] == f.width && m[1] == f.height && m[2] == f.pitch && m[3] == f.format && m[4] == p.fb
    && (m[6] as int) + (m[7] as int) * 0x1_0000_0000 ==
       (if f.hasModifiers then f.rawModifier else 0x00ff_ffff_ffff_ffff)
    && m[8..12] == k.stamp
    && (p.crtc == 0 ==> m[13] == 0 && m[14] == 0)
    && (p.crtc != 0 ==> m[13] == k.hdr(p.crtc).eotf && m[14] == k.hdr(p.crtc).nits)
  }

  /** grab_and_send: the error meta, the descriptor, or the whole mapping, of the plane at index `at`. */
  method GrabAndSend(k: GrabWorld, target: u32) returns (r: Reply, ghost at: int)
    requires k.Consistent()
    ensures r.AnswersGrab() && |r.meta| == 16
    ensures if k.planes.None? then at == -1
            else if at >= 0 then Scanout(k.planes.value, target, at)
            else forall i | 0 <= i < |k.planes.value| :: !Active(k.planes.value[i], target)
    ensures at < 0 ==> r == Reply(ErrorMeta(), [])
    ensures at >= 0 ==> k.planes.Some? && at < |k.planes.value| && k.planes.value[at].Some?
    // the descriptor travels for tiled or unknown layouts and for virtio, tagged when it must be read on the GPU
    ensures at >= 0 ==>
              var f := k.fbs(k.planes.value[at].value.fb);
              && (r.meta[12] % 2 == 1 <==>
                  Servable(f) && (f.value.Modifier() != 0 || k.virtio) && k.exported)
              && (r.meta[12] % 2 == 1 ==> r.meta[12] == if k.virgl then 3 else 1)
    // else the pixels, all of them
    ensures at >= 0 ==>
              var f := k.fbs(k.planes.value[at].value.fb);
              && (r.payload != [] <==>
                  Servable(f) && k.View(f.value).Some? &&
                  !((f.value.Modifier() != 0 || k.virtio) && (k.exported || k.virgl)))
              && (r.payload != [] ==>
                  && r.payload == k.View(f.value).value && |r.payload| == f.value.pitch * f.value.height <= 132_710_400
                  && r.meta[5] == |r.payload| && r.meta[12] == 0
                  && forall i | 0 <= i < |r.payload| :: r.payload[i] == k.bytes(f.value, i))
    // and either way the words of that framebuffer
    ensures r == Reply(ErrorMeta(), []) ||
            (at >= 0 && k.fbs(k.planes.value[at].value.fb).Some? &&
             Describes(r.meta, k, k.planes.value[at].value, k.fbs(k.planes.value[at].value.fb).value))
    ensures r == Reply(ErrorMeta(), []) || r.payload != [] || r.meta[12] % 2 == 1
  {
    r, at := Reply(ErrorMeta(), []), -1;
    if k.planes.None? { return; }
    var i := PickScanout(k.planes.value, target);
    at := i;
    if i < 0 { return; }
    var p := k.planes.value[i].value;
    var fb := k.fbs(p.fb);
    if fb.None? || fb.value.handle == 0 { return; }
    var f := fb.value;
    if ValidateFbSize(f.pitch, f.height) != 0 { return; }
    if f.Modifier() != D.MOD_LINEAR || k.virtio {
      if k.exported {
        r := Reply(GrabMeta(k, p, f, 0, if k.virgl then 3 else 1), []);
        return;
      }
      if k.virgl { return; }
    }
    var view := k.View(f);
    if view.None? { return; }
    SizeBound(f.pitch, f.height);
    MulBounds(f.pitch, f.height);
    r := Reply(GrabMeta(k, p, f, |view.value|, 0), view.value);
  }

  // ---- cursor ----

  /** What the kernel answers while one cursor command is served. */
  datatype CursorWorld = CursorWorld(planes: Option<seq<Option<Plane>>>, fbs: u32 -> Option<Fb>,
                                     mappable: Fb -> bool, bytes: (Fb, nat) -> u8)
  {
    function View(f: Fb): Option<seq<u8>> { if mappable(f) then Option.Some(BytesOf(f, bytes)) else Option.None }

    /** The plane's image can be read. */
    predicate Shown(p: Plane) {
      && fbs(p.fb).Some? && fbs(p.fb).value.handle != 0 && Small(fbs(p.fb).value)
      && View(fbs(p.fb).value).Some?
    }
  }

  /** The geometry cap, taken before any product. */
  predicate Small(f: Fb) { f.width <= 256 && f.height <= 256 && f.pitch != 0 && f.pitch >= f.width * 4 }

  function OrZero(o: Option<u32>): u32 {
    if o.Some? then o.value else 0
  }

  function CursorMeta(p: Plane, extended: bool, width: u32, height: u32, visible: u32, size: u32): (m: seq<u32>)
    ensures |m| == CURSOR_WORDS + (if extended then 1 else 0) && m[CURSOR_VISIBLE] == visible && m[CURSOR_SIZE] == size
  {
    [p.x, p.y, OrZero(p.hotX), OrZero(p.hotY), width, height, visible, size]
    + if extended then [if p.hotX.Some? && p.hotY.Some? then 1 else 0] else []
  }

  function PackShape(f: Fb): D.Shape
    requires Small(f)
  {
    D.Shape(f.width, f.height, f.pitch, f.width * 4, f.pitch * f.height)
  }

  lemma PackedFits(f: Fb)
    requires Small(f)
    ensures 0 <= f.width * 4 * f.height <= CURSOR_MAX && f.width * f.height * 4 == f.width * 4 * f.height
    ensures f.width > 0 && f.height > 0 ==> PackShape(f).DstEnd() == f.width * 4 * f.height
  {
    MulMonotone(f.width * 4, 256 * 4, f.height);
    MulMonotone(f.height, 256, 256 * 4);
    MulMonotone(0, f.width * 4, f.height);
    MulAssoc(f.width, 4, f.height);
    if f.height > 0 { RowBelow(f.height - 1, f.height, f.width * 4); MulSum(f.height - 1, 1, f.width * 4); }
  }

  /** The rows of the cursor, tightly packed into the fixed buffer. */
  method Pack(f: Fb, mapped: array<u8>, packed: array<u8>)
    requires Small(f) && mapped != packed && mapped.Length == f.pitch * f.height && packed.Length == CURSOR_MAX
    modifies packed
    ensures f.width > 0 && f.height > 0 ==>
              packed[..] == D.Decoded(D.Rows, mapped[..], PackShape(f), old(packed[..]))
  {
    if f.width > 0 && f.height > 0 {
      PackedFits(f);
      D.CopyRows(mapped, packed, PackShape(f));
    }
  }

  /** A prefix that ends after the last pixel shows every pixel. */
  lemma PrefixShows(f: Fb, src: seq<u8>, out: seq<u8>, was: seq<u8>)
    requires Small(f) && f.width > 0 && f.height > 0 && |src| == f.pitch * f.height && |was| == CURSOR_MAX
    requires out == D.Decoded(D.Rows, src, PackShape(f), was)
    ensures 0 <= f.width * 4 * f.height <= |out|
    ensures ShowsDecoded(out[..f.width * 4 * f.height], f.width * 4, D.Rows, src, PackShape(f), R.Copy)
  {
    PackedFits(f);
    var s, n := PackShape(f), f.width * 4 * f.height;
    hide D.Decoded, D.Pixel, D.Shape.DstEnd, Small, PixelIs, R.Conversion.Apply;
    DecodedShows(D.Rows, src, s, was);
    forall x, y | 0 <= x < s.width && 0 <= y < s.height
      ensures PixelIs(out[..n], f.width * 4, x, y, R.Conversion.Copy.Apply(D.Pixel(D.Rows, src, s, x, y)))
    {
      assert PixelIs(out, f.width * 4, x, y, R.Conversion.Copy.Apply(D.Pixel(D.Rows, src, s, x, y)));
      RowBelow(y, f.height, f.width * 4);
      MulSum(f.height - 1, 1, f.width * 4);
      PrefixPixel(out, n, f.width * 4, x, y, R.Conversion.Copy.Apply(D.Pixel(D.Rows, src, s, x, y)));
    }
  }

  /** A cursor's packed bytes are those of its rows, without their padding. */
  lemma CursorByte(f: Fb, bytes: (Fb, nat) -> u8, out: seq<u8>, x: u32, y: u32, b: nat) returns (i: nat, j: nat)
    requires Small(f) && x < f.width && y < f.height && b < 4
    requires ShowsDecoded(out, f.width * 4, D.Rows, BytesOf(f, bytes), PackShape(f), R.Copy)
    ensures i == y * (f.width * 4) + x * 4 + b && j == y * f.pitch + x * 4 + b
    ensures i < |out| && out[i] == bytes(f, j)
  {
    hide D.Pixel, ShowsDecoded;
    var src, s := BytesOf(f, bytes), PackShape(f);
    i := ShownByte(out, D.Rows, src, s, x, y, b);
    LastByte(f.pitch, f.height, f.width * 4);
    RowBelow(y, f.height, f.pitch);
    assert y * s.srcStride + s.width * 4 <= s.srcSize;
    D.LinearPixel(D.MOD_LINEAR, src, s, x, y, b);
    MulMonotone(0, y, f.pitch);
    j := y * f.pitch + x * 4 + b;
  }

  lemma PrefixPixel(out: seq<u8>, n: nat, stride: nat, x: nat, y: nat, px: seq<u8>)
    requires n <= |out| && PixelIs(out, stride, x, y, px) && 0 <= y * stride && y * stride + x * 4 + 4 <= n
    ensures PixelIs(out[..n], stride, x, y, px)
  {
    var at := y * stride + x * 4;
    assert out[..n][at..][..4] == out[at..][..4];
  }

  /** cursor_and_send: invisible unless every step succeeds; then the pixels, packed, under the cap. */
  method CursorAndSend(extended: bool, k: CursorWorld, target: u32, packed: array<u8>) returns (r: Reply, ghost at: int)
    requires packed.Length == CURSOR_MAX
    modifies packed
    ensures r.AnswersCursor(extended) && |r.payload| <= CURSOR_MAX
    ensures |r.meta| == (if extended then 9 else 8) && r.meta[7] == |r.payload|
    // the first active cursor plane of the target
    ensures k.planes.None? ==> at == -1
    ensures k.planes.Some? ==>
              && at < |k.planes.value|
              && forall j | 0 <= j < (if at < 0 then |k.planes.value| else at) ::
                   !ActivePointer(k.planes.value[j], target)
    ensures at < 0 ==> r == Reply(Zeros(if extended then 9 else 8), [])
    ensures at >= 0 ==> k.planes.Some? && at < |k.planes.value| && ActivePointer(k.planes.value[at], target)
    // its position and hotspot, and whether the hotspot was measured
    ensures at >= 0 ==> Placed(r.meta, k.planes.value[at].value, extended)
    ensures at >= 0 ==> PointerImage(r, k, k.planes.value[at].value)
  {
    hide ShowsDecoded, D.Decoded;
    r, at := Reply(Zeros(CURSOR_WORDS + if extended then 1 else 0), []), -1;
    if k.planes.None? { return; }
    var i := PickPointer(k.planes.value, target);
    at := i;
    if i < 0 { return; }
    var p := k.planes.value[i].value;
    var fb := k.fbs(p.fb);
    if fb.None? || fb.value.handle == 0 {
      r := Reply(CursorMeta(p, extended, 0, 0, 0, 0), []);
      return;
    }
    var f := fb.value;
    if !(f.width <= 256 && f.height <= 256 && f.pitch != 0 && f.pitch >= f.width * 4) || k.View(f).None? {
      r := Reply(CursorMeta(p, extended, f.width, f.height, 0, 0), []);
      return;
    }
    PackedFits(f);
    var view := k.View(f).value;
    var mapped := new u8[|view|](i requires 0 <= i < |view| => view[i]);
    assert mapped[..] == view;
    ghost var was := packed[..];
    Pack(f, mapped, packed);
    var tight := f.width * 4 * f.height;
    if f.width > 0 && f.height > 0 { PrefixShows(f, view, packed[..], was); }
    r := Reply(CursorMeta(p, extended, f.width, f.height, 1, tight), packed[..tight]);
  }

  /** The size, when the plane has an image, and all of its pixels when they can be read. */
  ghost predicate PointerImage(r: Reply, k: CursorWorld, p: Plane) {
    && |r.meta| in {8, 9}
    && (if k.fbs(p.fb).Some? && k.fbs(p.fb).value.handle != 0
        then r.meta[4] == k.fbs(p.fb).value.width && r.meta[5] == k.fbs(p.fb).value.height
        else r.meta[4] == 0 && r.meta[5] == 0)
    && r.meta[6] == (if k.Shown(p) then 1 else 0)
    && (!k.Shown(p) ==> r.payload == [])
    && (k.Shown(p) ==>
          var f := k.fbs(p.fb).value;
          && |r.payload| == f.width * 4 * f.height
          && (f.width > 0 && f.height > 0 ==>
                ShowsDecoded(r.payload, f.width * 4, D.Rows, k.View(f).value, PackShape(f), R.Copy)))
  }

  /** The words for position and hotspot; an unknown coordinate is zero, and a pair is measured when complete. */
  ghost predicate Placed(m: seq<u32>, p: Plane, extended: bool) {
    && |m| == (if extended then 9 else 8) && m[0] == p.x && m[1] == p.y
    && m[2] == (if p.hotX.Some? then p.hotX.value else 0) && m[3] == (if p.hotY.Some? then p.hotY.value else 0)
    && (extended ==> m[8] == if p.hotX.Some? && p.hotY.Some? then 1 else 0)
  }

  // ---- one connection ----

  /**
   A helper that may be found, and how one connection to it will go: its sends, its receives, its
   ancillary data, and after how many bytes of a reply it dies.
   */
  datatype Peer = Peer(knowsCursor2: bool, sends: seq<int>, script: seq<Event>, control: seq<Ancillary>,
                       cuts: seq<Option<nat>>)

  /** The next reply's cut; none once the script is used up. */
  function NextCut(cuts: seq<Option<nat>>): Option<nat> {
    if cuts == [] then Option.None else cuts[0]
  }

  /** Transfers enough for any cursor reply, a byte at a time. */
  const LONGEST := 4 * (CURSOR_WORDS + 1) + CURSOR_MAX

  /** A helper that takes a command, answers it whole if it knows it, and stays to be read. */
  ghost predicate Obliging(p: Peer) {
    Taken(p.sends) == CMD_BYTES && NextCut(p.cuts).None? && Patience(p.script) >= LONGEST
  }

  /** No interruption, no refused control data, no command cut short. */
  ghost predicate Calm(sends: seq<int>, script: seq<Event>, control: seq<Ancillary>) {
    Uninterrupted(script) && Unrefused(control) && forall n | n in sends :: n <= 0 || n >= CMD_BYTES
  }

  lemma CalmRest(sends: seq<int>, script: seq<Event>, control: seq<Ancillary>)
    requires Calm(sends, script, control)
    ensures Calm(Rest(sends), script, control) && (Taken(sends) == CMD_BYTES || Taken(sends) <= 0)
  {
    assert forall n | n in Rest(sends) :: n in sends;
    if sends != [] { assert sends[0] in sends; }
  }

  // ---- what the machine does around the client ----

  /** One event: a spawn, a send call, or a command that a connection carried and what came back on it. */
  datatype Act = Spawned(ok: bool) | Sent(taken: int)
               | Asked(command: Command, script: seq<Event>, control: seq<Ancillary>, sent: seq<u8>)

  /** Where helpers come from: which will be found, and a log that only this side writes. */
  class Host {
    var peers: seq<Option<Peer>>
    ghost var log: seq<Act>

    constructor (peers: seq<Option<Peer>>)
      ensures this.peers == peers && log == []
    {
      this.peers, log := peers, [];
    }

    /** fork and exec of whatever binary is found next, if any is. */
    method Spawn() returns (link: Link?)
      modifies this
      ensures peers == Rest(old(peers)) && log == old(log) + [Spawned(link != null)]
      ensures link != null <==> old(peers) != [] && old(peers)[0].Some?
      ensures link != null ==>
                fresh(link) && fresh(link.down) && link.peer == old(peers)[0].value && link.Unused() && link.Balanced()
    {
      link := null;
      if peers != [] && peers[0].Some? {
        link := new Link(peers[0].value);
      }
      log := log + [Spawned(link != null)];
      peers := Rest(peers);
    }
  }

  /** What the next send of a command frame takes: so many bytes, or -1; nothing once the script is used up. */
  function Taken(sends: seq<int>): (n: int)
    ensures -1 <= n <= CMD_BYTES
  {
    if sends == [] || !(-1 <= sends[0] <= CMD_BYTES) then -1 else sends[0]
  }

  /** One reply, the command it answers, and what of it was sent: all, or a prefix from a helper that died. */
  datatype Answer = Answer(reply: Reply, sent: seq<u8>, command: Command, world: World)
  {
    /** The reply describes what the kernel showed on the display that the command names. */
    ghost predicate Truthful() {
      match world
      case GrabOf(k, at) =>
        && command.kind == 1 && k.Consistent()
        && (reply != Reply(ErrorMeta(), []) ==>
              && k.planes.Some? && at >= 0 && Scanout(k.planes.value, command.crtc, at)
              && var p := k.planes.value[at].value;
                 && k.fbs(p.fb).Some? && Describes(reply.meta, k, p, k.fbs(p.fb).value)
                 && (reply.payload != [] ==> k.View(k.fbs(p.fb).value) == Option.Some(reply.payload)))
      case PointerOf(k, at) =>
        && command.kind in {2, 3}
        && (if at < 0 then reply == Reply(Zeros(if command.kind == 3 then 9 else 8), [])
            else
              && k.planes.Some? && at < |k.planes.value| && ActivePointer(k.planes.value[at], command.crtc)
              && (forall j | 0 <= j < at :: !ActivePointer(k.planes.value[j], command.crtc))
              && Placed(reply.meta, k.planes.value[at].value, command.kind == 3)
              && PointerImage(reply, k, k.planes.value[at].value))
    }
  }

  /** What the kernel answered while a command was served, and which plane was taken for the display. */
  datatype World = GrabOf(grab: GrabWorld, at: int) | PointerOf(pointer: CursorWorld, at: int)

  function Flown(answers: seq<Answer>): (b: seq<u8>) {
    if answers == [] then [] else Flown(answers[..|answers| - 1]) + answers[|answers| - 1].sent
  }

  /** A live connection: commands not yet read by the helper, replies not yet read by the library. */
  class Link {
    const peer: Peer
    const down: Stream
    var sends: seq<int>
    var cuts: seq<Option<nat>>
    var pending: seq<u8>
    var alive: bool
    /** Every reply served on this connection, in order. */
    ghost var served: seq<Answer>

    constructor (peer: Peer)
      ensures this.peer == peer && fresh(down) && Unused()
      ensures Balanced()
    {
      this.peer := peer;
      down := new Stream(peer.script, peer.control);
      sends, cuts, pending, alive, served := peer.sends, peer.cuts, [], true, [];
    }

    /** As it was made. */
    ghost predicate Unused()
      reads this, down
    {
      && alive && pending == [] && served == [] && sends == peer.sends && cuts == peer.cuts
      && down.bytes == [] && !down.dead && down.script == peer.script && down.control == peer.control
    }

    /** The library has taken, or still has before it, exactly what was served. */
    ghost predicate Balanced()
      reads this`served, down`taken, down`bytes
    {
      down.Total() == Flown(served)
    }

    /** One send call of a whole frame: the number of bytes taken, or -1. */
    method SendCommand(host: Host, c: Command) returns (n: int)
      modifies this`pending, this`sends, host`log
      ensures host.log == old(host.log) + [Sent(n)]
      ensures n == Taken(old(sends)) && sends == Rest(old(sends))
      ensures pending == old(pending) + if n > 0 then CmdBytes(c)[..n] else []
    {
      n := Taken(sends);
      sends := Rest(sends);
      if n > 0 { pending := pending + CmdBytes(c)[..n]; }
      host.log := host.log + [Sent(n)];
    }

    /** The helper reads this frame as a command it serves. */
    ghost predicate Listening(c: Command)
      reads this, down
    {
      alive && !down.dead && CmdValid(c, peer.knowsCursor2) && c.kind != CMD_QUIT
    }

    /** What is still to come on this connection takes, answers and delivers a command whole. */
    ghost predicate Willing()
      reads this`alive, this`cuts, down`dead, down`script
    {
      alive && !down.dead && NextCut(cuts).None? && Patience(down.script) >= LONGEST
    }

    /** Nothing in flight, unless the connection can carry nothing any more. */
    ghost predicate Quiet()
      reads this, down
    {
      down.dead || (down.bytes == [] && (alive ==> pending == []))
    }

    /** With nothing in flight on a live connection, every reply served was read, to the last byte. */
    lemma QuietMeansConsumed()
      requires Balanced() && Quiet() && !down.dead
      ensures down.taken == Flown(served)
    {}

    /** The newest answer, when there is one beyond the first n. */
    ghost function Newest(n: nat): (b: seq<u8>)
      reads this
    {
      if |served| > n then served[|served| - 1].sent else []
    }

    /** The helper's loop body, run on a frame with nothing else outstanding. */
    method Serve(host: Host, c: Command)
      requires down.dead || (down.bytes == [] && (alive ==> pending == CmdBytes(c)))
      requires Balanced()
      modifies this`pending, this`alive, this`served, this`cuts, down`bytes, host`log
      ensures Balanced()
      ensures host.log == old(host.log) + [Asked(c, down.script, down.control, Newest(old(|served|)))]
      ensures old(Listening(c)) ==>
                && |served| == |old(served)| + 1 && served[..|old(served)|] == old(served) && pending == []
                && served[|old(served)|].reply.Answers(c.kind) && down.bytes == served[|old(served)|].sent
      ensures old(Listening(c)) ==>
                var a := served[|old(served)|];
                a.sent == a.reply.Bytes() || (!alive && a.sent <= a.reply.Bytes())
      ensures old(Listening(c)) ==> served[|old(served)|].command == c && served[|old(served)|].Truthful()
      ensures old(Listening(c)) && c.kind != CMD_GRAB ==> |served[|old(served)|].reply.payload| <= CURSOR_MAX
      ensures old(Listening(c)) && old(NextCut(cuts)).None? ==>
                served[|old(served)|].sent == served[|old(served)|].reply.Bytes()
      ensures !old(Listening(c)) ==> !alive && down.bytes == old(down.bytes) && served == old(served)
    {
      hide Flown, CmdFrom, CmdBytes, Encode, Stream.Total;
      ghost var n := |served|;
      ghost var heard := c;
      var heeded := false;
      if alive && !down.dead {
        CmdRoundTrip(c);
        assert pending[..CMD_BYTES] == pending;
        var got := CmdFrom(pending[..CMD_BYTES]);
        heard, pending := got, pending[CMD_BYTES..];
        if CmdValid(got, peer.knowsCursor2) && got.kind != CMD_QUIT {
          ghost var world;
          var r;
          r, world := Dispatch(got);
          var cut := NextCut(cuts);
          cuts := Rest(cuts);
          var dies := cut.Some? && cut.value <= |r.Bytes()|;
          Put(r, if dies then cut.value else |r.Bytes()|, dies, got, world);
          heeded := true;
        }
      }
      if !heeded { alive := false; }
      host.log := host.log + [Asked(heard, down.script, down.control, Newest(n))];
    }

    /** The reply goes out, whole or as far as a dying helper gets. */
    method Put(r: Reply, cut: nat, dies: bool, ghost c: Command, ghost world: World)
      requires down.bytes == [] && cut <= |r.Bytes()| && (!dies ==> cut == |r.Bytes()|) && Balanced()
      modifies this`alive, this`served, down`bytes
      ensures Balanced() && served == old(served) + [Answer(r, r.Bytes()[..cut], c, world)]
      ensures down.bytes == r.Bytes()[..cut]
      ensures alive == (old(alive) && !dies)
    {
      hide Encode;
      var sent := r.Bytes()[..cut];
      ghost var a := Answer(r, sent, c, world);
      assert (served + [a])[..|served|] == served;
      assert down.taken == Flown(served) by { assert down.taken + [] == down.taken; }
      served := served + [a];
      down.bytes := sent;
      if dies { alive := false; }
    }

    /** The switch of the command loop, over whatever the kernel answers. */
    method Dispatch(c: Command) returns (r: Reply, ghost world: World)
      requires c.kind in {CMD_GRAB, CMD_GET_CURSOR, CMD_GET_CURSOR2}
      ensures r.Answers(c.kind) && (c.kind != CMD_GRAB ==> |r.payload| <= CURSOR_MAX)
      ensures forall sent :: Answer(r, sent, c, world).Truthful()
    {
      hide ShowsDecoded, Scanout;
      if c.kind == CMD_GRAB {
        var k := NO_SCANOUT;
        var any: GrabWorld := *;
        if any.Consistent() { k := any; }
        ghost var at;
        r, at := GrabAndSend(k, c.crtc);
        world := GrabOf(k, at);
      } else {
        var k: CursorWorld := *;
        var packed := new u8[CURSOR_MAX];
        ghost var at;
        r, at := CursorAndSend(c.kind == CMD_GET_CURSOR2, k, c.crtc, packed);
        world := PointerOf(k, at);
      }
    }
  }

  const NO_SCANOUT := GrabWorld(Option.None, _ => Option.None, false, false, false, _ => false, (_, _) => 0,
                                [0, 0, 0, 0], _ => Hdr(0, 0))
}
