/**
 The library's side of the helper channel: one command, one reply, and the negotiation of the
 cursor reply that carries the hotspot provenance.
 */
module PrivilegeHelper {
  import opened Words
  import opened Geometry
  import opened Wire
  import opened HelperProtocol
  import opened HelperServer
  import opened Negotiation

  datatype Provenance = Unrecorded | Recorded(measured: bool)

  datatype Cursor = Cursor(visible: bool, words: seq<u32>, pixels: seq<u8>, provenance: Provenance)

  const NO_CURSOR := Cursor(false, [], [], Unrecorded)

  // ---- the cursor drain ----

  const CHUNK := 4096

  /** Bytes the cursor drain takes off the stream: it counts each request as if it were filled. */
  function CursorDrained(script: seq<Event>, avail: nat, rem: nat): (taken: nat)
    ensures taken <= rem && taken <= avail
    decreases rem
  {
    if rem == 0 || script == [] || !script[0].Moves? || avail == 0 then 0
    else
      var c := if rem < CHUNK then rem else CHUNK;
      var k := Clamp(script[0].n, 1, if c < avail then c else avail);
      k + CursorDrained(script[1..], avail - k, rem - c)
  }

  /** Whether that drain ends with the connection gone. */
  predicate DrainDies(script: seq<Event>, avail: nat, rem: nat)
    decreases rem
  {
    if rem == 0 then false
    else if script == [] || script[0].Closes? then true
    else if script[0].Interrupts? then false
    else if avail == 0 then true
    else
      var c := if rem < CHUNK then rem else CHUNK;
      DrainDies(script[1..], avail - Clamp(script[0].n, 1, if c < avail then c else avail), rem - c)
  }

  /** Every chunk arrives whole in one transfer. */
  predicate WholeChunks(script: seq<Event>, avail: nat, rem: nat)
    decreases rem
  {
    rem == 0 ||
    var c := if rem < CHUNK then rem else CHUNK;
    && script != [] && script[0].Moves? && (script[0].n >= c || c == 1)
    && avail >= c && WholeChunks(script[1..], avail - c, rem - c)
  }

  /** The drain resynchronises the stream if and only if no transfer was split. */
  lemma {:induction false} CursorDrainExactly(script: seq<Event>, avail: nat, rem: nat)
    ensures CursorDrained(script, avail, rem) == rem <==> WholeChunks(script, avail, rem)
    decreases rem
  {
    if rem > 0 && script != [] && script[0].Moves? && avail > 0 {
      var c := if rem < CHUNK then rem else CHUNK;
      var k := Clamp(script[0].n, 1, if c < avail then c else avail);
      CursorDrainExactly(script[1..], avail - k, rem - c);
      var rest := CursorDrained(script[1..], avail - k, rem - c);
      assert CursorDrained(script, avail, rem) == k + rest && rest <= rem - c && k <= c;
      assert k == c <==> (script[0].n >= c || c == 1) && avail >= c;
    }
  }

  /** A split transfer in an oversized payload leaves bytes that the next reply will be read from. */
  lemma SplitDrainDesynchronises()
    ensures CursorDrained([Moves(1), Moves(4096)], 262_145, 8192) == 4097
  {
    assert CursorDrained([Moves(4096)], 262_144, 4096) == 4096;
    assert [Moves(1), Moves(4096)][1..] == [Moves(4096)];
  }

  /** One request of the drain: what it leaves to be drained is what was left before. */
  method DrainChunk(s: Stream, rem: nat) returns (got: bool, c: nat)
    requires rem > 0 && !s.dead
    modifies s`bytes, s`script, s`dead, s`taken
    ensures 0 < c <= rem && s.Total() == old(s.Total())
    ensures Uninterrupted(old(s.script)) ==> Uninterrupted(s.script)
    ensures !got ==> s.bytes == old(s.bytes) && CursorDrained(old(s.script), |old(s.bytes)|, rem) == 0
    ensures !got ==> s.dead == DrainDies(old(s.script), |old(s.bytes)|, rem)
    ensures got ==> !s.dead && DrainDies(s.script, |s.bytes|, rem - c) == DrainDies(old(s.script), |old(s.bytes)|, rem)
    ensures got ==> s.bytes[CursorDrained(s.script, |s.bytes|, rem - c)..] ==
                    old(s.bytes)[CursorDrained(old(s.script), |old(s.bytes)|, rem)..]
  {
    c := if rem < CHUNK then rem else CHUNK;
    ghost var before, script := s.bytes, s.script;
    var r := s.Recv(c);
    got := r.Got?;
    if got {
      DrainStep(script, before, rem, c, |r.data|);
    }
  }

  /** The drain loop of an oversized cursor payload. */
  method DrainCursor(s: Stream, size: nat)
    requires !s.dead
    modifies s`bytes, s`script, s`dead, s`taken
    ensures s.bytes == old(s.bytes)[CursorDrained(old(s.script), |old(s.bytes)|, size)..]
    ensures s.dead == DrainDies(old(s.script), |old(s.bytes)|, size) && s.Total() == old(s.Total())
    ensures Uninterrupted(old(s.script)) ==> Uninterrupted(s.script)
  {
    hide WholeChunks, Patience, Stream.Total, Uninterrupted;
    var rem := size;
    ghost var left := s.bytes[CursorDrained(s.script, |s.bytes|, size)..];
    while rem > 0
      invariant 0 <= rem <= size && !s.dead && s.Total() == old(s.Total())
      invariant s.bytes[CursorDrained(s.script, |s.bytes|, rem)..] == left
      invariant Uninterrupted(old(s.script)) ==> Uninterrupted(s.script)
      invariant DrainDies(s.script, |s.bytes|, rem) == DrainDies(old(s.script), |old(s.bytes)|, size)
      decreases rem
    {
      var got, c := DrainChunk(s, rem);
      if !got {
        assert s.bytes[0..] == s.bytes;
        return;
      }
      rem := rem - c;
    }
  }

  lemma DrainStep(script: seq<Event>, bytes: seq<u8>, rem: nat, c: nat, k: nat)
    requires rem > 0 && script != [] && script[0].Moves? && bytes != [] && c == (if rem < CHUNK then rem else CHUNK)
    requires k == Clamp(script[0].n, 1, if c < |bytes| then c else |bytes|)
    ensures bytes[CursorDrained(script, |bytes|, rem)..] ==
            bytes[k..][CursorDrained(script[1..], |bytes| - k, rem - c)..]
    ensures DrainDies(script, |bytes|, rem) == DrainDies(script[1..], |bytes| - k, rem - c)
  {}

  /** Whether the oversized frame drain, which counts the bytes it got, gets them all. */
  predicate FrameDrained(script: seq<Event>, avail: nat, rem: nat)
    decreases |script|
  {
    rem == 0 ||
    (script != [] && script[0].Moves? && avail > 0 &&
     var c := if rem < CHUNK then rem else CHUNK;
     var k := Clamp(script[0].n, 1, if c < avail then c else avail);
     FrameDrained(script[1..], avail - k, rem - k))
  }

  /** The drain loop of an oversized frame: it consumes exactly the payload. */
  method DrainFrame(s: Stream, size: nat) returns (ok: bool)
    requires !s.dead
    modifies s`bytes, s`script, s`dead, s`taken
    ensures s.Total() == old(s.Total())
    ensures ok <==> FrameDrained(old(s.script), |old(s.bytes)|, size)
    ensures ok ==> size <= |old(s.bytes)| && s.bytes == old(s.bytes)[size..] && !s.dead
    ensures Uninterrupted(old(s.script)) ==> Uninterrupted(s.script)
  {
    hide Patience, Uninterrupted;
    var rem := size;
    while rem > 0
      invariant 0 <= rem <= size && size - rem <= |old(s.bytes)| && s.bytes == old(s.bytes)[size - rem..]
      invariant s.Total() == old(s.Total())
      invariant !s.dead
      invariant (FrameDrained(s.script, |s.bytes|, rem) <==> FrameDrained(old(s.script), |old(s.bytes)|, size))
      invariant Uninterrupted(old(s.script)) ==> Uninterrupted(s.script)
      decreases rem
    {
      var r := s.Recv(if rem < CHUNK then rem else CHUNK);
      if !r.Got? { return false; }
      rem := rem - |r.data|;
    }
    ok := true;
  }

  // ---- exactly when a reply leaves the connection usable ----

  /**
   A grab reply of which `sent` was put in flight: bytes stay unread only if recvmsg was interrupted, or
   its control data was refused before everything had been taken.
   */
  predicate GrabReplyKept(script: seq<Event>, control: seq<Ancillary>, sent: seq<u8>) {
    match FdRun(script, |sent|, META_BYTES, Refused(NextControl(control)))
    case CallInterrupted => sent == []
    case Rejected(got) => got == |sent|
    case _ => true
  }

  /**
   A cursor reply: once its metadata is read, payload stays unread only if its buffer was not granted, or
   an oversized one was not drained to the end.
   */
  predicate CursorReplyKept(script: seq<Event>, granted: bool, extended: bool, sent: seq<u8>) {
    var size := CursorBytes(extended);
    match RecvRun(script, |sent|, size)
    case Lost => true
    case Completed(rest) => PayloadKept(Decode(sent[..size]), rest, granted, |sent| - size)
  }

  /** The same once the metadata is read, with `left` bytes before the library. */
  predicate PayloadKept(words: seq<u32>, script: seq<Event>, granted: bool, left: nat)
    requires |words| >= CURSOR_WORDS
  {
    var size := words[CURSOR_SIZE];
    if words[CURSOR_VISIBLE] == 0 || size == 0 then left == 0
    else if size > CURSOR_MAX then DrainDies(script, left, size) || CursorDrained(script, left, size) == left
    else granted || left == 0
  }

  /** A connection first used by this call: a command frame cut short stays there for good. */
  predicate FirstUseKept(sends: seq<int>, replyKept: bool) {
    if Taken(sends) == CMD_BYTES then replyKept else Taken(sends) <= 0
  }

  /** The next malloc; granted once the script is used up. */
  predicate Granted(allocs: seq<bool>) { allocs == [] || allocs[0] }

  // ---- exactly what a call returns ----

  /** What a grab returns for a command that was carried. */
  function GrabRet(a: Act, bufSize: nat): (ret: int)
    requires a.Asked?
  {
    match FdRun(a.script, |a.sent|, META_BYTES, Refused(NextControl(a.control)))
    case Delivered(rest) => GrabPayloadRet(Decode(a.sent[..META_BYTES]), Descriptors(NextControl(a.control).blocks) > 0,
                                           rest, |a.sent| - META_BYTES, bufSize)
    case _ => EIO
  }

  /** The same once the metadata is read, with `left` bytes before the library. */
  function GrabPayloadRet(meta: seq<u32>, passed: bool, script: seq<Event>, left: nat, bufSize: nat): (ret: int)
    requires |meta| >= META_WORDS
  {
    if HasDmabuf(meta[META_FLAGS]) then if passed then 0 else EIO
    else if meta[META_SIZE] == 0 then EIO
    else if meta[META_SIZE] > bufSize then if FrameDrained(script, left, meta[META_SIZE]) then ENOSPC else EIO
    else if RecvRun(script, left, meta[META_SIZE]).Completed? then 0 else EIO
  }

  /** What a grab returns, by the latest thing that happened. */
  function GrabVerdict(a: Act, bufSize: nat): (ret: int) {
    match a
    case Spawned(_) => EACCES
    case Sent(_) => EIO
    case Asked(_, _, _, _) => GrabRet(a, bufSize)
  }

  /** What a cursor poll returns for the command it ends on. */
  function PollRet(a: Act, granted: bool): (ret: int)
    requires a.Asked?
  {
    var size := CursorBytes(a.command.kind == CMD_GET_CURSOR2);
    match RecvRun(a.script, |a.sent|, size)
    case Lost => EIO
    case Completed(rest) => PixelsRet(Decode(a.sent[..size]), rest, granted, |a.sent| - size)
  }

  /** The same once the metadata is read; an oversized payload is dropped, not refused. */
  function PixelsRet(words: seq<u32>, script: seq<Event>, granted: bool, left: nat): (ret: int)
    requires |words| >= CURSOR_WORDS
  {
    var size := words[CURSOR_SIZE];
    if words[CURSOR_VISIBLE] == 0 || size == 0 || size > CURSOR_MAX then 0
    else if !granted then ENOMEM
    else if RecvRun(script, left, size).Completed? then 0 else EIO
  }

  /** What a cursor poll that failed before its command was carried ends on. */
  predicate NotCarried(a: Act) {
    a == Spawned(false) || (a.Sent? && a.taken != CMD_BYTES)
  }

  /** An interrupted recvmsg leaves the whole reply for the next command to misread. */
  lemma InterruptedRecvmsgMisaligns(sent: seq<u8>)
    requires sent != []
    ensures !GrabReplyKept([Interrupts], [], sent)
  {}

  /** Control data refused after a first byte leaves 63 of the error reply's 64. */
  lemma ShortRefusalMisaligns()
    ensures !GrabReplyKept([Moves(1)], [Ancillary([], true)], Zeros(64))
    ensures GrabReplyKept([Moves(64)], [Ancillary([], true)], Zeros(64))
  {}

  /** A retried command that is cut short leaves part of a frame before the next one. */
  lemma CutCommandMisaligns(replyKept: bool)
    ensures !FirstUseKept([5], replyKept) && FirstUseKept([-1], replyKept)
  {}

  /** A visible one-pixel cursor whose buffer is refused leaves its pixel unread. */
  lemma RefusedBufferMisaligns()
    ensures var sent := Encode([0, 0, 0, 0, 1, 1, 1, 4]) + [7, 7, 7, 7];
            !CursorReplyKept([Moves(32)], false, false, sent) && CursorReplyKept([Moves(32)], true, false, sent)
  {
    var words := [0, 0, 0, 0, 1, 1, 1, 4];
    var sent := Encode(words) + [7, 7, 7, 7];
    DecodeEncode(words);
    assert sent[..32] == Encode(words);
    assert RecvRun([Moves(32)], 36, 32) == RecvRun([], 4, 0);
  }

  /** With its whole payload in flight, an oversized cursor is left behind exactly if a transfer split. */
  lemma OversizedKeptExactly(words: seq<u32>, script: seq<Event>, granted: bool)
    requires |words| >= CURSOR_WORDS && words[CURSOR_VISIBLE] != 0 && words[CURSOR_SIZE] > CURSOR_MAX
    ensures var size := words[CURSOR_SIZE];
            PayloadKept(words, script, granted, size) <==>
            DrainDies(script, size, size) || WholeChunks(script, size, size)
  {
    CursorDrainExactly(script, words[CURSOR_SIZE], words[CURSOR_SIZE]);
  }

  /** An oversized cursor whose drain is interrupted stays unread on a connection that lives on. */
  lemma InterruptedDrainMisaligns(granted: bool)
    ensures !PayloadKept([0, 0, 0, 0, 256, 257, 1, CURSOR_MAX + 1], [Interrupts], granted, CURSOR_MAX + 1)
  {}

  /** On a calm connection a grab reply is never left behind. */
  lemma CalmGrabKept(script: seq<Event>, control: seq<Ancillary>, sent: seq<u8>)
    requires Uninterrupted(script) && Unrefused(control)
    ensures GrabReplyKept(script, control, sent)
  {
    if script != [] { assert script[0] in script; }
    if control != [] { assert control[0] in control; }
  }

  /** What was read off the front of a reply, and what is left of it. */
  lemma MetaRead(r: Reply, sent: seq<u8>, size: nat, bytes: seq<u8>)
    requires sent <= r.Bytes() && size == 4 * |r.meta| <= |sent| && bytes == sent[..size]
    ensures |bytes| % 4 == 0 && Decode(bytes) == r.meta && sent[size..] <= r.payload
    ensures |sent[size..]| == |r.payload| ==> sent == r.Bytes() && sent[size..] == r.payload
  {
    assert bytes == r.Bytes()[..size];
    MetaOf(r, bytes);
    assert r.Bytes()[size..] == r.payload;
    assert sent[size..] == r.payload[..|sent| - size];
  }

  lemma NothingDelivered(script: seq<Event>, len: nat, refused: bool)
    requires len > 0
    ensures !FdRun(script, 0, len, refused).Delivered?
  {}

  lemma NothingRead(script: seq<Event>, len: nat)
    requires len > 0
    ensures RecvRun(script, 0, len).Lost?
  {}

  /** What a grab returns for a reply that arrives whole on a connection with transfers enough. */
  lemma WholeGrabReply(a: Act, r: Reply, bufSize: nat)
    requires a.Asked? && r.AnswersGrab() && a.sent == r.Bytes()
    requires Uninterrupted(a.script) && Patience(a.script) >= |a.sent| && !Refused(NextControl(a.control))
    ensures GrabRet(a, bufSize) ==
            if r.meta[12] % 2 == 1 then if Descriptors(NextControl(a.control).blocks) > 0 then 0 else -5
            else if r.meta[5] == 0 then -5
            else if r.meta[5] > bufSize then -28
            else 0
  {
    hide RecvRun, Patience, Descriptors, Refused, Encode, Decode, Uninterrupted;
    var n := |a.sent|;
    var rest := WholeDelivery(a.script, n, 64);
    MetaRead(r, a.sent, 64, a.sent[..64]);
    PatienceSuffices(rest, n - 64, n - 64);
    EnoughDrains(rest, n - 64);
  }

  lemma WholeDelivery(script: seq<Event>, avail: nat, len: nat) returns (rest: seq<Event>)
    requires Uninterrupted(script) && 0 < len <= avail <= Patience(script)
    ensures FdRun(script, avail, len, false) == Delivered(rest)
    ensures Uninterrupted(rest) && Patience(rest) >= avail - len
  {
    hide RecvRun;
    var k := Clamp(script[0].n, 1, if len < avail then len else avail);
    assert forall e | e in script[1..] :: e in script;
    PatienceSuffices(script[1..], avail - k, len - k);
    RestUninterrupted(script[1..], avail - k, len - k);
    rest := RecvRun(script[1..], avail - k, len - k).script;
  }

  lemma {:induction false} EnoughDrains(script: seq<Event>, rem: nat)
    requires Uninterrupted(script) && Patience(script) >= rem
    ensures FrameDrained(script, rem, rem)
    decreases |script|
  {
    if rem > 0 {
      assert script[0] in script;
      assert forall e | e in script[1..] :: e in script;
      var c := if rem < CHUNK then rem else CHUNK;
      EnoughDrains(script[1..], rem - Clamp(script[0].n, 1, if c < rem then c else rem));
    }
  }

  /** What a poll returns for a cursor reply that arrives whole. */
  lemma WholeCursorReply(a: Act, r: Reply, extended: bool, granted: bool)
    requires a.Asked? && a.command.kind == (if extended then 3 else 2) && a.sent == r.Bytes()
    requires r.AnswersCursor(extended) && Patience(a.script) >= |a.sent|
    ensures PollRet(a, granted) ==
            if r.meta[6] == 0 || r.meta[7] == 0 || r.meta[7] > 262_144 then 0 else if granted then 0 else -12
  {
    hide RecvRun, Patience, Encode, Decode;
    var size := CursorBytes(extended);
    PatienceSuffices(a.script, |a.sent|, size);
    MetaRead(r, a.sent, size, a.sent[..size]);
    PatienceSuffices(RecvRun(a.script, |a.sent|, size).script, |r.payload|, |r.payload|);
  }

  /** A whole reply on an obliging connection: its metadata is read, and its pixels if there is memory. */
  lemma WillingAnswers(a: Act, r: Reply, extended: bool)
    requires a.Asked? && a.command.kind == (if extended then CMD_GET_CURSOR2 else CMD_GET_CURSOR) && a.sent == r.Bytes()
    requires r.AnswersCursor(extended) && |r.payload| <= CURSOR_MAX && Patience(a.script) >= LONGEST
    ensures RecvRun(a.script, |a.sent|, CursorBytes(extended)).Completed? && PollRet(a, true) == 0
  {
    hide RecvRun, Patience;
    var size := CursorBytes(extended);
    assert |r.Bytes()| == size + |r.payload|;
    PatienceSuffices(a.script, |a.sent|, size);
    MetaRead(r, a.sent, size, a.sent[..size]);
    PixelsArrive(r.meta, RecvRun(a.script, |a.sent|, size).script, |r.payload|);
  }

  /** A payload within the helper's bound, with transfers enough for it. */
  lemma PixelsArrive(words: seq<u32>, script: seq<Event>, left: nat)
    requires |words| >= CURSOR_WORDS && left == words[CURSOR_SIZE] <= CURSOR_MAX <= Patience(script)
    ensures PixelsRet(words, script, true, left) == 0
  {
    PatienceSuffices(script, left, left);
  }

  /** What may be asked of the helper over a context's life. */
  datatype Op = GrabOp(crtc: u32, bufSize: nat) | PollOp(crtc: u32)

  class HelperClient {
    const fds: FdTable
    const host: Host
    var link: Link?
    var noCursor2: bool
    var cursor2Ok: bool
    var cursor2Retried: bool
    /** Which of the next cursor buffers malloc will grant. */
    var allocs: seq<bool>

    constructor (fds: FdTable, host: Host, allocs: seq<bool>)
      requires host.log == []
      ensures this.fds == fds && this.host == host && this.allocs == allocs && link == null
      ensures Aligned() && Accounted() && Negotiated()
      ensures !noCursor2 && !cursor2Ok && !cursor2Retried
    {
      this.fds, this.host, this.allocs := fds, host, allocs;
      link, noCursor2, cursor2Ok, cursor2Retried := null, false, false, false;
    }

    /** No reply is half read and none is waiting: the next reply read is the next command's. */
    ghost predicate Aligned()
      reads this`link, if link == null then {} else {link, link.down}
    {
      link != null ==> link.Quiet()
    }

    /** Every byte served on the connection was read or is still before the library. */
    ghost predicate Accounted()
      reads this`link, if link == null then {} else {link, link.down}
    {
      link != null ==> link.Balanced()
    }

    /** The latches say exactly what the log shows, and no silence is left unanswered. */
    ghost predicate Negotiated()
      reads this`noCursor2, this`cursor2Ok, this`cursor2Retried, host`log
    {
      Agreed(host.log, noCursor2, cursor2Ok, cursor2Retried) && (Pending2(host.log) ==> cursor2Ok)
    }

    /** The connection carries this command and nothing else. */
    ghost predicate Carries(c: Command)
      reads this`link, if link == null then {} else {link, link.down}
    {
      link != null && (link.down.dead || (link.down.bytes == [] && (link.alive ==> link.pending == CmdBytes(c))))
    }

    /** Nothing to come is interrupted, refused, cut short or out of memory. */
    ghost predicate Steady()
      reads this`link, this`allocs, host`peers, if link == null then {} else {link, link.down}
    {
      && (forall g | g in allocs :: g)
      && (forall p | p in host.peers && p.Some? :: Calm(p.value.sends, p.value.script, p.value.control))
      && (link != null ==> Calm(link.sends, link.down.script, link.down.control))
    }

    /** The next n helpers found will oblige; where the extended command was answered, they know it. */
    ghost predicate Supplied(n: nat)
      reads host`peers, this`cursor2Ok
    {
      n <= |host.peers| && forall i | 0 <= i < n ::
        host.peers[i].Some? && Obliging(host.peers[i].value) && (cursor2Ok ==> host.peers[i].value.knowsCursor2)
    }

    lemma SteadyGrants()
      ensures Steady() ==> Granted(allocs)
    {
      if allocs != [] { assert allocs[0] in allocs; }
    }

    // ---- connection lifecycle ----

    /** Spawn a helper when none is running; any binary, old or new, may be the one found. */
    method Spawn() returns (ret: int)
      requires Aligned() && Accounted()
      modifies this`link, host
      ensures ret in {0, EACCES} && (ret == 0 <==> link != null)
      ensures old(link) != null ==>
                ret == 0 && link == old(link) && host.log == old(host.log) && host.peers == old(host.peers)
      ensures old(link) == null ==>
                host.log == old(host.log) + [Spawned(ret == 0)] && host.peers == Rest(old(host.peers))
      ensures old(link) == null ==> (ret == 0 <==> old(host.peers) != [] && old(host.peers)[0].Some?)
      ensures old(link) == null && link != null ==>
                fresh(link) && fresh(link.down) && link.Unused() && link.peer == old(host.peers)[0].value
      ensures Aligned() && Accounted()
      ensures old(Steady()) ==> Steady()
    {
      hide Calm, Flown, Stream.Total;
      if link != null {
        return 0;
      }
      ghost var before := host.peers;
      link := host.Spawn();
      assert forall p | p in host.peers :: p in before;
      ret := if link == null then EACCES else 0;
    }

    method Stop()
      modifies this`link
      ensures link == null && Aligned() && Accounted()
      ensures old(Steady()) ==> Steady()
    {
      link := null;
    }

    /** Send one frame; a refused or partial send gets a fresh helper and one more try. */
    method SendOrRespawn(c: Command) returns (ret: int)
      requires link != null && Aligned() && Accounted() && Negotiated()
      modifies this`link, link`sends, link`pending, host
      ensures link == null || link == old(link) || (fresh(link) && fresh(link.down))
      ensures Accounted() && Negotiated() && ret in {0, EIO, EACCES}
      ensures old(host.log) < host.log && |host.log| <= |old(host.log)| + 3 && !Pending2(host.log)
      ensures link == old(link) <==> Taken(old(link.sends)) == CMD_BYTES
      ensures link == old(link) ==> ret == 0 && host.peers == old(host.peers)
      ensures if ret == 0 then Carries(c) else NotCarried(Latest(host.log)) && ret == GrabVerdict(Latest(host.log), 0)
      ensures link != null && link != old(link) ==> AsMade() && (ret == 0 <==> Taken(link.peer.sends) == CMD_BYTES)
      ensures link != null && ret != 0 ==> (Aligned() <==> Taken(link.peer.sends) <= 0)
      ensures link == null ==> ret != 0
      ensures link != old(link) ==>
                && host.peers == Rest(old(host.peers))
                && (link != null <==> old(host.peers) != [] && old(host.peers)[0].Some?)
      ensures link != old(link) && link != null ==> link.peer == old(host.peers)[0].value
      ensures old(Steady()) ==> Steady() && (ret != 0 ==> Aligned())
    {
      hide Agreed, Calm, Flown, Stream.Total, Link.Balanced;
      ghost var log, sends := host.log, link.sends;
      var n := link.SendCommand(host, c);
      AgreedKept(log, Sent(n), noCursor2, cursor2Ok, cursor2Retried);
      assert [] + CmdBytes(c)[..CMD_BYTES] == CmdBytes(c);
      if Calm(sends, link.down.script, link.down.control) { CalmRest(sends, link.down.script, link.down.control); }
      if n != CMD_BYTES {
        Stop();
        ret := Resend(c);
        return;
      }
      ret := 0;
    }

    /** The second and last try, on a fresh helper. */
    method Resend(c: Command) returns (ret: int)
      requires link == null && Negotiated() && !Pending2(host.log)
      modifies this`link, host
      ensures link == null || (fresh(link) && fresh(link.down))
      ensures Accounted() && Negotiated() && ret in {0, EIO, EACCES}
      ensures old(host.log) < host.log && |host.log| <= |old(host.log)| + 2 && !Pending2(host.log)
      ensures if ret == 0 then Carries(c) else NotCarried(Latest(host.log)) && ret == GrabVerdict(Latest(host.log), 0)
      ensures host.peers == Rest(old(host.peers))
      ensures (link != null <==> old(host.peers) != [] && old(host.peers)[0].Some?)
      ensures link == null ==> ret != 0
      ensures link != null ==>
                link.peer == old(host.peers)[0].value && AsMade() && (ret == 0 <==> Taken(link.peer.sends) == CMD_BYTES)
      ensures link != null && ret != 0 ==> (Aligned() <==> Taken(link.peer.sends) <= 0)
      ensures old(Steady()) ==> Steady() && (ret != 0 ==> Aligned())
    {
      hide Agreed, Calm, Flown, Stream.Total, Link.Balanced;
      ghost var log := host.log;
      ret := Spawn();
      AgreedKept(log, Spawned(ret == 0), noCursor2, cursor2Ok, cursor2Retried);
      if ret < 0 {
        return;
      }
      log := host.log;
      var n := link.SendCommand(host, c);
      AgreedKept(log, Sent(n), noCursor2, cursor2Ok, cursor2Retried);
      assert [] + CmdBytes(c)[..CMD_BYTES] == CmdBytes(c);
      if Calm(link.peer.sends, link.down.script,
              link.down.control) { CalmRest(link.peer.sends, link.down.script, link.down.control); }
      if n != CMD_BYTES {
        return EIO;
      }
    }

    /** A connection on which nothing has come back yet. */
    ghost predicate AsMade()
      reads this`link, if link == null then {} else {link, link.down}
    {
      && link != null && link.alive && link.served == [] && link.cuts == link.peer.cuts
      && !link.down.dead && link.down.script == link.peer.script && link.down.control == link.peer.control
    }

    // ---- grab ----

    /** What a successful grab hands out is the last reply served, whole. */
    ghost predicate GrabAnswered(n: nat, meta: seq<u32>, pixels: seq<u8>, fd: int)
      reads this`link, link
    {
      && link != null && |link.served| == n + 1
      && var a := link.served[n];
         && a.reply.AnswersGrab() && a.sent == a.reply.Bytes() && meta == a.reply.meta && pixels == a.reply.payload
         && (fd >= 0 <==> a.reply.meta[12] % 2 == 1)
    }

    /**
     One CMD_GRAB round.  What it returns is decided by the last thing that happened; whether the connection
     is aligned afterwards by what was scripted for it when this call began to use it, and the reply served.
     */
    method Grab(crtc: u32, bufSize: nat) returns (ret: int, meta: seq<u32>, pixels: seq<u8>, fd: int)
      requires Aligned() && Accounted() && Negotiated()
      modifies this`link, fds, host, if link == null then {} else {link, link.down}
      ensures link == null || link == old(link) || (fresh(link) && fresh(link.down))
      ensures Accounted() && Negotiated()
      ensures old(host.log) < host.log && ret == GrabVerdict(Latest(host.log), bufSize)
      // the command that the helper read asks for this display
      ensures Latest(host.log).Asked? ==> Latest(host.log).command == Command(0x544D5244, 1, 1, 16, crtc)
      ensures link != null && link == old(link) ==>
                (Aligned() <==> old(link.down.dead) ||
                                GrabReplyKept(old(link.down.script), old(link.down.control),
                                              link.Newest(old(|link.served|))))
      ensures link != null && link != old(link) ==>
                (Aligned() <==> FirstUseKept(link.peer.sends,
                                             GrabReplyKept(link.peer.script, link.peer.control, link.Newest(0))))
      // at most one reply per command
      ensures link != null ==> |link.served| <= 1 + if link == old(link) then old(|link.served|) else 0
      ensures -1 <= fd && (fd >= 0 ==> ret == 0 && fd !in old(fds.open))
      ensures fds.open == old(fds.open) + if fd >= 0 then {fd} else {}
      ensures ret == 0 ==> |pixels| <= bufSize && link != null
      ensures ret == 0 ==> GrabAnswered(if link == old(link) then old(|link.served|) else 0, meta, pixels, fd)
      // and it is of the framebuffer that the helper found on this display
      ensures ret == 0 ==> Told(if link == old(link) then old(|link.served|) else 0, 1, crtc)
      ensures old(Steady()) ==> Steady() && Aligned()
    {
      hide Answer.Truthful;
      hide GrabReplyKept, GrabAnswered, CmdBytes, Agreed, Calm, GrabRet, Flown, Stream.Total;
      meta, pixels, fd := Zeros(META_WORDS), [], -1;
      if link == null {
        ghost var log := host.log;
        ret := Spawn();
        AgreedKept(log, Spawned(ret == 0), noCursor2, cursor2Ok, cursor2Retried);
        if ret < 0 {
          return;
        }
      }
      var c := WireCmd(CMD_GRAB, crtc);
      ret := SendOrRespawn(c);
      if ret < 0 {
        return;
      }
      ret, meta, pixels, fd := GrabReply(c, bufSize);
    }

    /** Read the reply to a grab that was sent. */
    method GrabReply(c: Command, bufSize: nat) returns (ret: int, meta: seq<u32>, pixels: seq<u8>, fd: int)
      requires c == WireCmd(CMD_GRAB, c.crtc) && CmdValid(c, true) && Carries(c) && Accounted() && Negotiated()
      modifies this`link, fds, link, link.down, host`log
      ensures link == null || link == old(link)
      ensures Accounted() && Negotiated()
      ensures |host.log| == |old(host.log)| + 1 && old(host.log) < host.log
      ensures Latest(host.log).Asked? && Latest(host.log).command == c && ret == GrabRet(Latest(host.log), bufSize)
      ensures link != null ==>
                (Aligned() <==> old(link.down.dead) ||
                                GrabReplyKept(old(link.down.script), old(link.down.control),
                                              link.Newest(old(|link.served|))))
      ensures link != null ==> |link.served| <= old(|link.served|) + 1
      ensures -1 <= fd && (fd >= 0 ==> ret == 0 && fd !in old(fds.open))
      ensures fds.open == old(fds.open) + if fd >= 0 then {fd} else {}
      ensures ret == 0 ==> link != null && |pixels| <= bufSize && GrabAnswered(old(|link.served|), meta, pixels, fd)
      ensures ret == 0 ==> Told(old(|link.served|), 1, c.crtc)
      ensures old(Steady()) ==> Steady() && Aligned()
    {
      hide Answer.Truthful;
      hide CmdBytes, Flown, Stream.Total, Agreed, GrabRet, GrabReplyKept, FdRun, Calm;
      ghost var n, log := |link.served|, host.log;
      Exchange(c);
      AgreedKept(log, Latest(host.log), noCursor2, cursor2Ok, cursor2Retried);
      ret, meta, pixels, fd := ReadGrab(n, bufSize, Latest(host.log));
    }

    /** The command is carried: the connection has what came back, if the helper heard it. */
    ghost predicate Replied(n: nat, kind: u16)
      reads this`link, if link == null then {} else {link, link.down}
    {
      && link != null && (link.alive ==> link.pending == []) && link.Balanced()
      && if |link.served| == n then !link.alive && (link.down.dead || link.down.bytes == [])
         else
           && |link.served| == n + 1 && !link.down.dead
           && var a := link.served[n];
              && a.reply.Answers(kind) && a.sent == link.down.bytes <= a.reply.Bytes()
              && (link.alive ==> a.sent == a.reply.Bytes())
              && (kind != CMD_GRAB ==> |a.reply.payload| <= CURSOR_MAX)
    }

    /** The n-th reply answers this command, and tells what the kernel showed on its display. */
    ghost predicate Told(n: nat, kind: u16, crtc: u32)
      reads this`link, link
    {
      && link != null && n < |link.served|
      && link.served[n].command == Command(0x544D5244, 1, kind, 16, crtc) && link.served[n].Truthful()
    }

    /** The helper serves the command that was sent. */
    method Exchange(c: Command)
      requires Carries(c) && Accounted()
      modifies link`pending, link`alive, link`served, link`cuts, link.down`bytes, host`log
      ensures Replied(old(|link.served|), c.kind)
      ensures host.log == old(host.log) + [Asked(c, link.down.script, link.down.control,
                                                 link.Newest(old(|link.served|)))]
      ensures |link.served| > old(|link.served|) ==> link.served[old(|link.served|)].command == c
      ensures |link.served| > old(|link.served|) ==> link.served[old(|link.served|)].Truthful()
      ensures |link.served| > old(|link.served|) ==> CmdValid(c, link.peer.knowsCursor2)
      ensures old(link.Willing()) && CmdValid(c, link.peer.knowsCursor2) && c.kind != CMD_QUIT ==>
                && |link.served| == old(|link.served|) + 1
                && link.Newest(old(|link.served|)) == link.served[old(|link.served|)].reply.Bytes()
    {
      hide CmdBytes, Flown, Stream.Total, Encode, Answer.Truthful;
      link.Serve(host, c);
    }

    /** recv_fd_and_meta and what follows it, on the reply to a grab. */
    method ReadGrab(ghost n: nat, bufSize: nat, ghost a: Act)
      returns (ret: int, meta: seq<u32>, pixels: seq<u8>, fd: int)
      requires Replied(n, CMD_GRAB) && a.Asked? && a.command.kind == CMD_GRAB
      requires a == Asked(a.command, link.down.script, link.down.control, link.Newest(n))
      modifies this`link, fds, link.down
      ensures link == null || link == old(link)
      ensures Accounted() && ret == GrabRet(a, bufSize)
      ensures link != null ==> (Aligned() <==> old(link.down.dead) || GrabReplyKept(a.script, a.control, a.sent))
      ensures -1 <= fd && (fd >= 0 ==> ret == 0 && fd !in old(fds.open))
      ensures fds.open == old(fds.open) + if fd >= 0 then {fd} else {}
      ensures ret == 0 ==> link != null && |pixels| <= bufSize && GrabAnswered(n, meta, pixels, fd)
      ensures old(Steady()) ==> Steady() && Aligned()
    {
      hide Answer.Truthful;
      hide Encode, Decode, FdRun, CmdBytes, Flown, Stream.Total, GrabPayloadRet, Descriptors, Calm, GrabReplyKept;
      pixels, fd := [], -1;
      var ok, got;
      ok, meta, got := GrabMeta(n, a);
      if !ok {
        return EIO, meta, pixels, fd;
      }
      ret, pixels, fd := GrabPayload(meta, got, bufSize);
    }

    /** The metadata, and the descriptor that came with it. */
    method GrabMeta(ghost n: nat, ghost a: Act) returns (ok: bool, meta: seq<u32>, got: int)
      requires Replied(n, CMD_GRAB) && a.Asked? && a.command.kind == CMD_GRAB
      requires a == Asked(a.command, link.down.script, link.down.control, link.Newest(n))
      modifies fds, link.down
      ensures Accounted() && -1 <= got && (got >= 0 ==> ok && got !in old(fds.open))
      ensures fds.open == old(fds.open) + if got >= 0 then {got} else {}
      ensures var end := FdRun(a.script, |a.sent|, META_BYTES, Refused(NextControl(a.control)));
              && (ok <==> end.Delivered?) && (ok ==> link.down.script == end.script)
      ensures if ok then GrabReplyKept(a.script, a.control, a.sent)
              else Aligned() <==> old(link.down.dead) || GrabReplyKept(a.script, a.control, a.sent)
      ensures ok ==> (got >= 0 <==> Descriptors(NextControl(a.control).blocks) > 0)
      ensures ok ==>
                && !link.down.dead && |link.served| == n + 1 && META_BYTES <= |a.sent|
                && link.down.bytes == a.sent[META_BYTES..]
      ensures ok ==> meta == link.served[n].reply.meta == Decode(a.sent[..META_BYTES])
      ensures ok ==> link.down.bytes <= link.served[n].reply.payload
      ensures ok && |link.down.bytes| == |link.served[n].reply.payload| ==>
                a.sent == link.served[n].reply.Bytes() && link.down.bytes == link.served[n].reply.payload
      ensures old(Steady()) ==> Steady() && (!ok ==> Aligned())
    {
      hide Answer.Truthful;
      hide Encode, Decode, FdRun, CmdBytes, Flown, Stream.Total, Descriptors, Uninterrupted, Unrefused, RecvRun;
      hide Reply.Bytes, Refused, NextControl;
      meta := Zeros(META_WORDS);
      NothingDelivered(a.script, META_BYTES, Refused(NextControl(a.control)));
      if Uninterrupted(a.script) && Unrefused(a.control) { CalmGrabKept(a.script, a.control, a.sent); }
      var bytes;
      ghost var end;
      ok, bytes, got, end := RecvFd(link.down, fds, META_BYTES);
      if ok {
        meta := Decode(bytes);
        MetaRead(link.served[n].reply, a.sent, META_BYTES, bytes);
      }
    }

    /** The descriptor, or the pixels that follow, or the error that the metadata tells of. */
    method GrabPayload(meta: seq<u32>, got: int, bufSize: nat) returns (ret: int, pixels: seq<u8>, fd: int)
      requires link != null && !link.down.dead && Accounted() && |meta| == META_WORDS
      requires got >= -1 && (got >= 0 ==> got in fds.open)
      requires HasDmabuf(meta[META_FLAGS]) ==> link.down.bytes == []
      requires !HasDmabuf(meta[META_FLAGS]) ==> |link.down.bytes| <= meta[META_SIZE]
      requires link.alive ==> link.pending == []
      modifies this`link, fds, link.down`bytes, link.down`script, link.down`dead, link.down`taken
      ensures link == null || link == old(link)
      ensures Accounted() && Aligned()
      ensures ret == GrabPayloadRet(meta, got >= 0, old(link.down.script), old(|link.down.bytes|), bufSize)
      ensures fd == (if ret == 0 && HasDmabuf(meta[META_FLAGS]) then got else -1)
      ensures (ret == 0 && HasDmabuf(meta[META_FLAGS]) ==> fd >= 0)
      ensures fds.open == old(fds.open) - (if got >= 0 && fd < 0 then {got} else {})
      ensures ret == 0 ==> link != null && |pixels| <= bufSize && pixels == old(link.down.bytes)
      ensures ret == 0 && !HasDmabuf(meta[META_FLAGS]) ==> |pixels| == meta[META_SIZE]
      ensures old(Steady()) ==> Steady()
    {
      hide Answer.Truthful;
      hide FrameDrained, RecvRun, Stream.Total, Flown, Uninterrupted, Unrefused, Patience;
      ret, pixels, fd := EIO, [], -1;
      if HasDmabuf(meta[META_FLAGS]) {
        if got < 0 {
          return;
        }
        return 0, [], got;
      }
      if got >= 0 {
        fds.Close(got);
      }
      if meta[META_SIZE] == 0 {
        return;
      }
      if meta[META_SIZE] > bufSize {
        var drained := DrainFrame(link.down, meta[META_SIZE]);
        if !drained {
          Stop();
          return;
        }
        ret := ENOSPC;
        return;
      }
      var whole, data := RecvAll(link.down, meta[META_SIZE]);
      if !whole {
        return;
      }
      ret, pixels := 0, data;
    }

    // ---- cursor ----

    /** How many more times the negotiation may restart. */
    function Restarts(): (n: nat)
      reads this`noCursor2, this`cursor2Retried
    {
      if noCursor2 then 0 else if cursor2Retried then 1 else 2
    }

    /** The extended command until it is latched off. */
    function CursorKind(): u16
      reads this`noCursor2
    {
      if noCursor2 then CMD_GET_CURSOR else CMD_GET_CURSOR2
    }

    /** Helpers that a poll may still use up: none once one has answered the extended command. */
    function Spares(): (n: nat)
      reads this`noCursor2, this`cursor2Retried, this`cursor2Ok
    {
      if cursor2Ok then 0 else Restarts()
    }

    /** This connection will answer what it knows, and behind it is help enough. */
    ghost predicate Helping()
      reads this, host, if link == null then {} else {link, link.down}
    {
      link != null && link.Willing() && (cursor2Ok ==> link.peer.knowsCursor2) && Supplied(Spares())
    }

    /** There is no usable connection, or a helping one; and for every helper that may be needed, one that obliges. */
    ghost predicate Helped()
      reads this, host, if link == null then {} else {link, link.down}
    {
      if link == null || Taken(link.sends) != CMD_BYTES then Supplied(Spares() + 1) else Helping()
    }

    /** The n-th reply served is a cursor reply and these are its words; payload may be before the library. */
    ghost predicate MetaTaken(n: nat, extended: bool, words: seq<u32>)
      reads this`link, if link == null then {} else {link, link.down}
    {
      && link != null && !link.down.dead && (link.alive ==> link.pending == []) && |link.served| == n + 1
      && var a := link.served[n];
         && a.reply.AnswersCursor(extended)
         && words == a.reply.meta && link.down.bytes <= a.reply.payload
         && (link.down.bytes == a.reply.payload ==> a.sent == a.reply.Bytes())
    }

    /** Read the metadata of a cursor reply. */
    method CursorMeta(ghost n: nat, extended: bool, ghost a: Act) returns (ok: bool, words: seq<u32>)
      requires a.Asked? && a.command.kind == (if extended then CMD_GET_CURSOR2 else CMD_GET_CURSOR)
      requires Replied(n, a.command.kind)
      requires a == Asked(a.command, link.down.script, link.down.control, link.Newest(n))
      modifies link.down`bytes, link.down`script, link.down`dead, link.down`taken
      ensures Accounted() && (ok <==> RecvRun(a.script, |a.sent|, CursorBytes(extended)).Completed?)
      ensures !ok ==> link.down.dead
      ensures ok ==> MetaTaken(n, extended, words) && words == Decode(a.sent[..CursorBytes(extended)])
      ensures ok ==> link.down.script == RecvRun(a.script, |a.sent|, CursorBytes(extended)).script
      ensures ok ==> !old(link.down.dead) && |link.down.bytes| == |a.sent| - CursorBytes(extended)
      ensures ok ==> link.down.bytes == a.sent[CursorBytes(extended)..] && words[CURSOR_SIZE] <= CURSOR_MAX
      ensures old(Steady()) ==> Steady()
    {
      hide Answer.Truthful;
      hide Encode, Decode, Flown, RecvRun, Patience, Stream.Total, Uninterrupted, Unrefused, Reply.Bytes;
      NothingRead(a.script, CursorBytes(extended));
      var size := CursorBytes(extended);
      var data;
      ok, data := RecvAll(link.down, size);
      words := [];
      if ok {
        words := Decode(data);
        MetaRead(link.served[n].reply, a.sent, size, data);
      }
    }

    /** The cursor handed out is the reply served n-th, as its provenance tells; shown pixels are all of it. */
    ghost predicate Answered(n: nat, cursor: Cursor)
      reads this`link, link
    {
      && link != null && |link.served| == n + 1
      && var a := link.served[n];
         && a.reply.AnswersCursor(cursor.provenance.Recorded?) && cursor.words == a.reply.meta
         && (cursor.visible <==> cursor.words[6] != 0 && cursor.words[7] <= 262_144)
         && (cursor.visible ==> cursor.pixels == a.reply.payload && a.sent == a.reply.Bytes())
         && (cursor.provenance.Recorded? ==> cursor.provenance.measured == (cursor.words[8] != 0))
    }

    /** malloc: granted or not, as the context's next buffer is. */
    method Malloc() returns (granted: bool)
      modifies this`allocs
      ensures granted == Granted(old(allocs)) && allocs == Rest(old(allocs))
      ensures old(Steady()) ==> Steady()
    {
      granted := Granted(allocs);
      ghost var before := allocs;
      allocs := Rest(allocs);
      assert forall g | g in allocs :: g in before;
    }

    /** Read the pixels that follow, when there are any. */
    method CursorPixels(words: seq<u32>, prov: Provenance, ghost n: nat) returns (ret: int, cursor: Cursor)
      requires MetaTaken(n, prov.Recorded?, words) && Accounted()
      requires prov.Recorded? ==> prov.measured == (words[CURSOR_HOT] != 0)
      modifies this`allocs, link.down`bytes, link.down`script, link.down`dead, link.down`taken
      ensures Accounted()
      ensures Aligned() <==> PayloadKept(words, old(link.down.script), Granted(old(allocs)), |old(link.down.bytes)|)
      ensures ret == PixelsRet(words, old(link.down.script), Granted(old(allocs)), |old(link.down.bytes)|)
      ensures Granted(old(allocs)) && words[CURSOR_SIZE] <= CURSOR_MAX ==> Aligned()
      ensures cursor.provenance == prov && cursor.words == words
      ensures ret == 0 ==> Answered(n, cursor)
      ensures old(Steady()) ==> Steady()
    {
      hide Answer.Truthful;
      hide CmdBytes, Flown, RecvRun, Patience, Stream.Total, DrainDies, Encode, Uninterrupted, Unrefused;
      ret, cursor := 0, Cursor(words[CURSOR_VISIBLE] != 0, words, [], prov);
      var size := words[CURSOR_SIZE];
      if words[CURSOR_VISIBLE] != 0 && size > 0 {
        if size > CURSOR_MAX {
          DrainCursor(link.down, size);
          cursor := cursor.(visible := false);
          return;
        }
        var granted := Malloc();
        if !granted {
          return ENOMEM, cursor;
        }
        var ok, data := RecvAll(link.down, size);
        if !ok {
          return EIO, cursor;
        }
        cursor := cursor.(pixels := data);
      }
    }

    /** Get a connection and put the command on it. */
    method Ask(c: Command) returns (ret: int)
      requires Aligned() && Accounted() && Negotiated()
      modifies this`link, host, if link == null then {} else {link}
      ensures link == null || link == old(link) || (fresh(link) && fresh(link.down))
      ensures Accounted() && Negotiated() && ret <= 0
      ensures old(host.log) < host.log && |host.log| <= |old(host.log)| + 4
      ensures if ret == 0 then Carries(c) else NotCarried(Latest(host.log))
      ensures link != null && link == old(link) ==>
                ret == 0 && Taken(old(link.sends)) == CMD_BYTES && link.served == old(link.served)
      ensures link != null && link != old(link) ==> AsMade() && (ret == 0 <==> Taken(link.peer.sends) == CMD_BYTES)
      ensures link != null && ret != 0 ==> (Aligned() <==> Taken(link.peer.sends) <= 0)
      ensures link == null ==> ret != 0
      ensures old(Helped()) ==> ret == 0 && Helping()
      ensures old(Steady()) ==> Steady() && (ret != 0 ==> Aligned())
    {
      hide Agreed, CmdBytes, CmdValid, Flown, Stream.Total, Calm, Patience, Link.Balanced;
      ghost var before := host.peers;
      if link == null {
        ghost var log := host.log;
        ret := Spawn();
        AgreedKept(log, Spawned(ret == 0), noCursor2, cursor2Ok, cursor2Retried);
        if ret < 0 {
          return;
        }
      }
      ret := SendOrRespawn(c);
      if ret < 0 {
        return EIO;
      }
    }

    /** A connection this call made: whether it is aligned follows from its script and the reply on it. */
    ghost predicate FirstUseDecides(allocs: seq<bool>)
      reads this`link, this`noCursor2, if link == null then {} else {link, link.down}
    {
      link != null ==>
        (Aligned() <==> FirstUseKept(link.peer.sends,
                                     CursorReplyKept(link.peer.script, Granted(allocs), !noCursor2, link.Newest(0))))
    }

    /** A fresh helper after silence, and what that teaches. */
    method Replace() returns (ret: int)
      requires Aligned() && Accounted() && Agreed(host.log, noCursor2, cursor2Ok, cursor2Retried)
      requires Pending2(host.log) && !noCursor2 && !cursor2Ok
      modifies this`link, this`noCursor2, this`cursor2Retried, host
      ensures ret <= 0 && Aligned() && Accounted() && Negotiated()
      ensures (ret == 0 <==> link != null) && host.log == old(host.log) + [Spawned(ret == 0)]
      ensures ret == 0 ==> fresh(link) && fresh(link.down) && link.Unused() && Restarts() < old(Restarts())
      ensures ret == 0 ==> Restarts() == old(Restarts()) - 1
      ensures old(Supplied(Restarts())) ==> ret == 0 && Helped()
      ensures old(Steady()) ==> Steady()
    {
      hide Agreed, Flown, CmdBytes, Stream.Total, Patience, Calm;
      ghost var log := host.log;
      Stop();
      ret := Spawn();
      if ret < 0 {
        AgreedKept(log, Spawned(false), noCursor2, cursor2Ok, cursor2Retried);
        return;
      }
      AgreedStrike(log, cursor2Retried);
      if !cursor2Retried {
        cursor2Retried := true;
      } else {
        noCursor2 := true;
      }
    }

    /**
     No answer to the extended command, and none on this context before: replace the helper, then
     retry it once, and fall back to the legacy command for good only after a second silence.
     */
    method Unanswered(crtc: u32) returns (ret: int, cursor: Cursor)
      requires Aligned() && Accounted() && Agreed(host.log, noCursor2, cursor2Ok, cursor2Retried)
      requires Pending2(host.log) && !noCursor2 && !cursor2Ok
      modifies this`link, this`noCursor2, this`cursor2Ok, this`cursor2Retried, this`allocs, host
      ensures link == null || (fresh(link) && fresh(link.down))
      ensures Accounted() && FirstUseDecides(old(allocs)) && Negotiated()
      ensures link != null ==> |link.served| <= 1
      ensures Outcome(crtc, old(host.log), old(allocs), ret, cursor)
      ensures |host.log| <= |old(host.log)| + 1 + 6 * old(Restarts())
      ensures ret == 0 ==> link != null && Answered(0, cursor) && Told(0, if noCursor2 then 2 else 3, crtc)
      ensures old(Supplied(Restarts()) && Granted(allocs)) ==> ret == 0
      ensures old(Steady()) ==> Steady() && Aligned()
      decreases Restarts(), 0
    {
      hide Answer.Truthful;
      hide Agreed, Answered, CursorReplyKept, Flown, CmdBytes, Aligned, Accounted, Stream.Total, Taken, Granted;
      hide Patience, Calm, PollRet, RecvRun;
      ret := Replace();
      if ret < 0 {
        return EIO, NO_CURSOR;
      }
      ret, cursor := GetCursor(crtc);
    }

    /** What a poll that began with this log ends on, and what it therefore returns. */
    ghost predicate Outcome(crtc: u32, before: seq<Act>, allocs: seq<bool>, ret: int, cursor: Cursor)
      reads this`noCursor2, host`log
    {
      && before < host.log
      && var a := Latest(host.log);
         // the command that the helper read asks for this display's cursor
         && (a.Asked? ==> a.command == Command(0x544D5244, 1, if noCursor2 then 2 else 3, 16, crtc))
         && (if a.Asked? then ret == PollRet(a, Granted(allocs)) else NotCarried(a) && ret < 0)
         && (cursor.provenance.Recorded? <==> Answered2(a))
    }

    /** drmtap_helper_get_cursor: the extended command, one retry on a fresh helper, then the fallback. */
    method GetCursor(crtc: u32) returns (ret: int, cursor: Cursor)
      requires Aligned() && Accounted() && Negotiated()
      modifies this`link, this`noCursor2, this`cursor2Ok, this`cursor2Retried, this`allocs, host
      modifies if link == null then {} else {link, link.down}
      ensures link == null || link == old(link) || (fresh(link) && fresh(link.down))
      // the latches agree with what was asked, answered and met with silence; a poll never ends on a silence
      // of a context on which the extended command was not answered before
      ensures Negotiated()
      // what it returns, and whether the provenance is recorded, by the command it ends on
      ensures Outcome(crtc, old(host.log), old(allocs), ret, cursor)
      ensures |host.log| <= |old(host.log)| + 6 * (old(Restarts()) + 1)
      ensures ret == 0 ==> link != null && Answered(if link == old(link) then old(|link.served|) else 0, cursor)
      ensures ret == 0 ==> Told(if link == old(link) then old(|link.served|) else 0, if noCursor2 then 2 else 3, crtc)
      // with obliging helpers the poll is served, old helpers included
      ensures old(Helped() && Granted(allocs)) ==> ret == 0
      // when the connection is aligned
      ensures Accounted()
      ensures link != null && link == old(link) ==> Taken(old(link.sends)) == CMD_BYTES && noCursor2 == old(noCursor2)
      ensures link != null && link == old(link) ==>
                (Aligned() <==> old(link.down.dead) ||
                                CursorReplyKept(old(link.down.script), Granted(old(allocs)), !noCursor2,
                                                link.Newest(old(|link.served|))))
      ensures link != old(link) ==> FirstUseDecides(old(allocs))
      ensures old(Steady()) ==> Steady() && Aligned()
      // at most one reply per command on the connection that is left
      ensures link != null ==> |link.served| <= 1 + if link == old(link) then old(|link.served|) else 0
      decreases Restarts(), 2
    {
      hide Answer.Truthful;
      hide Agreed, Answered, CmdBytes, CmdValid, CursorReplyKept, Flown, Stream.Total, Granted, Patience, Calm, PollRet;
      hide RecvRun;
      var c := WireCmd(CursorKind(), crtc);
      ret := Ask(c);
      if ret < 0 {
        return ret, NO_CURSOR;
      }
      ret, cursor := CursorReply(crtc, c);
    }

    /** Read the reply to a cursor command that was sent. */
    method CursorReply(crtc: u32, c: Command) returns (ret: int, cursor: Cursor)
      requires c == WireCmd(CursorKind(), crtc) && Carries(c) && Accounted() && Negotiated()
      modifies this`link, this`noCursor2, this`cursor2Ok, this`cursor2Retried, this`allocs, host, link, link.down
      ensures link == null || link == old(link) || (fresh(link) && fresh(link.down))
      ensures Accounted() && Negotiated()
      ensures link == old(link) ==> noCursor2 == old(noCursor2)
      ensures link == old(link) ==>
                (Aligned() <==> old(link.down.dead) ||
                                CursorReplyKept(old(link.down.script), Granted(old(allocs)), !noCursor2,
                                                link.Newest(old(|link.served|))))
      ensures link != old(link) ==> FirstUseDecides(old(allocs))
      ensures link != null ==> |link.served| <= 1 + if link == old(link) then old(|link.served|) else 0
      ensures Outcome(crtc, old(host.log), old(allocs), ret, cursor)
      ensures |host.log| <= |old(host.log)| + 2 + 6 * old(Restarts())
      ensures ret == 0 ==> link != null && Answered(if link == old(link) then old(|link.served|) else 0, cursor)
      ensures ret == 0 ==> Told(if link == old(link) then old(|link.served|) else 0, if noCursor2 then 2 else 3, crtc)
      ensures old(Helping() && Granted(allocs)) ==> ret == 0
      ensures old(Steady()) ==> Steady() && Aligned()
      decreases Restarts(), 1
    {
      hide Answer.Truthful;
      hide Agreed, Answered, CmdBytes, PixelsRet, PayloadKept, Flown, Stream.Total, Granted, Patience, Calm, Decode;
      hide RecvRun;
      var extended := !noCursor2;
      ghost var n := |link.served|;
      SteadyGrants();
      var ok, words := Hear(c, extended);
      if !ok {
        if extended && !cursor2Ok {
          ret, cursor := Unanswered(crtc);
          return;
        }
        return EIO, NO_CURSOR;
      }
      var prov := Unrecorded;
      if extended {
        cursor2Ok := true;
        prov := Recorded(words[CURSOR_HOT] != 0);
      }
      ret, cursor := CursorPixels(words, prov, n);
    }

    /** The helper serves the cursor command, and its metadata is read or the connection is gone. */
    method Hear(c: Command, extended: bool) returns (ok: bool, words: seq<u32>)
      requires extended == !noCursor2 && c == WireCmd(CursorKind(), c.crtc) && Carries(c) && Accounted() && Negotiated()
      modifies link, link.down, host`log
      ensures host.log == old(host.log) + [Asked(c, old(link.down.script), old(link.down.control),
                                                 link.Newest(old(|link.served|)))]
      ensures Agreed(host.log, noCursor2, cursor2Ok || (ok && extended), cursor2Retried)
      ensures (Pending2(host.log) <==> !ok && extended)
      ensures ok <==>
                RecvRun(old(link.down.script), |link.Newest(old(|link.served|))|, CursorBytes(extended)).Completed?
      ensures Accounted() && |link.served| <= old(|link.served|) + 1 && (!ok ==> link.down.dead)
      ensures ok ==> MetaTaken(old(|link.served|), extended, words) && !old(link.down.dead)
      ensures ok ==> MetaOfLatest(Latest(host.log), extended, words) && (extended ==> link.peer.knowsCursor2)
      ensures old(link.Willing()) && (extended ==> link.peer.knowsCursor2) ==>
                ok && PollRet(Latest(host.log), true) == 0
      ensures ok ==> Told(old(|link.served|), c.kind, c.crtc)
      ensures old(Steady()) ==> Steady()
    {
      hide Answer.Truthful;
      hide Agreed, CmdBytes, Flown, Stream.Total, Patience, Calm, Decode, RecvRun, PollRet;
      ghost var n, log := |link.served|, host.log;
      ghost var willing := link.Willing() && (extended ==> link.peer.knowsCursor2);
      Exchange(c);
      ghost var a := Latest(host.log);
      AgreedAsked(log, a, noCursor2, cursor2Ok, cursor2Retried);
      if willing { WillingAnswers(a, link.served[n].reply, extended); }
      ok, words := CursorMeta(n, extended, a);
    }

    /** The words are those of the latest reply; its payload and the rest of its script are still to come. */
    ghost predicate MetaOfLatest(a: Act, extended: bool, words: seq<u32>)
      reads this`link, if link == null then {} else {link, link.down}
    {
      && link != null && a.Asked? && |words| >= CURSOR_WORDS && words[CURSOR_SIZE] <= CURSOR_MAX
      && var size := CursorBytes(extended);
         && RecvRun(a.script, |a.sent|, size).Completed? && link.down.script == RecvRun(a.script, |a.sent|, size).script
         && words == Decode(a.sent[..size]) && |link.down.bytes| == |a.sent| - size
    }

    // ---- whole runs ----

    /**
     Any sequence of grabs and cursor polls: while nothing is interrupted, refused, cut short or out of
     memory, every call leaves the connection aligned or gone, whatever helpers are found and however they
     die; the latches agree with the log to the end, and no descriptor stays open.
     */
    method AnyRun(ops: seq<Op>)
      requires link == null && Negotiated() && Steady()
      modifies this`link, this`noCursor2, this`cursor2Ok, this`cursor2Retried, this`allocs, fds, host
      ensures Aligned() && Accounted() && Negotiated() && Steady()
      ensures fds.open == old(fds.open) && |host.log| >= |old(host.log)| + |ops|
      ensures link == null || link.down.dead || link.down.taken == Flown(link.served)
    {
      hide Agreed, Steady, Answered, GrabAnswered, GrabVerdict, Helped, CursorReplyKept, GrabReplyKept, FirstUseKept;
      var i := 0;
      while i < |ops|
        invariant 0 <= i <= |ops| && (link == null || (fresh(link) && fresh(link.down)))
        invariant Aligned() && Accounted() && Negotiated() && Steady()
        invariant fds.open == old(fds.open) && |host.log| >= |old(host.log)| + i
      {
        match ops[i] {
          case GrabOp(crtc, bufSize) =>
            var ret, meta, pixels, fd := Grab(crtc, bufSize);
            if fd >= 0 { fds.Close(fd); }
          case PollOp(crtc) =>
            var ret, cursor := GetCursor(crtc);
        }
        i := i + 1;
      }
      if link != null && !link.down.dead { link.QuietMeansConsumed(); }
    }
  }
}
