/**
 The framing primitives of the helper channel: exact-length transfers over a stream that splits
 anywhere, and descriptor passing.  The kernel's outcomes are a script the stream plays back, so
 a contract about every script is a contract about every splitting.
 */
module Wire {
  import opened Words

  /** One outcome of a socket call: n bytes (clamped to what is possible), EINTR, or EOF / error. */
  datatype Event = Moves(n: nat) | Interrupts | Closes

  datatype Transfer = Got(data: seq<u8>) | Again | Gone

  /** Transfers still to come before the connection closes. */
  function Patience(script: seq<Event>): (n: nat) {
    if script == [] || script[0].Closes? then 0
    else (if script[0].Moves? then 1 else 0) + Patience(script[1..])
  }

  function Clamp(n: nat, low: nat, high: nat): (r: nat)
    requires low <= high
    ensures low <= r <= high
  {
    if n < low then low else if n > high then high else n
  }

  /** A control block of a message: SCM_RIGHTS with so many descriptors, or anything else. */
  datatype Shape = RightsOf(n: nat) | Foreign

  /** The ancillary data of one message. */
  datatype Ancillary = Ancillary(blocks: seq<Shape>, truncated: bool)

  const PLAIN := Ancillary([], false)

  function Descriptors(blocks: seq<Shape>): (n: nat) {
    if blocks == [] then 0
    else Descriptors(blocks[..|blocks| - 1]) + match blocks[|blocks| - 1] case RightsOf(n) => n case Foreign => 0
  }

  /** Truncated control data, or more than the one descriptor a message may carry. */
  predicate Refused(a: Ancillary) {
    a.truncated || Descriptors(a.blocks) > 1
  }

  /** The ancillary data of the next message; none once the script is used up. */
  function NextControl(control: seq<Ancillary>): Ancillary {
    if control == [] then PLAIN else control[0]
  }

  predicate Uninterrupted(script: seq<Event>) {
    forall e | e in script :: !e.Interrupts?
  }

  predicate Unrefused(control: seq<Ancillary>) {
    forall a | a in control :: !Refused(a)
  }

  function Rest<T>(s: seq<T>): seq<T> {
    if s == [] then [] else s[1..]
  }

  /** One direction of a socket, seen from its reader; once dead it stays dead. */
  class Stream {
    var bytes: seq<u8>
    var script: seq<Event>
    var control: seq<Ancillary>
    var dead: bool
    /** What the reader has taken so far. */
    ghost var taken: seq<u8>
    /** Each descriptor passed, with the position of the byte it rides on. */
    ghost var riders: seq<(nat, nat)>

    constructor (script: seq<Event>, control: seq<Ancillary> := [])
      ensures bytes == [] && !dead && this.script == script && this.control == control && taken == [] && riders == []
    {
      bytes, taken, riders := [], [], [];
      this.script, this.control := script, control;
      dead := false;
    }

    /** Everything that was ever put in flight: taken already, or still to be read. */
    ghost function Total(): seq<u8>
      reads this`taken, this`bytes
    {
      taken + bytes
    }

    /** What the next recv of at most `max` bytes will deliver. */
    function Outcome(max: nat): (r: Transfer)
      requires max > 0
      reads this
    {
      if dead || script == [] || script[0].Closes? then Gone
      else if script[0].Interrupts? then Again
      else if bytes == [] then Gone
      else Got(bytes[..Clamp(script[0].n, 1, if max < |bytes| then max else |bytes|)])
    }

    /** recv: some of the bytes in flight, at least one and at most `max`; EOF once none are left. */
    method Recv(max: nat) returns (r: Transfer)
      requires max > 0
      modifies this`bytes, this`script, this`dead, this`taken
      ensures |script| <= |old(script)| && Total() == old(Total())
      ensures old(Outcome(max)) == r && (!r.Gone? ==> script == old(script)[1..])
      ensures Uninterrupted(old(script)) ==> Uninterrupted(script) && !r.Again?
      ensures match r
              case Got(data) =>
                && 0 < |data| <= max && data + bytes == old(bytes) && dead == old(dead) == false
                && |script| < |old(script)| && Patience(script) + 1 == old(Patience(script))
              case Again =>
                && bytes == old(bytes) && dead == old(dead) && |script| < |old(script)|
                && Patience(script) == old(Patience(script))
              case Gone =>
                && bytes == old(bytes) && dead && (old(dead) || old(bytes) == [] || old(Patience(script)) == 0)
    {
      if dead || script == [] || script[0].Closes? {
        dead := true;
        return Gone;
      }
      var e := script[0];
      script := script[1..];
      if e.Interrupts? {
        return Again;
      }
      if bytes == [] {
        dead := true;
        return Gone;
      }
      var k := Clamp(e.n, 1, if max < |bytes| then max else |bytes|);
      r := Got(bytes[..k]);
      assert taken + bytes == (taken + bytes[..k]) + bytes[k..];
      taken := taken + bytes[..k];
      bytes := bytes[k..];
    }

    /** send: the peer accepts a non-empty prefix, or the connection is lost. */
    method Send(data: seq<u8>) returns (r: Transfer)
      requires data != []
      modifies this`bytes, this`script, this`dead
      ensures |script| <= |old(script)|
      ensures match r
              case Got(sent) =>
                && sent != [] && sent <= data && bytes == old(bytes) + sent && dead == old(dead) == false
                && |script| < |old(script)| && Patience(script) + 1 == old(Patience(script))
              case Again =>
                && bytes == old(bytes) && dead == old(dead) && |script| < |old(script)|
                && Patience(script) == old(Patience(script))
              case Gone =>
                && bytes == old(bytes) && dead && (old(dead) || old(Patience(script)) == 0)
    {
      if dead || script == [] || script[0].Closes? {
        dead := true;
        return Gone;
      }
      var e := script[0];
      script := script[1..];
      if e.Interrupts? {
        return Again;
      }
      var k := Clamp(e.n, 1, |data|);
      r := Got(data[..k]);
      bytes := bytes + data[..k];
    }

    /** sendmsg with SCM_RIGHTS: the descriptor goes with the first byte taken, or not at all. */
    method SendMsg(data: seq<u8>, fd: nat) returns (r: Transfer)
      requires data != []
      modifies this`bytes, this`script, this`dead, this`riders
      ensures |script| <= |old(script)|
      ensures r.Got? ==> r.data != [] && r.data <= data && bytes == old(bytes) + r.data && dead == old(dead) == false
      ensures r.Got? ==> riders == old(riders) + [(|old(Total())|, fd)]
      ensures !r.Gone? ==>
                |script| < |old(script)| && Patience(script) + (if r.Got? then 1 else 0) == old(Patience(script))
      ensures !r.Got? ==> bytes == old(bytes) && riders == old(riders)
      ensures r.Again? ==> dead == old(dead)
      ensures r.Gone? ==> dead && (old(dead) || old(Patience(script)) == 0)
    {
      ghost var at := |Total()|;
      r := Send(data);
      if r.Got? { riders := riders + [(at, fd)]; }
    }
  }

  /** How a receive of exactly len bytes ends on a live stream: completed, with the script left, or not. */
  datatype RecvEnd = Completed(script: seq<Event>) | Lost

  function RecvRun(script: seq<Event>, avail: nat, len: nat): (e: RecvEnd)
    ensures e.Completed? ==> len <= avail
    decreases |script|
  {
    if len == 0 then Completed(script)
    else if script == [] || script[0].Closes? then Lost
    else if script[0].Interrupts? then RecvRun(script[1..], avail, len)
    else if avail == 0 then Lost
    else
      var k := Clamp(script[0].n, 1, if len < avail then len else avail);
      RecvRun(script[1..], avail - k, len - k)
  }

  /**
   wire_recv_all.  Success means exactly the next len bytes, wherever the transfers split;
   failure means the connection is dead, and it happens only if the peer closed or ran out.
   Which of the two is a function of the script.
   */
  method RecvAll(s: Stream, len: nat) returns (ok: bool, data: seq<u8>)
    modifies s`bytes, s`script, s`dead, s`taken
    ensures ok ==> |old(s.bytes)| >= len && data == old(s.bytes)[..len] && s.bytes == old(s.bytes)[len..]
    ensures ok && len > 0 ==> !s.dead && !old(s.dead)
    ensures len == 0 ==> ok && s.dead == old(s.dead)
    ensures !ok ==> s.dead && data + s.bytes == old(s.bytes)
    ensures !old(s.dead) && |old(s.bytes)| >= len && old(Patience(s.script)) >= len ==> ok
    ensures !old(s.dead) ==> (ok <==> RecvRun(old(s.script), |old(s.bytes)|, len).Completed?)
    ensures !old(s.dead) && ok ==> s.script == RecvRun(old(s.script), |old(s.bytes)|, len).script
    ensures s.Total() == old(s.Total())
    ensures Uninterrupted(old(s.script)) ==> Uninterrupted(s.script)
  {
    hide Uninterrupted, Patience, Stream.Outcome, Stream.Total, RecvRun;
    data := [];
    RecvRunDone(s.script, |s.bytes|);
    while |data| < len
      invariant |data| <= len && data + s.bytes == old(s.bytes) && s.Total() == old(s.Total())
      invariant |data| > 0 ==> !s.dead && !old(s.dead)
      invariant s.dead ==> old(s.dead)
      invariant Uninterrupted(old(s.script)) ==> Uninterrupted(s.script)
      invariant |data| == 0 && old(s.dead) ==> s.dead
      invariant !s.dead && old(Patience(s.script)) >= len ==> Patience(s.script) >= len - |data|
      invariant !s.dead ==> RecvRun(s.script, |s.bytes|, len - |data|) == RecvRun(old(s.script), |old(s.bytes)|, len)
      decreases |s.script|
    {
      RecvRunStep(s, len - |data|);
      var r := s.Recv(len - |data|);
      match r {
        case Again =>
        case Gone =>
          return false, data;
        case Got(more) =>
          assert (data + more) + s.bytes == data + (more + s.bytes);
          data := data + more;
      }
    }
    assert |data| == len && old(s.bytes) == data + s.bytes;
    RecvRunDone(s.script, |s.bytes|);
    ok := true;
  }

  lemma RecvRunDone(script: seq<Event>, avail: nat)
    ensures RecvRun(script, avail, 0) == Completed(script)
  {}

  /** As many transfers as bytes are enough, and no more are used up. */
  lemma {:induction false} PatienceSuffices(script: seq<Event>, avail: nat, len: nat)
    requires len <= avail && len <= Patience(script)
    ensures RecvRun(script, avail, len).Completed?
    ensures Patience(RecvRun(script, avail, len).script) >= Patience(script) - len
    decreases |script|
  {
    if len > 0 {
      if script[0].Interrupts? {
        PatienceSuffices(script[1..], avail, len);
      } else {
        var k := Clamp(script[0].n, 1, if len < avail then len else avail);
        PatienceSuffices(script[1..], avail - k, len - k);
      }
    }
  }

  /** What is left of a script has no interruption that was not there. */
  lemma {:induction false} RestUninterrupted(script: seq<Event>, avail: nat, len: nat)
    requires Uninterrupted(script) && RecvRun(script, avail, len).Completed?
    ensures Uninterrupted(RecvRun(script, avail, len).script)
    decreases |script|
  {
    if len > 0 {
      assert forall e | e in script[1..] :: e in script;
      assert script[0] in script;
      var k := Clamp(script[0].n, 1, if len < avail then len else avail);
      RestUninterrupted(script[1..], avail - k, len - k);
    }
  }

  /** One receive is one step of the run. */
  lemma RecvRunStep(s: Stream, len: nat)
    requires len > 0
    ensures !s.dead ==> match s.Outcome(len)
              case Gone => RecvRun(s.script, |s.bytes|, len) == Lost
              case Again => s.script != [] && RecvRun(s.script, |s.bytes|, len) ==
                                            RecvRun(s.script[1..], |s.bytes|, len)
              case Got(data) =>
                && s.script != [] && |data| <= |s.bytes| && |data| <= len
                && RecvRun(s.script, |s.bytes|, len) == RecvRun(s.script[1..], |s.bytes| - |data|, len - |data|)
  {}

  /** wire_send_all: all the bytes arrive, in order and once, or the connection is dead. */
  method SendAll(s: Stream, data: seq<u8>) returns (ok: bool)
    modifies s`bytes, s`script, s`dead
    ensures ok ==> s.bytes == old(s.bytes) + data
    ensures data == [] ==> ok && s.dead == old(s.dead)
    ensures ok && data != [] ==> !s.dead
    ensures !ok ==> s.dead && exists k :: 0 <= k < |data| && s.bytes == old(s.bytes) + data[..k]
    ensures !old(s.dead) && old(Patience(s.script)) >= |data| ==> ok
  {
    hide Patience, Stream.Outcome;
    var sent := 0;
    while sent < |data|
      invariant 0 <= sent <= |data| && s.bytes == old(s.bytes) + data[..sent]
      invariant sent > 0 ==> !s.dead
      invariant s.dead ==> old(s.dead)
      invariant sent == 0 && old(s.dead) ==> s.dead
      invariant !s.dead && old(Patience(s.script)) >= |data| ==> Patience(s.script) >= |data| - sent
      decreases |s.script|, |data| - sent
    {
      var r := s.Send(data[sent..]);
      match r {
        case Again =>
        case Gone =>
          return false;
        case Got(part) =>
          assert data[..sent] + part == data[..sent + |part|];
          sent := sent + |part|;
      }
    }
    ok := true;
  }

  /**
   wire_send_fd.  The descriptor travels with the first byte of the metadata, and exactly once however
   the metadata is split: an interrupted sendmsg took nothing, and the remainder is sent without it.
   */
  method SendFd(s: Stream, fd: nat, meta: seq<u8>) returns (ok: bool)
    requires meta != []
    modifies s`bytes, s`script, s`dead, s`riders
    ensures ok ==> s.bytes == old(s.bytes) + meta && !s.dead && s.riders == old(s.riders) + [(|old(s.Total())|, fd)]
    ensures !ok ==> s.dead && exists k :: 0 <= k < |meta| && s.bytes == old(s.bytes) + meta[..k]
    ensures !ok ==> s.riders == old(s.riders) + if s.bytes == old(s.bytes) then [] else [(|old(s.Total())|, fd)]
    ensures !old(s.dead) && old(Patience(s.script)) >= |meta| ==> ok
  {
    hide Patience;
    var r := s.SendMsg(meta, fd);
    while r.Again?
      invariant !r.Got? ==> s.bytes == old(s.bytes) && s.riders == old(s.riders)
      invariant r.Gone? ==> s.dead && (old(s.dead) || old(Patience(s.script)) == 0)
      invariant r.Again? ==> s.dead == old(s.dead) && Patience(s.script) == old(Patience(s.script))
      invariant r.Got? ==> r.data != [] && r.data <= meta && s.bytes == old(s.bytes) + r.data && !s.dead && !old(s.dead)
      invariant r.Got? ==> Patience(s.script) + 1 == old(Patience(s.script))
      invariant r.Got? ==> s.riders == old(s.riders) + [(|old(s.Total())|, fd)]
      decreases |s.script| + if r.Again? then 1 else 0
    {
      r := s.SendMsg(meta, fd);
    }
    if r.Gone? {
      assert s.bytes == old(s.bytes) + meta[..0];
      return false;
    }
    var sent := r.data;
    assert meta == sent + meta[|sent|..];
    if |sent| < |meta| {
      ok := SendAll(s, meta[|sent|..]);
      if !ok {
        ghost var k :| 0 <= k < |meta| - |sent| && s.bytes == old(s.bytes) + sent + meta[|sent|..][..k];
        assert sent + meta[|sent|..][..k] == meta[..|sent| + k];
        return;
      }
    }
    ok := true;
  }

  // ---- descriptors ----

  /** The process's descriptor table: closing needs a descriptor that is open. */
  class FdTable {
    var open: set<nat>

    constructor ()
      ensures open == {}
    {
      open := {};
    }

    /** The kernel installs a descriptor at a number not in use. */
    method Install() returns (fd: nat)
      modifies this
      ensures fd !in old(open) && open == old(open) + {fd}
    {
      fd := *;
      if fd in open {
        AlwaysRoom(open);
        fd :| fd !in open;
      }
      open := open + {fd};
    }

    method Close(fd: nat)
      requires fd in open
      modifies this
      ensures open == old(open) - {fd}
    {
      open := open - {fd};
    }
  }

  lemma {:induction false} Bounded(s: set<nat>) returns (b: nat)
    ensures forall f | f in s :: f < b
    decreases s
  {
    b := 0;
    if f :| f in s {
      var r := Bounded(s - {f});
      b := if f < r then r else f + 1;
      forall g | g in s ensures g < b {
        if g != f { assert g in s - {f}; }
      }
    }
  }

  lemma AlwaysRoom(s: set<nat>)
    ensures exists f: nat :: f !in s
  {
    var b := Bounded(s);
    assert b !in s;
  }

  /** A control block as received. */
  datatype Block = Rights(fds: seq<nat>) | Other

  function FdsOf(blocks: seq<Block>): (fds: seq<nat>) {
    if blocks == [] then []
    else FdsOf(blocks[..|blocks| - 1]) + match blocks[|blocks| - 1] case Rights(f) => f case Other => []
  }

  ghost predicate Distinct(fds: seq<nat>) {
    forall i, j | 0 <= i < j < |fds| :: fds[i] != fds[j]
  }

  ghost function SetOf(fds: seq<nat>): (s: set<nat>) {
    set f | f in fds
  }

  /** recvmsg: what it delivered, or why nothing. */
  datatype Message = Message(data: seq<u8>, blocks: seq<Block>, truncated: bool) | Interrupted | Failed

  /** The n descriptors of one SCM_RIGHTS block, installed one after the other. */
  method InstallBlock(t: FdTable, n: nat, ghost so: seq<nat>, ghost before: set<nat>) returns (fds: seq<nat>)
    requires Distinct(so) && SetOf(so) !! before && t.open == before + SetOf(so)
    modifies t
    ensures |fds| == n && Distinct(so + fds) && SetOf(so + fds) !! before && t.open == before + SetOf(so + fds)
  {
    fds := [];
    assert so + [] == so;
    while |fds| < n
      invariant |fds| <= n && Distinct(so + fds) && SetOf(so + fds) !! before && t.open == before + SetOf(so + fds)
    {
      ghost var all := so + fds;
      var fd := t.Install();
      assert so + (fds + [fd]) == all + [fd];
      assert fd !in SetOf(all) && fd !in all;
      assert SetOf(all + [fd]) == SetOf(all) + {fd};
      fds := fds + [fd];
    }
  }

  method InstallBlocks(t: FdTable, shapes: seq<Shape>) returns (blocks: seq<Block>)
    modifies t
    ensures |FdsOf(blocks)| == Descriptors(shapes)
    ensures Distinct(FdsOf(blocks)) && SetOf(FdsOf(blocks)) !! old(t.open)
    ensures t.open == old(t.open) + SetOf(FdsOf(blocks))
  {
    hide Distinct;
    blocks := [];
    ghost var before := t.open;
    NoneInstalled();
    assert SetOf([]) == {};
    var i := 0;
    while i < |shapes|
      invariant 0 <= i <= |shapes| && |FdsOf(blocks)| == Descriptors(shapes[..i])
      invariant Distinct(FdsOf(blocks)) && SetOf(FdsOf(blocks)) !! before && t.open == before + SetOf(FdsOf(blocks))
    {
      var p := shapes[..i + 1];
      assert p[..|p| - 1] == shapes[..i] && p[|p| - 1] == shapes[i];
      var b := Other;
      if shapes[i].RightsOf? {
        var fds := InstallBlock(t, shapes[i].n, FdsOf(blocks), before);
        b := Rights(fds);
      }
      assert (blocks + [b])[..|blocks|] == blocks;
      assert FdsOf(blocks) + [] == FdsOf(blocks);
      blocks := blocks + [b];
      i := i + 1;
    }
    assert shapes[..i] == shapes;
  }

  lemma NoneInstalled()
    ensures Distinct([])
  {}

  /** Any message the kernel may deliver: any split of the data, any blocks, any truncation. */
  method RecvMsg(s: Stream, t: FdTable, len: nat) returns (m: Message)
    requires len > 0
    modifies s, t
    ensures s.Total() == old(s.Total())
    ensures match old(s.Outcome(len))
            case Again => m == Interrupted && s.dead == old(s.dead) && s.control == old(s.control)
            case Gone => m == Failed && s.dead
            case Got(data) =>
              && m.Message? && m.data == data && !s.dead && !old(s.dead) && s.control == Rest(old(s.control))
              && s.script == old(s.script)[1..] && |FdsOf(m.blocks)| == Descriptors(NextControl(old(s.control)).blocks)
              && m.truncated == NextControl(old(s.control)).truncated
    ensures m.Message? ==>
              && 0 < |m.data| <= len && m.data + s.bytes == old(s.bytes)
              && Distinct(FdsOf(m.blocks)) && SetOf(FdsOf(m.blocks)) !! old(t.open)
              && t.open == old(t.open) + SetOf(FdsOf(m.blocks))
    ensures !m.Message? ==> t.open == old(t.open) && s.bytes == old(s.bytes)
    ensures Uninterrupted(old(s.script)) ==> Uninterrupted(s.script)
    ensures Unrefused(old(s.control)) ==> Unrefused(s.control)
  {
    hide Uninterrupted, Distinct, SetOf, FdsOf, Descriptors, Patience;
    var r := s.Recv(len);
    match r {
      case Again => m := Interrupted;
      case Gone => m := Failed;
      case Got(data) =>
        var a := NextControl(s.control);
        s.control := Rest(s.control);
        var blocks := InstallBlocks(t, a.blocks);
        m := Message(data, blocks, a.truncated);
    }
  }

  /** What the control-block scan has done after some prefix of the installed descriptors. */
  ghost predicate Scanned(before: set<nat>, now: set<nat>, seen: seq<nat>, accepted: int) {
    && now == before - SetOf(seen) + (if seen == [] then {} else {seen[0]})
    && accepted == if seen == [] then -1 else seen[0]
  }

  lemma ScanStep(before: set<nat>, now: set<nat>, seen: seq<nat>, fds: seq<nat>, i: nat, accepted: int)
    requires i < |fds| && Distinct(seen + fds) && SetOf(seen + fds) <= before
    requires Scanned(before, now, seen + fds[..i], accepted)
    ensures fds[i] in now
    ensures if |seen| + i == 0 then Scanned(before, now, seen + fds[..i + 1], fds[i])
            else Scanned(before, now - {fds[i]}, seen + fds[..i + 1], accepted)
  {
    var so := seen + fds[..i];
    assert seen + fds[..i + 1] == so + [fds[i]];
    assert (seen + fds)[|so|] == fds[i];
    assert fds[i] !in so by { assert so == (seen + fds)[..|so|]; }
    assert fds[i] in seen + fds;
    assert SetOf(so + [fds[i]]) == SetOf(so) + {fds[i]};
  }

  method KeepFirst(t: FdTable, fds: seq<nat>, seen0: nat, accepted0: int, ghost seen: seq<nat>, ghost before: set<nat>)
      returns (nfds: nat, accepted: int)
    requires seen0 == |seen| && Scanned(before, t.open, seen, accepted0)
    requires Distinct(seen + fds) && SetOf(seen + fds) <= before
    modifies t
    ensures nfds == |seen + fds| && Scanned(before, t.open, seen + fds, accepted)
  {
    hide Scanned, Distinct, SetOf;
    nfds, accepted := seen0, accepted0;
    var i := 0;
    assert seen + fds[..0] == seen;
    while i < |fds|
      invariant 0 <= i <= |fds|
      invariant nfds == |seen| + i && Scanned(before, t.open, seen + fds[..i], accepted)
    {
      ScanStep(before, t.open, seen, fds, i, accepted);
      if nfds == 0 {
        accepted := fds[i];
      } else {
        t.Close(fds[i]);
      }
      nfds := nfds + 1;
      i := i + 1;
    }
    assert seen + fds[..i] == seen + fds;
  }

  lemma {:induction false} FdsOfPrefix(blocks: seq<Block>, k: nat)
    requires k <= |blocks|
    ensures FdsOf(blocks[..k]) <= FdsOf(blocks)
    decreases |blocks| - k
  {
    if k < |blocks| {
      FdsOfPrefix(blocks, k + 1);
      assert blocks[..k + 1][..k] == blocks[..k];
    } else {
      assert blocks[..k] == blocks;
    }
  }

  lemma SubsetOfInstalled(part: seq<nat>, all: seq<nat>)
    requires part <= all && Distinct(all)
    ensures Distinct(part) && SetOf(part) <= SetOf(all)
  {}

  /** Scan every control block: the first descriptor is kept, every other one closed. */
  method CollectFds(t: FdTable, blocks: seq<Block>) returns (nfds: nat, accepted: int)
    requires Distinct(FdsOf(blocks)) && SetOf(FdsOf(blocks)) <= t.open
    modifies t
    ensures nfds == |FdsOf(blocks)| && Scanned(old(t.open), t.open, FdsOf(blocks), accepted)
  {
    hide Distinct, Scanned;
    ghost var before := t.open;
    nfds, accepted := 0, -1;
    NothingScanned(before);
    assert blocks[..0] == [];
    var i := 0;
    while i < |blocks|
      invariant 0 <= i <= |blocks|
      invariant nfds == |FdsOf(blocks[..i])| && Scanned(before, t.open, FdsOf(blocks[..i]), accepted)
    {
      LastBlock(blocks, i);
      match blocks[i] {
        case Other =>
        case Rights(fds) =>
          FdsOfPrefix(blocks, i + 1);
          SubsetOfInstalled(FdsOf(blocks[..i + 1]), FdsOf(blocks));
          nfds, accepted := KeepFirst(t, fds, nfds, accepted, FdsOf(blocks[..i]), before);
      }
      i := i + 1;
    }
    assert blocks[..i] == blocks;
  }

  lemma LastBlock(blocks: seq<Block>, i: nat)
    requires i < |blocks|
    ensures FdsOf(blocks[..i + 1]) ==
            match blocks[i] case Rights(f) => FdsOf(blocks[..i]) + f case Other => FdsOf(blocks[..i])
  {
    var p := blocks[..i + 1];
    assert p[..|p| - 1] == blocks[..i] && p[|p| - 1] == blocks[i];
    assert FdsOf(blocks[..i]) + [] == FdsOf(blocks[..i]);
  }

  lemma NothingScanned(before: set<nat>)
    ensures Scanned(before, before, [], -1)
  {}

  /** How wire_recv_fd ends; the C code does not distinguish the failures. */
  datatype FdEnd = Delivered(script: seq<Event>) | ConnectionLost | CallInterrupted | Rejected(got: nat)

  /** Which end, as a function of the scripts of a live stream with `avail` bytes in flight. */
  function FdRun(script: seq<Event>, avail: nat, len: nat, refused: bool): (f: FdEnd)
    ensures f.Rejected? ==> 0 < f.got <= len && f.got <= avail
    requires len > 0
  {
    if script == [] || script[0].Closes? then ConnectionLost
    else if script[0].Interrupts? then CallInterrupted
    else if avail == 0 then ConnectionLost
    else
      var k := Clamp(script[0].n, 1, if len < avail then len else avail);
      if refused then Rejected(k)
      else match RecvRun(script[1..], avail - k, len - k)
        case Completed(rest) => Delivered(rest)
        case Lost => ConnectionLost
  }

  /**
   wire_recv_fd.  Every descriptor the kernel installed is either the one returned or closed, on
   every path; on failure none is kept.  Success delivers exactly the next len bytes.  How it ends is
   a function of the scripts: recvmsg is not retried when interrupted, and refused control data leaves
   the rest of the metadata unread.
   */
  method RecvFd(s: Stream, t: FdTable, len: nat) returns (ok: bool, meta: seq<u8>, fd: int, ghost end: FdEnd)
    requires len > 0
    modifies s, t
    ensures -1 <= fd && (fd >= 0 ==> fd !in old(t.open))
    ensures t.open == old(t.open) + if fd >= 0 then {fd} else {}
    ensures !ok ==> fd == -1
    ensures end == if old(s.dead) then ConnectionLost
                   else FdRun(old(s.script), |old(s.bytes)|, len, Refused(NextControl(old(s.control))))
    ensures ok <==> end.Delivered?
    ensures ok ==>
              && |old(s.bytes)| >= len && meta == old(s.bytes)[..len] && s.bytes == old(s.bytes)[len..] && !s.dead
              && !old(s.dead)
    ensures ok ==> s.script == end.script
    ensures ok ==> (fd >= 0 <==> Descriptors(NextControl(old(s.control)).blocks) > 0)
    ensures end.ConnectionLost? ==> s.dead
    ensures end.CallInterrupted? ==> s.bytes == old(s.bytes) && s.dead == old(s.dead)
    ensures end.Rejected? ==> end.got <= |old(s.bytes)| && s.bytes == old(s.bytes)[end.got..] && !s.dead
    ensures s.Total() == old(s.Total())
    ensures Uninterrupted(old(s.script)) ==> Uninterrupted(s.script)
    ensures Unrefused(old(s.control)) ==> Unrefused(s.control)
  {
    hide Uninterrupted, Unrefused, Distinct, SetOf, FdsOf, Descriptors, Stream.Total, RecvRun;
    fd, meta := -1, [];
    ghost var before := t.open;
    ghost var script, avail, refused := s.script, |s.bytes|, Refused(NextControl(s.control));
    var m := RecvMsg(s, t, len);
    match m {
      case Interrupted => return false, [], -1, CallInterrupted;
      case Failed => return false, [], -1, ConnectionLost;
      case Message(data, blocks, truncated) =>
        ghost var installed := t.open;
        assert |data| == Clamp(script[0].n, 1, if len < avail then len else avail);
        var nfds, accepted := CollectFds(t, blocks);
        KeptOnly(before, installed, t.open, FdsOf(blocks), accepted);
        if truncated || nfds > 1 {
          assert refused;
          if accepted >= 0 {
            t.Close(accepted);
          }
          return false, [], -1, Rejected(|data|);
        }
        fd, meta := accepted, data;
        var rest, more := true, [];
        ghost var left := s.script;
        RecvRunDone(left, |s.bytes|);
        if |data| < len {
          rest, more := RecvAll(s, len - |data|);
        }
        if !rest {
          // close(-1) has no effect
          if fd >= 0 {
            t.Close(fd);
          }
          return false, [], -1, ConnectionLost;
        }
        return true, data + more, fd, Delivered(s.script);
    }
  }

  lemma KeptOnly(before: set<nat>, installed: set<nat>, now: set<nat>, fds: seq<nat>, accepted: int)
    requires installed == before + SetOf(fds) && SetOf(fds) !! before && Scanned(installed, now, fds, accepted)
    ensures -1 <= accepted && (accepted >= 0 <==> fds != [])
    ensures accepted >= 0 ==> accepted !in before && accepted in now
    ensures now == before + if accepted >= 0 then {accepted} else {}
  {
    if fds != [] { assert fds[0] in SetOf(fds); }
  }
}
