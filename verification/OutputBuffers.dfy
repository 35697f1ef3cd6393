/**
 Where conversions write: the caller's buffer when one is set, else a grow-once buffer the context
 owns, with a 32-bit counter of how often a destination was asked for.
 */
module OutputBuffers {
  import opened Words
  import opened Geometry
  import opened SkipCache

  /** What a convert uses of a capture context; its address is its identity. */
  datatype Context = Context(device: nat, bumps: nat, userOut: nat, userLen: nat, buf: nat, cap: nat)
  {
    /** The 32-bit counter: every request for an output destination bumps it. */
    function OutGen(): u32 { W32(bumps) }

    /** The context's own buffer serves a request of this size as it is. */
    predicate Fits(size: nat) { 0 < size <= MAX_FB_BYTES && userOut == 0 && buf != 0 && size <= cap }
  }

  // ---- heap blocks and who owns them ----

  ghost predicate Owns(c: Context, blocks: map<nat, seq<u8>>) {
    && (c.buf != 0 ==> c.buf in blocks && |blocks[c.buf]| == c.cap)
    && (c.userOut != 0 ==> c.userOut in blocks && c.userLen <= |blocks[c.userOut]|)
  }

  ghost predicate HeapSound(ctxs: map<nat, Context>, blocks: map<nat, seq<u8>>) {
    && (forall c | c in ctxs :: c != 0 && Owns(ctxs[c], blocks))
    && (forall c, d | c in ctxs && d in ctxs && ctxs[c].buf != 0 ::
          (c != d ==> ctxs[c].buf != ctxs[d].buf) && ctxs[c].buf != ctxs[d].userOut)
  }

  lemma BlockReplaced(ctxs: map<nat, Context>, blocks: map<nat, seq<u8>>, c: nat, cx: Context, blocks': map<nat,
                      seq<u8>>)
    requires HeapSound(ctxs, blocks) && c in ctxs && Owns(cx, blocks')
    requires cx.userOut == ctxs[c].userOut && (cx.buf in {0, ctxs[c].buf} || cx.buf !in blocks)
    requires forall p | p in blocks && p != ctxs[c].buf :: p in blocks' && |blocks'[p]| == |blocks[p]|
    ensures HeapSound(ctxs[c := cx], blocks')
  {
    forall d, e | d in ctxs && e in ctxs && (if d == c then cx else ctxs[d]).buf != 0
      ensures d != e ==> (if d == c then cx else ctxs[d]).buf != (if e == c then cx else ctxs[e]).buf
      ensures (if d == c then cx else ctxs[d]).buf != ctxs[e].userOut
    {
      assert Owns(ctxs[d], blocks) && Owns(ctxs[e], blocks);
    }
    forall d | d in ctxs && d != c ensures Owns(ctxs[d], blocks') {
      assert Owns(ctxs[d], blocks);
    }
  }

  /** Overwriting blocks in place keeps everything owned. */
  lemma BlockWritten(ctxs: map<nat, Context>, blocks: map<nat, seq<u8>>, p: nat, bytes: seq<u8>)
    requires HeapSound(ctxs, blocks) && p in blocks && |bytes| == |blocks[p]|
    ensures HeapSound(ctxs, blocks[p := bytes])
  {
    forall d | d in ctxs ensures Owns(ctxs[d], blocks[p := bytes]) {
      assert Owns(ctxs[d], blocks);
    }
  }

  // ---- the 32-bit counter ----

  lemma SameLowWord(a: nat, b: nat)
    requires a <= b
    ensures W32(a) == W32(b) <==> (b - a) % 0x1_0000_0000 == 0
  {
    var n := 0x1_0000_0000;
    assert b == (b / n) * n + b % n && a == (a / n) * n + a % n;
  }

  /** Destinations were handed out since, as many as take the counter round to where it was. */
  predicate Wraps(since: nat, now: nat) {
    since < now && (now - since) % 0x1_0000_0000 == 0
  }

  /** An equal counter means that no destination was handed out since, except exactly after whole turns. */
  lemma UntouchedIsExact(since: nat, now: nat)
    requires since <= now
    ensures W32(now) == W32(since) <==> now == since || Wraps(since, now)
    ensures Wraps(since, since + 0x1_0000_0000)
  {
    SameLowWord(since, now);
  }

  /** Why a destination of `size` bytes is refused before anything is allocated; 0 when it is not. */
  function Refusal(size: nat, user: bool, userLen: nat): (ret: int) {
    if size == 0 then EINVAL else if size > MAX_FB_BYTES then EFBIG else if user && size > userLen then ENOSPC else 0
  }

  /** The refusals, in numbers. */
  lemma RefusedExactly(size: nat, user: bool, userLen: nat)
    ensures Refusal(size, user, userLen) ==
            if size == 0 then -22 else if size > 132_710_400 then -27 else if user && size > userLen then -28 else 0
  {}

  // ---- grow-once buffers ----

  /** Grow, never shrink, capped; contents are not kept across a grow. */
  method EnsureBuf(heap: Heap, buf: nat, cap: nat, size: nat) returns (ret: int, p: nat, n: nat)
    requires buf != 0 ==> buf in heap.blocks && |heap.blocks[buf]| == cap
    modifies heap
    ensures ret == EINVAL <==> size == 0
    ensures ret == EFBIG <==> size > MAX_FB_BYTES
    ensures ret == 0 ==> p != 0 && n >= size
    ensures ret in {0, EINVAL, EFBIG, ENOMEM} && (ret == ENOMEM ==> p == 0 && n == 0)
    ensures heap.faults == old(heap.faults) + if ret == ENOMEM then 1 else 0
    ensures ret in {EINVAL, EFBIG} ==> p == buf && n == cap && heap.blocks == old(heap.blocks)
    ensures p != 0 ==> p in heap.blocks && |heap.blocks[p]| == n && (p == buf || p !in old(heap.blocks))
    ensures 0 < size <= MAX_FB_BYTES && buf != 0 && cap >= size ==>
              ret == 0 && p == buf && n == cap && heap.blocks == old(heap.blocks)
    ensures forall q | q in old(heap.blocks) && q != buf :: q in heap.blocks && heap.blocks[q] == old(heap.blocks)[q]
  {
    p, n := buf, cap;
    if size == 0 { return EINVAL, p, n; }
    if size > MAX_FB_BYTES { return EFBIG, p, n; }
    if buf != 0 && cap >= size { return 0, p, n; }
    heap.Free(buf);
    p := heap.Malloc(size);
    if p == 0 { return ENOMEM, 0, 0; }
    return 0, p, size;
  }

  /** The contexts of one capture thread and the heap their buffers live in. */
  class Outputs {
    const heap: Heap
    var ctxs: map<nat, Context>

    constructor (heap: Heap)
      ensures this.heap == heap && ctxs == map[] && Valid()
    {
      this.heap, ctxs := heap, map[];
    }

    ghost predicate Valid()
      reads this, heap
    {
      HeapSound(ctxs, heap.blocks)
    }

    lemma Backing(c: nat)
      requires Valid() && c in ctxs
      ensures c != 0 && Owns(ctxs[c], heap.blocks)
    {}

    /** Nothing a context may write is another context's buffer. */
    lemma Apart(o: nat, c: nat)
      requires Valid() && o in ctxs && c in ctxs && o != c && ctxs[o].buf != 0
      ensures ctxs[o].buf != ctxs[c].buf && ctxs[o].buf != ctxs[c].userOut
    {}

    /** calloc: a zeroed context, at an address that may have belonged to a closed one. */
    method Open(device: nat) returns (c: nat)
      requires Valid()
      modifies this
      ensures Valid()
      ensures c == 0 ==> ctxs == old(ctxs)
      ensures c != 0 ==> c !in old(ctxs) && ctxs == old(ctxs)[c := Context(device, 0, 0, 0, 0, 0)]
    {
      c := *;
      if c in ctxs { c := 0; }
      if c != 0 { ctxs := ctxs[c := Context(device, 0, 0, 0, 0, 0)]; }
    }

    /** The part of closing a context that frees its output buffer and the context itself. */
    method Discard(c: nat)
      requires Valid() && c in ctxs
      modifies this, heap
      ensures Valid() && ctxs == old(ctxs) - {c} && heap.blocks == old(heap.blocks) - {old(ctxs)[c].buf}
    {
      assert Owns(ctxs[c], heap.blocks);
      heap.Free(ctxs[c].buf);
      ctxs := ctxs - {c};
      forall d | d in ctxs ensures Owns(ctxs[d], heap.blocks) {
        assert Owns(ctxs[d], old(heap.blocks));
      }
    }

    /** The caller supplies a destination of its own, or clears it with dst 0. */
    method SetOutput(c: nat, dst: nat, len: nat) returns (ret: int)
      requires Valid() && c in ctxs
      requires dst != 0 ==>
                dst in heap.blocks && len <= |heap.blocks[dst]| && forall d | d in ctxs :: ctxs[d].buf != dst
      modifies this
      ensures Valid()
      ensures ret == (if dst != 0 && len == 0 then EINVAL else 0)
      ensures ret == 0 ==> ctxs == old(ctxs)[c := old(ctxs)[c].(userOut := dst, userLen := if dst == 0 then 0 else len)]
      ensures ret != 0 ==> ctxs == old(ctxs)
    {
      assert Owns(ctxs[c], heap.blocks);
      if dst == 0 {
        ctxs := ctxs[c := ctxs[c].(userOut := 0, userLen := 0)];
        return 0;
      }
      if len == 0 {
        return EINVAL;
      }
      ctxs := ctxs[c := ctxs[c].(userOut := dst, userLen := len)];
      ret := 0;
    }

    /**
     Resolve the destination of a conversion: the caller's buffer, else the grown context buffer.
     Every request with a size counts, whether or not it is then refused.
     */
    method EnsureOut(c: nat, size: nat) returns (ret: int, out: nat)
      requires Valid() && c in ctxs
      modifies this, heap
      ensures Valid() && ctxs.Keys == old(ctxs).Keys && (forall d | d in ctxs && d != c :: ctxs[d] == old(ctxs)[d])
      ensures ctxs[c].bumps == old(ctxs)[c].bumps + (if size == 0 then 0 else 1)
      ensures ctxs[c] == old(ctxs)[c].(bumps := ctxs[c].bumps, buf := ctxs[c].buf, cap := ctxs[c].cap)
      ensures ret == 0 ==> out != 0 && out in heap.blocks && size <= |heap.blocks[out]|
      ensures ret == 0 ==> out == if ctxs[c].userOut != 0 then ctxs[c].userOut else ctxs[c].buf
      ensures ret == Refusal(size, old(ctxs)[c].userOut != 0,
                             old(ctxs)[c].userLen) || (ret == ENOMEM && old(ctxs)[c].userOut == 0)
      ensures heap.faults == old(heap.faults) + if ret == ENOMEM then 1 else 0
      ensures size == 0 ==> ctxs == old(ctxs) && heap.blocks == old(heap.blocks)
      ensures old(ctxs)[c].userOut != 0 ==> heap.blocks == old(heap.blocks) && ctxs[c].buf == old(ctxs)[c].buf
      ensures old(ctxs)[c].Fits(size)
        ==> ret == 0 && ctxs[c] == old(ctxs)[c].(bumps := old(ctxs)[c].bumps + 1) && heap.blocks == old(heap.blocks)
      ensures forall q | q in old(heap.blocks) && q != old(ctxs)[c].buf ::
                q in heap.blocks && heap.blocks[q] == old(heap.blocks)[q]
    {
      assert Owns(ctxs[c], heap.blocks);
      out := 0;
      var cx := ctxs[c];
      if size == 0 { return EINVAL, out; }
      cx := cx.(bumps := cx.bumps + 1);
      BlockReplaced(ctxs, heap.blocks, c, cx, heap.blocks);
      ctxs := ctxs[c := cx];
      if size > MAX_FB_BYTES { return EFBIG, out; }
      if cx.userOut != 0 {
        return if size > cx.userLen then ENOSPC else 0, cx.userOut;
      }
      ghost var before := heap.blocks;
      var p, n;
      ret, p, n := EnsureBuf(heap, cx.buf, cx.cap, size);
      BlockReplaced(ctxs, before, c, cx.(buf := p, cap := n), heap.blocks);
      ctxs := ctxs[c := cx.(buf := p, cap := n)];
      out := p;
    }

    /** Bytes written at the start of a block, in place. */
    method Fill(p: nat, bytes: seq<u8>)
      requires Valid() && p in heap.blocks && |bytes| <= |heap.blocks[p]|
      modifies heap`blocks
      ensures Valid() && heap.blocks.Keys == old(heap.blocks).Keys
      ensures p in heap.blocks && |heap.blocks[p]| == |old(heap.blocks)[p]| && heap.blocks[p][..|bytes|] == bytes
      ensures forall q | q in old(heap.blocks) && q != p :: q in heap.blocks && heap.blocks[q] == old(heap.blocks)[q]
    {
      BlockWritten(ctxs, heap.blocks, p, bytes + heap.blocks[p][|bytes|..]);
      heap.Write(p, bytes);
    }

    /** A CPU conversion: take a destination, then write it; other contexts' buffers keep their bytes. */
    method CpuWrite(c: nat, bytes: seq<u8>) returns (ret: int, out: nat)
      requires Valid() && c in ctxs
      modifies this, heap
      ensures Valid() && ctxs.Keys == old(ctxs).Keys
      ensures ctxs[c].bumps == old(ctxs)[c].bumps + (if bytes == [] then 0 else 1)
      ensures forall d | d in ctxs && d != c :: ctxs[d] == old(ctxs)[d]
      ensures forall d | d in ctxs && d != c && ctxs[d].buf in old(heap.blocks) && ctxs[d].buf != 0
                :: ctxs[d].buf in heap.blocks && heap.blocks[ctxs[d].buf] == old(heap.blocks)[ctxs[d].buf]
      ensures bytes == [] ==> ret != 0 && ctxs == old(ctxs) && heap.blocks == old(heap.blocks)
      ensures ret == 0 ==> out in heap.blocks && |bytes| <= |heap.blocks[out]| && heap.blocks[out][..|bytes|] == bytes
      // into a buffer that already fits
      ensures old(ctxs)[c].Fits(|bytes|)
        ==> ret == 0 && out == old(ctxs)[c].buf && ctxs[c] == old(ctxs)[c].(bumps := old(ctxs)[c].bumps + 1)
    {
      hide HeapSound;
      forall d | d in ctxs && d != c && ctxs[d].buf != 0 ensures ctxs[d].buf != ctxs[c].buf { Apart(d, c); }
      ret, out := EnsureOut(c, |bytes|);
      if ret == 0 {
        forall d | d in ctxs && d != c && ctxs[d].buf != 0 ensures ctxs[d].buf != out { Apart(d, c); }
        Fill(out, bytes);
      }
    }
  }
}
