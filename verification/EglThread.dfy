/**
 One capture thread's GL state: the convert entry point with its image cache, its output buffers and
 the skip-unchanged shortcut.
 */
module EglThread {
  import opened Words
  import opened Geometry
  import opened BlockHash
  import opened SkipCache
  import opened OutputBuffers
  import EglImageCache

  /** Smaller frames are never hashed. */
  const HASH_FLOOR := 1920 * 1080

  /** Hash-equal images of one size are equal. */
  ghost predicate CollisionFree(m: Rows, n: Rows, w: nat, h: nat) {
    Sized(m, w, h) && Sized(n, w, h) && Grid(m, w, h) == Grid(n, w, h) ==> m == n
  }

  /** The first `size` bytes of block `out` are `bytes`. */
  ghost predicate Shows(blocks: map<nat, seq<u8>>, out: nat, size: int, bytes: seq<u8>) {
    out in blocks && 0 <= size <= |blocks[out]| && blocks[out][..size] == bytes
  }

  /** The texel as bytes at this offset: red, green, blue, alpha. */
  ghost predicate TexelAt(bytes: seq<u8>, at: int, t: Texel) {
    && 0 <= at && at + 4 <= |bytes|
    && bytes[at] == t.r && bytes[at + 1] == t.g && bytes[at + 2] == t.b && bytes[at + 3] == t.a
  }

  /** Block `out` holds the image: rows from the top, width * 4 bytes each, texels from the left. */
  ghost predicate Displays(blocks: map<nat, seq<u8>>, out: nat, w: nat, h: nat, img: Rows) {
    && Sized(img, w, h) && Shows(blocks, out, 4 * w * h, ImageBytes(img))
    && forall x, y | 0 <= x < w && 0 <= y < h :: TexelAt(blocks[out], 4 * (y * w + x), img[y][x])
  }

  lemma TexelsShown(blocks: map<nat, seq<u8>>, out: nat, w: nat, h: nat, img: Rows)
    requires Sized(img, w, h) && Shows(blocks, out, 4 * w * h, ImageBytes(img))
    ensures Displays(blocks, out, w, h, img)
  {
    hide ImageBytes;
    forall x, y | 0 <= x < w && 0 <= y < h ensures TexelAt(blocks[out], 4 * (y * w + x), img[y][x]) {
      TexelBytes(img, w, h, x, y);
    }
  }

  /** One texel of a displayed image: its four bytes. */
  lemma TexelOf(blocks: map<nat, seq<u8>>, out: nat, w: nat, h: nat, img: Rows, x: nat, y: nat)
    requires Displays(blocks, out, w, h, img) && x < w && y < h
    ensures out in blocks && Sized(img, w, h) && 0 <= 4 * (y * w + x) && 4 * (y * w + x) + 4 <= |blocks[out]|
    ensures blocks[out][4 * (y * w + x)..][..4] == [img[y][x].r, img[y][x].g, img[y][x].b, img[y][x].a]
  {
    assert TexelAt(blocks[out], 4 * (y * w + x), img[y][x]);
  }

  lemma ReusedSize(last: Rows, img: Rows, w: nat, h: nat)
    requires Reused(last, img, w, h)
    ensures Sized(last, w, h)
  {}

  lemma FillsOne(job: Job, b: int)
    requires Fills(job.scene, job.layout.width, job.layout.height) && b >= 0
    ensures Sized(job.scene(b), job.layout.width, job.layout.height)
  {}

  /** `last`, converted before, is what a skip shows instead of `img`: same size, same hash. */
  ghost predicate Reused(last: Rows, img: Rows, w: nat, h: nat) {
    Sized(last, w, h) && Sized(img, w, h) && Grid(img, w, h) == Grid(last, w, h)
  }

  /** What the record of the last full convert into `out` promises about the heap. */
  ghost predicate Backed(ctxs: map<nat, Context>, blocks: map<nat, seq<u8>>, owner: nat, bumps: nat, out: nat,
                         bytes: seq<u8>) {
    && owner in ctxs && bumps <= ctxs[owner].bumps
    && (ctxs[owner].bumps == bumps ==> ctxs[owner].buf == out && out != 0 && Shows(blocks, out, |bytes|, bytes))
  }

  /** What the GPU renders for each buffer it may sample. */
  type Scene = nat -> Rows

  ghost predicate Fills(scene: Scene, w: nat, h: nat) {
    forall b :: Sized(scene(b), w, h)
  }

  ghost predicate AllKnown(slots: seq<EglImageCache.Slot>) {
    forall i | 0 <= i < |slots| && slots[i].Cached? :: slots[i].inode != 0
  }

  /** A slot filled with a known inode keeps them all known. */
  lemma StillKnown(was: seq<EglImageCache.Slot>, slots: seq<EglImageCache.Slot>, fd: int, inode: nat)
    requires forall i | 0 <= i < |slots| ::
               slots[i].Empty? || (i < |was| && slots[i] == was[i]) || (fd >= 0 && slots[i].inode == inode)
    requires AllKnown(was) && (fd >= 0 ==> inode != 0)
    ensures AllKnown(slots)
  {}

  /** One frame's conversion as the caller asks for it; `stat` is whether fstat answers. */
  datatype Job = Job(fd: int, stat: bool, fb: u32, layout: EglImageCache.Layout, scene: Scene)

  /** What may happen on a capture thread. */
  datatype Op = Convert(c: nat, job: Job) | CpuConvert(c: nat, bytes: seq<u8>) | Open(device: nat)
              | SetOutput(c: nat, dst: nat, len: nat) | Close(c: nat) | Flip

  ghost predicate Sensible(op: Op) {
    op.Convert? ==> Fills(op.job.scene, op.job.layout.width, op.job.layout.height)
  }

  /** A convert that succeeded: the buffer it was asked for and the one it sampled. */
  datatype Shot = Shot(fd: int, sampled: int)

  class EglThread {
    const outs: Outputs
    const hash: HashCache
    const cache: EglImageCache.ImageCache
    /** Skipping unchanged frames is opted into. */
    const skipping: bool
    var initialized: bool
    var device: nat
    /** The record was kept by a skip although its output had been written since. */
    ghost var tainted: bool

    constructor (outs: Outputs, driver: EglImageCache.Driver, uncached: bool, skipping: bool)
      requires outs.Valid() && driver.Sound() && driver.images == map[] && driver.textures == map[]
      ensures Valid() && Known() && this.outs == outs && cache.d == driver && fresh(hash) && fresh(cache)
    {
      this.outs, this.skipping := outs, skipping;
      hash := new HashCache();
      cache := new EglImageCache.ImageCache(driver, uncached);
      initialized, device, tainted := false, 0, false;
    }

    /** If `was`, the record describes the last full convert, and its bytes are there unless it is tainted. */
    ghost predicate RecordOf(was: bool, tainted: bool)
      reads outs, outs.heap, hash`owner, hash`out, hash`image, hash`w, hash`h, hash`prev, hash`gen, hash`bumps
    {
      was && hash.owner != 0 ==>
        && hash.Remembers() && hash.owner in outs.ctxs && hash.bumps <= outs.ctxs[hash.owner].bumps
        && (!tainted ==> Backed(outs.ctxs, outs.heap.blocks, hash.owner, hash.bumps, hash.out, ImageBytes(hash.image)))
    }

    ghost predicate Recorded(was: bool)
      reads this, outs, outs.heap, hash
    {
      RecordOf(was, tainted)
    }

    ghost predicate Valid()
      reads this, outs, outs.heap, hash, cache, cache.d
    {
      && outs.Valid() && hash.Shaped() && Recorded(hash.valid)
      && cache.Valid() && cache.Owned()
      && (!initialized ==> hash.Blank() && forall i | 0 <= i < |cache.slots| :: cache.slots[i].Empty?)
    }

    /** The record is this context's, and since then its counter has gone round whole turns. */
    ghost predicate Misled(c: nat)
      reads outs, hash
      requires c in outs.ctxs
    {
      hash.valid && hash.owner == c && Wraps(hash.bumps, outs.ctxs[c].bumps)
    }

    /** The inode behind every cached import is known. */
    ghost predicate Known()
      reads cache
    {
      AllKnown(cache.slots)
    }

    /** Tear the GL state down: no image, texture or record survives. */
    method Cleanup()
      requires Valid()
      modifies this`initialized, this`device, hash, cache, cache.d`images, cache.d`textures
      ensures Valid() && !initialized && hash.Blank()
      ensures cache.d.images == map[] && cache.d.textures == map[]
      ensures forall i | 0 <= i < |cache.slots| :: cache.slots[i].Empty?
      ensures cache.disabled == old(cache.disabled)
    {
      hide Backed, EglImageCache.SlotsSound, EglImageCache.UniqueKeys;
      if !initialized {
        cache.EmptySlotsHoldNothing();
        return;
      }
      cache.ReleaseAll();
      hash.Release();
      device, initialized := 0, false;
    }

    /** Build the GL state for a device; the hash is on when its shader built. */
    method Init(device: nat) returns (ret: int)
      requires Valid() && !initialized
      modifies this`initialized, this`device, hash, cache.d.gl`faults
      ensures cache.d.gl.faults >= old(cache.d.gl.faults) + if ret == 0 then 0 else 1
      ensures ret == 0 && cache.d.gl.faults == old(cache.d.gl.faults) ==> hash.on == skipping
      ensures Valid() && (ret == 0 <==> initialized) && ret <= 0 && (ret == 0 ==> this.device == device)
      ensures hash.owner == 0 && !hash.valid && !hash.current
    {
      hide Backed, EglImageCache.SlotsSound, EglImageCache.UniqueKeys;
      var built := cache.d.gl.Step();
      ret := *;
      if built { ret := 0; } else if ret >= 0 { ret := EIO; }
      if ret == 0 {
        if skipping { hash.on := cache.d.gl.Step(); }
        this.device, initialized := device, true;
      }
    }

    /** This thread's state was built for another device than the context's. */
    ghost predicate Moved(c: nat)
      reads this, outs
      requires c in outs.ctxs
    {
      initialized && device != outs.ctxs[c].device
    }

    /** Up to the image: geometry, device, context.  The record stays as it was, or goes with the device. */
    method Prepare(c: nat, width: u32, height: u32, ghost was: bool) returns (ret: int)
      requires Valid() && c in outs.ctxs && !hash.valid && !hash.current && Recorded(was)
      modifies this`initialized, this`device, hash, cache, cache.d`images, cache.d`textures, cache.d.gl`faults
      ensures Valid() && !hash.valid && !hash.current && Recorded(was)
      ensures cache.d.gl.faults >= old(cache.d.gl.faults)
      ensures ValidateFbDims(width, height) != 0 ==> ret == ValidateFbDims(width, height)
      ensures ret != 0 && cache.d.gl.faults == old(cache.d.gl.faults) ==> ValidateFbDims(width, height) != 0
      ensures ret == 0 ==> initialized && ValidateFbDims(width, height) == 0
      ensures hash.owner != 0 || (old(initialized) && !old(Moved(c))) ==> unchanged(hash)
      // the state serves the context's own device, and nothing of another device's survives
      ensures ret == 0 ==> device == outs.ctxs[c].device
      ensures ValidateFbDims(width, height) == 0 && old(Moved(c)) ==>
                hash.owner == 0 && cache.d.images == map[] && cache.d.textures == map[]
      ensures ret == 0 && old(Moved(c)) ==> forall i | 0 <= i < |cache.slots| :: cache.slots[i].Empty?
      ensures !old(Moved(c)) ==> unchanged(cache) && unchanged(cache.d)
      ensures ret == 0 && cache.d.gl.faults == old(cache.d.gl.faults) ==>
                hash.on == if old(initialized && !Moved(c)) then old(hash.on) else skipping
      ensures old(Known()) ==> Known()
    {
      hide Backed, EglImageCache.SlotsSound, EglImageCache.UniqueKeys;
      ret := ValidateFbDims(width, height);
      if ret != 0 { return; }
      if initialized && device != outs.ctxs[c].device { Cleanup(); }
      if !initialized {
        ret := Init(outs.ctxs[c].device);
        if ret < 0 { return; }
      }
      var current := cache.d.gl.Step();
      if !current { ret := EIO; }
    }

    /** Read the rendered image back into `dst`; a GL error since it was drawn fails the convert. */
    method Readback(img: Rows, dst: nat) returns (ok: bool)
      requires outs.Valid() && dst in outs.heap.blocks && |ImageBytes(img)| <= |outs.heap.blocks[dst]|
      modifies outs.heap`blocks, cache.d.gl`error, cache.d.gl`faults
      ensures cache.d.gl.faults >= old(cache.d.gl.faults)
      ensures cache.d.gl.faults == old(cache.d.gl.faults) && cache.d.gl.error ==> old(cache.d.gl.error)
      ensures cache.d.gl.faults == old(cache.d.gl.faults) && !old(cache.d.gl.error) ==> ok
      ensures outs.Valid() && dst in outs.heap.blocks && |ImageBytes(img)| <= |outs.heap.blocks[dst]|
      ensures ok ==> Shows(outs.heap.blocks, dst, |ImageBytes(img)|, ImageBytes(img)) && !old(cache.d.gl.error)
    {
      hide HeapSound;
      cache.d.gl.Work();
      var raised := cache.d.gl.Drain();
      ok := !raised;
      var junk: seq<u8> := *;
      if !ok && |junk| <= |outs.heap.blocks[dst]| {
        outs.Fill(dst, junk);
      }
      if ok {
        outs.Fill(dst, ImageBytes(img));
      }
    }

    /**
     Take the destination for a frame of `size` bytes.  `keep` survives only if the output's counter
     stands where the record has it; unless it went round, the recorded bytes are still there.
     */
    method Resolve(c: nat, was: bool, size: nat) returns (ret: int, out: nat, keep: bool)
      requires outs.Valid() && c in outs.ctxs && c != 0 && Recorded(was) && size > 0
      requires tainted || !(was && hash.owner == c && Wraps(hash.bumps, outs.ctxs[c].bumps))
      modifies outs, outs.heap
      ensures outs.Valid() && outs.ctxs.Keys == old(outs.ctxs).Keys && outs.ctxs[c].userOut == old(outs.ctxs)[c].userOut
      ensures outs.ctxs[c].device == old(outs.ctxs)[c].device
      ensures ret == 0 ==> out != 0 && out in outs.heap.blocks && size <= |outs.heap.blocks[out]|
      ensures ret == 0 && outs.ctxs[c].userOut == 0 ==> out == outs.ctxs[c].buf
      ensures keep ==> was
      ensures keep && hash.owner == c ==> hash.Remembers()
      ensures keep <==> was && old(outs.ctxs)[c].OutGen() == hash.gen
      ensures keep && hash.owner == c && ret == 0 && !tainted && size == |ImageBytes(hash.image)| &&
              outs.ctxs[c].userOut == 0
        ==> Shows(outs.heap.blocks, out, size, ImageBytes(hash.image))
      ensures old(outs.ctxs)[c].Fits(size)
        ==> ret == 0 && out == old(outs.ctxs)[c].buf && outs.heap.blocks == old(outs.heap.blocks)
      ensures outs.heap.faults >= old(outs.heap.faults)
      ensures ret != 0 && outs.heap.faults == old(outs.heap.faults) ==>
                ret == Refusal(size, old(outs.ctxs)[c].userOut != 0, old(outs.ctxs)[c].userLen)
    {
      hide HeapSound, Grid, ImageBytes, W32, Sized, Wraps;
      keep := was && outs.ctxs[c].OutGen() == hash.gen;
      if keep && hash.owner == c {
        UntouchedIsExact(hash.bumps, outs.ctxs[c].bumps);
        outs.Backing(c);
      }
      ret, out := outs.EnsureOut(c, size);
    }

    /** The hash pass: on a match the record moves up to this destination. */
    method TrySkip(c: nat, keep: bool, w: nat, h: nat, fourcc: u32, modifier: u64, img: Rows, out: nat, ghost size: nat)
      returns (skipped: bool)
      requires outs.Valid() && c in outs.ctxs && c != 0 && hash.Shaped() && !hash.valid && w > 0 && h > 0
      requires Sized(img, w, h)
      requires keep && hash.owner == c ==> hash.Remembers()
      requires out != 0 && out == outs.ctxs[c].buf
      requires size == |ImageBytes(img)|
      requires keep && hash.owner == c && !tainted && size == |ImageBytes(hash.image)| ==>
                Shows(outs.heap.blocks, out, size, ImageBytes(hash.image))
      modifies hash, cache.d.gl`error, cache.d.gl`faults
      ensures hash.Shaped() && (hash.valid <==> skipped) && hash.image == old(hash.image)
      ensures cache.d.gl.faults >= old(cache.d.gl.faults)
      ensures cache.d.gl.faults == old(cache.d.gl.faults) && cache.d.gl.error ==> old(cache.d.gl.error)
      ensures cache.d.gl.faults == old(cache.d.gl.faults) && !old(cache.d.gl.error) && old(hash.on) &&
              Entries(w, h) * 16 <= 0x10_0000
        ==> hash.current
      ensures skipped ==>
                && keep && old(hash.owner) == c && Recorded(true) && Sized(hash.image, w, h)
                && Grid(img, w, h) == Grid(hash.image, w, h)
      ensures skipped ==>
                && old(hash.w) == w && old(hash.h) == h && old(hash.fourcc) == fourcc
                && old(hash.modifier) == modifier && old(hash.out) == out
      ensures skipped && !tainted ==> Shows(outs.heap.blocks, out, size, ImageBytes(hash.image))
      ensures hash.current ==> hash.cur.Mem? && Grid(img, w, h) <= hash.cur.written
      ensures hash.current && keep && old(hash.Keyed(c, w, h, fourcc, modifier, out)) ==>
                Grid(img, w, h) == Grid(hash.image, w, h) ==> skipped
    {
      hide HeapSound, Grid, ImageBytes;
      skipped := hash.Check(cache.d.gl, keep, c, img, w, h, fourcc, modifier, out);
      if skipped {
        SameSize(img, hash.image, w, h);
        hash.gen := outs.ctxs[c].OutGen();
        hash.bumps := outs.ctxs[c].bumps;
      }
    }

    /** The record is of this very convert. */
    ghost predicate JustMade(c: nat, w: nat, h: nat, fourcc: u32, modifier: u64, img: Rows, out: nat)
      reads outs, hash
    {
      && out != 0 && hash.Keyed(c, w, h, fourcc, modifier, out) && hash.image == img
      && c in outs.ctxs && hash.bumps == outs.ctxs[c].bumps && outs.ctxs[c].userOut == 0 && outs.ctxs[c].buf == out
    }

    /** Read back, and remember what was written when its hash was taken. */
    method Convey(c: nat, hashing: bool, w: nat, h: nat, fourcc: u32, modifier: u64, img: Rows, out: nat,
                  ghost size: nat) returns (ok: bool)
      requires outs.Valid() && c in outs.ctxs && c != 0 && hash.Shaped() && !hash.valid && Sized(img, w, h)
      requires out != 0 && out in outs.heap.blocks && size == |ImageBytes(img)| <= |outs.heap.blocks[out]|
      requires hashing ==> out == outs.ctxs[c].buf && outs.ctxs[c].userOut == 0
      requires hashing && hash.current ==> hash.cur.Mem? && Grid(img, w, h) <= hash.cur.written
      modifies outs.heap`blocks, hash, cache.d.gl`error, cache.d.gl`faults
      ensures outs.Valid() && hash.Shaped() && RecordOf(hash.valid, false)
      ensures cache.d.gl.faults >= old(cache.d.gl.faults)
      ensures cache.d.gl.faults == old(cache.d.gl.faults) && cache.d.gl.error ==> old(cache.d.gl.error)
      ensures cache.d.gl.faults == old(cache.d.gl.faults) && !old(cache.d.gl.error) ==> ok
      ensures out in outs.heap.blocks && size <= |outs.heap.blocks[out]|
      ensures ok ==> Shows(outs.heap.blocks, out, size, ImageBytes(img)) && !old(cache.d.gl.error)
      ensures hash.valid ==> ok && JustMade(c, w, h, fourcc, modifier, img, out)
      ensures hash.current == old(hash.current)
    {
      hide HeapSound, Grid, ImageBytes;
      ok := Readback(img, out);
      if !ok { return; }
      if hashing && hash.on && hash.current {
        hash.Commit(c, w, h, fourcc, modifier, out, outs.ctxs[c].OutGen(), img, outs.ctxs[c].bumps);
      }
    }

    /**
     From the rendered image to the destination: skip when the record still stands for this very
     output, else read back and make the new record.
     */
    method Produce(c: nat, was: bool, w: u32, h: u32, fourcc: u32, modifier: u64, img: Rows)
      returns (ret: int, out: nat, size: nat, skipped: bool)
      requires outs.Valid() && c in outs.ctxs && hash.Shaped() && !hash.valid && !hash.current && Recorded(was)
      requires ValidateFbDims(w, h) == 0 && Sized(img, w, h)
      requires tainted || !(was && hash.owner == c && Wraps(hash.bumps, outs.ctxs[c].bumps))
      requires !cache.d.gl.drawn ==> cache.d.gl.error
      modifies outs, outs.heap, hash, cache.d.gl`error, cache.d.gl`faults
      ensures outs.Valid() && hash.Shaped() && outs.ctxs.Keys == old(outs.ctxs).Keys
      ensures cache.d.gl.faults >= old(cache.d.gl.faults) && outs.heap.faults >= old(outs.heap.faults)
      ensures ret != 0 && cache.d.gl.faults == old(cache.d.gl.faults) && !old(cache.d.gl.error) &&
              outs.heap.faults == old(outs.heap.faults)
        ==> ret == ENOSPC && old(outs.ctxs)[c].userOut != 0 && 4 * w * h > old(outs.ctxs)[c].userLen
      ensures cache.d.gl.faults == old(cache.d.gl.faults) && !old(cache.d.gl.error) && old(hash.on) && ret == 0 &&
              old(outs.ctxs)[c].userOut == 0 && w * h >= 1920 * 1080 && Entries(w, h) * 16 <= 0x10_0000
        ==> hash.current
      ensures outs.ctxs[c].device == old(outs.ctxs)[c].device
      ensures if skipped then Recorded(hash.valid) else RecordOf(hash.valid, false)
      ensures skipped ==> ret == 0
      ensures ret == 0 ==> size == 4 * w * h && out in outs.heap.blocks && size <= |outs.heap.blocks[out]|
      ensures ret == 0 ==> cache.d.gl.drawn
      ensures ret == 0 && !skipped ==> Displays(outs.heap.blocks, out, w, h, img)
      ensures skipped ==> old(outs.ctxs)[c].userOut == 0 && w * h >= 1920 * 1080
      ensures skipped ==> was && old(hash.owner) == c && hash.image == old(hash.image) && Reused(hash.image, img, w, h)
      ensures skipped ==>
                && old(hash.w) == w && old(hash.h) == h && old(hash.fourcc) == fourcc
                && old(hash.modifier) == modifier && old(hash.out) == out
      ensures skipped && !tainted ==> Displays(outs.heap.blocks, out, w, h, hash.image)
      ensures hash.valid && !skipped ==> ret == 0 && JustMade(c, w, h, fourcc, modifier, img, out)
      ensures ret == 0 && hash.current && was && old(Stands(c, w, h, fourcc, modifier)) &&
              Grid(img, w, h) == Grid(old(hash.image), w, h)
        ==> skipped && out == old(outs.ctxs)[c].buf && outs.heap.blocks == old(outs.heap.blocks)
    {
      hide HeapSound, Grid, ImageBytes, OfBlock, Backed, Shows, W32, Wraps, HashCache.Shaped, HashCache.Remembers;
      hide Displays;
      out, size, skipped := 0, 4 * w * h, false;
      outs.Backing(c);
      ImageSize(img, w, h);
      var hashing := hash.on && outs.ctxs[c].userOut == 0 && w * h >= HASH_FLOOR;
      if hashing {
        // the hash pass drains the error flag; take the render's error first
        var renderFailed := cache.d.gl.Drain();
        if renderFailed { ret := EIO; return; }
      }
      var keep;
      ret, out, keep := Resolve(c, was, size);
      if ret != 0 { return; }
      if hashing {
        skipped := TrySkip(c, keep, w, h, fourcc, modifier, img, out, size);
        if skipped {
          if !tainted { TexelsShown(outs.heap.blocks, out, w, h, hash.image); }
          return;
        }
      }
      var ok := Convey(c, hashing, w, h, fourcc, modifier, img, out, size);
      if !ok { ret := EIO; return; }
      TexelsShown(outs.heap.blocks, out, w, h, img);
    }

    /** The buffer an acquired source samples. */
    function Sampled(src: EglImageCache.Source): (b: int)
      reads cache.d
    {
      if src.image in cache.d.images then cache.d.images[src.image].buffer else -1
    }

    /** What fstat says about the supplied descriptor; 0 when there is no answer. */
    function Inode(job: Job): (i: nat)
      reads cache.d
    {
      if job.fd >= 0 && job.stat && job.fd in cache.d.buffers then cache.d.buffers[job.fd] else 0
    }

    /** The image this frame samples, from the cache or imported. */
    method Source(c: nat, job: Job) returns (ret: int, src: EglImageCache.Source)
      requires cache.Valid() && cache.Owned() && (job.fd >= 0 ==> job.fd in cache.d.buffers)
      modifies cache, cache.d`images, cache.d`textures, cache.d.gl`error, cache.d.gl`faults
      ensures if ret == 0 then cache.Pending(src) else cache.Valid() && cache.Owned()
      ensures old(Known()) && (job.fd >= 0 ==> Inode(job) != 0) ==> Known()
      ensures ret == 0 && job.fd >= 0 ==>
                (Sampled(src) == job.fd <==> !old(cache.StandIn(c, job.fd, job.fb, job.layout, Inode(job))))
      ensures old(cache.Hits(c, job.fb, job.layout, Inode(job))) ==>
                && ret == 0 && src.slot >= 0
                && cache.slots == old(cache.slots) && cache.d.images == old(cache.d.images)
      ensures cache.d.gl.faults >= old(cache.d.gl.faults)
      ensures cache.d.gl.faults == old(cache.d.gl.faults) && cache.d.gl.error ==> old(cache.d.gl.error)
      ensures ret != 0 && cache.d.gl.faults == old(cache.d.gl.faults) && !old(cache.d.gl.error) ==>
                ret == EINVAL && job.fd < 0 && !old(cache.Hits(c, job.fb, job.layout, Inode(job)))
    {
      hide EglImageCache.SlotsSound, EglImageCache.UniqueKeys, EglImageCache.ImagesOwned, EglImageCache.TexturesOwned;
      hide EglImageCache.Unheld, EglImageCache.BuffersSound, EglImageCache.ImageCache.Valid, AllKnown;
      hide EglImageCache.ImageCache.OwnedBut, EglImageCache.ImageCache.Hits, EglImageCache.ImageCache.StandIn;
      ghost var slots := cache.slots;
      ret, src := cache.Acquire(c, job.fd, job.fb, job.layout, Inode(job));
      if AllKnown(slots) && (job.fd >= 0 ==> Inode(job) != 0) { StillKnown(slots, cache.slots, job.fd, Inode(job)); }
    }

    /** Acquire the image, render, hand the result over, and let go of an uncached import. */
    method Render(c: nat, was: bool, job: Job)
      returns (ret: int, out: nat, size: nat, skipped: bool, ghost sampled: int)
      requires Valid() && initialized && c in outs.ctxs && !hash.valid && !hash.current && Recorded(was)
      requires ValidateFbDims(job.layout.width, job.layout.height) == 0
      requires Fills(job.scene, job.layout.width, job.layout.height)
      requires tainted || !(was && hash.owner == c && Wraps(hash.bumps, outs.ctxs[c].bumps))
      requires job.fd >= 0 ==> job.fd in cache.d.buffers
      modifies outs, outs.heap, hash, cache, cache.d`images, cache.d`textures, cache.d.gl
      ensures outs.Valid() && hash.Shaped() && cache.Valid() && cache.Owned() && initialized
      ensures cache.d.gl.faults >= old(cache.d.gl.faults) && outs.heap.faults >= old(outs.heap.faults)
      ensures ret != 0 && cache.d.gl.faults == old(cache.d.gl.faults) && !old(cache.d.gl.error) &&
              outs.heap.faults == old(outs.heap.faults)
        ==> || (ret == EINVAL && job.fd < 0 && !old(cache.Hits(c, job.fb, job.layout, Inode(job))))
            || (ret == ENOSPC && old(outs.ctxs)[c].userOut != 0 &&
                4 * job.layout.width * job.layout.height > old(outs.ctxs)[c].userLen)
      ensures cache.d.gl.faults == old(cache.d.gl.faults) && !old(cache.d.gl.error) && old(hash.on) && ret == 0 &&
              old(outs.ctxs)[c].userOut == 0 && job.layout.width * job.layout.height >= 1920 * 1080 &&
              Entries(job.layout.width, job.layout.height) * 16 <= 0x10_0000
        ==> hash.current
      ensures outs.ctxs.Keys == old(outs.ctxs).Keys
      ensures outs.ctxs[c].device == old(outs.ctxs)[c].device
      ensures if skipped then Recorded(hash.valid) else RecordOf(hash.valid, false)
      ensures old(cache.Hits(c, job.fb, job.layout, Inode(job))) ==>
                cache.slots == old(cache.slots) && cache.d.images == old(cache.d.images)
      ensures skipped ==> ret == 0
      ensures ret == 0 ==>
                && size == 4 * job.layout.width * job.layout.height && out in outs.heap.blocks
                && size <= |outs.heap.blocks[out]|
      ensures ret == 0 ==> cache.d.gl.drawn && sampled >= 0
      ensures ret == 0 && job.fd >= 0 ==>
                (sampled == job.fd <==> !old(cache.StandIn(c, job.fd, job.fb, job.layout, Inode(job))))
      ensures old(Known()) && (job.fd >= 0 ==> Inode(job) != 0) ==> Known()
      ensures ret == 0 && !skipped ==>
                Displays(outs.heap.blocks, out, job.layout.width, job.layout.height, job.scene(sampled))
      ensures skipped ==> old(outs.ctxs)[c].userOut == 0 && job.layout.width * job.layout.height >= 1920 * 1080
      ensures skipped ==>
                && was && old(hash.owner) == c
                && Reused(old(hash.image), job.scene(sampled), job.layout.width, job.layout.height)
      ensures skipped ==>
                && old(hash.w) == job.layout.width && old(hash.h) == job.layout.height
                && old(hash.fourcc) == job.layout.fourcc && old(hash.modifier) == job.layout.modifier
                && old(hash.out) == out
      ensures skipped && !tainted ==>
                Displays(outs.heap.blocks, out, job.layout.width, job.layout.height, old(hash.image))
      ensures hash.valid && !skipped ==> ret == 0 && sampled >= 0
      ensures hash.valid && !skipped
        ==> JustMade(c, job.layout.width, job.layout.height, job.layout.fourcc, job.layout.modifier, job.scene(sampled),
                     out)
      ensures ret == 0 && hash.current && was && SameGrid(old(hash.image), job, sampled) &&
              old(Stands(c, job.layout.width, job.layout.height, job.layout.fourcc, job.layout.modifier))
        ==> skipped && out == old(outs.ctxs)[c].buf && outs.heap.blocks == old(outs.heap.blocks)
    {
      hide HeapSound, Grid, ImageBytes, Backed, Shows, W32, Sized, ValidateFbDims, Wraps, Displays, Reused, Entries;
      hide EglImageCache.SlotsSound, EglImageCache.UniqueKeys, EglImageCache.ImagesOwned, EglImageCache.TexturesOwned;
      hide EglImageCache.Unheld, EglImageCache.BuffersSound, EglImageCache.ImageCache.Valid;
      hide EglImageCache.ImageCache.OwnedBut;
      hide Outputs.Valid, RecordOf, Stands, JustMade, HashCache.Shaped, HashCache.Keyed, AllKnown;
      out, size, skipped, sampled := 0, 0, false, -1;
      var src;
      ret, src := Source(c, job);
      if ret != 0 {
        RecordKept(false, tainted);
        return;
      }
      var buffer: nat := cache.d.images[src.image].buffer;
      sampled := buffer;
      cache.d.gl.Draw();
      ret, out, size, skipped := Produce(c, was, job.layout.width, job.layout.height, job.layout.fourcc,
                                         job.layout.modifier, job.scene(buffer));
      cache.Finish(src);
    }

    /** The record is for a frame like this one in the context's own buffer, and its counter stands. */
    ghost predicate Stands(c: nat, w: nat, h: nat, fourcc: u32, modifier: u64)
      reads outs, hash`owner, hash`w, hash`h, hash`fourcc, hash`modifier, hash`out, hash`gen
    {
      && c in outs.ctxs && outs.ctxs[c].buf != 0 && 4 * w * h <= outs.ctxs[c].cap
      && outs.ctxs[c].OutGen() == hash.gen && hash.Keyed(c, w, h, fourcc, modifier, outs.ctxs[c].buf)
    }

    ghost predicate SameGrid(last: Rows, job: Job, sampled: int) {
      && sampled >= 0 && Sized(last, job.layout.width, job.layout.height)
      && Sized(job.scene(sampled), job.layout.width, job.layout.height)
      && Grid(job.scene(sampled), job.layout.width, job.layout.height) ==
         Grid(last, job.layout.width, job.layout.height)
    }

    /** A cached import of another buffer will stand in for this frame's. */
    ghost predicate Mistaken(c: nat, job: Job)
      reads this, outs, cache, cache.d
      requires c in outs.ctxs
    {
      !Moved(c) && cache.StandIn(c, job.fd, job.fb, job.layout, Inode(job))
    }

    /** The record is out of use while a convert runs. */
    method Begin(c: nat) returns (was: bool)
      requires Valid() && c in outs.ctxs
      modifies this`tainted, hash`valid, hash`current
      ensures Valid() && Recorded(was) && was == old(hash.valid) && !hash.valid && !hash.current
      ensures tainted == old(tainted || Misled(c))
    {
      hide EglImageCache.SlotsSound, EglImageCache.UniqueKeys, EglImageCache.ImagesOwned, EglImageCache.TexturesOwned;
      hide EglImageCache.Unheld, EglImageCache.BuffersSound, HeapSound, RecordOf, Wraps, HashCache.Shaped;
      RecordKept(hash.valid, tainted);
      tainted := tainted || Misled(c);
      was := hash.valid;
      hash.valid, hash.current := false, false;
      RecordKept(was, tainted);
    }

    lemma RecordKept(was: bool, tainted: bool)
      ensures RecordOf(false, tainted) && RecordOf(false, false) && (RecordOf(was, tainted) ==> RecordOf(was, true))
    {}

    /** Up to the image: the record set aside, the geometry checked, the GL state of the context's device current. */
    method Enter(c: nat, job: Job) returns (ret: int, was: bool)
      requires Valid() && c in outs.ctxs
      modifies this, hash, cache, cache.d`images, cache.d`textures, cache.d.gl`faults
      ensures Valid() && !hash.valid && !hash.current && was == old(hash.valid)
      ensures ret == 0 ==>
                Recorded(was) && (tainted || !(was && hash.owner == c && Wraps(hash.bumps, outs.ctxs[c].bumps)))
      ensures ret == 0 && old(Moved(c)) ==> hash.owner == 0
      ensures tainted == (ret == 0 && old(tainted || Misled(c)))
      ensures ret == 0 ==>
                && initialized && device == outs.ctxs[c].device
                && ValidateFbDims(job.layout.width, job.layout.height) == 0
      ensures ret == 0 ==> Inode(job) == old(Inode(job))
      ensures ret == 0 ==> cache.StandIn(c, job.fd, job.fb, job.layout, Inode(job)) == old(Mistaken(c, job))
      ensures ret == 0 ==>
                cache.Hits(c, job.fb, job.layout, Inode(job)) ==
                old(!Moved(c) && cache.Hits(c, job.fb, job.layout, Inode(job)))
      ensures ret == 0 && cache.d.gl.faults == old(cache.d.gl.faults) ==>
                hash.on == if old(initialized && !Moved(c)) then old(hash.on) else skipping
      ensures old(!Moved(c)) ==> cache.slots == old(cache.slots) && cache.d.images == old(cache.d.images)
      ensures old(Known()) ==> Known()
      ensures cache.d.gl.faults >= old(cache.d.gl.faults)
      ensures ValidateFbDims(job.layout.width, job.layout.height) != 0 ==>
                ret == ValidateFbDims(job.layout.width, job.layout.height)
      ensures ret != 0 && cache.d.gl.faults == old(cache.d.gl.faults) ==>
                ValidateFbDims(job.layout.width, job.layout.height) != 0
      // the record survives on its own device
      ensures hash.owner != 0 || (old(initialized) && !old(Moved(c))) ==>
                unchanged(hash`on, hash`owner, hash`image, hash`w, hash`h, hash`fourcc, hash`modifier, hash`out,
                          hash`gen, hash`bumps)
    {
      hide EglImageCache.SlotsSound, EglImageCache.UniqueKeys, EglImageCache.ImagesOwned, EglImageCache.TexturesOwned;
      hide EglImageCache.Unheld, EglImageCache.BuffersSound, HeapSound, Backed, W32, Sized, Wraps, RecordOf, AllKnown;
      hide HashCache.Shaped, Outputs.Valid, ValidateFbDims;
      hide EglImageCache.ImageCache.Valid, EglImageCache.ImageCache.OwnedBut;
      Context(c);
      was := Begin(c);
      ret := Prepare(c, job.layout.width, job.layout.height, was);
      if ret != 0 {
        Forget();
        return;
      }
      EmptyStandsForNothing(c, job);
    }

    /** Convert one frame: render the buffer the image cache comes up with, then read it back or skip. */
    method Convert(c: nat, job: Job) returns (ret: int, out: nat, size: nat, skipped: bool, ghost sampled: int)
      requires Valid() && c in outs.ctxs && Fills(job.scene, job.layout.width, job.layout.height)
      requires job.fd >= 0 ==> job.fd in cache.d.buffers
      modifies this, outs, outs.heap, hash, cache, cache.d`images, cache.d`textures, cache.d.gl
      ensures Valid() && outs.ctxs.Keys == old(outs.ctxs).Keys
      ensures skipped ==> ret == 0
      // what it is refused for, and that it fails for nothing else while every step it takes succeeds
      ensures ValidateFbDims(job.layout.width, job.layout.height) != 0 ==>
                ret == ValidateFbDims(job.layout.width, job.layout.height)
      ensures ret != 0 && cache.d.gl.faults == old(cache.d.gl.faults) && !old(cache.d.gl.error) &&
              outs.heap.faults == old(outs.heap.faults)
        ==> || ValidateFbDims(job.layout.width, job.layout.height) != 0
            || (ret == EINVAL && job.fd < 0 &&
                !(!old(Moved(c)) && old(cache.Hits(c, job.fb, job.layout, Inode(job)))))
            || (ret == ENOSPC && old(outs.ctxs)[c].userOut != 0 &&
                4 * job.layout.width * job.layout.height > old(outs.ctxs)[c].userLen)
      ensures ret == 0 ==>
                && size == 4 * job.layout.width * job.layout.height && out in outs.heap.blocks
                && size <= |outs.heap.blocks[out]|
      ensures ret == 0 ==>
                initialized && device == outs.ctxs[c].device && ValidateFbDims(job.layout.width, job.layout.height) == 0
      // a render that raised an error is never handed out
      ensures ret == 0 ==> cache.d.gl.drawn
      // the buffer sampled is the one supplied, unless the cache mistakes another for it
      ensures ret == 0 ==> sampled >= 0 && (job.fd >= 0 ==> (sampled == job.fd <==> !old(Mistaken(c, job))))
      ensures old(Known()) && (job.fd >= 0 ==> job.stat) ==> Known() && (ret == 0 && job.fd >= 0 ==> sampled == job.fd)
      // a cached import is used as it is
      ensures old(!Moved(c) && cache.Hits(c, job.fb, job.layout, Inode(job))) ==>
                cache.slots == old(cache.slots) && cache.d.images == old(cache.d.images)
      // a full convert returns that buffer's image
      ensures hash.valid && !skipped ==> ret == 0
      ensures hash.valid && !skipped
        ==> JustMade(c, job.layout.width, job.layout.height, job.layout.fourcc, job.layout.modifier, job.scene(sampled),
                     out)
      ensures ret == 0 && !skipped ==>
                Displays(outs.heap.blocks, out, job.layout.width, job.layout.height, job.scene(sampled))
      // a skipped one returns the last full convert's, whose hash is the same
      ensures skipped ==>
                old(outs.ctxs)[c].userOut == 0 && job.layout.width * job.layout.height >= 1920 * 1080 && !old(Moved(c))
      ensures skipped ==>
                && old(hash.valid && hash.owner == c)
                && Reused(old(hash.image), job.scene(sampled), job.layout.width, job.layout.height)
      // of a frame of the same size, format and modifier, in the same place
      ensures skipped ==>
                && old(hash.w) == job.layout.width && old(hash.h) == job.layout.height
                && old(hash.fourcc) == job.layout.fourcc && old(hash.modifier) == job.layout.modifier
                && old(hash.out) == out
      ensures skipped && !tainted ==>
                Displays(outs.heap.blocks, out, job.layout.width, job.layout.height, old(hash.image))
      // unless the counter went round exactly, now or before an earlier skip of the same record
      ensures tainted <==> skipped && old(tainted || Misled(c))
      // the hash pass completes for frames from 1080p up to its grid's limit, unless a step fails
      ensures cache.d.gl.faults == old(cache.d.gl.faults) && !old(cache.d.gl.error) && ret == 0 &&
              (if old(initialized && !Moved(c)) then old(hash.on) else skipping) && old(outs.ctxs)[c].userOut == 0 &&
              job.layout.width * job.layout.height >= 1920 * 1080 &&
              Entries(job.layout.width, job.layout.height) * 16 <= 0x10_0000
        ==> hash.current
      // and it does skip when the hash pass completes and nothing it looks at moved
      ensures ret == 0 && hash.current && SameGrid(old(hash.image), job, sampled) && !old(Moved(c)) &&
              old(hash.valid && Stands(c, job.layout.width, job.layout.height, job.layout.fourcc, job.layout.modifier))
        ==> skipped && out == old(outs.ctxs)[c].buf && outs.heap.blocks == old(outs.heap.blocks)
    {
      hide EglImageCache.SlotsSound, EglImageCache.UniqueKeys, EglImageCache.ImagesOwned, EglImageCache.TexturesOwned;
      hide EglImageCache.Unheld, EglImageCache.BuffersSound, HeapSound, Grid, ImageBytes, Backed, Shows, W32, Sized;
      hide Reused, Wraps;
      hide Displays, Entries, EglImageCache.ImageCache.Hits;
      hide EglImageCache.ImageCache.StandIn, Stands, SameGrid, JustMade, Known, Fills, RecordOf, HashCache.Keyed;
      hide HashCache.Shaped, Valid, AllKnown, EglImageCache.ImageCache.IdentityKnown;
      hide EglImageCache.ImageCache.Valid, EglImageCache.ImageCache.OwnedBut, Outputs.Valid, ValidateFbDims;
      out, size, skipped, sampled := 0, 0, false, -1;
      Context(c);
      Identity(c, job);
      var was;
      ret, was := Enter(c, job);
      if ret != 0 { return; }
      ret, out, size, skipped, sampled := Render(c, was, job);
      if !skipped { tainted := false; }
      Whole();
    }

    /** The record is gone. */
    method Forget()
      requires Valid() && !hash.valid
      modifies this`tainted
      ensures Valid() && !tainted
    {
      tainted := false;
    }

    lemma Whole()
      requires outs.Valid() && hash.Shaped() && Recorded(hash.valid) && cache.Valid() && cache.Owned() && initialized
      ensures Valid()
    {}

    lemma Context(c: nat)
      requires Valid() && c in outs.ctxs
      ensures c != 0 && Owns(outs.ctxs[c], outs.heap.blocks) && (hash.valid ==> initialized)
    {
      hide HeapSound;
      outs.Backing(c);
    }

    lemma EmptyStandsForNothing(c: nat, job: Job)
      ensures (forall i | 0 <= i < |cache.slots| :: cache.slots[i].Empty?) ==>
                !cache.StandIn(c, job.fd, job.fb, job.layout, Inode(job))
    {}

    /** With every inode known, no cached import is mistaken for another buffer. */
    lemma Identity(c: nat, job: Job)
      requires Valid() && c in outs.ctxs && (job.fd >= 0 ==> job.fd in cache.d.buffers)
      ensures job.fd >= 0 && job.stat ==> Inode(job) != 0
      ensures Known() && job.fd >= 0 && job.stat ==> !cache.StandIn(c, job.fd, job.fb, job.layout, Inode(job))
    {
      hide HeapSound, Backed, Sized, W32;
      if Known() && job.fd >= 0 && job.stat {
        cache.KnownIdentityIsExact(c, job.fd, job.fb, job.layout, Inode(job));
      }
    }

    /** A CPU conversion of this context: it takes a destination and writes whatever it computes. */
    method CpuConvert(c: nat, bytes: seq<u8>) returns (ret: int, out: nat)
      requires Valid() && c in outs.ctxs
      modifies outs, outs.heap
      ensures Valid() && outs.ctxs.Keys == old(outs.ctxs).Keys
      ensures ret == 0 ==> Shows(outs.heap.blocks, out, |bytes|, bytes)
      ensures bytes != [] ==> outs.ctxs[c].bumps == old(outs.ctxs)[c].bumps + 1
      ensures old(outs.ctxs)[c].Fits(|bytes|)
        ==> && ret == 0 && out == old(outs.ctxs)[c].buf
            && outs.ctxs[c] == old(outs.ctxs)[c].(bumps := old(outs.ctxs)[c].bumps + 1)
    {
      hide EglImageCache.SlotsSound, EglImageCache.UniqueKeys, EglImageCache.ImagesOwned, EglImageCache.TexturesOwned;
      hide EglImageCache.Unheld, EglImageCache.BuffersSound, Grid, ImageBytes, W32, Sized, HeapSound;
      ret, out := outs.CpuWrite(c, bytes);
    }

    /** Another context on this thread. */
    method Open(device: nat) returns (c: nat)
      requires Valid()
      modifies outs
      ensures Valid() && (c != 0 ==> c !in old(outs.ctxs) && c in outs.ctxs && outs.ctxs[c].bumps == 0)
    {
      c := outs.Open(device);
    }

    method SetOutput(c: nat, dst: nat, len: nat) returns (ret: int)
      requires Valid() && c in outs.ctxs
      requires dst != 0 ==>
                && dst in outs.heap.blocks && len <= |outs.heap.blocks[dst]|
                && forall d | d in outs.ctxs :: outs.ctxs[d].buf != dst
      modifies outs
      ensures Valid() && outs.ctxs.Keys == old(outs.ctxs).Keys
    {
      ret := outs.SetOutput(c, dst, len);
    }

    /** Closing any context on its thread drops the whole GL state, so no record names a dead context. */
    method Close(c: nat)
      requires Valid() && c in outs.ctxs
      modifies this`initialized, this`device, outs, outs.heap, hash, cache, cache.d`images, cache.d`textures
      ensures Valid() && Known() && outs.ctxs == old(outs.ctxs) - {c} && !hash.valid
      ensures cache.d.images == map[] && cache.d.textures == map[]
    {
      Cleanup();
      outs.Discard(c);
    }

    /** The compositor frees buffers and reuses their inodes, but not of one an image pins. */
    method Flip()
      requires Valid()
      modifies cache.d`buffers
      ensures Valid()
    {
      hide HeapSound, Backed, Sized, W32, EglImageCache.UniqueKeys, EglImageCache.ImagesOwned;
      hide EglImageCache.TexturesOwned;
      cache.d.Compositor();
    }

    // ---- whole runs ----

    /** One call on this thread, by a caller that names live contexts, buffers and destinations. */
    method Perform(op: Op) returns (ghost shots: seq<Shot>)
      requires Valid() && Sensible(op)
      modifies this, outs, outs.heap, hash, cache, cache.d, cache.d.gl
      ensures Valid()
      ensures old(Known()) && (op.Convert? && op.job.fd >= 0 ==> op.job.stat) ==>
                Known() && forall s | s in shots :: s.fd >= 0 ==> s.sampled == s.fd
    {
      hide EglImageCache.SlotsSound, EglImageCache.UniqueKeys, EglImageCache.ImagesOwned, EglImageCache.TexturesOwned;
      hide EglImageCache.Unheld, EglImageCache.BuffersSound, HeapSound, Grid, ImageBytes, Backed, Shows, W32, Sized;
      hide Reused, Wraps;
      shots := [];
      var ret, out, size, skipped;
      match op {
        case Convert(c, job) =>
          if c in outs.ctxs && (job.fd < 0 || job.fd in cache.d.buffers) {
            ghost var sampled;
            ret, out, size, skipped, sampled := Convert(c, job);
            if ret == 0 { shots := [Shot(job.fd, sampled)]; }
          }
        case CpuConvert(c, bytes) => if c in outs.ctxs { ret, out := CpuConvert(c, bytes); }
        case Open(device) => out := Open(device);
        case SetOutput(c, dst, len) =>
          if c in outs.ctxs && (dst == 0 || (dst in outs.heap.blocks && len <= |outs.heap.blocks[dst]| &&
                                             forall d | d in outs.ctxs :: outs.ctxs[d].buf != dst)) {
            ret := SetOutput(c, dst, len);
          }
        case Close(c) => if c in outs.ctxs { Close(c); }
        case Flip => Flip();
      }
    }

    /**
     Any interleaving of converts, closes and compositor activity, framebuffer ids and inodes recycled at
     will: while fstat answers, every convert samples the very buffer it was given; and when the contexts
     are closed and the thread ends, no context, image or texture is left.
     */
    method AnyRun(ops: seq<Op>) returns (ghost shots: seq<Shot>)
      requires Valid() && Known() && forall i | 0 <= i < |ops| :: Sensible(ops[i])
      modifies this, outs, outs.heap, hash, cache, cache.d, cache.d.gl
      ensures (forall i | 0 <= i < |ops| :: ops[i].Convert? && ops[i].job.fd >= 0 ==> ops[i].job.stat)
                ==> forall s | s in shots :: s.fd >= 0 ==> s.sampled == s.fd
      ensures outs.ctxs == map[] && cache.d.images == map[] && cache.d.textures == map[]
    {
      hide Valid, Known, Sensible;
      shots := [];
      ghost var answered := true;
      var n := 0;
      while n < |ops|
        invariant 0 <= n <= |ops| && Valid()
        invariant (forall i | 0 <= i < n :: ops[i].Convert? && ops[i].job.fd >= 0 ==> ops[i].job.stat) ==>
                    Known() && forall s | s in shots :: s.fd >= 0 ==> s.sampled == s.fd
      {
        ghost var more := Perform(ops[n]);
        shots := shots + more;
        n := n + 1;
      }
      while outs.ctxs != map[]
        invariant Valid()
        decreases |outs.ctxs|
      {
        var c :| c in outs.ctxs;
        Close(c);
      }
      Cleanup();
    }

    // ---- the counter that goes round ----

    /** 2^32 CPU conversions into the context's own buffer. */
    method WholeTurn(c: nat, bytes: seq<u8>)
      requires Valid() && c in outs.ctxs && outs.ctxs[c].userOut == 0 && outs.ctxs[c].buf != 0
      requires 0 < |bytes| <= MAX_FB_BYTES && |bytes| <= outs.ctxs[c].cap
      modifies outs, outs.heap
      ensures Valid() && c in outs.ctxs
      ensures outs.ctxs[c] == old(outs.ctxs)[c].(bumps := old(outs.ctxs)[c].bumps + 0x1_0000_0000)
      ensures Shows(outs.heap.blocks, outs.ctxs[c].buf, |bytes|, bytes)
    {
      hide Valid, Shows, Refusal;
      ghost var first := outs.ctxs[c];
      var n := 0;
      while n < 0x1_0000_0000
        invariant 0 <= n <= 0x1_0000_0000 && Valid() && c in outs.ctxs
        invariant outs.ctxs[c] == first.(bumps := first.bumps + n)
        invariant n > 0 ==> Shows(outs.heap.blocks, first.buf, |bytes|, bytes)
      {
        var ret, out := CpuConvert(c, bytes);
        n := n + 1;
      }
    }

    /**
     The skip can return old bytes: one full convert of an unchanging screen, 2^32 CPU conversions into
     the same output, and the next convert, if both its GL passes complete, hands their bytes out.
     */
    method OldBytesAfterWrap(c: nat, job: Job, bytes: seq<u8>)
      returns (completed: bool, ret: int, out: nat, skipped: bool)
      requires Valid() && c in outs.ctxs && Fills(job.scene, job.layout.width, job.layout.height)
      requires job.fd >= 0 ==> job.fd in cache.d.buffers
      requires (forall a, b :: job.scene(a) == job.scene(b)) && bytes != ImageBytes(job.scene(0))
      requires |bytes| == 4 * job.layout.width * job.layout.height
      modifies this, outs, outs.heap, hash, cache, cache.d`images, cache.d`textures, cache.d.gl
      ensures Valid()
      ensures completed ==> ret == 0 && skipped && tainted && Shows(outs.heap.blocks, out, |bytes|, bytes)
      ensures completed ==> !Shows(outs.heap.blocks, out, |bytes|, ImageBytes(job.scene(0)))
    {
      hide EglImageCache.SlotsSound, EglImageCache.UniqueKeys, EglImageCache.ImagesOwned, EglImageCache.TexturesOwned;
      hide EglImageCache.Unheld, EglImageCache.BuffersSound, HeapSound, Grid, ImageBytes, Backed, W32, Sized, Reused;
      completed := false;
      var size;
      ghost var sampled;
      ret, out, size, skipped, sampled := Convert(c, job);
      if ret != 0 || skipped || !hash.valid { return; }
      outs.Backing(c);
      AreaBytes(job.layout.width, job.layout.height);
      UntouchedIsExact(hash.bumps, hash.bumps + 0x1_0000_0000);
      WholeTurn(c, bytes);
      ret, out, size, skipped, sampled := Convert(c, job);
      completed := ret == 0 && hash.current;
    }
  }

  /** A skipped convert returns exactly what a full one would have, just when the image did not change. */
  lemma SkipIsExact(last: Rows, img: Rows, w: nat, h: nat, blocks: map<nat, seq<u8>>, out: nat)
    requires Reused(last, img, w, h) && Shows(blocks, out, 4 * w * h, ImageBytes(last))
    ensures Shows(blocks, out, 4 * w * h, ImageBytes(img)) <==> img == last
    ensures CollisionFree(last, img, w, h) ==> Shows(blocks, out, 4 * w * h, ImageBytes(img))
  {
    hide Grid, ImageBytes;
    if Shows(blocks, out, 4 * w * h, ImageBytes(img)) { BytesShowImage(img, last, w, h); }
  }

  /** With no collision assumption: an image with a block that changed in one texel is never skipped. */
  lemma OneTexelIsNeverSkipped(last: Rows, img: Rows, w: nat, h: nat, gx: nat, gy: nat)
    requires Sized(last, w, h) && Sized(img, w, h) && OneTexelInBlock(last, img, w, h, gx, gy)
    ensures !Reused(last, img, w, h)
  {
    OneTexelMovesGrid(last, img, w, h, gx, gy);
  }
}
