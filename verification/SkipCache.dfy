/**
 The skip-unchanged cache: the block hash of the image just rendered against the one kept from the
 last full convert, and the heap blocks the output buffers live in.
 */
module SkipCache {
  import opened Words
  import opened BlockHash
  import opened Arith
  import opened GlErrors

  const MAX_GRID_BYTES := 0x10_0000
  const ENTRY := 16

  // ---- an image as the bytes a readback writes ----

  function RowBytes(row: seq<Texel>): (b: seq<u8>)
    ensures |b| == 4 * |row|
  {
    if row == [] then [] else [row[0].r, row[0].g, row[0].b, row[0].a] + RowBytes(row[1..])
  }

  function ImageBytes(m: Rows): (b: seq<u8>) {
    if m == [] then [] else RowBytes(m[0]) + ImageBytes(m[1..])
  }

  /** Byte for byte: rows from the top, texels from the left, each red, green, blue, alpha. */
  lemma {:induction false} TexelBytes(m: Rows, w: nat, h: nat, x: nat, y: nat)
    requires Sized(m, w, h) && x < w && y < h
    ensures 0 <= 4 * (y * w + x) && 4 * (y * w + x) + 4 <= |ImageBytes(m)| == 4 * w * h
    ensures ImageBytes(m)[4 * (y * w + x)] == m[y][x].r && ImageBytes(m)[4 * (y * w + x) + 1] == m[y][x].g
    ensures ImageBytes(m)[4 * (y * w + x) + 2] == m[y][x].b && ImageBytes(m)[4 * (y * w + x) + 3] == m[y][x].a
  {
    ImageSize(m, w, h);
    RowTexel(m[0], x);
    if y > 0 {
      TexelBytes(m[1..], w, h - 1, x, y - 1);
      RowShift(y, w, x);
    }
  }

  lemma RowShift(y: nat, w: nat, x: nat)
    requires y > 0
    ensures 4 * (y * w + x) == 4 * w + 4 * ((y - 1) * w + x)
  {}

  lemma {:induction false} RowTexel(row: seq<Texel>, x: nat)
    requires x < |row|
    ensures 4 * x + 4 <= |RowBytes(row)|
    ensures RowBytes(row)[4 * x] == row[x].r && RowBytes(row)[4 * x + 1] == row[x].g
    ensures RowBytes(row)[4 * x + 2] == row[x].b && RowBytes(row)[4 * x + 3] == row[x].a
  {
    if x > 0 { RowTexel(row[1..], x - 1); }
  }

  lemma OneRowMore(row: int, h: int)
    ensures row + row * (h - 1) == row * h
  {}

  lemma {:induction false} ImageSize(m: Rows, w: nat, h: nat)
    requires Sized(m, w, h)
    ensures |ImageBytes(m)| == 4 * w * h
  {
    if m != [] {
      ImageSize(m[1..], w, h - 1);
      OneRowMore(4 * w, h);
    }
  }

  lemma SameSize(m: Rows, n: Rows, w: nat, h: nat)
    requires Sized(m, w, h) && Sized(n, w, h)
    ensures |ImageBytes(m)| == |ImageBytes(n)|
  {
    ImageSize(m, w, h);
    ImageSize(n, w, h);
  }

  /** Equal bytes are equal images: a readback shows every texel. */
  lemma {:induction false} BytesShowImage(m: Rows, n: Rows, w: nat, h: nat)
    requires Sized(m, w, h) && Sized(n, w, h) && ImageBytes(m) == ImageBytes(n)
    ensures m == n
  {
    if m != [] {
      var a, b := RowBytes(m[0]), RowBytes(n[0]);
      assert a == ImageBytes(m)[..4 * w] && b == ImageBytes(n)[..4 * w];
      assert ImageBytes(m[1..]) == ImageBytes(m)[4 * w..] && ImageBytes(n[1..]) == ImageBytes(n)[4 * w..];
      RowBytesShow(m[0], n[0]);
      BytesShowImage(m[1..], n[1..], w, h - 1);
      assert m == [m[0]] + m[1..] && n == [n[0]] + n[1..];
    }
  }

  lemma {:induction false} RowBytesShow(r: seq<Texel>, s: seq<Texel>)
    requires |r| == |s| && RowBytes(r) == RowBytes(s)
    ensures r == s
  {
    if r != [] {
      assert RowBytes(r)[..4] == RowBytes(s)[..4];
      assert RowBytes(r)[0] == r[0].r && RowBytes(r)[1] == r[0].g;
      assert RowBytes(r)[2] == r[0].b && RowBytes(r)[3] == r[0].a;
      assert RowBytes(r)[4..] == RowBytes(r[1..]) && RowBytes(s)[4..] == RowBytes(s[1..]);
      RowBytesShow(r[1..], s[1..]);
      assert r == [r[0]] + r[1..] && s == [s[0]] + s[1..];
    }
  }

  // ---- the heap ----

  /** malloc and free: addresses are non-zero and may be handed out again once freed. */
  class Heap {
    var blocks: map<nat, seq<u8>>
    /** Requests that were refused. */
    ghost var faults: nat

    constructor ()
      ensures blocks == map[]
    {
      blocks, faults := map[], 0;
    }

    method Malloc(size: nat) returns (p: nat)
      modifies this
      ensures faults == old(faults) + if p == 0 then 1 else 0
      ensures p == 0 ==> blocks == old(blocks)
      ensures p != 0 ==>
                p !in old(blocks) && p in blocks && |blocks[p]| == size && blocks == old(blocks)[p := blocks[p]]
    {
      var junk: seq<u8>;
      p, junk := *, *;
      if p in blocks || |junk| != size { p := 0; }
      if p != 0 { blocks := blocks[p := junk]; } else { faults := faults + 1; }
    }

    method Free(p: nat)
      requires p != 0 ==> p in blocks
      modifies this`blocks
      ensures blocks == old(blocks) - {p}
    {
      blocks := blocks - {p};
    }

    method Write(p: nat, bytes: seq<u8>)
      requires p in blocks && |bytes| <= |blocks[p]|
      modifies this`blocks
      ensures blocks == old(blocks)[p := bytes + old(blocks)[p][|bytes|..]]
    {
      blocks := blocks[p := bytes + blocks[p][|bytes|..]];
    }
  }

  // ---- the hash record ----

  /** One grid allocation, with the entries written so far; reading past them reads garbage. */
  datatype GridMem = NoMem | Mem(written: seq<Hash>)

  function Entries(w: nat, h: nat): nat {
    Blocks(w) * Blocks(h)
  }

  class HashCache {
    var on: bool
    var current: bool
    var gw: nat
    var gh: nat
    var cur: GridMem
    var prev: GridMem
    var cap: nat
    var valid: bool
    var owner: nat
    var w: nat
    var h: nat
    var fourcc: u32
    var modifier: u64
    var out: nat
    var gen: u32
    /** The image of the last full convert, and how often its context had handed out its output by then. */
    ghost var image: Rows
    ghost var bumps: nat

    constructor ()
      ensures Blank()
    {
      on, current, valid, gw, gh, cap, cur, prev := false, false, false, 0, 0, 0, NoMem, NoMem;
      owner, w, h, fourcc, modifier, out, gen, image, bumps := 0, 0, 0, 0, 0, 0, 0, [], 0;
    }

    /** All zero: set up anew or released. */
    ghost predicate Blank()
      reads this
    {
      !on && !current && !valid && cap == 0 && cur == NoMem && prev == NoMem && owner == 0
    }

    /** Both grids are allocated with cap bytes, or neither is. */
    ghost predicate Shaped()
      reads this`cap, this`cur, this`prev
    {
      if cap == 0 then cur == NoMem && prev == NoMem
      else cur.Mem? && prev.Mem? && |cur.written| * ENTRY <= cap && |prev.written| * ENTRY <= cap
    }

    /** prev holds the whole hash of image. */
    ghost predicate Remembers()
      reads this`image, this`w, this`h, this`prev, this`gen, this`bumps
    {
      && Sized(image, w, h) && prev.Mem? && Grid(image, w, h) <= prev.written
      && gen == W32(bumps)
    }

    predicate Keyed(owner: nat, w: nat, h: nat, fourcc: u32, modifier: u64, out: nat)
      reads this`owner, this`w, this`h, this`fourcc, this`modifier, this`out
    {
      && this.owner == owner && this.w == w && this.h == h
      && this.fourcc == fourcc && this.modifier == modifier && this.out == out
    }

    method Release()
      modifies this
      ensures Blank()
    {
      hide *;
      image, bumps := [], 0;
      gw, gh, w, h := 0, 0, 0, 0;
      fourcc, modifier, gen := 0, 0, 0;
      out := 0;
      Zero();
    }

    method Zero()
      modifies this`on, this`current, this`valid, this`cap, this`cur, this`prev, this`owner
      ensures Blank()
    {
      on, current, valid := false, false, false;
      cap, owner := 0, 0;
      cur, prev := NoMem, NoMem;
    }

    /** A GL step failed: no more skipping until the context is rebuilt. */
    method Fail()
      modifies this`on, this`valid
      ensures !on && !valid
    {
      on, valid := false, false;
    }

    /** Grow both grids to `bytes`; what they held is gone. */
    method Grow(gl: Gl, bytes: nat) returns (ok: bool)
      requires bytes > cap
      modifies this`cur, this`prev, this`cap, this`on, this`valid, gl`error, gl`faults
      ensures Shaped() && (ok ==> cap == bytes && on == old(on) && valid == old(valid)) && (!ok ==> !on && !valid)
      ensures gl.faults >= old(gl.faults) && (gl.faults == old(gl.faults) && gl.error ==> old(gl.error))
      ensures gl.faults == old(gl.faults) ==> ok
    {
      ok := gl.Step();
      if !ok {
        cur, prev, cap := NoMem, NoMem, 0;
        var _ := gl.Drain();
        Fail();
        return;
      }
      cur, prev, cap := Mem([]), Mem([]), bytes;
    }

    /** Size the hash texture for the grid. */
    method Target(gl: Gl, gw: nat, gh: nat) returns (ok: bool)
      modifies this`gw, this`gh, this`on, this`valid, gl`error, gl`faults
      ensures ok ==> this.gw == gw && this.gh == gh && on == old(on) && valid == old(valid)
      ensures !ok ==> !on && !valid
      ensures gl.faults >= old(gl.faults) && (gl.faults == old(gl.faults) && gl.error ==> old(gl.error))
      ensures gl.faults == old(gl.faults) ==> ok
    {
      ok := true;
      if this.gw != gw || this.gh != gh {
        gl.Work();
        ok := gl.Step();
        if !ok {
          var _ := gl.Drain();
          Fail();
          return;
        }
        this.gw, this.gh := gw, gh;
      }
    }

    /** Grids and texture for gw x gh entries; grids that are long enough keep what they hold. */
    method Room(gl: Gl, gw: nat, gh: nat) returns (ok: bool)
      requires Shaped()
      modifies this`on, this`gw, this`gh, this`cur, this`prev, this`cap, this`valid, gl`error, gl`faults
      ensures Shaped() && (ok ==> gw * gh * ENTRY <= cap && on == old(on) && valid == old(valid))
      ensures (!ok ==> !on && !valid)
      ensures ok && gw * gh * ENTRY <= old(cap) ==> prev == old(prev)
      ensures gl.faults >= old(gl.faults) && (gl.faults == old(gl.faults) && gl.error ==> old(gl.error))
      ensures gl.faults == old(gl.faults) ==> ok
    {
      var bytes := gw * gh * ENTRY;
      if bytes > cap {
        ok := Grow(gl, bytes);
        if !ok { return; }
      }
      ok := Target(gl, gw, gh);
    }

    /** memcmp over n entries: both sides must have been written that far. */
    method Compare(n: nat) returns (equal: bool)
      requires cur.Mem? && prev.Mem? && n <= |cur.written| && n <= |prev.written|
      ensures equal <==> cur.written[..n] == prev.written[..n]
    {
      equal := cur.written[..n] == prev.written[..n];
    }

    /** The hash pass over the rendered image, read back into cur. */
    method Pass(gl: Gl, img: Rows, w: nat, h: nat) returns (ok: bool)
      requires Sized(img, w, h) && Shaped() && 0 < Entries(w, h) * ENTRY <= cap
      modifies this`cur, this`on, this`valid, gl`error, gl`faults
      ensures Shaped()
      ensures ok ==> cur.Mem? && Grid(img, w, h) <= cur.written && on == old(on) && valid == old(valid)
      ensures !ok ==> !on && !valid
      ensures gl.faults >= old(gl.faults) && (gl.faults == old(gl.faults) && gl.error ==> old(gl.error))
      ensures gl.faults == old(gl.faults) && !old(gl.error) ==> ok
    {
      hide Grid, OfBlock;
      var grid := HashImage(img, w, h);
      var n := |grid|;
      if cur.Mem? {
        cur := Mem(grid + if n <= |cur.written| then cur.written[n..] else []);
      }
      gl.Work();
      var raised := gl.Drain();
      ok := !raised;
      if !ok { Fail(); }
    }

    /** Hash the image just rendered into cur, if the hash is on, its grid not too large and no step fails. */
    method Measure(gl: Gl, img: Rows, w: nat, h: nat)
      requires w > 0 && h > 0 && Sized(img, w, h) && Shaped() && !valid
      modifies this`on, this`current, this`gw, this`gh, this`cur, this`prev, this`cap, this`valid, gl`error, gl`faults
      ensures Shaped() && !valid
      ensures current ==> on && cur.Mem? && Grid(img, w, h) <= cur.written
      ensures current && Entries(w, h) * ENTRY <= old(cap) ==> prev == old(prev)
      ensures gl.faults >= old(gl.faults) && (gl.faults == old(gl.faults) && gl.error ==> old(gl.error))
      // the hash is taken of every grid that is not too large, unless a step fails
      ensures gl.faults == old(gl.faults) && !old(gl.error) && old(on) && Entries(w, h) * 16 <= 0x10_0000 ==> current
    {
      hide Grid, OfBlock, Sized;
      current := false;
      if !on { return; }
      var gw, gh := Blocks(w), Blocks(h);
      MulBounds(gw, gh);
      if gw * gh * ENTRY > MAX_GRID_BYTES { return; }
      var ok := Room(gl, gw, gh);
      if !ok { return; }
      ok := Pass(gl, img, w, h);
      if !ok { return; }
      current := true;
    }

    /**
     Does every block of the image just rendered hash like the last full convert's, with nothing else
     that shapes the output moved?
     */
    method Check(gl: Gl, was: bool, owner: nat, img: Rows, w: nat, h: nat, fourcc: u32, modifier: u64, out: nat)
      returns (same: bool)
      requires owner != 0 && w > 0 && h > 0 && Sized(img, w, h) && Shaped() && !valid
      requires was && this.owner == owner ==> Remembers()
      modifies this`on, this`current, this`gw, this`gh, this`cur, this`prev, this`cap, this`valid, gl`error, gl`faults
      ensures Shaped() && (valid <==> same)
      ensures same ==> Remembers() && on && current
      ensures same ==>
                && this.owner == owner && this.w == w && this.h == h
                && this.fourcc == fourcc && this.modifier == modifier && this.out == out
      ensures current ==> cur.Mem? && Grid(img, w, h) <= cur.written
      ensures current ==>
                (same <==> was && Keyed(owner, w, h, fourcc, modifier, out) && Grid(img, w, h) == Grid(image, w, h))
      ensures !current ==> !same
      ensures gl.faults >= old(gl.faults) && (gl.faults == old(gl.faults) && gl.error ==> old(gl.error))
      ensures gl.faults == old(gl.faults) && !old(gl.error) && old(on) && Entries(w, h) * 16 <= 0x10_0000 ==> current
    {
      hide Grid, OfBlock, Sized, W32;
      same := false;
      ghost var known := was && this.owner == owner && this.w == w && this.h == h;
      if known { GridLength(image, w, h); }
      Measure(gl, img, w, h);
      if !current { return; }
      GridLength(img, w, h);
      if was && Keyed(owner, w, h, fourcc, modifier, out) {
        var n := Blocks(w) * Blocks(h);
        same := Compare(n);
        assert cur.written[..n] == Grid(img, w, h) && prev.written[..n] == Grid(image, w, h);
        if same { valid := true; }
      }
    }

    /** The full convert into `out` succeeded: its hash becomes the reference. */
    method Commit(owner: nat, w: nat, h: nat, fourcc: u32, modifier: u64, out: nat, gen: u32, ghost img: Rows,
                  ghost bumps: nat)
      requires Sized(img, w, h) && Shaped() && cur.Mem? && Grid(img, w, h) <= cur.written && gen == W32(bumps)
      modifies this
      ensures Shaped() && valid && Keyed(owner, w, h, fourcc, modifier, out) && Remembers()
      ensures image == img && this.bumps == bumps && on == old(on) && current == old(current)
    {
      hide Grid, Sized, W32;
      prev, cur := cur, prev;
      Name(owner, w, h, fourcc, modifier, out);
      this.gen, this.image, this.bumps := gen, img, bumps;
      valid := true;
    }

    method Name(owner: nat, w: nat, h: nat, fourcc: u32, modifier: u64, out: nat)
      modifies this`owner, this`w, this`h, this`fourcc, this`modifier, this`out
      ensures Keyed(owner, w, h, fourcc, modifier, out)
    {
      this.owner, this.w, this.h, this.fourcc, this.modifier, this.out := owner, w, h, fourcc, modifier, out;
    }
  }

  lemma GridLength(m: Rows, w: nat, h: nat)
    requires Sized(m, w, h)
    ensures |Grid(m, w, h)| == Entries(w, h)
  {}

  /** One fragment per block, row by row. */
  method HashImage(img: Rows, w: nat, h: nat) returns (grid: seq<Hash>)
    requires Sized(img, w, h)
    ensures grid == Grid(img, w, h)
  {
    hide OfBlock, Grid, Blocks, Entries;
    grid := [];
    var n := Entries(w, h);
    GridLength(img, w, h);
    var k := 0;
    while k < n
      invariant 0 <= k <= n && |grid| == k
      invariant grid == Grid(img, w, h)[..k]
    {
      GridCell(img, w, h, k);
      var e := HashBlock(img, w, h, k % Blocks(w), k / Blocks(w));
      assert e == Grid(img, w, h)[k];
      grid := grid + [e];
      k := k + 1;
    }
  }
}
