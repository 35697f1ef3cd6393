/**
 The block hash of the skip-unchanged pass: one 32x32 block of the linear output image per
 invocation, murmur3-style mixing in h1, a position-aware second word in h2.
 */
module BlockHash {
  import opened Words
  import opened Arith

  const BLOCK := 32

  datatype Texel = Texel(r: u8, g: u8, b: u8, a: u8)
  {
    /** The texel as the shader packs it. */
    function Packed(): (u: u32) {
      r + g * 0x100 + b * 0x1_0000 + a * 0x100_0000
    }
  }

  /** Rows of texels. */
  type Rows = seq<seq<Texel>>

  ghost predicate Sized(m: Rows, w: nat, h: nat) {
    |m| == h && forall y | 0 <= y < h :: |m[y]| == w
  }

  function Min(a: int, b: int): int {
    if a <= b then a else b
  }

  // ---- one mixing step ----

  datatype Acc = Acc(h1: u32, h2: u32, cnt: u32)

  datatype Hash = Hash(h1: u32, h2: u32, gx: nat, gy: nat)

  function Rotl13(x: u32): (r: u32) {
    W32(x * 0x2000) + x / 0x8_0000
  }

  function Rotl15(x: u32): (r: u32) {
    W32(x * 0x8000) + x / 0x2_0000
  }

  function Scramble(u: u32): (k: u32) {
    W32(Rotl15(W32(u * 0xcc9e2d51)) * 0x1b873593)
  }

  function MixH1(h1: u32, u: u32): (r: u32) {
    W32(Rotl13(Xor32(h1, Scramble(u))) * 5 + 0xe6546b64)
  }

  function MixH2(h2: u32, u: u32, px: nat, py: nat): (r: u32) {
    var m := W32(Xor32(Xor32(Xor32(h2, u), W32(px * 0x9E3779B1)), W32(py * 0x85EBCA6B)) * 0x01000193);
    Xor32(m, Shr(m, 15))
  }

  function Step(a: Acc, u: u32, px: nat, py: nat): (r: Acc) {
    Acc(MixH1(a.h1, u), MixH2(a.h2, u, px, py), W32(a.cnt + 1))
  }

  const START := Acc(0x9747b28c, 0x2545F491, 0)

  /** The final avalanche over h1. */
  function Avalanche(h1: u32, cnt: u32): (r: u32) {
    var a := Xor32(h1, cnt);
    var b := Xor32(a, Shr(a, 16));
    var c := W32(b * 0x85ebca6b);
    Xor32(c, Shr(c, 13))
  }

  // ---- every step is a bijection modulo 2^32 ----

  lemma Rotl13Injective(x: u32, y: u32)
    requires Rotl13(x) == Rotl13(y)
    ensures x == y
  {
    Rotl13Parts(x);
    Rotl13Parts(y);
  }

  lemma Rotl13Parts(x: u32)
    ensures Rotl13(x) / 0x2000 == x % 0x8_0000 && Rotl13(x) % 0x2000 == x / 0x8_0000
  {
    assert W32(x * 0x2000) == (x % 0x8_0000) * 0x2000;
  }

  lemma Rotl15Injective(x: u32, y: u32)
    requires Rotl15(x) == Rotl15(y)
    ensures x == y
  {
    Rotl15Parts(x);
    Rotl15Parts(y);
  }

  lemma Rotl15Parts(x: u32)
    ensures Rotl15(x) / 0x8000 == x % 0x2_0000 && Rotl15(x) % 0x8000 == x / 0x2_0000
  {
    assert W32(x * 0x8000) == (x % 0x2_0000) * 0x8000;
  }

  /** c has inverse i modulo 2^32, c * i == 1 + q * 2^32. */
  lemma OddInvertible(x: u32, c: int, i: int, q: int)
    requires c * i == 1 + q * TWO32
    ensures W32(W32(x * c) * i) == x
  {
    var r: int := W32(x * c);
    var a := x * c / TWO32;
    assert x * c == a * TWO32 + r;
    calc {
      r * i;
      (x * c - a * TWO32) * i;
      x * (c * i) - a * TWO32 * i;
      x * (1 + q * TWO32) - a * TWO32 * i;
      x + (x * q - a * i) * TWO32;
    }
    ModuloWhole(x, x * q - a * i);
  }

  lemma ModuloWhole(x: u32, k: int)
    ensures (x + k * TWO32) % TWO32 == x
  {}

  lemma ScrambleInjective(u: u32, v: u32)
    requires Scramble(u) == Scramble(v)
    ensures u == v
  {
    var a, b := W32(u * 0xcc9e2d51), W32(v * 0xcc9e2d51);
    OddInvertible(Rotl15(a), 0x1b873593, 0x56ed309b, 156822886);
    OddInvertible(Rotl15(b), 0x1b873593, 0x56ed309b, 156822886);
    Rotl15Injective(a, b);
    OddInvertible(u, 0xcc9e2d51, 0xdee13bb1, 2988782088);
    OddInvertible(v, 0xcc9e2d51, 0xdee13bb1, 2988782088);
  }

  lemma TimesFiveInjective(x: u32, y: u32)
    requires W32(x * 5 + 0xe6546b64) == W32(y * 5 + 0xe6546b64)
    ensures x == y
  {
    assert (5 * x - 5 * y) % TWO32 == 0;
  }

  lemma MixInjectiveInHash(h: u32, g: u32, u: u32)
    ensures MixH1(h, u) == MixH1(g, u) ==> h == g
  {
    hide Xor, Rotl13, Scramble;
    if MixH1(h, u) == MixH1(g, u) {
      var k := Scramble(u);
      TimesFiveInjective(Rotl13(Xor32(h, k)), Rotl13(Xor32(g, k)));
      Rotl13Injective(Xor32(h, k), Xor32(g, k));
      XorCancelRight(k, h, g);
    }
  }

  lemma MixInjectiveInTexel(h: u32, u: u32, v: u32)
    ensures MixH1(h, u) == MixH1(h, v) ==> u == v
  {
    hide Xor, Rotl13, Scramble;
    if MixH1(h, u) == MixH1(h, v) {
      TimesFiveInjective(Rotl13(Xor32(h, Scramble(u))), Rotl13(Xor32(h, Scramble(v))));
      Rotl13Injective(Xor32(h, Scramble(u)), Xor32(h, Scramble(v)));
      XorCancelLeft(h, Scramble(u), Scramble(v));
      ScrambleInjective(u, v);
    }
  }

  /** x ^ (x >> k) determines x when 3k covers the word. */
  lemma XorShiftInjective(x: u32, y: u32, k: nat)
    requires 3 * k >= 32 && Xor32(x, Shr(x, k)) == Xor32(y, Shr(y, k))
    ensures x == y
  {
    XorShiftParts(x, k);
    XorShiftParts(y, k);
    XorCancelRight(Shr(x, 2 * k), Shr(x, k), Shr(y, k));
    XorCancelRight(Shr(x, k), x, y);
  }

  lemma XorShiftParts(x: u32, k: nat)
    requires 3 * k >= 32
    ensures var s := Xor32(x, Shr(x, k));
            Shr(s, k) == Xor(Shr(x, k), Shr(x, 2 * k)) && Shr(s, 2 * k) == Shr(x, 2 * k)
  {
    hide Xor, Shr;
    XorShift(x, Shr(x, k), k);
    ShrShr(x, k, k);
    XorShift(x, Shr(x, k), 2 * k);
    ShrShr(x, k, 2 * k);
    Powers();
    Pow2Grows(32, 3 * k);
    ShrToZero(x, 3 * k);
    XorZero(Shr(x, 2 * k));
  }

  lemma {:induction false} Pow2Grows(j: nat, k: nat)
    requires j <= k
    ensures Pow2(j) <= Pow2(k)
    decreases k
  {
    if j < k { Pow2Grows(j, k - 1); }
  }

  lemma AvalancheInjective(h: u32, g: u32, cnt: u32)
    ensures Avalanche(h, cnt) == Avalanche(g, cnt) ==> h == g
  {
    hide Xor, Shr;
    if Avalanche(h, cnt) == Avalanche(g, cnt) {
      var a, b := Xor32(h, cnt), Xor32(g, cnt);
      var c: int, d: int := Xor32(a, Shr(a, 16)), Xor32(b, Shr(b, 16));
      XorShiftInjective(W32(c * 0x85ebca6b), W32(d * 0x85ebca6b), 13);
      OddInvertible(c, 0x85ebca6b, 0xa5cb9243, 1455126516);
      OddInvertible(d, 0x85ebca6b, 0xa5cb9243, 1455126516);
      XorShiftInjective(a, b, 16);
      XorCancelRight(cnt, h, g);
    }
  }

  // ---- folding a block ----

  /** Texels x .. x1 of one image row. */
  function FoldRow(a: Acc, row: seq<Texel>, x: nat, x1: nat, py: nat): (r: Acc)
    requires x <= x1 <= |row|
    decreases x1 - x
  {
    if x == x1 then a else FoldRow(Step(a, row[x].Packed(), x, py), row, x + 1, x1, py)
  }

  /** Rows y .. y1, columns x0 .. x1. */
  function FoldRows(a: Acc, m: Rows, y: nat, y1: nat, x0: nat, x1: nat): (r: Acc)
    requires y <= y1 <= |m| && x0 <= x1
    requires forall i | y <= i < y1 :: x1 <= |m[i]|
    decreases y1 - y
  {
    if y == y1 then a else FoldRows(FoldRow(a, m[y], x0, x1, y), m, y + 1, y1, x0, x1)
  }

  ghost predicate InGrid(w: nat, h: nat, gx: nat, gy: nat) {
    gx * BLOCK < w && gy * BLOCK < h
  }

  /** The hash of block (gx, gy) of a w x h image. */
  ghost function OfBlock(m: Rows, w: nat, h: nat, gx: nat, gy: nat): (r: Hash)
    requires Sized(m, w, h) && InGrid(w, h, gx, gy)
  {
    var x0, y0 := gx * BLOCK, gy * BLOCK;
    var a := FoldRows(START, m, y0, Min(y0 + BLOCK, h), x0, Min(x0 + BLOCK, w));
    Hash(Avalanche(a.h1, a.cnt), a.h2, x0, y0)
  }

  /** The shader: nested loops that stop at the image edge. */
  method HashBlock(m: Rows, w: nat, h: nat, gx: nat, gy: nat) returns (r: Hash)
    requires Sized(m, w, h) && InGrid(w, h, gx, gy)
    ensures r == OfBlock(m, w, h, gx, gy)
  {
    hide Step, Avalanche;
    var x0, y0 := gx * BLOCK, gy * BLOCK;
    ghost var x1, y1 := Min(x0 + BLOCK, w), Min(y0 + BLOCK, h);
    var acc := START;
    var y := 0;
    while y < BLOCK
      invariant 0 <= y <= BLOCK && y0 + y <= y1
      invariant FoldRows(acc, m, y0 + y, y1, x0, x1) == FoldRows(START, m, y0, y1, x0, x1)
    {
      var py := y0 + y;
      if py >= h { break; }
      ghost var rowStart := acc;
      var x := 0;
      while x < BLOCK
        invariant 0 <= x <= BLOCK && x0 + x <= x1
        invariant FoldRow(acc, m[py], x0 + x, x1, py) == FoldRow(rowStart, m[py], x0, x1, py)
      {
        var px := x0 + x;
        if px >= w { break; }
        acc := Step(acc, m[py][px].Packed(), px, py);
        x := x + 1;
      }
      y := y + 1;
    }
    r := Hash(Avalanche(acc.h1, acc.cnt), acc.h2, x0, y0);
  }

  // ---- a single changed texel changes the hash ----

  lemma PackedInjective(s: Texel, t: Texel)
    requires s.Packed() == t.Packed()
    ensures s == t
  {
    PackedParts(s);
    PackedParts(t);
  }

  lemma PackedParts(t: Texel)
    ensures var u := t.Packed();
            u % 0x100 == t.r && u / 0x100 % 0x100 == t.g && u / 0x1_0000 % 0x100 == t.b && u / 0x100_0000 == t.a
  {
    var u: int := t.Packed();
    var v: int := t.g + t.b * 0x100 + t.a * 0x1_0000;
    assert u == t.r + v * 0x100 && u / 0x100 == v;
    assert u / 0x1_0000 == t.b + t.a * 0x100;
  }

  /** A difference in h1 with equal counts survives the rest of a row. */
  lemma {:induction false} RowKeepsDifference(a: Acc, b: Acc, r: seq<Texel>, s: seq<Texel>, x: nat, x1: nat, py: nat)
    requires x <= x1 <= |r| && |s| == |r| && a.cnt == b.cnt && a.h1 != b.h1
    requires forall i | x <= i < x1 :: r[i] == s[i]
    ensures var p, q := FoldRow(a, r, x, x1, py), FoldRow(b, s, x, x1, py);
            p.cnt == q.cnt && p.h1 != q.h1
    decreases x1 - x
  {
    hide MixH1, MixH2;
    if x < x1 {
      var u := r[x].Packed();
      if MixH1(a.h1, u) == MixH1(b.h1, u) { MixInjectiveInHash(a.h1, b.h1, u); }
      RowKeepsDifference(Step(a, u, x, py), Step(b, u, x, py), r, s, x + 1, x1, py);
    }
  }

  lemma {:induction false} EqualRows(a: Acc, r: seq<Texel>, s: seq<Texel>, x: nat, x1: nat, py: nat)
    requires x <= x1 <= |r| && |s| == |r|
    requires forall i | x <= i < x1 :: r[i] == s[i]
    ensures FoldRow(a, r, x, x1, py) == FoldRow(a, s, x, x1, py)
    decreases x1 - x
  {
    hide Step, Texel.Packed;
    if x < x1 { EqualRows(Step(a, r[x].Packed(), x, py), r, s, x + 1, x1, py); }
  }

  /** One changed texel in a row, reached from equal accumulators. */
  lemma {:induction false} RowSeesChange(a: Acc, r: seq<Texel>, s: seq<Texel>, x: nat, x1: nat, py: nat, c: nat)
    requires x <= c < x1 <= |r| && |s| == |r| && r[c] != s[c]
    requires forall i | x <= i < x1 && i != c :: r[i] == s[i]
    ensures var p, q := FoldRow(a, r, x, x1, py), FoldRow(a, s, x, x1, py);
            p.cnt == q.cnt && p.h1 != q.h1
    decreases x1 - x
  {
    hide MixH1, MixH2;
    if x < c {
      RowSeesChange(Step(a, r[x].Packed(), x, py), r, s, x + 1, x1, py, c);
    } else {
      var u, v := r[c].Packed(), s[c].Packed();
      if MixH1(a.h1, u) == MixH1(a.h1, v) {
        MixInjectiveInTexel(a.h1, u, v);
        PackedInjective(r[c], s[c]);
      }
      RowKeepsDifference(Step(a, u, c, py), Step(a, v, c, py), r, s, c + 1, x1, py);
    }
  }

  ghost predicate EqualOn(m: Rows, n: Rows, y: nat, y1: nat, x0: nat, x1: nat) {
    && y <= y1 <= |m| && |m| == |n| && x0 <= x1
    && forall i | y <= i < y1 :: |m[i]| == |n[i]| && x1 <= |m[i]| && forall j | x0 <= j < x1 :: m[i][j] == n[i][j]
  }

  lemma {:induction false} RowsKeepDifference(a: Acc, b: Acc, m: Rows, n: Rows, y: nat, y1: nat, x0: nat, x1: nat)
    requires EqualOn(m, n, y, y1, x0, x1) && a.cnt == b.cnt && a.h1 != b.h1
    ensures var p, q := FoldRows(a, m, y, y1, x0, x1), FoldRows(b, n, y, y1, x0, x1);
            p.cnt == q.cnt && p.h1 != q.h1
    decreases y1 - y
  {
    hide FoldRow;
    if y < y1 {
      RowKeepsDifference(a, b, m[y], n[y], x0, x1, y);
      RowsKeepDifference(FoldRow(a, m[y], x0, x1, y), FoldRow(b, n[y], x0, x1, y), m, n, y + 1, y1, x0, x1);
    }
  }

  lemma {:induction false} RowsSeeChange(a: Acc, m: Rows, n: Rows, y: nat, y1: nat, x0: nat, x1: nat, cx: nat, cy: nat)
    requires y <= cy < y1 <= |m| && |m| == |n| && x0 <= cx < x1
    requires forall i | y <= i < y1 :: |m[i]| == |n[i]| && x1 <= |m[i]|
    requires m[cy][cx] != n[cy][cx]
    requires forall i, j | y <= i < y1 && x0 <= j < x1 && (i, j) != (cy, cx) :: m[i][j] == n[i][j]
    ensures var p, q := FoldRows(a, m, y, y1, x0, x1), FoldRows(a, n, y, y1, x0, x1);
            p.cnt == q.cnt && p.h1 != q.h1
    decreases y1 - y
  {
    hide FoldRow;
    if y < cy {
      EqualRows(a, m[y], n[y], x0, x1, y);
      RowsSeeChange(FoldRow(a, m[y], x0, x1, y), m, n, y + 1, y1, x0, x1, cx, cy);
    } else {
      RowSeesChange(a, m[cy], n[cy], x0, x1, cy, cx);
      RowsKeepDifference(FoldRow(a, m[cy], x0, x1, cy), FoldRow(a, n[cy], x0, x1, cy), m, n, cy + 1, y1, x0, x1);
    }
  }

  // ---- the grid ----

  function Blocks(n: nat): (g: nat) {
    (n + BLOCK - 1) / BLOCK
  }

  ghost predicate InBlock(x: nat, y: nat, gx: nat, gy: nat) {
    x / BLOCK == gx && y / BLOCK == gy
  }

  /** Entry k of the hash texture is a block of the image. */
  lemma EntryInGrid(w: nat, h: nat, k: nat)
    requires k < Blocks(w) * Blocks(h)
    ensures Blocks(w) > 0 && InGrid(w, h, k % Blocks(w), k / Blocks(w))
  {
    RowMajor(k, Blocks(w), Blocks(h));
    var gx, gy := k % Blocks(w), k / Blocks(w);
    assert gx < Blocks(w) && gy < Blocks(h);
  }

  /** The hash texture read back, row by row, after a pass over a w x h image. */
  ghost function Grid(m: Rows, w: nat, h: nat): (g: seq<Hash>)
    requires Sized(m, w, h)
    ensures |g| == Blocks(w) * Blocks(h)
  {
    seq(Blocks(w) * Blocks(h), k requires 0 <= k < Blocks(w) * Blocks(h) =>
      EntryInGrid(w, h, k);
      OfBlock(m, w, h, k % Blocks(w), k / Blocks(w)))
  }

  lemma GridCell(m: Rows, w: nat, h: nat, k: nat)
    requires Sized(m, w, h) && k < |Grid(m, w, h)|
    ensures Blocks(w) > 0 && InGrid(w, h, k % Blocks(w), k / Blocks(w))
    ensures Grid(m, w, h)[k] == OfBlock(m, w, h, k % Blocks(w), k / Blocks(w))
  {
    hide OfBlock;
    EntryInGrid(w, h, k);
  }

  /** Block (gx, gy) differs in exactly one texel. */
  ghost predicate OneTexelInBlock(m: Rows, n: Rows, w: nat, h: nat, gx: nat, gy: nat)
    requires Sized(m, w, h) && Sized(n, w, h)
  {
    exists cx, cy :: OnlyChange(m, n, w, h, gx, gy, cx, cy)
  }

  ghost predicate OnlyChange(m: Rows, n: Rows, w: nat, h: nat, gx: nat, gy: nat, cx: int, cy: int)
    requires Sized(m, w, h) && Sized(n, w, h)
  {
    && 0 <= cx < w && 0 <= cy < h && InBlock(cx, cy, gx, gy) && m[cy][cx] != n[cy][cx]
    && forall x, y | 0 <= x < w && 0 <= y < h && InBlock(x, y, gx, gy) && (y, x) != (cy, cx) :: m[y][x] == n[y][x]
  }

  /** Every texel lies in exactly one block of the grid. */
  lemma BlocksPartition(w: nat, h: nat, x: nat, y: nat)
    requires x < w && y < h
    ensures x / BLOCK < Blocks(w) && y / BLOCK < Blocks(h) && InGrid(w, h, x / BLOCK, y / BLOCK)
    ensures forall gx: nat, gy: nat :: InBlock(x, y, gx, gy) <==>
              gx * BLOCK <= x < Min(gx * BLOCK + BLOCK, w) && gy * BLOCK <= y < Min(gy * BLOCK + BLOCK, h)
  {}

  /** With no collision assumption: one changed texel in a block always moves that block's hash. */
  lemma OneTexelMovesBlock(m: Rows, n: Rows, w: nat, h: nat, gx: nat, gy: nat)
    requires Sized(m, w, h) && Sized(n, w, h) && OneTexelInBlock(m, n, w, h, gx, gy)
    ensures InGrid(w, h, gx, gy) && OfBlock(m, w, h, gx, gy).h1 != OfBlock(n, w, h, gx, gy).h1
  {
    hide FoldRows, Avalanche;
    var cx, cy :| OnlyChange(m, n, w, h, gx, gy, cx, cy);
    var x0, y0 := gx * BLOCK, gy * BLOCK;
    var x1, y1 := Min(x0 + BLOCK, w), Min(y0 + BLOCK, h);
    forall i, j | y0 <= i < y1 && x0 <= j < x1 && (i, j) != (cy, cx) ensures m[i][j] == n[i][j] {
      assert InBlock(j, i, gx, gy);
    }
    RowsSeeChange(START, m, n, y0, y1, x0, x1, cx, cy);
    var p, q := FoldRows(START, m, y0, y1, x0, x1), FoldRows(START, n, y0, y1, x0, x1);
    if Avalanche(p.h1, p.cnt) == Avalanche(q.h1, q.cnt) { AvalancheInjective(p.h1, q.h1, p.cnt); }
  }

  lemma GridEntry(m: Rows, w: nat, h: nat, gx: nat, gy: nat)
    requires Sized(m, w, h) && gx < Blocks(w) && gy < Blocks(h)
    ensures InGrid(w, h, gx, gy)
    ensures var k := gy * Blocks(w) + gx; 0 <= k < |Grid(m, w, h)| && Grid(m, w, h)[k] == OfBlock(m, w, h, gx, gy)
  {
    hide OfBlock;
    RowMajorIndex(gx, gy, Blocks(w), Blocks(h));
  }

  lemma OneTexelMovesGrid(m: Rows, n: Rows, w: nat, h: nat, gx: nat, gy: nat)
    requires Sized(m, w, h) && Sized(n, w, h) && OneTexelInBlock(m, n, w, h, gx, gy)
    ensures Grid(m, w, h) != Grid(n, w, h)
  {
    hide OfBlock, Grid;
    OneTexelMovesBlock(m, n, w, h, gx, gy);
    var cx, cy :| OnlyChange(m, n, w, h, gx, gy, cx, cy);
    BlocksPartition(w, h, cx, cy);
    GridEntry(m, w, h, gx, gy);
    GridEntry(n, w, h, gx, gy);
  }
}
