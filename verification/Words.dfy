/**
 Machine words.  C's unsigned types are subset types of nat; every operation that may wrap
 is written with an explicit reduction, and exclusive-or is defined bit by bit on naturals,
 so its algebra is proved here rather than left to bit-vector reasoning.
 */
module Words {

  const TWO16 := 0x1_0000
  const TWO32 := 0x1_0000_0000
  const TWO64 := 0x1_0000_0000_0000_0000

  type u8 = n: int | 0 <= n < 0x100
  type u16 = n: int | 0 <= n < 0x1_0000
  type u32 = n: int | 0 <= n < 0x1_0000_0000
  type u64 = n: int | 0 <= n < 0x1_0000_0000_0000_0000

  /** Reduction modulo 2^32: what a C uint32_t expression keeps. */
  function W32(n: int): (r: u32) {
    n % TWO32
  }

  function W64(n: int): (r: u64) {
    n % TWO64
  }

  function Zeros(n: nat): (z: seq<u8>)
    ensures |z| == n && forall i | 0 <= i < n :: z[i] == 0
  {
    seq(n, _ => 0)
  }

  function Pow2(k: nat): (p: nat)
    ensures p > 0
  {
    if k == 0 then 1 else 2 * Pow2(k - 1)
  }

  /** a >> k. */
  function Shr(a: nat, k: nat): (r: nat)
    ensures r <= a
    decreases k
  {
    if k == 0 then a else Shr(a / 2, k - 1)
  }

  function Xor(a: nat, b: nat): (r: nat)
    decreases a + b
  {
    if a == 0 && b == 0 then 0
    else (a + b) % 2 + 2 * Xor(a / 2, b / 2)
  }

  // ---- algebra of exclusive-or ----

  lemma {:induction false} XorZero(a: nat)
    ensures Xor(a, 0) == a && Xor(0, a) == a
  {
    if a != 0 { XorZero(a / 2); }
  }

  lemma ParityTwice(a: nat, b: nat, x: nat)
    requires x % 2 == (a + b) % 2
    ensures (x + b) % 2 == a % 2
  {}

  lemma {:induction false} XorSelfInverse(a: nat, b: nat)
    ensures Xor(Xor(a, b), b) == a
    decreases a + b
  {
    if a != 0 || b != 0 {
      XorSelfInverse(a / 2, b / 2);
      var x := Xor(a, b);
      assert x / 2 == Xor(a / 2, b / 2) && x % 2 == (a + b) % 2;
      ParityTwice(a, b, x);
      if x == 0 && b == 0 {
      } else {
        assert Xor(x, b) == (x + b) % 2 + 2 * Xor(x / 2, b / 2);
      }
    }
  }

  lemma {:induction false} XorCommutes(a: nat, b: nat)
    ensures Xor(a, b) == Xor(b, a)
    decreases a + b
  {
    if a != 0 || b != 0 { XorCommutes(a / 2, b / 2); }
  }

  lemma {:induction false} XorBelow(a: nat, b: nat, k: nat)
    requires a < Pow2(k) && b < Pow2(k)
    ensures Xor(a, b) < Pow2(k)
  {
    if k > 0 { XorBelow(a / 2, b / 2, k - 1); }
  }

  lemma {:induction false} XorEqualsZero(a: nat, b: nat)
    ensures Xor(a, b) == 0 <==> a == b
    decreases a + b
  {
    if a != 0 || b != 0 { XorEqualsZero(a / 2, b / 2); }
  }

  lemma XorCancelLeft(a: nat, b: nat, c: nat)
    requires Xor(a, b) == Xor(a, c)
    ensures b == c
  {
    XorCommutes(a, b);
    XorCommutes(a, c);
    XorSelfInverse(b, a);
    XorSelfInverse(c, a);
  }

  lemma XorCancelRight(a: nat, b: nat, c: nat)
    requires Xor(b, a) == Xor(c, a)
    ensures b == c
  {
    XorSelfInverse(b, a);
    XorSelfInverse(c, a);
  }

  /** Shifting right distributes over exclusive-or. */
  lemma {:induction false} XorShift(a: nat, b: nat, k: nat)
    ensures Shr(Xor(a, b), k) == Xor(Shr(a, k), Shr(b, k))
    decreases k
  {
    if k > 0 {
      XorSplit(a, b);
      XorShift(a / 2, b / 2, k - 1);
    }
  }

  lemma {:induction false} ShrShr(a: nat, j: nat, k: nat)
    ensures Shr(Shr(a, j), k) == Shr(a, j + k)
    decreases j
  {
    if j > 0 { ShrShr(a / 2, j - 1, k); }
  }

  lemma {:induction false} ShrToZero(a: nat, k: nat)
    requires a < Pow2(k)
    ensures Shr(a, k) == 0
  {
    if k > 0 { ShrToZero(a / 2, k - 1); }
  }

  lemma Doubled(s: int, p: int)
    ensures s * (2 * p) == 2 * (s * p)
  {}

  lemma {:induction false} ShrBounds(a: nat, k: nat)
    ensures Shr(a, k) * Pow2(k) <= a < Shr(a, k) * Pow2(k) + Pow2(k)
    decreases k
  {
    if k > 0 {
      ShrBounds(a / 2, k - 1);
      Doubled(Shr(a / 2, k - 1), Pow2(k - 1));
    }
  }

  lemma Powers()
    ensures Pow2(16) == 0x1_0000 && Pow2(32) == 0x1_0000_0000 && Pow2(64) == 0x1_0000_0000_0000_0000
  {
    assert Pow2(8) == 0x100;
    assert Pow2(16) == 0x1_0000;
    assert Pow2(24) == 0x100_0000;
    assert Pow2(32) == 0x1_0000_0000;
    assert Pow2(40) == 0x100_0000_0000;
    assert Pow2(48) == 0x1_0000_0000_0000;
    assert Pow2(56) == 0x100_0000_0000_0000;
  }

  function Xor32(a: u32, b: u32): (r: u32) {
    Powers();
    XorBelow(a, b, 32);
    Xor(a, b)
  }

  function Xor64(a: u64, b: u64): (r: u64) {
    Powers();
    XorBelow(a, b, 64);
    Xor(a, b)
  }

  /** Two words whose exclusive-or fits in 16 bits are less than 2^16 apart. */
  lemma XorSmall(a: nat, b: nat)
    requires Xor(a, b) < TWO16
    ensures -TWO16 < a - b < TWO16
  {
    Powers();
    ShrToZero(Xor(a, b), 16);
    XorShift(a, b, 16);
    XorEqualsZero(Shr(a, 16), Shr(b, 16));
    ShrBounds(a, 16);
    ShrBounds(b, 16);
  }

  lemma XorLow16(a: u16, b: u16)
    ensures Xor(a, b) < TWO16
  {
    Powers();
    XorBelow(a, b, 16);
  }

  lemma XorSplit(a: nat, b: nat)
    ensures Xor(a, b) / 2 == Xor(a / 2, b / 2) && Xor(a, b) % 2 == (a + b) % 2
  {}

  lemma {:induction false} XorAssociates(a: nat, b: nat, c: nat)
    ensures Xor(Xor(a, b), c) == Xor(a, Xor(b, c))
    decreases a + b + c
  {
    if a + b + c != 0 {
      hide Xor;
      var x, y := Xor(a, b), Xor(b, c);
      XorAssociates(a / 2, b / 2, c / 2);
      XorSplit(a, b);
      XorSplit(b, c);
      XorSplit(x, c);
      XorSplit(a, y);
      ParityAssociates(x, y, a, b, c);
      Halves(Xor(x, c), Xor(a, y));
    }
  }

  lemma ParityAssociates(x: nat, y: nat, a: nat, b: nat, c: nat)
    requires x % 2 == (a + b) % 2 && y % 2 == (b + c) % 2
    ensures (x + c) % 2 == (a + y) % 2
  {}

  lemma Halves(m: nat, n: nat)
    requires m / 2 == n / 2 && m % 2 == n % 2
    ensures m == n
  {}

  /** Equal exclusive-ors, regrouped. */
  lemma XorSwap(p: nat, v: nat, q: nat, w: nat)
    requires Xor(p, v) == Xor(q, w)
    ensures Xor(p, q) == Xor(v, w)
  {
    hide Xor;
    calc {
      Xor(p, q);
      { XorSelfInverse(p, v); }
      Xor(Xor(Xor(q, w), v), q);
      { XorCommutes(Xor(Xor(q, w), v), q); XorAssociates(q, w, v); }
      Xor(q, Xor(q, Xor(w, v)));
      { XorCommutes(q, Xor(q, Xor(w, v))); XorCommutes(q, Xor(w, v)); XorSelfInverse(Xor(w, v), q); }
      Xor(w, v);
      { XorCommutes(w, v); }
      Xor(v, w);
    }
  }

  lemma XorTwice(h: nat, v: nat, w: nat)
    ensures Xor(Xor(h, v), Xor(h, w)) == Xor(v, w)
  {
    XorSelfInverse(h, v);
    XorSelfInverse(h, w);
    XorSwap(Xor(h, v), v, Xor(h, w), w);
  }

  /** Changing 16 low bits of the operand moves the result by less than 2^16. */
  lemma XorSharedHigh(h: nat, v: u16, w: u16)
    ensures -TWO16 < Xor(h, v) - Xor(h, w) < TWO16
  {
    XorTwice(h, v, w);
    XorLow16(v, w);
    XorSmall(Xor(h, v), Xor(h, w));
  }
}
