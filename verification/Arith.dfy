/** Small facts of non-linear integer arithmetic, each proved once. */
module Arith {

  lemma MulBounds(e: int, d: int)
    requires d > 0
    ensures e >= 1 ==> e * d >= d
    ensures e <= -1 ==> e * d <= -d
  {
    if e >= 1 { assert (e - 1) * d >= 0; }
    if e <= -1 { assert (e + 1) * d <= 0; }
  }

  lemma MulMonotone(a: int, b: int, d: int)
    requires a <= b && 0 <= d
    ensures a * d <= b * d
  {
    assert (b - a) * d >= 0;
  }

  /** Quotient and remainder are determined by the division equation. */
  lemma QuotientIs(a: int, d: int, q: int, r: int)
    requires d > 0 && a == q * d + r && 0 <= r < d
    ensures a / d == q && a % d == r
  {
    var e := a / d - q;
    assert a == (a / d) * d + a % d;
    assert e * d == r - a % d;
    MulBounds(e, d);
  }

  lemma ProductBelow(a: nat, b: nat, x: nat, y: nat)
    requires a < x && b < y
    ensures a * b < x * y
  {
    assert a * b <= a * y;
    assert a * y < x * y;
  }

  lemma QuotientSmaller(n: nat, g: nat)
    requires g > 0
    ensures 0 <= n / g <= n
  {
    var q := n / g;
    assert n == q * g + n % g;
    MulBounds(g, if q > 0 then q else 1);
    MulBounds(q, g);
  }

  /** Index k of a row-major table of gh rows of gw entries lies in row k / gw. */
  lemma RowMajor(k: nat, gw: nat, gh: nat)
    requires k < gw * gh
    ensures gw > 0 && k / gw < gh
  {
    assert gw == 0 ==> gw * gh == 0;
    var q := k / gw;
    assert k == q * gw + k % gw;
    if q >= gh { MulMonotone(gh, q, gw); }
  }

  /** Entry (x, y) of a row-major table sits at y * gw + x. */
  lemma RowMajorIndex(x: nat, y: nat, gw: nat, gh: nat)
    requires x < gw && y < gh
    ensures 0 <= y * gw + x < gw * gh && (y * gw + x) / gw == y && (y * gw + x) % gw == x
  {
    QuotientIs(y * gw + x, gw, y, x);
    MulMonotone(y + 1, gh, gw);
    MulMonotone(0, y, gw);
  }

  lemma MulAssoc(a: int, b: int, c: int)
    ensures a * (b * c) == (a * b) * c
  {}

  lemma MulSum(a: int, b: int, k: int)
    ensures (a + b) * k == a * k + b * k
  {}

  lemma MulSwap(a: int, b: int, c: int)
    ensures a * (b * c) == (a * c) * b
  {}

  lemma MulInjective(a: int, b: int, d: int)
    requires d > 0 && a * d == b * d
    ensures a == b
  {
    MulSum(a - b, b, d);
    MulBounds(a - b, d);
  }

  /** Row y of h starts no later than the last one. */
  lemma RowBelow(y: int, h: int, stride: int)
    requires 0 <= y < h && 0 <= stride
    ensures 0 <= y * stride <= (h - 1) * stride
  {
    MulMonotone(0, y, stride);
    MulMonotone(y, h - 1, stride);
  }

  /** Element x of w lies inside their extent. */
  lemma ElementInside(x: int, w: int, size: int)
    requires 0 <= x < w && 0 <= size
    ensures 0 <= x * size && x * size + size <= w * size
  {
    MulMonotone(0, x, size);
    MulMonotone(x + 1, w, size);
    MulSum(x, 1, size);
  }

  lemma QuotientRest(a: nat, d: nat)
    requires d > 0
    ensures 0 <= a / d && 0 <= a % d < d && a == a / d * d + a % d
  {}
}
