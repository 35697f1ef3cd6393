/**
 The arithmetic of display enumeration: the exact refresh rate of a mode as a reduced
 fraction, and the FNV-1a fold that tells a changed display topology from an unchanged one.
 */
module Enumerate {
  import opened Arith
  import opened Words
  import opened Options

  // ---- exact refresh rate ----

  /** The timing fields of a mode that the rate depends on. */
  datatype Mode = Mode(clock: u32, htotal: u16, vtotal: u16, vscan: u16,
                       interlace: bool, doublescan: bool)
  {
    predicate HasTimings() {
      clock != 0 && htotal != 0 && vtotal != 0
    }

    /** Fields (or half fields, when interlaced) per second are RateNum / RateDen. */
    function RateNum(): nat {
      clock * 1000 * (if interlace then 2 else 1)
    }

    function RateDen(): nat {
      htotal * vtotal * (if doublescan then 2 else 1) * (if vscan > 1 then vscan else 1)
    }
  }

  datatype Rate = NoTimings | Rate(num: u64, den: u64)

  function Gcd(a: nat, b: nat): (g: nat)
    ensures a > 0 || b > 0 ==> g > 0
    decreases b
  {
    if b == 0 then a else Gcd(b, a % b)
  }

  lemma {:induction false} Bezout(a: nat, b: nat) returns (s: int, t: int)
    ensures s * a + t * b == Gcd(a, b)
    decreases b
  {
    if b == 0 {
      s, t := 1, 0;
    } else {
      var s', t' := Bezout(b, a % b);
      s, t := t', s' - t' * (a / b);
      assert a % b == a - (a / b) * b;
      assert t' * (a % b) == t' * a - t' * (a / b) * b;
      assert t * b == s' * b - t' * (a / b) * b;
    }
  }

  /** The greatest common divisor divides both arguments exactly. */
  lemma {:induction false} GcdDivides(a: nat, b: nat) returns (p: nat, q: nat)
    ensures a == p * Gcd(a, b) && b == q * Gcd(a, b)
    decreases b
  {
    if b == 0 {
      p, q := 1, 0;
    } else {
      var p', q' := GcdDivides(b, a % b);
      p, q := (a / b) * p' + q', p';
      QuotientTimes(a / b, p', q', Gcd(a, b));
    }
  }

  lemma QuotientTimes(x: int, p: int, q: int, g: int)
    ensures x * (p * g) + q * g == (x * p + q) * g
  {}

  ghost predicate Divides(k: nat, n: nat) {
    exists m: nat :: n == m * k
  }

  /** No integer above one divides both. */
  ghost predicate Coprime(a: nat, b: nat) {
    forall k: nat :: k > 1 && Divides(k, a) ==> !Divides(k, b)
  }

  lemma NoCommonFactor(s: int, m: int, t: int, n: int, k: int)
    requires k > 1
    ensures s * (m * k) + t * (n * k) != 1
  {
    MulAssoc(s, m, k);
    MulAssoc(t, n, k);
    MulSum(s * m, t * n, k);
    MulBounds(s * m + t * n, k);
  }

  lemma CombinationMakesCoprime(a: nat, b: nat, s: int, t: int)
    requires s * a + t * b == 1
    ensures Coprime(a, b)
  {
    forall k: nat | k > 1 && Divides(k, a) && Divides(k, b) ensures false {
      var m: nat :| a == m * k;
      var n: nat :| b == n * k;
      NoCommonFactor(s, m, t, n, k);
    }
  }

  /** Dividing by the greatest common divisor leaves an exact fraction in lowest terms. */
  lemma ReducedFraction(n: nat, d: nat)
    requires n > 0 && d > 0
    ensures var g := Gcd(n, d);
            n / g * g == n && d / g * g == d && n / g > 0 && d / g > 0
    ensures var g := Gcd(n, d);
            exists s: int, t: int :: s * (n / g) + t * (d / g) == 1
  {
    var g := Gcd(n, d);
    var p, q := GcdDivides(n, d);
    var s, t := Bezout(n, d);
    QuotientIs(n, g, p, 0);
    QuotientIs(d, g, q, 0);
    MulBounds(p, g);
    MulBounds(q, g);
    assert s * (p * g) + t * (q * g) == (s * p + t * q) * g;
    var e := s * p + t * q;
    assert (e - 1) * g == 0;
    MulBounds(e - 1, g);
    assert s * (n / g) + t * (d / g) == 1;
  }

  /** Two fractions in lowest terms with the same value are the same pair. */
  lemma LowestTermsUnique(n1: nat, d1: nat, n2: nat, d2: nat,
                          s1: int, t1: int, s2: int, t2: int)
    requires d1 > 0 && d2 > 0
    requires s1 * n1 + t1 * d1 == 1 && s2 * n2 + t2 * d2 == 1
    requires n1 * d2 == n2 * d1
    ensures n1 == n2 && d1 == d2
  {
    DenominatorDivides(n1, d1, n2, d2, s1, t1);
    DenominatorDivides(n2, d2, n1, d1, s2, t2);
    assert n1 * d1 == n2 * d1;
    if n1 != n2 {
      assert (n1 - n2) * d1 == 0;
      MulBounds(n1 - n2, d1);
    }
  }

  lemma DenominatorDivides(n1: nat, d1: nat, n2: nat, d2: nat, s: int, t: int)
    requires d1 > 0 && d2 > 0 && s * n1 + t * d1 == 1 && n1 * d2 == n2 * d1
    ensures d1 <= d2
  {
    var e := s * n2 + t * d2;
    calc {
      d2;
      (s * n1 + t * d1) * d2;
      s * (n1 * d2) + t * d1 * d2;
      s * (n2 * d1) + t * d1 * d2;
      e * d1;
    }
    MulBounds(e, d1);
  }

  /** Euclid's algorithm as the loop runs it. */
  method RefreshGcd(a0: u64, b0: u64) returns (g: u64)
    ensures g == Gcd(a0, b0)
  {
    var a, b := a0, b0;
    while b != 0
      invariant Gcd(a, b) == Gcd(a0, b0)
      decreases b
    {
      var t: u64 := a % b;
      a := b;
      b := t;
    }
    g := a;
  }

  /** The pair reported for a mode that has timings. */
  function RefreshOf(m: Mode): (r: (nat, nat))
    requires m.HasTimings()
  {
    RatePositive(m);
    var g := Gcd(m.RateNum(), m.RateDen());
    (m.RateNum() / g, m.RateDen() / g)
  }

  lemma RatePositive(m: Mode)
    requires m.HasTimings()
    ensures m.RateNum() > 0 && m.RateDen() > 0
  {
    MulBounds(m.htotal, m.vtotal);
    var t := m.htotal * m.vtotal * (if m.doublescan then 2 else 1);
    MulBounds(t, if m.vscan > 1 then m.vscan else 1);
  }

  /** The unreduced rate.  Every intermediate value fits in 64 bits: the assignments to u64 prove it. */
  method RawRate(m: Mode) returns (n: u64, d: u64)
    ensures n == m.RateNum() && d == m.RateDen()
  {
    n := m.clock * 1000;
    ProductBelow(m.htotal, m.vtotal, TWO16, TWO16);
    d := m.htotal * m.vtotal;
    if m.interlace {
      n := n * 2;
    }
    if m.doublescan {
      d := d * 2;
    }
    if m.vscan > 1 {
      ProductBelow(d, m.vscan, 2 * TWO32, TWO16);
      d := d * m.vscan;
    }
  }

  /** The rate in the mode's own fields. */
  lemma RateByFields(m: Mode)
    ensures m.HasTimings() <==> m.clock > 0 && m.htotal > 0 && m.vtotal > 0
    ensures m.RateNum() == if m.interlace then m.clock * 2000 else m.clock * 1000
    ensures var lines := m.htotal * m.vtotal * (if m.doublescan then 2 else 1);
            m.RateDen() == if m.vscan > 1 then lines * m.vscan else lines
  {}

  method ModeRefresh(m: Mode) returns (r: Rate)
    ensures r.NoTimings? <==> m.clock == 0 || m.htotal == 0 || m.vtotal == 0
    ensures r.Rate? ==>
              var n := if m.interlace then m.clock * 2000 else m.clock * 1000;
              var lines := m.htotal * m.vtotal * (if m.doublescan then 2 else 1);
              r.num * (if m.vscan > 1 then lines * m.vscan else lines) == n * r.den
    ensures r.Rate? ==> (r.num, r.den) == RefreshOf(m)
    ensures r.Rate? ==> r.den > 0 && r.num * m.RateDen() == m.RateNum() * r.den
    ensures r.Rate? ==> Coprime(r.num, r.den)
  {
    hide Mode.RateNum, Mode.RateDen, Coprime;
    if m.clock == 0 || m.htotal == 0 || m.vtotal == 0 {
      return NoTimings;
    }
    var n, d := RawRate(m);
    RatePositive(m);
    RateByFields(m);
    var g := RefreshGcd(n, d);
    RefreshExact(m);
    assert n / g <= n && d / g <= d by { QuotientSmaller(n, g); QuotientSmaller(d, g); }
    r := Rate(n / g, d / g);
  }

  lemma ReducedIsExact(n: nat, d: nat)
    requires n > 0 && d > 0
    ensures var g := Gcd(n, d);
            g > 0 && d / g > 0 && n / g * d == n * (d / g) && Coprime(n / g, d / g)
  {
    hide Coprime;
    ReducedFraction(n, d);
    var g := Gcd(n, d);
    var p, q := n / g, d / g;
    var s: int, t: int :| s * p + t * q == 1;
    CombinationMakesCoprime(p, q, s, t);
    MulSwap(p, q, g);
  }

  /** The reported pair is the mode's rate, exactly, in lowest terms. */
  lemma RefreshExact(m: Mode)
    requires m.HasTimings()
    ensures var (num, den) := RefreshOf(m);
            den > 0 && num * m.RateDen() == m.RateNum() * den && Coprime(num, den)
  {
    hide Mode.RateNum, Mode.RateDen, Coprime;
    RatePositive(m);
    ReducedIsExact(m.RateNum(), m.RateDen());
  }

  /** Two modes are reported alike exactly when they run at the same rate. */
  lemma SameRateSamePair(a: Mode, b: Mode)
    requires a.HasTimings() && b.HasTimings()
    ensures RefreshOf(a) == RefreshOf(b) <==> a.RateNum() * b.RateDen() == b.RateNum() * a.RateDen()
  {
    RatePositive(a); RatePositive(b);
    var ga, gb := Gcd(a.RateNum(), a.RateDen()), Gcd(b.RateNum(), b.RateDen());
    ReducedFraction(a.RateNum(), a.RateDen());
    ReducedFraction(b.RateNum(), b.RateDen());
    var (n1, d1) := RefreshOf(a);
    var (n2, d2) := RefreshOf(b);
    CrossScale(n1, d1, n2, d2, ga, gb);
    if n1 * d2 == n2 * d1 {
      var s1: int, t1: int :| s1 * n1 + t1 * d1 == 1;
      var s2: int, t2: int :| s2 * n2 + t2 * d2 == 1;
      LowestTermsUnique(n1, d1, n2, d2, s1, t1, s2, t2);
    }
  }

  lemma CrossScale(n1: nat, d1: nat, n2: nat, d2: nat, g: nat, h: nat)
    requires g > 0 && h > 0
    ensures n1 * d2 == n2 * d1 <==> (n1 * g) * (d2 * h) == (n2 * h) * (d1 * g)
  {
    var k := g * h;
    assert (n1 * g) * (d2 * h) == (n1 * d2) * k;
    assert (n2 * h) * (d1 * g) == (n2 * d1) * k;
    assert k > 0 by { MulBounds(g, h); }
    var e := n1 * d2 - n2 * d1;
    assert e * k == (n1 * d2) * k - (n2 * d1) * k;
    MulBounds(e, k);
  }

  // ---- topology hash ----

  const OFFSET_BASIS: u64 := 1469598103934665603
  const FNV_PRIME := 1099511628211

  /** One TH_FOLD: exclusive-or the 32-bit value in, multiply modulo 2^64. */
  function FoldStep(h: u64, v: u32): (r: u64) {
    W64(Xor64(h, v) * FNV_PRIME)
  }

  function HashFrom(h: u64, vs: seq<u32>): (r: u64)
    decreases |vs|
  {
    if vs == [] then h else HashFrom(FoldStep(h, vs[0]), vs[1..])
  }

  datatype ActiveMode = Unreadable | Active(valid: u32, hdisplay: u16, vdisplay: u16, vrefresh: u32)

  /** One connector as the sweep sees it; its CRTC is 0 when unbound. */
  datatype Connector = Lost(id: u32) | Present(id: u32, connection: u32, crtc: u32, mode: ActiveMode)
  {
    function Folds(): (vs: seq<u32>) {
      match this
      case Lost(id) => [id]
      case Present(id, connection, crtc, mode) =>
        [id, connection, crtc] +
        if crtc != 0 && mode.Active? then [mode.valid, mode.hdisplay, mode.vdisplay, mode.vrefresh] else []
    }
  }

  datatype Topology = Topology(crtcs: u32, connectors: seq<Connector>)
  {
    /** Every value folded, in order. */
    function Folds(): (vs: seq<u32>) {
      [W32(|connectors|), crtcs] + AllFolds(connectors)
    }

    function Hash(): (h: u64) {
      HashFrom(OFFSET_BASIS, Folds())
    }
  }

  function AllFolds(cs: seq<Connector>): (vs: seq<u32>) {
    if cs == [] then [] else cs[0].Folds() + AllFolds(cs[1..])
  }

  /** Multiplication by the odd prime is undone by its inverse modulo 2^64. */
  lemma PrimeInvertible(x: u64)
    ensures W64(W64(x * FNV_PRIME) * 14886173955864302971) == x
  {
    var r: int := W64(x * FNV_PRIME);
    var a: int := x * FNV_PRIME / TWO64;
    assert x * FNV_PRIME == a * TWO64 + r;
    var k := x * 887285111055 - a * 14886173955864302971;
    assert r * 14886173955864302971 == x + k * TWO64;
    QuotientIs(r * 14886173955864302971, TWO64, k, x);
  }

  lemma StepInjectiveInHash(h: u64, g: u64, v: u32)
    requires FoldStep(h, v) == FoldStep(g, v)
    ensures h == g
  {
    PrimeInvertible(Xor64(h, v));
    PrimeInvertible(Xor64(g, v));
    XorCancelRight(v, h, g);
  }

  lemma StepInjectiveInValue(h: u64, v: u32, w: u32)
    requires FoldStep(h, v) == FoldStep(h, w)
    ensures v == w
  {
    PrimeInvertible(Xor64(h, v));
    PrimeInvertible(Xor64(h, w));
    XorCancelLeft(h, v, w);
  }

  lemma {:induction false} HashConcat(h: u64, a: seq<u32>, b: seq<u32>)
    ensures HashFrom(h, a + b) == HashFrom(HashFrom(h, a), b)
    decreases |a|
  {
    if a == [] {
      assert a + b == b;
    } else {
      assert (a + b)[0] == a[0] && (a + b)[1..] == a[1..] + b;
      HashConcat(FoldStep(h, a[0]), a[1..], b);
    }
  }

  /** A difference in the running hash survives every later fold. */
  lemma {:induction false} DifferenceSurvives(h: u64, g: u64, vs: seq<u32>)
    requires h != g
    ensures HashFrom(h, vs) != HashFrom(g, vs)
    decreases |vs|
  {
    if vs != [] {
      if FoldStep(h, vs[0]) == FoldStep(g, vs[0]) { StepInjectiveInHash(h, g, vs[0]); }
      DifferenceSurvives(FoldStep(h, vs[0]), FoldStep(g, vs[0]), vs[1..]);
    }
  }

  /** Two steps on pairs of 16-bit values reach the same hash only from the same pair. */
  lemma PairInjective(h: u64, v1: u16, v2: u16, w1: u16, w2: u16)
    ensures FoldStep(FoldStep(h, v1), v2) == FoldStep(FoldStep(h, w1), w2) ==> v1 == w1 && v2 == w2
  {
    if FoldStep(FoldStep(h, v1), v2) == FoldStep(FoldStep(h, w1), w2) {
      var x, y := Xor64(h, v1), Xor64(h, w1);
      var p, q := FoldStep(h, v1), FoldStep(h, w1);
      PrimeInvertible(Xor64(p, v2));
      PrimeInvertible(Xor64(q, w2));
      assert Xor(p, v2) == Xor(q, w2);
      XorSwap(p, v2, q, w2);
      XorLow16(v2, w2);
      XorSmall(p, q);
      XorSharedHigh(h, v1, w1);
      if x != y { CloseInputsPartFar(x, y); }
      XorCancelLeft(h, v1, w1);
      StepInjectiveInValue(p, v2, w2);
    }
  }

  /** The prime spreads two words that differ only near the bottom far apart modulo 2^64. */
  lemma CloseInputsPartFar(x: u64, y: u64)
    requires x != y && -TWO16 < x - y < TWO16
    ensures !(-TWO16 < W64(x * FNV_PRIME) - W64(y * FNV_PRIME) < TWO16)
  {
    var a: int := x * FNV_PRIME / TWO64;
    var b: int := y * FNV_PRIME / TWO64;
    assert x * FNV_PRIME == a * TWO64 + W64(x * FNV_PRIME);
    assert y * FNV_PRIME == b * TWO64 + W64(y * FNV_PRIME);
  }

  /** The sequences agree in length and everywhere but at one position. */
  ghost predicate OneValueApart(vs: seq<u32>, ws: seq<u32>) {
    exists k :: ApartAt(vs, ws, k, 1)
  }

  /** They differ only in two neighbouring values that are 16 bits wide on both sides. */
  ghost predicate ResolutionApart(vs: seq<u32>, ws: seq<u32>) {
    exists k :: ApartAt(vs, ws, k, 2) && vs[k] < TWO16 && vs[k + 1] < TWO16 && ws[k] < TWO16 && ws[k + 1] < TWO16
  }

  ghost predicate ApartAt(vs: seq<u32>, ws: seq<u32>, k: int, n: nat) {
    && |vs| == |ws| && 0 <= k <= k + n <= |vs|
    && vs[..k] == ws[..k] && vs[k + n..] == ws[k + n..]
    && vs[k..k + n] != ws[k..k + n]
  }

  ghost predicate Detectable(vs: seq<u32>, ws: seq<u32>) {
    OneValueApart(vs, ws) || ResolutionApart(vs, ws)
  }

  lemma HashSplit(h: u64, vs: seq<u32>, k: nat, n: nat)
    requires k + n <= |vs|
    ensures HashFrom(h, vs) == HashFrom(HashFrom(HashFrom(h, vs[..k]), vs[k..k + n]), vs[k + n..])
  {
    assert vs == vs[..k] + (vs[k..k + n] + vs[k + n..]);
    HashConcat(h, vs[..k], vs[k..k + n] + vs[k + n..]);
    HashConcat(HashFrom(h, vs[..k]), vs[k..k + n], vs[k + n..]);
  }

  /** No collision on one changed value, nor on a changed pair of 16-bit neighbours. */
  lemma DetectableChangesHash(h: u64, vs: seq<u32>, ws: seq<u32>)
    requires Detectable(vs, ws)
    ensures HashFrom(h, vs) != HashFrom(h, ws)
  {
    if OneValueApart(vs, ws) {
      var k :| ApartAt(vs, ws, k, 1);
      ApartOne(h, vs, ws, k);
    } else {
      var k :| ApartAt(vs, ws, k, 2) && vs[k] < TWO16 && vs[k + 1] < TWO16 && ws[k] < TWO16 && ws[k + 1] < TWO16;
      ApartTwo(h, vs, ws, k);
    }
  }

  lemma ApartOne(h: u64, vs: seq<u32>, ws: seq<u32>, k: int)
    requires ApartAt(vs, ws, k, 1)
    ensures HashFrom(h, vs) != HashFrom(h, ws)
  {
    var g := HashFrom(h, vs[..k]);
    HashSplit(h, vs, k, 1);
    HashSplit(h, ws, k, 1);
    HashOne(g, vs, k);
    HashOne(g, ws, k);
    assert vs[k..k + 1] == [vs[k]] && ws[k..k + 1] == [ws[k]];
    if FoldStep(g, vs[k]) == FoldStep(g, ws[k]) {
      StepInjectiveInValue(g, vs[k], ws[k]);
    }
    DifferenceSurvives(FoldStep(g, vs[k]), FoldStep(g, ws[k]), vs[k + 1..]);
  }

  lemma HashOne(g: u64, vs: seq<u32>, k: nat)
    requires k < |vs|
    ensures HashFrom(g, vs[k..k + 1]) == FoldStep(g, vs[k])
  {
    assert vs[k..k + 1][1..] == [];
  }

  lemma ApartTwo(h: u64, vs: seq<u32>, ws: seq<u32>, k: int)
    requires ApartAt(vs, ws, k, 2) && vs[k] < TWO16 && vs[k + 1] < TWO16 && ws[k] < TWO16 && ws[k + 1] < TWO16
    ensures HashFrom(h, vs) != HashFrom(h, ws)
  {
    hide HashFrom, FoldStep;
    var g := HashFrom(h, vs[..k]);
    HashSplit(h, vs, k, 2);
    HashSplit(h, ws, k, 2);
    HashTwo(g, vs, k);
    HashTwo(g, ws, k);
    var x, y := FoldStep(FoldStep(g, vs[k]), vs[k + 1]), FoldStep(FoldStep(g, ws[k]), ws[k + 1]);
    assert vs[k..k + 2] == [vs[k], vs[k + 1]] && ws[k..k + 2] == [ws[k], ws[k + 1]];
    if x == y {
      PairInjective(g, vs[k], vs[k + 1], ws[k], ws[k + 1]);
    }
    DifferenceSurvives(x, y, vs[k + 2..]);
  }

  lemma HashTwo(g: u64, vs: seq<u32>, k: nat)
    requires k + 2 <= |vs|
    ensures HashFrom(g, vs[k..k + 2]) == FoldStep(FoldStep(g, vs[k]), vs[k + 1])
  {
    assert vs[k..k + 2] == [vs[k], vs[k + 1]] + [];
    HashHead(g, vs[k], vs[k + 1], []);
  }

  lemma {:induction false} AllFoldsConcat(a: seq<Connector>, b: seq<Connector>)
    ensures AllFolds(a + b) == AllFolds(a) + AllFolds(b)
  {
    hide Connector.Folds;
    if a == [] {
      assert a + b == b;
    } else {
      assert (a + b)[1..] == a[1..] + b;
      AllFoldsConcat(a[1..], b);
    }
  }

  /** Folding around connector i: what comes before, the connector, what comes after. */
  lemma FoldsAround(t: Topology, i: nat)
    requires i < |t.connectors|
    ensures t.Folds() == ([W32(|t.connectors|), t.crtcs] + AllFolds(t.connectors[..i]))
                         + t.connectors[i].Folds() + AllFolds(t.connectors[i + 1..])
  {
    hide Connector.Folds;
    var cs := t.connectors;
    assert cs == cs[..i] + cs[i..];
    AllFoldsConcat(cs[..i], cs[i..]);
    assert cs[i..][1..] == cs[i + 1..];
  }

  lemma SliceInContext(pre: seq<u32>, vs: seq<u32>, post: seq<u32>, k: int, n: nat)
    requires 0 <= k && k + n <= |vs|
    ensures var a, m := pre + vs + post, |pre| + k;
            a[..m] == pre + vs[..k] && a[m..m + n] == vs[k..k + n] && a[m + n..] == vs[k + n..] + post &&
            a[m..][..n] == vs[k..][..n]
  {
    var a, m := pre + vs + post, |pre| + k;
    forall j | m <= j < m + n ensures a[j] == vs[j - |pre|] {}
    assert a[m..m + n] == vs[k..k + n];
    assert a[m..][..n] == a[m..m + n] && vs[k..][..n] == vs[k..k + n];
  }

  lemma ApartInContext(pre: seq<u32>, vs: seq<u32>, ws: seq<u32>, post: seq<u32>, k: int, n: nat)
    requires ApartAt(vs, ws, k, n)
    ensures ApartAt(pre + vs + post, pre + ws + post, |pre| + k, n)
    ensures (pre + vs + post)[|pre| + k..][..n] == vs[k..][..n] && (pre + ws + post)[|pre| + k..][..n] == ws[k..][..n]
  {
    SliceInContext(pre, vs, post, k, n);
    SliceInContext(pre, ws, post, k, n);
  }

  /** One connector edited detectably, every other one left alone: the hash moves. */
  lemma ConnectorEditDetected(t: Topology, i: nat, c: Connector)
    requires i < |t.connectors| && Detectable(t.connectors[i].Folds(), c.Folds())
    ensures t.(connectors := t.connectors[i := c]).Hash() != t.Hash()
  {
    hide Connector.Folds, AllFolds;
    var u := t.(connectors := t.connectors[i := c]);
    FoldsAround(t, i);
    FoldsAround(u, i);
    var pre := [W32(|t.connectors|), t.crtcs] + AllFolds(t.connectors[..i]);
    var post := AllFolds(t.connectors[i + 1..]);
    assert u.connectors[..i] == t.connectors[..i] && u.connectors[i + 1..] == t.connectors[i + 1..];
    var vs, ws := t.connectors[i].Folds(), c.Folds();
    if OneValueApart(vs, ws) {
      var k :| ApartAt(vs, ws, k, 1);
      ApartInContext(pre, vs, ws, post, k, 1);
    } else {
      var k :| ApartAt(vs, ws, k, 2) && vs[k] < TWO16 && vs[k + 1] < TWO16 && ws[k] < TWO16 && ws[k + 1] < TWO16;
      ApartInContext(pre, vs, ws, post, k, 2);
      var m, a, b := |pre| + k, t.Folds(), u.Folds();
      assert a[m] == a[m..][..2][0] == vs[k] && a[m + 1] == a[m..][..2][1] == vs[k + 1];
      assert b[m] == b[m..][..2][0] == ws[k] && b[m + 1] == b[m..][..2][1] == ws[k + 1];
    }
    DetectableChangesHash(OFFSET_BASIS, t.Folds(), u.Folds());
  }

  /** A monitor plugged in or out of an existing connector moves the hash. */
  lemma PlugDetected(t: Topology, i: nat, state: u32)
    requires i < |t.connectors| && t.connectors[i].Present? && state != t.connectors[i].connection
    ensures t.(connectors := t.connectors[i := t.connectors[i].(connection := state)]).Hash() != t.Hash()
  {
    var c := t.connectors[i];
    var d := c.(connection := state);
    assert ApartAt(c.Folds(), d.Folds(), 1, 1) by {
      assert c.Folds()[1] == c.connection && d.Folds()[1] == state;
      assert c.Folds()[..1] == [c.id] == d.Folds()[..1];
    }
    ConnectorEditDetected(t, i, d);
  }

  /** A modeset to another resolution, at the same refresh figure, moves the hash. */
  lemma ResolutionChangeDetected(t: Topology, i: nat, w: u16, h: u16)
    requires i < |t.connectors| && t.connectors[i].Present?
    requires t.connectors[i].crtc != 0 && t.connectors[i].mode.Active?
    requires (w, h) != (t.connectors[i].mode.hdisplay, t.connectors[i].mode.vdisplay)
    ensures var m := t.connectors[i].mode.(hdisplay := w, vdisplay := h);
            t.(connectors := t.connectors[i := t.connectors[i].(mode := m)]).Hash() != t.Hash()
  {
    var c := t.connectors[i];
    var d := c.(mode := c.mode.(hdisplay := w, vdisplay := h));
    var vs, ws := c.Folds(), d.Folds();
    assert vs[..4] == [c.id, c.connection, c.crtc, c.mode.valid] == ws[..4];
    assert vs[6..] == [c.mode.vrefresh] == ws[6..];
    assert vs[4..6] == [c.mode.hdisplay, c.mode.vdisplay] && ws[4..6] == [w, h];
    assert [c.mode.hdisplay, c.mode.vdisplay][0] == c.mode.hdisplay && [w, h][0] == w;
    assert [c.mode.hdisplay, c.mode.vdisplay][1] == c.mode.vdisplay && [w, h][1] == h;
    assert ApartAt(vs, ws, 4, 2);
    ConnectorEditDetected(t, i, d);
  }

  /** One fold: exclusive-or the value in, then multiply by the 64-bit FNV prime. */
  lemma FnvStep(h: u64, v: u32)
    ensures FoldStep(h, v) == Xor64(h, v) * 1_099_511_628_211 % 0x1_0000_0000_0000_0000
  {}

  /** What a connector adds to the running hash. */
  ghost predicate Adds(h: u64, c: Connector, h': u64) {
    match c
    case Lost(id) => h' == FoldStep(h, id)
    case Present(id, connection, crtc, mode) =>
      var g := FoldStep(FoldStep(FoldStep(h, id), connection), crtc);
      h' == if crtc == 0 || mode.Unreadable? then g
            else FoldStep(FoldStep(FoldStep(FoldStep(g, mode.valid), mode.hdisplay), mode.vdisplay), mode.vrefresh)
  }

  /** The sweep over the connectors, folding as it goes. */
  method TopologyHash(t: Topology) returns (h: u64, ghost trace: seq<u64>)
    ensures h == t.Hash()
    // the counts first, then connector by connector
    ensures |trace| == |t.connectors| + 1 && h == trace[|t.connectors|]
    ensures trace[0] == FoldStep(FoldStep(1_469_598_103_934_665_603, W32(|t.connectors|)), t.crtcs)
    ensures forall i | 0 <= i < |t.connectors| :: Adds(trace[i], t.connectors[i], trace[i + 1])
  {
    hide FoldStep, Adds, Connector.Folds, W32;
    h := FoldStep(OFFSET_BASIS, W32(|t.connectors|));
    h := FoldStep(h, t.crtcs);
    HashHead(OFFSET_BASIS, W32(|t.connectors|), t.crtcs, AllFolds(t.connectors));
    var i := 0;
    trace := [h];
    while i < |t.connectors|
      invariant 0 <= i <= |t.connectors|
      invariant |trace| == i + 1 && trace[i] == h
      invariant trace[0] == FoldStep(FoldStep(1_469_598_103_934_665_603, W32(|t.connectors|)), t.crtcs)
      invariant forall j | 0 <= j < i :: Adds(trace[j], t.connectors[j], trace[j + 1])
      invariant HashFrom(h, AllFolds(t.connectors[i..])) == t.Hash()
    {
      h := FoldConnector(h, t.connectors[i], t.connectors[i + 1..]);
      assert t.connectors[i..][1..] == t.connectors[i + 1..];
      trace := trace + [h];
      i := i + 1;
    }
  }

  lemma HashHead(h: u64, a: u32, b: u32, rest: seq<u32>)
    ensures HashFrom(h, [a, b] + rest) == HashFrom(FoldStep(FoldStep(h, a), b), rest)
  {
    assert ([a, b] + rest)[1..] == [b] + rest;
    assert ([b] + rest)[1..] == rest;
  }

  /** The body of the sweep for one connector. */
  method FoldConnector(h0: u64, c: Connector, ghost rest: seq<Connector>) returns (h: u64)
    ensures h == HashFrom(h0, c.Folds()) && Adds(h0, c, h)
    ensures HashFrom(h, AllFolds(rest)) == HashFrom(h0, c.Folds() + AllFolds(rest))
  {
    match c {
      case Lost(id) =>
        h := FoldStep(h0, id);
        assert [id][1..] == [];
      case Present(id, connection, crtc, mode) =>
        h := FoldStep(h0, id);
        h := FoldStep(h, connection);
        ghost var g := h;
        h := FoldStep(h, crtc);
        HashHead(h0, id, connection, c.Folds()[2..]);
        assert c.Folds() == [id, connection] + c.Folds()[2..];
        assert HashFrom(h0, c.Folds()) == HashFrom(g, c.Folds()[2..]);
        assert c.Folds()[2..][0] == crtc;
        if crtc != 0 && mode.Active? {
          h := FoldStep(h, mode.valid);
          h := FoldStep(h, mode.hdisplay);
          h := FoldStep(h, mode.vdisplay);
          h := FoldStep(h, mode.vrefresh);
          FourMore(g, crtc, mode);
          assert c.Folds()[2..] == [crtc, mode.valid] + [mode.hdisplay, mode.vdisplay, mode.vrefresh];
        } else {
          assert c.Folds()[2..] == [crtc] && [crtc][1..] == [];
        }
    }
    HashConcat(h0, c.Folds(), AllFolds(rest));
  }

  lemma FourMore(g: u64, crtc: u32, m: ActiveMode)
    requires m.Active?
    ensures HashFrom(g, [crtc, m.valid] + [m.hdisplay, m.vdisplay, m.vrefresh])
         == FoldStep(FoldStep(FoldStep(FoldStep(FoldStep(g, crtc), m.valid), m.hdisplay), m.vdisplay), m.vrefresh)
  {
    HashHead(g, crtc, m.valid, [m.hdisplay, m.vdisplay, m.vrefresh]);
    var h := FoldStep(FoldStep(g, crtc), m.valid);
    assert [m.hdisplay, m.vdisplay, m.vrefresh] == [m.hdisplay, m.vdisplay] + [m.vrefresh];
    HashHead(h, m.hdisplay, m.vdisplay, [m.vrefresh]);
    assert [m.vrefresh][1..] == [];
  }

  datatype Poll = NoDevice | Unchanged | Changed

  /** The context's hotplug signature. */
  class HotplugWatch {
    var cached: u64

    constructor (seen: Topology)
      ensures cached == seen.Hash()
    {
      cached := seen.Hash();
    }

    /** A poll; `now` is absent when the device or its resources cannot be read. */
    method DisplaysChanged(now: Option<Topology>) returns (p: Poll)
      modifies this
      ensures now.None? ==> p == NoDevice && cached == old(cached)
      ensures now.Some? ==> cached == now.value.Hash() && p != NoDevice
      ensures now.Some? ==> (p == Changed <==> now.value.Hash() != old(cached))
      ensures now.Some? ==> forall seen: Topology | old(cached) == seen.Hash() ::
                (seen == now.value ==> p == Unchanged) &&
                (Detectable(seen.Folds(), now.value.Folds()) ==> p == Changed)
    {
      if now.None? {
        return NoDevice;
      }
      ghost var trace;
      var h;
      h, trace := TopologyHash(now.value);
      p := if h != cached then Changed else Unchanged;
      cached := h;
      forall seen: Topology | Detectable(seen.Folds(), now.value.Folds())
        ensures seen.Hash() != now.value.Hash()
      {
        DetectableChangesHash(OFFSET_BASIS, seen.Folds(), now.value.Folds());
      }
    }
  }
}
