/** Scaling 64-bit times without a 128-bit product (ducknet/lib/utils.cpp). */
module TimeArith {
  import opened Words

  /** mul_div: every operation in 64 bits. */
  function MulDiv(a: u64, b: u64, d: u64): u64
    requires d > 0
  {
    var (x, y, u, v) := (a / d, a % d, b / d, b % d);
    Wrap64(Wrap64(Wrap64(Wrap64(Wrap64(x * u) * d) + Wrap64(x * v)) + Wrap64(y * u)) + Wrap64(y * v) / d)
  }

  // ----- residues

  lemma Residue(x: int, q: int)
    ensures Wrap64(x + q * TWO64) == Wrap64(x)
  {
    var (d, e) := (x / TWO64, (x + q * TWO64) / TWO64);
    assert Wrap64(x + q * TWO64) - Wrap64(x) == (d + q - e) * TWO64;
  }

  lemma WrapAdd(x: int, y: int)
    ensures Wrap64(Wrap64(x) + y) == Wrap64(x + y)
  {
    Residue(Wrap64(x) + y, x / TWO64);
  }

  lemma WrapMul(x: int, y: int)
    ensures Wrap64(Wrap64(x) * y) == Wrap64(x * y)
  {
    var q := x / TWO64;
    assert x * y == Wrap64(x) * y + (q * y) * TWO64 by {
      assert x == Wrap64(x) + q * TWO64;
      assert (q * TWO64) * y == (q * y) * TWO64;
    }
    Residue(Wrap64(x) * y, q * y);
  }

  /** A sum of wrapped parts is the wrapped sum. */
  lemma MulDivSum(x: nat, u: nat, d: nat, v: nat, y: nat, w: nat)
    ensures Wrap64(Wrap64(Wrap64(Wrap64(Wrap64(x * u) * d) + Wrap64(x * v)) + Wrap64(y * u)) + w)
         == Wrap64(x * u * d + x * v + y * u + w)
  {
    hide Wrap64;
    WrapMul(x * u, d);
    var (p, q, r) := (x * u * d, x * v, y * u);
    WrapAdd(p, Wrap64(q));
    WrapAdd(q, p);
    WrapAdd(p + q, Wrap64(r));
    WrapAdd(r, p + q);
    WrapAdd(p + q + r, w);
  }

  /** Multiplication by name, so that the polynomial identities below are proved from its laws alone. */
  function Mul(a: int, b: int): (r: int)
    ensures a >= 0 && b >= 0 ==> r >= 0
  {
    a * b
  }

  lemma MulAdd(a: int, b: int, c: int)
    ensures Mul(a + b, c) == Mul(a, c) + Mul(b, c) && Mul(c, a + b) == Mul(c, a) + Mul(c, b)
  {
  }

  lemma MulSwap(a: int, b: int, c: int)
    ensures Mul(Mul(a, c), b) == Mul(Mul(a, b), c) && Mul(a, Mul(b, c)) == Mul(Mul(a, b), c)
  {
  }

  lemma ProductOfSums(x: nat, y: nat, u: nat, v: nat, d: nat)
    ensures Mul(Mul(x, d) + y, Mul(u, d) + v)
         == Mul(Mul(Mul(x, u), d) + Mul(x, v) + Mul(y, u), d) + Mul(y, v)
  {
    hide Mul;
    MulAdd(Mul(x, d), y, Mul(u, d) + v);
    MulAdd(Mul(u, d), v, Mul(x, d));
    MulAdd(Mul(u, d), v, y);
    MulSwap(Mul(x, d), u, d);
    MulSwap(x, u, d);
    MulSwap(x, v, d);
    MulSwap(y, u, d);
    MulAdd(Mul(Mul(x, u), d) + Mul(x, v), Mul(y, u), d);
    MulAdd(Mul(Mul(x, u), d), Mul(x, v), d);
  }

  /** Quotient and remainder by name. */
  function Div(n: nat, d: nat): nat
    requires d > 0
  {
    n / d
  }

  function Rem(n: nat, d: nat): (r: nat)
    requires d > 0
    ensures r < d
  {
    n % d
  }

  /** What mul_div adds up before its last term. */
  function Front(x: nat, y: nat, u: nat, v: nat, d: nat): nat {
    Mul(Mul(x, u), d) + Mul(x, v) + Mul(y, u)
  }

  lemma SplitParts(x: nat, y: nat, u: nat, v: nat, d: nat)
    requires d > 0
    ensures Div(Mul(Mul(x, d) + y, Mul(u, d) + v), d) == Front(x, y, u, v, d) + Div(Mul(y, v), d)
  {
    hide Mul, Div;
    ProductOfSums(x, y, u, v, d);
    QuotientOfSum(Front(x, y, u, v, d), Mul(y, v), d);
  }

  lemma DivRem(n: nat, d: nat)
    requires d > 0
    ensures n == Mul(Div(n, d), d) + Rem(n, d)
  {
  }

  /** Splitting both factors by the divisor. */
  lemma SplitProduct(a: nat, b: nat, d: nat)
    requires d > 0
    ensures Div(Mul(a, b), d)
         == Front(Div(a, d), Rem(a, d), Div(b, d), Rem(b, d), d) + Div(Mul(Rem(a, d), Rem(b, d)), d)
  {
    hide Mul, Div, Rem, Front;
    DivRem(a, d);
    DivRem(b, d);
    SplitParts(Div(a, d), Rem(a, d), Div(b, d), Rem(b, d), d);
  }

  lemma MulDivFront(a: u64, b: u64, d: u64)
    requires d > 0
    ensures MulDiv(a, b, d)
         == Wrap64(Front(Div(a, d), Rem(a, d), Div(b, d), Rem(b, d), d) + Wrap64(Mul(Rem(a, d), Rem(b, d))) / d)
  {
    MulDivSum(a / d, b / d, d, b % d, a % d, Wrap64(a % d * (b % d)) / d);
  }

  lemma QuotientOfSum(k: nat, p: nat, d: nat)
    requires d > 0
    ensures Div(Mul(k, d) + p, d) == k + Div(p, d)
  {
    var (q, r) := (p / d, p % d);
    assert (k + q) * d == k * d + q * d;
    QuotientIs(k * d + p, k + q, r, d);
  }

  lemma MulMonotone(a: int, b: int, c: nat)
    requires a <= b
    ensures Mul(a, c) <= Mul(b, c) && Mul(c, a) <= Mul(c, b)
  {
  }

  lemma ProductBound(y: nat, v: nat, m: nat)
    requires y <= m && v <= m
    ensures 0 <= Mul(y, v) <= Mul(m, m)
  {
    hide Mul;
    MulMonotone(0, y, v);
    MulMonotone(y, m, v);
    MulMonotone(v, m, m);
    MulAdd(0, 0, v);
  }

  lemma SmallQuotient(y: nat, v: nat, d: nat)
    requires y < d && v < d
    ensures 0 <= Mul(y, v) && Div(Mul(y, v), d) < d
  {
    hide Mul, Div, Rem;
    ProductBound(y, v, d - 1);
    DivRem(Mul(y, v), d);
    MulMonotone(d, Max(d, Div(Mul(y, v), d)), d);
    MulAdd(d - 1, 1, d - 1);
    MulAdd(d - 1, 1, d);
    MulOne(d);
    MulOne(d - 1);
  }

  lemma MulOne(d: int)
    ensures Mul(1, d) == d && Mul(d, 1) == d
  {
  }

  /** Two sums with the same front part, the back parts less than 2^64. */
  lemma SameFront(k: int, p: nat, q: nat)
    requires p <= q < TWO64
    ensures Wrap64(k + p) == Wrap64(k + q) <==> p == q
  {
    if p < q {
      WrapDiffers(k + p, k + q);
    }
  }

  lemma NamedExact(a: u64, b: u64, d: u64)
    requires d > 0
    ensures MulDiv(a, b, d) == Wrap64(Div(Mul(a, b), d)) <==> Mul(Rem(a, d), Rem(b, d)) < TWO64
  {
    hide MulDiv, Mul, Div, Rem, Front, Wrap64;
    var front := Front(Div(a, d), Rem(a, d), Div(b, d), Rem(b, d), d);
    var p := Mul(Rem(a, d), Rem(b, d));
    MulDivFront(a, b, d);
    SplitProduct(a, b, d);
    RemainderProduct(a, b, d);
    WrappedQuotient(p, d);
    SameFront(front, Wrap64(p) / d, Div(p, d));
  }

  lemma RemainderProduct(a: nat, b: nat, d: u64)
    requires d > 0
    ensures 0 <= Mul(Rem(a, d), Rem(b, d)) && Div(Mul(Rem(a, d), Rem(b, d)), d) < d
  {
    SmallQuotient(Rem(a, d), Rem(b, d), d);
  }

  /** mul_div is floor(a * b / d) modulo 2^64 exactly when the product of the two remainders fits 64 bits. */
  lemma MulDivExact(a: u64, b: u64, d: u64)
    requires d > 0
    ensures MulDiv(a, b, d) == Wrap64(a * b / d) <==> (a % d) * (b % d) < TWO64
  {
    hide MulDiv, Wrap64;
    NamedExact(a, b, d);
  }

  lemma DivMonotone(m: nat, n: nat, d: nat)
    requires d > 0 && m <= n
    ensures Div(m, d) <= Div(n, d)
  {
    hide Div, Rem, Mul;
    DivRem(m, d);
    DivRem(n, d);
    var (q, k) := (Div(m, d), Div(n, d));
    MulAdd(k, 1, d);
    MulOne(d);
    MulMonotone(k + 1, Max(q, k + 1), d);
  }

  /** Losing a multiple of 2^64 before the division shows in the quotient. */
  lemma LostProduct(p: nat, d: u64)
    requires d > 0 && p >= TWO64
    ensures Div(Wrap64(p), d) < Div(p, d)
  {
    hide Div, Mul;
    QuotientOfSum(1, Wrap64(p), d);
    MulOne(d);
    DivMonotone(Wrap64(p) + d, p, d);
  }

  lemma WrappedQuotient(p: nat, d: u64)
    requires d > 0
    ensures Wrap64(p) / d <= Div(p, d)
    ensures Wrap64(p) / d == Div(p, d) <==> p < TWO64
  {
    if p >= TWO64 {
      LostProduct(p, d);
    }
  }

  lemma WrapDiffers(p: int, q: int)
    requires p < q < p + TWO64
    ensures Wrap64(p) != Wrap64(q)
  {
  }

  lemma SmallProduct(y: nat, v: nat)
    requires y < TWO32 && v < TWO32
    ensures Mul(y, v) < TWO64
  {
    ProductBound(y, v, TWO32 - 1);
  }

  /** For every divisor up to 2^32 it is exact. */
  lemma MulDivSmall(a: u64, b: u64, d: u64)
    requires 0 < d <= TWO32
    ensures MulDiv(a, b, d) == Wrap64(Div(Mul(a, b), d))
  {
    hide MulDiv, Mul, Div, Rem, Wrap64;
    SmallProduct(Rem(a, d), Rem(b, d));
    NamedExact(a, b, d);
  }

  // ----- conversions between ticks and a unit of 1 / perSecond seconds

  /** What ducknet_time_add_ns, _us and _ms add, for perSecond 10^9, 10^6 and 10^3. */
  function ToTicks(tscFreq: u64, perSecond: u64, x: u64): u64
    requires perSecond > 0
  {
    MulDiv(x, tscFreq, perSecond)
  }

  /** ducknet_time_to_ns, _us and _ms */
  function FromTicks(tscFreq: u64, perSecond: u64, t: u64): u64
    requires tscFreq > 0
  {
    MulDiv(t, perSecond, tscFreq)
  }

  /** Into ticks the conversions are exact, for every clock and every time. */
  lemma ToTicksExact(tscFreq: u64, perSecond: u64, x: u64)
    requires 0 < perSecond <= TWO32
    ensures ToTicks(tscFreq, perSecond, x) == Wrap64(x * tscFreq / perSecond)
  {
    hide MulDiv, Wrap64;
    MulDivSmall(x, tscFreq, perSecond);
  }

  /** The conversion back from ticks is the true quotient, modulo 2^64. */
  predicate ReadAt(tscFreq: u64, perSecond: u64, t: u64)
    requires tscFreq > 0
  {
    FromTicks(tscFreq, perSecond, t) == Wrap64(t * perSecond / tscFreq)
  }

  /** At time t it is exact if and only if the product of the two remainders fits 64 bits. */
  lemma FromTicksExact(tscFreq: u64, perSecond: u64, t: u64)
    requires tscFreq > 0
    ensures ReadAt(tscFreq, perSecond, t) <==> (t % tscFreq) * (perSecond % tscFreq) < TWO64
  {
    hide MulDiv, Wrap64;
    MulDivExact(t, perSecond, tscFreq);
  }

  /**
   At all times it is exact if and only if the product of the largest remainders fits; in particular for every clock
   whose rate times the units of a second fits 64 bits, up to 18 GHz for nanoseconds.
   */
  lemma ClockExact(tscFreq: u64, perSecond: u64)
    requires tscFreq > 0
    ensures (forall t: u64 :: ReadAt(tscFreq, perSecond, t)) <==> (tscFreq - 1) * (perSecond % tscFreq) < TWO64
    ensures perSecond * tscFreq <= TWO64 ==> (tscFreq - 1) * (perSecond % tscFreq) < TWO64
  {
    hide ReadAt;
    LastRemainder(tscFreq, perSecond);
    forall t: u64 | (tscFreq - 1) * (perSecond % tscFreq) < TWO64
      ensures ReadAt(tscFreq, perSecond, t)
    {
      FromTicksExact(tscFreq, perSecond, t);
      SmallerRemainder(t % tscFreq, tscFreq - 1, perSecond % tscFreq);
    }
    if perSecond * tscFreq <= TWO64 {
      RemaindersFit(tscFreq, perSecond);
    }
  }

  lemma LastRemainder(tscFreq: u64, perSecond: u64)
    requires tscFreq > 0
    ensures ReadAt(tscFreq, perSecond, tscFreq - 1) <==> (tscFreq - 1) * (perSecond % tscFreq) < TWO64
  {
    hide ReadAt;
    FromTicksExact(tscFreq, perSecond, tscFreq - 1);
    QuotientIs(tscFreq - 1, 0, tscFreq - 1, tscFreq);
  }

  lemma SmallerRemainder(y: nat, m: nat, v: nat)
    requires y <= m
    ensures y * v <= m * v
  {
  }

  lemma RemaindersFit(f: nat, q: nat)
    requires f > 0 && q * f <= TWO64
    ensures (f - 1) * (q % f) < TWO64
  {
    if q > 0 {
      RemAtMost(q, f);
      SmallerRemainder(q % f, q, f - 1);
      assert (f - 1) * q < f * q;
    }
  }

  /** Beyond that it can go wrong: on a clock of 2^40 + 1 Hz, the last tick before a second reads as 10144255 ns. */
  lemma FromTicksInexact()
    ensures var (f, q, t) := (0x100_0000_0001, 1_000_000_000, 0x100_0000_0000);
      FromTicks(f, q, t) == 10144255 && t * q / f == 999_999_999
  {
  }

  /** Down to whole ticks and down to whole units, the rounding made explicit. */
  lemma FloorTwice(x: nat, f: nat, q: nat, t: nat, r: nat, back: nat, s: nat)
    requires f > 0 && q > 0 && x * f == t * q + r && r < q && t * q == back * f + s && s < f
    ensures back <= x && (x - back - 1) * f < q
    ensures back == x <==> r == 0
  {
    GapLoss(x - back, f, r + s);
    assert (x - back) * f == r + s by { assert x * f - back * f == (x - back) * f; }
  }

  /** A gap of g units that accounts for a loss of fewer than f + q ticks. */
  lemma GapLoss(g: int, f: nat, loss: nat)
    requires f > 0
    ensures g * f == loss ==> 0 <= g && (g - 1) * f == loss - f && (g == 0 || loss >= f)
    ensures g * f == loss && g == 0 ==> loss == 0
  {
    assert g < 0 ==> g * f < 0;
    assert g > 0 ==> g * f >= f;
  }

  /** What a time of x units becomes on the way to ticks and back. */
  function ThereAndBack(tscFreq: nat, perSecond: nat, x: nat): nat
    requires tscFreq > 0 && perSecond > 0
  {
    Div(Mul(Div(Mul(x, tscFreq), perSecond), perSecond), tscFreq)
  }

  lemma ThereAndBackBounds(f: nat, q: nat, x: nat)
    requires f > 0 && q > 0
    ensures var back := ThereAndBack(f, q, x);
      && back <= x && Mul(x - back - 1, f) < q && (back == x <==> Rem(Mul(x, f), q) == 0)
  {
    hide Div, Rem;
    var n := Mul(x, f);
    var t := Div(n, q);
    var m := Mul(t, q);
    DivRem(n, q);
    DivRem(m, f);
    FloorTwice(x, f, q, t, Rem(n, q), Div(m, f), Rem(m, f));
  }

  lemma RemAtMost(n: nat, d: nat)
    requires d > 0
    ensures Rem(n, d) <= n
  {
    hide Mul, Div, Rem;
    DivRem(n, d);
  }

  /** With a product of divisor and other factor that fits 64 bits, mul_div is exact. */
  lemma MulDivFits(a: u64, b: u64, d: u64)
    requires d > 0 && b > 0 && Mul(d, b) <= TWO64
    ensures MulDiv(a, b, d) == Wrap64(Div(Mul(a, b), d))
  {
    hide MulDiv, Mul, Div, Rem, Wrap64;
    RemAtMost(b, d);
    MulMonotone(Rem(a, d), d - 1, Rem(b, d));
    MulMonotone(Rem(b, d), b, d - 1);
    MulAdd(d - 1, 1, b);
    MulOne(b);
    NamedExact(a, b, d);
  }

  lemma MulSymmetric(a: int, b: int)
    ensures Mul(a, b) == Mul(b, a)
  {
  }

  lemma NamedRoundTrip(tscFreq: u64, perSecond: u64, x: u64)
    requires tscFreq > 0 && perSecond > 0 && Mul(perSecond, tscFreq) <= TWO64
    requires Div(Mul(x, tscFreq), perSecond) < TWO64
    ensures FromTicks(tscFreq, perSecond, ToTicks(tscFreq, perSecond, x)) == ThereAndBack(tscFreq, perSecond, x)
  {
    hide MulDiv, Wrap64, Mul, Div;
    MulDivFits(x, tscFreq, perSecond);
    WrapSmall(Div(Mul(x, tscFreq), perSecond));
    MulSymmetric(perSecond, tscFreq);
    MulDivFits(Div(Mul(x, tscFreq), perSecond), perSecond, tscFreq);
    ThereAndBackAtMost(tscFreq, perSecond, x);
    WrapSmall(ThereAndBack(tscFreq, perSecond, x));
  }

  lemma ThereAndBackAtMost(f: nat, q: nat, x: nat)
    requires f > 0 && q > 0
    ensures ThereAndBack(f, q, x) <= x
  {
    ThereAndBackBounds(f, q, x);
  }

  /**
   To ticks and back loses less than one unit beyond the resolution of the clock, and nothing exactly when
   the ticks come out even. With at least perSecond ticks a second the loss is at most one unit. For nanoseconds
   this covers every clock up to 18 GHz.
   */
  lemma TimeRoundTrip(tscFreq: u64, perSecond: u64, x: u64)
    requires tscFreq > 0 && perSecond > 0 && perSecond * tscFreq <= TWO64 && x * tscFreq / perSecond < TWO64
    ensures var back := FromTicks(tscFreq, perSecond, ToTicks(tscFreq, perSecond, x));
      && back <= x && (x - back - 1) * tscFreq < perSecond
      && (back == x <==> x * tscFreq % perSecond == 0)
      && (perSecond <= tscFreq ==> x - 1 <= back)
  {
    hide MulDiv, Wrap64, ThereAndBack, ToTicks, FromTicks;
    NamedRoundTrip(tscFreq, perSecond, x);
    ThereAndBackBounds(tscFreq, perSecond, x);
    var back := ThereAndBack(tscFreq, perSecond, x);
    if perSecond <= tscFreq {
      OneUnit(x - back - 1, tscFreq, perSecond);
    }
  }

  lemma WrapSmall(x: nat)
    requires x < TWO64
    ensures Wrap64(x) == x
  {
  }

  lemma OneUnit(k: int, f: nat, q: nat)
    requires k * f < q && q <= f
    ensures k < 1
  {
    assert k >= 1 ==> k * f >= f;
  }
}
