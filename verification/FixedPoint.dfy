/** Scaling of a tick count by a Q32.32 factor with 64-bit arithmetic only. */
module FixedPoint {
  import opened MachineIntegers

  const NANOSECONDS_IN_SECOND: nat := 1_000_000_000
  const TICKS_PER_RELOAD: nat := 65535
  const CLOCK_SELECTION_PRESCALER: nat := 8

  /** The wide-multiply reference: the exact product, shifted right by 32, truncated to 64 bits. */
  function Reference(total: nat, q: nat): Uint64 {
    total * q / TWO_32 % TWO_64
  }

  function TotalTicks(reloads: nat, ticks: nat): nat {
    reloads * TICKS_PER_RELOAD + ticks
  }

  /** uint64_t multiplication and addition. */
  function Times64(a: nat, b: nat): Uint64 {
    a * b % TWO_64
  }

  function Plus64(a: nat, b: nat): Uint64 {
    (a + b) % TWO_64
  }

  /** The scaling as the code does it, on uint64_t throughout. */
  method Scale(reloads: Uint32, ticks: Uint32, q: Uint64, qHigh: Uint64, qLow: Uint64) returns (ns: Uint64)
    requires qHigh == q / TWO_32 && qLow == q % TWO_32
    ensures ns == Reference(TotalTicks(reloads, ticks), q)
    ensures ns == (reloads * 65535 + ticks) * q / 0x1_0000_0000 % 0x1_0000_0000_0000_0000
  {
    var totalTicks := Plus64(Times64(reloads, TICKS_PER_RELOAD), ticks);
    var ticksHigh := totalTicks / TWO_32;
    var ticksLow := totalTicks % TWO_32;
    var nsHigh := Times64(ticksHigh, q);
    var nsLow := Plus64(Times64(ticksLow, qHigh), Times64(ticksLow, qLow) / TWO_32);
    ns := Plus64(nsHigh, nsLow);
    TotalExact(reloads, ticks);
    HalvesAssemble(totalTicks, q);
  }

  lemma TotalExact(reloads: Uint32, ticks: Uint32)
    ensures Plus64(Times64(reloads, TICKS_PER_RELOAD), ticks) == TotalTicks(reloads, ticks)
  {
  }

  lemma HalvesAssemble(total: nat, q: nat)
    requires q < TWO_64
    ensures var high, low := total / TWO_32, total % TWO_32;
            Plus64(Times64(high, q),
                   Plus64(Times64(low, q / TWO_32), Times64(low, q % TWO_32) / TWO_32)) == Reference(total, q)
  {
    var high, low, qHigh, qLow := total / TWO_32, total % TWO_32, q / TWO_32, q % TWO_32;
    LowHalfFits(low, qHigh, qLow);
    SplitProduct(total, q);
    Assemble(high * q, low * qHigh, low * qLow);
  }

  lemma Assemble(a: nat, b: nat, c: nat)
    requires b < TWO_64 && c < TWO_64 && b + c / TWO_32 < TWO_64
    ensures Plus64(a % TWO_64, Plus64(b % TWO_64, c % TWO_64 / TWO_32)) == (a + (b + c / TWO_32)) % TWO_64
  {
    assert b % TWO_64 == b && c % TWO_64 == c;
    WrapSum(a, b + c / TWO_32);
  }

  /** Total ticks fit in 48 bits for any two 32-bit inputs. */
  lemma TotalBelow(reloads: Uint32, ticks: Uint32)
    ensures TotalTicks(reloads, ticks) < TWO_48
  {
  }

  /** None of the three operations on the low half of the ticks leaves 64 bits. */
  lemma LowHalfFits(low: nat, qHigh: nat, qLow: nat)
    requires low < TWO_32 && qHigh < TWO_32 && qLow < TWO_32
    ensures low * qHigh < TWO_64 && low * qLow < TWO_64
    ensures low * qHigh + low * qLow / TWO_32 < TWO_64
  {
    Product(low, qHigh);
    Product(low, qLow);
  }

  lemma Product(a: nat, b: nat)
    requires a < TWO_32 && b < TWO_32
    ensures 0 <= a * b <= (TWO_32 - 1) * (TWO_32 - 1)
  {
    MulMonotone(a, b, TWO_32 - 1);
    MulMonotone(TWO_32 - 1, a, TWO_32 - 1);
  }

  /** The exact product assembled from the halves. */
  lemma SplitProduct(total: nat, q: nat)
    ensures var high, low := total / TWO_32, total % TWO_32;
            total * q / TWO_32 == high * q + (low * (q / TWO_32) + low * (q % TWO_32) / TWO_32)
  {
  }

  /** With a factor of at most 65536 ns per tick the truncation to 64 bits never acts. */
  lemma NoWrap(total: nat, q: nat)
    requires total < TWO_48 && q <= TWO_48
    ensures Reference(total, q) == total * q / TWO_32
  {
    ProductBelow(total, q);
    ShiftedBelow(total * q);
    Untruncated(total * q / TWO_32);
  }

  lemma ProductBelow(total: nat, q: nat)
    requires total < TWO_48 && q <= TWO_48
    ensures 0 <= total * q < TWO_64 * TWO_32
  {
    MulMonotone(total, q, TWO_48);
  }

  lemma ShiftedBelow(n: nat)
    requires n < TWO_64 * TWO_32
    ensures n / TWO_32 < TWO_64
  {
    DivideBounds(n, TWO_32);
  }

  lemma Untruncated(n: nat)
    requires n < TWO_64
    ensures n % TWO_64 == n
  {
  }

  lemma Monotone(total: nat, total': nat, q: nat)
    requires total <= total' < TWO_48 && q <= TWO_48
    ensures Reference(total, q) <= Reference(total', q)
  {
    NoWrap(total, q);
    NoWrap(total', q);
    assert total * q <= total' * q;
  }

  // ----- The factor set up by initialization -----

  /** ns per tick in Q32.32 for a prescaled timer frequency. */
  function Factor(frequency: nat): nat
    requires frequency > 0
  {
    NANOSECONDS_IN_SECOND * TWO_32 / frequency
  }

  /** The factor stays within 65536 ns per tick exactly from 15259 Hz on. */
  lemma FactorFits(frequency: nat)
    requires frequency > 0
    ensures Factor(frequency) <= TWO_48 <==> frequency >= 15259
  {
  }

  /** The reported time never exceeds total * 10^9 / f and lags it by less than 1 + total / 2^32 ns. */
  lemma Accuracy(frequency: nat, total: nat)
    requires frequency >= 15259 && total < TWO_48
    ensures var ns := Reference(total, Factor(frequency));
            && ns * frequency <= total * NANOSECONDS_IN_SECOND
            && (total * NANOSECONDS_IN_SECOND - ns * frequency) * TWO_32 < frequency * (TWO_32 + total)
  {
    var q := Factor(frequency);
    FactorFits(frequency);
    NoWrap(total, q);
    DivideBounds(NANOSECONDS_IN_SECOND * TWO_32, frequency);
    DivideBounds(total * q, TWO_32);
    AccuracyFromBounds(frequency, total, q, total * q / TWO_32);
  }

  lemma AccuracyFromBounds(f: nat, total: nat, q: nat, r: nat)
    requires f > 0 && q * f <= NANOSECONDS_IN_SECOND * TWO_32 < (q + 1) * f
    requires r * TWO_32 <= total * q < (r + 1) * TWO_32
    ensures r * f <= total * NANOSECONDS_IN_SECOND
    ensures (total * NANOSECONDS_IN_SECOND - r * f) * TWO_32 < f * (TWO_32 + total)
  {
    var n := NANOSECONDS_IN_SECOND;
    ProductsBound(f, total, q, r * TWO_32, n * TWO_32);
    Regroup(f, r, TWO_32);
    Regroup(total, n, TWO_32);
  }

  lemma Regroup(a: nat, b: nat, c: nat)
    ensures a * (b * c) == b * a * c == a * b * c
  {
  }

  lemma ProductsBound(f: nat, total: nat, q: nat, a: nat, n: nat)
    requires q * f <= n < (q + 1) * f
    requires a <= total * q < a + TWO_32 && f > 0
    ensures f * a <= total * n <= f * a + f * (TWO_32 + total) - f
  {
    MulMonotone(f, a, total * q);
    MulMonotone(f, total * q, a + TWO_32 - 1);
    MulMonotone(total, q * f, n);
    MulMonotone(total, n, (q + 1) * f);
    SpreadTotal(f, total, q);
    SpreadShift(f, a, total);
  }

  lemma SpreadTotal(f: nat, total: nat, q: nat)
    ensures total * ((q + 1) * f) == total * (q * f) + f * total
    ensures total * (q * f) == f * (total * q)
  {
    Regroup(total, q, f);
    Regroup(f, total, q);
  }

  lemma SpreadShift(f: nat, a: nat, total: nat)
    ensures f * (a + TWO_32 - 1) + f * total == f * a + f * (TWO_32 + total) - f
  {
  }

  /** The lag in nanoseconds, and its bound over the whole range. */
  lemma Lag(frequency: nat, total: nat)
    requires frequency >= 15259 && total < TWO_48
    ensures var exact := (total * NANOSECONDS_IN_SECOND) as real / frequency as real;
            var ns := Reference(total, Factor(frequency)) as real;
            && ns <= exact
            && exact - ns < 1.0 + total as real / TWO_32 as real < 65537.0
  {
    Accuracy(frequency, total);
    var ns, n := Reference(total, Factor(frequency)), total * NANOSECONDS_IN_SECOND;
    RealBound(n, ns, frequency, total);
  }

  lemma RealBound(n: nat, ns: nat, f: nat, total: nat)
    requires f > 0 && ns * f <= n && (n - ns * f) * TWO_32 < f * (TWO_32 + total) && total < TWO_48
    ensures ns as real <= n as real / f as real
    ensures n as real / f as real - ns as real < 1.0 + total as real / TWO_32 as real < 65537.0
  {
    NotAbove(n, ns, f);
    LagBound(n, ns, f, total);
  }

  lemma NotAbove(n: nat, ns: nat, f: nat)
    requires f > 0 && ns * f <= n
    ensures ns as real <= n as real / f as real
  {
  }

  lemma LagBound(n: nat, ns: nat, f: nat, total: nat)
    requires f > 0 && ns * f <= n && (n - ns * f) * TWO_32 < f * (TWO_32 + total)
    ensures n as real / f as real - ns as real < 1.0 + total as real / TWO_32 as real
  {
    var x, y, fr, t := n as real, ns as real, f as real, TWO_32 as real;
    var e := x / fr;
    assert e * fr == x;
    var w := 1.0 + total as real / t;
    assert w * t == t + total as real;
    RealProduct(ns, f);
    RealProduct(n - ns * f, TWO_32);
    RealProduct(f, TWO_32 + total);
    if e - y >= w {
      RealProducts(e - y, w, fr * t);
      assert false;
    }
  }

  lemma RealProducts(a: real, b: real, c: real)
    requires a >= b && c >= 0.0
    ensures a * c >= b * c
  {
  }
}
