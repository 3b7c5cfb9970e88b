/** The order of x modulo the generator, and the two-bit errors the checksum detects.
  *
  * Two flipped bits at distance d pass exactly when x^d is 1, that is, when d is a multiple of 32767.
  */
module CrcOrder {
  import opened MachineIntegers
  import opened Gf2
  import opened BitString
  import opened Crc
  import opened CrcDetection
  import opened CrcPowers

  const ORDER: nat := 32767

  /** x^n is 1 modulo the generator. */
  ghost predicate IsOne(n: nat) {
    Congruent(Shift(1, n), 1)
  }

  lemma CongruentSymmetric(a: nat, b: nat)
    requires Congruent(a, b)
    ensures Congruent(b, a)
  {
    AddComm(a, b);
  }

  // ----- The exponents with x^n = 1 -----

  lemma OneAdd(m: nat, n: nat)
    requires IsOne(m)
    ensures IsOne(m + n) <==> IsOne(n)
  {
    var s, t := Shift(1, m + n), Shift(1, n);
    ShiftShift(1, m, n);
    CongruentShift(Shift(1, m), 1, n);
    if IsOne(n) { CongruentTransitive(s, t, 1); }
    if IsOne(m + n) {
      CongruentSymmetric(s, t);
      CongruentTransitive(t, s, 1);
    }
  }

  lemma ZeroIsOne()
    ensures IsOne(0)
  {
    CongruentReflexive(1);
  }

  lemma Distribute(c: nat, m: nat, n: nat)
    ensures c * (m + n) == c * m + c * n
  {
  }

  lemma {:induction false} OneMultiple(m: nat, k: nat) returns (n: nat)
    requires IsOne(m)
    ensures n == m * k && IsOne(n)
    decreases k
  {
    if k == 0 {
      ZeroIsOne();
      return 0;
    }
    n := OneMultiple(m, k - 1);
    OneAdd(m, n);
    NextMultiple(m, k - 1);
    n := m + n;
  }

  lemma NextMultiple(m: nat, k: nat)
    ensures m * (k + 1) == m + m * k
  {
  }

  /** x^(c n) is 1. */
  ghost predicate Y(c: nat, n: nat) {
    IsOne(c * n)
  }

  lemma YSubtract(c: nat, m: nat, n: nat)
    requires Y(c, m) && Y(c, n) && m <= n
    ensures Y(c, n - m)
  {
    var a, b := c * m, c * (n - m);
    Distribute(c, m, n - m);
    OneAdd(a, b);
  }

  /** The least positive exponent of the kind. */
  lemma {:induction false} Least(c: nat, d: nat) returns (m: nat)
    requires d > 0 && Y(c, d)
    ensures m > 0 && Y(c, m) && forall e :: 0 < e < m ==> !Y(c, e)
    decreases d
  {
    if e :| 0 < e < d && Y(c, e) { m := Least(c, e); } else { m := d; }
  }

  lemma {:induction false} LeastDivides(c: nat, m: nat, n: nat) returns (k: nat)
    requires m > 0 && Y(c, m) && Y(c, n) && forall e :: 0 < e < m ==> !Y(c, e)
    ensures n == m * k
    decreases n
  {
    if n < m {
      k := 0;
    } else {
      YSubtract(c, m, n);
      k := LeastDivides(c, m, n - m);
      Distribute(m, k, 1);
      k := k + 1;
    }
  }

  lemma SmallFactor(p: nat, a: nat, b: nat)
    requires p in {7, 31, 151} && a * b == p && 0 < a <= 12
    ensures a == 1 || (a == 7 && b == 1)
  {
    assert a in {1, 2, 3, 4, 5, 6, 7, 8, 9, 10, 11, 12};
  }

  /** 7, 31 and 151 are prime. */
  lemma PrimeFactor(p: nat, a: nat, b: nat)
    requires p in {7, 31, 151} && a * b == p
    ensures a == 1 || b == 1
  {
    if a <= 12 {
      SmallFactor(p, a, b);
    } else {
      if b > 12 { MulMonotone(a, 13, b); }
      SmallFactor(p, b, a);
    }
  }

  /** If x^n is 1 with n = c p and p one of the primes but x^c is not, then p divides every d with x^d = 1. */
  lemma PrimeDivides(n: nat, c: nat, p: nat, d: nat) returns (l: nat)
    requires p in {7, 31, 151} && n == c * p && IsOne(n) && !IsOne(c) && IsOne(d)
    ensures d == p * l
  {
    if d == 0 { return 0; }
    var e := OneMultiple(d, c);
    assert Y(c, d);
    var m := Least(c, d);
    var k := LeastDivides(c, m, p);
    l := LeastDivides(c, m, d);
    PrimeQuotient(p, m, k, d, l);
  }

  lemma PrimeQuotient(p: nat, m: nat, k: nat, d: nat, l: nat)
    requires p in {7, 31, 151} && p == m * k && d == m * l && m != 1
    ensures d == p * l
  {
    PrimeFactor(p, m, k);
  }

  // ----- The order -----

  /** x^32768 = x. */
  lemma OrderIsOne() returns (n: nat)
    ensures n == ORDER && IsOne(n)
  {
    var e := Power32768();
    var m := 32768;
    IsX(e, m);
    n := ORDER;
    CancelX(n, m);
  }

  lemma CancelX(n: nat, m: nat)
    requires m == n + 1 && Congruent(Shift(1, m), 2)
    ensures IsOne(n)
  {
    AddDouble(Shift(1, n), 1);
    MultipleHalf(Add(Shift(1, n), 1));
  }

  /** No n / p is such an exponent, for p = 7, 31, 151. */
  lemma QuotientsNotOne() returns (a: nat, b: nat, c: nat)
    ensures a == 4681 && !IsOne(a)
    ensures b == 1057 && !IsOne(b)
    ensures c == 217 && !IsOne(c)
  {
    var e := Power4681();
    var f := Power1057();
    var g := Power217();
    a, b, c := 4681, 1057, 217;
    NotOne(e, a);
    NotOne(f, b);
    NotOne(g, c);
  }

  /** The powers of x that are 1 are those whose exponent is a multiple of 32767. */
  lemma OrderOfX(d: nat)
    ensures IsOne(d) <==> d % ORDER == 0
  {
    var n := OrderIsOne();
    var a, b, c := QuotientsNotOne();
    if IsOne(d) {
      var k := PrimeDivides(n, a, 7, d);
      var l := PrimeDivides(n, b, 31, d);
      var m := PrimeDivides(n, c, 151, d);
      CommonMultiple(k, l, m, d);
    }
    if d % ORDER == 0 {
      var m := OneMultiple(n, d / ORDER);
      WholeQuotient(d);
    }
  }

  lemma CommonMultiple(k: nat, l: nat, m: nat, d: nat)
    requires d == 7 * k == 31 * l == 151 * m
    ensures d % ORDER == 0
  {
    assert d == ORDER * (207 * l - 46 * k - 16 * m);
  }

  lemma WholeQuotient(d: nat)
    requires d % ORDER == 0
    ensures ORDER * (d / ORDER) == d
  {
  }

  // ----- Two flipped bits -----

  /** Exactly the bits at i and j are set. */
  predicate TwoOnes(e: Bits, i: nat, j: nat) {
    i < j < |e| && forall k :: 0 <= k < |e| ==> (e[k] <==> k == i || k == j)
  }

  /** Two one bits d apart are x^d + 1, shifted. */
  lemma TwoOnesValue(e: Bits, i: nat, j: nat)
    requires TwoOnes(e, i, j)
    ensures Value(e) == Shift(Add(Shift(1, j - i), 1), |e| - 1 - j)
  {
    var front, window, tail := e[..i], e[i..j + 1], e[j + 1..];
    SplitThree(e, i, j + 1);
    ValueZero(front);
    ValueZero(tail);
    WindowValue(front, window, tail);
    EndsValue(window);
  }

  lemma LeadingOne(w: Bits)
    requires w != [] && forall k :: 0 <= k < |w| ==> (w[k] <==> k == 0)
    ensures Value(w) == Shift(1, |w| - 1)
  {
    var rest := w[1..];
    ValueZero(rest);
    assert w == [true] + rest;
    ValueConcat([true], rest);
  }

  /** A bit string with only its first and its last bit set. */
  lemma EndsValue(w: Bits)
    requires |w| >= 2 && forall k :: 0 <= k < |w| ==> (w[k] <==> k == 0 || k == |w| - 1)
    ensures Value(w) == Add(Shift(1, |w| - 1), 1)
  {
    var n := |w| - 1;
    LeadingOne(w[..n]);
    AddToLast(Shift(1, n - 1), 0, 1);
  }

  lemma TwoOnesMultiple(e: Bits, i: nat, j: nat)
    requires TwoOnes(e, i, j)
    ensures Multiple(Value(e)) <==> (j - i) % ORDER == 0
  {
    var k := |e| - 1 - j;
    var p := Add(Shift(1, j - i), 1);
    TwoOnesValue(e, i, j);
    OrderOfX(j - i);
    if Multiple(p) { MultipleShift(p, k); }
    if Multiple(Shift(p, k)) { MultipleUnshift(p, k); }
  }

  /** Two flipped bits, in a payload of any length, pass exactly when their distance is a multiple of 32767. */
  lemma TwoBitsPassIff(data: seq<Byte>, data': seq<Byte>, check': Word, i: nat, j: nat)
    requires |data| == |data'| && TwoOnes(ErrorBits(data, Checksum(data), data', check'), i, j)
    ensures Accepted(data', check') <==> (j - i) % ORDER == 0
  {
    UndetectedIff(data, data', check');
    TwoOnesMultiple(ErrorBits(data, Checksum(data), data', check'), i, j);
  }

  // ----- Up to three flipped bits -----

  lemma {:induction false} FindOne(e: Bits) returns (i: nat)
    requires Weight(e) == 1
    ensures i < |e| && forall k :: 0 <= k < |e| ==> (e[k] <==> k == i)
  {
    var n := |e| - 1;
    if e[n] {
      WeightZero(e[..n]);
      i := n;
    } else {
      i := FindOne(e[..n]);
    }
  }

  lemma {:induction false} WeightZero(e: Bits)
    requires Weight(e) == 0
    ensures forall k :: 0 <= k < |e| ==> !e[k]
  {
    if e != [] { WeightZero(e[..|e| - 1]); }
  }

  lemma {:induction false} FindTwo(e: Bits) returns (i: nat, j: nat)
    requires Weight(e) == 2
    ensures TwoOnes(e, i, j)
  {
    var n := |e| - 1;
    if e[n] {
      i := FindOne(e[..n]);
      j := n;
    } else {
      i, j := FindTwo(e[..n]);
    }
  }

  lemma NotApart(d: nat)
    requires 0 < d < ORDER
    ensures d % ORDER != 0
  {
  }

  /** One to three flipped bits in a codeword of up to 32767 bits are detected. */
  lemma FewBitsDetected(data: seq<Byte>, data': seq<Byte>, check': Word)
    requires |data| == |data'| && 8 * |data| + 16 <= ORDER
    requires 1 <= Weight(ErrorBits(data, Checksum(data), data', check')) <= 3
    ensures !Accepted(data', check')
  {
    var e := ErrorBits(data, Checksum(data), data', check');
    UndetectedIff(data, data', check');
    FewOnesNotMultiple(e);
  }

  lemma FewOnesNotMultiple(e: Bits)
    requires |e| <= ORDER && 1 <= Weight(e) <= 3
    ensures !Multiple(Value(e))
  {
    if Weight(e) == 2 {
      var i, j := FindTwo(e);
      NotApart(j - i);
      TwoOnesMultiple(e, i, j);
    } else {
      OddNotMultiple(e);
    }
  }
}
