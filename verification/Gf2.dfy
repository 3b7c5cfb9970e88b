/** Polynomials over GF(2).
  *
  * The natural number p stands for the sum of x^i over the positions i of the one bits of p, so
  * addition is bitwise exclusive-or and multiplication by x is doubling.
  */
module Gf2 {

  type Bit = n: nat | n <= 1

  function Pow2(k: nat): (r: nat)
    ensures r >= 1
  {
    if k == 0 then 1 else 2 * Pow2(k - 1)
  }

  /** x^k times a. */
  function Shift(a: nat, k: nat): nat
    decreases k, a
  {
    if k == 0 then a else 2 * Shift(a, k - 1)
  }

  lemma {:induction false} ShiftShift(a: nat, j: nat, k: nat)
    ensures Shift(Shift(a, j), k) == Shift(a, j + k)
  {
    if k != 0 { ShiftShift(a, j, k - 1); }
  }

  // ----- Addition -----

  function BitSum(c: nat, d: nat): Bit {
    if c == d then 0 else 1
  }

  function Add(a: nat, b: nat): nat
    decreases a + b
  {
    if a == 0 && b == 0 then 0 else 2 * Add(a / 2, b / 2) + BitSum(a % 2, b % 2)
  }

  lemma {:induction false} AddZero(a: nat)
    ensures Add(a, 0) == a == Add(0, a)
  {
    if a != 0 { AddZero(a / 2); }
  }

  lemma {:induction false} AddSelf(a: nat)
    ensures Add(a, a) == 0
  {
    if a != 0 { AddSelf(a / 2); }
  }

  lemma {:induction false} AddComm(a: nat, b: nat)
    ensures Add(a, b) == Add(b, a)
    decreases a + b
  {
    if a + b != 0 { AddComm(a / 2, b / 2); }
  }

  /** The recursion of Add seen from the halves of the result. */
  lemma AddHalf(a: nat, b: nat)
    ensures Add(a, b) / 2 == Add(a / 2, b / 2)
    ensures Add(a, b) % 2 == BitSum(a % 2, b % 2)
  {
  }

  /** Addition one bit at a time. */
  lemma AddAppend(a: nat, b: nat, c: nat, d: nat)
    requires c <= 1 && d <= 1
    ensures Add(2 * a + c, 2 * b + d) == 2 * Add(a, b) + BitSum(c, d)
  {
  }

  lemma SameHalves(a: nat, b: nat)
    requires a / 2 == b / 2 && a % 2 == b % 2
    ensures a == b
  {
  }

  lemma {:induction false} AddAssoc(a: nat, b: nat, c: nat)
    ensures Add(Add(a, b), c) == Add(a, Add(b, c))
    decreases a + b + c
  {
    if a + b + c != 0 {
      var ab, bc := Add(a, b), Add(b, c);
      AddHalf(a, b);
      AddHalf(b, c);
      AddHalf(ab, c);
      AddHalf(a, bc);
      AddAssoc(a / 2, b / 2, c / 2);
      SameHalves(Add(ab, c), Add(a, bc));
    }
  }

  lemma AddDouble(a: nat, b: nat)
    ensures Add(2 * a, 2 * b) == 2 * Add(a, b)
  {
    AddAppend(a, b, 0, 0);
  }

  lemma {:induction false} AddShift(a: nat, b: nat, k: nat)
    ensures Add(Shift(a, k), Shift(b, k)) == Shift(Add(a, b), k)
  {
    if k != 0 {
      AddShift(a, b, k - 1);
      AddDouble(Shift(a, k - 1), Shift(b, k - 1));
    }
  }

  /** Adding parts whose bits do not overlap is ordinary addition. */
  lemma {:induction false} AddDisjoint(high: nat, low: nat, k: nat)
    requires low < Pow2(k)
    ensures Add(Shift(high, k), low) == Shift(high, k) + low
  {
    if k == 0 {
      AddZero(high);
    } else {
      AddDisjoint(high, low / 2, k - 1);
      AddHalf(Shift(high, k), low);
      SameHalves(Add(Shift(high, k), low), Shift(high, k) + low);
    }
  }

  lemma {:induction false} AddBound(a: nat, b: nat, k: nat)
    requires a < Pow2(k) && b < Pow2(k)
    ensures Add(a, b) < Pow2(k)
  {
    if k != 0 { AddBound(a / 2, b / 2, k - 1); AddHalf(a, b); }
  }

  /** Adding something of smaller degree keeps the degree. */
  lemma {:induction false} AddDegree(a: nat, b: nat, k: nat)
    requires Pow2(k) <= a < Pow2(k + 1) && b < Pow2(k)
    ensures Pow2(k) <= Add(a, b) < Pow2(k + 1)
  {
    if k == 0 { AddZero(1); } else { AddDegree(a / 2, b / 2, k - 1); AddHalf(a, b); }
  }

  /** (a + b) + (a + c) = b + c. */
  lemma AddCancel(a: nat, b: nat, c: nat)
    ensures Add(Add(a, b), Add(a, c)) == Add(b, c)
  {
    AddSwap(a, b, a, c);
    AddSelf(a);
    AddZero(Add(b, c));
  }

  /** (a + b) + (c + d) = (a + c) + (b + d). */
  lemma AddSwap(a: nat, b: nat, c: nat, d: nat)
    ensures Add(Add(a, b), Add(c, d)) == Add(Add(a, c), Add(b, d))
  {
    AddAssoc(a, b, Add(c, d));
    AddAssoc(b, c, d);
    AddComm(b, c);
    AddAssoc(c, b, d);
    AddAssoc(a, c, Add(b, d));
  }

  lemma {:induction false} AddIsZero(a: nat, b: nat)
    requires Add(a, b) == 0
    ensures a == b
    decreases a + b
  {
    if a + b != 0 {
      AddHalf(a, b);
      AddIsZero(a / 2, b / 2);
    }
  }

  /** Adding above a run of low bits leaves them alone. */
  lemma AddAbove(a: nat, b: nat, low: nat, k: nat)
    requires low < Pow2(k)
    ensures Add(Shift(a, k) + low, Shift(b, k)) == Shift(Add(a, b), k) + low
  {
    var s, t := Shift(a, k), Shift(b, k);
    AddDisjoint(a, low, k);
    AddAssoc(s, low, t);
    AddComm(low, t);
    AddAssoc(s, t, low);
    AddShift(a, b, k);
    AddDisjoint(Add(a, b), low, k);
  }

  lemma AddToLast(h: nat, c: Bit, b: Bit)
    ensures Add(2 * h + c, b) == 2 * h + BitSum(c, b)
  {
    AddAppend(h, 0, c, b);
    AddZero(h);
  }

  // ----- Multiplication -----

  function Mul(a: nat, b: nat): nat
    decreases a
  {
    if a == 0 then 0 else Add(2 * Mul(a / 2, b), Times(a % 2, b))
  }

  /** The constant polynomial c, 0 or 1, times g. */
  function Times(c: nat, g: nat): nat {
    if c == 1 then g else 0
  }

  lemma TimesAdd(c: nat, d: nat, g: nat)
    requires c <= 1 && d <= 1
    ensures Add(Times(c, g), Times(d, g)) == Times(BitSum(c, d), g)
  {
    AddSelf(g);
    AddZero(g);
  }

  lemma MulUnfold(a: nat, g: nat)
    ensures Mul(a, g) == Add(2 * Mul(a / 2, g), Times(a % 2, g))
  {
  }

  lemma {:induction false} MulAdd(a: nat, b: nat, g: nat)
    ensures Mul(Add(a, b), g) == Add(Mul(a, g), Mul(b, g))
    decreases a + b
  {
    if a + b != 0 {
      MulAdd(a / 2, b / 2, g);
      var u, v := Mul(a / 2, g), Mul(b / 2, g);
      MulUnfold(a, g);
      MulUnfold(b, g);
      AddHalf(a, b);
      MulUnfold(Add(a, b), g);
      AddSwap(2 * u, Times(a % 2, g), 2 * v, Times(b % 2, g));
      AddDouble(u, v);
      TimesAdd(a % 2, b % 2, g);
    }
  }

  lemma MulDouble(a: nat, g: nat)
    ensures Mul(2 * a, g) == 2 * Mul(a, g)
  {
    AddZero(2 * Mul(a, g));
  }

  lemma MulOne(g: nat)
    ensures Mul(1, g) == g
  {
    AddZero(g);
  }

  lemma {:induction false} MulShift(a: nat, k: nat, g: nat)
    ensures Mul(Shift(a, k), g) == Shift(Mul(a, g), k)
  {
    if k != 0 {
      MulShift(a, k - 1, g);
      MulDouble(Shift(a, k - 1), g);
    }
  }

  lemma AddOdd(m: nat, g: nat)
    requires g % 2 == 1
    ensures Add(2 * m, g) % 2 == 1
  {
    AddHalf(2 * m, g);
  }

  lemma EvenTerms(m: nat, c: nat, g: nat, b: nat)
    requires g % 2 == 1 && c <= 1 && Add(2 * m, Times(c, g)) == 2 * b
    ensures m == b
  {
    if c == 0 { AddZero(2 * m); } else { AddOdd(m, g); }
  }

  /** A factor with a constant term leaves the evenness of a product to the other factor. */
  lemma MulEven(q: nat, g: nat, b: nat)
    requires g % 2 == 1 && Mul(q, g) == 2 * b
    ensures Mul(q / 2, g) == b
  {
    MulUnfold(q, g);
    EvenTerms(Mul(q / 2, g), q % 2, g, b);
  }

  /** Degrees add up under multiplication. */
  lemma {:induction false} MulDegree(q: nat, g: nat, d: nat, k: nat)
    requires Pow2(d) <= q < Pow2(d + 1) && Pow2(k) <= g < Pow2(k + 1)
    ensures Pow2(d + k) <= Mul(q, g) < Pow2(d + k + 1)
    decreases d
  {
    if d == 0 {
      MulOne(g);
    } else {
      MulDegree(q / 2, g, d - 1, k);
      Pow2Monotone(k + 1, d + k);
      AddDegree(2 * Mul(q / 2, g), if q % 2 == 1 then g else 0, d + k);
    }
  }

  lemma {:induction false} Pow2Monotone(a: nat, b: nat)
    requires a <= b
    ensures Pow2(a) <= Pow2(b)
  {
    if a < b { Pow2Monotone(a, b - 1); }
  }

  lemma MulLarge(q: nat, g: nat, k: nat)
    requires q > 1 && Pow2(k) <= g < Pow2(k + 1)
    ensures Mul(q, g) >= Pow2(k + 1)
  {
    var d := Degree(q);
    MulDegree(q, g, d, k);
    Pow2Monotone(k + 1, d + k);
  }

  /** Every non-zero polynomial has a degree. */
  lemma {:induction false} Degree(q: nat) returns (d: nat)
    requires q > 0
    ensures Pow2(d) <= q < Pow2(d + 1)
  {
    if q == 1 { d := 0; } else { d := Degree(q / 2); d := d + 1; }
  }

  // ----- Squares -----

  lemma {:induction false} MulAddRight(a: nat, b: nat, c: nat)
    ensures Mul(a, Add(b, c)) == Add(Mul(a, b), Mul(a, c))
    decreases a
  {
    if a == 0 {
      AddZero(0);
    } else {
      var u, v := Mul(a / 2, b), Mul(a / 2, c);
      MulAddRight(a / 2, b, c);
      AddDouble(u, v);
      AddZero(0);
      AddSwap(2 * u, Times(a % 2, b), 2 * v, Times(a % 2, c));
    }
  }

  lemma {:induction false} MulDoubleRight(a: nat, g: nat)
    ensures Mul(a, 2 * g) == 2 * Mul(a, g)
    decreases a
  {
    if a != 0 {
      MulDoubleRight(a / 2, g);
      AddDouble(2 * Mul(a / 2, g), Times(a % 2, g));
    }
  }

  lemma {:induction false} MulOneRight(a: nat)
    ensures Mul(a, 1) == a
    decreases a
  {
    if a != 0 {
      MulOneRight(a / 2);
      AddAppend(a / 2, 0, 0, a % 2);
      AddZero(a / 2);
    }
  }

  /** (2p + b)^2 = 4p^2 + b. */
  lemma SquareAppend(p: nat, b: nat)
    requires b <= 1
    ensures Mul(2 * p + b, 2 * p + b) == Add(4 * Mul(p, p), b)
  {
    MulDoubleRight(p, p);
    if b == 0 {
      MulDouble(p, 2 * p);
      AddZero(4 * Mul(p, p));
    } else {
      OddSquare(p);
    }
  }

  lemma OddSquare(p: nat)
    ensures Mul(2 * p + 1, 2 * p + 1) == Add(4 * Mul(p, p), 1)
  {
    var y, m := 2 * p + 1, Mul(p, p);
    OddSum(p);
    MulAdd(2 * p, 1, y);
    MulOne(y);
    MulDouble(p, y);
    TimesOdd(p);
    OddTerms(m, p);
  }

  lemma OddTerms(m: nat, p: nat)
    ensures Add(2 * Add(2 * m, p), 2 * p + 1) == Add(4 * m, 1)
  {
    OddSum(p);
    AddDouble(2 * m, p);
    AddComm(4 * m, 2 * p);
    AddCancel(2 * p, 4 * m, 1);
  }

  lemma OddSum(p: nat)
    ensures Add(2 * p, 1) == 2 * p + 1
  {
    AddToLast(p, 0, 1);
  }

  lemma TimesOdd(p: nat)
    ensures Mul(p, 2 * p + 1) == Add(2 * Mul(p, p), p)
  {
    OddSum(p);
    MulAddRight(p, 2 * p, 1);
    MulDoubleRight(p, p);
    MulOneRight(p);
  }
}
