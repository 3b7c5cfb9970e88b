/** Powers of x modulo the generator, computed in a register of sixteen bits. */
module CrcPowers {
  import opened Gf2
  import opened Crc

  /** A remainder by its bits. */
  datatype Register = Register(
    b15: Bit, b14: Bit, b13: Bit, b12: Bit, b11: Bit, b10: Bit, b9: Bit, b8: Bit,
    b7: Bit, b6: Bit, b5: Bit, b4: Bit, b3: Bit, b2: Bit, b1: Bit, b0: Bit)
  {
    function High(): nat {
      0x80 * b15 + 0x40 * b14 + 0x20 * b13 + 0x10 * b12 + 8 * b11 + 4 * b10 + 2 * b9 + b8
    }

    function Low(): nat {
      0x80 * b7 + 0x40 * b6 + 0x20 * b5 + 0x10 * b4 + 8 * b3 + 4 * b2 + 2 * b1 + b0
    }

    function Value(): nat {
      0x100 * High() + Low()
    }
  }

  const One := Register(0, 0, 0, 0, 0, 0, 0, 0, 0, 0, 0, 0, 0, 0, 0, 1)
  const X := Register(0, 0, 0, 0, 0, 0, 0, 0, 0, 0, 0, 0, 0, 0, 1, 0)

  /** x times w. */
  function TimesX(w: Register): Register {
    Register(
      w.b14, w.b13, w.b12, BitSum(w.b11, w.b15), w.b10, w.b9, w.b8, w.b7,
      w.b6, w.b5, BitSum(w.b4, w.b15), w.b3, w.b2, w.b1, w.b0, w.b15)
  }

  /** x^2 times w, plus the bit b. */
  function Append(w: Register, b: Bit): Register {
    Register(
      w.b13, w.b12, BitSum(w.b11, w.b15), BitSum(w.b10, w.b14), w.b9, w.b8, w.b7, w.b6,
      w.b5, BitSum(w.b4, w.b15), BitSum(w.b3, w.b14), w.b2, w.b1, w.b0, w.b15, BitSum(w.b14, b))
  }

  /** The square of the upper eight bits: the bits spread out. */
  function Spread(w: Register): Register {
    Register(0, w.b15, 0, w.b14, 0, w.b13, 0, w.b12, 0, w.b11, 0, w.b10, 0, w.b9, 0, w.b8)
  }

  /** The square of w: eight steps of Append on the spread upper bits, with the lower bits. */
  function Square(w: Register): Register {
    var e, f := BitSum(w.b13, w.b15), BitSum(w.b12, w.b14);
    var g, h := BitSum(w.b11, e), BitSum(w.b10, f);
    var k, l := BitSum(w.b9, g), BitSum(w.b8, h);
    Register(
      BitSum(e, w.b15), BitSum(BitSum(w.b15, w.b7), k), BitSum(f, w.b14), BitSum(BitSum(w.b14, w.b6), l),
      g, BitSum(e, w.b5), h, BitSum(BitSum(f, w.b4), w.b15),
      k, BitSum(BitSum(g, w.b3), w.b14), l, BitSum(h, w.b2),
      w.b15, BitSum(k, w.b1), w.b14, BitSum(l, w.b0))
  }

  // ----- One multiplication by x -----

  lemma Shift4(a: nat)
    ensures Shift(a, 4) == 0x10 * a && Pow2(4) == 0x10
  {
    assert Shift(a, 1) == 2 * a;
    assert Shift(a, 2) == 4 * a;
    assert Shift(a, 3) == 8 * a;
  }

  lemma Shift6(a: nat)
    ensures Shift(a, 6) == 0x40 * a && Pow2(6) == 0x40
  {
    Shift4(a);
    assert Shift(a, 5) == 0x20 * a;
  }

  /** Adding x^12 + x^5 + 1 flips bits 12, 5 and 0. */
  lemma AddPolynomial(a: nat, e: Bit, b: nat, f: Bit, c: nat) returns (y: nat, z: nat)
    requires b < 0x40 && c < 0x10
    ensures y == 0x2000 * a + 0x1000 * e + 0x40 * b + 0x20 * f + 2 * c
    ensures z == 0x2000 * a + 0x1000 * BitSum(e, 1) + 0x40 * b + 0x20 * BitSum(f, 1) + 2 * c + 1
    ensures Add(y, POLYNOMIAL) == z
  {
    y := 0x2000 * a + 0x1000 * e + 0x40 * b + 0x20 * f + 2 * c;
    z := 0x2000 * a + 0x1000 * BitSum(e, 1) + 0x40 * b + 0x20 * BitSum(f, 1) + 2 * c + 1;
    AddLowTerms(0x40 * (2 * a + e) + b, f, c);
    AddHighTerm(a, e, b);
  }

  lemma AddHighTerm(a: nat, e: Bit, b: nat)
    requires b < 0x40
    ensures Add(0x40 * (2 * a + e) + b, 0x40) == 0x40 * (2 * a + BitSum(e, 1)) + b
  {
    AddAboveSix(2 * a + e, 1, b);
    AddAppend(a, 0, e, 1);
    AddZero(a);
  }

  lemma AddLowTerms(middle: nat, f: Bit, c: nat)
    requires c < 0x10
    ensures Add(0x40 * middle + 0x20 * f + 2 * c, POLYNOMIAL) == 0x40 * Add(middle, 0x40) + 0x20 * BitSum(f, 1) + 2 * c + 1
  {
    var low := 2 * middle + f;
    AddAppend(0x10 * low + c, 0x810, 0, 1);
    AddAboveFour(low, 0x81, c);
    AddAppend(middle, 0x40, f, 1);
  }

  lemma AddAboveFour(a: nat, b: nat, low: nat)
    requires low < 0x10
    ensures Add(0x10 * a + low, 0x10 * b) == 0x10 * Add(a, b) + low
  {
    Shift4(a);
    Shift4(b);
    Shift4(Add(a, b));
    AddAbove(a, b, low, 4);
  }

  lemma AddAboveSix(a: nat, b: nat, low: nat)
    requires low < 0x40
    ensures Add(0x40 * a + low, 0x40 * b) == 0x40 * Add(a, b) + low
  {
    Shift6(a);
    Shift6(b);
    Shift6(Add(a, b));
    AddAbove(a, b, low, 6);
  }

  lemma BitStepCases(v: Word)
    ensures v < 0x8000 ==> BitStep(v) == 2 * v
    ensures v >= 0x8000 ==> BitStep(v) == Add(2 * v - 0x10000, POLYNOMIAL)
  {
    TopBit(v);
  }

  /** One bit step of the checksum loop, on registers. */
  lemma TimesXIsBitStep(w: Register) returns (v: Word)
    ensures v == w.Value() && TimesX(w).Value() == BitStep(v)
  {
    ValueBounds(w);
    v := w.Value();
    BitStepCases(v);
    if w.b15 == 1 { var y := TimesXFlips(w); } else { TimesXShifts(w); }
  }

  lemma ValueBounds(w: Register)
    ensures w.Value() < 0x10000 && (w.Value() >= 0x8000 <==> w.b15 == 1)
  {
  }

  lemma TimesXShifts(w: Register)
    requires w.b15 == 0
    ensures TimesX(w).Value() == 2 * w.Value()
  {
  }

  lemma TimesXFlips(w: Register) returns (y: nat)
    requires w.b15 == 1
    ensures 2 * w.Value() == 0x10000 + y && TimesX(w).Value() == Add(y, POLYNOMIAL)
  {
    var a, b, c := TimesXParts(w);
    var z;
    y, z := AddPolynomial(a, w.b11, b, w.b4, c);
  }

  lemma TimesXParts(w: Register) returns (a: nat, b: nat, c: nat)
    requires w.b15 == 1
    ensures b < 0x40 && c < 0x10
    ensures 2 * w.Value() == 0x10000 + 0x2000 * a + 0x1000 * w.b11 + 0x40 * b + 0x20 * w.b4 + 2 * c
    ensures TimesX(w).Value() == 0x2000 * a + 0x1000 * BitSum(w.b11, 1) + 0x40 * b + 0x20 * BitSum(w.b4, 1) + 2 * c + 1
  {
    a := 4 * w.b14 + 2 * w.b13 + w.b12;
    b := 0x20 * w.b10 + 0x10 * w.b9 + 8 * w.b8 + 4 * w.b7 + 2 * w.b6 + w.b5;
    c := 8 * w.b3 + 4 * w.b2 + 2 * w.b1 + w.b0;
  }

  lemma TimesXCongruent(w: Register)
    ensures Congruent(2 * w.Value(), TimesX(w).Value())
  {
    var v := TimesXIsBitStep(w);
    BitStepCongruent(v);
  }

  // ----- Squares -----

  lemma AppendIsDoubleStep(w: Register, b: Bit)
    ensures Append(w, b).Value() == Add(TimesX(TimesX(w)).Value(), b)
  {
    var d := TimesX(TimesX(w));
    assert d.b0 == w.b14 && Append(w, b) == d.(b0 := BitSum(d.b0, b));
    AddLastBit(d, b);
  }

  lemma AddLastBit(d: Register, b: Bit)
    ensures d.(b0 := BitSum(d.b0, b)).Value() == Add(d.Value(), b)
  {
    var h := AllButLast(d);
    AddToLast(h, d.b0, b);
    var h' := AllButLast(d.(b0 := BitSum(d.b0, b)));
  }

  lemma AllButLast(d: Register) returns (h: nat)
    ensures d.Value() == 2 * h + d.b0
    ensures h == 0x80 * d.High() + 0x40 * d.b7 + 0x20 * d.b6 + 0x10 * d.b5 + 8 * d.b4 + 4 * d.b3 + 2 * d.b2 + d.b1
  {
    h := 0x80 * d.High() + 0x40 * d.b7 + 0x20 * d.b6 + 0x10 * d.b5 + 8 * d.b4 + 4 * d.b3 + 2 * d.b2 + d.b1;
  }

  lemma SquareStep(p: nat, b: Bit, w: Register) returns (q: nat)
    requires Congruent(Mul(p, p), w.Value())
    ensures q == 2 * p + b && Congruent(Mul(q, q), Append(w, b).Value())
  {
    q := 2 * p + b;
    var m, u, v := Mul(p, p), TimesX(w), TimesX(TimesX(w)).Value();
    FourTimes(m, w);
    CongruentAdd(4 * m, v, b);
    SquareAppend(p, b);
    AppendIsDoubleStep(w, b);
  }

  lemma FourTimes(m: nat, w: Register)
    requires Congruent(m, w.Value())
    ensures Congruent(4 * m, TimesX(TimesX(w)).Value())
  {
    Doubles(m, 2 * m, w, TimesX(w));
    Doubles(2 * m, 4 * m, TimesX(w), TimesX(TimesX(w)));
  }

  lemma Doubles(m: nat, n: nat, w: Register, v: Register)
    requires Congruent(m, w.Value()) && n == 2 * m && v == TimesX(w)
    ensures Congruent(n, v.Value())
  {
    TimesXCongruent(w);
    CongruentDouble(m, w.Value());
    CongruentTransitive(n, 2 * w.Value(), v.Value());
  }

  /** Four steps at once. */
  function AppendFour(w: Register, b3: Bit, b2: Bit, b1: Bit, b0: Bit): Register {
    Append(Append(Append(Append(w, b3), b2), b1), b0)
  }

  lemma SquareFour(p: nat, w: Register, b3: Bit, b2: Bit, b1: Bit, b0: Bit) returns (q: nat)
    requires Congruent(Mul(p, p), w.Value())
    ensures q == 0x10 * p + 8 * b3 + 4 * b2 + 2 * b1 + b0
    ensures Congruent(Mul(q, q), AppendFour(w, b3, b2, b1, b0).Value())
  {
    var w3 := Append(w, b3);
    var w2 := Append(w3, b2);
    q := SquareStep(p, b3, w);
    q := SquareStep(q, b2, w3);
    q := SquareStep(q, b1, w2);
    q := SquareStep(q, b0, Append(w2, b1));
  }

  lemma LowerSteps(w: Register)
    ensures AppendFour(AppendFour(Spread(w), w.b7, w.b6, w.b5, w.b4), w.b3, w.b2, w.b1, w.b0) == Square(w)
  {
  }

  /** Without reduction, one more bit of the root adds two to the square. */
  lemma PlainStep(p: nat, s: nat, b: Bit) returns (q: nat, t: nat)
    requires Mul(p, p) == s
    ensures q == 2 * p + b && t == 4 * s + b && Mul(q, q) == t
  {
    q, t := 2 * p + b, 4 * s + b;
    SquareAppend(p, b);
    AddToLast(2 * s, 0, b);
  }

  lemma SpreadIsSquare(w: Register) returns (p: nat)
    ensures p == w.High() && Mul(p, p) == Spread(w).Value()
  {
    var s;
    p, s := PlainStep(0, 0, w.b15);
    p, s := PlainStep(p, s, w.b14);
    p, s := PlainStep(p, s, w.b13);
    p, s := PlainStep(p, s, w.b12);
    p, s := PlainStep(p, s, w.b11);
    p, s := PlainStep(p, s, w.b10);
    p, s := PlainStep(p, s, w.b9);
    p, s := PlainStep(p, s, w.b8);
  }

  /** Square computes squares modulo the generator. */
  lemma SquareCongruent(w: Register) returns (p: nat)
    ensures p == w.Value() && Congruent(Mul(p, p), Square(w).Value())
  {
    p := SpreadIsSquare(w);
    CongruentReflexive(Mul(p, p));
    p := SquareFour(p, Spread(w), w.b7, w.b6, w.b5, w.b4);
    p := SquareFour(p, AppendFour(Spread(w), w.b7, w.b6, w.b5, w.b4), w.b3, w.b2, w.b1, w.b0);
    LowerSteps(w);
  }

  // ----- Powers of x -----

  /** An exponent as it is built up by doubling and by adding one. */
  datatype Exponent = Zero | Twice(half: Exponent) | Next(last: Exponent) {
    function Value(): nat {
      match this
      case Zero => 0
      case Twice(half) => half.Value() + half.Value()
      case Next(last) => last.Value() + 1
    }
  }

  /** x to an exponent, by squaring and multiplying. */
  function PowerOf(e: Exponent): Register {
    match e
    case Zero => One
    case Twice(half) => Square(PowerOf(half))
    case Next(last) => TimesX(PowerOf(last))
  }

  /** The register holds that power modulo the generator. */
  lemma {:induction false} PowerCongruent(e: Exponent)
    ensures Congruent(Shift(1, e.Value()), PowerOf(e).Value())
  {
    match e
    case Zero => CongruentReflexive(1);
    case Twice(half) =>
      PowerCongruent(half);
      SquaredCongruent(half.Value(), PowerOf(half), e.Value(), PowerOf(e));
    case Next(last) =>
      PowerCongruent(last);
      MultipliedCongruent(last.Value(), PowerOf(last), e.Value(), PowerOf(e));
  }

  lemma MultipliedCongruent(n: nat, w: Register, m: nat, v: Register)
    requires Congruent(Shift(1, n), w.Value()) && m == n + 1 && v == TimesX(w)
    ensures Congruent(Shift(1, m), v.Value())
  {
    Doubles(Shift(1, n), Shift(1, m), w, v);
  }

  lemma SquaredCongruent(n: nat, w: Register, m: nat, v: Register)
    requires Congruent(Shift(1, n), w.Value()) && m == n + n && v == Square(w)
    ensures Congruent(Shift(1, m), v.Value())
  {
    var r := SquareCongruent(w);
    CongruentSquare(n, r);
    CongruentTransitive(Shift(1, m), Mul(r, r), v.Value());
  }

  lemma CongruentSquare(n: nat, r: nat)
    requires Congruent(Shift(1, n), r)
    ensures Congruent(Shift(1, n + n), Mul(r, r))
  {
    ShiftShift(1, n, n);
    var s := Shift(1, n);
    CongruentShift(s, r, n);
    CongruentPower(r, n, r);
    CongruentTransitive(Shift(s, n), Shift(r, n), Mul(r, r));
  }

  /** If x^n is r, then x^n s is r s. */
  lemma {:induction false} CongruentPower(s: nat, n: nat, r: nat)
    requires Congruent(Shift(1, n), r)
    ensures Congruent(Shift(s, n), Mul(s, r))
    decreases s
  {
    if s == 0 {
      ShiftZero(n);
      CongruentReflexive(0);
    } else {
      var t, b := s / 2, s % 2;
      CongruentPower(t, n, r);
      ShiftAppend(t, b, n);
      CongruentDouble(Shift(t, n), Mul(t, r));
      TimesCongruent(b, Shift(1, n), r);
      CongruentSum(2 * Shift(t, n), 2 * Mul(t, r), Times(b, Shift(1, n)), Times(b, r));
    }
  }

  lemma TimesCongruent(b: nat, a: nat, r: nat)
    requires Congruent(a, r)
    ensures Congruent(Times(b, a), Times(b, r))
  {
    CongruentReflexive(0);
  }

  lemma CongruentSum(a: nat, b: nat, c: nat, d: nat)
    requires Congruent(a, b) && Congruent(c, d)
    ensures Congruent(Add(a, c), Add(b, d))
  {
    MultipleAdd(Add(a, b), Add(c, d));
    AddSwap(a, b, c, d);
  }

  lemma ShiftAppend(t: nat, b: nat, n: nat)
    requires b <= 1
    ensures Shift(2 * t + b, n) == Add(2 * Shift(t, n), Times(b, Shift(1, n)))
  {
    AddAppend(t, 0, 0, b);
    AddZero(t);
    AddShift(2 * t, b, n);
    ShiftShift(t, 1, n);
    ShiftShift(t, n, 1);
    ShiftZero(n);
    AddZero(Shift(2 * t, n));
  }

  /** A power whose remainder has a term x is not 1. */
  lemma NotOne(e: Exponent, n: nat)
    requires e.Value() == n && PowerOf(e).b1 == 1
    ensures !Congruent(Shift(1, n), 1)
  {
    PowerCongruent(e);
    PowersNearGenerator();
    if Congruent(Shift(1, n), 1) { RemainderUnique(Shift(1, n), PowerOf(e).Value(), 1); }
  }

  lemma IsX(e: Exponent, n: nat)
    requires e.Value() == n && PowerOf(e) == X
    ensures Congruent(Shift(1, n), 2)
  {
    PowerCongruent(e);
    XIsTwo();
  }

  lemma XIsTwo()
    ensures X.Value() == 2
  {
  }

  // ----- Four powers -----

  lemma Doubled(e: Exponent, n: nat, w: Register) returns (f: Exponent)
    requires e.Value() == n && PowerOf(e) == w
    ensures f.Value() == 2 * n && PowerOf(f) == Square(w)
  {
    f := Twice(e);
  }

  lemma DoubledNext(e: Exponent, n: nat, w: Register) returns (f: Exponent)
    requires e.Value() == n && PowerOf(e) == w
    ensures f.Value() == 2 * n + 1 && PowerOf(f) == TimesX(Square(w))
  {
    f := Next(Twice(e));
  }

  lemma Power1() returns (e: Exponent)
    ensures e.Value() == 1 && PowerOf(e) == Register(0, 0, 0, 0, 0, 0, 0, 0, 0, 0, 0, 0, 0, 0, 1, 0)
  {
    e := Next(Zero);
  }

  lemma Power108() returns (e: Exponent)
    ensures e.Value() == 108 && PowerOf(e) == Register(0, 0, 1, 1, 0, 1, 1, 1, 0, 1, 0, 1, 0, 0, 0, 0)
  {
    e := Power1();
    e := DoubledNext(e, 1, Register(0, 0, 0, 0, 0, 0, 0, 0, 0, 0, 0, 0, 0, 0, 1, 0));
    e := Doubled(e, 3, Register(0, 0, 0, 0, 0, 0, 0, 0, 0, 0, 0, 0, 1, 0, 0, 0));
    e := DoubledNext(e, 6, Register(0, 0, 0, 0, 0, 0, 0, 0, 0, 1, 0, 0, 0, 0, 0, 0));
    e := DoubledNext(e, 13, Register(0, 0, 1, 0, 0, 0, 0, 0, 0, 0, 0, 0, 0, 0, 0, 0));
    e := Doubled(e, 27, Register(1, 0, 0, 0, 1, 0, 0, 1, 1, 0, 1, 0, 1, 0, 0, 1));
    e := Doubled(e, 54, Register(0, 0, 0, 1, 0, 0, 0, 1, 0, 1, 1, 0, 1, 0, 0, 0));
  }

  lemma Power217() returns (e: Exponent)
    ensures e.Value() == 217 && PowerOf(e) == Register(0, 1, 0, 0, 1, 0, 0, 0, 1, 1, 1, 0, 0, 0, 1, 1)
  {
    e := Power108();
    e := DoubledNext(e, 108, Register(0, 0, 1, 1, 0, 1, 1, 1, 0, 1, 0, 1, 0, 0, 0, 0));
  }

  lemma Power66() returns (e: Exponent)
    ensures e.Value() == 66 && PowerOf(e) == Register(1, 1, 0, 0, 0, 0, 0, 1, 1, 1, 0, 0, 0, 1, 1, 0)
  {
    e := Power1();
    e := Doubled(e, 1, Register(0, 0, 0, 0, 0, 0, 0, 0, 0, 0, 0, 0, 0, 0, 1, 0));
    e := Doubled(e, 2, Register(0, 0, 0, 0, 0, 0, 0, 0, 0, 0, 0, 0, 0, 1, 0, 0));
    e := Doubled(e, 4, Register(0, 0, 0, 0, 0, 0, 0, 0, 0, 0, 0, 1, 0, 0, 0, 0));
    e := Doubled(e, 8, Register(0, 0, 0, 0, 0, 0, 0, 1, 0, 0, 0, 0, 0, 0, 0, 0));
    e := DoubledNext(e, 16, Register(0, 0, 0, 1, 0, 0, 0, 0, 0, 0, 1, 0, 0, 0, 0, 1));
    e := Doubled(e, 33, Register(0, 1, 1, 0, 1, 1, 1, 0, 0, 1, 1, 0, 0, 0, 0, 0));
  }

  lemma Power1057() returns (e: Exponent)
    ensures e.Value() == 1057 && PowerOf(e) == Register(1, 1, 1, 1, 0, 0, 1, 0, 1, 0, 1, 0, 1, 1, 1, 1)
  {
    e := Power66();
    e := Doubled(e, 66, Register(1, 1, 0, 0, 0, 0, 0, 1, 1, 1, 0, 0, 0, 1, 1, 0));
    e := Doubled(e, 132, Register(0, 1, 0, 0, 1, 1, 1, 0, 1, 0, 0, 0, 1, 0, 1, 0));
    e := Doubled(e, 264, Register(0, 1, 0, 1, 1, 0, 0, 1, 0, 1, 0, 0, 0, 1, 1, 0));
    e := DoubledNext(e, 528, Register(0, 1, 1, 1, 1, 0, 0, 0, 1, 0, 1, 1, 0, 0, 1, 1));
  }

  lemma Power73() returns (e: Exponent)
    ensures e.Value() == 73 && PowerOf(e) == Register(1, 0, 0, 0, 1, 1, 1, 1, 1, 0, 1, 0, 0, 1, 1, 0)
  {
    e := Power1();
    e := Doubled(e, 1, Register(0, 0, 0, 0, 0, 0, 0, 0, 0, 0, 0, 0, 0, 0, 1, 0));
    e := Doubled(e, 2, Register(0, 0, 0, 0, 0, 0, 0, 0, 0, 0, 0, 0, 0, 1, 0, 0));
    e := DoubledNext(e, 4, Register(0, 0, 0, 0, 0, 0, 0, 0, 0, 0, 0, 1, 0, 0, 0, 0));
    e := Doubled(e, 9, Register(0, 0, 0, 0, 0, 0, 1, 0, 0, 0, 0, 0, 0, 0, 0, 0));
    e := Doubled(e, 18, Register(0, 1, 0, 0, 0, 0, 0, 0, 1, 0, 0, 0, 0, 1, 0, 0));
    e := DoubledNext(e, 36, Register(0, 1, 0, 0, 0, 0, 1, 1, 0, 1, 1, 0, 0, 0, 1, 1));
  }

  lemma Power4681() returns (e: Exponent)
    ensures e.Value() == 4681 && PowerOf(e) == Register(0, 0, 1, 0, 1, 1, 0, 0, 0, 1, 0, 0, 0, 0, 1, 0)
  {
    e := Power73();
    e := Doubled(e, 73, Register(1, 0, 0, 0, 1, 1, 1, 1, 1, 0, 1, 0, 0, 1, 1, 0));
    e := Doubled(e, 146, Register(0, 1, 0, 0, 0, 0, 1, 1, 1, 0, 0, 0, 1, 0, 0, 0));
    e := DoubledNext(e, 292, Register(0, 0, 0, 1, 0, 0, 1, 1, 1, 0, 0, 1, 0, 1, 1, 0));
    e := Doubled(e, 585, Register(0, 1, 0, 0, 0, 1, 0, 1, 0, 0, 0, 0, 0, 0, 0, 0));
    e := Doubled(e, 1170, Register(0, 0, 0, 0, 0, 0, 0, 1, 0, 1, 1, 0, 0, 0, 1, 1));
    e := DoubledNext(e, 2340, Register(0, 0, 0, 0, 0, 1, 0, 0, 0, 0, 1, 0, 0, 1, 0, 0));
  }

  lemma Power64() returns (e: Exponent)
    ensures e.Value() == 64 && PowerOf(e) == Register(1, 0, 1, 1, 1, 0, 0, 0, 0, 1, 1, 0, 0, 0, 0, 1)
  {
    e := Power1();
    e := Doubled(e, 1, Register(0, 0, 0, 0, 0, 0, 0, 0, 0, 0, 0, 0, 0, 0, 1, 0));
    e := Doubled(e, 2, Register(0, 0, 0, 0, 0, 0, 0, 0, 0, 0, 0, 0, 0, 1, 0, 0));
    e := Doubled(e, 4, Register(0, 0, 0, 0, 0, 0, 0, 0, 0, 0, 0, 1, 0, 0, 0, 0));
    e := Doubled(e, 8, Register(0, 0, 0, 0, 0, 0, 0, 1, 0, 0, 0, 0, 0, 0, 0, 0));
    e := Doubled(e, 16, Register(0, 0, 0, 1, 0, 0, 0, 0, 0, 0, 1, 0, 0, 0, 0, 1));
    e := Doubled(e, 32, Register(0, 0, 1, 1, 0, 1, 1, 1, 0, 0, 1, 1, 0, 0, 0, 0));
  }

  lemma Power4096() returns (e: Exponent)
    ensures e.Value() == 4096 && PowerOf(e) == Register(1, 0, 1, 0, 1, 0, 1, 0, 1, 0, 0, 1, 1, 1, 1, 0)
  {
    e := Power64();
    e := Doubled(e, 64, Register(1, 0, 1, 1, 1, 0, 0, 0, 0, 1, 1, 0, 0, 0, 0, 1));
    e := Doubled(e, 128, Register(1, 0, 1, 0, 1, 1, 1, 0, 1, 1, 1, 1, 1, 1, 0, 0));
    e := Doubled(e, 256, Register(1, 0, 0, 0, 1, 1, 1, 0, 0, 0, 1, 0, 1, 0, 0, 1));
    e := Doubled(e, 512, Register(0, 0, 0, 1, 0, 0, 1, 1, 1, 1, 1, 1, 1, 1, 0, 0));
    e := Doubled(e, 1024, Register(0, 0, 1, 1, 0, 1, 1, 0, 1, 1, 0, 0, 0, 1, 0, 0));
    e := Doubled(e, 2048, Register(1, 1, 1, 1, 1, 1, 0, 1, 0, 1, 0, 1, 0, 0, 0, 0));
  }

  lemma Power32768() returns (e: Exponent)
    ensures e.Value() == 32768 && PowerOf(e) == Register(0, 0, 0, 0, 0, 0, 0, 0, 0, 0, 0, 0, 0, 0, 1, 0)
  {
    e := Power4096();
    e := Doubled(e, 4096, Register(1, 0, 1, 0, 1, 0, 1, 0, 1, 0, 0, 1, 1, 1, 1, 0));
    e := Doubled(e, 8192, Register(1, 0, 0, 0, 1, 0, 0, 0, 0, 0, 0, 1, 1, 1, 0, 0));
    e := Doubled(e, 16384, Register(0, 1, 0, 0, 0, 1, 0, 0, 0, 1, 0, 1, 1, 0, 0, 0));
  }
}
