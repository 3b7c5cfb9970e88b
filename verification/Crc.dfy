/** The checksum loop of the death report: a bitwise CRC-16, shown to be division over GF(2).
  *
  * A uint8_t or uint16_t is the natural number it holds; `^` is Gf2.Add, and truncation to 16 bits
  * is written out.
  */
module Crc {
  import opened Gf2
  import opened BitString

  type Byte = n: nat | n < 0x100
  type Word = n: nat | n < 0x10000

  const INITIAL_VALUE: Word := 0xFFFF
  const POLYNOMIAL: Word := 0x1021
  const MOST_SIGNIFICANT_BIT: Word := 0x8000

  /** The generator x^16 + x^12 + x^5 + 1: POLYNOMIAL with the leading term it leaves out. */
  const GENERATOR: nat := 0x11021

  /** A byte string as one bit string, in the order the loop consumes it. */
  function MessageBits(data: seq<Byte>): (s: Bits)
    ensures |s| == 8 * |data|
  {
    if data == [] then [] else MessageBits(data[..|data| - 1]) + BitsOf(data[|data| - 1], 8)
  }

  /** M(x) of a message. */
  function Message(data: seq<Byte>): nat {
    Value(MessageBits(data))
  }

  /** The bytes in order, each with its most significant bit first. */
  lemma {:induction false} MessageBitAt(data: seq<Byte>, i: nat, j: nat)
    requires i < |data| && j < 8
    ensures MessageBits(data)[8 * i + j] == (data[i] / Pow2(7 - j) % 2 == 1)
  {
    var k := |data| - 1;
    if i < k { MessageBitAt(data[..k], i, j); } else { BitsOfAt(data[k], 8, j); }
  }

  // ----- Divisibility by the generator -----

  ghost predicate Multiple(p: nat) {
    exists q :: Mul(q, GENERATOR) == p
  }

  ghost predicate Congruent(a: nat, b: nat) {
    Multiple(Add(a, b))
  }

  /** r is the remainder of dividing p by the generator. */
  ghost predicate IsRemainder(p: nat, r: nat) {
    r < Pow2(16) && Congruent(p, r)
  }

  lemma MultipleAdd(a: nat, b: nat)
    requires Multiple(a) && Multiple(b)
    ensures Multiple(Add(a, b))
  {
    var q :| Mul(q, GENERATOR) == a;
    var r :| Mul(r, GENERATOR) == b;
    MulAdd(q, r, GENERATOR);
  }

  lemma MultipleShift(a: nat, k: nat)
    requires Multiple(a)
    ensures Multiple(Shift(a, k))
  {
    var q :| Mul(q, GENERATOR) == a;
    MulShift(q, k, GENERATOR);
  }

  lemma MultipleHalf(b: nat)
    requires Multiple(2 * b)
    ensures Multiple(b)
  {
    var q :| Mul(q, GENERATOR) == 2 * b;
    MulEven(q, GENERATOR, b);
  }

  /** The generator has the constant term 1, so x can be cancelled. */
  lemma {:induction false} MultipleUnshift(a: nat, k: nat)
    requires Multiple(Shift(a, k))
    ensures Multiple(a)
  {
    if k != 0 {
      MultipleHalf(Shift(a, k - 1));
      MultipleUnshift(a, k - 1);
    }
  }

  /** Of degree at most 16, only zero and the generator itself are multiples. */
  lemma SmallMultiple(a: nat)
    requires a < Pow2(17)
    ensures Multiple(a) <==> a == 0 || a == GENERATOR
  {
    TrivialMultiples();
    if Multiple(a) {
      var q :| Mul(q, GENERATOR) == a;
      SmallProduct(q);
    }
  }

  lemma TrivialMultiples()
    ensures Mul(0, GENERATOR) == 0 && Mul(1, GENERATOR) == GENERATOR
  {
    MulOne(GENERATOR);
  }

  lemma SmallProduct(q: nat)
    requires Mul(q, GENERATOR) < Pow2(17)
    ensures q <= 1
  {
    if q > 1 {
      PowersNearGenerator();
      MulLarge(q, GENERATOR, 16);
    }
  }

  lemma PowersNearGenerator()
    ensures Pow2(16) == 0x10000 && Pow2(8) == 0x100 && Pow2(16) <= GENERATOR < Pow2(17)
  {
  }

  lemma CongruentTransitive(a: nat, b: nat, c: nat)
    requires Congruent(a, b) && Congruent(b, c)
    ensures Congruent(a, c)
  {
    MultipleAdd(Add(a, b), Add(b, c));
    AddComm(a, b);
    AddCancel(b, a, c);
  }

  lemma CongruentShift(a: nat, b: nat, k: nat)
    requires Congruent(a, b)
    ensures Congruent(Shift(a, k), Shift(b, k))
  {
    MultipleShift(Add(a, b), k);
    AddShift(a, b, k);
  }

  lemma CongruentAdd(a: nat, b: nat, c: nat)
    requires Congruent(a, b)
    ensures Congruent(Add(a, c), Add(b, c))
  {
    AddComm(a, c);
    AddComm(b, c);
    AddCancel(c, a, b);
  }

  lemma CongruentReflexive(a: nat)
    ensures Congruent(a, a)
  {
    AddSelf(a);
    assert Mul(0, GENERATOR) == 0;
  }

  /** There is only one remainder. */
  lemma RemainderUnique(p: nat, r: nat, s: nat)
    requires IsRemainder(p, r) && IsRemainder(p, s)
    ensures r == s
  {
    MultipleAdd(Add(p, r), Add(p, s));
    AddCancel(p, r, s);
    AddBound(r, s, 16);
    PowersNearGenerator();
    SmallMultiple(Add(r, s));
    AddIsZero(r, s);
  }

  // ----- The loop -----

  /** Exclusive or of two 16-bit words. */
  function XorWord(a: Word, b: Word): Word {
    XorIsWord(a, b);
    Add(a, b)
  }

  lemma XorIsWord(a: Word, b: Word)
    ensures Add(a, b) < 0x10000
  {
    PowersNearGenerator();
    AddBound(a, b, 16);
  }

  /** One pass of the inner loop. */
  function BitStep(c: Word): Word {
    if c / MOST_SIGNIFICANT_BIT % 2 == 1 then XorWord(2 * c % 0x10000, POLYNOMIAL) else 2 * c % 0x10000
  }

  function BitSteps(c: Word, n: nat): Word
    decreases n, c
  {
    if n == 0 then c else BitStep(BitSteps(c, n - 1))
  }

  /** One pass of the outer loop. */
  function ByteStep(c: Word, b: Byte): Word {
    BitSteps(XorWord(c, 0x100 * b), 8)
  }

  function Checksum(data: seq<Byte>): Word {
    if data == [] then INITIAL_VALUE else ByteStep(Checksum(data[..|data| - 1]), data[|data| - 1])
  }

  /** M(x) x^16 + 0xFFFF x^(8n) for a message of n bytes. */
  function Dividend(data: seq<Byte>): nat {
    Add(Shift(Message(data), 16), Shift(INITIAL_VALUE, 8 * |data|))
  }

  method CalculateCrc(memory: array<Byte>, start: nat, length: nat) returns (crc: Word)
    requires start + length <= memory.Length
    ensures crc == Checksum(memory[start..start + length])
    ensures IsRemainder(Dividend(memory[start..start + length]), crc)
  {
    crc := INITIAL_VALUE;
    ghost var data := memory[start..start + length];
    for i := 0 to length
      invariant crc == Checksum(data[..i])
    {
      assert data[..i + 1][..i] == data[..i] && data[..i + 1][i] == memory[start + i];
      crc := XorWord(crc, 0x100 * (memory[start + i] as int));
      ghost var mixed := crc;
      for j := 0 to 8
        invariant crc == BitSteps(mixed, j)
      {
        if crc / MOST_SIGNIFICANT_BIT % 2 == 1 {
          crc := XorWord(2 * crc % 0x10000, POLYNOMIAL);
        } else {
          crc := 2 * crc % 0x10000;
        }
      }
    }
    assert data[..length] == data;
    ChecksumIsRemainder(data);
  }

  // ----- The loop divides -----

  lemma TopBit(c: Word)
    ensures c >= 0x8000 ==> c / 0x8000 % 2 == 1 && 2 * c % 0x10000 == 2 * c - 0x10000
    ensures c < 0x8000 ==> c / 0x8000 % 2 == 0 && 2 * c % 0x10000 == 2 * c
  {
  }

  /** One bit step multiplies by x, modulo the generator. */
  lemma BitStepCongruent(c: Word)
    ensures Congruent(2 * c, BitStep(c))
  {
    TopBit(c);
    if c >= 0x8000 {
      var y := 2 * c - 0x10000;
      GeneratorSplit(y);
      GeneratorMultiple(2 * c, Add(y, POLYNOMIAL));
    } else {
      CongruentReflexive(2 * c);
    }
  }

  lemma GeneratorMultiple(a: nat, b: nat)
    requires Add(a, b) == GENERATOR
    ensures Congruent(a, b)
  {
    MulOne(GENERATOR);
  }

  lemma GeneratorSplit(y: nat)
    requires y < 0x10000
    ensures Add(0x10000 + y, Add(y, POLYNOMIAL)) == GENERATOR
  {
    PowersNearGenerator();
    ShiftOne(16);
    AddDisjoint(1, y, 16);
    AddDisjoint(1, POLYNOMIAL, 16);
    AddComm(0x10000, y);
    AddCancel(y, 0x10000, POLYNOMIAL);
  }

  lemma {:induction false} ShiftOne(k: nat)
    ensures Shift(1, k) == Pow2(k)
  {
    if k != 0 { ShiftOne(k - 1); }
  }

  lemma {:induction false} ShiftZero(k: nat)
    ensures Shift(0, k) == 0
  {
    if k != 0 { ShiftZero(k - 1); }
  }

  lemma ShiftByte(a: nat)
    ensures Shift(a, 8) == 0x100 * a
  {
    assert Shift(a, 1) == 2 * a;
    assert Shift(a, 2) == 4 * a;
    assert Shift(a, 3) == 8 * a;
    assert Shift(a, 4) == 16 * a;
    assert Shift(a, 5) == 32 * a;
    assert Shift(a, 6) == 64 * a;
  }

  lemma {:induction false} BitStepsCongruent(c: Word, n: nat)
    ensures Congruent(Shift(c, n), BitSteps(c, n))
    decreases n
  {
    if n == 0 {
      CongruentReflexive(c);
    } else {
      BitStepsCongruent(c, n - 1);
      NextBit(Shift(c, n - 1), BitSteps(c, n - 1));
    }
  }

  lemma NextBit(a: nat, c: Word)
    requires Congruent(a, c)
    ensures Congruent(2 * a, BitStep(c))
  {
    CongruentDouble(a, c);
    BitStepCongruent(c);
    CongruentTransitive(2 * a, 2 * c, BitStep(c));
  }

  lemma CongruentDouble(a: nat, b: nat)
    requires Congruent(a, b)
    ensures Congruent(2 * a, 2 * b)
  {
    CongruentShift(a, b, 1);
    assert Shift(a, 1) == 2 * Shift(a, 0) && Shift(b, 1) == 2 * Shift(b, 0);
  }

  /** One byte step multiplies by x^8 and adds the byte times x^16, modulo the generator. */
  lemma ByteStepCongruent(c: Word, b: Byte)
    ensures Congruent(Add(Shift(c, 8), Shift(b, 16)), ByteStep(c, b))
  {
    ShiftByte(b);
    AddShift(c, Shift(b, 8), 8);
    ShiftShift(b, 8, 8);
    BitStepsCongruent(XorWord(c, 0x100 * b), 8);
  }

  /** The checksum is the remainder of M(x) x^16 + 0xFFFF x^(8n) on division by the generator. */
  lemma {:induction false} ChecksumIsRemainder(data: seq<Byte>)
    ensures IsRemainder(Dividend(data), Checksum(data))
    ensures IsRemainder(Add(Shift(Value(MessageBits(data)), 16), Shift(0xFFFF, 8 * |data|)), Checksum(data))
  {
    PowersNearGenerator();
    var n := |data|;
    if n == 0 {
      ShiftZero(16);
      AddZero(INITIAL_VALUE);
      CongruentReflexive(INITIAL_VALUE);
    } else {
      var front, b := data[..n - 1], data[n - 1];
      assert front + [b] == data;
      ChecksumIsRemainder(front);
      RemainderStep(front, b);
    }
  }

  lemma RemainderStep(front: seq<Byte>, b: Byte)
    requires Congruent(Dividend(front), Checksum(front))
    ensures Congruent(Dividend(front + [b]), ByteStep(Checksum(front), b))
  {
    var d, r := Dividend(front), Checksum(front);
    CongruentShift(d, r, 8);
    CongruentAdd(Shift(d, 8), Shift(r, 8), Shift(b, 16));
    DividendStep(front, b);
    ByteStepCongruent(r, b);
    CongruentTransitive(Dividend(front + [b]), Add(Shift(r, 8), Shift(b, 16)), ByteStep(r, b));
  }

  lemma MessageStep(front: seq<Byte>, b: Byte)
    ensures Message(front + [b]) == Add(Shift(Message(front), 8), b)
  {
    assert (front + [b])[..|front|] == front;
    PowersNearGenerator();
    ValueConcat(MessageBits(front), BitsOf(b, 8));
    ValueOfBits(b, 8);
    AddDisjoint(Message(front), b, 8);
  }

  lemma DividendStep(front: seq<Byte>, b: Byte)
    ensures Dividend(front + [b]) == Add(Shift(Dividend(front), 8), Shift(b, 16))
  {
    var m, i0, n := Message(front), INITIAL_VALUE, 8 * |front|;
    MessageStep(front, b);
    assert 8 * |front + [b]| == n + 8;
    ShiftedMessage(m, b);
    ShiftedDividend(m, i0, n);
    MoveLast(Shift(m, 24), Shift(b, 16), Shift(i0, n + 8));
  }

  lemma ShiftedMessage(m: nat, b: nat)
    ensures Shift(Add(Shift(m, 8), b), 16) == Add(Shift(m, 24), Shift(b, 16))
  {
    AddShift(Shift(m, 8), b, 16);
    ShiftShift(m, 8, 16);
  }

  lemma ShiftedDividend(m: nat, i0: nat, n: nat)
    ensures Shift(Add(Shift(m, 16), Shift(i0, n)), 8) == Add(Shift(m, 24), Shift(i0, n + 8))
  {
    AddShift(Shift(m, 16), Shift(i0, n), 8);
    ShiftShift(m, 16, 8);
    ShiftShift(i0, n, 8);
  }

  lemma MoveLast(a: nat, b: nat, c: nat)
    ensures Add(Add(a, b), c) == Add(Add(a, c), b)
  {
    AddAssoc(a, b, c);
    AddComm(b, c);
    AddAssoc(a, c, b);
  }
}
