/** What the checksum detects, from its reading as division over GF(2).
  *
  * A codeword is a message followed by a 16-bit check word; it is accepted when the check word is
  * the checksum of the message.
  */
module CrcDetection {
  import opened Gf2
  import opened BitString
  import opened Crc

  function CodeBits(data: seq<Byte>, check: Word): (s: Bits)
    ensures |s| == 8 * |data| + 16
  {
    MessageBits(data) + BitsOf(check, 16)
  }

  predicate Accepted(data: seq<Byte>, check: Word) {
    Checksum(data) == check
  }

  /** The positions at which two codewords of one length differ. */
  function ErrorBits(data: seq<Byte>, check: Word, data': seq<Byte>, check': Word): (e: Bits)
    requires |data| == |data'|
    ensures |e| == 8 * |data| + 16
  {
    Xor(CodeBits(data, check), CodeBits(data', check'))
  }

  /** All one bits lie among the w consecutive ones from position s on. */
  predicate IsBurst(e: Bits, s: nat, w: nat) {
    forall i :: 0 <= i < |e| && !(s <= i < s + w) ==> !e[i]
  }

  // ----- Acceptance is divisibility -----

  lemma CodeValue(data: seq<Byte>, check: Word)
    ensures Value(CodeBits(data, check)) == Add(Shift(Message(data), 16), check)
  {
    PowersNearGenerator();
    ValueConcat(MessageBits(data), BitsOf(check, 16));
    ValueOfBits(check, 16);
    AddDisjoint(Message(data), check, 16);
  }

  lemma AcceptedIff(data: seq<Byte>, check: Word)
    ensures Accepted(data, check) <==>
            Multiple(Add(Value(CodeBits(data, check)), Shift(INITIAL_VALUE, 8 * |data|)))
  {
    var m, i0 := Shift(Message(data), 16), Shift(INITIAL_VALUE, 8 * |data|);
    CodeValue(data, check);
    MoveLast(m, check, i0);
    ChecksumIsRemainder(data);
    PowersNearGenerator();
    if Congruent(Dividend(data), check) {
      RemainderUnique(Dividend(data), check, Checksum(data));
    }
  }

  /** Sent a valid codeword, the receiver accepts exactly the errors the generator divides. */
  lemma UndetectedIff(data: seq<Byte>, data': seq<Byte>, check': Word)
    requires |data| == |data'|
    ensures Accepted(data', check') <==> Multiple(Value(ErrorBits(data, Checksum(data), data', check')))
  {
    var u, v := CodeBits(data, Checksum(data)), CodeBits(data', check');
    var i0 := Shift(INITIAL_VALUE, 8 * |data|);
    AcceptedIff(data, Checksum(data));
    AcceptedIff(data', check');
    ValueXor(u, v);
    var a, b := Add(Value(u), i0), Add(Value(v), i0);
    AddComm(Value(u), i0);
    AddComm(Value(v), i0);
    AddCancel(i0, Value(u), Value(v));
    assert Add(a, b) == Value(Xor(u, v));
    if Multiple(b) {
      MultipleAdd(a, b);
    }
    if Multiple(Add(a, b)) {
      MultipleAdd(a, Add(a, b));
      AddZero(a);
      AddCancel(a, 0, b);
      AddZero(b);
    }
  }

  // ----- Equal codewords -----

  lemma ByteBitsInjective(a: Byte, b: Byte)
    requires BitsOf(a, 8) == BitsOf(b, 8)
    ensures a == b
  {
    PowersNearGenerator();
    ValueOfBits(a, 8);
    ValueOfBits(b, 8);
  }

  lemma {:induction false} MessageBitsInjective(data: seq<Byte>, data': seq<Byte>)
    requires |data| == |data'| && MessageBits(data) == MessageBits(data')
    ensures data == data'
  {
    if data != [] {
      var k := |data| - 1;
      SameParts(MessageBits(data[..k]), BitsOf(data[k], 8), MessageBits(data'[..k]), BitsOf(data'[k], 8));
      ByteBitsInjective(data[k], data'[k]);
      MessageBitsInjective(data[..k], data'[..k]);
      assert data == data[..k] + [data[k]] && data' == data'[..k] + [data'[k]];
    }
  }

  lemma SameParts(s: Bits, t: Bits, u: Bits, v: Bits)
    requires |s| == |u| && s + t == u + v
    ensures s == u && t == v
  {
    assert s == (s + t)[..|s|] && u == (u + v)[..|s|];
    assert t == (s + t)[|s|..] && v == (u + v)[|s|..];
  }

  lemma NoErrorMeansEqual(data: seq<Byte>, check: Word, data': seq<Byte>, check': Word)
    requires |data| == |data'| && ErrorBits(data, check, data', check') == Zeros(8 * |data| + 16)
    ensures data == data' && check == check'
  {
    var n := 8 * |data|;
    var u, v := CodeBits(data, check), CodeBits(data', check');
    forall i | 0 <= i < n + 16 ensures u[i] == v[i] {
      assert !Xor(u, v)[i];
    }
    assert u == v;
    assert u[..n] == MessageBits(data) && v[..n] == MessageBits(data');
    assert u[n..] == BitsOf(check, 16) && v[n..] == BitsOf(check', 16);
    MessageBitsInjective(data, data');
    PowersNearGenerator();
    ValueOfBits(check, 16);
    ValueOfBits(check', 16);
  }

  // ----- Errors the generator does not divide -----

  lemma WindowValue(front: Bits, window: Bits, tail: Bits)
    requires Value(front) == 0 && Value(tail) == 0
    ensures Value(front + window + tail) == Shift(Value(window), |tail|)
  {
    ValueConcat(front, window);
    ShiftZero(|window|);
    ValueConcat(front + window, tail);
  }

  lemma WindowMultiple(window: Bits, k: nat)
    requires |window| <= 17
    ensures Multiple(Shift(Value(window), k)) <==> Value(window) == 0 || Value(window) == GENERATOR
  {
    ValueBound(window);
    Pow2Monotone(|window|, 17);
    SmallMultiple(Value(window));
    if Multiple(Shift(Value(window), k)) { MultipleUnshift(Value(window), k); }
    if Multiple(Value(window)) { MultipleShift(Value(window), k); }
  }

  lemma SplitThree(e: Bits, lo: nat, hi: nat)
    requires lo <= hi <= |e|
    ensures e == e[..lo] + e[lo..hi] + e[hi..]
  {
  }

  lemma BurstMultiple(e: Bits, lo: nat, hi: nat)
    requires lo <= hi <= |e| && hi - lo <= 17 && IsBurst(e, lo, hi - lo)
    ensures Multiple(Value(e)) <==> Value(e[lo..hi]) == 0 || Value(e[lo..hi]) == GENERATOR
  {
    var front, window, tail := e[..lo], e[lo..hi], e[hi..];
    SplitThree(e, lo, hi);
    ValueZero(front);
    ValueZero(tail);
    WindowValue(front, window, tail);
    WindowMultiple(window, |tail|);
  }

  lemma BurstNotMultiple(e: Bits, s: nat)
    requires IsBurst(e, s, 16) && e != Zeros(|e|)
    ensures !Multiple(Value(e))
  {
    var lo := if s < |e| then s else |e|;
    var hi := if s + 16 < |e| then s + 16 else |e|;
    WindowHasOne(e, lo, hi);
    ValueBound(e[lo..hi]);
    Pow2Monotone(hi - lo, 16);
    PowersNearGenerator();
    BurstMultiple(e, lo, hi);
  }

  lemma WindowHasOne(e: Bits, lo: nat, hi: nat)
    requires lo <= hi <= |e| && e != Zeros(|e|) && IsBurst(e, lo, hi - lo)
    ensures Value(e[lo..hi]) != 0
  {
    assert exists i :: 0 <= i < |e| && e[i];
    var i :| 0 <= i < |e| && e[i];
    assert e[lo..hi][i - lo];
    ValueZero(e[lo..hi]);
  }

  /** Whether a polynomial has an odd number of terms. */
  function Odd(p: nat): bool {
    if p == 0 then false else Odd(p / 2) != (p % 2 == 1)
  }

  lemma {:induction false} OddAdd(a: nat, b: nat)
    ensures Odd(Add(a, b)) == (Odd(a) != Odd(b))
    decreases a + b
  {
    if a + b != 0 {
      OddAdd(a / 2, b / 2);
      AddHalf(a, b);
    }
  }

  lemma {:induction false} OddMul(q: nat, g: nat)
    requires !Odd(g)
    ensures !Odd(Mul(q, g))
    decreases q
  {
    if q != 0 {
      OddMul(q / 2, g);
      OddAdd(2 * Mul(q / 2, g), Times(q % 2, g));
    }
  }

  lemma {:induction false} OddWeight(s: Bits)
    ensures Odd(Value(s)) == (Weight(s) % 2 == 1)
  {
    if s != [] { OddWeight(s[..|s| - 1]); }
  }

  lemma GeneratorIsEven()
    ensures !Odd(GENERATOR)
  {
    assert !Odd(0x110) && Odd(0x8810) && Odd(0x4408);
    assert GENERATOR / 2 == 0x8810;
  }

  lemma OddNotMultiple(e: Bits)
    requires Weight(e) % 2 == 1
    ensures !Multiple(Value(e))
  {
    OddWeight(e);
    GeneratorIsEven();
    if Multiple(Value(e)) {
      var q :| Mul(q, GENERATOR) == Value(e);
      OddMul(q, GENERATOR);
    }
  }

  // ----- Detection -----

  /** Any change confined to 16 consecutive bits of a codeword, in payloads of any length, is detected. */
  lemma BurstDetected(data: seq<Byte>, data': seq<Byte>, check': Word, s: nat)
    requires |data| == |data'| && (data != data' || Checksum(data) != check')
    requires IsBurst(ErrorBits(data, Checksum(data), data', check'), s, 16)
    ensures !Accepted(data', check')
  {
    var e := ErrorBits(data, Checksum(data), data', check');
    if e == Zeros(|e|) {
      NoErrorMeansEqual(data, Checksum(data), data', check');
    }
    UndetectedIff(data, data', check');
    BurstNotMultiple(e, s);
  }

  lemma ZeroBurst(e: Bits, lo: nat, hi: nat)
    requires lo <= hi <= |e| && IsBurst(e, lo, hi - lo) && Value(e[lo..hi]) == 0
    ensures e == Zeros(|e|)
  {
    ValueZero(e[lo..hi]);
    forall i | 0 <= i < |e| ensures !e[i] {
      if lo <= i < hi { assert e[lo..hi][i - lo] == e[i]; }
    }
  }

  lemma GeneratorBits(w: Bits)
    requires |w| == 17
    ensures Value(w) == GENERATOR <==> w == BitsOf(GENERATOR, 17)
  {
    PowersNearGenerator();
    ValueOfBits(GENERATOR, 17);
    BitsOfValue(w);
  }

  /** The limit: among changes within 17 consecutive bits only the generator's own pattern passes. */
  lemma WideBurst(data: seq<Byte>, data': seq<Byte>, check': Word, s: nat)
    requires |data| == |data'| && (data != data' || Checksum(data) != check')
    requires s <= 8 * |data| - 1 && IsBurst(ErrorBits(data, Checksum(data), data', check'), s, 17)
    ensures Accepted(data', check') <==>
            ErrorBits(data, Checksum(data), data', check')[s..s + 17] == BitsOf(GENERATOR, 17)
  {
    var e := ErrorBits(data, Checksum(data), data', check');
    if Value(e[s..s + 17]) == 0 {
      ZeroBurst(e, s, s + 17);
      NoErrorMeansEqual(data, Checksum(data), data', check');
    }
    UndetectedIff(data, data', check');
    BurstMultiple(e, s, s + 17);
    GeneratorBits(e[s..s + 17]);
  }

  /** Any odd number of flipped bits, wherever they are, is detected. */
  lemma OddDetected(data: seq<Byte>, data': seq<Byte>, check': Word)
    requires |data| == |data'| && Weight(ErrorBits(data, Checksum(data), data', check')) % 2 == 1
    ensures !Accepted(data', check')
  {
    UndetectedIff(data, data', check');
    OddNotMultiple(ErrorBits(data, Checksum(data), data', check'));
  }

  /** Two different payloads that differ only within 16 consecutive bits have different checksums. */
  lemma PayloadBurst(data: seq<Byte>, data': seq<Byte>, s: nat)
    requires |data| == |data'| && data != data'
    requires forall i :: 0 <= i < 8 * |data| && !(s <= i < s + 16) ==> MessageBits(data)[i] == MessageBits(data')[i]
    ensures Checksum(data) != Checksum(data')
  {
    PayloadErrors(data, data', Checksum(data), s);
    BurstDetected(data, data', Checksum(data), s);
  }

  lemma PayloadErrors(data: seq<Byte>, data': seq<Byte>, check: Word, s: nat)
    requires |data| == |data'|
    requires forall i :: 0 <= i < 8 * |data| && !(s <= i < s + 16) ==> MessageBits(data)[i] == MessageBits(data')[i]
    ensures IsBurst(ErrorBits(data, check, data', check), s, 16)
  {
    var u, v := CodeBits(data, check), CodeBits(data', check);
    assert forall i :: 8 * |data| <= i < |u| ==> u[i] == v[i];
  }
}
