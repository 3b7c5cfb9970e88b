/** Bit strings, most significant bit first, read as polynomials over GF(2). */
module BitString {
  import opened MachineIntegers
  import opened Gf2

  type Bits = seq<bool>

  function Value(s: Bits): nat {
    if s == [] then 0 else 2 * Value(s[..|s| - 1]) + if s[|s| - 1] then 1 else 0
  }

  /** The k low bits of n. */
  function BitsOf(n: nat, k: nat): (s: Bits)
    ensures |s| == k
    decreases k, n
  {
    if k == 0 then [] else BitsOf(n / 2, k - 1) + [n % 2 == 1]
  }

  function Zeros(k: nat): (s: Bits)
    ensures |s| == k && forall i :: 0 <= i < k ==> !s[i]
  {
    seq(k, _ => false)
  }

  function Xor(s: Bits, t: Bits): (r: Bits)
    requires |s| == |t|
    ensures |r| == |s| && forall i :: 0 <= i < |s| ==> r[i] == (s[i] != t[i])
  {
    seq(|s|, i requires 0 <= i < |s| => s[i] != t[i])
  }

  /** The number of one bits. */
  function Weight(s: Bits): nat {
    if s == [] then 0 else Weight(s[..|s| - 1]) + if s[|s| - 1] then 1 else 0
  }

  lemma {:induction false} ValueBound(s: Bits)
    ensures Value(s) < Pow2(|s|)
  {
    if s != [] { ValueBound(s[..|s| - 1]); }
  }

  lemma {:induction false} ValueConcat(s: Bits, t: Bits)
    ensures Value(s + t) == Shift(Value(s), |t|) + Value(t)
  {
    if t == [] {
      assert s + t == s;
    } else {
      var u := t[..|t| - 1];
      assert (s + t)[..|s + t| - 1] == s + u;
      ValueConcat(s, u);
    }
  }

  lemma {:induction false} ValueZero(s: Bits)
    ensures Value(s) == 0 <==> forall i :: 0 <= i < |s| ==> !s[i]
  {
    if s != [] { ValueZero(s[..|s| - 1]); }
  }

  lemma {:induction false} ValueXor(s: Bits, t: Bits)
    requires |s| == |t|
    ensures Value(Xor(s, t)) == Add(Value(s), Value(t))
  {
    if s != [] {
      var u, v := s[..|s| - 1], t[..|t| - 1];
      assert Xor(s, t)[..|s| - 1] == Xor(u, v);
      ValueXor(u, v);
      AddAppend(Value(u), Value(v), if s[|s| - 1] then 1 else 0, if t[|t| - 1] then 1 else 0);
    }
  }

  lemma {:induction false} ValueOfBits(n: nat, k: nat)
    requires n < Pow2(k)
    ensures Value(BitsOf(n, k)) == n
    decreases k, n
  {
    if k != 0 {
      ValueOfBits(n / 2, k - 1);
      assert BitsOf(n, k)[..k - 1] == BitsOf(n / 2, k - 1);
    }
  }

  lemma {:induction false} BitsOfValue(s: Bits)
    ensures BitsOf(Value(s), |s|) == s
  {
    if s != [] {
      var front := s[..|s| - 1];
      BitsOfValue(front);
      assert Value(s) / 2 == Value(front) && (Value(s) % 2 == 1) == s[|s| - 1];
      assert s == front + [s[|s| - 1]];
    }
  }

  /** Bit j of the k low bits of n has the weight 2^(k - 1 - j). */
  lemma {:induction false} BitsOfAt(n: nat, k: nat, j: nat)
    requires j < k
    ensures BitsOf(n, k)[j] == (n / Pow2(k - 1 - j) % 2 == 1)
    decreases k, n
  {
    if j < k - 1 {
      BitsOfAt(n / 2, k - 1, j);
      HalvesCompose(n, Pow2(k - 2 - j));
    }
  }

  lemma HalvesCompose(n: nat, d: nat)
    requires d > 0
    ensures n / 2 / d == n / (2 * d)
  {
    var m, q, p := n / 2, n / 2 / d, n / 2 / d * d;
    DivideBounds(m, d);
    NextMultiple(q, d);
    assert 2 * p <= n < 2 * p + 2 * d;
    DoubleMultiple(q, d);
    QuotientIs(n, 2 * d, q);
  }

  lemma NextMultiple(q: nat, d: nat)
    ensures (q + 1) * d == q * d + d
  {
  }

  lemma DoubleMultiple(q: nat, d: nat)
    ensures q * (2 * d) == 2 * (q * d)
  {
  }

  lemma QuotientIs(n: nat, d: nat, q: nat)
    requires d > 0 && q * d <= n < q * d + d
    ensures n / d == q
  {
    DivideBounds(n, d);
    NextMultiple(n / d, d);
    Multiples(d, n / d, q);
    Multiples(d, q, n / d);
  }

  lemma {:induction false} WeightConcat(s: Bits, t: Bits)
    ensures Weight(s + t) == Weight(s) + Weight(t)
  {
    if t == [] {
      assert s + t == s;
    } else {
      assert (s + t)[..|s + t| - 1] == s + t[..|t| - 1];
      WeightConcat(s, t[..|t| - 1]);
    }
  }

  lemma XorConcat(s: Bits, t: Bits, u: Bits, v: Bits)
    requires |s| == |u| && |t| == |v|
    ensures Xor(s + t, u + v) == Xor(s, u) + Xor(t, v)
  {
  }
}
