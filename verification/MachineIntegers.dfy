/** The fixed-width unsigned integers of the runtime, as the numbers they hold. */
module MachineIntegers {
  const TWO_32: nat := 0x1_0000_0000
  const TWO_48: nat := 0x1_0000_0000_0000
  const TWO_64: nat := 0x1_0000_0000_0000_0000

  type Uint32 = n: nat | n < TWO_32
  type Uint64 = n: nat | n < TWO_64

  lemma WrapSum(a: nat, b: nat)
    ensures (a % TWO_64 + b) % TWO_64 == (a + b) % TWO_64
  {
  }

  lemma MulMonotone(a: nat, b: nat, c: nat)
    requires b <= c
    ensures 0 <= a * b <= a * c
  {
  }

  lemma DivideBounds(n: nat, d: nat)
    requires d > 0
    ensures n / d * d <= n < (n / d + 1) * d
  {
  }

  lemma RealProduct(a: nat, n: nat)
    ensures (a * n) as real == a as real * n as real
  {
  }

  lemma Multiples(n: nat, p: nat, q: nat)
    ensures p > q ==> n * p >= n * q + n
  {
    if p > q { MulMonotone(n, q + 1, p); }
  }
}
