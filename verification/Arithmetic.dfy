/** Powers of two, and the few facts about products and quotients that the solver does not find by itself. */
module Arithmetic {

  type byte = x: int | 0 <= x < 256
  type u32 = x: int | 0 <= x < 0x1_0000_0000
  type u64 = x: int | 0 <= x < 0x1_0000_0000_0000_0000
  type u128 = x: int | 0 <= x < 0x1_0000_0000_0000_0000_0000_0000_0000_0000

  const TWO_128: nat := 0x1_0000_0000_0000_0000_0000_0000_0000_0000

  function Zeros(n: nat): (z: seq<byte>)
    ensures |z| == n && forall k :: 0 <= k < n ==> z[k] == 0
  {
    seq(n, _ => 0)
  }

  lemma DivNat(a: nat, d: nat)
    requires d > 0
    ensures 0 <= a / d <= a && a == (a / d) * d + a % d && 0 <= a % d < d
  {
    if a / d > a {
      MulMonotone(a + 1, a / d, d);
      MulMonotone(1, d, a + 1);
    }
  }

  lemma MulMonotone(x: int, y: int, d: nat)
    requires x <= y
    ensures x * d <= y * d
  {
  }

  lemma MulNat(x: nat, y: nat)
    ensures x * y >= 0
  {
  }

  lemma DoubleProduct(x: nat, y: nat)
    ensures (2 * x) * y == 2 * (x * y)
  {
  }

  lemma ProductDouble(x: nat, y: nat)
    ensures x * (2 * y) == 2 * (x * y)
  {
  }

  /** quotient and remainder are unique */
  lemma DivModUnique(a: int, d: nat, q: int, r: nat)
    requires a == q * d + r && r < d
    ensures a / d == q && a % d == r
  {
    var q', r' := a / d, a % d;
    assert a == q' * d + r' && 0 <= r' < d;
    if q < q' {
      MulMonotone(q + 1, q', d);
    } else if q' < q {
      MulMonotone(q' + 1, q, d);
    }
  }

  /** a quotient of something below n * d is below n */
  lemma DivBelow(a: nat, d: nat, n: nat)
    requires d > 0 && a < n * d
    ensures a / d < n
  {
    DivNat(a, d);
    if n <= a / d {
      MulMonotone(n, a / d, d);
    }
  }

  // ----- Powers of two -----

  function Pow2(n: nat): (r: nat)
    ensures r >= 1
  {
    if n == 0 then 1 else 2 * Pow2(n - 1)
  }

  ghost predicate IsPow2(n: nat) { exists k :: n == Pow2(k) }

  lemma {:induction false} Pow2Add(a: nat, b: nat)
    ensures Pow2(a + b) == Pow2(a) * Pow2(b)
  {
    if a > 0 {
      Pow2Add(a - 1, b);
      DoubleProduct(Pow2(a - 1), Pow2(b));
    }
  }

  lemma {:induction false} Pow2Monotone(a: nat, b: nat)
    requires a <= b
    ensures Pow2(a) <= Pow2(b)
  {
    if a < b {
      Pow2Monotone(a, b - 1);
    }
  }

  lemma {:induction false} Pow2Strict(a: nat, b: nat)
    requires a < b
    ensures Pow2(a) < Pow2(b)
  {
    if a < b - 1 {
      Pow2Strict(a, b - 1);
    }
  }

  lemma Pow2Injective(a: nat)
    ensures forall b :: Pow2(a) == Pow2(b) ==> a == b
  {
    forall b | Pow2(a) == Pow2(b) && a != b
      ensures false
    {
      if a < b {
        Pow2Strict(a, b);
      } else {
        Pow2Strict(b, a);
      }
    }
  }

  /** the number of values of a `u64` */
  const WORD: nat := 0x1_0000_0000_0000_0000

  lemma Pow2Square(a: nat, p: nat)
    requires Pow2(a) == p
    ensures Pow2(2 * a) == p * p
  {
    Pow2Add(a, a);
  }

  lemma WordBits(w: nat)
    requires w == 64
    ensures Pow2(w) == WORD
  {
    var a := w / 32;
    Pow2Square(a, 4);
    Pow2Square(2 * a, 16);
    Pow2Square(4 * a, 256);
    Pow2Square(8 * a, 0x1_0000);
    Pow2Square(16 * a, 0x1_0000_0000);
  }

  /** o * 2^t, doubling t times */
  function Scaled(o: nat, t: nat): nat
    decreases t
  {
    if t == 0 then o else Scaled(2 * o, t - 1)
  }

  lemma {:induction false} ScaledValue(o: nat, t: nat)
    ensures Scaled(o, t) == o * Pow2(t)
    decreases t
  {
    if t > 0 {
      ScaledValue(2 * o, t - 1);
      DoubleProduct(o, Pow2(t - 1));
      ProductDouble(o, Pow2(t - 1));
    }
  }

  // ----- Bits -----

  /** `x >> n`, one bit at a time */
  function Shr(x: nat, n: nat): nat {
    if n == 0 then x else Shr(x / 2, n - 1)
  }

  /** a right shift undoes a multiplication by a power of two */
  lemma {:induction false} ShrOfMultiple(q: nat, n: nat)
    ensures Shr(q * Pow2(n), n) == q
  {
    if n > 0 {
      ShrOfMultiple(q, n - 1);
      ProductDouble(q, Pow2(n - 1));
    }
  }

  /** `(x & (1 << k)) != 0` */
  function BitSet(x: nat, k: nat): bool { Shr(x, k) % 2 == 1 }

  /** the number of bits up to the highest one that is set */
  function Bits(n: nat): nat { if n == 0 then 0 else 1 + Bits(n / 2) }

  lemma {:induction false} ShrStep(x: nat, k: nat)
    ensures Shr(x, k + 1) == Shr(x, k) / 2
  {
    if k > 0 {
      ShrStep(x / 2, k - 1);
    }
  }

  lemma {:induction false} ShrAllBits(x: nat)
    ensures Shr(x, Bits(x)) == 0
  {
    if x > 0 {
      ShrAllBits(x / 2);
    }
  }

  /** the bits below k and the value above them */
  lemma {:induction false} ShrBound(x: nat, k: nat)
    ensures Shr(x, k) * Pow2(k) <= x < (Shr(x, k) + 1) * Pow2(k)
  {
    if k > 0 {
      ShrBound(x / 2, k - 1);
      var q, p := Shr(x, k), Pow2(k - 1);
      ProductDouble(q, p);
      ProductDouble(q + 1, p);
    }
  }
}
