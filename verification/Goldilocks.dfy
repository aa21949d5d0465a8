/** The Goldilocks field of plonky2: elements are stored as arbitrary 64-bit representatives, and
    every operation reduces modulo 2^64 - 2^32 + 1 without a division. */
module Goldilocks {
  import opened Arithmetic
  import opened Wrappers
  import opened NumberTheory
  import opened Fields


  const EPSILON: u64 := 0xFFFF_FFFF
  const ORDER: u64 := 0xFFFF_FFFF_0000_0001

  /** representatives in canonical form */
  type Canonical = x: int | 0 <= x < ORDER

  /** the element that a representative stands for */
  function Value(x: int): Canonical { x % ORDER }

  // ----- The integers modulo the order as a field -----

  function ModAdd(a: Canonical, b: Canonical): Canonical { (a + b) % ORDER }

  function ModNeg(a: Canonical): Canonical { (ORDER - a) % ORDER }

  function ModMul(a: Canonical, b: Canonical): Canonical { (a * b) % ORDER }

  /** the inverse as a power, by Fermat's little theorem */
  function ModInv(a: Canonical): Canonical { Power(a, ORDER - 2) % ORDER }

  const GL: Field<Canonical> := Field(0, 1, ModAdd, ModNeg, ModMul, ModInv)

  lemma AddThree(a: Canonical, b: Canonical, c: Canonical)
    ensures ModAdd(ModAdd(a, b), c) == (a + b + c) % ORDER
  {
    ResidueOfSum(a + b, c, ORDER);
  }

  lemma AddLaws(a: Canonical, b: Canonical, c: Canonical)
    ensures ModAdd(a, b) == ModAdd(b, a)
    ensures ModAdd(ModAdd(a, b), c) == ModAdd(a, ModAdd(b, c))
    ensures ModAdd(a, 0) == a && ModAdd(a, ModNeg(a)) == 0
  {
    AddThree(a, b, c);
    AddThree(b, c, a);
    ResidueOfSum(ORDER - a, a, ORDER);
  }

  lemma MulAssociates(p: nat, a: int, b: int, c: int)
    requires p > 0
    ensures (((a * b) % p) * c) % p == (a * ((b * c) % p)) % p
  {
    ResidueOfProduct(a * b, c, p);
    ResidueOfProduct(b * c, a, p);
    assert a * ((b * c) % p) == ((b * c) % p) * a && (a * b) * c == (b * c) * a;
  }

  lemma MulDistributes(p: nat, a: int, b: int, c: int)
    requires p > 0
    ensures (a * ((b + c) % p)) % p == ((a * b) % p + (a * c) % p) % p
  {
    ResidueOfProduct(b + c, a, p);
    ResidueOfSum(a * b, (a * c) % p, p);
    ResidueOfSum(a * c, a * b, p);
    assert a * ((b + c) % p) == ((b + c) % p) * a && (b + c) * a == a * b + a * c;
  }

  lemma FermatInverse(p: nat, a: int)
    requires IsPrime(p) && a % p != 0
    ensures (a * (Power(a, p - 2) % p)) % p == 1
  {
    Fermat(p, a);
    ResidueOfProduct(Power(a, p - 2), a, p);
    assert a * (Power(a, p - 2) % p) == (Power(a, p - 2) % p) * a && Power(a, p - 2) * a == Power(a, p - 1);
  }

  lemma MulLaws(a: Canonical, b: Canonical, c: Canonical)
    ensures ModMul(a, b) == ModMul(b, a)
    ensures ModMul(ModMul(a, b), c) == ModMul(a, ModMul(b, c))
    ensures ModMul(a, 1) == a
    ensures ModMul(a, ModAdd(b, c)) == ModAdd(ModMul(a, b), ModMul(a, c))
  {
    MulAssociates(ORDER, a, b, c);
    MulDistributes(ORDER, a, b, c);
    assert a * b == b * a;
  }

  /** Primality of the order is all that the field laws need. */
  lemma IsFieldGL()
    requires IsPrime(ORDER)
    ensures IsField(GL)
  {
    forall a: Canonical, b: Canonical, c: Canonical
      ensures Law(GL, a, b, c)
    {
      AddLaws(a, b, c);
      MulLaws(a, b, c);
      if a != 0 {
        FermatInverse(ORDER, a);
      }
    }
  }

  // ----- Machine arithmetic -----

  /** `overflowing_add` */
  function OverflowingAdd(x: u64, y: u64): (u64, bool) {
    if x + y >= WORD then (x + y - WORD, true) else (x + y, false)
  }

  /** `overflowing_sub` */
  function OverflowingSub(x: u64, y: u64): (u64, bool) {
    if x < y then (x - y + WORD, true) else (x - y, false)
  }

  function AsU64(b: bool): u64 { if b then 1 else 0 }

  /** equal modulo the order, with the quotient as a witness that keeps the proof linear */
  lemma Congruent(x: int, y: int, k: int)
    requires x == y + k * ORDER
    ensures Value(x) == Value(y)
  {
    AddMultiple(y, k, ORDER);
  }

  lemma ValueOfSum(x: int, y: int)
    ensures Value(x + y) == ModAdd(Value(x), Value(y))
  {
    ResidueOfSum(x, y, ORDER);
    ResidueOfSum(y, Value(x), ORDER);
  }

  lemma ValueOfProduct(x: int, y: int)
    ensures Value(x * y) == ModMul(Value(x), Value(y))
  {
    ResidueOfProduct(x, y, ORDER);
    ResidueOfProduct(y, Value(x), ORDER);
    assert x * y == y * x && Value(x) * y == y * Value(x) && Value(x) * Value(y) == Value(y) * Value(x);
  }

  // ----- The operations -----

  method ToCanonicalU64(x: u64) returns (c: u64)
    ensures c == Value(x)
  {
    c := x;
    if c >= ORDER {
      c := c - ORDER;
    }
  }

  /** The two obligations of the source's comments are discharged here: the hint to the compiler about
      a double overflow holds, and the last addition does not overflow. */
  method Add(x: u64, y: u64) returns (r: u64)
    ensures Value(r) == GL.Add(Value(x), Value(y))
  {
    var (sum, over) := OverflowingAdd(x, y);
    var (sum', over') := OverflowingAdd(sum, AsU64(over) * EPSILON);
    r := sum';
    if over' {
      assert x > ORDER && y > ORDER;
      r := r + EPSILON;
    }
    ValueOfSum(x, y);
    Congruent(x + y, r, if over' then 2 else if over then 1 else 0);
  }

  method Sub(x: u64, y: u64) returns (r: u64)
    ensures Value(r) == GL.Sub(Value(x), Value(y))
  {
    var (diff, under) := OverflowingSub(x, y);
    var (diff', under') := OverflowingSub(diff, AsU64(under) * EPSILON);
    r := diff';
    if under' {
      assert x < EPSILON - 1 && y > ORDER;
      r := r - EPSILON;
    }
    Congruent(x - y, r, if under' then -2 else if under then -1 else 0);
    ghost var y': int := y;
    ValueOfSum(x, -y');
    ValueOfNeg(y');
  }

  lemma ValueOfNeg(y: int)
    ensures Value(-y) == ModNeg(Value(y))
  {
    Congruent(-y, ORDER - Value(y), -(y / ORDER) - 1);
  }

  method Neg(x: u64) returns (r: u64)
    ensures Value(r) == GL.Neg(Value(x)) && r < ORDER
  {
    var c := ToCanonicalU64(x);
    r := if c == 0 then 0 else ORDER - c;
  }

  /** The source calls this unsafe because the final addition may overflow unless x + y < 2^64 + ORDER. */
  method AddNoCanonicalize(x: u64, y: u64) returns (r: u64)
    requires x + y < WORD + ORDER
    ensures Value(r) == Value(x + y)
  {
    var (resWrapped, carry) := OverflowingAdd(x, y);
    r := resWrapped + EPSILON * AsU64(carry);
    Congruent(x + y, r, if carry then 1 else 0);
  }

  /** 2^64 = 2^32 - 1 and 2^96 = -1 modulo the order */
  lemma FoldWords(x: int, lo: int, mid: int, hi: int)
    requires x == lo + 0x1_0000_0000_0000_0000 * mid + 0x1_0000_0000_0000_0000_0000_0000 * hi
    ensures Value(x) == Value(lo - hi + mid * EPSILON)
  {
    Congruent(x, lo - hi + mid * EPSILON, mid + 0x1_0000_0001 * hi - hi + hi);
  }

  lemma SplitWords(lo: nat)
    ensures lo == lo % WORD + WORD * ((lo / WORD) % 0x1_0000_0000)
            + 0x1_0000_0000_0000_0000_0000_0000 * (lo / 0x1_0000_0000_0000_0000_0000_0000)
  {
    var q := lo / WORD;
    assert q / 0x1_0000_0000 == lo / 0x1_0000_0000_0000_0000_0000_0000;
  }

  method Reduce96(xLo: u64, xHi: u32) returns (r: u64)
    ensures Value(r) == Value(xLo + 0x1_0000_0000_0000_0000 * xHi)
  {
    var t1: u64 := xHi * EPSILON;
    r := AddNoCanonicalize(xLo, t1);
    FoldWords(xLo + 0x1_0000_0000_0000_0000 * xHi, xLo, xHi, 0);
  }

  /** The low 64 bits minus the top word, the step that `reduce128` and `reduce160` share: the
      correction after a borrow does not underflow when the top word is canonical. */
  method SubtractHigh(xLo: u64, xHi: u64) returns (t0: u64)
    requires xHi <= ORDER
    ensures Value(t0) == Value(xLo - xHi)
  {
    var (t, borrow) := OverflowingSub(xLo, xHi);
    t0 := t;
    if borrow {
      t0 := t0 - EPSILON;
    }
    Congruent(xLo - xHi, t0, if borrow then -1 else 0);
  }

  method Reduce128(x: u128) returns (r: u64)
    ensures Value(r) == Value(x)
  {
    var xLo: u64, xHi: u64 := x % WORD, x / WORD;
    var xHiHi, xHiLo := xHi / 0x1_0000_0000, xHi % 0x1_0000_0000;
    var t0 := SubtractHigh(xLo, xHiHi);
    var t1: u64 := xHiLo * EPSILON;
    r := AddNoCanonicalize(t0, t1);
    ResidueOfSum(t0, t1, ORDER);
    ResidueOfSum(xLo - xHiHi, t1, ORDER);
    FoldWords(x, xLo, xHiLo, xHiHi);
  }

  /** the bound that `reduce160` relies on without checking it */
  const REDUCE160_BOUND: nat :=
    0x1_0000_0000_0000_0000_0000_0000_0000_0000_0000_0000 - 0x1_0000_0000_0000_0000_0000_0000_0000_0000
      + 0x1_0000_0000_0000_0000_0000_0000

  method Reduce160(xLo: u128, xHi: u32) returns (r: u64)
    requires xLo + 0x1_0000_0000_0000_0000_0000_0000_0000_0000 * xHi < REDUCE160_BOUND
    ensures Value(r) == Value(xLo + 0x1_0000_0000_0000_0000_0000_0000_0000_0000 * xHi)
  {
    ghost var x := xLo + 0x1_0000_0000_0000_0000_0000_0000_0000_0000 * xHi;
    var xHi': u64 := xLo / 0x1_0000_0000_0000_0000_0000_0000 + xHi * 0x1_0000_0000;
    var xMid: u32 := (xLo / 0x1_0000_0000_0000_0000) % 0x1_0000_0000;
    var xLo': u64 := xLo % WORD;
    var t0 := SubtractHigh(xLo', xHi');
    var t1: u64 := xMid * EPSILON;
    r := AddNoCanonicalize(t0, t1);
    ResidueOfSum(t0, t1, ORDER);
    ResidueOfSum(xLo' - xHi', t1, ORDER);
    SplitWords(xLo);
    FoldWords(x, xLo', xMid, xHi');
  }

  lemma ProductFits(x: u64, y: u64)
    ensures 0 <= x * y <= (WORD - 1) * (WORD - 1)
  {
    MulMonotone(y, WORD - 1, x);
    MulMonotone(x, WORD - 1, WORD - 1);
    MulNat(x, y);
  }

  method Mul(x: u64, y: u64) returns (r: u64)
    ensures Value(r) == GL.Mul(Value(x), Value(y))
  {
    ProductFits(x, y);
    r := Reduce128(x * y);
    ValueOfProduct(x, y);
  }

  /** `from_noncanonical_i64`: a negative argument wraps around into the canonical range */
  method FromNoncanonicalI64(n: int) returns (r: u64)
    requires -0x8000_0000_0000_0000 <= n < 0x8000_0000_0000_0000
    ensures Value(r) == Value(n) && r < ORDER
  {
    if n < 0 {
      var asU64: u64 := n + WORD;
      r := (ORDER + asU64) % WORD;
      Congruent(r, n, 1);
    } else {
      r := n;
    }
  }

  // ----- Inversion -----

  /** `y` represents the e-th power of the element that `x` represents */
  ghost predicate IsPower(x: u64, y: u64, e: nat) {
    Value(y) == GL.Pow(Value(x), e)
  }

  method MulPowers(ghost x: u64, y: u64, ghost a: nat, z: u64, ghost b: nat) returns (r: u64)
    requires IsField(GL) && IsPower(x, y, a) && IsPower(x, z, b)
    ensures IsPower(x, r, a + b)
  {
    r := Mul(y, z);
    PowAdd(GL, Value(x), a, b);
  }

  /** `exp_acc`: n squarings of the base, then a multiplication by the tail */
  method ExpAcc(n: nat, ghost x: u64, base: u64, ghost a: nat, tail: u64, ghost b: nat) returns (r: u64)
    requires IsField(GL) && IsPower(x, base, a) && IsPower(x, tail, b)
    ensures a * Pow2(n) >= 0 && IsPower(x, r, a * Pow2(n) + b)
  {
    var res := base;
    ghost var c := a;
    for i := 0 to n
      invariant IsPower(x, res, c) && c == a * Pow2(i)
    {
      ProductDouble(a, Pow2(i));
      res := MulPowers(x, res, c, res, c);
      c := c + c;
    }
    r := MulPowers(x, res, c, tail, b);
  }

  lemma SmallPowers(w: nat)
    requires w == 3
    ensures Pow2(w) == 8 && Pow2(2 * w) == 64 && Pow2(4 * w) == 4096
  {
    Pow2Square(w, 8);
    Pow2Square(2 * w, 64);
  }

  /** the chain of 72 multiplications, with the exponent it reaches */
  method FermatPower(x: u64) returns (r: u64)
    requires IsField(GL)
    ensures IsPower(x, r, ORDER - 2)
  {
    PowSmall(GL, Value(x));
    var n3, n6, n12, n32 := 3, 6, 12, 32;
    SmallPowers(n3);
    ThirtyTwoBits(n32);
    var x2 := MulPowers(x, x, 1, x, 1);
    var t2 := MulPowers(x, x2, 2, x, 1);
    var t2s := MulPowers(x, t2, 0x3, t2, 0x3);
    var t3 := MulPowers(x, t2s, 0x6, x, 1);
    var t6 := ExpAcc(n3, x, t3, 0x7, t3, 0x7);
    var t12 := ExpAcc(n6, x, t6, 0x3F, t6, 0x3F);
    var t24 := ExpAcc(n12, x, t12, 0xFFF, t12, 0xFFF);
    var t30 := ExpAcc(n6, x, t24, 0xFF_FFFF, t6, 0x3F);
    var t30s := MulPowers(x, t30, 0x3FFF_FFFF, t30, 0x3FFF_FFFF);
    var t31 := MulPowers(x, t30s, 0x7FFF_FFFE, x, 1);
    var t63 := ExpAcc(n32, x, t31, 0x7FFF_FFFF, t31, 0x7FFF_FFFF);
    var t63s := MulPowers(x, t63, 0x7FFF_FFFF_7FFF_FFFF, t63, 0x7FFF_FFFF_7FFF_FFFF);
    r := MulPowers(x, t63s, 0xFFFF_FFFE_FFFF_FFFE, x, 1);
  }

  lemma ThirtyTwoBits(w: nat)
    requires w == 32
    ensures Pow2(w) == 0x1_0000_0000
  {
    var a := w / 16;
    Pow2Square(a, 4);
    Pow2Square(2 * a, 16);
    Pow2Square(4 * a, 256);
    Pow2Square(8 * a, 0x1_0000);
  }

  /** no inverse exactly for the two representatives of zero; otherwise the (p - 2)-th power, which is
      the inverse by Fermat's little theorem */
  method TryInverse(x: u64) returns (r: Option<u64>)
    requires IsPrime(ORDER)
    ensures r.None? <==> Value(x) == 0
    ensures r.Some? ==> IsPower(x, r.value, ORDER - 2) && GL.Mul(Value(x), Value(r.value)) == 1
  {
    var c := ToCanonicalU64(x);
    if c == 0 {
      return None;
    }
    IsFieldGL();
    var y := FermatPower(x);
    PowIsInverse(Value(x));
    return Some(y);
  }

  lemma {:induction false} PowIsPower(p: nat, x: Canonical, n: nat)
    requires p == ORDER
    ensures GL.Pow(x, n) == Power(x, n) % p
  {
    if n > 0 {
      PowIsPower(p, x, n - 1);
      ResidueOfProduct(Power(x, n - 1), x, p);
      assert Power(x, n - 1) * x == Power(x, n) && (Power(x, n - 1) % p) * x == x * (Power(x, n - 1) % p);
    }
  }

  lemma PowIsInverse(x: Canonical)
    requires IsPrime(ORDER) && x != 0
    ensures GL.Mul(x, GL.Pow(x, ORDER - 2)) == 1
  {
    PowIsPower(ORDER, x, ORDER - 2);
    FermatInverse(ORDER, x);
  }
}
