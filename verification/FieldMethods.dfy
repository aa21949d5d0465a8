/** The provided methods of plonky2's trait `Field` that compute powers, roots of unity and inverses
    of powers of two. */
module FieldMethods {
  import opened Arithmetic
  import opened Fields

  /** the constants of an implementation of the trait */
  datatype Params<!T> = Params(
    f: Field<T>,
    powerOfTwoGenerator: T,
    twoAdicity: nat,
    characteristic: nat,
    characteristicTwoAdicity: nat)

  /** What the documentation of the constants promises: the field laws, a generator of a subgroup of
      order exactly 2^TWO_ADICITY, and an odd characteristic p with 2^CHARACTERISTIC_TWO_ADICITY | p - 1. */
  ghost predicate Valid<T(!new)>(P: Params<T>) {
    && IsField(P.f)
    && HasOrder2(P.f, P.powerOfTwoGenerator, P.twoAdicity)
    && P.characteristic > 0 && FromNat(P.f, P.characteristic) == P.f.zero
    && P.characteristicTwoAdicity > 0
    && exists t: nat :: P.characteristic - 1 == Multiple(t, P.characteristicTwoAdicity)
  }

  function Multiple(t: nat, e: nat): nat { t * Pow2(e) }

  // ----- The image of the integers -----

  /** 1 + ... + 1, n times */
  function FromNat<T>(f: Field<T>, n: nat): T {
    if n == 0 then f.zero else f.Add(f.one, FromNat(f, n - 1))
  }

  lemma {:induction false} FromNatAdd<T(!new)>(f: Field<T>, a: nat, b: nat)
    requires IsField(f)
    ensures FromNat(f, a + b) == f.Add(FromNat(f, a), FromNat(f, b))
  {
    var y := FromNat(f, b);
    if a == 0 {
      assert Law(f, y, f.zero, f.zero) && Law(f, f.zero, y, f.zero);
    } else {
      FromNatAdd(f, a - 1, b);
      assert Law(f, f.one, FromNat(f, a - 1), y);
    }
  }

  lemma {:induction false} FromNatMul<T(!new)>(f: Field<T>, a: nat, b: nat)
    requires IsField(f)
    ensures FromNat(f, a * b) == f.Mul(FromNat(f, a), FromNat(f, b))
  {
    var y := FromNat(f, b);
    if a == 0 {
      assert Law(f, y, f.zero, f.zero) && Law(f, f.zero, y, f.zero);
      MulZero(f, y);
    } else {
      FromNatMul(f, a - 1, b);
      assert a * b == b + (a - 1) * b;
      FromNatAdd(f, b, (a - 1) * b);
      var x := FromNat(f, a - 1);
      assert Law(f, y, f.one, x) && Law(f, y, x, x) && Law(f, y, f.Add(f.one, x), x);
    }
  }

  lemma {:induction false} FromNatPow2<T(!new)>(f: Field<T>, e: nat)
    requires IsField(f)
    ensures FromNat(f, Pow2(e)) == f.Pow(f.Two(), e)
  {
    assert Law(f, f.one, f.zero, f.zero);
    assert FromNat(f, 1) == f.Add(f.one, FromNat(f, 0));
    assert FromNat(f, 2) == f.Add(f.one, FromNat(f, 1));
    if e > 0 {
      FromNatPow2(f, e - 1);
      FromNatMul(f, 2, Pow2(e - 1));
    }
  }

  // ----- Exponentiation -----

  method ExpPowerOf2<T(!new)>(f: Field<T>, x: T, powerLog: nat) returns (res: T)
    requires IsField(f)
    ensures res == f.Pow(x, Pow2(powerLog))
  {
    res := x;
    PowSmall(f, x);
    for i := 0 to powerLog
      invariant res == f.Pow(x, Pow2(i))
    {
      PowAdd(f, x, Pow2(i), Pow2(i));
      assert Pow2(i) + Pow2(i) == Pow2(i + 1);
      res := f.Square(res);
    }
  }

  /** square and multiply over the bits of the exponent, lowest first */
  method ExpU64<T(!new)>(f: Field<T>, x: T, power: nat) returns (product: T)
    requires IsField(f) && power < WORD
    ensures product == f.Pow(x, power)
  {
    var current := x;
    product := f.one;
    ExpStart(f, x, power);
    for j := 0 to Bits(power)
      invariant f.Mul(product, f.Pow(current, Shr(power, j))) == f.Pow(x, power)
    {
      ShrStep(power, j);
      ExpStep(f, product, current, Shr(power, j));
      if BitSet(power, j) {
        product := f.Mul(product, current);
      }
      current := f.Square(current);
    }
    ShrAllBits(power);
    assert Law(f, product, f.one, f.one);
  }

  lemma ExpStart<T(!new)>(f: Field<T>, x: T, n: nat)
    requires IsField(f)
    ensures f.Mul(f.one, f.Pow(x, Shr(n, 0))) == f.Pow(x, n)
  {
    assert Law(f, f.Pow(x, n), f.one, x) && Law(f, f.one, f.Pow(x, n), x);
  }

  lemma ExpStep<T(!new)>(f: Field<T>, p: T, c: T, n: nat)
    requires IsField(f)
    ensures f.Mul(p, f.Pow(c, n)) == f.Mul(if n % 2 == 1 then f.Mul(p, c) else p, f.Pow(f.Square(c), n / 2))
  {
    PowSmall(f, c);
    PowMul(f, c, 2, n / 2);
    if n % 2 == 1 {
      assert n == 1 + 2 * (n / 2);
      assert Law(f, p, c, f.Pow(c, 2 * (n / 2)));
    } else {
      assert n == 2 * (n / 2);
    }
  }

  const WORD_BITS: nat := 64

  /** the value of a list of 64-bit digits, lowest first */
  function DigitsValue(digits: seq<nat>): nat {
    if digits == [] then 0 else digits[0] + WORD * DigitsValue(digits[1..])
  }

  method ExpBiguint<T(!new)>(f: Field<T>, x: T, digits: seq<nat>) returns (result: T)
    requires IsField(f) && forall k :: 0 <= k < |digits| ==> digits[k] < WORD
    ensures result == f.Pow(x, DigitsValue(digits))
  {
    result := f.one;
    var k := |digits|;
    while k > 0
      invariant 0 <= k <= |digits| && result == f.Pow(x, DigitsValue(digits[k..]))
    {
      k := k - 1;
      result := ExpPowerOf2(f, result, WORD_BITS);
      var d := ExpU64(f, x, digits[k]);
      DigitStep(f, x, digits, k, WORD_BITS);
      result := f.Mul(result, d);
    }
    assert digits[0..] == digits;
  }

  lemma DigitStep<T(!new)>(f: Field<T>, x: T, digits: seq<nat>, k: nat, w: nat)
    requires IsField(f) && w == WORD_BITS && k < |digits|
    ensures f.Mul(f.Pow(f.Pow(x, DigitsValue(digits[k + 1..])), Pow2(w)), f.Pow(x, digits[k]))
            == f.Pow(x, DigitsValue(digits[k..]))
  {
    var s := digits[k..];
    assert s[0] == digits[k] && s[1..] == digits[k + 1..];
    WordBits(w);
    ShiftAndAdd(f, x, DigitsValue(s[1..]), s[0]);
  }

  lemma ShiftAndAdd<T(!new)>(f: Field<T>, x: T, rest: nat, d: nat)
    requires IsField(f)
    ensures f.Mul(f.Pow(f.Pow(x, rest), WORD), f.Pow(x, d)) == f.Pow(x, d + WORD * rest)
  {
    PowMul(f, x, rest, WORD);
    PowAdd(f, x, WORD * rest, d);
  }

  // ----- Roots of unity -----

  /** the generator of the subgroup of order 2^t, from the generator `w` of the one of order 2^lg */
  ghost function RootAt<T>(f: Field<T>, w: T, lg: nat, t: nat): T
    decreases lg - t
  {
    if t >= lg then w else f.Square(RootAt(f, w, lg, t + 1))
  }

  lemma {:induction false} RootOrder<T(!new)>(f: Field<T>, w: T, lg: nat, t: nat)
    requires IsField(f) && HasOrder2(f, w, lg) && t <= lg
    ensures HasOrder2(f, RootAt(f, w, lg, t), t)
    decreases lg - t
  {
    if t < lg {
      RootOrder(f, w, lg, t + 1);
      SquareHasHalfOrder(f, RootAt(f, w, lg, t + 1), t + 1);
    }
  }

  lemma {:induction false} RootIsPower<T(!new)>(f: Field<T>, w: T, lg: nat, t: nat)
    requires IsField(f) && t <= lg
    ensures RootAt(f, w, lg, t) == f.Pow(w, Pow2(lg - t))
    decreases lg - t
  {
    if t == lg {
      PowSmall(f, w);
    } else {
      RootIsPower(f, w, lg, t + 1);
      PowAdd(f, w, Pow2(lg - t - 1), Pow2(lg - t - 1));
    }
  }

  /** from the root of order 2^mid down to the one of order 2^t is the same as from the top */
  lemma {:induction false} RootOfRoot<T>(f: Field<T>, w: T, lg: nat, mid: nat, t: nat)
    requires t <= mid <= lg
    ensures RootAt(f, RootAt(f, w, lg, mid), mid, t) == RootAt(f, w, lg, t)
    decreases mid - t
  {
    if t < mid {
      RootOfRoot(f, w, lg, mid, t + 1);
    }
  }

  /** the source panics when the subgroup would be larger than the largest one known */
  method PrimitiveRootOfUnity<T(!new)>(P: Params<T>, nLog: nat) returns (w: T)
    requires Valid(P) && nLog <= P.twoAdicity
    ensures w == RootAt(P.f, P.powerOfTwoGenerator, P.twoAdicity, nLog)
    ensures HasOrder2(P.f, w, nLog)
  {
    w := ExpPowerOf2(P.f, P.powerOfTwoGenerator, P.twoAdicity - nLog);
    RootIsPower(P.f, P.powerOfTwoGenerator, P.twoAdicity, nLog);
    RootOrder(P.f, P.powerOfTwoGenerator, P.twoAdicity, nLog);
  }

  // ----- Inverses of powers of two -----

  /** `r` is the inverse of 2^e */
  ghost predicate Inverts<T>(f: Field<T>, r: T, e: nat) {
    f.Mul(r, f.Pow(f.Two(), e)) == f.one
  }

  /** the integer whose image `inverse_2exp` returns when 2^e divides p - 1 */
  function ShiftedInverse(p: nat, e: nat): int
    requires p > 0
  {
    p - Shr(p - 1, e)
  }

  lemma ShiftedInverseValue(p: nat, A: nat, t: nat, e: nat)
    requires p > 0 && p - 1 == Multiple(t, A) && e <= A
    ensures 0 < ShiftedInverse(p, e) && ShiftedInverse(p, e) * Pow2(e) == 1 + (Pow2(e) - 1) * p
  {
    var s := t * Pow2(A - e);
    Pow2Add(A - e, e);
    Regroup(t, Pow2(A - e), Pow2(e));
    ShrOfMultiple(s, e);
    MulMonotone(1, Pow2(e), s);
    ShiftIdentity(p, s, Pow2(e));
  }

  lemma OneMoreThanMultiple<T(!new)>(f: Field<T>, n: nat, m: nat, k: nat, p: nat, nm: nat, kp: nat)
    requires IsField(f) && FromNat(f, p) == f.zero
    requires nm == n * m && kp == k * p && nm == 1 + kp
    ensures f.Mul(FromNat(f, n), FromNat(f, m)) == f.one
  {
    FromNatProduct(f, n, m, nm);
    FromNatProduct(f, k, p, kp);
    MulZero(f, FromNat(f, k));
    OneMore(f, nm, kp);
  }

  lemma FromNatProduct<T(!new)>(f: Field<T>, a: nat, b: nat, c: nat)
    requires IsField(f) && c == a * b
    ensures FromNat(f, c) == f.Mul(FromNat(f, a), FromNat(f, b))
  {
    FromNatMul(f, a, b);
  }

  lemma OneMore<T(!new)>(f: Field<T>, a: nat, b: nat)
    requires IsField(f) && a == 1 + b && FromNat(f, b) == f.zero
    ensures FromNat(f, a) == f.one
  {
    assert Law(f, f.one, f.zero, f.zero);
  }

  /** p - ((p - 1) >> e) is an inverse of 2^e when 2^e divides p - 1 */
  lemma ShiftInverts<T(!new)>(P: Params<T>, e: nat)
    requires Valid(P) && e <= P.characteristicTwoAdicity
    ensures 0 < ShiftedInverse(P.characteristic, e)
    ensures Inverts(P.f, FromNat(P.f, ShiftedInverse(P.characteristic, e)), e)
  {
    var t: nat :| P.characteristic - 1 == Multiple(t, P.characteristicTwoAdicity);
    ShiftedInverseValue(P.characteristic, P.characteristicTwoAdicity, t, e);
    var n, m, p := ShiftedInverse(P.characteristic, e), Pow2(e), P.characteristic;
    OneMoreThanMultiple(P.f, n, m, m - 1, p, n * m, (m - 1) * p);
    FromNatPow2(P.f, e);
  }

  lemma Regroup(t: nat, a: nat, b: nat)
    ensures t * (a * b) == (t * a) * b
  {
  }

  lemma ShiftIdentity(p: nat, s: nat, m: nat)
    requires m >= 1 && p - 1 == s * m && s <= p
    ensures (p - s) * m == 1 + (m - 1) * p
  {
  }

  lemma InvertsProduct<T(!new)>(f: Field<T>, r: T, a: nat, s: T, b: nat)
    requires IsField(f) && Inverts(f, r, a) && Inverts(f, s, b)
    ensures Inverts(f, f.Mul(r, s), a + b)
  {
    PowAdd(f, f.Two(), a, b);
    var x, y := f.Pow(f.Two(), a), f.Pow(f.Two(), b);
    assert f.Mul(f.Mul(r, s), f.Mul(x, y)) == f.Mul(f.Mul(r, x), f.Mul(s, y)) by { Ring(f); }
    assert Law(f, f.one, f.one, f.one);
  }

  lemma TwoIsNonzero<T(!new)>(P: Params<T>)
    requires Valid(P)
    ensures P.f.Two() != P.f.zero
  {
    ShiftInverts(P, 1);
    PowSmall(P.f, P.f.Two());
    var r := FromNat(P.f, ShiftedInverse(P.characteristic, 1));
    MulZero(P.f, r);
    assert Law(P.f, r, r, r);
  }

  method Inverse2Exp<T(!new)>(P: Params<T>, exp: nat) returns (res: T)
    requires Valid(P) && exp < WORD
    ensures Inverts(P.f, res, exp)
  {
    var f, p := P.f, P.characteristic;
    if p < WORD {
      if exp > P.characteristicTwoAdicity {
        ShiftInverts(P, P.characteristicTwoAdicity);
        var inverse2PowAdicity := FromNat(f, ShiftedInverse(p, P.characteristicTwoAdicity));
        res := inverse2PowAdicity;
        var e := exp - P.characteristicTwoAdicity;
        while e > P.characteristicTwoAdicity
          invariant e > 0 && e < exp && Inverts(f, res, exp - e)
        {
          InvertsProduct(f, res, exp - e, inverse2PowAdicity, P.characteristicTwoAdicity);
          res := f.Mul(res, inverse2PowAdicity);
          e := e - P.characteristicTwoAdicity;
        }
        ShiftInverts(P, e);
        InvertsProduct(f, res, exp - e, FromNat(f, ShiftedInverse(p, e)), e);
        res := f.Mul(res, FromNat(f, ShiftedInverse(p, e)));
      } else {
        ShiftInverts(P, exp);
        res := FromNat(f, ShiftedInverse(p, exp));
      }
    } else {
      TwoIsNonzero(P);
      InvLaw(f, f.Two());
      res := ExpU64(f, f.Inv(f.Two()), exp);
      PowOfProduct(f, f.Inv(f.Two()), f.Two(), exp);
      PowOne(f, exp);
    }
  }
}
