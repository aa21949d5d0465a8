/** plonky2's `PrimeField::is_quadratic_residue` and `PrimeField::sqrt` (Tonelli-Shanks). */
module SquareRoots {
  import opened Arithmetic
  import opened Wrappers
  import opened Fields
  import opened FieldMethods

  /** What the algorithm needs of a field with `order` elements: the multiplicative group has
      order - 1 = 2^twoAdicity t elements with t odd, so every nonzero element has power one there. */
  ghost predicate HasOrder<T(!new)>(P: Params<T>, order: nat, t: nat) {
    && Valid(P)
    && order - 1 == Multiple(t, P.twoAdicity) && t % 2 == 1
    && forall x {:trigger P.f.Pow(x, order - 1)} :: x != P.f.zero ==> P.f.Pow(x, order - 1) == P.f.one
  }

  function Digits(n: nat): seq<nat> {
    if n == 0 then [] else [n % WORD] + Digits(n / WORD)
  }

  lemma {:induction false} DigitsOf(n: nat)
    ensures DigitsValue(Digits(n)) == n
    ensures forall k :: 0 <= k < |Digits(n)| ==> Digits(n)[k] < WORD
  {
    if n > 0 {
      DigitsOf(n / WORD);
    }
  }

  // ----- Quadratic residues -----

  ghost predicate IsSquare<T(!new)>(f: Field<T>, a: T) { exists y :: f.Mul(y, y) == a }

  /** `exp` is a to the power (order - 1) / 2, a square root of one */
  lemma EulerPower<T(!new)>(P: Params<T>, order: nat, t: nat, a: T)
    requires HasOrder(P, order, t) && P.twoAdicity > 0 && a != P.f.zero
    ensures var e := P.f.Pow(a, (order - 1) / 2); e == P.f.one || e == P.f.Neg(P.f.one)
  {
    var h := (order - 1) / 2;
    HalfGroup(P, order, t);
    PowAdd(P.f, a, h, h);
    if P.f.Pow(a, h) != P.f.one {
      RootsOfOne(P.f, P.f.Pow(a, h));
    }
  }

  lemma HalfGroup<T(!new)>(P: Params<T>, order: nat, t: nat)
    requires HasOrder(P, order, t) && P.twoAdicity > 0
    ensures (order - 1) / 2 == Multiple(t, P.twoAdicity - 1) && order - 1 == (order - 1) / 2 + (order - 1) / 2
  {
    ProductDouble(t, Pow2(P.twoAdicity - 1));
  }

  lemma SquaresAreResidues<T(!new)>(P: Params<T>, order: nat, t: nat, y: T)
    requires HasOrder(P, order, t) && P.twoAdicity > 0 && y != P.f.zero
    ensures P.f.Pow(P.f.Mul(y, y), (order - 1) / 2) == P.f.one
  {
    HalfGroup(P, order, t);
    PowSmall(P.f, y);
    PowMul(P.f, y, 2, (order - 1) / 2);
    assert P.f.Pow(y, order - 1) == P.f.one;
  }

  /** The source panics when the power is neither one nor minus one; the last branch shows it cannot be. */
  method IsQuadraticResidue<T(!new, ==)>(P: Params<T>, order: nat, ghost t: nat, a: T) returns (residue: bool)
    requires HasOrder(P, order, t) && P.twoAdicity > 0
    ensures residue <==> a == P.f.zero || P.f.Pow(a, (order - 1) / 2) == P.f.one
  {
    if a == P.f.zero {
      return true;
    }
    var power := (order - 1) / 2;
    DigitsOf(power);
    var exp := ExpBiguint(P.f, a, Digits(power));
    if exp == P.f.one {
      return true;
    }
    EulerPower(P, order, t, a);
    assert exp == P.f.Neg(P.f.one);
    return false;
  }

  // ----- The loop of Tonelli and Shanks -----

  /** the loop invariant: x^2 = a b, z has order exactly 2^v, and b^(2^(v - 1)) = 1 */
  ghost predicate Progress<T(!new)>(f: Field<T>, a: T, x: T, b: T, z: T, v: nat) {
    && f.Mul(x, x) == f.Mul(a, b)
    && HasOrder2(f, z, v)
    && v > 0 && f.Pow(b, Pow2(v - 1)) == f.one
  }

  lemma Start<T(!new)>(P: Params<T>, order: nat, t: nat, a: T)
    requires HasOrder(P, order, t) && P.twoAdicity > 0
    requires P.f.Pow(a, (order - 1) / 2) == P.f.one
    ensures var w := P.f.Pow(a, (t - 1) / 2);
            Progress(P.f, a, P.f.Mul(w, a), P.f.Mul(P.f.Mul(w, a), w), P.powerOfTwoGenerator, P.twoAdicity)
  {
    var f, h := P.f, (t - 1) / 2;
    var w := f.Pow(a, h);
    HalfGroup(P, order, t);
    OddPower(f, a, h);
    assert t == 2 * h + 1;
    PowMul(f, a, t, Pow2(P.twoAdicity - 1));
    Reassociate(f, f.Mul(w, a), a, w);
  }

  /** (w a) w = a^(2h + 1) for w = a^h */
  lemma OddPower<T(!new)>(f: Field<T>, a: T, h: nat)
    requires IsField(f)
    ensures f.Mul(f.Mul(f.Pow(a, h), a), f.Pow(a, h)) == f.Pow(a, 2 * h + 1)
  {
    var w := f.Pow(a, h);
    PowAdd(f, a, h + 1, h);
    assert Law(f, w, a, w);
  }

  /** (w a)^2 = a ((w a) w) */
  lemma Reassociate<T(!new)>(f: Field<T>, x: T, a: T, w: T)
    requires IsField(f) && x == f.Mul(w, a)
    ensures f.Mul(x, x) == f.Mul(a, f.Mul(x, w))
  {
    Ring(f);
    assert f.Mul(x, f.Mul(w, a)) == f.Mul(f.Mul(x, w), a);
  }

  /** `k` is the least number of squarings that takes b to one */
  method LeastSquarings<T(!new, ==)>(f: Field<T>, b: T, ghost v: nat) returns (k: nat)
    requires IsField(f) && b != f.one && v > 0 && f.Pow(b, Pow2(v - 1)) == f.one
    ensures 0 < k < v && f.Pow(b, Pow2(k)) == f.one && f.Pow(b, Pow2(k - 1)) != f.one
  {
    k := 0;
    var b2k := b;
    PowSmall(f, b);
    while b2k != f.one
      invariant k < v && b2k == f.Pow(b, Pow2(k))
      invariant k > 0 ==> f.Pow(b, Pow2(k - 1)) != f.one
      invariant k == 0 ==> b2k == b
      decreases v - k
    {
      PowAdd(f, b, Pow2(k), Pow2(k));
      assert Pow2(k + 1) == Pow2(k) + Pow2(k);
      b2k := f.Mul(b2k, b2k);
      k := k + 1;
    }
  }

  method RepeatedSquare<T(!new)>(f: Field<T>, z: T, j: nat, ghost v: nat) returns (w: T)
    requires IsField(f) && HasOrder2(f, z, v) && j <= v
    ensures HasOrder2(f, w, v - j)
  {
    w := z;
    for i := 0 to j
      invariant HasOrder2(f, w, v - i)
    {
      SquareHasHalfOrder(f, w, v - i);
      w := f.Mul(w, w);
    }
  }

  /** multiplying b by w^2 and x by w keeps the invariant, with a smaller v */
  lemma Step<T(!new)>(f: Field<T>, a: T, x: T, b: T, v: nat, k: nat, w: T)
    requires IsField(f) && f.Mul(x, x) == f.Mul(a, b)
    requires 0 < k < v && f.Pow(b, Pow2(k)) == f.one && f.Pow(b, Pow2(k - 1)) != f.one
    requires HasOrder2(f, w, k + 1)
    ensures Progress(f, a, f.Mul(x, w), f.Mul(b, f.Mul(w, w)), f.Mul(w, w), k)
  {
    var z := f.Mul(w, w);
    SquareHasHalfOrder(f, w, k + 1);
    SquareOfProduct(f, a, x, b, w);
    HalfOrder(f, z, k);
    var h := Pow2(k - 1);
    PowAdd(f, b, h, h);
    assert Pow2(k) == h + h;
    RootsOfOne(f, f.Pow(b, h));
    PowOfProduct(f, b, z, h);
    MinusOneSquared(f);
  }

  lemma MinusOneSquared<T(!new)>(f: Field<T>)
    requires IsField(f)
    ensures f.Mul(f.Neg(f.one), f.Neg(f.one)) == f.one
  {
    RingNeg(f);
    assert Law(f, f.Neg(f.one), f.one, f.one);
  }

  lemma SquareOfProduct<T(!new)>(f: Field<T>, a: T, x: T, b: T, w: T)
    requires IsField(f) && f.Mul(x, x) == f.Mul(a, b)
    ensures f.Mul(f.Mul(x, w), f.Mul(x, w)) == f.Mul(a, f.Mul(b, f.Mul(w, w)))
  {
    Ring(f);
    assert f.Mul(f.Mul(x, w), f.Mul(x, w)) == f.Mul(f.Mul(x, x), f.Mul(w, w));
  }

  method TonelliShanks<T(!new, ==)>(P: Params<T>, order: nat, ghost t': nat, a: T) returns (x: T)
    requires HasOrder(P, order, t') && P.twoAdicity > 0
    requires P.f.Pow(a, (order - 1) / 2) == P.f.one
    ensures P.f.Mul(x, x) == a
  {
    var f := P.f;
    var t := (order - 1) / Pow2(P.twoAdicity);
    DivModUnique(order - 1, Pow2(P.twoAdicity), t', 0);
    DigitsOf((t - 1) / 2);
    var z := P.powerOfTwoGenerator;
    var w := ExpBiguint(f, a, Digits((t - 1) / 2));
    x := f.Mul(w, a);
    var b := f.Mul(x, w);
    Start(P, order, t, a);
    var v := P.twoAdicity;
    while b != f.one
      invariant Progress(f, a, x, b, z, v)
      decreases v
    {
      var k := LeastSquarings(f, b, v);
      var j := v - k - 1;
      w := RepeatedSquare(f, z, j, v);
      Step(f, a, x, b, v, k, w);
      z := f.Mul(w, w);
      b := f.Mul(b, z);
      x := f.Mul(x, w);
      v := k;
    }
    assert Law(f, a, f.one, f.one);
  }

  /** `sqrt` finds a root exactly when there is one */
  method Sqrt<T(!new, ==)>(P: Params<T>, order: nat, ghost t: nat, a: T) returns (r: Option<T>)
    requires HasOrder(P, order, t) && P.twoAdicity > 0
    ensures r.Some? ==> P.f.Mul(r.value, r.value) == a
    ensures r.None? <==> !IsSquare(P.f, a)
  {
    if a == P.f.zero {
      MulZero(P.f, a);
      return Some(a);
    }
    var residue := IsQuadraticResidue(P, order, t, a);
    if residue {
      var x := TonelliShanks(P, order, t, a);
      return Some(x);
    }
    forall y | P.f.Mul(y, y) == a
      ensures false
    {
      NoZeroDivisors(P.f, y, y);
      SquaresAreResidues(P, order, t, y);
    }
    return None;
  }
}
