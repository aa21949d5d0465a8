/** Fields as the generic code sees them: a record of operations plus the field laws.

    Every algorithm of plonky2 that is written over `F: Field` is modelled here over a value
    `f: Field<T>`, and its theorems hold for every record that satisfies the laws.
    The module `Goldilocks` shows that the integers modulo its order do, if that is prime.
 */
module Fields {
  import opened Arithmetic

  datatype Field<!T> = Field(
    zero: T,
    one: T,
    add: (T, T) -> T,
    neg: T -> T,
    mul: (T, T) -> T,
    inv: T -> T)
  {
    function Add(a: T, b: T): T { add(a, b) }

    function Neg(a: T): T { neg(a) }

    function Sub(a: T, b: T): T { Add(a, Neg(b)) }

    function Mul(a: T, b: T): T { mul(a, b) }

    function Inv(a: T): T { inv(a) }

    function Square(a: T): T { Mul(a, a) }

    function Two(): T { Add(one, one) }

    function Pow(x: T, n: nat): T {
      if n == 0 then one else Mul(x, Pow(x, n - 1))
    }
  }

  /** The field laws at one triple of elements. */
  ghost predicate Law<T(!new)>(f: Field<T>, a: T, b: T, c: T) {
    && f.Add(a, b) == f.Add(b, a)
    && f.Add(f.Add(a, b), c) == f.Add(a, f.Add(b, c))
    && f.Add(a, f.zero) == a
    && f.Add(a, f.Neg(a)) == f.zero
    && f.Mul(a, b) == f.Mul(b, a)
    && f.Mul(f.Mul(a, b), c) == f.Mul(a, f.Mul(b, c))
    && f.Mul(a, f.one) == a
    && f.Mul(a, f.Add(b, c)) == f.Add(f.Mul(a, b), f.Mul(a, c))
    && (a != f.zero ==> f.Mul(a, f.Inv(a)) == f.one)
    && f.one != f.zero
  }

  /** The trigger keeps the laws out of sight until a proof names the triple it needs. */
  ghost predicate IsField<T(!new)>(f: Field<T>) {
    forall a, b, c {:trigger Law(f, a, b, c)} :: Law(f, a, b, c)
  }

  /** Makes the commutative ring laws without negation available to a proof of a ring identity. */
  lemma Ring<T(!new)>(f: Field<T>)
    requires IsField(f)
    ensures forall a, b {:trigger f.Add(a, b)} :: f.Add(a, b) == f.Add(b, a)
    ensures forall a, b, c {:trigger f.Add(f.Add(a, b), c)} :: f.Add(f.Add(a, b), c) == f.Add(a, f.Add(b, c))
    ensures forall a {:trigger f.Add(a, f.zero)} :: f.Add(a, f.zero) == a
    ensures forall a, b {:trigger f.Mul(a, b)} :: f.Mul(a, b) == f.Mul(b, a)
    ensures forall a, b, c {:trigger f.Mul(f.Mul(a, b), c)} :: f.Mul(f.Mul(a, b), c) == f.Mul(a, f.Mul(b, c))
    ensures forall a {:trigger f.Mul(a, f.one)} :: f.Mul(a, f.one) == a
    ensures forall a, b, c {:trigger f.Mul(a, f.Add(b, c))} :: f.Mul(a, f.Add(b, c)) == f.Add(f.Mul(a, b), f.Mul(a, c))
    ensures forall a {:trigger f.Mul(a, f.zero)} :: f.Mul(a, f.zero) == f.zero
  {
    forall a, b, c
      ensures f.Add(f.Add(a, b), c) == f.Add(a, f.Add(b, c))
      ensures f.Mul(f.Mul(a, b), c) == f.Mul(a, f.Mul(b, c))
      ensures f.Mul(a, f.Add(b, c)) == f.Add(f.Mul(a, b), f.Mul(a, c))
    {
      assert Law(f, a, b, c);
    }
    forall a, b
      ensures f.Add(a, b) == f.Add(b, a) && f.Mul(a, b) == f.Mul(b, a)
    {
      assert Law(f, a, b, f.zero);
    }
    forall a
      ensures f.Add(a, f.zero) == a && f.Mul(a, f.one) == a && f.Mul(a, f.zero) == f.zero
    {
      assert Law(f, a, a, f.zero);
      MulZero(f, a);
    }
  }

  /** Makes the laws that move negation available. */
  lemma RingNeg<T(!new)>(f: Field<T>)
    requires IsField(f)
    ensures forall a {:trigger f.Add(a, f.Neg(a))} :: f.Add(a, f.Neg(a)) == f.zero
    ensures forall a, b {:trigger f.Mul(a, f.Neg(b))} :: f.Mul(a, f.Neg(b)) == f.Neg(f.Mul(a, b))
    ensures forall a, b {:trigger f.Neg(f.Add(a, b))} :: f.Neg(f.Add(a, b)) == f.Add(f.Neg(a), f.Neg(b))
    ensures forall a {:trigger f.Neg(f.Neg(a))} :: f.Neg(f.Neg(a)) == a
    ensures f.Neg(f.zero) == f.zero
  {
    forall a ensures f.Add(a, f.Neg(a)) == f.zero && f.Neg(f.Neg(a)) == a {
      assert Law(f, a, f.Neg(a), f.zero);
      NegIsUnique(f, f.Neg(a), a);
    }
    forall a, b ensures f.Mul(a, f.Neg(b)) == f.Neg(f.Mul(a, b)) {
      MulNeg(f, a, b);
    }
    forall a, b ensures f.Neg(f.Add(a, b)) == f.Add(f.Neg(a), f.Neg(b)) {
      NegOfSum(f, a, b);
      NegIsUnique(f, f.Add(a, b), f.Add(f.Neg(a), f.Neg(b)));
    }
    assert Law(f, f.zero, f.zero, f.zero);
    NegIsUnique(f, f.zero, f.zero);
  }

  lemma MulNeg<T(!new)>(f: Field<T>, a: T, b: T)
    requires IsField(f)
    ensures f.Mul(a, f.Neg(b)) == f.Neg(f.Mul(a, b))
  {
    assert Law(f, b, f.zero, f.zero) && Law(f, a, b, f.Neg(b));
    MulZero(f, a);
    NegIsUnique(f, f.Mul(a, b), f.Mul(a, f.Neg(b)));
  }

  lemma MulZero<T(!new)>(f: Field<T>, a: T)
    requires IsField(f)
    ensures f.Mul(a, f.zero) == f.zero
  {
    var z := f.Mul(a, f.zero);
    assert Law(f, a, f.zero, f.zero) && Law(f, f.zero, f.zero, f.zero);
    assert f.Add(z, z) == z;
    assert Law(f, z, z, f.Neg(z)) && Law(f, z, f.zero, f.zero);
  }

  lemma NegIsUnique<T(!new)>(f: Field<T>, a: T, b: T)
    requires IsField(f)
    requires f.Add(a, b) == f.zero
    ensures b == f.Neg(a)
  {
    assert Law(f, f.Neg(a), a, b) && Law(f, a, f.Neg(a), b);
    assert Law(f, b, f.zero, f.zero) && Law(f, f.Neg(a), f.zero, f.zero);
  }

  lemma NegOfSum<T(!new)>(f: Field<T>, a: T, b: T)
    requires IsField(f)
    ensures f.Add(f.Add(a, b), f.Add(f.Neg(a), f.Neg(b))) == f.zero
  {
    var na, nb := f.Neg(a), f.Neg(b);
    assert Law(f, a, b, f.Add(na, nb)) && Law(f, b, f.Add(na, nb), f.zero);
    assert Law(f, na, nb, b) && Law(f, nb, b, f.zero) && Law(f, b, nb, na);
    assert Law(f, na, f.zero, f.zero) && Law(f, a, na, f.zero);
  }

  // ----- Facts that need more than ring rewriting -----

  lemma InvLaw<T(!new)>(f: Field<T>, a: T)
    requires IsField(f) && a != f.zero
    ensures f.Mul(a, f.Inv(a)) == f.one && f.Mul(f.Inv(a), a) == f.one
  {
    assert Law(f, a, f.Inv(a), f.zero);
  }

  /** a field has no zero divisors */
  lemma NoZeroDivisors<T(!new)>(f: Field<T>, a: T, b: T)
    requires IsField(f)
    ensures f.Mul(a, b) == f.zero <==> a == f.zero || b == f.zero
  {
    Ring(f);
    if a != f.zero && f.Mul(a, b) == f.zero {
      InvLaw(f, a);
      assert f.Mul(f.Inv(a), f.Mul(a, b)) == f.Mul(f.Mul(f.Inv(a), a), b);
    }
  }

  lemma Cancel<T(!new)>(f: Field<T>, a: T, b: T, c: T)
    requires IsField(f) && a != f.zero
    requires f.Mul(a, b) == f.Mul(a, c)
    ensures b == c
  {
    Ring(f);
    InvLaw(f, a);
    assert f.Mul(f.Inv(a), f.Mul(a, b)) == f.Mul(f.Mul(f.Inv(a), a), b);
    assert f.Mul(f.Inv(a), f.Mul(a, c)) == f.Mul(f.Mul(f.Inv(a), a), c);
  }

  lemma SubZero<T(!new)>(f: Field<T>, a: T, b: T)
    requires IsField(f)
    ensures f.Sub(a, b) == f.zero <==> a == b
  {
    RingNeg(f);
    assert Law(f, a, f.Neg(b), b);
    if f.Sub(a, b) == f.zero {
      NegIsUnique(f, f.Neg(b), a);
    }
  }

  lemma InverseIsUnique<T(!new)>(f: Field<T>, a: T, b: T)
    requires IsField(f)
    requires f.Mul(a, b) == f.one
    ensures a != f.zero && b == f.Inv(a)
  {
    assert Law(f, a, b, f.zero);
    MulZero(f, b);
    assert a != f.zero;
    InvLaw(f, a);
    Cancel(f, a, b, f.Inv(a));
  }

  /** the only square roots of one are one and minus one */
  lemma RootsOfOne<T(!new)>(f: Field<T>, x: T)
    requires IsField(f)
    requires f.Mul(x, x) == f.one && x != f.one
    ensures x == f.Neg(f.one)
  {
    DifferenceOfSquares(f, x, f.one);
    assert Law(f, f.one, f.one, x) && Law(f, f.one, x, x);
    SubZero(f, f.Mul(x, x), f.one);
    NoZeroDivisors(f, f.Sub(x, f.one), f.Add(x, f.one));
    SubZero(f, x, f.one);
    assert Law(f, x, f.one, f.zero);
    NegIsUnique(f, f.one, x);
  }

  lemma DifferenceOfSquares<T(!new)>(f: Field<T>, x: T, y: T)
    requires IsField(f)
    ensures f.Mul(f.Sub(x, y), f.Add(x, y)) == f.Sub(f.Mul(x, x), f.Mul(y, y))
  {
    var ny := f.Neg(y);
    MulNeg(f, y, y);
    MulNeg(f, x, y);
    ExpandProduct(f, x, ny, x, y);
    RingNeg(f);
    Ring(f);
    assert f.Mul(ny, x) == f.Neg(f.Mul(x, y));
    assert f.Mul(ny, y) == f.Neg(f.Mul(y, y));
    InnerCancel(f, f.Mul(x, x), f.Mul(x, y), f.Neg(f.Mul(y, y)));
  }

  lemma ExpandProduct<T(!new)>(f: Field<T>, a: T, b: T, c: T, d: T)
    requires IsField(f)
    ensures f.Mul(f.Add(a, b), f.Add(c, d))
         == f.Add(f.Add(f.Mul(a, c), f.Mul(a, d)), f.Add(f.Mul(b, c), f.Mul(b, d)))
  {
    Ring(f);
  }

  /** (a + b) + (-b + c) = a + c */
  lemma InnerCancel<T(!new)>(f: Field<T>, a: T, b: T, c: T)
    requires IsField(f)
    ensures f.Add(f.Add(a, b), f.Add(f.Neg(b), c)) == f.Add(a, c)
  {
    assert Law(f, a, b, f.Add(f.Neg(b), c)) && Law(f, b, f.Neg(b), c) && Law(f, c, f.zero, f.zero);
  }

  // ----- Powers -----

  lemma {:induction false} PowAdd<T(!new)>(f: Field<T>, x: T, a: nat, b: nat)
    requires IsField(f)
    ensures f.Pow(x, a + b) == f.Mul(f.Pow(x, a), f.Pow(x, b))
  {
    if a == 0 {
      assert Law(f, f.Pow(x, b), f.one, f.zero) && Law(f, f.one, f.Pow(x, b), f.zero);
    } else {
      PowAdd(f, x, a - 1, b);
      assert Law(f, x, f.Pow(x, a - 1), f.Pow(x, b));
    }
  }

  lemma {:induction false} PowMul<T(!new)>(f: Field<T>, x: T, a: nat, b: nat)
    requires IsField(f)
    ensures f.Pow(f.Pow(x, a), b) == f.Pow(x, a * b)
  {
    if b == 0 {
      assert a * b == 0;
    } else {
      PowMul(f, x, a, b - 1);
      PowAdd(f, x, a, a * (b - 1));
      assert a * b == a + a * (b - 1);
    }
  }

  lemma {:induction false} PowOfProduct<T(!new)>(f: Field<T>, x: T, y: T, n: nat)
    requires IsField(f)
    ensures f.Pow(f.Mul(x, y), n) == f.Mul(f.Pow(x, n), f.Pow(y, n))
  {
    Ring(f);
    if n > 0 {
      PowOfProduct(f, x, y, n - 1);
      var p, q := f.Pow(x, n - 1), f.Pow(y, n - 1);
      assert f.Mul(f.Mul(x, y), f.Mul(p, q)) == f.Mul(f.Mul(x, p), f.Mul(y, q));
    }
  }

  lemma {:induction false} PowOne<T(!new)>(f: Field<T>, n: nat)
    requires IsField(f)
    ensures f.Pow(f.one, n) == f.one
  {
    Ring(f);
    if n > 0 {
      PowOne(f, n - 1);
    }
  }

  lemma {:induction false} PowNonzero<T(!new)>(f: Field<T>, x: T, n: nat)
    requires IsField(f) && x != f.zero
    ensures f.Pow(x, n) != f.zero
  {
    assert Law(f, x, x, x);
    if n > 0 {
      PowNonzero(f, x, n - 1);
      NoZeroDivisors(f, x, f.Pow(x, n - 1));
    }
  }

  lemma PowSmall<T(!new)>(f: Field<T>, x: T)
    requires IsField(f)
    ensures f.Pow(x, 0) == f.one && f.Pow(x, 1) == x && f.Pow(x, 2) == f.Mul(x, x)
  {
    Ring(f);
    assert f.Pow(x, 1) == f.Mul(x, f.Pow(x, 0));
    assert f.Pow(x, 2) == f.Mul(x, f.Pow(x, 1));
  }

  // ----- Roots of unity of power-of-two order -----

  /** `w` generates a multiplicative subgroup of order exactly 2^lg: its 2^lg-th power is one and,
      when lg > 0, its 2^(lg-1)-th power is not. */
  ghost predicate HasOrder2<T(!new)>(f: Field<T>, w: T, lg: nat) {
    && f.Pow(w, Pow2(lg)) == f.one
    && (lg > 0 ==> f.Pow(w, Pow2(lg - 1)) != f.one)
  }

  lemma HalfOrder<T(!new)>(f: Field<T>, w: T, lg: nat)
    requires IsField(f) && lg > 0 && HasOrder2(f, w, lg)
    ensures f.Pow(w, Pow2(lg - 1)) == f.Neg(f.one)
    ensures f.Neg(f.one) != f.one
    ensures f.Two() != f.zero
  {
    var h := Pow2(lg - 1);
    assert Pow2(lg) == h + h;
    PowAdd(f, w, h, h);
    RootsOfOne(f, f.Pow(w, h));
    if f.Two() == f.zero {
      NegIsUnique(f, f.one, f.one);
    }
  }

  lemma SquareHasHalfOrder<T(!new)>(f: Field<T>, w: T, lg: nat)
    requires IsField(f) && lg > 0 && HasOrder2(f, w, lg)
    ensures HasOrder2(f, f.Square(w), lg - 1)
  {
    PowSmall(f, w);
    PowMul(f, w, 2, Pow2(lg - 1));
    if lg > 1 {
      PowMul(f, w, 2, Pow2(lg - 2));
    }
  }

  // ----- Polynomials by their coefficients, lowest first -----

  function Eval<T>(f: Field<T>, c: seq<T>, x: T): T {
    if c == [] then f.zero else f.Add(c[0], f.Mul(x, Eval(f, c[1..], x)))
  }

  function Sum<T>(f: Field<T>, s: seq<T>): T {
    if s == [] then f.zero else f.Add(s[0], Sum(f, s[1..]))
  }

  lemma {:induction false} SumAppend<T(!new)>(f: Field<T>, a: seq<T>, b: seq<T>)
    requires IsField(f)
    ensures Sum(f, a + b) == f.Add(Sum(f, a), Sum(f, b))
  {
    Ring(f);
    if a == [] {
      assert a + b == b;
    } else {
      assert (a + b)[1..] == a[1..] + b;
      SumAppend(f, a[1..], b);
    }
  }

  lemma SumOne<T(!new)>(f: Field<T>, a: T)
    requires IsField(f)
    ensures Sum(f, [a]) == a
  {
    assert Law(f, a, a, a);
    assert [a][1..] == [];
    assert Sum(f, [a]) == f.Add(a, Sum(f, []));
  }

  lemma {:induction false} SumPointwise<T(!new)>(f: Field<T>, a: seq<T>, b: seq<T>, c: seq<T>)
    requires IsField(f)
    requires |a| == |b| == |c|
    requires forall i :: 0 <= i < |a| ==> c[i] == f.Add(a[i], b[i])
    ensures Sum(f, c) == f.Add(Sum(f, a), Sum(f, b))
  {
    Ring(f);
    if a != [] {
      SumPointwise(f, a[1..], b[1..], c[1..]);
      var sa, sb := Sum(f, a[1..]), Sum(f, b[1..]);
      assert f.Add(f.Add(a[0], b[0]), f.Add(sa, sb)) == f.Add(f.Add(a[0], sa), f.Add(b[0], sb));
    }
  }

  lemma {:induction false} SumScale<T(!new)>(f: Field<T>, k: T, a: seq<T>, c: seq<T>)
    requires IsField(f)
    requires |a| == |c|
    requires forall i :: 0 <= i < |a| ==> c[i] == f.Mul(k, a[i])
    ensures Sum(f, c) == f.Mul(k, Sum(f, a))
  {
    Ring(f);
    if a != [] {
      SumScale(f, k, a[1..], c[1..]);
    }
  }
}
