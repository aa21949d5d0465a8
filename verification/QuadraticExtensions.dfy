/** The quadratic extension f[X] / (X^2 - W) of a field, with an element stored as (a, b) for a + b X. */
module QuadraticExtensions {
  import opened Fields

  function ExtAdd<T>(f: Field<T>, x: (T, T), y: (T, T)): (T, T) { (f.Add(x.0, y.0), f.Add(x.1, y.1)) }

  function ExtNeg<T>(f: Field<T>, x: (T, T)): (T, T) { (f.Neg(x.0), f.Neg(x.1)) }

  function ExtMul<T>(f: Field<T>, W: T, x: (T, T), y: (T, T)): (T, T) {
    (f.Add(f.Mul(x.0, y.0), f.Mul(W, f.Mul(x.1, y.1))), f.Add(f.Mul(x.0, y.1), f.Mul(x.1, y.0)))
  }

  /** the product of an element with its conjugate, an element of the base field */
  function Norm<T>(f: Field<T>, W: T, x: (T, T)): T { f.Sub(f.Mul(x.0, x.0), f.Mul(W, f.Mul(x.1, x.1))) }

  /** the conjugate divided by the norm */
  function ExtInv<T>(f: Field<T>, W: T, x: (T, T)): (T, T) {
    var r := f.Inv(Norm(f, W, x));
    (f.Mul(x.0, r), f.Mul(f.Neg(x.1), r))
  }

  function Ext<T>(f: Field<T>, W: T): Field<(T, T)> {
    Field(
      (f.zero, f.zero), (f.one, f.zero),
      (x: (T, T), y: (T, T)) => ExtAdd(f, x, y),
      (x: (T, T)) => ExtNeg(f, x),
      (x: (T, T), y: (T, T)) => ExtMul(f, W, x, y),
      (x: (T, T)) => ExtInv(f, W, x))
  }

  /** an element of the base field seen as one of the extension */
  function Embed<T>(f: Field<T>, a: T): (T, T) { (a, f.zero) }

  /** X^2 - W has no root */
  ghost predicate Irreducible<T(!new)>(f: Field<T>, W: T) { forall x :: f.Mul(x, x) != W }

  // ----- The field laws -----

  lemma AssociateFirst<T(!new)>(f: Field<T>, W: T, a0: T, a1: T, b0: T, b1: T, c0: T, c1: T)
    requires IsField(f)
    ensures f.Add(f.Mul(f.Add(f.Mul(a0, b0), f.Mul(W, f.Mul(a1, b1))), c0),
            f.Mul(W, f.Mul(f.Add(f.Mul(a0, b1), f.Mul(a1, b0)), c1)))
         == f.Add(f.Mul(a0, f.Add(f.Mul(b0, c0), f.Mul(W, f.Mul(b1, c1)))),
           f.Mul(W, f.Mul(a1, f.Add(f.Mul(b0, c1), f.Mul(b1, c0)))))
  {
    var p, q, r, s := f.Mul(a0, f.Mul(b0, c0)), f.Mul(W, f.Mul(a1, f.Mul(b1, c0))),
      f.Mul(W, f.Mul(a0, f.Mul(b1, c1))), f.Mul(W, f.Mul(a1, f.Mul(b0, c1)));
    Ring(f);
    assert f.Mul(f.Add(f.Mul(a0, b0), f.Mul(W, f.Mul(a1, b1))), c0) == f.Add(p, q);
    assert f.Mul(W, f.Mul(f.Add(f.Mul(a0, b1), f.Mul(a1, b0)), c1)) == f.Add(r, s);
    assert f.Mul(a0, f.Add(f.Mul(b0, c0), f.Mul(W, f.Mul(b1, c1)))) == f.Add(p, r);
    assert f.Mul(W, f.Mul(a1, f.Add(f.Mul(b0, c1), f.Mul(b1, c0)))) == f.Add(s, q);
  }

  lemma AssociateSecond<T(!new)>(f: Field<T>, W: T, a0: T, a1: T, b0: T, b1: T, c0: T, c1: T)
    requires IsField(f)
    ensures f.Add(f.Mul(f.Add(f.Mul(a0, b0), f.Mul(W, f.Mul(a1, b1))), c1),
            f.Mul(f.Add(f.Mul(a0, b1), f.Mul(a1, b0)), c0))
         == f.Add(f.Mul(a0, f.Add(f.Mul(b0, c1), f.Mul(b1, c0))),
           f.Mul(a1, f.Add(f.Mul(b0, c0), f.Mul(W, f.Mul(b1, c1)))))
  {
    var p, q, r, s := f.Mul(a0, f.Mul(b0, c1)), f.Mul(W, f.Mul(a1, f.Mul(b1, c1))),
      f.Mul(a0, f.Mul(b1, c0)), f.Mul(a1, f.Mul(b0, c0));
    Ring(f);
    assert f.Mul(f.Add(f.Mul(a0, b0), f.Mul(W, f.Mul(a1, b1))), c1) == f.Add(p, q);
    assert f.Mul(f.Add(f.Mul(a0, b1), f.Mul(a1, b0)), c0) == f.Add(r, s);
    assert f.Mul(a0, f.Add(f.Mul(b0, c1), f.Mul(b1, c0))) == f.Add(p, r);
    assert f.Mul(a1, f.Add(f.Mul(b0, c0), f.Mul(W, f.Mul(b1, c1)))) == f.Add(s, q);
  }

  lemma Distributes<T(!new)>(f: Field<T>, W: T, a: (T, T), b: (T, T), c: (T, T))
    requires IsField(f)
    ensures ExtMul(f, W, a, ExtAdd(f, b, c)) == ExtAdd(f, ExtMul(f, W, a, b), ExtMul(f, W, a, c))
  {
    SumOfPairs(f, f.one, a.0, b.0, c.0, W, a.1, b.1, c.1);
    SumOfPairs(f, f.one, a.0, b.1, c.1, f.one, a.1, b.0, c.0);
    Ring(f);
  }

  /** k a (b + c) + l d (e + g), sorted by the second summands */
  lemma SumOfPairs<T(!new)>(f: Field<T>, k: T, a: T, b: T, c: T, l: T, d: T, e: T, g: T)
    requires IsField(f)
    ensures f.Add(f.Mul(k, f.Mul(a, f.Add(b, c))), f.Mul(l, f.Mul(d, f.Add(e, g))))
         == f.Add(f.Add(f.Mul(k, f.Mul(a, b)), f.Mul(l, f.Mul(d, e))),
           f.Add(f.Mul(k, f.Mul(a, c)), f.Mul(l, f.Mul(d, g))))
  {
    Ring(f);
    assert f.Mul(k, f.Mul(a, f.Add(b, c))) == f.Add(f.Mul(k, f.Mul(a, b)), f.Mul(k, f.Mul(a, c)));
    assert f.Mul(l, f.Mul(d, f.Add(e, g))) == f.Add(f.Mul(l, f.Mul(d, e)), f.Mul(l, f.Mul(d, g)));
  }

  lemma NormNonzero<T(!new)>(f: Field<T>, W: T, x: (T, T))
    requires IsField(f) && Irreducible(f, W)
    requires x != (f.zero, f.zero)
    ensures Norm(f, W, x) != f.zero
  {
    var a, b := x.0, x.1;
    if Norm(f, W, x) == f.zero {
      SubZero(f, f.Mul(a, a), f.Mul(W, f.Mul(b, b)));
      if b == f.zero {
        MulZero(f, f.zero);
        MulZero(f, W);
        NoZeroDivisors(f, a, a);
      } else {
        InvLaw(f, b);
        RootOfQuotient(f, W, a, b, f.Inv(b));
      }
    }
  }

  lemma RootOfQuotient<T(!new)>(f: Field<T>, W: T, a: T, b: T, r: T)
    requires IsField(f) && f.Mul(a, a) == f.Mul(W, f.Mul(b, b)) && f.Mul(b, r) == f.one
    ensures f.Mul(f.Mul(a, r), f.Mul(a, r)) == W
  {
    Ring(f);
    assert f.Mul(f.Mul(a, r), f.Mul(a, r)) == f.Mul(f.Mul(a, a), f.Mul(r, r));
    assert f.Mul(f.Mul(W, f.Mul(b, b)), f.Mul(r, r)) == f.Mul(W, f.Mul(f.Mul(b, r), f.Mul(b, r)));
  }

  /** an element times its conjugate, scaled by r, is the norm scaled by r */
  lemma TimesConjugate<T(!new)>(f: Field<T>, W: T, x: (T, T), r: T)
    requires IsField(f)
    ensures ExtMul(f, W, x, (f.Mul(x.0, r), f.Mul(f.Neg(x.1), r))) == (f.Mul(Norm(f, W, x), r), f.zero)
  {
    var a, b := x.0, x.1;
    var aa, bb := f.Mul(a, a), f.Mul(W, f.Mul(b, b));
    assert f.Mul(f.Neg(b), r) == f.Neg(f.Mul(b, r)) by { Ring(f); RingNeg(f); }
    MulNeg(f, b, f.Mul(b, r));
    MulNeg(f, W, f.Mul(b, f.Mul(b, r)));
    MulNeg(f, a, f.Mul(b, r));
    assert f.Mul(a, f.Mul(a, r)) == f.Mul(aa, r) && f.Mul(W, f.Mul(b, f.Mul(b, r))) == f.Mul(bb, r)
      && f.Mul(a, f.Mul(b, r)) == f.Mul(b, f.Mul(a, r)) by { Ring(f); }
    assert f.Mul(f.Sub(aa, bb), r) == f.Add(f.Mul(aa, r), f.Neg(f.Mul(bb, r))) by { Ring(f); MulNeg(f, r, bb); }
    assert f.Add(f.Neg(f.Mul(b, f.Mul(a, r))), f.Mul(b, f.Mul(a, r))) == f.zero by { RingNeg(f); Ring(f); }
  }

  lemma InverseLaw<T(!new)>(f: Field<T>, W: T, x: (T, T))
    requires IsField(f) && Irreducible(f, W) && x != (f.zero, f.zero)
    ensures ExtMul(f, W, x, ExtInv(f, W, x)) == (f.one, f.zero)
  {
    NormNonzero(f, W, x);
    InvLaw(f, Norm(f, W, x));
    TimesConjugate(f, W, x, f.Inv(Norm(f, W, x)));
  }

  lemma Commutes<T(!new)>(f: Field<T>, W: T, a: (T, T), b: (T, T))
    requires IsField(f)
    ensures ExtMul(f, W, a, b) == ExtMul(f, W, b, a)
  {
    assert Law(f, a.0, b.0, W) && Law(f, a.1, b.1, W);
    assert Law(f, a.0, b.1, W) && Law(f, a.1, b.0, W);
    assert Law(f, f.Mul(a.0, b.1), f.Mul(a.1, b.0), W);
  }

  lemma UnitLaw<T(!new)>(f: Field<T>, W: T, a: (T, T))
    requires IsField(f)
    ensures ExtMul(f, W, a, (f.one, f.zero)) == a
  {
    EmbedProduct(f, W, f.one, a);
    Commutes(f, W, a, (f.one, f.zero));
    assert Law(f, f.one, a.0, W) && Law(f, a.0, f.one, W);
    assert Law(f, f.one, a.1, W) && Law(f, a.1, f.one, W);
  }

  lemma AddLawsHold<T(!new)>(f: Field<T>, a: (T, T), b: (T, T), c: (T, T))
    requires IsField(f)
    ensures ExtAdd(f, a, b) == ExtAdd(f, b, a)
    ensures ExtAdd(f, ExtAdd(f, a, b), c) == ExtAdd(f, a, ExtAdd(f, b, c))
    ensures ExtAdd(f, a, (f.zero, f.zero)) == a
    ensures ExtAdd(f, a, ExtNeg(f, a)) == (f.zero, f.zero)
  {
    assert Law(f, a.0, b.0, c.0) && Law(f, a.1, b.1, c.1);
  }

  /** the extension by a non-residue is a field */
  lemma ExtIsField<T(!new)>(f: Field<T>, W: T)
    requires IsField(f) && Irreducible(f, W)
    ensures IsField(Ext(f, W))
  {
    forall a: (T, T), b: (T, T), c: (T, T)
      ensures Law(Ext(f, W), a, b, c)
    {
      AddLawsHold(f, a, b, c);
      AssociateFirst(f, W, a.0, a.1, b.0, b.1, c.0, c.1);
      AssociateSecond(f, W, a.0, a.1, b.0, b.1, c.0, c.1);
      Distributes(f, W, a, b, c);
      Commutes(f, W, a, b);
      UnitLaw(f, W, a);
      if a != (f.zero, f.zero) {
        InverseLaw(f, W, a);
      }
      assert Law(f, f.one, f.one, f.one);
    }
  }

  // ----- The base field inside the extension -----

  lemma EmbedProduct<T(!new)>(f: Field<T>, W: T, a: T, y: (T, T))
    requires IsField(f)
    ensures ExtMul(f, W, Embed(f, a), y) == (f.Mul(a, y.0), f.Mul(a, y.1))
  {
    ZeroTimes(f, y.0);
    ZeroTimes(f, y.1);
    MulZero(f, W);
    assert Law(f, f.Mul(a, y.0), f.zero, W) && Law(f, f.Mul(a, y.1), f.zero, W);
  }

  lemma ZeroTimes<T(!new)>(f: Field<T>, a: T)
    requires IsField(f)
    ensures f.Mul(f.zero, a) == f.zero
  {
    MulZero(f, a);
    assert Law(f, a, f.zero, a);
  }

  lemma EmbedHom<T(!new)>(f: Field<T>, W: T, a: T, b: T)
    requires IsField(f)
    ensures ExtAdd(f, Embed(f, a), Embed(f, b)) == Embed(f, f.Add(a, b))
    ensures ExtMul(f, W, Embed(f, a), Embed(f, b)) == Embed(f, f.Mul(a, b))
  {
    EmbedProduct(f, W, a, Embed(f, b));
    MulZero(f, a);
    assert Law(f, f.zero, f.zero, f.zero);
  }

  lemma {:induction false} EmbedPow<T(!new)>(f: Field<T>, W: T, a: T, n: nat)
    requires IsField(f)
    ensures Ext(f, W).Pow(Embed(f, a), n) == Embed(f, f.Pow(a, n))
  {
    if n > 0 {
      EmbedPow(f, W, a, n - 1);
      EmbedHom(f, W, a, f.Pow(a, n - 1));
    }
  }

  function EmbedAll<T>(f: Field<T>, c: seq<T>): (r: seq<(T, T)>)
    ensures |r| == |c| && forall i :: 0 <= i < |c| ==> r[i] == Embed(f, c[i])
  {
    if c == [] then [] else [Embed(f, c[0])] + EmbedAll(f, c[1..])
  }

  lemma {:induction false} EmbedEval<T(!new)>(f: Field<T>, W: T, c: seq<T>, x: T)
    requires IsField(f)
    ensures Eval(Ext(f, W), EmbedAll(f, c), Embed(f, x)) == Embed(f, Eval(f, c, x))
  {
    if c != [] {
      EmbedEval(f, W, c[1..], x);
      var s := Eval(f, c[1..], x);
      EmbedHom(f, W, x, s);
      EmbedHom(f, W, c[0], f.Mul(x, s));
    }
  }
}
