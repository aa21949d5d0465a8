/** The barycentric formula on a subgroup of roots of unity whose order is a power of two. */
module Barycentric {
  import opened Arithmetic
  import opened Fields
  import opened Dft

  /** y_i w^i / (z - w^i) */
  ghost function BaryTerm<T>(f: Field<T>, y: T, x: T, z: T): T {
    f.Mul(f.Mul(y, x), f.Inv(f.Sub(z, x)))
  }

  /** the sum of the terms with lo <= i < hi */
  ghost function BarySum<T>(f: Field<T>, y: seq<T>, w: T, z: T, lo: nat, hi: nat): T
    requires hi <= |y|
  {
    if hi <= lo then f.zero
    else f.Add(BarySum(f, y, w, z, lo, hi - 1), BaryTerm(f, y[hi - 1], f.Pow(w, hi - 1), z))
  }

  /** `z` is none of the first n powers of `w` */
  ghost predicate Outside<T>(f: Field<T>, w: T, z: T, n: nat) {
    forall i: nat {:trigger f.Pow(w, i)} :: i < n ==> z != f.Pow(w, i)
  }

  lemma {:induction false} BarySumSplit<T(!new)>(f: Field<T>, y: seq<T>, w: T, z: T, lo: nat, mid: nat, hi: nat)
    requires IsField(f) && lo <= mid <= hi <= |y|
    ensures BarySum(f, y, w, z, lo, hi) == f.Add(BarySum(f, y, w, z, lo, mid), BarySum(f, y, w, z, mid, hi))
    decreases hi - mid
  {
    var s := BarySum(f, y, w, z, lo, mid);
    if hi == mid {
      assert Law(f, s, f.zero, s);
    } else {
      BarySumSplit(f, y, w, z, lo, mid, hi - 1);
      assert Law(f, s, BarySum(f, y, w, z, mid, hi - 1), BaryTerm(f, y[hi - 1], f.Pow(w, hi - 1), z));
    }
  }

  // ----- A term and the one half a turn away -----

  /** (p + q)(z + x) + (q - p)(z - x) = 2 (p x + q z) */
  lemma CrossTerms<T(!new)>(f: Field<T>, p: T, q: T, z: T, x: T)
    requires IsField(f)
    ensures f.Add(f.Mul(f.Add(p, q), f.Add(z, x)), f.Mul(f.Sub(q, p), f.Sub(z, x)))
         == f.Mul(f.Two(), f.Add(f.Mul(p, x), f.Mul(q, z)))
  {
    var A, B, C, D := f.Mul(p, z), f.Mul(p, x), f.Mul(q, z), f.Mul(q, x);
    ExpandProduct(f, p, q, z, x);
    ExpandProduct(f, q, f.Neg(p), z, f.Neg(x));
    MulNeg(f, q, x);
    NegTimes(f, p, z);
    NegTimesNeg(f, p, x);
    Collect(f, A, B, C, D);
  }

  lemma NegTimes<T(!new)>(f: Field<T>, a: T, b: T)
    requires IsField(f)
    ensures f.Mul(f.Neg(a), b) == f.Neg(f.Mul(a, b))
  {
    MulNeg(f, b, a);
    assert Law(f, b, f.Neg(a), b) && Law(f, b, a, b);
  }

  lemma NegTimesNeg<T(!new)>(f: Field<T>, a: T, b: T)
    requires IsField(f)
    ensures f.Mul(f.Neg(a), f.Neg(b)) == f.Mul(a, b)
  {
    NegTimes(f, a, f.Neg(b));
    MulNeg(f, a, b);
    RingNeg(f);
  }

  lemma Collect<T(!new)>(f: Field<T>, A: T, B: T, C: T, D: T)
    requires IsField(f)
    ensures f.Add(f.Add(f.Add(A, B), f.Add(C, D)), f.Add(f.Add(C, f.Neg(D)), f.Add(f.Neg(A), B)))
            == f.Mul(f.Two(), f.Add(B, C))
  {
    var x := f.Add(B, C);
    var u, v := f.Add(A, D), f.Add(f.Neg(A), f.Neg(D));
    NegOfSum(f, A, D);
    InnerOuter(f, A, B, C, D);
    SortFour(f, C, f.Neg(D), f.Neg(A), B);
    assert Law(f, x, u, f.Add(v, x)) && Law(f, u, v, x) && Law(f, x, f.zero, x) && Law(f, f.zero, x, x);
    assert f.Mul(f.Two(), x) == f.Add(x, x) by { assert Law(f, x, f.one, f.one) && Law(f, f.Two(), x, x); }
  }

  /** (a + b) + (c + d) = (b + c) + (a + d) */
  lemma InnerOuter<T(!new)>(f: Field<T>, a: T, b: T, c: T, d: T)
    requires IsField(f)
    ensures f.Add(f.Add(a, b), f.Add(c, d)) == f.Add(f.Add(b, c), f.Add(a, d))
  {
    assert Law(f, a, b, f.Add(c, d)) && Law(f, b, c, d) && Law(f, b, c, f.Add(a, d));
    assert Law(f, a, f.Add(b, f.Add(c, d)), a) && Law(f, b, f.Add(c, d), a);
    assert Law(f, c, d, a) && Law(f, d, a, a);
  }

  /** (c + d) + (a + b) = (a + d) + (b + c) */
  lemma SortFour<T(!new)>(f: Field<T>, c: T, d: T, a: T, b: T)
    requires IsField(f)
    ensures f.Add(f.Add(c, d), f.Add(a, b)) == f.Add(f.Add(a, d), f.Add(b, c))
  {
    InnerOuter(f, c, d, a, b);
    assert Law(f, d, a, c) && Law(f, c, b, c);
  }

  lemma InverseOfProduct<T(!new)>(f: Field<T>, a: T, b: T)
    requires IsField(f) && a != f.zero && b != f.zero
    ensures f.Inv(f.Mul(a, b)) == f.Mul(f.Inv(a), f.Inv(b))
  {
    InvLaw(f, a);
    InvLaw(f, b);
    var u, v := f.Inv(a), f.Inv(b);
    assert f.Mul(f.Mul(a, b), f.Mul(u, v)) == f.Mul(f.Mul(a, u), f.Mul(b, v)) by { Ring(f); }
    assert Law(f, f.one, f.one, f.one);
    InverseIsUnique(f, f.Mul(a, b), f.Mul(u, v));
  }

  /** n / s + k / d over the common denominator s d */
  lemma CommonDenominator<T(!new)>(f: Field<T>, n: T, s: T, k: T, d: T)
    requires IsField(f) && s != f.zero && d != f.zero
    ensures f.Add(f.Mul(n, f.Inv(d)), f.Mul(k, f.Inv(s)))
         == f.Mul(f.Add(f.Mul(n, s), f.Mul(k, d)), f.Mul(f.Inv(d), f.Inv(s)))
  {
    InvLaw(f, s);
    InvLaw(f, d);
    var u, v := f.Inv(d), f.Inv(s);
    assert f.Mul(f.Mul(n, s), f.Mul(u, v)) == f.Mul(n, u) by {
      assert f.Mul(f.Mul(n, s), f.Mul(u, v)) == f.Mul(f.Mul(n, u), f.Mul(s, v)) by { Ring(f); }
      assert Law(f, f.Mul(n, u), f.one, f.one);
    }
    assert f.Mul(f.Mul(k, d), f.Mul(u, v)) == f.Mul(k, v) by {
      assert f.Mul(f.Mul(k, d), f.Mul(u, v)) == f.Mul(f.Mul(k, v), f.Mul(d, u)) by { Ring(f); }
      assert Law(f, f.Mul(k, v), f.one, f.one);
    }
    var uv := f.Mul(u, v);
    assert Law(f, uv, f.Mul(n, s), f.Mul(k, d)) && Law(f, uv, f.Add(f.Mul(n, s), f.Mul(k, d)), f.one);
    assert Law(f, uv, f.Mul(n, s), f.one) && Law(f, uv, f.Mul(k, d), f.one);
  }

  /** the terms of x and -x, where the values are e + x o and e - x o */
  lemma PairTerm<T(!new)>(f: Field<T>, e: T, o: T, x: T, z: T)
    requires IsField(f) && z != x && z != f.Neg(x)
    ensures f.Add(BaryTerm(f, f.Add(e, f.Mul(x, o)), x, z), BaryTerm(f, f.Sub(e, f.Mul(x, o)), f.Neg(x), z))
         == f.Mul(f.Two(), f.Add(BaryTerm(f, e, f.Mul(x, x), f.Mul(z, z)),
           f.Mul(z, BaryTerm(f, o, f.Mul(x, x), f.Mul(z, z)))))
  {
    var d, s := f.Sub(z, x), f.Add(z, x);
    var p, q := f.Mul(e, x), f.Mul(f.Mul(x, o), x);
    SubZero(f, z, x);
    SubZero(f, z, f.Neg(x));
    assert f.Sub(z, f.Neg(x)) == s by { RingNeg(f); }
    assert f.Mul(f.Add(e, f.Mul(x, o)), x) == f.Add(p, q) by { Ring(f); }
    PairNumerator(f, e, o, x);
    CommonDenominator(f, f.Add(p, q), s, f.Sub(q, p), d);
    CrossTerms(f, p, q, z, x);
    InverseOfProduct(f, d, s);
    DifferenceOfSquares(f, z, x);
    PairResult(f, e, o, x, z, f.Mul(f.Inv(d), f.Inv(s)));
  }

  /** (e - x o)(-x) = x o x - e x */
  lemma PairNumerator<T(!new)>(f: Field<T>, e: T, o: T, x: T)
    requires IsField(f)
    ensures f.Mul(f.Sub(e, f.Mul(x, o)), f.Neg(x)) == f.Sub(f.Mul(f.Mul(x, o), x), f.Mul(e, x))
  {
    var xo := f.Mul(x, o);
    assert Law(f, f.Neg(x), e, f.Neg(xo)) && Law(f, f.Neg(x), f.Sub(e, xo), x);
    NegTimes(f, x, e);
    NegTimesNeg(f, x, xo);
    assert Law(f, x, e, x) && Law(f, x, xo, x);
    assert Law(f, f.Neg(f.Mul(e, x)), f.Mul(xo, x), x);
  }

  lemma PairResult<T(!new)>(f: Field<T>, e: T, o: T, x: T, z: T, r: T)
    requires IsField(f)
    ensures f.Mul(f.Mul(f.Two(), f.Add(f.Mul(f.Mul(e, x), x), f.Mul(f.Mul(f.Mul(x, o), x), z))), r)
         == f.Mul(f.Two(), f.Add(f.Mul(f.Mul(e, f.Mul(x, x)), r), f.Mul(z, f.Mul(f.Mul(o, f.Mul(x, x)), r))))
  {
    var a, b := f.Mul(f.Mul(e, x), x), f.Mul(f.Mul(f.Mul(x, o), x), z);
    assert Law(f, f.Two(), f.Add(a, b), r) && Law(f, r, a, b) && Law(f, r, f.Add(a, b), r) && Law(f, r, a, a)
      && Law(f, r, b, b);
    assert f.Mul(a, r) == f.Mul(f.Mul(e, f.Mul(x, x)), r) by { Ring(f); }
    assert f.Mul(b, r) == f.Mul(z, f.Mul(f.Mul(o, f.Mul(x, x)), r)) by { Ring(f); }
  }

  // ----- Half the sum from the sums of the even and the odd part -----

  lemma PairAt<T(!new)>(f: Field<T>, c: seq<T>, w: T, lg: nat, z: T, i: nat, i': nat)
    requires IsField(f) && lg > 0 && HasOrder2(f, w, lg) && |c| == Pow2(lg) && i < |c| / 2 && i' == Pow2(lg - 1) + i
    requires z != f.Pow(w, i) && z != f.Pow(w, i')
    ensures i' < |c|
    ensures var (y, e, o, w2) := (Transform(f, c, w), Transform(f, Evens(c), f.Square(w)),
            Transform(f, Odds(c), f.Square(w)), f.Square(w));
            f.Add(BaryTerm(f, y[i], f.Pow(w, i), z), BaryTerm(f, y[i'], f.Pow(w, i'), z))
            == f.Mul(f.Two(), f.Add(BaryTerm(f, e[i], f.Pow(w2, i), f.Mul(z, z)),
              f.Mul(z, BaryTerm(f, o[i], f.Pow(w2, i), f.Mul(z, z)))))
  {
    TransformLowAt(f, c, w, i);
    TransformHighAt(f, c, w, lg, i, i');
    HalfTurn(f, w, lg, i);
    SquareOfPower(f, w, i);
    PairTerm(f, Transform(f, Evens(c), f.Square(w))[i], Transform(f, Odds(c), f.Square(w))[i], f.Pow(w, i), z);
  }

  /** the sum over the first k indices and the k indices half a turn away */
  ghost predicate PairedSums<T>(f: Field<T>, y: seq<T>, e: seq<T>, o: seq<T>, w: T, z: T, m: nat, k: nat) {
    && m + k <= |y| && k <= |e| && k <= |o|
    && f.Add(BarySum(f, y, w, z, 0, k), BarySum(f, y, w, z, m, m + k))
       == f.Mul(f.Two(), f.Add(BarySum(f, e, f.Square(w), f.Mul(z, z), 0, k),
         f.Mul(z, BarySum(f, o, f.Square(w), f.Mul(z, z), 0, k))))
  }

  lemma {:induction false} PairSums<T(!new)>(f: Field<T>, c: seq<T>, w: T, lg: nat, z: T, k: nat)
    requires IsField(f) && lg > 0 && HasOrder2(f, w, lg) && |c| == Pow2(lg) && Outside(f, w, z, |c|)
    requires k <= |c| / 2
    ensures PairedSums(f, Transform(f, c, w), Transform(f, Evens(c), f.Square(w)), Transform(f, Odds(c), f.Square(w)),
            w, z, Pow2(lg - 1), k)
  {
    hide Outside, HasOrder2, IsField, Transform, Evens, Odds, BarySum, BaryTerm, PairedSums;
    var y, e, o, m := Transform(f, c, w), Transform(f, Evens(c), f.Square(w)), Transform(f, Odds(c), f.Square(w)),
      Pow2(lg - 1);
    assert |c| == 2 * m && |y| == 2 * m && |e| == m && |o| == m;
    hide Pow2;
    if k == 0 {
      PairedStart(f, y, e, o, w, z, m);
    } else {
      var i, i' := k - 1, m + (k - 1);
      PairSums(f, c, w, lg, z, i);
      OutsideAt(f, w, z, |c|, i);
      OutsideAt(f, w, z, |c|, i');
      PairAt(f, c, w, lg, z, i, i');
      PairedNext(f, y, e, o, w, z, m, i);
    }
  }

  lemma OutsideAt<T>(f: Field<T>, w: T, z: T, n: nat, i: nat)
    requires Outside(f, w, z, n) && i < n
    ensures z != f.Pow(w, i)
  {
  }

  lemma PairedStart<T(!new)>(f: Field<T>, y: seq<T>, e: seq<T>, o: seq<T>, w: T, z: T, m: nat)
    requires IsField(f) && m <= |y|
    ensures PairedSums(f, y, e, o, w, z, m, 0)
  {
    PairedNothing(f, z);
  }

  lemma PairedNext<T(!new)>(f: Field<T>, y: seq<T>, e: seq<T>, o: seq<T>, w: T, z: T, m: nat, i: nat)
    requires IsField(f) && PairedSums(f, y, e, o, w, z, m, i) && m + i < |y| && i < |e| && i < |o|
    requires f.Add(BaryTerm(f, y[i], f.Pow(w, i), z), BaryTerm(f, y[m + i], f.Pow(w, m + i), z))
             == f.Mul(f.Two(), f.Add(BaryTerm(f, e[i], f.Pow(f.Square(w), i), f.Mul(z, z)),
                                     f.Mul(z, BaryTerm(f, o[i], f.Pow(f.Square(w), i), f.Mul(z, z)))))
    ensures PairedSums(f, y, e, o, w, z, m, i + 1)
  {
    hide BaryTerm, IsField;
    var w2, i' := f.Square(w), m + i;
    AddPair(f, BarySum(f, y, w, z, 0, i), BarySum(f, y, w, z, m, i'), BaryTerm(f, y[i], f.Pow(w, i), z),
      BaryTerm(f, y[i'], f.Pow(w, i'), z),
      BarySum(f, e, w2, f.Mul(z, z), 0, i), BarySum(f, o, w2, f.Mul(z, z), 0, i),
      BaryTerm(f, e[i], f.Pow(w2, i), f.Mul(z, z)), BaryTerm(f, o[i], f.Pow(w2, i), f.Mul(z, z)), z);
  }

  lemma PairedNothing<T(!new)>(f: Field<T>, z: T)
    requires IsField(f)
    ensures f.Add(f.zero, f.zero) == f.Mul(f.Two(), f.Add(f.zero, f.Mul(z, f.zero)))
  {
    MulZero(f, z);
    MulZero(f, f.Two());
    assert Law(f, f.zero, f.zero, f.zero);
  }

  lemma AddPair<T(!new)>(f: Field<T>, A: T, B: T, a: T, b: T, E: T, O: T, e: T, o: T, z: T)
    requires IsField(f)
    requires f.Add(A, B) == f.Mul(f.Two(), f.Add(E, f.Mul(z, O)))
             && f.Add(a, b) == f.Mul(f.Two(), f.Add(e, f.Mul(z, o)))
    ensures f.Add(f.Add(A, a), f.Add(B, b)) == f.Mul(f.Two(), f.Add(f.Add(E, e), f.Mul(z, f.Add(O, o))))
  {
    assert f.Add(f.Add(A, a), f.Add(B, b)) == f.Add(f.Add(A, B), f.Add(a, b)) by { Ring(f); }
    var p, q := f.Add(E, f.Mul(z, O)), f.Add(e, f.Mul(z, o));
    assert Law(f, f.Two(), p, q) && Law(f, z, O, o);
    assert f.Add(p, q) == f.Add(f.Add(E, e), f.Add(f.Mul(z, O), f.Mul(z, o))) by { Ring(f); }
  }

  // ----- The formula -----

  lemma OutsideSquares<T(!new)>(f: Field<T>, w: T, lg: nat, z: T)
    requires IsField(f) && lg > 0 && HasOrder2(f, w, lg) && Outside(f, w, z, Pow2(lg))
    ensures Outside(f, f.Square(w), f.Mul(z, z), Pow2(lg - 1))
  {
    forall i: nat | i < Pow2(lg - 1)
      ensures f.Mul(z, z) != f.Pow(f.Square(w), i)
    {
      var x := f.Pow(w, i);
      SquareOfPower(f, w, i);
      HalfTurn(f, w, lg, i);
      assert z != f.Pow(w, Pow2(lg - 1) + i);
      if f.Mul(z, z) == f.Mul(x, x) {
        DifferenceOfSquares(f, z, x);
        SubZero(f, f.Mul(z, z), f.Mul(x, x));
        NoZeroDivisors(f, f.Sub(z, x), f.Add(z, x));
        SubZero(f, z, x);
        assert Law(f, x, z, z);
        NegIsUnique(f, x, z);
      }
    }
  }

  /** n times the value at z of the polynomial with coefficients `c`, from its values at the powers of w */
  ghost predicate Formula<T>(f: Field<T>, c: seq<T>, w: T, lg: nat, z: T) {
    f.Mul(f.Pow(f.Two(), lg), Eval(f, c, z))
    == f.Mul(f.Sub(f.Pow(z, |c|), f.one), BarySum(f, Transform(f, c, w), w, z, 0, |c|))
  }

  lemma {:induction false} BarycentricFormula<T(!new)>(f: Field<T>, c: seq<T>, w: T, lg: nat, z: T)
    requires IsField(f) && HasOrder2(f, w, lg) && |c| == Pow2(lg) && Outside(f, w, z, |c|)
    ensures Formula(f, c, w, lg, z)
    decreases lg
  {
    if lg == 0 {
      assert z != f.Pow(w, 0);
      FormulaOne(f, c, w, z);
    } else {
      SquareHasHalfOrder(f, w, lg);
      OutsideSquares(f, w, lg, z);
      BarycentricFormula(f, Evens(c), f.Square(w), lg - 1, f.Mul(z, z));
      BarycentricFormula(f, Odds(c), f.Square(w), lg - 1, f.Mul(z, z));
      FormulaStep(f, c, w, lg, z);
    }
  }

  lemma FormulaOne<T(!new)>(f: Field<T>, c: seq<T>, w: T, z: T)
    requires IsField(f) && |c| == 1 && z != f.one
    ensures Formula(f, c, w, 0, z)
  {
    var y, d := Transform(f, c, w), f.Sub(z, f.one);
    TransformAt(f, c, w, 0);
    EvalSingle(f, c, f.Pow(w, 0));
    EvalSingle(f, c, z);
    PowSmall(f, z);
    SubZero(f, z, f.one);
    InvLaw(f, d);
    var t := BaryTerm(f, c[0], f.one, z);
    assert BarySum(f, y, w, z, 0, 1) == f.Add(BarySum(f, y, w, z, 0, 0), BaryTerm(f, y[0], f.Pow(w, 0), z));
    assert Law(f, t, f.zero, t) && Law(f, f.zero, t, t) && Law(f, c[0], f.one, f.one) && Law(f, f.one, c[0], c[0]);
    assert Law(f, c[0], f.Inv(d), d) && Law(f, d, t, t) && Law(f, f.Inv(d), d, d);
  }

  lemma FormulaStep<T(!new)>(f: Field<T>, c: seq<T>, w: T, lg: nat, z: T)
    requires IsField(f) && lg > 0 && HasOrder2(f, w, lg) && |c| == Pow2(lg) && Outside(f, w, z, |c|)
    requires Formula(f, Evens(c), f.Square(w), lg - 1, f.Mul(z, z))
             && Formula(f, Odds(c), f.Square(w), lg - 1, f.Mul(z, z))
    ensures Formula(f, c, w, lg, z)
  {
    var m, zz, w2 := Pow2(lg - 1), f.Mul(z, z), f.Square(w);
    var e, o := Evens(c), Odds(c);
    var y, ye, yo := Transform(f, c, w), Transform(f, e, w2), Transform(f, o, w2);
    assert |c| == 2 * m && |e| == m && |o| == m && |y| == |c| && |ye| == m && |yo| == m;
    EvalSplit(f, c, z);
    PairSums(f, c, w, lg, z, m);
    SquaredPower(f, z, m);
    assert f.Pow(f.Two(), lg) == f.Mul(f.Two(), f.Pow(f.Two(), lg - 1));
    FormulaFromHalves(f, f.Pow(f.Two(), lg - 1), f.Sub(f.Pow(z, |c|), f.one), z, w, w2, m, y, ye, yo, Eval(f, e, zz),
      Eval(f, o, zz));
  }

  /** both halves of the formula, with n = 2^(lg - 1) and k = z^|c| - 1 */
  lemma FormulaFromHalves<T(!new)>(f: Field<T>, n: T, k: T, z: T, w: T, w2: T, m: nat, y: seq<T>, ye: seq<T>,
                                   yo: seq<T>, e: T, o: T)
    requires IsField(f) && |y| == 2 * m && |ye| == m && |yo| == m && w2 == f.Square(w)
    requires PairedSums(f, y, ye, yo, w, z, m, m)
    requires f.Mul(n, e) == f.Mul(k, BarySum(f, ye, w2, f.Mul(z, z), 0, m))
             && f.Mul(n, o) == f.Mul(k, BarySum(f, yo, w2, f.Mul(z, z), 0, m))
    ensures f.Mul(f.Mul(f.Two(), n), f.Add(e, f.Mul(z, o))) == f.Mul(k, BarySum(f, y, w, z, 0, |y|))
  {
    BarySumSplit(f, y, w, z, 0, m, |y|);
    hide BarySum, IsField;
    CombineParts(f, n, k, z, e, BarySum(f, ye, w2, f.Mul(z, z), 0, m), o, BarySum(f, yo, w2, f.Mul(z, z), 0, m));
  }

  lemma SquaredPower<T(!new)>(f: Field<T>, z: T, m: nat)
    requires IsField(f)
    ensures f.Pow(f.Mul(z, z), m) == f.Pow(z, 2 * m)
  {
    PowSmall(f, z);
    PowMul(f, z, 2, m);
  }

  lemma CombineParts<T(!new)>(f: Field<T>, n: T, k: T, z: T, e: T, E: T, o: T, O: T)
    requires IsField(f) && f.Mul(n, e) == f.Mul(k, E) && f.Mul(n, o) == f.Mul(k, O)
    ensures f.Mul(f.Mul(f.Two(), n), f.Add(e, f.Mul(z, o))) == f.Mul(k, f.Mul(f.Two(), f.Add(E, f.Mul(z, O))))
  {
    assert f.Mul(f.Mul(f.Two(), n), f.Add(e, f.Mul(z, o)))
      == f.Mul(f.Two(), f.Add(f.Mul(n, e), f.Mul(z, f.Mul(n, o)))) by { Ring(f); }
    assert f.Mul(k, f.Mul(f.Two(), f.Add(E, f.Mul(z, O))))
      == f.Mul(f.Two(), f.Add(f.Mul(k, E), f.Mul(z, f.Mul(k, O)))) by { Ring(f); }
  }
}
