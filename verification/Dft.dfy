/** The discrete Fourier transform over a field and its even-odd recursion. */
module Dft {
  import opened Arithmetic
  import opened Fields

  function PartPrefix<T>(c: seq<T>, odd: nat, n: nat): (r: seq<T>)
    requires 2 * n <= |c| && odd <= 1
    ensures |r| == n
  {
    if n == 0 then [] else PartPrefix(c, odd, n - 1) + [c[2 * (n - 1) + odd]]
  }

  /** the coefficients with even index (`odd` = 0) or odd index (`odd` = 1) */
  function Part<T>(c: seq<T>, odd: nat): (r: seq<T>)
    requires odd <= 1
    ensures |r| == |c| / 2
  {
    PartPrefix(c, odd, |c| / 2)
  }

  function Evens<T>(c: seq<T>): (r: seq<T>)
    ensures |r| == |c| / 2
  {
    Part(c, 0)
  }

  function Odds<T>(c: seq<T>): (r: seq<T>)
    ensures |r| == |c| / 2
  {
    Part(c, 1)
  }

  lemma {:induction false} PartPrefixAt<T>(c: seq<T>, odd: nat, n: nat, k: nat)
    requires 2 * n <= |c| && odd <= 1 && k < n
    ensures PartPrefix(c, odd, n)[k] == c[2 * k + odd]
  {
    if k < n - 1 {
      PartPrefixAt(c, odd, n - 1, k);
    }
  }

  lemma PartAt<T>(c: seq<T>, odd: nat, k: nat)
    requires odd <= 1 && k < |c| / 2
    ensures Part(c, odd)[k] == c[2 * k + odd]
  {
    PartPrefixAt(c, odd, |c| / 2, k);
  }

  /** taking two coefficients away takes one away from each part */
  lemma PartTail<T>(c: seq<T>, odd: nat)
    requires odd <= 1 && |c| >= 2
    ensures Part(c, odd)[0] == c[odd] && Part(c, odd)[1..] == Part(c[2..], odd)
  {
    PartAt(c, odd, 0);
    forall k: nat | k < |c| / 2 - 1
      ensures Part(c, odd)[1..][k] == Part(c[2..], odd)[k]
    {
      PartAt(c, odd, k + 1);
      PartAt(c[2..], odd, k);
    }
  }

  function TransformPrefix<T>(f: Field<T>, c: seq<T>, w: T, n: nat): (v: seq<T>)
    ensures |v| == n
  {
    if n == 0 then [] else TransformPrefix(f, c, w, n - 1) + [Eval(f, c, f.Pow(w, n - 1))]
  }

  /** the values of the polynomial with coefficients `c` at the powers of `w` */
  function Transform<T>(f: Field<T>, c: seq<T>, w: T): (v: seq<T>)
    ensures |v| == |c|
  {
    TransformPrefix(f, c, w, |c|)
  }

  lemma {:induction false} TransformPrefixAt<T>(f: Field<T>, c: seq<T>, w: T, n: nat, k: nat)
    requires k < n
    ensures TransformPrefix(f, c, w, n)[k] == Eval(f, c, f.Pow(w, k))
  {
    if k < n - 1 {
      TransformPrefixAt(f, c, w, n - 1, k);
    }
  }

  lemma TransformAt<T>(f: Field<T>, c: seq<T>, w: T, k: nat)
    requires k < |c|
    ensures Transform(f, c, w)[k] == Eval(f, c, f.Pow(w, k))
  {
    TransformPrefixAt(f, c, w, |c|, k);
  }

  /** a polynomial is its even part at x^2 plus x times its odd part at x^2 */
  lemma {:induction false} EvalSplit<T(!new)>(f: Field<T>, c: seq<T>, x: T)
    requires IsField(f) && |c| % 2 == 0
    ensures Eval(f, c, x)
         == f.Add(Eval(f, Evens(c), f.Mul(x, x)), f.Mul(x, Eval(f, Odds(c), f.Mul(x, x))))
  {
    if c == [] {
      Ring(f);
    } else {
      EvalSplit(f, c[2..], x);
      var e, o := Eval(f, Evens(c[2..]), f.Mul(x, x)), Eval(f, Odds(c[2..]), f.Mul(x, x));
      assert c[1..][1..] == c[2..];
      PartTail(c, 0);
      PartTail(c, 1);
      TwoSteps(f, c[0], c[1], x, e, o);
    }
  }

  lemma TwoSteps<T(!new)>(f: Field<T>, a: T, b: T, x: T, e: T, o: T)
    requires IsField(f)
    ensures f.Add(a, f.Mul(x, f.Add(b, f.Mul(x, f.Add(e, f.Mul(x, o))))))
         == f.Add(f.Add(a, f.Mul(f.Mul(x, x), e)), f.Mul(x, f.Add(b, f.Mul(f.Mul(x, x), o))))
  {
    Ring(f);
  }

  /** value k of a merged block: l[k] + row[k] r[k] in the first half, l[k] - row[k] r[k] in the second */
  function Butterfly<T>(f: Field<T>, l: seq<T>, r: seq<T>, row: seq<T>, k: nat): T
    requires k < |l| + |r|
  {
    if |l| == |r| <= |row| then
      if k < |l| then f.Add(l[k], f.Mul(row[k], r[k])) else f.Sub(l[k - |l|], f.Mul(row[k - |l|], r[k - |l|]))
    else
      (l + r)[k]
  }

  function MergePrefix<T>(f: Field<T>, l: seq<T>, r: seq<T>, row: seq<T>, n: nat): (v: seq<T>)
    requires n <= |l| + |r|
    ensures |v| == n
  {
    if n == 0 then [] else MergePrefix(f, l, r, row, n - 1) + [Butterfly(f, l, r, row, n - 1)]
  }

  /** two halves of a block merged by one round of butterflies */
  function Merge<T>(f: Field<T>, l: seq<T>, r: seq<T>, row: seq<T>): (v: seq<T>)
    ensures |v| == |l| + |r|
  {
    MergePrefix(f, l, r, row, |l| + |r|)
  }

  lemma {:induction false} MergePrefixAt<T>(f: Field<T>, l: seq<T>, r: seq<T>, row: seq<T>, n: nat, k: nat)
    requires k < n <= |l| + |r|
    ensures MergePrefix(f, l, r, row, n)[k] == Butterfly(f, l, r, row, k)
  {
    if k < n - 1 {
      MergePrefixAt(f, l, r, row, n - 1, k);
    }
  }

  lemma MergeValues<T>(f: Field<T>, l: seq<T>, r: seq<T>, row: seq<T>)
    ensures forall k {:trigger Merge(f, l, r, row)[k]} :: 0 <= k < |l| + |r| ==>
              Merge(f, l, r, row)[k] == Butterfly(f, l, r, row, k)
  {
    forall k | 0 <= k < |l| + |r|
      ensures Merge(f, l, r, row)[k] == Butterfly(f, l, r, row, k)
    {
      MergePrefixAt(f, l, r, row, |l| + |r|, k);
    }
  }

  ghost predicate IsPowersRow<T(!new)>(f: Field<T>, row: seq<T>, w: T, n: nat) {
    n <= |row| && forall j :: 0 <= j < n ==> row[j] == f.Pow(w, j)
  }

  lemma SquareOfPower<T(!new)>(f: Field<T>, w: T, k: nat)
    requires IsField(f)
    ensures f.Mul(f.Pow(w, k), f.Pow(w, k)) == f.Pow(f.Square(w), k)
  {
    PowOfProduct(f, w, w, k);
  }

  lemma TransformLow<T(!new)>(f: Field<T>, c: seq<T>, w: T, k: nat)
    requires IsField(f) && |c| % 2 == 0
    ensures Eval(f, c, f.Pow(w, k))
         == f.Add(Eval(f, Evens(c), f.Pow(f.Square(w), k)), f.Mul(f.Pow(w, k), Eval(f, Odds(c), f.Pow(f.Square(w), k))))
  {
    EvalSplit(f, c, f.Pow(w, k));
    SquareOfPower(f, w, k);
  }

  lemma HalfTurn<T(!new)>(f: Field<T>, w: T, lg: nat, k: nat)
    requires IsField(f) && lg > 0 && HasOrder2(f, w, lg)
    ensures f.Pow(w, Pow2(lg - 1) + k) == f.Neg(f.Pow(w, k))
    ensures f.Pow(f.Square(w), Pow2(lg - 1) + k) == f.Pow(f.Square(w), k)
  {
    HalfOrder(f, w, lg);
    PowAdd(f, w, Pow2(lg - 1), k);
    var p, q := f.Pow(w, k), f.Pow(f.Square(w), k);
    assert f.Mul(f.Neg(f.one), p) == f.Neg(p) by { Ring(f); RingNeg(f); }
    SquareHasHalfOrder(f, w, lg);
    PowAdd(f, f.Square(w), Pow2(lg - 1), k);
    assert Law(f, f.one, q, q) && Law(f, q, q, q);
  }

  lemma TransformHigh<T(!new)>(f: Field<T>, c: seq<T>, w: T, lg: nat, k: nat)
    requires IsField(f) && lg > 0 && HasOrder2(f, w, lg) && |c| % 2 == 0
    ensures Eval(f, c, f.Pow(w, Pow2(lg - 1) + k))
         == f.Sub(Eval(f, Evens(c), f.Pow(f.Square(w), k)), f.Mul(f.Pow(w, k), Eval(f, Odds(c), f.Pow(f.Square(w), k))))
  {
    TransformLow(f, c, w, Pow2(lg - 1) + k);
    HalfTurn(f, w, lg, k);
    var p, o := f.Pow(w, k), Eval(f, Odds(c), f.Pow(f.Square(w), k));
    assert f.Mul(f.Neg(p), o) == f.Neg(f.Mul(p, o)) by { Ring(f); RingNeg(f); }
  }

  lemma TransformLowAt<T(!new)>(f: Field<T>, c: seq<T>, w: T, k: nat)
    requires IsField(f) && |c| % 2 == 0 && k < |c| / 2
    ensures Transform(f, c, w)[k]
         == f.Add(Transform(f, Evens(c), f.Square(w))[k], f.Mul(f.Pow(w, k), Transform(f, Odds(c), f.Square(w))[k]))
  {
    TransformLow(f, c, w, k);
    ThreeValues(f, c, w, k, k);
  }

  lemma TransformHighAt<T(!new)>(f: Field<T>, c: seq<T>, w: T, lg: nat, k: nat, i: nat)
    requires IsField(f) && lg > 0 && HasOrder2(f, w, lg) && |c| == Pow2(lg) && k < |c| / 2
    requires i == Pow2(lg - 1) + k
    ensures i < |c| && Transform(f, c, w)[i]
         == f.Sub(Transform(f, Evens(c), f.Square(w))[k], f.Mul(f.Pow(w, k), Transform(f, Odds(c), f.Square(w))[k]))
  {
    ThreeValues(f, c, w, i, k);
    assert Eval(f, c, f.Pow(w, i))
        == f.Sub(Eval(f, Evens(c), f.Pow(f.Square(w), k)), f.Mul(f.Pow(w, k), Eval(f, Odds(c), f.Pow(f.Square(w), k))))
      by { TransformHigh(f, c, w, lg, k); }
  }

  lemma ThreeValues<T>(f: Field<T>, c: seq<T>, w: T, i: nat, k: nat)
    requires i < |c| && k < |c| / 2
    ensures Transform(f, c, w)[i] == Eval(f, c, f.Pow(w, i))
    ensures Transform(f, Evens(c), f.Square(w))[k] == Eval(f, Evens(c), f.Pow(f.Square(w), k))
    ensures Transform(f, Odds(c), f.Square(w))[k] == Eval(f, Odds(c), f.Pow(f.Square(w), k))
  {
    TransformAt(f, c, w, i);
    TransformAt(f, Evens(c), f.Square(w), k);
    TransformAt(f, Odds(c), f.Square(w), k);
  }

  /** The transform of 2m coefficients from the transforms of their even and odd halves. */
  lemma TransformMerge<T(!new)>(f: Field<T>, c: seq<T>, w: T, lg: nat, row: seq<T>, l: seq<T>, r: seq<T>)
    requires IsField(f) && lg > 0 && HasOrder2(f, w, lg) && |c| == Pow2(lg)
    requires IsPowersRow(f, row, w, Pow2(lg - 1))
    requires l == Transform(f, Evens(c), f.Square(w)) && r == Transform(f, Odds(c), f.Square(w))
    ensures Transform(f, c, w) == Merge(f, l, r, row)
  {
    var m, t, v := Pow2(lg - 1), Transform(f, c, w), Merge(f, l, r, row);
    MergeValues(f, l, r, row);
    forall k: nat | k < 2 * m
      ensures t[k] == v[k]
    {
      if k < m {
        TransformLowAt(f, c, w, k);
      } else {
        TransformHighAt(f, c, w, lg, k - m, k);
      }
    }
  }

  // ----- The inverse transform -----

  lemma {:induction false} EvalConcat<T(!new)>(f: Field<T>, a: seq<T>, b: seq<T>, x: T)
    requires IsField(f)
    ensures Eval(f, a + b, x) == f.Add(Eval(f, a, x), f.Mul(f.Pow(x, |a|), Eval(f, b, x)))
  {
    if a == [] {
      assert a + b == b;
      Ring(f);
    } else {
      assert (a + b)[1..] == a[1..] + b;
      EvalConcat(f, a[1..], b, x);
      Horner(f, a[0], x, Eval(f, a[1..], x), f.Pow(x, |a| - 1), Eval(f, b, x));
    }
  }

  lemma Horner<T(!new)>(f: Field<T>, a: T, x: T, s: T, p: T, t: T)
    requires IsField(f)
    ensures f.Add(a, f.Mul(x, f.Add(s, f.Mul(p, t)))) == f.Add(f.Add(a, f.Mul(x, s)), f.Mul(f.Mul(x, p), t))
  {
    Ring(f);
  }

  lemma {:induction false} EvalSum<T(!new)>(f: Field<T>, a: seq<T>, b: seq<T>, c: seq<T>, x: T)
    requires IsField(f) && |a| == |b| == |c| && forall i :: 0 <= i < |c| ==> c[i] == f.Add(a[i], b[i])
    ensures Eval(f, c, x) == f.Add(Eval(f, a, x), Eval(f, b, x))
  {
    Ring(f);
    if c != [] {
      EvalSum(f, a[1..], b[1..], c[1..], x);
      var s, t := Eval(f, a[1..], x), Eval(f, b[1..], x);
      assert f.Mul(x, f.Add(s, t)) == f.Add(f.Mul(x, s), f.Mul(x, t));
    }
  }

  lemma {:induction false} EvalScale<T(!new)>(f: Field<T>, k: T, a: seq<T>, c: seq<T>, x: T)
    requires IsField(f) && |a| == |c| && forall i :: 0 <= i < |c| ==> c[i] == f.Mul(k, a[i])
    ensures Eval(f, c, x) == f.Mul(k, Eval(f, a, x))
  {
    Ring(f);
    if c != [] {
      EvalScale(f, k, a[1..], c[1..], x);
    }
  }

  /** coefficients weighted by powers of w evaluate like the plain ones at w times the point */
  lemma {:induction false} EvalTwist<T(!new)>(f: Field<T>, w: T, k: nat, a: seq<T>, c: seq<T>, x: T)
    requires IsField(f) && |a| == |c| && forall i :: 0 <= i < |c| ==> c[i] == f.Mul(f.Pow(w, k + i), a[i])
    ensures Eval(f, c, x) == f.Mul(f.Pow(w, k), Eval(f, a, f.Mul(w, x)))
    decreases |c|
  {
    if c == [] {
      MulZero(f, f.Pow(w, k));
    } else {
      forall i | 0 <= i < |c[1..]|
        ensures c[1..][i] == f.Mul(f.Pow(w, (k + 1) + i), a[1..][i])
      {
        assert c[1 + i] == f.Mul(f.Pow(w, k + (1 + i)), a[1 + i]);
      }
      EvalTwist(f, w, k + 1, a[1..], c[1..], x);
      TwistStep(f, f.Pow(w, k), a[0], x, w, Eval(f, a[1..], f.Mul(w, x)));
    }
  }

  lemma TwistStep<T(!new)>(f: Field<T>, p: T, a: T, x: T, w: T, s: T)
    requires IsField(f)
    ensures f.Add(f.Mul(p, a), f.Mul(x, f.Mul(f.Mul(w, p), s))) == f.Mul(p, f.Add(a, f.Mul(f.Mul(w, x), s)))
  {
    Ring(f);
  }

  /** the inverse of a root of unity has the same order */
  lemma InverseRoot<T(!new)>(f: Field<T>, w: T, v: T, lg: nat)
    requires IsField(f) && HasOrder2(f, w, lg) && f.Mul(w, v) == f.one
    ensures HasOrder2(f, v, lg)
  {
    PowersCancel(f, w, v, Pow2(lg));
    assert Law(f, f.Pow(v, Pow2(lg)), f.one, f.one) && Law(f, f.one, f.Pow(v, Pow2(lg)), f.one);
    if lg > 0 {
      PowersCancel(f, w, v, Pow2(lg - 1));
      assert Law(f, f.Pow(w, Pow2(lg - 1)), f.one, f.one);
    }
  }

  lemma PowersCancel<T(!new)>(f: Field<T>, w: T, v: T, n: nat)
    requires IsField(f) && f.Mul(w, v) == f.one
    ensures f.Mul(f.Pow(w, n), f.Pow(v, n)) == f.one
  {
    PowOfProduct(f, w, v, n);
    PowOne(f, n);
  }

  lemma TwoMorePower<T(!new)>(f: Field<T>, lg: nat, a: T)
    requires IsField(f) && lg > 0
    ensures f.Mul(f.Two(), f.Mul(f.Pow(f.Two(), lg - 1), a)) == f.Mul(f.Pow(f.Two(), lg), a)
  {
    assert Law(f, f.Two(), f.Pow(f.Two(), lg - 1), a);
  }

  lemma SquaresCancel<T(!new)>(f: Field<T>, w: T, v: T)
    requires IsField(f) && f.Mul(w, v) == f.one
    ensures f.Mul(f.Square(w), f.Square(v)) == f.one
  {
    PowersCancel(f, w, v, 2);
    PowSmall(f, w);
    PowSmall(f, v);
  }

  lemma SingleValue<T(!new)>(f: Field<T>, c: seq<T>, w: T, x: T)
    requires IsField(f) && |c| == 1
    ensures Eval(f, Transform(f, c, w), x) == f.Mul(f.Pow(f.Two(), 0), c[0])
  {
    TransformAt(f, c, w, 0);
    EvalSingle(f, c, f.Pow(w, 0));
    EvalSingle(f, Transform(f, c, w), x);
    assert Law(f, c[0], f.one, f.one);
  }

  lemma EvalSingle<T(!new)>(f: Field<T>, c: seq<T>, x: T)
    requires IsField(f) && |c| == 1
    ensures Eval(f, c, x) == c[0]
  {
    assert Eval(f, c[1..], x) == f.zero;
    MulZero(f, x);
    assert Law(f, c[0], f.zero, f.zero);
  }

  /** the m-th power of v^i is one for even and minus one for odd i */
  lemma HalfPower<T(!new)>(f: Field<T>, v: T, lg: nat, i: nat)
    requires IsField(f) && lg > 0 && HasOrder2(f, v, lg)
    ensures f.Pow(f.Pow(v, i), Pow2(lg - 1)) == if i % 2 == 0 then f.one else f.Neg(f.one)
  {
    var m := Pow2(lg - 1);
    PowMul(f, v, i, m);
    PowMul(f, v, m, i);
    assert i * m == m * i;
    HalfOrder(f, v, lg);
    MinusOnePower(f, i);
  }

  lemma {:induction false} MinusOnePower<T(!new)>(f: Field<T>, i: nat)
    requires IsField(f)
    ensures f.Pow(f.Neg(f.one), i) == if i % 2 == 0 then f.one else f.Neg(f.one)
  {
    if i > 0 {
      MinusOnePower(f, i - 1);
      MulNeg(f, f.Neg(f.one), f.one);
      RingNeg(f);
      assert Law(f, f.Neg(f.one), f.one, f.one) && Law(f, f.one, f.one, f.one);
    }
  }

  /** (l + t) + (l - t) = 2 l */
  lemma TwiceSum<T(!new)>(f: Field<T>, l: T, t: T)
    requires IsField(f)
    ensures f.Add(f.Add(l, t), f.Sub(l, t)) == f.Mul(f.Two(), l)
  {
    Ring(f);
    assert f.Add(f.Add(l, t), f.Add(f.Neg(t), l)) == f.Add(l, l) by { InnerCancel(f, l, t, l); }
  }

  /** (l + t) + -(l - t) = 2 t */
  lemma TwiceDifference<T(!new)>(f: Field<T>, l: T, t: T)
    requires IsField(f)
    ensures f.Add(f.Add(l, t), f.Neg(f.Sub(l, t))) == f.Mul(f.Two(), t)
  {
    assert f.Neg(f.Sub(l, t)) == f.Add(f.Neg(l), t) by { RingNeg(f); }
    InnerCancel(f, t, l, t);
    Ring(f);
  }

  lemma MinusOneTimes<T(!new)>(f: Field<T>, b: T)
    requires IsField(f)
    ensures f.Mul(f.Neg(f.one), b) == f.Neg(b)
  {
    MulNeg(f, b, f.one);
    assert Law(f, b, f.Neg(f.one), f.one) && Law(f, b, f.one, f.one);
  }

  /** `a` and `b` are the sums and differences of `l` and `t` */
  ghost predicate SumsAndDifferences<T>(f: Field<T>, a: seq<T>, b: seq<T>, l: seq<T>, t: seq<T>) {
    && |a| == |b| == |l| == |t|
    && (forall k {:trigger a[k]} :: 0 <= k < |a| ==> a[k] == f.Add(l[k], t[k]))
    && (forall k {:trigger b[k]} :: 0 <= k < |b| ==> b[k] == f.Sub(l[k], t[k]))
  }

  lemma {:induction false} EvalOfSums<T(!new)>(f: Field<T>, a: seq<T>, b: seq<T>, l: seq<T>, t: seq<T>, x: T)
    requires IsField(f) && SumsAndDifferences(f, a, b, l, t)
    ensures f.Add(Eval(f, a, x), Eval(f, b, x)) == f.Mul(f.Two(), Eval(f, l, x))
  {
    if a == [] {
      assert Law(f, f.zero, f.zero, f.zero);
      MulZero(f, f.Two());
    } else {
      EvalOfSums(f, a[1..], b[1..], l[1..], t[1..], x);
      TwiceSum(f, l[0], t[0]);
      AddPolynomials(f, a[0], Eval(f, a[1..], x), b[0], Eval(f, b[1..], x), f.Two(), l[0], Eval(f, l[1..], x), x);
    }
  }

  lemma {:induction false} EvalOfDifferences<T(!new)>(f: Field<T>, a: seq<T>, b: seq<T>, l: seq<T>, t: seq<T>, x: T)
    requires IsField(f) && SumsAndDifferences(f, a, b, l, t)
    ensures f.Add(Eval(f, a, x), f.Neg(Eval(f, b, x))) == f.Mul(f.Two(), Eval(f, t, x))
  {
    RingNeg(f);
    if a == [] {
      assert Law(f, f.zero, f.zero, f.zero);
      MulZero(f, f.Two());
    } else {
      EvalOfDifferences(f, a[1..], b[1..], l[1..], t[1..], x);
      TwiceDifference(f, l[0], t[0]);
      AddPolynomials(f, a[0], Eval(f, a[1..], x), f.Neg(b[0]), f.Neg(Eval(f, b[1..], x)), f.Two(), t[0],
        Eval(f, t[1..], x), x);
    }
  }

  lemma AddPolynomials<T(!new)>(f: Field<T>, a: T, s: T, b: T, t: T, k: T, c: T, u: T, x: T)
    requires IsField(f) && f.Add(a, b) == f.Mul(k, c) && f.Add(s, t) == f.Mul(k, u)
    ensures f.Add(f.Add(a, f.Mul(x, s)), f.Add(b, f.Mul(x, t))) == f.Mul(k, f.Add(c, f.Mul(x, u)))
  {
    Ring(f);
    assert f.Add(f.Add(a, f.Mul(x, s)), f.Add(b, f.Mul(x, t))) == f.Add(f.Add(a, b), f.Mul(x, f.Add(s, t)));
  }

  /** the halves of a transform are the sums and differences of the transform of the even part and
      the weighted transform of the odd part */
  lemma TransformHalves<T(!new)>(f: Field<T>, c: seq<T>, w: T, lg: nat, a: seq<T>, b: seq<T>, t: seq<T>)
    requires IsField(f) && lg > 0 && HasOrder2(f, w, lg) && |c| == Pow2(lg)
    requires |a| == |b| == |t| == Pow2(lg - 1) && Transform(f, c, w) == a + b
    requires forall k {:trigger t[k]} :: 0 <= k < |t| ==>
               t[k] == f.Mul(f.Pow(w, k), Transform(f, Odds(c), f.Square(w))[k])
    ensures SumsAndDifferences(f, a, b, Transform(f, Evens(c), f.Square(w)), t)
  {
    var m, l, r := Pow2(lg - 1), Transform(f, Evens(c), f.Square(w)), Transform(f, Odds(c), f.Square(w));
    forall k: nat | k < m
      ensures a[k] == f.Add(l[k], t[k])
    {
      TransformLowAt(f, c, w, k);
    }
    forall k: nat | k < m
      ensures b[k] == f.Sub(l[k], t[k])
    {
      TransformHighAt(f, c, w, lg, k, m + k);
    }
  }

  lemma Points<T(!new)>(f: Field<T>, w: T, v: T, i: nat)
    requires IsField(f) && f.Mul(w, v) == f.one
    ensures i % 2 == 0 ==> f.Pow(v, i) == f.Pow(f.Square(v), i / 2)
    ensures i % 2 == 1 ==> f.Mul(w, f.Pow(v, i)) == f.Pow(f.Square(v), i / 2)
  {
    var e := i / 2;
    PowSmall(f, v);
    PowMul(f, v, 2, e);
    if i % 2 == 1 {
      var p := f.Pow(v, 2 * e);
      assert f.Pow(v, i) == f.Mul(v, p);
      assert Law(f, w, v, p) && Law(f, p, f.one, p) && Law(f, f.one, p, p);
    }
  }

  /** r[k] weighted with w^k */
  function Twisted<T>(f: Field<T>, w: T, r: seq<T>, n: nat): (t: seq<T>)
    requires n <= |r|
    ensures |t| == n
  {
    if n == 0 then [] else Twisted(f, w, r, n - 1) + [f.Mul(f.Pow(w, n - 1), r[n - 1])]
  }

  lemma {:induction false} TwistedAt<T>(f: Field<T>, w: T, r: seq<T>, n: nat)
    requires n <= |r|
    ensures forall k {:trigger Twisted(f, w, r, n)[k]} :: 0 <= k < n ==>
              Twisted(f, w, r, n)[k] == f.Mul(f.Pow(w, k), r[k])
  {
    if n > 0 {
      TwistedAt(f, w, r, n - 1);
    }
  }

  /** the odd coefficients: the transform of the odd part, weighted, evaluates like the plain one at w x */
  lemma WeightedEval<T(!new)>(f: Field<T>, w: T, r: seq<T>, x: T)
    requires IsField(f)
    ensures Eval(f, Twisted(f, w, r, |r|), x) == Eval(f, r, f.Mul(w, x))
  {
    TwistedAt(f, w, r, |r|);
    EvalTwist(f, w, 0, r, Twisted(f, w, r, |r|), x);
    var s := Eval(f, r, f.Mul(w, x));
    assert Law(f, s, f.one, s) && Law(f, f.one, s, s);
  }

  /** the two halves of the transform of `c` at v^i */
  lemma TransformAtInverse<T(!new)>(f: Field<T>, w: T, v: T, lg: nat, i: nat, a: seq<T>, b: seq<T>)
    requires IsField(f) && lg > 0 && HasOrder2(f, w, lg) && f.Mul(w, v) == f.one && |a| == Pow2(lg - 1)
    ensures var (x, s) := (f.Pow(v, i), Eval(f, b, f.Pow(v, i)));
            Eval(f, a + b, x) == f.Add(Eval(f, a, x), if i % 2 == 0 then s else f.Neg(s))
  {
    var x := f.Pow(v, i);
    EvalConcat(f, a, b, x);
    InverseRoot(f, w, v, lg);
    HalfPower(f, v, lg, i);
    var s := Eval(f, b, x);
    assert Law(f, s, f.one, s) && Law(f, f.one, s, s);
    MinusOneTimes(f, s);
  }

  /** `h` is the even or the odd part of `c`, whichever holds coefficient i */
  lemma Coefficient<T(!new)>(f: Field<T>, c: seq<T>, w: T, v: T, lg: nat, i: nat, h: seq<T>)
    requires IsField(f) && lg > 0 && HasOrder2(f, w, lg) && f.Mul(w, v) == f.one && |c| == Pow2(lg)
    requires h == Part(c, i % 2)
    ensures Eval(f, Transform(f, c, w), f.Pow(v, i))
         == f.Mul(f.Two(), Eval(f, Transform(f, h, f.Square(w)), f.Pow(f.Square(v), i / 2)))
  {
    var m, x, y := Pow2(lg - 1), f.Pow(v, i), Transform(f, c, w);
    var a, b, r := y[..m], y[m..], Transform(f, Odds(c), f.Square(w));
    var t := Twisted(f, w, r, m);
    assert y == a + b;
    TransformAtInverse(f, w, v, lg, i, a, b);
    TwistedAt(f, w, r, m);
    TransformHalves(f, c, w, lg, a, b, t);
    Points(f, w, v, i);
    if i % 2 == 0 {
      EvalOfSums(f, a, b, Transform(f, Evens(c), f.Square(w)), t, x);
    } else {
      EvalOfDifferences(f, a, b, Transform(f, Evens(c), f.Square(w)), t, x);
      WeightedEval(f, w, r, x);
    }
  }

  lemma PartOfParity<T>(c: seq<T>, i: nat)
    requires |c| % 2 == 0 && i < |c|
    ensures i / 2 < |Part(c, i % 2)| && Part(c, i % 2)[i / 2] == c[i]
  {
    PartAt(c, i % 2, i / 2);
    assert 2 * (i / 2) + i % 2 == i;
  }

  lemma InverseStep<T(!new)>(f: Field<T>, c: seq<T>, w: T, v: T, lg: nat, i: nat, h: seq<T>, a: T)
    requires IsField(f) && lg > 0 && HasOrder2(f, w, lg) && f.Mul(w, v) == f.one && |c| == Pow2(lg)
    requires h == Part(c, i % 2)
    requires Eval(f, Transform(f, h, f.Square(w)), f.Pow(f.Square(v), i / 2)) == f.Mul(f.Pow(f.Two(), lg - 1), a)
    ensures Eval(f, Transform(f, c, w), f.Pow(v, i)) == f.Mul(f.Pow(f.Two(), lg), a)
  {
    Coefficient(f, c, w, v, lg, i, h);
    TwoMorePower(f, lg, a);
  }

  /** the value of a transform at v^i, v being the inverse of w, is n times coefficient i */
  lemma {:induction false} InverseTransform<T(!new)>(f: Field<T>, c: seq<T>, w: T, v: T, lg: nat, i: nat)
    requires IsField(f) && HasOrder2(f, w, lg) && f.Mul(w, v) == f.one
    requires |c| == Pow2(lg) && i < |c|
    ensures Eval(f, Transform(f, c, w), f.Pow(v, i)) == f.Mul(f.Pow(f.Two(), lg), c[i])
    decreases lg
  {
    if lg == 0 {
      SingleValue(f, c, w, f.Pow(v, i));
    } else {
      var h := Part(c, i % 2);
      PartOfParity(c, i);
      SquareHasHalfOrder(f, w, lg);
      SquaresCancel(f, w, v);
      InverseTransform(f, h, f.Square(w), f.Square(v), lg - 1, i / 2);
      InverseStep(f, c, w, v, lg, i, h, c[i]);
    }
  }
}
