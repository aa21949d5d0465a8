/** Roots of polynomials over a field: why random challenges bind the values that are combined with them. */
module Polynomials {
  import opened Dft
  import opened Fields

  /** one more coefficient adds its term */
  lemma EvalAppend<T(!new)>(f: Field<T>, c: seq<T>, a: T, x: T)
    requires IsField(f)
    ensures Eval(f, c + [a], x) == f.Add(Eval(f, c, x), f.Mul(a, f.Pow(x, |c|)))
  {
    EvalConcat(f, c, [a], x);
    EvalSingle(f, [a], x);
    assert Law(f, a, f.Pow(x, |c|), a);
  }

  /** the coefficients of the quotient by X - r, from Horner's rule */
  ghost function Quotient<T>(f: Field<T>, c: seq<T>, r: T): (q: seq<T>)
    requires c != []
    ensures |q| == |c| - 1 && forall i :: 0 <= i < |q| ==> q[i] == Eval(f, c[i + 1..], r)
  {
    seq(|c| - 1, i requires 0 <= i < |c| - 1 => Eval(f, c[i + 1..], r))
  }

  lemma QuotientTail<T>(f: Field<T>, c: seq<T>, r: T)
    requires |c| > 1
    ensures Quotient(f, c, r) == [Eval(f, c[1..], r)] + Quotient(f, c[1..], r)
  {
    var q, e := Quotient(f, c, r), Eval(f, c[1..], r);
    forall i | 0 <= i < |q|
      ensures q[i] == ([e] + Quotient(f, c[1..], r))[i]
    {
      assert i > 0 ==> c[1..][i..] == c[i + 1..];
    }
  }

  /** c(x) = (x - r) q(x) + c(r) */
  lemma {:induction false} DivideByRoot<T(!new)>(f: Field<T>, c: seq<T>, r: T, x: T)
    requires IsField(f) && c != []
    ensures Eval(f, c, x) == f.Add(f.Mul(f.Sub(x, r), Eval(f, Quotient(f, c, r), x)), Eval(f, c, r))
    decreases |c|
  {
    if |c| == 1 {
      assert c[1..] == [];
      MulZero(f, x);
      MulZero(f, r);
      MulZero(f, f.Sub(x, r));
      assert Law(f, f.zero, f.Add(c[0], f.zero), f.zero) && Law(f, c[0], f.zero, f.zero);
      assert Law(f, f.Add(c[0], f.zero), f.zero, f.zero);
    } else {
      var q, q', e := Quotient(f, c, r), Quotient(f, c[1..], r), Eval(f, c[1..], r);
      QuotientTail(f, c, r);
      assert q[0] == e && q[1..] == q';
      DivideByRoot(f, c[1..], r, x);
      DivisionStep(f, c[0], x, r, Eval(f, q', x), e);
    }
  }

  /** a + x ((x - r) q + e) = (x - r) (e + x q) + (a + r e) */
  lemma DivisionStep<T(!new)>(f: Field<T>, a: T, x: T, r: T, q: T, e: T)
    requires IsField(f)
    ensures f.Add(a, f.Mul(x, f.Add(f.Mul(f.Sub(x, r), q), e)))
         == f.Add(f.Mul(f.Sub(x, r), f.Add(e, f.Mul(x, q))), f.Add(a, f.Mul(r, e)))
  {
    var d, xq := f.Sub(x, r), f.Mul(x, q);
    assert x == f.Add(d, r) by {
      assert Law(f, x, f.Neg(r), r) && Law(f, r, f.Neg(r), r) && Law(f, f.Neg(r), r, r) && Law(f, x, x, x);
    }
    assert f.Mul(x, e) == f.Add(f.Mul(d, e), f.Mul(r, e)) by {
      assert Law(f, e, d, r) && Law(f, f.Add(d, r), e, e) && Law(f, d, e, e) && Law(f, r, e, e);
    }
    assert f.Mul(x, f.Mul(d, q)) == f.Mul(d, xq) by {
      Ring(f);
    }
    assert f.Mul(x, f.Add(f.Mul(d, q), e)) == f.Add(f.Mul(x, f.Mul(d, q)), f.Mul(x, e)) by {
      assert Law(f, x, f.Mul(d, q), e);
    }
    assert f.Mul(d, f.Add(e, xq)) == f.Add(f.Mul(d, e), f.Mul(d, xq)) by {
      assert Law(f, d, e, xq);
    }
    SortSum(f, a, f.Mul(d, xq), f.Mul(d, e), f.Mul(r, e));
  }

  /** a + (u + (v + w)) = (v + u) + (a + w) */
  lemma SortSum<T(!new)>(f: Field<T>, a: T, u: T, v: T, w: T)
    requires IsField(f)
    ensures f.Add(a, f.Add(u, f.Add(v, w))) == f.Add(f.Add(v, u), f.Add(a, w))
  {
    Ring(f);
  }

  ghost predicate AllRoots<T>(f: Field<T>, c: seq<T>, roots: seq<T>) {
    forall k :: 0 <= k < |roots| ==> Eval(f, c, roots[k]) == f.zero
  }

  ghost predicate Different<T>(roots: seq<T>) { forall i, j :: 0 <= i < j < |roots| ==> roots[i] != roots[j] }

  ghost predicate IsZero<T>(f: Field<T>, c: seq<T>) { forall k :: 0 <= k < |c| ==> c[k] == f.zero }

  /** a polynomial whose quotient and value at r are zero is zero */
  lemma ZeroQuotient<T(!new)>(f: Field<T>, c: seq<T>, r: T)
    requires IsField(f) && c != [] && IsZero(f, Quotient(f, c, r)) && Eval(f, c, r) == f.zero
    ensures IsZero(f, c)
  {
    MulZero(f, r);
    forall k | 0 <= k < |c|
      ensures c[k] == f.zero
    {
      assert Eval(f, c[k..], r) == f.zero by {
        if k > 0 {
          assert Quotient(f, c, r)[k - 1] == f.zero;
        } else {
          assert c[0..] == c;
        }
      }
      assert Eval(f, c[k + 1..], r) == f.zero by {
        if k + 1 < |c| {
          assert Quotient(f, c, r)[k] == f.zero;
        }
      }
      assert c[k..][1..] == c[k + 1..];
      assert Law(f, c[k], f.zero, f.zero);
    }
  }

  /** as many different roots as coefficients leave only the zero polynomial */
  lemma {:induction false} TooManyRoots<T(!new)>(f: Field<T>, c: seq<T>, roots: seq<T>)
    requires IsField(f) && Different(roots) && AllRoots(f, c, roots) && |roots| >= |c|
    ensures IsZero(f, c)
    decreases |c|
  {
    if c != [] {
      var r := roots[0];
      var q := Quotient(f, c, r);
      forall k | 0 <= k < |roots[1..]|
        ensures Eval(f, q, roots[1..][k]) == f.zero
      {
        RootOfQuotient(f, c, r, roots[1 + k]);
      }
      TooManyRoots(f, q, roots[1..]);
      ZeroQuotient(f, c, r);
    }
  }

  lemma RootOfQuotient<T(!new)>(f: Field<T>, c: seq<T>, r: T, x: T)
    requires IsField(f) && c != [] && x != r && Eval(f, c, r) == f.zero && Eval(f, c, x) == f.zero
    ensures Eval(f, Quotient(f, c, r), x) == f.zero
  {
    DivideByRoot(f, c, r, x);
    var q := Eval(f, Quotient(f, c, r), x);
    SubZero(f, x, r);
    NoZeroDivisors(f, f.Sub(x, r), q);
    assert Law(f, f.Mul(f.Sub(x, r), q), f.zero, f.zero);
  }

  /** a polynomial with a nonzero coefficient has fewer roots than coefficients */
  lemma FewRoots<T(!new)>(f: Field<T>, c: seq<T>, roots: seq<T>)
    requires IsField(f) && Different(roots) && AllRoots(f, c, roots) && !IsZero(f, c)
    ensures |roots| < |c|
  {
    if |roots| >= |c| {
      TooManyRoots(f, c, roots);
    }
  }

  ghost function Differences<T>(f: Field<T>, a: seq<T>, b: seq<T>): (c: seq<T>)
    requires |a| == |b|
    ensures |c| == |a| && forall k :: 0 <= k < |c| ==> c[k] == f.Sub(a[k], b[k])
  {
    seq(|a|, k requires 0 <= k < |a| => f.Sub(a[k], b[k]))
  }

  lemma {:induction false} EvalDifferences<T(!new)>(f: Field<T>, a: seq<T>, b: seq<T>, x: T)
    requires IsField(f) && |a| == |b|
    ensures f.Add(Eval(f, Differences(f, a, b), x), Eval(f, b, x)) == Eval(f, a, x)
    decreases |a|
  {
    var c := Differences(f, a, b);
    if a == [] {
      assert Law(f, f.zero, f.zero, f.zero);
    } else {
      assert c[1..] == Differences(f, a[1..], b[1..]);
      EvalDifferences(f, a[1..], b[1..], x);
      SumStepwise(f, c[0], Eval(f, c[1..], x), b[0], Eval(f, b[1..], x), x);
      assert f.Add(c[0], b[0]) == a[0] by {
        assert Law(f, a[0], f.Neg(b[0]), b[0]) && Law(f, b[0], f.Neg(b[0]), b[0]);
        assert Law(f, f.Neg(b[0]), b[0], b[0]) && Law(f, a[0], a[0], a[0]);
      }
    }
  }

  /** (c + x s) + (b + x t) = (c + b) + x (s + t) */
  lemma SumStepwise<T(!new)>(f: Field<T>, c: T, s: T, b: T, t: T, x: T)
    requires IsField(f)
    ensures f.Add(f.Add(c, f.Mul(x, s)), f.Add(b, f.Mul(x, t))) == f.Add(f.Add(c, b), f.Mul(x, f.Add(s, t)))
  {
    Ring(f);
  }

  /** two different lists of n coefficients have equal values at fewer than n points */
  lemma EqualValues<T(!new)>(f: Field<T>, a: seq<T>, b: seq<T>, points: seq<T>)
    requires IsField(f) && |a| == |b| && a != b && Different(points)
    requires forall k :: 0 <= k < |points| ==> Eval(f, a, points[k]) == Eval(f, b, points[k])
    ensures |points| < |a|
  {
    var c := Differences(f, a, b);
    forall k | 0 <= k < |points|
      ensures Eval(f, c, points[k]) == f.zero
    {
      var x := points[k];
      EvalDifferences(f, a, b, x);
      OnlyZeroAdds(f, Eval(f, c, x), Eval(f, b, x));
    }
    var k :| 0 <= k < |a| && a[k] != b[k];
    SubZero(f, a[k], b[k]);
    assert c[k] != f.zero;
    FewRoots(f, c, points);
  }

  lemma OnlyZeroAdds<T(!new)>(f: Field<T>, d: T, e: T)
    requires IsField(f) && f.Add(d, e) == e
    ensures d == f.zero
  {
    assert Law(f, d, e, f.Neg(e)) && Law(f, e, e, e) && Law(f, d, d, d) && Law(f, d, f.zero, f.zero);
  }
}
