/** The constraint consumer of a STARK: constraints are emitted one after the other and folded into one
    accumulator for each challenge alpha. */
module ConstraintConsumers {
  import opened Fields
  import opened Polynomials
  import opened Reversal

  /** the accumulator after a list of constraints */
  function Folded<T>(f: Field<T>, emitted: seq<T>, alpha: T): T {
    if emitted == [] then f.zero
    else f.Add(f.Mul(Folded(f, emitted[..|emitted| - 1], alpha), alpha), emitted[|emitted| - 1])
  }

  /** it is the polynomial in alpha whose coefficients are the constraints, the last one lowest */
  lemma {:induction false} FoldedIsPolynomial<T(!new)>(f: Field<T>, emitted: seq<T>, alpha: T)
    requires IsField(f)
    ensures Folded(f, emitted, alpha) == Eval(f, Reversed(emitted), alpha)
  {
    if emitted != [] {
      var init, last := emitted[..|emitted| - 1], emitted[|emitted| - 1];
      FoldedIsPolynomial(f, init, alpha);
      assert emitted == init + [last];
      ReversedAppend(init, last);
      assert Reversed(emitted)[1..] == Reversed(init);
      var e := Folded(f, init, alpha);
      assert Law(f, e, alpha, alpha) && Law(f, last, f.Mul(alpha, e), e);
    }
  }

  ghost predicate AllZero<T>(f: Field<T>, s: seq<T>) { forall k :: 0 <= k < |s| ==> s[k] == f.zero }

  /** constraints that all vanish leave the accumulators at zero, for every alpha */
  lemma {:induction false} FoldedZero<T(!new)>(f: Field<T>, emitted: seq<T>, alpha: T)
    requires IsField(f) && AllZero(f, emitted)
    ensures Folded(f, emitted, alpha) == f.zero
  {
    if emitted != [] {
      FoldedZero(f, emitted[..|emitted| - 1], alpha);
      Ring(f);
      assert f.Mul(alpha, f.zero) == f.zero;
    }
  }

  /** constraints that do not all vanish leave an accumulator at zero for fewer values of alpha than there are
      constraints */
  lemma FoldedBinds<T(!new)>(f: Field<T>, emitted: seq<T>, alphas: seq<T>)
    requires IsField(f) && !AllZero(f, emitted) && Different(alphas)
    requires forall k :: 0 <= k < |alphas| ==> Folded(f, emitted, alphas[k]) == f.zero
    ensures |alphas| < |emitted|
  {
    var c := Reversed(emitted);
    forall k | 0 <= k < |alphas|
      ensures Eval(f, c, alphas[k]) == f.zero
    {
      FoldedIsPolynomial(f, emitted, alphas[k]);
    }
    var k: nat :| k < |emitted| && emitted[k] != f.zero;
    ReversedAt(emitted, |emitted| - 1 - k);
    assert c[|emitted| - 1 - k] != f.zero;
    FewRoots(f, c, alphas);
  }

  lemma AllZeroConcat<T>(f: Field<T>, a: seq<T>, b: seq<T>)
    ensures AllZero(f, a + b) <==> AllZero(f, a) && AllZero(f, b)
  {
    if AllZero(f, a + b) {
      assert forall k :: 0 <= k < |a| ==> a[k] == (a + b)[k];
      assert forall k :: 0 <= k < |b| ==> b[k] == (a + b)[|a| + k];
    }
  }

  /** What the filters are at one point of the evaluation: `X - g^(n-1)`, and the Lagrange polynomials of
      the first and the last row. */
  datatype Filters<T> = Filters(zLast: T, first: T, last: T)

  /** the filters at row i of n */
  ghost predicate AtRow<T>(f: Field<T>, at: Filters<T>, i: nat, n: nat) {
    && i < n
    && (at.zLast == f.zero <==> i == n - 1)
    && (at.first != f.zero <==> i == 0)
    && (at.last != f.zero <==> i == n - 1)
  }

  class ConstraintConsumer<T(!new)> {
    const f: Field<T>
    const alphas: seq<T>
    const at: Filters<T>
    var accs: seq<T>
    ghost var emitted: seq<T>

    ghost predicate Valid()
      reads this
    {
      && IsField(f) && |accs| == |alphas|
      && forall k :: 0 <= k < |alphas| ==> accs[k] == Folded(f, emitted, alphas[k])
    }

    constructor (f: Field<T>, alphas: seq<T>, at: Filters<T>)
      requires IsField(f)
      ensures Valid() && this.f == f && this.alphas == alphas && this.at == at && emitted == []
    {
      this.f, this.alphas, this.at := f, alphas, at;
      accs, emitted := seq(|alphas|, _ => f.zero), [];
    }

    method Constraint(constraint: T)
      requires Valid()
      modifies this
      ensures Valid() && emitted == old(emitted) + [constraint]
    {
      emitted := emitted + [constraint];
      assert emitted[..|emitted| - 1] == old(emitted);
      for k := 0 to |alphas|
        invariant |accs| == |alphas|
        invariant forall j :: 0 <= j < k ==> accs[j] == Folded(f, emitted, alphas[j])
        invariant forall j :: k <= j < |alphas| ==> accs[j] == Folded(f, old(emitted), alphas[j])
        invariant emitted == old(emitted) + [constraint]
      {
        accs := accs[k := f.Mul(accs[k], alphas[k])];
        accs := accs[k := f.Add(accs[k], constraint)];
      }
    }

    method ConstraintTransition(constraint: T)
      requires Valid()
      modifies this
      ensures Valid() && emitted == old(emitted) + [f.Mul(constraint, at.zLast)]
    {
      Constraint(f.Mul(constraint, at.zLast));
    }

    method ConstraintFirstRow(constraint: T)
      requires Valid()
      modifies this
      ensures Valid() && emitted == old(emitted) + [f.Mul(constraint, at.first)]
    {
      Constraint(f.Mul(constraint, at.first));
    }

    method ConstraintLastRow(constraint: T)
      requires Valid()
      modifies this
      ensures Valid() && emitted == old(emitted) + [f.Mul(constraint, at.last)]
    {
      Constraint(f.Mul(constraint, at.last));
    }
  }

  /** on a row, a filtered constraint vanishes where its filter does and nowhere else by itself */
  lemma FilteredConstraint<T(!new)>(f: Field<T>, at: Filters<T>, i: nat, n: nat, constraint: T)
    requires IsField(f) && AtRow(f, at, i, n)
    ensures f.Mul(constraint, at.zLast) == f.zero <==> i == n - 1 || constraint == f.zero
    ensures f.Mul(constraint, at.first) == f.zero <==> i != 0 || constraint == f.zero
    ensures f.Mul(constraint, at.last) == f.zero <==> i != n - 1 || constraint == f.zero
  {
    NoZeroDivisors(f, constraint, at.zLast);
    NoZeroDivisors(f, constraint, at.first);
    NoZeroDivisors(f, constraint, at.last);
  }
}
