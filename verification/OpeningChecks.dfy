/** starky's evaluation of columns at a point of the quadratic extension: the check that binds the
    openings of a proof to the preprocessed columns. */
module OpeningChecks {
  import opened Arithmetic
  import opened Wrappers
  import opened Fields
  import opened FieldMethods
  import opened ReverseIndexBits
  import opened BatchInverse
  import opened QuadraticExtensions
  import opened Dft
  import opened FftInterface
  import opened Barycentric

  /** The polynomial with fewer than |y| coefficients that takes the values `y` on the subgroup. */
  ghost function Interpolant<T>(f: Field<T>, y: seq<T>, w: T, lg: nat): (c: seq<T>)
    ensures |c| == |y|
  {
    InverseDft(f, y, w, f.Inv(f.Pow(f.Two(), lg)))
  }

  lemma InverseOfSize<T(!new)>(P: Params<T>, lg: nat)
    requires Valid(P)
    ensures Inverts(P.f, P.f.Inv(P.f.Pow(P.f.Two(), lg)), lg)
  {
    TwoIsNonzero(P);
    PowNonzero(P.f, P.f.Two(), lg);
    InvLaw(P.f, P.f.Pow(P.f.Two(), lg));
  }

  /** the interpolant is the only polynomial of that length with those values */
  lemma InterpolantIsUnique<T(!new)>(P: Params<T>, y: seq<T>, w: T, lg: nat, c: seq<T>)
    requires Valid(P) && HasOrder2(P.f, w, lg) && |y| == |c| == Pow2(lg)
    ensures Transform(P.f, c, w) == y <==> c == Interpolant(P.f, y, w, lg)
  {
    InverseOfSize(P, lg);
    TransformAfterInverse(P.f, y, w, lg, P.f.Inv(P.f.Pow(P.f.Two(), lg)));
    InverseAfterTransform(P.f, c, w, lg, P.f.Inv(P.f.Pow(P.f.Two(), lg)));
  }

  /** the value at `z` of the polynomial that interpolates `y` on the subgroup of order 2^lg */
  ghost function ValueAt<T>(P: Params<T>, W: T, y: seq<T>, z: (T, T), lg: nat): (T, T) {
    Eval(Ext(P.f, W), EmbedAll(P.f, Interpolant(P.f, y, Root(P, lg), lg)), z)
  }

  // ----- The subgroup seen from the extension -----

  lemma EmbedOrder<T(!new)>(f: Field<T>, W: T, w: T, lg: nat)
    requires IsField(f) && HasOrder2(f, w, lg)
    ensures HasOrder2(Ext(f, W), Embed(f, w), lg)
  {
    EmbedPow(f, W, w, Pow2(lg));
    if lg > 0 {
      EmbedPow(f, W, w, Pow2(lg - 1));
    }
  }

  lemma EmbedTransform<T(!new)>(f: Field<T>, W: T, c: seq<T>, w: T)
    requires IsField(f)
    ensures Transform(Ext(f, W), EmbedAll(f, c), Embed(f, w)) == EmbedAll(f, Transform(f, c, w))
  {
    forall k: nat | k < |c|
      ensures Transform(Ext(f, W), EmbedAll(f, c), Embed(f, w))[k] == EmbedAll(f, Transform(f, c, w))[k]
    {
      TransformAt(Ext(f, W), EmbedAll(f, c), Embed(f, w), k);
      TransformAt(f, c, w, k);
      EmbedPow(f, W, w, k);
      EmbedEval(f, W, c, f.Pow(w, k));
    }
  }

  lemma EmbedSize<T(!new)>(f: Field<T>, W: T, n: T, lg: nat)
    requires IsField(f) && Inverts(f, n, lg)
    ensures Ext(f, W).Mul(Embed(f, n), Ext(f, W).Pow(Ext(f, W).Two(), lg)) == Ext(f, W).one
  {
    assert Law(f, f.zero, f.zero, f.zero);
    assert Ext(f, W).Two() == Embed(f, f.Two());
    EmbedPow(f, W, f.Two(), lg);
    EmbedHom(f, W, n, f.Pow(f.Two(), lg));
  }

  // ----- The sums over the rows, in the base field -----

  /** (a - x)^2 - W b^2, the norm of z - x for z = (a, b) */
  ghost function RowNorm<T>(f: Field<T>, W: T, z: (T, T), x: T): T {
    f.Sub(f.Square(f.Sub(z.0, x)), f.Mul(W, f.Square(z.1)))
  }

  /** `invNorms` inverts the norms of z - w^i for the rows below n */
  ghost predicate InverseNorms<T>(f: Field<T>, W: T, z: (T, T), w: T, invNorms: seq<T>, n: nat) {
    && n <= |invNorms|
    && forall i {:trigger invNorms[i]} :: 0 <= i < n ==> f.Mul(invNorms[i], RowNorm(f, W, z, f.Pow(w, i))) == f.one
  }

  /** the contribution of row i of the column `y` to the first sum */
  ghost function RowTerm<T>(f: Field<T>, y: seq<T>, w: T, invNorms: seq<T>, i: nat): T
    requires i < |y| && i < |invNorms|
  {
    f.Mul(f.Mul(invNorms[i], f.Pow(w, i)), y[i])
  }

  /** the two sums of the column `y` over the rows lo <= i < hi */
  ghost function RowSums<T>(f: Field<T>, y: seq<T>, w: T, invNorms: seq<T>, lo: nat, hi: nat): (T, T)
    requires hi <= |y| && hi <= |invNorms|
    decreases hi
  {
    if hi <= lo then (f.zero, f.zero)
    else
      var (s1, s2) := RowSums(f, y, w, invNorms, lo, hi - 1);
      var q := RowTerm(f, y, w, invNorms, hi - 1);
      (f.Add(s1, q), f.Add(s2, f.Mul(q, f.Pow(w, hi - 1))))
  }

  lemma {:induction false} RowSumsSplit<T(!new)>(f: Field<T>, y: seq<T>, w: T, invNorms: seq<T>, lo: nat, mid: nat,
                                                 hi: nat)
    requires IsField(f) && lo <= mid <= hi <= |y| && hi <= |invNorms|
    ensures RowSums(f, y, w, invNorms, lo, hi) == ExtAdd(f, RowSums(f, y, w, invNorms, lo, mid),
            RowSums(f, y, w, invNorms, mid, hi))
    decreases hi
  {
    var s := RowSums(f, y, w, invNorms, lo, mid);
    if hi == mid {
      assert Law(f, s.0, s.0, s.0) && Law(f, s.1, s.1, s.1);
    } else {
      RowSumsSplit(f, y, w, invNorms, lo, mid, hi - 1);
      var r, q := RowSums(f, y, w, invNorms, mid, hi - 1), RowTerm(f, y, w, invNorms, hi - 1);
      assert Law(f, s.0, r.0, q) && Law(f, s.1, r.1, f.Mul(q, f.Pow(w, hi - 1)));
    }
  }

  /** (a s1 - s2, -b s1) */
  ghost function Assembled<T>(f: Field<T>, z: (T, T), s: (T, T)): (T, T) {
    (f.Sub(f.Mul(z.0, s.0), s.1), f.Mul(f.Neg(z.1), s.0))
  }

  lemma DifferenceFromBase<T(!new)>(f: Field<T>, W: T, z: (T, T), x: T)
    requires IsField(f)
    ensures Ext(f, W).Sub(z, Embed(f, x)) == (f.Sub(z.0, x), z.1)
  {
    RingNeg(f);
    assert Law(f, z.1, z.1, z.1);
  }

  /** one term of the barycentric sum, from the inverse of the norm */
  lemma TermValue<T(!new)>(f: Field<T>, W: T, z: (T, T), y: T, x: T, r: T, q: T)
    requires IsField(f) && f.Mul(r, RowNorm(f, W, z, x)) == f.one && q == f.Mul(f.Mul(r, x), y)
    ensures BaryTerm(Ext(f, W), Embed(f, y), Embed(f, x), z) == Assembled(f, z, (q, f.Mul(q, x)))
  {
    var d := f.Sub(z.0, x);
    DifferenceFromBase(f, W, z, x);
    var nm := RowNorm(f, W, z, x);
    assert Norm(f, W, (d, z.1)) == nm;
    assert Law(f, r, nm, r);
    InverseIsUnique(f, nm, r);
    EmbedHom(f, W, y, x);
    EmbedProduct(f, W, f.Mul(y, x), (f.Mul(d, r), f.Mul(f.Neg(z.1), r)));
    TermParts(f, z.0, f.Neg(z.1), y, x, r, q);
  }

  /** (y x) ((a - x) r) and (y x) (b r) in terms of q = r x y */
  lemma TermParts<T(!new)>(f: Field<T>, a: T, b: T, y: T, x: T, r: T, q: T)
    requires IsField(f) && q == f.Mul(f.Mul(r, x), y)
    ensures f.Mul(f.Mul(y, x), f.Mul(f.Sub(a, x), r)) == f.Sub(f.Mul(a, q), f.Mul(q, x))
    ensures f.Mul(f.Mul(y, x), f.Mul(b, r)) == f.Mul(b, q)
  {
    TakeOut(f, y, x, f.Sub(a, x), r, q);
    TakeOut(f, y, x, b, r, q);
    assert Law(f, q, a, f.Neg(x)) && Law(f, q, f.Sub(a, x), x) && Law(f, q, a, x);
    MulNeg(f, q, x);
  }

  lemma TakeOut<T(!new)>(f: Field<T>, y: T, x: T, d: T, r: T, q: T)
    requires IsField(f) && q == f.Mul(f.Mul(r, x), y)
    ensures f.Mul(f.Mul(y, x), f.Mul(d, r)) == f.Mul(d, q)
  {
    Ring(f);
    assert f.Mul(f.Mul(y, x), f.Mul(d, r)) == f.Mul(d, f.Mul(f.Mul(y, x), r));
  }

  lemma AssembledSum<T(!new)>(f: Field<T>, z: (T, T), s: (T, T), t: (T, T))
    requires IsField(f)
    ensures ExtAdd(f, Assembled(f, z, s), Assembled(f, z, t)) == Assembled(f, z, ExtAdd(f, s, t))
  {
    var a, nb := z.0, f.Neg(z.1);
    assert Law(f, a, s.0, t.0) && Law(f, nb, s.0, t.0);
    var p, q := f.Mul(a, s.0), f.Mul(a, t.0);
    assert f.Neg(f.Add(s.1, t.1)) == f.Add(f.Neg(s.1), f.Neg(t.1)) by { RingNeg(f); }
    assert f.Add(f.Add(p, f.Neg(s.1)), f.Add(q, f.Neg(t.1)))
      == f.Add(f.Add(p, q), f.Add(f.Neg(s.1), f.Neg(t.1))) by { Ring(f); }
  }

  lemma AssembledZero<T(!new)>(f: Field<T>, z: (T, T))
    requires IsField(f)
    ensures Assembled(f, z, (f.zero, f.zero)) == (f.zero, f.zero)
  {
    MulZero(f, z.0);
    MulZero(f, f.Neg(z.1));
    RingNeg(f);
    assert Law(f, f.zero, f.zero, f.zero);
  }

  /** the barycentric sum in the extension is assembled from two sums in the base field */
  lemma {:induction false} BarySumFromRows<T(!new)>(f: Field<T>, W: T, y: seq<T>, w: T, z: (T, T), invNorms: seq<T>,
                                                    hi: nat)
    requires IsField(f) && hi <= |y| && InverseNorms(f, W, z, w, invNorms, hi)
    ensures BarySum(Ext(f, W), EmbedAll(f, y), Embed(f, w), z, 0, hi)
            == Assembled(f, z, RowSums(f, y, w, invNorms, 0, hi))
  {
    if hi == 0 {
      AssembledZero(f, z);
    } else {
      BarySumFromRows(f, W, y, w, z, invNorms, hi - 1);
      var x, q := f.Pow(w, hi - 1), RowTerm(f, y, w, invNorms, hi - 1);
      EmbedPow(f, W, w, hi - 1);
      TermValue(f, W, z, y[hi - 1], x, invNorms[hi - 1], q);
      AssembledSum(f, z, RowSums(f, y, w, invNorms, 0, hi - 1), (q, f.Mul(q, x)));
    }
  }

  /** scaling the assembled sum by (z^n - 1) / n gives the value at z */
  lemma ScaledSumIsValue<T(!new)>(P: Params<T>, W: T, y: seq<T>, z: (T, T), lg: nat, invNorms: seq<T>, nInv: T)
    requires Valid(P) && Irreducible(P.f, W) && lg <= P.twoAdicity && |y| == Pow2(lg) && Inverts(P.f, nInv, lg)
    requires InverseNorms(P.f, W, z, Root(P, lg), invNorms, |y|)
    requires Outside(Ext(P.f, W), Embed(P.f, Root(P, lg)), z, |y|)
    ensures var g := Ext(P.f, W);
            g.Mul(g.Mul(g.Sub(g.Pow(z, |y|), g.one), Embed(P.f, nInv)),
              Assembled(P.f, z, RowSums(P.f, y, Root(P, lg), invNorms, 0, |y|)))
            == ValueAt(P, W, y, z, lg)
  {
    var f, g, w := P.f, Ext(P.f, W), Root(P, lg);
    var c := Interpolant(f, y, w, lg);
    RootOrder(f, P.powerOfTwoGenerator, P.twoAdicity, lg);
    InterpolantIsUnique(P, y, w, lg, c);
    ExtIsField(f, W);
    EmbedOrder(f, W, w, lg);
    EmbedTransform(f, W, c, w);
    BarycentricFormula(g, EmbedAll(f, c), Embed(f, w), lg, z);
    BarySumFromRows(f, W, y, w, z, invNorms, |y|);
    EmbedSize(f, W, nInv, lg);
    DivideBySize(g, g.Sub(g.Pow(z, |y|), g.one), Embed(f, nInv), g.Pow(g.Two(), lg),
      BarySum(g, EmbedAll(f, y), Embed(f, w), z, 0, |y|), ValueAt(P, W, y, z, lg));
  }

  lemma DivideBySize<T(!new)>(g: Field<T>, k: T, nInv: T, n: T, s: T, v: T)
    requires IsField(g) && g.Mul(nInv, n) == g.one && g.Mul(n, v) == g.Mul(k, s)
    ensures g.Mul(g.Mul(k, nInv), s) == v
  {
    assert Law(g, nInv, n, v) && Law(g, v, g.one, v) && Law(g, g.one, v, v);
    assert Law(g, nInv, k, s) && Law(g, k, nInv, s);
  }

  // ----- The method -----

  /** the point is not in the subgroup, seen from the components that the code compares */
  lemma PointOutside<T(!new)>(f: Field<T>, W: T, w: T, z: (T, T), n: nat)
    requires IsField(f) && Irreducible(f, W)
    requires z.1 == f.zero ==> forall i: nat {:trigger f.Pow(w, i)} :: i < n ==> f.Pow(w, i) != z.0
    ensures Outside(Ext(f, W), Embed(f, w), z, n)
    ensures forall i: nat {:trigger f.Pow(w, i)} :: i < n ==> RowNorm(f, W, z, f.Pow(w, i)) != f.zero
  {
    forall i: nat | i < n
      ensures z != Ext(f, W).Pow(Embed(f, w), i) && RowNorm(f, W, z, f.Pow(w, i)) != f.zero
    {
      EmbedPow(f, W, w, i);
      SubZero(f, z.0, f.Pow(w, i));
      NormNonzero(f, W, (f.Sub(z.0, f.Pow(w, i)), z.1));
    }
  }

  lemma OnSubgroup<T(!new)>(P: Params<T>, W: T, y: seq<T>, j: nat, lg: nat)
    requires Valid(P) && lg <= P.twoAdicity && |y| == Pow2(lg) && j < |y|
    ensures Embed(P.f, y[j]) == ValueAt(P, W, y, Embed(P.f, P.f.Pow(Root(P, lg), j)), lg)
  {
    var f, w := P.f, Root(P, lg);
    var c := Interpolant(f, y, w, lg);
    RootOrder(f, P.powerOfTwoGenerator, P.twoAdicity, lg);
    InterpolantIsUnique(P, y, w, lg, c);
    TransformAt(f, c, w, j);
    EmbedEval(f, W, c, f.Pow(w, j));
  }

  /** the norms and their inverses, in chunks of at most `chunkSize` rows */
  method InvertNorms<T(!new)>(f: Field<T>, W: T, z: (T, T), wb2: T, omegaPows: seq<T>, chunkSize: nat,
                              ghost w: T) returns (invNorms: seq<T>)
    requires IsField(f) && chunkSize > 0 && IsPowersRow(f, omegaPows, w, |omegaPows|) && wb2 == f.Mul(W, f.Square(z.1))
    requires forall i: nat {:trigger f.Pow(w, i)} :: i < |omegaPows| ==> RowNorm(f, W, z, f.Pow(w, i)) != f.zero
    ensures |invNorms| == |omegaPows| && InverseNorms(f, W, z, w, invNorms, |omegaPows|)
  {
    invNorms := [];
    while |invNorms| < |omegaPows|
      invariant |invNorms| <= |omegaPows| && InverseNorms(f, W, z, w, invNorms, |invNorms|)
      decreases |omegaPows| - |invNorms|
    {
      var start := |invNorms|;
      var end := if start + chunkSize < |omegaPows| then start + chunkSize else |omegaPows|;
      var inverses := InvertChunk(f, W, z, wb2, omegaPows, start, end, w);
      MoreInverses(f, W, z, w, invNorms, inverses, start, end);
      invNorms := invNorms + inverses;
    }
  }

  lemma MoreInverses<T>(f: Field<T>, W: T, z: (T, T), w: T, invNorms: seq<T>, inverses: seq<T>, start: nat, end: nat)
    requires InverseNorms(f, W, z, w, invNorms, start) && start == |invNorms| && end == start + |inverses|
    requires forall i {:trigger inverses[i]} :: 0 <= i < |inverses| ==>
               f.Mul(inverses[i], RowNorm(f, W, z, f.Pow(w, start + i))) == f.one
    ensures InverseNorms(f, W, z, w, invNorms + inverses, end)
  {
    hide RowNorm;
    forall i | 0 <= i < end
      ensures f.Mul((invNorms + inverses)[i], RowNorm(f, W, z, f.Pow(w, i))) == f.one
    {
      if i < start {
        assert f.Mul(invNorms[i], RowNorm(f, W, z, f.Pow(w, i))) == f.one;
      } else {
        assert f.Mul(inverses[i - start], RowNorm(f, W, z, f.Pow(w, start + (i - start)))) == f.one;
      }
    }
  }

  /** the norms of the rows start..end, inverted together */
  method InvertChunk<T(!new)>(f: Field<T>, W: T, z: (T, T), wb2: T, omegaPows: seq<T>, start: nat, end: nat,
                              ghost w: T) returns (inverses: seq<T>)
    requires IsField(f) && IsPowersRow(f, omegaPows, w, |omegaPows|) && wb2 == f.Mul(W, f.Square(z.1))
             && start <= end <= |omegaPows|
    requires forall i: nat {:trigger f.Pow(w, i)} :: i < |omegaPows| ==> RowNorm(f, W, z, f.Pow(w, i)) != f.zero
    ensures |inverses| == end - start
    ensures forall i {:trigger inverses[i]} :: 0 <= i < end - start ==>
              f.Mul(inverses[i], RowNorm(f, W, z, f.Pow(w, start + i))) == f.one
  {
    var chunk := [];
    for k := start to end
      invariant |chunk| == k - start
      invariant forall i {:trigger chunk[i]} :: 0 <= i < k - start ==> chunk[i] == RowNorm(f, W, z, f.Pow(w, start + i))
    {
      chunk := chunk + [f.Sub(f.Square(f.Sub(z.0, omegaPows[k])), wb2)];
    }
    inverses := BatchMultiplicativeInverse(f, chunk);
  }

  /** How the rows are divided among threads: a segment is accumulated row by row, and the totals of
      two parts are added. An empty segment is the identity of the reduction. */
  datatype Schedule = Segment(lo: nat, hi: nat) | Reduce(left: Schedule, right: Schedule)

  /** the schedule covers the rows lo <= i < hi, in order */
  ghost predicate Covers(s: Schedule, lo: nat, hi: nat) {
    match s
    case Segment(l, h) => l == lo && h == hi && lo <= hi
    case Reduce(left, right) => exists mid {:trigger Covers(left, lo, mid)} ::
      Covers(left, lo, mid) && Covers(right, mid, hi)
  }

  lemma {:induction false} CoversInOrder(s: Schedule, lo: nat, hi: nat)
    requires Covers(s, lo, hi)
    ensures lo <= hi
  {
    match s
    case Segment(_, _) =>
    case Reduce(left, right) =>
      var mid :| Covers(left, lo, mid) && Covers(right, mid, hi);
      CoversInOrder(left, lo, mid);
      CoversInOrder(right, mid, hi);
  }

  ghost predicate AreRowSums<T>(f: Field<T>, columns: seq<seq<T>>, w: T, invNorms: seq<T>, lo: nat, hi: nat,
                                acc: seq<(T, T)>) {
    && |acc| == |columns|
    && forall j {:trigger acc[j]} :: 0 <= j < |columns| ==>
         hi <= |columns[j]| && hi <= |invNorms| && acc[j] == RowSums(f, columns[j], w, invNorms, lo, hi)
  }

  ghost predicate SameLength<T>(columns: seq<seq<T>>, n: nat) {
    forall j {:trigger columns[j]} :: 0 <= j < |columns| ==> |columns[j]| == n
  }

  /** one row added to the accumulators of all columns */
  method AccumulateRow<T(!new)>(f: Field<T>, columns: seq<seq<T>>, omegaPows: seq<T>, invNorms: seq<T>, i: nat,
                                acc: seq<(T, T)>, ghost w: T, ghost lo: nat) returns (acc': seq<(T, T)>)
    requires SameLength(columns, |omegaPows|) && |invNorms| == |omegaPows| && IsPowersRow(f, omegaPows, w, |omegaPows|)
    requires lo <= i < |omegaPows| && AreRowSums(f, columns, w, invNorms, lo, i, acc)
    ensures AreRowSums(f, columns, w, invNorms, lo, i + 1, acc')
  {
    var op := omegaPows[i];
    var base := f.Mul(invNorms[i], op);
    acc' := acc;
    for j := 0 to |columns|
      invariant |acc'| == |columns|
      invariant forall k {:trigger acc'[k]} :: 0 <= k < j ==> acc'[k] == RowSums(f, columns[k], w, invNorms, lo, i + 1)
      invariant forall k {:trigger acc'[k]} :: j <= k < |columns| ==> acc'[k] == acc[k]
    {
      var q := f.Mul(base, columns[j][i]);
      assert acc[j] == RowSums(f, columns[j], w, invNorms, lo, i) && q == RowTerm(f, columns[j], w, invNorms, i);
      acc' := acc'[j := (f.Add(acc'[j].0, q), f.Add(acc'[j].1, f.Mul(q, op)))];
    }
  }

  /** the parallel fold and reduce, for any division of the rows */
  method FoldReduce<T(!new)>(f: Field<T>, columns: seq<seq<T>>, omegaPows: seq<T>, invNorms: seq<T>, schedule: Schedule,
                             ghost w: T, ghost lo: nat, ghost hi: nat) returns (acc: seq<(T, T)>)
    requires IsField(f) && SameLength(columns, |omegaPows|) && |invNorms| == |omegaPows|
             && IsPowersRow(f, omegaPows, w, |omegaPows|)
    requires Covers(schedule, lo, hi) && hi <= |omegaPows|
    ensures AreRowSums(f, columns, w, invNorms, lo, hi, acc)
    decreases schedule
  {
    hide AreRowSums, SameLength, IsPowersRow, IsField;
    match schedule {
      case Segment(from, to') =>
        acc := FoldSegment(f, columns, omegaPows, invNorms, from, to', w);
      case Reduce(left, right) =>
        ghost var mid :| Covers(left, lo, mid) && Covers(right, mid, hi);
        CoversInOrder(left, lo, mid);
        CoversInOrder(right, mid, hi);
        var va := FoldReduce(f, columns, omegaPows, invNorms, left, w, lo, mid);
        var vb := FoldReduce(f, columns, omegaPows, invNorms, right, w, mid, hi);
        acc := Joined(f, columns, invNorms, va, vb, w, lo, mid, hi);
    }
  }

  lemma NoRowSums<T>(f: Field<T>, columns: seq<seq<T>>, w: T, invNorms: seq<T>, lo: nat, acc: seq<(T, T)>)
    requires SameLength(columns, |invNorms|) && lo <= |invNorms| && |acc| == |columns|
    requires forall j :: 0 <= j < |acc| ==> acc[j] == (f.zero, f.zero)
    ensures AreRowSums(f, columns, w, invNorms, lo, lo, acc)
  {
  }

  /** the fold over the rows of one segment */
  method FoldSegment<T(!new)>(f: Field<T>, columns: seq<seq<T>>, omegaPows: seq<T>, invNorms: seq<T>, lo: nat, hi: nat,
                              ghost w: T)
    returns (acc: seq<(T, T)>)
    requires IsField(f) && SameLength(columns, |omegaPows|) && |invNorms| == |omegaPows|
             && IsPowersRow(f, omegaPows, w, |omegaPows|)
    requires lo <= hi <= |omegaPows|
    ensures AreRowSums(f, columns, w, invNorms, lo, hi, acc)
  {
    acc := seq(|columns|, _ => (f.zero, f.zero));
    NoRowSums(f, columns, w, invNorms, lo, acc);
    hide AreRowSums, SameLength, IsPowersRow, IsField;
    for i := lo to hi
      invariant AreRowSums(f, columns, w, invNorms, lo, i, acc)
    {
      acc := AccumulateRow(f, columns, omegaPows, invNorms, i, acc, w, lo);
    }
  }

  /** the sums of two neighbouring ranges, added in place */
  method Joined<T(!new)>(f: Field<T>, columns: seq<seq<T>>, invNorms: seq<T>, va: seq<(T, T)>, vb: seq<(T, T)>,
                         ghost w: T,
                         ghost lo: nat, ghost mid: nat, ghost hi: nat) returns (acc: seq<(T, T)>)
    requires IsField(f) && lo <= mid <= hi <= |invNorms| && SameLength(columns, |invNorms|)
    requires AreRowSums(f, columns, w, invNorms, lo, mid, va) && AreRowSums(f, columns, w, invNorms, mid, hi, vb)
    ensures AreRowSums(f, columns, w, invNorms, lo, hi, acc)
  {
    hide RowSums;
    acc := va;
    for j := 0 to |columns|
      invariant |acc| == |columns|
      invariant forall k {:trigger acc[k]} :: 0 <= k < j ==> acc[k] == RowSums(f, columns[k], w, invNorms, lo, hi)
      invariant forall k {:trigger acc[k]} :: j <= k < |columns| ==> acc[k] == va[k]
    {
      assert va[j] == RowSums(f, columns[j], w, invNorms, lo, mid)
        && vb[j] == RowSums(f, columns[j], w, invNorms, mid, hi);
      RowSumsSplit(f, columns[j], w, invNorms, lo, mid, hi);
      acc := acc[j := (f.Add(acc[j].0, vb[j].0), f.Add(acc[j].1, vb[j].1))];
    }
  }

  ghost predicate AreValues<T>(P: Params<T>, W: T, columns: seq<seq<T>>, z: (T, T), lg: nat, r: seq<(T, T)>) {
    |r| == |columns| && forall j {:trigger r[j]} :: 0 <= j < |columns| ==> r[j] == ValueAt(P, W, columns[j], z, lg)
  }

  method Position<T(==)>(s: seq<T>, a: T) returns (j: Option<nat>)
    ensures j.Some? ==> j.value < |s| && s[j.value] == a
    ensures j.None? ==> a !in s
  {
    for i := 0 to |s|
      invariant forall k :: 0 <= k < i ==> s[k] != a
    {
      if s[i] == a {
        return Some(i);
      }
    }
    return None;
  }

  const PARALLEL_CHUNK_SIZE := 1024

  /** powers given by the caller are those of the root of unity */
  ghost predicate GoodOmegas<T(!new)>(P: Params<T>, omegaPows: Option<seq<T>>, lg: nat) {
    omegaPows.Some? ==> |omegaPows.value| == Pow2(lg) && IsPowersRow(P.f, omegaPows.value, Root(P, lg), Pow2(lg))
  }

  method EvalColumnsAtPoint<T(==,!new)>(P: Params<T>, W: T, columns: seq<seq<T>>, point: (T, T),
                                        omegaPows: Option<seq<T>>, schedule: Schedule, ghost lg: nat)
    returns (r: seq<(T, T)>)
    requires Valid(P) && Irreducible(P.f, W) && lg <= P.twoAdicity && lg < WORD
    requires SameLength(columns, Pow2(lg)) && GoodOmegas(P, omegaPows, lg) && Covers(schedule, 0, Pow2(lg))
    ensures AreValues(P, W, columns, point, lg, r)
  {
    if |columns| == 0 {
      return [];
    }
    var f, g := P.f, Ext(P.f, W);
    ghost var w := Root(P, lg);
    var n := |columns[0]|;
    var lgN := Log2Strict(n);
    Pow2Injective(lgN);
    ExtIsField(f, W);
    var pow := ExpPowerOf2(g, point, lgN);
    var znMinusOne := g.Sub(pow, g.one);
    var nInv := Inverse2Exp(P, lgN);
    var wb2 := f.Mul(W, f.Square(point.1));
    var chunkSize := if n < PARALLEL_CHUNK_SIZE then n else PARALLEL_CHUNK_SIZE;
    var omegas;
    match omegaPows {
      case Some(s) => omegas := s;
      case None =>
        var generator := PrimitiveRootOfUnity(P, lgN);
        omegas := Powers(f, generator, Pow2(lgN));
    }
    if point.1 == f.zero {
      var j := Position(omegas, point.0);
      if j.Some? {
        r := PickRow(P, W, columns, j.value, point, lg);
        return;
      }
    }
    PointOutside(f, W, w, point, n);
    var invNorms := InvertNorms(f, W, point, wb2, omegas, chunkSize, w);
    var sums := FoldReduce(f, columns, omegas, invNorms, schedule, w, 0, n);
    var scale := g.Mul(znMinusOne, Embed(f, nInv));
    r := AssembleAll(P, W, columns, point, sums, scale, lg, invNorms, nInv);
  }

  method PickRow<T(!new)>(P: Params<T>, W: T, columns: seq<seq<T>>, j: nat, ghost point: (T, T),
                          ghost lg: nat) returns (r: seq<(T, T)>)
    requires Valid(P) && lg <= P.twoAdicity && SameLength(columns, Pow2(lg)) && j < Pow2(lg)
    requires point == Embed(P.f, P.f.Pow(Root(P, lg), j))
    ensures AreValues(P, W, columns, point, lg, r)
  {
    r := [];
    for k := 0 to |columns|
      invariant |r| == k && forall i {:trigger r[i]} :: 0 <= i < k ==> r[i] == ValueAt(P, W, columns[i], point, lg)
    {
      OnSubgroup(P, W, columns[k], j, lg);
      r := r + [Embed(P.f, columns[k][j])];
    }
  }

  method AssembleAll<T(!new)>(P: Params<T>, W: T, columns: seq<seq<T>>, point: (T, T), sums: seq<(T, T)>, scale: (T, T),
                              ghost lg: nat, ghost invNorms: seq<T>, ghost nInv: T)
    returns (r: seq<(T, T)>)
    requires Valid(P) && Irreducible(P.f, W) && lg <= P.twoAdicity && SameLength(columns, Pow2(lg))
             && Inverts(P.f, nInv, lg)
    requires InverseNorms(P.f, W, point, Root(P, lg), invNorms, Pow2(lg))
             && Outside(Ext(P.f, W), Embed(P.f, Root(P, lg)), point, Pow2(lg))
    requires AreRowSums(P.f, columns, Root(P, lg), invNorms, 0, Pow2(lg), sums)
    requires var g := Ext(P.f, W); scale == g.Mul(g.Sub(g.Pow(point, Pow2(lg)), g.one), Embed(P.f, nInv))
    ensures AreValues(P, W, columns, point, lg, r)
  {
    var f := P.f;
    r := [];
    for k := 0 to |columns|
      invariant |r| == k && forall i {:trigger r[i]} :: 0 <= i < k ==> r[i] == ValueAt(P, W, columns[i], point, lg)
    {
      var (s1, s2) := sums[k];
      ScaledSumIsValue(P, W, columns[k], point, lg, invNorms, nInv);
      MinusOneTimes(f, point.1);
      var sum := (f.Sub(f.Mul(point.0, s1), s2), f.Mul(f.Mul(f.Neg(f.one), point.1), s1));
      r := r + [ExtMul(f, W, scale, sum)];
    }
  }

  /** the two openings of every column, at zeta and at the generator times zeta */
  method EvalColumnsAtZetaAndNext<T(==,!new)>(P: Params<T>, W: T, columns: seq<seq<T>>, zeta: (T, T), degreeBits: nat,
                                              schedule: Schedule)
    returns (atZeta: seq<(T, T)>, atNext: seq<(T, T)>)
    requires Valid(P) && Irreducible(P.f, W) && degreeBits <= P.twoAdicity && degreeBits < WORD
    requires SameLength(columns, Pow2(degreeBits)) && Covers(schedule, 0, Pow2(degreeBits))
    ensures AreValues(P, W, columns, zeta, degreeBits, atZeta)
    ensures AreValues(P, W, columns, ExtMul(P.f, W, Embed(P.f, Root(P, degreeBits)), zeta), degreeBits, atNext)
  {
    var g := PrimitiveRootOfUnity(P, degreeBits);
    var omegaPows := Powers(P.f, g, Pow2(degreeBits));
    atZeta := EvalColumnsAtPoint(P, W, columns, zeta, Some(omegaPows), schedule, degreeBits);
    EmbedProduct(P.f, W, g, zeta);
    assert Law(P.f, zeta.0, g, g) && Law(P.f, zeta.1, g, g);
    atNext := EvalColumnsAtPoint(P, W, columns, (P.f.Mul(zeta.0, g), P.f.Mul(zeta.1, g)), Some(omegaPows), schedule,
      degreeBits);
  }
}
