/** plonky2's public FFT functions: the root table, `fft_classic`, `fft_with_options` and
    `ifft_with_options`. */
module FftInterface {
  import opened Arithmetic
  import opened Wrappers
  import opened Fields
  import opened FieldMethods
  import opened ReverseIndexBits
  import opened Dft
  import opened Fft

  /** the root of unity used for 2^lg points */
  ghost function Root<T>(P: Params<T>, lg: nat): T {
    RootAt(P.f, P.powerOfTwoGenerator, P.twoAdicity, lg)
  }

  // ----- The root table -----

  /** `base.powers().take(count)` */
  method Powers<T(!new)>(f: Field<T>, base: T, count: nat) returns (row: seq<T>)
    requires IsField(f)
    ensures |row| == count && IsPowersRow(f, row, base, count)
  {
    row := [];
    var current := f.one;
    for j := 0 to count
      invariant |row| == j && IsPowersRow(f, row, base, j)
      invariant current == f.Pow(base, j)
    {
      row := row + [current];
      assert Law(f, current, base, base);
      current := f.Mul(current, base);
    }
  }

  /** one row of powers per round, from the generators of the subgroups, largest first */
  method RootRows<T(!new)>(f: Field<T>, bases: seq<T>, ghost w: T, lgN: nat) returns (rootTable: seq<seq<T>>)
    requires IsField(f) && |bases| >= lgN
    requires forall k {:trigger bases[k]} :: 0 <= k < lgN ==> bases[k] == RootAt(f, w, lgN, lgN - k)
    ensures GoodTable(f, rootTable, w, lgN)
  {
    hide RootAt, IsField;
    rootTable := [];
    for lgM := 1 to lgN + 1
      invariant |rootTable| == lgM - 1
      invariant forall t {:trigger rootTable[t]} :: 0 <= t < lgM - 1 ==>
                  IsPowersRow(f, rootTable[t], RootAt(f, w, lgN, t + 1), Pow2(t))
    {
      var halfM := Pow2(lgM - 1);
      var rootRow := Powers(f, bases[lgN - lgM], if halfM > 2 then halfM else 2);
      rootTable := rootTable + [rootRow];
    }
  }

  /** `n` is the number of points; the source panics when there is no subgroup of that order */
  method FftRootTable<T(!new)>(P: Params<T>, n: nat, ghost lg: nat) returns (rootTable: seq<seq<T>>)
    requires Valid(P) && n == Pow2(lg) && lg <= P.twoAdicity
    ensures GoodTable(P.f, rootTable, Root(P, lg), lg) && TableShape(rootTable, lg)
  {
    var f := P.f;
    var lgN := Log2Strict(n);
    Pow2Injective(lgN);
    var base := PrimitiveRootOfUnity(P, lgN);
    ghost var w := base;
    var bases := [base];
    var i := 1;
    while i < lgN
      invariant |bases| == i && 1 <= i && (i <= lgN || i == 1)
      invariant base == RootAt(f, w, lgN, if i - 1 <= lgN then lgN - (i - 1) else 0)
      invariant forall k {:trigger bases[k]} :: 0 <= k < i && k <= lgN ==> bases[k] == RootAt(f, w, lgN, lgN - k)
    {
      base := f.Square(base);
      bases := bases + [base];
      i := i + 1;
    }
    rootTable := RootRows(f, bases, w, lgN);
  }

  // ----- fft_classic -----

  /** The copies made before the first round, in place: `mask` clears the low r bits of an index. */
  method SpreadInPlace<T>(values: array<T>, r: nat)
    modifies values
    ensures values[..] == Spread(old(values[..]), r)
  {
    ghost var v := values[..];
    for i := 0 to values.Length
      invariant values[..i] == SpreadPrefix(v, r, i)
      invariant values[i..] == v[i..]
    {
      SpreadSource(v, r, i, values[..]);
      values[i] := values[ClearLow(i, r)];
    }
    assert values[..values.Length] == values[..];
  }

  lemma SpreadSource<T>(v: seq<T>, r: nat, i: nat, v': seq<T>)
    requires i < |v| == |v'|
    requires v'[..i] == SpreadPrefix(v, r, i) && v'[i..] == v[i..]
    ensures v'[ClearLow(i, r)] == v[ClearLow(i, r)]
  {
    var j := ClearLow(i, r);
    if j < i {
      ClearLowTwice(i, r);
      SpreadPrefixAt(v, r, i, j);
      assert v'[j] == v'[..i][j];
    } else {
      assert v'[i] == v'[i..][0] && v[i] == v[i..][0];
    }
  }

  lemma SpreadNothing<T>(v: seq<T>)
    ensures Spread(v, 0) == v
  {
    forall i: nat | i < |v|
      ensures Spread(v, 0)[i] == v[i]
    {
      SpreadAt(v, 0, i);
    }
  }

  /** The source panics unless the table has lg n rows. */
  method FftClassic<T(!new)>(f: Field<T>, values: array<T>, r: nat, rootTable: seq<seq<T>>, elemSize: nat, ghost w: T,
                             ghost lg: nat)
    requires IsField(f) && HasOrder2(f, w, lg) && GoodTable(f, rootTable, w, lg) && TableShape(rootTable, lg)
    requires values.Length == Pow2(lg) <= Pow2(USIZE_BITS) && ZeroTail(f, values[..], lg, r)
    modifies values
    ensures values[..] == Transform(f, old(values[..]), w)
  {
    ghost var c := values[..];
    ReverseIndexBitsInPlace(values, elemSize);
    var lgN := Log2Strict(values.Length);
    Pow2Injective(lgN);
    if r > 0 {
      SpreadInPlace(values, r);
    } else {
      SpreadNothing(values[..]);
    }
    FftClassicSimd(f, values, r, lgN, rootTable);
    RoundsCorrect(f, rootTable, w, lg, r, lg, c);
  }

  // ----- fft and ifft -----

  ghost predicate GoodOptions<T(!new)>(P: Params<T>, s: seq<T>, lg: nat, zeroFactor: Option<nat>,
                                       rootTable: Option<seq<seq<T>>>) {
    && Valid(P) && lg <= P.twoAdicity
    && |s| == Pow2(lg) <= Pow2(USIZE_BITS)
    && ZeroTail(P.f, s, lg, zeroFactor.UnwrapOr(0))
    && (rootTable.Some? ==> GoodTable(P.f, rootTable.value, Root(P, lg), lg))
  }

  lemma GoodTableShape<T(!new)>(f: Field<T>, table: seq<seq<T>>, w: T, lg: nat)
    requires GoodTable(f, table, w, lg)
    ensures TableShape(table, lg)
  {
    forall t | 0 <= t < lg
      ensures |table[t]| >= Pow2(t)
    {
      assert IsPowersRow(f, table[t], RootAt(f, w, lg, t + 1), Pow2(t));
    }
  }

  /** `fft_dispatch`: a missing table is computed, a missing zero factor is 0 */
  method FftDispatch<T(!new)>(P: Params<T>, input: array<T>, zeroFactor: Option<nat>, rootTable: Option<seq<seq<T>>>,
                              elemSize: nat, ghost lg: nat)
    requires GoodOptions(P, input[..], lg, zeroFactor, rootTable)
    modifies input
    ensures input[..] == Transform(P.f, old(input[..]), Root(P, lg))
  {
    var usedRootTable;
    match rootTable {
      case Some(table) =>
        usedRootTable := table;
        GoodTableShape(P.f, table, Root(P, lg), lg);
      case None =>
        usedRootTable := FftRootTable(P, input.Length, lg);
    }
    RootOrder(P.f, P.powerOfTwoGenerator, P.twoAdicity, lg);
    FftClassic(P.f, input, zeroFactor.UnwrapOr(0), usedRootTable, elemSize, Root(P, lg), lg);
  }

  /** `fft_with_options`: the coefficients are replaced by the values at the powers of the root */
  method FftWithOptions<T(!new)>(P: Params<T>, buffer: array<T>, zeroFactor: Option<nat>,
                                 rootTable: Option<seq<seq<T>>>, elemSize: nat, ghost lg: nat)
    requires GoodOptions(P, buffer[..], lg, zeroFactor, rootTable)
    modifies buffer
    ensures buffer[..] == Transform(P.f, old(buffer[..]), Root(P, lg))
  {
    FftDispatch(P, buffer, zeroFactor, rootTable, elemSize, lg);
  }

  function ScaleAll<T>(f: Field<T>, k: T, s: seq<T>): (v: seq<T>)
    ensures |v| == |s| && forall i :: 0 <= i < |s| ==> v[i] == f.Mul(k, s[i])
  {
    if s == [] then [] else [f.Mul(k, s[0])] + ScaleAll(f, k, s[1..])
  }

  /** the polynomial that takes the values `v` at the powers of `w`: the transform at the inverse of
      `w`, divided by the number of points */
  function InverseDft<T>(f: Field<T>, v: seq<T>, w: T, nInv: T): (c: seq<T>)
    ensures |c| == |v|
  {
    ScaleAll(f, nInv, Transform(f, v, f.Inv(w)))
  }

  lemma RootInverse<T(!new)>(f: Field<T>, w: T, lg: nat)
    requires IsField(f) && HasOrder2(f, w, lg)
    ensures f.Mul(w, f.Inv(w)) == f.one && f.Mul(f.Inv(w), w) == f.one && HasOrder2(f, f.Inv(w), lg)
  {
    if w == f.zero {
      assert f.Pow(w, Pow2(lg)) == f.Mul(f.zero, f.Pow(w, Pow2(lg) - 1));
      assert Law(f, f.zero, f.Pow(w, Pow2(lg) - 1), w);
      MulZero(f, f.Pow(w, Pow2(lg) - 1));
    }
    InvLaw(f, w);
    InverseRoot(f, w, f.Inv(w), lg);
  }

  lemma DivideOut<T(!new)>(f: Field<T>, nInv: T, n: T, a: T)
    requires IsField(f) && f.Mul(nInv, n) == f.one
    ensures f.Mul(nInv, f.Mul(n, a)) == a
  {
    assert Law(f, nInv, n, a) && Law(f, f.one, a, a) && Law(f, a, f.one, a);
  }

  /** ifft after fft */
  lemma InverseAfterTransform<T(!new)>(f: Field<T>, c: seq<T>, w: T, lg: nat, nInv: T)
    requires IsField(f) && HasOrder2(f, w, lg) && |c| == Pow2(lg) && Inverts(f, nInv, lg)
    ensures InverseDft(f, Transform(f, c, w), w, nInv) == c
  {
    RootInverse(f, w, lg);
    var y, v := Transform(f, c, w), f.Inv(w);
    forall i: nat | i < |c|
      ensures InverseDft(f, y, w, nInv)[i] == c[i]
    {
      TransformAt(f, y, v, i);
      InverseTransform(f, c, w, v, lg, i);
      DivideOut(f, nInv, f.Pow(f.Two(), lg), c[i]);
    }
  }

  /** fft after ifft */
  lemma TransformAfterInverse<T(!new)>(f: Field<T>, v: seq<T>, w: T, lg: nat, nInv: T)
    requires IsField(f) && HasOrder2(f, w, lg) && |v| == Pow2(lg) && Inverts(f, nInv, lg)
    ensures Transform(f, InverseDft(f, v, w, nInv), w) == v
  {
    RootInverse(f, w, lg);
    var y := Transform(f, v, f.Inv(w));
    var c := InverseDft(f, v, w, nInv);
    forall i: nat | i < |v|
      ensures Transform(f, c, w)[i] == v[i]
    {
      TransformAt(f, c, w, i);
      EvalScale(f, nInv, y, c, f.Pow(w, i));
      InverseTransform(f, v, f.Inv(w), w, lg, i);
      DivideOut(f, nInv, f.Pow(f.Two(), lg), v[i]);
    }
  }

  /** walking the powers of w backwards is walking the powers of its inverse */
  lemma BackwardPowers<T(!new)>(f: Field<T>, w: T, lg: nat, i: nat)
    requires IsField(f) && HasOrder2(f, w, lg) && i <= Pow2(lg)
    ensures f.Pow(w, Pow2(lg) - i) == f.Pow(f.Inv(w), i)
  {
    RootInverse(f, w, lg);
    var n := Pow2(lg);
    PowAdd(f, w, i, n - i);
    PowersCancel(f, w, f.Inv(w), i);
    InverseIsUnique(f, f.Pow(w, i), f.Pow(w, n - i));
    InverseIsUnique(f, f.Pow(w, i), f.Pow(f.Inv(w), i));
  }

  /** index k of the buffer when the loop of `ifft` has handled the indices below i */
  ghost function Swapped<T>(f: Field<T>, y: seq<T>, nInv: T, i: nat, k: nat): T
    requires k < |y|
  {
    if k == 0 || k == |y| / 2 then f.Mul(y[k], nInv)
    else if k < i || k > |y| - i then f.Mul(y[|y| - k], nInv)
    else y[k]
  }

  lemma SwappedAll<T(!new)>(f: Field<T>, v: seq<T>, w: T, lg: nat, nInv: T, k: nat)
    requires IsField(f) && HasOrder2(f, w, lg) && |v| == Pow2(lg) && k < |v|
    ensures Swapped(f, Transform(f, v, w), nInv, if |v| / 2 > 1 then |v| / 2 else 1, k) == InverseDft(f, v, w, nInv)[k]
  {
    var y, n := Transform(f, v, w), |v|;
    var k' := if k == 0 then 0 else n - k;
    TransformAt(f, v, f.Inv(w), k);
    TransformAt(f, v, w, k');
    BackwardPowers(f, w, lg, k);
    assert Law(f, y[k'], nInv, nInv);
  }

  /** with a single value the scale factor is one, so applying it twice does no harm */
  lemma ScaledTwice<T(!new)>(f: Field<T>, nInv: T, lg: nat, a: T)
    requires IsField(f) && Inverts(f, nInv, lg)
    ensures lg == 0 ==> f.Mul(f.Mul(a, nInv), nInv) == f.Mul(a, nInv)
  {
    if lg == 0 {
      assert Law(f, nInv, f.one, f.one) && Law(f, a, nInv, nInv);
    }
  }

  /** the scaling and reordering that turn a forward transform into the inverse one, in place */
  method ReverseAndScale<T(!new)>(f: Field<T>, buffer: array<T>, nInv: T, ghost lg: nat)
    requires IsField(f) && Inverts(f, nInv, lg) && buffer.Length == Pow2(lg)
    modifies buffer
    ensures SwappedBelow(f, old(buffer[..]), nInv, if buffer.Length / 2 > 1 then buffer.Length / 2 else 1, buffer[..])
  {
    ghost var y := buffer[..];
    var n := buffer.Length;
    SwapEnds(f, y, nInv, lg);
    hide IsField, Inverts, Swapped, SwappedBelow;
    buffer[0] := f.Mul(buffer[0], nInv);
    assert buffer[..] == y[0 := f.Mul(y[0], nInv)];
    buffer[n / 2] := f.Mul(buffer[n / 2], nInv);
    var i := 1;
    while i < n / 2
      invariant 1 <= i && (i <= n / 2 || i == 1)
      invariant SwappedBelow(f, y, nInv, i, buffer[..])
    {
      var j := n - i;
      ghost var s := buffer[..];
      SwapStep(f, y, nInv, i, s);
      var coeffsI := f.Mul(buffer[j], nInv);
      var coeffsJ := f.Mul(buffer[i], nInv);
      buffer[i] := coeffsI;
      buffer[j] := coeffsJ;
      assert buffer[..] == s[i := coeffsI][j := coeffsJ];
      i := i + 1;
    }
  }

  ghost predicate SwappedBelow<T>(f: Field<T>, y: seq<T>, nInv: T, i: nat, s: seq<T>) {
    |s| == |y| && forall k {:trigger s[k]} :: 0 <= k < |y| ==> s[k] == Swapped(f, y, nInv, i, k)
  }

  lemma SwapEnds<T(!new)>(f: Field<T>, y: seq<T>, nInv: T, lg: nat)
    requires IsField(f) && Inverts(f, nInv, lg) && |y| == Pow2(lg)
    ensures var s := y[0 := f.Mul(y[0], nInv)];
            SwappedBelow(f, y, nInv, 1, s[|y| / 2 := f.Mul(s[|y| / 2], nInv)])
  {
    ScaledTwice(f, nInv, lg, y[0]);
    assert lg > 0 ==> |y| == 2 * Pow2(lg - 1);
  }

  lemma SwapStep<T>(f: Field<T>, y: seq<T>, nInv: T, i: nat, s: seq<T>)
    requires SwappedBelow(f, y, nInv, i, s) && 1 <= i < |y| / 2
    ensures SwappedBelow(f, y, nInv, i + 1, s[i := f.Mul(s[|y| - i], nInv)][|y| - i := f.Mul(s[i], nInv)])
  {
  }

  /** `ifft_with_options`: a forward transform, then all values but the first in reverse order, scaled */
  method IfftWithOptions<T(!new)>(P: Params<T>, buffer: array<T>, zeroFactor: Option<nat>,
                                  rootTable: Option<seq<seq<T>>>, elemSize: nat, ghost lg: nat)
    returns (ghost nInv': T)
    requires GoodOptions(P, buffer[..], lg, zeroFactor, rootTable) && lg < WORD
    modifies buffer
    ensures Inverts(P.f, nInv', lg)
    ensures buffer[..] == InverseDft(P.f, old(buffer[..]), Root(P, lg), nInv')
  {
    ghost var v, w := buffer[..], Root(P, lg);
    var lgN := Log2Strict(buffer.Length);
    Pow2Injective(lgN);
    var nInv := Inverse2Exp(P, lgN);
    FftDispatch(P, buffer, zeroFactor, rootTable, elemSize, lg);
    ReverseAndScale(P.f, buffer, nInv, lg);
    RootOrder(P.f, P.powerOfTwoGenerator, P.twoAdicity, lg);
    nInv' := nInv;
    InverseReached(P.f, v, w, lg, nInv, buffer[..]);
  }

  lemma InverseReached<T(!new)>(f: Field<T>, v: seq<T>, w: T, lg: nat, nInv: T, c: seq<T>)
    requires IsField(f) && HasOrder2(f, w, lg) && |v| == |c| == Pow2(lg)
    requires SwappedBelow(f, Transform(f, v, w), nInv, if |v| / 2 > 1 then |v| / 2 else 1, c)
    ensures c == InverseDft(f, v, w, nInv)
  {
    forall k: nat | k < |v|
      ensures c[k] == InverseDft(f, v, w, nInv)[k]
    {
      SwappedAll(f, v, w, lg, nInv, k);
    }
  }

  /** `ifft` of the `fft` of a list of coefficients, on one buffer */
  method IfftOfFft<T(!new)>(P: Params<T>, buffer: array<T>, elemSize: nat, ghost lg: nat)
    requires Valid(P) && lg <= P.twoAdicity && buffer.Length == Pow2(lg) <= Pow2(USIZE_BITS) && lg < WORD
    modifies buffer
    ensures buffer[..] == old(buffer[..])
  {
    FftWithOptions(P, buffer, None, None, elemSize, lg);
    ghost var nInv := IfftWithOptions(P, buffer, None, None, elemSize, lg);
    RootOrder(P.f, P.powerOfTwoGenerator, P.twoAdicity, lg);
    InverseAfterTransform(P.f, old(buffer[..]), Root(P, lg), lg, nInv);
  }
}
