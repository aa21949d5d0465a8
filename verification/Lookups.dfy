/** The logUp argument inside one table: helper columns, the running sum Z, and the constraints that the
    verifier evaluates on them. */
module Lookups {
  import opened BatchInverse
  import opened Columns
  import opened ConstraintConsumers
  import opened Fields
  import opened HelperColumns

  datatype Lookup<T> = Lookup(columns: seq<Column<T>>, table: Column<T>, frequencies: Column<T>,
    filters: seq<Filter<T>>)

  predicate LookupFits<T>(l: Lookup<T>, width: nat) {
    && |l.columns| == |l.filters| && ColumnsFit(l.columns, width)
    && (forall k :: 0 <= k < |l.filters| ==> FilterFits(l.filters[k], width))
    && ColumnFits(l.table, width) && ColumnFits(l.frequencies, width)
  }

  /** each looking column by itself, with its filter */
  function Entries<T>(l: Lookup<T>): (r: seq<Entry<T>>)
    requires |l.columns| == |l.filters|
    ensures |r| == |l.columns|
    ensures forall width :: LookupFits(l, width) ==> EntriesFit(r, width)
  {
    seq(|l.columns|, k requires 0 <= k < |l.columns| => Entry([l.columns[k]], l.filters[k]))
  }

  function LookupChallenge<T>(f: Field<T>, gamma: T): Challenge<T> { Challenge(f.one, gamma) }

  /** the helper columns and Z */
  function NumHelperColumns<T>(l: Lookup<T>, c: nat): nat
    requires c > 0
  {
    HelperCount(|l.columns|, c) + 1
  }

  // ----- Both sides of the identity -----

  /** the sum of filter / (f + gamma) over the looking columns, on one row */
  function LookingAt<T>(f: Field<T>, l: Lookup<T>, gamma: T, table: seq<seq<T>>, i: nat): T
    requires IsTable(table) && i < |table[0]| && LookupFits(l, |table|)
  {
    Sum(f, RatiosAt(f, LookupChallenge(f, gamma), Entries(l), table, i))
  }

  function TableDen<T>(f: Field<T>, l: Lookup<T>, gamma: T, table: seq<seq<T>>, i: nat): T
    requires IsTable(table) && i < |table[0]| && LookupFits(l, |table|)
  {
    f.Add(gamma, ColumnAt(f, l.table, table, i))
  }

  /** m / (t + gamma), on one row */
  function LookedAt<T>(f: Field<T>, l: Lookup<T>, gamma: T, table: seq<seq<T>>, i: nat): T
    requires IsTable(table) && i < |table[0]| && LookupFits(l, |table|)
  {
    f.Mul(ColumnAt(f, l.frequencies, table, i), f.Inv(TableDen(f, l, gamma, table, i)))
  }

  ghost function LookingSums<T>(f: Field<T>, l: Lookup<T>, gamma: T, table: seq<seq<T>>): (r: seq<T>)
    requires IsTable(table) && LookupFits(l, |table|)
    ensures |r| == |table[0]|
  {
    seq(|table[0]|, i requires 0 <= i < |table[0]| => LookingAt(f, l, gamma, table, i))
  }

  ghost function LookedSums<T>(f: Field<T>, l: Lookup<T>, gamma: T, table: seq<seq<T>>): (r: seq<T>)
    requires IsTable(table) && LookupFits(l, |table|)
    ensures |r| == |table[0]|
  {
    seq(|table[0]|, i requires 0 <= i < |table[0]| => LookedAt(f, l, gamma, table, i))
  }

  /** the identity that the argument is for: the two rational sums over the whole table agree */
  ghost predicate Balanced<T>(f: Field<T>, l: Lookup<T>, gamma: T, table: seq<seq<T>>)
    requires IsTable(table) && LookupFits(l, |table|)
  {
    Sum(f, LookingSums(f, l, gamma, table)) == Sum(f, LookedSums(f, l, gamma, table))
  }

  ghost function Steps<T>(f: Field<T>, l: Lookup<T>, gamma: T, table: seq<seq<T>>): (r: seq<T>)
    requires IsTable(table) && LookupFits(l, |table|)
    ensures |r| == |table[0]|
    ensures forall i :: 0 <= i < |r| ==>
              r[i] == f.Sub(LookingAt(f, l, gamma, table, i), LookedAt(f, l, gamma, table, i))
  {
    seq(|table[0]|, i requires 0 <= i < |table[0]| => f.Sub(LookingAt(f, l, gamma, table, i),
      LookedAt(f, l, gamma, table, i)))
  }

  /** no denominator is zero */
  ghost predicate LookupRegular<T>(f: Field<T>, l: Lookup<T>, gamma: T, table: seq<seq<T>>)
    requires IsTable(table) && LookupFits(l, |table|)
  {
    && AllRegular(f, LookupChallenge(f, gamma), Entries(l), table)
    && forall i :: 0 <= i < |table[0]| ==> TableDen(f, l, gamma, table, i) != f.zero
  }

  /** the steps sum to zero exactly when the identity holds */
  lemma StepsSum<T(!new)>(f: Field<T>, l: Lookup<T>, gamma: T, table: seq<seq<T>>)
    requires IsField(f) && IsTable(table) && LookupFits(l, |table|)
    ensures Sum(f, Steps(f, l, gamma, table)) == f.zero <==> Balanced(f, l, gamma, table)
  {
    var looking, looked, steps := LookingSums(f, l, gamma, table), LookedSums(f, l, gamma, table),
      Steps(f, l, gamma, table);
    forall i | 0 <= i < |table[0]|
      ensures looking[i] == f.Add(steps[i], looked[i])
    {
      SubAdd(f, looking[i], looked[i]);
    }
    SumPointwise(f, steps, looked, looking);
    var s, m := Sum(f, steps), Sum(f, looked);
    assert Law(f, s, m, f.Neg(m)) && Law(f, m, s, s) && Law(f, s, s, s) && Law(f, m, f.zero, s) && Law(f, f.zero, m, s);
    if Balanced(f, l, gamma, table) {
      assert f.Add(s, m) == m;
      assert f.Add(f.Add(s, m), f.Neg(m)) == f.Add(s, f.Add(m, f.Neg(m)));
    }
  }

  /** (a - b) + b = a, and c = a + (b - a) */
  lemma SubAdd<T(!new)>(f: Field<T>, a: T, b: T)
    requires IsField(f)
    ensures f.Add(f.Sub(a, b), b) == a && f.Add(b, f.Sub(a, b)) == a
  {
    assert Law(f, a, f.Neg(b), b) && Law(f, b, f.Neg(b), b) && Law(f, f.Neg(b), b, b) && Law(f, a, a, a);
    assert Law(f, f.Sub(a, b), b, b);
  }

  // ----- The running sum -----

  /** the partial sums of the steps, from zero */
  ghost function RunningSum<T>(f: Field<T>, steps: seq<T>): (r: seq<T>)
    ensures |r| == |steps| && forall i :: 0 <= i < |r| ==> r[i] == Sum(f, steps[..i])
  {
    seq(|steps|, i requires 0 <= i < |steps| => Sum(f, steps[..i]))
  }

  lemma SumStep<T(!new)>(f: Field<T>, steps: seq<T>, i: nat)
    requires IsField(f) && i < |steps|
    ensures Sum(f, steps[..i + 1]) == f.Add(Sum(f, steps[..i]), steps[i])
  {
    assert steps[..i + 1] == steps[..i] + [steps[i]];
    SumAppend(f, steps[..i], [steps[i]]);
    SumOne(f, steps[i]);
  }

  function Successor(i: nat, n: nat): (r: nat)
    requires i < n
    ensures r == (i + 1) % n < n
  {
    if i + 1 < n then i + 1 else 0
  }

  /** z starts at zero and follows the steps around the cycle */
  ghost predicate Follows<T>(f: Field<T>, steps: seq<T>, z: seq<T>) {
    && |z| == |steps| > 0 && z[0] == f.zero
    && forall i: nat {:trigger Successor(i, |z|)} :: i < |z| ==> z[Successor(i, |z|)] == f.Add(z[i], steps[i])
  }

  /** such a z is the running sum */
  lemma {:induction false} FollowingIsRunning<T(!new)>(f: Field<T>, steps: seq<T>, z: seq<T>, i: nat)
    requires IsField(f) && Follows(f, steps, z) && i < |z|
    ensures z[i] == Sum(f, steps[..i])
  {
    if i > 0 {
      FollowingIsRunning(f, steps, z, i - 1);
      SumStep(f, steps, i - 1);
      assert z[Successor(i - 1, |z|)] == f.Add(z[i - 1], steps[i - 1]);
    }
  }

  /** a z closes the cycle exactly when it is the running sum and the steps sum to zero */
  lemma Telescope<T(!new)>(f: Field<T>, steps: seq<T>, z: seq<T>)
    requires IsField(f) && steps != []
    ensures Follows(f, steps, z) <==> z == RunningSum(f, steps) && Sum(f, steps) == f.zero
  {
    var n := |steps|;
    SumStep(f, steps, n - 1);
    assert steps[..n] == steps;
    if Follows(f, steps, z) {
      forall i: nat | i < n
        ensures z[i] == Sum(f, steps[..i])
      {
        FollowingIsRunning(f, steps, z, i);
      }
      assert z[Successor(n - 1, n)] == f.Add(z[n - 1], steps[n - 1]);
    } else if z == RunningSum(f, steps) && Sum(f, steps) == f.zero {
      forall i: nat | i < n
        ensures z[Successor(i, n)] == f.Add(z[i], steps[i])
      {
        SumStep(f, steps, i);
      }
    }
  }

  // ----- lookup_helper_columns -----

  /** The prover's columns; c is the constraint degree less one. The number of entries must stay below
      the characteristic. */
  method LookupHelperColumns<T(!new)>(f: Field<T>, l: Lookup<T>, table: seq<seq<T>>, gamma: T, c: nat,
                                      characteristic: nat)
    returns (columns: seq<seq<T>>)
    requires IsField(f) && IsTable(table) && LookupFits(l, |table|) && c > 0 && LookupRegular(f, l, gamma, table)
    requires |table[0]| * |l.columns| < characteristic
    ensures IsProverColumns(f, l, table, gamma, c, columns)
  {
    hide LookingAt, LookedAt, IsField, RunningSum;
    var n := |table[0]|;
    columns := GetHelperCols(f, table, Entries(l), LookupChallenge(f, gamma), c);
    ghost var helpers := columns;
    var tableVals := EvalAllRows(f, l.table, table);
    for i := 0 to n
      invariant |tableVals| == n && forall j :: 0 <= j < i ==> tableVals[j] == TableDen(f, l, gamma, table, j)
      invariant forall j :: i <= j < n ==> tableVals[j] == ColumnAt(f, l.table, table, j)
    {
      tableVals := tableVals[i := f.Add(gamma, tableVals[i])];
    }
    var tableInverse := BatchMultiplicativeInverse(f, tableVals);
    var frequencies := EvalAllRows(f, l.frequencies, table);
    ghost var steps := Steps(f, l, gamma, table);
    var z := [f.zero];
    for i := 0 to n - 1
      invariant |z| == i + 1 && forall j :: 0 <= j <= i ==> z[j] == Sum(f, steps[..j])
    {
      var x := f.Sub(Sum(f, Cells(columns, i)), f.Mul(frequencies[i], tableInverse[i]));
      StepOfRow(f, l, gamma, table, c, i, Cells(columns, i), tableInverse[i]);
      SumStep(f, steps, i);
      z := z + [f.Add(z[i], x)];
    }
    assert z == RunningSum(f, steps);
    columns := columns + [z];
    assert columns[..|columns| - 1] == helpers;
  }

  /** what the prover commits to: the batched ratios, then the running sum */
  ghost predicate IsProverColumns<T>(f: Field<T>, l: Lookup<T>, table: seq<seq<T>>, gamma: T, c: nat,
                                     columns: seq<seq<T>>)
    requires IsTable(table) && LookupFits(l, |table|) && c > 0
  {
    && |columns| == NumHelperColumns(l, c) && AllLong(columns, |table[0]|)
    && AllHelpersRight(f, l, table, gamma, c, columns[..|columns| - 1])
    && columns[|columns| - 1] == RunningSum(f, Steps(f, l, gamma, table))
  }

  lemma StepOfRow<T(!new)>(f: Field<T>, l: Lookup<T>, gamma: T, table: seq<seq<T>>, c: nat, i: nat, hs: seq<T>,
                           inverse: T)
    requires IsField(f) && IsTable(table) && LookupFits(l, |table|) && c > 0 && i < |table[0]|
    requires hs == ChunkSums(f, RatiosAt(f, LookupChallenge(f, gamma), Entries(l), table, i), c)
    requires f.Mul(inverse, TableDen(f, l, gamma, table, i)) == f.one
    ensures f.Sub(Sum(f, hs), f.Mul(ColumnAt(f, l.frequencies, table, i), inverse)) == Steps(f, l, gamma, table)[i]
  {
    ChunkSumsTotal(f, RatiosAt(f, LookupChallenge(f, gamma), Entries(l), table, i), c);
    var x := TableDen(f, l, gamma, table, i);
    assert Law(f, inverse, x, x);
    InverseIsUnique(f, x, inverse);
  }

  // ----- eval_packed_lookups_generic, for one lookup and one challenge -----

  function ZConstraint<T>(f: Field<T>, l: Lookup<T>, gamma: T, v: seq<T>, hs: seq<T>, z: T, nextZ: T): T
    requires LookupFits(l, |v|)
  {
    var tableWithChallenge := f.Add(EvalLocal(f, l.table, v), gamma);
    var y := f.Sub(f.Mul(Sum(f, hs), tableWithChallenge), EvalLocal(f, l.frequencies, v));
    f.Sub(f.Mul(f.Sub(nextZ, z), tableWithChallenge), y)
  }

  function LookupConstraints<T>(f: Field<T>, at: Filters<T>, l: Lookup<T>, gamma: T, v: seq<T>, nextV: seq<T>,
                                hs: seq<T>, z: T, nextZ: T, c: nat): seq<T>
    requires |nextV| == |v| && LookupFits(l, |v|) && 1 <= c <= 2 && |hs| == HelperCount(|l.columns|, c)
  {
    HelperConstraints(f, Nums(f, Entries(l), v, nextV), Dens(f, LookupChallenge(f, gamma), Entries(l), v, nextV), hs, c)
    + [f.Mul(z, at.first), ZConstraint(f, l, gamma, v, hs, z, nextZ)]
  }

  /** The verifier evaluates the table and the frequencies on the current row only, the prover with the
      next-row terms: they read the same lookup when there are no such terms. */
  predicate CurrentRowOnly<T>(l: Lookup<T>) { l.table.nextRow == [] && l.frequencies.nextRow == [] }

  /** the lookup as the verifier reads it */
  function Local<T>(l: Lookup<T>): (r: Lookup<T>)
    ensures CurrentRowOnly(r) && (CurrentRowOnly(l) ==> r == l)
    ensures forall width :: LookupFits(l, width) ==> LookupFits(r, width)
  {
    l.(table := l.table.(nextRow := []), frequencies := l.frequencies.(nextRow := []))
  }

  /** the constraints do not see the terms that are dropped */
  lemma SameConstraints<T>(f: Field<T>, at: Filters<T>, l: Lookup<T>, gamma: T, v: seq<T>, nextV: seq<T>,
                           hs: seq<T>, z: T, nextZ: T, c: nat)
    requires |nextV| == |v| && LookupFits(l, |v|) && 1 <= c <= 2 && |hs| == HelperCount(|l.columns|, c)
    ensures LookupConstraints(f, at, l, gamma, v, nextV, hs, z, nextZ, c)
         == LookupConstraints(f, at, Local(l), gamma, v, nextV, hs, z, nextZ, c)
  {
    assert Entries(Local(l)) == Entries(l);
  }

  lemma LocalIsWhole<T(!new)>(f: Field<T>, c: Column<T>, v: seq<T>, nextV: seq<T>)
    requires IsField(f) && ColumnFits(c, |v|) && |nextV| == |v| && c.nextRow == []
    ensures EvalLocal(f, c, v) == EvalWithNext(f, c, v, nextV)
  {
    assert Law(f, Combination(f, c.linear, v), f.zero, f.zero);
  }

  /** (z' - z) t - (s t - m) = 0 says that z' = z + (s - m / t) */
  lemma ZConstraintHolds<T(!new)>(f: Field<T>, z: T, nextZ: T, s: T, m: T, t: T)
    requires IsField(f) && t != f.zero
    ensures f.Sub(f.Mul(f.Sub(nextZ, z), t), f.Sub(f.Mul(s, t), m)) == f.zero
       <==> nextZ == f.Add(z, f.Sub(s, f.Mul(m, f.Inv(t))))
  {
    var q := f.Mul(m, f.Inv(t));
    var d, e := f.Sub(nextZ, z), f.Sub(s, q);
    SubZero(f, f.Mul(d, t), f.Sub(f.Mul(s, t), m));
    InvLaw(f, t);
    assert Law(f, m, f.Inv(t), t) && Law(f, m, f.one, f.one);
    assert f.Mul(q, t) == m;
    MulSub(f, t, s, q);
    assert Law(f, t, s, s) && Law(f, t, q, q) && Law(f, t, d, d) && Law(f, t, e, e);
    assert f.Mul(t, e) == f.Sub(f.Mul(s, t), m);
    SubAdd(f, nextZ, z);
    if f.Mul(d, t) == f.Sub(f.Mul(s, t), m) {
      Cancel(f, t, d, e);
    }
    if nextZ == f.Add(z, e) {
      SubOfSum(f, z, e);
    }
  }

  /** t (s - q) = t s - t q */
  lemma MulSub<T(!new)>(f: Field<T>, t: T, s: T, q: T)
    requires IsField(f)
    ensures f.Mul(t, f.Sub(s, q)) == f.Sub(f.Mul(t, s), f.Mul(t, q))
  {
    MulNeg(f, t, q);
    assert Law(f, t, s, f.Neg(q));
  }

  /** (a + b) - a = b */
  lemma SubOfSum<T(!new)>(f: Field<T>, a: T, b: T)
    requires IsField(f)
    ensures f.Sub(f.Add(a, b), a) == b
  {
    assert Law(f, a, b, b) && Law(f, b, a, f.Neg(a)) && Law(f, b, f.zero, b);
  }

  /** one row: the constraints hold exactly for the batched ratios and a z that takes the row's step */
  lemma LookupRow<T(!new)>(f: Field<T>, at: Filters<T>, l: Lookup<T>, gamma: T, table: seq<seq<T>>, i: nat,
                           hs: seq<T>, z: T, nextZ: T, c: nat)
    requires IsField(f) && IsTable(table) && LookupFits(l, |table|) && LookupRegular(f, l, gamma, table)
    requires CurrentRowOnly(l) && AtRow(f, at, i, |table[0]|) && 1 <= c <= 2 && |hs| == HelperCount(|l.columns|, c)
    ensures AllZero(f, LookupConstraints(f, at, l, gamma, Row(table, i), NextRow(table, i), hs, z, nextZ, c)) <==>
            && hs == ChunkSums(f, RatiosAt(f, LookupChallenge(f, gamma), Entries(l), table, i), c)
            && (i == 0 ==> z == f.zero)
            && nextZ == f.Add(z, Steps(f, l, gamma, table)[i])
  {
    var v, w, ch, es := Row(table, i), NextRow(table, i), LookupChallenge(f, gamma), Entries(l);
    var helper := HelperConstraints(f, Nums(f, es, v, w), Dens(f, ch, es, v, w), hs, c);
    var last := [f.Mul(z, at.first), ZConstraint(f, l, gamma, v, hs, z, nextZ)];
    AllZeroConcat(f, helper, last);
    RegularDens(f, ch, es, table, i);
    HelperConstraintsHold(f, Nums(f, es, v, w), Dens(f, ch, es, v, w), hs, c);
    FilteredConstraint(f, at, i, |table[0]|, z);
    assert AllZero(f, last) <==> last[0] == f.zero && last[1] == f.zero;
    if hs == ChunkSums(f, RatiosAt(f, ch, es, table, i), c) {
      LookupRowStep(f, l, gamma, table, i, hs, z, nextZ, c);
    }
  }

  lemma LookupRowStep<T(!new)>(f: Field<T>, l: Lookup<T>, gamma: T, table: seq<seq<T>>, i: nat, hs: seq<T>, z: T,
                               nextZ: T, c: nat)
    requires IsField(f) && IsTable(table) && LookupFits(l, |table|) && LookupRegular(f, l, gamma, table)
    requires CurrentRowOnly(l) && i < |table[0]| && c > 0
    requires hs == ChunkSums(f, RatiosAt(f, LookupChallenge(f, gamma), Entries(l), table, i), c)
    ensures ZConstraint(f, l, gamma, Row(table, i), hs, z, nextZ) == f.zero
            <==> nextZ == f.Add(z, Steps(f, l, gamma, table)[i])
  {
    var v, w := Row(table, i), NextRow(table, i);
    LocalIsWhole(f, l.table, v, w);
    LocalIsWhole(f, l.frequencies, v, w);
    assert Law(f, gamma, EvalLocal(f, l.table, v), gamma);
    ChunkSumsTotal(f, RatiosAt(f, LookupChallenge(f, gamma), Entries(l), table, i), c);
    ZConstraintHolds(f, z, nextZ, Sum(f, hs), EvalLocal(f, l.frequencies, v), TableDen(f, l, gamma, table, i));
  }

  // ----- All rows -----

  /** the cells of the columns on row i meet the constraints there */
  ghost predicate RowAccepted<T>(f: Field<T>, at: Filters<T>, l: Lookup<T>, gamma: T, table: seq<seq<T>>,
                                 helpers: seq<seq<T>>, z: seq<T>, c: nat, i: nat)
    requires IsTable(table) && LookupFits(l, |table|) && 1 <= c <= 2 && i < |table[0]|
    requires |helpers| == HelperCount(|l.columns|, c) && AllLong(helpers, |table[0]|) && |z| == |table[0]|
  {
    AllZero(f, LookupConstraints(f, at, l, gamma, Row(table, i), NextRow(table, i), Cells(helpers, i), z[i],
      z[Successor(i, |z|)], c))
  }

  /** the constraints vanish on every row, where `at` holds the filters of each row */
  ghost predicate Accepted<T>(f: Field<T>, at: seq<Filters<T>>, l: Lookup<T>, gamma: T, table: seq<seq<T>>,
                              columns: seq<seq<T>>, c: nat)
    requires IsTable(table) && LookupFits(l, |table|) && 1 <= c <= 2
    requires |at| == |table[0]| && |columns| == NumHelperColumns(l, c) && AllLong(columns, |table[0]|)
  {
    forall i: nat :: i < |table[0]| ==>
      RowAccepted(f, at[i], l, gamma, table, columns[..|columns| - 1], columns[|columns| - 1], c, i)
  }

  ghost predicate AtRows<T>(f: Field<T>, at: seq<Filters<T>>) {
    forall i :: 0 <= i < |at| ==> AtRow(f, at[i], i, |at|)
  }

  ghost predicate HelpersRight<T>(f: Field<T>, l: Lookup<T>, table: seq<seq<T>>, gamma: T, c: nat, helpers: seq<seq<T>>,
                                  i: nat)
    requires IsTable(table) && LookupFits(l, |table|) && c > 0 && i < |table[0]| && AllLong(helpers, |table[0]|)
  {
    Cells(helpers, i) == ChunkSums(f, RatiosAt(f, LookupChallenge(f, gamma), Entries(l), table, i), c)
  }

  ghost predicate AllHelpersRight<T>(f: Field<T>, l: Lookup<T>, table: seq<seq<T>>, gamma: T, c: nat,
                                     helpers: seq<seq<T>>)
    requires IsTable(table) && LookupFits(l, |table|) && c > 0 && AllLong(helpers, |table[0]|)
  {
    forall i: nat :: i < |table[0]| ==> HelpersRight(f, l, table, gamma, c, helpers, i)
  }

  lemma RowAcceptedIff<T(!new)>(f: Field<T>, at: Filters<T>, l: Lookup<T>, gamma: T, table: seq<seq<T>>,
                                helpers: seq<seq<T>>, z: seq<T>, c: nat, i: nat)
    requires IsField(f) && IsTable(table) && LookupFits(l, |table|) && LookupRegular(f, l, gamma, table)
    requires CurrentRowOnly(l) && 1 <= c <= 2 && i < |table[0]| && AtRow(f, at, i, |table[0]|)
    requires |helpers| == HelperCount(|l.columns|, c) && AllLong(helpers, |table[0]|) && |z| == |table[0]|
    ensures RowAccepted(f, at, l, gamma, table, helpers, z, c, i) <==>
            && HelpersRight(f, l, table, gamma, c, helpers, i)
            && (i == 0 ==> z[i] == f.zero)
            && z[Successor(i, |z|)] == f.Add(z[i], Steps(f, l, gamma, table)[i])
  {
    LookupRow(f, at, l, gamma, table, i, Cells(helpers, i), z[i], z[Successor(i, |z|)], c);
  }

  /** all rows together: the helper columns are right and the last column follows the steps */
  lemma RowsFollow<T(!new)>(f: Field<T>, at: seq<Filters<T>>, l: Lookup<T>, gamma: T, table: seq<seq<T>>,
                            columns: seq<seq<T>>, c: nat)
    requires IsField(f) && IsTable(table) && LookupFits(l, |table|) && LookupRegular(f, l, gamma, table)
    requires CurrentRowOnly(l) && 1 <= c <= 2 && |at| == |table[0]| && AtRows(f, at)
    requires |columns| == NumHelperColumns(l, c) && AllLong(columns, |table[0]|)
    ensures Accepted(f, at, l, gamma, table, columns, c) <==>
            && AllHelpersRight(f, l, table, gamma, c, columns[..|columns| - 1])
            && Follows(f, Steps(f, l, gamma, table), columns[|columns| - 1])
  {
    var n, helpers, z := |table[0]|, columns[..|columns| - 1], columns[|columns| - 1];
    var steps := Steps(f, l, gamma, table);
    forall i: nat | i < n
      ensures RowAccepted(f, at[i], l, gamma, table, helpers, z, c, i) <==>
              && HelpersRight(f, l, table, gamma, c, helpers, i)
              && (i == 0 ==> z[i] == f.zero)
              && z[Successor(i, |z|)] == f.Add(z[i], steps[i])
    {
      RowAcceptedIff(f, at[i], l, gamma, table, helpers, z, c, i);
    }
    hide RowAccepted, LookupRegular, LookupFits, HelpersRight, Successor;
    if Accepted(f, at, l, gamma, table, columns, c) {
      assert forall i: nat :: i < n ==> RowAccepted(f, at[i], l, gamma, table, helpers, z, c, i);
      assert RowAccepted(f, at[0], l, gamma, table, helpers, z, c, 0);
      assert Follows(f, steps, z);
    }
    if AllHelpersRight(f, l, table, gamma, c, helpers) && Follows(f, steps, z) {
      assert forall i: nat :: i < n ==> RowAccepted(f, at[i], l, gamma, table, helpers, z, c, i);
    }
  }

  /** without next-row terms, accepted columns are the prover's, and the identity holds */
  lemma CurrentRowAccepted<T(!new)>(f: Field<T>, at: seq<Filters<T>>, l: Lookup<T>, gamma: T, table: seq<seq<T>>,
                                    columns: seq<seq<T>>, c: nat)
    requires IsField(f) && IsTable(table) && LookupFits(l, |table|) && LookupRegular(f, l, gamma, table)
    requires CurrentRowOnly(l) && 1 <= c <= 2 && |at| == |table[0]| && AtRows(f, at)
    requires |columns| == NumHelperColumns(l, c) && AllLong(columns, |table[0]|)
    ensures Accepted(f, at, l, gamma, table, columns, c) <==>
            IsProverColumns(f, l, table, gamma, c, columns) && Balanced(f, l, gamma, table)
  {
    hide LookupFits, Accepted, LookupRegular, Balanced, RunningSum, Follows, IsField, AllHelpersRight;
    RowsFollow(f, at, l, gamma, table, columns, c);
    Telescope(f, Steps(f, l, gamma, table), columns[|columns| - 1]);
    StepsSum(f, l, gamma, table);
  }

  /** The constraints accept exactly the prover's columns for the lookup that the verifier reads, and these
      exactly when the identity holds: so any accepted columns prove the identity, and the identity makes the
      columns accepted. */
  lemma LookupAccepted<T(!new)>(f: Field<T>, at: seq<Filters<T>>, l: Lookup<T>, gamma: T, table: seq<seq<T>>,
                                columns: seq<seq<T>>, c: nat)
    requires IsField(f) && IsTable(table) && LookupFits(l, |table|) && LookupRegular(f, Local(l), gamma, table)
    requires 1 <= c <= 2 && |at| == |table[0]| && AtRows(f, at)
    requires |columns| == NumHelperColumns(l, c) && AllLong(columns, |table[0]|)
    ensures Accepted(f, at, l, gamma, table, columns, c) <==>
            IsProverColumns(f, Local(l), table, gamma, c, columns) && Balanced(f, Local(l), gamma, table)
  {
    CurrentRowAccepted(f, at, Local(l), gamma, table, columns, c);
    var helpers, z := columns[..|columns| - 1], columns[|columns| - 1];
    hide LookupConstraints, IsProverColumns, Balanced, LookupFits, LookupRegular, AllZero;
    forall i: nat | i < |table[0]|
      ensures RowAccepted(f, at[i], l, gamma, table, helpers, z, c, i)
         <==> RowAccepted(f, at[i], Local(l), gamma, table, helpers, z, c, i)
    {
      SameConstraints(f, at[i], l, gamma, Row(table, i), NextRow(table, i), Cells(helpers, i), z[i],
        z[Successor(i, |z|)], c);
    }
    hide RowAccepted;
    if Accepted(f, at, l, gamma, table, columns, c) {
      assert forall i: nat :: i < |table[0]| ==> RowAccepted(f, at[i], l, gamma, table, helpers, z, c, i);
    }
    if Accepted(f, at, Local(l), gamma, table, columns, c) {
      assert forall i: nat :: i < |table[0]| ==> RowAccepted(f, at[i], Local(l), gamma, table, helpers, z, c, i);
    }
  }

  // ----- Next-row terms -----

  /** the prover's and the verifier's m / t agree on row i, without dividing */
  ghost predicate RowAgrees<T>(f: Field<T>, l: Lookup<T>, gamma: T, table: seq<seq<T>>, i: nat)
    requires IsTable(table) && LookupFits(l, |table|) && i < |table[0]|
  {
    f.Mul(ColumnAt(f, l.frequencies, table, i), TableDen(f, Local(l), gamma, table, i))
    == f.Mul(ColumnAt(f, Local(l).frequencies, table, i), TableDen(f, l, gamma, table, i))
  }

  /** The columns that the prover builds are accepted exactly when the lookup that the verifier reads is
      balanced and the next-row terms make no difference on any row but the last. */
  lemma ProverAcceptedIff<T(!new)>(f: Field<T>, at: seq<Filters<T>>, l: Lookup<T>, gamma: T, table: seq<seq<T>>,
                                   columns: seq<seq<T>>, c: nat)
    requires IsField(f) && IsTable(table) && LookupFits(l, |table|)
    requires LookupRegular(f, l, gamma, table) && LookupRegular(f, Local(l), gamma, table)
    requires 1 <= c <= 2 && |at| == |table[0]| && AtRows(f, at) && IsProverColumns(f, l, table, gamma, c, columns)
    ensures Accepted(f, at, l, gamma, table, columns, c) <==>
            && Balanced(f, Local(l), gamma, table)
            && forall i: nat :: i + 1 < |table[0]| ==> RowAgrees(f, l, gamma, table, i)
  {
    var s, t := Steps(f, l, gamma, table), Steps(f, Local(l), gamma, table);
    LookupAccepted(f, at, l, gamma, table, columns, c);
    SameHelpers(f, l, table, gamma, c, columns[..|columns| - 1]);
    RunningAgrees(f, s, t);
    forall i: nat | i < |table[0]|
      ensures s[i] == t[i] <==> RowAgrees(f, l, gamma, table, i)
    {
      StepAgrees(f, l, gamma, table, i);
    }
    hide Accepted, Balanced, LookupFits, LookupRegular, Steps, RunningSum, RowAgrees, AllHelpersRight;
  }

  lemma SameHelpers<T>(f: Field<T>, l: Lookup<T>, table: seq<seq<T>>, gamma: T, c: nat, helpers: seq<seq<T>>)
    requires IsTable(table) && LookupFits(l, |table|) && c > 0 && AllLong(helpers, |table[0]|)
    ensures AllHelpersRight(f, l, table, gamma, c, helpers) <==> AllHelpersRight(f, Local(l), table, gamma, c, helpers)
  {
    assert Entries(Local(l)) == Entries(l);
    hide LookupFits, ChunkSums;
    assert forall i: nat :: i < |table[0]| ==>
      (HelpersRight(f, l, table, gamma, c, helpers, i) <==> HelpersRight(f, Local(l), table, gamma, c, helpers, i));
    hide HelpersRight;
  }

  /** running sums leave the last step out */
  lemma RunningAgrees<T(!new)>(f: Field<T>, s: seq<T>, t: seq<T>)
    requires IsField(f) && |s| == |t|
    ensures RunningSum(f, s) == RunningSum(f, t) <==> forall i: nat :: i + 1 < |s| ==> s[i] == t[i]
  {
    if RunningSum(f, s) == RunningSum(f, t) {
      forall i: nat | i + 1 < |s|
        ensures s[i] == t[i]
      {
        SumStep(f, s, i);
        SumStep(f, t, i);
        assert RunningSum(f, s)[i] == RunningSum(f, t)[i] && RunningSum(f, s)[i + 1] == RunningSum(f, t)[i + 1];
        SubOfSum(f, Sum(f, s[..i]), s[i]);
        SubOfSum(f, Sum(f, t[..i]), t[i]);
      }
    } else if forall i: nat :: i + 1 < |s| ==> s[i] == t[i] {
      forall i: nat | i < |s|
        ensures RunningSum(f, s)[i] == RunningSum(f, t)[i]
      {
        assert s[..i] == t[..i];
      }
    }
  }

  lemma StepAgrees<T(!new)>(f: Field<T>, l: Lookup<T>, gamma: T, table: seq<seq<T>>, i: nat)
    requires IsField(f) && IsTable(table) && LookupFits(l, |table|) && i < |table[0]|
    requires TableDen(f, l, gamma, table, i) != f.zero && TableDen(f, Local(l), gamma, table, i) != f.zero
    ensures Steps(f, l, gamma, table)[i] == Steps(f, Local(l), gamma, table)[i] <==> RowAgrees(f, l, gamma, table, i)
  {
    assert Entries(Local(l)) == Entries(l);
    var s, a, b := LookingAt(f, l, gamma, table, i), LookedAt(f, l, gamma, table, i),
      LookedAt(f, Local(l), gamma, table, i);
    assert LookingAt(f, Local(l), gamma, table, i) == s;
    hide LookingAt, LookedAt, LookupFits;
    SameDifference(f, s, a, b);
    SameQuotient(f, ColumnAt(f, l.frequencies, table, i), TableDen(f, l, gamma, table, i),
                 ColumnAt(f, Local(l).frequencies, table, i), TableDen(f, Local(l), gamma, table, i));
  }

  lemma SameDifference<T(!new)>(f: Field<T>, s: T, a: T, b: T)
    requires IsField(f)
    ensures f.Sub(s, a) == f.Sub(s, b) <==> a == b
  {
    if f.Sub(s, a) == f.Sub(s, b) {
      SubOfSum(f, s, f.Neg(a));
      SubOfSum(f, s, f.Neg(b));
      assert Law(f, a, f.Neg(a), b) && Law(f, b, f.Neg(b), a);
      NegIsUnique(f, f.Neg(a), a);
      NegIsUnique(f, f.Neg(a), b);
    }
  }

  /** m / t = m' / t' says that m t' = m' t */
  lemma SameQuotient<T(!new)>(f: Field<T>, m: T, t: T, m': T, t': T)
    requires IsField(f) && t != f.zero && t' != f.zero
    ensures f.Mul(m, f.Inv(t)) == f.Mul(m', f.Inv(t')) <==> f.Mul(m, t') == f.Mul(m', t)
  {
    var q, q' := f.Mul(m, f.Inv(t)), f.Mul(m', f.Inv(t'));
    TimesDenominators(f, m, t, t');
    TimesDenominators(f, m', t', t);
    assert Law(f, t, t', t);
    var d := f.Mul(t, t');
    NoZeroDivisors(f, t, t');
    assert Law(f, d, q, q') && Law(f, d, q', q);
    if f.Mul(m, t') == f.Mul(m', t) {
      Cancel(f, d, q, q');
    }
  }

  /** (m / t) (t u) = m u */
  lemma TimesDenominators<T(!new)>(f: Field<T>, m: T, t: T, u: T)
    requires IsField(f) && t != f.zero
    ensures f.Mul(f.Mul(m, f.Inv(t)), f.Mul(t, u)) == f.Mul(m, u)
  {
    var q := f.Mul(m, f.Inv(t));
    InvLaw(f, t);
    assert Law(f, q, t, u) && Law(f, m, f.Inv(t), t) && Law(f, m, f.one, m);
    assert f.Mul(q, t) == m;
  }

  /** A table column of the next row breaks the agreement: looked up in itself, any nonzero cell gives
      columns that balance, and that the verifier still rejects. */
  lemma NextRowTableIsRejected<T(!new)>(f: Field<T>, at: Filters<T>, x: T, gamma: T)
    requires IsField(f) && AtRow(f, at, 0, 1) && x != f.zero && f.Add(x, gamma) != f.zero
    ensures var l := NextRowLookup(f); var table := [[x]];
            && IsTable(table) && LookupFits(l, 1) && LookupRegular(f, l, gamma, table) && Balanced(f, l, gamma, table)
            && forall columns :: IsProverColumns(f, l, table, gamma, 1, columns) ==>
               !Accepted(f, [at], l, gamma, table, columns, 1)
  {
    var l, table := NextRowLookup(f), [[x]];
    NextRowValues(f, x, gamma);
    var q := f.Mul(f.Inv(f.Add(x, gamma)), f.one);
    SumOne(f, q);
    assert LookingSums(f, l, gamma, table) == [q] && LookedSums(f, l, gamma, table) == [q];
    forall columns | IsProverColumns(f, l, table, gamma, 1, columns)
      ensures !Accepted(f, [at], l, gamma, table, columns, 1)
    {
      var hs, z := Cells(columns[..|columns| - 1], 0), columns[|columns| - 1];
      assert z == [f.zero];
      assert HelpersRight(f, l, table, gamma, 1, columns[..|columns| - 1], 0);
      var all := LookupConstraints(f, at, l, gamma, Row(table, 0), NextRow(table, 0), hs, z[0], z[Successor(0, 1)], 1);
      assert all[|all| - 1] == ZConstraint(f, l, gamma, [x], hs, f.zero, f.zero);
      ChunkSumsTotal(f, RatiosAt(f, LookupChallenge(f, gamma), Entries(l), table, 0), 1);
      NextRowConstraint(f, x, gamma, hs);
      assert !RowAccepted(f, [at][0], l, gamma, table, columns[..|columns| - 1], z, 1, 0);
    }
  }

  /** one looking column, the next-row cell as the table, and the frequency one */
  function NextRowLookup<T>(f: Field<T>): Lookup<T> {
    var one := Column([], [], f.one);
    Lookup([Column([(0, f.one)], [], f.zero)], Column([], [(0, f.one)], f.zero), one, [Filter([], [one])])
  }

  lemma NextRowValues<T(!new)>(f: Field<T>, x: T, gamma: T)
    requires IsField(f) && f.Add(x, gamma) != f.zero
    ensures var l := NextRowLookup(f); var table := [[x]];
            && IsTable(table) && LookupFits(l, 1) && Row(table, 0) == [x] && LookupRegular(f, l, gamma, table)
            && TableDen(f, l, gamma, table, 0) == f.Add(x, gamma) && ColumnAt(f, l.frequencies, table, 0) == f.one
            && RatiosAt(f, LookupChallenge(f, gamma), Entries(l), table, 0) == [f.Mul(f.Inv(f.Add(x, gamma)), f.one)]
            && LookingAt(f, l, gamma, table, 0) == f.Mul(f.Inv(f.Add(x, gamma)), f.one)
            && LookedAt(f, l, gamma, table, 0) == f.Mul(f.Inv(f.Add(x, gamma)), f.one)
  {
    var l, table := NextRowLookup(f), [[x]];
    assert Row(table, 0) == [x] && NextRow(table, 0) == [x];
    var term := [(0, f.one)];
    assert term[..0] == [];
    assert Law(f, f.zero, f.Mul(x, f.one), f.zero) && Law(f, x, f.zero, f.zero) && Law(f, f.zero, x, f.zero);
    assert Combination(f, term, [x]) == x by {
      assert Combination(f, term[..0], [x]) == f.zero;
      assert Law(f, f.zero, x, x) && Law(f, x, x, x);
    }
    assert Law(f, f.zero, f.zero, f.zero) && Law(f, f.one, f.zero, f.zero) && Law(f, f.zero, f.one, f.one);
    var e := Entries(l)[0];
    assert ColumnAt(f, e.columns[0], table, 0) == x && ColumnAt(f, l.table, table, 0) == x;
    assert ColumnAt(f, l.frequencies, table, 0) == f.one;
    assert e.filter.constants[..0] == [];
    assert ColumnSum(f, e.filter.constants, [x], [x]) == f.one;
    assert FilterAt(f, e.filter, table, 0) == f.one;
    SingleColumn(f, LookupChallenge(f, gamma), e, table, 0);
    assert Law(f, gamma, x, x) && Law(f, f.one, f.Inv(f.Add(x, gamma)), x);
    var ratios := RatiosAt(f, LookupChallenge(f, gamma), Entries(l), table, 0);
    assert ratios == [f.Mul(f.Inv(f.Add(x, gamma)), f.one)];
    SumOne(f, ratios[0]);
  }

  lemma NextRowConstraint<T(!new)>(f: Field<T>, x: T, gamma: T, hs: seq<T>)
    requires IsField(f) && x != f.zero && f.Add(x, gamma) != f.zero
    requires Sum(f, hs) == f.Mul(f.Inv(f.Add(x, gamma)), f.one)
    ensures LookupFits(NextRowLookup(f), 1) && ZConstraint(f, NextRowLookup(f), gamma, [x], hs, f.zero,
            f.zero) != f.zero
  {
    var t := f.Add(x, gamma);
    var q := Sum(f, hs);
    assert Law(f, f.zero, f.zero, f.zero) && Law(f, gamma, f.zero, gamma) && Law(f, f.one, f.zero, f.zero)
      && Law(f, f.zero, f.one, f.one);
    assert Law(f, f.zero, gamma, gamma) && Law(f, f.Inv(t), f.one, f.one);
    InvLaw(f, t);
    SubZero(f, f.zero, f.zero);
    MulZero(f, gamma);
    assert f.Mul(f.zero, gamma) == f.zero;
    SubZero(f, f.zero, f.Sub(f.Mul(q, gamma), f.one));
    SubZero(f, f.Mul(q, gamma), f.one);
    assert Law(f, q, t, t);
    assert t != gamma by {
      assert Law(f, x, gamma, f.Neg(gamma)) && Law(f, gamma, x, x) && Law(f, x, x, x);
    }
    if f.Mul(q, gamma) == f.one {
      InverseIsUnique(f, q, gamma);
      InverseIsUnique(f, q, t);
    }
  }
}
