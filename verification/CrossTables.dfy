/** Cross-table lookups, one table at a time: the partial sums that the prover builds upside down, and the
    constraints that the verifier evaluates on them. */
module CrossTables {
  import opened Columns
  import opened ConstraintConsumers
  import opened Fields
  import opened HelperColumns
  import opened Lookups
  import opened Reversal

  /** the sums of all ratios of each row */
  ghost function RowTotals<T>(f: Field<T>, ch: Challenge<T>, es: seq<Entry<T>>, table: seq<seq<T>>): (r: seq<T>)
    requires IsTable(table) && EntriesFit(es, |table|)
    ensures |r| == |table[0]| && forall i :: 0 <= i < |r| ==> r[i] == Sum(f, RatiosAt(f, ch, es, table, i))
  {
    seq(|table[0]|, i requires 0 <= i < |table[0]| => Sum(f, RatiosAt(f, ch, es, table, i)))
  }

  /** the sum over the whole table */
  ghost function TableTotal<T>(f: Field<T>, ch: Challenge<T>, es: seq<Entry<T>>, table: seq<seq<T>>): T
    requires IsTable(table) && EntriesFit(es, |table|)
  {
    Sum(f, RowTotals(f, ch, es, table))
  }

  /** the sums from each row to the last */
  ghost function SuffixSums<T>(f: Field<T>, totals: seq<T>): (r: seq<T>)
    ensures |r| == |totals| && forall i :: 0 <= i < |r| ==> r[i] == Sum(f, totals[i..])
  {
    seq(|totals|, i requires 0 <= i < |totals| => Sum(f, totals[i..]))
  }

  lemma SuffixStep<T(!new)>(f: Field<T>, totals: seq<T>, i: nat)
    requires IsField(f) && i < |totals|
    ensures Sum(f, totals[i..]) == f.Add(Sum(f, totals[i + 1..]), totals[i])
  {
    assert totals[i..][1..] == totals[i + 1..];
    assert Law(f, totals[i], Sum(f, totals[i + 1..]), f.zero);
  }

  /** what `partial_sums` returns: helper columns only if there is more than one entry, then Z */
  ghost predicate ArePartialSums<T>(f: Field<T>, ch: Challenge<T>, es: seq<Entry<T>>, table: seq<seq<T>>, c: nat,
                                    helpers: seq<seq<T>>, z: seq<T>)
    requires IsTable(table) && EntriesFit(es, |table|) && c > 0
  {
    && z == SuffixSums(f, RowTotals(f, ch, es, table))
    && |helpers| == (if |es| > 1 then HelperCount(|es|, c) else 0) && AllLong(helpers, |table[0]|)
    && (|es| > 1 ==> CtlHelpersRight(f, ch, es, table, c, helpers))
  }

  ghost predicate CtlHelpersRight<T>(f: Field<T>, ch: Challenge<T>, es: seq<Entry<T>>, table: seq<seq<T>>, c: nat,
                                     helpers: seq<seq<T>>)
    requires IsTable(table) && EntriesFit(es, |table|) && c > 0 && AllLong(helpers, |table[0]|)
  {
    forall i :: 0 <= i < |table[0]| ==> Cells(helpers, i) == ChunkSums(f, RatiosAt(f, ch, es, table, i), c)
  }

  /** `partial_sums`; c is the constraint degree less one */
  method PartialSums<T(!new)>(f: Field<T>, table: seq<seq<T>>, es: seq<Entry<T>>, ch: Challenge<T>, c: nat)
    returns (helpers: seq<seq<T>>, z: seq<T>)
    requires IsField(f) && IsTable(table) && EntriesFit(es, |table|) && c > 0 && AllRegular(f, ch, es, table)
    ensures ArePartialSums(f, ch, es, table, c, helpers, z)
  {
    hide RatiosAt, IsField, EntryFits, Regular, ChunkSums, Sum;
    var degree := |table[0]|;
    helpers := GetHelperCols(f, table, es, ch, c);
    ghost var totals := RowTotals(f, ch, es, table);
    forall i | 0 <= i < degree
      ensures Sum(f, Cells(helpers, i)) == totals[i]
    {
      ChunkSumsTotal(f, RatiosAt(f, ch, es, table, i), c);
    }
    z := [Sum(f, Cells(helpers, degree - 1))];
    SuffixStart(f, totals);
    for i := degree - 1 downto 0
      invariant |z| == degree - i && forall j :: 0 <= j < |z| ==> z[j] == Sum(f, totals[degree - 1 - j..])
    {
      var x := Sum(f, Cells(helpers, i));
      SuffixStep(f, totals, i);
      z := z + [f.Add(z[|z| - 1], x)];
    }
    ghost var upsideDown := z;
    z := Reversed(z);
    forall i: nat | i < degree
      ensures z[i] == Sum(f, totals[i..])
    {
      ReversedAt(upsideDown, i);
    }
    assert z == SuffixSums(f, totals);
    if |es| <= 1 {
      helpers := [];
    }
  }

  lemma SuffixStart<T(!new)>(f: Field<T>, totals: seq<T>)
    requires IsField(f) && totals != []
    ensures Sum(f, totals[|totals| - 1..]) == totals[|totals| - 1]
  {
    assert totals[|totals| - 1..] == [totals[|totals| - 1]];
    SumOne(f, totals[|totals| - 1]);
  }

  // ----- eval_cross_table_lookup_checks -----

  /** `CtlCheckVars` at one point */
  datatype CtlVars<T> = CtlVars(helpers: seq<T>, localZ: T, nextZ: T, challenge: Challenge<T>, es: seq<Entry<T>>)

  /** helper openings for more than one entry, or none at all */
  predicate VarsFit<T>(x: CtlVars<T>, width: nat, c: nat)
    requires c > 0
  {
    && EntriesFit(x.es, width) && |x.es| > 0
    && (x.helpers != [] ==> |x.helpers| == HelperCount(|x.es|, c))
  }

  function CtlConstraints<T>(f: Field<T>, at: Filters<T>, x: CtlVars<T>, v: seq<T>, nextV: seq<T>, c: nat): seq<T>
    requires |nextV| == |v| && 1 <= c <= 2 && VarsFit(x, |v|, c)
  {
    var dens, nums := Dens(f, x.challenge, x.es, v, nextV), Nums(f, x.es, v, nextV);
    var dz := f.Sub(x.localZ, x.nextZ);
    if x.helpers != [] then
      HelperConstraints(f, nums, dens, x.helpers, c)
      + [f.Mul(f.Sub(x.localZ, Sum(f, x.helpers)), at.last), f.Mul(f.Sub(dz, Sum(f, x.helpers)), at.zLast)]
    else if |x.es| > 1 then
      var p := f.Mul(dens[0], dens[1]);
      [f.Mul(f.Sub(f.Sub(f.Mul(p, x.localZ), f.Mul(nums[0], dens[1])), f.Mul(nums[1], dens[0])), at.last),
       f.Mul(f.Sub(f.Sub(f.Mul(p, dz), f.Mul(nums[0], dens[1])), f.Mul(nums[1], dens[0])), at.zLast)]
    else
      [f.Mul(f.Sub(f.Mul(dens[0], x.localZ), nums[0]), at.last), f.Mul(f.Sub(f.Mul(dens[0], dz), nums[0]), at.zLast)]
  }

  method EvalCrossTableLookupChecks<T(!new)>(consumer: ConstraintConsumer<T>, ctlVars: seq<CtlVars<T>>, v: seq<T>,
                                             nextV: seq<T>, c: nat)
    requires consumer.Valid() && |nextV| == |v| && 1 <= c <= 2
    requires forall k :: 0 <= k < |ctlVars| ==> VarsFit(ctlVars[k], |v|, c)
    modifies consumer
    ensures consumer.Valid()
    ensures consumer.emitted == old(consumer.emitted) + AllCtlConstraints(consumer.f, consumer.at, ctlVars, v, nextV, c)
  {
    hide CtlConstraints, VarsFit, AllCtlConstraints;
    ghost var start := consumer.emitted;
    AllCtlConstraintsNone(consumer.f, consumer.at, v, nextV, c);
    assert ctlVars[..0] == [] && start + [] == start;
    for k := 0 to |ctlVars|
      invariant consumer.Valid()
      invariant consumer.emitted == start + AllCtlConstraints(consumer.f, consumer.at, ctlVars[..k], v, nextV, c)
    {
      AllCtlConstraintsStep(consumer.f, consumer.at, ctlVars, k, v, nextV, c, start);
      EvalOneCheck(consumer, ctlVars[k], v, nextV, c);
    }
    assert ctlVars[..|ctlVars|] == ctlVars;
  }

  lemma AllCtlConstraintsNone<T>(f: Field<T>, at: Filters<T>, v: seq<T>, nextV: seq<T>, c: nat)
    requires |nextV| == |v| && 1 <= c <= 2
    ensures AllCtlConstraints(f, at, [], v, nextV, c) == []
  {
  }

  lemma AllCtlConstraintsStep<T>(f: Field<T>, at: Filters<T>, xs: seq<CtlVars<T>>, k: nat, v: seq<T>, nextV: seq<T>,
                                 c: nat, start: seq<T>)
    requires |nextV| == |v| && 1 <= c <= 2 && k < |xs| && forall k :: 0 <= k < |xs| ==> VarsFit(xs[k], |v|, c)
    ensures start + AllCtlConstraints(f, at, xs[..k + 1], v, nextV, c) ==
            (start + AllCtlConstraints(f, at, xs[..k], v, nextV, c)) + CtlConstraints(f, at, xs[k], v, nextV, c)
  {
    hide CtlConstraints, VarsFit;
    assert xs[..k + 1][..k] == xs[..k];
    assert AllCtlConstraints(f, at, xs[..k + 1], v, nextV, c) ==
           AllCtlConstraints(f, at, xs[..k], v, nextV, c) + CtlConstraints(f, at, xs[k], v, nextV, c);
  }

  ghost function AllCtlConstraints<T>(f: Field<T>, at: Filters<T>, xs: seq<CtlVars<T>>, v: seq<T>, nextV: seq<T>,
                                      c: nat): seq<T>
    requires |nextV| == |v| && 1 <= c <= 2 && forall k :: 0 <= k < |xs| ==> VarsFit(xs[k], |v|, c)
  {
    if xs == [] then []
    else AllCtlConstraints(f, at, xs[..|xs| - 1], v, nextV, c) + CtlConstraints(f, at, xs[|xs| - 1], v, nextV, c)
  }

  /** the constraints of one Z */
  method EvalOneCheck<T(!new)>(consumer: ConstraintConsumer<T>, x: CtlVars<T>, v: seq<T>, nextV: seq<T>, c: nat)
    requires consumer.Valid() && |nextV| == |v| && 1 <= c <= 2 && VarsFit(x, |v|, c)
    modifies consumer
    ensures consumer.Valid()
    ensures consumer.emitted == old(consumer.emitted) + CtlConstraints(consumer.f, consumer.at, x, v, nextV, c)
  {
    var f := consumer.f;
    var dens := Dens(f, x.challenge, x.es, v, nextV);
    var nums := Nums(f, x.es, v, nextV);
    var dz := f.Sub(x.localZ, x.nextZ);
    hide Dens, Nums, HelperConstraints, Sum;
    ghost var before := consumer.emitted;
    if x.helpers != [] {
      ConstrainHelperColumns(consumer, nums, dens, x.helpers, c);
      ghost var middle := consumer.emitted;
      var hSum := Sum(f, x.helpers);
      consumer.ConstraintLastRow(f.Sub(x.localZ, hSum));
      consumer.ConstraintTransition(f.Sub(dz, hSum));
      assert consumer.emitted == middle + [f.Mul(f.Sub(x.localZ, hSum), consumer.at.last),
        f.Mul(f.Sub(dz, hSum), consumer.at.zLast)];
    } else if |x.es| > 1 {
      var p := f.Mul(dens[0], dens[1]);
      consumer.ConstraintLastRow(f.Sub(f.Sub(f.Mul(p, x.localZ), f.Mul(nums[0], dens[1])), f.Mul(nums[1], dens[0])));
      consumer.ConstraintTransition(f.Sub(f.Sub(f.Mul(p, dz), f.Mul(nums[0], dens[1])), f.Mul(nums[1], dens[0])));
      assert consumer.emitted == before + CtlConstraints(f, consumer.at, x, v, nextV, c);
    } else {
      consumer.ConstraintLastRow(f.Sub(f.Mul(dens[0], x.localZ), nums[0]));
      consumer.ConstraintTransition(f.Sub(f.Mul(dens[0], dz), nums[0]));
      assert consumer.emitted == before + CtlConstraints(f, consumer.at, x, v, nextV, c);
    }
  }

  // ----- One Z over all rows -----

  /** a - b = h says a = b + h */
  lemma DifferenceIs<T(!new)>(f: Field<T>, a: T, b: T, h: T)
    requires IsField(f)
    ensures f.Sub(f.Sub(a, b), h) == f.zero <==> a == f.Add(b, h)
    ensures f.Sub(a, b) == h <==> a == f.Add(b, h)
  {
    SubZero(f, f.Sub(a, b), h);
    SubAdd(f, a, b);
    if a == f.Add(b, h) {
      SubOfSum(f, b, h);
    }
  }

  /** the openings of Z and its helpers on row i */
  ghost function VarsAt<T>(ch: Challenge<T>, es: seq<Entry<T>>, helpers: seq<seq<T>>, z: seq<T>, i: nat): CtlVars<T>
    requires i < |z| && AllLong(helpers, |z|)
  {
    CtlVars(Cells(helpers, i), z[i], z[Successor(i, |z|)], ch, es)
  }

  /** a Z with helpers for more than one entry, or without for one */
  ghost predicate ZShape<T>(es: seq<Entry<T>>, table: seq<seq<T>>, helpers: seq<seq<T>>, z: seq<T>, c: nat)
    requires c > 0
  {
    && IsTable(table) && EntriesFit(es, |table|) && |es| > 0 && |z| == |table[0]| && AllLong(helpers, |z|)
    && |helpers| == if |es| > 1 then HelperCount(|es|, c) else 0
  }

  lemma CtlRow<T(!new)>(f: Field<T>, at: Filters<T>, ch: Challenge<T>, es: seq<Entry<T>>, table: seq<seq<T>>,
                        helpers: seq<seq<T>>, z: seq<T>, c: nat, i: nat)
    requires IsField(f) && 1 <= c <= 2 && ZShape(es, table, helpers, z, c) && AllRegular(f, ch, es, table)
    requires i < |z| && AtRow(f, at, i, |z|)
    ensures VarsFit(VarsAt(ch, es, helpers, z, i), |table|, c)
    ensures AllZero(f, CtlConstraints(f, at, VarsAt(ch, es, helpers, z, i), Row(table, i), NextRow(table, i), c)) <==>
            && (|es| > 1 ==> Cells(helpers, i) == ChunkSums(f, RatiosAt(f, ch, es, table, i), c))
            && z[i] == if i == |z| - 1 then RowTotals(f, ch, es, table)[i]
               else f.Add(z[i + 1], RowTotals(f, ch, es, table)[i])
  {
    var x := VarsAt(ch, es, helpers, z, i);
    HelperCountStep(|es|, c);
    assert x.helpers != [] <==> |es| > 1;
    if |es| > 1 {
      CtlRowOfMany(f, at, x, table, c, i);
    } else {
      CtlRowOfOne(f, at, x, table, c, i);
    }
  }

  lemma CtlRowOfOne<T(!new)>(f: Field<T>, at: Filters<T>, x: CtlVars<T>, table: seq<seq<T>>, c: nat, i: nat)
    requires IsField(f) && 1 <= c <= 2 && IsTable(table) && VarsFit(x, |table|, c)
             && AllRegular(f, x.challenge, x.es, table)
    requires |x.es| == 1 && x.helpers == [] && i < |table[0]| && AtRow(f, at, i, |table[0]|)
    ensures AllZero(f, CtlConstraints(f, at, x, Row(table, i), NextRow(table, i), c)) <==>
            x.localZ == (var t := RowTotals(f, x.challenge, x.es, table)[i];
              if i == |table[0]| - 1 then t else f.Add(x.nextZ, t))
  {
    var v, w, n := Row(table, i), NextRow(table, i), |table[0]|;
    var den, num := Dens(f, x.challenge, x.es, v, w)[0], Nums(f, x.es, v, w)[0];
    var dz := f.Sub(x.localZ, x.nextZ);
    RegularDens(f, x.challenge, x.es, table, i);
    var q := f.Mul(f.Inv(den), num);
    assert RatiosAt(f, x.challenge, x.es, table, i) == [q];
    SumOne(f, q);
    ConstraintOfOne(f, den, num, x.localZ);
    ConstraintOfOne(f, den, num, dz);
    DifferenceIs(f, x.localZ, x.nextZ, q);
    FilteredConstraint(f, at, i, n, f.Sub(f.Mul(den, x.localZ), num));
    FilteredConstraint(f, at, i, n, f.Sub(f.Mul(den, dz), num));
    var all := CtlConstraints(f, at, x, v, w, c);
    assert AllZero(f, all) <==> all[0] == f.zero && all[1] == f.zero;
  }

  lemma CtlRowOfMany<T(!new)>(f: Field<T>, at: Filters<T>, x: CtlVars<T>, table: seq<seq<T>>, c: nat, i: nat)
    requires IsField(f) && 1 <= c <= 2 && IsTable(table) && VarsFit(x, |table|, c)
             && AllRegular(f, x.challenge, x.es, table)
    requires x.helpers != [] && i < |table[0]| && AtRow(f, at, i, |table[0]|)
    ensures AllZero(f, CtlConstraints(f, at, x, Row(table, i), NextRow(table, i), c)) <==>
            && x.helpers == ChunkSums(f, RatiosAt(f, x.challenge, x.es, table, i), c)
            && x.localZ == (var t := RowTotals(f, x.challenge, x.es, table)[i];
               if i == |table[0]| - 1 then t else f.Add(x.nextZ, t))
  {
    var v, w, n := Row(table, i), NextRow(table, i), |table[0]|;
    var dens, nums := Dens(f, x.challenge, x.es, v, w), Nums(f, x.es, v, w);
    RegularDens(f, x.challenge, x.es, table, i);
    HelperConstraintsHold(f, nums, dens, x.helpers, c);
    ChunkSumsTotal(f, RatiosAt(f, x.challenge, x.es, table, i), c);
    var h, dz := Sum(f, x.helpers), f.Sub(x.localZ, x.nextZ);
    SubZero(f, x.localZ, h);
    DifferenceIs(f, x.localZ, x.nextZ, h);
    FilteredConstraint(f, at, i, n, f.Sub(x.localZ, h));
    FilteredConstraint(f, at, i, n, f.Sub(dz, h));
    var last := [f.Mul(f.Sub(x.localZ, h), at.last), f.Mul(f.Sub(dz, h), at.zLast)];
    AllZeroConcat(f, HelperConstraints(f, nums, dens, x.helpers, c), last);
    assert AllZero(f, last) <==> last[0] == f.zero && last[1] == f.zero;
  }

  /** the constraints on row i hold for this Z */
  ghost predicate CtlRowAccepted<T>(f: Field<T>, at: Filters<T>, ch: Challenge<T>, es: seq<Entry<T>>,
                                    table: seq<seq<T>>,
                                    helpers: seq<seq<T>>, z: seq<T>, c: nat, i: nat)
    requires 1 <= c <= 2 && ZShape(es, table, helpers, z, c) && i < |z|
  {
    var x := VarsAt(ch, es, helpers, z, i);
    VarsFit(x, |table|, c) && AllZero(f, CtlConstraints(f, at, x, Row(table, i), NextRow(table, i), c))
  }

  ghost predicate CtlAccepted<T>(f: Field<T>, at: seq<Filters<T>>, ch: Challenge<T>, es: seq<Entry<T>>,
                                 table: seq<seq<T>>,
                                 helpers: seq<seq<T>>, z: seq<T>, c: nat)
    requires 1 <= c <= 2 && ZShape(es, table, helpers, z, c) && |at| == |z|
  {
    forall i: nat :: i < |z| ==> CtlRowAccepted(f, at[i], ch, es, table, helpers, z, c, i)
  }

  /** z takes the total of row k on top of the next row, or alone on the last row */
  ghost predicate Accumulates<T>(f: Field<T>, totals: seq<T>, z: seq<T>, k: nat)
    requires k < |z| == |totals|
  {
    z[k] == if k == |z| - 1 then totals[k] else f.Add(z[k + 1], totals[k])
  }

  lemma {:induction false} SuffixSumsUnique<T(!new)>(f: Field<T>, totals: seq<T>, z: seq<T>, i: nat)
    requires IsField(f) && |z| == |totals| && i < |z| && forall k: nat :: k < |z| ==> Accumulates(f, totals, z, k)
    ensures z[i] == Sum(f, totals[i..])
    decreases |z| - i
  {
    assert Accumulates(f, totals, z, i);
    if i == |z| - 1 {
      SuffixStart(f, totals);
    } else {
      SuffixSumsUnique(f, totals, z, i + 1);
      SuffixStep(f, totals, i);
    }
  }

  lemma SuffixSumsIff<T(!new)>(f: Field<T>, totals: seq<T>, z: seq<T>)
    requires IsField(f) && |z| == |totals| > 0
    ensures z == SuffixSums(f, totals) <==> forall k: nat :: k < |z| ==> Accumulates(f, totals, z, k)
    ensures SuffixSums(f, totals)[0] == Sum(f, totals)
  {
    assert totals[0..] == totals;
    if z == SuffixSums(f, totals) {
      forall k: nat | k < |z|
        ensures Accumulates(f, totals, z, k)
      {
        SuffixStart(f, totals);
        SuffixStep(f, totals, k);
      }
    }
    if forall k: nat :: k < |z| ==> Accumulates(f, totals, z, k) {
      forall k: nat | k < |z|
        ensures z[k] == SuffixSums(f, totals)[k]
      {
        SuffixSumsUnique(f, totals, z, k);
      }
    }
  }

  ghost predicate HelperRowRight<T>(f: Field<T>, ch: Challenge<T>, es: seq<Entry<T>>, table: seq<seq<T>>, c: nat,
                                    helpers: seq<seq<T>>, i: nat)
    requires IsTable(table) && EntriesFit(es, |table|) && c > 0 && AllLong(helpers, |table[0]|) && i < |table[0]|
  {
    |es| > 1 ==> Cells(helpers, i) == ChunkSums(f, RatiosAt(f, ch, es, table, i), c)
  }

  /** The constraints accept exactly the columns that `partial_sums` builds, so that an accepted Z opens on
      the first row to the sum over the whole table. */
  lemma CtlAcceptedIff<T(!new)>(f: Field<T>, at: seq<Filters<T>>, ch: Challenge<T>, es: seq<Entry<T>>,
                                table: seq<seq<T>>,
                                helpers: seq<seq<T>>, z: seq<T>, c: nat)
    requires IsField(f) && 1 <= c <= 2 && ZShape(es, table, helpers, z, c) && AllRegular(f, ch, es, table)
    requires |at| == |z| && AtRows(f, at)
    ensures CtlAccepted(f, at, ch, es, table, helpers, z, c) <==> ArePartialSums(f, ch, es, table, c, helpers, z)
    ensures CtlAccepted(f, at, ch, es, table, helpers, z, c) ==> z[0] == TableTotal(f, ch, es, table)
  {
    var totals := RowTotals(f, ch, es, table);
    forall i: nat | i < |z|
      ensures CtlRowAccepted(f, at[i], ch, es, table, helpers, z, c, i) <==>
              HelperRowRight(f, ch, es, table, c, helpers, i) && Accumulates(f, totals, z, i)
    {
      CtlRow(f, at[i], ch, es, table, helpers, z, c, i);
    }
    SuffixSumsIff(f, totals, z);
    HelpersByRow(f, ch, es, table, c, helpers);
    hide CtlRowAccepted, RatiosAt, ChunkSums, RowTotals, SuffixSums, EntryFits, Regular, IsField, Accumulates,
      HelperRowRight, CtlHelpersRight;
    if CtlAccepted(f, at, ch, es, table, helpers, z, c) {
      assert forall i: nat :: i < |z| ==> CtlRowAccepted(f, at[i], ch, es, table, helpers, z, c, i);
    }
    if ArePartialSums(f, ch, es, table, c, helpers, z) {
      assert forall i: nat :: i < |z| ==> CtlRowAccepted(f, at[i], ch, es, table, helpers, z, c, i);
    }
  }

  lemma HelpersByRow<T>(f: Field<T>, ch: Challenge<T>, es: seq<Entry<T>>, table: seq<seq<T>>, c: nat,
                        helpers: seq<seq<T>>)
    requires IsTable(table) && EntriesFit(es, |table|) && c > 0 && AllLong(helpers, |table[0]|)
    ensures (|es| > 1 ==> CtlHelpersRight(f, ch, es, table, c, helpers)) <==>
            forall i: nat :: i < |table[0]| ==> HelperRowRight(f, ch, es, table, c, helpers, i)
  {
    hide ChunkSums, RatiosAt;
    if |es| > 1 {
      if CtlHelpersRight(f, ch, es, table, c, helpers) {
        assert forall i: nat :: i < |table[0]| ==> HelperRowRight(f, ch, es, table, c, helpers, i);
      }
      if forall i: nat :: i < |table[0]| ==> HelperRowRight(f, ch, es, table, c, helpers, i) {
        forall i | 0 <= i < |table[0]|
          ensures Cells(helpers, i) == ChunkSums(f, RatiosAt(f, ch, es, table, i), c)
        {
          assert HelperRowRight(f, ch, es, table, c, helpers, i);
        }
      }
    }
  }
}
