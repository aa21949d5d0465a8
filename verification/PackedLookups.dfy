/** All lookups of a table under all challenges: the prover lays their columns side by side, and the
    verifier walks over them with a running offset. */
module PackedLookups {
  import opened Columns
  import opened ConstraintConsumers
  import opened Fields
  import opened HelperColumns
  import opened Lookups

  datatype Instance<T> = Instance(l: Lookup<T>, gamma: T)

  function Each<T>(l: Lookup<T>, challenges: seq<T>): (r: seq<Instance<T>>)
    ensures |r| == |challenges| && forall k :: 0 <= k < |r| ==> r[k] == Instance(l, challenges[k])
  {
    seq(|challenges|, k requires 0 <= k < |challenges| => Instance(l, challenges[k]))
  }

  /** lookup by lookup, and for each of them challenge by challenge */
  function Instances<T>(lookups: seq<Lookup<T>>, challenges: seq<T>): seq<Instance<T>> {
    if lookups == [] then [] else Each(lookups[0], challenges) + Instances(lookups[1..], challenges)
  }

  /** challenge k of lookup i is instance i times the number of challenges plus k */
  lemma {:induction false} InstancesAt<T>(lookups: seq<Lookup<T>>, challenges: seq<T>, i: nat, k: nat)
    requires i < |lookups| && k < |challenges|
    ensures 0 <= i * |challenges| + k < |Instances(lookups, challenges)|
    ensures Instances(lookups, challenges)[i * |challenges| + k] == Instance(lookups[i], challenges[k])
  {
    if i > 0 {
      InstancesAt(lookups[1..], challenges, i - 1, k);
      assert (i - 1) * |challenges| + |challenges| == i * |challenges|;
    }
  }

  ghost predicate InstancesFit<T>(xs: seq<Instance<T>>, width: nat) {
    forall k :: 0 <= k < |xs| ==> LookupFits(xs[k].l, width)
  }

  /** the number of columns of all instances */
  function Total<T>(xs: seq<Instance<T>>, c: nat): nat
    requires c > 0
  {
    if xs == [] then 0 else NumHelperColumns(xs[0].l, c) + Total(xs[1..], c)
  }

  lemma InstancesOfFitting<T>(lookups: seq<Lookup<T>>, challenges: seq<T>, width: nat)
    requires forall k :: 0 <= k < |lookups| ==> LookupFits(lookups[k], width)
    ensures InstancesFit(Instances(lookups, challenges), width)
  {
    if lookups != [] {
      hide LookupFits;
      InstancesOfFitting(lookups[1..], challenges, width);
    }
  }

  /** all constraints at one point, from the openings there and one row further */
  ghost function PackedConstraints<T>(f: Field<T>, at: Filters<T>, xs: seq<Instance<T>>, v: seq<T>, nextV: seq<T>,
                                      aux: seq<T>, nextAux: seq<T>, c: nat): seq<T>
    requires |nextV| == |v| && InstancesFit(xs, |v|) && 1 <= c <= 2 && |aux| == |nextAux| == Total(xs, c)
    decreases |xs|
  {
    if xs == [] then []
    else
      var k := NumHelperColumns(xs[0].l, c);
      LookupConstraints(f, at, xs[0].l, xs[0].gamma, v, nextV, aux[..k - 1], aux[k - 1], nextAux[k - 1], c)
      + PackedConstraints(f, at, xs[1..], v, nextV, aux[k..], nextAux[k..], c)
  }

  /** what is emitted and what the instances left will emit add up to the goal */
  ghost predicate Packing<T>(f: Field<T>, at: Filters<T>, xs: seq<Instance<T>>, v: seq<T>, nextV: seq<T>,
                             aux: seq<T>, nextAux: seq<T>, c: nat, emitted: seq<T>, goal: seq<T>) {
    && |nextV| == |v| && InstancesFit(xs, |v|) && 1 <= c <= 2 && |aux| == |nextAux| == Total(xs, c)
    && emitted + PackedConstraints(f, at, xs, v, nextV, aux, nextAux, c) == goal
  }

  lemma PackingStep<T>(f: Field<T>, at: Filters<T>, xs: seq<Instance<T>>, v: seq<T>, nextV: seq<T>,
                       aux: seq<T>, nextAux: seq<T>, c: nat, emitted: seq<T>, goal: seq<T>)
    requires Packing(f, at, xs, v, nextV, aux, nextAux, c, emitted, goal) && xs != []
    ensures var k := NumHelperColumns(xs[0].l, c);
            && LookupFits(xs[0].l, |v|) && 1 <= k <= |aux|
            && Packing(f, at, xs[1..], v, nextV, aux[k..], nextAux[k..], c,
                       emitted + LookupConstraints(f, at, xs[0].l, xs[0].gamma, v, nextV, aux[..k - 1], aux[k - 1],
                         nextAux[k - 1], c), goal)
  {
    var k := NumHelperColumns(xs[0].l, c);
    PackedFirst(f, at, xs, v, nextV, aux, nextAux, c);
    var head := LookupConstraints(f, at, xs[0].l, xs[0].gamma, v, nextV, aux[..k - 1], aux[k - 1], nextAux[k - 1], c);
    var rest := PackedConstraints(f, at, xs[1..], v, nextV, aux[k..], nextAux[k..], c);
    hide LookupConstraints, LookupFits, NumHelperColumns, PackedConstraints;
    assert emitted + (head + rest) == (emitted + head) + rest;
  }

  lemma PackedFirst<T>(f: Field<T>, at: Filters<T>, xs: seq<Instance<T>>, v: seq<T>, nextV: seq<T>, aux: seq<T>,
                       nextAux: seq<T>, c: nat)
    requires |nextV| == |v| && InstancesFit(xs, |v|) && 1 <= c <= 2 && |aux| == |nextAux| == Total(xs, c) && xs != []
    ensures var k := NumHelperColumns(xs[0].l, c);
            && LookupFits(xs[0].l, |v|) && 1 <= k <= |aux| && InstancesFit(xs[1..], |v|)
               && |aux| - k == Total(xs[1..], c)
            && PackedConstraints(f, at, xs, v, nextV, aux, nextAux, c) ==
               LookupConstraints(f, at, xs[0].l, xs[0].gamma, v, nextV, aux[..k - 1], aux[k - 1], nextAux[k - 1], c)
               + PackedConstraints(f, at, xs[1..], v, nextV, aux[k..], nextAux[k..], c)
  {
    hide LookupConstraints;
  }

  /** one lookup and one challenge */
  method EvalLookup<T(!new)>(consumer: ConstraintConsumer<T>, l: Lookup<T>, gamma: T, v: seq<T>, nextV: seq<T>,
                             lookupColumns: seq<T>, hs: seq<T>, z: T, nextZ: T, c: nat)
    requires consumer.Valid() && |nextV| == |v| && LookupFits(l, |v|) && 1 <= c <= 2
             && |hs| == HelperCount(|l.columns|, c)
    requires lookupColumns == EvalColumns(consumer.f, l.columns, v, nextV)
    modifies consumer
    ensures consumer.Valid()
    ensures consumer.emitted == old(consumer.emitted) + LookupConstraints(consumer.f, consumer.at, l, gamma, v, nextV,
            hs, z, nextZ, c)
  {
    var f := consumer.f;
    ghost var ch, es := LookupChallenge(f, gamma), Entries(l);
    var dens := seq(|lookupColumns|, k requires 0 <= k < |lookupColumns| => f.Add(lookupColumns[k], gamma));
    var nums := seq(|l.filters|, k requires 0 <= k < |l.filters| => EvalFilter(f, l.filters[k], v, nextV));
    forall k | 0 <= k < |es|
      ensures Den(f, ch, es[k], v, nextV) == dens[k]
    {
      CombineOne(f, ch, lookupColumns[k]);
      assert EvalColumns(f, es[k].columns, v, nextV) == [lookupColumns[k]];
    }
    assert dens == Dens(f, ch, es, v, nextV) && nums == Nums(f, es, v, nextV);
    if hs != [] {
      ConstrainHelperColumns(consumer, nums, dens, hs, c);
    } else {
      assert HelperConstraints(f, nums, dens, hs, c) == [];
    }
    ghost var middle := consumer.emitted;
    assert middle == old(consumer.emitted) + HelperConstraints(f, nums, dens, hs, c);
    hide HelperConstraints, Dens, Nums, EvalLocal;
    var tableWithChallenge := f.Add(EvalLocal(f, l.table, v), gamma);
    var y := f.Sub(f.Mul(Sum(f, hs), tableWithChallenge), EvalLocal(f, l.frequencies, v));
    consumer.ConstraintFirstRow(z);
    consumer.Constraint(f.Sub(f.Mul(f.Sub(nextZ, z), tableWithChallenge), y));
    assert consumer.emitted == middle + [f.Mul(z, consumer.at.first), ZConstraint(f, l, gamma, v, hs, z, nextZ)];
  }

  /** one lookup under all challenges, from the offset `from` on */
  method EvalInstances<T(!new)>(consumer: ConstraintConsumer<T>, l: Lookup<T>, challenges: seq<T>, v: seq<T>,
                                nextV: seq<T>, aux: seq<T>, nextAux: seq<T>, from: nat, c: nat,
                                ghost later: seq<Instance<T>>, ghost goal: seq<T>) returns (start: nat)
    requires consumer.Valid() && |nextV| == |v| && 1 <= c <= 2 && LookupFits(l, |v|) && from <= |aux| == |nextAux|
    requires Packing(consumer.f, consumer.at, Each(l, challenges[0..]) + later, v, nextV, aux[from..], nextAux[from..],
             c,
               consumer.emitted, goal)
    modifies consumer
    ensures consumer.Valid() && start <= |aux|
    ensures Packing(consumer.f, consumer.at, Each(l, challenges[|challenges|..]) + later, v, nextV, aux[start..],
              nextAux[start..], c, consumer.emitted, goal)
  {
    hide LookupConstraints, LookupFits, Packing, NumHelperColumns;
    var f := consumer.f;
    ghost var at := consumer.at;
    start := from;
    var numHelperColumns := NumHelperColumns(l, c);
    var lookupColumns := EvalColumnsOf(f, l, v, nextV);
    for j := 0 to |challenges|
      invariant consumer.Valid() && 0 <= start <= |aux|
      invariant Packing(f, at, Each(l, challenges[j..]) + later, v, nextV, aux[start..], nextAux[start..], c,
                consumer.emitted, goal)
    {
      ghost var xs := Each(l, challenges[j..]) + later;
      assert xs[0] == Instance(l, challenges[j]) && xs[1..] == Each(l, challenges[j + 1..]) + later;
      PackingStep(f, at, xs, v, nextV, aux[start..], nextAux[start..], c, consumer.emitted, goal);
      assert aux[start..][..numHelperColumns - 1] == aux[start..start + numHelperColumns - 1];
      assert aux[start..][numHelperColumns..] == aux[start + numHelperColumns..];
      assert nextAux[start..][numHelperColumns..] == nextAux[start + numHelperColumns..];
      EvalOne(consumer, l, challenges[j], v, nextV, lookupColumns, aux, nextAux, start, c);
      start := start + numHelperColumns;
    }
  }

  /** `eval_packed_lookups_generic` */
  method EvalPackedLookups<T(!new)>(consumer: ConstraintConsumer<T>, lookups: seq<Lookup<T>>, challenges: seq<T>,
                                    v: seq<T>, nextV: seq<T>, aux: seq<T>, nextAux: seq<T>, c: nat)
    requires consumer.Valid() && |nextV| == |v| && 1 <= c <= 2 && InstancesFit(Instances(lookups, challenges), |v|)
    requires forall k :: 0 <= k < |lookups| ==> LookupFits(lookups[k], |v|)
    requires |aux| == |nextAux| == Total(Instances(lookups, challenges), c)
    modifies consumer
    ensures consumer.Valid()
    ensures consumer.emitted == old(consumer.emitted) +
              PackedConstraints(consumer.f, consumer.at, Instances(lookups, challenges), v, nextV, aux, nextAux, c)
  {
    hide LookupConstraints, LookupFits, Packing, NumHelperColumns;
    var f := consumer.f;
    ghost var at := consumer.at;
    ghost var goal := consumer.emitted + PackedConstraints(f, at, Instances(lookups, challenges), v, nextV, aux,
      nextAux, c);
    var start := 0;
    PackingStart(f, at, lookups, challenges, v, nextV, aux, nextAux, c, consumer.emitted, goal);
    for i := 0 to |lookups|
      invariant consumer.Valid() && 0 <= start <= |aux|
      invariant Packing(f, at, Instances(lookups[i..], challenges), v, nextV, aux[start..], nextAux[start..], c,
                consumer.emitted, goal)
    {
      var l := lookups[i];
      ghost var later := Instances(lookups[i + 1..], challenges);
      assert Instances(lookups[i..], challenges) == Each(l, challenges[0..]) + later by {
        assert lookups[i..][1..] == lookups[i + 1..] && challenges[0..] == challenges;
      }
      start := EvalInstances(consumer, l, challenges, v, nextV, aux, nextAux, start, c, later, goal);
      assert Each(l, challenges[|challenges|..]) + later == later;
    }
    PackingDone(f, at, lookups, challenges, v, nextV, aux[start..], nextAux[start..], c, consumer.emitted, goal);
  }

  /** the columns of one lookup and challenge, from the offset on */
  method EvalOne<T(!new)>(consumer: ConstraintConsumer<T>, l: Lookup<T>, gamma: T, v: seq<T>, nextV: seq<T>,
                          lookupColumns: seq<T>,
                          aux: seq<T>, nextAux: seq<T>, start: nat, c: nat)
    requires consumer.Valid() && |nextV| == |v| && LookupFits(l, |v|) && 1 <= c <= 2
    requires lookupColumns == EvalColumns(consumer.f, l.columns, v, nextV)
    requires start + NumHelperColumns(l, c) <= |aux| == |nextAux|
    modifies consumer
    ensures consumer.Valid()
    ensures var k := NumHelperColumns(l, c);
            consumer.emitted == old(consumer.emitted) +
              LookupConstraints(consumer.f, consumer.at, l, gamma, v, nextV, aux[start..start + k - 1],
                aux[start + k - 1], nextAux[start + k - 1], c)
  {
    hide LookupConstraints, LookupFits, EvalColumns;
    var k := NumHelperColumns(l, c);
    EvalLookup(consumer, l, gamma, v, nextV, lookupColumns, aux[start..start + k - 1], aux[start + k - 1],
      nextAux[start + k - 1], c);
  }

  method EvalColumnsOf<T(!new)>(f: Field<T>, l: Lookup<T>, v: seq<T>, nextV: seq<T>) returns (r: seq<T>)
    requires |nextV| == |v| && LookupFits(l, |v|)
    ensures ColumnsFit(l.columns, |v|) && r == EvalColumns(f, l.columns, v, nextV)
  {
    r := EvalColumns(f, l.columns, v, nextV);
  }

  lemma PackingStart<T>(f: Field<T>, at: Filters<T>, lookups: seq<Lookup<T>>, challenges: seq<T>, v: seq<T>,
                        nextV: seq<T>,
                        aux: seq<T>, nextAux: seq<T>, c: nat, emitted: seq<T>, goal: seq<T>)
    requires Packing(f, at, Instances(lookups, challenges), v, nextV, aux, nextAux, c, emitted, goal)
    ensures Packing(f, at, Instances(lookups[0..], challenges), v, nextV, aux[0..], nextAux[0..], c, emitted, goal)
  {
    assert lookups[0..] == lookups && aux[0..] == aux && nextAux[0..] == nextAux;
  }

  lemma PackingDone<T>(f: Field<T>, at: Filters<T>, lookups: seq<Lookup<T>>, challenges: seq<T>, v: seq<T>,
                       nextV: seq<T>,
                       aux: seq<T>, nextAux: seq<T>, c: nat, emitted: seq<T>, goal: seq<T>)
    requires Packing(f, at, Instances(lookups[|lookups|..], challenges), v, nextV, aux, nextAux, c, emitted, goal)
    ensures emitted == goal
  {
    assert emitted + [] == emitted;
  }

  // ----- All rows -----

  ghost predicate PackedRow<T>(f: Field<T>, at: Filters<T>, xs: seq<Instance<T>>, table: seq<seq<T>>,
                               columns: seq<seq<T>>, c: nat, i: nat)
    requires IsTable(table) && InstancesFit(xs, |table|) && 1 <= c <= 2 && i < |table[0]|
    requires |columns| == Total(xs, c) && AllLong(columns, |table[0]|)
  {
    AllZero(f, PackedConstraints(f, at, xs, Row(table, i), NextRow(table, i), Cells(columns, i),
      Cells(columns, Successor(i, |table[0]|)), c))
  }

  ghost predicate PackedAccepted<T>(f: Field<T>, at: seq<Filters<T>>, xs: seq<Instance<T>>, table: seq<seq<T>>,
                                    columns: seq<seq<T>>, c: nat)
    requires IsTable(table) && InstancesFit(xs, |table|) && 1 <= c <= 2 && |at| == |table[0]|
    requires |columns| == Total(xs, c) && AllLong(columns, |table[0]|)
  {
    forall i: nat :: i < |table[0]| ==> PackedRow(f, at[i], xs, table, columns, c, i)
  }

  /** the prover's columns for each instance, side by side */
  ghost predicate ArePackedColumns<T>(f: Field<T>, xs: seq<Instance<T>>, table: seq<seq<T>>, columns: seq<seq<T>>,
                                      c: nat)
    requires IsTable(table) && InstancesFit(xs, |table|) && c > 0 && |columns| == Total(xs, c)
    decreases |xs|
  {
    xs == []
    || (var k := NumHelperColumns(xs[0].l, c);
        IsProverColumns(f, xs[0].l, table, xs[0].gamma, c, columns[..k])
          && ArePackedColumns(f, xs[1..], table, columns[k..], c))
  }

  ghost predicate AllBalanced<T>(f: Field<T>, xs: seq<Instance<T>>, table: seq<seq<T>>)
    requires IsTable(table) && InstancesFit(xs, |table|)
  {
    forall k :: 0 <= k < |xs| ==> Balanced(f, xs[k].l, xs[k].gamma, table)
  }

  ghost predicate AllLookupsRegular<T>(f: Field<T>, xs: seq<Instance<T>>, table: seq<seq<T>>)
    requires IsTable(table) && InstancesFit(xs, |table|)
  {
    forall k :: 0 <= k < |xs| ==> LookupRegular(f, xs[k].l, xs[k].gamma, table) && CurrentRowOnly(xs[k].l)
  }

  lemma PackedRowPeel<T>(f: Field<T>, at: Filters<T>, xs: seq<Instance<T>>, table: seq<seq<T>>, columns: seq<seq<T>>,
                         c: nat, i: nat)
    requires IsTable(table) && InstancesFit(xs, |table|) && 1 <= c <= 2 && i < |table[0]| && xs != []
    requires |columns| == Total(xs, c) && AllLong(columns, |table[0]|)
    ensures var k := NumHelperColumns(xs[0].l, c);
            PackedRow(f, at, xs, table, columns, c, i) <==>
            && RowAccepted(f, at, xs[0].l, xs[0].gamma, table, columns[..k - 1], columns[k - 1], c, i)
            && PackedRow(f, at, xs[1..], table, columns[k..], c, i)
  {
    var k := NumHelperColumns(xs[0].l, c);
    var next := Successor(i, |table[0]|);
    var aux, nextAux := Cells(columns, i), Cells(columns, next);
    assert aux[..k - 1] == Cells(columns[..k - 1], i);
    assert aux[k..] == Cells(columns[k..], i) && nextAux[k..] == Cells(columns[k..], next);
    var v, w := Row(table, i), NextRow(table, i);
    AllZeroConcat(f, LookupConstraints(f, at, xs[0].l, xs[0].gamma, v, w, aux[..k - 1], aux[k - 1], nextAux[k - 1], c),
                  PackedConstraints(f, at, xs[1..], v, w, aux[k..], nextAux[k..], c));
  }

  lemma PackedAcceptedPeel<T>(f: Field<T>, at: seq<Filters<T>>, xs: seq<Instance<T>>, table: seq<seq<T>>,
                              columns: seq<seq<T>>, c: nat)
    requires IsTable(table) && InstancesFit(xs, |table|) && 1 <= c <= 2 && |at| == |table[0]| && xs != []
    requires |columns| == Total(xs, c) && AllLong(columns, |table[0]|)
    ensures var k := NumHelperColumns(xs[0].l, c);
            PackedAccepted(f, at, xs, table, columns, c) <==>
            && Accepted(f, at, xs[0].l, xs[0].gamma, table, columns[..k], c)
            && PackedAccepted(f, at, xs[1..], table, columns[k..], c)
  {
    var k := NumHelperColumns(xs[0].l, c);
    var head, tail := columns[..k], columns[k..];
    assert head[..|head| - 1] == columns[..k - 1];
    assert InstancesFit(xs[1..], |table|) && AllLong(tail, |table[0]|) && AllLong(head, |table[0]|);
    forall i: nat | i < |table[0]|
      ensures PackedRow(f, at[i], xs, table, columns, c, i) <==>
              && RowAccepted(f, at[i], xs[0].l, xs[0].gamma, table, head[..|head| - 1], head[|head| - 1], c, i)
              && PackedRow(f, at[i], xs[1..], table, tail, c, i)
    {
      PackedRowPeel(f, at[i], xs, table, columns, c, i);
    }
    RowsSplit(f, at, xs, table, columns, head, tail, c);
  }

  lemma RowsSplit<T>(f: Field<T>, at: seq<Filters<T>>, xs: seq<Instance<T>>, table: seq<seq<T>>, columns: seq<seq<T>>,
                     head: seq<seq<T>>, tail: seq<seq<T>>, c: nat)
    requires IsTable(table) && InstancesFit(xs, |table|) && 1 <= c <= 2 && |at| == |table[0]| && xs != []
             && InstancesFit(xs[1..], |table|)
    requires |columns| == Total(xs, c) && AllLong(columns, |table[0]|)
    requires |head| == NumHelperColumns(xs[0].l, c) && AllLong(head, |table[0]|)
    requires |tail| == Total(xs[1..], c) && AllLong(tail, |table[0]|)
    requires forall i: nat {:trigger PackedRow(f, at[i], xs, table, columns, c, i)} :: i < |table[0]| ==>
      (PackedRow(f, at[i], xs, table, columns, c, i) <==>
       && RowAccepted(f, at[i], xs[0].l, xs[0].gamma, table, head[..|head| - 1], head[|head| - 1], c, i)
       && PackedRow(f, at[i], xs[1..], table, tail, c, i))
    ensures PackedAccepted(f, at, xs, table, columns, c) <==>
            && Accepted(f, at, xs[0].l, xs[0].gamma, table, head, c)
            && PackedAccepted(f, at, xs[1..], table, tail, c)
  {
    hide PackedRow, RowAccepted, LookupFits;
    if PackedAccepted(f, at, xs, table, columns, c) {
      assert forall i: nat :: i < |table[0]| ==> PackedRow(f, at[i], xs, table, columns, c, i);
    }
  }

  /** without next-row terms, accepted columns are the prover's, and every lookup is balanced */
  lemma {:induction false} CurrentRowsAccepted<T(!new)>(f: Field<T>, at: seq<Filters<T>>, xs: seq<Instance<T>>,
                                                        table: seq<seq<T>>,
                                                        columns: seq<seq<T>>, c: nat)
    requires IsField(f) && IsTable(table) && InstancesFit(xs, |table|) && 1 <= c <= 2 && |at| == |table[0]|
             && AtRows(f, at)
    requires |columns| == Total(xs, c) && AllLong(columns, |table[0]|) && AllLookupsRegular(f, xs, table)
    ensures PackedAccepted(f, at, xs, table, columns, c) <==>
            ArePackedColumns(f, xs, table, columns, c) && AllBalanced(f, xs, table)
    decreases |xs|
  {
    if xs == [] {
      forall i: nat | i < |table[0]|
        ensures PackedRow(f, at[i], xs, table, columns, c, i)
      {
      }
    } else {
      var k := NumHelperColumns(xs[0].l, c);
      PackedAcceptedPeel(f, at, xs, table, columns, c);
      hide LookupFits, Balanced, LookupRegular, NumHelperColumns, IsProverColumns, Accepted, PackedAccepted;
      CurrentRowAccepted(f, at, xs[0].l, xs[0].gamma, table, columns[..k], c);
      CurrentRowsAccepted(f, at, xs[1..], table, columns[k..], c);
      BalancedPeel(f, xs, table);
    }
  }

  lemma BalancedPeel<T>(f: Field<T>, xs: seq<Instance<T>>, table: seq<seq<T>>)
    requires IsTable(table) && InstancesFit(xs, |table|) && xs != []
    ensures AllBalanced(f, xs, table) <==> Balanced(f, xs[0].l, xs[0].gamma, table) && AllBalanced(f, xs[1..], table)
  {
    hide LookupFits, Balanced;
    if AllBalanced(f, xs[1..], table) && Balanced(f, xs[0].l, xs[0].gamma, table) {
      forall k | 0 <= k < |xs|
        ensures Balanced(f, xs[k].l, xs[k].gamma, table)
      {
        if k > 0 {
          assert Balanced(f, xs[1..][k - 1].l, xs[1..][k - 1].gamma, table);
        }
      }
    }
  }

  /** the lookups as the verifier reads them */
  function Locals<T>(xs: seq<Instance<T>>): (r: seq<Instance<T>>)
    ensures |r| == |xs| && forall k :: 0 <= k < |r| ==> r[k] == Instance(Local(xs[k].l), xs[k].gamma)
    ensures forall width :: InstancesFit(xs, width) ==> InstancesFit(r, width)
  {
    seq(|xs|, k requires 0 <= k < |xs| => Instance(Local(xs[k].l), xs[k].gamma))
  }

  lemma {:induction false} LocalsTotal<T>(xs: seq<Instance<T>>, c: nat)
    requires c > 0
    ensures Total(Locals(xs), c) == Total(xs, c)
  {
    if xs != [] {
      LocalsTotal(xs[1..], c);
      assert Locals(xs)[1..] == Locals(xs[1..]);
    }
  }

  lemma {:induction false} SamePackedConstraints<T>(f: Field<T>, at: Filters<T>, xs: seq<Instance<T>>, v: seq<T>,
                                                    nextV: seq<T>,
                                                    aux: seq<T>, nextAux: seq<T>, c: nat)
    requires |nextV| == |v| && InstancesFit(xs, |v|) && 1 <= c <= 2
             && |aux| == |nextAux| == Total(xs, c) == Total(Locals(xs), c)
    ensures PackedConstraints(f, at, xs, v, nextV, aux, nextAux, c)
            == PackedConstraints(f, at, Locals(xs), v, nextV, aux, nextAux, c)
    decreases |xs|
  {
    if xs != [] {
      var k := NumHelperColumns(xs[0].l, c);
      assert Locals(xs)[1..] == Locals(xs[1..]);
      SameConstraints(f, at, xs[0].l, xs[0].gamma, v, nextV, aux[..k - 1], aux[k - 1], nextAux[k - 1], c);
      LocalsTotal(xs[1..], c);
      SamePackedConstraints(f, at, xs[1..], v, nextV, aux[k..], nextAux[k..], c);
    }
  }

  /** The constraints on all rows accept exactly the prover's columns of every lookup and challenge, as the
      verifier reads them, and these exactly when every lookup is balanced. */
  lemma AllLookupsAccepted<T(!new)>(f: Field<T>, at: seq<Filters<T>>, xs: seq<Instance<T>>, table: seq<seq<T>>,
                                    columns: seq<seq<T>>, c: nat)
    requires IsField(f) && IsTable(table) && InstancesFit(xs, |table|) && 1 <= c <= 2 && |at| == |table[0]|
             && AtRows(f, at)
    requires |columns| == Total(xs, c) && AllLong(columns, |table[0]|) && AllLookupsRegular(f, Locals(xs), table)
    ensures Total(Locals(xs), c) == Total(xs, c)
    ensures PackedAccepted(f, at, xs, table, columns, c) <==>
            ArePackedColumns(f, Locals(xs), table, columns, c) && AllBalanced(f, Locals(xs), table)
  {
    LocalsTotal(xs, c);
    CurrentRowsAccepted(f, at, Locals(xs), table, columns, c);
    hide PackedConstraints, ArePackedColumns, AllBalanced, InstancesFit, LookupFits, AllZero, Total, AllLookupsRegular;
    forall i: nat | i < |table[0]|
      ensures PackedRow(f, at[i], xs, table, columns, c, i) <==> PackedRow(f, at[i], Locals(xs), table, columns, c, i)
    {
      SamePackedConstraints(f, at[i], xs, Row(table, i), NextRow(table, i), Cells(columns, i),
        Cells(columns, Successor(i, |table[0]|)), c);
    }
    hide PackedRow;
    if PackedAccepted(f, at, xs, table, columns, c) {
      assert forall i: nat :: i < |table[0]| ==> PackedRow(f, at[i], xs, table, columns, c, i);
    }
    if PackedAccepted(f, at, Locals(xs), table, columns, c) {
      assert forall i: nat :: i < |table[0]| ==> PackedRow(f, at[i], Locals(xs), table, columns, c, i);
    }
  }
}
