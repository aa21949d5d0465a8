/** Helper columns of a logarithmic-derivative lookup: sums of filter / (combination + challenge) over
    small batches of looking columns, and the constraints that pin them down. */
module HelperColumns {
  import opened Arithmetic
  import opened BatchInverse
  import opened Columns
  import opened ConstraintConsumers
  import opened Fields
  import opened Polynomials

  /** `GrandProductChallenge` */
  datatype Challenge<T> = Challenge(beta: T, gamma: T)

  function Combine<T>(f: Field<T>, ch: Challenge<T>, terms: seq<T>): T {
    f.Add(Eval(f, terms, ch.beta), ch.gamma)
  }

  /** `combine_base` */
  method CombineBase<T(!new)>(f: Field<T>, ch: Challenge<T>, terms: seq<T>) returns (r: T)
    requires IsField(f)
    ensures r == Combine(f, ch, terms)
  {
    var n := |terms|;
    if n == 0 {
      assert Law(f, ch.gamma, f.zero, f.zero) && Law(f, f.zero, ch.gamma, f.zero);
      return ch.gamma;
    }
    var acc := terms[n - 1];
    MulZero(f, ch.beta);
    assert terms[n - 1..][1..] == [] && Law(f, acc, acc, acc);
    assert Eval(f, terms[n - 1..], ch.beta) == f.Add(acc, f.Mul(ch.beta, f.zero));
    for i := n - 1 downto 0
      invariant acc == Eval(f, terms[i..], ch.beta)
    {
      HornerStep(f, terms, i, ch.beta);
      acc := f.Add(f.Mul(acc, ch.beta), terms[i]);
    }
    assert terms[0..] == terms;
    r := f.Add(acc, ch.gamma);
  }

  lemma HornerStep<T(!new)>(f: Field<T>, terms: seq<T>, i: nat, beta: T)
    requires IsField(f) && i < |terms|
    ensures Eval(f, terms[i..], beta) == f.Add(f.Mul(Eval(f, terms[i + 1..], beta), beta), terms[i])
  {
    assert terms[i..][1..] == terms[i + 1..];
    var e := Eval(f, terms[i + 1..], beta);
    assert Law(f, beta, e, e) && Law(f, terms[i], f.Mul(beta, e), e);
  }

  /** term i is taken times the i-th power of beta, and gamma is added: no term at all leaves gamma */
  lemma CombineNone<T(!new)>(f: Field<T>, ch: Challenge<T>)
    requires IsField(f)
    ensures Combine(f, ch, []) == ch.gamma
  {
    assert Law(f, ch.gamma, f.zero, f.zero) && Law(f, f.zero, ch.gamma, f.zero);
  }

  /** and each term adds its own power */
  lemma CombineAppend<T(!new)>(f: Field<T>, ch: Challenge<T>, terms: seq<T>, x: T)
    requires IsField(f)
    ensures Combine(f, ch, terms + [x]) == f.Add(Combine(f, ch, terms), f.Mul(x, f.Pow(ch.beta, |terms|)))
  {
    EvalAppend(f, terms, x, ch.beta);
    var e, t := Eval(f, terms, ch.beta), f.Mul(x, f.Pow(ch.beta, |terms|));
    assert Law(f, e, t, ch.gamma) && Law(f, e, ch.gamma, t) && Law(f, t, ch.gamma, e);
  }

  /** two different tuples of n terms have equal combinations for fewer than n values of beta, whatever gamma is */
  lemma CombineBinds<T(!new)>(f: Field<T>, gamma: T, a: seq<T>, b: seq<T>, betas: seq<T>)
    requires IsField(f) && |a| == |b| && a != b && Different(betas)
    requires forall k :: 0 <= k < |betas| ==>
               Combine(f, Challenge(betas[k], gamma), a) == Combine(f, Challenge(betas[k], gamma), b)
    ensures |betas| < |a|
  {
    forall k | 0 <= k < |betas|
      ensures Eval(f, a, betas[k]) == Eval(f, b, betas[k])
    {
      var x, y := Eval(f, a, betas[k]), Eval(f, b, betas[k]);
      assert f.Add(x, gamma) == f.Add(y, gamma);
      assert Law(f, x, gamma, f.Neg(gamma)) && Law(f, y, gamma, f.Neg(gamma)) && Law(f, gamma, x, x);
      assert Law(f, x, x, x) && Law(f, y, y, y);
    }
    EqualValues(f, a, b, betas);
  }

  /** a tuple of columns to be looked up, with its filter */
  datatype Entry<T> = Entry(columns: seq<Column<T>>, filter: Filter<T>)

  predicate EntryFits<T>(e: Entry<T>, width: nat) { ColumnsFit(e.columns, width) && FilterFits(e.filter, width) }

  predicate EntriesFit<T>(es: seq<Entry<T>>, width: nat) { forall k :: 0 <= k < |es| ==> EntryFits(es[k], width) }

  function EvalColumns<T>(f: Field<T>, cs: seq<Column<T>>, v: seq<T>, nextV: seq<T>): (r: seq<T>)
    requires |nextV| == |v| && ColumnsFit(cs, |v|)
    ensures |r| == |cs|
  {
    seq(|cs|, k requires 0 <= k < |cs| => EvalWithNext(f, cs[k], v, nextV))
  }

  /** the combination of an entry on a row */
  function Den<T>(f: Field<T>, ch: Challenge<T>, e: Entry<T>, v: seq<T>, nextV: seq<T>): T
    requires |nextV| == |v| && EntryFits(e, |v|)
  {
    Combine(f, ch, EvalColumns(f, e.columns, v, nextV))
  }

  /** the combinations of all entries on a row */
  function Dens<T>(f: Field<T>, ch: Challenge<T>, es: seq<Entry<T>>, v: seq<T>, nextV: seq<T>): (r: seq<T>)
    requires |nextV| == |v| && EntriesFit(es, |v|)
    ensures |r| == |es|
  {
    seq(|es|, k requires 0 <= k < |es| => Den(f, ch, es[k], v, nextV))
  }

  /** the filters of all entries on a row */
  function Nums<T>(f: Field<T>, es: seq<Entry<T>>, v: seq<T>, nextV: seq<T>): (r: seq<T>)
    requires |nextV| == |v| && EntriesFit(es, |v|)
    ensures |r| == |es|
  {
    seq(|es|, k requires 0 <= k < |es| => EvalFilter(f, es[k].filter, v, nextV))
  }

  function Ratios<T>(f: Field<T>, nums: seq<T>, dens: seq<T>): (r: seq<T>)
    requires |nums| == |dens|
    ensures |r| == |nums|
  {
    seq(|nums|, k requires 0 <= k < |nums| => f.Mul(f.Inv(dens[k]), nums[k]))
  }

  function DenAt<T>(f: Field<T>, ch: Challenge<T>, e: Entry<T>, table: seq<seq<T>>, i: nat): T
    requires IsTable(table) && i < |table[0]| && EntryFits(e, |table|)
  {
    Den(f, ch, e, Row(table, i), NextRow(table, i))
  }

  /** filter / combination of an entry, on row i of a table */
  function RatioAt<T>(f: Field<T>, ch: Challenge<T>, e: Entry<T>, table: seq<seq<T>>, i: nat): T
    requires IsTable(table) && i < |table[0]| && EntryFits(e, |table|)
  {
    f.Mul(f.Inv(DenAt(f, ch, e, table, i)), FilterAt(f, e.filter, table, i))
  }

  function RatiosAt<T>(f: Field<T>, ch: Challenge<T>, es: seq<Entry<T>>, table: seq<seq<T>>, i: nat): (r: seq<T>)
    requires IsTable(table) && i < |table[0]| && EntriesFit(es, |table|)
    ensures |r| == |es| && forall k :: 0 <= k < |es| ==> r[k] == RatioAt(f, ch, es[k], table, i)
    ensures r == Ratios(f, Nums(f, es, Row(table, i), NextRow(table, i)),
            Dens(f, ch, es, Row(table, i), NextRow(table, i)))
  {
    Ratios(f, Nums(f, es, Row(table, i), NextRow(table, i)), Dens(f, ch, es, Row(table, i), NextRow(table, i)))
  }

  /** the combination is zero on no row, without which the batch inversion panics */
  ghost predicate Regular<T>(f: Field<T>, ch: Challenge<T>, e: Entry<T>, table: seq<seq<T>>)
    requires IsTable(table) && EntryFits(e, |table|)
  {
    forall i :: 0 <= i < |table[0]| ==> DenAt(f, ch, e, table, i) != f.zero
  }

  ghost predicate AllRegular<T>(f: Field<T>, ch: Challenge<T>, es: seq<Entry<T>>, table: seq<seq<T>>)
    requires IsTable(table) && EntriesFit(es, |table|)
  {
    forall k :: 0 <= k < |es| ==> Regular(f, ch, es[k], table)
  }

  lemma RegularDens<T>(f: Field<T>, ch: Challenge<T>, es: seq<Entry<T>>, table: seq<seq<T>>, i: nat)
    requires IsTable(table) && EntriesFit(es, |table|) && AllRegular(f, ch, es, table) && i < |table[0]|
    ensures Nonzero(f, Dens(f, ch, es, Row(table, i), NextRow(table, i)))
  {
    var dens := Dens(f, ch, es, Row(table, i), NextRow(table, i));
    forall k | 0 <= k < |es|
      ensures dens[k] != f.zero
    {
      assert Regular(f, ch, es[k], table) && dens[k] == DenAt(f, ch, es[k], table, i);
    }
  }

  /** the sums of batches of c */
  function ChunkSums<T>(f: Field<T>, ratios: seq<T>, c: nat): seq<T>
    requires c > 0
  {
    if ratios == [] then []
    else
      var m := if |ratios| < c then |ratios| else c;
      [Sum(f, ratios[..m])] + ChunkSums(f, ratios[m..], c)
  }

  /** the first entry of batch k */
  function BatchStart(k: nat, c: nat): nat { if k == 0 then 0 else BatchStart(k - 1, c) + c }

  /** the sum of the batch of at most c ratios that begins at `start` */
  function BatchSum<T>(f: Field<T>, ratios: seq<T>, c: nat, start: nat): T
    requires start <= |ratios|
  {
    Sum(f, ratios[start..if start + c < |ratios| then start + c else |ratios|])
  }

  lemma BatchOfRest<T>(f: Field<T>, ratios: seq<T>, c: nat, start: nat)
    requires c <= |ratios| && start <= |ratios| - c
    ensures BatchSum(f, ratios[c..], c, start) == BatchSum(f, ratios, c, start + c)
  {
    var end := if start + c < |ratios| - c then start + c else |ratios| - c;
    assert ratios[c..][start..end] == ratios[start + c..end + c];
  }

  /** helper k is the sum of the k-th batch: neighbours, in order, and as many as the constraint allows */
  lemma {:induction false} ChunkSumsAt<T>(f: Field<T>, ratios: seq<T>, c: nat, k: nat)
    requires c > 0 && k < |ChunkSums(f, ratios, c)|
    ensures BatchStart(k, c) < |ratios| && ChunkSums(f, ratios, c)[k] == BatchSum(f, ratios, c, BatchStart(k, c))
    decreases k
  {
    hide Sum, ChunkSums, BatchSum;
    if k == 0 {
      FirstBatch(f, ratios, c);
    } else {
      LaterBatch(f, ratios, c, k);
      ChunkSumsAt(f, ratios[c..], c, k - 1);
      BatchOfRest(f, ratios, c, BatchStart(k - 1, c));
    }
  }

  lemma FirstBatch<T>(f: Field<T>, ratios: seq<T>, c: nat)
    requires c > 0 && ChunkSums(f, ratios, c) != []
    ensures ratios != [] && ChunkSums(f, ratios, c)[0] == BatchSum(f, ratios, c, 0)
  {
    hide Sum;
    var m := if |ratios| < c then |ratios| else c;
    assert ratios[0..m] == ratios[..m];
  }

  lemma LaterBatch<T>(f: Field<T>, ratios: seq<T>, c: nat, k: nat)
    requires c > 0 && 0 < k < |ChunkSums(f, ratios, c)|
    ensures c < |ratios| && k - 1 < |ChunkSums(f, ratios[c..], c)|
    ensures ChunkSums(f, ratios, c)[k] == ChunkSums(f, ratios[c..], c)[k - 1]
  {
    hide Sum;
  }

  /** batching does not change the total */
  lemma {:induction false} ChunkSumsTotal<T(!new)>(f: Field<T>, ratios: seq<T>, c: nat)
    requires IsField(f) && c > 0
    ensures Sum(f, ChunkSums(f, ratios, c)) == Sum(f, ratios)
    decreases |ratios|
  {
    if ratios != [] {
      var m := if |ratios| < c then |ratios| else c;
      ChunkSumsTotal(f, ratios[m..], c);
      SumAppend(f, ratios[..m], ratios[m..]);
      assert ratios == ratios[..m] + ratios[m..];
    }
  }

  /** `div_ceil` */
  function HelperCount(n: nat, c: nat): nat
    requires c > 0
  {
    DivNat(n + c - 1, c);
    (n + c - 1) / c
  }

  lemma {:induction false} ChunkSumsCount<T>(f: Field<T>, ratios: seq<T>, c: nat)
    requires c > 0
    ensures |ChunkSums(f, ratios, c)| == HelperCount(|ratios|, c)
    decreases |ratios|
  {
    HelperCountStep(|ratios|, c);
    if ratios != [] {
      var m := if |ratios| < c then |ratios| else c;
      hide HelperCount;
      ChunkSumsCount(f, ratios[m..], c);
    }
  }

  lemma HelperCountStep(n: nat, c: nat)
    requires c > 0
    ensures HelperCount(0, c) == 0
    ensures 0 < n ==> HelperCount(n, c) == 1 + HelperCount(if n < c then 0 else n - c, c)
  {
    DivModUnique(c - 1, c, 0, c - 1);
    if 0 < n <= c {
      DivModUnique(n + c - 1, c, 1, n - 1);
    } else if n > c {
      DivNat(n - 1, c);
      DivModUnique(n + c - 1, c, (n - 1) / c + 1, (n - 1) % c);
    }
  }

  // ----- get_helper_cols -----

  /** one entry over all rows */
  method EntryColumn<T(!new)>(f: Field<T>, ch: Challenge<T>, e: Entry<T>, table: seq<seq<T>>) returns (combined: seq<T>)
    requires IsField(f) && IsTable(table) && EntryFits(e, |table|) && Regular(f, ch, e, table)
    ensures |combined| == |table[0]|
    ensures forall i :: 0 <= i < |combined| ==> combined[i] == RatioAt(f, ch, e, table, i)
  {
    var n := |table[0]|;
    if |e.columns| == 1 {
      combined := EvalAllRows(f, e.columns[0], table);
      for i := 0 to n
        invariant |combined| == n && forall j :: 0 <= j < i ==> combined[j] == DenAt(f, ch, e, table, j)
        invariant forall j :: i <= j < n ==> combined[j] == ColumnAt(f, e.columns[0], table, j)
      {
        SingleColumn(f, ch, e, table, i);
        combined := combined[i := f.Add(combined[i], ch.gamma)];
      }
    } else {
      combined := CombinedRows(f, ch, e, table);
    }
    combined := BatchMultiplicativeInverse(f, combined);
    var filterCol := EvalFilterAllRows(f, e.filter, table);
    ghost var inverses := combined;
    for i := 0 to n
      invariant |combined| == n && forall j :: 0 <= j < i ==> combined[j] == RatioAt(f, ch, e, table, j)
      invariant forall j :: i <= j < n ==> combined[j] == inverses[j]
    {
      var x := DenAt(f, ch, e, table, i);
      assert f.Mul(inverses[i], x) == f.one && Law(f, inverses[i], x, x);
      InverseIsUnique(f, x, inverses[i]);
      combined := combined[i := f.Mul(combined[i], filterCol[i])];
    }
  }

  /** an entry of several columns, combined row by row */
  method CombinedRows<T(!new)>(f: Field<T>, ch: Challenge<T>, e: Entry<T>,
                               table: seq<seq<T>>) returns (combined: seq<T>)
    requires IsField(f) && IsTable(table) && EntryFits(e, |table|)
    ensures |combined| == |table[0]|
    ensures forall i :: 0 <= i < |combined| ==> combined[i] == DenAt(f, ch, e, table, i)
  {
    var n := |table[0]|;
    var colAllRows: seq<seq<T>> := [];
    for k := 0 to |e.columns|
      invariant |colAllRows| == k && AllLong(colAllRows, n)
      invariant forall j, i :: 0 <= j < k && 0 <= i < n ==> colAllRows[j][i] == ColumnAt(f, e.columns[j], table, i)
    {
      var col := EvalAllRows(f, e.columns[k], table);
      colAllRows := colAllRows + [col];
    }
    combined := [];
    for d := 0 to n
      invariant |combined| == d && forall j :: 0 <= j < d ==> combined[j] == DenAt(f, ch, e, table, j)
    {
      var terms := seq(|colAllRows|, k requires 0 <= k < |colAllRows| => colAllRows[k][d]);
      assert terms == EvalColumns(f, e.columns, Row(table, d), NextRow(table, d));
      var x := CombineBase(f, ch, terms);
      combined := combined + [x];
    }
  }

  /** with one column the powers of beta play no part */
  lemma SingleColumn<T(!new)>(f: Field<T>, ch: Challenge<T>, e: Entry<T>, table: seq<seq<T>>, i: nat)
    requires IsField(f) && IsTable(table) && i < |table[0]| && EntryFits(e, |table|) && |e.columns| == 1
    ensures DenAt(f, ch, e, table, i) == f.Add(ColumnAt(f, e.columns[0], table, i), ch.gamma)
  {
    var terms := EvalColumns(f, e.columns, Row(table, i), NextRow(table, i));
    assert terms == [ColumnAt(f, e.columns[0], table, i)];
    CombineOne(f, ch, terms[0]);
  }

  lemma CombineOne<T(!new)>(f: Field<T>, ch: Challenge<T>, x: T)
    requires IsField(f)
    ensures Combine(f, ch, [x]) == f.Add(x, ch.gamma)
  {
    MulZero(f, ch.beta);
    assert [x][1..] == [];
    assert Eval(f, [x], ch.beta) == f.Add(x, f.Mul(ch.beta, f.zero));
    assert Law(f, x, x, x);
  }

  /** the cells of some columns on a row */
  function Cells<T>(columns: seq<seq<T>>, i: nat): (r: seq<T>)
    requires forall k :: 0 <= k < |columns| ==> i < |columns[k]|
    ensures |r| == |columns|
  {
    seq(|columns|, k requires 0 <= k < |columns| => columns[k][i])
  }

  ghost predicate AllLong<T>(columns: seq<seq<T>>, n: nat) { forall k :: 0 <= k < |columns| ==> |columns[k]| == n }

  /** On each row, the helpers so far and the batches from `start` on are all the batches; `ratios` holds
      the rows. */
  ghost predicate Helping<T>(f: Field<T>, ratios: seq<seq<T>>, width: nat, c: nat, start: nat, helpers: seq<seq<T>>) {
    && c > 0 && start <= width && AllLong(ratios, width) && AllLong(helpers, |ratios|)
    && forall i :: 0 <= i < |ratios| ==> HelpingRow(f, ratios[i], c, start, Cells(helpers, i))
  }

  ghost predicate HelpingRow<T>(f: Field<T>, r: seq<T>, c: nat, start: nat, cells: seq<T>)
    requires c > 0 && start <= |r|
  {
    cells + ChunkSums(f, r[start..], c) == ChunkSums(f, r, c)
  }

  lemma HelpingStart<T>(f: Field<T>, ratios: seq<seq<T>>, width: nat, c: nat)
    requires c > 0 && AllLong(ratios, width)
    ensures Helping(f, ratios, width, c, 0, [])
  {
    forall i | 0 <= i < |ratios|
      ensures HelpingRow(f, ratios[i], c, 0, Cells([], i))
    {
      assert ratios[i][0..] == ratios[i];
    }
  }

  lemma HelpingRowStep<T>(f: Field<T>, r: seq<T>, c: nat, start: nat, cells: seq<T>, m: nat)
    requires c > 0 && start < |r| && m == (if |r| - start < c then |r| - start else c)
             && HelpingRow(f, r, c, start, cells)
    ensures HelpingRow(f, r, c, start + m, cells + [Sum(f, r[start..start + m])])
  {
    var x, rest := Sum(f, r[start..start + m]), ChunkSums(f, r[start + m..], c);
    assert ChunkSums(f, r[start..], c) == [x] + rest by {
      assert r[start..][..m] == r[start..start + m] && r[start..][m..] == r[start + m..];
    }
    hide ChunkSums, Sum;
    assert cells + ([x] + rest) == (cells + [x]) + rest;
  }

  lemma HelpingStep<T>(f: Field<T>, ratios: seq<seq<T>>, width: nat, c: nat, start: nat, helpers: seq<seq<T>>,
                       acc: seq<T>, m: nat)
    requires Helping(f, ratios, width, c, start, helpers) && Summed(f, ratios, width, start, start + m, acc)
    requires start < width && m == if width - start < c then width - start else c
    ensures Helping(f, ratios, width, c, start + m, helpers + [acc])
  {
    assert AllLong(helpers + [acc], |ratios|);
    forall i | 0 <= i < |ratios|
      ensures HelpingRow(f, ratios[i], c, start + m, Cells(helpers + [acc], i))
    {
      HelpingRowStep(f, ratios[i], c, start, Cells(helpers, i), m);
      assert Cells(helpers + [acc], i) == Cells(helpers, i) + [acc[i]];
    }
  }

  /** the sums of a range of entries on every row */
  ghost predicate Summed<T>(f: Field<T>, ratios: seq<seq<T>>, width: nat, from: nat, to: nat, acc: seq<T>) {
    && from <= to <= width && AllLong(ratios, width) && |acc| == |ratios|
    && forall i :: 0 <= i < |acc| ==> acc[i] == Sum(f, ratios[i][from..to])
  }

  /** the sums with the column of one more entry */
  lemma SummedStep<T(!new)>(f: Field<T>, ratios: seq<seq<T>>, width: nat, from: nat, to: nat, acc: seq<T>,
                            combined: seq<T>, next: seq<T>)
    requires IsField(f) && Summed(f, ratios, width, from, to, acc) && to < width
    requires |combined| == |next| == |acc|
    requires forall i :: 0 <= i < |acc| ==> combined[i] == ratios[i][to] && next[i] == f.Add(acc[i], combined[i])
    ensures Summed(f, ratios, width, from, to + 1, next)
  {
    forall i | 0 <= i < |acc|
      ensures next[i] == Sum(f, ratios[i][from..to + 1])
    {
      var r := ratios[i];
      SumAppend(f, r[from..to], [r[to]]);
      SumOne(f, r[to]);
      assert r[from..to + 1] == r[from..to] + [r[to]];
    }
  }

  lemma SummedOne<T(!new)>(f: Field<T>, ratios: seq<seq<T>>, width: nat, from: nat, acc: seq<T>)
    requires IsField(f) && AllLong(ratios, width) && from < width && |acc| == |ratios|
    requires forall i :: 0 <= i < |acc| ==> acc[i] == ratios[i][from]
    ensures Summed(f, ratios, width, from, from + 1, acc)
  {
    forall i | 0 <= i < |acc|
      ensures acc[i] == Sum(f, ratios[i][from..from + 1])
    {
      SumOne(f, acc[i]);
      assert ratios[i][from..from + 1] == [acc[i]];
    }
  }

  /** `get_helper_cols`; c is the constraint degree less one */
  method GetHelperCols<T(!new)>(f: Field<T>, table: seq<seq<T>>, es: seq<Entry<T>>, ch: Challenge<T>, c: nat)
    returns (helpers: seq<seq<T>>)
    requires IsField(f) && IsTable(table) && EntriesFit(es, |table|) && c > 0 && AllRegular(f, ch, es, table)
    ensures |helpers| == HelperCount(|es|, c) && AllLong(helpers, |table[0]|)
    ensures forall i :: 0 <= i < |table[0]| ==> Cells(helpers, i) == ChunkSums(f, RatiosAt(f, ch, es, table, i), c)
  {
    hide RatioAt, RatiosAt, Regular, AllRegular, IsField, EntryFits, Helping, Summed, ChunkSums, Sum, Ratios, Dens,
      Nums;
    helpers := [];
    var start := 0;
    ghost var ratios := AllRatios(f, ch, es, table);
    HelpingStart(f, ratios, |es|, c);
    while start < |es|
      invariant start <= |es| && Helping(f, ratios, |es|, c, start, helpers)
    {
      var m := if |es| - start < c then |es| - start else c;
      var acc := Batch(f, table, es, ch, start, m);
      HelpingStep(f, ratios, |es|, c, start, helpers, acc, m);
      helpers := helpers + [acc];
      start := start + m;
    }
    AllHelped(f, ratios, |es|, c, helpers);
  }

  /** the column of one batch of entries */
  method Batch<T(!new)>(f: Field<T>, table: seq<seq<T>>, es: seq<Entry<T>>, ch: Challenge<T>, start: nat, m: nat)
    returns (acc: seq<T>)
    requires IsField(f) && IsTable(table) && EntriesFit(es, |table|) && AllRegular(f, ch, es, table)
    requires m > 0 && start + m <= |es|
    ensures Summed(f, AllRatios(f, ch, es, table), |es|, start, start + m, acc)
  {
    hide RatioAt, RatiosAt, Regular, IsField, EntryFits, Summed, ChunkSums, Sum, Ratios, Dens, Nums, AllRatios;
    var n := |table[0]|;
    acc := FirstEntry(f, table, es, ch, start);
    for k := 1 to m
      invariant |acc| == n && Summed(f, AllRatios(f, ch, es, table), |es|, start, start + k, acc)
    {
      acc := AddEntry(f, table, es, ch, start, k, acc);
    }
  }

  method FirstEntry<T(!new)>(f: Field<T>, table: seq<seq<T>>, es: seq<Entry<T>>, ch: Challenge<T>,
                             start: nat) returns (acc: seq<T>)
    requires IsField(f) && IsTable(table) && EntriesFit(es, |table|) && AllRegular(f, ch, es, table) && start < |es|
    ensures |acc| == |table[0]| && Summed(f, AllRatios(f, ch, es, table), |es|, start, start + 1, acc)
  {
    acc := EntryColumn(f, ch, es[start], table);
    ghost var ratios := AllRatios(f, ch, es, table);
    hide RatioAt, RatiosAt, Regular, AllRegular, IsField, EntryFits, Summed, ChunkSums, Sum, Ratios, Dens, Nums;
    SummedOne(f, ratios, |es|, start, acc);
  }

  /** the sums with one more entry */
  method AddEntry<T(!new)>(f: Field<T>, table: seq<seq<T>>, es: seq<Entry<T>>, ch: Challenge<T>, start: nat, k: nat,
                           acc: seq<T>)
    returns (next: seq<T>)
    requires IsField(f) && IsTable(table) && EntriesFit(es, |table|) && AllRegular(f, ch, es, table) && start + k < |es|
    requires |acc| == |table[0]| && Summed(f, AllRatios(f, ch, es, table), |es|, start, start + k, acc)
    ensures |next| == |table[0]| && Summed(f, AllRatios(f, ch, es, table), |es|, start, start + k + 1, next)
  {
    var n := |table[0]|;
    var combined := EntryColumn(f, ch, es[start + k], table);
    hide RatioAt, RatiosAt, Regular, AllRegular, IsField, EntryFits, Summed, ChunkSums, Sum, Ratios, Dens, Nums;
    next := seq(n, i requires 0 <= i < n => f.Add(acc[i], combined[i]));
    SummedStep(f, AllRatios(f, ch, es, table), |es|, start, start + k, acc, combined, next);
  }

  ghost function AllRatios<T>(f: Field<T>, ch: Challenge<T>, es: seq<Entry<T>>, table: seq<seq<T>>): (r: seq<seq<T>>)
    requires IsTable(table) && EntriesFit(es, |table|)
    ensures |r| == |table[0]| && AllLong(r, |es|)
    ensures forall i :: 0 <= i < |r| ==> r[i] == RatiosAt(f, ch, es, table, i)
    ensures forall i, k {:trigger r[i][k]} :: 0 <= i < |r| && 0 <= k < |es| ==>
              r[i][k] == RatioAt(f, ch, es[k], table, i)
  {
    seq(|table[0]|, i requires 0 <= i < |table[0]| => RatiosAt(f, ch, es, table, i))
  }

  lemma AllHelped<T>(f: Field<T>, ratios: seq<seq<T>>, width: nat, c: nat, helpers: seq<seq<T>>)
    requires Helping(f, ratios, width, c, width, helpers) && |ratios| > 0
    ensures |helpers| == HelperCount(width, c) && AllLong(helpers, |ratios|)
    ensures forall i :: 0 <= i < |ratios| ==> Cells(helpers, i) == ChunkSums(f, ratios[i], c)
  {
    forall i | 0 <= i < |ratios|
      ensures Cells(helpers, i) == ChunkSums(f, ratios[i], c)
    {
      assert HelpingRow(f, ratios[i], c, width, Cells(helpers, i));
      assert ratios[i][width..] == [];
      assert Cells(helpers, i) + [] == Cells(helpers, i);
    }
    ChunkSumsCount(f, ratios[0], c);
    assert |Cells(helpers, 0)| == |helpers|;
  }

  // ----- constrain_helper_columns -----

  /** the constraints for batches of one or two */
  function HelperConstraints<T>(f: Field<T>, nums: seq<T>, dens: seq<T>, hs: seq<T>, c: nat): seq<T>
    requires |nums| == |dens| && 1 <= c <= 2 && |hs| == HelperCount(|dens|, c)
    decreases |hs|
  {
    if hs == [] then []
    else
      var d0, n0, h := dens[0], nums[0], hs[0];
      if c == 2 && |dens| >= 2 then
        var d1, n1 := dens[1], nums[1];
        [f.Sub(f.Sub(f.Mul(f.Mul(d1, d0), h), f.Mul(n0, d1)), f.Mul(n1, d0))]
          + HelperConstraints(f, nums[2..], dens[2..], hs[1..], c)
      else
        [f.Sub(f.Mul(d0, h), n0)] + HelperConstraints(f, nums[1..], dens[1..], hs[1..], c)
  }

  method ConstrainHelperColumns<T(!new)>(consumer: ConstraintConsumer<T>, nums: seq<T>, dens: seq<T>, hs: seq<T>,
                                         c: nat)
    requires consumer.Valid()
    requires |nums| == |dens| && 1 <= c <= 2 && |hs| == HelperCount(|dens|, c)
    modifies consumer
    ensures consumer.Valid()
    ensures consumer.emitted == old(consumer.emitted) + HelperConstraints(consumer.f, nums, dens, hs, c)
  {
    var f := consumer.f;
    var colIdx := 0;
    ghost var goal := consumer.emitted + HelperConstraints(f, nums, dens, hs, c);
    assert hs[0..] == hs && nums[0..] == nums && dens[0..] == dens;
    for k := 0 to |hs|
      invariant consumer.Valid() && Constraining(f, nums, dens, hs, c, colIdx, k, consumer.emitted, goal)
    {
      ConstrainingStep(f, nums, dens, hs, c, colIdx, k, consumer.emitted, goal);
      var h, remaining := hs[k], |dens| - colIdx;
      if c == 2 && remaining >= 2 {
        var c0, c1 := dens[colIdx], dens[colIdx + 1];
        var f0, f1 := nums[colIdx], nums[colIdx + 1];
        consumer.Constraint(f.Sub(f.Sub(f.Mul(f.Mul(c1, c0), h), f.Mul(f0, c1)), f.Mul(f1, c0)));
        colIdx := colIdx + 2;
      } else {
        consumer.Constraint(f.Sub(f.Mul(dens[colIdx], h), nums[colIdx]));
        colIdx := colIdx + 1;
      }
    }
    assert consumer.emitted + [] == consumer.emitted;
  }

  /** after k helper columns, which stand for the first colIdx entries */
  ghost predicate Constraining<T>(f: Field<T>, nums: seq<T>, dens: seq<T>, hs: seq<T>, c: nat, colIdx: nat, k: nat,
                                  emitted: seq<T>, goal: seq<T>) {
    && 1 <= c <= 2 && |nums| == |dens| && colIdx <= |dens| && k <= |hs| && |hs| - k == HelperCount(|dens| - colIdx, c)
    && emitted + HelperConstraints(f, nums[colIdx..], dens[colIdx..], hs[k..], c) == goal
  }

  lemma ConstrainingStep<T>(f: Field<T>, nums: seq<T>, dens: seq<T>, hs: seq<T>, c: nat, colIdx: nat, k: nat,
                            emitted: seq<T>, goal: seq<T>)
    requires Constraining(f, nums, dens, hs, c, colIdx, k, emitted, goal) && k < |hs|
    ensures colIdx < |dens|
    ensures if c == 2 && |dens| - colIdx >= 2 then
              var (c0, c1, f0, f1) := (dens[colIdx], dens[colIdx + 1], nums[colIdx], nums[colIdx + 1]);
              Constraining(f, nums, dens, hs, c, colIdx + 2, k + 1,
                emitted + [f.Sub(f.Sub(f.Mul(f.Mul(c1, c0), hs[k]), f.Mul(f0, c1)), f.Mul(f1, c0))], goal)
            else
              Constraining(f, nums, dens, hs, c, colIdx + 1, k + 1,
                emitted + [f.Sub(f.Mul(dens[colIdx], hs[k]), nums[colIdx])], goal)
  {
    HelperCountStep(|dens| - colIdx, c);
    var m := if c == 2 && |dens| - colIdx >= 2 then 2 else 1;
    var n', d', h' := nums[colIdx..], dens[colIdx..], hs[k..];
    assert n'[m..] == nums[colIdx + m..] && d'[m..] == dens[colIdx + m..] && h'[1..] == hs[k + 1..];
    HelperConstraintsStep(f, n', d', h', c);
    hide HelperConstraints, HelperCount;
    var all, rest := HelperConstraints(f, n', d', h', c), HelperConstraints(f, n'[m..], d'[m..], h'[1..], c);
    assert emitted + ([all[0]] + rest) == (emitted + [all[0]]) + rest;
  }

  lemma HelperConstraintsStep<T>(f: Field<T>, nums: seq<T>, dens: seq<T>, hs: seq<T>, c: nat)
    requires |nums| == |dens| && 1 <= c <= 2 && |hs| == HelperCount(|dens|, c) && hs != []
    ensures dens != []
    ensures var m := if c == 2 && |dens| >= 2 then 2 else 1;
            && |hs| - 1 == HelperCount(|dens| - m, c)
            && HelperConstraints(f, nums, dens, hs, c) ==
               [if m == 2 then f.Sub(f.Sub(f.Mul(f.Mul(dens[1], dens[0]), hs[0]), f.Mul(nums[0], dens[1])),
                 f.Mul(nums[1], dens[0]))
                else f.Sub(f.Mul(dens[0], hs[0]), nums[0])]
               + HelperConstraints(f, nums[m..], dens[m..], hs[1..], c)
  {
    HelperCountStep(|dens|, c);
  }

  /** d h - n = 0 says that h is n / d */
  lemma ConstraintOfOne<T(!new)>(f: Field<T>, d: T, n: T, h: T)
    requires IsField(f) && d != f.zero
    ensures f.Sub(f.Mul(d, h), n) == f.zero <==> h == f.Mul(f.Inv(d), n)
  {
    SubZero(f, f.Mul(d, h), n);
    InvLaw(f, d);
    var q := f.Mul(f.Inv(d), n);
    assert Law(f, d, f.Inv(d), n) && Law(f, n, f.one, n) && Law(f, f.one, n, n);
    assert f.Mul(d, q) == n;
    if f.Mul(d, h) == n {
      Cancel(f, d, h, q);
    }
  }

  /** the same over a common denominator */
  lemma ConstraintOfTwo<T(!new)>(f: Field<T>, d0: T, d1: T, n0: T, n1: T, h: T)
    requires IsField(f) && d0 != f.zero && d1 != f.zero
    ensures f.Sub(f.Sub(f.Mul(f.Mul(d1, d0), h), f.Mul(n0, d1)), f.Mul(n1, d0)) == f.zero
       <==> h == f.Add(f.Mul(f.Inv(d0), n0), f.Mul(f.Inv(d1), n1))
  {
    var q0, q1 := f.Mul(f.Inv(d0), n0), f.Mul(f.Inv(d1), n1);
    var d, q := f.Mul(d1, d0), f.Add(q0, q1);
    var lhs := f.Mul(d, h);
    ConstraintOfOne(f, d0, n0, q0);
    ConstraintOfOne(f, d1, n1, q1);
    SubZero(f, f.Mul(d0, q0), n0);
    SubZero(f, f.Mul(d1, q1), n1);
    NoZeroDivisors(f, d1, d0);
    ClearDenominators(f, d0, d1, n0, n1, q0, q1);
    SubSub(f, lhs, f.Mul(n0, d1), f.Mul(n1, d0));
    SubZero(f, lhs, f.Add(f.Mul(n0, d1), f.Mul(n1, d0)));
    if lhs == f.Mul(d, q) {
      Cancel(f, d, h, q);
    }
  }

  lemma ClearDenominators<T(!new)>(f: Field<T>, d0: T, d1: T, n0: T, n1: T, q0: T, q1: T)
    requires IsField(f) && f.Mul(d0, q0) == n0 && f.Mul(d1, q1) == n1
    ensures f.Mul(f.Mul(d1, d0), f.Add(q0, q1)) == f.Add(f.Mul(n0, d1), f.Mul(n1, d0))
  {
    var d := f.Mul(d1, d0);
    assert Law(f, d, q0, q1);
    assert Law(f, d1, d0, q0) && Law(f, d1, n0, q0);
    assert Law(f, d0, d1, q1) && Law(f, d0, n1, q1) && Law(f, d1, d0, q1);
  }

  /** (x - a) - b = x - (a + b) */
  lemma SubSub<T(!new)>(f: Field<T>, x: T, a: T, b: T)
    requires IsField(f)
    ensures f.Sub(f.Sub(x, a), b) == f.Sub(x, f.Add(a, b))
  {
    RingNeg(f);
    assert Law(f, x, f.Neg(a), f.Neg(b));
  }

  /** with nonzero denominators, the constraints hold exactly for the batched sums of ratios */
  lemma {:induction false} HelperConstraintsHold<T(!new)>(f: Field<T>, nums: seq<T>, dens: seq<T>, hs: seq<T>, c: nat)
    requires IsField(f) && Nonzero(f, dens)
    requires |nums| == |dens| && 1 <= c <= 2 && |hs| == HelperCount(|dens|, c)
    ensures AllZero(f, HelperConstraints(f, nums, dens, hs, c)) <==> hs == ChunkSums(f, Ratios(f, nums, dens), c)
    decreases |hs|
  {
    var r := Ratios(f, nums, dens);
    HelperCountStep(|dens|, c);
    if hs != [] {
      var m := if c == 2 && |dens| >= 2 then 2 else 1;
      assert Ratios(f, nums[m..], dens[m..]) == r[m..];
      assert Nonzero(f, dens[m..]);
      HelperConstraintsStep(f, nums, dens, hs, c);
      HelperConstraintsHold(f, nums[m..], dens[m..], hs[1..], c);
      FirstConstraint(f, nums, dens, hs[0], m);
      ChunkSumsFirst(f, r, c, m);
      var all, rest := HelperConstraints(f, nums, dens, hs, c), HelperConstraints(f, nums[m..], dens[m..], hs[1..], c);
      hide HelperConstraints, ChunkSums, Nonzero, IsField, Ratios, HelperCount;
      AllZeroConcat(f, [all[0]], rest);
      assert all == [all[0]] + rest;
      assert hs == [hs[0]] + hs[1..];
    }
  }

  lemma ChunkSumsFirst<T>(f: Field<T>, r: seq<T>, c: nat, m: nat)
    requires c > 0 && r != [] && m == if |r| < c then |r| else c
    ensures ChunkSums(f, r, c) == [Sum(f, r[..m])] + ChunkSums(f, r[m..], c)
  {
  }

  lemma FirstConstraint<T(!new)>(f: Field<T>, nums: seq<T>, dens: seq<T>, h: T, m: nat)
    requires IsField(f) && Nonzero(f, dens) && 1 <= m <= 2 && m <= |nums| == |dens|
    ensures var x := if m == 2 then f.Sub(f.Sub(f.Mul(f.Mul(dens[1], dens[0]), h), f.Mul(nums[0], dens[1])),
            f.Mul(nums[1], dens[0]))
                     else f.Sub(f.Mul(dens[0], h), nums[0]);
            x == f.zero <==> h == Sum(f, Ratios(f, nums, dens)[..m])
  {
    var r := Ratios(f, nums, dens);
    if m == 2 {
      SumOne(f, r[1]);
      assert r[..2][1..] == [r[1]];
      assert Sum(f, r[..2]) == f.Add(r[0], Sum(f, [r[1]]));
      ConstraintOfTwo(f, dens[0], dens[1], nums[0], nums[1], h);
    } else {
      SumOne(f, r[0]);
      assert r[..1] == [r[0]];
      ConstraintOfOne(f, dens[0], nums[0], h);
    }
  }
}
