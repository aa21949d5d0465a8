/** Columns and filters of a lookup: linear combinations of the cells of a row and of the next row, and
    sums of products of two of them. */
module Columns {
  import opened Fields

  datatype Column<T> = Column(linear: seq<(nat, T)>, nextRow: seq<(nat, T)>, constant: T)

  datatype Filter<T> = Filter(products: seq<(Column<T>, Column<T>)>, constants: seq<Column<T>>)

  predicate InWidth<T>(terms: seq<(nat, T)>, width: nat) { forall k :: 0 <= k < |terms| ==> terms[k].0 < width }

  predicate ColumnFits<T>(c: Column<T>, width: nat) { InWidth(c.linear, width) && InWidth(c.nextRow, width) }

  predicate ColumnsFit<T>(cs: seq<Column<T>>, width: nat) { forall k :: 0 <= k < |cs| ==> ColumnFits(cs[k], width) }

  predicate FilterFits<T>(c: Filter<T>, width: nat) {
    && ColumnsFit(c.constants, width)
    && forall k :: 0 <= k < |c.products| ==> ColumnFits(c.products[k].0, width) && ColumnFits(c.products[k].1, width)
  }

  function Combination<T>(f: Field<T>, terms: seq<(nat, T)>, v: seq<T>): T
    requires InWidth(terms, |v|)
  {
    if terms == [] then f.zero
    else
      var last := terms[|terms| - 1];
      f.Add(Combination(f, terms[..|terms| - 1], v), f.Mul(v[last.0], last.1))
  }

  /** the value on the current row only: what the verifier uses for tables and frequencies */
  function EvalLocal<T>(f: Field<T>, c: Column<T>, v: seq<T>): T
    requires ColumnFits(c, |v|)
  {
    f.Add(Combination(f, c.linear, v), c.constant)
  }

  function EvalWithNext<T>(f: Field<T>, c: Column<T>, v: seq<T>, nextV: seq<T>): T
    requires ColumnFits(c, |v|) && |nextV| == |v|
  {
    f.Add(f.Add(Combination(f, c.linear, v), Combination(f, c.nextRow, nextV)), c.constant)
  }

  function ProductSum<T>(f: Field<T>, products: seq<(Column<T>, Column<T>)>, v: seq<T>, nextV: seq<T>): T
    requires |nextV| == |v|
    requires forall k :: 0 <= k < |products| ==> ColumnFits(products[k].0, |v|) && ColumnFits(products[k].1, |v|)
  {
    if products == [] then f.zero
    else
      var last := products[|products| - 1];
      f.Add(ProductSum(f, products[..|products| - 1], v, nextV),
            f.Mul(EvalWithNext(f, last.0, v, nextV), EvalWithNext(f, last.1, v, nextV)))
  }

  function ColumnSum<T>(f: Field<T>, cs: seq<Column<T>>, v: seq<T>, nextV: seq<T>): T
    requires |nextV| == |v| && ColumnsFit(cs, |v|)
  {
    if cs == [] then f.zero
    else f.Add(ColumnSum(f, cs[..|cs| - 1], v, nextV), EvalWithNext(f, cs[|cs| - 1], v, nextV))
  }

  function EvalFilter<T>(f: Field<T>, c: Filter<T>, v: seq<T>, nextV: seq<T>): T
    requires |nextV| == |v| && FilterFits(c, |v|)
  {
    f.Add(ProductSum(f, c.products, v, nextV), ColumnSum(f, c.constants, v, nextV))
  }

  // ----- What the terms contribute -----

  lemma ConstantOnly<T(!new)>(f: Field<T>, constant: T, v: seq<T>, nextV: seq<T>)
    requires IsField(f) && |nextV| == |v|
    ensures EvalWithNext(f, Column([], [], constant), v, nextV) == constant
  {
    assert Law(f, f.zero, f.zero, f.zero) && Law(f, f.zero, constant, constant) && Law(f, constant, f.zero, f.zero);
  }

  /** one more term of the current row adds its cell, scaled */
  lemma MoreLocal<T(!new)>(f: Field<T>, c: Column<T>, k: nat, factor: T, v: seq<T>, nextV: seq<T>)
    requires IsField(f) && ColumnFits(c, |v|) && |nextV| == |v| && k < |v|
    ensures var more := c.(linear := c.linear + [(k, factor)]);
            && ColumnFits(more, |v|)
            && EvalWithNext(f, more, v, nextV) == f.Add(EvalWithNext(f, c, v, nextV), f.Mul(v[k], factor))
  {
    var more := c.linear + [(k, factor)];
    assert more[..|more| - 1] == c.linear;
    var x, n, t := Combination(f, c.linear, v), Combination(f, c.nextRow, nextV), f.Mul(v[k], factor);
    hide Combination;
    AddLast(f, x, t, n, c.constant);
  }

  /** one more term of the next row adds its cell there, scaled */
  lemma MoreNext<T(!new)>(f: Field<T>, c: Column<T>, k: nat, factor: T, v: seq<T>, nextV: seq<T>)
    requires IsField(f) && ColumnFits(c, |v|) && |nextV| == |v| && k < |v|
    ensures var more := c.(nextRow := c.nextRow + [(k, factor)]);
            && ColumnFits(more, |v|)
            && EvalWithNext(f, more, v, nextV) == f.Add(EvalWithNext(f, c, v, nextV), f.Mul(nextV[k], factor))
  {
    var more := c.nextRow + [(k, factor)];
    assert more[..|more| - 1] == c.nextRow;
    var x, n, t := Combination(f, c.linear, v), Combination(f, c.nextRow, nextV), f.Mul(nextV[k], factor);
    hide Combination;
    AddLast(f, n, t, x, c.constant);
    assert Law(f, f.Add(n, t), x, x) && Law(f, n, x, x);
  }

  /** ((x + t) + n) + c = ((x + n) + c) + t */
  lemma AddLast<T(!new)>(f: Field<T>, x: T, t: T, n: T, c: T)
    requires IsField(f)
    ensures f.Add(f.Add(f.Add(x, t), n), c) == f.Add(f.Add(f.Add(x, n), c), t)
  {
    Ring(f);
  }

  lemma NoFilter<T(!new)>(f: Field<T>, v: seq<T>, nextV: seq<T>)
    requires IsField(f) && |nextV| == |v|
    ensures EvalFilter(f, Filter([], []), v, nextV) == f.zero
  {
    assert Law(f, f.zero, f.zero, f.zero);
  }

  /** one more pair of columns adds the product of their values, one more column its value */
  lemma MoreFilter<T(!new)>(f: Field<T>, c: Filter<T>, a: Column<T>, b: Column<T>, v: seq<T>, nextV: seq<T>)
    requires IsField(f) && FilterFits(c, |v|) && ColumnFits(a, |v|) && ColumnFits(b, |v|) && |nextV| == |v|
    ensures FilterFits(c.(products := c.products + [(a, b)]), |v|)
            && FilterFits(c.(constants := c.constants + [a]), |v|)
    ensures var x, y := EvalWithNext(f, a, v, nextV), EvalWithNext(f, b, v, nextV);
            EvalFilter(f, c.(products := c.products + [(a, b)]), v, nextV)
              == f.Add(EvalFilter(f, c, v, nextV), f.Mul(x, y))
    ensures EvalFilter(f, c.(constants := c.constants + [a]), v, nextV)
         == f.Add(EvalFilter(f, c, v, nextV), EvalWithNext(f, a, v, nextV))
  {
    var ps, cs := c.products + [(a, b)], c.constants + [a];
    assert ps[..|ps| - 1] == c.products && cs[..|cs| - 1] == c.constants;
    var p, q := ProductSum(f, c.products, v, nextV), ColumnSum(f, c.constants, v, nextV);
    var x, y := EvalWithNext(f, a, v, nextV), EvalWithNext(f, b, v, nextV);
    assert ProductSum(f, ps, v, nextV) == f.Add(p, f.Mul(x, y)) && ColumnSum(f, cs, v, nextV) == f.Add(q, x);
    hide EvalWithNext, ProductSum, ColumnSum;
    assert Law(f, p, f.Mul(x, y), q) && Law(f, p, q, f.Mul(x, y)) && Law(f, f.Mul(x, y), q, q) && Law(f, p, q, x);
  }

  // ----- Tables, column by column -----

  predicate IsTable<T>(table: seq<seq<T>>) {
    |table| > 0 && |table[0]| > 0 && forall c :: 0 <= c < |table| ==> |table[c]| == |table[0]|
  }

  function Row<T>(table: seq<seq<T>>, i: nat): (r: seq<T>)
    requires IsTable(table) && i < |table[0]|
    ensures |r| == |table|
  {
    seq(|table|, c requires 0 <= c < |table| => table[c][i])
  }

  /** the rows are cyclic */
  function NextRow<T>(table: seq<seq<T>>, i: nat): (r: seq<T>)
    requires IsTable(table) && i < |table[0]|
    ensures |r| == |table|
  {
    Row(table, (i + 1) % |table[0]|)
  }

  function ColumnAt<T>(f: Field<T>, c: Column<T>, table: seq<seq<T>>, i: nat): T
    requires IsTable(table) && i < |table[0]| && ColumnFits(c, |table|)
  {
    EvalWithNext(f, c, Row(table, i), NextRow(table, i))
  }

  function FilterAt<T>(f: Field<T>, c: Filter<T>, table: seq<seq<T>>, i: nat): T
    requires IsTable(table) && i < |table[0]| && FilterFits(c, |table|)
  {
    EvalFilter(f, c, Row(table, i), NextRow(table, i))
  }

  /** adds the scaled values of a column, or of the column one row further, to the result */
  method AddScaled<T(!new)>(f: Field<T>, result: seq<T>, values: seq<T>, factor: T, next: bool) returns (r: seq<T>)
    requires |result| == |values| > 0
    ensures |r| == |result|
    ensures forall i :: 0 <= i < |r| ==>
              r[i] == f.Add(result[i], f.Mul(values[if next then (i + 1) % |r| else i], factor))
  {
    r := result;
    for i := 0 to |r|
      invariant |r| == |result|
      invariant forall j :: 0 <= j < i ==>
                  r[j] == f.Add(result[j], f.Mul(values[if next then (j + 1) % |r| else j], factor))
      invariant forall j :: i <= j < |r| ==> r[j] == result[j]
    {
      r := r[i := f.Add(r[i], f.Mul(values[if next then (i + 1) % |r| else i], factor))];
    }
  }

  /** a row after the first a terms of the current row and the first b of the next */
  ghost function PartialColumn<T>(f: Field<T>, c: Column<T>, table: seq<seq<T>>, a: nat, b: nat, i: nat): T
    requires IsTable(table) && i < |table[0]| && ColumnFits(c, |table|) && a <= |c.linear| && b <= |c.nextRow|
  {
    f.Add(f.Add(c.constant, Combination(f, c.linear[..a], Row(table, i))),
      Combination(f, c.nextRow[..b], NextRow(table, i)))
  }

  lemma PartialColumnEnds<T(!new)>(f: Field<T>, c: Column<T>, table: seq<seq<T>>, i: nat)
    requires IsField(f) && IsTable(table) && i < |table[0]| && ColumnFits(c, |table|)
    ensures PartialColumn(f, c, table, 0, 0, i) == c.constant
    ensures PartialColumn(f, c, table, |c.linear|, |c.nextRow|, i) == ColumnAt(f, c, table, i)
  {
    Ring(f);
    assert c.linear[..|c.linear|] == c.linear && c.nextRow[..|c.nextRow|] == c.nextRow;
  }

  lemma PartialColumnStep<T(!new)>(f: Field<T>, c: Column<T>, table: seq<seq<T>>, a: nat, b: nat, i: nat)
    requires IsField(f) && IsTable(table) && i < |table[0]| && ColumnFits(c, |table|) && a <= |c.linear|
             && b <= |c.nextRow|
    ensures a < |c.linear| && b == 0 ==>
              PartialColumn(f, c, table, a + 1, b, i) ==
              f.Add(PartialColumn(f, c, table, a, b, i), f.Mul(table[c.linear[a].0][i], c.linear[a].1))
    ensures b < |c.nextRow| ==>
              PartialColumn(f, c, table, a, b + 1, i) ==
              f.Add(PartialColumn(f, c, table, a, b, i),
                f.Mul(table[c.nextRow[b].0][(i + 1) % |table[0]|], c.nextRow[b].1))
  {
    var x, y := Combination(f, c.linear[..a], Row(table, i)), Combination(f, c.nextRow[..b], NextRow(table, i));
    if a < |c.linear| && b == 0 {
      assert c.linear[..a + 1][..a] == c.linear[..a];
      var t := f.Mul(table[c.linear[a].0][i], c.linear[a].1);
      assert Law(f, c.constant, x, t) && Law(f, f.Add(c.constant, f.Add(x, t)), x, x)
        && Law(f, f.Add(c.constant, x), x, x);
    }
    if b < |c.nextRow| {
      assert c.nextRow[..b + 1][..b] == c.nextRow[..b];
      assert Law(f, f.Add(c.constant, x), y, f.Mul(table[c.nextRow[b].0][(i + 1) % |table[0]|], c.nextRow[b].1));
    }
  }

  /** `Column::eval_all_rows`: term by term instead of row by row */
  method EvalAllRows<T(!new)>(f: Field<T>, c: Column<T>, table: seq<seq<T>>) returns (result: seq<T>)
    requires IsField(f) && IsTable(table) && ColumnFits(c, |table|)
    ensures |result| == |table[0]| && forall i :: 0 <= i < |result| ==> result[i] == ColumnAt(f, c, table, i)
  {
    hide PartialColumn, ColumnAt, IsField;
    var n := |table[0]|;
    result := seq(n, _ => c.constant);
    forall i | 0 <= i < n
      ensures result[i] == PartialColumn(f, c, table, 0, 0, i)
    {
      PartialColumnEnds(f, c, table, i);
    }
    for k := 0 to |c.linear|
      invariant |result| == n && forall i :: 0 <= i < n ==> result[i] == PartialColumn(f, c, table, k, 0, i)
    {
      var (col, factor) := c.linear[k];
      result := AddScaled(f, result, table[col], factor, false);
      forall i | 0 <= i < n
        ensures result[i] == PartialColumn(f, c, table, k + 1, 0, i)
      {
        PartialColumnStep(f, c, table, k, 0, i);
      }
    }
    for k := 0 to |c.nextRow|
      invariant |result| == n && forall i :: 0 <= i < n ==> result[i] == PartialColumn(f, c, table, |c.linear|, k, i)
    {
      var (col, factor) := c.nextRow[k];
      result := AddScaled(f, result, table[col], factor, true);
      forall i | 0 <= i < n
        ensures result[i] == PartialColumn(f, c, table, |c.linear|, k + 1, i)
      {
        PartialColumnStep(f, c, table, |c.linear|, k, i);
      }
    }
    forall i | 0 <= i < n
      ensures result[i] == ColumnAt(f, c, table, i)
    {
      PartialColumnEnds(f, c, table, i);
    }
  }

  /** a row after the first a products and the first b constants */
  ghost function PartialFilter<T>(f: Field<T>, c: Filter<T>, table: seq<seq<T>>, a: nat, b: nat, i: nat): T
    requires IsTable(table) && i < |table[0]| && FilterFits(c, |table|) && a <= |c.products| && b <= |c.constants|
  {
    f.Add(ProductSum(f, c.products[..a], Row(table, i), NextRow(table, i)),
          ColumnSum(f, c.constants[..b], Row(table, i), NextRow(table, i)))
  }

  lemma PartialFilterEnds<T(!new)>(f: Field<T>, c: Filter<T>, table: seq<seq<T>>, i: nat)
    requires IsField(f) && IsTable(table) && i < |table[0]| && FilterFits(c, |table|)
    ensures PartialFilter(f, c, table, 0, 0, i) == f.zero
    ensures PartialFilter(f, c, table, |c.products|, |c.constants|, i) == FilterAt(f, c, table, i)
  {
    assert Law(f, f.zero, f.zero, f.zero);
    assert c.products[..|c.products|] == c.products && c.constants[..|c.constants|] == c.constants;
  }

  lemma PartialFilterStep<T(!new)>(f: Field<T>, c: Filter<T>, table: seq<seq<T>>, a: nat, b: nat, i: nat)
    requires IsField(f) && IsTable(table) && i < |table[0]| && FilterFits(c, |table|) && a <= |c.products|
             && b <= |c.constants|
    ensures a < |c.products| && b == 0 ==>
              PartialFilter(f, c, table, a + 1, b, i) ==
              f.Add(PartialFilter(f, c, table, a, b, i),
                    f.Mul(ColumnAt(f, c.products[a].0, table, i), ColumnAt(f, c.products[a].1, table, i)))
    ensures b < |c.constants| ==>
              PartialFilter(f, c, table, a, b + 1, i) == f.Add(PartialFilter(f, c, table, a, b, i),
                ColumnAt(f, c.constants[b], table, i))
  {
    var v, w := Row(table, i), NextRow(table, i);
    var x, y := ProductSum(f, c.products[..a], v, w), ColumnSum(f, c.constants[..b], v, w);
    if a < |c.products| && b == 0 {
      assert c.products[..a + 1][..a] == c.products[..a];
      var t := f.Mul(ColumnAt(f, c.products[a].0, table, i), ColumnAt(f, c.products[a].1, table, i));
      assert Law(f, f.Add(x, t), x, x) && Law(f, x, x, x);
    }
    if b < |c.constants| {
      assert c.constants[..b + 1][..b] == c.constants[..b];
      assert Law(f, x, y, ColumnAt(f, c.constants[b], table, i));
    }
  }

  /** `Filter::eval_all_rows` */
  method EvalFilterAllRows<T(!new)>(f: Field<T>, c: Filter<T>, table: seq<seq<T>>) returns (result: seq<T>)
    requires IsField(f) && IsTable(table) && FilterFits(c, |table|)
    ensures |result| == |table[0]| && forall i :: 0 <= i < |result| ==> result[i] == FilterAt(f, c, table, i)
  {
    hide PartialFilter, ColumnAt, FilterAt, IsField;
    var n := |table[0]|;
    result := seq(n, _ => f.zero);
    forall i | 0 <= i < n
      ensures result[i] == PartialFilter(f, c, table, 0, 0, i)
    {
      PartialFilterEnds(f, c, table, i);
    }
    for k := 0 to |c.products|
      invariant |result| == n && forall i :: 0 <= i < n ==> result[i] == PartialFilter(f, c, table, k, 0, i)
    {
      var col1 := EvalAllRows(f, c.products[k].0, table);
      var col2 := EvalAllRows(f, c.products[k].1, table);
      result := seq(n, i requires 0 <= i < n => f.Add(result[i], f.Mul(col1[i], col2[i])));
      forall i | 0 <= i < n
        ensures result[i] == PartialFilter(f, c, table, k + 1, 0, i)
      {
        PartialFilterStep(f, c, table, k, 0, i);
      }
    }
    for k := 0 to |c.constants|
      invariant |result| == n && forall i :: 0 <= i < n ==> result[i] == PartialFilter(f, c, table, |c.products|, k, i)
    {
      var col := EvalAllRows(f, c.constants[k], table);
      result := seq(n, i requires 0 <= i < n => f.Add(result[i], col[i]));
      forall i | 0 <= i < n
        ensures result[i] == PartialFilter(f, c, table, |c.products|, k + 1, i)
      {
        PartialFilterStep(f, c, table, |c.products|, k, i);
      }
    }
    forall i | 0 <= i < n
      ensures result[i] == FilterAt(f, c, table, i)
    {
      PartialFilterEnds(f, c, table, i);
    }
  }
}
