/** The debug check of cross-table lookups on traces, as multisets of rows, and what it means for the sums
    that the argument compares. */
module CrossTableSums {
  import opened Columns
  import opened CrossTables
  import opened CrossTableVerifier
  import opened Fields
  import opened HelperColumns

  // ----- Selected rows -----

  /** every table is one and every entry fits its table */
  ghost predicate Fits<T>(traces: seq<seq<seq<T>>>, t: TableWithColumns<T>) {
    t.table < |traces| && IsTable(traces[t.table]) && EntryFits(EntryOf(t), |traces[t.table]|)
  }

  ghost predicate AllFit<T>(traces: seq<seq<seq<T>>>, ts: seq<TableWithColumns<T>>) { forall k :: 0 <= k < |ts| ==>
                            Fits(traces, ts[k]) }

  function RowOf<T>(f: Field<T>, e: Entry<T>, table: seq<seq<T>>, i: nat): seq<T>
    requires IsTable(table) && i < |table[0]| && EntryFits(e, |table|)
  {
    EvalColumns(f, e.columns, Row(table, i), NextRow(table, i))
  }

  /** the rows below n that the filter selects */
  ghost function Selected<T>(f: Field<T>, e: Entry<T>, table: seq<seq<T>>, n: nat): seq<seq<T>>
    requires IsTable(table) && n <= |table[0]| && EntryFits(e, |table|)
  {
    if n == 0 then []
    else Selected(f, e, table, n - 1) + if FilterAt(f, e.filter, table, n - 1) == f.one then [RowOf(f, e, table, n - 1)]
      else []
  }

  /** the filter is zero or one on the rows below n */
  ghost predicate BinaryBelow<T>(f: Field<T>, e: Entry<T>, table: seq<seq<T>>, n: nat)
    requires IsTable(table) && n <= |table[0]| && EntryFits(e, |table|)
  {
    forall i :: 0 <= i < n ==> FilterAt(f, e.filter, table, i) == f.one || FilterAt(f, e.filter, table, i) == f.zero
  }

  ghost predicate Binary<T>(f: Field<T>, traces: seq<seq<seq<T>>>, t: TableWithColumns<T>)
    requires Fits(traces, t)
  {
    BinaryBelow(f, EntryOf(t), traces[t.table], |traces[t.table][0]|)
  }

  ghost function SelectedRows<T>(f: Field<T>, traces: seq<seq<seq<T>>>, t: TableWithColumns<T>): seq<seq<T>>
    requires Fits(traces, t)
  {
    Selected(f, EntryOf(t), traces[t.table], |traces[t.table][0]|)
  }

  ghost function LookingRows<T>(f: Field<T>, traces: seq<seq<seq<T>>>, ts: seq<TableWithColumns<T>>): seq<seq<T>>
    requires AllFit(traces, ts)
  {
    if ts == [] then [] else LookingRows(f, traces, ts[..|ts| - 1]) + SelectedRows(f, traces, ts[|ts| - 1])
  }

  /** what the check promises: every filter is binary, and each row appears in the looking tables and among
      the extra rows as often as in the looked table */
  ghost predicate Consistent<T>(f: Field<T>, traces: seq<seq<seq<T>>>, ctl: CrossTableLookup<T>, extra: seq<seq<T>>)
    requires AllFit(traces, ctl.looking) && Fits(traces, ctl.looked)
  {
    && AllBinary(f, traces, ctl)
    && multiset(LookingRows(f, traces, ctl.looking) + extra) == multiset(SelectedRows(f, traces, ctl.looked))
  }

  ghost predicate AllBinary<T>(f: Field<T>, traces: seq<seq<seq<T>>>, ctl: CrossTableLookup<T>)
    requires AllFit(traces, ctl.looking) && Fits(traces, ctl.looked)
  {
    (forall k :: 0 <= k < |ctl.looking| ==> Binary(f, traces, ctl.looking[k])) && Binary(f, traces, ctl.looked)
  }

  // ----- check_ctl -----

  datatype CtlCheck = Passed | Mismatch | NonBinary

  /** where each row occurs */
  ghost predicate Locates<T(!new)>(m: map<seq<T>, seq<(nat, nat)>>, rows: multiset<seq<T>>) {
    forall row {:trigger rows[row]} {:trigger row in m} ::
      if row in m then |m[row]| == rows[row] > 0 else rows[row] == 0
  }

  function Located<T(==)>(m: map<seq<T>, seq<(nat, nat)>>, row: seq<T>, at: (nat, nat)): map<seq<T>, seq<(nat, nat)>> {
    m[row := (if row in m then m[row] else []) + [at]]
  }

  lemma LocatedIsPushed<T(!new)>(m: map<seq<T>, seq<(nat, nat)>>, rows: seq<seq<T>>, row: seq<T>, at: (nat, nat))
    requires Locates(m, multiset(rows))
    ensures Locates(Located(m, row, at), multiset(rows + [row]))
  {
    var m' := Located(m, row, at);
    assert multiset(rows + [row]) == multiset(rows) + multiset{row};
    forall r
      ensures if r in m' then |m'[r]| == multiset(rows + [row])[r] > 0 else multiset(rows + [row])[r] == 0
    {
      assert if r in m then |m[r]| == multiset(rows)[r] > 0 else multiset(rows)[r] == 0;
    }
  }

  method ProcessTable<T(==, !new)>(f: Field<T>, traces: seq<seq<seq<T>>>, t: TableWithColumns<T>,
                                   m: map<seq<T>, seq<(nat, nat)>>, ghost rows: seq<seq<T>>)
    returns (binary: bool, r: map<seq<T>, seq<(nat, nat)>>)
    requires IsField(f) && Fits(traces, t) && Locates(m, multiset(rows))
    ensures binary <==> Binary(f, traces, t)
    ensures binary ==> Locates(r, multiset(rows + SelectedRows(f, traces, t)))
  {
    hide Locates, Located, FilterAt, RowOf, Selected, IsField;
    var trace, e := traces[t.table], EntryOf(t);
    r := m;
    SelectedStart(f, e, trace, rows);
    for i := 0 to |trace[0]|
      invariant BinaryBelow(f, e, trace, i) && Locates(r, multiset(rows + Selected(f, e, trace, i)))
    {
      var filter := FilterAt(f, t.filter, trace, i);
      SelectedStep(f, e, trace, i, rows);
      if filter == f.one {
        var row := RowOf(f, e, trace, i);
        LocatedIsPushed(r, rows + Selected(f, e, trace, i), row, (t.table, i));
        r := Located(r, row, (t.table, i));
      } else if filter != f.zero {
        return false, r;
      }
    }
    return true, r;
  }

  lemma SelectedStart<T>(f: Field<T>, e: Entry<T>, table: seq<seq<T>>, rows: seq<seq<T>>)
    requires IsTable(table) && EntryFits(e, |table|)
    ensures rows + Selected(f, e, table, 0) == rows
  {
  }

  lemma SelectedStep<T(!new)>(f: Field<T>, e: Entry<T>, table: seq<seq<T>>, i: nat, rows: seq<seq<T>>)
    requires IsField(f) && IsTable(table) && i < |table[0]| && EntryFits(e, |table|)
    ensures f.one != f.zero
    ensures rows + Selected(f, e, table, i + 1) ==
            if FilterAt(f, e.filter, table, i) == f.one then (rows + Selected(f, e, table, i)) + [RowOf(f, e, table, i)]
            else rows + Selected(f, e, table, i)
  {
    assert Law(f, f.one, f.one, f.one);
    hide RowOf, FilterAt;
  }

  predicate CountsMatch<T(==)>(a: map<seq<T>, seq<(nat, nat)>>, b: map<seq<T>, seq<(nat, nat)>>) {
    forall row :: row in a ==> |a[row]| == if row in b then |b[row]| else 0
  }

  /** the counts of the rows of one map are those of the other */
  method CheckLocations<T(==)>(a: map<seq<T>, seq<(nat, nat)>>, b: map<seq<T>, seq<(nat, nat)>>) returns (ok: bool)
    ensures ok <==> CountsMatch(a, b)
  {
    var left := a.Keys;
    ok := true;
    while left != {}
      invariant left <= a.Keys
      invariant forall row :: row in a.Keys - left ==> |a[row]| == if row in b then |b[row]| else 0
      decreases |left|
    {
      var row :| row in left;
      if |a[row]| != if row in b then |b[row]| else 0 {
        return false;
      }
      left := left - {row};
    }
  }

  lemma SameCounts<T(!new)>(a: map<seq<T>, seq<(nat, nat)>>, b: map<seq<T>, seq<(nat, nat)>>, ra: seq<seq<T>>,
                            rb: seq<seq<T>>)
    requires Locates(a, multiset(ra)) && Locates(b, multiset(rb))
    ensures CountsMatch(a, b) && CountsMatch(b, a) <==> multiset(ra) == multiset(rb)
  {
    var ma, mb := multiset(ra), multiset(rb);
    if CountsMatch(a, b) && CountsMatch(b, a) {
      forall row
        ensures ma[row] == mb[row]
      {
        assert if row in a then |a[row]| == ma[row] > 0 else ma[row] == 0;
        assert if row in b then |b[row]| == mb[row] > 0 else mb[row] == 0;
      }
      assert ma == mb;
    }
    if ma == mb {
      forall row
        ensures row in a <==> row in b
        ensures row in a ==> |a[row]| == |b[row]|
      {
        assert if row in a then |a[row]| == ma[row] > 0 else ma[row] == 0;
        assert if row in b then |b[row]| == mb[row] > 0 else mb[row] == 0;
      }
    }
  }

  /** `check_ctl`; where the source panics, the result is not `Passed` */
  method CheckCtl<T(==, !new)>(f: Field<T>, traces: seq<seq<seq<T>>>, ctl: CrossTableLookup<T>,
                               extra: seq<seq<T>>) returns (r: CtlCheck)
    requires IsField(f) && AllFit(traces, ctl.looking) && Fits(traces, ctl.looked)
    ensures r == NonBinary <==> !AllBinary(f, traces, ctl)
    ensures r == Passed <==> Consistent(f, traces, ctl, extra)
  {
    hide Locates, Located, CountsMatch, Binary, LookingRows, SelectedRows, Fits, IsField;
    var looking, looked: map<seq<T>, seq<(nat, nat)>> := map[], map[];
    LocatesNothing<T>();
    ghost var rows: seq<seq<T>> := [];
    var ok: bool;
    LookingRowsNone(f, traces);
    assert ctl.looking[..0] == [];
    for k := 0 to |ctl.looking|
      invariant forall j :: 0 <= j < k ==> Binary(f, traces, ctl.looking[j])
      invariant rows == LookingRows(f, traces, ctl.looking[..k]) && Locates(looking, multiset(rows))
    {
      ok, looking := ProcessTable(f, traces, ctl.looking[k], looking, rows);
      if !ok {
        return NonBinary;
      }
      LookingRowsStep(f, traces, ctl.looking, k);
      rows := rows + SelectedRows(f, traces, ctl.looking[k]);
    }
    assert ctl.looking[..|ctl.looking|] == ctl.looking;
    ok, looked := ProcessTable(f, traces, ctl.looked, looked, []);
    if !ok {
      return NonBinary;
    }
    ghost var lookedRows := SelectedRows(f, traces, ctl.looked);
    assert [] + lookedRows == lookedRows;
    looking := WithExtras(looking, rows, extra);
    SameCounts(looking, looked, rows + extra, lookedRows);
    var ok1 := CheckLocations(looking, looked);
    if !ok1 {
      return Mismatch;
    }
    var ok2 := CheckLocations(looked, looking);
    return if ok2 then Passed else Mismatch;
  }

  /** the extra rows, at no particular place */
  method WithExtras<T(==, !new)>(m: map<seq<T>, seq<(nat, nat)>>, ghost rows: seq<seq<T>>, extra: seq<seq<T>>)
    returns (looking: map<seq<T>, seq<(nat, nat)>>)
    requires Locates(m, multiset(rows))
    ensures Locates(looking, multiset(rows + extra))
  {
    hide Locates, Located;
    looking := m;
    assert rows + extra[..0] == rows;
    for k := 0 to |extra|
      invariant Locates(looking, multiset(rows + extra[..k]))
    {
      LocatedIsPushed(looking, rows + extra[..k], extra[k], (0, 0));
      looking := Located(looking, extra[k], (0, 0));
      assert (rows + extra[..k]) + [extra[k]] == rows + extra[..k + 1];
    }
    assert extra[..|extra|] == extra;
  }

  lemma LocatesNothing<T(!new)>()
    ensures Locates<T>(map[], multiset([]))
  {
  }

  lemma LookingRowsNone<T>(f: Field<T>, traces: seq<seq<seq<T>>>)
    ensures AllFit(traces, []) && LookingRows(f, traces, []) == []
  {
  }

  lemma LookingRowsStep<T>(f: Field<T>, traces: seq<seq<seq<T>>>, ts: seq<TableWithColumns<T>>, k: nat)
    requires AllFit(traces, ts) && k < |ts|
    ensures AllFit(traces, ts[..k]) && AllFit(traces, ts[..k + 1])
    ensures LookingRows(f, traces, ts[..k + 1]) == LookingRows(f, traces, ts[..k]) + SelectedRows(f, traces, ts[k])
  {
    hide Fits, SelectedRows;
    assert ts[..k + 1][..k] == ts[..k];
  }

  // ----- Sums over rows -----

  /** the sum of 1 / combination over some rows */
  ghost function InverseSum<T>(f: Field<T>, ch: Challenge<T>, rows: seq<seq<T>>): T {
    if rows == [] then f.zero
    else f.Add(InverseSum(f, ch, rows[..|rows| - 1]), f.Inv(Combine(f, ch, rows[|rows| - 1])))
  }

  lemma {:induction false} InverseSumConcat<T(!new)>(f: Field<T>, ch: Challenge<T>, a: seq<seq<T>>, b: seq<seq<T>>)
    requires IsField(f)
    ensures InverseSum(f, ch, a + b) == f.Add(InverseSum(f, ch, a), InverseSum(f, ch, b))
  {
    var x := InverseSum(f, ch, a);
    if b == [] {
      assert a + b == a && Law(f, x, x, x);
    } else {
      var init, last := b[..|b| - 1], b[|b| - 1];
      assert (a + b)[..|a + b| - 1] == a + init;
      InverseSumConcat(f, ch, a, init);
      assert Law(f, x, InverseSum(f, ch, init), f.Inv(Combine(f, ch, last)));
    }
  }

  lemma InverseSumOne<T(!new)>(f: Field<T>, ch: Challenge<T>, row: seq<T>)
    requires IsField(f)
    ensures InverseSum(f, ch, [row]) == f.Inv(Combine(f, ch, row))
  {
    var x := f.Inv(Combine(f, ch, row));
    assert [row][..0] == [];
    assert InverseSum(f, ch, [row]) == f.Add(f.zero, x) && Law(f, x, f.zero, x) && Law(f, f.zero, x, x);
  }

  lemma SameWithout<X>(a: seq<X>, b: seq<X>, init: seq<X>, left: seq<X>, right: seq<X>, last: X)
    requires multiset(a) == multiset(b) && a == init + [last] && b == left + [last] + right
    ensures multiset(init) == multiset(left + right)
  {
    assert multiset(a) == multiset(init) + multiset{last};
    assert multiset(b) == multiset(left) + multiset{last} + multiset(right);
    assert multiset(init) == multiset(a) - multiset{last};
  }

  /** the sum depends only on how often each row occurs */
  lemma {:induction false} InverseSumOfMultiset<T(!new)>(f: Field<T>, ch: Challenge<T>, a: seq<seq<T>>, b: seq<seq<T>>)
    requires IsField(f) && multiset(a) == multiset(b)
    ensures InverseSum(f, ch, a) == InverseSum(f, ch, b)
    decreases |a|
  {
    assert |multiset(a)| == |multiset(b)|;
    if a != [] {
      var init, last := a[..|a| - 1], a[|a| - 1];
      assert a == init + [last];
      assert last in multiset(b);
      var k :| 0 <= k < |b| && b[k] == last;
      var left, right := b[..k], b[k + 1..];
      assert b == left + [last] + right;
      SameWithout(a, b, init, left, right, last);
      InverseSumOfMultiset(f, ch, init, left + right);
      InverseSumConcat(f, ch, init, [last]);
      InverseSumConcat(f, ch, left, right);
      InverseSumConcat(f, ch, left + [last], right);
      InverseSumConcat(f, ch, left, [last]);
      var x, y, z := InverseSum(f, ch, left), InverseSum(f, ch, [last]), InverseSum(f, ch, right);
      assert Law(f, x, y, z) && Law(f, y, z, z) && Law(f, x, z, y);
    }
  }

  /** the first n rows of one entry: with a binary filter, the ratios add up to the inverses of the selected rows */
  lemma {:induction false} EntryPrefix<T(!new)>(f: Field<T>, ch: Challenge<T>, e: Entry<T>, table: seq<seq<T>>, n: nat)
    requires IsField(f) && IsTable(table) && EntryFits(e, |table|) && n <= |table[0]| && BinaryBelow(f, e, table, n)
    ensures Sum(f, RowTotals(f, ch, [e], table)[..n]) == InverseSum(f, ch, Selected(f, e, table, n))
  {
    var totals := RowTotals(f, ch, [e], table);
    if n > 0 {
      EntryPrefix(f, ch, e, table, n - 1);
      SumAppend(f, totals[..n - 1], [totals[n - 1]]);
      SumOne(f, totals[n - 1]);
      assert totals[..n] == totals[..n - 1] + [totals[n - 1]];
      EntryRow(f, ch, e, table, n - 1);
      var chosen := if FilterAt(f, e.filter, table, n - 1) == f.one then [RowOf(f, e, table, n - 1)] else [];
      InverseSumConcat(f, ch, Selected(f, e, table, n - 1), chosen);
    }
  }

  lemma EntryRow<T(!new)>(f: Field<T>, ch: Challenge<T>, e: Entry<T>, table: seq<seq<T>>, i: nat)
    requires IsField(f) && IsTable(table) && EntryFits(e, |table|) && i < |table[0]|
    requires FilterAt(f, e.filter, table, i) == f.one || FilterAt(f, e.filter, table, i) == f.zero
    ensures RowTotals(f, ch, [e], table)[i] ==
            InverseSum(f, ch, if FilterAt(f, e.filter, table, i) == f.one then [RowOf(f, e, table, i)] else [])
  {
    var ratios := RatiosAt(f, ch, [e], table, i);
    var q := RatioAt(f, ch, e, table, i);
    assert ratios == [q];
    SumOne(f, q);
    var inverse := f.Inv(DenAt(f, ch, e, table, i));
    InverseSumOne(f, ch, RowOf(f, e, table, i));
    MulZero(f, inverse);
    assert Law(f, inverse, inverse, inverse);
  }

  /** the total of some entries of a table, one entry at a time */
  lemma TotalOfMore<T(!new)>(f: Field<T>, ch: Challenge<T>, es: seq<Entry<T>>, e: Entry<T>, table: seq<seq<T>>)
    requires IsField(f) && IsTable(table) && EntriesFit(es, |table|) && EntryFits(e, |table|)
    ensures EntriesFit(es + [e], |table|) && EntriesFit([e], |table|)
    ensures TableTotal(f, ch, es + [e], table) == f.Add(TableTotal(f, ch, es, table), TableTotal(f, ch, [e], table))
  {
    var a, b, both := RowTotals(f, ch, es, table), RowTotals(f, ch, [e], table), RowTotals(f, ch, es + [e], table);
    forall i | 0 <= i < |table[0]|
      ensures both[i] == f.Add(a[i], b[i])
    {
      var ra, rb := RatiosAt(f, ch, es, table, i), RatiosAt(f, ch, [e], table, i);
      assert RatiosAt(f, ch, es + [e], table, i) == ra + rb;
      SumAppend(f, ra, rb);
    }
    SumPointwise(f, a, b, both);
  }

  lemma TotalOfOne<T(!new)>(f: Field<T>, ch: Challenge<T>, traces: seq<seq<seq<T>>>, t: TableWithColumns<T>)
    requires IsField(f) && Fits(traces, t) && Binary(f, traces, t)
    ensures EntriesFit([EntryOf(t)], |traces[t.table]|)
    ensures TableTotal(f, ch, [EntryOf(t)], traces[t.table]) == InverseSum(f, ch, SelectedRows(f, traces, t))
  {
    var table, e := traces[t.table], EntryOf(t);
    EntryPrefix(f, ch, e, table, |table[0]|);
    assert RowTotals(f, ch, [e], table)[..|table[0]|] == RowTotals(f, ch, [e], table);
  }
}
