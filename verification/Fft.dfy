/** plonky2's in-place FFT (scalar path): bit reversal, the copies that replace the first r rounds
    when the tail of the input is zero, and the depth-first loop over butterflies. */
module Fft {
  import opened Arithmetic
  import opened Fields
  import opened FieldMethods
  import opened BitReversal
  import opened ReverseIndexBits
  import opened Dft

  // ----- The recursive form of the butterfly rounds -----

  /** row t of the table has an entry for each of the 2^t butterflies of a block of round t */
  ghost predicate TableShape<T>(table: seq<seq<T>>, lg: nat) {
    |table| == lg && forall t :: 0 <= t < lg ==> |table[t]| >= Pow2(t)
  }

  function Row<T>(table: seq<seq<T>>, t: nat): seq<T> {
    if t < |table| then table[t] else []
  }

  /** rounds r, ..., t - 1 applied to a block of 2^t values */
  ghost function Rounds<T>(f: Field<T>, table: seq<seq<T>>, r: nat, t: nat, s: seq<T>): (v: seq<T>)
    ensures |v| == |s|
  {
    if t <= r || |s| < Pow2(t - 1) then s
    else
      var h := Pow2(t - 1);
      Merge(f, Rounds(f, table, r, t - 1, s[..h]), Rounds(f, table, r, t - 1, s[h..]), Row(table, t - 1))
  }

  // ----- The state of the depth-first loop -----

  /** `s`, which is `o` blocks of 2^t values, after every pair of neighbouring blocks that starts at
      an even block has been merged, and so on for the resulting larger blocks: the finished blocks
      have the sizes of the binary digits of o. */
  ghost function Finished<T>(f: Field<T>, table: seq<seq<T>>, r: nat, t: nat, o: nat, s: seq<T>): (v: seq<T>)
    ensures |v| == |s|
    decreases o
  {
    if o == 0 then s
    else if o % 2 == 0 then Finished(f, table, r, t + 1, o / 2, s)
    else LastApart(f, table, r, t, o, s)
  }

  /** the same, but with the last block of 2^t values not yet merged with the one before it */
  ghost function LastApart<T>(f: Field<T>, table: seq<seq<T>>, r: nat, t: nat, o: nat, s: seq<T>): (v: seq<T>)
    requires o > 0
    ensures |v| == |s|
    decreases o, 0
  {
    var h := Pow2(t);
    if |s| < h then s
    else Finished(f, table, r, t, o - 1, s[..|s| - h]) + Rounds(f, table, r, t, s[|s| - h..])
  }

  /** one round of butterflies on the last `2 * half` values */
  ghost function MergeLast<T>(f: Field<T>, v: seq<T>, half: nat, row: seq<T>): (v': seq<T>)
    ensures |v'| == |v|
  {
    var k := |v| - 2 * half;
    if k < 0 then v else v[..k] + Merge(f, v[k..k + half], v[k + half..], row)
  }

  /** the last two blocks of a sequence */
  lemma MergeSlices<T>(s: seq<T>, h: nat)
    requires |s| >= 2 * h
    ensures var (k, s') := (|s| - 2 * h, s[..|s| - h]); var (x, y) := (s[..k], s[k..]);
            s[|s| - h..] == y[h..] && s'[..|s'| - h] == x && s'[|s'| - h..] == y[..h]
  {
  }

  /** merging the last block with its even neighbour before it */
  lemma MergeStep<T>(f: Field<T>, table: seq<seq<T>>, r: nat, t: nat, o: nat, s: seq<T>)
    requires o > 0 && o % 2 == 0 && |s| >= 2 * Pow2(t) && t >= r
    ensures MergeLast(f, LastApart(f, table, r, t, o, s), Pow2(t), Row(table, t))
            == LastApart(f, table, r, t + 1, o / 2, s)
  {
    MergeSlices(s, Pow2(t));
    var h := Pow2(t);
    var k := |s| - 2 * h;
    var x, y := s[..k], s[k..];
    var a, b := Rounds(f, table, r, t, y[..h]), Rounds(f, table, r, t, y[h..]);
    var p := Finished(f, table, r, t, o - 2, x);
    var s' := s[..|s| - h];
    assert Finished(f, table, r, t, o - 1, s') == p + a;
    assert LastApart(f, table, r, t, o, s) == p + a + b;
    assert Rounds(f, table, r, t + 1, y) == Merge(f, a, b, Row(table, t));
    assert p == Finished(f, table, r, t + 1, o / 2 - 1, x);
    hide Finished, Rounds, Merge;
    MergeOfParts(f, p, a, b, Row(table, t));
  }

  lemma MergeOfParts<T>(f: Field<T>, p: seq<T>, a: seq<T>, b: seq<T>, row: seq<T>)
    requires |a| == |b|
    ensures MergeLast(f, p + a + b, |a|, row) == p + Merge(f, a, b, row)
  {
    var v, k := p + a + b, |p|;
    assert v[..k] == p && v[k..k + |a|] == a && v[k + |a|..] == b;
  }

  /** once everything is reached, the single finished block is the result of all rounds */
  lemma {:induction false} AllFinished<T>(f: Field<T>, table: seq<seq<T>>, r: nat, t: nat, k: nat, s: seq<T>)
    requires |s| == Pow2(t + k)
    ensures Finished(f, table, r, t, Pow2(k), s) == Rounds(f, table, r, t + k, s)
    decreases k
  {
    if k > 0 {
      AllFinished(f, table, r, t + 1, k - 1, s);
      assert Pow2(k) / 2 == Pow2(k - 1);
    } else {
      assert s[..0] == [] && s[0..] == s;
    }
  }

  // ----- The copies that stand for the first r rounds -----

  /** `i & !((1 << r) - 1)` */
  function ClearLow(i: nat, r: nat): (j: nat)
    ensures j <= i
  {
    if r == 0 then i else 2 * ClearLow(i / 2, r - 1)
  }

  lemma {:induction false} ClearLowTwice(i: nat, r: nat)
    ensures ClearLow(ClearLow(i, r), r) == ClearLow(i, r)
  {
    if r > 0 {
      ClearLowTwice(i / 2, r - 1);
    }
  }

  lemma {:induction false} ClearLowSmall(i: nat, r: nat)
    requires i < Pow2(r)
    ensures ClearLow(i, r) == 0
  {
    if r > 0 {
      ClearLowSmall(i / 2, r - 1);
    }
  }

  /** clearing low bits does not touch a higher bit */
  lemma {:induction false} ClearLowHigh(i: nat, r: nat, b: nat)
    requires r <= b
    ensures ClearLow(Pow2(b) + i, r) == Pow2(b) + ClearLow(i, r)
  {
    if r > 0 {
      assert Pow2(b) == 2 * Pow2(b - 1);
      assert (Pow2(b) + i) / 2 == Pow2(b - 1) + i / 2;
      ClearLowHigh(i / 2, r - 1, b - 1);
    }
  }

  function SpreadPrefix<T>(v: seq<T>, r: nat, n: nat): (s: seq<T>)
    requires n <= |v|
    ensures |s| == n
  {
    if n == 0 then [] else SpreadPrefix(v, r, n - 1) + [v[ClearLow(n - 1, r)]]
  }

  /** every aligned run of 2^r values replaced by copies of its first value */
  function Spread<T>(v: seq<T>, r: nat): (s: seq<T>)
    ensures |s| == |v|
  {
    SpreadPrefix(v, r, |v|)
  }

  lemma {:induction false} SpreadPrefixAt<T>(v: seq<T>, r: nat, n: nat, i: nat)
    requires i < n <= |v|
    ensures SpreadPrefix(v, r, n)[i] == v[ClearLow(i, r)]
  {
    if i < n - 1 {
      SpreadPrefixAt(v, r, n - 1, i);
    }
  }

  lemma SpreadAt<T>(v: seq<T>, r: nat, i: nat)
    requires i < |v|
    ensures Spread(v, r)[i] == v[ClearLow(i, r)]
  {
    SpreadPrefixAt(v, r, |v|, i);
  }

  lemma SpreadReversedAt<T>(c: seq<T>, t: nat, r: nat, i: nat)
    requires |c| == Pow2(t) && i < |c|
    ensures Spread(BitReversed(c, t), r)[i] == c[BitRev(t, ClearLow(i, r))]
  {
    SpreadAt(BitReversed(c, t), r, i);
  }

  /** index i of the spread reversal of a part of the coefficients */
  lemma SpreadPartAt<T>(c: seq<T>, odd: nat, t: nat, r: nat, i: nat, i': nat)
    requires r < t && |c| == Pow2(t) && i < Pow2(t - 1) && odd <= 1
    requires i' == if odd == 0 then i else Pow2(t - 1) + i
    ensures Spread(BitReversed(c, t), r)[i'] == Spread(BitReversed(Part(c, odd), t - 1), r)[i]
  {
    SpreadReversedAt(c, t, r, i');
    SpreadReversedAt(Part(c, odd), t - 1, r, i);
    SourceIndex(odd, t, r, i, i');
    PartAt(c, odd, BitRev(t - 1, ClearLow(i, r)));
  }

  lemma SourceIndex(odd: nat, t: nat, r: nat, i: nat, i': nat)
    requires r < t && i < Pow2(t - 1) && odd <= 1
    requires i' == if odd == 0 then i else Pow2(t - 1) + i
    ensures BitRev(t, ClearLow(i', r)) == 2 * BitRev(t - 1, ClearLow(i, r)) + odd
  {
    hide BitRev, Pow2, ClearLow;
    var j := ClearLow(i, r);
    ReverseTop(t, j);
    assert odd == 0 ==> ClearLow(i', r) == j;
    if odd == 1 {
      ClearLowHigh(i, r, t - 1);
      assert ClearLow(i', r) == Pow2(t - 1) + j;
    }
  }

  /** the reversed order of 2^t coefficients is the reversed even ones followed by the reversed odd ones,
      and the copies respect the halves */
  lemma SpreadHalves<T>(c: seq<T>, t: nat, r: nat)
    requires r < t && |c| == Pow2(t)
    ensures var (v, h) := (Spread(BitReversed(c, t), r), Pow2(t - 1));
            && v[..h] == Spread(BitReversed(Evens(c), t - 1), r)
            && v[h..] == Spread(BitReversed(Odds(c), t - 1), r)
  {
    var v, h := Spread(BitReversed(c, t), r), Pow2(t - 1);
    var even, odd := Spread(BitReversed(Part(c, 0), t - 1), r), Spread(BitReversed(Part(c, 1), t - 1), r);
    forall i: nat | i < h
      ensures v[..h][i] == even[i]
    {
      SpreadPartAt(c, 0, t, r, i, i);
    }
    forall i: nat | i < h
      ensures v[h..][i] == odd[i]
    {
      SpreadPartAt(c, 1, t, r, i, h + i);
    }
  }

  lemma ReverseTop(t: nat, j: nat)
    requires t > 0 && j < Pow2(t - 1)
    ensures BitRev(t, j) == 2 * BitRev(t - 1, j)
    ensures BitRev(t, Pow2(t - 1) + j) == 2 * BitRev(t - 1, j) + 1
  {
    var zero, one, bit := 0, 1, 1;
    assert Pow2(1) == 2 * Pow2(0);
    assert zero * Pow2(t - 1) + j == j && one * Pow2(t - 1) + j == Pow2(t - 1) + j;
    BitRevOne(0);
    BitRevOne(1);
    hide BitRev, Pow2;
    BitRevConcat(t - 1, bit, zero, j);
    BitRevConcat(t - 1, bit, one, j);
  }

  // ----- Correctness of the rounds -----

  /** row t of the table holds the powers of the generator of order 2^(t+1) */
  ghost predicate GoodTable<T(!new)>(f: Field<T>, table: seq<seq<T>>, w: T, lg: nat) {
    && |table| == lg
    && forall t {:trigger table[t]} :: 0 <= t < lg ==> IsPowersRow(f, table[t], RootAt(f, w, lg, t + 1), Pow2(t))
  }

  /** all but the first 1/2^r of the coefficients are zero */
  ghost predicate ZeroTail<T>(f: Field<T>, c: seq<T>, t: nat, r: nat) {
    r <= t && forall j :: Pow2(t - r) <= j < |c| ==> c[j] == f.zero
  }

  lemma {:induction false} EvalOfZeros<T(!new)>(f: Field<T>, c: seq<T>, x: T)
    requires IsField(f) && forall j :: 0 <= j < |c| ==> c[j] == f.zero
    ensures Eval(f, c, x) == f.zero
  {
    if c != [] {
      EvalOfZeros(f, c[1..], x);
      MulZero(f, x);
      assert Law(f, f.zero, f.zero, f.zero);
    }
  }

  lemma EvalOfConstant<T(!new)>(f: Field<T>, c: seq<T>, x: T)
    requires IsField(f) && c != [] && forall j :: 1 <= j < |c| ==> c[j] == f.zero
    ensures Eval(f, c, x) == c[0]
  {
    EvalOfZeros(f, c[1..], x);
    MulZero(f, x);
    assert Law(f, c[0], f.zero, f.zero);
  }

  lemma {:induction false} RoundsCorrect<T(!new)>(f: Field<T>, table: seq<seq<T>>, w: T, lg: nat, r: nat, t: nat,
                                                  c: seq<T>)
    requires IsField(f) && HasOrder2(f, w, lg) && GoodTable(f, table, w, lg)
    requires t <= lg && |c| == Pow2(t) && ZeroTail(f, c, t, r)
    ensures Rounds(f, table, r, t, Spread(BitReversed(c, t), r)) == Transform(f, c, RootAt(f, w, lg, t))
    decreases t
  {
    if t == r {
      ConstantCase(f, c, r, RootAt(f, w, lg, t));
    } else {
      HalvesZeroTail(f, c, t, r);
      hide IsField, HasOrder2, GoodTable, ZeroTail, Rounds, Spread, Transform, RootAt;
      RoundsCorrect(f, table, w, lg, r, t - 1, Evens(c));
      RoundsCorrect(f, table, w, lg, r, t - 1, Odds(c));
      RoundsStep(f, table, w, lg, r, t, c);
    }
  }

  lemma RoundsStep<T(!new)>(f: Field<T>, table: seq<seq<T>>, w: T, lg: nat, r: nat, t: nat, c: seq<T>)
    requires IsField(f) && HasOrder2(f, w, lg) && GoodTable(f, table, w, lg)
    requires r < t <= lg && |c| == Pow2(t)
    requires Rounds(f, table, r, t - 1, Spread(BitReversed(Evens(c), t - 1), r))
             == Transform(f, Evens(c), RootAt(f, w, lg, t - 1))
    requires Rounds(f, table, r, t - 1, Spread(BitReversed(Odds(c), t - 1), r))
             == Transform(f, Odds(c), RootAt(f, w, lg, t - 1))
    ensures Rounds(f, table, r, t, Spread(BitReversed(c, t), r)) == Transform(f, c, RootAt(f, w, lg, t))
  {
    var e, o, w' := Evens(c), Odds(c), RootAt(f, w, lg, t);
    SpreadHalves(c, t, r);
    RootOrder(f, w, lg, t);
    TransformMerge(f, c, w', t, table[t - 1], Transform(f, e, f.Square(w')), Transform(f, o, f.Square(w')));
  }

  lemma HalvesZeroTail<T>(f: Field<T>, c: seq<T>, t: nat, r: nat)
    requires r < t && |c| == Pow2(t) && ZeroTail(f, c, t, r)
    ensures ZeroTail(f, Evens(c), t - 1, r) && ZeroTail(f, Odds(c), t - 1, r)
  {
    forall j: nat | Pow2(t - 1 - r) <= j < |c| / 2
      ensures Evens(c)[j] == f.zero && Odds(c)[j] == f.zero
    {
      PartAt(c, 0, j);
      PartAt(c, 1, j);
    }
  }

  lemma ConstantCase<T(!new)>(f: Field<T>, c: seq<T>, r: nat, w: T)
    requires IsField(f) && |c| == Pow2(r) && ZeroTail(f, c, r, r)
    ensures Spread(BitReversed(c, r), r) == Transform(f, c, w)
  {
    forall k: nat | k < |c|
      ensures Spread(BitReversed(c, r), r)[k] == Transform(f, c, w)[k]
    {
      ClearLowSmall(k, r);
      BitRevZero(r);
      SpreadReversedAt(c, r, r, k);
      TransformAt(f, c, w, k);
      EvalOfConstant(f, c, f.Pow(w, k));
    }
  }

  // ----- The imperative algorithm -----

  /** the value at index `i` after the first `j` butterflies of the block that starts at index `k` */
  ghost function Partial<T>(f: Field<T>, v: seq<T>, k: nat, half: nat, row: seq<T>, j: nat, i: nat): T
    requires k + 2 * half <= |v| && j <= half <= |row| && i < |v|
  {
    if k <= i < k + j then f.Add(v[i], f.Mul(row[i - k], v[i + half]))
    else if k + half <= i < k + half + j then f.Sub(v[i - half], f.Mul(row[i - k - half], v[i]))
    else v[i]
  }

  /** the butterflies of one block, the one of `2 * half` values that ends at index `end` */
  method MergeBlock<T(!new)>(f: Field<T>, values: array<T>, end: nat, half: nat, omegaTable: seq<T>)
    requires 2 * half <= end <= values.Length && half <= |omegaTable|
    modifies values
    ensures values[..end] == MergeLast(f, old(values[..end]), half, omegaTable)
    ensures values[end..] == old(values[end..])
  {
    ghost var v := values[..];
    var k := end - 2 * half;
    var kk := k + half;
    for j := 0 to half
      invariant forall i :: 0 <= i < values.Length ==> values[i] == Partial(f, v, k, half, omegaTable, j, i)
    {
      var omega := omegaTable[j];
      var t := f.Mul(omega, values[kk + j]);
      var u := values[k + j];
      values[k + j] := f.Add(u, t);
      values[kk + j] := f.Sub(u, t);
    }
    MergedValues(f, v, values[..], end, half, omegaTable);
  }

  lemma MergedValues<T>(f: Field<T>, v: seq<T>, v': seq<T>, end: nat, half: nat, row: seq<T>)
    requires 2 * half <= end <= |v| == |v'| && half <= |row|
    requires forall i :: 0 <= i < |v| ==> v'[i] == Partial(f, v, end - 2 * half, half, row, half, i)
    ensures v'[..end] == MergeLast(f, v[..end], half, row) && v'[end..] == v[end..]
  {
    var s, k := v[..end], end - 2 * half;
    var l, h := s[k..k + half], s[k + half..];
    MergeValues(f, l, h, row);
    forall i | k <= i < end
      ensures v'[i] == Merge(f, l, h, row)[i - k]
    {
    }
  }

  lemma SplitAt<T>(s: seq<T>, a: nat, b: nat)
    requires a <= b <= |s|
    ensures s[..b][a..] == s[a..b] && s[a..b] + s[b..] == s[a..]
  {
  }

  /** the state after two more units of 2^r values are reached */
  lemma NextPair<T>(f: Field<T>, table: seq<seq<T>>, r: nat, q: nat, s: seq<T>, e: nat)
    requires q % 2 == 0 && |s| == e + 2 * Pow2(r)
    ensures LastApart(f, table, r, r, q + 2, s) == Finished(f, table, r, r, q, s[..e]) + s[e..]
  {
    var h := Pow2(r);
    var s' := s[..e + h];
    assert s'[..e] == s[..e];
    assert Finished(f, table, r, r, q + 1, s') == Finished(f, table, r, r, q, s[..e]) + s'[e..];
    assert s'[e..] == s[e..e + h] && s[e..e + h] + s[e + h..] == s[e..] by { SplitAt(s, e, e + h); }
  }

  /** what the loop reads off the bits of the index it has reached */
  lemma ReadBits(o: nat, t: nat, lgN: nat)
    ensures Shr(Scaled(o, t), t) == o
    ensures o >= 2 ==> Scaled(o, t) >= 2 * Pow2(t)
    ensures Scaled(o, lgN) <= Pow2(lgN) ==> o <= 1
    ensures o % 2 == 0 ==> Scaled(o / 2, t + 1) == Scaled(o, t)
  {
    if o % 2 == 0 {
      assert 2 * (o / 2) == o;
    }
    ScaledValue(o, t);
    ScaledValue(o, lgN);
    ShrOfMultiple(o, t);
    if o >= 2 {
      MulMonotone(2, o, Pow2(t));
      MulMonotone(2, o, Pow2(lgN));
    }
  }

  /** the loop has merged, among the blocks that end at the end of `s`, those of fewer than 2^t values */
  ghost predicate MergedBelow<T>(f: Field<T>, table: seq<seq<T>>, r: nat, q: nat, t: nat, o: nat, s: seq<T>,
                                 v: seq<T>) {
    && r <= t && o > 0 && |s| == Scaled(o, t)
    && Finished(f, table, r, t, o, s) == Finished(f, table, r, r, q, s)
    && v == LastApart(f, table, r, t, o, s)
  }

  lemma MergedNext<T>(f: Field<T>, table: seq<seq<T>>, r: nat, q: nat, t: nat, o: nat, s: seq<T>, v: seq<T>)
    requires MergedBelow(f, table, r, q, t, o, s, v) && !BitSet(|s|, t)
    ensures |s| >= 2 * Pow2(t)
    ensures MergedBelow(f, table, r, q, t + 1, o / 2, s, MergeLast(f, v, Pow2(t), Row(table, t)))
  {
    ReadBits(o, t, t);
    MergeStep(f, table, r, t, o, s);
  }

  lemma MergedAll<T>(f: Field<T>, table: seq<seq<T>>, r: nat, q: nat, t: nat, o: nat, s: seq<T>, v: seq<T>)
    requires MergedBelow(f, table, r, q, t, o, s, v)
    requires BitSet(|s|, t) || |s| <= Pow2(t)
    ensures v == Finished(f, table, r, r, q, s)
  {
    ReadBits(o, t, t);
  }

  /** The merges that become possible when the loop reaches `packedEnd`: smaller blocks first, up to
      the first size that does not end here. */
  method MergeUp<T(!new)>(f: Field<T>, values: array<T>, packedEnd: nat, r: nat, lgN: nat, rootTable: seq<seq<T>>,
                          ghost q: nat, ghost s: seq<T>)
    requires values.Length == Pow2(lgN) && TableShape(rootTable, lgN) && r <= lgN
    requires packedEnd == |s| <= values.Length && MergedBelow(f, rootTable, r, q, r, q, s, values[..packedEnd])
    modifies values
    ensures values[..packedEnd] == Finished(f, rootTable, r, r, q, s)
    ensures values[packedEnd..] == old(values[packedEnd..])
  {
    var lgHalfM := r;
    ghost var o := q;
    while lgHalfM < lgN
      invariant lgHalfM <= lgN && values[packedEnd..] == old(values[packedEnd..])
      invariant MergedBelow(f, rootTable, r, q, lgHalfM, o, s, values[..packedEnd])
    {
      if BitSet(packedEnd, lgHalfM) {
        break;
      }
      MergedNext(f, rootTable, r, q, lgHalfM, o, s, values[..packedEnd]);
      MergeBlock(f, values, packedEnd, Pow2(lgHalfM), rootTable[lgHalfM]);
      lgHalfM, o := lgHalfM + 1, o / 2;
    }
    MergedAll(f, rootTable, r, q, lgHalfM, o, s, values[..packedEnd]);
  }

  /** the depth-first loop, from round r on */
  method FftClassicSimd<T(!new)>(f: Field<T>, values: array<T>, r: nat, lgN: nat, rootTable: seq<seq<T>>)
    requires values.Length == Pow2(lgN) && TableShape(rootTable, lgN) && r <= lgN
    modifies values
    ensures values[..] == Rounds(f, rootTable, r, lgN, old(values[..]))
  {
    ghost var v := values[..];
    var n := values.Length;
    var minimalStep := Pow2(r + 1);
    var packedEnd := minimalStep;
    ghost var q, e := 0, 0;
    ScaledValue(0, r);
    while packedEnd <= n
      invariant q % 2 == 0 && e == Scaled(q, r) && packedEnd == e + minimalStep && e <= n
      invariant values[..e] == Finished(f, rootTable, r, r, q, v[..e])
      invariant values[e..] == v[e..]
      decreases n + minimalStep - packedEnd
    {
      ghost var s := v[..packedEnd];
      ReachPair(f, rootTable, r, q, e, v, values[..]);
      MergeUp(f, values, packedEnd, r, lgN, rootTable, q + 2, s);
      e, q, packedEnd := packedEnd, q + 2, packedEnd + minimalStep;
    }
    LoopEnd(lgN, r, q, e);
    FinalState(f, rootTable, r, lgN, q, e, v, values[..]);
  }

  lemma ReachPair<T>(f: Field<T>, table: seq<seq<T>>, r: nat, q: nat, e: nat, v: seq<T>, v': seq<T>)
    requires q % 2 == 0 && e == Scaled(q, r) && e + Pow2(r + 1) <= |v| == |v'|
    requires v'[..e] == Finished(f, table, r, r, q, v[..e]) && v'[e..] == v[e..]
    ensures var end := e + Pow2(r + 1);
            && end == Scaled(q + 2, r)
            && MergedBelow(f, table, r, q + 2, r, q + 2, v[..end], v'[..end])
            && v'[end..] == v[end..]
  {
    var end := e + Pow2(r + 1);
    var s := v[..end];
    ScaledValue(q, r);
    ScaledValue(q + 2, r);
    TwoMore(q, Pow2(r));
    NextPair(f, table, r, q, s, e);
    assert s[..e] == v[..e];
    assert v'[..end] == v'[..e] + v'[e..][..end - e] && s[e..] == v[e..][..end - e];
    assert v'[end..] == v'[e..][end - e..] && v[end..] == v[e..][end - e..];
  }

  lemma TwoMore(q: nat, p: nat)
    ensures (q + 2) * p == q * p + 2 * p
  {
  }

  /** the loop ends exactly at the end of the array, unless one unit is the whole array */
  lemma LoopEnd(lgN: nat, r: nat, q: nat, e: nat)
    requires r <= lgN && q % 2 == 0 && e == Scaled(q, r) && e <= Pow2(lgN) < e + Pow2(r + 1)
    ensures if r < lgN then e == Pow2(lgN) && q == Pow2(lgN - r) else q == 0 && e == 0
  {
    ScaledValue(q, r);
    Pow2Add(lgN - r, r);
    if r < lgN {
      LastPair(q, Pow2(lgN - r), Pow2(r));
    } else {
      LastPair(q, 0, Pow2(r));
    }
  }

  lemma LastPair(q: nat, m: nat, p: nat)
    requires q % 2 == 0 && m % 2 == 0 && p > 0
    requires q * p < m * p + 2 * p
    requires m > 0 ==> q * p <= m * p < q * p + 2 * p
    ensures q == m
  {
    if q > m {
      MulMonotone(m + 2, q, p);
      TwoMore(m, p);
    } else if q < m {
      MulMonotone(q + 2, m, p);
      TwoMore(q, p);
    }
  }

  lemma FinalState<T>(f: Field<T>, table: seq<seq<T>>, r: nat, lgN: nat, q: nat, e: nat, v: seq<T>, v': seq<T>)
    requires r <= lgN && |v| == |v'| == Pow2(lgN) && e <= |v|
    requires if r < lgN then e == |v| && q == Pow2(lgN - r) else q == 0 && e == 0
    requires v'[..e] == Finished(f, table, r, r, q, v[..e]) && v'[e..] == v[e..]
    ensures v' == Rounds(f, table, r, lgN, v)
  {
    if r < lgN {
      assert v[..e] == v && v'[..e] == v';
      AllFinished(f, table, r, r, lgN - r, v);
    } else {
      assert v[e..] == v && v'[e..] == v';
    }
  }
}
