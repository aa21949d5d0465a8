/** Patterns from lists of indices: the search for the smallest period, dimension by dimension. */
module PatternLists {
  import opened Arithmetic
  import opened OrderedSets
  import opened PeriodicPatterns
  import opened Reversal
  import opened Wrappers

  const WRAP: nat := 0x1_0000_0000

  /** each pair of neighbours is increasing */
  predicate Ascending(p: seq<u32>) { forall i :: 0 <= i < |p| - 1 ==> p[i] < p[i + 1] }

  lemma {:induction false} AscendingIsIncreasing(p: seq<u32>)
    ensures Ascending(p) <==> Increasing(p)
  {
    if Ascending(p) && |p| > 1 {
      var init := p[..|p| - 1];
      AscendingIsIncreasing(init);
      assert p[|p| - 2] < p[|p| - 1];
    }
  }

  /** the length is a multiple of k and the list repeats itself after k elements; the addition wraps around */
  predicate IsPeriod(p: seq<u32>, k: nat)
    requires 0 < k < |p|
  {
    |p| % k == 0 && forall i :: 0 <= i < |p| - k ==> (p[i] + p[k]) % WRAP == p[i + k]
  }

  /** the first period from k on */
  function Smallest(p: seq<u32>, k: nat): (r: Option<nat>)
    requires k > 0
    ensures r.Some? ==> k <= r.value < |p| && IsPeriod(p, r.value)
    ensures forall j :: k <= j < (if r.Some? then r.value else |p|) ==> !IsPeriod(p, j)
    decreases |p| - k
  {
    if k >= |p| then None
    else if IsPeriod(p, k) then Some(k)
    else Smallest(p, k + 1)
  }

  /** one dimension for each period, the outermost last */
  function Factored(p: seq<u32>): Option<seq<Dim>>
    decreases |p|
  {
    if |p| <= 1 then Some([])
    else match Smallest(p, 1)
      case None => None
      case Some(k) => WithOuter(Factored(p[..k]), OuterDim(p, k))
  }

  function OuterDim(p: seq<u32>, k: nat): Dim
    requires 0 < k < |p|
  {
    DivNat(|p|, k);
    Dim(p[k], |p| / k % WRAP)
  }

  function WithOuter(dims: Option<seq<Dim>>, d: Dim): Option<seq<Dim>> {
    match dims
    case None => None
    case Some(inner) => Some(inner + [d])
  }

  /** the period of the outermost dimension, as a 32-bit product */
  function OuterPeriod(dims: seq<Dim>): u32 {
    if dims == [] then 1
    else
      MulNat(dims[|dims| - 1].stride, dims[|dims| - 1].length);
      dims[|dims| - 1].stride * dims[|dims| - 1].length % WRAP
  }

  function Padded(dims: seq<Dim>): Pattern
    requires |dims| <= NUM_DIMS
  {
    dims + seq(NUM_DIMS - |dims|, _ => Dim(OuterPeriod(dims), 1))
  }

  function Checked(shape: Pattern): Result<Pattern, PatternError> {
    match IsValid(shape)
    case None => Err(Panicked)
    case Some(valid) => if valid then Ok(shape) else Err(Invalid)
  }

  function Listed(pattern: seq<u32>): Result<Pattern, PatternError> {
    if pattern == [] then Err(Empty)
    else if !Ascending(pattern) then Err(NotSorted)
    else if pattern[0] != 0 then Err(NotFromZero)
    else match Factored(pattern)
      case None => Err(NotPeriodic)
      case Some(dims) => if |dims| > NUM_DIMS then Err(Panicked) else Checked(Padded(dims))
  }

  /** `from_list` */
  method FromList(pattern: seq<u32>) returns (r: Result<Pattern, PatternError>)
    ensures r == Listed(pattern)
  {
    if pattern == [] {
      return Err(Empty);
    }
    if !Ascending(pattern) {
      return Err(NotSorted);
    }
    if pattern[0] != 0 {
      return Err(NotFromZero);
    }
    var p, shapeVec: seq<Dim> := pattern, [];
    FactoringStart(Factored(p));
    while |p| > 1
      invariant |p| >= 1 && Factoring(Factored(p), shapeVec) == Factored(pattern)
      decreases |p|
    {
      ghost var before := p;
      var found := false;
      for period := 1 to |p|
        invariant !found && p == before && Smallest(p, 1) == Smallest(p, period)
      {
        if IsPeriod(p, period) {
          DivNat(|p|, period);
          FactoringStep(Factored(p[..period]), shapeVec, OuterDim(p, period));
          shapeVec := shapeVec + [Dim(p[period], |p| / period % WRAP)];
          p := p[..period];
          found := true;
          break;
        }
      }
      if !found {
        return Err(NotPeriodic);
      }
    }
    shapeVec := Reversed(shapeVec);
    assert Factored(pattern) == Some([] + shapeVec);
    assert [] + shapeVec == shapeVec;
    var period: u32 := 1;
    if shapeVec != [] {
      MulNat(shapeVec[|shapeVec| - 1].stride, shapeVec[|shapeVec| - 1].length);
      period := shapeVec[|shapeVec| - 1].stride * shapeVec[|shapeVec| - 1].length % WRAP;
    }
    ghost var dims := shapeVec;
    while |shapeVec| < NUM_DIMS
      invariant shapeVec == dims || |shapeVec| <= NUM_DIMS
      invariant shapeVec == dims + seq(|shapeVec| - |dims|, _ => Dim(period, 1))
      decreases NUM_DIMS - |shapeVec|
    {
      shapeVec := shapeVec + [Dim(period, 1)];
    }
    if |shapeVec| > NUM_DIMS {
      return Err(Panicked);
    }
    var valid := IsValid(shapeVec);
    if valid.None? {
      return Err(Panicked);
    }
    if !valid.value {
      return Err(Invalid);
    }
    return Ok(shapeVec);
  }

  /** the dimensions found so far, outermost first, around those of the list that is left */
  function Factoring(left: Option<seq<Dim>>, found: seq<Dim>): Option<seq<Dim>> {
    match left
    case None => None
    case Some(dims) => Some(dims + Reversed(found))
  }

  lemma FactoringStart(left: Option<seq<Dim>>)
    ensures Factoring(left, []) == left
  {
    if left.Some? {
      assert left.value + [] == left.value;
    }
  }

  lemma FactoringStep(left: Option<seq<Dim>>, found: seq<Dim>, d: Dim)
    ensures Factoring(WithOuter(left, d), found) == Factoring(left, found + [d])
  {
    if left.Some? {
      ReversedAppend(found, d);
      assert (left.value + [d]) + Reversed(found) == left.value + ([d] + Reversed(found));
    }
  }

  // ----- to_list after from_list -----

  ghost predicate Repeats(p: seq<u32>, k: nat)
    requires 0 < k < |p|
  {
    forall i :: 0 <= i < |p| - k ==> p[i] as int + p[k] as int == p[i + k]
  }

  /** the wrap-around of the addition is never taken as a repetition */
  lemma PeriodDoesNotWrap(p: seq<u32>, k: nat)
    requires Increasing(p) && 0 < k < |p| && IsPeriod(p, k)
    ensures Repeats(p, k)
  {
    forall i | 0 <= i < |p| - k
      ensures p[i] as int + p[k] as int == p[i + k]
    {
      assert (p[i] + p[k]) % WRAP == p[i + k] && p[k] <= p[i + k];
    }
  }

  lemma {:induction false} PeriodicAt(p: seq<u32>, k: nat, n: nat, i: nat)
    requires 0 < k < |p| && i < k && n * k + i < |p| && Repeats(p, k)
    ensures n * k + i >= 0 && p[n * k + i] == p[i] + n * p[k]
  {
    if n > 0 {
      MulNat(n - 1, k);
      assert (n - 1) * k + k == n * k;
      PeriodicAt(p, k, n - 1, i);
    }
  }

  lemma {:induction false} PeriodicIsRepeated(p: seq<u32>, k: nat, n: nat)
    requires 0 < k < |p| && 0 <= n * k <= |p| && Repeats(p, k)
    ensures Repeated(p[..k], p[k], n) == p[..n * k]
  {
    if n == 0 {
      RepeatedNone(p[..k], p[k]);
    } else {
      var start, shift, end := (n - 1) * k, (n - 1) * p[k], n * k;
      MulNat(n - 1, k);
      MulNat(n - 1, p[k]);
      assert start + k == end;
      hide Repeats, Shifted, Repeated;
      RepeatedMore(p[..k], p[k], n - 1);
      PeriodicIsRepeated(p, k, n - 1);
      CopyOfStart(p, k, n - 1, start, shift);
      assert p[..end] == p[..start] + p[start..end];
    }
  }

  lemma CopyOfStart(p: seq<u32>, k: nat, n: nat, start: nat, shift: nat)
    requires 0 < k < |p| && Repeats(p, k) && start == n * k && shift == n * p[k] && start + k <= |p|
    ensures Shifted(p[..k], shift) == p[start..start + k]
  {
    hide Repeats, Shifted;
    forall i: nat | i < k
      ensures p[start + i] == p[i] + shift
    {
      PeriodicAt(p, k, n, i);
    }
    CopyIsSlice(p, k, start, shift);
  }

  lemma CopyIsSlice(p: seq<u32>, k: nat, start: nat, shift: nat)
    requires start + k <= |p| && forall i: nat :: i < k ==> p[start + i] == p[i] + shift
    ensures Shifted(p[..k], shift) == p[start..start + k]
  {
    var copy, slice := Shifted(p[..k], shift), p[start..start + k];
    forall i: nat | i < k
      ensures copy[i] == slice[i]
    {
      assert slice[i] == p[start + i];
    }
  }

  /** a list is rebuilt from its dimensions, unless a length was cut to 32 bits */
  lemma {:induction false} ListOfFactored(p: seq<u32>)
    requires p != [] && Increasing(p) && p[0] == 0 && Factored(p).Some?
    requires forall k :: 0 <= k < |Factored(p).value| ==> Factored(p).value[k].length > 0
    ensures ListOf(Factored(p).value) == p
    decreases |p|
  {
    if |p| > 1 {
      var k := Smallest(p, 1).value;
      var inner, dims := Factored(p[..k]).value, Factored(p).value;
      assert dims == inner + [OuterDim(p, k)];
      assert forall i :: 0 <= i < |inner| ==> inner[i] == dims[i];
      assert dims[|inner|] == OuterDim(p, k) && dims[..|inner|] == inner;
      hide Factored, Smallest, Repeated;
      ListOfFactored(p[..k]);
      OuterCopies(p, k);
    } else {
      assert p == [0];
    }
  }

  /** the outermost dimension copies the first k elements to the whole list */
  lemma OuterCopies(p: seq<u32>, k: nat)
    requires Increasing(p) && 0 < k < |p| && IsPeriod(p, k) && OuterDim(p, k).length > 0
    ensures Repeated(p[..k], p[k], OuterDim(p, k).length) == p
  {
    IncreasingBound(p, |p| - 1);
    DivNat(|p|, k);
    LengthFits(|p|, k);
    PeriodDoesNotWrap(p, k);
    var n := |p| / k;
    assert n * k == |p|;
    hide IsPeriod, Repeats, Repeated, Increasing;
    PeriodicIsRepeated(p, k, n);
    assert p[..|p|] == p;
  }

  lemma LengthFits(n: nat, k: nat)
    requires 0 < k && n <= WRAP && n / k % WRAP > 0
    ensures n / k % WRAP == n / k
  {
    DivNat(n, k);
  }

  /** dimensions of length 1 do not change the list */
  lemma {:induction false} ListOfPadded(dims: seq<Dim>, d: Dim, n: nat)
    requires d.length == 1
    ensures ListOf(dims + seq(n, _ => d)) == ListOf(dims)
  {
    if n == 0 {
      assert dims + seq(n, _ => d) == dims;
    } else {
      ListOfPadded(dims, d, n - 1);
      var init := dims + seq(n - 1, _ => d);
      assert dims + seq(n, _ => d) == init + [d];
      ListOfOne(init, d);
    }
  }

  lemma ListOfOne(init: seq<Dim>, d: Dim)
    requires d.length == 1
    ensures ListOf(init + [d]) == ListOf(init)
  {
    var all, base := init + [d], ListOf(init);
    assert all[..|all| - 1] == init && all[|all| - 1] == d;
    assert ListOf(all) == Repeated(base, d.stride, 1);
    hide ListOf;
    assert Repeated(base, d.stride, 0) == [] && Shifted(base, 0) == base;
    assert Repeated(base, d.stride, 1) == [] + Shifted(base, 0);
  }

  /** a list that is accepted is the list of its pattern, and the pattern is canonical */
  lemma ListOfListed(pattern: seq<u32>)
    requires Listed(pattern).Ok?
    ensures Canonical(Listed(pattern).value) && ListOf(Listed(pattern).value) == pattern
  {
    var shape, dims := Listed(pattern).value, Factored(pattern).value;
    ValidIsCanonical(shape);
    assert shape == Padded(dims);
    forall k | 0 <= k < |dims|
      ensures dims[k].length > 0
    {
      assert CanonicalAt(shape, k, 1, false);
      assert shape[k] == dims[k];
    }
    AscendingIsIncreasing(pattern);
    ListOfFactored(pattern);
    ListOfPadded(dims, Dim(OuterPeriod(dims), 1), NUM_DIMS - |dims|);
  }

  // ----- from_list after to_list -----

  /** a canonical shape as the words that `from_list` takes */
  function Indices(shape: Pattern): (r: seq<u32>)
    requires Canonical(shape)
    ensures r == ListOf(shape)
  {
    CanonicalIsNested(shape);
    ListIsIncreasing(shape);
    SizeIsListLength(shape);
    ListOf(shape)
  }

  /** the shape without the dimensions of length 1 at its end */
  function Trimmed(shape: seq<Dim>): (r: seq<Dim>)
    ensures |r| <= |shape| && r == shape[..|r|]
  {
    if shape != [] && shape[|shape| - 1].length == 1 then Trimmed(shape[..|shape| - 1]) else shape
  }

  lemma CanonicalPrefix(shape: seq<Dim>, n: nat)
    requires Canonical(shape) && n <= |shape|
    ensures Canonical(shape[..n])
  {
    forall k: nat | k < n
      ensures CanonicalAt(shape[..n], k, 1, false)
    {
      assert CanonicalAt(shape, k, 1, false);
    }
  }

  /** after the trimmed part there are only repetitions of the period */
  lemma {:induction false} AfterTrimmed(shape: seq<Dim>)
    requires Canonical(shape)
    ensures var t := Trimmed(shape);
            && Period(shape) == Period(t)
            && forall k :: |t| <= k < |shape| ==> shape[k].stride == Period(t) && shape[k].length == 1
    decreases shape
  {
    var n := |shape|;
    if n > 0 && shape[n - 1].length == 1 {
      CanonicalPrefix(shape, n - 1);
      AfterTrimmed(shape[..n - 1]);
      assert CanonicalAt(shape, n - 1, 1, false);
      var d, p := shape[n - 1], Period(shape[..n - 1]);
      assert Inner(shape, n - 1, 1) == p;
      DivNat(d.stride, p);
      assert d.stride == p;
      forall k | |Trimmed(shape)| <= k < n
        ensures shape[k].stride == p && shape[k].length == 1
      {
        if k < n - 1 {
          assert shape[..n - 1][k] == shape[k];
        }
      }
    }
  }

  /** padding the trimmed part restores the shape */
  lemma PaddedTrimmed(shape: Pattern)
    requires Canonical(shape)
    ensures Padded(Trimmed(shape)) == shape
  {
    var t := Trimmed(shape);
    AfterTrimmed(shape);
    assert CanonicalAt(shape, NUM_DIMS - 1, 1, false);
    assert Period(t) == Period(shape) <= MAX_PERIOD;
    assert OuterPeriod(t) == Period(t);
    assert forall k :: |t| <= k < NUM_DIMS ==> shape[k] == Dim(OuterPeriod(t), 1);
  }

  /** before a dimension longer than 1 there are only such dimensions */
  lemma LongBefore(shape: seq<Dim>)
    requires Canonical(shape) && shape != [] && shape[|shape| - 1].length != 1
    ensures |shape| > 1 ==> shape[|shape| - 2].length != 1
  {
    assert CanonicalAt(shape, |shape| - 1, 1, false);
  }

  /** the outermost dimension of a shape, with the list inside it */
  lemma OutermostPeriod(shape: seq<Dim>, p: seq<u32>)
    requires Canonical(shape) && shape != [] && shape[|shape| - 1].length != 1 && p == ListOf(shape)
    ensures var (init, d) := (shape[..|shape| - 1], shape[|shape| - 1]); var k := |ListOf(init)|;
            && 0 < k < |p| && |p| == d.length * k && p[..k] == ListOf(init) && p[k] == d.stride && Repeats(p, k)
  {
    var init, d := shape[..|shape| - 1], shape[|shape| - 1];
    var base := ListOf(init);
    var k := |base|;
    CanonicalIsNested(shape);
    NestedLast(shape);
    ListIsIncreasing(init);
    RepeatedLength(base, d.stride, d.length);
    RepeatedStart(base, d.stride, d.length);
    MulMonotone(2, d.length, k);
    RepeatedAt(base, d.stride, d.length, 1, 0);
    hide ListOf, Canonical, Nested;
    forall i: nat | i < |p| - k
      ensures p[i] as int + d.stride as int == p[i + k]
    {
      NextCopy(base, d.stride, d.length, i);
    }
  }

  /** the same element one copy further */
  lemma NextCopy(base: seq<nat>, stride: nat, n: nat, i: nat)
    requires base != [] && i + |base| < |Repeated(base, stride, n)|
    ensures Repeated(base, stride, n)[i + |base|] == Repeated(base, stride, n)[i] + stride
  {
    var k := |base|;
    var q, r := i / k, i % k;
    RepeatedLength(base, stride, n);
    DivNat(i, k);
    assert (q + 1) * k == q * k + k;
    DivModUnique(i + k, k, q + 1, r);
    DivBelow(i + k, k, n);
    hide Repeated;
    RepeatedAt(base, stride, n, q, r);
    RepeatedAt(base, stride, n, q + 1, r);
    assert (q + 1) * stride == q * stride + stride;
  }

  lemma {:induction false} RepeatedAt(base: seq<nat>, stride: nat, n: nat, i: nat, j: nat)
    requires i < n && j < |base|
    ensures 0 <= i * |base| + j < |Repeated(base, stride, n)| && i * stride >= 0
    ensures Repeated(base, stride, n)[i * |base| + j] == base[j] + i * stride
  {
    RepeatedLength(base, stride, n);
    RepeatedLength(base, stride, n - 1);
    MulNat(i, |base|);
    MulNat(i, stride);
    MulMonotone(i + 1, n, |base|);
    assert (i + 1) * |base| == i * |base| + |base|;
    if i < n - 1 {
      RepeatedAt(base, stride, n - 1, i, j);
    }
  }

  /** no shorter prefix repeats: two elements inside one period do not add up to the next stride */
  lemma NoShorterPeriod(shape: seq<Dim>, p: seq<u32>, k: nat)
    requires Canonical(shape) && shape != [] && shape[|shape| - 1].length != 1 && p == ListOf(shape)
    requires 0 < k < |ListOf(shape[..|shape| - 1])|
    ensures k < |p| && !IsPeriod(p, k)
  {
    var init, d := shape[..|shape| - 1], shape[|shape| - 1];
    var base, m := ListOf(init), Period(init);
    var size := |base|;
    OutermostPeriod(shape, p);
    CanonicalIsNested(shape);
    NestedLast(shape);
    ListIsIncreasing(init);
    assert CanonicalAt(shape, |init|, 1, false);
    assert Inner(shape, |init|, 1) == m;
    hide ListOf, Canonical, Nested, Period, Inner;
    IncreasingBound(base, size - 1);
    WideStride(d, m);
    SumsFallShort(p, base, d.stride, m, k);
  }

  lemma SumsFallShort(p: seq<u32>, base: seq<nat>, stride: nat, m: nat, k: nat)
    requires 0 < k < |base| < |p| && p[..|base|] == base && p[|base|] == stride
    requires (forall j :: 0 <= j < |base| ==> base[j] < m) && 2 * m <= stride <= MAX_PERIOD
    ensures !IsPeriod(p, k)
  {
    var i := |base| - k;
    assert p[k] == base[k] && p[i] == base[i];
    assert (p[i] + p[k]) % WRAP != p[i + k];
  }

  lemma WideStride(d: Dim, inner: nat)
    requires CanonicalDim(d, inner, false) && inner > 1 && d.length != 1
    ensures 2 * inner <= d.stride <= MAX_PERIOD
  {
    DivNat(d.stride, inner);
    MulMonotone(2, d.stride / inner, inner);
    MulMonotone(1, d.length, d.stride);
  }

  lemma SmallestIsOutermost(shape: seq<Dim>, p: seq<u32>)
    requires Canonical(shape) && shape != [] && shape[|shape| - 1].length != 1 && p == ListOf(shape)
    ensures Smallest(p, 1) == Some(|ListOf(shape[..|shape| - 1])|)
  {
    var size := |ListOf(shape[..|shape| - 1])|;
    OutermostPeriod(shape, p);
    RepeatsIsPeriod(p, size, shape[|shape| - 1].length);
    var r := Smallest(p, 1);
    if r.Some? && r.value < size {
      NoShorterPeriod(shape, p, r.value);
      assert false;
    }
  }

  lemma RepeatsIsPeriod(p: seq<u32>, k: nat, n: nat)
    requires 0 < k < |p| && |p| == n * k && Repeats(p, k)
    ensures IsPeriod(p, k)
  {
    MultipleIsZero(n, k);
    forall i | 0 <= i < |p| - k
      ensures (p[i] + p[k]) % WRAP == p[i + k]
    {
      assert p[i] as int + p[k] as int == p[i + k];
    }
  }

  lemma MultipleIsZero(n: nat, k: nat)
    requires k > 0
    ensures n * k >= 0 && (n * k) % k == 0 && n * k / k == n
  {
    MulNat(n, k);
    DivModUnique(n * k, k, n, 0);
  }

  lemma FactoredStep(p: seq<u32>, k: nat)
    requires Smallest(p, 1) == Some(k)
    ensures Factored(p) == WithOuter(Factored(p[..k]), OuterDim(p, k))
  {
  }

  lemma FactoredOutermost(shape: seq<Dim>, p: seq<u32>)
    requires Canonical(shape) && shape != [] && shape[|shape| - 1].length != 1 && p == ListOf(shape)
    ensures var (init, size) := (shape[..|shape| - 1], |ListOf(shape[..|shape| - 1])|);
            && 0 < size < |p| && p[..size] == ListOf(init)
            && (Factored(p[..size]) == Some(init) ==> Factored(p) == Some(shape))
  {
    var init, d := shape[..|shape| - 1], shape[|shape| - 1];
    var size := |ListOf(init)|;
    hide ListOf, Smallest, Canonical, Repeats, IsPeriod, Factored;
    SmallestIsOutermost(shape, p);
    OutermostPeriod(shape, p);
    FactoredStep(p, size);
    OuterDimIs(p, size, d);
    hide OuterDim;
    assert shape == init + [d];
  }

  lemma OuterDimIs(p: seq<u32>, k: nat, d: Dim)
    requires 0 < k < |p| && |p| == d.length * k && p[k] == d.stride
    ensures OuterDim(p, k) == d
  {
    MultipleIsZero(d.length, k);
  }

  lemma {:induction false} FactoredListOf(shape: seq<Dim>, p: seq<u32>)
    requires Canonical(shape) && (shape != [] ==> shape[|shape| - 1].length != 1) && p == ListOf(shape)
    ensures Factored(p) == Some(shape)
    decreases shape
  {
    if shape != [] {
      FactoredOutermost(shape, p);
      var init := shape[..|shape| - 1];
      LongBefore(shape);
      CanonicalPrefix(shape, |init|);
      FactoredListOf(init, p[..|ListOf(init)|]);
    }
  }

  /** a canonical pattern comes back from its list */
  lemma ListedListOf(shape: Pattern)
    requires Canonical(shape)
    ensures Listed(Indices(shape)) == Ok(shape)
  {
    var p, t := Indices(shape), Trimmed(shape);
    CanonicalIsNested(shape);
    ListIsIncreasing(shape);
    AscendingIsIncreasing(p);
    CanonicalPrefix(shape, |t|);
    TrimmedList(shape);
    FactoredListOf(t, p);
    PaddedTrimmed(shape);
    ValidIsCanonical(shape);
  }

  /** the trimmed dimensions do not change the list */
  lemma {:induction false} TrimmedList(shape: seq<Dim>)
    ensures ListOf(Trimmed(shape)) == ListOf(shape)
    ensures Trimmed(shape) != [] ==> Trimmed(shape)[|Trimmed(shape)| - 1].length != 1
    decreases shape
  {
    if shape != [] && shape[|shape| - 1].length == 1 {
      var init, d := shape[..|shape| - 1], shape[|shape| - 1];
      TrimmedList(init);
      assert Repeated(ListOf(init), d.stride, 0) == [] && Shifted(ListOf(init), 0) == ListOf(init);
    }
  }

  /** `from_list` accepts exactly the lists of the canonical patterns, and gives each its own pattern back */
  lemma ListsArePatterns(list: seq<u32>, shape: Pattern)
    ensures Listed(list) == Ok(shape) <==> Canonical(shape) && ListOf(shape) == list
  {
    if Listed(list) == Ok(shape) {
      ListOfListed(list);
    } else if Canonical(shape) && ListOf(shape) == list {
      ListedListOf(shape);
    }
  }

  // ----- Which lists are refused, and how -----

  ghost predicate Admissible(p: seq<u32>) { p != [] && Increasing(p) && p[0] == 0 }

  /** the list is copies of its first k elements, each copy as far behind the one before as the first from zero */
  ghost predicate Splits(p: seq<u32>, k: nat) { 0 < k < |p| && |p| % k == 0 && Repeats(p, k) }

  lemma SplitsIff(p: seq<u32>, k: nat)
    requires Increasing(p) && 0 < k < |p|
    ensures IsPeriod(p, k) <==> Splits(p, k)
  {
    if IsPeriod(p, k) {
      PeriodDoesNotWrap(p, k);
    }
  }

  /** q is what is left of p after taking the shortest such copy again and again, any number of times */
  ghost predicate Reduces(p: seq<u32>, q: seq<u32>)
    decreases |p|
  {
    p == q || exists k: nat {:trigger p[..k]} :: IsFirstSplit(p, k) && Reduces(p[..k], q)
  }

  ghost predicate IsFirstSplit(p: seq<u32>, k: nat) { Splits(p, k) && forall j: nat :: j < k ==> !Splits(p, j) }

  /** a list of more than one element that is not made of copies */
  ghost predicate Stuck(q: seq<u32>) { |q| > 1 && forall k: nat :: !Splits(q, k) }

  lemma SmallestIsFirst(p: seq<u32>)
    requires Increasing(p) && |p| > 1
    ensures Smallest(p, 1).None? <==> Stuck(p)
    ensures forall k: nat :: IsFirstSplit(p, k) <==> Smallest(p, 1) == Some(k)
  {
    forall k: nat | 0 < k < |p|
      ensures IsPeriod(p, k) <==> Splits(p, k)
    {
      SplitsIff(p, k);
    }
    hide IsPeriod, Repeats;
  }

  /** the search for periods fails exactly when the list leads to one that is not made of copies */
  lemma {:induction false} FactoredFails(p: seq<u32>)
    requires Increasing(p) && p != []
    ensures Factored(p).None? <==> exists q :: Reduces(p, q) && Stuck(q)
    decreases |p|
  {
    if |p| == 1 {
      forall q | Reduces(p, q)
        ensures q == p
      {
      }
    } else {
      SmallestIsFirst(p);
      hide Smallest, Stuck, IsFirstSplit;
      match Smallest(p, 1)
      case None =>
        assert Reduces(p, p);
      case Some(k) =>
        FirstSplitReduces(p, k);
        FactoredFails(p[..k]);
    }
  }

  lemma FirstSplitReduces(p: seq<u32>, k: nat)
    requires Increasing(p) && |p| > 1 && Smallest(p, 1) == Some(k)
    ensures 0 < k < |p| && Increasing(p[..k])
    ensures !Stuck(p)
    ensures forall q :: Reduces(p, q) <==> q == p || Reduces(p[..k], q)
  {
    SmallestIsFirst(p);
    hide Smallest, Splits;
    assert IsFirstSplit(p, k);
    forall q
      ensures Reduces(p, q) <==> q == p || Reduces(p[..k], q)
    {
    }
  }

  /** each error of `from_list`, and exactly the lists that get it */
  lemma ErrorsOfList(p: seq<u32>)
    ensures Listed(p) == Err(Empty) <==> p == []
    ensures Listed(p) == Err(NotSorted) <==> p != [] && !Increasing(p)
    ensures Listed(p) == Err(NotFromZero) <==> p != [] && Increasing(p) && p[0] != 0
    ensures Listed(p) == Err(NotPeriodic) <==> Admissible(p) && exists q :: Reduces(p, q) && Stuck(q)
    ensures Listed(p) == Err(Panicked) <==>
            && Admissible(p) && Factored(p).Some?
            && (|Factored(p).value| > NUM_DIMS || Encoded(Padded(Factored(p).value), 1).None?)
    ensures Listed(p) == Err(Invalid) <==>
            && Admissible(p) && Factored(p).Some? && |Factored(p).value| <= NUM_DIMS
            && Encoded(Padded(Factored(p).value), 1).Some? && !Canonical(Padded(Factored(p).value))
    ensures Listed(p).Err? ==> Listed(p).error in {Empty, NotSorted, NotFromZero, NotPeriodic, Panicked, Invalid}
  {
    AscendingIsIncreasing(p);
    if Admissible(p) {
      FactoredFails(p);
      hide Factored, Reduces, Stuck, Increasing, Ascending;
      if Factored(p).Some? && |Factored(p).value| <= NUM_DIMS {
        ValidIsCanonical(Padded(Factored(p).value));
      }
    }
  }

  /** three elements whose distances differ are refused without a panic */
  lemma UnevenList()
    ensures Listed([0, 1, 3]) == Err(NotPeriodic)
  {
    var p: seq<u32> := [0, 1, 3];
    assert !IsPeriod(p, 1) by { assert (p[1] + p[1]) % WRAP != p[1 + 1]; }
    assert !IsPeriod(p, 2);
    assert Smallest(p, 2) == None by { assert Smallest(p, 3) == None; }
  }
}
