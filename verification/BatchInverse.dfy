/** plonky2's `Field::batch_multiplicative_inverse`: Montgomery's trick on four interleaved chains of
    products that meet in a single inversion. */
module BatchInverse {
  import opened Fields

  /** x[i] times the elements 4, 8, ... places before it */
  ghost function Chain<T>(f: Field<T>, x: seq<T>, i: nat): T
    requires i < |x|
  {
    if i < 4 then x[i] else f.Mul(Chain(f, x, i - 4), x[i])
  }

  ghost predicate Nonzero<T>(f: Field<T>, x: seq<T>) {
    forall i :: 0 <= i < |x| ==> x[i] != f.zero
  }

  lemma {:induction false} ChainNonzero<T(!new)>(f: Field<T>, x: seq<T>, i: nat)
    requires IsField(f) && Nonzero(f, x) && i < |x|
    ensures Chain(f, x, i) != f.zero
  {
    if i >= 4 {
      ChainNonzero(f, x, i - 4);
      NoZeroDivisors(f, Chain(f, x, i - 4), x[i]);
    }
  }

  /** `inverse` panics on zero */
  method Inverse<T(!new)>(f: Field<T>, a: T) returns (r: T)
    requires IsField(f) && a != f.zero
    ensures f.Mul(r, a) == f.one
  {
    InvLaw(f, a);
    r := f.Inv(a);
  }

  /** the inverse of a product times one factor is the inverse of the other */
  lemma SplitInverse<T(!new)>(f: Field<T>, r: T, a: T, b: T)
    requires IsField(f) && f.Mul(r, f.Mul(a, b)) == f.one
    ensures f.Mul(f.Mul(r, b), a) == f.one && f.Mul(f.Mul(r, a), b) == f.one
  {
    assert Law(f, r, a, b) && Law(f, a, b, r) && Law(f, r, b, a);
  }

  method InverseOfTwo<T(!new)>(f: Field<T>, a: T, b: T) returns (ra: T, rb: T)
    requires IsField(f) && a != f.zero && b != f.zero
    ensures f.Mul(ra, a) == f.one && f.Mul(rb, b) == f.one
  {
    NoZeroDivisors(f, a, b);
    var x01 := f.Mul(a, b);
    var x01inv := Inverse(f, x01);
    SplitInverse(f, x01inv, a, b);
    ra, rb := f.Mul(x01inv, b), f.Mul(x01inv, a);
  }

  method InverseOfThree<T(!new)>(f: Field<T>, a: T, b: T, c: T) returns (ra: T, rb: T, rc: T)
    requires IsField(f) && a != f.zero && b != f.zero && c != f.zero
    ensures f.Mul(ra, a) == f.one && f.Mul(rb, b) == f.one && f.Mul(rc, c) == f.one
  {
    NoZeroDivisors(f, a, b);
    var x01 := f.Mul(a, b);
    NoZeroDivisors(f, x01, c);
    var x012 := f.Mul(x01, c);
    var x012inv := Inverse(f, x012);
    SplitInverse(f, x012inv, x01, c);
    var x01inv := f.Mul(x012inv, c);
    SplitInverse(f, x01inv, a, b);
    ra, rb, rc := f.Mul(x01inv, b), f.Mul(x01inv, a), f.Mul(x012inv, x01);
  }

  /** where the four chains meet */
  method InverseOfFour<T(!new)>(f: Field<T>, c: seq<T>) returns (aInv: seq<T>)
    requires IsField(f) && |c| == 4 && Nonzero(f, c)
    ensures |aInv| == 4 && forall j :: 0 <= j < 4 ==> f.Mul(aInv[j], c[j]) == f.one
  {
    var c01 := f.Mul(c[0], c[1]);
    var c23 := f.Mul(c[2], c[3]);
    NoZeroDivisors(f, c[0], c[1]);
    NoZeroDivisors(f, c[2], c[3]);
    var c01inv, c23inv := InverseOfTwo(f, c01, c23);
    SplitInverse(f, c01inv, c[0], c[1]);
    SplitInverse(f, c23inv, c[2], c[3]);
    aInv := [f.Mul(c01inv, c[1]), f.Mul(c01inv, c[0]), f.Mul(c23inv, c[3]), f.Mul(c23inv, c[2])];
  }

  /** `buf` holds the chains below n, and entry j of `cumulProd` the last one with index j modulo 4 */
  ghost predicate Cumulative<T>(f: Field<T>, x: seq<T>, n: nat, buf: seq<T>, cumulProd: seq<T>) {
    && 4 <= n <= |x| && |buf| == n && |cumulProd| == 4
    && (forall k {:trigger buf[k]} :: 0 <= k < n ==> buf[k] == Chain(f, x, k))
    && (forall k {:trigger Chain(f, x, k)} :: n - 4 <= k < n ==> cumulProd[k % 4] == Chain(f, x, k))
  }

  lemma NextProduct<T>(f: Field<T>, x: seq<T>, i: nat, buf: seq<T>, cumulProd: seq<T>)
    requires 4 + i < |x| && Cumulative(f, x, 4 + i, buf, cumulProd)
    ensures var p := f.Mul(cumulProd[i % 4], x[4 + i]); Cumulative(f, x, 5 + i, buf + [p], cumulProd[i % 4 := p])
  {
    assert Chain(f, x, i + 4) == f.Mul(Chain(f, x, i), x[4 + i]);
    hide Chain;
  }

  method CumulativeProducts<T(!new)>(f: Field<T>, x: seq<T>) returns (buf: seq<T>, cumulProd: seq<T>)
    requires |x| >= 4
    ensures Cumulative(f, x, |x|, buf, cumulProd)
  {
    cumulProd := x[..4];
    buf := cumulProd;
    for i := 0 to |x| - 4
      invariant Cumulative(f, x, 4 + i, buf, cumulProd)
    {
      NextProduct(f, x, i, buf, cumulProd);
      cumulProd := cumulProd[i % 4 := f.Mul(cumulProd[i % 4], x[4 + i])];
      buf := buf + [cumulProd[i % 4]];
    }
  }

  /** the reverse pass has replaced the entries from n on by inverses; entry j of `aInv` inverts the
      last remaining chain with index j modulo 4 */
  ghost predicate InvertedFrom<T>(f: Field<T>, x: seq<T>, n: nat, buf: seq<T>, aInv: seq<T>) {
    && 4 <= n <= |x| == |buf| && |aInv| == 4
    && (forall k {:trigger buf[k]} :: 0 <= k < n ==> buf[k] == Chain(f, x, k))
    && (forall k {:trigger buf[k]} :: n <= k < |x| ==> f.Mul(buf[k], x[k]) == f.one)
    && (forall k {:trigger Chain(f, x, k)} :: n - 4 <= k < n ==> f.Mul(aInv[k % 4], Chain(f, x, k)) == f.one)
  }

  lemma ReverseStep<T(!new)>(f: Field<T>, x: seq<T>, n: nat, buf: seq<T>, aInv: seq<T>)
    requires IsField(f) && InvertedFrom(f, x, n, buf, aInv) && n > 4
    ensures var i := n - 1;
            InvertedFrom(f, x, i, buf[i := f.Mul(buf[i - 4], aInv[i % 4])], aInv[i % 4 := f.Mul(aInv[i % 4], x[i])])
  {
    var i := n - 1;
    var c, a := Chain(f, x, i - 4), aInv[i % 4];
    assert Chain(f, x, i) == f.Mul(c, x[i]);
    SplitInverse(f, a, c, x[i]);
    assert Law(f, a, c, c);
  }

  method BatchMultiplicativeInverse<T(!new)>(f: Field<T>, x: seq<T>) returns (buf: seq<T>)
    requires IsField(f) && Nonzero(f, x)
    ensures |buf| == |x| && forall i :: 0 <= i < |x| ==> f.Mul(buf[i], x[i]) == f.one
  {
    var n := |x|;
    if n == 0 {
      return [];
    } else if n == 1 {
      var r := Inverse(f, x[0]);
      return [r];
    } else if n == 2 {
      var r0, r1 := InverseOfTwo(f, x[0], x[1]);
      return [r0, r1];
    } else if n == 3 {
      var r0, r1, r2 := InverseOfThree(f, x[0], x[1], x[2]);
      return [r0, r1, r2];
    }
    var cumulProd;
    buf, cumulProd := CumulativeProducts(f, x);
    ChainsNonzero(f, x, buf, cumulProd);
    var aInv := InverseOfFour(f, cumulProd);
    var i := n;
    while i > 4
      invariant 4 <= i && InvertedFrom(f, x, i, buf, aInv)
    {
      ReverseStep(f, x, i, buf, aInv);
      i := i - 1;
      buf := buf[i := f.Mul(buf[i - 4], aInv[i % 4])];
      aInv := aInv[i % 4 := f.Mul(aInv[i % 4], x[i])];
    }
    FirstFour(f, x, buf, aInv);
    while i > 0
      invariant 0 <= i <= 4 && |buf| == n
      invariant forall k {:trigger buf[k]} :: i <= k < n ==> f.Mul(buf[k], x[k]) == f.one
    {
      i := i - 1;
      buf := buf[i := aInv[i]];
    }
  }

  lemma ChainsNonzero<T(!new)>(f: Field<T>, x: seq<T>, buf: seq<T>, cumulProd: seq<T>)
    requires IsField(f) && Nonzero(f, x) && Cumulative(f, x, |x|, buf, cumulProd)
    ensures Nonzero(f, cumulProd)
  {
    forall j | 0 <= j < 4
      ensures cumulProd[j] != f.zero
    {
      var k := |x| - 1 - (|x| - 1 - j) % 4;
      ChainNonzero(f, x, k);
    }
  }

  lemma FirstFour<T>(f: Field<T>, x: seq<T>, buf: seq<T>, aInv: seq<T>)
    requires InvertedFrom(f, x, 4, buf, aInv)
    ensures forall j :: 0 <= j < 4 ==> f.Mul(aInv[j], x[j]) == f.one
  {
    forall j | 0 <= j < 4
      ensures f.Mul(aInv[j], x[j]) == f.one
    {
      assert Chain(f, x, j) == x[j] && j % 4 == j;
    }
  }
}
