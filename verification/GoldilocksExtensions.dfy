/** Multiplication in the degree 2, 4 and 5 extensions of the Goldilocks field: the products of a
    coefficient are accumulated in 160 bits and reduced once. */
module GoldilocksExtensions {
  import opened Arithmetic
  import opened Goldilocks

  /** the number that an accumulator holds in two parts */
  function U160(lo: u128, hi: u32): nat { lo + TWO_128 * hi }

  // ----- The reference: polynomials modulo X^D - W -----

  function ZeroPolynomial(d: nat): (r: seq<int>)
    ensures |r| == d
  {
    if d == 0 then [] else [0] + ZeroPolynomial(d - 1)
  }

  /** multiplication by X, which takes X^D to W */
  function TimesX(W: int, c: seq<int>): (r: seq<int>)
    ensures |r| == |c|
  {
    if c == [] then [] else [W * c[|c| - 1]] + c[..|c| - 1]
  }

  /** the polynomial k b + c */
  function ScaleAndAdd(k: int, b: seq<int>, c: seq<int>): (r: seq<int>)
    requires |b| == |c|
    ensures |r| == |b| && forall i :: 0 <= i < |b| ==> r[i] == k * b[i] + c[i]
  {
    if b == [] then [] else [k * b[0] + c[0]] + ScaleAndAdd(k, b[1..], c[1..])
  }

  /** a b modulo X^D - W for D = |b|, by Horner's rule in the coefficients of a */
  function QuotientMul(W: int, a: seq<int>, b: seq<int>): (r: seq<int>)
    ensures |r| == |b|
  {
    if a == [] then ZeroPolynomial(|b|) else ScaleAndAdd(a[0], b, TimesX(W, QuotientMul(W, a[1..], b)))
  }

  /** the coefficients `c` represent the product of `a` and `b` */
  ghost predicate IsProduct(W: int, a: seq<u64>, b: seq<u64>, c: seq<u64>) {
    |c| == |b| && forall k :: 0 <= k < |c| ==> Value(c[k]) == Value(QuotientMul(W, a, b)[k])
  }

  lemma {:induction false} ZerosAt(d: nat, k: nat)
    requires k < d
    ensures ZeroPolynomial(d)[k] == 0
  {
    if k > 0 {
      ZerosAt(d - 1, k - 1);
    }
  }

  function Product(x: int, y: int): int { x * y }

  /** The coefficients from i on of `a` contribute to coefficient k of the product one product each;
      those that pass X^D are weighted with W. */
  function Convolution(W: int, a: seq<int>, b: seq<int>, i: nat, k: nat): int
    requires i <= |a| && k < |b|
    decreases |a| - i
  {
    if i == |a| then 0
    else Product(a[i], b[k]) + if k == 0 then W * Convolution(W, a, b, i + 1, |b| - 1)
      else Convolution(W, a, b, i + 1, k - 1)
  }

  lemma {:induction false} QuotientMulAt(W: int, a: seq<int>, b: seq<int>, i: nat, k: nat)
    requires i <= |a| && k < |b|
    ensures QuotientMul(W, a[i..], b)[k] == Convolution(W, a, b, i, k)
    decreases |a| - i
  {
    if i == |a| {
      ZerosAt(|b|, k);
    } else {
      var rest := QuotientMul(W, a[i + 1..], b);
      assert a[i..][1..] == a[i + 1..];
      assert QuotientMul(W, a[i..], b) == ScaleAndAdd(a[i], b, TimesX(W, rest));
      hide QuotientMul;
      QuotientMulAt(W, a, b, i + 1, if k == 0 then |b| - 1 else k - 1);
      assert Convolution(W, a, b, i, k) == Product(a[i], b[k]) + if k == 0 then W * rest[|b| - 1] else rest[k - 1];
      hide Convolution;
    }
  }

  lemma ConvolutionRow(W: int, a: seq<int>, b: seq<int>, i: nat)
    requires i < |a|
    ensures forall k {:trigger Convolution(W, a, b, i, k)} :: 0 <= k < |b| ==>
              Convolution(W, a, b, i, k) == Product(a[i], b[k]) +
                if i + 1 == |a| then 0
                else if k == 0 then W * Convolution(W, a, b, i + 1, |b| - 1) else Convolution(W, a, b, i + 1, k - 1)
  {
  }

  lemma ProductByCoefficients(W: int, a: seq<u64>, b: seq<u64>, c: seq<u64>)
    requires |c| == |b| && forall k :: 0 <= k < |c| ==> Value(c[k]) == Value(Convolution(W, a, b, 0, k))
    ensures IsProduct(W, a, b, c)
  {
    forall k | 0 <= k < |c|
      ensures Value(c[k]) == Value(QuotientMul(W, a, b)[k])
    {
      QuotientMulAt(W, a, b, 0, k);
      assert a[0..] == a;
    }
  }

  // ----- The 160-bit accumulator -----

  /** The 32-bit high part does not overflow as long as the whole stays below 2^160. */
  method U160Times3(x: u128, y: u32) returns (lo: u128, hi: u32)
    requires 3 * U160(x, y) < TWO_128 * 0x1_0000_0000
    ensures U160(lo, hi) == 3 * U160(x, y)
  {
    var shifted := (2 * x) % TWO_128;
    var sum := x + shifted;
    var cy := sum >= TWO_128;
    lo := sum % TWO_128;
    hi := 3 * y + x / 0x8000_0000_0000_0000_0000_0000_0000_0000 + if cy then 1 else 0;
  }

  /** Neither the high part overflows, nor does subtracting the borrow underflow. */
  method U160Times7(x: u128, y: u32) returns (lo: u128, hi: u32)
    requires 7 * U160(x, y) < TWO_128 * 0x1_0000_0000 - TWO_128
    ensures U160(lo, hi) == 7 * U160(x, y)
  {
    var shifted := (8 * x) % TWO_128;
    var br := shifted < x;
    lo := if br then shifted - x + TWO_128 else shifted - x;
    var before: u32 := 7 * y + x / 0x2000_0000_0000_0000_0000_0000_0000_0000;
    hi := before - if br then 1 else 0;
  }

  /** one product added to the accumulator */
  method AddProduct(cumulLo: u128, cumulHi: u32, x: u64, y: u64) returns (lo: u128, hi: u32)
    requires cumulHi < 0xFFFF_FFFF
    ensures U160(lo, hi) == U160(cumulLo, cumulHi) + Product(x, y)
    ensures 0 <= Product(x, y) <= (WORD - 1) * (WORD - 1)
  {
    ProductFits(x, y);
    var sum := cumulLo + Product(x, y);
    var cy := sum >= TWO_128;
    lo := sum % TWO_128;
    hi := cumulHi + if cy then 1 else 0;
  }

  // ----- The quadratic extension, W = 7 -----

  method Ext2AddProds0(a: seq<u64>, b: seq<u64>) returns (r: u64)
    requires |a| == |b| == 2
    ensures Value(r) == Value(Product(a[0], b[0]) + 7 * (Product(a[1], b[1])))
  {
    ProductFits(a[1], b[1]);
    var lo: u128, hi: u32 := Product(a[1], b[1]), 0;
    lo, hi := U160Times7(lo, hi);
    lo, hi := AddProduct(lo, hi, a[0], b[0]);
    r := Reduce160(lo, hi);
  }

  method Ext2AddProds1(a: seq<u64>, b: seq<u64>) returns (r: u64)
    requires |a| == |b| == 2
    ensures Value(r) == Value(Product(a[0], b[1]) + Product(a[1], b[0]))
  {
    ProductFits(a[0], b[1]);
    var lo: u128, hi: u32 := Product(a[0], b[1]), 0;
    lo, hi := AddProduct(lo, hi, a[1], b[0]);
    r := Reduce160(lo, hi);
  }

  method Ext2Mul(a: seq<u64>, b: seq<u64>) returns (c: seq<u64>)
    requires |a| == |b| == 2
    ensures IsProduct(7, a, b, c)
  {
    var c0 := Ext2AddProds0(a, b);
    var c1 := Ext2AddProds1(a, b);
    c := [c0, c1];
    Ext2Coefficients(a, b);
    ProductByCoefficients(7, a, b, c);
  }

  lemma Ext2Coefficients(a: seq<int>, b: seq<int>)
    requires |a| == |b| == 2
    ensures Convolution(7, a, b, 0, 0) == Product(a[0], b[0]) + 7 * (Product(a[1], b[1]))
    ensures Convolution(7, a, b, 0, 1) == Product(a[0], b[1]) + Product(a[1], b[0])
  {
    ConvolutionRow(7, a, b, 1);
    ConvolutionRow(7, a, b, 0);
  }

  // ----- The quartic extension, W = 7 -----

  method Ext4AddProds0(a: seq<u64>, b: seq<u64>) returns (r: u64)
    requires |a| == |b| == 4
    ensures Value(r) == Value(Product(a[0], b[0]) + 7 * (Product(a[1], b[3]) + Product(a[2], b[2])
            + Product(a[3], b[1])))
  {
    ProductFits(a[1], b[3]);
    var lo: u128, hi: u32 := Product(a[1], b[3]), 0;
    lo, hi := AddProduct(lo, hi, a[2], b[2]);
    lo, hi := AddProduct(lo, hi, a[3], b[1]);
    lo, hi := U160Times7(lo, hi);
    lo, hi := AddProduct(lo, hi, a[0], b[0]);
    r := Reduce160(lo, hi);
  }

  method Ext4AddProds1(a: seq<u64>, b: seq<u64>) returns (r: u64)
    requires |a| == |b| == 4
    ensures Value(r) == Value(Product(a[0], b[1]) + Product(a[1], b[0])
            + 7 * (Product(a[2], b[3]) + Product(a[3], b[2])))
  {
    ProductFits(a[2], b[3]);
    var lo: u128, hi: u32 := Product(a[2], b[3]), 0;
    lo, hi := AddProduct(lo, hi, a[3], b[2]);
    lo, hi := U160Times7(lo, hi);
    lo, hi := AddProduct(lo, hi, a[0], b[1]);
    lo, hi := AddProduct(lo, hi, a[1], b[0]);
    r := Reduce160(lo, hi);
  }

  method Ext4AddProds2(a: seq<u64>, b: seq<u64>) returns (r: u64)
    requires |a| == |b| == 4
    ensures Value(r) == Value(Product(a[0], b[2]) + Product(a[1], b[1]) + Product(a[2], b[0])
            + 7 * (Product(a[3], b[3])))
  {
    ProductFits(a[3], b[3]);
    var lo: u128, hi: u32 := Product(a[3], b[3]), 0;
    lo, hi := U160Times7(lo, hi);
    lo, hi := AddProduct(lo, hi, a[0], b[2]);
    lo, hi := AddProduct(lo, hi, a[1], b[1]);
    lo, hi := AddProduct(lo, hi, a[2], b[0]);
    r := Reduce160(lo, hi);
  }

  method Ext4AddProds3(a: seq<u64>, b: seq<u64>) returns (r: u64)
    requires |a| == |b| == 4
    ensures Value(r) == Value(Product(a[0], b[3]) + Product(a[1], b[2]) + Product(a[2], b[1]) + Product(a[3], b[0]))
  {
    ProductFits(a[0], b[3]);
    var lo: u128, hi: u32 := Product(a[0], b[3]), 0;
    lo, hi := AddProduct(lo, hi, a[1], b[2]);
    lo, hi := AddProduct(lo, hi, a[2], b[1]);
    lo, hi := AddProduct(lo, hi, a[3], b[0]);
    r := Reduce160(lo, hi);
  }

  method Ext4Mul(a: seq<u64>, b: seq<u64>) returns (c: seq<u64>)
    requires |a| == |b| == 4
    ensures IsProduct(7, a, b, c)
  {
    var c0 := Ext4AddProds0(a, b);
    var c1 := Ext4AddProds1(a, b);
    var c2 := Ext4AddProds2(a, b);
    var c3 := Ext4AddProds3(a, b);
    c := [c0, c1, c2, c3];
    Ext4Coefficients(a, b);
    ProductByCoefficients(7, a, b, c);
  }

  lemma Ext4Coefficients(a: seq<int>, b: seq<int>)
    requires |a| == |b| == 4
    ensures Convolution(7, a, b, 0, 0) == Product(a[0], b[0])
            + 7 * (Product(a[1], b[3]) + Product(a[2], b[2]) + Product(a[3], b[1]))
    ensures Convolution(7, a, b, 0, 1) == Product(a[0], b[1]) + Product(a[1], b[0])
            + 7 * (Product(a[2], b[3]) + Product(a[3], b[2]))
    ensures Convolution(7, a, b, 0, 2) == Product(a[0], b[2]) + Product(a[1], b[1]) + Product(a[2], b[0])
            + 7 * (Product(a[3], b[3]))
    ensures Convolution(7, a, b, 0, 3) == Product(a[0], b[3]) + Product(a[1], b[2]) + Product(a[2], b[1])
            + Product(a[3], b[0])
  {
    ConvolutionRow(7, a, b, 3);
    ConvolutionRow(7, a, b, 2);
    ConvolutionRow(7, a, b, 1);
    ConvolutionRow(7, a, b, 0);
  }

  // ----- The quintic extension, W = 3 -----

  method Ext5AddProds0(a: seq<u64>, b: seq<u64>) returns (r: u64)
    requires |a| == |b| == 5
    ensures Value(r) == Value(Product(a[0], b[0]) + 3 * (Product(a[1], b[4]) + Product(a[2], b[3]) + Product(a[3], b[2])
            + Product(a[4], b[1])))
  {
    ProductFits(a[1], b[4]);
    var lo: u128, hi: u32 := Product(a[1], b[4]), 0;
    lo, hi := AddProduct(lo, hi, a[2], b[3]);
    lo, hi := AddProduct(lo, hi, a[3], b[2]);
    lo, hi := AddProduct(lo, hi, a[4], b[1]);
    lo, hi := U160Times3(lo, hi);
    lo, hi := AddProduct(lo, hi, a[0], b[0]);
    r := Reduce160(lo, hi);
  }

  method Ext5AddProds1(a: seq<u64>, b: seq<u64>) returns (r: u64)
    requires |a| == |b| == 5
    ensures Value(r) == Value(Product(a[0], b[1]) + Product(a[1], b[0])
            + 3 * (Product(a[2], b[4]) + Product(a[3], b[3]) + Product(a[4], b[2])))
  {
    ProductFits(a[2], b[4]);
    var lo: u128, hi: u32 := Product(a[2], b[4]), 0;
    lo, hi := AddProduct(lo, hi, a[3], b[3]);
    lo, hi := AddProduct(lo, hi, a[4], b[2]);
    lo, hi := U160Times3(lo, hi);
    lo, hi := AddProduct(lo, hi, a[0], b[1]);
    lo, hi := AddProduct(lo, hi, a[1], b[0]);
    r := Reduce160(lo, hi);
  }

  method Ext5AddProds2(a: seq<u64>, b: seq<u64>) returns (r: u64)
    requires |a| == |b| == 5
    ensures Value(r) == Value(Product(a[0], b[2]) + Product(a[1], b[1]) + Product(a[2], b[0])
            + 3 * (Product(a[3], b[4]) + Product(a[4], b[3])))
  {
    ProductFits(a[3], b[4]);
    var lo: u128, hi: u32 := Product(a[3], b[4]), 0;
    lo, hi := AddProduct(lo, hi, a[4], b[3]);
    lo, hi := U160Times3(lo, hi);
    lo, hi := AddProduct(lo, hi, a[0], b[2]);
    lo, hi := AddProduct(lo, hi, a[1], b[1]);
    lo, hi := AddProduct(lo, hi, a[2], b[0]);
    r := Reduce160(lo, hi);
  }

  method Ext5AddProds3(a: seq<u64>, b: seq<u64>) returns (r: u64)
    requires |a| == |b| == 5
    ensures Value(r) == Value(Product(a[0], b[3]) + Product(a[1], b[2]) + Product(a[2], b[1]) + Product(a[3], b[0])
            + 3 * (Product(a[4], b[4])))
  {
    ProductFits(a[4], b[4]);
    var lo: u128, hi: u32 := Product(a[4], b[4]), 0;
    lo, hi := U160Times3(lo, hi);
    lo, hi := AddProduct(lo, hi, a[0], b[3]);
    lo, hi := AddProduct(lo, hi, a[1], b[2]);
    lo, hi := AddProduct(lo, hi, a[2], b[1]);
    lo, hi := AddProduct(lo, hi, a[3], b[0]);
    r := Reduce160(lo, hi);
  }

  method Ext5AddProds4(a: seq<u64>, b: seq<u64>) returns (r: u64)
    requires |a| == |b| == 5
    ensures Value(r) == Value(Product(a[0], b[4]) + Product(a[1], b[3]) + Product(a[2], b[2]) + Product(a[3], b[1])
            + Product(a[4], b[0]))
  {
    ProductFits(a[0], b[4]);
    var lo: u128, hi: u32 := Product(a[0], b[4]), 0;
    lo, hi := AddProduct(lo, hi, a[1], b[3]);
    lo, hi := AddProduct(lo, hi, a[2], b[2]);
    lo, hi := AddProduct(lo, hi, a[3], b[1]);
    lo, hi := AddProduct(lo, hi, a[4], b[0]);
    r := Reduce160(lo, hi);
  }

  method Ext5Mul(a: seq<u64>, b: seq<u64>) returns (c: seq<u64>)
    requires |a| == |b| == 5
    ensures IsProduct(3, a, b, c)
  {
    var c0 := Ext5AddProds0(a, b);
    var c1 := Ext5AddProds1(a, b);
    var c2 := Ext5AddProds2(a, b);
    var c3 := Ext5AddProds3(a, b);
    var c4 := Ext5AddProds4(a, b);
    c := [c0, c1, c2, c3, c4];
    Ext5Coefficients(a, b);
    ProductByCoefficients(3, a, b, c);
  }

  lemma Ext5Coefficients(a: seq<int>, b: seq<int>)
    requires |a| == |b| == 5
    ensures Convolution(3, a, b, 0, 0) == Product(a[0], b[0])
            + 3 * (Product(a[1], b[4]) + Product(a[2], b[3]) + Product(a[3], b[2]) + Product(a[4], b[1]))
    ensures Convolution(3, a, b, 0, 1) == Product(a[0], b[1]) + Product(a[1], b[0])
            + 3 * (Product(a[2], b[4]) + Product(a[3], b[3]) + Product(a[4], b[2]))
    ensures Convolution(3, a, b, 0, 2) == Product(a[0], b[2]) + Product(a[1], b[1]) + Product(a[2], b[0])
            + 3 * (Product(a[3], b[4]) + Product(a[4], b[3]))
    ensures Convolution(3, a, b, 0, 3) == Product(a[0], b[3]) + Product(a[1], b[2]) + Product(a[2], b[1])
            + Product(a[3], b[0]) + 3 * (Product(a[4], b[4]))
    ensures Convolution(3, a, b, 0, 4) == Product(a[0], b[4]) + Product(a[1], b[3]) + Product(a[2], b[2])
            + Product(a[3], b[1]) + Product(a[4], b[0])
  {
    ConvolutionRow(3, a, b, 4);
    ConvolutionRow(3, a, b, 3);
    ConvolutionRow(3, a, b, 2);
    ConvolutionRow(3, a, b, 1);
    ConvolutionRow(3, a, b, 0);
  }
}
