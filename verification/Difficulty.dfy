/** The adjusted difficulty target: the 256-bit arithmetic of the miner and the bound of the verifier. */
module Difficulty {
  import opened Arithmetic
  import opened PeriodicPatterns
  import opened Reversal
  import opened Wrappers

  // ----- Numbers as bytes -----

  function Pow256(n: nat): (r: nat)
    ensures r >= 1
  {
    if n == 0 then 1 else 256 * Pow256(n - 1)
  }

  /** the value of digits in base 256, lowest first; a digit may be too large */
  function ValueLE(s: seq<nat>): nat { if s == [] then 0 else s[0] + 256 * ValueLE(s[1..]) }

  function Digits(s: seq<u128>): (r: seq<nat>)
    ensures |r| == |s| && forall k :: 0 <= k < |s| ==> r[k] == s[k]
  {
    seq(|s|, k requires 0 <= k < |s| => s[k])
  }

  ghost predicate Small(s: seq<nat>) { forall k :: 0 <= k < |s| ==> s[k] < 256 }

  lemma {:induction false} ValueBound(s: seq<nat>)
    requires Small(s)
    ensures ValueLE(s) < Pow256(|s|)
  {
    if s != [] {
      ValueBound(s[1..]);
    }
  }

  lemma {:induction false} ValueConcat(s: seq<nat>, t: seq<nat>)
    ensures ValueLE(s + t) == ValueLE(s) + Pow256(|s|) * ValueLE(t)
  {
    if s == [] {
      assert s + t == t;
    } else {
      assert (s + t)[1..] == s[1..] + t;
      ValueConcat(s[1..], t);
      Scale256(Pow256(|s| - 1), ValueLE(t));
    }
  }

  lemma Scale256(p: nat, v: nat)
    ensures 256 * (p * v) == (256 * p) * v
  {
  }

  lemma {:induction false} Pow256Add(a: nat, b: nat)
    ensures Pow256(a + b) == Pow256(a) * Pow256(b)
  {
    if a > 0 {
      Pow256Add(a - 1, b);
      Scale256(Pow256(a - 1), Pow256(b));
    }
  }

  lemma {:induction false} Pow256Monotone(a: nat, b: nat)
    requires a <= b
    ensures Pow256(a) <= Pow256(b)
  {
    if a < b {
      Pow256Monotone(a, b - 1);
    }
  }

  /** (x + 256 y) modulo 256 p */
  lemma ModDigit(x: nat, y: nat, p: nat)
    requires x < 256 && p > 0
    ensures (x + 256 * y) % (256 * p) == x + 256 * (y % p)
  {
    var q, r := y / p, y % p;
    DivNat(y, p);
    Scale256(p, q);
    assert q * p == p * q && q * (256 * p) == (256 * p) * q;
    DivModUnique(x + 256 * y, 256 * p, q, x + 256 * r);
  }

  /** (p v) modulo (p m) */
  lemma {:induction false} ModScale(k: nat, v: nat, m: nat)
    requires m > 0
    ensures Pow256(k) * m > 0 && (Pow256(k) * v) % (Pow256(k) * m) == Pow256(k) * (v % m)
  {
    if k > 0 {
      ModScale(k - 1, v, m);
      Scale256(Pow256(k - 1), v);
      Scale256(Pow256(k - 1), m);
      ModDigit(0, Pow256(k - 1) * v, Pow256(k - 1) * m);
      Scale256(Pow256(k - 1), v % m);
    }
  }

  // ----- bits_to_target -----

  function Exponent(bits: u32): nat { bits / 0x100_0000 }

  function Mantissa(bits: u32): nat { bits % 0x100_0000 }

  predicate SignBit(bits: u32) { Mantissa(bits) >= 0x80_0000 }

  /** the target that the miner derives; an exponent above 32 makes an index wrap around and leaves zero */
  function MinerTarget(bits: u32): nat {
    var e, m := Exponent(bits), Mantissa(bits);
    if e < 3 then m / Pow256(3 - e)
    else if e <= 32 then m * Pow256(e - 3)
    else 0
  }

  lemma {:induction false} ZerosValue(n: nat)
    ensures ValueLE(Digits(Zeros(n))) == 0
  {
    if n > 0 {
      assert Digits(Zeros(n))[1..] == Digits(Zeros(n - 1));
      ZerosValue(n - 1);
    }
  }

  /** three bytes of a number below 2^24, lowest first */
  function ThreeBytes(m: nat): (r: seq<byte>)
    requires m < 0x100_0000
    ensures |r| == 3
  {
    [m % 256, m / 256 % 256, m / 0x1_0000]
  }

  lemma ThreeDigits(d: seq<nat>)
    requires |d| == 3
    ensures ValueLE(d) == d[0] + 256 * d[1] + 0x1_0000 * d[2]
  {
    var d1 := d[1..];
    var d2 := d1[1..];
    assert d2[1..] == [];
    assert ValueLE(d2) == d[2];
    assert ValueLE(d1) == d[1] + 256 * d[2];
  }

  lemma PlacedValue(m: nat, n: nat, rest: nat)
    requires m < 0x100_0000
    ensures ValueLE(Digits(Zeros(n) + ThreeBytes(m) + Zeros(rest))) == m * Pow256(n)
  {
    hide ValueLE, Pow256, ThreeBytes, Digits, Zeros;
    var z, d, r := Zeros(n), ThreeBytes(m), Zeros(rest);
    ThreeBytesValue(m);
    DigitsConcat(z + d, r);
    DigitsConcat(z, d);
    ValueConcat(Digits(z) + Digits(d), Digits(r));
    ValueConcat(Digits(z), Digits(d));
    ZerosValue(n);
    ZerosValue(rest);
    assert Pow256(|Digits(z) + Digits(d)|) * 0 == 0;
    assert Pow256(n) * m == m * Pow256(n);
  }

  lemma ThreeBytesValue(m: nat)
    requires m < 0x100_0000
    ensures ValueLE(Digits(ThreeBytes(m))) == m
  {
    ThreeDigits(Digits(ThreeBytes(m)));
    assert m == m % 256 + 256 * (m / 256 % 256) + 0x1_0000 * (m / 0x1_0000);
    hide ValueLE;
  }

  lemma DigitsConcat(a: seq<byte>, b: seq<byte>)
    ensures Digits(a + b) == Digits(a) + Digits(b)
  {
  }

  /** the bytes of the target, lowest first */
  function TargetBytes(bits: u32): (r: seq<byte>)
    ensures |r| == 32
  {
    var e, m := Exponent(bits), Mantissa(bits);
    if e < 3 then SmallExponent(m, 3 - e); ThreeBytes(m / Pow256(3 - e)) + Zeros(29)
    else if e <= 32 then Zeros(e - 3) + ThreeBytes(m) + Zeros(32 - e)
    else Zeros(32)
  }

  lemma SmallExponent(m: nat, k: nat)
    requires 1 <= k <= 3 && m < 0x100_0000
    ensures Pow256(k) == (if k == 1 then 0x100 else if k == 2 then 0x1_0000 else 0x100_0000)
    ensures 0 <= m / Pow256(k) < 0x1_0000
  {
    SmallPowers();
  }

  lemma TargetValue(bits: u32)
    ensures ValueLE(Digits(TargetBytes(bits))) == MinerTarget(bits)
  {
    var e, m := Exponent(bits), Mantissa(bits);
    if e < 3 {
      SmallExponent(m, 3 - e);
      PlacedValue(m / Pow256(3 - e), 0, 29);
      assert Zeros(0) + ThreeBytes(m / Pow256(3 - e)) + Zeros(29) == TargetBytes(bits);
    } else if e <= 32 {
      PlacedValue(m, e - 3, 32 - e);
    } else {
      ZerosValue(32);
    }
  }

  /** the target in big-endian bytes */
  method BitsToTarget(bits: u32) returns (target: seq<byte>)
    ensures target == Reversed(TargetBytes(bits))
  {
    hide TargetBytes, ThreeBytes, Zeros, Pow256, Reversed;
    var exponent := bits / 0x100_0000;
    var mantissa := bits % 0x100_0000;
    var be := new byte[32](_ => 0);
    if exponent >= 3 {
      var shiftBytes := exponent - 3;
      // the subtraction is on 64-bit words and wraps around for exponents above 32
      var start := if 29 >= shiftBytes then 29 - shiftBytes else 29 - shiftBytes + WORD;
      if start <= 29 {
        be[start] := mantissa / 0x1_0000;
        be[start + 1] := mantissa / 256 % 256;
        be[start + 2] := mantissa % 256;
      }
    } else {
      SmallExponent(mantissa, 3 - exponent);
      var shifted := mantissa / Pow256(3 - exponent);
      be[29] := shifted / 0x1_0000;
      be[30] := shifted / 256 % 256;
      be[31] := shifted % 256;
    }
    target := be[..];
    if exponent > 32 {
      ReversedZeros(target);
    } else if exponent >= 3 {
      PlacedReversed(mantissa, exponent - 3, target);
    } else {
      PlacedReversed(mantissa / Pow256(3 - exponent), 0, target);
    }
    TargetCases(bits);
  }

  lemma TargetCases(bits: u32)
    ensures Exponent(bits) > 32 ==> TargetBytes(bits) == Zeros(32)
    ensures 3 <= Exponent(bits) <= 32 ==>
              TargetBytes(bits) == Zeros(Exponent(bits) - 3) + ThreeBytes(Mantissa(bits))
                + Zeros(29 - (Exponent(bits) - 3))
    ensures Exponent(bits) < 3 ==>
              var x := Mantissa(bits) / Pow256(3 - Exponent(bits));
              0 <= x < 0x100_0000 && TargetBytes(bits) == Zeros(0) + ThreeBytes(x) + Zeros(29 - 0)
  {
    if Exponent(bits) < 3 {
      SmallTarget(bits);
    }
  }

  lemma SmallTarget(bits: u32)
    requires Exponent(bits) < 3
    ensures var k := 3 - Exponent(bits);
            && 0 <= Mantissa(bits) / Pow256(k) < 0x100_0000
            && TargetBytes(bits) == Zeros(0) + ThreeBytes(Mantissa(bits) / Pow256(k)) + Zeros(29)
  {
    SmallExponent(Mantissa(bits), 3 - Exponent(bits));
    hide Pow256;
    assert forall s: seq<byte> :: [] + s == s;
    assert Zeros(0) == [];
  }

  /** three bytes in big-endian order, n places from the end */
  lemma PlacedReversed(m: nat, n: nat, be: seq<byte>)
    requires m < 0x100_0000 && n <= 29 && |be| == 32
    requires be[29 - n] == m / 0x1_0000 && be[30 - n] == m / 256 % 256 && be[31 - n] == m % 256
    requires forall k :: 0 <= k < 32 && !(29 - n <= k <= 31 - n) ==> be[k] == 0
    ensures be == Reversed(Zeros(n) + ThreeBytes(m) + Zeros(29 - n))
  {
    var le := Zeros(n) + ThreeBytes(m) + Zeros(29 - n);
    hide Reversed;
    forall k: nat | k < 32
      ensures be[k] == Reversed(le)[k]
    {
      ReversedAt(le, k);
    }
  }

  lemma ReversedZeros(be: seq<byte>)
    requires |be| == 32 && forall k :: 0 <= k < 32 ==> be[k] == 0
    ensures be == Reversed(Zeros(32))
  {
    hide Reversed;
    forall k: nat | k < 32
      ensures be[k] == Reversed(Zeros(32))[k]
    {
      ReversedAt(Zeros(32), k);
    }
  }

  /** `target_be_to_le`, reversing a copy in place */
  method TargetBeToLe(be: seq<byte>) returns (le: seq<byte>)
    ensures le == Reversed(be)
  {
    var a := new byte[|be|](i requires 0 <= i < |be| => be[i]);
    var n := |be|;
    for i := 0 to n / 2
      invariant forall k :: 0 <= k < i ==> a[k] == be[n - 1 - k] && a[n - 1 - k] == be[k]
      invariant forall k :: i <= k < n - i ==> a[k] == be[k]
    {
      a[i], a[n - 1 - i] := a[n - 1 - i], a[i];
    }
    le := a[..];
    forall k: nat | k < n
      ensures le[k] == Reversed(be)[k]
    {
      ReversedAt(be, k);
      if k >= n - n / 2 {
        assert le[k] == a[n - 1 - (n - 1 - k)];
      }
    }
  }

  // ----- mul_u256_u128 -----

  /** the carry spread over the digits from its position on; what is left at the end is dropped */
  function AddInto(d: seq<nat>, carry: nat): (r: seq<nat>)
    ensures |r| == |d|
  {
    if d == [] || carry == 0 then d
    else
      var s := d[0] + carry % 256;
      [s % 256] + AddInto(d[1..], carry / 256 + s / 256)
  }

  lemma {:induction false} AddIntoValue(d: seq<nat>, carry: nat)
    requires Small(d)
    ensures Small(AddInto(d, carry))
    ensures ValueLE(AddInto(d, carry)) == (ValueLE(d) + carry) % Pow256(|d|)
    decreases d
  {
    if d == [] {
    } else if carry == 0 {
      ValueBound(d);
      DivModUnique(ValueLE(d), Pow256(|d|), 0, ValueLE(d));
    } else {
      var s := d[0] + carry % 256;
      var c := carry / 256 + s / 256;
      AddIntoValue(d[1..], c);
      ModDigit(s % 256, ValueLE(d[1..]) + c, Pow256(|d| - 1));
    }
  }

  /** x y as the 128-bit multiplication leaves it */
  function WrapMul(x: nat, y: nat): (r: u128)
    ensures x * y >= 0 && r <= x * y && (r == x * y <==> x * y < TWO_128)
  {
    MulNat(x, y);
    DivNat(x * y, TWO_128);
    (x * y) % TWO_128
  }

  /** the products of the bytes with the factor */
  function ByteProducts(a: seq<byte>, b: nat): (r: seq<u128>)
    ensures |r| == |a| && forall k :: 0 <= k < |a| ==> r[k] == WrapMul(a[k], b)
  {
    seq(|a|, k requires 0 <= k < |a| => WrapMul(a[k], b))
  }

  /** The sum of the products as the code computes it, from the products that are left and the digits `d`
      above the finished ones. */
  function Kept(prods: seq<nat>, d: seq<nat>): nat
    requires |d| == |prods| + 1
    decreases prods
  {
    if prods == [] then d[0]
    else d[0] + prods[0] % 256 + 256 * Kept(prods[1..], AddInto(d[1..], prods[0] / 256))
  }

  /** nothing is lost as long as the sum fits in 33 bytes; otherwise multiples of 2^264 are */
  lemma {:induction false} KeptValue(prods: seq<nat>, d: seq<nat>)
    requires |d| == |prods| + 1 && Small(d)
    ensures var total := ValueLE(d) + ValueLE(prods);
            && Kept(prods, d) <= total
            && Kept(prods, d) % Pow256(|d|) == total % Pow256(|d|)
            && (total < Pow256(|d|) ==> Kept(prods, d) == total)
    decreases prods
  {
    ValueFirst(d);
    if prods == [] {
      assert d[1..] == [];
      assert ValueLE(d[1..]) == 0;
    } else {
      var next := AddInto(d[1..], prods[0] / 256);
      AddIntoValue(d[1..], prods[0] / 256);
      KeptValue(prods[1..], next);
      ValueFirst(prods);
      assert Kept(prods, d) == d[0] + prods[0] % 256 + 256 * Kept(prods[1..], next);
      hide Kept, ValueLE, AddInto, Small;
      assert Pow256(|d|) == 256 * Pow256(|prods|);
      hide Pow256;
      KeptStep(d[0], prods[0], ValueLE(d[1..]), ValueLE(prods[1..]), ValueLE(next), Kept(prods[1..], next),
        Pow256(|prods|));
    }
  }


  lemma ValueFirst(s: seq<nat>)
    requires s != []
    ensures ValueLE(s) == s[0] + 256 * ValueLE(s[1..])
  {
  }

  lemma SumOfProducts(x: nat, y: nat, b: nat)
    ensures (x + 256 * y) * b == x * b + 256 * (y * b)
  {
  }

  /** one byte of the product: `v` are the digits above, `r` the product of the bytes left, `w` the digits
      after the carry, `k` what is kept of them */
  lemma KeptStep(d0: nat, prod: nat, v: nat, r: nat, w: nat, k: nat, p: nat)
    requires d0 < 256 && p > 0 && w == (v + prod / 256) % p
    requires k <= w + r && k % p == (w + r) % p && (w + r < p ==> k == w + r)
    ensures var total := d0 + 256 * v + (prod + 256 * r);
            var kept := d0 + prod % 256 + 256 * k;
            && kept <= total && kept % (256 * p) == total % (256 * p) && (total < 256 * p ==> kept == total)
  {
    var t := v + prod / 256;
    DivNat(t, p);
    var low := d0 + prod % 256;
    assert d0 + 256 * v + (prod + 256 * r) == low + 256 * (t + r);
    AddMod(k, w + r, t + r, t / p, p);
    if low < 256 {
      ModDigit(low, k, p);
      ModDigit(low, t + r, p);
    } else {
      AddMod(k + 1, w + r + 1, t + r + 1, t / p, p) by { NextMod(k, w + r, p); }
      ModDigit(low - 256, k + 1, p);
      ModDigit(low - 256, t + r + 1, p);
    }
    if t + r < p {
      DivModUnique(t, p, 0, t);
    }
  }

  lemma NextMod(x: nat, y: nat, p: nat)
    requires p > 0 && x % p == y % p
    ensures (x + 1) % p == (y + 1) % p
  {
    DivNat(x, p);
    DivNat(y, p);
    var r := x % p;
    if r + 1 < p {
      DivModUnique(x + 1, p, x / p, r + 1);
      DivModUnique(y + 1, p, y / p, r + 1);
    } else {
      DivModUnique(x + 1, p, x / p + 1, 0);
      DivModUnique(y + 1, p, y / p + 1, 0);
    }
  }

  /** adding a multiple of p */
  lemma AddMod(k: nat, x: nat, y: nat, q: nat, p: nat)
    requires p > 0 && k % p == x % p && y == x + q * p
    ensures k % p == y % p && x <= y
  {
    MulNat(q, p);
    DivNat(x, p);
    assert (x / p + q) * p == (x / p) * p + q * p;
    DivModUnique(y, p, x / p + q, x % p);
  }

  /** the carries of the last pass */
  function Tidied(s: seq<nat>, carry: nat): (seq<byte>, nat) {
    if s == [] then ([], carry)
    else
      var t := s[0] + carry;
      var (le, c) := Tidied(s[1..], t / 256);
      ([t % 256] + le, c)
  }

  lemma {:induction false} TidiedValue(s: seq<nat>, carry: nat)
    ensures |Tidied(s, carry).0| == |s|
    ensures ValueLE(Digits(Tidied(s, carry).0)) + Pow256(|s|) * Tidied(s, carry).1 == ValueLE(s) + carry
    decreases s
  {
    if s != [] {
      var t := s[0] + carry;
      var (le, c) := Tidied(s[1..], t / 256);
      TidiedValue(s[1..], t / 256);
      assert Digits([t % 256] + le)[1..] == Digits(le);
      Scale256(Pow256(|s| - 1), c);
    }
  }

  /** the finished digits, the digits left and the carry add up to the goal */
  ghost predicate Spreading(done: seq<nat>, left: seq<nat>, carry: nat, goal: seq<nat>) {
    done + AddInto(left, carry) == goal
  }

  lemma SpreadStep(done: seq<nat>, left: seq<nat>, carry: nat, goal: seq<nat>)
    requires left != [] && carry > 0 && Spreading(done, left, carry, goal)
    ensures var s := left[0] + carry % 256;
            Spreading(done + [s % 256], left[1..], carry / 256 + s / 256, goal)
  {
    var s := left[0] + carry % 256;
    var rest := AddInto(left[1..], carry / 256 + s / 256);
    assert done + ([s % 256] + rest) == (done + [s % 256]) + rest;
  }

  /** adds a carry into the digits from `start` on */
  method SpreadCarry(out: array<u128>, start: nat, carry: u128)
    requires start <= out.Length && forall k :: start <= k < out.Length ==> out[k] < 256
    modifies out
    ensures forall k :: 0 <= k < start ==> out[k] == old(out[k])
    ensures Digits(out[start..]) == AddInto(Digits(old(out[start..])), carry)
  {
    hide AddInto, Spreading, Digits;
    var j, c := start, carry;
    ghost var goal := AddInto(Digits(out[start..]), carry);
    SpreadStart(out[..], start, c, goal);
    while c > 0 && j < out.Length
      invariant start <= j <= out.Length && c >= 0
      invariant forall k :: j <= k < out.Length ==> out[k] < 256
      invariant forall k :: 0 <= k < start ==> out[k] == old(out[k])
      invariant SpreadTo(out[..], start, j, c, goal)
      decreases out.Length - j
    {
      var s := out[j] + c % 256;
      SpreadNext(out[..], start, j, c, goal);
      ghost var before := out[..];
      out[j] := s % 256;
      assert out[..] == before[j := s % 256];
      c := c / 256 + s / 256;
      j := j + 1;
    }
    SpreadEnd(out[..], start, j, c, goal);
    assert out[..][start..] == out[start..];
  }

  /** the digits from start on, with those below j finished */
  ghost predicate SpreadTo(out: seq<u128>, start: nat, j: nat, carry: nat, goal: seq<nat>) {
    start <= j <= |out| && Spreading(Digits(out[start..j]), Digits(out[j..]), carry, goal)
  }

  lemma SpreadStart(out: seq<u128>, start: nat, carry: nat, goal: seq<nat>)
    requires start <= |out| && goal == AddInto(Digits(out[start..]), carry)
    ensures SpreadTo(out, start, start, carry, goal)
  {
    hide AddInto;
    assert Digits(out[start..start]) == [] && [] + goal == goal;
  }

  lemma SpreadNext(out: seq<u128>, start: nat, j: nat, carry: nat, goal: seq<nat>)
    requires SpreadTo(out, start, j, carry, goal) && j < |out| && carry > 0
    ensures var s := out[j] + carry % 256; s >= 0 && SpreadTo(out[j := s % 256], start, j + 1, carry / 256 + s / 256,
            goal)
  {
    var s := out[j] + carry % 256;
    var before, after, out' := Digits(out[start..j]), Digits(out[j..]), out[j := s % 256];
    assert after[0] == out[j] && after[1..] == Digits(out'[j + 1..]);
    hide AddInto, Spreading;
    SpreadStep(before, after, carry, goal);
    assert Digits(out'[start..j + 1]) == before + [s % 256];
  }

  lemma SpreadEnd(out: seq<u128>, start: nat, j: nat, carry: nat, goal: seq<nat>)
    requires SpreadTo(out, start, j, carry, goal) && (j == |out| || carry == 0)
    ensures Digits(out[start..]) == goal
  {
    AllSpread(Digits(out[j..]), carry);
    hide AddInto;
    assert Digits(out[start..]) == Digits(out[start..j]) + Digits(out[j..]);
  }

  lemma AllSpread(left: seq<nat>, carry: nat)
    requires left == [] || carry == 0
    ensures AddInto(left, carry) == left
  {
  }

  /** after the products below i, the finished digits and what will be kept of the rest */
  ghost predicate Multiplied(prods: seq<u128>, i: nat, out: seq<u128>) {
    && |prods| == 32 && |out| == 33 && i <= 32
    && (forall k :: 0 <= k < i ==> out[k] < 512) && (forall k :: i <= k < 33 ==> out[k] < 256)
    && ValueLE(Digits(out[..i])) + Pow256(i) * Kept(prods[i..], Digits(out[i..])) == Kept(prods, Digits(Zeros(33)))
  }

  lemma MultipliedNext(prods: seq<u128>, i: nat, out: seq<u128>, out': seq<u128>)
    requires Multiplied(prods, i, out) && i < 32 && |out'| == 33
    requires forall k :: 0 <= k < i ==> out'[k] == out[k]
    requires out'[i] == out[i] + prods[i] % 256
    requires Digits(out'[i + 1..]) == AddInto(Digits(out[i + 1..]), prods[i] / 256)
    ensures Multiplied(prods, i + 1, out')
  {
    var d, prod := Digits(out[i..]), prods[i];
    assert prods[i..][1..] == prods[i + 1..] && d[1..] == Digits(out[i + 1..]);
    var rest := Kept(prods[i + 1..], Digits(out'[i + 1..]));
    assert Kept(prods[i..], d) == out'[i] + 256 * rest;
    assert Pow256(i + 1) == 256 * Pow256(i);
    assert ValueLE([out'[i]]) == out'[i] by { assert [out'[i]][1..] == []; }
    hide Kept, Pow256, ValueLE, AddInto;
    AddIntoValue(d[1..], prod / 256);
    forall k | i + 1 <= k < 33
      ensures out'[k] < 256
    {
      assert out'[k] == Digits(out'[i + 1..])[k - (i + 1)];
    }
    assert Digits(out'[..i + 1]) == Digits(out[..i]) + [out'[i]];
    ValueConcat(Digits(out[..i]), [out'[i]]);
    Regroup(Pow256(i), out'[i], rest);
  }

  lemma Regroup(p: nat, x: nat, y: nat)
    ensures p * (x + 256 * y) == p * x + (256 * p) * y
  {
  }

  /** the loop over the bytes of a; a product that does not fit in 128 bits wraps around */
  method Products(aLe: seq<byte>, b: u128) returns (out: seq<u128>)
    requires |aLe| == 32
    ensures Multiplied(ByteProducts(aLe, b), 32, out)
  {
    hide WrapMul;
    ghost var prods := ByteProducts(aLe, b);
    var arr := new u128[33](_ => 0);
    MultipliedStart(prods, arr[..]);
    for i := 0 to 32
      invariant Multiplied(prods, i, arr[..])
    {
      ghost var before := arr[..];
      var prod := WrapMul(aLe[i], b);
      arr[i] := arr[i] + prod % 256;
      assert arr[i + 1..] == before[i + 1..];
      SpreadCarry(arr, i + 1, prod / 256);
      MultipliedNext(prods, i, before, arr[..]);
    }
    out := arr[..];
  }

  lemma MultipliedStart(prods: seq<u128>, out: seq<u128>)
    requires |prods| == 32 && |out| == 33 && forall k :: 0 <= k < 33 ==> out[k] == 0
    ensures Multiplied(prods, 0, out)
  {
    assert ValueLE([]) == 0 && Pow256(0) == 1;
    hide Kept, ValueLE, Pow256;
    assert Digits(out[..0]) == [] && prods[0..] == prods;
    assert Digits(out[0..]) == Digits(Zeros(33));
  }

  /** the last pass over the digits, with the carry out of them */
  method Tidy(out: seq<u128>) returns (le: seq<byte>, carry: u128)
    requires |out| >= 32 && forall k :: 0 <= k < 32 ==> out[k] < 512
    ensures (le, carry) == Tidied(Digits(out[..32]), 0) && carry < 512
  {
    le, carry := [], 0;
    assert out[0..32] == out[..32];
    ghost var goal := Tidied(Digits(out[..32]), 0);
    assert Tidying([], Digits(out[0..32]), 0, goal) by { assert [] + goal.0 == goal.0; }
    for i := 0 to 32
      invariant |le| == i && carry < 512
      invariant Tidying(le, Digits(out[i..32]), carry, goal)
    {
      assert Digits(out[i..32])[1..] == Digits(out[i + 1..32]);
      TidyStep(le, Digits(out[i..32]), carry, goal);
      var s := out[i] + carry;
      le, carry := le + [s % 256], s / 256;
    }
    assert Digits(out[32..32]) == [] && le + [] == le;
  }

  /** what is done and what is left add up to the goal */
  ghost predicate Tidying(done: seq<byte>, left: seq<nat>, carry: nat, goal: (seq<byte>, nat)) {
    var (rest, c) := Tidied(left, carry);
    (done + rest, c) == goal
  }

  lemma TidyStep(done: seq<byte>, left: seq<nat>, carry: nat, goal: (seq<byte>, nat))
    requires left != [] && Tidying(done, left, carry, goal)
    ensures var t := left[0] + carry; Tidying(done + [t % 256], left[1..], t / 256, goal)
  {
    var t := left[0] + carry;
    var rest := Tidied(left[1..], t / 256).0;
    assert done + ([t % 256] + rest) == (done + [t % 256]) + rest;
  }

  /** what the multiplication of the bytes `aLe` by `b` yields: no value when it reports an overflow */
  ghost function Outcome(aLe: seq<byte>, b: nat): Option<nat>
    requires |aLe| == 32
  {
    var k := Kept(ByteProducts(aLe, b), Digits(Zeros(33)));
    if k < Pow256(32) then Some(k) else None
  }

  /** The result is the sum of the byte products, or an overflow; see the outcomes below. */
  method MulU256U128(aBe: seq<byte>, b: u128) returns (r: Option<seq<byte>>)
    requires |aBe| == 32
    ensures r.None? <==> Outcome(Reversed(aBe), b).None?
    ensures r.Some? ==> |r.value| == 32 && Some(ValueLE(Digits(Reversed(r.value)))) == Outcome(Reversed(aBe), b)
  {
    var aLe := Reversed(aBe);
    var out := Products(aLe, b);
    var le, carry := Tidy(out);
    var overflow := out[32] + carry;
    OverflowIsExact(ByteProducts(aLe, b), out, le, carry);
    if overflow > 0 {
      return None;
    }
    ReversedTwice(le);
    return Some(Reversed(le));
  }

  lemma OverflowIsExact(prods: seq<u128>, out: seq<u128>, le: seq<byte>, carry: nat)
    requires Multiplied(prods, 32, out) && (le, carry) == Tidied(Digits(out[..32]), 0)
    ensures |le| == 32
    ensures out[32] + carry > 0 <==> Kept(prods, Digits(Zeros(33))) >= Pow256(32)
    ensures out[32] + carry == 0 ==> Kept(prods, Digits(Zeros(33))) == ValueLE(Digits(le))
  {
    var low := Digits(out[..32]);
    TidiedValue(low, 0);
    LastDigit(prods, out);
    hide Kept, Tidied, ValueLE, Pow256, Multiplied;
    ValueBound(Digits(le));
    OverflowArithmetic(Pow256(32), ValueLE(Digits(le)), carry, out[32], Kept(prods, Digits(Zeros(33))));
  }

  lemma LastDigit(prods: seq<u128>, out: seq<u128>)
    requires Multiplied(prods, 32, out)
    ensures ValueLE(Digits(out[..32])) + Pow256(32) * out[32] == Kept(prods, Digits(Zeros(33)))
  {
    hide ValueLE, Pow256;
    assert prods[32..] == [] && Digits(out[32..])[0] == out[32];
  }

  lemma OverflowArithmetic(p: nat, value: nat, carry: nat, last: nat, kept: nat)
    requires p > value && value + p * carry + p * last == kept
    ensures last + carry > 0 <==> kept >= p
    ensures last + carry == 0 ==> kept == value
  {
    assert p * last + p * carry == p * (last + carry);
    if last + carry > 0 {
      MulMonotone(1, last + carry, p);
      assert p * (last + carry) == (last + carry) * p;
    }
  }

  /** The outcome against the sum p of the byte products: right below 2^256, an overflow from there to 2^264,
      and from 2^264 on an overflow or p with multiples of 2^264 taken off, the latter only if that is below 2^256. */
  lemma OutcomeOfProducts(aLe: seq<byte>, b: nat)
    requires |aLe| == 32
    ensures var (p, o) := (ValueLE(ByteProducts(aLe, b)), Outcome(aLe, b));
            && (p < Pow256(32) ==> o == Some(p))
            && (Pow256(32) <= p < Pow256(33) ==> o == None)
            && (p >= Pow256(33) ==> o == None || o == Some(p % Pow256(33)))
            && (p % Pow256(33) >= Pow256(32) ==> o == None)
  {
    hide Kept, ValueLE, Pow256;
    var prods := ByteProducts(aLe, b);
    var p, k := ValueLE(prods), Kept(prods, Digits(Zeros(33)));
    ZerosValue(33);
    KeptValue(prods, Digits(Zeros(33)));
    Pow256Monotone(32, 33);
    if k < Pow256(32) {
      DivModUnique(k, Pow256(33), 0, k);
    }
    if p < Pow256(33) {
      DivModUnique(p, Pow256(33), 0, p);
    }
  }

  /** every product of a byte with the factor fits in 128 bits */
  ghost predicate ProductsFit(a: seq<byte>, b: nat) {
    forall k :: 0 <= k < |a| ==> WrapMul(a[k], b) == a[k] * b
  }

  /** the sum of the byte products is the product exactly when none of them wraps around */
  lemma {:induction false} ProductsAreExact(a: seq<byte>, b: nat)
    ensures ValueLE(Digits(a)) * b >= ValueLE(ByteProducts(a, b))
    ensures ValueLE(ByteProducts(a, b)) == ValueLE(Digits(a)) * b <==> ProductsFit(a, b)
    decreases a
  {
    if a != [] {
      var rest := a[1..];
      ProductsAreExact(rest, b);
      assert ByteProducts(a, b)[1..] == ByteProducts(rest, b) && Digits(a)[1..] == Digits(rest);
      ValueFirst(ByteProducts(a, b));
      ValueFirst(Digits(a));
      assert ProductsFit(a, b) <==> WrapMul(a[0], b) == a[0] * b && ProductsFit(rest, b) by {
        if WrapMul(a[0], b) == a[0] * b && ProductsFit(rest, b) {
          forall k | 0 <= k < |a|
            ensures WrapMul(a[k], b) == a[k] * b
          {
            assert k > 0 ==> a[k] == rest[k - 1];
          }
        }
        if ProductsFit(a, b) {
          forall k | 0 <= k < |rest|
            ensures WrapMul(rest[k], b) == rest[k] * b
          {
            assert rest[k] == a[k + 1];
          }
        }
      }
      hide ValueLE, ByteProducts, Digits, ProductsFit, WrapMul;
      SumOfProducts(a[0], ValueLE(Digits(rest)), b);
    }
  }

  /** factors below 2^120 are safe for every target */
  lemma SmallFactorsFit(a: seq<byte>, b: nat)
    requires b < 0x100_0000_0000_0000_0000_0000_0000_0000
    ensures ProductsFit(a, b)
  {
    forall k | 0 <= k < |a|
      ensures WrapMul(a[k], b) == a[k] * b
    {
      MulMonotone(a[k], 255, b);
    }
  }

  /** The outcome against the exact product, for factors below 2^120. */
  lemma OutcomeOfProduct(aLe: seq<byte>, b: nat)
    requires |aLe| == 32 && ProductsFit(aLe, b)
    ensures var (p, o) := (ValueLE(Digits(aLe)) * b, Outcome(aLe, b));
            && p >= 0
            && (p < Pow256(32) ==> o == Some(p))
            && (Pow256(32) <= p < Pow256(33) ==> o == None)
            && (p >= Pow256(33) ==> o == None || o == Some(p % Pow256(33)))
            && (p % Pow256(33) >= Pow256(32) ==> o == None)
  {
    hide Outcome, ValueLE, Pow256, ByteProducts, ProductsFit;
    OutcomeOfProducts(aLe, b);
    ProductsAreExact(aLe, b);
  }

  // ----- The verifier -----

  const U256_BYTES: nat := 32

  /** `nbits_to_difficulty`; a left shift drops what does not fit in 256 bits */
  function NbitsToDifficulty(bits: u32): nat {
    var e, m := Exponent(bits), Mantissa(bits);
    if m == 0 || e == 0 || SignBit(bits) then 0
    else if e <= 3 then
      DivNat(m, Pow256(3 - e));
      m / Pow256(3 - e)
    else
      MulNat(m, Pow256(e - 3));
      ModPow(m * Pow256(e - 3), 32)
  }

  function ModPow(x: nat, n: nat): nat { x % Pow256(n) }

  /** What the encoding means: zero with the sign bit or a zero exponent, the mantissa at exponent 3, and from there
      one more in the exponent multiplies by 256 modulo 2^256 and one less divides by 256. */
  lemma NbitsScale(bits: u32)
    ensures SignBit(bits) || Exponent(bits) == 0 ==> NbitsToDifficulty(bits) == 0
    ensures Exponent(bits) == 3 && !SignBit(bits) ==> NbitsToDifficulty(bits) == Mantissa(bits)
    ensures 1 <= Exponent(bits) < 3 ==> NbitsToDifficulty(bits) == NbitsToDifficulty(bits + 0x100_0000) / 256
    ensures 3 <= Exponent(bits) < 255 ==>
              NbitsToDifficulty(bits + 0x100_0000) == ModPow(256 * NbitsToDifficulty(bits), 32)
  {
    var e, m := Exponent(bits), Mantissa(bits);
    SmallPowers();
    if e < 255 {
      assert Exponent(bits + 0x100_0000) == e + 1 && Mantissa(bits + 0x100_0000) == m;
    }
    hide Pow256;
    if 3 <= e < 255 && m > 0 && !SignBit(bits) {
      NextExponent(m, e - 3);
      if e == 3 {
        NarrowShift(m, 3);
        NarrowShift(m, 4);
        DivModUnique(m * 256, Pow256(32), 0, m * 256);
        DivModUnique(m, Pow256(32), 0, m);
      }
    } else if e >= 3 {
      DivModUnique(0, Pow256(32), 0, 0);
    }
  }

  lemma NextExponent(m: nat, k: nat)
    ensures m * Pow256(k) >= 0 && m * Pow256(k + 1) >= 0
    ensures ModPow(m * Pow256(k + 1), 32) == ModPow(256 * ModPow(m * Pow256(k), 32), 32)
  {
    var p, x := Pow256(32), m * Pow256(k);
    assert Pow256(k + 1) == 256 * Pow256(k);
    hide Pow256;
    MulNat(m, Pow256(k));
    assert m * (256 * Pow256(k)) == 256 * x;
    ScaledMod(x, p);
  }

  /** 256 x modulo p, from x modulo p */
  lemma ScaledMod(x: nat, p: nat)
    requires p > 0
    ensures (256 * x) % p == (256 * (x % p)) % p
  {
    DivNat(x, p);
    var q, r := x / p, x % p;
    DivNat(256 * r, p);
    var q', r' := (256 * r) / p, (256 * r) % p;
    assert 256 * x == (256 * q + q') * p + r' by {
      assert (256 * q + q') * p == 256 * (q * p) + q' * p;
    }
    DivModUnique(256 * x, p, 256 * q + q', r');
  }

  /** `extract_difficulty_bound`; the source divides by the factor and panics when it is zero */
  function DifficultyBound(bits: u32, factor: nat): nat
    requires factor > 0
  {
    var max := Pow256(32) - 1;
    var target := NbitsToDifficulty(bits);
    MulNat(target, factor);
    if target > max / factor then max else target * factor
  }

  /** the bound is the product, or the largest 256-bit number when the product is larger */
  lemma BoundSaturates(bits: u32, factor: nat)
    requires factor > 0
    ensures var p := NbitsToDifficulty(bits) * factor;
            p >= 0 && DifficultyBound(bits, factor) == if p < Pow256(32) then p else Pow256(32) - 1
  {
    hide Pow256, NbitsToDifficulty;
    Saturates(Pow256(32) - 1, NbitsToDifficulty(bits), factor);
  }

  /** the division test decides whether the product exceeds the maximum */
  lemma Saturates(max: nat, t: nat, factor: nat)
    requires factor > 0
    ensures t * factor >= 0 && (t > max / factor <==> t * factor > max)
  {
    DivNat(max, factor);
    MulNat(t, factor);
    assert (max / factor + 1) * factor == (max / factor) * factor + factor;
    if t > max / factor {
      MulMonotone(max / factor + 1, t, factor);
    } else {
      MulMonotone(t, max / factor, factor);
    }
  }

  // ----- Miner and verifier -----

  /** a sign bit is zero for the verifier, and an exponent above 32 is zero for the miner */
  predicate TargetsAgree(bits: u32) {
    var e, m := Exponent(bits), Mantissa(bits);
    if SignBit(bits) then e == 0 || e > 32
    else e <= 32 || (e == 33 && m % 0x1_0000 == 0) || (e == 34 && m % 0x100 == 0) || e >= 35
  }

  lemma WideShift(m: nat, e: nat)
    requires e > 32
    ensures e >= 35 ==> (m * Pow256(e - 3)) % Pow256(32) == 0
    ensures e == 34 ==> ((m * Pow256(e - 3)) % Pow256(32) == 0 <==> m % 0x100 == 0)
    ensures e == 33 ==> ((m * Pow256(e - 3)) % Pow256(32) == 0 <==> m % 0x1_0000 == 0)
  {
    SmallPowers();
    hide Pow256;
    var p := Pow256(e - 3);
    if e >= 35 {
      Pow256Add(e - 35, 32);
      assert m * (Pow256(e - 35) * Pow256(32)) == (m * Pow256(e - 35)) * Pow256(32);
      MulNat(m, Pow256(e - 35));
      DivModUnique(m * p, Pow256(32), m * Pow256(e - 35), 0);
    } else {
      var k := 35 - e;
      Pow256Add(e - 3, k);
      ModScale(e - 3, m, Pow256(k));
      assert p * m == m * p;
      PositiveFactor(p, m % Pow256(k));
    }
  }

  lemma SmallPowers()
    ensures Pow256(0) == 1 && Pow256(1) == 0x100 && Pow256(2) == 0x1_0000 && Pow256(3) == 0x100_0000
  {
    assert Pow256(1) == 256 * Pow256(0);
    assert Pow256(2) == 256 * Pow256(1);
    assert Pow256(3) == 256 * Pow256(2);
  }

  lemma PositiveFactor(p: nat, x: nat)
    requires p > 0
    ensures p * x == 0 <==> x == 0
  {
  }

  lemma NarrowShift(m: nat, e: nat)
    requires 3 <= e <= 32 && m < 0x100_0000
    ensures m * Pow256(e - 3) < Pow256(32)
  {
    SmallPowers();
    hide Pow256;
    Pow256Add(3, e - 3);
    Pow256Monotone(e, 32);
    MulMonotone(m + 1, 0x100_0000, Pow256(e - 3));
    assert (m + 1) * Pow256(e - 3) == m * Pow256(e - 3) + Pow256(e - 3);
  }

  /** when the miner and the verifier derive the same target, exactly */
  lemma TargetsAgreeIff(bits: u32)
    ensures MinerTarget(bits) == NbitsToDifficulty(bits) <==> TargetsAgree(bits)
  {
    SmallPowers();
    hide Pow256;
    var e, m := Exponent(bits), Mantissa(bits);
    if e > 32 {
      WideShift(m, e);
    } else if e >= 3 {
      NarrowShift(m, e);
      PositiveFactor(Pow256(e - 3), m);
      assert Pow256(e - 3) * m == m * Pow256(e - 3);
      if e > 3 && !SignBit(bits) {
        DivModUnique(m * Pow256(e - 3), Pow256(32), 0, m * Pow256(e - 3));
      }
    } else {
      SmallExponent(m, 3 - e);
    }
  }

  lemma TargetEven(bits: u32)
    requires Exponent(bits) >= 4
    ensures MinerTarget(bits) % 256 == 0
  {
    var e, m := Exponent(bits), Mantissa(bits);
    if e <= 32 {
      assert Pow256(e - 3) == 256 * Pow256(e - 4);
      Scale256(m, Pow256(e - 4));
      assert m * (256 * Pow256(e - 4)) == 256 * (m * Pow256(e - 4));
      MulNat(m, Pow256(e - 4));
    }
  }

  /** Where both derive the same target, the miner's adjusted target is the verifier's bound exactly when
      the product is below 2^256. */
  lemma MinerMatchesVerifier(bits: u32, b: nat)
    requires 0 < b < 0x100_0000_0000_0000_0000_0000_0000_0000 && TargetsAgree(bits)
    ensures Outcome(TargetBytes(bits), b) == Some(DifficultyBound(bits, b))
            <==> NbitsToDifficulty(bits) * b < Pow256(32)
  {
    TargetsAgreeIff(bits);
    TargetValue(bits);
    BoundSaturates(bits, b);
    SmallFactorsFit(TargetBytes(bits), b);
    OutcomeOfProduct(TargetBytes(bits), b);
    var t := MinerTarget(bits);
    if t * b >= Pow256(32) {
      LargeProduct(bits, b);
      if t * b >= Pow256(33) {
        NotAllOnes(t, b);
      }
    }
  }

  /** a product of 2^256 or more needs an exponent of at least 4 */
  lemma LargeProduct(bits: u32, b: nat)
    requires b < 0x100_0000_0000_0000_0000_0000_0000_0000 && MinerTarget(bits) * b >= Pow256(32)
    ensures Exponent(bits) >= 4 && MinerTarget(bits) % 256 == 0
  {
    SmallPowers();
    var e, m, t := Exponent(bits), Mantissa(bits), MinerTarget(bits);
    if e <= 3 {
      if e < 3 {
        SmallExponent(m, 3 - e);
      }
      WideEnough();
      hide Pow256;
      assert t < 0x100_0000;
      MulMonotone(t, 0x100_0000, b);
    } else {
      TargetEven(bits);
    }
  }

  lemma WideEnough()
    ensures Pow256(32) > 0x100_0000 * 0x100_0000_0000_0000_0000_0000_0000_0000
  {
    SmallPowers();
    hide Pow256;
    Pow256Add(2, 2);
    Pow256Add(4, 4);
    Pow256Add(8, 8);
    Pow256Add(16, 16);
  }

  /** a multiple of 256, reduced modulo a power of 256, does not end in all ones */
  lemma NotAllOnes(t: nat, b: nat)
    requires t % 256 == 0
    ensures t * b >= 0 && (t * b) % Pow256(33) != Pow256(32) - 1
  {
    assert Pow256(33) == 256 * Pow256(32) && Pow256(32) == 256 * Pow256(31);
    NotOneLess(t, b, Pow256(31));
  }

  lemma NotOneLess(t: nat, b: nat, p: nat)
    requires t % 256 == 0 && p > 0
    ensures t * b >= 0 && (t * b) % (256 * (256 * p)) != 256 * p - 1
  {
    var q := t / 256;
    MulNat(q, b);
    Scale256(q, b);
    ModDigit(0, q * b, 256 * p);
  }

  /** Beyond 2^264 the miner can go wrong silently: this target and factor give it zero, while the
      verifier accepts everything. */
  lemma SilentOverflow()
    ensures TargetsAgree(0x2040_0000)
    ensures Outcome(TargetBytes(0x2040_0000), 0x8_0000) == Some(0)
    ensures DifficultyBound(0x2040_0000, 0x8_0000) == Pow256(32) - 1
  {
    SilentZero();
    SilentBound();
  }

  lemma SilentBound()
    ensures DifficultyBound(0x2040_0000, 0x8_0000) == Pow256(32) - 1
  {
    BoundSaturates(0x2040_0000, 0x8_0000);
    SilentTarget();
    SmallPowers();
    Pow256Add(29, 3);
    hide NbitsToDifficulty, Pow256, DifficultyBound;
    WideProduct(NbitsToDifficulty(0x2040_0000), Pow256(29), Pow256(32));
  }

  lemma WideProduct(t: nat, p: nat, q: nat)
    requires t == 0x40_0000 * p && q == p * 0x100_0000
    ensures t * 0x8_0000 >= q
  {
  }

  lemma SilentTarget()
    ensures NbitsToDifficulty(0x2040_0000) == 0x40_0000 * Pow256(29)
  {
    hide Pow256;
    TargetsAgreeIff(0x2040_0000);
    hide NbitsToDifficulty;
  }

  lemma SilentZero()
    ensures Outcome(TargetBytes(0x2040_0000), 0x8_0000) == Some(0)
  {
    hide Kept, ByteProducts, TargetBytes, Digits, Zeros, Pow256, AddInto;
    TwoMoreZeros();
    SilentProducts();
    KeptZeros(31, [0x200_0000], [0, 0]);
    KeptLast();
    assert Kept(Digits(Zeros(31)) + [0x200_0000], Digits(Zeros(31)) + [0, 0]) == 0;
  }

  lemma TwoMoreZeros()
    ensures Digits(Zeros(33)) == Digits(Zeros(31)) + [0, 0]
  {
  }

  lemma SilentProducts()
    ensures ByteProducts(TargetBytes(0x2040_0000), 0x8_0000) == Digits(Zeros(31)) + [0x200_0000]
  {
    assert TargetBytes(0x2040_0000) == Zeros(31) + [0x40];
    assert WrapMul(0, 0x8_0000) == 0 && WrapMul(0x40, 0x8_0000) == 0x200_0000;
    hide WrapMul, TargetBytes;
  }

  lemma KeptLast()
    ensures Kept([0x200_0000], [0, 0]) == 0
  {
    assert [0, 0][1..] == [0] && [0x200_0000][1..] == [];
    assert AddInto([0], 0x2_0000) == [0] by {
      assert [0][1..] == [];
    }
  }

  lemma {:induction false} KeptZeros(n: nat, prods: seq<nat>, d: seq<nat>)
    requires |d| == |prods| + 1
    ensures Kept(Digits(Zeros(n)) + prods, Digits(Zeros(n)) + d) == Pow256(n) * Kept(prods, d)
  {
    var prods', d' := Digits(Zeros(n)) + prods, Digits(Zeros(n)) + d;
    if n == 0 {
      assert prods' == prods && d' == d;
    } else {
      KeptZeros(n - 1, prods, d);
      assert prods'[1..] == Digits(Zeros(n - 1)) + prods && d'[1..] == Digits(Zeros(n - 1)) + d;
      assert AddInto(d'[1..], 0) == d'[1..];
      assert Pow256(n) == 256 * Pow256(n - 1);
      assert Kept(prods', d') == 256 * Kept(prods'[1..], d'[1..]);
      hide Kept, AddInto, Pow256;
      Scale256(Pow256(n - 1), Kept(prods, d));
    }
  }

  // ----- MiningJob::build -----

  datatype JobError = AdjustmentOverflow | TargetOverflow

  function CheckedMul(x: u128, y: u128): Option<u128> {
    MulNat(x, y);
    if x * y < TWO_128 then Some(x * y) else None
  }

  datatype Config = Config(commonDim: u32, rank: u32, rows: Pattern, cols: Pattern)

  /** the patterns are canonical, as both ways to build them guarantee, and the rank is not zero */
  ghost predicate ValidConfig(c: Config) { Canonical(c.rows) && Canonical(c.cols) && c.rank > 0 }

  /** the part of the common dimension that whole ranks cover */
  function DotProductLength(c: Config): (r: u32)
    requires c.rank > 0
    ensures r % c.rank == 0 && r <= c.commonDim < r + c.rank
  {
    DivNat(c.commonDim, c.rank);
    DivModUnique(c.commonDim - c.commonDim % c.rank, c.rank, c.commonDim / c.rank, 0);
    c.commonDim - c.commonDim % c.rank
  }

  /** the adjustment factor, as the miner's checked 128-bit products give it */
  function Factor(c: Config): nat
    requires c.rank > 0
  {
    MulNat(Size(c.rows), Size(c.cols));
    MulNat(Size(c.rows) * Size(c.cols), DotProductLength(c));
    Size(c.rows) * Size(c.cols) * DotProductLength(c)
  }

  lemma FactorBound(c: Config)
    requires ValidConfig(c)
    ensures Size(c.rows) <= MAX_PERIOD && Size(c.cols) <= MAX_PERIOD
    ensures 0 <= Size(c.rows) * Size(c.cols) <= 0x1_0000_0000_0000
    ensures Factor(c) < 0x1_0000_0000_0000_0000_0000
  {
    SizeIsListLength(c.rows);
    SizeIsListLength(c.cols);
    hide Size;
    var h, w, k := Size(c.rows), Size(c.cols), DotProductLength(c);
    MulNat(h, w);
    MulMonotone(h, MAX_PERIOD, w);
    MulMonotone(h * w, 0x1_0000_0000_0000, k);
  }

  /** The target derivation of a job. The sizes of the patterns are at most 2^24, so that the checked
      product never overflows. */
  method DeriveTarget(nbits: u32, config: Config) returns (r: Result<seq<byte>, JobError>)
    requires ValidConfig(config)
    ensures r.Ok? ==> |r.value| == 32 && Some(ValueLE(Digits(r.value))) == Outcome(TargetBytes(nbits), Factor(config))
    ensures r.Err? <==> Outcome(TargetBytes(nbits), Factor(config)).None?
    ensures r.Err? ==> r.error == TargetOverflow
    ensures r.Ok? && Some(ValueLE(Digits(r.value))) == VerifierBound(nbits, config) <==> Matches(nbits, config)
    ensures Exact(nbits, config) ==> r.Ok? && Some(ValueLE(Digits(r.value))) == VerifierBound(nbits, config)
  {
    FactorBound(config);
    SizeIsListLength(config.rows);
    SizeIsListLength(config.cols);
    hide Kept, ValueLE, Pow256, VerifierBound, Exact, AddInto, Size, ListOf;
    ExactMatches(nbits, config);
    var rows := ToList(config.rows);
    var cols := ToList(config.cols);
    var h: u128, w: u128, roundedK: u128 := |rows|, |cols|, DotProductLength(config);
    var hw := CheckedMul(h, w);
    var factor := if hw.Some? then CheckedMul(hw.value, roundedK) else None;
    assert factor == Some(Factor(config));
    if factor.None? {
      return Err(AdjustmentOverflow);
    }
    var targetBe := BitsToTarget(nbits);
    ReversedTwice(TargetBytes(nbits));
    var adjustedBe := MulU256U128(targetBe, factor.value);
    if adjustedBe.None? {
      return Err(TargetOverflow);
    }
    var le := TargetBeToLe(adjustedBe.value);
    return Ok(le);
  }

  // ----- The bound that the verifier computes for a configuration -----

  /** the verifier's factor: the same product in 64-bit words, which wrap around */
  function VerifierFactor(c: Config): (r: u64)
    requires c.rank > 0
  {
    MulNat(Size(c.rows), Size(c.cols));
    var tileSize := Wrap64(Size(c.rows) * Size(c.cols));
    MulNat(tileSize, DotProductLength(c));
    Wrap64(tileSize * DotProductLength(c))
  }

  function Wrap64(x: nat): (r: u64)
    ensures x < WORD ==> r == x
  {
    DivNat(x, WORD);
    x % WORD
  }

  lemma VerifierFactorWraps(c: Config)
    requires ValidConfig(c)
    ensures VerifierFactor(c) == Wrap64(Factor(c)) <= Factor(c)
  {
    FactorBound(c);
    DivNat(Factor(c), WORD);
    hide Size;
  }

  /** `extract_difficulty_bound` for a configuration; no value when it divides by zero */
  function VerifierBound(bits: u32, c: Config): Option<nat>
    requires c.rank > 0
  {
    if VerifierFactor(c) == 0 then None else Some(DifficultyBound(bits, VerifierFactor(c)))
  }

  /** the miner derives a target without an error, and it is the verifier's bound */
  ghost predicate Matches(bits: u32, c: Config)
    requires c.rank > 0
  {
    var o := Outcome(TargetBytes(bits), Factor(c));
    o.Some? && o == VerifierBound(bits, c)
  }

  /** no word wraps around, the targets agree, and the product fits in 256 bits */
  ghost predicate Exact(bits: u32, c: Config)
    requires c.rank > 0
  {
    0 < Factor(c) < WORD && TargetsAgree(bits) && MulNonneg(MinerTarget(bits), Factor(c)) < Pow256(32)
  }

  function MulNonneg(x: nat, y: nat): (r: nat)
    ensures r == x * y
  {
    MulNat(x, y);
    x * y
  }

  /** When the targets agree and the factor fits in a word, miner and verifier match exactly when the product
      is below 2^256 and the factor is not zero. */
  lemma ExactMatches(bits: u32, c: Config)
    requires ValidConfig(c)
    ensures Exact(bits, c) ==> Matches(bits, c)
    ensures TargetsAgree(bits) && Factor(c) < WORD ==> (Matches(bits, c) <==> Exact(bits, c))
  {
    FactorBound(c);
    VerifierFactorWraps(c);
    hide Factor, VerifierFactor, Size, Outcome, DifficultyBound, Pow256, NbitsToDifficulty, TargetsAgree, MinerTarget;
    if TargetsAgree(bits) && 0 < Factor(c) < WORD {
      TargetsAgreeIff(bits);
      MinerMatchesVerifier(bits, Factor(c));
    }
  }

  /** the miner's side: the product, an overflow, or the product without multiples of 2^264 */
  lemma OutcomeOfJob(bits: u32, c: Config)
    requires ValidConfig(c)
    ensures var (p, o) := (MulNonneg(MinerTarget(bits), Factor(c)), Outcome(TargetBytes(bits), Factor(c)));
            && (p < Pow256(32) ==> o == Some(p))
            && (Pow256(32) <= p < Pow256(33) ==> o == None)
            && (o.Some? ==> o.value == p % Pow256(33))
  {
    var b := Factor(c);
    FactorBound(c);
    TargetValue(bits);
    SmallFactorsFit(TargetBytes(bits), b);
    OutcomeOfProduct(TargetBytes(bits), b);
    hide *;
    Pow256Monotone(32, 33);
    var p := MulNonneg(MinerTarget(bits), b);
    assert p == MinerTarget(bits) * b;
    if p < Pow256(33) {
      DivModUnique(p, Pow256(33), 0, p);
    }
  }

  /** the verifier's side */
  lemma BoundOfJob(bits: u32, c: Config)
    requires c.rank > 0
    ensures var (p, g) := (MulNonneg(NbitsToDifficulty(bits), VerifierFactor(c)), VerifierFactor(c));
            VerifierBound(bits, c) == if g == 0 then None else Some(if p < Pow256(32) then p else Pow256(32) - 1)
  {
    var g := VerifierFactor(c);
    hide VerifierFactor, DifficultyBound, Pow256, NbitsToDifficulty;
    if g > 0 {
      BoundSaturates(bits, g);
    }
  }

  /** When the factor wraps around, a match needs one of the two products to lose nothing but multiples of
      2^264: whenever the miner reports no error, this is the exact condition. */
  lemma WrappedMatches(bits: u32, c: Config)
    requires ValidConfig(c) && TargetsAgree(bits) && Outcome(TargetBytes(bits), Factor(c)).Some?
    ensures var (t, g) := (MinerTarget(bits), VerifierFactor(c));
            Matches(bits, c) <==>
              g > 0 && MulNonneg(t, g) < Pow256(32) && MulNonneg(t, Factor(c)) % Pow256(33) == MulNonneg(t, g)
  {
    OutcomeOfJob(bits, c);
    BoundOfJob(bits, c);
    TargetsAgreeIff(bits);
    if MulNonneg(MinerTarget(bits), VerifierFactor(c)) >= Pow256(32) {
      NoMatchAbove(bits, c);
    }
    hide Factor, VerifierFactor, Outcome, VerifierBound, Pow256, NbitsToDifficulty, TargetsAgree, MinerTarget,
      MulNonneg;
    hide ValidConfig, TargetBytes;
  }

  /** a result of all ones, as the verifier's bound has it, cannot be the miner's */
  lemma NoMatchAbove(bits: u32, c: Config)
    requires ValidConfig(c) && MulNonneg(MinerTarget(bits), VerifierFactor(c)) >= Pow256(32)
    ensures MulNonneg(MinerTarget(bits), Factor(c)) % Pow256(33) != Pow256(32) - 1
  {
    FactorBound(c);
    VerifierFactorWraps(c);
    hide *;
    GrowingProduct(MinerTarget(bits), VerifierFactor(c), Factor(c));
    LargeProduct(bits, Factor(c));
    NotAllOnes(MinerTarget(bits), Factor(c));
  }

  lemma GrowingProduct(t: nat, g: nat, b: nat)
    requires g <= b
    ensures MulNonneg(t, g) <= MulNonneg(t, b) == t * b
  {
    MulMonotone(g, b, t);
    assert t * g == g * t && t * b == b * t;
  }

  /** below 2^264, a factor that wraps around matches only for a target of zero */
  lemma WrappedBelow(bits: u32, c: Config)
    requires ValidConfig(c) && TargetsAgree(bits) && MulNonneg(MinerTarget(bits), Factor(c)) < Pow256(33)
    requires Factor(c) >= WORD
    ensures Matches(bits, c) <==> VerifierFactor(c) > 0 && MinerTarget(bits) == 0
  {
    OutcomeOfJob(bits, c);
    VerifierFactorWraps(c);
    ProductsDiffer(MinerTarget(bits), VerifierFactor(c), Factor(c), Pow256(33));
    ZeroProduct(Factor(c));
    ZeroProduct(VerifierFactor(c));
    if Outcome(TargetBytes(bits), Factor(c)).Some? {
      WrappedMatches(bits, c);
      hide Matches, ValidConfig, Factor, VerifierFactor, Outcome, Pow256, TargetsAgree, MinerTarget, TargetBytes,
        MulNonneg;
    } else {
      hide ValidConfig, Factor, VerifierFactor, Outcome, Pow256, TargetsAgree, MinerTarget, TargetBytes, MulNonneg,
        VerifierBound;
    }
  }

  lemma ZeroProduct(y: nat)
    ensures MulNonneg(0, y) == 0 < Pow256(32)
  {
  }

  lemma ProductsDiffer(t: nat, g: nat, b: nat, p: nat)
    requires g < b && MulNonneg(t, b) < p
    ensures MulNonneg(t, b) % p == MulNonneg(t, g) <==> t == 0
  {
    DivModUnique(t * b, p, 0, t * b);
    if t > 0 {
      assert t * b == t * g + t * (b - g);
      MulMonotone(1, b - g, t);
    }
  }

  /** Encodings whose targets disagree never match while the miner's product is below 2^264. */
  lemma DisagreementNeverMatches(bits: u32, c: Config)
    requires ValidConfig(c) && !TargetsAgree(bits) && MulNonneg(MinerTarget(bits), Factor(c)) < Pow256(33)
    ensures !Matches(bits, c)
  {
    TargetsAgreeIff(bits);
    OneIsZero(bits);
    OutcomeOfJob(bits, c);
    BoundOfJob(bits, c);
    VerifierFactorWraps(c);
    SmallPowers();
    Pow256Monotone(1, 32);
    hide Factor, VerifierFactor, Outcome, VerifierBound, Pow256, NbitsToDifficulty, TargetsAgree, MinerTarget,
      MulNonneg;
    hide ValidConfig, TargetBytes;
    if VerifierFactor(c) > 0 {
      ProductIsZero(MinerTarget(bits), Factor(c));
      ProductIsZero(NbitsToDifficulty(bits), VerifierFactor(c));
    }
  }

  lemma ProductIsZero(x: nat, y: nat)
    requires y > 0
    ensures MulNonneg(x, y) == 0 <==> x == 0
  {
  }

  /** targets differ only where one of them is zero */
  lemma OneIsZero(bits: u32)
    ensures MinerTarget(bits) == NbitsToDifficulty(bits) || MinerTarget(bits) == 0 || NbitsToDifficulty(bits) == 0
  {
    TargetsAgreeIff(bits);
    hide Pow256;
  }

  // ----- Configurations that pass the verifier's checks -----

  predicate IsPowerOfTwoRank(r: nat) { r in {32, 64, 128, 256, 512, 1024} }

  /** the checks of `public_params_sanity_check` that are about the configuration */
  predicate PassesSanityCheck(c: Config) {
    && IsPowerOfTwoRank(c.rank) && c.commonDim <= 0x1_0000 && c.commonDim % 64 == 0
    && 16 * c.rank <= c.commonDim <= 4 * c.rank * c.rank && c.commonDim >= 1024
    && Size(c.rows) % 2 == 0 && Size(c.cols) % 2 == 0 && Size(c.rows) * Size(c.cols) >= 32
    && DotProductLength(c) % 4 == 0 && (Size(c.rows) + Size(c.cols)) * DotProductLength(c) <= 0x40_0000
  }

  /** they bound the factor well below 2^64, so that the verifier's products never wrap around */
  lemma SaneFactor(c: Config)
    requires ValidConfig(c) && PassesSanityCheck(c)
    ensures 0 < Factor(c) <= 0x1000_0000_0000 < WORD
  {
    var h, w, k := Size(c.rows), Size(c.cols), DotProductLength(c);
    hide Size;
    DivNat(c.commonDim, c.rank);
    assert k > 0 && h > 0 && w > 0;
    SaneProduct(h, w, k);
  }

  lemma SaneProduct(h: nat, w: nat, k: nat)
    requires h > 0 && w > 0 && k > 0 && (h + w) * k <= 0x40_0000
    ensures 0 < h * w * k <= 0x1000_0000_0000
  {
    MulMonotone(1, k, w);
    assert (h + w) * k == h * k + w * k;
    MulMonotone(1, h, k);
    MulMonotone(1, w, k);
    assert h * w * k == w * (h * k);
    assert w <= 0x40_0000 && 0 < h * k <= 0x40_0000;
    MulMonotone(w, 0x40_0000, h * k);
    MulMonotone(1, w, h * k);
  }

  /** for such configurations the condition is on the target alone, and never on the words */
  lemma SaneMatches(bits: u32, c: Config)
    requires ValidConfig(c) && PassesSanityCheck(c) && TargetsAgree(bits)
    ensures Matches(bits, c) <==> MulNonneg(MinerTarget(bits), Factor(c)) < Pow256(32)
  {
    SaneFactor(c);
    ExactMatches(bits, c);
  }

  /** Without those checks a canonical configuration can wrap the verifier's factor around to zero: the miner
      derives a target, and the verifier divides by zero. */
  lemma FactorWrapsToZero()
    ensures var c := WideConfig();
            ValidConfig(c) && Factor(c) == WORD && VerifierBound(0x300_0001, c) == None
    ensures Outcome(TargetBytes(0x300_0001), Factor(WideConfig())) == Some(WORD)
  {
    var c, bits: u32 := WideConfig(), 0x300_0001;
    WideIsValid();
    VerifierFactorWraps(c);
    TargetValue(bits);
    SmallPowers();
    assert MinerTarget(bits) == 1;
    SmallFactorsFit(TargetBytes(bits), WORD);
    OutcomeOfProduct(TargetBytes(bits), WORD);
    WideEnough();
  }

  function WidePattern(): Pattern { [Dim(1, 256), Dim(512, 256), Dim(0x4_0000, 64)] }

  function WideConfig(): Config { Config(0x10_0000, 1, WidePattern(), WidePattern()) }

  lemma WideIsValid()
    ensures ValidConfig(WideConfig()) && Factor(WideConfig()) == WORD
  {
    var p := WidePattern();
    assert Canonical(p) by { WideIsCanonical(); }
    assert Size(p) == 0x40_0000 by {
      var p2, p1 := [Dim(1, 256), Dim(512, 256)], [Dim(1, 256)];
      assert p[..2] == p2 && p2[..1] == p1 && p1[..0] == [];
      assert Size(p1) == 256;
      assert Size(p2) == 0x1_0000;
    }
    hide Size, Canonical;
    assert DotProductLength(WideConfig()) == 0x10_0000;
  }

  lemma WideIsCanonical()
    ensures Canonical(WidePattern())
  {
    var p := WidePattern();
    forall k | 0 <= k < 3
      ensures CanonicalAt(p, k, 1, false)
    {
      assert Inner(p, k, 1) == if k == 0 then 1 else p[k - 1].stride * p[k - 1].length;
    }
  }
}
