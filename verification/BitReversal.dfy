/** Bit reversal of indices, and the specification of the permutation it induces. */
module BitReversal {
  import opened Arithmetic

  /** the value of the low `b` bits of `i` read in the opposite order */
  function BitRev(b: nat, i: nat): (r: nat)
    ensures r < Pow2(b)
  {
    if b == 0 then 0 else (i % 2) * Pow2(b - 1) + BitRev(b - 1, i / 2)
  }

  /** `s` with the element of index `i` taken from index `BitRev(b, i)` */
  function BitReversed<T>(s: seq<T>, b: nat): (r: seq<T>)
    requires |s| == Pow2(b)
    ensures |r| == |s|
  {
    seq(|s|, i requires 0 <= i < |s| => s[BitRev(b, i)])
  }

  lemma DistributeShift(x: nat, p: nat, y: nat, q: nat)
    ensures (x * p + y) * q == x * (p * q) + y * q
  {
  }

  lemma {:induction false} BitRevConcat(a: nat, b: nat, hi: nat, lo: nat)
    requires lo < Pow2(a)
    ensures BitRev(a + b, hi * Pow2(a) + lo) == BitRev(a, lo) * Pow2(b) + BitRev(b, hi)
  {
    if a > 0 {
      var i := hi * Pow2(a) + lo;
      var h := hi * Pow2(a - 1);
      ProductDouble(hi, Pow2(a - 1));
      assert i % 2 == lo % 2 && i / 2 == h + lo / 2;
      BitRevConcat(a - 1, b, hi, lo / 2);
      Pow2Add(a - 1, b);
      DistributeShift(lo % 2, Pow2(a - 1), BitRev(a - 1, lo / 2), Pow2(b));
    }
  }

  lemma BitRevOne(i: nat)
    requires i < 2
    ensures BitRev(1, i) == i
  {
    assert BitRev(1, i) == (i % 2) * Pow2(0) + BitRev(0, i / 2);
  }

  /** reversing the index twice gives it back */
  lemma {:induction false} BitRevInvolution(b: nat, i: nat)
    requires i < Pow2(b)
    ensures BitRev(b, BitRev(b, i)) == i
  {
    if b > 0 {
      var x, y := i % 2, BitRev(b - 1, i / 2);
      assert BitRev(b, i) == x * Pow2(b - 1) + y && Pow2(1) == 2 * Pow2(0);
      BitRevOne(x);
      hide BitRev, Pow2;
      BitRevConcat(b - 1, 1, x, y);
      BitRevInvolution(b - 1, i / 2);
    }
  }

  /** the 6-bit reverses, row by row as in the source, where they are written in octal */
  const BIT_REVERSE_6BIT: seq<nat> :=
    Row(0) + Row(1) + Row(2) + Row(3) + Row(4) + Row(5) + Row(6) + Row(7)

  function Row(a: nat): (row: seq<nat>)
    requires a < 8
    ensures |row| == 8
  {
    match a
    case 0 => [0, 32, 16, 48, 8, 40, 24, 56]
    case 1 => [4, 36, 20, 52, 12, 44, 28, 60]
    case 2 => [2, 34, 18, 50, 10, 42, 26, 58]
    case 3 => [6, 38, 22, 54, 14, 46, 30, 62]
    case 4 => [1, 33, 17, 49, 9, 41, 25, 57]
    case 5 => [5, 37, 21, 53, 13, 45, 29, 61]
    case 6 => [3, 35, 19, 51, 11, 43, 27, 59]
    case _ => [7, 39, 23, 55, 15, 47, 31, 63]
  }

  /** the table holds the 6-bit reverse of every index */
  lemma TableIsBitRev(i: nat, w: nat)
    requires i < 64 && w == 6
    ensures |BIT_REVERSE_6BIT| == 64 && BIT_REVERSE_6BIT[i] == BitRev(w, i)
  {
    TableByDigits(i / 8, i % 8);
    DigitsOfReverse(i / 8, i % 8, 3);
  }

  lemma TableByDigits(a: nat, c: nat)
    requires a < 8 && c < 8
    ensures |BIT_REVERSE_6BIT| == 64 && BIT_REVERSE_6BIT[8 * a + c] == Rev3(c) * 8 + Rev3(a)
  {
    EightRows(Row(0), Row(1), Row(2), Row(3), Row(4), Row(5), Row(6), Row(7), a, c);
    assert Row(a)[c] == Rev3(c) * 8 + Rev3(a) by { RowDigits(a, c); }
  }

  lemma DigitsOfReverse(a: nat, c: nat, h: nat)
    requires a < 8 && c < 8 && h == 3
    ensures BitRev(h + h, 8 * a + c) == Rev3(c) * 8 + Rev3(a)
  {
    assert Pow2(3) == 8;
    BitRevConcat(h, h, a, c);
    BitRev3(a);
    BitRev3(c);
  }

  lemma EightRows(r0: seq<nat>, r1: seq<nat>, r2: seq<nat>, r3: seq<nat>,
                  r4: seq<nat>, r5: seq<nat>, r6: seq<nat>, r7: seq<nat>, a: nat, c: nat)
    requires |r0| == |r1| == |r2| == |r3| == |r4| == |r5| == |r6| == |r7| == 8
    requires a < 8 && c < 8
    ensures |r0 + r1 + r2 + r3 + r4 + r5 + r6 + r7| == 64
    ensures (r0 + r1 + r2 + r3 + r4 + r5 + r6 + r7)[8 * a + c] == [r0, r1, r2, r3, r4, r5, r6, r7][a][c]
  {
  }

  function Rev3(i: nat): nat
    requires i < 8
  {
    [0, 4, 2, 6, 1, 5, 3, 7][i]
  }

  lemma BitRev3(i: nat)
    requires i < 8
    ensures BitRev(3, i) == Rev3(i)
  {
  }

  /** entry c of row a has the reverse of c as its high and the reverse of a as its low octal digit */
  lemma RowDigits(a: nat, c: nat)
    requires a < 8 && c < 8
    ensures Row(a)[c] == Rev3(c) * 8 + Rev3(a)
  {
    assert Rev3(a) == [0, 4, 2, 6, 1, 5, 3, 7][a];
  }
}
