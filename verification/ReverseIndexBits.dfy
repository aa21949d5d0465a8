/** plonky2_util's reordering of an array into bit-reversed index order: the two loops that copy,
    the trivial in-place algorithm, and the cache-friendly one made of chunk moves and transposes. */
module ReverseIndexBits {
  import opened Arithmetic
  import opened BitReversal
  import opened Permutations
  import opened Transpose

  const USIZE_BITS: nat := 64

  // BIG_T_SIZE and SMALL_ARR_SIZE, in bytes
  const BIG_T_SIZE: nat := 16384
  const SMALL_ARR_SIZE: nat := 65536

  /** `usize::wrapping_shr`: the shift amount is taken modulo the width */
  function WrappingShr(x: nat, n: nat): nat { Shr(x, n % USIZE_BITS) }

  /** reversing in a word that is `n` bits wider and shifting the result down reverses in the narrow word */
  lemma NarrowReverse(b: nat, n: nat, i: nat, w: nat)
    requires i < Pow2(b) && w == b + n
    ensures Shr(BitRev(w, i), n) == BitRev(b, i)
  {
    var hi := 0;
    assert hi * Pow2(b) + i == i;
    BitRevConcat(b, n, hi, i);
    BitRevZero(n);
    ShrOfMultiple(BitRev(b, i), n);
  }

  lemma {:induction false} BitRevZero(b: nat)
    ensures BitRev(b, 0) == 0
  {
    if b > 0 {
      BitRevZero(b - 1);
    }
  }

  /** `i.reverse_bits().wrapping_shr(64 - b)`, also in the case b = 0 where the shift wraps to 0 */
  lemma WrappingReverse(b: nat, i: nat)
    requires i < Pow2(b) && b <= USIZE_BITS
    ensures WrappingShr(BitRev(USIZE_BITS, i), USIZE_BITS - b) == BitRev(b, i)
  {
    hide BitRev, Pow2;
    WrappingReverseOf(b, i, USIZE_BITS);
  }

  lemma WrappingReverseOf(b: nat, i: nat, w: nat)
    requires i < Pow2(b) && b <= w == USIZE_BITS
    ensures WrappingShr(BitRev(w, i), w - b) == BitRev(b, i)
  {
    if b == 0 {
      BitRevZero(w);
      assert (w - b) % USIZE_BITS == 0 && i == 0 && BitRev(b, i) == 0;
      hide BitRev;
      assert Shr(0, 0) == 0;
    } else {
      assert (w - b) % USIZE_BITS == w - b;
      hide BitRev, Shr, Pow2;
      NarrowReverse(b, w - b, i, w);
    }
  }

  // ----- The trivial in-place algorithm -----

  /** the array after the loop has visited the indices below `n`: a pair is exchanged as soon as its
      smaller index has been visited */
  ghost function HalfReversed<T>(s: seq<T>, b: nat, n: nat): (r: seq<T>)
    ensures |r| == |s|
  {
    Rearranged(s, (k: nat) => if k < n || BitRev(b, k) < n then BitRev(b, k) else k)
  }

  lemma HalfReversedStart<T>(s: seq<T>, b: nat)
    ensures HalfReversed(s, b, 0) == s
  {
    RearrangedId(s, (k: nat) => if k < 0 || BitRev(b, k) < 0 then BitRev(b, k) else k);
  }

  lemma HalfReversedEnd<T>(s: seq<T>, b: nat)
    requires |s| == Pow2(b)
    ensures HalfReversed(s, b, |s|) == BitReversed(s, b)
  {
    RearrangedAt(s, (k: nat) => if k < |s| || BitRev(b, k) < |s| then BitRev(b, k) else k);
  }

  /** visiting `src` exchanges it with its reverse unless that has happened already */
  lemma HalfReversedStep<T>(s: seq<T>, b: nat, src: nat)
    requires |s| == Pow2(b) && src < |s|
    ensures var dst := BitRev(b, src);
            HalfReversed(s, b, src + 1)
            == if src < dst then SwappedAt(HalfReversed(s, b, src), src, dst) else HalfReversed(s, b, src)
  {
    var dst := BitRev(b, src);
    var h, h' := HalfReversed(s, b, src), HalfReversed(s, b, src + 1);
    RearrangedAt(s, (k: nat) => if k < src || BitRev(b, k) < src then BitRev(b, k) else k);
    RearrangedAt(s, (k: nat) => if k < src + 1 || BitRev(b, k) < src + 1 then BitRev(b, k) else k);
    hide BitRev, Pow2;
    BitRevInvolution(b, src);
    forall k: nat | k < |s|
      ensures h'[k] == (if src < dst then SwappedAt(h, src, dst) else h)[k]
    {
      BitRevInvolution(b, k);
    }
  }

  /** `BIT_REVERSE_6BIT[i]`; `w` is the width of its entries */
  method TableEntry(i: nat, ghost w: nat) returns (rev: nat)
    requires i < 64 && w == 6
    ensures rev == BitRev(w, i)
  {
    TableIsBitRev(i, w);
    rev := BIT_REVERSE_6BIT[i];
  }

  /** the table entry of an index below 2^lbN, shifted down to an lbN-bit reverse */
  method TableReverse(src: nat, lbN: nat) returns (dst: nat)
    requires lbN <= 6 && src < Pow2(lbN) <= 64
    ensures dst == BitRev(lbN, src)
  {
    var w := 6;
    var rev := TableEntry(src, w);
    var dstShrAmt := w - lbN;
    NarrowReverse(lbN, dstShrAmt, src, w);
    assert dstShrAmt % USIZE_BITS == dstShrAmt;
    dst := WrappingShr(rev, dstShrAmt);
  }

  /** the low part of the reverse of an index, from its bits above the sixth */
  method LowReverse(srcChunk: nat, lbN: nat) returns (dstLo: nat)
    requires 6 < lbN <= USIZE_BITS && srcChunk < Pow2(lbN - 6)
    ensures dstLo == BitRev(lbN - 6, srcChunk)
  {
    WrappingReverse(lbN - 6, srcChunk);
    var dstLoShrAmt := USIZE_BITS - (lbN - 6);
    dstLo := WrappingShr(BitRev(USIZE_BITS, srcChunk), dstLoShrAmt);
  }

  /** the high part, from the low six bits; together they are the reverse of the index */
  method HighReverse(ghost srcChunk: nat, srcLo: nat, lbN: nat) returns (dstHi: nat)
    requires 6 < lbN && srcLo < 64
    ensures dstHi + BitRev(lbN - 6, srcChunk) == BitRev(lbN, srcChunk * 64 + srcLo)
  {
    var w := 6;
    var rev := TableEntry(srcLo, w);
    SixBits(w);
    BitRevConcat(w, lbN - w, srcChunk, srcLo);
    MulNat(rev, Pow2(lbN - w));
    dstHi := rev * Pow2(lbN - w);
  }

  lemma SixBits(w: nat)
    requires w == 6
    ensures Pow2(w) == 64
  {
  }

  /** the swap of one index, which both loops make once for each pair */
  method SwapIfBelow<T>(arr: array<T>, ghost s: seq<T>, ghost lbN: nat, src: nat, dst: nat)
    requires |s| == Pow2(lbN) == arr.Length && src < |s| && dst == BitRev(lbN, src)
             && arr[..] == HalfReversed(s, lbN, src)
    modifies arr
    ensures arr[..] == HalfReversed(s, lbN, src + 1)
  {
    HalfReversedStep(s, lbN, src);
    if src < dst {
      Swap(arr, src, dst);
    }
  }

  /** the branch for arrays of at most 64 elements */
  method ReverseByTable<T>(arr: array<T>, lbN: nat)
    requires arr.Length == Pow2(lbN) <= 64 && lbN <= 6
    modifies arr
    ensures arr[..] == BitReversed(old(arr[..]), lbN)
  {
    ghost var s := arr[..];
    HalfReversedStart(s, lbN);
    for src := 0 to arr.Length
      invariant arr[..] == HalfReversed(s, lbN, src)
    {
      var dst := TableReverse(src, lbN);
      SwapIfBelow(arr, s, lbN, src, dst);
    }
    HalfReversedEnd(s, lbN);
  }

  /** the branch for larger arrays: the low bits of an index become the high bits of its reverse */
  method ReverseByChunks<T>(arr: array<T>, lbN: nat)
    requires arr.Length == Pow2(lbN) && 6 < lbN <= USIZE_BITS
    modifies arr
    ensures arr[..] == BitReversed(old(arr[..]), lbN)
  {
    ghost var s := arr[..];
    HalfReversedStart(s, lbN);
    var chunks := Pow2(lbN - 6);
    ChunkCount(lbN);
    ghost var visited := 0;
    for srcChunk := 0 to chunks
      invariant visited == srcChunk * 64 && arr[..] == HalfReversed(s, lbN, visited)
    {
      var srcHi := srcChunk * 64;
      var dstLo := LowReverse(srcChunk, lbN);
      for srcLo := 0 to 64
        invariant visited == srcHi + srcLo && arr[..] == HalfReversed(s, lbN, visited)
      {
        var dstHi := HighReverse(srcChunk, srcLo, lbN);
        SwapIfBelow(arr, s, lbN, srcHi + srcLo, dstHi + dstLo);
        visited := visited + 1;
      }
    }
    HalfReversedEnd(s, lbN);
  }

  lemma ChunkCount(lbN: nat)
    requires lbN >= 6
    ensures Pow2(lbN) == Pow2(lbN - 6) * 64
  {
    Pow2Add(lbN - 6, 6);
    assert Pow2(6) == 64;
  }

  method ReverseIndexBitsInPlaceSmall<T>(arr: array<T>, lbN: nat)
    requires arr.Length == Pow2(lbN) && lbN <= USIZE_BITS
    modifies arr
    ensures arr[..] == BitReversed(old(arr[..]), lbN)
  {
    if lbN <= 6 {
      var w := 6;
      SixBits(w);
      Pow2Monotone(lbN, w);
      ReverseByTable(arr, lbN);
    } else {
      ReverseByChunks(arr, lbN);
    }
  }

  // ----- Reordering whole chunks -----

  /** row r of the grid is chunk r of the array; a chunk move takes chunk r from chunk BitRev(r) */
  ghost function ChunkSource(g: Grid, lbChunks: nat, k: nat): nat {
    g.Index(BitRev(lbChunks, g.Row(k)), g.Col(k))
  }

  /** the same while only the chunks below `n`, and their reverses, have moved */
  ghost function HalfSource(g: Grid, lbChunks: nat, n: nat, k: nat): nat {
    if g.Row(k) < n || BitRev(lbChunks, g.Row(k)) < n then ChunkSource(g, lbChunks, k) else k
  }

  ghost function HalfChunks<T>(s: seq<T>, g: Grid, lbChunks: nat, n: nat): (r: seq<T>)
    ensures |r| == |s|
  {
    Rearranged(s, (k: nat) => HalfSource(g, lbChunks, n, k))
  }

  /** the array with its 2^lbChunks chunks in bit-reversed order */
  ghost function ChunksReversed<T>(s: seq<T>, g: Grid, lbChunks: nat): (r: seq<T>)
    ensures |r| == |s|
  {
    Rearranged(s, (k: nat) => ChunkSource(g, lbChunks, k))
  }

  /** the `n` elements from index `p` on exchanged with the `n` elements from index `q` on */
  function RangesSwapped<T>(s: seq<T>, p: nat, q: nat, n: nat): (r: seq<T>)
    requires p + n <= q && q + n <= |s|
    ensures |r| == |s|
  {
    s[..p] + s[q..q + n] + s[p + n..q] + s[p..p + n] + s[q + n..]
  }

  lemma RangesSwappedStep<T>(s: seq<T>, p: nat, q: nat, n: nat)
    requires p + n < q && q + n < |s|
    ensures RangesSwapped(s, p, q, n + 1) == SwappedAt(RangesSwapped(s, p, q, n), p + n, q + n)
  {
    var r, r' := SwappedAt(RangesSwapped(s, p, q, n), p + n, q + n), RangesSwapped(s, p, q, n + 1);
    forall k: nat | k < |s|
      ensures r[k] == r'[k]
    {
    }
  }

  method SwapNonOverlapping<T>(arr: array<T>, p: nat, q: nat, n: nat)
    requires p + n <= q && q + n <= arr.Length
    modifies arr
    ensures arr[..] == RangesSwapped(old(arr[..]), p, q, n)
  {
    ghost var s := arr[..];
    assert RangesSwapped(s, p, q, 0) == s;
    for k := 0 to n
      invariant arr[..] == RangesSwapped(s, p, q, k)
    {
      RangesSwappedStep(s, p, q, k);
      Swap(arr, p + k, q + k);
    }
  }

  lemma HalfChunksStart<T>(s: seq<T>, g: Grid, lbChunks: nat)
    ensures HalfChunks(s, g, lbChunks, 0) == s
  {
    RearrangedId(s, (k: nat) => HalfSource(g, lbChunks, 0, k));
  }

  lemma HalfChunksEnd<T>(s: seq<T>, g: Grid, lbChunks: nat)
    requires |s| == Pow2(lbChunks) * Pow2(g.lbStride) && g.off == 0
    ensures HalfChunks(s, g, lbChunks, Pow2(lbChunks)) == ChunksReversed(s, g, lbChunks)
  {
    RearrangedSame(s,
      (k: nat) => HalfSource(g, lbChunks, Pow2(lbChunks), k),
      (k: nat) => ChunkSource(g, lbChunks, k));
  }

  /** every index is in a chunk, and the place its chunk moves to is inside the array */
  lemma ChunkOfIndex(g: Grid, lbChunks: nat, k: nat, length: nat)
    requires length == Pow2(lbChunks) * Pow2(g.lbStride) && k < length && g.off == 0
    ensures g.Row(k) < Pow2(lbChunks) && g.Col(k) < Pow2(g.lbStride) && g.Index(g.Row(k), g.Col(k)) == k
    ensures ChunkSource(g, lbChunks, k) < length
  {
    g.IndexOfCell(k);
    g.IndexValue(g.Row(k), 0);
    if g.Row(k) >= Pow2(lbChunks) {
      MulMonotone(Pow2(lbChunks), g.Row(k), Pow2(g.lbStride));
      IndexMonotone(g, g.Row(k), 0, g.Row(k), g.Col(k));
      assert false;
    }
    RowInside(g, BitRev(lbChunks, g.Row(k)), g.Col(k), Pow2(lbChunks));
  }

  lemma RowInside(g: Grid, i: nat, j: nat, rows: nat)
    requires i < rows && j < Pow2(g.lbStride) && g.off == 0
    ensures g.Index(i, j) < rows * Pow2(g.lbStride)
  {
    g.IndexValue(i, j);
    MulMonotone(i + 1, rows, Pow2(g.lbStride));
    assert (i + 1) * Pow2(g.lbStride) == i * Pow2(g.lbStride) + Pow2(g.lbStride);
  }

  /** the elements of chunk `i`, and the index of the element of chunk `j` at the same place */
  lemma InChunk(g: Grid, i: nat, k: nat, j: nat)
    requires g.off == 0
    ensures g.Row(k) == i <==> g.Index(i, 0) <= k < g.Index(i, 0) + Pow2(g.lbStride)
    ensures g.Row(k) == i ==> g.Index(j, 0) + (k - g.Index(i, 0)) == g.Index(j, g.Col(k))
  {
    g.IndexOfCell(k);
    g.IndexValue(g.Row(k), g.Col(k));
    g.IndexValue(i, 0);
    g.IndexValue(j, 0);
    g.IndexValue(j, g.Col(k));
    if g.Row(k) < i {
      MulMonotone(g.Row(k) + 1, i, Pow2(g.lbStride));
    } else if g.Row(k) > i {
      MulMonotone(i + 1, g.Row(k), Pow2(g.lbStride));
    }
  }

  lemma HalfChunksAt<T>(s: seq<T>, g: Grid, lbChunks: nat, n: nat, k: nat)
    requires |s| == Pow2(lbChunks) * Pow2(g.lbStride) && g.off == 0 && k < |s|
    ensures HalfSource(g, lbChunks, n, k) < |s|
    ensures HalfChunks(s, g, lbChunks, n)[k] == s[HalfSource(g, lbChunks, n, k)]
  {
    ChunkOfIndex(g, lbChunks, k, |s|);
    RearrangedAt(s, (k: nat) => HalfSource(g, lbChunks, n, k));
  }

  lemma ChunkPair(g: Grid, lbChunks: nat, i: nat, length: nat)
    requires length == Pow2(lbChunks) * Pow2(g.lbStride) && g.off == 0
    requires i < BitRev(lbChunks, i)
    ensures g.Index(i, 0) + Pow2(g.lbStride) <= g.Index(BitRev(lbChunks, i), 0)
    ensures g.Index(BitRev(lbChunks, i), 0) + Pow2(g.lbStride) <= length
  {
    var j, c := BitRev(lbChunks, i), Pow2(g.lbStride);
    IndexMonotone(g, i + 1, 0, j, 0);
    RowInside(g, j, c - 1, Pow2(lbChunks));
    g.IndexValue(j, 0);
    g.IndexValue(j, c - 1);
  }

  ghost function SwapIndex(p: nat, q: nat, n: nat, k: nat): nat {
    if p <= k < p + n then q + (k - p) else if q <= k < q + n then p + (k - q) else k
  }

  lemma RangesSwappedAt<T>(s: seq<T>, p: nat, q: nat, n: nat, k: nat)
    requires p + n <= q && q + n <= |s| && k < |s|
    ensures RangesSwapped(s, p, q, n)[k] == s[SwapIndex(p, q, n, k)]
  {
  }

  /** visiting chunk `i` exchanges it with its reverse when that is the larger one */
  lemma HalfChunksSwap<T>(s: seq<T>, g: Grid, lbChunks: nat, i: nat, p: nat, q: nat)
    requires |s| == Pow2(lbChunks) * Pow2(g.lbStride) && g.off == 0
    requires i < BitRev(lbChunks, i) && p == g.Index(i, 0) && q == g.Index(BitRev(lbChunks, i), 0)
    ensures p + Pow2(g.lbStride) <= q && q + Pow2(g.lbStride) <= |s|
    ensures HalfChunks(s, g, lbChunks, i + 1) == RangesSwapped(HalfChunks(s, g, lbChunks, i), p, q, Pow2(g.lbStride))
  {
    ChunkPair(g, lbChunks, i, |s|);
    var h, h' := HalfChunks(s, g, lbChunks, i), HalfChunks(s, g, lbChunks, i + 1);
    var r := RangesSwapped(h, p, q, Pow2(g.lbStride));
    forall k: nat | k < |s|
      ensures h'[k] == r[k]
    {
      RangesSwappedAt(h, p, q, Pow2(g.lbStride), k);
      HalfSourceStep(g, lbChunks, i, k, p, q, |s|);
      HalfChunksAt(s, g, lbChunks, i + 1, k);
      HalfChunksAt(s, g, lbChunks, i, SwapIndex(p, q, Pow2(g.lbStride), k));
    }
  }

  /** a chunk whose reverse is not larger has been exchanged before, or stays */
  lemma HalfChunksSkip<T>(s: seq<T>, g: Grid, lbChunks: nat, i: nat)
    requires |s| == Pow2(lbChunks) * Pow2(g.lbStride) && g.off == 0
    requires BitRev(lbChunks, i) <= i < Pow2(lbChunks)
    ensures HalfChunks(s, g, lbChunks, i + 1) == HalfChunks(s, g, lbChunks, i)
  {
    forall k: nat | k < |s|
      ensures HalfSource(g, lbChunks, i + 1, k) == HalfSource(g, lbChunks, i, k)
    {
      ChunkOfIndex(g, lbChunks, k, |s|);
      BitRevInvolution(lbChunks, i);
      BitRevInvolution(lbChunks, g.Row(k));
    }
    RearrangedSame(s, (k: nat) => HalfSource(g, lbChunks, i + 1, k), (k: nat) => HalfSource(g, lbChunks, i, k));
  }

  lemma HalfSourceStep(g: Grid, lbChunks: nat, i: nat, k: nat, p: nat, q: nat, length: nat)
    requires length == Pow2(lbChunks) * Pow2(g.lbStride) && g.off == 0 && k < length
    requires i < BitRev(lbChunks, i) && p == g.Index(i, 0) && q == g.Index(BitRev(lbChunks, i), 0)
    requires p + Pow2(g.lbStride) <= q && q + Pow2(g.lbStride) <= length
    ensures HalfSource(g, lbChunks, i + 1, k) == HalfSource(g, lbChunks, i, SwapIndex(p, q, Pow2(g.lbStride), k))
  {
    var j := BitRev(lbChunks, i);
    ChunkOfIndex(g, lbChunks, k, length);
    BitRevInvolution(lbChunks, i);
    BitRevInvolution(lbChunks, g.Row(k));
    InChunk(g, i, k, j);
    InChunk(g, j, k, i);
    if g.Row(k) == i {
      CellInChunk(g, lbChunks, j, g.Col(k), length);
    } else if g.Row(k) == j {
      CellInChunk(g, lbChunks, i, g.Col(k), length);
    }
  }

  lemma CellInChunk(g: Grid, lbChunks: nat, i: nat, c: nat, length: nat)
    requires length == Pow2(lbChunks) * Pow2(g.lbStride) && g.off == 0
    requires i < Pow2(lbChunks) && c < Pow2(g.lbStride)
    ensures g.Index(i, c) < length && g.Row(g.Index(i, c)) == i && g.Col(g.Index(i, c)) == c
    ensures ChunkSource(g, lbChunks, g.Index(i, c)) == g.Index(BitRev(lbChunks, i), c) < length
  {
    g.CellOfIndex(i, c);
    RowInside(g, i, c, Pow2(lbChunks));
    RowInside(g, BitRev(lbChunks, i), c, Pow2(lbChunks));
  }

  method ReverseIndexBitsInPlaceChunks<T>(arr: array<T>, g: Grid, lbNumChunks: nat)
    requires g.off == 0 && lbNumChunks <= USIZE_BITS
    requires arr.Length == Pow2(lbNumChunks) * Pow2(g.lbStride)
    modifies arr
    ensures arr[..] == ChunksReversed(old(arr[..]), g, lbNumChunks)
  {
    ghost var s := arr[..];
    HalfChunksStart(s, g, lbNumChunks);
    for i := 0 to Pow2(lbNumChunks)
      invariant arr[..] == HalfChunks(s, g, lbNumChunks, i)
    {
      WrappingReverse(lbNumChunks, i);
      var j := WrappingShr(BitRev(USIZE_BITS, i), USIZE_BITS - lbNumChunks);
      if i < j {
        var p := Flat(g, i, 0);
        var q := Flat(g, j, 0);
        HalfChunksSwap(s, g, lbNumChunks, i, p, q);
        SwapNonOverlapping(arr, p, q, Pow2(g.lbStride));
      } else {
        HalfChunksSkip(s, g, lbNumChunks, i);
      }
    }
    HalfChunksEnd(s, g, lbNumChunks);
  }

  // ----- The cache-friendly algorithm -----

  /** The array is a 2^nc by 2^odd by 2^nc tensor in row-major order, `odd` being 0 or 1.  Its slices
      with middle index 0 and 1 are the squares of these two grids. */
  ghost function Slice(nc: nat, odd: nat, mid: nat): Grid {
    Grid(mid * Pow2(nc), nc + odd, Pow2(nc))
  }

  ghost function SliceCells(nc: nat, odd: nat, mid: nat, length: nat): set<nat> {
    Cells(Slice(nc, odd, mid), Block(0, 0, Pow2(nc)), length)
  }

  /** the index of tensor element (hi, mid, lo) */
  ghost function TensorIndex(nc: nat, odd: nat, hi: nat, mid: nat, lo: nat): nat {
    Slice(nc, odd, 0).Index(hi, mid * Pow2(nc) + lo)
  }

  ghost predicate InTensor(nc: nat, odd: nat, hi: nat, mid: nat, lo: nat) {
    odd <= 1 && hi < Pow2(nc) && mid < Pow2(odd) && lo < Pow2(nc)
  }

  ghost function TensorSize(nc: nat, odd: nat): nat { Pow2(nc) * Pow2(nc + odd) }

  lemma TensorCell(nc: nat, odd: nat, hi: nat, mid: nat, lo: nat)
    requires InTensor(nc, odd, hi, mid, lo)
    ensures var g := Slice(nc, odd, 0);
            && mid * Pow2(nc) + lo < Pow2(nc + odd)
            && g.Row(TensorIndex(nc, odd, hi, mid, lo)) == hi
            && g.Col(TensorIndex(nc, odd, hi, mid, lo)) == mid * Pow2(nc) + lo
            && TensorIndex(nc, odd, hi, mid, lo) < TensorSize(nc, odd)
  {
    Pow2Add(odd, nc);
    assert mid <= 1 by { assert Pow2(0) == 1 && Pow2(1) == 2 * Pow2(0); }
    MulMonotone(mid + 1, Pow2(odd), Pow2(nc));
    Slice(nc, odd, 0).CellOfIndex(hi, mid * Pow2(nc) + lo);
    RowInside(Slice(nc, odd, 0), hi, mid * Pow2(nc) + lo, Pow2(nc));
  }

  /** every index is a tensor element */
  lemma Decompose(nc: nat, odd: nat, k: nat) returns (hi: nat, mid: nat, lo: nat)
    requires odd <= 1 && k < TensorSize(nc, odd)
    ensures InTensor(nc, odd, hi, mid, lo) && k == TensorIndex(nc, odd, hi, mid, lo)
  {
    var g := Slice(nc, odd, 0);
    ChunkOfIndex(g, nc, k, TensorSize(nc, odd));
    hi := g.Row(k);
    Pow2Add(nc, odd);
    assert Pow2(0) == 1 && Pow2(1) == 2 * Pow2(0);
    mid := if g.Col(k) < Pow2(nc) then 0 else 1;
    lo := g.Col(k) - mid * Pow2(nc);
  }

  /** the reverse of an index reverses and exchanges its outer parts */
  lemma TensorReverse(nc: nat, odd: nat, hi: nat, mid: nat, lo: nat)
    requires InTensor(nc, odd, hi, mid, lo)
    ensures BitRev(nc + odd + nc, TensorIndex(nc, odd, hi, mid, lo))
         == TensorIndex(nc, odd, BitRev(nc, lo), mid, BitRev(nc, hi))
  {
    var inner, x, y := mid * Pow2(nc) + lo, BitRev(nc, lo), BitRev(nc, hi);
    TensorCell(nc, odd, hi, mid, lo);
    MiddleReverse(nc, odd, mid, lo);
    TensorValue(nc, odd, hi, mid, lo);
    TensorValue(nc, odd, x, mid, y);
    Pow2Add(odd, nc);
    hide TensorIndex, InTensor, Slice, BitRev, Pow2;
    BitRevConcat(nc + odd, nc, hi, inner);
    ShiftOut(BitRev(nc + odd, inner), x, Pow2(odd), mid, Pow2(nc), Pow2(odd + nc));
    assert odd + nc == nc + odd;
  }

  lemma TensorValue(nc: nat, odd: nat, hi: nat, mid: nat, lo: nat)
    ensures TensorIndex(nc, odd, hi, mid, lo) == hi * Pow2(nc + odd) + (mid * Pow2(nc) + lo)
  {
    Slice(nc, odd, 0).IndexValue(hi, mid * Pow2(nc) + lo);
  }

  lemma MiddleReverse(nc: nat, odd: nat, mid: nat, lo: nat)
    requires odd <= 1 && mid < Pow2(odd) && lo < Pow2(nc)
    ensures BitRev(nc + odd, mid * Pow2(nc) + lo) == BitRev(nc, lo) * Pow2(odd) + mid
  {
    BitRevConcat(nc, odd, mid, lo);
    assert Pow2(0) == 1 && Pow2(1) == 2 * Pow2(0);
    if odd == 1 {
      BitRevOne(mid);
    }
  }

  lemma ShiftOut(r: nat, x: nat, p: nat, m: nat, q: nat, pq: nat)
    requires r == x * p + m && pq == p * q
    ensures r * q == x * pq + m * q
  {
    assert r * q == x * p * q + m * q;
    assert x * p * q == x * (p * q);
  }

  ghost function Transposed<T>(nc: nat, odd: nat, a: seq<T>): (r: seq<T>)
    ensures |r| == |a|
  {
    var a' := Exchange(Slice(nc, odd, 0), SliceCells(nc, odd, 0, |a|), a);
    if odd == 0 then a' else Exchange(Slice(nc, odd, 1), SliceCells(nc, odd, 1, |a|), a')
  }

  /** a tensor element with middle index 0 is in the first square, not in the second, and mirrored there */
  lemma InFirstSquare(nc: nat, odd: nat, hi: nat, lo: nat)
    requires InTensor(nc, odd, hi, 0, lo)
    ensures var (k, n) := (TensorIndex(nc, odd, hi, 0, lo), TensorSize(nc, odd));
            && k in SliceCells(nc, odd, 0, n)
            && Slice(nc, odd, 0).Mirror(k) == TensorIndex(nc, odd, lo, 0, hi)
            && (odd == 1 ==> k !in SliceCells(nc, odd, 1, n))
  {
    TensorCell(nc, odd, hi, 0, lo);
    if odd == 1 {
      var g, g1, h := Slice(nc, odd, 0), Slice(nc, odd, 1), Pow2(nc);
      g.IndexValue(hi, lo);
      if hi > 0 {
        PreviousRow(nc, hi, lo);
        assert Pow2(nc + 1) == 2 * h;
        g1.CellOfIndex(hi - 1, h + lo);
      }
    }
  }

  /** seen from the second square, the first element of a row lies at the end of the row before */
  lemma PreviousRow(nc: nat, hi: nat, lo: nat)
    requires hi > 0
    ensures TensorIndex(nc, 1, hi, 0, lo) == Slice(nc, 1, 1).Index(hi - 1, Pow2(nc) + lo)
  {
    Slice(nc, 1, 0).IndexValue(hi, lo);
    Slice(nc, 1, 1).IndexValue(hi - 1, Pow2(nc) + lo);
    assert Pow2(nc + 1) == 2 * Pow2(nc);
    assert (hi - 1) * Pow2(nc + 1) + Pow2(nc + 1) == hi * Pow2(nc + 1);
  }

  /** a tensor element with middle index 1 is in the second square, not in the first, and mirrored there */
  lemma InSecondSquare(nc: nat, hi: nat, lo: nat)
    requires InTensor(nc, 1, hi, 1, lo)
    ensures var (k, n) := (TensorIndex(nc, 1, hi, 1, lo), TensorSize(nc, 1));
            && k in SliceCells(nc, 1, 1, n)
            && Slice(nc, 1, 1).Mirror(k) == TensorIndex(nc, 1, lo, 1, hi)
            && k !in SliceCells(nc, 1, 0, n)
  {
    var g1 := Slice(nc, 1, 1);
    TensorCell(nc, 1, hi, 1, lo);
    SameElement(nc, hi, lo);
    SameElement(nc, lo, hi);
    assert Pow2(nc + 1) == 2 * Pow2(nc);
    g1.CellOfIndex(hi, lo);
  }

  lemma SameElement(nc: nat, hi: nat, lo: nat)
    ensures TensorIndex(nc, 1, hi, 1, lo) == Slice(nc, 1, 1).Index(hi, lo)
  {
    Slice(nc, 1, 0).IndexValue(hi, Pow2(nc) + lo);
    Slice(nc, 1, 1).IndexValue(hi, lo);
  }

  /** the one or two transposes exchange the outer indices of every tensor element */
  lemma TransposedAt<T>(nc: nat, odd: nat, hi: nat, mid: nat, lo: nat, a: seq<T>)
    requires InTensor(nc, odd, hi, mid, lo) && |a| == TensorSize(nc, odd)
    ensures TensorIndex(nc, odd, hi, mid, lo) < |a| && TensorIndex(nc, odd, lo, mid, hi) < |a|
    ensures Transposed(nc, odd, a)[TensorIndex(nc, odd, hi, mid, lo)] == a[TensorIndex(nc, odd, lo, mid, hi)]
  {
    var k := TensorIndex(nc, odd, hi, mid, lo);
    var a' := Exchange(Slice(nc, odd, 0), SliceCells(nc, odd, 0, |a|), a);
    assert mid == 1 ==> odd == 1 by { assert Pow2(0) == 1; }
    assert mid <= 1 by { assert Pow2(0) == 1 && Pow2(1) == 2 * Pow2(0); }
    hide TensorIndex, SliceCells, Slice, Pow2;
    TensorCell(nc, odd, hi, mid, lo);
    TensorCell(nc, odd, lo, mid, hi);
    ExchangeAt(Slice(nc, odd, 0), SliceCells(nc, odd, 0, |a|), a);
    ExchangeAt(Slice(nc, odd, 1), SliceCells(nc, odd, 1, |a|), a');
    if mid == 0 {
      InFirstSquare(nc, odd, hi, lo);
      assert a'[k] == a[TensorIndex(nc, odd, lo, mid, hi)];
    } else {
      InSecondSquare(nc, hi, lo);
      InSecondSquare(nc, lo, hi);
      assert Transposed(nc, odd, a)[k] == a'[TensorIndex(nc, odd, lo, mid, hi)];
    }
  }

  /** chunk moves, transposes and chunk moves again put every element at its reversed index */
  lemma ThreeSteps<T>(nc: nat, odd: nat, a: seq<T>)
    requires odd <= 1 && |a| == TensorSize(nc, odd) == Pow2(nc + odd + nc)
    ensures var g := Slice(nc, odd, 0);
            ChunksReversed(Transposed(nc, odd, ChunksReversed(a, g, nc)), g, nc) == BitReversed(a, nc + odd + nc)
  {
    var g := Slice(nc, odd, 0);
    var a1 := ChunksReversed(a, g, nc);
    var a2 := Transposed(nc, odd, a1);
    forall k: nat | k < |a|
      ensures ChunksReversed(a2, g, nc)[k] == BitReversed(a, nc + odd + nc)[k]
    {
      var hi, mid, lo := Decompose(nc, odd, k);
      ChunksReversedAt(a2, nc, odd, hi, mid, lo);
      TransposedAt(nc, odd, BitRev(nc, hi), mid, lo, a1);
      ChunksReversedAt(a, nc, odd, lo, mid, BitRev(nc, hi));
      TensorReverse(nc, odd, hi, mid, lo);
    }
  }

  lemma ChunksReversedAt<T>(a: seq<T>, nc: nat, odd: nat, hi: nat, mid: nat, lo: nat)
    requires InTensor(nc, odd, hi, mid, lo) && |a| == TensorSize(nc, odd)
    ensures TensorIndex(nc, odd, hi, mid, lo) < |a| && TensorIndex(nc, odd, BitRev(nc, hi), mid, lo) < |a|
    ensures ChunksReversed(a, Slice(nc, odd, 0), nc)[TensorIndex(nc, odd, hi, mid, lo)]
         == a[TensorIndex(nc, odd, BitRev(nc, hi), mid, lo)]
  {
    var g := Slice(nc, odd, 0);
    TensorCell(nc, odd, hi, mid, lo);
    TensorCell(nc, odd, BitRev(nc, hi), mid, lo);
    RearrangedAt(a, (k: nat) => ChunkSource(g, nc, k));
  }

  lemma SquareFits(nc: nat, odd: nat, mid: nat, length: nat)
    requires odd <= 1 && mid <= odd && length == TensorSize(nc, odd)
    ensures Fits(Slice(nc, odd, mid), Block(0, 0, Pow2(nc)), length)
  {
    var n := Pow2(nc);
    Pow2Monotone(nc, nc + odd);
    assert mid < Pow2(odd) by { assert Pow2(0) == 1 && Pow2(1) == 2 * Pow2(0); }
    hide Pow2;
    TensorCell(nc, odd, n - 1, mid, n - 1);
    if mid == 1 {
      SameElement(nc, n - 1, n - 1);
    } else {
      FirstElement(nc, odd, n - 1, n - 1);
    }
    hide TensorIndex, TensorSize;
    SquareInside(Slice(nc, odd, mid), n, length);
  }

  lemma FirstElement(nc: nat, odd: nat, hi: nat, lo: nat)
    ensures TensorIndex(nc, odd, hi, 0, lo) == Slice(nc, odd, 0).Index(hi, lo)
  {
    var mid := 0;
    assert mid * Pow2(nc) + lo == lo;
  }

  lemma SquareInside(g: Grid, n: nat, length: nat)
    requires g.side == n && 0 < n <= Pow2(g.lbStride) && g.Index(n - 1, n - 1) < length
    ensures Fits(g, Block(0, 0, n), length)
  {
    hide Pow2;
  }

  /** the halves that the lengths of the chunks and of an index split into */
  lemma Halves(lbN: nat, nc: nat, odd: nat)
    requires nc == lbN / 2 && odd == lbN % 2
    ensures lbN - nc == nc + odd && TensorSize(nc, odd) == Pow2(lbN) && nc + odd + nc == lbN
  {
    Pow2Add(nc, nc + odd);
  }

  method ReverseIndexBitsByTransposes<T>(arr: array<T>, lbN: nat)
    requires arr.Length == Pow2(lbN) && lbN <= USIZE_BITS
    modifies arr
    ensures arr[..] == BitReversed(old(arr[..]), lbN)
  {
    var lbNumChunks := lbN / 2;
    var lbChunkSize := lbN - lbNumChunks;
    ghost var odd := lbN % 2;
    ghost var a := arr[..];
    Halves(lbN, lbNumChunks, odd);
    var g := Grid(0, lbChunkSize, Pow2(lbNumChunks));
    assert g == Slice(lbNumChunks, odd, 0);
    ReverseIndexBitsInPlaceChunks(arr, g, lbNumChunks);
    SquareFits(lbNumChunks, odd, 0, |a|);
    TransposeInPlaceSquare(arr, g, lbNumChunks, 0);
    if lbNumChunks != lbChunkSize {
      SquareFits(lbNumChunks, odd, 1, |a|);
      TransposeInPlaceSquare(arr, Grid(Pow2(lbNumChunks), lbChunkSize, Pow2(lbNumChunks)), lbNumChunks, 0);
    }
    ReverseIndexBitsInPlaceChunks(arr, g, lbNumChunks);
    ThreeSteps(lbNumChunks, odd, a);
  }

  /** the number of trailing zero bits; the source panics unless `n` is a power of two */
  method Log2Strict(n: nat) returns (res: nat)
    requires IsPow2(n)
    ensures n == Pow2(res)
  {
    ghost var k :| n == Pow2(k);
    res := 0;
    var m := n;
    while m % 2 == 0
      invariant m == Pow2(k) && n == Pow2(res + k)
      decreases k
    {
      assert k > 0;
      res, m, k := res + 1, m / 2, k - 1;
    }
    assert k == 0;
  }

  /** `reverse_index_bits_in_place`; `elemSize` is the size of an element in bytes, which only
      selects the algorithm */
  method ReverseIndexBitsInPlace<T>(arr: array<T>, elemSize: nat)
    requires IsPow2(arr.Length) && arr.Length <= Pow2(USIZE_BITS)
    modifies arr
    ensures forall b :: arr.Length == Pow2(b) ==> arr[..] == BitReversed(old(arr[..]), b)
  {
    var lbN := Log2Strict(arr.Length);
    Pow2Injective(lbN);
    if lbN > USIZE_BITS {
      Pow2Strict(USIZE_BITS, lbN);
    }
    if elemSize * Pow2(lbN) <= SMALL_ARR_SIZE || elemSize >= BIG_T_SIZE {
      ReverseIndexBitsInPlaceSmall(arr, lbN);
    } else {
      BigEnough(elemSize, arr.Length);
      assert arr.Length >= 4;
      ReverseIndexBitsByTransposes(arr, lbN);
    }
  }

  /** the choice of BIG_T_SIZE and SMALL_ARR_SIZE leaves at least four elements to the transposes */
  lemma BigEnough(elemSize: nat, n: nat)
    requires elemSize * n > SMALL_ARR_SIZE && elemSize < BIG_T_SIZE
    ensures n >= 4
  {
    if n < 4 {
      MulMonotone(n, 3, elemSize);
    }
  }

  // ----- The loops that copy -----

  method ReverseIndexBitsSmall<T>(arr: seq<T>, nPower: nat) returns (result: seq<T>)
    requires |arr| == Pow2(nPower) <= 64 && nPower <= 6
    ensures result == BitReversed(arr, nPower)
  {
    result := [];
    for i := 0 to |arr|
      invariant result == BitReversed(arr, nPower)[..i]
    {
      var src := TableReverse(i, nPower);
      result := result + [arr[src]];
    }
  }

  method ReverseIndexBitsLarge<T>(arr: seq<T>, nPower: nat) returns (result: seq<T>)
    requires |arr| == Pow2(nPower) && 6 < nPower <= USIZE_BITS
    ensures result == BitReversed(arr, nPower)
  {
    result := [];
    ChunkCount(nPower);
    var chunks := Pow2(nPower - 6);
    for iChunk := 0 to chunks
      invariant |result| == iChunk * 64 && result == BitReversed(arr, nPower)[..|result|]
    {
      var srcLo := LowReverse(iChunk, nPower);
      for iLo := 0 to 64
        invariant |result| == iChunk * 64 + iLo && result == BitReversed(arr, nPower)[..|result|]
      {
        var srcHi := HighReverse(iChunk, iLo, nPower);
        var src := srcHi + srcLo;
        result := result + [arr[src]];
      }
    }
  }

  method ReverseIndexBits<T>(arr: seq<T>) returns (result: seq<T>)
    requires IsPow2(|arr|) && |arr| <= Pow2(USIZE_BITS)
    ensures forall b :: |arr| == Pow2(b) ==> result == BitReversed(arr, b)
  {
    var nPower := Log2Strict(|arr|);
    Pow2Injective(nPower);
    if nPower > USIZE_BITS {
      Pow2Strict(USIZE_BITS, nPower);
    }
    if nPower <= 6 {
      var w := 6;
      SixBits(w);
      Pow2Monotone(nPower, w);
      result := ReverseIndexBitsSmall(arr, nPower);
    } else {
      result := ReverseIndexBitsLarge(arr, nPower);
    }
  }
}
