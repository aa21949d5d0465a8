/** Cache-oblivious in-place transposes of square blocks inside a row-major array.

    A cell (row, column) of the grid that starts at index `off` with row length 2^lbStride is the
    index off + row * 2^lbStride + column.  Row and Col recover the cell of an index.
 */
module Transpose {
  import opened Arithmetic
  import opened Permutations

  const LB_BLOCK_SIZE: nat := 3

  /** `off` is where the slice given to a transpose starts in the array; rows and columns below
      `side` are inside the slice */
  datatype Grid = Grid(off: nat, lbStride: nat, side: nat)
  {
    /** off + i * 2^lbStride + j, row by row */
    ghost function Index(i: nat, j: nat): (k: nat)
      ensures k >= off
    {
      if i == 0 then off + j else Index(i - 1, j) + Pow2(lbStride)
    }

    ghost function Row(k: nat): nat {
      if k < off + Pow2(lbStride) then 0 else 1 + Row(k - Pow2(lbStride))
    }

    ghost function Col(k: nat): nat {
      if k < off then 0 else if k < off + Pow2(lbStride) then k - off else Col(k - Pow2(lbStride))
    }

    ghost function Mirror(k: nat): nat { Index(Col(k), Row(k)) }

    lemma {:induction false} IndexValue(i: nat, j: nat)
      ensures Index(i, j) == off + i * Pow2(lbStride) + j
    {
      if i > 0 {
        IndexValue(i - 1, j);
        assert (i - 1) * Pow2(lbStride) + Pow2(lbStride) == i * Pow2(lbStride);
      }
    }

    lemma {:induction false} CellOfIndex(i: nat, j: nat)
      requires j < Pow2(lbStride)
      ensures Row(Index(i, j)) == i && Col(Index(i, j)) == j
    {
      if i > 0 {
        CellOfIndex(i - 1, j);
      }
    }

    lemma {:induction false} IndexOfCell(k: nat)
      requires k >= off
      ensures Index(Row(k), Col(k)) == k && Col(k) < Pow2(lbStride)
    {
      if k >= off + Pow2(lbStride) {
        IndexOfCell(k - Pow2(lbStride));
      }
    }
  }

  // ----- What the transposes do -----

  /** a block of cells: rows [x, x + n) and columns [y, y + n) */
  datatype Block = Block(x: nat, y: nat, n: nat)
  {
    predicate Has(i: nat, j: nat) { x <= i < x + n && y <= j < y + n }
  }

  /** every cell of the block and its mirror lie inside an array of the given length */
  ghost predicate Fits(g: Grid, b: Block, length: nat) {
    && b.x + b.n <= g.side && b.y + b.n <= g.side
    && g.side <= Pow2(g.lbStride)
    && (g.side > 0 ==> g.Index(g.side - 1, g.side - 1) < length)
  }

  lemma {:induction false} IndexMonotone(g: Grid, i: nat, j: nat, i': nat, j': nat)
    requires i <= i' && j <= j'
    ensures g.Index(i, j) <= g.Index(i', j')
    decreases i'
  {
    if i < i' {
      IndexMonotone(g, i, j, i' - 1, j');
    } else if i > 0 {
      IndexMonotone(g, i - 1, j, i' - 1, j');
    }
  }

  /** the indices of the cells of the block and of their mirrors */
  ghost function Cells(g: Grid, b: Block, length: nat): set<nat> {
    set k: nat | k < length && k >= g.off && (b.Has(g.Row(k), g.Col(k)) || b.Has(g.Col(k), g.Row(k)))
  }

  /** where an exchange of the indices in `s` with their mirrors takes the element of index `k` from */
  ghost function Partner(g: Grid, s: set<nat>, length: nat, k: nat): (r: nat)
    ensures k < length ==> r < length
  {
    if k in s && g.Mirror(k) < length then g.Mirror(k) else k
  }

  ghost function ExchangePrefix<T>(g: Grid, s: set<nat>, a: seq<T>, n: nat): (r: seq<T>)
    requires n <= |a|
    ensures |r| == n
  {
    if n == 0 then [] else ExchangePrefix(g, s, a, n - 1) + [a[Partner(g, s, |a|, n - 1)]]
  }

  /** `a` with every index in `s` exchanged with its mirror and nothing else changed */
  ghost function Exchange<T>(g: Grid, s: set<nat>, a: seq<T>): (r: seq<T>)
    ensures |r| == |a|
  {
    ExchangePrefix(g, s, a, |a|)
  }

  lemma {:induction false} ExchangePrefixAt<T>(g: Grid, s: set<nat>, a: seq<T>, n: nat, k: nat)
    requires k < n <= |a|
    ensures ExchangePrefix(g, s, a, n)[k] == a[Partner(g, s, |a|, k)]
  {
    if k < n - 1 {
      ExchangePrefixAt(g, s, a, n - 1, k);
    }
  }

  lemma ExchangeAt<T>(g: Grid, s: set<nat>, a: seq<T>)
    ensures forall k {:trigger Exchange(g, s, a)[k]} :: 0 <= k < |a| ==>
              Exchange(g, s, a)[k] == a[Partner(g, s, |a|, k)]
  {
    forall k | 0 <= k < |a|
      ensures Exchange(g, s, a)[k] == a[Partner(g, s, |a|, k)]
    {
      ExchangePrefixAt(g, s, a, |a|, k);
    }
  }

  /** the mirror of an index in `s` is in `s`, inside the array, and mirrored back */
  ghost predicate MirrorClosed(g: Grid, s: set<nat>, length: nat) {
    forall k {:trigger k in s} :: k in s ==> k < length && g.Mirror(k) in s && g.Mirror(g.Mirror(k)) == k
  }

  lemma ExchangeBoth<T>(g: Grid, s1: set<nat>, s2: set<nat>, a: seq<T>)
    requires MirrorClosed(g, s1, |a|) && MirrorClosed(g, s2, |a|)
    requires s1 !! s2
    ensures Exchange(g, s2, Exchange(g, s1, a)) == Exchange(g, s1 + s2, a)
    ensures MirrorClosed(g, s1 + s2, |a|)
  {
    ExchangeAt(g, s1, a);
    ExchangeAt(g, s2, Exchange(g, s1, a));
    ExchangeAt(g, s1 + s2, a);
  }

  lemma ExchangeOne<T>(g: Grid, s: set<nat>, a: seq<T>, p: nat, q: nat)
    requires p < |a| && q < |a| && g.Mirror(p) == q && g.Mirror(q) == p
    requires MirrorClosed(g, s, |a|) && p !in s && q !in s
    ensures SwappedAt(Exchange(g, s, a), p, q) == Exchange(g, s + {p, q}, a)
  {
    var e, e' := Exchange(g, s, a), Exchange(g, s + {p, q}, a);
    ExchangeAt(g, s, a);
    ExchangeAt(g, s + {p, q}, a);
    forall k: nat | k < |a|
      ensures SwappedAt(e, p, q)[k] == e'[k]
    {
      assert e[p] == a[p] && e[q] == a[q];
    }
  }

  // ----- The order in which the small loops visit a block -----

  /** the cells (r, c) of the block that a row-by-row visit reaches before (i, j);
      `lower` restricts the visit to the cells below the diagonal */
  ghost predicate Before(b: Block, lower: bool, i: nat, j: nat, r: nat, c: nat) {
    b.Has(r, c) && (lower ==> c < r) && (r < i || (r == i && c < j))
  }

  ghost function Visited(g: Grid, b: Block, length: nat, lower: bool, i: nat, j: nat): set<nat> {
    set k: nat | k < length && k >= g.off &&
      (Before(b, lower, i, j, g.Row(k), g.Col(k)) || Before(b, lower, i, j, g.Col(k), g.Row(k)))
  }

  lemma VisitedIsClosed(g: Grid, b: Block, length: nat, lower: bool, i: nat, j: nat)
    requires Fits(g, b, length)
    ensures MirrorClosed(g, Visited(g, b, length, lower, i, j), length)
  {
    forall k | k in Visited(g, b, length, lower, i, j)
      ensures g.Mirror(k) in Visited(g, b, length, lower, i, j) && g.Mirror(g.Mirror(k)) == k
    {
      MirrorOfCell(g, b, k);
      IndexMonotone(g, g.Col(k), g.Row(k), g.side - 1, g.side - 1);
    }
  }

  lemma CellsIsClosed(g: Grid, b: Block, length: nat)
    requires Fits(g, b, length)
    ensures MirrorClosed(g, Cells(g, b, length), length)
  {
    forall k | k in Cells(g, b, length)
      ensures g.Mirror(k) in Cells(g, b, length) && g.Mirror(g.Mirror(k)) == k
    {
      MirrorOfCell(g, b, k);
      IndexMonotone(g, g.Col(k), g.Row(k), g.side - 1, g.side - 1);
    }
  }

  lemma MirrorOfCell(g: Grid, b: Block, k: nat)
    requires b.x + b.n <= Pow2(g.lbStride) && b.y + b.n <= Pow2(g.lbStride) && k >= g.off
    requires b.Has(g.Row(k), g.Col(k)) || b.Has(g.Col(k), g.Row(k))
    ensures g.Row(g.Mirror(k)) == g.Col(k) && g.Col(g.Mirror(k)) == g.Row(k) && g.Mirror(g.Mirror(k)) == k
  {
    g.CellOfIndex(g.Col(k), g.Row(k));
    g.IndexOfCell(k);
  }

  lemma CellPair(g: Grid, b: Block, length: nat, i: nat, j: nat)
    requires Fits(g, b, length) && b.Has(i, j)
    ensures g.Index(i, j) < length && g.Row(g.Index(i, j)) == i && g.Col(g.Index(i, j)) == j
    ensures g.Index(j, i) < length && g.Row(g.Index(j, i)) == j && g.Col(g.Index(j, i)) == i
  {
    g.CellOfIndex(i, j);
    g.CellOfIndex(j, i);
    IndexMonotone(g, i, j, g.side - 1, g.side - 1);
    IndexMonotone(g, j, i, g.side - 1, g.side - 1);
  }

  lemma VisitNext(g: Grid, b: Block, length: nat, lower: bool, i: nat, j: nat, p: nat, q: nat)
    requires Fits(g, b, length) && b.Has(i, j)
    requires if lower then j < i else b.x + b.n <= b.y
    requires p == g.Index(j, i) && q == g.Index(i, j)
    ensures p !in Visited(g, b, length, lower, i, j) && q !in Visited(g, b, length, lower, i, j)
    ensures Visited(g, b, length, lower, i, j + 1) == Visited(g, b, length, lower, i, j) + {p, q}
  {
    CellPair(g, b, length, i, j);
    var v, v' := Visited(g, b, length, lower, i, j), Visited(g, b, length, lower, i, j + 1);
    forall k: nat
      ensures k in v' <==> k in v + {p, q}
    {
      if k >= g.off && k != p && k != q {
        g.IndexOfCell(k);
        assert !(g.Row(k) == i && g.Col(k) == j) && !(g.Row(k) == j && g.Col(k) == i);
      }
    }
  }

  /** The visit of cell (i, j): swapping the two array elements extends the exchange by it. */
  lemma ExchangeCell<T>(g: Grid, b: Block, lower: bool, i: nat, j: nat, a: seq<T>)
    requires Fits(g, b, |a|) && b.Has(i, j)
    requires if lower then j < i else b.x + b.n <= b.y
    ensures g.Index(j, i) < |a| && g.Index(i, j) < |a|
    ensures SwappedAt(Exchange(g, Visited(g, b, |a|, lower, i, j), a), g.Index(j, i), g.Index(i, j))
         == Exchange(g, Visited(g, b, |a|, lower, i, j + 1), a)
  {
    CellPair(g, b, |a|, i, j);
    VisitNext(g, b, |a|, lower, i, j, g.Index(j, i), g.Index(i, j));
    VisitedIsClosed(g, b, |a|, lower, i, j);
    ExchangeOne(g, Visited(g, b, |a|, lower, i, j), a, g.Index(j, i), g.Index(i, j));
  }

  lemma NextRow<T>(g: Grid, b: Block, lower: bool, i: nat, j: nat, a: seq<T>)
    requires if lower then b.x <= i < b.x + b.n && b.y <= b.x && j == i else j == b.y + b.n
    ensures Exchange(g, Visited(g, b, |a|, lower, i, j), a) == Exchange(g, Visited(g, b, |a|, lower, i + 1, b.y), a)
  {
    assert Visited(g, b, |a|, lower, i, j) == Visited(g, b, |a|, lower, i + 1, b.y);
  }

  lemma VisitStart<T>(g: Grid, b: Block, lower: bool, a: seq<T>)
    ensures Exchange(g, Visited(g, b, |a|, lower, b.x, b.y), a) == a
  {
    assert Visited(g, b, |a|, lower, b.x, b.y) == {};
    ExchangeAt(g, {}, a);
  }

  /** After the last row every cell of the block has been visited; on the diagonal, which the lower
      visit skips, a cell is its own mirror. */
  lemma VisitEnd<T>(g: Grid, b: Block, lower: bool, a: seq<T>)
    requires lower ==> b.x == b.y
    ensures Exchange(g, Visited(g, b, |a|, lower, b.x + b.n, b.y), a) == Exchange(g, Cells(g, b, |a|), a)
  {
    var v, c := Visited(g, b, |a|, lower, b.x + b.n, b.y), Cells(g, b, |a|);
    ExchangeAt(g, v, a);
    ExchangeAt(g, c, a);
    forall k: nat | k < |a|
      ensures Exchange(g, v, a)[k] == Exchange(g, c, a)[k]
    {
      if k in c && k !in v {
        assert g.Row(k) == g.Col(k);
        g.IndexOfCell(k);
      }
    }
  }

  /** the array index of a cell, as the loops compute it */
  method Flat(g: Grid, i: nat, j: nat) returns (k: nat)
    ensures k == g.Index(i, j)
  {
    g.IndexValue(i, j);
    k := g.off + i * Pow2(g.lbStride) + j;
  }

  method TransposeSwapSquareSmall<T>(arr: array<T>, g: Grid, lbSize: nat, x: nat, y: nat)
    requires Fits(g, Block(x, y, Pow2(lbSize)), arr.Length) && x + Pow2(lbSize) <= y
    modifies arr
    ensures arr[..] == Exchange(g, Cells(g, Block(x, y, Pow2(lbSize)), arr.Length), old(arr[..]))
  {
    hide Exchange, Cells, Visited, Pow2;
    ghost var b, a0 := Block(x, y, Pow2(lbSize)), arr[..];
    VisitStart(g, b, false, a0);
    for i := x to x + Pow2(lbSize)
      invariant arr[..] == Exchange(g, Visited(g, b, |a0|, false, i, y), a0)
    {
      for j := y to y + Pow2(lbSize)
        invariant arr[..] == Exchange(g, Visited(g, b, |a0|, false, i, j), a0)
      {
        ExchangeCell(g, b, false, i, j, a0);
        var p := Flat(g, j, i);
        var q := Flat(g, i, j);
        Swap(arr, p, q);
      }
      NextRow(g, b, false, i, y + Pow2(lbSize), a0);
    }
    VisitEnd(g, b, false, a0);
  }

  method TransposeInPlaceSquareSmall<T>(arr: array<T>, g: Grid, lbSize: nat, x: nat)
    requires Fits(g, Block(x, x, Pow2(lbSize)), arr.Length)
    modifies arr
    ensures arr[..] == Exchange(g, Cells(g, Block(x, x, Pow2(lbSize)), arr.Length), old(arr[..]))
  {
    hide Exchange, Cells, Visited, Pow2;
    ghost var b, a0 := Block(x, x, Pow2(lbSize)), arr[..];
    VisitStart(g, b, true, a0);
    NextRow(g, b, true, x, x, a0);
    for i := x + 1 to x + Pow2(lbSize)
      invariant arr[..] == Exchange(g, Visited(g, b, |a0|, true, i, x), a0)
    {
      for j := x to i
        invariant arr[..] == Exchange(g, Visited(g, b, |a0|, true, i, j), a0)
      {
        ExchangeCell(g, b, true, i, j, a0);
        var p := Flat(g, j, i);
        var q := Flat(g, i, j);
        Swap(arr, p, q);
      }
      NextRow(g, b, true, i, i, a0);
    }
    VisitEnd(g, b, true, a0);
  }

  // ----- The recursive transposes -----

  /** a block off the diagonal is its four quadrants, which share no cell */
  lemma Quadrants(g: Grid, x: nat, y: nat, h: nat, length: nat)
    requires x + 2 * h <= y
    ensures var (q1, q2, q3, q4) :=
              (Cells(g, Block(x, y, h), length), Cells(g, Block(x + h, y, h), length),
               Cells(g, Block(x, y + h, h), length), Cells(g, Block(x + h, y + h, h), length));
            && q1 !! q2 && q1 + q2 !! q3 && q1 + q2 + q3 !! q4
            && q1 + q2 + q3 + q4 == Cells(g, Block(x, y, 2 * h), length)
  {
  }

  /** a block on the diagonal is two smaller ones and the block between them */
  lemma DiagonalParts(g: Grid, x: nat, h: nat, length: nat)
    ensures var (q1, q2, q3) :=
              (Cells(g, Block(x, x, h), length), Cells(g, Block(x, x + h, h), length),
                Cells(g, Block(x + h, x + h, h), length));
            && q1 !! q2 && q1 + q2 !! q3
            && q1 + q2 + q3 == Cells(g, Block(x, x, 2 * h), length)
  {
  }

  lemma ExchangeQuadrants<T>(g: Grid, x: nat, y: nat, h: nat, a: seq<T>)
    requires Fits(g, Block(x, y, 2 * h), |a|) && x + 2 * h <= y
    ensures var (q1, q2, q3, q4) :=
              (Cells(g, Block(x, y, h), |a|), Cells(g, Block(x + h, y, h), |a|),
               Cells(g, Block(x, y + h, h), |a|), Cells(g, Block(x + h, y + h, h), |a|));
            Exchange(g, q4, Exchange(g, q3, Exchange(g, q2, Exchange(g, q1, a))))
            == Exchange(g, Cells(g, Block(x, y, 2 * h), |a|), a)
  {
    var q1, q2 := Cells(g, Block(x, y, h), |a|), Cells(g, Block(x + h, y, h), |a|);
    var q3, q4 := Cells(g, Block(x, y + h, h), |a|), Cells(g, Block(x + h, y + h, h), |a|);
    CellsIsClosed(g, Block(x, y, h), |a|);
    CellsIsClosed(g, Block(x + h, y, h), |a|);
    CellsIsClosed(g, Block(x, y + h, h), |a|);
    CellsIsClosed(g, Block(x + h, y + h, h), |a|);
    Quadrants(g, x, y, h, |a|);
    ExchangeBoth(g, q1, q2, a);
    ExchangeBoth(g, q1 + q2, q3, a);
    ExchangeBoth(g, q1 + q2 + q3, q4, a);
  }

  lemma ExchangeDiagonal<T>(g: Grid, x: nat, h: nat, a: seq<T>)
    requires Fits(g, Block(x, x, 2 * h), |a|)
    ensures var (q1, q2, q3) :=
              (Cells(g, Block(x, x, h), |a|), Cells(g, Block(x, x + h, h), |a|), Cells(g, Block(x + h, x + h, h), |a|));
            Exchange(g, q3, Exchange(g, q2, Exchange(g, q1, a))) == Exchange(g, Cells(g, Block(x, x, 2 * h), |a|), a)
  {
    var q1, q2 := Cells(g, Block(x, x, h), |a|), Cells(g, Block(x, x + h, h), |a|);
    var q3 := Cells(g, Block(x + h, x + h, h), |a|);
    CellsIsClosed(g, Block(x, x, h), |a|);
    CellsIsClosed(g, Block(x, x + h, h), |a|);
    CellsIsClosed(g, Block(x + h, x + h, h), |a|);
    DiagonalParts(g, x, h, |a|);
    ExchangeBoth(g, q1, q2, a);
    ExchangeBoth(g, q1 + q2, q3, a);
  }

  lemma QuadrantsFit(g: Grid, x: nat, y: nat, h: nat, length: nat)
    requires Fits(g, Block(x, y, 2 * h), length)
    ensures Fits(g, Block(x, y, h), length) && Fits(g, Block(x + h, y, h), length)
    ensures Fits(g, Block(x, y + h, h), length) && Fits(g, Block(x + h, y + h, h), length)
  {
  }

  method TransposeSwapSquare<T>(arr: array<T>, g: Grid, lbSize: nat, x: nat, y: nat)
    requires Fits(g, Block(x, y, Pow2(lbSize)), arr.Length) && x + Pow2(lbSize) <= y
    modifies arr
    ensures arr[..] == Exchange(g, Cells(g, Block(x, y, Pow2(lbSize)), arr.Length), old(arr[..]))
    decreases lbSize
  {
    if lbSize <= LB_BLOCK_SIZE {
      TransposeSwapSquareSmall(arr, g, lbSize, x, y);
    } else {
      var lbBlockSize := lbSize - 1;
      var blockSize := Pow2(lbBlockSize);
      assert Pow2(lbSize) == 2 * blockSize;
      hide Pow2, Fits, Cells, Exchange;
      ExchangeQuadrants(g, x, y, blockSize, arr[..]);
      QuadrantsFit(g, x, y, blockSize, arr.Length);
      TransposeSwapSquare(arr, g, lbBlockSize, x, y);
      ghost var a1 := arr[..];
      assert a1 == Exchange(g, Cells(g, Block(x, y, blockSize), arr.Length), old(arr[..]));
      TransposeSwapSquare(arr, g, lbBlockSize, x + blockSize, y);
      ghost var a2 := arr[..];
      assert a2 == Exchange(g, Cells(g, Block(x + blockSize, y, blockSize), arr.Length), a1);
      TransposeSwapSquare(arr, g, lbBlockSize, x, y + blockSize);
      ghost var a3 := arr[..];
      assert a3 == Exchange(g, Cells(g, Block(x, y + blockSize, blockSize), arr.Length), a2);
      TransposeSwapSquare(arr, g, lbBlockSize, x + blockSize, y + blockSize);
      assert arr[..] == Exchange(g, Cells(g, Block(x + blockSize, y + blockSize, blockSize), arr.Length), a3);
    }
  }

  method TransposeInPlaceSquare<T>(arr: array<T>, g: Grid, lbSize: nat, x: nat)
    requires Fits(g, Block(x, x, Pow2(lbSize)), arr.Length)
    modifies arr
    ensures arr[..] == Exchange(g, Cells(g, Block(x, x, Pow2(lbSize)), arr.Length), old(arr[..]))
    decreases lbSize
  {
    if lbSize <= LB_BLOCK_SIZE {
      TransposeInPlaceSquareSmall(arr, g, lbSize, x);
    } else {
      var lbBlockSize := lbSize - 1;
      var blockSize := Pow2(lbBlockSize);
      ExchangeDiagonal(g, x, blockSize, arr[..]);
      TransposeInPlaceSquare(arr, g, lbBlockSize, x);
      TransposeSwapSquare(arr, g, lbBlockSize, x, x + blockSize);
      TransposeInPlaceSquare(arr, g, lbBlockSize, x + blockSize);
    }
  }
}
