/** Proofs of matrix rows: which leaves a row needs, reading bytes back out of a proof, and the plain
    proof that a miner submits for a hit. */
module MatrixProofs {
  import opened Arithmetic
  import opened Wrappers
  import opened Blake3
  import opened OrderedSets
  import opened MerkleTrees
  import opened MerkleProofs

  // ----- The leaves that rows need -----

  /** one of the bytes start <= x < end is in leaf i */
  ghost predicate Touches(start: nat, end: nat, i: nat) {
    exists x: nat {:trigger x / CHUNK_LEN} :: start <= x < end && x / CHUNK_LEN == i
  }

  /** leaf i holds a byte of one of the first n rows of the list */
  ghost predicate NeededBy(rows: seq<nat>, cols: nat, n: nat, i: nat) {
    exists k: nat {:trigger rows[k]} :: k < n && k < |rows| && Touches(rows[k] * cols, (rows[k] + 1) * cols, i)
  }

  lemma TouchesRange(start: nat, end: nat, i: nat)
    requires start < end
    ensures Touches(start, end, i) <==> start / CHUNK_LEN <= i <= (end - 1) / CHUNK_LEN
  {
    if start / CHUNK_LEN <= i <= (end - 1) / CHUNK_LEN {
      var x := if start / CHUNK_LEN == i then start else Offset(i);
      assert start <= x < end && x / CHUNK_LEN == i;
    }
  }

  lemma RowBytes(row: nat, cols: nat)
    requires cols > 0
    ensures 0 <= row * cols < (row + 1) * cols == row * cols + cols
  {
  }

  /** the leaves of one row, added to the set */
  method AddRow(indices: seq<nat>, row: nat, cols: nat) returns (indices': seq<nat>)
    requires cols > 0 && Increasing(indices)
    ensures Increasing(indices')
    ensures forall i: nat :: i in indices' <==> i in indices || Touches(row * cols, (row + 1) * cols, i)
  {
    RowBytes(row, cols);
    var first := (row * cols) / CHUNK_LEN;
    var last := ((row + 1) * cols - 1) / CHUNK_LEN;
    indices' := indices;
    for i := first to last + 1
      invariant Increasing(indices')
      invariant forall j: nat :: j in indices' <==> j in indices || first <= j < i
    {
      InsertedIsOrdered(indices', i);
      indices' := Inserted(indices', i);
    }
    forall i: nat
      ensures i in indices' <==> i in indices || Touches(row * cols, (row + 1) * cols, i)
    {
      TouchesRange(row * cols, (row + 1) * cols, i);
    }
  }

  /** The source panics on a row of no columns. */
  method ComputeLeafIndicesFromRows(rowIndices: seq<nat>, cols: nat) returns (indices: seq<nat>)
    requires cols > 0
    ensures Increasing(indices)
    ensures forall i: nat :: i in indices <==> NeededBy(rowIndices, cols, |rowIndices|, i)
  {
    indices := [];
    for k := 0 to |rowIndices|
      invariant Increasing(indices)
      invariant forall i: nat :: i in indices <==> NeededBy(rowIndices, cols, k, i)
    {
      ghost var before := indices;
      indices := AddRow(indices, rowIndices[k], cols);
      forall i: nat
        ensures i in indices <==> NeededBy(rowIndices, cols, k + 1, i)
      {
        assert NeededBy(rowIndices, cols, k + 1, i)
          <==> NeededBy(rowIndices, cols, k, i) || Touches(rowIndices[k] * cols, (rowIndices[k] + 1) * cols, i);
      }
    }
  }

  // ----- extract_bytes -----

  ghost predicate LeafCovers(p: MerkleProof, k: nat, x: nat)
    requires k < |p.leafIndices|
  {
    Offset(p.leafIndices[k]) <= x < Offset(p.leafIndices[k]) + CHUNK_LEN
  }

  /** byte x is in one of the first n leaves of the proof */
  ghost predicate InLeaves(p: MerkleProof, n: nat, x: nat) {
    exists k: nat {:trigger p.leafIndices[k]} :: k < n && k < |p.leafIndices| && LeafCovers(p, k, x)
  }

  /** byte x of the tree's data, as the proof has it */
  ghost function ByteOf(p: MerkleProof, x: nat): byte {
    var k := IndexOf(p.leafIndices, x / CHUNK_LEN);
    if k < |p.leafData| then p.leafData[k][x % CHUNK_LEN] else 0
  }

  ghost predicate AllCovered(p: MerkleProof, start: nat, length: nat) {
    forall x: nat {:trigger x / CHUNK_LEN} :: start <= x < start + length ==> x / CHUNK_LEN in p.leafIndices
  }

  ghost function BytesOf(p: MerkleProof, start: nat, length: nat): (r: seq<byte>)
    ensures |r| == length && forall i :: 0 <= i < length ==> r[i] == ByteOf(p, start + i)
  {
    if length == 0 then [] else BytesOf(p, start, length - 1) + [ByteOf(p, start + (length - 1))]
  }

  /** the bytes from `start` on, if all of them are in leaves of the proof */
  ghost function Extracted(p: MerkleProof, start: nat, length: nat): Option<seq<byte>> {
    if AllCovered(p, start, length) then Some(BytesOf(p, start, length)) else None
  }

  ghost function Interval(a: nat, b: nat): (r: set<nat>)
    ensures forall x: nat :: x in r <==> a <= x < b
    decreases b
  {
    if b <= a then {} else Interval(a, b - 1) + {b - 1}
  }

  lemma {:induction false} IntervalSize(a: nat, b: nat)
    ensures |Interval(a, b)| == if a <= b then b - a else 0
    decreases b
  {
    if a < b {
      IntervalSize(a, b - 1);
    }
  }

  /** the bytes of the range that leaf k holds */
  ghost function Overlap(p: MerkleProof, start: nat, end: nat, k: nat): set<nat>
    requires k < |p.leafIndices|
  {
    set x: nat | start <= x < end && LeafCovers(p, k, x)
  }

  ghost function CoveredBy(p: MerkleProof, start: nat, end: nat, n: nat): set<nat>
    requires n <= |p.leafIndices|
  {
    if n == 0 then {} else CoveredBy(p, start, end, n - 1) + Overlap(p, start, end, n - 1)
  }

  lemma {:induction false} CoveredByLeaf(p: MerkleProof, start: nat, end: nat, n: nat, x: nat)
    requires n <= |p.leafIndices|
    ensures x in CoveredBy(p, start, end, n) <==> start <= x < end && InLeaves(p, n, x)
  {
    if n > 0 {
      CoveredByLeaf(p, start, end, n - 1, x);
      if k: nat :| k < n && LeafCovers(p, k, x) {
        assert k == n - 1 || p.leafIndices[k] == p.leafIndices[k];
      }
      if start <= x < end && LeafCovers(p, n - 1, x) {
        assert p.leafIndices[n - 1] == p.leafIndices[n - 1];
      }
    }
  }

  /** the number of bytes copied from the leaves below n */
  ghost function Count(p: MerkleProof, start: nat, end: nat, n: nat): nat
    requires n <= |p.leafIndices|
  {
    if n == 0 then 0 else Count(p, start, end, n - 1) + |Overlap(p, start, end, n - 1)|
  }

  /** the leaves are disjoint, so no byte is counted twice */
  lemma {:induction false} CountIsSize(p: MerkleProof, start: nat, end: nat, n: nat)
    requires Increasing(p.leafIndices) && n <= |p.leafIndices|
    ensures Count(p, start, end, n) == |CoveredBy(p, start, end, n)|
  {
    if n > 0 {
      CountIsSize(p, start, end, n - 1);
      var c, o := CoveredBy(p, start, end, n - 1), Overlap(p, start, end, n - 1);
      forall x: nat | x in c
        ensures x !in o
      {
        CoveredByLeaf(p, start, end, n - 1, x);
        var k: nat :| k < n - 1 && LeafCovers(p, k, x);
        assert p.leafIndices[k] < p.leafIndices[n - 1];
      }
      assert c !! o;
    }
  }

  lemma OverlapSize(p: MerkleProof, start: nat, end: nat, k: nat)
    requires k < |p.leafIndices| && start <= end
    ensures var (s, e) := (Offset(p.leafIndices[k]), Offset(p.leafIndices[k]) + CHUNK_LEN);
            && (s < end && start < e ==>
               |Overlap(p, start, end, k)| == (if end < e then end else e) - (if start < s then s else start))
            && (!(s < end && start < e) ==> Overlap(p, start, end, k) == {})
  {
    var s, e := Offset(p.leafIndices[k]), Offset(p.leafIndices[k]) + CHUNK_LEN;
    if s < end && start < e {
      var a, b := (if start < s then s else start), (if end < e then end else e);
      IntervalSize(a, b);
      assert Overlap(p, start, end, k) == Interval(a, b);
    }
  }

  lemma CountIsFull(p: MerkleProof, start: nat, length: nat)
    requires Sane(p)
    ensures Count(p, start, start + length, |p.leafIndices|) == length <==> AllCovered(p, start, length)
  {
    hide CoveredBy, Count, AllCovered, Interval;
    var end, n := start + length, |p.leafIndices|;
    var c, all := CoveredBy(p, start, end, n), Interval(start, end);
    IntervalSize(start, end);
    CountIsSize(p, start, end, n);
    CoveredMembers(p, start, end);
    hide Sane;
    CoveredIffAll(p, start, length, c, all);
    if |c| == length {
      SubsetOfSameSize(c, all);
    }
  }

  lemma CoveredIffAll(p: MerkleProof, start: nat, length: nat, c: set<nat>, all: set<nat>)
    requires forall x: nat {:trigger x in c} ::
               x in c <==> start <= x < start + length && x / CHUNK_LEN in p.leafIndices
    requires forall x: nat {:trigger x in all} :: x in all <==> start <= x < start + length
    ensures c <= all && (AllCovered(p, start, length) <==> c == all)
  {
    if AllCovered(p, start, length) {
      assert c == all;
    }
    if c == all {
      forall x: nat | start <= x < start + length
        ensures x / CHUNK_LEN in p.leafIndices
      {
        assert x in all;
        assert x in c;
      }
    }
  }

  /** the bytes of a range that the leaves cover */
  lemma CoveredMembers(p: MerkleProof, start: nat, end: nat)
    requires Sane(p)
    ensures forall x: nat {:trigger x in CoveredBy(p, start, end, |p.leafIndices|)} ::
              x in CoveredBy(p, start, end, |p.leafIndices|) <==> start <= x < end && x / CHUNK_LEN in p.leafIndices
  {
    forall x: nat
      ensures x in CoveredBy(p, start, end, |p.leafIndices|) <==> start <= x < end && x / CHUNK_LEN in p.leafIndices
    {
      CoveredByLeaf(p, start, end, |p.leafIndices|, x);
      InLeaf(p, x);
    }
  }

  lemma InLeaf(p: MerkleProof, x: nat)
    ensures x / CHUNK_LEN in p.leafIndices <==> InLeaves(p, |p.leafIndices|, x)
  {
    if x / CHUNK_LEN in p.leafIndices {
      var k: nat :| k < |p.leafIndices| && p.leafIndices[k] == x / CHUNK_LEN;
      assert Offset(p.leafIndices[k]) == 1024 * (x / 1024);
      assert LeafCovers(p, k, x);
    }
    if k: nat :| k < |p.leafIndices| && LeafCovers(p, k, x) {
      assert p.leafIndices[k] in p.leafIndices && x / 1024 == p.leafIndices[k];
    }
  }

  lemma SubsetOfSameSize(a: set<nat>, b: set<nat>)
    requires a <= b && |a| == |b|
    ensures a == b
  {
    assert b == a + (b - a);
    assert |b| == |a| + |b - a|;
  }

  /** the buffer after the leaves below n */
  ghost predicate Copied(p: MerkleProof, start: nat, result: seq<byte>, n: nat) {
    && n <= |p.leafIndices| == |p.leafData|
    && forall k: nat, x: nat {:trigger LeafCovers(p, k, x)} ::
       k < n && start <= x < start + |result| && LeafCovers(p, k, x) ==>
         result[x - start] == p.leafData[k][x - Offset(p.leafIndices[k])]
  }

  lemma CopiedAll(p: MerkleProof, start: nat, result: seq<byte>)
    requires Sane(p) && Copied(p, start, result, |p.leafIndices|) && AllCovered(p, start, |result|)
    ensures Some(result) == Extracted(p, start, |result|)
  {
    forall i: nat | i < |result|
      ensures result[i] == ByteOf(p, start + i)
    {
      var x := start + i;
      assert x / CHUNK_LEN in p.leafIndices;
      IndexOfMember(p.leafIndices, x / CHUNK_LEN);
      assert Offset(x / CHUNK_LEN) == 1024 * (x / 1024);
      assert LeafCovers(p, IndexOf(p.leafIndices, x / CHUNK_LEN), x);
    }
    assert Extracted(p, start, |result|).value == result;
  }

  lemma {:induction false} IndexOfMember(s: seq<nat>, x: nat)
    requires x in s
    ensures IndexOf(s, x) < |s|
  {
    if s[0] != x {
      IndexOfMember(s[1..], x);
    }
  }

  /** the bytes that one leaf adds to the result, and their number */
  method CopyLeaf(p: MerkleProof, k: nat, start: nat, result: seq<byte>) returns (result': seq<byte>, len: nat)
    requires k < |p.leafIndices| && k < |p.leafData|
    ensures |result'| == |result|
    ensures len == |Overlap(p, start, start + |result|, k)|
    ensures Sane(p) && Copied(p, start, result, k) ==> Copied(p, start, result', k + 1)
  {
    var end := start + |result|;
    var leafStart := Offset(p.leafIndices[k]);
    var leafEnd := leafStart + CHUNK_LEN;
    OverlapSize(p, start, end, k);
    result', len := result, 0;
    if leafStart < end && start < leafEnd {
      var copyStart := if start < leafStart then leafStart else start;
      var copyEnd := if end < leafEnd then end else leafEnd;
      len := copyEnd - copyStart;
      result' := result[..copyStart - start] + p.leafData[k][copyStart - leafStart..copyEnd - leafStart]
        + result[copyEnd - start..];
    }
  }

  /** `None` stands for the error that a byte is in no leaf of the proof. */
  method ExtractBytes(p: MerkleProof, globalStart: nat, length: nat) returns (r: Option<seq<byte>>)
    ensures Sane(p) ==> r == Extracted(p, globalStart, length)
  {
    var result := Zeros(length);
    var copied := 0;
    for k := 0 to Pairs(p)
      invariant |result| == length
      invariant copied == Count(p, globalStart, globalStart + length, k)
      invariant Sane(p) ==> Copied(p, globalStart, result, k)
    {
      var len;
      result, len := CopyLeaf(p, k, globalStart, result);
      copied := copied + len;
    }
    if Sane(p) {
      CountIsFull(p, globalStart, length);
      if copied == length {
        CopiedAll(p, globalStart, result);
      }
    }
    return if copied == length then Some(result) else None;
  }

  // ----- What the bytes are -----

  lemma ByteOfChunk(data: seq<byte>, x: nat)
    requires Offset(x / CHUNK_LEN + 1) <= |data|
    ensures x / CHUNK_LEN < NumChunks(|data|) && x < |data|
    ensures |ChunkAt(data, x / CHUNK_LEN)| == CHUNK_LEN && ChunkAt(data, x / CHUNK_LEN)[x % CHUNK_LEN] == data[x]
  {
    assert Offset(x / CHUNK_LEN) == 1024 * (x / 1024);
  }

  lemma AcceptedByte(key: Key, data: seq<byte>, p: MerkleProof, x: nat)
    requires Sane(p) && InRange(p.leafIndices, p.totalLeaves) && p.totalLeaves == NumChunks(|data|) >= 2
    requires ProofRoot(key, p) == Some(Hash(key, data)) && x / CHUNK_LEN in p.leafIndices
    ensures x < |data| && ByteOf(p, x) == data[x]
  {
    var i := x / CHUNK_LEN;
    IndexOfMember(p.leafIndices, i);
    assert Offset(i + 1) <= |data| by { AcceptedLeavesAreFull(key, data, p, i); }
    ByteOfChunk(data, x);
    var k := IndexOf(p.leafIndices, i);
    assert p.leafData[k] == ChunkAt(data, i) by { AcceptedProofCarriesChunks(key, data, p); }
  }

  /** whatever is read out of an accepted proof is what the tree was built from */
  lemma AcceptedBytes(key: Key, data: seq<byte>, p: MerkleProof, start: nat, length: nat)
    requires Sane(p) && InRange(p.leafIndices, p.totalLeaves) && p.totalLeaves == NumChunks(|data|) >= 2
    requires ProofRoot(key, p) == Some(Hash(key, data)) && AllCovered(p, start, length) && length > 0
    ensures start + length <= |data| && Extracted(p, start, length) == Some(data[start..start + length])
  {
    forall x: nat | start <= x < start + length
      ensures x < |data| && ByteOf(p, x) == data[x]
    {
      AcceptedByte(key, data, p, x);
    }
    var last := start + (length - 1);
    assert last / CHUNK_LEN in p.leafIndices;
    AcceptedByte(key, data, p, last);
    assert Extracted(p, start, length).value == data[start..start + length];
  }

  // ----- Rows -----

  /** `p` proves the rows `rows` of the matrix `data` with `cols` columns: it is accepted for the hash of
      the matrix, and each row can be read out of it */
  ghost predicate ProvesRows(key: Key, data: seq<byte>, cols: nat, rows: seq<nat>, p: MerkleProof) {
    && Sane(p) && p.root == Hash(key, data) && ProofRoot(key, p) == Some(p.root)
    && forall k {:trigger rows[k]} :: 0 <= k < |rows| ==>
         0 <= rows[k] * cols <= (rows[k] + 1) * cols <= |data|
           && Extracted(p, rows[k] * cols, cols) == Some(data[rows[k] * cols..(rows[k] + 1) * cols])
  }

  ghost predicate ValidRows(rows: seq<nat>, m: nat) {
    rows != [] && forall k {:trigger rows[k]} :: 0 <= k < |rows| ==> rows[k] < m
  }

  lemma RowInside(row: nat, m: nat, cols: nat)
    requires row < m
    ensures 0 <= row * cols && (row + 1) * cols == row * cols + cols <= m * cols
  {
    MulMonotone(row + 1, m, cols);
  }

  /** every leaf that a row needs exists, and at least one is needed */
  lemma NeededInRange(rows: seq<nat>, m: nat, cols: nat, size: nat, indices: seq<nat>)
    requires ValidRows(rows, m) && cols > 0 && size == m * cols
    requires forall i: nat :: i in indices <==> NeededBy(rows, cols, |rows|, i)
    ensures indices != [] && InRange(indices, NumChunks(size)) && size > 0
  {
    RowInside(rows[0], m, cols);
    TouchesRange(rows[0] * cols, (rows[0] + 1) * cols, (rows[0] * cols) / CHUNK_LEN);
    assert (rows[0] * cols) / CHUNK_LEN in indices;
    forall i | i in indices
      ensures i < NumChunks(size)
    {
      var k: nat :| k < |rows| && Touches(rows[k] * cols, (rows[k] + 1) * cols, i);
      RowInside(rows[k], m, cols);
      TouchesRange(rows[k] * cols, (rows[k] + 1) * cols, i);
    }
    InRangeMembers(indices, NumChunks(size));
  }

  /** row k can be read out of any accepted proof that has the leaves it needs */
  lemma RowIsProven(key: Key, data: seq<byte>, m: nat, cols: nat, rows: seq<nat>, p: MerkleProof, k: nat)
    requires ValidRows(rows, m) && cols > 0 && k < |rows|
    requires Sane(p) && InRange(p.leafIndices, p.totalLeaves) && p.totalLeaves == NumChunks(|data|) >= 2
    requires ProofRoot(key, p) == Some(Hash(key, data))
    requires forall i: nat :: i in p.leafIndices <==> NeededBy(rows, cols, |rows|, i)
    ensures var start := rows[k] * cols;
            0 <= start <= (rows[k] + 1) * cols <= |data|
              && Extracted(p, start, cols) == Some(data[start..(rows[k] + 1) * cols])
  {
    RowInside(rows[k], m, cols);
    RowCovered(rows, cols, k, p);
    AcceptedBytes(key, data, p, rows[k] * cols, cols);
  }

  /** the last chunk is full, or no row needs it, and it is not the only one */
  ghost predicate Provable(size: nat, cols: nat, rows: seq<nat>) {
    var n := NumChunks(size);
    n >= 2 && (size % CHUNK_LEN == 0 || !NeededBy(rows, cols, |rows|, n - 1))
  }

  /** The honest proof for the leaves of a list of rows verifies and yields each of them, exactly when there are
      two chunks or more and the last is full or not needed. */
  lemma RowsAreProven(key: Key, data: seq<byte>, m: nat, cols: nat, rows: seq<nat>, indices: seq<nat>)
    requires ValidRows(rows, m) && cols > 0 && |data| == m * cols
    requires forall i: nat :: i in indices <==> NeededBy(rows, cols, |rows|, i)
    ensures data != [] && InRange(indices, NumChunks(|data|))
    ensures ProvesRows(key, data, cols, rows, HonestProof(key, data, indices)) <==> Provable(|data|, cols, rows)
  {
    NeededInRange(rows, m, cols, |data|, indices);
    var p := HonestProof(key, data, indices);
    HonestIsSane(key, data, indices);
    HonestProofVerifies(key, data, indices);
    CollectedIsOrdered(indices);
    if Provable(|data|, cols, rows) {
      forall k: nat | k < |rows|
        ensures 0 <= rows[k] * cols <= (rows[k] + 1) * cols <= |data|
                && Extracted(p, rows[k] * cols, cols) == Some(data[rows[k] * cols..(rows[k] + 1) * cols])
      {
        RowIsProven(key, data, m, cols, rows, p, k);
      }
    }
  }

  lemma RowCovered(rows: seq<nat>, cols: nat, k: nat, p: MerkleProof)
    requires k < |rows| && forall i: nat :: i in p.leafIndices <==> NeededBy(rows, cols, |rows|, i)
    ensures rows[k] * cols >= 0 && AllCovered(p, rows[k] * cols, cols)
  {
    MulNat(rows[k], cols);
    forall x: nat | rows[k] * cols <= x < rows[k] * cols + cols
      ensures x / CHUNK_LEN in p.leafIndices
    {
      RowBytes(rows[k], cols);
      assert Touches(rows[k] * cols, (rows[k] + 1) * cols, x / CHUNK_LEN);
    }
  }

  // ----- build_plain_proof -----

  datatype MatrixMerkleProof = MatrixMerkleProof(proof: MerkleProof, rowIndices: seq<nat>)

  datatype PlainProof = PlainProof(m: nat, n: nat, k: nat, noiseRank: nat, a: MatrixMerkleProof, bt: MatrixMerkleProof)

  datatype PlainProofError = WrongLengthA | WrongLengthB

  /** each leaf holds the bytes of its chunk, and zeros behind the end of the data */
  ghost predicate HoldBytes(data: seq<byte>, leaves: seq<Leaf>, ks: seq<nat>) {
    |leaves| == |ks| && forall k :: 0 <= k < |ks| ==> HoldsBytes(data, leaves[k], ks[k])
  }

  ghost predicate HoldsBytes(data: seq<byte>, leaf: Leaf, i: nat) {
    forall j :: 0 <= j < CHUNK_LEN ==> leaf[j] == if Offset(i) + j < |data| then data[Offset(i) + j] else 0
  }

  ghost predicate AreNeeded(ks: seq<nat>, rows: seq<nat>, cols: nat) {
    forall i: nat :: i in ks <==> NeededBy(rows, cols, |rows|, i)
  }

  /** the leaves of the proof are exactly those that the rows need, each once and in order, with its bytes and the
      siblings of the tree; also when the proof does not verify */
  ghost predicate HasLeavesOf(key: Key, data: seq<byte>, cols: nat, rows: seq<nat>, p: MerkleProof) {
    && AreNeeded(p.leafIndices, rows, cols) && Increasing(p.leafIndices)
    && p.totalLeaves == NumChunks(|data|) && p.root == Hash(key, data) && HoldBytes(data, p.leafData, p.leafIndices)
    && p.siblings == HonestSiblings(key, ChunkCvs(key, data), p.leafIndices)
  }

  lemma HonestLeaves(key: Key, data: seq<byte>, cols: nat, rows: seq<nat>, indices: seq<nat>)
    requires data != [] && InRange(indices, NumChunks(|data|)) && Increasing(indices)
    requires AreNeeded(indices, rows, cols)
    ensures HasLeavesOf(key, data, cols, rows, HonestProof(key, data, indices))
  {
    CollectedIncreasing(indices);
    LeavesHoldBytes(data, indices);
    hide AreNeeded, HonestSiblings, LeavesAt, Hash, ChunkCvs, HoldBytes, Increasing, InRange, Collected;
    var p := HonestProof(key, data, indices);
    assert p.leafIndices == indices && p.leafData == LeavesAt(data, indices);
  }

  lemma LeavesHoldBytes(data: seq<byte>, ks: seq<nat>)
    requires InRange(ks, NumChunks(|data|))
    ensures HoldBytes(data, LeavesAt(data, ks), ks)
  {
    hide LeafAt, HoldsBytes;
    forall k | 0 <= k < |ks|
      ensures HoldsBytes(data, LeafAt(data, ks[k]), ks[k])
    {
      LeafHoldsBytes(data, ks[k]);
    }
  }

  lemma LeafHoldsBytes(data: seq<byte>, i: nat)
    requires i < NumChunks(|data|)
    ensures HoldsBytes(data, LeafAt(data, i), i)
  {
    LeafBytes(data, i);
  }

  method ProveRows(key: Key, data: seq<byte>, rows: seq<nat>, m: nat, cols: nat) returns (p: MerkleProof)
    requires ValidRows(rows, m) && cols > 0 && |data| == m * cols
    ensures HasLeavesOf(key, data, cols, rows, p)
    ensures ProvesRows(key, data, cols, rows, p) <==> Provable(|data|, cols, rows)
  {
    var indices := ComputeLeafIndicesFromRows(rows, cols);
    NeededInRange(rows, m, cols, |data|, indices);
    var tree := NewMerkleTree(key, data);
    p := GetMultileafProof(tree, indices);
    RowsAreProven(key, data, m, cols, rows, indices);
    HonestLeaves(key, data, cols, rows, indices);
  }

  /** the rows of A and of the transpose of B that a hit names, each with its proof */
  method BuildPlainProof(m: nat, n: nat, k: nat, noiseRank: nat, aBytes: seq<byte>, bBytes: seq<byte>,
                         aRowIndices: seq<nat>, bColIndices: seq<nat>, key: Key)
    returns (r: Result<PlainProof, PlainProofError>)
    requires ValidRows(aRowIndices, m) && ValidRows(bColIndices, n) && k > 0
    ensures r.Err? <==> |aBytes| != m * k || |bBytes| != n * k
    ensures r.Err? ==> (r.error == WrongLengthA <==> |aBytes| != m * k)
    ensures r.Ok? ==> var q := r.value;
              && (q.m, q.n, q.k, q.noiseRank, q.a.rowIndices, q.bt.rowIndices)
                 == (m, n, k, noiseRank, aRowIndices, bColIndices)
              && HasLeavesOf(key, aBytes, k, aRowIndices, q.a.proof)
              && HasLeavesOf(key, bBytes, k, bColIndices, q.bt.proof)
              && (ProvesRows(key, aBytes, k, aRowIndices, q.a.proof) <==> Provable(|aBytes|, k, aRowIndices))
              && (ProvesRows(key, bBytes, k, bColIndices, q.bt.proof) <==> Provable(|bBytes|, k, bColIndices))
  {
    if |aBytes| != m * k {
      return Err(WrongLengthA);
    }
    if |bBytes| != n * k {
      return Err(WrongLengthB);
    }
    var aProof := ProveRows(key, aBytes, aRowIndices, m, k);
    var btProof := ProveRows(key, bBytes, bColIndices, n, k);
    return Ok(PlainProof(m, n, k, noiseRank, MatrixMerkleProof(aProof, aRowIndices),
      MatrixMerkleProof(btProof, bColIndices)));
  }
}
