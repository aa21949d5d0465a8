/** BLAKE3 as pearl-blake3 uses it. A digest is the term that produced it, so that two digests are
    equal exactly when they hash the same inputs in the same role. */
module Blake3 {
  import opened Arithmetic

  type Key = seq<byte>

  /** `Chunk` is a chaining value of a chunk, `Parent` one of an inner node; `Root` and `RootChunk`
      are hashed with the root flag. `Bytes` stands for 32 bytes that come from none of these. */
  datatype Digest =
    | Chunk(key: Key, data: seq<byte>, index: nat)
    | Parent(key: Key, left: Digest, right: Digest)
    | Root(key: Key, left: Digest, right: Digest)
    | RootChunk(key: Key, data: seq<byte>)
    | Bytes(value: nat)

  const CHUNK_LEN: nat := 1024

  /** the number of the first byte of chunk i */
  function Offset(i: nat): nat { 1024 * i }

  function Min(a: nat, b: nat): nat { if a < b then a else b }

  /** `len.div_ceil(CHUNK_LEN)` */
  function NumChunks(len: nat): nat { (len + 1023) / 1024 }

  /** the bytes of chunk i; the last one may be short */
  function ChunkAt(data: seq<byte>, i: nat): (c: seq<byte>)
    requires i < NumChunks(|data|)
    ensures |c| <= CHUNK_LEN && (|c| == CHUNK_LEN <==> Offset(i + 1) <= |data|)
  {
    data[Offset(i)..Min(Offset(i + 1), |data|)]
  }

  /** one chaining value per chunk */
  function ChunkCvs(key: Key, data: seq<byte>): (cvs: seq<Digest>)
    ensures |cvs| == NumChunks(|data|)
    ensures forall i {:trigger cvs[i]} :: 0 <= i < |cvs| ==> cvs[i] == Chunk(key, ChunkAt(data, i), i)
  {
    seq(NumChunks(|data|), i requires 0 <= i < NumChunks(|data|) => Chunk(key, ChunkAt(data, i), i))
  }

  /** what the bytes of a chunk are, the short last one included: together the chunks are the data */
  lemma ChunkBytes(data: seq<byte>, i: nat)
    requires i < NumChunks(|data|)
    ensures |ChunkAt(data, i)| == Min(CHUNK_LEN, |data| - Offset(i)) > 0
    ensures forall j :: 0 <= j < |ChunkAt(data, i)| ==> ChunkAt(data, i)[j] == data[Offset(i) + j]
  {
  }

  lemma SameChunks(d1: seq<byte>, d2: seq<byte>)
    requires NumChunks(|d1|) == NumChunks(|d2|)
    requires forall i: nat :: i < NumChunks(|d1|) ==> ChunkAt(d1, i) == ChunkAt(d2, i)
    ensures d1 == d2
  {
    var n := NumChunks(|d1|);
    if n > 0 {
      ChunkBytes(d1, n - 1);
      ChunkBytes(d2, n - 1);
      assert ChunkAt(d1, n - 1) == ChunkAt(d2, n - 1);
    }
    assert |d1| == |d2|;
    forall x | 0 <= x < |d1|
      ensures d1[x] == d2[x]
    {
      var i := x / CHUNK_LEN;
      ChunkBytes(d1, i);
      ChunkBytes(d2, i);
      assert ChunkAt(d1, i) == ChunkAt(d2, i);
      assert d1[x] == ChunkAt(d1, i)[x - Offset(i)];
    }
  }

  /** equal chunks at different places have different chaining values */
  lemma CounterBinds(key: Key, data: seq<byte>, i: nat, j: nat)
    requires i < j < NumChunks(|data|)
    ensures ChunkCvs(key, data)[i] != ChunkCvs(key, data)[j]
  {
  }

  // ----- The recursive tree of the BLAKE3 specification, section 2.1 -----

  /** the number of leaves of the left subtree: the largest power of two below n */
  function LeftLen(n: nat): (l: nat)
    requires n >= 2
    ensures IsPow2(l) && l < n <= 2 * l
  {
    if n == 2 then
      assert Pow2(0) == 1;
      1
    else
      var l := LeftLen((n + 1) / 2);
      assert IsPow2(2 * l) by {
        var k: nat :| l == Pow2(k);
        assert 2 * l == Pow2(k + 1);
      }
      2 * l
  }

  /** the chaining value of the subtree over the leaves `x` */
  function Subtree(key: Key, x: seq<Digest>): Digest
    requires |x| > 0
  {
    if |x| == 1 then x[0]
    else
      var l := LeftLen(|x|);
      Parent(key, Subtree(key, x[..l]), Subtree(key, x[l..]))
  }

  /** the root over at least two leaves: the top node gets the root flag */
  function TreeRoot(key: Key, x: seq<Digest>): Digest
    requires |x| >= 2
  {
    var l := LeftLen(|x|);
    Root(key, Subtree(key, x[..l]), Subtree(key, x[l..]))
  }

  /** the keyed hash of `data` */
  function Hash(key: Key, data: seq<byte>): Digest {
    if |data| <= CHUNK_LEN then RootChunk(key, data) else TreeRoot(key, ChunkCvs(key, data))
  }

  // ----- What a hash binds -----

  ghost predicate AreLeaves(x: seq<Digest>) { forall i :: 0 <= i < |x| ==> x[i].Chunk? }

  /** the shape of a subtree can be read off its chaining value, and so can its leaves */
  lemma {:induction false} SubtreeBinds(k1: Key, k2: Key, x: seq<Digest>, y: seq<Digest>)
    requires |x| > 0 && |y| > 0 && AreLeaves(x) && AreLeaves(y) && Subtree(k1, x) == Subtree(k2, y)
    ensures x == y
    decreases |x|
  {
    if |x| > 1 {
      var l, m := LeftLen(|x|), LeftLen(|y|);
      hide LeftLen;
      SubtreeBinds(k1, k2, x[..l], y[..m]);
      SubtreeBinds(k1, k2, x[l..], y[m..]);
      assert x == x[..l] + x[l..] && y == y[..m] + y[m..];
    }
  }

  lemma TreeBinds(k1: Key, k2: Key, x: seq<Digest>, y: seq<Digest>)
    requires |x| >= 2 && |y| >= 2 && AreLeaves(x) && AreLeaves(y) && TreeRoot(k1, x) == TreeRoot(k2, y)
    ensures k1 == k2 && x == y
  {
    var l, m := LeftLen(|x|), LeftLen(|y|);
    hide LeftLen, Subtree;
    SubtreeBinds(k1, k2, x[..l], y[..m]);
    SubtreeBinds(k1, k2, x[l..], y[m..]);
    assert x == x[..l] + x[l..] && y == y[..m] + y[m..];
  }

  lemma LeavesBind(key: Key, d1: seq<byte>, d2: seq<byte>)
    requires ChunkCvs(key, d1) == ChunkCvs(key, d2)
    ensures d1 == d2
  {
    var x, y := ChunkCvs(key, d1), ChunkCvs(key, d2);
    hide ChunkAt;
    forall i: nat | i < |x|
      ensures ChunkAt(d1, i) == ChunkAt(d2, i)
    {
      assert x[i] == y[i];
    }
    SameChunks(d1, d2);
  }

  /** Two inputs with the same keyed hash have the same key and the same bytes. */
  lemma HashBinds(k1: Key, d1: seq<byte>, k2: Key, d2: seq<byte>)
    requires Hash(k1, d1) == Hash(k2, d2)
    ensures k1 == k2 && d1 == d2
  {
    if |d1| > CHUNK_LEN {
      hide Subtree, LeftLen, ChunkAt;
      assert |d2| > CHUNK_LEN;
      hide Hash;
      TreeBinds(k1, k2, ChunkCvs(k1, d1), ChunkCvs(k2, d2));
      LeavesBind(k1, d1, d2);
    }
  }

  // ----- Layer by layer -----

  /** the layer above `prev`: pairs are merged and an odd last node is carried up */
  function Combined(key: Key, prev: seq<Digest>): (next: seq<Digest>)
    ensures |next| == (|prev| + 1) / 2
    ensures forall j {:trigger next[j]} :: 0 <= j < |next| ==>
              next[j] == if 2 * j + 1 < |prev| then Parent(key, prev[2 * j], prev[2 * j + 1]) else prev[2 * j]
  {
    seq((|prev| + 1) / 2, j requires 0 <= j < (|prev| + 1) / 2 =>
      if 2 * j + 1 < |prev| then Parent(key, prev[2 * j], prev[2 * j + 1]) else prev[2 * j])
  }

  lemma CombinedSplit(key: Key, x: seq<Digest>, a: nat)
    requires 2 * a <= |x|
    ensures Combined(key, x)[..a] == Combined(key, x[..2 * a])
    ensures Combined(key, x)[a..] == Combined(key, x[2 * a..])
  {
  }

  /** the halves of a list and those of the layer above it */
  lemma HalvesOfLayer(key: Key, x: seq<Digest>)
    requires |x| > 2
    ensures var (l, c) := (LeftLen(|x|), Combined(key, x));
            && LeftLen(|c|) == l / 2
            && c[..l / 2] == Combined(key, x[..l]) && c[l / 2..] == Combined(key, x[l..])
  {
    CombinedSplit(key, x, LeftLen(|x|) / 2);
  }

  /** one layer less, the same chaining value at the top */
  lemma {:induction false} CombinedSubtree(key: Key, x: seq<Digest>)
    requires |x| >= 1
    ensures Subtree(key, x) == Subtree(key, Combined(key, x))
    decreases |x|
  {
    if |x| == 1 {
      assert Combined(key, x) == x;
    } else if |x| == 2 {
      SubtreeOfPair(key, x[0], x[1]);
      assert x == [x[0], x[1]] && Combined(key, x) == [Parent(key, x[0], x[1])];
    } else {
      var l := LeftLen(|x|);
      HalvesOfLayer(key, x);
      CombinedSubtree(key, x[..l]);
      CombinedSubtree(key, x[l..]);
      SameSubtree(key, x, Combined(key, x));
    }
  }

  lemma SubtreeOfPair(key: Key, a: Digest, b: Digest)
    ensures Subtree(key, [a, b]) == Parent(key, a, b)
  {
    var x := [a, b];
    assert x[..1] == [a] && x[1..] == [b];
  }

  lemma SameSubtree(key: Key, x: seq<Digest>, c: seq<Digest>)
    requires |x| >= 2 && |c| >= 2
    requires Subtree(key, x[..LeftLen(|x|)]) == Subtree(key, c[..LeftLen(|c|)])
    requires Subtree(key, x[LeftLen(|x|)..]) == Subtree(key, c[LeftLen(|c|)..])
    ensures Subtree(key, x) == Subtree(key, c) && TreeRoot(key, x) == TreeRoot(key, c)
  {
  }

  /** the root that the layers end with */
  function LayeredRoot(key: Key, x: seq<Digest>): Digest
    requires |x| >= 2
    decreases |x|
  {
    if |x| == 2 then Root(key, x[0], x[1]) else LayeredRoot(key, Combined(key, x))
  }

  /** building the tree layer by layer gives the root of the recursive definition, for any number of leaves */
  lemma {:induction false} LayeredIsRecursive(key: Key, x: seq<Digest>)
    requires |x| >= 2
    ensures LayeredRoot(key, x) == TreeRoot(key, x)
    decreases |x|
  {
    if |x| == 2 {
      assert x[..1] == [x[0]] && x[1..] == [x[1]];
    } else {
      var l := LeftLen(|x|);
      LayeredIsRecursive(key, Combined(key, x));
      HalvesOfLayer(key, x);
      CombinedSubtree(key, x[..l]);
      CombinedSubtree(key, x[l..]);
      SameSubtree(key, x, Combined(key, x));
    }
  }

  // ----- Nodes of the layers -----

  /** layer k above the leaves `x` */
  ghost function Layer(key: Key, x: seq<Digest>, k: nat): seq<Digest>
    decreases k
  {
    if k == 0 then x else Layer(key, Combined(key, x), k - 1)
  }

  /** the leaves below node i of layer k */
  ghost function Below(x: seq<Digest>, k: nat, i: nat): seq<Digest>
    requires Scaled(i, k) <= |x|
  {
    x[Scaled(i, k)..Min(Scaled(i, k) + Pow2(k), |x|)]
  }

  lemma {:induction false} ScaledNext(i: nat, k: nat)
    ensures Scaled(i + 1, k) == Scaled(i, k) + Pow2(k)
    decreases k
  {
    if k > 0 {
      ScaledNext(2 * i, k - 1);
      ScaledNext(2 * i + 1, k - 1);
      assert 2 * (i + 1) == 2 * i + 1 + 1;
    }
  }

  /** i << k is even for k > 0, and half of it is i << (k - 1) */
  lemma {:induction false} ScaledHalf(i: nat, k: nat)
    requires k > 0
    ensures Scaled(i, k) == 2 * Scaled(i, k - 1)
    decreases k
  {
    if k > 1 {
      ScaledHalf(2 * i, k - 1);
    }
  }

  /** node i of layer k exists exactly when a leaf is below it, and it is the subtree of those leaves */
  lemma LayerStep(key: Key, x: seq<Digest>, k: nat)
    requires k > 0
    ensures Layer(key, x, k) == Layer(key, Combined(key, x), k - 1) && |Combined(key, x)| == (|x| + 1) / 2
  {
    hide Combined;
  }

  lemma {:induction false} LayerNode(key: Key, x: seq<Digest>, k: nat, i: nat)
    ensures i < |Layer(key, x, k)| <==> Scaled(i, k) < |x|
    ensures i < |Layer(key, x, k)| ==> Layer(key, x, k)[i] == Subtree(key, Below(x, k, i))
    decreases k
  {
    if k == 0 {
      if i < |x| {
        assert Below(x, 0, i) == [x[i]];
      }
    } else {
      ScaledHalf(i, k);
      var c := Combined(key, x);
      LayerStep(key, x, k);
      hide Layer, Scaled, Subtree, Combined, Below;
      assert |c| == (|x| + 1) / 2;
      LayerNode(key, c, k - 1, i);
      if Scaled(i, k) < |x| {
        BelowCombined(key, x, k, i);
        CombinedSubtree(key, Below(x, k, i));
      }
    }
  }

  lemma BelowCombined(key: Key, x: seq<Digest>, k: nat, i: nat)
    requires k > 0 && Scaled(i, k) < |x|
    ensures Scaled(i, k - 1) <= |Combined(key, x)|
    ensures Combined(key, Below(x, k, i)) == Below(Combined(key, x), k - 1, i)
  {
    ScaledHalf(i, k);
    var a, h := Scaled(i, k - 1), Pow2(k - 1);
    var e := Min(2 * a + 2 * h, |x|);
    var y := x[..e];
    var c := Combined(key, x);
    assert Combined(key, y) == c[..Min(a + h, |c|)];
    CombinedSplit(key, y, a);
    assert y[2 * a..] == Below(x, k, i);
  }

  // ----- The hasher -----

  /** `chunk_cv` */
  function ChunkCv(key: Key, data: seq<byte>, index: nat): Digest { Chunk(key, data, index) }

  /** the bytes of a segment */
  function Segment(data: seq<byte>, segIdx: nat): seq<byte>
    requires Offset(64 * segIdx) <= |data|
  {
    data[Offset(64 * segIdx)..Min(Offset(64 * (segIdx + 1)), |data|)]
  }

  lemma ChunkOfSegment(data: seq<byte>, segIdx: nat, i: nat)
    requires Offset(64 * segIdx) <= |data| && i < NumChunks(|Segment(data, segIdx)|)
    ensures 64 * segIdx + i < NumChunks(|data|)
    ensures ChunkAt(Segment(data, segIdx), i) == ChunkAt(data, 64 * segIdx + i)
  {
    var s, a, b := Segment(data, segIdx), Offset(64 * segIdx), Min(Offset(64 * (segIdx + 1)), |data|);
    SliceOfSlice(data, a, b, Offset(i), Min(Offset(i + 1), |s|));
  }

  lemma SliceOfSlice<T>(s: seq<T>, a: nat, b: nat, p: nat, q: nat)
    requires a <= b <= |s| && p <= q <= b - a
    ensures s[a..b][p..q] == s[a + p..a + q]
  {
    forall k | 0 <= k < q - p
      ensures s[a..b][p..q][k] == s[a + p..a + q][k]
    {
    }
  }

  /** the full chunks of a segment and whether a short one follows */
  lemma SegmentShape(data: seq<byte>, segIdx: nat, end: nat)
    requires 64 * segIdx < end == Min(64 * (segIdx + 1), NumChunks(|data|))
    ensures Offset(64 * segIdx) <= |data|
    ensures var (s, k) := (Segment(data, segIdx), end - 64 * segIdx);
            && NumChunks(|s|) == k && |s| / CHUNK_LEN <= k <= |s| / CHUNK_LEN + 1
            && (|s| > Offset(|s| / CHUNK_LEN) <==> k == |s| / CHUNK_LEN + 1)
  {
  }

  /** the chaining value of chunk i of a segment, at its place in the result */
  method WriteCv(key: Key, data: seq<byte>, segIdx: nat, i: nat, cvs: array<Digest>)
    requires Offset(64 * segIdx) <= |data| && i < NumChunks(|Segment(data, segIdx)|) && cvs.Length == NumChunks(|data|)
    modifies cvs
    ensures 64 * segIdx + i < cvs.Length
    ensures cvs[..] == old(cvs[..])[64 * segIdx + i := ChunkCvs(key, data)[64 * segIdx + i]]
  {
    ChunkOfSegment(data, segIdx, i);
    cvs[64 * segIdx + i] := ChunkCv(key, ChunkAt(Segment(data, segIdx), i), 64 * segIdx + i);
  }

  /** the entries of `v` with lo <= j < hi are those of `all`, the others those of `u` */
  ghost predicate Written(u: seq<Digest>, all: seq<Digest>, v: seq<Digest>, lo: nat, hi: nat) {
    && |u| == |v| == |all|
    && forall j {:trigger v[j]} :: 0 <= j < |v| ==> v[j] == if lo <= j < hi then all[j] else u[j]
  }

  /** `process_segment`: the full chunks of the segment in one batch, then a short last chunk */
  method ProcessSegment(key: Key, data: seq<byte>, segIdx: nat, cvs: array<Digest>, end: nat)
    requires cvs.Length == NumChunks(|data|) && 64 * segIdx < end == Min(64 * (segIdx + 1), cvs.Length)
    modifies cvs
    ensures Written(old(cvs[..]), ChunkCvs(key, data), cvs[..], 64 * segIdx, end)
  {
    SegmentShape(data, segIdx, end);
    ghost var all := ChunkCvs(key, data);
    var size := |Segment(data, segIdx)|;
    var numFull := size / CHUNK_LEN;
    for i := 0 to numFull
      invariant Written(old(cvs[..]), all, cvs[..], 64 * segIdx, 64 * segIdx + i)
    {
      WriteCv(key, data, segIdx, i, cvs);
    }
    if size > Offset(numFull) {
      WriteCv(key, data, segIdx, numFull, cvs);
    }
  }

  /** `hash_chunks`: the segments write disjoint parts of the result */
  method HashChunks(key: Key, data: seq<byte>) returns (allCvs: seq<Digest>)
    ensures allCvs == ChunkCvs(key, data)
  {
    var n := NumChunks(|data|);
    var cvs := new Digest[n](_ => Bytes(0));
    ghost var zeros := cvs[..];
    var segIdx := 0;
    while 64 * segIdx < n
      invariant cvs.Length == n && Written(zeros, ChunkCvs(key, data), cvs[..], 0, Min(64 * segIdx, n))
    {
      ProcessSegment(key, data, segIdx, cvs, Min(64 * (segIdx + 1), n));
      segIdx := segIdx + 1;
    }
    allCvs := cvs[..];
  }

  /** `combine_layer` */
  method CombineLayer(key: Key, prev: seq<Digest>) returns (next: seq<Digest>)
    ensures next == Combined(key, prev)
  {
    next := [];
    for j := 0 to (|prev| + 1) / 2
      invariant |next| == j && next == Combined(key, prev)[..j]
    {
      var pair := prev[2 * j..Min(2 * j + 2, |prev|)];
      next := next + [if |pair| == 2 then Parent(key, pair[0], pair[1]) else pair[0]];
    }
  }
}
