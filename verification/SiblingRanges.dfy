/** Chaining values of byte ranges, rebuilt from a multi-leaf proof: the byte ranges of its siblings,
    and the recursion over the tree that uses them. */
module SiblingRanges {
  import opened Arithmetic
  import opened Wrappers
  import opened Blake3
  import opened OrderedSets
  import opened MerkleTrees
  import opened MerkleProofs
  import opened MatrixProofs

  datatype Range = Range(start: nat, end: nat, cv: Digest)

  // ----- compute_sibling_ranges -----

  /** the bytes below node i of layer `level` */
  function NodeRange(i: nat, level: nat, totalSize: nat, cv: Digest): Range {
    Range(Offset(Scaled(i, level)), Min(Offset(Scaled(i + 1, level)), totalSize), cv)
  }

  /** the first siblings of a level, as many as the proof still has */
  ghost function LevelRanges(idx: seq<nat>, level: nat, totalSize: nat, s: seq<Digest>, n: nat): (r: seq<Range>)
    requires n <= |idx| && n <= |s|
    ensures |r| == n && forall k :: 0 <= k < n ==> r[k] == NodeRange(idx[k], level, totalSize, s[k])
  {
    seq(n, k requires 0 <= k < n => NodeRange(idx[k], level, totalSize, s[k]))
  }

  ghost function RangesFrom(ks: seq<nat>, n: nat, level: nat, totalSize: nat, s: seq<Digest>): seq<Range>
    decreases n
  {
    if n <= 1 || ks == [] || s == [] then []
    else
      var idx := AllSiblings(ks, n);
      var take := Min(|idx|, |s|);
      LevelRanges(idx, level, totalSize, s, take) + RangesFrom(Parents(ks), (n + 1) / 2, level + 1, totalSize,
        s[take..])
  }

  /** sib * (CHUNK_LEN << level) */
  lemma ChunkTimes(sib: nat, level: nat)
    ensures sib * (1024 * Pow2(level)) == Offset(Scaled(sib, level))
  {
    ScaledValue(sib, level);
    assert sib * (1024 * Pow2(level)) == 1024 * (sib * Pow2(level));
  }

  method LevelRangesOf(current: seq<nat>, levelSize: nat, level: nat, totalSize: nat,
                       s: seq<Digest>) returns (result: seq<Range>)
    ensures result == LevelRanges(AllSiblings(current, levelSize), level, totalSize, s,
            Min(|AllSiblings(current, levelSize)|, |s|))
  {
    result := [];
    ghost var idx := AllSiblings(current, levelSize);
    for p := 0 to |current|
      invariant |result| == Min(|Siblings(current, levelSize, p)|, |s|)
      invariant forall k :: 0 <= k < |result| ==>
                  result[k] == NodeRange(Siblings(current, levelSize, p)[k], level, totalSize, s[k])
    {
      var i := current[p];
      var sib := if i % 2 == 0 then i + 1 else i - 1;
      var needSib := if i % 2 == 1 then sib !in current else sib < levelSize && sib !in current;
      if needSib && |result| < |s| {
        var chunk := 1024 * Pow2(level);
        ChunkTimes(sib, level);
        ChunkTimes(sib + 1, level);
        result := result + [Range(sib * chunk, Min((sib + 1) * chunk, totalSize), s[|result|])];
      }
    }
  }

  method ComputeSiblingRanges(p: MerkleProof, totalSize: nat) returns (result: seq<Range>)
    ensures result == RangesFrom(Collected(p.leafIndices), NumChunks(totalSize), 0, totalSize, p.siblings)
  {
    result := [];
    var current, rest, levelSize, level := Collected(p.leafIndices), p.siblings, NumChunks(totalSize), 0;
    while levelSize > 1 && current != [] && rest != []
      invariant result + RangesFrom(current, levelSize, level, totalSize, rest)
             == RangesFrom(Collected(p.leafIndices), NumChunks(totalSize), 0, totalSize, p.siblings)
      decreases levelSize
    {
      var found := LevelRangesOf(current, levelSize, level, totalSize, rest);
      result := result + found;
      current, rest, levelSize, level := Parents(current), rest[|found|..], (levelSize + 1) / 2, level + 1;
    }
  }

  // ----- compute_cv -----

  function NextPowerOfTwo(n: nat): (r: nat)
    ensures n <= r && (r == 1 || r < 2 * n) && IsPow2(r)
  {
    if n <= 1 then
      assert Pow2(0) == 1;
      1
    else
      var r := NextPowerOfTwo((n + 1) / 2);
      assert IsPow2(2 * r) by {
        var k: nat :| r == Pow2(k);
        assert 2 * r == Pow2(k + 1);
      }
      2 * r
  }

  lemma SamePower(a: nat, b: nat, m: nat)
    requires IsPow2(a) && IsPow2(b) && m <= a < 2 * m && m <= b < 2 * m
    ensures a == b
  {
    var j: nat, k: nat :| a == Pow2(j) && b == Pow2(k);
    if j < k {
      Pow2Monotone(j + 1, k);
    } else if k < j {
      Pow2Monotone(k + 1, j);
    }
  }

  /** the split in bytes is the split in leaves */
  lemma SplitPoint(leaves: nat)
    requires leaves >= 2
    ensures NextPowerOfTwo(1024 * leaves) / 2 == Offset(LeftLen(leaves))
  {
    var l := LeftLen(leaves);
    assert IsPow2(2 * Offset(l)) by { ThousandTimes(l); }
    hide LeftLen, NextPowerOfTwo, IsPow2;
    SamePower(NextPowerOfTwo(1024 * leaves), 2 * Offset(l), 1024 * leaves);
  }

  lemma ThousandTimes(l: nat)
    requires IsPow2(l)
    ensures IsPow2(2 * Offset(l))
  {
    var w := 10;
    var k: nat :| l == Pow2(k);
    TenBits(w);
    Pow2Add(w, k + 1);
    assert Pow2(k + 1) == 2 * Pow2(k);
    hide Pow2;
    assert 2 * Offset(l) == Pow2(w + (k + 1));
  }

  /** both parts of a range are whole chunks */
  lemma CvSplit(start: nat, end: nat)
    requires start < end && (end - start) % CHUNK_LEN == 0 && end - start != CHUNK_LEN
    ensures var half := NextPowerOfTwo(end - start) / 2;
            0 < half < end - start && half % CHUNK_LEN == 0 && (end - start - half) % CHUNK_LEN == 0
  {
    var leaves := (end - start) / CHUNK_LEN;
    assert end - start == 1024 * leaves && leaves >= 2;
    hide NextPowerOfTwo, LeftLen, IsPow2;
    SplitPoint(leaves);
    LeavesApart(LeftLen(leaves), leaves);
  }

  lemma LeavesApart(l: nat, n: nat)
    requires 0 < l < n
    ensures 0 < Offset(l) < 1024 * n && Offset(l) % CHUNK_LEN == 0 && (1024 * n - Offset(l)) % CHUNK_LEN == 0
  {
    assert 1024 * n - 1024 * l == 1024 * (n - l);
  }

  function FindRange(ranges: seq<Range>, start: nat, end: nat): Option<Digest> {
    if ranges == [] then None
    else if ranges[0].start == start && ranges[0].end == end then Some(ranges[0].cv)
    else FindRange(ranges[1..], start, end)
  }

  /** the chaining value of the bytes start <= x < end: a known range, a leaf of the proof, or two parts */
  ghost function Cv(key: Key, p: MerkleProof, start: nat, end: nat, ranges: seq<Range>): Option<Digest>
    requires start < end && (end - start) % CHUNK_LEN == 0
    decreases end - start
  {
    var found := FindRange(ranges, start, end);
    if found.Some? then found
    else if end - start == CHUNK_LEN then
      match Extracted(p, start, CHUNK_LEN)
      case Some(data) => Some(Chunk(key, data, start / CHUNK_LEN))
      case None => None
    else
      CvSplit(start, end);
      var mid := start + NextPowerOfTwo(end - start) / 2;
      match (Cv(key, p, start, mid, ranges), Cv(key, p, mid, end, ranges))
      case (Some(left), Some(right)) => Some(Parent(key, left, right))
      case _ => None
  }

  lemma CvParts(key: Key, p: MerkleProof, start: nat, end: nat, ranges: seq<Range>)
    requires start < end && (end - start) % CHUNK_LEN == 0 && end - start != CHUNK_LEN
             && FindRange(ranges, start, end).None?
    ensures var mid := start + NextPowerOfTwo(end - start) / 2;
            && start < mid < end && (mid - start) % CHUNK_LEN == 0 && (end - mid) % CHUNK_LEN == 0
            && Cv(key, p, start, end, ranges) ==
               match (Cv(key, p, start, mid, ranges), Cv(key, p, mid, end, ranges))
               case (Some(left), Some(right)) => Some(Parent(key, left, right))
               case _ => None
  {
    CvSplit(start, end);
  }

  /** where any range is split, whole chunks or not */
  function Middle(start: nat, end: nat): (mid: nat)
    requires start + 2 <= end
    ensures start < mid < end
  {
    assert NextPowerOfTwo(end - start) >= 2;
    start + NextPowerOfTwo(end - start) / 2
  }

  /** The recursion ends: a range of at most one byte is only ever split into itself again. */
  predicate Ends(start: nat, end: nat, ranges: seq<Range>)
    decreases if start <= end then end - start else 0
  {
    || FindRange(ranges, start, end).Some? || end == start + CHUNK_LEN
    || (start + 2 <= end && Ends(start, Middle(start, end), ranges) && Ends(Middle(start, end), end, ranges))
  }

  datatype CvResult = Value(cv: Digest) | Missing | Endless

  /** The chaining value of any range: an error on the left ends the recursion before it comes to the right. */
  ghost function AnyCv(key: Key, p: MerkleProof, start: nat, end: nat, ranges: seq<Range>): CvResult
    decreases if start <= end then end - start else 0
  {
    var found := FindRange(ranges, start, end);
    if found.Some? then Value(found.value)
    else if end == start + CHUNK_LEN then
      match Extracted(p, start, CHUNK_LEN)
      case Some(data) => Value(Chunk(key, data, start / CHUNK_LEN))
      case None => Missing
    else if end < start + 2 then Endless
    else
      match AnyCv(key, p, start, Middle(start, end), ranges)
      case Value(left) =>
        (match AnyCv(key, p, Middle(start, end), end, ranges)
         case Value(right) => Value(Parent(key, left, right))
         case Missing => Missing
         case Endless => Endless)
      case Missing => Missing
      case Endless => Endless
  }

  /** what the source needs in order to return at all */
  ghost predicate Returns(key: Key, p: MerkleProof, start: nat, end: nat, ranges: seq<Range>) {
    if Sane(p) then AnyCv(key, p, start, end, ranges) != Endless else Ends(start, end, ranges)
  }

  method ComputeCv(key: Key, p: MerkleProof, start: nat, end: nat, ranges: seq<Range>) returns (r: Option<Digest>)
    requires start <= end && Returns(key, p, start, end, ranges)
    ensures Sane(p) ==> AnyCv(key, p, start, end, ranges) == if r.Some? then Value(r.value) else Missing
    decreases end - start
  {
    var found := FindRange(ranges, start, end);
    if found.Some? {
      return found;
    }
    if end - start == CHUNK_LEN {
      var data := ExtractBytes(p, start, end - start);
      return if data.Some? then Some(ChunkCv(key, data.value, start / CHUNK_LEN)) else None;
    }
    var mid := Middle(start, end);
    hide Extracted, Middle, FindRange;
    var left := ComputeCv(key, p, start, mid, ranges);
    if left.None? {
      return None;
    }
    var right := ComputeCv(key, p, mid, end, ranges);
    return if right.Some? then Some(Parent(key, left.value, right.value)) else None;
  }

  /** on whole chunks the recursion ends, and goes over leaves */
  lemma {:induction false} AlignedCv(key: Key, p: MerkleProof, start: nat, end: nat, ranges: seq<Range>)
    requires start < end && (end - start) % CHUNK_LEN == 0
    ensures Ends(start, end, ranges)
    ensures var cv := Cv(key, p, start, end, ranges);
            AnyCv(key, p, start, end, ranges) == if cv.Some? then Value(cv.value) else Missing
    decreases end - start
  {
    if FindRange(ranges, start, end).None? && end - start != CHUNK_LEN {
      CvSplit(start, end);
      CvParts(key, p, start, end, ranges);
      var mid := Middle(start, end);
      AlignedCv(key, p, start, mid, ranges);
      AlignedCv(key, p, mid, end, ranges);
    }
  }

  lemma EndsSplit(start: nat, end: nat, ranges: seq<Range>)
    requires start + 2 <= end && end != start + CHUNK_LEN && FindRange(ranges, start, end).None?
    ensures Ends(start, end, ranges)
            <==> Ends(start, Middle(start, end), ranges) && Ends(Middle(start, end), end, ranges)
  {
    hide Middle;
  }

  /** a range is whole chunks exactly when both parts are */
  lemma SplitIsAligned(start: nat, end: nat)
    requires start + 2 <= end && end != start + CHUNK_LEN
    ensures var mid := Middle(start, end);
            (end - start) % CHUNK_LEN == 0 <==> (mid - start) % CHUNK_LEN == 0 && (end - mid) % CHUNK_LEN == 0
  {
    var mid := Middle(start, end);
    if (end - start) % CHUNK_LEN == 0 {
      CvSplit(start, end);
    }
    hide Middle, NextPowerOfTwo;
    PartsAligned(mid - start, end - mid);
  }

  lemma PartsAligned(x: nat, y: nat)
    ensures x % CHUNK_LEN == 0 && y % CHUNK_LEN == 0 ==> (x + y) % CHUNK_LEN == 0
  {
  }

  lemma TooShort(start: nat, end: nat)
    requires start <= end < start + 2
    ensures !Ends(start, end, []) && !(start < end && (end - start) % CHUNK_LEN == 0)
  {
  }

  /** without known ranges, the recursion ends exactly on a positive whole number of chunks */
  lemma {:induction false} EndsAlone(start: nat, end: nat)
    requires start <= end
    ensures Ends(start, end, []) <==> start < end && (end - start) % CHUNK_LEN == 0
    decreases end - start
  {
    hide Middle, NextPowerOfTwo;
    if end < start + 2 {
      TooShort(start, end);
    } else if end != start + CHUNK_LEN {
      SplitIsAligned(start, end);
      EndsSplit(start, end, []);
      hide Ends, FindRange;
      EndsAlone(start, Middle(start, end));
      EndsAlone(Middle(start, end), end);
    }
  }

  lemma TenBits(w: nat)
    requires w == 10
    ensures Pow2(w) == 1024
  {
    assert Pow2(5) == 32;
    Pow2Square(5, 32);
  }

  lemma EndsAtOnce(start: nat, end: nat, ranges: seq<Range>)
    requires FindRange(ranges, start, end).Some? || end == start + CHUNK_LEN
    ensures Ends(start, end, ranges)
  {
    hide FindRange;
  }

  /** a short last chunk does not prevent an end when its range is known */
  lemma ShortRangeEnds(ranges: seq<Range>)
    requires FindRange(ranges, 1024, 1500).Some?
    ensures Ends(0, 1500, ranges) && !Ends(0, 1500, [])
  {
    hide Ends, Middle, FindRange;
    EndsAlone(0, 1500);
    MiddleOf1500();
    EndsAtOnce(0, 1024, ranges);
    EndsAtOnce(1024, 1500, ranges);
    if FindRange(ranges, 0, 1500).Some? {
      EndsAtOnce(0, 1500, ranges);
    } else {
      EndsSplit(0, 1500, ranges);
    }
  }

  lemma MiddleOf1500()
    ensures Middle(0, 1500) == 1024
  {
    TenBits(10);
    assert Pow2(11) == 2 * Pow2(10);
    hide Pow2;
    assert IsPow2(2048);
    SamePower(NextPowerOfTwo(1500), 2048, 1500) by { hide NextPowerOfTwo; }
  }

  // ----- The ranges of an honest proof -----

  /** the ancestors of the leaves `ks` in layer k */
  ghost function Up(ks: seq<nat>, k: nat): seq<nat>
    decreases k
  {
    if k == 0 then ks else Up(Parents(ks), k - 1)
  }

  lemma {:induction false} UpOuter(ks: seq<nat>, k: nat)
    requires k > 0
    ensures Up(ks, k) == Parents(Up(ks, k - 1))
    decreases k
  {
    if k > 1 {
      UpOuter(Parents(ks), k - 1);
    }
  }

  lemma {:induction false} UpInRange(key: Key, x: seq<Digest>, ks: seq<nat>, k: nat)
    requires Increasing(ks) && InRange(ks, |x|)
    ensures Increasing(Up(ks, k)) && InRange(Up(ks, k), |Layer(key, x, k)|)
    decreases k
  {
    if k > 0 {
      ParentsInRange(ks, |x|);
      ParentsAre(ks);
      UpInRange(key, Combined(key, x), Parents(ks), k - 1);
    }
  }

  /** the entry of sibling i of layer k, seen from layer `level` with the nodes `x` */
  ghost predicate IsEntry(key: Key, x: seq<Digest>, ks: seq<nat>, level: nat, totalSize: nat, k: nat, i: nat,
                          r: Range) {
    && i < |Layer(key, x, k)| && i in AllSiblings(Up(ks, k), |Layer(key, x, k)|)
    && r == NodeRange(i, level + k, totalSize, Layer(key, x, k)[i])
  }

  lemma SiblingInRange(ks: seq<nat>, n: nat, i: nat)
    requires InRange(ks, n) && i in AllSiblings(ks, n)
    ensures i < n
  {
    var r: nat :| r < |AllSiblings(ks, n)| && AllSiblings(ks, n)[r] == i;
    SiblingFrom(ks, n, |ks|, r);
  }

  ghost function HonestRanges(key: Key, x: seq<Digest>, ks: seq<nat>, level: nat, totalSize: nat): seq<Range> {
    RangesFrom(ks, |x|, level, totalSize, HonestSiblings(key, x, ks))
  }

  /** the ranges of one level, then those of the levels above */
  lemma HonestRangesStep(key: Key, x: seq<Digest>, ks: seq<nat>, level: nat, totalSize: nat)
    requires |x| > 1 && ks != []
    ensures var idx := AllSiblings(ks, |x|);
            HonestRanges(key, x, ks, level, totalSize)
            == LevelRanges(idx, level, totalSize, Picked(x, idx), |idx|)
              + HonestRanges(key, Combined(key, x), Parents(ks), level + 1, totalSize)
  {
    var idx, s, rest := AllSiblings(ks, |x|), HonestSiblings(key, x, ks),
      HonestSiblings(key, Combined(key, x), Parents(ks));
    assert s == Picked(x, idx) + rest && s[|idx|..] == rest;
    assert LevelRanges(idx, level, totalSize, s, |idx|) == LevelRanges(idx, level, totalSize, Picked(x, idx), |idx|);
    if s == [] {
      assert LevelRanges(idx, level, totalSize, Picked(x, idx), |idx|) == [];
    }
  }

  lemma {:induction false} EveryRangeIsEntry(key: Key, x: seq<Digest>, ks: seq<nat>, level: nat, totalSize: nat,
                                             r: Range)
    requires InRange(ks, |x|) && r in HonestRanges(key, x, ks, level, totalSize)
    ensures exists k: nat, i: nat :: IsEntry(key, x, ks, level, totalSize, k, i, r)
    decreases |x|
  {
    SomeHonestRange(key, x, ks, level, totalSize, r);
    HonestRangesStep(key, x, ks, level, totalSize);
    hide HonestRanges, Combined, Parents, AllSiblings, Picked;
    var idx := AllSiblings(ks, |x|);
    var here := LevelRanges(idx, level, totalSize, Picked(x, idx), |idx|);
    if r in here {
      EntryHere(key, x, ks, level, totalSize, r);
      assert exists i: nat :: IsEntry(key, x, ks, level, totalSize, 0, i, r);
    } else {
      ParentsInRange(ks, |x|);
      hide InRange;
      EveryRangeIsEntry(key, Combined(key, x), Parents(ks), level + 1, totalSize, r);
      var k: nat, i: nat :| IsEntry(key, Combined(key, x), Parents(ks), level + 1, totalSize, k, i, r);
      EntryAbove(key, x, ks, level, totalSize, k, i, r);
    }
  }

  lemma SomeHonestRange(key: Key, x: seq<Digest>, ks: seq<nat>, level: nat, totalSize: nat, r: Range)
    requires r in HonestRanges(key, x, ks, level, totalSize)
    ensures |x| > 1 && ks != []
  {
    hide Combined, AllSiblings;
  }

  lemma EntryHere(key: Key, x: seq<Digest>, ks: seq<nat>, level: nat, totalSize: nat, r: Range)
    requires InRange(ks, |x|)
    requires var idx := AllSiblings(ks, |x|); r in LevelRanges(idx, level, totalSize, Picked(x, idx), |idx|)
    ensures exists i: nat :: IsEntry(key, x, ks, level, totalSize, 0, i, r)
  {
    hide AllSiblings;
    var idx := AllSiblings(ks, |x|);
    var here := LevelRanges(idx, level, totalSize, Picked(x, idx), |idx|);
    var q: nat :| q < |here| && here[q] == r;
    assert idx[q] in idx;
    SiblingInRange(ks, |x|, idx[q]);
    assert IsEntry(key, x, ks, level, totalSize, 0, idx[q], r);
  }

  lemma EntryAbove(key: Key, x: seq<Digest>, ks: seq<nat>, level: nat, totalSize: nat, k: nat, i: nat, r: Range)
    requires IsEntry(key, Combined(key, x), Parents(ks), level + 1, totalSize, k, i, r)
    ensures IsEntry(key, x, ks, level, totalSize, k + 1, i, r)
  {
    hide Combined, Parents, AllSiblings, NodeRange;
    assert level + 1 + k == level + (k + 1);
  }

  lemma EntryOfLevel(key: Key, x: seq<Digest>, ks: seq<nat>, level: nat, totalSize: nat, i: nat)
    requires |x| > 1 && ks != [] && i < |x| && i in AllSiblings(ks, |x|)
    ensures NodeRange(i, level, totalSize, x[i]) in HonestRanges(key, x, ks, level, totalSize)
  {
    var idx := AllSiblings(ks, |x|);
    HonestRangesStep(key, x, ks, level, totalSize);
    var q: nat :| q < |idx| && idx[q] == i;
    var here := LevelRanges(idx, level, totalSize, Picked(x, idx), |idx|);
    assert here[q] == NodeRange(i, level, totalSize, x[i]) && here[q] in here;
  }

  lemma {:induction false} EveryEntryIsRange(key: Key, x: seq<Digest>, ks: seq<nat>, level: nat, totalSize: nat, k: nat,
                                             i: nat)
    requires i < |Layer(key, x, k)| && i in AllSiblings(Up(ks, k), |Layer(key, x, k)|) && |Layer(key, x, k)| > 1
    ensures NodeRange(i, level + k, totalSize, Layer(key, x, k)[i]) in HonestRanges(key, x, ks, level, totalSize)
    decreases k
  {
    hide Collected;
    LayerShrinks(key, x, k);
    UpOfNothing(k);
    assert ks != [] by {
      assert AllSiblings([], |Layer(key, x, k)|) == [];
    }
    hide Siblings;
    if k == 0 {
      EntryOfLevel(key, x, ks, level, totalSize, i);
    } else {
      EveryEntryIsRange(key, Combined(key, x), Parents(ks), level + 1, totalSize, k - 1, i);
      HonestRangesStep(key, x, ks, level, totalSize);
    }
  }

  lemma {:induction false} LayerShrinks(key: Key, x: seq<Digest>, k: nat)
    ensures |Layer(key, x, k)| <= |x|
    decreases k
  {
    if k > 0 {
      LayerShrinks(key, Combined(key, x), k - 1);
    }
  }

  lemma {:induction false} UpOfNothing(k: nat)
    ensures Up([], k) == []
    decreases k
  {
    if k > 0 {
      assert Parents([]) == [];
      UpOfNothing(k - 1);
    }
  }

  // ----- Every node on a proven path -----

  lemma WholeChunks(a: nat, b: nat)
    requires a < b
    ensures Offset(a) < Offset(b) && (Offset(b) - Offset(a)) % CHUNK_LEN == 0
    ensures Offset(a) / CHUNK_LEN == a && (Offset(b) - Offset(a)) / CHUNK_LEN == b - a
  {
  }

  /** the chaining value of the leaves a <= j < b */
  ghost function CvOfLeaves(key: Key, p: MerkleProof, a: nat, b: nat, ranges: seq<Range>): Option<Digest>
    requires a < b
  {
    WholeChunks(a, b);
    Cv(key, p, Offset(a), Offset(b), ranges)
  }

  ghost predicate Rebuilt(key: Key, x: seq<Digest>, p: MerkleProof, ranges: seq<Range>, a: nat, b: nat)
    requires a < b <= |x|
  {
    CvOfLeaves(key, p, a, b, ranges) == Some(Subtree(key, x[a..b]))
  }

  /** a range that is found is right */
  ghost predicate RangesRight(key: Key, x: seq<Digest>, ranges: seq<Range>) {
    forall a: nat, b: nat {:trigger FindRange(ranges, Offset(a), Offset(b))} ::
      a < b <= |x| && FindRange(ranges, Offset(a), Offset(b)).Some? ==>
      FindRange(ranges, Offset(a), Offset(b)).value == Subtree(key, x[a..b])
  }

  lemma RebuiltLeaf(key: Key, x: seq<Digest>, p: MerkleProof, ranges: seq<Range>, a: nat)
    requires RangesRight(key, x, ranges) && a < |x|
    requires Extracted(p, Offset(a), CHUNK_LEN).Some? && x[a] == Chunk(key, Extracted(p, Offset(a), CHUNK_LEN).value, a)
    ensures Rebuilt(key, x, p, ranges, a, a + 1)
  {
    WholeChunks(a, a + 1);
    assert x[a..a + 1] == [x[a]];
  }

  lemma RebuiltParts(key: Key, x: seq<Digest>, p: MerkleProof, ranges: seq<Range>, a: nat, b: nat)
    requires RangesRight(key, x, ranges) && a + 2 <= b <= |x|
    requires Rebuilt(key, x, p, ranges, a, a + LeftLen(b - a)) && Rebuilt(key, x, p, ranges, a + LeftLen(b - a), b)
    ensures Rebuilt(key, x, p, ranges, a, b)
  {
    hide Extracted, NextPowerOfTwo, LeftLen;
    var y, l := x[a..b], LeftLen(b - a);
    WholeChunks(a, b);
    SplitPoint(b - a);
    assert Offset(a) + Offset(l) == Offset(a + l);
    assert y[..l] == x[a..a + l] && y[l..] == x[a + l..b];
  }

  /** the leaves a <= j < b are those below node i of layer k */
  ghost predicate IsNode(n: nat, k: nat, i: nat, a: nat, b: nat) {
    a == Scaled(i, k) < n && b == Min(a + Pow2(k), n)
  }

  /** what the proof and its ranges provide for the leaves `ks`: their data, and the chaining value of
      every node next to a path */
  ghost predicate Supports(key: Key, x: seq<Digest>, ks: seq<nat>, p: MerkleProof, ranges: seq<Range>) {
    && Increasing(ks) && InRange(ks, |x|) && RangesRight(key, x, ranges)
    && (forall a: nat {:trigger a in ks} :: a in ks ==>
          a < |x| && Extracted(p, Offset(a), CHUNK_LEN).Some?
            && x[a] == Chunk(key, Extracted(p, Offset(a), CHUNK_LEN).value, a))
    && (forall k: nat, i: nat, a: nat, b: nat {:trigger IsNode(|x|, k, i, a, b)} ::
          IsNode(|x|, k, i, a, b) && i !in Up(ks, k) && Mate(i) in Up(ks, k) ==>
            FindRange(ranges, Offset(a), Offset(b)).Some?)
  }

  /** one of the two halves of a node on a proven path */
  lemma {:induction false} RebuiltHalf(key: Key, x: seq<Digest>, ks: seq<nat>, p: MerkleProof, ranges: seq<Range>,
                                       k: nat, i: nat, a: nat, b: nat)
    requires Supports(key, x, ks, p, ranges) && IsNode(|x|, k, i, a, b)
    requires i in Up(ks, k) || Mate(i) in Up(ks, k)
    ensures Rebuilt(key, x, p, ranges, a, b)
    decreases k, 1
  {
    if i in Up(ks, k) {
      PathIsRebuilt(key, x, ks, p, ranges, k, i, a, b);
    } else {
      WholeChunks(a, b);
    }
  }

  lemma SplitOfNode(d: nat, h: nat)
    requires IsPow2(h) && h < d <= 2 * h
    ensures LeftLen(d) == h
  {
    SamePower(2 * LeftLen(d), 2 * h, d) by {
      DoublePower(LeftLen(d));
      DoublePower(h);
    }
  }

  lemma DoublePower(h: nat)
    requires IsPow2(h)
    ensures IsPow2(2 * h)
  {
    var k: nat :| h == Pow2(k);
    assert 2 * h == Pow2(k + 1);
  }

  /** the halves of a node on a path: one of them is on the path too */
  lemma HalvesOfNode(key: Key, x: seq<Digest>, ks: seq<nat>, k: nat, i: nat, a: nat, b: nat)
    requires Increasing(ks) && InRange(ks, |x|) && k > 0 && i in Up(ks, k) && IsNode(|x|, k, i, a, b)
    ensures var (u, h) := (Up(ks, k - 1), Pow2(k - 1));
            if b <= a + h then 2 * i in u && IsNode(|x|, k - 1, 2 * i, a, b)
            else
              && (2 * i in u || 2 * i + 1 in u) && LeftLen(b - a) == h
              && IsNode(|x|, k - 1, 2 * i, a, a + h) && IsNode(|x|, k - 1, 2 * i + 1, a + h, b)
  {
    hide Collected, LeftLen;
    var u, h := Up(ks, k - 1), Pow2(k - 1);
    UpOuter(ks, k);
    ParentsAre(u);
    ScaledNext(2 * i, k - 1);
    UpInRange(key, x, ks, k - 1);
    InRangeMembers(u, |Layer(key, x, k - 1)|);
    LayerNode(key, x, k - 1, 2 * i + 1);
    if b > a + h {
      SplitOfNode(b - a, h);
    }
  }

  /** The proof and its ranges rebuild the chaining value of every ancestor of a proven leaf. */
  lemma {:induction false} PathIsRebuilt(key: Key, x: seq<Digest>, ks: seq<nat>, p: MerkleProof, ranges: seq<Range>,
                                         k: nat, i: nat, a: nat, b: nat)
    requires Supports(key, x, ks, p, ranges) && i in Up(ks, k) && IsNode(|x|, k, i, a, b)
    ensures Rebuilt(key, x, p, ranges, a, b)
    decreases k, 0
  {
    hide Collected, Subtree, Cv;
    if k == 0 {
      RebuiltLeaf(key, x, p, ranges, a);
    } else {
      var h := Pow2(k - 1);
      HalvesOfNode(key, x, ks, k, i, a, b);
      if b <= a + h {
        PathIsRebuilt(key, x, ks, p, ranges, k - 1, 2 * i, a, b);
      } else {
        RebuiltHalf(key, x, ks, p, ranges, k - 1, 2 * i, a, a + h);
        RebuiltHalf(key, x, ks, p, ranges, k - 1, 2 * i + 1, a + h, b);
        RebuiltParts(key, x, p, ranges, a, b);
      }
    }
  }

  // ----- An honest proof supports its leaves -----

  /** chunk-aligned data of at least two chunks, and leaves of it */
  ghost predicate Aligned(data: seq<byte>, indices: seq<nat>) {
    && |data| % CHUNK_LEN == 0 && NumChunks(|data|) >= 2
    && indices != [] && InRange(indices, NumChunks(|data|))
  }

  ghost function RangesOf(key: Key, data: seq<byte>, indices: seq<nat>): seq<Range> {
    HonestRanges(key, ChunkCvs(key, data), Collected(indices), 0, |data|)
  }

  lemma EntryIsSubtree(key: Key, data: seq<byte>, indices: seq<nat>, a: nat, b: nat, r: Range)
    requires Aligned(data, indices) && a < b <= NumChunks(|data|)
    requires r in RangesOf(key, data, indices) && r.start == Offset(a) && r.end == Offset(b)
    ensures r.cv == Subtree(key, ChunkCvs(key, data)[a..b])
  {
    hide Collected, HonestRanges, ChunkCvs, Subtree, AllSiblings, Up, Layer;
    var x, ks := ChunkCvs(key, data), Collected(indices);
    CollectedInRange(indices, |x|);
    EveryRangeIsEntry(key, x, ks, 0, |data|, r);
    var k: nat, i: nat :| IsEntry(key, x, ks, 0, |data|, k, i, r);
    LayerNode(key, x, k, i);
    ScaledNext(i, k);
    assert Below(x, k, i) == x[a..b];
  }

  lemma {:induction false} FindIsMember(ranges: seq<Range>, start: nat, end: nat)
    ensures var f := FindRange(ranges, start, end);
            && (f.Some? ==> Range(start, end, f.value) in ranges)
            && ((exists cv :: Range(start, end, cv) in ranges) ==> f.Some?)
  {
    if ranges != [] && !(ranges[0].start == start && ranges[0].end == end) {
      FindIsMember(ranges[1..], start, end);
      assert forall r :: r in ranges <==> r == ranges[0] || r in ranges[1..];
    }
  }

  lemma HonestRangesRight(key: Key, data: seq<byte>, indices: seq<nat>)
    requires Aligned(data, indices)
    ensures RangesRight(key, ChunkCvs(key, data), RangesOf(key, data, indices))
  {
    var x, ranges := ChunkCvs(key, data), RangesOf(key, data, indices);
    forall a: nat, b: nat | a < b <= |x| && FindRange(ranges, Offset(a), Offset(b)).Some?
      ensures FindRange(ranges, Offset(a), Offset(b)).value == Subtree(key, x[a..b])
    {
      var cv := FindRange(ranges, Offset(a), Offset(b)).value;
      FindIsMember(ranges, Offset(a), Offset(b));
      EntryIsSubtree(key, data, indices, a, b, Range(Offset(a), Offset(b), cv));
    }
  }

  lemma HonestLeaf(key: Key, data: seq<byte>, indices: seq<nat>, a: nat)
    requires Aligned(data, indices) && a in Collected(indices)
    ensures a < NumChunks(|data|)
    ensures Extracted(HonestProof(key, data, indices), Offset(a), CHUNK_LEN) == Some(ChunkAt(data, a))
  {
    hide Collected, ProofRoot, HonestSiblings;
    var p := HonestProof(key, data, indices);
    CollectedInRange(indices, NumChunks(|data|));
    InRangeMembers(Collected(indices), NumChunks(|data|));
    HonestIsSane(key, data, indices);
    HonestProofVerifies(key, data, indices);
    assert AllCovered(p, Offset(a), CHUNK_LEN) by {
      forall y: nat | Offset(a) <= y < Offset(a) + CHUNK_LEN
        ensures y / CHUNK_LEN in p.leafIndices
      {
        assert y / CHUNK_LEN == a;
      }
    }
    AcceptedBytes(key, data, p, Offset(a), CHUNK_LEN);
    assert data[Offset(a)..Offset(a) + CHUNK_LEN] == ChunkAt(data, a);
  }

  lemma BytesOfNode(size: nat, k: nat, i: nat, a: nat, b: nat, cv: Digest)
    requires size % CHUNK_LEN == 0 && IsNode(NumChunks(size), k, i, a, b)
    ensures NodeRange(i, k, size, cv) == Range(Offset(a), Offset(b), cv)
  {
    ScaledNext(i, k);
  }

  lemma NeighbourIsSibling(u: seq<nat>, n: nat, i: nat)
    requires Increasing(u) && InRange(u, n) && i < n && i !in u && Mate(i) in u
    ensures i in AllSiblings(u, n) && n > 1
  {
    hide Siblings, IndexOf;
    InRangeMembers(u, n);
    assert Mate(Mate(i)) == i;
    SiblingOfPair(u, n, Mate(i));
  }

  lemma HonestNeighbour(key: Key, data: seq<byte>, indices: seq<nat>, k: nat, i: nat, a: nat, b: nat)
    requires Aligned(data, indices) && IsNode(NumChunks(|data|), k, i, a, b)
    requires i !in Up(Collected(indices), k) && Mate(i) in Up(Collected(indices), k)
    ensures FindRange(RangesOf(key, data, indices), Offset(a), Offset(b)).Some?
  {
    hide Collected, Siblings, Up, Layer, RangesFrom, HonestSiblings;
    var x, ks := ChunkCvs(key, data), Collected(indices);
    CollectedInRange(indices, |x|);
    CollectedIsOrdered(indices);
    UpInRange(key, x, ks, k);
    LayerNode(key, x, k, i);
    NeighbourIsSibling(Up(ks, k), |Layer(key, x, k)|, i);
    EveryEntryIsRange(key, x, ks, 0, |data|, k, i);
    BytesOfNode(|data|, k, i, a, b, Layer(key, x, k)[i]);
    FindIsMember(RangesOf(key, data, indices), Offset(a), Offset(b));
  }

  lemma HonestSupports(key: Key, data: seq<byte>, indices: seq<nat>)
    requires Aligned(data, indices)
    ensures Supports(key, ChunkCvs(key, data), Collected(indices), HonestProof(key, data, indices),
            RangesOf(key, data, indices))
  {
    var x, ks, p := ChunkCvs(key, data), Collected(indices), HonestProof(key, data, indices);
    CollectedIsOrdered(indices);
    CollectedInRange(indices, |x|);
    HonestRangesRight(key, data, indices);
    forall a: nat | a in ks
      ensures a < |x| && Extracted(p, Offset(a), CHUNK_LEN) == Some(ChunkAt(data, a))
    {
      HonestLeaf(key, data, indices, a);
    }
    forall k: nat, i: nat, a: nat, b: nat | IsNode(|x|, k, i, a, b) && i !in Up(ks, k) && Mate(i) in Up(ks, k)
      ensures FindRange(RangesOf(key, data, indices), Offset(a), Offset(b)).Some?
    {
      HonestNeighbour(key, data, indices, k, i, a, b);
    }
  }

  /** compute_cv on the ranges of compute_sibling_ranges, both from an honest proof: every ancestor of
      a proven leaf is rebuilt */
  lemma HonestPathIsRebuilt(key: Key, data: seq<byte>, indices: seq<nat>, k: nat, i: nat, a: nat, b: nat)
    requires Aligned(data, indices) && i in Up(Collected(indices), k) && IsNode(NumChunks(|data|), k, i, a, b)
    ensures RangesFrom(Collected(HonestProof(key, data, indices).leafIndices), NumChunks(|data|), 0, |data|,
            HonestProof(key, data, indices).siblings)
         == RangesOf(key, data, indices)
    ensures Rebuilt(key, ChunkCvs(key, data), HonestProof(key, data, indices), RangesOf(key, data, indices), a, b)
  {
    CollectedIsOrdered(indices);
    CollectedIncreasing(Collected(indices));
    HonestSupports(key, data, indices);
    PathIsRebuilt(key, ChunkCvs(key, data), Collected(indices), HonestProof(key, data, indices),
      RangesOf(key, data, indices), k, i, a, b);
  }
}
