/** Multi-leaf proofs from a tree: when they verify, and what an accepted proof binds. */
module MerkleProofs {
  import opened Arithmetic
  import opened Wrappers
  import opened Blake3
  import opened OrderedSets
  import opened MerkleTrees

  function Picked(x: seq<Digest>, idx: seq<nat>): (r: seq<Digest>)
    ensures |r| == |idx| && forall k :: 0 <= k < |idx| ==> r[k] == At(x, idx[k])
  {
    seq(|idx|, k requires 0 <= k < |idx| => At(x, idx[k]))
  }

  /** the siblings of the leaves `ks` in the tree over `x`, level by level */
  function HonestSiblings(key: Key, x: seq<Digest>, ks: seq<nat>): seq<Digest>
    decreases |x|
  {
    if |x| <= 1 || ks == [] then []
    else Picked(x, AllSiblings(ks, |x|)) + HonestSiblings(key, Combined(key, x), Parents(ks))
  }

  /** chunk i as a leaf of a proof: a short last chunk is filled up with zeros */
  function LeafAt(data: seq<byte>, i: nat): Leaf
    requires i < NumChunks(|data|)
  {
    ChunkAt(data, i) + Zeros(CHUNK_LEN - |ChunkAt(data, i)|)
  }

  /** the bytes of a leaf: those of the data, and zeros behind its end */
  lemma LeafBytes(data: seq<byte>, i: nat)
    requires i < NumChunks(|data|)
    ensures |LeafAt(data, i)| == CHUNK_LEN
    ensures forall j :: 0 <= j < CHUNK_LEN ==>
              LeafAt(data, i)[j] == if Offset(i) + j < |data| then data[Offset(i) + j] else 0
  {
    ChunkBytes(data, i);
  }

  function LeavesAt(data: seq<byte>, ks: seq<nat>): (r: seq<Leaf>)
    requires InRange(ks, NumChunks(|data|))
    ensures |r| == |ks| && forall k :: 0 <= k < |ks| ==> r[k] == LeafAt(data, ks[k])
  {
    seq(|ks|, k requires 0 <= k < |ks| => LeafAt(data, ks[k]))
  }

  ghost predicate InRange(ks: seq<nat>, n: nat) {
    forall k {:trigger ks[k]} :: 0 <= k < |ks| ==> ks[k] < n
  }

  lemma InRangeMembers(ks: seq<nat>, n: nat)
    ensures InRange(ks, n) <==> forall i :: i in ks ==> i < n
  {
    if forall i :: i in ks ==> i < n {
      forall k | 0 <= k < |ks|
        ensures ks[k] < n
      {
        assert ks[k] in ks;
      }
    }
  }

  lemma CollectedInRange(xs: seq<nat>, n: nat)
    requires InRange(xs, n)
    ensures InRange(Collected(xs), n) && (xs != [] ==> Collected(xs) != [])
  {
    CollectedIsOrdered(xs);
    InRangeMembers(xs, n);
    InRangeMembers(Collected(xs), n);
    assert xs != [] ==> xs[0] in xs;
  }

  lemma ParentsInRange(ks: seq<nat>, n: nat)
    requires InRange(ks, n)
    ensures InRange(Parents(ks), (n + 1) / 2)
  {
    ParentsAre(ks);
    InRangeMembers(ks, n);
    InRangeMembers(Parents(ks), (n + 1) / 2);
  }

  /** the proof of the leaves `indices` of the tree over `data` */
  function HonestProof(key: Key, data: seq<byte>, indices: seq<nat>): MerkleProof
    requires data != [] && InRange(indices, NumChunks(|data|))
  {
    var ks := Collected(indices);
    CollectedInRange(indices, NumChunks(|data|));
    MerkleProof(LeavesAt(data, ks), ks, NumChunks(|data|), Hash(key, data),
      HonestSiblings(key, ChunkCvs(key, data), ks))
  }

  // ----- get_multileaf_proof -----

  method LeafDataOf(data: seq<byte>, ks: seq<nat>) returns (r: seq<Leaf>)
    requires InRange(ks, NumChunks(|data|))
    ensures r == LeavesAt(data, ks)
  {
    r := [];
    for k := 0 to |ks|
      invariant r == LeavesAt(data, ks)[..k]
    {
      var i := ks[k];
      var start, end := Offset(i), Min(Offset(i) + CHUNK_LEN, |data|);
      r := r + [data[start..end] + Zeros(CHUNK_LEN - (end - start))];
    }
  }

  /** the siblings of one level */
  method LevelSiblings(levelNodes: seq<Digest>, current: seq<nat>) returns (r: seq<Digest>)
    requires InRange(current, |levelNodes|)
    ensures r == Picked(levelNodes, AllSiblings(current, |levelNodes|))
  {
    r := [];
    for p := 0 to |current|
      invariant r == Picked(levelNodes, Siblings(current, |levelNodes|, p))
    {
      var i := current[p];
      if i % 2 == 1 {
        if i - 1 !in current {
          r := r + [levelNodes[i - 1]];
        }
      } else if i + 1 !in current && i + 1 < |levelNodes| {
        r := r + [levelNodes[i + 1]];
      }
    }
  }

  /** the walk has reached the level `nodes` of the tree */
  ghost predicate AtLevel(tree: MerkleTree, nodes: seq<Digest>, current: seq<nat>, level: nat) {
    && InRange(current, |nodes|) && Increasing(current)
    && (|nodes| > 1 ==> level < |tree.layers| && tree.layers[level..] == LayersFrom(tree.key, nodes))
  }

  lemma NextAtLevel(tree: MerkleTree, nodes: seq<Digest>, current: seq<nat>, level: nat)
    requires AtLevel(tree, nodes, current, level) && |nodes| > 1
    ensures tree.layers[level] == nodes
    ensures AtLevel(tree, Combined(tree.key, nodes), Parents(current), level + 1)
  {
    assert tree.layers[level] == tree.layers[level..][0];
    if |nodes| > 2 {
      assert tree.layers[level..][1..] == tree.layers[level + 1..];
    }
    ParentsInRange(current, |nodes|);
    ParentsAre(current);
  }

  /** the walk from the leaves up that collects the siblings */
  method CollectSiblings(tree: MerkleTree, unique: seq<nat>, ghost x: seq<Digest>) returns (siblings: seq<Digest>)
    requires tree.layers != [] && |tree.layers[0]| == |x| && AtLevel(tree, x, unique, 0)
    ensures siblings == HonestSiblings(tree.key, x, unique)
  {
    ghost var nodes := x;
    siblings := [];
    var current, level, levelLen := unique, 0, |tree.layers[0]|;
    while levelLen > 1 && current != []
      invariant |nodes| == levelLen && AtLevel(tree, nodes, current, level)
      invariant siblings + HonestSiblings(tree.key, nodes, current) == HonestSiblings(tree.key, x, unique)
      decreases levelLen
    {
      NextAtLevel(tree, nodes, current, level);
      var picked := LevelSiblings(tree.layers[level], current);
      siblings := siblings + picked;
      nodes := Combined(tree.key, nodes);
      current, levelLen, level := Parents(current), (levelLen + 1) / 2, level + 1;
    }
  }

  /** The source panics when no leaf is asked for or one does not exist. */
  method GetMultileafProof(tree: MerkleTree, leafIndices: seq<nat>) returns (p: MerkleProof)
    requires tree == TreeOf(tree.key, tree.data)
    requires leafIndices != [] && tree.data != [] && InRange(leafIndices, NumChunks(|tree.data|))
    ensures p == HonestProof(tree.key, tree.data, leafIndices)
  {
    hide HonestSiblings, LeavesAt, Hash, ChunkAt, Combined;
    var unique := Collected(leafIndices);
    CollectedInRange(leafIndices, NumChunks(|tree.data|));
    CollectedIsOrdered(leafIndices);
    hide Collected, Increasing;
    var leafData := LeafDataOf(tree.data, unique);
    var siblings := CollectSiblings(tree, unique, ChunkCvs(tree.key, tree.data));
    RootIsHash(tree.key, tree.data);
    p := MerkleProof(leafData, unique, |tree.layers[0]|, tree.Root(), siblings);
  }

  /** `sanity_check` */
  method SanityCheck(p: MerkleProof) returns (ok: bool)
    ensures ok <==> Sane(p)
  {
    if p.leafIndices == [] || |p.leafIndices| != |p.leafData| {
      return false;
    }
    for k := 0 to |p.leafIndices| - 1
      invariant Increasing(p.leafIndices[..k + 1])
    {
      if p.leafIndices[k] >= p.leafIndices[k + 1] {
        return false;
      }
    }
    assert p.leafIndices[..|p.leafIndices|] == p.leafIndices;
    return true;
  }

  ghost predicate Sane(p: MerkleProof) {
    p.leafIndices != [] && |p.leafIndices| == |p.leafData| && Increasing(p.leafIndices)
  }

  // ----- Honest proofs verify -----

  /** the nodes `m` are those of the level `x` */
  ghost predicate Agree(m: map<nat, Digest>, x: seq<Digest>) {
    forall i {:trigger i in m} :: i in m ==> i < |x| && m[i] == x[i]
  }

  lemma SiblingOfPair(ks: seq<nat>, n: nat, i: nat)
    requires Increasing(ks) && i in ks && NeedsSibling(ks, n, i)
    ensures var r := IndexOf(AllSiblings(ks, n), Mate(i)); r < |AllSiblings(ks, n)| && AllSiblings(ks, n)[r] == Mate(i)
  {
    var q: nat :| q < |ks| && ks[q] == i;
    PlaceOfSibling(ks, n, q);
  }

  lemma HonestPair(key: Key, x: seq<Digest>, ks: seq<nat>, m: map<nat, Digest>, s: seq<Digest>, j: nat)
    requires Level(ks, m) && Agree(m, x) && HasPair(m, j)
    requires Picked(x, AllSiblings(ks, |x|)) <= s
    ensures j < |Combined(key, x)| && PairValue(key, m, ks, |x|, s, j) == Combined(key, x)[j]
  {
    var n, idx, picked := |x|, AllSiblings(ks, |x|), Picked(x, AllSiblings(ks, |x|));
    if 2 * j !in m {
      assert 2 * j + 1 in ks && 2 * j !in ks;
      SiblingOfPair(ks, n, 2 * j + 1);
      assert s[IndexOf(idx, 2 * j)] == picked[IndexOf(idx, 2 * j)];
    } else if 2 * j + 1 !in m && 2 * j + 1 < n {
      assert 2 * j in ks && 2 * j + 1 !in ks;
      SiblingOfPair(ks, n, 2 * j);
      assert s[IndexOf(idx, 2 * j + 1)] == picked[IndexOf(idx, 2 * j + 1)];
    }
  }

  lemma HonestLevel(key: Key, x: seq<Digest>, ks: seq<nat>, m: map<nat, Digest>, s: seq<Digest>)
    requires Level(ks, m) && Agree(m, x)
    requires Picked(x, AllSiblings(ks, |x|)) <= s
    ensures Agree(PairUp(key, m, ks, |x|, s), Combined(key, x))
  {
    ParentsOfLevel(ks, m);
    forall j: nat | HasPair(m, j)
      ensures j < |Combined(key, x)| && PairValue(key, m, ks, |x|, s, j) == Combined(key, x)[j]
    {
      HonestPair(key, x, ks, m, s, j);
    }
  }

  lemma LastTwo(ks: seq<nat>)
    requires Increasing(ks) && InRange(ks, 2) && ks != []
    ensures ks == [0] || ks == [1] || ks == [0, 1]
  {
    IncreasingBound(ks, |ks| - 1);
    assert ks[0] <= ks[|ks| - 1] < 2;
  }

  lemma SiblingsOfTwo(ks: seq<nat>)
    requires ks == [0] || ks == [1] || ks == [0, 1]
    ensures AllSiblings(ks, 2) == if ks == [0] then [1] else if ks == [1] then [0] else []
  {
    assert Siblings(ks, 2, 0) == [];
    assert Siblings(ks, 2, 1) == if ks == [0, 1] then [] else [Mate(ks[0])];
  }

  lemma HonestTop(key: Key, x: seq<Digest>, ks: seq<nat>, m: map<nat, Digest>)
    requires |x| == 2 && Level(ks, m) && Agree(m, x) && InRange(ks, 2) && ks != []
    ensures RootFrom(key, ks, m, 2, HonestSiblings(key, x, ks)) == Some(Root(key, x[0], x[1]))
  {
    LastTwo(ks);
    SiblingsOfTwo(ks);
    var s := Picked(x, AllSiblings(ks, 2));
    assert HonestSiblings(key, x, ks) == s;
    assert 0 in ks <==> 0 in m;
    assert 1 in ks <==> 1 in m;
  }

  lemma {:induction false} HonestRoot(key: Key, x: seq<Digest>, ks: seq<nat>, m: map<nat, Digest>)
    requires |x| >= 2 && Level(ks, m) && Agree(m, x) && InRange(ks, |x|) && ks != []
    ensures RootFrom(key, ks, m, |x|, HonestSiblings(key, x, ks)) == Some(LayeredRoot(key, x))
    decreases |x|
  {
    if |x| == 2 {
      HonestTop(key, x, ks, m);
    } else {
      var s := HonestSiblings(key, x, ks);
      var used := |AllSiblings(ks, |x|)|;
      HonestLevel(key, x, ks, m, s);
      ParentsInRange(ks, |x|);
      ParentsAre(ks);
      PairedAll(key, m, ks, |x|, s, PairUp(key, m, ks, |x|, s));
      HonestRoot(key, Combined(key, x), Parents(ks), PairUp(key, m, ks, |x|, s));
      assert s[used..] == HonestSiblings(key, Combined(key, x), Parents(ks));
    }
  }

  // ----- What a root binds -----

  lemma SamePair(key: Key, ks: seq<nat>, n: nat, m1: map<nat, Digest>, m2: map<nat, Digest>, s1: seq<Digest>,
                 s2: seq<Digest>, i: nat)
    requires Level(ks, m1) && Level(ks, m2) && i in ks
    requires PairUp(key, m1, ks, n, s1) == PairUp(key, m2, ks, n, s2)
    ensures m1[i] == m2[i]
    ensures NeedsSibling(ks, n, i) ==> var r := IndexOf(AllSiblings(ks, n), Mate(i)); At(s1, r) == At(s2, r)
  {
    hide Parents, AllSiblings, IndexOf;
    ParentsOfLevel(ks, m1);
    var j := i / 2;
    assert i == 2 * j || i == 2 * j + 1;
    assert i in m1 && i in m2;
    assert HasPair(m1, j) && HasPair(m2, j);
    assert j in PairUp(key, m1, ks, n, s1);
    assert PairValue(key, m1, ks, n, s1, j) == PairValue(key, m2, ks, n, s2, j);
  }

  lemma SameLevel(key: Key, ks: seq<nat>, n: nat, m1: map<nat, Digest>, m2: map<nat, Digest>, s1: seq<Digest>,
                  s2: seq<Digest>)
    requires Level(ks, m1) && Level(ks, m2) && |AllSiblings(ks, n)| <= |s1| && |AllSiblings(ks, n)| <= |s2|
    requires PairUp(key, m1, ks, n, s1) == PairUp(key, m2, ks, n, s2)
    ensures m1 == m2 && s1[..|AllSiblings(ks, n)|] == s2[..|AllSiblings(ks, n)|]
  {
    forall i | i in m1
      ensures i in m2 && m1[i] == m2[i]
    {
      assert i in ks;
      SamePair(key, ks, n, m1, m2, s1, s2, i);
    }
    assert forall i :: i in m2 ==> i in ks && i in m1;
    forall r: nat | r < |AllSiblings(ks, n)|
      ensures s1[r] == s2[r]
    {
      SiblingFrom(ks, n, |ks|, r);
      var q: nat :| q < |ks| && NeedsSibling(ks, n, ks[q]) && r == |Siblings(ks, n, q)|;
      PlaceOfSibling(ks, n, q);
      assert ks[q] in ks;
      SamePair(key, ks, n, m1, m2, s1, s2, ks[q]);
    }
  }

  lemma SameTop(key: Key, ks: seq<nat>, m1: map<nat, Digest>, m2: map<nat, Digest>, s1: seq<Digest>, s2: seq<Digest>)
    requires Level(ks, m1) && Level(ks, m2) && InRange(ks, 2) && ks != []
    requires RootFrom(key, ks, m1, 2, s1).Some? && RootFrom(key, ks, m1, 2, s1) == RootFrom(key, ks, m2, 2, s2)
    ensures m1 == m2 && s1 == s2
  {
    LastTwo(ks);
    assert 0 in ks <==> 0 in m1;
    assert 1 in ks <==> 1 in m1;
    assert forall i :: i in m1 <==> i in ks;
    assert forall i :: i in m2 <==> i in ks;
    assert m1.Keys == m2.Keys;
  }

  /** the same root from the same nodes of a level means the same nodes and the same siblings */
  lemma {:induction false} RootBinds(key: Key, ks: seq<nat>, n: nat, m1: map<nat, Digest>, m2: map<nat, Digest>,
                                     s1: seq<Digest>, s2: seq<Digest>)
    requires Level(ks, m1) && Level(ks, m2) && InRange(ks, n) && ks != [] && n >= 2
    requires RootFrom(key, ks, m1, n, s1).Some? && RootFrom(key, ks, m1, n, s1) == RootFrom(key, ks, m2, n, s2)
    ensures m1 == m2 && s1 == s2
    decreases n
  {
    if n == 2 {
      SameTop(key, ks, m1, m2, s1, s2);
    } else {
      var used := |AllSiblings(ks, n)|;
      var u1, u2 := PairUp(key, m1, ks, n, s1), PairUp(key, m2, ks, n, s2);
      PairedAll(key, m1, ks, n, s1, u1);
      PairedAll(key, m2, ks, n, s2, u2);
      ParentsInRange(ks, n);
      ParentsAre(ks);
      RootBinds(key, Parents(ks), (n + 1) / 2, u1, u2, s1[used..], s2[used..]);
      SameLevel(key, ks, n, m1, m2, s1, s2);
      assert s1 == s1[..used] + s1[used..] && s2 == s2[..used] + s2[used..];
    }
  }

  // ----- Proofs -----

  lemma {:induction false} LeafCvAt(key: Key, p: MerkleProof, k: nat, q: nat)
    requires Increasing(p.leafIndices) && q < k <= Pairs(p)
    ensures p.leafIndices[q] in LeafCvs(key, p, k)
    ensures LeafCvs(key, p, k)[p.leafIndices[q]] == Chunk(key, p.leafData[q], p.leafIndices[q])
  {
    if q < k - 1 {
      LeafCvAt(key, p, k - 1, q);
    }
  }

  lemma SaneLevel(key: Key, p: MerkleProof)
    requires Sane(p)
    ensures Collected(p.leafIndices[..Pairs(p)]) == p.leafIndices && Level(p.leafIndices, LeafCvs(key, p, Pairs(p)))
  {
    assert p.leafIndices[..Pairs(p)] == p.leafIndices;
    CollectedIncreasing(p.leafIndices);
    LeafLevel(key, p, Pairs(p));
  }

  /** Two accepted proofs for the same leaves of trees of the same size carry the same leaves and siblings. */
  lemma ProofsBind(key: Key, p1: MerkleProof, p2: MerkleProof)
    requires Sane(p1) && Sane(p2) && p1.leafIndices == p2.leafIndices && p1.totalLeaves == p2.totalLeaves >= 2
    requires InRange(p1.leafIndices, p1.totalLeaves)
    requires ProofRoot(key, p1).Some? && ProofRoot(key, p1) == ProofRoot(key, p2)
    ensures p1.leafData == p2.leafData && p1.siblings == p2.siblings
  {
    SaneLevel(key, p1);
    SaneLevel(key, p2);
    var n := Pairs(p1);
    RootBinds(key, p1.leafIndices, p1.totalLeaves, LeafCvs(key, p1, n), LeafCvs(key, p2, n), p1.siblings, p2.siblings);
    forall k: nat | k < n
      ensures p1.leafData[k] == p2.leafData[k]
    {
      LeafCvAt(key, p1, n, k);
      LeafCvAt(key, p2, n, k);
    }
  }

  /** the true chaining values of the leaves `ks` */
  ghost function TrueCvs(x: seq<Digest>, ks: seq<nat>): map<nat, Digest>
    requires InRange(ks, |x|)
  {
    InRangeMembers(ks, |x|);
    map i | i in ks :: x[i]
  }

  lemma TrueRoot(key: Key, data: seq<byte>, ks: seq<nat>)
    requires NumChunks(|data|) >= 2 && Increasing(ks) && ks != [] && InRange(ks, NumChunks(|data|))
    ensures var (x, m) := (ChunkCvs(key, data), TrueCvs(ChunkCvs(key, data), ks));
            Level(ks, m) && RootFrom(key, ks, m, |x|, HonestSiblings(key, x, ks)) == Some(Hash(key, data))
  {
    var x := ChunkCvs(key, data);
    HonestRoot(key, x, ks, TrueCvs(x, ks));
    LayeredIsRecursive(key, x);
  }

  /** A sane proof with indices in range that is accepted for the hash of `data` carries exactly the
      chunks of `data` at its indices, and the siblings of the tree. */
  lemma AcceptedProofCarriesChunks(key: Key, data: seq<byte>, p: MerkleProof)
    requires Sane(p) && InRange(p.leafIndices, p.totalLeaves) && p.totalLeaves == NumChunks(|data|) >= 2
    requires ProofRoot(key, p) == Some(Hash(key, data))
    ensures forall k :: 0 <= k < |p.leafIndices| ==> p.leafData[k] == ChunkAt(data, p.leafIndices[k])
    ensures p.siblings == HonestSiblings(key, ChunkCvs(key, data), p.leafIndices)
  {
    var x, ks, n := ChunkCvs(key, data), p.leafIndices, Pairs(p);
    SaneLevel(key, p);
    TrueRoot(key, data, ks);
    RootBinds(key, ks, |x|, LeafCvs(key, p, n), TrueCvs(x, ks), p.siblings, HonestSiblings(key, x, ks));
    forall k: nat | k < |ks|
      ensures p.leafData[k] == ChunkAt(data, ks[k])
    {
      LeafCvAt(key, p, n, k);
      assert ks[k] in ks;
    }
  }

  lemma HonestIsSane(key: Key, data: seq<byte>, indices: seq<nat>)
    requires indices != [] && data != [] && InRange(indices, NumChunks(|data|))
    ensures var p := HonestProof(key, data, indices); Sane(p) && InRange(p.leafIndices, p.totalLeaves)
  {
    CollectedInRange(indices, NumChunks(|data|));
    CollectedIsOrdered(indices);
  }

  lemma SaneRoot(key: Key, p: MerkleProof)
    requires Sane(p) && p.totalLeaves >= 2
    ensures Level(p.leafIndices, LeafCvs(key, p, Pairs(p)))
    ensures ProofRoot(key, p) == RootFrom(key, p.leafIndices, LeafCvs(key, p, Pairs(p)), p.totalLeaves, p.siblings)
  {
    SaneLevel(key, p);
  }

  lemma FullChunks(data: seq<byte>, indices: seq<nat>)
    requires data != [] && InRange(indices, NumChunks(|data|))
    requires |data| % CHUNK_LEN == 0 || NumChunks(|data|) - 1 !in indices
    ensures forall k {:trigger Collected(indices)[k]} :: 0 <= k < |Collected(indices)| ==>
              Collected(indices)[k] < NumChunks(|data|) && |ChunkAt(data, Collected(indices)[k])| == CHUNK_LEN
  {
    CollectedIsOrdered(indices);
    CollectedInRange(indices, NumChunks(|data|));
    forall k | 0 <= k < |Collected(indices)|
      ensures |ChunkAt(data, Collected(indices)[k])| == CHUNK_LEN
    {
      assert Collected(indices)[k] in indices;
    }
  }

  lemma FullLeavesVerify(key: Key, data: seq<byte>, indices: seq<nat>)
    requires indices != [] && data != [] && InRange(indices, NumChunks(|data|)) && NumChunks(|data|) >= 2
    requires |data| % CHUNK_LEN == 0 || NumChunks(|data|) - 1 !in indices
    ensures var p := HonestProof(key, data, indices); ProofRoot(key, p) == Some(p.root)
  {
    var p := HonestProof(key, data, indices);
    HonestIsSane(key, data, indices);
    SaneRoot(key, p);
    FullChunks(data, indices);
    TrueLeaves(key, data, indices);
    TrueRoot(key, data, p.leafIndices);
  }

  lemma ShortLeafIsRejected(key: Key, data: seq<byte>, indices: seq<nat>)
    requires indices != [] && data != [] && InRange(indices, NumChunks(|data|)) && NumChunks(|data|) >= 2
    requires |data| % CHUNK_LEN != 0 && NumChunks(|data|) - 1 in indices
    ensures var p := HonestProof(key, data, indices); ProofRoot(key, p) != Some(p.root)
  {
    hide HonestSiblings, ProofRoot, Collected, Sane;
    var p, last := HonestProof(key, data, indices), NumChunks(|data|) - 1;
    HonestIsSane(key, data, indices);
    CollectedIsOrdered(indices);
    assert last in p.leafIndices;
    if ProofRoot(key, p) == Some(p.root) {
      AcceptedLeavesAreFull(key, data, p, last);
    }
  }

  /** leaves of a proof have full length, so an accepted proof contains no short chunk */
  lemma AcceptedLeavesAreFull(key: Key, data: seq<byte>, p: MerkleProof, i: nat)
    requires Sane(p) && InRange(p.leafIndices, p.totalLeaves) && p.totalLeaves == NumChunks(|data|) >= 2
    requires ProofRoot(key, p) == Some(Hash(key, data)) && i in p.leafIndices
    ensures Offset(i + 1) <= |data|
  {
    AcceptedProofCarriesChunks(key, data, p);
    var k: nat :| k < |p.leafIndices| && p.leafIndices[k] == i;
    assert |p.leafData[k]| == CHUNK_LEN && p.leafData[k] == ChunkAt(data, i);
  }

  /** The proof made from a tree verifies exactly when the tree has at least two leaves and no short
      last leaf is among those proven. */
  lemma HonestProofVerifies(key: Key, data: seq<byte>, indices: seq<nat>)
    requires indices != [] && data != [] && InRange(indices, NumChunks(|data|))
    ensures var p := HonestProof(key, data, indices);
            ProofRoot(key, p) == Some(p.root)
            <==> NumChunks(|data|) >= 2 && (|data| % CHUNK_LEN == 0 || NumChunks(|data|) - 1 !in indices)
  {
    if NumChunks(|data|) >= 2 {
      if |data| % CHUNK_LEN == 0 || NumChunks(|data|) - 1 !in indices {
        FullLeavesVerify(key, data, indices);
      } else {
        ShortLeafIsRejected(key, data, indices);
      }
    } else {
      SingleLeafIsRejected(key, data, indices);
    }
  }

  /** the tree over one chunk keeps the hash with the root flag, the proof leads to the one without */
  lemma SingleLeafIsRejected(key: Key, data: seq<byte>, indices: seq<nat>)
    requires indices != [] && data != [] && InRange(indices, 1) && NumChunks(|data|) == 1
    ensures var p := HonestProof(key, data, indices); ProofRoot(key, p) != Some(p.root)
  {
    var p := HonestProof(key, data, indices);
    HonestIsSane(key, data, indices);
    assert forall k :: 0 <= k < |p.leafIndices| ==> p.leafIndices[k] == 0;
    LeafCvAt(key, p, Pairs(p), 0);
  }

  lemma TrueLeaves(key: Key, data: seq<byte>, indices: seq<nat>)
    requires indices != [] && data != [] && InRange(indices, NumChunks(|data|))
    requires forall k {:trigger Collected(indices)[k]} :: 0 <= k < |Collected(indices)| ==>
               Collected(indices)[k] < NumChunks(|data|) && |ChunkAt(data, Collected(indices)[k])| == CHUNK_LEN
    ensures var p := HonestProof(key, data, indices);
            InRange(p.leafIndices, p.totalLeaves) && LeafCvs(key, p, Pairs(p))
              == TrueCvs(ChunkCvs(key, data), p.leafIndices)
  {
    var p := HonestProof(key, data, indices);
    HonestIsSane(key, data, indices);
    SaneLevel(key, p);
    var ks, x, m, t := p.leafIndices, ChunkCvs(key, data), LeafCvs(key, p, Pairs(p)),
      TrueCvs(ChunkCvs(key, data), p.leafIndices);
    forall i | i in ks
      ensures i in m && m[i] == t[i]
    {
      var k: nat :| k < |ks| && ks[k] == i;
      LeafCvAt(key, p, Pairs(p), k);
      assert p.leafData[k] == LeafAt(data, i) == ChunkAt(data, i);
    }
    assert forall i :: i in m ==> i in ks;
    assert m.Keys == t.Keys;
  }
}
