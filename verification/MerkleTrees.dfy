/** The BLAKE3 Merkle tree with multi-leaf proofs: honest proofs verify, and an accepted proof
    carries the leaves of the tree. */
module MerkleTrees {
  import opened Arithmetic
  import opened Wrappers
  import opened Blake3
  import opened OrderedSets

  datatype MerkleTree = MerkleTree(key: Key, layers: seq<seq<Digest>>, data: seq<byte>)
  {
    /** the source panics on the tree over no data */
    function Root(): Digest
      requires layers != [] && layers[|layers| - 1] != []
    {
      layers[|layers| - 1][0]
    }
  }

  type Leaf = s: seq<byte> | |s| == CHUNK_LEN witness seq(CHUNK_LEN, _ => 0)

  datatype MerkleProof = MerkleProof(
    leafData: seq<Leaf>,
    leafIndices: seq<nat>,
    totalLeaves: nat,
    root: Digest,
    siblings: seq<Digest>)

  // ----- The tree -----

  function LayersFrom(key: Key, x: seq<Digest>): (r: seq<seq<Digest>>)
    requires |x| >= 2
    ensures |r| >= 2 && r[0] == x
    decreases |x|
  {
    if |x| == 2 then [x, [Digest.Root(key, x[0], x[1])]] else [x] + LayersFrom(key, Combined(key, x))
  }

  /** the layers of the tree over `data`, leaves first; a single chunk is hashed with the root flag */
  function TreeOf(key: Key, data: seq<byte>): MerkleTree {
    MerkleTree(key,
      if data == [] then [[]]
      else if |data| <= CHUNK_LEN then [[RootChunk(key, data)]]
      else LayersFrom(key, ChunkCvs(key, data)),
      data)
  }

  method NewMerkleTree(key: Key, data: seq<byte>) returns (tree: MerkleTree)
    ensures tree == TreeOf(key, data)
  {
    if data == [] {
      return MerkleTree(key, [[]], []);
    }
    if |data| <= CHUNK_LEN {
      return MerkleTree(key, [[Hash(key, data)]], data);
    }
    var last := HashChunks(key, data);
    ghost var all := LayersFrom(key, last);
    var layers := [last];
    assert layers[..0] + all == all;
    while |last| > 2
      invariant Layering(key, layers, last, all)
      decreases |last|
    {
      LayeringStep(key, layers, last, all);
      last := CombineLayer(key, last);
      layers := layers + [last];
    }
    LayeringEnd(key, layers, last, all);
    layers := layers + [[Digest.Root(key, last[0], last[1])]];
    return MerkleTree(key, layers, data);
  }

  /** the layers below the last one, and those from it on, are all layers */
  ghost predicate Layering(key: Key, layers: seq<seq<Digest>>, last: seq<Digest>, all: seq<seq<Digest>>) {
    && |last| >= 2 && layers != [] && layers[|layers| - 1] == last
    && layers[..|layers| - 1] + LayersFrom(key, last) == all
  }

  lemma LayeringStep(key: Key, layers: seq<seq<Digest>>, last: seq<Digest>, all: seq<seq<Digest>>)
    requires Layering(key, layers, last, all) && |last| > 2
    ensures Layering(key, layers + [Combined(key, last)], Combined(key, last), all)
  {
    var next := Combined(key, last);
    assert LayersFrom(key, last) == [last] + LayersFrom(key, next);
    hide LayersFrom, Combined;
    var below := layers[..|layers| - 1];
    assert layers == below + [last];
    assert below + ([last] + LayersFrom(key, next)) == layers + LayersFrom(key, next);
    assert (layers + [next])[..|layers|] == layers;
  }

  lemma LayeringEnd(key: Key, layers: seq<seq<Digest>>, last: seq<Digest>, all: seq<seq<Digest>>)
    requires Layering(key, layers, last, all) && |last| == 2
    ensures all == layers + [[Digest.Root(key, last[0], last[1])]]
  {
    var below := layers[..|layers| - 1];
    assert layers == below + [last];
    assert LayersFrom(key, last) == [last] + [[Digest.Root(key, last[0], last[1])]];
  }

  lemma {:induction false} LastOfLayers(key: Key, x: seq<Digest>)
    requires |x| >= 2
    ensures var r := LayersFrom(key, x); r[|r| - 1] == [LayeredRoot(key, x)]
    decreases |x|
  {
    if |x| > 2 {
      LastOfLayers(key, Combined(key, x));
    }
  }

  /** the root of the tree is the BLAKE3 hash of the data */
  lemma RootIsHash(key: Key, data: seq<byte>)
    requires data != []
    ensures var t := TreeOf(key, data);
            t.layers[|t.layers| - 1] != [] && t.Root() == Hash(key, data)
  {
    if |data| > CHUNK_LEN {
      LastOfLayers(key, ChunkCvs(key, data));
      LayeredIsRecursive(key, ChunkCvs(key, data));
    }
  }

  // ----- One level of a proof -----

  /** the other node of a pair */
  function Mate(i: nat): nat { if i % 2 == 1 then i - 1 else i + 1 }

  /** node i of a level with n nodes needs its sibling from the proof */
  predicate NeedsSibling(ks: seq<nat>, n: nat, i: nat) {
    Mate(i) !in ks && (i % 2 == 1 || i + 1 < n)
  }

  /** the siblings that the first p nodes need, in the order of the proof */
  function Siblings(ks: seq<nat>, n: nat, p: nat): seq<nat>
    requires p <= |ks|
  {
    if p == 0 then []
    else Siblings(ks, n, p - 1) + (if NeedsSibling(ks, n, ks[p - 1]) then [Mate(ks[p - 1])] else [])
  }

  function AllSiblings(ks: seq<nat>, n: nat): seq<nat> { Siblings(ks, n, |ks|) }

  lemma {:induction false} SiblingFrom(ks: seq<nat>, n: nat, p: nat, r: nat)
    requires p <= |ks| && r < |Siblings(ks, n, p)|
    ensures exists q: nat {:trigger ks[q]} :: q < p && NeedsSibling(ks, n, ks[q])
              && r == |Siblings(ks, n, q)| && Siblings(ks, n, p)[r] == Mate(ks[q])
  {
    if r < |Siblings(ks, n, p - 1)| {
      SiblingFrom(ks, n, p - 1, r);
    } else {
      assert ks[p - 1] == ks[p - 1];
    }
  }

  lemma {:induction false} SiblingAt(ks: seq<nat>, n: nat, p: nat, q: nat)
    requires q < p <= |ks| && NeedsSibling(ks, n, ks[q])
    ensures |Siblings(ks, n, q)| < |Siblings(ks, n, p)| && Siblings(ks, n, p)[|Siblings(ks, n, q)|] == Mate(ks[q])
  {
    if q < p - 1 {
      SiblingAt(ks, n, p - 1, q);
    }
  }

  lemma {:induction false} SiblingsGrow(ks: seq<nat>, n: nat, q: nat, p: nat)
    requires q <= p <= |ks|
    ensures |Siblings(ks, n, q)| <= |Siblings(ks, n, p)|
  {
    if q < p {
      SiblingsGrow(ks, n, q, p - 1);
    }
  }

  /** where the proof holds the sibling x; the first place, as every sibling has only one */
  function IndexOf(s: seq<nat>, x: nat): (r: nat)
    ensures r <= |s| && (r < |s| ==> s[r] == x)
  {
    if s == [] || s[0] == x then 0 else 1 + IndexOf(s[1..], x)
  }

  lemma {:induction false} IndexOfUnique(s: seq<nat>, r: nat)
    requires r < |s| && forall q :: 0 <= q < r ==> s[q] != s[r]
    ensures IndexOf(s, s[r]) == r
  {
    if r > 0 {
      IndexOfUnique(s[1..], r - 1);
    }
  }

  lemma PlaceOfSibling(ks: seq<nat>, n: nat, q: nat)
    requires Increasing(ks) && q < |ks| && NeedsSibling(ks, n, ks[q])
    ensures IndexOf(AllSiblings(ks, n), Mate(ks[q])) == |Siblings(ks, n, q)| < |AllSiblings(ks, n)|
  {
    SiblingAt(ks, n, |ks|, q);
    SiblingsPrefix(ks, n, q, |ks|);
    var s, r := AllSiblings(ks, n), |Siblings(ks, n, q)|;
    forall r' | 0 <= r' < r
      ensures s[r'] != s[r]
    {
      SiblingFrom(ks, n, q, r');
      var q': nat :| q' < q && Siblings(ks, n, q)[r'] == Mate(ks[q']);
      DifferentMates(ks[q'], ks[q]);
    }
    IndexOfUnique(s, r);
  }

  lemma DifferentMates(i: nat, j: nat)
    requires i != j
    ensures Mate(i) != Mate(j)
  {
  }

  lemma {:induction false} SiblingsPrefix(ks: seq<nat>, n: nat, q: nat, p: nat)
    requires q <= p <= |ks|
    ensures Siblings(ks, n, q) <= Siblings(ks, n, p)
  {
    if q < p {
      SiblingsPrefix(ks, n, q, p - 1);
    }
  }

  function At(s: seq<Digest>, r: nat): Digest { if r < |s| then s[r] else Bytes(0) }

  /** one of the nodes of pair j is there */
  predicate HasPair(m: map<nat, Digest>, j: nat) { 2 * j in m || 2 * j + 1 in m }

  /** node j of the next level, from the nodes `m` of this one and the siblings `s` of the proof */
  function PairValue(key: Key, m: map<nat, Digest>, ks: seq<nat>, n: nat, s: seq<Digest>, j: nat): Digest
    requires HasPair(m, j)
  {
    if 2 * j !in m then Parent(key, At(s, IndexOf(AllSiblings(ks, n), 2 * j)), m[2 * j + 1])
    else if 2 * j + 1 in m then Parent(key, m[2 * j], m[2 * j + 1])
    else if 2 * j + 1 < n then Parent(key, m[2 * j], At(s, IndexOf(AllSiblings(ks, n), 2 * j + 1)))
    else m[2 * j]
  }

  /** the nodes `m` of a level, with `ks` as the order of its keys */
  ghost predicate Level(ks: seq<nat>, m: map<nat, Digest>) {
    Increasing(ks) && forall i {:trigger i in ks} {:trigger i in m} :: i in ks <==> i in m
  }

  /** the nodes of the next level above the nodes in `done` */
  ghost predicate Paired(key: Key, m: map<nat, Digest>, ks: seq<nat>, n: nat, s: seq<Digest>, done: seq<nat>,
                         next: map<nat, Digest>) {
    && Level(done, next)
    && forall j {:trigger j in next} :: j in next ==>
         HasPair(m, j) && next[j] == PairValue(key, m, ks, n, s, j)
  }

  ghost function PairUp(key: Key, m: map<nat, Digest>, ks: seq<nat>, n: nat, s: seq<Digest>): map<nat, Digest>
    requires Level(ks, m)
  {
    map j | j in Parents(ks) :: if HasPair(m, j) then PairValue(key, m, ks, n, s, j) else Bytes(0)
  }

  lemma ParentsOfLevel(ks: seq<nat>, m: map<nat, Digest>)
    requires Level(ks, m)
    ensures forall j {:trigger j in Parents(ks)} :: j in Parents(ks) <==> HasPair(m, j)
  {
    ParentsAre(ks);
    forall j: nat | HasPair(m, j)
      ensures j in Parents(ks)
    {
      if 2 * j in m {
        assert 2 * j in ks && (2 * j) / 2 == j;
      } else {
        assert 2 * j + 1 in ks && (2 * j + 1) / 2 == j;
      }
    }
  }

  lemma PairedAll(key: Key, m: map<nat, Digest>, ks: seq<nat>, n: nat, s: seq<Digest>, next: map<nat, Digest>)
    requires Level(ks, m)
    ensures Level(Parents(ks), PairUp(key, m, ks, n, s))
    ensures Paired(key, m, ks, n, s, Parents(ks), next) <==> next == PairUp(key, m, ks, n, s)
  {
    ParentsAre(ks);
    ParentsOfLevel(ks, m);
    var u := PairUp(key, m, ks, n, s);
    assert Paired(key, m, ks, n, s, Parents(ks), u);
    if Paired(key, m, ks, n, s, Parents(ks), next) {
      forall j
        ensures j in next <==> j in u
      {
        assert j in next <==> j in Parents(ks);
      }
      assert next.Keys == u.Keys;
    }
  }

  // ----- The root that a proof leads to -----

  /** The root from the nodes `m` of a level with n nodes and the siblings that are left; no root when
      there are too few or too many siblings. */
  ghost function RootFrom(key: Key, ks: seq<nat>, m: map<nat, Digest>, n: nat, s: seq<Digest>): Option<Digest>
    requires Level(ks, m)
    decreases n
  {
    if n > 2 then
      var used := |AllSiblings(ks, n)|;
      if |s| < used then None
      else
        PairedAll(key, m, ks, n, s, PairUp(key, m, ks, n, s));
        RootFrom(key, Parents(ks), PairUp(key, m, ks, n, s), (n + 1) / 2, s[used..])
    else
      var missing := (if 0 in m then 0 else 1) + (if 1 in m then 0 else 1);
      if |s| != missing then None
      else Some(Root(key, if 0 in m then m[0] else s[0], if 1 in m then m[1] else s[missing - 1]))
  }

  function Pairs(p: MerkleProof): nat { Min(|p.leafIndices|, |p.leafData|) }

  function LeafCvs(key: Key, p: MerkleProof, k: nat): map<nat, Digest>
    requires k <= Pairs(p)
  {
    if k == 0 then map[] else LeafCvs(key, p, k - 1)[p.leafIndices[k - 1] :=
      ChunkCv(key, p.leafData[k - 1], p.leafIndices[k - 1])]
  }

  lemma {:induction false} LeafLevel(key: Key, p: MerkleProof, k: nat)
    requires k <= Pairs(p)
    ensures Level(Collected(p.leafIndices[..k]), LeafCvs(key, p, k))
  {
    if k > 0 {
      LeafLevel(key, p, k - 1);
      LeafKeysNext(p, k - 1);
      InsertedIsOrdered(Collected(p.leafIndices[..k - 1]), p.leafIndices[k - 1]);
    }
  }

  lemma LeafKeysNext(p: MerkleProof, k: nat)
    requires k < |p.leafIndices|
    ensures Collected(p.leafIndices[..k + 1]) == Inserted(Collected(p.leafIndices[..k]), p.leafIndices[k])
  {
    assert p.leafIndices[..k + 1][..k] == p.leafIndices[..k];
  }

  ghost function ProofRoot(key: Key, p: MerkleProof): Option<Digest> {
    if p.leafIndices == [] then None
    else
      var ks, m := Collected(p.leafIndices[..Pairs(p)]), LeafCvs(key, p, Pairs(p));
      LeafLevel(key, p, Pairs(p));
      if p.totalLeaves == 1 then (if p.siblings == [] && 0 in m then Some(m[0]) else None)
      else RootFrom(key, ks, m, p.totalLeaves, p.siblings)
  }

  /** the node above node i and the number of siblings used by now; `None` when a sibling is missing */
  method NextNode(key: Key, ghost ks: seq<nat>, m: map<nat, Digest>, n: nat, s: seq<Digest>, i: nat,
                  pos: nat) returns (r: Option<(Digest, nat)>)
    requires Level(ks, m) && i in m && (i % 2 == 1 ==> i - 1 !in m)
    requires NeedsSibling(ks, n, i) ==> IndexOf(AllSiblings(ks, n), Mate(i)) == pos
    ensures r.None? <==> NeedsSibling(ks, n, i) && pos >= |s|
    ensures r.Some? ==> r.value.1 == if NeedsSibling(ks, n, i) then pos + 1 else pos
    ensures r.Some? ==> HasPair(m, i / 2) && r.value.0 == PairValue(key, m, ks, n, s, i / 2)
  {
    if i % 2 == 0 {
      assert 2 * (i / 2) == i;
      var left := m[i];
      if i + 1 in m {
        return Some((Parent(key, left, m[i + 1]), pos));
      }
      if i + 1 < n {
        if pos >= |s| {
          return None;
        }
        return Some((Parent(key, left, s[pos]), pos + 1));
      }
      return Some((left, pos));
    }
    assert 2 * (i / 2) + 1 == i;
    var right := m[i];
    if pos >= |s| {
      return None;
    }
    return Some((Parent(key, s[pos], right), pos + 1));
  }

  /** the loop over one level; `None` when a sibling is missing */
  method NextLevel(key: Key, ks: seq<nat>, m: map<nat, Digest>, n: nat,
                   s: seq<Digest>) returns (r: Option<(seq<nat>, map<nat, Digest>, nat)>)
    requires Level(ks, m)
    ensures r.None? <==> |s| < |AllSiblings(ks, n)|
    ensures r.Some? ==> r.value == (Parents(ks), PairUp(key, m, ks, n, s), |AllSiblings(ks, n)|)
  {
    var done: seq<nat>, next: map<nat, Digest>, pos := [], map[], 0;
    LevelStart(key, m, ks, n, s);
    for p := 0 to |ks|
      invariant LevelState(key, m, ks, n, s, p, done, next, pos)
    {
      var i := ks[p];
      assert i in ks;
      if i % 2 == 1 && i - 1 in m {
        PassedOver(key, m, ks, n, s, p, done, next, pos);
      } else {
        var step := Advance(key, ks, m, n, s, p, done, next, pos);
        if step.None? {
          return None;
        }
        done, next, pos := step.value.0, step.value.1, step.value.2;
      }
    }
    LevelEnd(key, m, ks, n, s, done, next, pos);
    return Some((done, next, pos));
  }

  /** one node of the level, and the state after it */
  method Advance(key: Key, ks: seq<nat>, m: map<nat, Digest>, n: nat, s: seq<Digest>, p: nat, done: seq<nat>,
                 next: map<nat, Digest>, pos: nat)
    returns (r: Option<(seq<nat>, map<nat, Digest>, nat)>)
    requires Level(ks, m) && p < |ks| && LevelState(key, m, ks, n, s, p, done, next, pos)
             && !(ks[p] % 2 == 1 && ks[p] - 1 in m)
    ensures r.None? ==> |s| < |AllSiblings(ks, n)|
    ensures r.Some? ==> LevelState(key, m, ks, n, s, p + 1, r.value.0, r.value.1, r.value.2)
  {
    var i := ks[p];
    assert i in ks;
    NodeReady(key, m, ks, n, s, p, done, next, pos);
    var node := NextNode(key, ks, m, n, s, i, pos);
    if node.None? {
      return None;
    }
    return Some((Inserted(done, i / 2), next[i / 2 := node.value.0], node.value.1));
  }

  /** after the first p nodes of a level */
  ghost predicate LevelState(key: Key, m: map<nat, Digest>, ks: seq<nat>, n: nat, s: seq<Digest>, p: nat,
                             done: seq<nat>, next: map<nat, Digest>, pos: nat) {
    && p <= |ks| && done == Parents(ks[..p]) && Paired(key, m, ks, n, s, done, next)
    && pos == |Siblings(ks, n, p)| <= |s|
  }

  lemma LevelStart(key: Key, m: map<nat, Digest>, ks: seq<nat>, n: nat, s: seq<Digest>)
    ensures LevelState(key, m, ks, n, s, 0, [], map[], 0)
  {
    assert ks[..0] == [] && Parents([]) == [];
  }

  /** an odd node whose left neighbour is known was done with it */
  lemma PassedOver(key: Key, m: map<nat, Digest>, ks: seq<nat>, n: nat, s: seq<Digest>, p: nat,
                   done: seq<nat>, next: map<nat, Digest>, pos: nat)
    requires Level(ks, m) && p < |ks| && LevelState(key, m, ks, n, s, p, done, next, pos) && ks[p] % 2 == 1
             && ks[p] - 1 in m
    ensures LevelState(key, m, ks, n, s, p + 1, done, next, pos)
  {
    PairDone(ks, p);
    hide Paired, Increasing;
    assert !NeedsSibling(ks, n, ks[p]);
  }

  /** for any other node, its place among the siblings, and what holds after it */
  lemma NodeReady(key: Key, m: map<nat, Digest>, ks: seq<nat>, n: nat, s: seq<Digest>, p: nat,
                  done: seq<nat>, next: map<nat, Digest>, pos: nat)
    requires Level(ks, m) && p < |ks| && LevelState(key, m, ks, n, s, p, done, next, pos)
    ensures var i := ks[p];
            && (NeedsSibling(ks, n, i) ==> IndexOf(AllSiblings(ks, n), Mate(i)) == pos < |AllSiblings(ks, n)|)
            && HasPair(m, i / 2)
            && (NeedsSibling(ks, n, i) ==> pos < |s| ==>
                  LevelState(key, m, ks, n, s, p + 1, Inserted(done, i / 2),
                    next[i / 2 := PairValue(key, m, ks, n, s, i / 2)], pos + 1))
            && (!NeedsSibling(ks, n, i) ==>
                  LevelState(key, m, ks, n, s, p + 1, Inserted(done, i / 2),
                    next[i / 2 := PairValue(key, m, ks, n, s, i / 2)], pos))
  {
    if NeedsSibling(ks, n, ks[p]) {
      PlaceOfSibling(ks, n, p);
    }
    NextEntry(key, m, ks, n, s, p, next);
    hide Paired, Increasing, PairValue;
  }

  lemma LevelEnd(key: Key, m: map<nat, Digest>, ks: seq<nat>, n: nat, s: seq<Digest>, done: seq<nat>, next: map<nat,
                 Digest>, pos: nat)
    requires Level(ks, m) && LevelState(key, m, ks, n, s, |ks|, done, next, pos)
    ensures done == Parents(ks) && next == PairUp(key, m, ks, n, s) && pos == |AllSiblings(ks, n)| <= |s|
  {
    assert ks[..|ks|] == ks;
    PairedAll(key, m, ks, n, s, next);
  }

  /** adding the entry of the pair of node p keeps the level */
  lemma NextEntry(key: Key, m: map<nat, Digest>, ks: seq<nat>, n: nat, s: seq<Digest>, p: nat, next: map<nat, Digest>)
    requires Level(ks, m) && p < |ks| && Paired(key, m, ks, n, s, Parents(ks[..p]), next)
    ensures var j := ks[p] / 2;
            && HasPair(m, j)
            && Parents(ks[..p + 1]) == Inserted(Parents(ks[..p]), j)
            && Paired(key, m, ks, n, s, Parents(ks[..p + 1]), next[j := PairValue(key, m, ks, n, s, j)])
  {
    assert ks[p] in ks;
    ParentsNext(ks, p);
    InsertedIsOrdered(Parents(ks[..p]), ks[p] / 2);
  }

  /** a right node whose left mate is there too adds nothing */
  lemma PairDone(ks: seq<nat>, p: nat)
    requires Increasing(ks) && p < |ks| && ks[p] % 2 == 1 && ks[p] - 1 in ks
    ensures Parents(ks[..p + 1]) == Parents(ks[..p])
  {
    ParentsNext(ks, p);
    ParentsAre(ks[..p]);
    ParentsAre(ks[..p + 1]);
    var q :| 0 <= q < |ks| && ks[q] == ks[p] - 1;
    assert q < p;
    assert ks[..p][q] in ks[..p] && (ks[p] - 1) / 2 == ks[p] / 2;
    InsertedIsOrdered(Parents(ks[..p]), ks[p] / 2);
    SameElements(Parents(ks[..p + 1]), Parents(ks[..p]));
  }

  method LeafLevelOf(key: Key, p: MerkleProof) returns (ks: seq<nat>, m: map<nat, Digest>)
    ensures ks == Collected(p.leafIndices[..Pairs(p)]) && m == LeafCvs(key, p, Pairs(p))
  {
    ks, m := [], map[];
    for k := 0 to Pairs(p)
      invariant ks == Collected(p.leafIndices[..k]) && m == LeafCvs(key, p, k)
    {
      LeafKeysNext(p, k);
      ks := Inserted(ks, p.leafIndices[k]);
      m := m[p.leafIndices[k] := ChunkCv(key, p.leafData[k], p.leafIndices[k])];
    }
  }

  /** The source panics on a proof for a single leaf that has no leaf 0. */
  method ComputeRoot(key: Key, p: MerkleProof) returns (r: Option<Digest>)
    requires p.totalLeaves == 1 && p.siblings == [] && p.leafIndices != [] ==> 0 in p.leafIndices[..Pairs(p)]
    ensures r == ProofRoot(key, p)
  {
    if p.leafIndices == [] {
      return None;
    }
    var current, m := LeafLevelOf(key, p);
    LeafLevel(key, p, Pairs(p));
    CollectedIsOrdered(p.leafIndices[..Pairs(p)]);
    var levelLen: nat := p.totalLeaves;
    if levelLen == 1 {
      return if p.siblings == [] then Some(m[0]) else None;
    }
    var sibs := p.siblings;
    while levelLen > 2
      invariant Level(current, m) && levelLen != 1
      invariant RootFrom(key, current, m, levelLen, sibs) == ProofRoot(key, p)
    {
      PairedAll(key, m, current, levelLen, sibs, PairUp(key, m, current, levelLen, sibs));
      var next := NextLevel(key, current, m, levelLen, sibs);
      if next.None? {
        return None;
      }
      current, m, sibs := next.value.0, next.value.1, sibs[next.value.2..];
      levelLen := (levelLen + 1) / 2;
    }
    var left, right;
    if 0 in m {
      left := m[0];
    } else if sibs == [] {
      return None;
    } else {
      left, sibs := sibs[0], sibs[1..];
    }
    if 1 in m {
      right := m[1];
    } else if sibs == [] {
      return None;
    } else {
      right, sibs := sibs[0], sibs[1..];
    }
    if sibs != [] {
      return None;
    }
    return Some(Root(key, left, right));
  }

  method Verify(key: Key, p: MerkleProof) returns (ok: bool)
    requires p.totalLeaves == 1 && p.siblings == [] && p.leafIndices != [] ==> 0 in p.leafIndices[..Pairs(p)]
    ensures ok <==> ProofRoot(key, p) == Some(p.root)
  {
    var r := ComputeRoot(key, p);
    ok := r == Some(p.root);
  }
}
