/** The Merkle root that the miner computes on the GPU: one kernel for the leaves, then one launch per
    layer between two buffers of a scratchpad. */
module TensorHashes {
  import opened Arithmetic
  import opened Blake3

  /** what thread j of the layer kernel writes */
  ghost function Node(key: Key, prev: seq<Digest>, isTopPairRoot: bool, j: nat): Digest
    requires j < (|prev| + 1) / 2
  {
    if 2 * j + 1 == |prev| then prev[2 * j]
    else if isTopPairRoot then Root(key, prev[2 * j], prev[2 * j + 1])
    else Parent(key, prev[2 * j], prev[2 * j + 1])
  }

  lemma NodesAreCombined(key: Key, prev: seq<Digest>)
    ensures |Combined(key, prev)| == (|prev| + 1) / 2
    ensures forall j: nat :: j < (|prev| + 1) / 2 ==> Combined(key, prev)[j] == Node(key, prev, false, j)
  {
  }

  lemma LayersGiveHash(key: Key, data: seq<byte>)
    requires NumChunks(|data|) >= 2
    ensures LayeredRoot(key, ChunkCvs(key, data)) == Hash(key, data)
  {
    hide LayeredRoot, TreeRoot;
    LayeredIsRecursive(key, ChunkCvs(key, data));
  }

  lemma LayeredStep(key: Key, x: seq<Digest>)
    requires |x| > 2
    ensures |Combined(key, x)| == (|x| + 1) / 2
    ensures LayeredRoot(key, x) == LayeredRoot(key, Combined(key, x))
  {
  }

  lemma LayeredPair(key: Key, x: seq<Digest>)
    requires |x| == 2
    ensures LayeredRoot(key, x) == Root(key, x[0], x[1])
  {
  }

  /** nothing from `limit` on has changed */
  ghost predicate SameFrom(s: seq<Digest>, t: seq<Digest>, limit: nat) {
    |s| == |t| && forall k :: limit <= k < |s| ==> t[k] == s[k]
  }

  lemma SameFromItself(s: seq<Digest>, limit: nat)
    ensures SameFrom(s, s, limit)
  {
  }

  lemma SameFromSteps(s: seq<Digest>, t: seq<Digest>, u: seq<Digest>, limit: nat)
    requires SameFrom(s, t, limit) && SameFrom(t, u, limit)
    ensures SameFrom(s, u, limit)
  {
  }

  /** The scratchpad, counted in digests of eight 32-bit words. */
  class TensorHash {
    const scratch: array<Digest>

    /** room for two buffers of one digest per chunk, and at least 16 words */
    constructor (maxBytes: nat)
      ensures fresh(scratch) && scratch.Length >= 2
      ensures forall len: nat :: len <= maxBytes ==> 2 * NumChunks(len) <= scratch.Length
    {
      var maxChunks := NumChunks(maxBytes);
      scratch := new Digest[if 2 * maxChunks < 2 then 2 else 2 * maxChunks](_ => Bytes(0));
    }

    /** the leaf kernel: one thread per chunk */
    method ChunkCvKernel(data: seq<byte>, key: Key, leafCvs: nat)
      requires leafCvs + NumChunks(|data|) <= scratch.Length
      modifies scratch
      ensures scratch[leafCvs..leafCvs + NumChunks(|data|)] == ChunkCvs(key, data)
      ensures forall k :: 0 <= k < scratch.Length && !(leafCvs <= k < leafCvs + NumChunks(|data|)) ==>
                scratch[k] == old(scratch[k])
    {
      for i := 0 to NumChunks(|data|)
        invariant forall k :: leafCvs <= k < leafCvs + i ==> scratch[k] == ChunkCvs(key, data)[k - leafCvs]
        invariant forall k :: 0 <= k < scratch.Length && !(leafCvs <= k < leafCvs + i) ==> scratch[k] == old(scratch[k])
      {
        scratch[leafCvs + i] := ChunkCv(key, ChunkAt(data, i), i);
      }
    }

    /** the layer kernel: one thread per pair, and one that carries an odd last node up */
    method MerkleLayerKernel(inBuf: nat, n: nat, key: Key, isTopPairRoot: bool, outBuf: nat)
      requires n >= 2 && (isTopPairRoot ==> n == 2)
      requires inBuf + n <= scratch.Length && outBuf + (n + 1) / 2 <= scratch.Length
      requires inBuf + n <= outBuf || outBuf + (n + 1) / 2 <= inBuf
      modifies scratch
      ensures isTopPairRoot ==> scratch[outBuf] == Root(key, old(scratch[inBuf]), old(scratch[inBuf + 1]))
      ensures !isTopPairRoot ==> scratch[outBuf..outBuf + (n + 1) / 2] == Combined(key, old(scratch[inBuf..inBuf + n]))
      ensures forall k :: 0 <= k < scratch.Length && !(outBuf <= k < outBuf + (n + 1) / 2) ==>
                scratch[k] == old(scratch[k])
    {
      ghost var prev := scratch[inBuf..inBuf + n];
      for j := 0 to (n + 1) / 2
        invariant forall k :: 0 <= k < scratch.Length && !(outBuf <= k < outBuf + j) ==> scratch[k] == old(scratch[k])
        invariant forall k :: outBuf <= k < outBuf + j ==> scratch[k] == Node(key, prev, isTopPairRoot, k - outBuf)
      {
        var left := scratch[inBuf + 2 * j];
        assert left == prev[2 * j];
        if 2 * j + 1 == n {
          scratch[outBuf + j] := left;
        } else {
          var right := scratch[inBuf + (2 * j + 1)];
          assert right == prev[2 * j + 1];
          scratch[outBuf + j] := if isTopPairRoot then Root(key, left, right) else Parent(key, left, right);
        }
      }
      if isTopPairRoot {
        assert scratch[outBuf] == Node(key, prev, true, 0);
      } else {
        NodesAreCombined(key, prev);
        hide Node, Combined;
        assert scratch[outBuf..outBuf + (n + 1) / 2] == Combined(key, prev);
      }
    }


    /** a launch for one layer below the top pair, between two buffers that end before `limit` */
    method LaunchLayer(inBuf: nat, n: nat, key: Key, outBuf: nat, ghost limit: nat)
      requires n >= 3 && inBuf + n <= limit <= scratch.Length && outBuf + n <= limit
      requires inBuf + n <= outBuf || outBuf + n <= inBuf
      modifies scratch
      ensures LayeredRoot(key, scratch[outBuf..outBuf + (n + 1) / 2])
              == old(LayeredRoot(key, scratch[inBuf..inBuf + n]))
      ensures SameFrom(old(scratch[..]), scratch[..], limit)
    {
      LayeredStep(key, scratch[inBuf..inBuf + n]);
      hide LayeredRoot, Combined;
      MerkleLayerKernel(inBuf, n, key, false, outBuf);
    }

    /** the last launch, which merges the two nodes below the root */
    method LaunchTop(inBuf: nat, key: Key, outBuf: nat, ghost limit: nat) returns (out: Digest)
      requires inBuf + 2 <= limit <= scratch.Length && outBuf + 2 <= limit
      requires inBuf + 2 <= outBuf || outBuf + 2 <= inBuf
      modifies scratch
      ensures out == old(LayeredRoot(key, scratch[inBuf..inBuf + 2]))
      ensures SameFrom(old(scratch[..]), scratch[..], limit)
    {
      LayeredPair(key, scratch[inBuf..inBuf + 2]);
      hide LayeredRoot, Combined;
      MerkleLayerKernel(inBuf, 2, key, true, outBuf);
      out := scratch[outBuf];
    }

    /** the launches from the leaf digests at the start of the scratchpad to the root */
    method LaunchLayers(numChunks: nat, key: Key) returns (out: Digest)
      requires numChunks >= 2 && 2 * numChunks <= scratch.Length
      modifies scratch
      ensures out == old(LayeredRoot(key, scratch[..numChunks]))
      ensures SameFrom(old(scratch[..]), scratch[..], 2 * numChunks)
    {
      hide LayeredRoot, Combined, SameFrom;
      ghost var was := scratch[..];
      SameFromItself(was, 2 * numChunks);
      var inBuf, outBuf, size := 0, numChunks, numChunks;
      assert scratch[0..size] == scratch[..numChunks];
      while size > 2
        invariant 2 <= size <= numChunks
        invariant inBuf + outBuf == numChunks && (inBuf == 0 || outBuf == 0)
        invariant LayeredRoot(key, scratch[inBuf..inBuf + size]) == old(LayeredRoot(key, scratch[..numChunks]))
        invariant SameFrom(was, scratch[..], 2 * numChunks)
      {
        var numPairs, hasOrphan := size / 2, size % 2;
        ghost var now := scratch[..];
        LaunchLayer(inBuf, size, key, outBuf, 2 * numChunks);
        SameFromSteps(was, now, scratch[..], 2 * numChunks);
        inBuf, outBuf, size := outBuf, inBuf, numPairs + hasOrphan;
      }
      ghost var now := scratch[..];
      out := LaunchTop(inBuf, key, outBuf, 2 * numChunks);
      SameFromSteps(was, now, scratch[..], 2 * numChunks);
    }

    /** The two assertions at the start of the source are preconditions; the number of chunks is
        passed on as a 32-bit integer. */
    method Launch(data: seq<byte>, key: Key) returns (out: Digest)
      requires |data| > 0 && |data| % CHUNK_LEN == 0 && NumChunks(|data|) < 0x8000_0000
      requires 2 * NumChunks(|data|) <= scratch.Length
      modifies scratch
      ensures out == Hash(key, data)
      ensures SameFrom(old(scratch[..]), scratch[..], 2 * NumChunks(|data|))
    {
      hide LayeredRoot, Combined, ChunkCvs;
      var numChunks := |data| / CHUNK_LEN;
      assert numChunks == NumChunks(|data|);
      if numChunks == 1 {
        scratch[0] := RootChunk(key, data);
        return scratch[0];
      }
      ghost var was := scratch[..];
      ChunkCvKernel(data, key, 0);
      LayersGiveHash(key, data);
      ghost var now := scratch[..];
      assert SameFrom(was, now, 2 * numChunks);
      assert scratch[..numChunks] == scratch[0..0 + numChunks];
      out := LaunchLayers(numChunks, key);
      SameFromSteps(was, now, scratch[..], 2 * numChunks);
    }
  }
}
