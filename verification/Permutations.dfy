/** Rearranged sequences, given by the index each element comes from. */
module Permutations {

  /** where the element at index `k` of a rearranged sequence comes from */
  ghost function From(length: nat, source: nat -> nat, k: nat): (r: nat)
    ensures k < length ==> r < length
  {
    if source(k) < length then source(k) else k
  }

  ghost function RearrangedPrefix<T>(a: seq<T>, source: nat -> nat, n: nat): (r: seq<T>)
    requires n <= |a|
    ensures |r| == n
  {
    if n == 0 then [] else RearrangedPrefix(a, source, n - 1) + [a[From(|a|, source, n - 1)]]
  }

  /** `a` with the element of index `k` taken from index `source(k)` */
  ghost function Rearranged<T>(a: seq<T>, source: nat -> nat): (r: seq<T>)
    ensures |r| == |a|
  {
    RearrangedPrefix(a, source, |a|)
  }

  lemma {:induction false} RearrangedPrefixAt<T>(a: seq<T>, source: nat -> nat, n: nat, k: nat)
    requires k < n <= |a|
    ensures RearrangedPrefix(a, source, n)[k] == a[From(|a|, source, k)]
  {
    if k < n - 1 {
      RearrangedPrefixAt(a, source, n - 1, k);
    }
  }

  lemma RearrangedAt<T>(a: seq<T>, source: nat -> nat)
    ensures forall k {:trigger Rearranged(a, source)[k]} ::
              0 <= k < |a| ==> Rearranged(a, source)[k] == a[From(|a|, source, k)]
  {
    forall k | 0 <= k < |a|
      ensures Rearranged(a, source)[k] == a[From(|a|, source, k)]
    {
      RearrangedPrefixAt(a, source, |a|, k);
    }
  }

  lemma RearrangedSame<T>(a: seq<T>, source: nat -> nat, source': nat -> nat)
    requires forall k :: 0 <= k < |a| ==> From(|a|, source, k) == From(|a|, source', k)
    ensures Rearranged(a, source) == Rearranged(a, source')
  {
    RearrangedAt(a, source);
    RearrangedAt(a, source');
  }

  lemma RearrangedId<T>(a: seq<T>, source: nat -> nat)
    requires forall k :: 0 <= k < |a| ==> From(|a|, source, k) == k
    ensures Rearranged(a, source) == a
  {
    RearrangedAt(a, source);
  }

  /** `s` with the elements of indices `p` and `q` exchanged */
  function SwappedAt<T>(s: seq<T>, p: nat, q: nat): (r: seq<T>)
    requires p < |s| && q < |s|
    ensures |r| == |s|
  {
    s[p := s[q]][q := s[p]]
  }

  method Swap<T>(arr: array<T>, p: nat, q: nat)
    requires p < arr.Length && q < arr.Length
    modifies arr
    ensures arr[..] == SwappedAt(old(arr[..]), p, q)
  {
    arr[p], arr[q] := arr[q], arr[p];
  }
}
