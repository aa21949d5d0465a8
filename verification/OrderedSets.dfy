/** Ordered sets of indices: a `BTreeSet<usize>` is the strictly increasing list of its elements, in
    the order in which it is iterated. */
module OrderedSets {

  ghost predicate Increasing(s: seq<nat>) {
    forall i, j :: 0 <= i < j < |s| ==> s[i] < s[j]
  }

  lemma {:induction false} IncreasingBound(s: seq<nat>, k: nat)
    requires Increasing(s) && k < |s|
    ensures s[k] >= k
  {
    if k > 0 {
      IncreasingBound(s, k - 1);
    }
  }

  /** `insert` */
  function Inserted(s: seq<nat>, k: nat): seq<nat> {
    if s == [] || s[|s| - 1] < k then s + [k]
    else if s[|s| - 1] == k then s
    else Inserted(s[..|s| - 1], k) + [s[|s| - 1]]
  }

  lemma {:induction false} InsertedIsOrdered(s: seq<nat>, k: nat)
    requires Increasing(s)
    ensures Increasing(Inserted(s, k))
    ensures forall x :: x in Inserted(s, k) <==> x == k || x in s
  {
    if s != [] && k < s[|s| - 1] {
      var t := s[..|s| - 1];
      InsertedIsOrdered(t, k);
      assert s == t + [s[|s| - 1]];
      assert forall x :: x in t ==> x < s[|s| - 1];
      var r := Inserted(t, k);
      assert forall i :: 0 <= i < |r| ==> r[i] in r;
    }
  }

  /** the elements of a list collected into a set */
  function Collected(xs: seq<nat>): seq<nat> {
    if xs == [] then [] else Inserted(Collected(xs[..|xs| - 1]), xs[|xs| - 1])
  }

  lemma {:induction false} CollectedIsOrdered(xs: seq<nat>)
    ensures Increasing(Collected(xs))
    ensures forall x :: x in Collected(xs) <==> x in xs
  {
    if xs != [] {
      var t := xs[..|xs| - 1];
      CollectedIsOrdered(t);
      InsertedIsOrdered(Collected(t), xs[|xs| - 1]);
      assert xs == t + [xs[|xs| - 1]];
    }
  }

  /** a list that is increasing already is its own set */
  lemma {:induction false} CollectedIncreasing(xs: seq<nat>)
    requires Increasing(xs)
    ensures Collected(xs) == xs
  {
    if xs != [] {
      CollectedIncreasing(xs[..|xs| - 1]);
      assert xs == xs[..|xs| - 1] + [xs[|xs| - 1]];
    }
  }

  lemma AllButLast(s: seq<nat>)
    requires Increasing(s) && s != []
    ensures forall x :: x in s[..|s| - 1] <==> x in s && x != s[|s| - 1]
  {
    var a := |s| - 1;
    assert s == s[..a] + [s[a]];
    assert forall i :: 0 <= i < a ==> s[..a][i] == s[i];
  }

  /** an ordered set is determined by its elements */
  lemma {:induction false} SameElements(s: seq<nat>, t: seq<nat>)
    requires Increasing(s) && Increasing(t) && forall x :: x in s <==> x in t
    ensures s == t
  {
    if t != [] {
      assert t[0] in s;
    }
    if s != [] {
      assert s[|s| - 1] in t;
      var a, b := |s| - 1, |t| - 1;
      assert t[b] in s;
      assert s[a] == t[b];
      AllButLast(s);
      AllButLast(t);
      forall x
        ensures x in s[..a] <==> x in t[..b]
      {
        assert x in s <==> x in t;
      }
      SameElements(s[..a], t[..b]);
      assert s == s[..a] + [s[a]] && t == t[..b] + [t[b]];
    }
  }

  /** the halves of the elements, one for each pair */
  function Halved(ks: seq<nat>): (r: seq<nat>)
    ensures |r| == |ks| && forall p :: 0 <= p < |ks| ==> r[p] == ks[p] / 2
  {
    seq(|ks|, p requires 0 <= p < |ks| => ks[p] / 2)
  }

  function Parents(ks: seq<nat>): seq<nat> { Collected(Halved(ks)) }

  lemma ParentsAre(ks: seq<nat>)
    ensures Increasing(Parents(ks))
    ensures forall j :: j in Parents(ks) <==> exists i {:trigger i in ks} :: i in ks && i / 2 == j
    ensures ks != [] ==> Parents(ks) != []
  {
    CollectedIsOrdered(Halved(ks));
    forall i | i in ks
      ensures i / 2 in Parents(ks)
    {
      var p :| 0 <= p < |ks| && ks[p] == i;
      assert Halved(ks)[p] == i / 2;
    }
    forall j | j in Parents(ks)
      ensures exists i {:trigger i in ks} :: i in ks && i / 2 == j
    {
      var p :| 0 <= p < |ks| && Halved(ks)[p] == j;
      assert ks[p] in ks;
    }
    if ks != [] {
      assert ks[0] in ks;
    }
  }

  lemma ParentsNext(ks: seq<nat>, p: nat)
    requires p < |ks|
    ensures Parents(ks[..p + 1]) == Inserted(Parents(ks[..p]), ks[p] / 2)
  {
    var h := Halved(ks[..p + 1]);
    assert h[..p] == Halved(ks[..p]) && h[p] == ks[p] / 2;
  }
}
