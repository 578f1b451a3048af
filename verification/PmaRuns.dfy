/** Whole runs of a clustered array from its construction on. */
module PmaRuns {
  import opened Sequences
  import opened Powers
  import opened ClusteredPma
  import DensityBounds

  /** What the source's constructor does with any size: refuse it or make an array, which is a valid one exactly
      for a power of two. */
  method Create(segmentSize: nat, fixed: bool, bounds: DensityBounds.Bounds) returns (pma: BTreePMA?)
    requires Configured(bounds)
    ensures pma == null <==> !Admitted(segmentSize)
    ensures pma != null ==> pma.cardinality == 0 && (pma.Valid() <==> PowerOfTwo(segmentSize))
    ensures pma != null && PowerOfTwo(segmentSize) ==> HasExactly(pma.Keys(), pma.Values(), [])
    ensures pma != null ==> fresh(pma) && fresh(pma.keys) && fresh(pma.values) && fresh(pma.cards) && fresh(pma.densities)
  {
    hide BTreePMA.Valid, BTreePMA.Shape, HasExactly;
    if Hyperceil(segmentSize) > MAX_SEGMENT_SIZE || Hyperceil(segmentSize) < STORAGE_MIN_CAPACITY {
      return null;
    }
    pma := new BTreePMA(segmentSize, fixed, bounds);
    NothingYet();
  }

  /** The pairs as they are found by their keys. */
  ghost predicate HasExactly(ks: seq<int>, vs: seq<int>, pairs: seq<(int, int)>) {
    && |ks| == |vs| == |pairs| && Ascending(ks)
    && (forall x | x in pairs :: x.0 in ks)
    && (forall i | 0 <= i < |ks| :: (ks[i], vs[i]) in pairs)
  }

  lemma HasOneMore(ks: seq<int>, vs: seq<int>, pairs: seq<(int, int)>, x: (int, int))
    requires HasExactly(ks, vs, pairs) && x.0 !in ks
    ensures var p := FirstGeq(ks, x.0); HasExactly(InsertAt(ks, p, x.0), InsertAt(vs, p, x.1), pairs + [x])
  {
    hide Ascending, FirstGeq, InsertAt;
    var p := FirstGeq(ks, x.0);
    AscendingInsert(ks, x.0);
    PairKept(ks, vs, p, x, pairs);
    forall y | y in pairs + [x] ensures y.0 in InsertAt(ks, p, x.0) {
      KeyKept(ks, p, x.0, y.0);
      assert y in pairs || y == x;
    }
  }

  lemma PairKept(ks: seq<int>, vs: seq<int>, p: nat, x: (int, int), pairs: seq<(int, int)>)
    requires |ks| == |vs| && p <= |ks| && forall i | 0 <= i < |ks| :: (ks[i], vs[i]) in pairs
    ensures |InsertAt(ks, p, x.0)| == |InsertAt(vs, p, x.1)| == |ks| + 1
    ensures forall i | 0 <= i <= |ks| :: (InsertAt(ks, p, x.0)[i], InsertAt(vs, p, x.1)[i]) in pairs + [x]
  {
  }

  lemma KeyKept(ks: seq<int>, p: nat, k: int, y: int)
    requires p <= |ks|
    ensures y in InsertAt(ks, p, k) <==> y in ks || y == k
  {
  }

  ghost predicate KeysDiffer(pairs: seq<(int, int)>) {
    forall i, j | 0 <= i < j < |pairs| :: pairs[i].0 != pairs[j].0
  }

  /** Every run of insertions of distinct keys, from a new array on: the array is valid all the time, and
      in the end its segments, read in order, hold exactly the inserted pairs in key order. */
  method InsertAll(segmentSize: nat, fixed: bool, bounds: DensityBounds.Bounds, pairs: seq<(int, int)>) returns (pma: BTreePMA)
    requires PowerOfTwo(segmentSize) && Admitted(segmentSize) && Configured(bounds)
    requires KeysDiffer(pairs)
    ensures pma.Valid() && pma.cardinality == |pairs| && HasExactly(pma.Keys(), pma.Values(), pairs)
  {
    hide BTreePMA.Valid, BTreePMA.Shape, HasExactly, KeysDiffer;
    pma := Create(segmentSize, fixed, bounds);
    var i := 0;
    assert pairs[..0] == [];
    while i < |pairs|
      invariant 0 <= i <= |pairs| && pma.Valid() && pma.cardinality == i && HasExactly(pma.Keys(), pma.Values(), pairs[..i])
      invariant fresh(pma) && fresh(pma.keys) && fresh(pma.values) && fresh(pma.cards) && fresh(pma.densities)
    {
      InsertNext(pma, pairs, i);
      i := i + 1;
    }
    assert pairs[..i] == pairs;
  }

  method InsertNext(pma: BTreePMA, pairs: seq<(int, int)>, i: nat)
    requires i < |pairs| && KeysDiffer(pairs) && pma.Valid() && HasExactly(pma.Keys(), pma.Values(), pairs[..i])
    modifies pma, pma.keys, pma.values, pma.cards, pma.densities
    ensures pma.Valid() && pma.cardinality == old(pma.cardinality) + 1 && HasExactly(pma.Keys(), pma.Values(), pairs[..i + 1])
    ensures (pma.keys == old(pma.keys) && pma.values == old(pma.values) && pma.cards == old(pma.cards))
            || (fresh(pma.keys) && fresh(pma.values) && fresh(pma.cards))
  {
    hide BTreePMA.Valid, BTreePMA.Shape, FirstGeq, InsertAt, HasExactly;
    NewKey(pma.Keys(), pma.Values(), pairs, i);
    HasOneMore(pma.Keys(), pma.Values(), pairs[..i], pairs[i]);
    assert pairs[..i + 1] == pairs[..i] + [pairs[i]];
    pma.Insert(pairs[i].0, pairs[i].1);
  }

  lemma NothingYet()
    ensures HasExactly([], [], [])
  {
  }

  lemma NewKey(ks: seq<int>, vs: seq<int>, pairs: seq<(int, int)>, i: nat)
    requires i < |pairs| && HasExactly(ks, vs, pairs[..i]) && KeysDiffer(pairs)
    ensures pairs[i].0 !in ks
  {
  }

  /** Afterwards find returns the value that was inserted with the key, and a range query its aggregate. */
  method FindInserted(pma: BTreePMA, pairs: seq<(int, int)>, x: (int, int)) returns (value: int)
    requires pma.Valid() && HasExactly(pma.Keys(), pma.Values(), pairs) && KeysDiffer(pairs)
    ensures x in pairs ==> value == x.1
    ensures (forall y | y in pairs :: y.0 != x.0) ==> value == -1
  {
    hide BTreePMA.Shape, Holds;
    value := pma.Find(x.0);
    FoundValue(pma.Keys(), pma.Values(), pairs, x);
  }

  lemma FoundValue(ks: seq<int>, vs: seq<int>, pairs: seq<(int, int)>, x: (int, int))
    requires HasExactly(ks, vs, pairs) && KeysDiffer(pairs)
    ensures var p := FirstGeq(ks, x.0); x in pairs ==> x.0 in ks && p < |ks| && vs[p] == x.1
    ensures (forall y | y in pairs :: y.0 != x.0) ==> x.0 !in ks
  {
  }
}
