/** BTreePMA_v2 as a whole: the packed array under the tree of its index. Whatever the splits on the way, the
    leaves of the tree read in order are the pointers, counts and separators that fit the array. */
module IndexedPma {
  import opened Sequences
  import opened LiveCells
  import opened PackedIndex
  import opened Trees
  import opened TreeScan
  import opened RangeSums
  import opened DynamicPma
  import opened Layout
  import opened Powers
  import PackedSegments
  import IndexTree

  function Entries(p: seq<nat>, c: seq<nat>): (es: seq<IndexTree.Entry>)
    requires |p| == |c|
    ensures |es| == |p|
  {
    seq(|p|, g requires 0 <= g < |p| => (p[g], c[g]))
  }

  /** The root may have fewer entries than other nodes. */
  function Least(levels: nat): (n: nat) {
    if levels == 0 then 1 else 2
  }

  /** The tree is within bounds and its leaves are the index of the array. */
  ghost predicate Rooted(b: IndexTree.Bounds, t: IndexTree.Node, levels: nat, p: seq<nat>, c: seq<nat>, k: seq<int>) {
    && |p| == |c| && IndexTree.Ok(b, t, levels, Least(levels), b.Upper(levels))
    && IndexTree.Flat(t) == IndexTree.Chain(Entries(p, c), k)
  }

  lemma SeparatorsOrdered(a: seq<Element>, c: seq<nat>, k: seq<int>)
    requires Separated(a, c, k) && Sorted(a) && forall g | 0 <= g < |c| :: 1 <= c[g]
    ensures IndexTree.Ordered(k)
  {
    forall i, j | 0 <= i < j < |k| ensures k[i] <= k[j] {
      assert SeparatedAt(a, c, k, i) && SeparatedAt(a, c, k, j);
      SumRises(c, i + 1, j + 1);
    }
  }

  /** What the tree takes over for the entry that has grown. */
  lemma Taken(b: IndexTree.Bounds, c: seq<nat>, k: seq<int>, c': seq<nat>, k': seq<int>, i: nat, most: nat, f: IndexTree.Chain, es: seq<IndexTree.Entry>, ss: seq<int>)
    requires i < |c| == |k| + 1 && Regrouped(c, k, c', k', i, most) && |f.entries| == |c| && f.seps == k
    requires |es| == |ss| + 1 && if |c'| == |c| then ss == [] else |k'| == |k| + 1 && ss == [k'[i]]
    ensures IndexTree.Replaced(f, i, es, ss).seps == k' && |IndexTree.Replaced(f, i, es, ss).entries| == |c'|
  {
    hide Halved;
    HalvedLength(c, i, c[i] + 1);
    assert k[..i] + [] + k[i..] == k;
  }

  lemma RegroupedLength(c: seq<nat>, k: seq<int>, c': seq<nat>, k': seq<int>, i: nat, most: nat)
    requires i < |c| == |k| + 1 && Regrouped(c, k, c', k', i, most) && |c'| == |k'| + 1
    ensures |c| <= |c'| <= |c| + 1 && |k'| == |k| + (|c'| - |c|)
  {
  }

  lemma HalvedLength(c: seq<nat>, i: nat, n: nat)
    requires i < |c|
    ensures |Halved(c[i := n], i, n / 2)| == |c| + 1
  {
  }

  lemma SizeWithin(b: IndexTree.Bounds, t: IndexTree.Node, h: nat, lo: nat, hi: nat)
    requires IndexTree.Ok(b, t, h, lo, hi)
    ensures lo <= IndexTree.Size(t) <= hi && (t.Leaf? <==> h == 0)
    ensures forall l: nat, u: nat :: l <= IndexTree.Size(t) <= u ==> IndexTree.Ok(b, t, h, l, u)
  {
  }

  lemma FirstEntry(b: IndexTree.Bounds)
    requires b.Valid()
    ensures Rooted(b, IndexTree.Leaf([(0, 1)], []), 0, [0], [1], [])
  {
    assert Entries([0], [1]) == [(0, 1)];
  }

  class IndexedPMA {
    const bounds: IndexTree.Bounds
    const pma: BTreePMA
    var root: IndexTree.Node
    ghost var levels: nat

    ghost predicate Valid()
      reads this, pma, pma.elements
    {
      && bounds.Valid() && pma.Valid()
      && if pma.cardinality == 0 then root == IndexTree.Leaf([], [])
         else Rooted(bounds, root, levels, pma.pointers, pma.cards, pma.separators)
    }

    /** An empty array under an index of one empty leaf. */
    constructor (bounds: IndexTree.Bounds, storageB: nat)
      requires bounds.Valid() && 4 <= storageB
      ensures Valid() && this.bounds == bounds && pma.storageB == storageB && pma.Contents() == [] && fresh(pma) && fresh(pma.elements)
    {
      this.bounds := bounds;
      root, levels := IndexTree.Leaf([], []), 0;
      pma := new BTreePMA(storageB);
    }

    /** What the source's constructor does with any bounds: refuse them or make an empty array. */
    static method Create(bounds: IndexTree.Bounds, storageA: nat, storageB: nat) returns (t: IndexedPMA?)
      ensures t == null <==> !bounds.Valid() || storageA <= 1 || storageB < 2 * storageA
      ensures t != null ==> fresh(t) && fresh(t.pma) && fresh(t.pma.elements) && t.Valid() && t.pma.Contents() == []
      ensures t != null ==> t.bounds == bounds && t.pma.storageB == storageB
    {
      if !bounds.Valid() || storageA <= 1 || storageB < 2 * storageA {
        return null;
      }
      t := new IndexedPMA(bounds, storageB);
    }

    /** The nodes of the tree: all but the root have between `a` and `b` entries, the root has at least two children
        unless it is a leaf. */
    lemma WithinBounds()
      requires Valid() && pma.cardinality != 0
      ensures match root
              case Leaf(entries, keys) => 1 <= |entries| <= bounds.lb
              case Inner(keys, kids) => 2 <= |kids| <= bounds.ib && forall i | 0 <= i < |kids| :: IndexTree.Within(bounds, kids[i])
    {
      IndexTree.NodesWithin(bounds, root, levels, Least(levels), bounds.Upper(levels));
    }

    /** What the array knows of its index, and that its separators ascend. */
    lemma IndexParts()
      requires Valid() && pma.cardinality != 0
      ensures |pma.pointers| == |pma.cards| == |pma.separators| + 1 && IndexTree.Ordered(pma.separators) && 1 <= Least(levels)
      ensures Rooted(bounds, root, levels, pma.pointers, pma.cards, pma.separators)
    {
      hide Alive, Sum, Ranks, Separated, Sorted, Base, PackedSegments.Segmented, PackedSegments.Roomy, IndexTree.Ok, IndexTree.Flat;
      HoldsParts(pma.elements[..], pma.segmentCapacity, Pow2(pma.height - 1), pma.cardinality, pma.pointers, pma.cards, pma.separators, pma.storageB);
      SeparatorsOrdered(Alive(pma.elements[..]), pma.cards, pma.separators);
    }

    /** The way of a key from the root to an entry. */
    method Search(key: int, right: bool) returns (g: nat)
      requires Valid() && pma.cardinality != 0
      ensures g < |pma.pointers| == |pma.cards| == |pma.separators| + 1 && IndexTree.Reached(pma.separators, g, key, right)
      ensures Rooted(bounds, root, levels, pma.pointers, pma.cards, pma.separators) && IndexTree.Ordered(pma.separators)
    {
      hide IndexTree.Ok, IndexTree.Flat, IndexTree.Ordered, IndexTree.Reached;
      IndexParts();
      g := IndexTree.Search(bounds, root, key, right, levels, Least(levels), bounds.Upper(levels));
    }

    /** insert: the array and the tree of its index stay valid through all splits, and exactly the pair is added, in
        sorted place. */
    method Insert(key: int, value: int)
      requires Valid() && 0 <= key
      modifies this, pma, pma.elements
      ensures Valid() && pma.cardinality == old(pma.cardinality) + 1
      ensures pma.Contents() == InsertAt(old(pma.Contents()), First(old(pma.Contents()), key), (key, value))
      ensures pma.elements == old(pma.elements) || fresh(pma.elements)
      ensures old(pma.cardinality) != 0 ==>
                Settled(old(pma.elements[..]), old(pma.segmentCapacity), old(pma.height), (key, value), pma.elements[..], pma.segmentCapacity, pma.height)
      ensures pma.capacity == old(pma.capacity) || (pma.capacity == 2 * old(pma.capacity) && 3 * old(pma.capacity) <= 4 * pma.cardinality)
    {
      hide Settled, Alive, First, IndexTree.Ok, IndexTree.Flat, IndexTree.Ordered, IndexTree.Replaced, Holds, Sized, Regrouped;
      if pma.cardinality == 0 {
        pma.InsertEmpty(key, value);
        FirstEntry(bounds);
        root, levels := IndexTree.Leaf([(0, 1)], []), 0;
        return;
      }
      ghost var p, c, k := pma.pointers, pma.cards, pma.separators;
      var n := |pma.pointers|;
      var i := Search(key, false);
      pma.InsertFrom(i, key, value);
      UpdateTree(key, i, n, p, c, k);
    }

    /** The tree after the array has taken in a pair at entry `i`: the entry has grown or split in two, the
        others have been rewritten by the array, and overfull nodes are split from the leaf up to the root. */
    method UpdateTree(key: int, i: nat, n: nat, ghost p: seq<nat>, ghost c: seq<nat>, ghost k: seq<int>)
      requires bounds.Valid() && pma.Valid() && pma.cardinality != 0
      requires Rooted(bounds, root, levels, p, c, k) && n == |c| == |k| + 1 && IndexTree.Ordered(k)
      requires i < n && IndexTree.Reached(k, i, key, false) && Regrouped(c, k, pma.cards, pma.separators, i, pma.storageB)
      modifies this`root, this`levels
      ensures Valid()
    {
      hide Alive, Sum, Ranks, Separated, Sorted, Base, PackedSegments.Segmented, PackedSegments.Roomy, IndexTree.Ok, IndexTree.Flat, IndexTree.Ordered, IndexTree.Reached, IndexTree.Replaced;
      HoldsParts(pma.elements[..], pma.segmentCapacity, Pow2(pma.height - 1), pma.cardinality, pma.pointers, pma.cards, pma.separators, pma.storageB);
      RegroupedLength(c, k, pma.cards, pma.separators, i, pma.storageB);
      hide Regrouped;
      ghost var h, lo, hi := levels, Least(levels), bounds.Upper(levels);
      var all := Entries(pma.pointers, pma.cards);
      var es, ss := [all[i]], [];
      if |pma.pointers| != n {
        es, ss := [all[i], all[i + 1]], [pma.separators[i]];
      }
      var t;
      ghost var g;
      t, g := IndexTree.Place(bounds, root, key, es, ss, h, lo, hi);
      IndexTree.ReachedOnce(k, i, g, key);
      Taken(bounds, c, k, pma.cards, pma.separators, i, pma.storageB, IndexTree.Flat(root), es, ss);
      t := IndexTree.Refill(bounds, t, all, h, lo, hi + 1);
      SizeWithin(bounds, t, h, lo, hi + 1);
      if IndexTree.Size(t) > if t.Leaf? then bounds.lb else bounds.ib {
        t := IndexTree.SplitRoot(bounds, t, h);
        levels := levels + 1;
        SizeWithin(bounds, t, h + 1, 2, 2);
      }
      root := t;
    }

    /** find: the value of a pair with the key, or -1. */
    method Find(key: int) returns (value: int)
      requires Valid()
      ensures (exists j :: 0 <= j < |pma.Contents()| && pma.Contents()[j].0 == key) ==> (key, value) in pma.Contents()
      ensures (forall j | 0 <= j < |pma.Contents()| :: pma.Contents()[j].0 != key) ==> value == -1
    {
      hide Alive, IndexTree.Ok, IndexTree.Flat, IndexTree.Ordered, Holds, Sized, Rooted;
      if pma.cardinality == 0 {
        value := pma.Find(key);
        return;
      }
      var i := Search(key, true);
      value := pma.FindFrom(i, key);
    }

    /** find(min, max) */
    method FindRange(min: int, max: int) returns (it: Iterator)
      requires Valid()
      ensures fresh(it) && it.elements == pma.elements && it.Valid() && it.Remaining() == Within(pma.Contents(), min, max)
    {
      hide Alive, Within, IndexTree.Ok, IndexTree.Flat, IndexTree.Ordered, Holds, Sized, Rooted;
      if min > max || pma.cardinality == 0 {
        it := pma.FindRange(min, max);
        return;
      }
      var i := Search(min, false);
      it := pma.FindRangeFrom(i, min, max);
    }

    /** sum(min, max): count, sums, first and last key of exactly the pairs in the range. */
    method SumRange(min: int, max: int) returns (sum: SumResult)
      requires Valid()
      ensures sum == Aggregate(Within(pma.Contents(), min, max))
    {
      hide Alive, Within, Aggregate, IndexTree.Ok, IndexTree.Flat, IndexTree.Ordered, Holds, Sized, Rooted;
      if min > max || pma.cardinality == 0 {
        sum := pma.SumRange(min, max);
        return;
      }
      var i := Search(NotBelow(min), false);
      sum := pma.SumRangeFrom(i, min, max);
    }
  }
}
