/** Range queries over the linked leaves: ABTree::leaf_scan, the iterator and sum(min, max). */
module TreeRange {
  import opened Trees
  import opened TreeMemory
  import opened TreeScan
  import opened RangeSums

  /** The leaves `ls`, linked in this order, hold the sorted pairs `s`; none is empty, except that a
      tree without pairs is one empty leaf. */
  ghost predicate Chain(m: map<Ptr, Cell>, next: map<Ptr, Link>, ls: seq<Ptr>, s: seq<Pair>) {
    && Flat(m, ls) == s && Sorted(s) && ls != []
    && (forall n | 0 <= n < |ls| :: ls[n] in m && m[ls[n]].LeafCell? && ls[n] in next && next[ls[n]] == LinkAt(ls, n + 1))
    && (s != [] ==> forall n | 0 <= n < |ls| :: ItemsAt(m, ls[n]) != [])
  }

  lemma WholeChain(mem: Memory, c: Config, t: Tree, h: nat)
    requires Whole(mem, c, t, h)
    ensures Chain(mem.cells, mem.next, Leaves(t), Items(t))
  {
    hide Flat, Items, Leaves;
    var ls, s := Leaves(t), Items(t);
    FlatLeaves(mem.cells, t);
    forall n | 0 <= n < |ls| && s != [] ensures ItemsAt(mem.cells, ls[n]) != [] {
      assert ls[n] in ls;
      if h == 0 {
        LeafItems(t);
      } else {
        LeavesFull(mem.cells, c, t, h, 2, c.Upper(h), ls[n]);
      }
    }
    WholeLeaves(c, t, h);
  }

  lemma LeafItems(t: Tree)
    requires t.Leaf?
    ensures Leaves(t) == [t.at] && Items(t) == t.items
  {
  }

  lemma WholeLeaves(c: Config, t: Tree, h: nat)
    requires c.Valid() && Ok(c, t, h, if h == 0 then 0 else 2, c.Upper(h))
    ensures Leaves(t) != []
  {
    if 0 < h {
      NotEmpty(c, t, h, 2, c.Upper(h));
    }
  }

  /** The cursor stands on the pair of rank `rank`, in leaf `n`; pairs below rank `hi` are left. A
      null block means that none is. */
  ghost predicate Standing(m: map<Ptr, Cell>, ls: seq<Ptr>, block: Link, pos: nat, n: nat, rank: nat, hi: nat) {
    && rank <= hi
    && match block
       case Null => rank == hi
       case To(p) => n < |ls| && ls[n] == p && pos < |ItemsAt(m, p)| && rank == |Flat(m, ls[..n])| + pos && rank < hi
  }

  /** create_iterator: only if the key there is not above the end of the range. */
  lemma Opened(m: map<Ptr, Cell>, next: map<Ptr, Link>, ls: seq<Ptr>, s: seq<Pair>, n: nat, pos: nat, max: int)
    requires Chain(m, next, ls, s) && n < |ls| && pos < |ItemsAt(m, ls[n])|
    ensures var rank, hi := |Flat(m, ls[..n])| + pos, First(s, max + 1);
            && rank < |s| && s[rank] == ItemsAt(m, ls[n])[pos]
            && (if max < ItemsAt(m, ls[n])[pos].0 then hi <= rank else rank < hi && Standing(m, ls, To(ls[n]), pos, n, rank, hi))
  {
    hide Flat;
    FlatAt(m, ls, n, pos);
  }

  /** leaf_scan, from a leaf such that no earlier pair is in the range and no later one below it. */
  method LeafScan(mem: Memory, leaf0: Ptr, min: int, max: int, ghost n0: nat, ghost ls: seq<Ptr>, ghost s: seq<Pair>)
    returns (block: Link, pos: nat, ghost n: nat)
    requires Chain(mem.cells, mem.next, ls, s) && n0 < |ls| && ls[n0] == leaf0 && min <= max
    requires |Flat(mem.cells, ls[..n0])| <= First(s, min) <= |Flat(mem.cells, ls[..n0 + 1])|
    ensures Standing(mem.cells, ls, block, pos, n, First(s, min), First(s, max + 1))
  {
    hide Flat, Within;
    WithinIsSlice(s, min, max);
    FlatSize(mem.cells, ls, n0);
    ghost var lo, hi := First(s, min), First(s, max + 1);
    var leaf := leaf0;
    n := n0;
    block, pos := Null, 0;
    var items := mem.cells[leaf].items;
    if |items| == 0 {
      EmptyLeaf(mem.cells, mem.next, ls, s, n);
    } else if items[|items| - 1].0 < min {
      AllBelow(mem.cells, mem.next, ls, s, n, min);
      match mem.next[leaf]
      case Null =>
      case To(sibling) =>
        n := n + 1;
        Opened(mem.cells, mem.next, ls, s, n, 0, max);
        var first := mem.cells[sibling].items[0].0;
        assert min <= first;
        if first <= max {
          block := To(sibling);
        }
    } else if items[0].0 > max {
      Opened(mem.cells, mem.next, ls, s, n, 0, max);
    } else {
      var i := 0;
      while i < |items| && items[i].0 < min
        invariant 0 <= i <= |items| && forall j | 0 <= j < i :: items[j].0 < min
      {
        i := i + 1;
      }
      FirstInLeaf(mem.cells, mem.next, ls, s, n, i, min);
      Opened(mem.cells, mem.next, ls, s, n, i, max);
      pos := i;
      if items[i].0 <= max {
        block := To(leaf);
      }
    }
  }

  lemma EmptyLeaf(m: map<Ptr, Cell>, next: map<Ptr, Link>, ls: seq<Ptr>, s: seq<Pair>, n: nat)
    requires Chain(m, next, ls, s) && n < |ls| && ItemsAt(m, ls[n]) == []
    ensures s == []
  {
  }

  /** The whole leaf is below the range: the range starts with the next leaf. */
  lemma AllBelow(m: map<Ptr, Cell>, next: map<Ptr, Link>, ls: seq<Ptr>, s: seq<Pair>, n: nat, min: int)
    requires Chain(m, next, ls, s) && n < |ls| && ItemsAt(m, ls[n]) != [] && ItemsAt(m, ls[n])[|ItemsAt(m, ls[n])| - 1].0 < min
    requires First(s, min) <= |Flat(m, ls[..n + 1])|
    ensures First(s, min) == |Flat(m, ls[..n + 1])| <= |s|
    ensures n + 1 == |ls| ==> First(s, min) == |s|
    ensures n + 1 < |ls| ==> ItemsAt(m, ls[n + 1]) != []
  {
    hide Flat;
    FlatSize(m, ls, n);
    FlatAt(m, ls, n, |ItemsAt(m, ls[n])| - 1);
  }

  lemma FirstInLeaf(m: map<Ptr, Cell>, next: map<Ptr, Link>, ls: seq<Ptr>, s: seq<Pair>, n: nat, i: nat, min: int)
    requires Chain(m, next, ls, s) && n < |ls| && i < |ItemsAt(m, ls[n])| && min <= ItemsAt(m, ls[n])[i].0
    requires forall j | 0 <= j < i :: ItemsAt(m, ls[n])[j].0 < min
    requires |Flat(m, ls[..n])| <= First(s, min)
    ensures First(s, min) == |Flat(m, ls[..n])| + i
  {
    hide Flat, First, Chain;
    FirstEntry(m, next, ls, s, n, i);
    var f, b := First(s, min), |Flat(m, ls[..n])|;
    if f < b + i {
      FirstEntry(m, next, ls, s, n, f - b);
    }
  }

  class Iterator {
    const mem: Memory
    const max: int
    var block: Link
    var pos: nat
    ghost const ls: seq<Ptr>
    ghost const s: seq<Pair>
    ghost var n: nat
    ghost var rank: nat

    ghost predicate Valid()
      reads this, mem
    {
      Chain(mem.cells, mem.next, ls, s) && Standing(mem.cells, ls, block, pos, n, rank, First(s, max + 1))
    }

    /** The pairs still to be delivered. */
    ghost function Remaining(): (r: seq<Pair>)
      requires Valid()
      reads this, mem
    {
      s[rank..First(s, max + 1)]
    }

    constructor (mem: Memory, max: int, block: Link, pos: nat, ghost ls: seq<Ptr>, ghost s: seq<Pair>, ghost n: nat, ghost rank: nat)
      ensures this.mem == mem && this.max == max && this.block == block && this.pos == pos
      ensures this.ls == ls && this.s == s && this.n == n && this.rank == rank
    {
      this.mem, this.max, this.block, this.pos := mem, max, block, pos;
      this.ls, this.s, this.n, this.rank := ls, s, n, rank;
    }

    predicate HasNext()
      reads this
    {
      block != Null
    }

    /** The next pair of the range, or (-1, -1) when there is none. */
    method Next() returns (v: Pair)
      requires Valid()
      modifies this
      ensures Valid()
      ensures if old(Remaining()) == [] then v == (-1, -1) && Remaining() == [] else old(Remaining()) == [v] + Remaining()
    {
      hide Flat, First, Standing, Chain;
      FirstInside(s, max + 1);
      StandingRank(mem.cells, mem.next, ls, s, block, pos, n, rank, max);
      if block == Null {
        return (-1, -1);
      }
      v := mem.cells[block.p].items[pos];
      SliceStep(s, rank, First(s, max + 1));
      block, pos, n := Advance(mem, block.p, pos, max, ls, s, n, rank);
      rank := rank + 1;
    }
  }

  /** hasNext says exactly whether pairs are left. */
  lemma HasNextExact(it: Iterator)
    requires it.Valid()
    ensures it.HasNext() <==> it.Remaining() != []
  {
    hide First, Chain, Standing;
    StandingRank(it.mem.cells, it.mem.next, it.ls, it.s, it.block, it.pos, it.n, it.rank, it.max);
  }

  lemma SliceStep<T>(s: seq<T>, i: nat, j: nat)
    requires i < j <= |s|
    ensures s[i..j] == [s[i]] + s[i + 1..j]
  {
  }

  lemma StandingRank(m: map<Ptr, Cell>, next: map<Ptr, Link>, ls: seq<Ptr>, s: seq<Pair>, block: Link, pos: nat, n: nat, rank: nat, max: int)
    requires Chain(m, next, ls, s) && Standing(m, ls, block, pos, n, rank, First(s, max + 1))
    ensures rank <= First(s, max + 1) <= |s|
    ensures block == Null ==> rank == First(s, max + 1)
    ensures block != Null ==> rank < First(s, max + 1) && block.p in m && m[block.p].LeafCell? && pos < |m[block.p].items| && s[rank] == m[block.p].items[pos]
  {
    hide Flat, First, Sorted, Chain;
    FirstInside(s, max + 1);
    if block != Null {
      LeafCellOf(m, next, ls, s, n);
      Opened(m, next, ls, s, n, pos, max);
    }
  }

  /** To the next pair of the leaf, or the first of the next leaf, if that is still in the range. */
  method Advance(mem: Memory, p: Ptr, pos: nat, max: int, ghost ls: seq<Ptr>, ghost s: seq<Pair>, ghost n: nat, ghost rank: nat)
    returns (block: Link, pos': nat, ghost n': nat)
    requires Chain(mem.cells, mem.next, ls, s) && Standing(mem.cells, ls, To(p), pos, n, rank, First(s, max + 1))
    ensures Standing(mem.cells, ls, block, pos', n', rank + 1, First(s, max + 1))
  {
    hide Flat, First, Sorted;
    ghost var m := mem.cells;
    var items := mem.cells[p].items;
    block, pos', n' := To(p), pos + 1, n;
    if pos >= |items| - 1 {
      StepOver(m, mem.next, ls, s, n, pos);
      block := mem.next[p];
      n' := n + 1;
      pos' := 0;
    }
    if block == Null {
      FirstInside(s, max + 1);
    } else {
      Opened(m, mem.next, ls, s, n', pos', max);
      if mem.cells[block.p].items[pos'].0 > max {
        block := Null;
      }
    }
  }

  lemma FirstInside(s: seq<Pair>, k: int)
    ensures First(s, k) <= |s|
  {
  }

  lemma StepOver(m: map<Ptr, Cell>, next: map<Ptr, Link>, ls: seq<Ptr>, s: seq<Pair>, n: nat, pos: nat)
    requires Chain(m, next, ls, s) && n < |ls| && pos + 1 == |ItemsAt(m, ls[n])|
    ensures |Flat(m, ls[..n])| + pos + 1 == |Flat(m, ls[..n + 1])| <= |s|
    ensures n + 1 == |ls| ==> next[ls[n]] == Null && |Flat(m, ls[..n])| + pos + 1 == |s|
    ensures n + 1 < |ls| ==> next[ls[n]] == To(ls[n + 1]) && ItemsAt(m, ls[n + 1]) != []
  {
    hide Flat;
    FlatSize(m, ls, n);
    FlatAt(m, ls, n, pos);
  }

  /** find(min, max): an iterator over exactly the pairs with key in [min, max], in order. */
  method FindRange(mem: Memory, c: Config, root: Ptr, height: nat, min: int, max: int, ghost t: Tree) returns (it: Iterator)
    requires 1 <= height && t.at == root && Whole(mem, c, t, height - 1)
    ensures fresh(it) && it.mem == mem && it.Valid() && it.Remaining() == Within(Items(t), min, max)
  {
    hide Flat, First, Within, Items, Leaves, Sorted, Whole;
    ghost var ls, s := Leaves(t), Items(t);
    WholeChain(mem, c, t, height - 1);
    if min > max {
      NoneWithin(s, min, max);
      FirstInside(s, max + 1);
      it := new Iterator(mem, max, Null, 0, ls, s, 0, First(s, max + 1));
    } else {
      var leaf;
      ghost var n0, n;
      leaf, n0 := FindLeaf(mem, c, root, height, min, t);
      var block, pos;
      block, pos, n := LeafScan(mem, leaf, min, max, n0, ls, s);
      WithinIsSlice(s, min, max);
      it := new Iterator(mem, max, block, pos, ls, s, n, First(s, min));
    }
  }

  /** Add up the pairs of one leaf, from entry `i0` to the end of the leaf or of the range. */
  method SumLeaf(items: seq<Pair>, i0: nat, max: int, keys0: int, values0: int, num0: nat, ghost s: seq<Pair>, ghost lo: nat, ghost b: nat)
    returns (i: nat, keys: int, values: int, num: nat)
    requires i0 <= |items| && lo <= b + i0 && b + |items| <= |s| && s[b..b + |items|] == items
    requires keys0 == SumKeys(s[lo..b + i0]) && values0 == SumValues(s[lo..b + i0]) && num0 == b + i0 - lo
    ensures i0 <= i <= |items| && (forall j | i0 <= j < i :: items[j].0 <= max) && (i < |items| ==> max < items[i].0)
    ensures keys == SumKeys(s[lo..b + i]) && values == SumValues(s[lo..b + i]) && num == b + i - lo
  {
    i, keys, values, num := i0, keys0, values0, num0;
    while i < |items| && items[i].0 <= max
      invariant i0 <= i <= |items| && forall j | i0 <= j < i :: items[j].0 <= max
      invariant keys == SumKeys(s[lo..b + i]) && values == SumValues(s[lo..b + i]) && num == b + i - lo
    {
      SumStep(s, lo, b + i);
      assert s[b + i] == s[b..b + |items|][i];
      keys, values, num := keys + items[i].0, values + items[i].1, num + 1;
      i := i + 1;
    }
  }

  /** The pairs of leaf `n` in the whole sequence. */
  lemma LeafStretch(m: map<Ptr, Cell>, next: map<Ptr, Link>, ls: seq<Ptr>, s: seq<Pair>, n: nat)
    requires Chain(m, next, ls, s) && n < |ls|
    ensures var b, items := |Flat(m, ls[..n])|, ItemsAt(m, ls[n]);
            && b + |items| == |Flat(m, ls[..n + 1])| <= |s| && s[b..b + |items|] == items
            && (n + 1 == |ls| ==> b + |items| == |s|)
    ensures ls[n] in m && ls[n] in next && m[ls[n]] == LeafCell(ItemsAt(m, ls[n])) && next[ls[n]] == LinkAt(ls, n + 1)
    ensures s != [] ==> ItemsAt(m, ls[n]) != []
  {
    hide Flat;
    FlatSize(m, ls, n);
    FlatSplit3(m, ls, n);
    SliceMiddle(Flat(m, ls[..n]), ItemsAt(m, ls[n]), Flat(m, ls[n + 1..]));
  }

  lemma SliceMiddle<T>(l: seq<T>, s: seq<T>, r: seq<T>)
    ensures (l + s + r)[|l|..|l| + |s|] == s
  {
  }

  /** The summing loop over the leaves, from entry `i0` of leaf `n0`. */
  method SumLeaves(mem: Memory, leaf0: Ptr, i0: nat, max: int, ghost n0: nat, ghost ls: seq<Ptr>, ghost s: seq<Pair>, ghost lo: nat)
    returns (sum: SumResult)
    requires Chain(mem.cells, mem.next, ls, s) && n0 < |ls| && ls[n0] == leaf0 && i0 < |ItemsAt(mem.cells, leaf0)|
    requires lo == |Flat(mem.cells, ls[..n0])| + i0 <= First(s, max + 1)
    requires ItemsAt(mem.cells, leaf0)[0].0 <= max
    ensures lo < |s| && lo <= First(s, max + 1) <= |s| && sum.firstKey == s[lo].0
    ensures sum.numElements == First(s, max + 1) - lo && sum.sumKeys == SumKeys(s[lo..First(s, max + 1)]) && sum.sumValues == SumValues(s[lo..First(s, max + 1)])
    ensures 0 < First(s, max + 1) && sum.lastKey == s[First(s, max + 1) - 1].0
  {
    hide Flat, First, Sorted, SumKeys, SumValues, Chain;
    ghost var m, hi := mem.cells, First(s, max + 1);
    FirstInside(s, max + 1);
    var leaf, i, firstKey, lastKey, num, keys, values := leaf0, i0, 0, 0, 0, 0, 0;
    ghost var n: nat := n0;
    LeafCellOf(m, mem.next, ls, s, n);
    FirstEntry(m, mem.next, ls, s, n, i);
    firstKey := mem.cells[leaf].items[i].0;
    NoSum(s, lo);
    var more := true;
    ghost var r: nat := lo;
    while more
      invariant n < |ls| && ls[n] == leaf && lo <= r <= hi
      invariant more ==> i < |ItemsAt(m, leaf)| && ItemsAt(m, leaf)[0].0 <= max && r == |Flat(m, ls[..n])| + i
      invariant num == r - lo && keys == SumKeys(s[lo..r]) && values == SumValues(s[lo..r])
      invariant !more ==> 0 < r == hi && lastKey == s[hi - 1].0
      decreases more, |ls| - n
    {
      LeafStretch(m, mem.next, ls, s, n);
      var items := mem.cells[leaf].items;
      ghost var b, from := |Flat(m, ls[..n])|, i;
      i, keys, values, num := SumLeaf(items, i, max, keys, values, num, s, lo, b);
      LastEntry(s, items, b, from, i, max);
      r := b + i;
      lastKey := items[i - 1].0;
      if i >= |items| {
        more, leaf, n := NextLeaf(mem, leaf, max, n, ls, s, r);
        i := 0;
      } else {
        more := false;
        ChainSorted(m, mem.next, ls, s);
        Ended(s, r, max);
      }
    }
    sum := SumResult(firstKey, lastKey, num, keys, values);
  }

  /** At the end of a leaf: on to the next one, unless there is none or it starts above the range. */
  method NextLeaf(mem: Memory, leaf0: Ptr, max: int, ghost n0: nat, ghost ls: seq<Ptr>, ghost s: seq<Pair>, ghost r: nat)
    returns (more: bool, leaf: Ptr, ghost n: nat)
    requires Chain(mem.cells, mem.next, ls, s) && n0 < |ls| && ls[n0] == leaf0
    requires 0 < r == |Flat(mem.cells, ls[..n0 + 1])| <= |s| && s[r - 1].0 <= max
    ensures n0 <= n < |ls| && ls[n] == leaf
    ensures more ==> n == n0 + 1 && ItemsAt(mem.cells, leaf) != [] && ItemsAt(mem.cells, leaf)[0].0 <= max && r == |Flat(mem.cells, ls[..n])| <= First(s, max + 1)
    ensures !more ==> First(s, max + 1) == r
  {
    hide Flat, First, Sorted;
    more, leaf, n := false, leaf0, n0;
    LeafStretch(mem.cells, mem.next, ls, s, n);
    match mem.next[leaf]
    case Null =>
      Ended(s, r, max);
    case To(sibling) =>
      n := n + 1;
      leaf := sibling;
      LeafStretch(mem.cells, mem.next, ls, s, n);
      FirstEntry(mem.cells, mem.next, ls, s, n, 0);
      if mem.cells[leaf].items[0].0 > max {
        Ended(s, r, max);
      } else {
        more := true;
        NotEnded(s, r, max);
      }
  }

  lemma FirstEntry(m: map<Ptr, Cell>, next: map<Ptr, Link>, ls: seq<Ptr>, s: seq<Pair>, n: nat, i: nat)
    requires Chain(m, next, ls, s) && n < |ls| && i < |ItemsAt(m, ls[n])|
    ensures |Flat(m, ls[..n])| + i < |s| && s[|Flat(m, ls[..n])| + i] == ItemsAt(m, ls[n])[i]
  {
    FlatAt(m, ls, n, i);
  }

  lemma LeafCellOf(m: map<Ptr, Cell>, next: map<Ptr, Link>, ls: seq<Ptr>, s: seq<Pair>, n: nat)
    requires Chain(m, next, ls, s) && n < |ls|
    ensures ls[n] in m && m[ls[n]] == LeafCell(ItemsAt(m, ls[n]))
  {
  }

  lemma ChainSorted(m: map<Ptr, Cell>, next: map<Ptr, Link>, ls: seq<Ptr>, s: seq<Pair>)
    requires Chain(m, next, ls, s)
    ensures Sorted(s)
  {
  }

  lemma LastEntry(s: seq<Pair>, items: seq<Pair>, b: nat, from: nat, i: nat, max: int)
    requires b + |items| <= |s| && s[b..b + |items|] == items && from <= i <= |items| && from < |items| && items[0].0 <= max
    requires b + from <= First(s, max + 1)
    requires (forall j | from <= j < i :: items[j].0 <= max) && (i < |items| ==> max < items[i].0)
    ensures 0 < i && s[b + i - 1] == items[i - 1] && s[b + i - 1].0 <= max
    ensures i < |items| ==> s[b + i] == items[i]
  {
  }

  lemma Ended(s: seq<Pair>, r: nat, max: int)
    requires Sorted(s) && 0 < r <= |s| && s[r - 1].0 <= max && (r < |s| ==> max < s[r].0)
    ensures First(s, max + 1) == r
  {
  }

  lemma NotEnded(s: seq<Pair>, r: nat, max: int)
    requires Sorted(s) && r < |s| && s[r].0 <= max
    ensures r < First(s, max + 1)
  {
  }

  /** The pair of rank `q` is in a leaf, but not the first one there. */
  ghost predicate Inside(m: map<Ptr, Cell>, ls: seq<Ptr>, q: nat) {
    exists n: nat :: n < |ls| && |Flat(m, ls[..n])| < q < |Flat(m, ls[..n])| + |ItemsAt(m, ls[n])|
  }

  /** What sum(min, max) reports: the aggregate of the range, except that a range without pairs that falls
      between two pairs of one leaf reports these two as last and first key. */
  ghost function Report(s: seq<Pair>, inside: bool, min: int, max: int): (r: SumResult) {
    var w, q := Within(s, min, max), First(s, min);
    if w == [] && min <= max && inside && 0 < q < |s| then SumResult(s[q].0, s[q - 1].0, 0, 0, 0) else Aggregate(w)
  }

  method Sum(mem: Memory, c: Config, root: Ptr, height: nat, size: int, min: int, max: int, ghost t: Tree) returns (sum: SumResult)
    requires 1 <= height && t.at == root && Whole(mem, c, t, height - 1) && size == |Items(t)|
    ensures sum == Report(Items(t), Inside(mem.cells, Leaves(t), First(Items(t), min)), min, max)
  {
    hide Flat, First, Within, Items, Leaves, Sorted, Whole, Report, Inside, Chain;
    ghost var ls, s := Leaves(t), Items(t);
    sum := SumResult(0, 0, 0, 0, 0);
    WholeChain(mem, c, t, height - 1);
    if min > max || size == 0 {
      NothingAsked(s, Inside(mem.cells, ls, First(s, min)), min, max);
      return;
    }
    var found, leaf;
    ghost var n;
    found, leaf, n := StartLeaf(mem, c, root, height, min, t);
    if !found {
      NothingThere(s, Inside(mem.cells, ls, First(s, min)), min, max);
      return;
    }
    LeafStretch(mem.cells, mem.next, ls, s, n);
    ChainSorted(mem.cells, mem.next, ls, s);
    var items := mem.cells[leaf].items;
    FirstEntry(mem.cells, mem.next, ls, s, n, 0);
    if items[0].0 > max {
      LeafStart(mem.cells, ls, n);
      FirstTooLarge(s, |Flat(mem.cells, ls[..n])|, Inside(mem.cells, ls, |Flat(mem.cells, ls[..n])|), min, max);
      return;
    }
    var i := SkipBelow(items, min);
    FirstInLeaf(mem.cells, mem.next, ls, s, n, i, min);
    FirstEntry(mem.cells, mem.next, ls, s, n, i);
    LowHigh(s, min, max);
    sum := SumLeaves(mem, leaf, i, max, n, ls, s, First(s, min));
    if 0 < i {
      InsideLeaf(mem.cells, ls, n, i);
    }
    SumIsExact(s, Inside(mem.cells, ls, First(s, min)), min, max, sum);
  }

  /** The leaf that holds the first key not below `min`, if there is one. */
  method StartLeaf(mem: Memory, c: Config, root: Ptr, height: nat, min: int, ghost t: Tree) returns (found: bool, leaf: Ptr, ghost n: nat)
    requires 1 <= height && t.at == root && Whole(mem, c, t, height - 1) && Items(t) != []
    ensures !found ==> First(Items(t), min) == |Items(t)| && Sorted(Items(t))
    ensures found ==> n < |Leaves(t)| && Leaves(t)[n] == leaf && |Flat(mem.cells, Leaves(t)[..n])| <= First(Items(t), min)
    ensures found ==> ItemsAt(mem.cells, leaf) != [] && min <= ItemsAt(mem.cells, leaf)[|ItemsAt(mem.cells, leaf)| - 1].0
  {
    hide Flat, First, Items, Leaves, Sorted, Whole, Chain;
    ghost var ls, s := Leaves(t), Items(t);
    WholeChain(mem, c, t, height - 1);
    ChainSorted(mem.cells, mem.next, ls, s);
    found := true;
    leaf, n := FindLeaf(mem, c, root, height, min, t);
    LeafStretch(mem.cells, mem.next, ls, s, n);
    var items := mem.cells[leaf].items;
    if items[|items| - 1].0 < min {
      AllBelow(mem.cells, mem.next, ls, s, n, min);
      match mem.next[leaf]
      case Null =>
        found := false;
      case To(sibling) =>
        n := n + 1;
        leaf := sibling;
        LeafStretch(mem.cells, mem.next, ls, s, n);
        LaterLeaf(mem.cells, mem.next, ls, s, n, min);
    }
  }

  lemma LaterLeaf(m: map<Ptr, Cell>, next: map<Ptr, Link>, ls: seq<Ptr>, s: seq<Pair>, n: nat, min: int)
    requires Chain(m, next, ls, s) && n < |ls| && ItemsAt(m, ls[n]) != [] && First(s, min) <= |Flat(m, ls[..n])|
    ensures min <= ItemsAt(m, ls[n])[|ItemsAt(m, ls[n])| - 1].0
  {
    FlatAt(m, ls, n, |ItemsAt(m, ls[n])| - 1);
    FlatAt(m, ls, n, 0);
  }

  /** The scan for the first key of the range; the last key of the leaf bounds it. */
  method SkipBelow(items: seq<Pair>, min: int) returns (i: nat)
    requires items != [] && min <= items[|items| - 1].0
    ensures i < |items| && min <= items[i].0 && forall j | 0 <= j < i :: items[j].0 < min
  {
    i := 0;
    while items[i].0 < min
      decreases |items| - i
      invariant i < |items| && forall j | 0 <= j < i :: items[j].0 < min
    {
      i := i + 1;
    }
  }

  /** A pair that comes first in its leaf is not inside any. */
  lemma LeafStart(m: map<Ptr, Cell>, ls: seq<Ptr>, n: nat)
    requires n < |ls|
    ensures !Inside(m, ls, |Flat(m, ls[..n])|)
  {
    hide Flat;
    forall k: nat | k < |ls| ensures !(|Flat(m, ls[..k])| < |Flat(m, ls[..n])| < |Flat(m, ls[..k])| + |ItemsAt(m, ls[k])|) {
      FlatSize(m, ls, k);
      if k < n {
        FlatGrows(m, ls, k + 1, n);
      } else {
        FlatGrows(m, ls, n, k);
      }
    }
  }

  lemma {:induction false} FlatGrows(m: map<Ptr, Cell>, ls: seq<Ptr>, i: nat, j: nat)
    requires i <= j <= |ls|
    ensures |Flat(m, ls[..i])| <= |Flat(m, ls[..j])|
    decreases j
  {
    hide Flat;
    if i < j {
      FlatGrows(m, ls, i, j - 1);
      FlatSize(m, ls, j - 1);
    }
  }

  lemma InsideLeaf(m: map<Ptr, Cell>, ls: seq<Ptr>, n: nat, i: nat)
    requires n < |ls| && 0 < i < |ItemsAt(m, ls[n])|
    ensures Inside(m, ls, |Flat(m, ls[..n])| + i)
  {
  }

  lemma NothingAsked(s: seq<Pair>, inside: bool, min: int, max: int)
    requires max < min || s == []
    ensures Report(s, inside, min, max) == SumResult(0, 0, 0, 0, 0)
  {
    NoneWithin(s, min, max);
  }

  lemma NothingThere(s: seq<Pair>, inside: bool, min: int, max: int)
    requires Sorted(s) && min <= max && First(s, min) == |s|
    ensures Report(s, inside, min, max) == SumResult(0, 0, 0, 0, 0)
  {
    hide First;
    WithinIsSlice(s, min, max);
  }

  lemma FirstTooLarge(s: seq<Pair>, b: nat, inside: bool, min: int, max: int)
    requires Sorted(s) && min <= max && b < |s| && max < s[b].0 && b <= First(s, min) && !inside
    ensures First(s, min) == b && Report(s, inside, min, max) == SumResult(0, 0, 0, 0, 0)
  {
    hide First;
    WithinIsSlice(s, min, max);
  }

  lemma LowHigh(s: seq<Pair>, min: int, max: int)
    requires Sorted(s) && min <= max
    ensures First(s, min) <= First(s, max + 1) <= |s|
  {
  }

  lemma SliceEnds(s: seq<Pair>, lo: nat, hi: nat)
    requires lo < hi <= |s|
    ensures |s[lo..hi]| == hi - lo && s[lo..hi][0] == s[lo] && s[lo..hi][hi - lo - 1] == s[hi - 1]
  {
  }

  lemma SumIsExact(s: seq<Pair>, inside: bool, min: int, max: int, r: SumResult)
    requires Sorted(s) && min <= max && First(s, min) < |s| && First(s, min) <= First(s, max + 1)
    requires First(s, min) == First(s, max + 1) ==> inside
    requires r.firstKey == s[First(s, min)].0 && r.numElements == First(s, max + 1) - First(s, min)
    requires r.sumKeys == SumKeys(s[First(s, min)..First(s, max + 1)]) && r.sumValues == SumValues(s[First(s, min)..First(s, max + 1)])
    requires 0 < First(s, max + 1) && r.lastKey == s[First(s, max + 1) - 1].0
    ensures r == Report(s, inside, min, max)
  {
    hide First, Within, SumKeys, SumValues, Sorted;
    WithinIsSlice(s, min, max);
    var lo, hi := First(s, min), First(s, max + 1);
    if lo < hi {
      SliceEnds(s, lo, hi);
    } else {
      NoSum(s, lo);
    }
  }
}
