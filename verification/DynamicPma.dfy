/** BTreePMA_v2: a packed array of sorted pairs under a dynamic index of pointers into it. The chain of the
    index's leaves is taken as one sequence. */
module DynamicPma {
  import opened Sequences
  import opened Layout
  import opened Powers
  import opened LiveCells
  import opened PackedSegments
  import opened PackedClimb
  import opened PackedIndex
  import opened Trees
  import opened TreeScan
  import opened PackedDeal
  import PackedRebalance
  import InPlaceSpread
  import Calibrator
  import opened RangeSums

  /** The sizes of the array. A segment has at least as many cells as the calibrator tree has levels: what the
      room in every segment depends on. */
  ghost predicate Sized(s: nat, ns: nat, height: nat, capacity: nat) {
    && PowerOfTwo(s) && 4 <= s && height <= s
    && Calibrator.InTree(ns, height) && capacity == Base(ns, s) && STORAGE_MIN_CAPACITY <= capacity
  }

  /** A doubled array gets sizes of the same kind, with at most a quarter of its cells as segments. */
  lemma GrownSizes(s: nat, ns: nat, height: nat, capacity: nat)
    requires Sized(s, ns, height, capacity)
    ensures var s' := Hyperceil(Log2(2 * capacity));
            1 <= s' && 1 <= 2 * capacity / s'
            && var ns' := 2 * capacity / s'; Sized(s', ns', Log2(ns') + 1, 2 * capacity) && ns' * s' == 2 * capacity && 2 * ns' <= capacity
  {
    hide Pow2, Log2, CeilLog2, Base;
    var a := Log2(s);
    BaseIsProduct(ns, s);
    Pow2Sum(height - 1, a);
    var e := height + a;
    DoublePow2(e - 1);
    Log2Pow2(e);
    GrownExponents(e, capacity);
    var c := CeilLog2(e);
    Pow2Sum(e - c, c);
    DivUnique(Pow2(e), Pow2(c), Pow2(e - c), 0);
    Log2Pow2(c);
    Log2Pow2(e - c);
    BaseIsProduct(Pow2(e - c), Pow2(c));
    MulLe(4, Pow2(c), Pow2(e - c));
    assert Pow2(c) * Pow2(e - c) == Pow2(e - c) * Pow2(c);
  }

  lemma GrownExponents(e: nat, capacity: nat)
    requires 1 <= e && capacity == Pow2(e - 1) && 8 <= capacity
    ensures var c := CeilLog2(e); 2 <= c <= e && e <= Pow2(c) && 4 <= Pow2(c)
  {
    assert Pow2(2) == 4 && Pow2(1) == 2;
    if e - 1 < 2 {
      Pow2Le(e - 1, 2);
    }
    HyperceilLeast(e, e);
    BelowPow2(e);
    if CeilLog2(e) < 2 {
      Pow2Le(CeilLog2(e), 1);
    } else {
      Pow2Le(2, CeilLog2(e));
    }
  }

  /** Dealt out over the grown array, a crowded array leaves no segment empty and none full. */
  lemma GrownRoom(n: nat, ns: nat, s: nat, capacity: nat)
    requires ns * s == 2 * capacity && 2 * ns <= capacity && capacity <= 2 * n && n <= capacity && 1 <= s
    ensures ns <= n <= ns * (s - 1)
  {
    assert ns * (s - 1) == ns * s - ns;
  }

  /** What the array and its index hold. */
  ghost predicate Holds(e: seq<Element>, s: nat, ns: nat, n: nat, p: seq<nat>, c: seq<nat>, k: seq<int>, most: nat) {
    && n == |Alive(e)| && Sorted(Alive(e))
    && if n == 0 then ns == 1 && p == [] && c == [] && k == []
       else Segmented(e, s, ns) && Roomy(e, s, ns) && Indexed(e, p, c, k, most)
  }

  /** The state between the insertion of an element and the rebalancing: segment `seg` may have filled up. */
  ghost predicate Grown(e: seq<Element>, s: nat, ns: nat, seg: nat) {
    Segmented(e, s, ns) && seg < ns && forall i | 0 <= i < ns && i != seg :: HasRoom(e, Base(i, s), s)
  }

  lemma WholeWindow(e: seq<Element>, s: nat, ns: nat)
    requires |e| == Base(ns, s)
    ensures Base(0, s) == 0 && Elements(e, s, 0, ns) == |Alive(e)|
  {
    assert e[0..|e|] == e;
  }

  /** How many elements a segment holds. */
  ghost function Held(e: seq<Element>, s: nat, i: nat): (n: nat) {
    if Base(i, s) + s <= |e| then |Alive(e[Base(i, s)..Base(i, s) + s])| else 0
  }

  /** The segments [lo, lo + n) hold their elements as evenly as possible, the larger shares first. */
  ghost predicate EvenSegments(e: seq<Element>, s: nat, lo: nat, n: nat) {
    Base(lo + n, s) <= |e| && forall i, j | lo <= i < j < lo + n :: Held(e, s, j) <= Held(e, s, i) <= Held(e, s, j) + 1
  }

  /** The least power of two that is at least the logarithm of the capacity. */
  ghost predicate LeastFor(s: nat, capacity: nat) {
    1 <= capacity && PowerOfTwo(s) && Log2(capacity) <= s && forall k | Log2(capacity) <= Pow2(k) :: s <= Pow2(k)
  }

  /** Only the window at height `h` has changed, and its segments share evenly. */
  ghost predicate WindowSpread(e: seq<Element>, e': seq<Element>, s: nat, seg: nat, h: nat)
    requires 1 <= h
  {
    var ws, wl := Calibrator.WindowStart(seg, h), Pow2(h - 1);
    && Base(ws, s) <= Base(ws + wl, s) <= |e| == |e'| && EvenSegments(e', s, ws, wl)
    && e'[..Base(ws, s)] == e[..Base(ws, s)] && e'[Base(ws + wl, s)..] == e[Base(ws + wl, s)..]
  }

  /** What becomes of the array when the segment of cell `index` may have filled up: nothing if it has not; otherwise
      the smallest sparse window is spread; only if there is none the array is doubled. */
  ghost predicate Rebalanced(e: seq<Element>, s: nat, height: nat, index: nat, e': seq<Element>, s': nat, height': nat) {
    1 <= s &&
    var seg := index / s;
    if HasRoom(e, Base(seg, s), s) then e' == e && s' == s && height' == height
    else if NoneSparse(e, s, height, seg) then
      |e'| == 2 * |e| && LeastFor(s', |e'|) && 1 <= height' && EvenSegments(e', s', 0, Pow2(height' - 1)) && |e'| == Base(Pow2(height' - 1), s')
    else s' == s && height' == height && exists h :: SmallestSparse(e, s, height, seg, h) && WindowSpread(e, e', s, seg, h)
  }

  /** What becomes of it when `x` is put into it. */
  ghost predicate Settled(e: seq<Element>, s: nat, height: nat, x: Element, e': seq<Element>, s': nat, height': nat) {
    exists seg, pos, gap :: SlotIn(e, s, seg, pos, gap) && Rebalanced(Shifted(e, pos, gap, x), s, height, pos, e', s', height')
  }

  /** Segments filled evenly hold their elements evenly. */
  lemma FilledEven(d: seq<Element>, e: seq<Element>, s: nat, lo: nat, n: nat, total: nat)
    requires 0 < n && Filled(d, s, total, n, n) && |d| == Base(n, s) && Base(lo, s) <= Base(lo + n, s) <= |e| && e[Base(lo, s)..Base(lo + n, s)] == d
    ensures EvenSegments(e, s, lo, n)
  {
    hide Filled, Base, Alive, InPlaceSpread.Share;
    forall i | lo <= i < lo + n ensures Held(e, s, i) == InPlaceSpread.Share(total, n, i - lo) {
      HeldShare(d, e, s, lo, n, total, i - lo);
    }
    forall i, j | lo <= i < j < lo + n ensures Held(e, s, j) <= Held(e, s, i) <= Held(e, s, j) + 1 {
      ShareOrder(total, n, i - lo, j - lo);
    }
  }

  lemma ShareOrder(total: nat, n: nat, i: nat, j: nat)
    requires i < j < n
    ensures InPlaceSpread.Share(total, n, j) <= InPlaceSpread.Share(total, n, i) <= InPlaceSpread.Share(total, n, j) + 1
  {
  }

  lemma HeldShare(d: seq<Element>, e: seq<Element>, s: nat, lo: nat, n: nat, total: nat, k: nat)
    requires k < n && Filled(d, s, total, n, n) && |d| == Base(n, s) && Base(lo, s) <= Base(lo + n, s) <= |e| && e[Base(lo, s)..Base(lo + n, s)] == d
    ensures Held(e, s, lo + k) == InPlaceSpread.Share(total, n, k)
  {
    hide Base, Alive, Filled, Ends, InPlaceSpread.Share;
    BaseSum(lo, k, s);
    BaseSum(lo, n, s);
    BaseLe(k + 1, n, s);
    BaseNext(k, s);
    FilledAt(d, s, total, n, k);
    EndsAlive(d, Base(k, s), s, InPlaceSpread.Share(total, n, k));
    SamePart(d, e, Base(lo, s), Base(k, s), s);
  }

  lemma FilledAt(d: seq<Element>, s: nat, total: nat, n: nat, k: nat)
    requires k < n && Filled(d, s, total, n, n)
    ensures Ends(d, Base(k, s), s, InPlaceSpread.Share(total, n, k))
  {
  }

  lemma SamePart(d: seq<Element>, e: seq<Element>, at: nat, k: nat, s: nat)
    requires at + |d| <= |e| && e[at..at + |d|] == d && k + s <= |d|
    ensures e[at + k..at + k + s] == d[k..k + s]
  {
    var a, b := e[at + k..at + k + s], d[k..k + s];
    forall j | 0 <= j < s ensures a[j] == b[j] {
      assert d[k + j] == e[at..at + |d|][k + j];
    }
  }

  lemma LeastSize(capacity: nat)
    requires 1 <= capacity
    ensures LeastFor(Hyperceil(Log2(capacity)), capacity)
  {
    hide Pow2, CeilLog2, Log2;
    var n := Log2(capacity);
    Log2Pow2(CeilLog2(n));
    HyperceilLeast(n, n);
    forall k | n <= Pow2(k) ensures Hyperceil(n) <= Pow2(k) {
      HyperceilLeast(n, k);
      Pow2Le(CeilLog2(n), k);
    }
    Pow2Le(0, CeilLog2(n));
    PowZero();
  }

  lemma DenseEnough(n: nat, wl: nat, s: nat)
    requires 1 <= wl && 1 <= s && Density(n, wl, s) >= UPPER
    ensures 3 * (wl * s) <= 4 * n
  {
    var w := (wl * s) as real;
    assert n as real / w * w == n as real;
  }

  /** A segment without room is full. */
  lemma FullSegment(e: seq<Element>, s: nat, ns: nat, i: nat)
    requires Segmented(e, s, ns) && i < ns && !HasRoom(e, Base(i, s), s)
    ensures SegmentElements(e, s, ns, i) == s
  {
    SegmentAt(e, s, ns, i);
    EndsAlive(e, Base(i, s), s, s);
  }

  /** The cells between `start` and `end` have moved right by one; what is left at `start` does not matter. */
  ghost predicate MovedRight(e: seq<Element>, e': seq<Element>, start: nat, end: nat) {
    && start <= end < |e| == |e'|
    && e'[..start] == e[..start] && e'[start + 1..end + 1] == e[start..end] && e'[end + 1..] == e[end + 1..]
  }

  method MoveCells(elements: array<Element>, start: nat, end: nat)
    requires start <= end < elements.Length
    modifies elements
    ensures MovedRight(old(elements[..]), elements[..], start, end)
  {
    ghost var e := elements[..];
    var k := end;
    while k > start
      invariant start <= k <= end && elements[..k + 1] == e[..k + 1] && elements[k + 1..end + 1] == e[k..end] && elements[end + 1..] == e[end + 1..]
    {
      ghost var moved := elements[k + 1..end + 1];
      elements[k] := elements[k - 1];
      k := k - 1;
      assert elements[k + 1..end + 1] == [e[k]] + moved;
      assert e[k..end] == [e[k]] + e[k + 1..end];
    }
    elements[start] := (-1, elements[start].1);
  }

  lemma PutAt(e: seq<Element>, e': seq<Element>, start: nat, end: nat, x: Element)
    requires MovedRight(e, e', start, end)
    ensures e'[start := x] == Shifted(e, start, end, x)
  {
    assert e'[start := x] == e'[..start] + [x] + e'[start + 1..end + 1] + e'[end + 1..];
  }

  /** The first cell from an occupied one on whose key is not below `key`; empty cells have a key below all others. */
  method ScanTo(elements: array<Element>, from: nat, key: int, ghost r: nat) returns (pos: nat, ghost q: nat)
    requires Pointing(elements[..], from, r)
    ensures from <= pos <= elements.Length && r <= q == |Alive(elements[..pos])| <= |Alive(elements[..])|
    ensures forall j | r <= j < q :: Alive(elements[..])[j].0 < key
    ensures pos < elements.Length ==> key <= elements[pos].0
    ensures (key < 0 ==> pos == from) && (pos == elements.Length ==> q == |Alive(elements[..])|)
    ensures pos < elements.Length && Live(elements[pos]) ==> Pointing(elements[..], pos, q)
    ensures pos < elements.Length && 0 <= key ==> Live(elements[pos])
  {
    hide Alive;
    ghost var e := elements[..];
    pos, q := from, r;
    AliveWithin(e, pos);
    while pos < elements.Length && elements[pos].0 < key
      invariant from <= pos <= |e| && r <= q == |Alive(e[..pos])| <= |Alive(e)| && (key < 0 ==> pos == from)
      invariant forall j | r <= j < q :: Alive(e)[j].0 < key
    {
      OneCell(e, pos);
      q := |Alive(e[..pos + 1])|;
      pos := pos + 1;
      AliveWithin(e, pos);
    }
    AliveWithin(e, pos);
    assert elements[..pos] == e[..pos];
  }

  lemma OneCell(e: seq<Element>, pos: nat)
    requires pos < |e|
    ensures |Alive(e[..pos + 1])| == |Alive(e[..pos])| + if Live(e[pos]) then 1 else 0
    ensures Live(e[pos]) ==> |Alive(e[..pos])| < |Alive(e)| && Alive(e)[|Alive(e[..pos])|] == e[pos]
  {
    assert e[..pos + 1] == e[..pos] + [e[pos]];
    AliveJoin(e[..pos], [e[pos]]);
    AliveOne(e[pos]);
    if Live(e[pos]) {
      PointingAt(e, pos, |Alive(e[..pos])|);
    }
  }

  /** An iterator over the pairs of a range. */
  class Iterator {
    const elements: array<Element>
    var pos: nat
    const keyMax: int
    ghost var rank: nat

    ghost predicate Valid()
      reads this, elements
    {
      && pos <= elements.Length && rank == |Alive(elements[..pos])| <= |Alive(elements[..])| && Sorted(Alive(elements[..]))
      && (pos < elements.Length ==> Live(elements[pos])) && (pos == elements.Length ==> rank == |Alive(elements[..])|)
    }

    /** What is still to come. */
    ghost function Remaining(): (s: seq<Element>)
      requires Valid()
      reads this, elements
    {
      var a, hi := Alive(elements[..]), First(Alive(elements[..]), keyMax + 1);
      if rank <= hi then a[rank..hi] else []
    }

    constructor (elements: array<Element>, pos: nat, keyMax: int, ghost rank: nat)
      requires pos <= elements.Length && rank == |Alive(elements[..pos])| <= |Alive(elements[..])| && Sorted(Alive(elements[..]))
      requires (pos < elements.Length ==> Live(elements[pos])) && (pos == elements.Length ==> rank == |Alive(elements[..])|)
      ensures Valid() && this.elements == elements && this.pos == pos && this.keyMax == keyMax && this.rank == rank
    {
      this.elements, this.pos, this.keyMax, this.rank := elements, pos, keyMax, rank;
    }

    predicate HasNext()
      requires Valid()
      reads this, elements
    {
      pos < elements.Length && elements[pos].0 >= 0 && elements[pos].0 <= keyMax
    }

    /** next: the first of the remaining pairs. */
    method Next() returns (x: Element)
      requires Valid() && HasNext()
      modifies this
      ensures Valid() && old(Remaining()) != [] && x == old(Remaining())[0] && Remaining() == old(Remaining())[1..]
    {
      hide Alive, First, Sorted;
      ghost var e := elements[..];
      x := elements[pos];
      OneCell(e, pos);
      assert elements[..pos] == e[..pos];
      HeadInRange(Alive(e), rank, keyMax);
      var next := NextLive(elements, pos);
      NextPointing(e, pos, rank, next);
      AliveWithin(e, next);
      assert elements[..next] == e[..next];
      pos, rank := next, rank + 1;
    }
  }

  lemma HeadInRange(a: seq<Element>, rank: nat, max: int)
    requires Sorted(a) && rank < |a|
    ensures a[rank].0 <= max <==> rank < First(a, max + 1)
  {
  }

  /** hasNext says exactly whether pairs are left. */
  lemma HasNextExact(it: Iterator)
    requires it.Valid()
    ensures it.HasNext() <==> it.Remaining() != []
  {
    hide Alive, First, Sorted;
    var e := it.elements[..];
    if it.pos < it.elements.Length {
      OneCell(e, it.pos);
      assert it.elements[..it.pos] == e[..it.pos];
      HeadInRange(Alive(e), it.rank, it.keyMax);
    }
  }

  lemma NoAggregate()
    ensures Aggregate([]) == SumResult(0, 0, 0, 0, 0)
  {
  }

  /** Add up from an occupied cell on as long as keys are within the range. */
  method AddUp(elements: array<Element>, first: nat, max: int, ghost lo: nat) returns (sum: SumResult)
    requires Pointing(elements[..], first, lo) && elements[first].0 <= max && Sorted(Alive(elements[..]))
    ensures var a := Alive(elements[..]); lo <= First(a, max + 1) && sum == Aggregate(a[lo..First(a, max + 1)])
  {
    hide Alive, First, Sorted, SumKeys, SumValues;
    ghost var e, a := elements[..], Alive(elements[..]);
    PointingAt(e, first, lo);
    var i: nat, last: nat := first, first;
    var count, keys, values := 0, 0, 0;
    ghost var t := lo;
    NoSum(a, lo);
    while i < elements.Length && elements[i].0 <= max
      invariant first <= i <= |e| && lo <= t == |Alive(e[..i])| <= |a| && (i == first ==> t == lo) && (first < i ==> lo < t)
      invariant last < |e| && (lo < t ==> e[last] == a[t - 1] && a[t - 1].0 <= max)
      invariant count == t - lo && keys == SumKeys(a[lo..t]) && values == SumValues(a[lo..t])
    {
      OneCell(e, i);
      if elements[i].0 >= 0 {
        SumStep(a, lo, t);
        keys, values, count, last := keys + elements[i].0, values + elements[i].1, count + 1, i;
        t := t + 1;
      }
      i := i + 1;
    }
    RangeEnd(e, i, t, max);
    assert a[lo..t][0] == a[lo] && a[lo..t][t - lo - 1] == a[t - 1];
    sum := SumResult(elements[first].0, elements[last].0, count, keys, values);
  }

  lemma RangeEnd(e: seq<Element>, i: nat, t: nat, max: int)
    requires i <= |e| && t == |Alive(e[..i])| <= |Alive(e)| && Sorted(Alive(e)) && (i < |e| ==> e[i].0 > max) && 0 <= max
    requires 0 < t ==> Alive(e)[t - 1].0 <= max
    ensures First(Alive(e), max + 1) == t
  {
    hide Alive;
    var a := Alive(e);
    AliveWithin(e, i);
    if i < |e| {
      OneCell(e, i);
    }
    FirstIs(a, max + 1, t);
  }

  /** A lower bound that tells empty cells from others: stored keys are not negative. */
  function NotBelow(min: int): (k: nat) {
    if min < 0 then 0 else min
  }

  /** One element more at pointer `i`, which has split in two if it had as many as allowed. */
  ghost predicate Regrouped(c: seq<nat>, k: seq<int>, c': seq<nat>, k': seq<int>, i: nat, most: nat)
    requires i < |c| == |k| + 1
  {
    var n := c[i] + 1;
    if n <= most then c' == c[i := n] && k' == k
    else c' == Halved(c[i := n], i, n / 2) && |k'| == |k| + 1 && k' == InsertAt(k, i, k'[i])
  }

  class BTreePMA {
    const storageB: nat
    var elements: array<Element>
    var capacity: nat
    var segmentCapacity: nat
    var height: nat
    var cardinality: nat
    var pointers: seq<nat>
    var cards: seq<nat>
    var separators: seq<int>

    ghost predicate Shaped()
      reads this
    {
      4 <= storageB && elements.Length == capacity && 1 <= height && Sized(segmentCapacity, Pow2(height - 1), height, capacity)
    }

    ghost predicate Valid()
      reads this, elements
    {
      Shaped() && Holds(elements[..], segmentCapacity, Pow2(height - 1), cardinality, pointers, cards, separators, storageB)
    }

    /** The stored pairs in key order. */
    ghost function Contents(): (s: seq<Element>)
      reads this, elements
    {
      Alive(elements[..])
    }

    constructor (storageB: nat)
      requires 4 <= storageB
      ensures Valid() && Contents() == [] && fresh(elements) && this.storageB == storageB && capacity == 8
    {
      this.storageB := storageB;
      elements := new Element[STORAGE_MIN_CAPACITY](_ => EMPTY);
      capacity, segmentCapacity := STORAGE_MIN_CAPACITY, STORAGE_MIN_CAPACITY;
      height, cardinality := 1, 0;
      pointers, cards, separators := [], [], [];
      new;
      NoneAlive(elements[..]);
      FirstSizes();
    }

    /** storage_get_num_segments */
    method Segments() returns (n: nat)
      requires Shaped()
      ensures n == Pow2(height - 1)
    {
      hide Pow2;
      BaseIsProduct(Pow2(height - 1), segmentCapacity);
      DivUnique(capacity, segmentCapacity, Pow2(height - 1), 0);
      n := capacity / segmentCapacity;
    }

    /** The pointer the search for a key ends at: the one before the first separator that is not below it. */
    method Search(key: int) returns (i: nat)
      requires |pointers| == |separators| + 1
      ensures i < |pointers| && (forall j | 0 <= j < i :: separators[j] < key) && (i < |separators| ==> key <= separators[i])
    {
      i := 0;
      while i < |pointers| - 1 && separators[i] < key
        invariant i <= |separators| && forall j | 0 <= j < i :: separators[j] < key
      {
        i := i + 1;
      }
    }

    /** From a pointer to the first element that is not below the key, or to the end of the array. */
    method Walk(i: nat, key: int) returns (pos: nat, ghost q: nat)
      requires Valid() && 0 < cardinality && i < |pointers|
      requires (forall j | 0 <= j < i :: separators[j] < key) && (i < |separators| ==> key <= separators[i])
      ensures pos <= capacity && q == |Alive(elements[..pos])| && (pos < capacity ==> Live(elements[pos]))
      ensures |Ranks(cards)| == |pointers| && Belongs(Contents(), Ranks(cards), i, key, q) && (pos == capacity ==> q == |Contents()|)
    {
      hide Alive, Sum, Base, Segmented, Roomy, Sorted, Sized, Belongs;
      ghost var e := elements[..];
      IndexAt(e, pointers, cards, separators, storageB, i);
      pos := pointers[i];
      q := Ranks(cards)[i];
      LessBefore(e, cards, separators, i, key);
      while pos < capacity && key > elements[pos].0
        invariant pos <= capacity && q == |Alive(e[..pos])| && (pos < capacity ==> Pointing(e, pos, q))
        invariant q <= |Alive(e)| && Ranks(cards)[i] <= q && (forall j | 0 <= j < q :: Alive(e)[j].0 < key)
        decreases capacity - pos
      {
        var next := NextLive(elements, pos);
        NextPointing(e, pos, q, next);
        PointingAt(e, pos, q);
        AliveWithin(e, next);
        pos := next;
        q := q + 1;
      }
      assert pos == capacity ==> e[..pos] == e;
      if pos < capacity {
        PointingAt(e, pos, q);
      }
      assert elements[..pos] == e[..pos];
      Found(e, cards, separators, i, key, q);
    }

    /** storage_shift_right: the cells from `start` to the empty one at `start + length` move right, and so do the
        pointers to them. */
    method ShiftRight(i: nat, start: nat, length: nat)
      requires elements.Length == capacity && start + length < capacity && i < |pointers| && Rising(pointers) && pointers[i] <= start
      modifies this`pointers, elements
      ensures MovedRight(old(elements[..]), elements[..], start, start + length)
      ensures |pointers| == |old(pointers)|
      ensures forall g | 0 <= g < |pointers| :: pointers[g] == Followed(old(pointers)[g], start, start + length)
    {
      var end := start + length;
      MoveCells(elements, start, end);
      ghost var p, e := pointers, elements[..];
      var g := i;
      while g < |pointers| && pointers[g] < end
        invariant i <= g <= |pointers| == |p|
        invariant forall l | 0 <= l < |p| :: pointers[l] == if l < g then Followed(p[l], start, end) else p[l]
        modifies this`pointers
      {
        if pointers[g] >= start {
          pointers := pointers[g := pointers[g] + 1];
        }
        g := g + 1;
      }
      assert elements[..] == e;
    }

    /** The first empty cell from an occupied one on: it lies in the same segment. */
    method FirstGap(pos: nat, ghost seg: nat) returns (gap: nat)
      requires Shaped() && pos < capacity && Live(elements[pos]) && Segmented(elements[..], segmentCapacity, Pow2(height - 1))
      requires Roomy(elements[..], segmentCapacity, Pow2(height - 1))
      requires seg < Pow2(height - 1) && Base(seg, segmentCapacity) <= pos < Base(seg, segmentCapacity) + segmentCapacity
      ensures SlotIn(elements[..], segmentCapacity, seg, pos, gap)
    {
      hide Base, Segmented, Roomy, Pow2, Packed, Sized;
      ghost var e, s, ns, b := elements[..], segmentCapacity, Pow2(height - 1), Base(seg, segmentCapacity);
      SegmentAt(e, s, ns, seg);
      RoomAt(e, s, ns, seg);
      gap := pos;
      while gap < capacity && elements[gap].0 >= 0
        invariant pos <= gap < b + s && forall p | pos <= p < gap :: Live(e[p])
      {
        gap := gap + 1;
      }
      SlotFits(e, s, seg, pos, gap);
    }

    /** Find the slot for a new element: behind all others, or where the cells from the first greater or equal
        element on have moved right to make room. */
    method MakeSlot(i: nat, key: int) returns (index: nat, ghost seg: nat, ghost gap: nat)
      requires Valid() && 0 < cardinality && i < |pointers|
      requires (forall j | 0 <= j < i :: separators[j] < key) && (i < |separators| ==> key <= separators[i])
      modifies this`pointers, elements
      ensures seg < Pow2(height - 1) && SlotIn(old(elements[..]), segmentCapacity, seg, index, gap)
      ensures |Ranks(cards)| == |cards| == |pointers| == |old(pointers)|
      ensures Belongs(old(Contents()), Ranks(cards), i, key, |Alive(old(elements[..index]))|)
      ensures MovedRight(old(elements[..]), elements[..], index, gap)
      ensures forall g | 0 <= g < |pointers| :: pointers[g] == Followed(old(pointers)[g], index, gap)
    {
      hide Base, Segmented, Roomy, Pow2, Packed, Sized, Alive, Sum, Sorted, Belongs, Points, Rising, Ranks, Separated, Indexed, MovedRight, Followed;
      ghost var e, s, ns, c, p := elements[..], segmentCapacity, Pow2(height - 1), cards, pointers;
      SizedParts(s, ns, height, capacity);
      HoldsParts(e, s, ns, cardinality, p, c, separators, storageB);
      var pos, q := Walk(i, key);
      if pos == capacity {
        seg := ns - 1;
        var last := Segments();
        last := last - 1;
        SegmentAt(e, s, ns, last);
        var m := SegmentCardinality(elements, segmentCapacity, last);
        BaseIsProduct(last, s);
        index := last * segmentCapacity + m;
        gap := index;
        LastSlot(e, s, ns, m);
        NothingMoved(e, p, gap);
        assert elements[..index] == e[..index];
      } else {
        index := pos;
        seg := SegmentOf(s, ns, pos);
        var j := FirstGap(pos, seg);
        gap := j;
        PointersRise(e, p, Ranks(c));
        BelongsAfter(e, p, c, i, key, pos);
        ShiftRight(i, pos, j - pos);
        assert old(elements[..index]) == e[..index];
      }
    }

    /** insert_storage: the pair goes into the array in sorted place, before pairs with the same key, and the
        pointers follow the elements they lead to. */
    method InsertStorage(i: nat, key: int, value: int)
      requires Valid() && 0 < cardinality && 0 <= key && i < |pointers|
      requires (forall j | 0 <= j < i :: separators[j] < key) && (i < |separators| ==> key <= separators[i])
      modifies this`elements, this`capacity, this`segmentCapacity, this`height, this`cardinality, this`pointers, elements
      ensures Shaped() && cardinality == old(cardinality) + 1 == |Contents()| && (elements == old(elements) || fresh(elements))
      ensures Contents() == InsertAt(old(Contents()), First(old(Contents()), key), (key, value)) && Sorted(Contents())
      ensures Segmented(elements[..], segmentCapacity, Pow2(height - 1)) && Roomy(elements[..], segmentCapacity, Pow2(height - 1))
      ensures |pointers| == |old(cards)| == |old(pointers)| && CountedEach(old(cards), storageB)
      ensures var c := old(cards)[i := old(cards)[i] + 1];
              Points(elements[..], pointers, Ranks(c)) && Sum(c, 0, |c|) == cardinality && Separated(Contents(), c, separators)
      ensures Settled(old(elements[..]), old(segmentCapacity), old(height), (key, value), elements[..], segmentCapacity, height)
      ensures capacity == old(capacity) || (capacity == 2 * old(capacity) && 3 * old(capacity) <= 4 * cardinality)
    {
      hide Rebalanced, Base, Segmented, Roomy, Pow2, Packed, Sized, Alive, Sum, Sorted, Belongs, Points, Rising, Ranks, Separated, Shifted, Indexed, MovedRight, Followed, Grown, First, InsertAt, SlotIn, CountedEach, Holds, Roomy;
      ghost var e, s, ns, c, p := elements[..], segmentCapacity, Pow2(height - 1), cards, pointers;
      SizedParts(s, ns, height, capacity);
      HoldsParts(e, s, ns, cardinality, p, c, separators, storageB);
      var index;
      ghost var seg, gap;
      index, seg, gap := MakeSlot(i, key);
      SlotWithin(e, s, seg, index, gap);
      assert old(elements[..index]) == e[..index];
      PutAt(e, elements[..], index, gap, (key, value));
      elements[index] := (key, value);
      cardinality := cardinality + 1;
      if index < pointers[i] {
        pointers := pointers[i := index];
      }
      AfterInsertion(e, s, ns, p, c, separators, storageB, i, seg, index, gap, (key, value), pointers);
      SegmentIndex(s, ns, seg, index);
      Rebalance(i, index, Ranks(c[i := c[i] + 1]));
      SettledBy(e, s, old(height), (key, value), elements[..], segmentCapacity, height, seg, index, gap);
    }

    /** insert: one pair more in its sorted place, before pairs with the same key. */
    method Insert(key: int, value: int)
      requires Valid() && 0 <= key
      modifies this`elements, this`capacity, this`segmentCapacity, this`height, this`cardinality, this`pointers, this`cards, this`separators, elements
      ensures Valid() && cardinality == old(cardinality) + 1
      ensures Contents() == InsertAt(old(Contents()), First(old(Contents()), key), (key, value))
      ensures elements == old(elements) || fresh(elements)
      ensures old(cardinality) != 0 ==> Settled(old(elements[..]), old(segmentCapacity), old(height), (key, value), elements[..], segmentCapacity, height)
      ensures capacity == old(capacity) || (capacity == 2 * old(capacity) && 3 * old(capacity) <= 4 * cardinality)
    {
      hide Base, Segmented, Roomy, Pow2, Packed, Sized, Alive, Sum, Sorted, Points, Ranks, Separated, First, Settled;
      if cardinality == 0 {
        InsertEmpty(key, value);
        return;
      }
      HoldsParts(elements[..], segmentCapacity, Pow2(height - 1), cardinality, pointers, cards, separators, storageB);
      var i := Search(key);
      InsertFrom(i, key, value);
    }

    /** insert_leaf: the insertion at the pointer the search has come to. The pointer counts one element more, or
        gives half of its elements to a new one behind it. */
    method InsertFrom(i: nat, key: int, value: int)
      requires Valid() && 0 <= key && 0 < cardinality && i < |pointers|
      requires (forall j | 0 <= j < i :: separators[j] < key) && (i < |separators| ==> key <= separators[i])
      modifies this`elements, this`capacity, this`segmentCapacity, this`height, this`cardinality, this`pointers, this`cards, this`separators, elements
      ensures Valid() && cardinality == old(cardinality) + 1
      ensures Contents() == InsertAt(old(Contents()), First(old(Contents()), key), (key, value))
      ensures elements == old(elements) || fresh(elements)
      ensures old(cardinality) != 0 ==> Settled(old(elements[..]), old(segmentCapacity), old(height), (key, value), elements[..], segmentCapacity, height)
      ensures capacity == old(capacity) || (capacity == 2 * old(capacity) && 3 * old(capacity) <= 4 * cardinality)
      ensures i < |old(cards)| && Regrouped(old(cards), old(separators), cards, separators, i, storageB)
    {
      hide Base, Segmented, Roomy, Pow2, Packed, Sized, Alive, Sum, Sorted, Points, Ranks, Separated, First, Settled;
      HoldsParts(elements[..], segmentCapacity, Pow2(height - 1), cardinality, pointers, cards, separators, storageB);
      InsertStorage(i, key, value);
      cards := cards[i := cards[i] + 1];
      if cards[i] > storageB {
        Augment(i);
      } else {
        IndexedAgain(elements[..], pointers, cards, separators, storageB);
      }
    }

    /** insert_empty */
    method InsertEmpty(key: int, value: int)
      requires Valid() && cardinality == 0 && 0 <= key
      modifies this`cardinality, this`pointers, this`cards, this`separators, elements
      ensures Valid() && cardinality == 1 && Contents() == [(key, value)]
      ensures First(old(Contents()), key) == 0 && old(Contents()) == [] && (pointers, cards, separators) == ([0], [1], [])
    {
      hide Base, Pow2, Sized, Holds, Alive, First;
      ghost var e := elements[..];
      SizedParts(segmentCapacity, Pow2(height - 1), height, capacity);
      EmptyParts(e, segmentCapacity, Pow2(height - 1), pointers, cards, separators, storageB);
      pointers, cards, separators := [0], [1], [];
      elements[0] := (key, value);
      cardinality := 1;
      assert elements[..] == e[0 := (key, value)];
      FirstElement(e, segmentCapacity, (key, value), storageB);
    }

    /** index_leaf_augment: a pointer with too many elements gives half of them to a new one. */
    method Augment(i: nat)
      requires Shaped() && cardinality == |Contents()| && Sorted(Contents()) && i < |pointers| == |cards|
      requires Segmented(elements[..], segmentCapacity, Pow2(height - 1)) && Roomy(elements[..], segmentCapacity, Pow2(height - 1))
      requires Points(elements[..], pointers, Ranks(cards)) && Sum(cards, 0, |cards|) == cardinality && Separated(Contents(), cards, separators)
      requires |separators| + 1 == |cards| && cards[i] == storageB + 1 && forall g | 0 <= g < |cards| && g != i :: 1 <= cards[g] <= storageB
      modifies this`pointers, this`cards, this`separators
      ensures Valid() && cards == Halved(old(cards), i, old(cards)[i] / 2)
      ensures |separators| == |old(separators)| + 1 && separators == InsertAt(old(separators), i, separators[i])
    {
      hide Base, Segmented, Roomy, Pow2, Packed, Sized, Alive, Sum, Sorted, Points, Ranks, Separated, Pointing, Halved;
      ghost var e := elements[..];
      var at: nat := pointers[i];
      var half := cards[i] / 2;
      PointsOne(e, pointers, Ranks(cards), i);
      RanksRise(cards);
      EnoughBehind(cards, i);
      var j := 0;
      while j < half
        invariant 0 <= j <= half && at < capacity && Pointing(e, at, Ranks(cards)[i] + j)
        modifies {}
      {
        var next := NextLive(elements, at);
        NextPointing(e, at, Ranks(cards)[i] + j, next);
        at := next;
        j := j + 1;
      }
      Augmented(e, pointers, cards, separators, storageB, i, half, at);
      separators := InsertAt(separators, i, elements[at].0);
      pointers := InsertAt(pointers, i + 1, at);
      cards := Halved(cards, i, half);
    }

    /** find: the value of a pair with the key, or -1. */
    method Find(key: int) returns (value: int)
      requires Valid()
      ensures (exists j :: 0 <= j < |Contents()| && Contents()[j].0 == key) ==> (key, value) in Contents()
      ensures (forall j | 0 <= j < |Contents()| :: Contents()[j].0 != key) ==> value == -1
    {
      hide Base, Segmented, Roomy, Pow2, Packed, Sized, Alive, Sum, Sorted, Ranks, Separated, Indexed, Pointing;
      if cardinality == 0 {
        return -1;
      }
      HoldsParts(elements[..], segmentCapacity, Pow2(height - 1), cardinality, pointers, cards, separators, storageB);
      var i := Search(key);
      if i < |separators| && separators[i] == key {
        i := i + 1;
      }
      value := FindFrom(i, key);
    }

    /** The scan of find from the pointer the search has come to. */
    method FindFrom(i: nat, key: int) returns (value: int)
      requires Valid() && 0 < cardinality && i < |pointers| == |separators| + 1
      requires (forall j | 0 <= j < i :: separators[j] < key) || (0 < i && separators[i - 1] == key)
      ensures (exists j :: 0 <= j < |Contents()| && Contents()[j].0 == key) ==> (key, value) in Contents()
      ensures (forall j | 0 <= j < |Contents()| :: Contents()[j].0 != key) ==> value == -1
    {
      hide Base, Segmented, Roomy, Pow2, Packed, Sized, Alive, Sum, Sorted, Ranks, Separated, Indexed, Pointing;
      ghost var e := elements[..];
      HoldsParts(e, segmentCapacity, Pow2(height - 1), cardinality, pointers, cards, separators, storageB);
      IndexAt(e, pointers, cards, separators, storageB, i);
      ghost var q;
      var pos;
      pos, q := ScanTo(elements, pointers[i], key, Ranks(cards)[i]);
      FoundOrNot(e, pointers[i], cards, separators, i, key, pos, q);
      value := -1;
      if pos < capacity && elements[pos].0 == key {
        ghost var j :| 0 <= j < |Alive(e)| && Alive(e)[j].0 == key;
        assert Contents()[j].0 == key;
        value := elements[pos].1;
        assert (key, value) == e[pos];
      }
    }

    /** Where a range query starts: at the first pair that is not below the range. */
    method RangeFrom(i: nat, min: int) returns (pos: nat, ghost q: nat)
      requires Valid() && 0 < cardinality && i < |pointers| == |separators| + 1 && forall j | 0 <= j < i :: separators[j] < NotBelow(min)
      ensures pos <= capacity && q == First(Contents(), min) == |Alive(elements[..pos])|
      ensures (pos < capacity ==> Live(elements[pos])) && (pos == capacity ==> q == |Contents()|)
    {
      hide Base, Segmented, Roomy, Pow2, Packed, Sized, Alive, Sum, Sorted, Ranks, Separated, Indexed, Pointing, First;
      ghost var e := elements[..];
      HoldsParts(e, segmentCapacity, Pow2(height - 1), cardinality, pointers, cards, separators, storageB);
      IndexAt(e, pointers, cards, separators, storageB, i);
      pos, q := ScanTo(elements, pointers[i], NotBelow(min), Ranks(cards)[i]);
      assert elements[..pos] == e[..pos];
      RangeStart(e, cards, separators, i, min, pos, q);
    }

    /** find(min, max) */
    method FindRange(min: int, max: int) returns (it: Iterator)
      requires Valid()
      ensures fresh(it) && it.elements == elements && it.Valid() && it.Remaining() == Within(Contents(), min, max)
    {
      hide Base, Alive, Sorted, First, Within, Shaped, Holds;
      ghost var e := elements[..];
      ShapedSize();
      HoldsSorted(e, segmentCapacity, Pow2(height - 1), cardinality, pointers, cards, separators, storageB);
      NothingWithin(Alive(e), min, max);
      if min > max || cardinality == 0 {
        assert elements[..capacity] == e;
        it := new Iterator(elements, capacity, max, |Alive(e)|);
        HoldsEmpty(e, segmentCapacity, Pow2(height - 1), cardinality, pointers, cards, separators, storageB);
        assert it.Remaining() == [];
        return;
      }
      HoldsParts(e, segmentCapacity, Pow2(height - 1), cardinality, pointers, cards, separators, storageB);
      var i := Search(min);
      it := FindRangeFrom(i, min, max);
    }

    /** The iterator of a range query from the pointer the search has come to. */
    method FindRangeFrom(i: nat, min: int, max: int) returns (it: Iterator)
      requires Valid() && 0 < cardinality && min <= max && i < |pointers| == |separators| + 1 && forall j | 0 <= j < i :: separators[j] < NotBelow(min)
      ensures fresh(it) && it.elements == elements && it.Valid() && it.Remaining() == Within(Contents(), min, max)
    {
      hide Base, Alive, Sorted, First, Within, Shaped, Holds;
      ghost var e := elements[..];
      ShapedSize();
      HoldsSorted(e, segmentCapacity, Pow2(height - 1), cardinality, pointers, cards, separators, storageB);
      ghost var q;
      var pos;
      pos, q := RangeFrom(i, min);
      AliveWithin(e, pos);
      assert elements[..pos] == e[..pos];
      WithinIsSlice(Alive(e), min, max);
      it := new Iterator(elements, pos, max, q);
    }

    lemma ShapedSize()
      requires Shaped()
      ensures elements.Length == capacity && 1 <= height
    {
    }

    /** sum(min, max): count, sums, first and last key of exactly the pairs in the range. */
    method SumRange(min: int, max: int) returns (sum: SumResult)
      requires Valid()
      ensures sum == Aggregate(Within(Contents(), min, max))
    {
      hide Base, Alive, Sorted, Pointing, First, Within, Aggregate;
      ghost var e := elements[..];
      NoAggregate();
      HoldsSorted(e, segmentCapacity, Pow2(height - 1), cardinality, pointers, cards, separators, storageB);
      NothingWithin(Alive(e), min, max);
      if min > max || cardinality == 0 {
        return SumResult(0, 0, 0, 0, 0);
      }
      HoldsParts(e, segmentCapacity, Pow2(height - 1), cardinality, pointers, cards, separators, storageB);
      var i := Search(NotBelow(min));
      sum := SumRangeFrom(i, min, max);
    }

    /** The aggregate of a range from the pointer the search has come to. */
    method SumRangeFrom(i: nat, min: int, max: int) returns (sum: SumResult)
      requires Valid() && 0 < cardinality && min <= max && i < |pointers| == |separators| + 1 && forall j | 0 <= j < i :: separators[j] < NotBelow(min)
      ensures sum == Aggregate(Within(Contents(), min, max))
    {
      hide Base, Alive, Sorted, Pointing, First, Within, Aggregate;
      ghost var e := elements[..];
      NoAggregate();
      HoldsSorted(e, segmentCapacity, Pow2(height - 1), cardinality, pointers, cards, separators, storageB);
      ghost var q;
      var pos;
      pos, q := RangeFrom(i, min);
      AliveWithin(e, pos);
      assert elements[..pos] == e[..pos];
      WithinIsSlice(Alive(e), min, max);
      if pos >= capacity || elements[pos].0 > max {
        NothingInRange(e, pos, q, min, max);
        return SumResult(0, 0, 0, 0, 0);
      }
      IsPointing(e, pos, q);
      sum := AddUp(elements, pos, max, q);
    }

    /** storage_rebalance: when the segment of the new element has filled up, spread a window or grow the array.
        Afterwards every segment has room, the contents are the same, and so is the element each pointer
        leads to. */
    method Rebalance(i: nat, index: nat, ghost r: seq<nat>)
      requires Shaped() && i < |pointers| == |r| && index < capacity
      requires Grown(elements[..], segmentCapacity, Pow2(height - 1), index / segmentCapacity)
      requires Points(elements[..], pointers, r) && Rising(r) && cardinality == |Alive(elements[..])|
      modifies this`elements, this`capacity, this`segmentCapacity, this`height, this`pointers, elements
      ensures Shaped() && Contents() == old(Contents()) && Points(elements[..], pointers, r) && |pointers| == |r|
      ensures Segmented(elements[..], segmentCapacity, Pow2(height - 1)) && Roomy(elements[..], segmentCapacity, Pow2(height - 1))
      ensures elements == old(elements) || fresh(elements)
      ensures Rebalanced(old(elements[..]), old(segmentCapacity), old(height), index, elements[..], segmentCapacity, height)
      ensures capacity == old(capacity) || (capacity == 2 * old(capacity) && 3 * old(capacity) <= 4 * cardinality)
    {
      hide EvenSegments, LeastFor, NoneSparse, SmallestSparse, WindowSpread, Filled, Base, Segmented, Packed, Alive, Points, Rising, HasRoom, Roomy, Pow2, Sized, Density, Elements, SegmentElements, Calibrator.WindowStart, Thresholds;
      ghost var e, s, ns := elements[..], segmentCapacity, Pow2(height - 1);
      SizedParts(s, ns, height, capacity);
      var seg := index / segmentCapacity;
      var full := IsFull(elements, segmentCapacity, ns, seg);
      if !full {
        AllRoom(e, s, ns, seg);
        return;
      }
      FullSegment(e, s, ns, seg);
      ghost var h;
      var sparse, n, ws, wl;
      sparse, n, ws, wl, h := Climb(elements, segmentCapacity, ns, height, seg);
      if sparse {
        SparseRoom(n, s, height, h);
        OthersRoom(e, s, ns, seg, ws, wl);
        pointers := PackedRebalance.Spread(elements, segmentCapacity, ns, i, n, ws, wl, pointers, r);
        SpreadWindow(e, elements[..], s, seg, h, n);
      } else {
        AllCounted(e, s, ns, height, capacity, n, ws, wl);
        Resize(r);
        SizedParts(segmentCapacity, Pow2(height - 1), height, capacity);
      }
    }

    /** storage_resize */
    method Resize(ghost r: seq<nat>)
      requires Shaped() && Segmented(elements[..], segmentCapacity, Pow2(height - 1)) && Points(elements[..], pointers, r) && Rising(r) && 0 < |pointers| == |r|
      requires cardinality == |Alive(elements[..])| && capacity <= 2 * cardinality && cardinality <= capacity
      modifies this`elements, this`capacity, this`segmentCapacity, this`height, this`pointers
      ensures Shaped() && Contents() == old(Contents()) && Points(elements[..], pointers, r) && |pointers| == |r|
      ensures Segmented(elements[..], segmentCapacity, Pow2(height - 1)) && Roomy(elements[..], segmentCapacity, Pow2(height - 1))
      ensures fresh(elements)
      ensures capacity == 2 * old(capacity) && LeastFor(segmentCapacity, capacity) && EvenSegments(elements[..], segmentCapacity, 0, Pow2(height - 1))
    {
      hide EvenSegments, LeastFor, Filled, Base, Segmented, Packed, Alive, Points, Rising, HasRoom, Roomy, Pow2, Sized, CeilLog2, Log2;
      var newCapacity := capacity * 2;
      GrownSizes(segmentCapacity, Pow2(height - 1), height, capacity);
      var newSegment := Hyperceil(Log2(newCapacity));
      var segments := newCapacity / newSegment;
      SizedParts(newSegment, segments, Log2(segments) + 1, newCapacity);
      GrownRoom(cardinality, segments, newSegment, capacity);
      FirstCell(elements[..], segmentCapacity, Pow2(height - 1));
      elements, pointers := PackedRebalance.Regrow(elements, newSegment, segments, cardinality, pointers, r);
      capacity, segmentCapacity := newCapacity, newSegment;
      height := Log2(newCapacity / newSegment) + 1;
      LeastSize(newCapacity);
      WholeFilled(elements[..], segmentCapacity, segments, cardinality);
    }
  }

  lemma SettledBy(e: seq<Element>, s: nat, height: nat, x: Element, e': seq<Element>, s': nat, height': nat, seg: nat, pos: nat, gap: nat)
    requires SlotIn(e, s, seg, pos, gap) && Rebalanced(Shifted(e, pos, gap, x), s, height, pos, e', s', height')
    ensures Settled(e, s, height, x, e', s', height')
  {
  }

  lemma SpreadWindow(e: seq<Element>, e': seq<Element>, s: nat, seg: nat, h: nat, n: nat)
    requires 1 <= h
    requires var ws, wl := Calibrator.WindowStart(seg, h), Pow2(h - 1);
             && Base(ws, s) <= Base(ws + wl, s) <= |e| == |e'| && Filled(e'[Base(ws, s)..Base(ws + wl, s)], s, n, wl, wl)
             && e'[..Base(ws, s)] == e[..Base(ws, s)] && e'[Base(ws + wl, s)..] == e[Base(ws + wl, s)..]
    ensures WindowSpread(e, e', s, seg, h)
  {
    hide Filled, Base, EvenSegments, Pow2, Calibrator.WindowStart;
    var ws, wl := Calibrator.WindowStart(seg, h), Pow2(h - 1);
    BaseSum(ws, wl, s);
    FilledEven(e'[Base(ws, s)..Base(ws + wl, s)], e', s, ws, wl, n);
  }

  lemma WholeFilled(e: seq<Element>, s: nat, n: nat, total: nat)
    requires 0 < n && |e| == Base(n, s) && Filled(e, s, total, n, n)
    ensures EvenSegments(e, s, 0, n)
  {
    assert Base(0, s) == 0 && e[0..|e|] == e && 0 + n == n;
    FilledEven(e, e, s, 0, n, total);
  }

  lemma IndexAt(e: seq<Element>, p: seq<nat>, c: seq<nat>, k: seq<int>, most: nat, i: nat)
    requires Indexed(e, p, c, k, most) && i < |p|
    ensures |p| == |c| == |k| + 1 && Pointing(e, p[i], Ranks(c)[i]) && Separated(Alive(e), c, k)
    ensures p[i] < |e| && Live(e[p[i]]) && Ranks(c)[i] == |Alive(e[..p[i]])| < |Alive(e)|
  {
    hide Alive, Ranks, Sum;
    PointingAt(e, p[i], Ranks(c)[i]);
  }

  lemma LessBefore(e: seq<Element>, c: seq<nat>, k: seq<int>, i: nat, key: int)
    requires Separated(Alive(e), c, k) && Sorted(Alive(e)) && i < |c| && forall j | 0 <= j < i :: k[j] < key
    ensures Ranks(c)[i] <= |Alive(e)| ==> forall j | 0 <= j < Ranks(c)[i] :: Alive(e)[j].0 < key
  {
    hide Alive, Sum;
    if 0 < i {
      assert SeparatedAt(Alive(e), c, k, i - 1);
    } else {
      NoneBefore(c);
    }
  }

  lemma NoneBefore(c: seq<nat>)
    ensures Sum(c, 0, 0) == 0
  {
  }

  lemma AliveWithin(e: seq<Element>, n: nat)
    requires n <= |e|
    ensures |Alive(e[..n])| <= |Alive(e)|
    ensures n == |e| ==> Alive(e[..n]) == Alive(e)
  {
    AliveSplit(e, n, n);
    assert n == |e| ==> e[..n] == e;
  }

  /** The walk ends where the new element belongs. */
  lemma Found(e: seq<Element>, c: seq<nat>, k: seq<int>, i: nat, key: int, q: nat)
    requires Separated(Alive(e), c, k) && Sorted(Alive(e)) && i < |c| && Ranks(c)[i] <= q <= |Alive(e)| && Ranks(c)[i] < |Alive(e)|
    requires (forall j | 0 <= j < i :: k[j] < key) && (i < |k| ==> key <= k[i])
    requires (forall j | 0 <= j < q :: Alive(e)[j].0 < key) && (q < |Alive(e)| ==> key <= Alive(e)[q].0)
    ensures Belongs(Alive(e), Ranks(c), i, key, q)
  {
    hide Alive, Sum;
    if 0 < i {
      assert SeparatedAt(Alive(e), c, k, i - 1);
    }
    if i + 1 < |c| {
      assert SeparatedAt(Alive(e), c, k, i);
    }
  }

  /** A slot for a new element at `pos`: the cells of the segment before `gap` are occupied, the others empty. */
  ghost predicate SlotIn(e: seq<Element>, s: nat, seg: nat, pos: nat, gap: nat) {
    && Base(seg, s) <= pos <= gap < Base(seg, s) + s <= |e|
    && (forall p | Base(seg, s) <= p < gap :: Live(e[p])) && (forall p | gap <= p < Base(seg, s) + s :: !Live(e[p]))
  }

  ghost predicate CountedEach(c: seq<nat>, most: nat) {
    forall g | 0 <= g < |c| :: 1 <= c[g] <= most
  }

  lemma SlotWithin(e: seq<Element>, s: nat, seg: nat, pos: nat, gap: nat)
    requires SlotIn(e, s, seg, pos, gap)
    ensures Base(seg, s) <= pos < Base(seg, s) + s <= |e| && pos <= gap < |e|
  {
  }

  lemma RoomAt(e: seq<Element>, s: nat, ns: nat, i: nat)
    requires Roomy(e, s, ns) && i < ns
    ensures HasRoom(e, Base(i, s), s)
  {
  }

  lemma SlotFits(e: seq<Element>, s: nat, seg: nat, pos: nat, gap: nat)
    requires Packed(e, Base(seg, s), s) && Base(seg, s) <= pos <= gap < Base(seg, s) + s && !Live(e[gap])
    requires Live(e[pos]) && forall p | pos <= p < gap :: Live(e[p])
    ensures SlotIn(e, s, seg, pos, gap)
  {
  }

  lemma HoldsParts(e: seq<Element>, s: nat, ns: nat, n: nat, p: seq<nat>, c: seq<nat>, k: seq<int>, most: nat)
    requires Holds(e, s, ns, n, p, c, k, most) && n != 0
    ensures Segmented(e, s, ns) && Roomy(e, s, ns) && Indexed(e, p, c, k, most) && Points(e, p, Ranks(c)) && Separated(Alive(e), c, k)
    ensures |p| == |c| == |k| + 1 && CountedEach(c, most) && Rising(Ranks(c)) && Sorted(Alive(e)) && Sum(c, 0, |c|) == n == |Alive(e)|
  {
    hide Alive, Sum;
    RanksRise(c);
  }

  /** The cell behind the last element. */
  lemma LastSlot(e: seq<Element>, s: nat, ns: nat, m: nat)
    requires Segmented(e, s, ns) && Roomy(e, s, ns) && Ends(e, Base(ns - 1, s), s, m)
    ensures var gap := Base(ns - 1, s) + m; SlotIn(e, s, ns - 1, gap, gap) && |Alive(e[..gap])| == |Alive(e)|
  {
    hide Base, Packed, Alive;
    SegmentAt(e, s, ns, ns - 1);
    RoomAt(e, s, ns, ns - 1);
    var gap := Base(ns - 1, s) + m;
    AliveSplit(e, gap, gap);
    NoneAlive(e[gap..]);
    NoneAlive(e[gap..gap]);
  }

  lemma NothingMoved(e: seq<Element>, p: seq<nat>, gap: nat)
    requires gap < |e|
    ensures MovedRight(e, e, gap, gap) && forall g | 0 <= g < |p| :: Followed(p[g], gap, gap) == p[g]
  {
  }

  lemma BelongsAfter(e: seq<Element>, p: seq<nat>, c: seq<nat>, i: nat, key: int, pos: nat)
    requires Points(e, p, Ranks(c)) && i < |p| && pos < |e| && Live(e[pos]) && Belongs(Alive(e), Ranks(c), i, key, |Alive(e[..pos])|)
    ensures p[i] <= pos
  {
    hide Alive, Ranks;
    var r := Ranks(c);
    assert Pointing(e, p[i], r[i]);
    PointingOrder(e, p[i], r[i], pos, |Alive(e[..pos])|);
  }

  lemma SegmentIndex(s: nat, ns: nat, seg: nat, index: nat)
    requires 1 <= s && seg < ns && Base(seg, s) <= index < Base(seg, s) + s
    ensures index / s == seg && index < Base(ns, s)
  {
    hide Base;
    BaseLe(seg + 1, ns, s);
    BaseNext(seg, s);
    BaseIsProduct(seg, s);
    DivUnique(index, s, seg, index - seg * s);
  }

  lemma BaseNext(i: nat, s: nat)
    ensures Base(i + 1, s) == Base(i, s) + s
  {
  }

  /** Everything that holds after a new element has gone into its slot and the pointers have followed. */
  lemma AfterInsertion(e: seq<Element>, s: nat, ns: nat, p: seq<nat>, c: seq<nat>, k: seq<int>, most: nat, i: nat, seg: nat, pos: nat, gap: nat,
                       x: Element, p': seq<nat>)
    requires Segmented(e, s, ns) && Roomy(e, s, ns) && Points(e, p, Ranks(c)) && Separated(Alive(e), c, k) && CountedEach(c, most)
    requires Rising(Ranks(c)) && Sorted(Alive(e)) && Sum(c, 0, |c|) == |Alive(e)| && i < |c| == |p| == |p'| && seg < ns && Live(x)
    requires SlotIn(e, s, seg, pos, gap) && Belongs(Alive(e), Ranks(c), i, x.0, |Alive(e[..pos])|)
    requires forall g | 0 <= g < |p| :: p'[g] == if g == i && pos < Followed(p[g], pos, gap) then pos else Followed(p[g], pos, gap)
    ensures gap < |e|
    ensures var e', c' := Shifted(e, pos, gap, x), c[i := c[i] + 1];
            && Grown(e', s, ns, seg) && Points(e', p', Ranks(c')) && Rising(Ranks(c')) && Separated(Alive(e'), c', k)
            && Alive(e') == InsertAt(Alive(e), First(Alive(e), x.0), x) && Sorted(Alive(e'))
            && Sum(c', 0, |c'|) == |Alive(e')| == |Alive(e)| + 1
  {
    hide Alive, Sum, Base, Belongs, Points, Rising, Separated, Shifted, Segmented, Roomy, Sorted, Followed, Ranks, HasRoom, SameCells, Packed;
    var e', c' := Shifted(e, pos, gap, x), c[i := c[i] + 1];
    var q := |Alive(e[..pos])|;
    ShiftedAlive(e, pos, gap, x);
    ShiftedSegments(e, s, ns, seg, pos, gap, x);
    forall l | 0 <= l < ns && l != seg ensures HasRoom(e', Base(l, s), s) {
      RoomAt(e, s, ns, l);
      RoomKept(e, e', Base(l, s), s);
    }
    SortedInserted(Alive(e), Ranks(c), i, x, q);
    SeparatedInserted(Alive(e), c, k, i, x, q);
    RanksAfter(c, i, |c|);
    forall g | 0 <= g < |c| ensures Ranks(c')[g] == Ranks(c)[g] + if i < g then 1 else 0 {
      RanksAfter(c, i, g);
      assert Ranks(c')[g] == Sum(c', 0, g) && Ranks(c)[g] == Sum(c, 0, g);
    }
    assert Ranks(c)[0] == Sum(c, 0, 0);
    NoneBefore(c);
    PointsInserted(e, p, Ranks(c), i, pos, gap, x, p', Ranks(c'));
    RanksRise(c');
  }

  lemma RoomKept(e: seq<Element>, e': seq<Element>, b: nat, s: nat)
    requires HasRoom(e, b, s) && SameCells(e, e', b, s)
    ensures HasRoom(e', b, s)
  {
  }

  lemma EmptyParts(e: seq<Element>, s: nat, ns: nat, p: seq<nat>, c: seq<nat>, k: seq<int>, most: nat)
    requires Holds(e, s, ns, 0, p, c, k, most)
    ensures ns == 1 && Alive(e) == [] && First(Alive(e), 0) == 0
    ensures forall key: int :: First(Alive(e), key) == 0
  {
  }

  /** The first element goes to the first cell. */
  lemma FirstElement(e: seq<Element>, s: nat, x: Element, most: nat)
    requires Alive(e) == [] && 2 <= s && |e| == Base(1, s) && Live(x) && 1 <= most
    ensures var e' := e[0 := x]; Holds(e', s, 1, 1, [0], [1], [], most) && Alive(e') == [x]
  {
    hide Alive;
    var e' := e[0 := x];
    assert Base(1, s) == s && Base(0, s) == 0;
    NothingAlive(e);
    AliveSplit(e', 1, 1);
    assert e'[..1] == [x] && e'[1..1] == [];
    AliveOne(x);
    NoneAlive(e'[1..1]);
    NoneAlive(e'[1..]);
    assert e'[..0] == [];
    NoneAlive(e'[..0]);
    assert Ranks([1]) == [0];
    assert Pointing(e', 0, 0);
    assert Sum([1], 0, 1) == 1;
  }

  lemma {:induction false} NothingAlive(e: seq<Element>)
    requires Alive(e) == []
    ensures forall q | 0 <= q < |e| :: !Live(e[q])
  {
    if e != [] {
      NothingAlive(e[..|e| - 1]);
    }
  }

  lemma IndexedAgain(e: seq<Element>, p: seq<nat>, c: seq<nat>, k: seq<int>, most: nat)
    requires Points(e, p, Ranks(c)) && Sum(c, 0, |c|) == |Alive(e)| && Separated(Alive(e), c, k) && CountedEach(c, most)
    ensures Indexed(e, p, c, k, most)
  {
  }

  lemma PointsOne(e: seq<Element>, p: seq<nat>, r: seq<nat>, i: nat)
    requires Points(e, p, r) && i < |p|
    ensures |p| == |r| && Pointing(e, p[i], r[i]) && p[i] < |e|
  {
  }

  /** Behind a pointer there are as many elements as it counts. */
  lemma EnoughBehind(c: seq<nat>, i: nat)
    requires i < |c| && forall g | 0 <= g < |c| :: 1 <= c[g]
    ensures Ranks(c)[i] + c[i] <= Sum(c, 0, |c|)
  {
    hide Sum;
    SumSplit(c, 0, i, |c|);
    SumSplit(c, i, i + 1, |c|);
    SumOne(c, i);
  }

  lemma SumOne(c: seq<nat>, i: nat)
    requires i < |c|
    ensures Sum(c, i, i + 1) == c[i]
  {
  }

  /** The scan that starts at the pointer of the search finds the key if it is there. */
  lemma FoundOrNot(e: seq<Element>, from: nat, c: seq<nat>, k: seq<int>, i: nat, key: int, pos: nat, q: nat)
    requires Separated(Alive(e), c, k) && Sorted(Alive(e)) && i < |c| && from < |e| && Live(e[from]) && Pointing(e, from, Ranks(c)[i])
    requires (forall j | 0 <= j < i :: k[j] < key) || (0 < i && k[i - 1] == key)
    requires from <= pos <= |e| && Ranks(c)[i] <= q == |Alive(e[..pos])| <= |Alive(e)|
    requires (forall j | Ranks(c)[i] <= j < q :: Alive(e)[j].0 < key) && (pos < |e| ==> key <= e[pos].0) && (key < 0 ==> pos == from)
    requires (pos == |e| ==> q == |Alive(e)|) && (pos < |e| && 0 <= key ==> Live(e[pos]))
    ensures if pos < |e| && e[pos].0 == key then e[pos] in Alive(e) && exists j :: 0 <= j < |Alive(e)| && Alive(e)[j].0 == key else forall j | 0 <= j < |Alive(e)| :: Alive(e)[j].0 != key
  {
    hide Alive, Sum;
    var a, r := Alive(e), Ranks(c)[i];
    PointingAt(e, from, r);
    AliveAtMost(e);
    if pos < |e| {
      OneCell(e, pos);
    }
    if 0 < i && k[i - 1] == key {
      assert SeparatedAt(a, c, k, i - 1);
    } else {
      LessBefore(e, c, k, i, key);
    }
    if key < 0 {
      forall j | 0 <= j < |a| ensures a[j].0 != key {
        assert a[j] in a;
      }
    }
  }

  /** The scan of a range query starts at the first pair that is not below the range. */
  lemma RangeStart(e: seq<Element>, c: seq<nat>, k: seq<int>, i: nat, min: int, pos: nat, q: nat)
    requires Separated(Alive(e), c, k) && Sorted(Alive(e)) && i < |c| && forall j | 0 <= j < i :: k[j] < NotBelow(min)
    requires pos <= |e| && Ranks(c)[i] <= q == |Alive(e[..pos])| <= |Alive(e)|
    requires var key := NotBelow(min);
             (forall j | Ranks(c)[i] <= j < q :: Alive(e)[j].0 < key) && (pos < |e| ==> key <= e[pos].0)
    requires (pos == |e| ==> q == |Alive(e)|) && (pos < |e| ==> Live(e[pos]))
    ensures q == First(Alive(e), min)
  {
    hide Alive, Sum;
    var a := Alive(e);
    LessBefore(e, c, k, i, NotBelow(min));
    AliveAtMost(e);
    if pos < |e| {
      OneCell(e, pos);
    }
    forall j | 0 <= j < q ensures a[j].0 < min {
      assert a[j] in a;
    }
    FirstIs(a, min, q);
  }

  lemma NothingInRange(e: seq<Element>, pos: nat, q: nat, min: int, max: int)
    requires pos <= |e| && q == |Alive(e[..pos])| <= |Alive(e)| && Sorted(Alive(e)) && min <= max && q == First(Alive(e), min)
    requires (pos == |e| ==> q == |Alive(e)|) && (pos < |e| ==> Live(e[pos]) && e[pos].0 > max)
    ensures q <= First(Alive(e), max + 1) <= q
  {
    hide Alive;
    var a := Alive(e);
    if pos < |e| {
      OneCell(e, pos);
    }
    FirstIs(a, max + 1, q);
  }

  lemma HoldsSorted(e: seq<Element>, s: nat, ns: nat, n: nat, p: seq<nat>, c: seq<nat>, k: seq<int>, most: nat)
    requires Holds(e, s, ns, n, p, c, k, most)
    ensures Sorted(Alive(e))
  {
  }

  lemma HoldsEmpty(e: seq<Element>, s: nat, ns: nat, n: nat, p: seq<nat>, c: seq<nat>, k: seq<int>, most: nat)
    requires Holds(e, s, ns, n, p, c, k, most)
    ensures n == |Alive(e)|
  {
  }

  lemma NothingWithin(a: seq<Element>, min: int, max: int)
    ensures min > max || a == [] ==> Within(a, min, max) == []
  {
    if min > max {
      NoneWithin(a, min, max);
    }
  }

  lemma IsPointing(e: seq<Element>, pos: nat, q: nat)
    requires pos < |e| && Live(e[pos]) && q == |Alive(e[..pos])|
    ensures Pointing(e, pos, q)
  {
  }

  lemma FirstSizes()
    ensures Pow2(0) == 1 && Sized(8, 1, 1, 8)
  {
    assert Log2(8) == 3 && Pow2(3) == 8;
    assert Base(1, 8) == 8;
  }

  lemma SizedParts(s: nat, ns: nat, height: nat, capacity: nat)
    requires Sized(s, ns, height, capacity)
    ensures 4 <= s && 1 <= height <= s && Calibrator.InTree(ns, height) && capacity == Base(ns, s) && 1 <= ns && 8 <= capacity
  {
  }

  method IsFull(elements: array<Element>, s: nat, ghost ns: nat, seg: nat) returns (full: bool)
    requires Segmented(elements[..], s, ns) && seg < ns
    ensures full <==> !HasRoom(elements[..], Base(seg, s), s)
  {
    hide Base, Packed;
    SegmentAt(elements[..], s, ns, seg);
    BaseIsProduct(seg + 1, s);
    full := elements[(1 + seg) * s - 1].0 >= 0;
  }

  lemma AllRoom(e: seq<Element>, s: nat, ns: nat, seg: nat)
    requires Grown(e, s, ns, seg) && HasRoom(e, Base(seg, s), s)
    ensures Roomy(e, s, ns)
  {
    hide HasRoom;
  }

  lemma OthersRoom(e: seq<Element>, s: nat, ns: nat, seg: nat, ws: nat, wl: nat)
    requires Grown(e, s, ns, seg) && ws <= seg < ws + wl
    ensures forall k | 0 <= k < ns && !(ws <= k < ws + wl) :: HasRoom(e, Base(k, s), s)
  {
    hide HasRoom;
  }

  lemma AllCounted(e: seq<Element>, s: nat, ns: nat, height: nat, capacity: nat, n: nat, ws: nat, wl: nat)
    requires Sized(s, ns, height, capacity) && |e| == capacity && wl == Pow2(height - 1) && ws + wl <= ns
    requires Base(ws, s) <= Base(ws + wl, s) <= |e| && n == Elements(e, s, ws, ws + wl) && (1 == height ==> n == s)
    requires 1 < height ==> Density(n, wl, s) >= UPPER
    ensures n == |Alive(e)| && 3 * capacity <= 4 * n && n <= capacity
  {
    hide Pow2, Elements;
    WholeWindow(e, s, ns);
    BaseIsProduct(ns, s);
    AliveAtMost(e);
    if 1 < height {
      DenseEnough(n, wl, s);
    } else {
      DoublePow2(0);
      PowZero();
      BaseIsProduct(1, s);
    }
  }

  lemma PowZero()
    ensures Pow2(0) == 1
  {
  }

  lemma FirstCell(e: seq<Element>, s: nat, ns: nat)
    requires Segmented(e, s, ns)
    ensures 0 < |e| && Live(e[0])
  {
    SegmentAt(e, s, ns, 0);
  }
}
