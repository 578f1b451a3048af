/** BTreePMA_v4: a sorted map in a clustered packed memory array, with an index of separators.
    The index is the abstract map that DynamicIndex implements. */
module ClusteredPma {
  import opened Sequences
  import opened Layout
  import opened Powers
  import opened InPlaceSpread
  import opened Regrow
  import opened SegmentInsert
  import opened SortedStore
  import opened StoreSteps
  import opened Calibrator
  import DensityBounds

  /** The sizes of the array: powers of two throughout. */
  ghost predicate Sized(cap: nat, ns: nat, height: nat, capacity: nat) {
    && PowerOfTwo(cap) && STORAGE_MIN_CAPACITY <= cap
    && InTree(ns, height) && capacity == Base(ns, cap)
  }

  /** The contents: nothing at all in a fresh array, otherwise a sorted store that the index covers. */
  ghost predicate Holds(k: seq<int>, v: seq<int>, c: seq<nat>, cap: nat, card: nat, index: map<int, nat>) {
    if card == 0 then |c| == 1 && index == map[]
    else
      && Store(k, v, c, cap)
      && Sum(c, 0, |c|) == card
      && Covers(index, Mins(k, c, cap), 0, 0)
  }

  /** Growing: twice the cells, in segments whose size follows the logarithm unless it is fixed. */
  function GrownSegmentCapacity(fixed: bool, cap: nat, capacity: nat): (s: nat)
    requires 1 <= capacity
  {
    if fixed then cap
    else if Hyperceil(Log2(capacity)) < STORAGE_MIN_CAPACITY then STORAGE_MIN_CAPACITY else Hyperceil(Log2(capacity))
  }

  lemma SizedCapacity(cap: nat, ns: nat, height: nat, capacity: nat)
    requires Sized(cap, ns, height, capacity)
    ensures 3 <= Log2(cap) && capacity == ns * cap == Pow2(height - 1 + Log2(cap))
  {
    BaseIsProduct(ns, cap);
    Pow2Sum(height - 1, Log2(cap));
    assert Pow2(2) == 4;
    if Log2(cap) < 3 {
      Pow2Le(Log2(cap), 2);
    }
  }

  /** The grown array divides evenly into segments, at least four times fewer than the old array
      had cells and with the old capacity as half of the new. */
  lemma GrownShape(fixed: bool, cap: nat, ns: nat, height: nat, capacity: nat)
    requires Sized(cap, ns, height, capacity)
    ensures var s := GrownSegmentCapacity(fixed, cap, 2 * capacity);
            var n := 2 * capacity / s;
            && 1 <= s && 1 <= n && Sized(s, n, Log2(n) + 1, 2 * capacity)
            && n * s == 2 * capacity && 4 * n <= capacity
  {
    hide Sized, Pow2, Log2, CeilLog2, GrownSegmentCapacity;
    SizedCapacity(cap, ns, height, capacity);
    var e := height + Log2(cap);
    var a := if fixed then Log2(cap) else if CeilLog2(e) < 3 then 3 else CeilLog2(e);
    DoublePow2(e - 1);
    Log2Pow2(e);
    GrownExponent(fixed, cap, ns, height, capacity, e, a);
    SizedByExponents(a, e);
  }

  lemma SizedByExponents(a: nat, e: nat)
    requires 3 <= a <= e
    ensures var s := Pow2(a);
            var n := Pow2(e) / s;
            1 <= n && Sized(s, n, Log2(n) + 1, Pow2(e)) && n * s == Pow2(e) && 8 * n <= Pow2(e)
  {
    hide Pow2, Log2, Base;
    QuotientOfPowers(a, e);
    SizedExactly(a, e - a);
  }

  lemma QuotientOfPowers(a: nat, e: nat)
    requires a <= e
    ensures Pow2(e) / Pow2(a) == Pow2(e - a) && Pow2(e) == Pow2(e - a) * Pow2(a)
  {
    hide Pow2;
    Pow2Sum(e - a, a);
    DivUnique(Pow2(e), Pow2(a), Pow2(e - a), 0);
  }

  lemma SizedExactly(a: nat, k: nat)
    requires 3 <= a
    ensures Sized(Pow2(a), Pow2(k), Log2(Pow2(k)) + 1, Pow2(k) * Pow2(a)) && 8 * Pow2(k) <= Pow2(k) * Pow2(a)
  {
    hide Pow2, Log2, Base;
    Log2Pow2(k);
    Log2Pow2(a);
    BaseIsProduct(Pow2(k), Pow2(a));
    EightAtMost(a);
    MulAtLeast(Pow2(k), 8, Pow2(a));
  }

  lemma EightAtMost(a: nat)
    requires 3 <= a
    ensures 8 <= Pow2(a)
  {
    Pow2Le(3, a);
    assert Pow2(3) == 8;
  }

  lemma MulAtLeast(n: nat, m: nat, s: nat)
    requires m <= s
    ensures n * m <= n * s
  {
  }

  lemma GrownExponent(fixed: bool, cap: nat, ns: nat, height: nat, capacity: nat, e: nat, a: nat)
    requires Sized(cap, ns, height, capacity) && 2 * capacity == Pow2(e) && e == height + Log2(cap) && Log2(Pow2(e)) == e
    requires 3 <= Log2(cap)
    requires a == if fixed then Log2(cap) else if CeilLog2(e) < 3 then 3 else CeilLog2(e)
    ensures GrownSegmentCapacity(fixed, cap, 2 * capacity) == Pow2(a) && 8 <= Pow2(a) && 3 <= a <= e
  {
    assert Pow2(3) == 8 && Pow2(2) == 4;
    BelowPow2(e);
    HyperceilLeast(e, e);
    if CeilLog2(e) < 3 {
      Pow2Le(CeilLog2(e), 2);
    } else {
      Pow2Le(3, CeilLog2(e));
    }
    Pow2Le(3, a);
  }

  /** Dealt out over the grown array, a crowded array leaves no segment empty and none more than half full. */
  lemma GrownShares(card: nat, n: nat, s: nat, capacity: nat, i: nat)
    requires 0 < n && i < n && n * s == 2 * capacity && 4 * n <= capacity && s % 2 == 0
    requires card <= capacity
    ensures capacity < 4 * (card + 1) ==> 1 <= Share(card, n, i)
    ensures 2 * Share(card, n, i) <= s
  {
    var half := s / 2;
    assert 2 * (n * half) == n * s;
    ShareBounds(card, n, i, half);
  }

  /** The capacity loop of resize: it stops after one doubling. */
  method GrowCapacity(fixed: bool, cap: nat, capacity: nat, card: nat, ghost ns: nat, ghost height: nat)
    returns (capacity': nat, cap': nat, n: nat)
    requires Sized(cap, ns, height, capacity) && card <= capacity
    ensures capacity' == 2 * capacity && cap' == GrownSegmentCapacity(fixed, cap, capacity')
    ensures 1 <= cap' && n == capacity' / cap' && 1 <= n
  {
    hide Sized, GrownSegmentCapacity;
    GrownShape(fixed, cap, ns, height, capacity);
    capacity', cap', n := capacity, cap, 1;
    var full := true;
    while full
      invariant full ==> capacity' == capacity
      invariant !full ==> capacity' == 2 * capacity && cap' == GrownSegmentCapacity(fixed, cap, capacity') && 1 <= cap' && n == capacity' / cap' && 1 <= n
      decreases full
    {
      capacity' := capacity' * 2;
      cap' := GrownSegmentCapacity(fixed, cap, capacity');
      n := capacity' / cap';
      var each, odd := card / n, card % n;
      NeverFull(fixed, cap, ns, height, capacity, card);
      full := each + (if 0 < odd then 1 else 0) == cap';
    }
  }

  lemma NeverFull(fixed: bool, cap: nat, ns: nat, height: nat, capacity: nat, card: nat)
    requires Sized(cap, ns, height, capacity) && card <= capacity
    ensures var s := GrownSegmentCapacity(fixed, cap, 2 * capacity);
            1 <= s && 1 <= 2 * capacity / s && s % 2 == 0 &&
            card / (2 * capacity / s) + (if 0 < card % (2 * capacity / s) then 1 else 0) < s
  {
    hide Sized, GrownSegmentCapacity;
    GrownShape(fixed, cap, ns, height, capacity);
    var s := GrownSegmentCapacity(fixed, cap, 2 * capacity);
    var n := 2 * capacity / s;
    SizedEven(s, n, Log2(n) + 1, 2 * capacity);
    GrownShares(card, n, s, capacity, 0);
  }

  lemma SizedEven(cap: nat, ns: nat, height: nat, capacity: nat)
    requires Sized(cap, ns, height, capacity)
    ensures cap % 2 == 0 && 1 <= ns && 1 <= height && InTree(ns, height) && capacity == Base(ns, cap) && 8 <= cap
  {
    hide Pow2, Log2, Base;
    SizedCapacity(cap, ns, height, capacity);
    DoublePow2(Log2(cap) - 1);
  }

  /** The configured thresholds, and a root threshold high enough for a grown array to fill all its
      segments (the default is 0.75). */
  ghost predicate Configured(b: DensityBounds.Bounds) {
    b.Ordered() && 0.25 <= b.thetaH
  }

  ghost function Contents<T>(a: seq<T>, c: seq<nat>, cap: nat, card: nat): (s: seq<T>)
    requires card != 0 ==> Fits(|a|, c, cap)
  {
    if card == 0 then [] else Read(a, c, cap, 0, |c|)
  }

  lemma Inhabited(s: set<int>)
    ensures s == {} || exists m :: m in s
  {
    if !(exists m :: m in s) {
      assert s == {};
    }
  }

  /** The segments [lo, lo + n) hold `total` elements as evenly as possible, the larger shares first. */
  ghost predicate Even(c: seq<nat>, lo: nat, n: nat, total: nat) {
    && lo + n <= |c| && Sum(c, lo, lo + n) == total
    && forall i, j | lo <= i < j < lo + n :: c[j] <= c[i] <= c[j] + 1
  }

  lemma SharesEven(c: seq<nat>, lo: nat, n: nat, total: nat)
    requires 0 < n && lo + n <= |c| && forall k | 0 <= k < n :: c[lo + k] == Share(total, n, k)
    ensures Even(c, lo, n, total)
  {
    hide Sum;
    Shares(c, lo, total, n, total);
    forall i, j | lo <= i < j < lo + n ensures c[j] <= c[i] <= c[j] + 1 {
      assert c[lo + (i - lo)] == Share(total, n, i - lo) && c[lo + (j - lo)] == Share(total, n, j - lo);
    }
  }

  /** No window of the full segment `seg`, up to the whole array, is sparse enough. */
  ghost predicate NoWindow(b: DensityBounds.Bounds, c: seq<nat>, cap: nat, height: nat, seg: nat)
    requires InTree(|c|, height) && seg < |c| && 1 <= cap
  {
    forall h | 2 <= h <= height :: !Qualifies(b, c, cap, height, seg, h)
  }

  /** The window at height `h` is the smallest one that is sparse enough. */
  ghost predicate Smallest(b: DensityBounds.Bounds, c: seq<nat>, cap: nat, height: nat, seg: nat, h: nat)
    requires InTree(|c|, height) && seg < |c| && 1 <= cap
  {
    2 <= h <= height && Qualifies(b, c, cap, height, seg, h) && forall k | 2 <= k < h :: !Qualifies(b, c, cap, height, seg, k)
  }

  /** Only the window at height `h` has changed: it has one element more and its segments share evenly. */
  ghost predicate Respread(c: seq<nat>, d: seq<nat>, seg: nat, h: nat)
    requires 1 <= h
  {
    var ws, wl := WindowStart(seg, h), Pow2(h - 1);
    ws + wl <= |c| && SameOutside(c, d, ws, ws + wl) && Even(d, ws, wl, Sum(c, ws, ws + wl) + 1)
  }

  ghost predicate WindowOnly(k: seq<int>, k': seq<int>, cap: nat, seg: nat, h: nat)
    requires 1 <= h
  {
    SameOutside(k, k', Base(WindowStart(seg, h), cap), Base(WindowStart(seg, h) + Pow2(h - 1), cap))
  }

  /** The counts and sizes after an insertion that the search has led to segment `s`: one more in a segment with
      room; otherwise the smallest sparse window is spread; only if there is none the array is doubled. */
  ghost predicate Placed(b: DensityBounds.Bounds, fixed: bool, c: seq<nat>, cap: nat, height: nat, capacity: nat, s: nat, d: seq<nat>, cap': nat, capacity': nat)
    requires InTree(|c|, height) && s < |c| && 1 <= cap && 1 <= capacity
  {
    if c[s] < cap then capacity' == capacity && cap' == cap && d == c[s := c[s] + 1]
    else if NoWindow(b, c, cap, height, s) then
      capacity' == 2 * capacity && cap' == GrownSegmentCapacity(fixed, cap, capacity') && EvenButOne(d, Sum(c, 0, |c|))
    else capacity' == capacity && cap' == cap && exists h :: Smallest(b, c, cap, height, s, h) && Respread(c, d, s, h)
  }

  /** `total` elements shared evenly, and one more in some segment. */
  ghost predicate EvenButOne(d: seq<nat>, total: nat) {
    exists e: seq<nat>, i :: Even(e, 0, |e|, total) && 0 <= i < |e| && d == e[i := e[i] + 1]
  }

  /** The segments of a grown array: of the old size if it is fixed, otherwise of the least power of two, from
      eight on, that is at least the logarithm of the capacity. */
  lemma GrownSegments(fixed: bool, cap: nat, e: nat)
    requires 1 <= e
    ensures var s := GrownSegmentCapacity(fixed, cap, Pow2(e));
            if fixed then s == cap
            else PowerOfTwo(s) && 8 <= s && e <= s && forall k | 8 <= Pow2(k) && e <= Pow2(k) :: s <= Pow2(k)
  {
    hide Pow2, CeilLog2, Log2;
    Log2Pow2(e);
    assert Pow2(3) == 8 by {
      PowThree();
    }
    Log2Pow2(3);
    Log2Pow2(CeilLog2(e));
    HyperceilLeast(e, e);
    forall k | e <= Pow2(k) ensures Hyperceil(e) <= Pow2(k) {
      HyperceilLeast(e, k);
      Pow2Le(CeilLog2(e), k);
    }
  }

  lemma PowThree()
    ensures Pow2(3) == 8
  {
  }

  /** The workspace of resize: new arrays of twice the capacity holding the same sequence. */
  method Regrown(fixed: bool, keys: array<int>, values: array<int>, cards: array<nat>, cap: nat, capacity: nat, card: nat, ghost height: nat)
    returns (toKeys: array<int>, toValues: array<int>, toCards: array<nat>, capacity': nat, cap': nat, n: nat)
    requires Store(keys[..], values[..], cards[..], cap) && Sized(cap, cards.Length, height, capacity)
    requires keys.Length == values.Length == capacity && keys != values
    requires card == Sum(cards[..], 0, cards.Length) && capacity < 4 * (card + 1)
    ensures fresh(toKeys) && fresh(toValues) && fresh(toCards) && toKeys != toValues
    ensures capacity' == 2 * capacity == toKeys.Length == toValues.Length && n == toCards.Length && 1 <= n
    ensures Sized(cap', n, Log2(n) + 1, capacity')
    ensures Store(toKeys[..], toValues[..], toCards[..], cap') && Sum(toCards[..], 0, n) == card
    ensures Read(toKeys[..], toCards[..], cap', 0, n) == Read(keys[..], cards[..], cap, 0, cards.Length)
    ensures Read(toValues[..], toCards[..], cap', 0, n) == Read(values[..], cards[..], cap, 0, cards.Length)
    ensures forall i | 0 <= i < n :: 1 <= toCards[i] && 2 * toCards[i] <= cap'
    ensures cap' == GrownSegmentCapacity(fixed, cap, capacity') && Even(toCards[..], 0, n, card)
  {
    hide Read, Fits, Base, Sum, Ascending, NoneEmpty, Sized, Share, GrownSegmentCapacity, Log2;
    AtMostCapacity(keys[..], values[..], cards[..], cap);
    capacity', cap', n := GrowCapacity(fixed, cap, capacity, card, cards.Length, height);
    GrownShape(fixed, cap, cards.Length, height, capacity);
    SizedEven(cap', n, Log2(n) + 1, capacity');
    toKeys := new int[capacity'];
    toValues := new int[capacity'];
    toCards := new nat[n];
    Redeal(keys, values, cards, cap, toKeys, toValues, toCards, cap', card);
    DealtEvenly(toCards[..], card, cap', capacity);
    assert forall k | 0 <= k < n :: toCards[..][0 + k] == Share(card, n, k);
    SharesEven(toCards[..], 0, n, card);
  }

  /** The greatest separator not above the key. */
  method Floor(index: map<int, nat>, key: int) returns (found: bool, sep: int)
    ensures found ==> sep in index && sep <= key && forall m | m in index && m <= key :: m <= sep
    ensures !found ==> forall m | m in index :: key < m
  {
    found, sep := false, 0;
    var todo := index.Keys;
    while todo != {}
      invariant todo <= index.Keys
      invariant found ==> sep in index && sep <= key && forall m | m in index && m !in todo && m <= key :: m <= sep
      invariant !found ==> forall m | m in index && m !in todo :: key < m
      decreases todo
    {
      Inhabited(todo);
      var m :| m in todo;
      todo := todo - {m};
      if m <= key && (!found || sep < m) {
        found, sep := true, m;
      }
    }
  }

  const MAX_SEGMENT_SIZE: nat := 65535

  /** The sizes the constructor does not refuse: it rounds up to a power of two and then checks the limits. */
  predicate Admitted(segmentSize: nat) {
    STORAGE_MIN_CAPACITY <= Hyperceil(segmentSize) <= MAX_SEGMENT_SIZE
  }

  /** In plain numbers. */
  lemma AdmittedSizes(segmentSize: nat)
    ensures Admitted(segmentSize) <==> 5 <= segmentSize <= 32768
  {
    hide Pow2, CeilLog2;
    PowersUsed();
    HyperceilLeast(segmentSize, 2);
    HyperceilLeast(segmentSize, 15);
    var k := CeilLog2(segmentSize);
    if k <= 2 {
      Pow2Le(k, 2);
    } else {
      Pow2Le(3, k);
    }
    if k <= 15 {
      Pow2Le(k, 15);
    } else {
      Pow2Le(16, k);
    }
  }

  lemma PowersUsed()
    ensures Pow2(2) == 4 && Pow2(3) == 8 && Pow2(15) == 32768 && Pow2(16) == 65536
  {
    assert Pow2(4) == 16 && Pow2(8) == 256 && Pow2(12) == 4096;
  }

  /** The constructor rounds the segment capacity up but allocates as many cells as it was asked for: they
      are enough for the capacity exactly when the size is a power of two. */
  lemma CellsEnough(segmentSize: nat)
    requires 1 <= segmentSize
    ensures Hyperceil(segmentSize) <= segmentSize <==> PowerOfTwo(segmentSize)
  {
    HyperceilLeast(segmentSize, Log2(segmentSize));
    if PowerOfTwo(segmentSize) {
      Pow2Le(CeilLog2(segmentSize), Log2(segmentSize));
    } else if Hyperceil(segmentSize) <= segmentSize {
      Log2Pow2(CeilLog2(segmentSize));
    }
  }

  /** Nine cells are asked for, nine are allocated and sixteen are used. */
  lemma NineCells()
    ensures Admitted(9) && Hyperceil(9) == 16
  {
  }

  lemma FirstSizes(segmentSize: nat)
    requires Admitted(segmentSize)
    ensures 1 <= segmentSize <= Hyperceil(segmentSize) && Sized(Hyperceil(segmentSize), 1, 1, Hyperceil(segmentSize))
    ensures Hyperceil(segmentSize) == segmentSize <==> PowerOfTwo(segmentSize)
  {
    HyperceilLeast(segmentSize, 0);
    CellsEnough(segmentSize);
    Log2Pow2(CeilLog2(segmentSize));
    assert Pow2(0) == 1 && Base(1, Hyperceil(segmentSize)) == Hyperceil(segmentSize);
  }

  class BTreePMA {
    var keys: array<int>
    var values: array<int>
    var cards: array<nat>
    var capacity: nat
    var segmentCapacity: nat
    var numberSegments: nat
    var height: nat
    var cardinality: nat
    const fixedCapacity: bool
    var index: map<int, nat>
    const densities: DensityBounds.CachedDensityBounds

    ghost predicate Valid()
      reads this, keys, values, cards, densities
    {
      && Shape()
      && Holds(keys[..], values[..], cards[..], segmentCapacity, cardinality, index)
    }

    ghost predicate Shape()
      reads this, densities
    {
      && keys != values
      && cards.Length == numberSegments && keys.Length == values.Length == capacity
      && Sized(segmentCapacity, numberSegments, height, capacity)
      && densities.Coherent() && Configured(densities.bounds)
    }

    ghost function Keys(): (s: seq<int>)
      requires Valid()
      reads this, keys, values, cards, densities
    {
      Contents(keys[..], cards[..], segmentCapacity, cardinality)
    }

    ghost function Values(): (s: seq<int>)
      requires Valid()
      reads this, keys, values, cards, densities
    {
      Contents(values[..], cards[..], segmentCapacity, cardinality)
    }

    /** A fresh array of one segment. */
    constructor (segmentSize: nat, fixed: bool, bounds: DensityBounds.Bounds)
      requires Admitted(segmentSize) && Configured(bounds)
      ensures segmentCapacity == capacity == Hyperceil(segmentSize) && cardinality == 0 && keys.Length == values.Length == segmentSize
      ensures fixedCapacity == fixed && densities.bounds == bounds
      ensures Valid() <==> PowerOfTwo(segmentSize)
      ensures PowerOfTwo(segmentSize) ==> Keys() == [] && Values() == []
      ensures fresh(keys) && fresh(values) && fresh(cards) && fresh(densities)
    {
      keys := new int[segmentSize];
      values := new int[segmentSize];
      cards := new nat[1];
      capacity := Hyperceil(segmentSize);
      segmentCapacity := Hyperceil(segmentSize);
      numberSegments := 1;
      height := 1;
      cardinality := 0;
      fixedCapacity := fixed;
      index := map[];
      densities := new DensityBounds.CachedDensityBounds(bounds);
      new;
      FirstSizes(segmentSize);
    }

    /** The segment the search leads to. */
    ghost predicate Target(key: int, s: nat)
      requires Valid() && 0 < cardinality
      reads this, keys, values, cards, densities
    {
      s < cards.Length && Located(Mins(keys[..], cards[..], segmentCapacity), key, s)
    }

    /** index_find_leq and index_find_geq: with distinct separators both are the segment whose
        separator is the greatest one not above the key. */
    method FindSegment(key: int) returns (s: nat)
      requires Valid() && 0 < cardinality
      ensures Target(key, s) && s < numberSegments
    {
      hide Located, Covers, Mins, Sum, Read, Fits, NoneEmpty, Sized, Base, Ascending;
      ghost var mins := Mins(keys[..], cards[..], segmentCapacity);
      MinsAscend(keys[..], cards[..], segmentCapacity);
      var found, sep := Floor(index, key);
      if found {
        s := index[sep];
        FloorLocates(index, mins, key, sep);
      } else {
        s := 0;
        NoFloorLocates(index, mins, key);
      }
      LocatedInside(mins, key, s);
    }

    method InsertEmpty(key: int, value: int)
      requires Valid() && cardinality == 0
      modifies this`cardinality, this`index, keys, values, cards
      ensures Valid() && cardinality == 1
      ensures Keys() == [key] && Values() == [value]
    {
      cards[0] := 1;
      var offset := segmentCapacity - 1;
      keys[offset] := key;
      values[offset] := value;
      cardinality := 1;
      index := index[key := 0];
      Single(keys[..], values[..], cards[..], segmentCapacity, key, value);
    }

    /** Take the separators of the segments [lo, hi) out of the index. */
    method RemoveSeparators(lo: nat, hi: nat, ghost mins: seq<int>)
      requires Shape() && Dense(keys[..], cards[..], segmentCapacity) && mins == Mins(keys[..], cards[..], segmentCapacity)
      requires lo <= hi <= numberSegments && Ascending(mins) && Covers(index, mins, 0, 0)
      modifies this`index
      ensures Covers(index, mins, lo, hi)
    {
      hide Covers, Sized, Ascending, Min, Dense, NoneEmpty, Fits;
      var i := lo;
      CoversSplit(index, mins, lo);
      while i < hi
        invariant lo <= i <= hi && Covers(index, mins, lo, i)
      {
        MinAt(keys[..], cards[..], segmentCapacity, i);
        Unindex(index, mins, lo, i);
        index := index - {Min(keys[..], cards[..], segmentCapacity, i)};
        i := i + 1;
      }
    }

    /** Put the separators of the segments [lo, hi) into the index. */
    method AddSeparators(lo: nat, hi: nat, ghost mins: seq<int>)
      requires Shape() && Dense(keys[..], cards[..], segmentCapacity) && mins == Mins(keys[..], cards[..], segmentCapacity)
      requires lo <= hi <= numberSegments && Ascending(mins) && Covers(index, mins, lo, hi)
      modifies this`index
      ensures Covers(index, mins, 0, 0)
    {
      hide Covers, Sized, Ascending, Min, Dense, NoneEmpty, Fits;
      var i := lo;
      while i < hi
        invariant lo <= i <= hi && Covers(index, mins, i, hi)
      {
        MinAt(keys[..], cards[..], segmentCapacity, i);
        Index(index, mins, i, hi);
        index := index[Min(keys[..], cards[..], segmentCapacity, i) := i];
        i := i + 1;
      }
      CoversAll(index, mins, hi);
    }

    /** Spread a window that qualified: the new pair is in, in its sorted place. */
    method SpreadWindow(after: nat, ws: nat, ns: nat, seg: nat, key: int, value: int)
      requires Valid() && 0 < cardinality && key !in Keys()
      requires Target(key, seg)
      requires ws % 2 == 0 && ns % 2 == 0 && 0 < ns && ws <= seg < ws + ns <= numberSegments
      requires after == Sum(cards[..], ws, ws + ns) + 1 <= Base(ns, segmentCapacity)
      modifies this`index, this`cardinality, keys, values, cards
      ensures Valid() && cardinality == old(cardinality) + 1
      ensures Keys() == InsertAt(old(Keys()), FirstGeq(old(Keys()), key), key)
      ensures Values() == InsertAt(old(Values()), FirstGeq(old(Keys()), key), value)
      ensures SameOutside(old(cards[..]), cards[..], ws, ws + ns) && Even(cards[..], ws, ns, after)
      ensures SameOutside(old(keys[..]), keys[..], Base(ws, segmentCapacity), Base(ws + ns, segmentCapacity))
      ensures SameOutside(old(values[..]), values[..], Base(ws, segmentCapacity), Base(ws + ns, segmentCapacity))
    {
      hide Read, Fits, Base, Sum, FirstGeq, Covers, Mins, Located, Ascending, NoneEmpty, Sized, InsertAt, RightPair, Share;
      ghost var k, v, c, cap := keys[..], values[..], cards[..], segmentCapacity;
      MinsAscend(k, c, cap);
      PlaceInWindow(k, c, cap, key, seg, ws, ws + ns);
      RemoveSeparators(ws, ws + ns, Mins(k, c, cap));
      Spread(keys, values, cards, segmentCapacity, after, ws, ns, seg, key, value);
      ghost var k', v', d := keys[..], values[..], cards[..];
      SharesEven(d, ws, ns, after);
      SpreadDense(|k|, c, d, cap, ws, ns, after);
      assert SameOutside(k, k', Base(ws, cap), Base(ws + ns, cap)) && SameOutside(v, v', Base(ws, cap), Base(ws + ns, cap));
      AfterSpread(k, v, c, k', v', d, cap, seg, key, value, ws, ws + ns);
      cardinality := cardinality + 1;
      MinsAscend(k', d, cap);
      CoversSame(index, Mins(k, c, cap), Mins(k', d, cap), ws, ws + ns);
      AddSeparators(ws, ws + ns, Mins(k', d, cap));
    }

    method RebuildIndex()
      requires Shape() && Store(keys[..], values[..], cards[..], segmentCapacity)
      modifies this`index
      ensures Covers(index, Mins(keys[..], cards[..], segmentCapacity), 0, 0)
    {
      hide Covers, Mins, Sized, Ascending, Dense, NoneEmpty, Fits, Store, Configured, Sum, Base;
      StoreMins(keys[..], values[..], cards[..], segmentCapacity);
      index := map[];
      CoversNone(Mins(keys[..], cards[..], segmentCapacity));
      AddSeparators(0, numberSegments, Mins(keys[..], cards[..], segmentCapacity));
    }

    /** Twice the cells, the same sequence, and in every segment at least one element and at most
        half of what it can hold. */
    method Resize()
      requires Valid() && 0 < cardinality && capacity < 4 * (cardinality + 1)
      modifies this, densities
      ensures Valid() && cardinality == old(cardinality) && capacity == 2 * old(capacity)
      ensures Keys() == old(Keys()) && Values() == old(Values())
      ensures segmentCapacity == GrownSegmentCapacity(fixedCapacity, old(segmentCapacity), capacity) && Even(cards[..], 0, cards.Length, cardinality)
      ensures forall i | 0 <= i < cards.Length :: 1 <= cards[i] && 2 * cards[i] <= segmentCapacity
      ensures fresh(keys) && fresh(values) && fresh(cards)
    {
      hide Even, GrownSegmentCapacity, Read, Fits, Base, Sum, Covers, Mins, Ascending, NoneEmpty, Sized, Log2, Store, Dense, Configured, DensityBounds.CachedDensityBounds.Coherent, DensityBounds.Bounds.At, InTree;
      StoreMins(keys[..], values[..], cards[..], segmentCapacity);
      var toKeys, toValues, toCards, capacity', cap', n :=
        Regrown(fixedCapacity, keys, values, cards, segmentCapacity, capacity, cardinality, height);
      keys, values, cards := toKeys, toValues, toCards;
      capacity, segmentCapacity, numberSegments := capacity', cap', n;
      height := Log2(n) + 1;
      RebuildIndex();
      var _ := densities.Thresholds(height, height);
    }

    /** A full segment: spread the smallest qualifying window with the new pair, and nothing else, or grow the array
        if and only if there is none; then the pair is still to be inserted. */
    method Rebalance(seg: nat, key: int, value: int) returns (inserted: bool)
      requires Valid() && 0 < cardinality && key !in Keys()
      requires Target(key, seg) && seg < numberSegments
      requires cards[seg] == segmentCapacity
      modifies this, keys, values, cards, densities
      ensures Valid()
      ensures inserted ==> cardinality == old(cardinality) + 1 && keys == old(keys) && values == old(values) && cards == old(cards)
      ensures inserted ==> Keys() == InsertAt(old(Keys()), FirstGeq(old(Keys()), key), key)
      ensures inserted ==> Values() == InsertAt(old(Values()), FirstGeq(old(Keys()), key), value)
      ensures !inserted ==> cardinality == old(cardinality) && Keys() == old(Keys()) && Values() == old(Values())
      ensures !inserted ==> fresh(keys) && fresh(values) && fresh(cards)
      ensures !inserted ==> forall i | 0 <= i < cards.Length :: 2 * cards[i] <= segmentCapacity
      ensures inserted <==> !old(NoWindow(densities.bounds, cards[..], segmentCapacity, height, seg))
      ensures inserted ==> capacity == old(capacity) && segmentCapacity == old(segmentCapacity)
      ensures inserted ==>
                (exists h ::
                  && old(Smallest(densities.bounds, cards[..], segmentCapacity, height, seg, h))
                  && Respread(old(cards[..]), cards[..], seg, h)
                  && WindowOnly(old(keys[..]), keys[..], segmentCapacity, seg, h) && WindowOnly(old(values[..]), values[..], segmentCapacity, seg, h))
      ensures !inserted ==> capacity == 2 * old(capacity) && segmentCapacity == GrownSegmentCapacity(fixedCapacity, old(segmentCapacity), capacity)
      ensures !inserted ==> Even(cards[..], 0, cards.Length, cardinality)
      ensures !inserted ==> old(numberSegments) == 1 || densities.bounds.thetaH * old(capacity) as real < (cardinality + 1) as real
    {
      hide Even, GrownSegmentCapacity, SameOutside, Read, Fits, Base, Sum, Covers, Mins, Ascending, NoneEmpty, Store, Located, Qualifies, WindowStart, Pow2, Count, FirstGeq, InsertAt;
      SizedEven(segmentCapacity, numberSegments, height, capacity);
      var found, h, ws, wl, n := FindWindow(cards, segmentCapacity, height, seg, densities);
      if found {
        WindowFits(densities.bounds, cards[..], segmentCapacity, height, seg, h);
        ghost var b, c, cap := densities.bounds, cards[..], segmentCapacity;
        SpreadWindow(n, ws, wl, seg, key, value);
        inserted := true;
        assert Smallest(b, c, cap, height, seg, h) && Respread(c, cards[..], seg, h);
      } else {
        Crowded(densities.bounds, cards[..], segmentCapacity, height, seg);
        Resize();
        inserted := false;
      }
    }

    /** The segment located for the key has room. */
    method InsertIntoSegment(s: nat, key: int, value: int)
      requires Valid() && 0 < cardinality && key !in Keys()
      requires Target(key, s) && s < numberSegments
      requires cards[s] < segmentCapacity
      modifies this`index, this`cardinality, keys, values, cards
      ensures Valid() && cardinality == old(cardinality) + 1 && cards[..] == old(cards[..])[s := old(cards[s]) + 1]
      ensures Keys() == InsertAt(old(Keys()), FirstGeq(old(Keys()), key), key)
      ensures Values() == InsertAt(old(Values()), FirstGeq(old(Keys()), key), value)
    {
      hide Read, Fits, Base, Sum, Covers, Mins, Ascending, NoneEmpty, Located, Sized, FirstGeq, InsertAt, Grown, Segment, Min, Place, NonDescending;
      ghost var k, v, c, cap := keys[..], values[..], cards[..], segmentCapacity;
      ghost var mins := Mins(k, c, cap);
      MinsAscend(k, c, cap);
      MinAt(k, c, cap, s);
      var pivotOld := Min(keys[..], cards[..], segmentCapacity, s);
      PlaceInSegment(k, c, cap, key, s);
      AfterCommon(k, v, c, cap, s, key, value);
      NotASeparator(k, c, cap, key);
      OnePlace(Segment(k, c, cap, s), key, s % 2 == 0);
      var minimum := InsertCommon(keys, values, cards, segmentCapacity, s, key, value);
      cardinality := cardinality + 1;
      if minimum {
        MinAt(keys[..], cards[..], cap, s);
        var pivotNew := Min(keys[..], cards[..], segmentCapacity, s);
        Reindex(index, mins, s, key);
        index := (index - {pivotOld})[pivotNew := index[pivotOld]];
      }
    }

    /** insert: of a key that is not stored yet. The array grows only when it has to. */
    method Insert(key: int, value: int)
      requires Valid() && key !in Keys()
      modifies this, keys, values, cards, densities
      ensures Valid() && cardinality == old(cardinality) + 1
      ensures Keys() == InsertAt(old(Keys()), FirstGeq(old(Keys()), key), key)
      ensures Values() == InsertAt(old(Values()), FirstGeq(old(Keys()), key), value)
      ensures (keys == old(keys) && values == old(values) && cards == old(cards)) || (fresh(keys) && fresh(values) && fresh(cards))
      ensures old(cardinality) == 0 ==> capacity == old(capacity) && segmentCapacity == old(segmentCapacity)
      ensures old(cardinality) != 0 ==> forall s | old(Target(key, s)) ::
                Placed(densities.bounds, fixedCapacity, old(cards[..]), old(segmentCapacity), old(height), old(capacity), s, cards[..], segmentCapacity, capacity)
      ensures capacity == old(capacity) ||
              (capacity == 2 * old(capacity) && (old(numberSegments) == 1 || densities.bounds.thetaH * old(capacity) as real < cardinality as real))
    {
      hide Read, Fits, Base, Sum, Covers, Ascending, NoneEmpty, Located, FirstGeq, InsertAt, Store, Mins, Sized, Pow2, Placed;
      if cardinality == 0 {
        IntoNothing(key, value);
        InsertEmpty(key, value);
      } else {
        var s := FindSegment(key);
        StoreMins(keys[..], values[..], cards[..], segmentCapacity);
        OneTarget(Mins(keys[..], cards[..], segmentCapacity), key, s);
        InsertFrom(s, key, value);
      }
    }

    lemma RoomIn(s: nat)
      requires Valid() && 0 < cardinality && s < cards.Length
      ensures cards[s] <= segmentCapacity && (cards[s] != segmentCapacity || 2 * cards[s] <= segmentCapacity ==> cards[s] < segmentCapacity)
      ensures cards.Length == numberSegments && InTree(cards.Length, height) && 1 <= capacity && 1 <= segmentCapacity
      ensures cardinality == Sum(cards[..], 0, cards.Length)
    {
      hide Read, Fits, Base, Sum, Ascending, NoneEmpty, Mins, Sized;
      SizedEven(segmentCapacity, numberSegments, height, capacity);
      HasRoom(keys[..], values[..], cards[..], segmentCapacity, s);
      BaseAtLeast(numberSegments, segmentCapacity);
    }

    /** insert, once the search has led to a segment. */
    method InsertFrom(target: nat, key: int, value: int)
      requires Valid() && 0 < cardinality && key !in Keys() && target < cards.Length && Target(key, target)
      modifies this, keys, values, cards, densities
      ensures Valid() && cardinality == old(cardinality) + 1
      ensures Keys() == InsertAt(old(Keys()), FirstGeq(old(Keys()), key), key)
      ensures Values() == InsertAt(old(Values()), FirstGeq(old(Keys()), key), value)
      ensures (keys == old(keys) && values == old(values) && cards == old(cards)) || (fresh(keys) && fresh(values) && fresh(cards))
      ensures Placed(densities.bounds, fixedCapacity, old(cards[..]), old(segmentCapacity), old(height), old(capacity), target, cards[..], segmentCapacity, capacity)
      ensures capacity == old(capacity) ||
              (capacity == 2 * old(capacity) && (old(numberSegments) == 1 || densities.bounds.thetaH * old(capacity) as real < cardinality as real))
    {
      hide Read, Fits, Base, Sum, Covers, Ascending, NoneEmpty, Located, FirstGeq, InsertAt, Store, Mins, Sized, Pow2, Placed, Even, NoWindow, Smallest, Respread, GrownSegmentCapacity, WindowOnly, Holds, Contents, Target, InTree;
      ghost var c, cap, h, n := cards[..], segmentCapacity, height, capacity;
      RoomIn(target);
      var s, inserted := target, false;
      if cards[s] == segmentCapacity {
        inserted := Rebalance(s, key, value);
        if inserted {
          SpreadPlaced(densities.bounds, fixedCapacity, c, cap, h, n, target, cards[..]);
        } else {
          s := FindSegment(key);
        }
      }
      if !inserted {
        RoomIn(s);
        ghost var d := cards[..];
        InsertIntoSegment(s, key, value);
        RoomPlaced(densities.bounds, fixedCapacity, c, cap, h, n, target, d, segmentCapacity, capacity, s);
      }
    }

    /** find: the value of the key, or -1 when it is not stored. */
    method Find(key: int) returns (value: int)
      requires Valid()
      ensures key in Keys() ==> FirstGeq(Keys(), key) < |Values()| && value == Values()[FirstGeq(Keys(), key)]
      ensures key !in Keys() ==> value == -1
    {
      hide Read, Fits, Base, Sum, Covers, Mins, Ascending, NoneEmpty, Located, FirstGeq, Sized;
      if cardinality == 0 {
        return -1;
      }
      var s := FindSegment(key);
      ghost var k, v, c, cap := keys[..], values[..], cards[..], segmentCapacity;
      SegmentBounds(|k|, c, cap, s);
      var i := Start(cards[..], segmentCapacity, s);
      var stop := End(cards[..], segmentCapacity, s);
      ghost var start := i;
      while i < stop
        invariant start <= i <= stop && forall p | start <= p < i :: keys[p] != key
      {
        if keys[i] == key {
          FoundAt(k, v, c, cap, key, s, i - start);
          return values[i];
        }
        i := i + 1;
      }
      NotFound(k, v, c, cap, key, s);
      return -1;
    }
  }

  lemma MinAt(k: seq<int>, c: seq<nat>, cap: nat, i: nat)
    requires Dense(k, c, cap) && i < |c|
    ensures 0 <= Start(c, cap, i) < |k| && Min(k, c, cap, i) == Mins(k, c, cap)[i]
  {
    MinStart(k, c, cap, i);
  }

  lemma SpreadPlaced(b: DensityBounds.Bounds, fixed: bool, c: seq<nat>, cap: nat, height: nat, capacity: nat, s: nat, d: seq<nat>)
    requires InTree(|c|, height) && s < |c| && 1 <= cap && 1 <= capacity && c[s] == cap && !NoWindow(b, c, cap, height, s)
    requires exists h :: Smallest(b, c, cap, height, s, h) && Respread(c, d, s, h)
    ensures Placed(b, fixed, c, cap, height, capacity, s, d, cap, capacity)
  {
  }

  lemma RoomPlaced(b: DensityBounds.Bounds, fixed: bool, c: seq<nat>, cap: nat, height: nat, capacity: nat, s: nat, d: seq<nat>, cap': nat, capacity': nat, t: nat)
    requires InTree(|c|, height) && s < |c| && 1 <= cap && 1 <= capacity && t < |d| && c[s] <= cap
    requires if c[s] < cap then d == c && t == s && capacity' == capacity && cap' == cap
             else NoWindow(b, c, cap, height, s) && capacity' == 2 * capacity && cap' == GrownSegmentCapacity(fixed, cap, capacity')
                  && Even(d, 0, |d|, Sum(c, 0, |c|))
    ensures Placed(b, fixed, c, cap, height, capacity, s, d[t := d[t] + 1], cap', capacity')
  {
  }

  /** The search can only lead to one segment. */
  lemma OneTarget(mins: seq<int>, key: int, s: nat)
    requires Located(mins, key, s)
    ensures forall i: nat | Located(mins, key, i) :: i == s
  {
    forall i: nat | Located(mins, key, i) ensures i == s {
    }
  }

  lemma CoversSplit(index: map<int, nat>, mins: seq<int>, lo: nat)
    requires Covers(index, mins, 0, 0)
    ensures Covers(index, mins, lo, lo)
  {
  }

  /** A spread leaves no segment of its window empty. */
  lemma SpreadDense(n: nat, c: seq<nat>, d: seq<nat>, cap: nat, ws: nat, ns: nat, after: nat)
    requires NoneEmpty(c) && |c| == |d| && 0 < ns && ws + ns <= |c| && after == Sum(c, ws, ws + ns) + 1
    requires Fits(n, c, cap)
    requires forall k | 0 <= k < ns :: d[ws + k] == Share(after, ns, k)
    requires forall i | 0 <= i < |c| && !(ws <= i < ws + ns) :: d[i] == c[i]
    ensures NoneEmpty(d) && SameOutside(c, d, ws, ws + ns)
  {
    hide Share, Sum;
    SumBounds(c, cap, ws, ws + ns);
    Shares(d, ws, after, ns, cap);
  }

  lemma IntoNothing(key: int, value: int)
    ensures FirstGeq([], key) == 0 && InsertAt([], 0, key) == [key] && InsertAt([], 0, value) == [value]
  {
  }

  lemma NotASeparator(k: seq<int>, c: seq<nat>, cap: nat, key: int)
    requires Dense(k, c, cap) && key !in Read(k, c, cap, 0, |c|)
    ensures key !in Mins(k, c, cap)
  {
    hide Mins, Read, Sum, Dense;
    var m := Mins(k, c, cap);
    forall i | 0 <= i < |m| ensures m[i] != key {
      MinRank(k, c, cap, i);
    }
  }

  lemma BaseAtLeast(n: nat, cap: nat)
    requires 1 <= n
    ensures cap <= Base(n, cap)
  {
    BaseLe(1, n, cap);
    assert Base(1, cap) == cap;
  }

  /** A segment that is not full, or has just been dealt half full, has room. */
  lemma HasRoom(k: seq<int>, v: seq<int>, c: seq<nat>, cap: nat, s: nat)
    requires Store(k, v, c, cap) && s < |c|
    ensures c[s] <= cap && (c[s] != cap || (2 * c[s] <= cap && 0 < cap) ==> c[s] < cap)
  {
    FitsAt(|k|, c, cap, s);
  }

  /** A key that is stored is in the segment located for it. */
  lemma WhereStored(k: seq<int>, v: seq<int>, c: seq<nat>, cap: nat, key: int, s: nat)
    requires Store(k, v, c, cap) && Located(Mins(k, c, cap), key, s)
    requires key in Read(k, c, cap, 0, |c|)
    ensures key in Segment(k, c, cap, s)
  {
    hide Mins, Read, Fits, Sum, Base;
    var e := Read(k, c, cap, 0, |c|);
    var p :| 0 <= p < |e| && e[p] == key;
    MinRank(k, c, cap, s);
    if s + 1 < |c| {
      MinRank(k, c, cap, s + 1);
    }
    EmptySum(c);
    assert Sum(c, 0, s) <= p < Sum(c, 0, s + 1);
    ReadSlice(k, c, cap, s, s + 1);
    ReadOne(k, c, cap, s);
    assert key == Segment(k, c, cap, s)[p - Sum(c, 0, s)];
  }

  lemma FoundAt(k: seq<int>, v: seq<int>, c: seq<nat>, cap: nat, key: int, s: nat, i: nat)
    requires Store(k, v, c, cap) && s < |c| && i < c[s] && Segment(k, c, cap, s)[i] == key
    ensures var p := FirstGeq(Read(k, c, cap, 0, |c|), key);
            p < |Read(v, c, cap, 0, |c|)| && Read(v, c, cap, 0, |c|)[p] == Segment(v, c, cap, s)[i]
    ensures key in Read(k, c, cap, 0, |c|)
  {
    hide Read, Fits, Sum, Base, FirstGeq, Segment;
    var e, p := Read(k, c, cap, 0, |c|), Sum(c, 0, s) + i;
    ReadSlice(k, c, cap, s, s + 1);
    ReadSlice(v, c, cap, s, s + 1);
    ReadOne(k, c, cap, s);
    ReadOne(v, c, cap, s);
    SumSplit(c, 0, s, s + 1);
    assert e[p] == key;
    FirstGeqAt(e, key, p);
  }

  lemma NotFound(k: seq<int>, v: seq<int>, c: seq<nat>, cap: nat, key: int, s: nat)
    requires Store(k, v, c, cap) && Located(Mins(k, c, cap), key, s) && key !in Segment(k, c, cap, s)
    ensures key !in Read(k, c, cap, 0, |c|)
  {
    if key in Read(k, c, cap, 0, |c|) {
      WhereStored(k, v, c, cap, key, s);
    }
  }

  /** A qualifying window consists of whole pairs inside the array and has room for the new pair. */
  lemma WindowFits(b: DensityBounds.Bounds, c: seq<nat>, cap: nat, height: nat, seg: nat, h: nat)
    requires b.Ordered() && InTree(|c|, height) && seg < |c| && 2 <= h <= height && 1 <= cap
    requires Qualifies(b, c, cap, height, seg, h)
    ensures var ws, wl := WindowStart(seg, h), Pow2(h - 1);
            && ws % 2 == 0 && wl % 2 == 0 && 0 < wl && ws <= seg < ws + wl <= |c|
            && Count(c, height, seg, h) == Sum(c, ws, ws + wl) + 1 <= Base(wl, cap)
  {
    RoomLeft(b, c, cap, height, seg, h);
    WindowInside(|c|, height, seg, h);
    DoublePow2(h - 2);
    EvenProduct(seg / Pow2(h - 1), Pow2(h - 1));
  }

  lemma EvenProduct(x: nat, y: nat)
    requires y % 2 == 0
    ensures x * y % 2 == 0
  {
    assert x * y == 2 * (x * (y / 2));
  }

  /** Where no window qualifies, more than a quarter of the array is in use. */
  lemma Crowded(b: DensityBounds.Bounds, c: seq<nat>, cap: nat, height: nat, seg: nat)
    requires Configured(b) && 1 <= cap && InTree(|c|, height) && seg < |c| && c[seg] == cap
    requires forall h | 2 <= h <= height :: !Qualifies(b, c, cap, height, seg, h)
    ensures Base(|c|, cap) < 4 * (Sum(c, 0, |c|) + 1)
    ensures |c| == 1 || b.thetaH * Base(|c|, cap) as real < (Sum(c, 0, |c|) + 1) as real
  {
    hide Qualifies, Sum, Base, Pow2;
    BaseIsProduct(|c|, cap);
    if height == 1 {
      OneSegment(c);
    } else {
      TooDense(b, c, cap, height, seg);
      Quarter(b.thetaH, |c| * cap, Sum(c, 0, |c|) + 1);
    }
  }

  lemma OneSegment(c: seq<nat>)
    requires |c| != 0
    ensures Pow2(0) == 1 && Sum(c, 0, 1) == c[0]
  {
    assert Sum(c, 0, 0) == 0;
  }

  lemma Quarter(t: real, d: nat, n: nat)
    requires 0.25 <= t && t * d as real < n as real
    ensures d < 4 * n
  {
    assert 0.25 * d as real <= t * d as real;
  }

  lemma AtMostCapacity(k: seq<int>, v: seq<int>, c: seq<nat>, cap: nat)
    requires Store(k, v, c, cap)
    ensures Sum(c, 0, |c|) <= Base(|c|, cap)
  {
    SumBounds(c, cap, 0, |c|);
  }

  lemma DealtEvenly(d: seq<nat>, card: nat, cap: nat, capacity: nat)
    requires 0 < |d| && |d| * cap == 2 * capacity && 4 * |d| <= capacity && cap % 2 == 0
    requires card <= capacity < 4 * (card + 1)
    requires forall i | 0 <= i < |d| :: d[i] == Share(card, |d|, i)
    ensures NoneEmpty(d) && Sum(d, 0, |d|) == card
    ensures forall i | 0 <= i < |d| :: 1 <= d[i] && 2 * d[i] <= cap
  {
    hide Share, Sum;
    forall i | 0 <= i < |d| ensures 1 <= d[i] && 2 * d[i] <= cap {
      GrownShares(card, |d|, cap, capacity, i);
    }
    assert forall k | 0 <= k < |d| :: d[0 + k] == Share(card, |d|, k);
    Shares(d, 0, card, |d|, cap);
  }

  lemma StoreMins(k: seq<int>, v: seq<int>, c: seq<nat>, cap: nat)
    requires Store(k, v, c, cap)
    ensures Dense(k, c, cap) && Fits(|k|, c, cap) && Fits(|v|, c, cap) && Ascending(Mins(k, c, cap))
  {
    MinsAscend(k, c, cap);
  }

  lemma LocatedInside(mins: seq<int>, key: int, s: nat)
    requires Located(mins, key, s)
    ensures s < |mins|
  {
  }

  lemma Single(k: seq<int>, v: seq<int>, c: seq<nat>, cap: nat, key: int, value: int)
    requires c == [1] && 1 <= cap && |k| == |v| == Base(1, cap) && k[cap - 1] == key && v[cap - 1] == value
    ensures Holds(k, v, c, cap, 1, map[key := 0])
    ensures Read(k, c, cap, 0, 1) == [key] && Read(v, c, cap, 0, 1) == [value]
  {
    assert Base(1, cap) == cap;
    FitsWhole(|k|, c, cap);
    ReadOne(k, c, cap, 0);
    ReadOne(v, c, cap, 0);
    assert Segment(k, c, cap, 0) == [key] && Segment(v, c, cap, 0) == [value];
    SegmentHead(k, c, cap, 0);
    assert Mins(k, c, cap) == [key];
  }
}
