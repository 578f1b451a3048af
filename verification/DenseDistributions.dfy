/** The key distributions of the APMA experiments: bulk, interleaved and noise. Each hands out every key of
    [1, N] exactly once. */
module DenseDistributions {
  import opened Permutations
  import RandomPermutation
  import ByteArrays
  import Powers

  /** SequentialForward and SequentialBackwards: the keys of [begin, end) upward or downward. */
  datatype Run = Run(begin: nat, end: nat, backwards: bool) {
    function Key(offset: nat): (k: int) {
      if backwards then end - 1 - offset else begin + offset
    }

    function Size(): (n: int) {
      end - begin
    }
  }

  /** Every key of [1, N] occurs exactly once. */
  ghost predicate Dense(keys: seq<int>) {
    Permutes(seq(|keys|, i requires 0 <= i < |keys| => keys[i] - 1), |keys|)
  }

  lemma DenseMeans(keys: seq<int>, k: int)
    requires Dense(keys) && 1 <= k <= |keys|
    ensures exists i :: 0 <= i < |keys| && keys[i] == k
    ensures forall i, j | 0 <= i < j < |keys| :: keys[i] != keys[j]
  {
    var s := seq(|keys|, i requires 0 <= i < |keys| => keys[i] - 1);
    Onto(s, |keys|, k - 1);
    var i :| 0 <= i < |s| && s[i] == k - 1;
    assert keys[i] == k;
    forall i, j | 0 <= i < j < |keys| ensures keys[i] != keys[j] {
      assert s[i] != s[j];
    }
  }

  /** Runs that do not overlap: the run of a place lies before the runs of later places. */
  ghost predicate Placed(slots: seq<Run>, places: seq<nat>, n: nat, total: nat) {
    && |slots| == |places| == n && Permutes(places, n)
    && (forall i | 0 <= i < n :: slots[i].begin <= slots[i].end <= total)
    && (forall i, j | 0 <= i < n && 0 <= j < n && places[i] < places[j] :: slots[i].end <= slots[j].begin)
  }

  /** All runs go upward or all go downward. */
  ghost predicate Directed(slots: seq<Run>, backwards: bool) {
    forall i | 0 <= i < |slots| :: slots[i].backwards == backwards
  }

  function Step(backwards: bool): (d: int) {
    if backwards then -1 else 1
  }

  /* BulkDistribution */

  function BulkLength(place: nat, odd: nat, perSlot: nat, leftover: nat): (n: nat) {
    if place == odd then leftover else perSlot
  }

  /** Where the run of a place begins: places behind the odd one begin earlier. */
  function BulkStart(place: nat, odd: nat, perSlot: nat, leftover: nat): (s: int) {
    place * perSlot + if place > odd then leftover - perSlot else 0
  }

  lemma BulkNext(place: nat, odd: nat, perSlot: nat, leftover: nat)
    ensures BulkStart(place + 1, odd, perSlot, leftover) == BulkStart(place, odd, perSlot, leftover) + BulkLength(place, odd, perSlot, leftover)
  {
  }

  lemma {:induction false} BulkOrder(p: nat, q: nat, odd: nat, perSlot: nat, leftover: nat)
    requires p < q
    ensures BulkStart(p, odd, perSlot, leftover) + BulkLength(p, odd, perSlot, leftover) <= BulkStart(q, odd, perSlot, leftover)
    decreases q
  {
    BulkNext(q - 1, odd, perSlot, leftover);
    if p < q - 1 {
      BulkOrder(p, q - 1, odd, perSlot, leftover);
    }
  }

  lemma BulkEnds(n: nat, odd: nat, perSlot: nat, leftover: nat, total: nat)
    requires odd < n && total == (n - 1) * perSlot + leftover
    ensures BulkStart(n, odd, perSlot, leftover) == total && BulkStart(0, odd, perSlot, leftover) == 0
  {
  }

  /** The runs of the bulk distribution: each at its place, the odd place last on the list. */
  ghost predicate BulkSlots(slots: seq<Run>, places: seq<nat>, perSlot: nat, total: nat) {
    && 1 <= perSlot <= total && |slots| == |places| == total / perSlot + 1 && Permutes(places, |places|)
    && forall i | 0 <= i < |slots| :: BulkSlot(slots, places, perSlot, total % perSlot, i)
  }

  ghost predicate BulkSlot(slots: seq<Run>, places: seq<nat>, perSlot: nat, leftover: nat, i: nat)
    requires i < |slots| == |places|
  {
    var odd := places[|places| - 1];
    var s := BulkStart(places[i], odd, perSlot, leftover);
    slots[i].begin == s && slots[i].end == s + BulkLength(places[i], odd, perSlot, leftover)
  }

  lemma BulkPlaced(slots: seq<Run>, places: seq<nat>, perSlot: nat, total: nat)
    requires BulkSlots(slots, places, perSlot, total)
    ensures Placed(slots, places, |slots|, total)
  {
    hide BulkStart, BulkLength, Permutes;
    var n, leftover := |slots|, total % perSlot;
    PermutesParts(places, n);
    var odd := places[n - 1];
    assert total == (n - 1) * perSlot + leftover;
    BulkEnds(n, odd, perSlot, leftover, total);
    forall i | 0 <= i < n ensures slots[i].begin <= slots[i].end <= total {
      assert BulkSlot(slots, places, perSlot, leftover, i);
      BulkOrder(places[i], n, odd, perSlot, leftover);
    }
    forall i, j | 0 <= i < n && 0 <= j < n && places[i] < places[j] ensures slots[i].end <= slots[j].begin {
      assert BulkSlot(slots, places, perSlot, leftover, i) && BulkSlot(slots, places, perSlot, leftover, j);
      BulkOrder(places[i], places[j], odd, perSlot, leftover);
    }
  }

  lemma PermutesParts(s: seq<nat>, n: nat)
    requires Permutes(s, n)
    ensures |s| == n && (forall i | 0 <= i < n :: s[i] < n) && (forall i, j | 0 <= i < n && 0 <= j < n && i != j :: s[i] != s[j])
  {
  }

  function BulkKey(slots: seq<Run>, perSlot: nat, index: nat): (k: int)
    requires 0 < perSlot && index / perSlot < |slots|
  {
    slots[index / perSlot].Key(index % perSlot) + 1
  }

  /** An index leads to a cell of a run. */
  lemma BulkCell(slots: seq<Run>, places: seq<nat>, perSlot: nat, total: nat, index: nat)
    requires BulkSlots(slots, places, perSlot, total) && index < total
    ensures index / perSlot < |slots| && index % perSlot < slots[index / perSlot].Size()
  {
    var a, n := index / perSlot, |slots|;
    assert index == a * perSlot + index % perSlot;
    assert total == (n - 1) * perSlot + total % perSlot;
    assert n * perSlot == (n - 1) * perSlot + perSlot;
    if n <= a {
      Powers.MulLe(n, a, perSlot);
    } else {
      assert BulkSlot(slots, places, perSlot, total % perSlot, a);
      if a < n - 1 {
        PermutesParts(places, n);
        assert places[a] != places[n - 1];
      }
    }
  }

  /** Keys taken from pairwise different cells of all runs, as many as there are in all, are dense. */
  lemma PlacedDense(slots: seq<Run>, places: seq<nat>, total: nat, cells: seq<(nat, nat)>, keys: seq<int>)
    requires Placed(slots, places, |slots|, total) && |keys| == |cells| == total
    requires forall i | 0 <= i < total :: InCell(slots, cells[i], keys[i])
    requires forall i, j | 0 <= i < j < total :: cells[i] != cells[j]
    ensures Dense(keys)
  {
  }

  ghost predicate InCell(slots: seq<Run>, cell: (nat, nat), key: int) {
    cell.0 < |slots| && cell.1 < slots[cell.0].Size() && key == slots[cell.0].Key(cell.1) + 1
  }

  lemma SameDivMod(i: nat, j: nat, d: nat)
    requires 0 < d && i / d == j / d && i % d == j % d
    ensures i == j
  {
  }

  /** The bulk distribution is dense, whatever the size of the runs and the order of the slots. */
  lemma BulkDense(slots: seq<Run>, places: seq<nat>, perSlot: nat, total: nat, keys: seq<int>)
    requires BulkSlots(slots, places, perSlot, total) && |keys| == total && 1 <= perSlot
    requires forall i | 0 <= i < total :: i / perSlot < |slots| && keys[i] == BulkKey(slots, perSlot, i)
    ensures Dense(keys)
  {
    hide BulkSlots, Dense, Placed;
    var cells := seq(total, i requires 0 <= i < total => (i / perSlot, i % perSlot));
    BulkPlaced(slots, places, perSlot, total);
    forall i | 0 <= i < total ensures InCell(slots, cells[i], keys[i]) {
      BulkCell(slots, places, perSlot, total, i);
      assert keys[i] == BulkKey(slots, perSlot, i);
    }
    forall i, j | 0 <= i < j < total ensures cells[i] != cells[j] {
      if cells[i] == cells[j] {
        SameDivMod(i, j, perSlot);
      }
    }
    PlacedDense(slots, places, total, cells, keys);
  }

  lemma NextOffset(i: nat, d: nat)
    requires 0 < d && i / d == (i + 1) / d
    ensures (i + 1) % d == i % d + 1
  {
  }

  lemma PerSlot(slots: seq<Run>, places: seq<nat>, perSlot: nat, total: nat)
    requires BulkSlots(slots, places, perSlot, total)
    ensures 1 <= perSlot
  {
  }

  /** The slots in the order of a permutation; its first entry is the place of the odd slot, which is the last one
      on the list and holds what the division leaves. */
  method BulkRuns(size: nat, keysPerSlot: nat, backwards: bool, rp: seq<nat>) returns (slots: seq<Run>)
    requires 1 <= keysPerSlot <= size && Permutes(rp, size / keysPerSlot + 1) && |rp| == size / keysPerSlot + 1
    ensures BulkSlots(slots, rp[1..] + [rp[0]], keysPerSlot, size) && Directed(slots, backwards)
  {
    hide Permutes, BulkStart, BulkLength, BulkSlot;
    var n, leftover := size / keysPerSlot + 1, size % keysPerSlot;
    PermutesParts(rp, n);
    ghost var places := rp[1..] + [rp[0]];
    Rotated(rp, n);
    var odd := rp[0];
    slots := seq(n, _ => Run(0, 0, backwards));
    var i := 1;
    while i < n
      invariant 1 <= i <= n && |slots| == n && Directed(slots, backwards)
      invariant forall j | 0 <= j < i - 1 :: BulkSlot(slots, places, keysPerSlot, leftover, j)
    {
      var slot := rp[i];
      var start := slot * keysPerSlot;
      PlaceStart(slot, odd, keysPerSlot, leftover);
      if slot > odd {
        start := start + leftover - keysPerSlot;
      }
      ghost var before := slots;
      slots := slots[i - 1 := Run(start, start + keysPerSlot, backwards)];
      NewSlot(before, slots, places, keysPerSlot, leftover, i - 1);
      i := i + 1;
    }
    var start := odd * keysPerSlot;
    PlaceStart(odd, odd, keysPerSlot, leftover);
    ghost var before := slots;
    slots := slots[n - 1 := Run(start, start + leftover, backwards)];
    NewSlot(before, slots, places, keysPerSlot, leftover, n - 1);
  }

  lemma Rotated(s: seq<nat>, n: nat)
    requires Permutes(s, n) && 1 <= n
    ensures Permutes(s[1..] + [s[0]], n)
  {
  }

  lemma PlaceStart(place: nat, odd: nat, perSlot: nat, leftover: nat)
    ensures BulkStart(place, odd, perSlot, leftover) == place * perSlot + if place > odd then leftover - perSlot else 0
    ensures BulkLength(place, odd, perSlot, leftover) == if place == odd then leftover else perSlot
    ensures 0 <= BulkStart(place, odd, perSlot, leftover)
  {
  }

  lemma NewSlot(before: seq<Run>, slots: seq<Run>, places: seq<nat>, perSlot: nat, leftover: nat, i: nat)
    requires |before| == |slots| == |places| && i < |slots| && slots == before[i := slots[i]]
    requires forall j | 0 <= j < i :: BulkSlot(before, places, perSlot, leftover, j)
    requires var odd := places[|places| - 1]; var s := BulkStart(places[i], odd, perSlot, leftover);
             slots[i].begin == s && slots[i].end == s + BulkLength(places[i], odd, perSlot, leftover)
    ensures forall j | 0 <= j < i + 1 :: BulkSlot(slots, places, perSlot, leftover, j)
  {
    hide BulkStart, BulkLength;
    forall j | 0 <= j < i ensures BulkSlot(slots, places, perSlot, leftover, j) {
      assert BulkSlot(before, places, perSlot, leftover, j);
    }
  }

  class BulkDistribution {
    const slots: seq<Run>
    const keysPerSlot: nat
    const capacity: nat
    const begin: nat
    const end: nat
    const backwards: bool
    ghost const places: seq<nat>

    ghost predicate Valid() {
      BulkSlots(slots, places, keysPerSlot, capacity) && Directed(slots, backwards) && begin <= end <= capacity
    }

    /** `keysPerSlot` is the rounded power of the size the source computes in floating point, `rp` the random
        permutation that orders the slots. */
    constructor (size: nat, keysPerSlot: nat, backwards: bool, rp: seq<nat>)
      requires 1 <= keysPerSlot <= size && Permutes(rp, size / keysPerSlot + 1) && |rp| == size / keysPerSlot + 1
      ensures Valid() && this.capacity == size && begin == 0 && end == size && this.keysPerSlot == keysPerSlot
      ensures this.backwards == backwards && places == rp[1..] + [rp[0]] && Stepwise()
    {
      var runs := BulkRuns(size, keysPerSlot, backwards, rp);
      this.slots, this.places := runs, rp[1..] + [rp[0]];
      this.keysPerSlot, this.capacity, this.backwards := keysPerSlot, size, backwards;
      begin, end := 0, size;
      new;
      StepsWithin();
    }

    /** What the source's constructor does: an empty distribution is refused. */
    static method Create(size: nat, keysPerSlot: nat, backwards: bool) returns (d: BulkDistribution?)
      requires size != 0 ==> 1 <= keysPerSlot <= size && size / keysPerSlot + 1 <= ByteArrays.Pow256(8) / 2
      ensures d == null <==> size == 0
      ensures d != null ==> d.Valid() && d.begin == 0 && d.end == d.capacity == size && Dense(d.Keys())
      ensures d != null ==> d.keysPerSlot == keysPerSlot && d.backwards == backwards && d.Stepwise()
    {
      hide ByteArrays.Pow256, BulkSlots, Dense;
      if size == 0 {
        return null;
      }
      var rp := RandomPermutation.RawKeys(size / keysPerSlot + 1);
      PermutesParts(rp, size / keysPerSlot + 1);
      d := new BulkDistribution(size, keysPerSlot, backwards, rp);
      d.IsDense();
    }

    /** Within a slot the keys go up by one, or down by one. */
    ghost predicate Stepwise()
      requires Valid()
    {
      forall i: nat | i + 1 < Size() && SameSlot(i + begin) :: Key(i + 1) - Key(i) == Step(backwards)
    }

    ghost predicate SameSlot(index: nat) {
      keysPerSlot != 0 && index / keysPerSlot == (index + 1) / keysPerSlot
    }

    lemma StepsWithin()
      requires Valid()
      ensures Stepwise()
    {
      hide BulkSlots;
      PerSlot(slots, places, keysPerSlot, capacity);
      forall i: nat | i + 1 < Size() && SameSlot(i + begin) ensures Key(i + 1) - Key(i) == Step(backwards) {
        BulkCell(slots, places, keysPerSlot, capacity, i + begin);
        NextOffset(i + begin, keysPerSlot);
      }
    }

    /** Which key an index stands for: slot `index / keysPerSlot` has the place the permutation gives it, slots behind
        the odd one begin earlier, and the odd one is shorter. */
    lemma KeyExactly(index: nat)
      requires Valid() && index < Size()
      ensures 1 <= keysPerSlot && |places| == capacity / keysPerSlot + 1 && (index + begin) / keysPerSlot < |places|
      ensures var place, odd, offset := places[(index + begin) / keysPerSlot], places[|places| - 1], (index + begin) % keysPerSlot;
              var start := place * keysPerSlot - (if place > odd then keysPerSlot - capacity % keysPerSlot else 0);
              var length := if place == odd then capacity % keysPerSlot else keysPerSlot;
              offset < length && Key(index) == if backwards then start + length - offset else start + offset + 1
    {
      BulkCell(slots, places, keysPerSlot, capacity, index + begin);
      assert BulkSlot(slots, places, keysPerSlot, capacity % keysPerSlot, (index + begin) / keysPerSlot);
    }

    /** view: a part that would end behind the whole is refused. */
    method MakeView(start: nat, length: nat) returns (d: BulkDistribution?)
      requires Valid()
      ensures d == null <==> start + length > capacity
      ensures d != null ==> d.Valid() && d.begin == start && d.Size() == length && d.Stepwise()
      ensures d != null ==> d.slots == slots && d.places == places && d.keysPerSlot == keysPerSlot && d.capacity == capacity && d.backwards == backwards
      ensures d != null ==> forall i | 0 <= i < length && begin <= start + i < end :: d.Key(i) == Key(start + i - begin)
    {
      if start + length > capacity {
        return null;
      }
      d := new BulkDistribution.View(this, start, length);
    }

    /** A part of the distribution; `start` counts from the beginning of the whole, also for a part of a part. */
    constructor View(copy: BulkDistribution, start: nat, length: nat)
      requires copy.Valid() && start + length <= copy.capacity
      ensures Valid() && capacity == copy.capacity && begin == start && end == start + length && Stepwise()
      ensures slots == copy.slots && places == copy.places && keysPerSlot == copy.keysPerSlot && backwards == copy.backwards
      ensures forall i | 0 <= i < length && copy.begin <= start + i < copy.end :: Key(i) == copy.Key(start + i - copy.begin)
    {
      slots, places, keysPerSlot, capacity, backwards := copy.slots, copy.places, copy.keysPerSlot, copy.capacity, copy.backwards;
      begin, end := start, start + length;
      new;
      StepsWithin();
    }

    function Size(): (n: int) {
      end - begin
    }

    function Key(index: nat): (k: int)
      requires Valid() && index < Size()
    {
      BulkCell(slots, places, keysPerSlot, capacity, index + begin);
      BulkKey(slots, keysPerSlot, index + begin)
    }

    ghost function Keys(): (s: seq<int>)
      requires Valid()
      ensures |s| == Size()
    {
      seq(Size(), i requires 0 <= i < Size() => Key(i))
    }

    lemma IsDense()
      requires Valid() && begin == 0 && end == capacity
      ensures Dense(Keys())
    {
      hide BulkSlots, Dense, BulkKey;
      PerSlot(slots, places, keysPerSlot, capacity);
      forall i | 0 <= i < capacity ensures i / keysPerSlot < |slots| && Keys()[i] == BulkKey(slots, keysPerSlot, i) {
        BulkCell(slots, places, keysPerSlot, capacity, i);
      }
      BulkDense(slots, places, keysPerSlot, capacity, Keys());
    }
  }

  /* InterleavedDistribution */

  /** The number of keys of a stream: the first `rest` streams have one more. */
  function StreamLength(j: nat, q: nat, rest: nat): (n: nat) {
    q + if j < rest then 1 else 0
  }

  /** The number of keys of the streams at the first `i` places. */
  ghost function Before(order: seq<nat>, q: nat, rest: nat, i: nat): (n: nat)
    requires i <= |order|
  {
    if i == 0 then 0 else Before(order, q, rest, i - 1) + StreamLength(order[i - 1], q, rest)
  }

  lemma {:induction false} BeforeLe(order: seq<nat>, q: nat, rest: nat, i: nat, j: nat)
    requires i <= j <= |order|
    ensures Before(order, q, rest, i) <= Before(order, q, rest, j)
    decreases j
  {
    if i < j {
      BeforeLe(order, q, rest, i, j - 1);
    }
  }

  ghost function CountBelow(order: seq<nat>, rest: nat): (n: nat) {
    if order == [] then 0 else CountBelow(order[..|order| - 1], rest) + if order[|order| - 1] < rest then 1 else 0
  }

  lemma {:induction false} BeforeCount(order: seq<nat>, q: nat, rest: nat, i: nat)
    requires i <= |order|
    ensures Before(order, q, rest, i) == i * q + CountBelow(order[..i], rest)
  {
    if 0 < i {
      BeforeCount(order, q, rest, i - 1);
      assert order[..i][..i - 1] == order[..i - 1];
      assert i * q == (i - 1) * q + q;
    }
  }

  lemma {:induction false} CountBelowJoin(a: seq<nat>, b: seq<nat>, rest: nat)
    ensures CountBelow(a + b, rest) == CountBelow(a, rest) + CountBelow(b, rest)
    decreases |b|
  {
    if b == [] {
      assert a + b == a;
    } else {
      var n := |b| - 1;
      CountBelowJoin(a, b[..n], rest);
      assert (a + b)[..|a| + n] == a + b[..n];
    }
  }

  /** In a permutation of [0, n) there are `rest` numbers below `rest`. */
  lemma {:induction false} CountPermutation(order: seq<nat>, n: nat, rest: nat)
    requires Permutes(order, n)
    ensures CountBelow(order, rest) == if rest < n then rest else n
    decreases n
  {
    if 0 < n {
      Onto(order, n, n - 1);
      var p :| 0 <= p < n && order[p] == n - 1;
      var less := order[..p] + order[p + 1..];
      Without(order, n, p);
      CountPermutation(less, n - 1, rest);
      assert order == order[..p] + [order[p]] + order[p + 1..];
      CountBelowJoin(order[..p] + [order[p]], order[p + 1..], rest);
      CountBelowJoin(order[..p], [order[p]], rest);
      CountBelowJoin(order[..p], order[p + 1..], rest);
      assert [order[p]][..0] == [];
      assert CountBelow([], rest) == 0;
    }
  }

  lemma Without(order: seq<nat>, n: nat, p: nat)
    requires Permutes(order, n) && p < n && order[p] == n - 1
    ensures Permutes(order[..p] + order[p + 1..], n - 1)
  {
  }

  /** The streams: stream `j` lies at place `places[j]`. */
  ghost predicate StreamSlots(slots: seq<Run>, places: seq<nat>, order: seq<nat>, total: nat) {
    var n := |slots|;
    && 1 <= n <= total && |places| == |order| == n && Permutes(places, n) && Permutes(order, n)
    && forall j | 0 <= j < n :: StreamSlot(slots, places, order, total / n, total % n, j)
  }

  ghost predicate StreamSlot(slots: seq<Run>, places: seq<nat>, order: seq<nat>, q: nat, rest: nat, j: nat)
    requires j < |slots| == |places| == |order|
  {
    && places[j] < |order| && order[places[j]] == j
    && slots[j].begin == Before(order, q, rest, places[j]) && slots[j].end == Before(order, q, rest, places[j]) + StreamLength(j, q, rest)
  }

  lemma StreamsPlaced(slots: seq<Run>, places: seq<nat>, order: seq<nat>, total: nat)
    requires StreamSlots(slots, places, order, total)
    ensures Placed(slots, places, |slots|, total)
  {
    hide Permutes;
    var n := |slots|;
    var q, rest := total / n, total % n;
    StreamTotal(order, n, total);
    forall j | 0 <= j < n ensures slots[j].begin <= slots[j].end <= total {
      assert StreamSlot(slots, places, order, q, rest, j);
      BeforeLe(order, q, rest, places[j] + 1, n);
    }
    forall i, j | 0 <= i < n && 0 <= j < n && places[i] < places[j] ensures slots[i].end <= slots[j].begin {
      assert StreamSlot(slots, places, order, q, rest, i) && StreamSlot(slots, places, order, q, rest, j);
      BeforeLe(order, q, rest, places[i] + 1, places[j]);
    }
  }

  lemma StreamTotal(order: seq<nat>, n: nat, total: nat)
    requires 1 <= n && Permutes(order, n)
    ensures |order| == n && Before(order, total / n, total % n, n) == total
  {
    BeforeCount(order, total / n, total % n, n);
    CountPermutation(order, n, total % n);
    assert order[..n] == order;
    assert total == n * (total / n) + total % n;
  }

  function InterleavedKey(slots: seq<Run>, index: nat): (k: int)
    requires 0 < |slots|
  {
    slots[index % |slots|].Key(index / |slots|) + 1
  }

  lemma StreamSize(slots: seq<Run>, places: seq<nat>, order: seq<nat>, total: nat, j: nat)
    requires StreamSlots(slots, places, order, total) && j < |slots|
    ensures slots[j].Size() == StreamLength(j, total / |slots|, total % |slots|)
  {
    hide Permutes, Before;
    assert StreamSlot(slots, places, order, total / |slots|, total % |slots|, j);
  }

  lemma DivMod(i: nat, n: nat)
    requires 0 < n
    ensures i == n * (i / n) + i % n && i % n < n
  {
  }

  lemma StreamCell(slots: seq<Run>, places: seq<nat>, order: seq<nat>, total: nat, index: nat)
    requires StreamSlots(slots, places, order, total) && index < total && 0 < |slots|
    ensures index / |slots| < slots[index % |slots|].Size()
  {
    hide StreamSlots;
    var n := |slots|;
    DivMod(index, n);
    DivMod(total, n);
    StreamSize(slots, places, order, total, index % n);
    OffsetFits(n, index / n, index % n, total / n, total % n);
  }

  lemma OffsetFits(n: nat, x: nat, j: nat, q: nat, rest: nat)
    requires j < n && rest < n && n * x + j < n * q + rest
    ensures x < q + if j < rest then 1 else 0
  {
  }

  /** The interleaved distribution is dense, for every number of streams and every order of them. */
  lemma InterleavedDense(slots: seq<Run>, places: seq<nat>, order: seq<nat>, total: nat, keys: seq<int>)
    requires StreamSlots(slots, places, order, total) && |keys| == total && 0 < |slots|
    requires forall i | 0 <= i < total :: keys[i] == InterleavedKey(slots, i)
    ensures Dense(keys)
  {
    hide StreamSlots, Dense, Placed;
    var n := |slots|;
    var cells := seq(total, i requires 0 <= i < total => (i % n, i / n));
    StreamsPlaced(slots, places, order, total);
    forall i | 0 <= i < total ensures InCell(slots, cells[i], keys[i]) {
      StreamCell(slots, places, order, total, i);
      assert keys[i] == InterleavedKey(slots, i);
    }
    forall i, j | 0 <= i < j < total ensures cells[i] != cells[j] {
      if cells[i] == cells[j] {
        SameDivMod(i, j, n);
      }
    }
    PlacedDense(slots, places, total, cells, keys);
  }

  /** The permutation says at which place a stream lies; runs are dealt out in the order of the places. */
  method InterleavedRuns(size: nat, streams: nat, backwards: bool, rp: seq<nat>) returns (slots: seq<Run>, ghost order: seq<nat>)
    requires 1 <= streams <= size && Permutes(rp, streams)
    ensures |slots| == streams && StreamSlots(slots, rp, order, size) && Directed(slots, backwards)
  {
    hide Permutes, StreamSlot, Before;
    var n, q, rest := streams, size / streams, size % streams;
    PermutesParts(rp, n);
    var permutations := Inverse(rp, n);
    order := permutations;
    slots := seq(n, _ => Run(0, 0, backwards));
    var start, i := 0, 0;
    BeforeNone(permutations, q, rest);
    while i < n
      invariant 0 <= i <= n && |slots| == n && start == Before(permutations, q, rest, i) && Directed(slots, backwards)
      invariant forall k | 0 <= k < i :: StreamSlot(slots, rp, permutations, q, rest, permutations[k])
    {
      var j := permutations[i];
      var length := q + if j < rest then 1 else 0;
      var end := start + length;
      ghost var before := slots;
      slots := slots[j := Run(start, end, backwards)];
      NewStream(before, slots, rp, permutations, q, rest, i);
      start := end;
      i := i + 1;
    }
    forall j | 0 <= j < n ensures StreamSlot(slots, rp, permutations, q, rest, j) {
      assert permutations[rp[j]] == j;
    }
  }

  lemma BeforeNone(order: seq<nat>, q: nat, rest: nat)
    ensures Before(order, q, rest, 0) == 0
  {
  }

  lemma NewStream(before: seq<Run>, slots: seq<Run>, places: seq<nat>, order: seq<nat>, q: nat, rest: nat, i: nat)
    requires |before| == |slots| == |places| == |order| && i < |order| && (forall k | 0 <= k < |order| :: order[k] < |order| && places[order[k]] == k)
    requires slots == before[order[i] := slots[order[i]]]
    requires slots[order[i]].begin == Before(order, q, rest, i) && slots[order[i]].end == Before(order, q, rest, i) + StreamLength(order[i], q, rest)
    requires forall k | 0 <= k < i :: StreamSlot(before, places, order, q, rest, order[k])
    ensures Before(order, q, rest, i + 1) == Before(order, q, rest, i) + StreamLength(order[i], q, rest)
    ensures forall k | 0 <= k < i + 1 :: StreamSlot(slots, places, order, q, rest, order[k])
  {
    forall k | 0 <= k < i ensures StreamSlot(slots, places, order, q, rest, order[k]) {
      assert places[order[k]] == k && places[order[i]] == i;
      assert StreamSlot(before, places, order, q, rest, order[k]);
    }
    assert places[order[i]] == i;
  }

  /** The inverse of a permutation. */
  method Inverse(rp: seq<nat>, n: nat) returns (inverse: seq<nat>)
    requires Permutes(rp, n)
    ensures |inverse| == n && Permutes(inverse, n)
    ensures forall k | 0 <= k < n :: inverse[k] < n && rp[k] < n && inverse[rp[k]] == k && rp[inverse[k]] == k
  {
    hide Permutes;
    PermutesParts(rp, n);
    inverse := seq(n, _ => 0);
    var i := 0;
    while i < n
      invariant 0 <= i <= n && |inverse| == n && forall k | 0 <= k < i :: inverse[rp[k]] == k
    {
      inverse := inverse[rp[i] := i];
      i := i + 1;
    }
    forall p | 0 <= p < n ensures inverse[p] < n && rp[inverse[p]] == p {
      Onto(rp, n, p);
      var k :| 0 <= k < n && rp[k] == p;
    }
    InverseToo(inverse, rp, n);
  }

  lemma InverseToo(inverse: seq<nat>, rp: seq<nat>, n: nat)
    requires |inverse| == |rp| == n && forall p | 0 <= p < n :: inverse[p] < n && rp[inverse[p]] == p
    ensures Permutes(inverse, n)
  {
  }

  lemma ManyStreams(slots: seq<Run>, places: seq<nat>, order: seq<nat>, total: nat)
    requires StreamSlots(slots, places, order, total)
    ensures 1 <= |slots|
  {
  }

  lemma NextRound(i: nat, n: nat)
    requires 0 < n
    ensures (i + n) % n == i % n && (i + n) / n == i / n + 1
  {
    DivMod(i, n);
    Powers.DivUnique(i + n, n, i / n + 1, i % n);
  }

  class InterleavedDistribution {
    const slots: seq<Run>
    const capacity: nat
    const begin: nat
    const end: nat
    const backwards: bool
    ghost const places: seq<nat>
    ghost const order: seq<nat>

    ghost predicate Valid() {
      StreamSlots(slots, places, order, capacity) && Directed(slots, backwards) && begin <= end <= capacity
    }

    /** `rp` is the random permutation that gives the streams their places. */
    constructor (size: nat, streams: nat, backwards: bool, rp: seq<nat>)
      requires 1 <= streams <= size && Permutes(rp, streams)
      ensures Valid() && this.capacity == size && begin == 0 && end == size && |slots| == streams
      ensures this.backwards == backwards && places == rp && Stepwise()
    {
      var runs;
      ghost var ordered;
      runs, ordered := InterleavedRuns(size, streams, backwards, rp);
      this.slots, this.places, this.order, this.backwards := runs, rp, ordered, backwards;
      this.capacity := size;
      begin, end := 0, size;
      new;
      StepsWithin();
    }

    /** What the source's constructor does: no keys, no streams or more streams than keys are refused. */
    static method Create(size: nat, streams: nat, backwards: bool) returns (d: InterleavedDistribution?)
      requires streams <= ByteArrays.Pow256(8) / 2
      ensures d == null <==> size == 0 || streams == 0 || streams > size
      ensures d != null ==> d.Valid() && d.begin == 0 && d.end == d.capacity == size && |d.slots| == streams && Dense(d.Keys())
      ensures d != null ==> d.backwards == backwards && d.Stepwise()
    {
      hide ByteArrays.Pow256, StreamSlots, Dense;
      if size == 0 || streams == 0 || streams > size {
        return null;
      }
      var rp := RandomPermutation.RawKeys(streams);
      d := new InterleavedDistribution(size, streams, backwards, rp);
      d.IsDense();
    }

    /** One round later each stream has gone up by one, or down by one. */
    ghost predicate Stepwise()
      requires Valid()
    {
      forall i: nat | i + |slots| < Size() :: Key(i + |slots|) - Key(i) == Step(backwards)
    }

    lemma StepsWithin()
      requires Valid()
      ensures Stepwise()
    {
      hide StreamSlots;
      ManyStreams(slots, places, order, capacity);
      forall i: nat | i + |slots| < Size() ensures Key(i + |slots|) - Key(i) == Step(backwards) {
        NextRound(i + begin, |slots|);
      }
    }

    /** view: a part that would end behind the whole is refused. */
    method MakeView(start: nat, length: nat) returns (d: InterleavedDistribution?)
      requires Valid()
      ensures d == null <==> start + length > capacity
      ensures d != null ==> d.Valid() && d.begin == start && d.Size() == length && d.Stepwise()
      ensures d != null ==> d.slots == slots && d.places == places && d.capacity == capacity && d.backwards == backwards
      ensures d != null ==> forall i | 0 <= i < length && begin <= start + i < end :: d.Key(i) == Key(start + i - begin)
    {
      if start + length > capacity {
        return null;
      }
      d := new InterleavedDistribution.View(this, start, length);
    }

    constructor View(copy: InterleavedDistribution, start: nat, length: nat)
      requires copy.Valid() && start + length <= copy.capacity
      ensures Valid() && capacity == copy.capacity && begin == start && end == start + length && Stepwise()
      ensures slots == copy.slots && places == copy.places && backwards == copy.backwards
      ensures forall i | 0 <= i < length && copy.begin <= start + i < copy.end :: Key(i) == copy.Key(start + i - copy.begin)
    {
      slots, places, order, capacity, backwards := copy.slots, copy.places, copy.order, copy.capacity, copy.backwards;
      begin, end := start, start + length;
      new;
      StepsWithin();
    }

    function Size(): (n: int) {
      end - begin
    }

    function Key(index: nat): (k: int)
      requires Valid() && index < Size()
    {
      InterleavedKey(slots, index + begin)
    }

    ghost function Keys(): (s: seq<int>)
      requires Valid()
      ensures |s| == Size()
    {
      seq(Size(), i requires 0 <= i < Size() => Key(i))
    }

    lemma IsDense()
      requires Valid() && begin == 0 && end == capacity
      ensures Dense(Keys())
    {
      hide Dense, InterleavedKey;
      InterleavedDense(slots, places, order, capacity, Keys());
    }
  }

  /* NoiseDistribution */

  /** The permutation of the noise distribution: a permutation in which the numbers below the threshold
      appear in ascending order. */
  ghost predicate Reordered(p: seq<int>, n: nat, threshold: nat) {
    && Permutes(p, n) && threshold <= n
    && forall i, j | 0 <= i < j < n && p[i] < threshold && p[j] < threshold :: p[i] < p[j]
  }

  function NoiseKey(p: seq<int>, threshold: nat, backwards: bool, index: nat): (k: int)
    requires index < |p|
  {
    if 0 <= p[index] < threshold then Run(1, threshold + 1, backwards).Key(p[index]) else p[index] + 1
  }

  /** The noise distribution is dense, and the keys up to the threshold come in sequence. */
  lemma NoiseDense(p: seq<int>, n: nat, threshold: nat, backwards: bool, keys: seq<int>)
    requires Reordered(p, n, threshold) && |keys| == n && forall i | 0 <= i < n :: keys[i] == NoiseKey(p, threshold, backwards, i)
    ensures Dense(keys)
    ensures forall i, j | 0 <= i < j < n && keys[i] <= threshold && keys[j] <= threshold :: if backwards then keys[j] < keys[i] else keys[i] < keys[j]
  {
  }

  /** The positions of the numbers below the threshold, in order. */
  ghost predicate Positions(r: seq<nat>, p: seq<int>, threshold: nat, upto: nat) {
    && upto <= |p| && (forall a | 0 <= a < |r| :: r[a] < upto && 0 <= p[r[a]] < threshold)
    && (forall a, b | 0 <= a < b < |r| :: r[a] < r[b])
    && (forall i | 0 <= i < upto && 0 <= p[i] < threshold :: i in r)
  }

  /** There are exactly `threshold` of them. */
  lemma PositionsAll(r: seq<nat>, p: seq<int>, n: nat, threshold: nat)
    requires Permutes(p, n) && threshold <= n && Positions(r, p, threshold, n)
    ensures |r| == threshold
  {
    var values := seq(|r|, a requires 0 <= a < |r| => p[r[a]]);
    forall a, b | 0 <= a < b < |values| ensures values[a] != values[b] {
      assert r[a] < r[b];
    }
    ElementsSize(values);
    forall v | v in NumbersBelow(threshold) ensures v in Elements(values) {
      Onto(p, n, v);
      var i :| 0 <= i < n && p[i] == v;
      var a :| 0 <= a < |r| && r[a] == i;
      assert values[a] == v;
    }
    assert Elements(values) == NumbersBelow(threshold);
    BelowSize(threshold);
  }

  /** The numbers below the threshold put in ascending order. */
  ghost predicate Renumbered(v: seq<int>, p: seq<int>, r: seq<nat>, k: nat) {
    && |v| == |p| && k <= |r|
    && (forall a | 0 <= a < k && r[a] < |v| :: v[r[a]] == a)
    && (forall i | 0 <= i < |v| && i !in r[..k] :: v[i] == p[i])
  }

  lemma RenumberedNext(v: seq<int>, p: seq<int>, r: seq<nat>, k: nat)
    requires Renumbered(v, p, r, k) && k < |r| && r[k] < |v| && forall a, b | 0 <= a < b < |r| :: r[a] < r[b]
    ensures Renumbered(v[r[k] := k], p, r, k + 1)
  {
  }

  lemma RenumberedAll(v: seq<int>, p: seq<int>, n: nat, r: seq<nat>, threshold: nat)
    requires Permutes(p, n) && threshold <= n && Positions(r, p, threshold, n) && Renumbered(v, p, r, threshold) && |r| == threshold
    ensures Reordered(v, n, threshold)
  {
    assert r[..threshold] == r;
    forall i | 0 <= i < n ensures if i in r then Rank(r, i) < threshold && r[Rank(r, i)] == i && v[i] == Rank(r, i) else v[i] == p[i] && threshold <= v[i] {
      if i in r {
        RankIs(r, i);
        assert v[r[Rank(r, i)]] == Rank(r, i);
      }
    }
    forall i, j | 0 <= i < j < n ensures v[i] != v[j] && (v[i] < threshold && v[j] < threshold ==> v[i] < v[j]) {
      assert p[i] != p[j];
      if i in r && j in r {
        var a, b := Rank(r, i), Rank(r, j);
        RankOrder(r, a, b);
      }
    }
  }

  lemma RankOrder(r: seq<nat>, a: nat, b: nat)
    requires a < |r| && b < |r| && r[a] < r[b] && forall x, y | 0 <= x < y < |r| :: r[x] < r[y]
    ensures a < b
  {
  }

  ghost function Rank(r: seq<nat>, i: nat): (a: nat) {
    if r == [] || r[0] == i then 0 else 1 + Rank(r[1..], i)
  }

  lemma {:induction false} RankIs(r: seq<nat>, i: nat)
    requires i in r
    ensures Rank(r, i) < |r| && r[Rank(r, i)] == i
  {
    if r[0] != i {
      RankIs(r[1..], i);
    }
  }

  /** The positions of the numbers below the threshold. */
  method Collect(p: ByteArrays.CByteArray, n: nat, threshold: nat) returns (reordering: seq<nat>)
    requires p.Valid() && Permutes(p.Values(), n)
    ensures Positions(reordering, p.Values(), threshold, n)
  {
    hide ByteArrays.CByteArray.Values, ByteArrays.Bytes;
    ghost var v := p.Values();
    PermutesSize(v, n);
    reordering := [];
    var i := 0;
    while i < n
      invariant 0 <= i <= n && Positions(reordering, v, threshold, i)
    {
      var slot := p.Get(i);
      if slot < threshold {
        reordering := reordering + [i];
        assert reordering[|reordering| - 1] == i;
      }
      i := i + 1;
    }
  }

  lemma PermutesSize(s: seq<int>, n: nat)
    requires Permutes(s, n)
    ensures |s| == n && forall i | 0 <= i < n :: 0 <= s[i] < n
  {
  }

  class NoiseDistribution {
    const permutation: ByteArrays.CByteArray
    const threshold: nat
    const backwards: bool
    const capacity: nat
    const begin: nat
    const end: nat

    ghost predicate Valid()
      reads permutation.bytes
    {
      permutation.Valid() && Reordered(permutation.Values(), capacity, threshold) && begin <= end <= capacity
    }

    /** `threshold` is the share of the sequential keys the source computes in floating point. */
    constructor (size: nat, threshold: nat, backwards: bool)
      requires 1 <= size <= ByteArrays.Pow256(8) / 2 && threshold < size
      ensures Valid() && capacity == size && begin == 0 && end == size && this.threshold == threshold && this.backwards == backwards
    {
      hide ByteArrays.CByteArray.Values, ByteArrays.Bytes, ByteArrays.Pow256, ByteArrays.Kept, Permutes, Positions, Renumbered, Reordered;
      var p := RandomPermutation.ComputeRandomPermutationParallel(size, 1024);
      RandomPermutation.WidthEnough(size);
      ghost var v := p.Values();
      PermutesSize(v, size);
      var reordering := Collect(p, size, threshold);
      PositionsAll(reordering, v, size, threshold);
      PositionsParts(reordering, v, threshold, size);
      NothingRenumbered(v, reordering);
      var i := 0;
      while i < threshold
        invariant 0 <= i <= threshold && p.Valid() && |p.Values()| == size && Renumbered(p.Values(), v, reordering, i)
        modifies p.bytes
      {
        var j := reordering[i];
        RenumberedNext(p.Values(), v, reordering, i);
        p.Set(j, i);
        i := i + 1;
      }
      RenumberedAll(p.Values(), v, size, reordering, threshold);
      this.permutation := p;
      this.threshold, this.backwards, this.capacity := threshold, backwards, size;
      begin, end := 0, size;
    }

    method Key(index: nat) returns (k: int)
      requires Valid() && index < end - begin
      ensures |permutation.Values()| == capacity && k == NoiseKey(permutation.Values(), threshold, backwards, index + begin)
    {
      hide ByteArrays.CByteArray.Values, ByteArrays.Bytes;
      PermutesSize(permutation.Values(), capacity);
      var offset := permutation.Get(index + begin);
      if offset < threshold {
        k := Run(1, threshold + 1, backwards).Key(offset);
      } else {
        k := offset + 1;
      }
    }

    ghost function Keys(): (s: seq<int>)
      requires Valid()
      reads permutation.bytes
    {
      hide ByteArrays.CByteArray.Values, ByteArrays.Bytes;
      PermutesSize(permutation.Values(), capacity);
      var v, t, b, f := permutation.Values(), threshold, backwards, begin;
      seq(end - begin, i requires 0 <= i < end - begin && i + f < |v| => NoiseKey(v, t, b, i + f))
    }

    lemma IsDense()
      requires Valid() && begin == 0 && end == capacity
      ensures Dense(Keys())
    {
      hide ByteArrays.CByteArray.Values, ByteArrays.Bytes, Dense, Reordered;
      ReorderedSize(permutation.Values(), capacity, threshold);
      NoiseDense(permutation.Values(), capacity, threshold, backwards, Keys());
    }
  }

  lemma ReorderedSize(p: seq<int>, n: nat, threshold: nat)
    requires Reordered(p, n, threshold)
    ensures |p| == n && Permutes(p, n)
  {
  }

  lemma PositionsParts(r: seq<nat>, p: seq<int>, threshold: nat, n: nat)
    requires Positions(r, p, threshold, n)
    ensures (forall a | 0 <= a < |r| :: r[a] < n) && (forall a, b | 0 <= a < b < |r| :: r[a] < r[b])
  {
  }

  lemma NothingRenumbered(p: seq<int>, r: seq<nat>)
    ensures Renumbered(p, p, r, 0)
  {
  }
}
