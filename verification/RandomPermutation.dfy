/** compute_random_permutation_parallel: the numbers below `size` are thrown into buckets by one
    group of tasks and shuffled within each bucket by a second group. Which task moves next and what
    the random generators draw is left open. */
module RandomPermutation {
  import opened Sequences
  import opened Layout
  import opened InPlaceSpread
  import opened Permutations
  import opened ByteArrays

  function Count(s: seq<int>, x: int): (n: nat) {
    if s == [] then 0 else Count(s[..|s| - 1], x) + if s[|s| - 1] == x then 1 else 0
  }

  lemma {:induction false} CountJoin(a: seq<int>, b: seq<int>, x: int)
    ensures Count(a + b, x) == Count(a, x) + Count(b, x)
  {
    if b == [] {
      assert a + b == a;
    } else {
      CountJoin(a, b[..|b| - 1], x);
      assert (a + b)[..|a + b| - 1] == a + b[..|b| - 1];
    }
  }

  /** How often `x` occurs in all the sequences together. */
  function CountAll(ss: seq<seq<int>>, x: int): (n: nat) {
    if ss == [] then 0 else CountAll(ss[..|ss| - 1], x) + Count(ss[|ss| - 1], x)
  }

  lemma {:induction false} CountConcat(ss: seq<seq<int>>, x: int)
    ensures Count(Concat(ss), x) == CountAll(ss, x)
  {
    if ss != [] {
      CountConcat(ss[..|ss| - 1], x);
      CountJoin(Concat(ss[..|ss| - 1]), ss[|ss| - 1], x);
    }
  }

  /** One more number in one of the sequences is one more occurrence of that number in all. */
  lemma {:induction false} PushOne(ss: seq<seq<int>>, i: nat, y: int, x: int)
    requires i < |ss|
    ensures CountAll(ss[i := ss[i] + [y]], x) == CountAll(ss, x) + if x == y then 1 else 0
  {
    var n := |ss| - 1;
    var tt := ss[i := ss[i] + [y]];
    if i == n {
      assert tt[..n] == ss[..n] && (ss[i] + [y])[..|ss[i]|] == ss[i];
    } else {
      PushOne(ss[..n], i, y, x);
      assert tt[..n] == ss[..n][i := ss[i] + [y]];
    }
  }

  /** chunks[t][b] is what task `b` has thrown into bucket `t`. */
  function Thrown(chunks: seq<seq<seq<int>>>, x: int): (n: nat) {
    if chunks == [] then 0 else Thrown(chunks[..|chunks| - 1], x) + CountAll(chunks[|chunks| - 1], x)
  }

  lemma {:induction false} ThrownPush(chunks: seq<seq<seq<int>>>, t: nat, b: nat, y: int, x: int)
    requires t < |chunks| && b < |chunks[t]|
    ensures Thrown(chunks[t := chunks[t][b := chunks[t][b] + [y]]], x) == Thrown(chunks, x) + if x == y then 1 else 0
    decreases |chunks|
  {
    var n := |chunks| - 1;
    var cs := chunks[t := chunks[t][b := chunks[t][b] + [y]]];
    if t == n {
      assert cs[..n] == chunks[..n];
      PushOne(chunks[n], b, y, x);
    } else {
      ThrownPush(chunks[..n], t, b, y, x);
      assert cs[..n] == chunks[..n][t := chunks[t][b := chunks[t][b] + [y]]];
    }
  }

  /** Task `b` works through [starts[b], ends[b]) and has `left[b]` numbers to go. */
  ghost predicate InRange(starts: seq<nat>, ends: seq<nat>, left: seq<nat>) {
    |starts| == |ends| == |left| && forall b | 0 <= b < |left| :: starts[b] + left[b] <= ends[b]
  }

  /** The ranges follow each other from 0 to `size`. */
  ghost predicate Consecutive(starts: seq<nat>, ends: seq<nat>, size: nat) {
    && 0 < |starts| == |ends| && starts[0] == 0 && ends[|ends| - 1] == size
    && (forall b | 0 <= b < |starts| :: starts[b] <= ends[b])
    && (forall b | 0 < b < |starts| :: starts[b] == ends[b - 1])
  }

  /** How often the first `k` tasks have dealt with `x` so far. */
  ghost function Dealt(starts: seq<nat>, ends: seq<nat>, left: seq<nat>, k: nat, x: int): (n: nat)
    requires InRange(starts, ends, left) && k <= |left|
  {
    if k == 0 then 0 else Dealt(starts, ends, left, k - 1, x) + if starts[k - 1] <= x < ends[k - 1] - left[k - 1] then 1 else 0
  }

  lemma {:induction false} DealtOne(starts: seq<nat>, ends: seq<nat>, left: seq<nat>, b: nat, k: nat, x: int)
    requires InRange(starts, ends, left) && b < |left| && k <= |left| && 0 < left[b]
    ensures InRange(starts, ends, left[b := left[b] - 1])
    ensures Dealt(starts, ends, left[b := left[b] - 1], k, x)
            == Dealt(starts, ends, left, k, x) + if b < k && x == ends[b] - left[b] then 1 else 0
  {
    if k != 0 {
      DealtOne(starts, ends, left, b, k - 1, x);
    }
  }

  lemma {:induction false} DealtAll(starts: seq<nat>, ends: seq<nat>, left: seq<nat>, size: nat, k: nat, x: int)
    requires InRange(starts, ends, left) && Consecutive(starts, ends, size) && 0 < k <= |left| && forall i | 0 <= i < |left| :: left[i] == 0
    ensures Dealt(starts, ends, left, k, x) == if 0 <= x < ends[k - 1] then 1 else 0
  {
    if k == 1 {
      assert Dealt(starts, ends, left, 0, x) == 0;
    } else {
      DealtAll(starts, ends, left, size, k - 1, x);
    }
  }

  lemma {:induction false} DealtNone(starts: seq<nat>, ends: seq<nat>, left: seq<nat>, k: nat, x: int)
    requires InRange(starts, ends, left) && k <= |left| && forall i | 0 <= i < |left| :: starts[i] + left[i] == ends[i]
    ensures Dealt(starts, ends, left, k, x) == 0
  {
    if k != 0 {
      DealtNone(starts, ends, left, k - 1, x);
    }
  }

  lemma SumDown(c: seq<nat>, i: nat)
    requires i < |c| && 0 < c[i]
    ensures Sum(c[i := c[i] - 1], 0, |c|) == Sum(c, 0, |c|) - 1
  {
    var d := c[i := c[i] - 1];
    SumSplit(c, 0, i, |c|);
    SumSplit(c, i, i + 1, |c|);
    SumSplit(d, 0, i, |c|);
    SumSplit(d, i, i + 1, |c|);
    SumFrame(c, d, 0, i);
    SumFrame(c, d, i + 1, |c|);
    assert Sum(c, i, i + 1) == c[i] && Sum(d, i, i + 1) == d[i] by {
      assert Sum(c, i, i) == 0 && Sum(d, i, i) == 0;
    }
  }

  /** The ranges of the tasks: as even as possible, the longer ones first. */
  method Ranges(size: nat, n: nat) returns (starts: seq<nat>, ends: seq<nat>)
    requires 0 < n
    ensures |starts| == n && Consecutive(starts, ends, size)
    ensures forall b | 0 <= b < n :: ends[b] == starts[b] + size / n + if b < size % n then 1 else 0
  {
    BaseIsProduct(n, size / n);
    assert size == n * (size / n) + size % n;
    starts, ends := EvenRanges(n, size / n, size % n);
  }

  method EvenRanges(n: nat, step: nat, odd: nat) returns (starts: seq<nat>, ends: seq<nat>)
    requires 0 < n && odd < n
    ensures |starts| == n && Consecutive(starts, ends, Base(n, step) + odd)
    ensures forall b | 0 <= b < n :: ends[b] == starts[b] + step + if b < odd then 1 else 0
  {
    starts, ends := [], [];
    var i, start, end := 0, 0, step;
    while i < n
      invariant 0 <= i <= n && |starts| == |ends| == i && end == start + step
      invariant if i == 0 then start == 0 else starts[0] == 0 && start == ends[i - 1]
      invariant forall b | 0 <= b < i :: ends[b] == starts[b] + step + if b < odd then 1 else 0
      invariant forall b | 0 < b < i :: starts[b] == ends[b - 1]
      invariant start == Base(i, step) + if i < odd then i else odd
    {
      if i < odd {
        end := end + 1;
      }
      starts, ends := starts + [start], ends + [end];
      start := end;
      end := end + step;
      i := i + 1;
    }
  }

  /** The numbers in [lo, hi) that are thrown into bucket `t`, in ascending order; number `y` goes to targets[y]. */
  function Caught(targets: seq<nat>, t: nat, lo: nat, hi: nat): (s: seq<int>)
    requires lo <= hi <= |targets|
    decreases hi
  {
    if lo == hi then [] else Caught(targets, t, lo, hi - 1) + if targets[hi - 1] == t then [hi - 1] else []
  }

  lemma {:induction false} CaughtJoin(targets: seq<nat>, t: nat, lo: nat, mid: nat, hi: nat)
    requires lo <= mid <= hi <= |targets|
    ensures Caught(targets, t, lo, hi) == Caught(targets, t, lo, mid) + Caught(targets, t, mid, hi)
    decreases hi
  {
    if mid < hi {
      CaughtJoin(targets, t, lo, mid, hi - 1);
    }
  }

  /** What the tasks have thrown so far depends only on how far each has come. */
  ghost predicate ThrownSoFar(chunks: seq<seq<seq<int>>>, starts: seq<nat>, ends: seq<nat>, left: seq<nat>, targets: seq<nat>) {
    && |chunks| == |starts| == |ends| == |left| && (forall t | 0 <= t < |chunks| :: |chunks[t]| == |starts|)
    && forall t, b | 0 <= t < |chunks| && 0 <= b < |starts| :: ChunkIs(chunks, starts, ends, left, targets, t, b)
  }

  ghost predicate ChunkIs(chunks: seq<seq<seq<int>>>, starts: seq<nat>, ends: seq<nat>, left: seq<nat>, targets: seq<nat>, t: nat, b: nat) {
    && t < |chunks| && b < |chunks[t]| && b < |starts| && b < |ends| && b < |left| && starts[b] + left[b] <= ends[b] <= |targets|
    && chunks[t][b] == Caught(targets, t, starts[b], ends[b] - left[b])
  }

  lemma ThrownNext(chunks: seq<seq<seq<int>>>, starts: seq<nat>, ends: seq<nat>, left: seq<nat>, targets: seq<nat>, b: nat)
    requires ThrownSoFar(chunks, starts, ends, left, targets) && b < |left| && 0 < left[b]
    ensures starts[b] + left[b] <= ends[b] <= |targets|
    ensures var y := ends[b] - left[b]; targets[y] < |chunks| ==>
      ThrownSoFar(chunks[targets[y] := chunks[targets[y]][b := chunks[targets[y]][b] + [y]]], starts, ends, left[b := left[b] - 1], targets)
  {
    if chunks != [] {
      assert ChunkIs(chunks, starts, ends, left, targets, 0, b);
      var y := ends[b] - left[b];
      if targets[y] < |chunks| {
        var chunks', left' := chunks[targets[y] := chunks[targets[y]][b := chunks[targets[y]][b] + [y]]], left[b := left[b] - 1];
        forall t, c | 0 <= t < |chunks'| && 0 <= c < |starts| ensures ChunkIs(chunks', starts, ends, left', targets, t, c) {
          assert ChunkIs(chunks, starts, ends, left, targets, t, c);
        }
      }
    }
  }

  lemma {:induction false} WholeBucket(chunks: seq<seq<seq<int>>>, starts: seq<nat>, ends: seq<nat>, left: seq<nat>, targets: seq<nat>, t: nat, k: nat)
    requires ThrownSoFar(chunks, starts, ends, left, targets) && Consecutive(starts, ends, |targets|) && t < |chunks| && 0 < k <= |starts|
    requires forall b | 0 <= b < |left| :: left[b] == 0
    ensures ends[k - 1] <= |targets| && Concat(chunks[t][..k]) == Caught(targets, t, 0, ends[k - 1])
    decreases k
  {
    assert ChunkIs(chunks, starts, ends, left, targets, t, k - 1);
    assert chunks[t][..k][..k - 1] == chunks[t][..k - 1];
    if k == 1 {
      assert Concat(chunks[t][..0]) == [];
    } else {
      WholeBucket(chunks, starts, ends, left, targets, t, k - 1);
      CaughtJoin(targets, t, 0, ends[k - 2], ends[k - 1]);
    }
  }

  /** First phase: as long as some task has numbers left, some such task throws its next number into
      the bucket drawn for it. In the end every number below `size` is in that bucket, and what is where does
      not depend on the order of the steps. */
  method Throw(n: nat, size: nat, starts: seq<nat>, ends: seq<nat>, targets: seq<nat>) returns (chunks: seq<seq<seq<int>>>)
    requires |starts| == n && Consecutive(starts, ends, size) && |targets| == size && forall y | 0 <= y < size :: targets[y] < n
    ensures forall t | 0 <= t < |chunks| :: Concat(chunks[t]) == Caught(targets, t, 0, size)
    ensures |chunks| == n && (forall t | 0 <= t < n :: |chunks[t]| == n)
    ensures forall x: int :: Thrown(chunks, x) == if 0 <= x < size then 1 else 0
  {
    hide Thrown, Dealt, ThrownSoFar, Concat, Caught;
    chunks := seq(n, t => seq(n, b => []));
    var left: seq<nat> := seq(n, b requires 0 <= b < n => ends[b] - starts[b]);
    forall x: int ensures Thrown(chunks, x) == 0 && Dealt(starts, ends, left, n, x) == 0 {
      NothingThrown(chunks, n, x);
      DealtNone(starts, ends, left, n, x);
    }
    NothingYetThrown(chunks, starts, ends, left, targets);
    while exists b :: 0 <= b < n && 0 < left[b]
      invariant |left| == n && InRange(starts, ends, left)
      invariant |chunks| == n && forall t | 0 <= t < n :: |chunks[t]| == n
      invariant forall x: int :: Thrown(chunks, x) == Dealt(starts, ends, left, n, x)
      invariant ThrownSoFar(chunks, starts, ends, left, targets)
      decreases Sum(left, 0, n)
    {
      var b: nat :| b < n && 0 < left[b];
      ThrownNext(chunks, starts, ends, left, targets, b);
      chunks, left := ThrowOne(chunks, starts, ends, left, n, b, targets[ends[b] - left[b]]);
    }
    forall x: int ensures Thrown(chunks, x) == if 0 <= x < size then 1 else 0 {
      DealtAll(starts, ends, left, size, n, x);
    }
    forall t | 0 <= t < |chunks| ensures Concat(chunks[t]) == Caught(targets, t, 0, size) {
      WholeBucket(chunks, starts, ends, left, targets, t, n);
      assert chunks[t][..n] == chunks[t];
    }
  }

  /** One step of task `b`. */
  method ThrowOne(chunks: seq<seq<seq<int>>>, starts: seq<nat>, ends: seq<nat>, left: seq<nat>, n: nat, b: nat, target: nat)
    returns (chunks': seq<seq<seq<int>>>, left': seq<nat>)
    requires InRange(starts, ends, left) && |left| == n == |chunks| && b < n && target < n && 0 < left[b]
    requires forall t | 0 <= t < n :: |chunks[t]| == n
    requires forall x: int :: Thrown(chunks, x) == Dealt(starts, ends, left, n, x)
    ensures |left'| == n == |chunks'| && InRange(starts, ends, left') && forall t | 0 <= t < n :: |chunks'[t]| == n
    ensures Sum(left', 0, n) < Sum(left, 0, n)
    ensures forall x: int :: Thrown(chunks', x) == Dealt(starts, ends, left', n, x)
    ensures chunks' == chunks[target := chunks[target][b := chunks[target][b] + [ends[b] - left[b]]]] && left' == left[b := left[b] - 1]
  {
    hide Thrown, Dealt, Sum;
    var y := ends[b] - left[b];
    SumDown(left, b);
    DealtOne(starts, ends, left, b, n, y);
    chunks' := chunks[target := chunks[target][b := chunks[target][b] + [y]]];
    left' := left[b := left[b] - 1];
    forall x: int ensures Thrown(chunks', x) == Dealt(starts, ends, left', n, x) {
      ThrownPush(chunks, target, b, y, x);
      DealtOne(starts, ends, left, b, n, x);
    }
  }

  lemma NothingYetThrown(chunks: seq<seq<seq<int>>>, starts: seq<nat>, ends: seq<nat>, left: seq<nat>, targets: seq<nat>)
    requires Consecutive(starts, ends, |targets|) && |chunks| == |starts| == |left| && forall b | 0 <= b < |left| :: left[b] == ends[b] - starts[b]
    requires forall t | 0 <= t < |chunks| :: |chunks[t]| == |starts| && forall b | 0 <= b < |starts| :: chunks[t][b] == []
    ensures ThrownSoFar(chunks, starts, ends, left, targets)
  {
    forall b | 0 <= b < |ends| ensures ends[b] <= |targets| {
      EndsWithin(starts, ends, |targets|, b);
    }
    forall t, b | 0 <= t < |chunks| && 0 <= b < |starts| ensures ChunkIs(chunks, starts, ends, left, targets, t, b) {
      assert Caught(targets, t, starts[b], starts[b]) == [];
    }
  }

  lemma {:induction false} EndsWithin(starts: seq<nat>, ends: seq<nat>, size: nat, b: nat)
    requires Consecutive(starts, ends, size) && b < |ends|
    ensures ends[b] <= size
    decreases |ends| - b
  {
    if b + 1 < |ends| {
      EndsWithin(starts, ends, size, b + 1);
    }
  }

  lemma {:induction false} NothingThrown(chunks: seq<seq<seq<int>>>, n: nat, x: int)
    requires forall t | 0 <= t < |chunks| :: |chunks[t]| == n && forall b | 0 <= b < n :: chunks[t][b] == []
    ensures Thrown(chunks, x) == 0
  {
    if chunks != [] {
      NothingThrown(chunks[..|chunks| - 1], n, x);
      NoNumbers(chunks[|chunks| - 1], x);
    }
  }

  lemma {:induction false} NoNumbers(ss: seq<seq<int>>, x: int)
    requires forall b | 0 <= b < |ss| :: ss[b] == []
    ensures CountAll(ss, x) == 0
  {
    if ss != [] {
      NoNumbers(ss[..|ss| - 1], x);
    }
  }

  lemma {:induction false} CountUpdate(s: seq<int>, i: nat, v: int, x: int)
    requires i < |s|
    ensures Count(s[i := v], x) + (if s[i] == x then 1 else 0) == Count(s, x) + if v == x then 1 else 0
  {
    var n := |s| - 1;
    if i == n {
      assert s[i := v][..n] == s[..n];
    } else {
      CountUpdate(s[..n], i, v, x);
      assert s[i := v][..n] == s[..n][i := v];
    }
  }

  /** The second task of a bucket: as many steps as there are numbers, then one swap for each but the last two. */
  function Steps(n: nat): (k: nat) {
    n + if 2 <= n then n - 2 else 0
  }

  /** A position for each swap of a bucket of `c` numbers, not before the one it is swapped with. */
  ghost predicate Suits(swaps: seq<nat>, c: nat) {
    |swaps| == (if 2 <= c then c - 2 else 0) && forall i | 0 <= i < |swaps| :: i <= swaps[i] < c
  }

  /** The numbers after the first `m` swaps. */
  function Swapped(s: seq<int>, swaps: seq<nat>, m: nat): (r: seq<int>)
    requires m <= |swaps| && m <= |s| && forall i | 0 <= i < |swaps| :: swaps[i] < |s|
    ensures |r| == |s|
  {
    if m == 0 then s else
      var u := Swapped(s, swaps, m - 1);
      u[m - 1 := u[swaps[m - 1]]][swaps[m - 1] := u[m - 1]]
  }

  /** A bucket's array with `left` steps to go: first the numbers are put down in order, then they
      are swapped. */
  ghost predicate Progress(p: CByteArray, flat: seq<int>, swaps: seq<nat>, left: nat)
    reads p.bytes
  {
    && Suits(swaps, |flat|)
    && p.Valid() && p.capacity == |flat| && left <= Steps(|flat|)
    && var k := Steps(|flat|) - left;
       && (k <= |flat| ==> forall i | 0 <= i < k :: p.Values()[i] == flat[i])
       && (|flat| <= k ==> p.Values() == Swapped(flat, swaps, k - |flat|) && forall x: int :: Count(p.Values(), x) == Count(flat, x))
  }

  /** All numbers of the bucket fit into the width of its array. */
  ghost predicate Fit(flat: seq<int>, w: nat) {
    forall i | 0 <= i < |flat| :: Kept(w, flat[i]) == flat[i]
  }

  /** One step of a bucket's task. */
  method BucketStep(p: CByteArray, flat: seq<int>, swaps: seq<nat>, left: nat)
    requires Progress(p, flat, swaps, left) && 0 < left && Fit(flat, p.width)
    modifies p.bytes
    ensures Progress(p, flat, swaps, left - 1)
  {
    hide CByteArray.Values, Kept, Count, Bytes;
    var k := Steps(|flat|) - left;
    if k < |flat| {
      p.Set(k, flat[k]);
      if k + 1 == |flat| {
        assert p.Values() == flat;
      }
    } else {
      var i := k - |flat|;
      SwapStep(p, i, swaps[i], flat);
    }
  }

  method SwapStep(p: CByteArray, i: nat, j: nat, ghost flat: seq<int>)
    requires p.Valid() && p.capacity == |flat| && i < p.capacity && j < p.capacity
    requires forall x: int :: Count(p.Values(), x) == Count(flat, x)
    modifies p.bytes
    ensures p.Valid() && forall x: int :: Count(p.Values(), x) == Count(flat, x)
    ensures p.Values() == old(p.Values())[i := old(p.Values())[j]][j := old(p.Values())[i]]
  {
    hide Kept, Count, Bytes, ValueAt, Base;
    ghost var s := p.Values();
    Again(p, i);
    Again(p, j);
    var tmp := p.Get(i);
    var other := p.Get(j);
    p.Set(i, other);
    p.Set(j, tmp);
    forall x: int ensures Count(p.Values(), x) == Count(flat, x) {
      CountUpdate(s, i, s[j], x);
      CountUpdate(s[i := s[j]], j, s[i], x);
    }
  }

  lemma Again(p: CByteArray, i: nat)
    requires p.Valid() && i < p.capacity
    ensures Kept(p.width, p.Values()[i]) == p.Values()[i]
  {
    hide Kept, ValueAt, Base;
    Inside(p.bytes.Length, p.width, p.capacity, i);
    Storable(p.bytes[..], p.width, i);
  }

  ghost predicate Separate(perms: seq<CByteArray>) {
    forall t, u | 0 <= t < u < |perms| :: perms[t].bytes != perms[u].bytes
  }

  /** Second phase: as long as some bucket has steps left, some such bucket's task makes its next step. */
  method Shuffle(perms: seq<CByteArray>, flats: seq<seq<int>>, swaps: seq<seq<nat>>)
    requires |perms| == |flats| == |swaps| && Separate(perms)
    requires forall t | 0 <= t < |perms| :: Progress(perms[t], flats[t], swaps[t], Steps(|flats[t]|)) && Fit(flats[t], perms[t].width)
    modifies set t | 0 <= t < |perms| :: perms[t].bytes
    ensures forall t | 0 <= t < |perms| :: Progress(perms[t], flats[t], swaps[t], 0)
  {
    hide Fit, Progress;
    var n := |perms|;
    var left: seq<nat> := seq(n, t requires 0 <= t < n => Steps(|flats[t]|));
    while exists t :: 0 <= t < n && 0 < left[t]
      invariant |left| == n && forall t | 0 <= t < n :: Progress(perms[t], flats[t], swaps[t], left[t])
      decreases Sum(left, 0, n)
    {
      var t: nat :| t < n && 0 < left[t];
      BucketStep(perms[t], flats[t], swaps[t], left[t]);
      SumDown(left, t);
      left := left[t := left[t] - 1];
      assert forall u | 0 <= u < n :: u != t ==> perms[u].bytes != perms[t].bytes;
    }
  }

  /** The bytes needed for the numbers below `size`, at least one; doubles are exact here. */
  function BytesPerElement(size: nat): (w: nat)
    requires 1 <= size
  {
    if Width(size) < 1 then 1 else Width(size)
  }

  lemma WidthEnough(size: nat)
    requires 1 <= size <= Pow256(8) / 2
    ensures 1 <= BytesPerElement(size) <= 8
    ensures forall v: int | 0 <= v < size :: Kept(BytesPerElement(size), v) == v
  {
    hide Kept;
    var w := BytesPerElement(size);
    WidthLeast(size, 8);
    PowLe(Width(size), w);
    forall v: int | 0 <= v < size ensures Kept(w, v) == v {
      RoundTrip(w, v);
    }
  }

  method Flatten(ss: seq<seq<int>>) returns (flat: seq<int>)
    ensures flat == Concat(ss)
  {
    flat := [];
    var i := 0;
    while i < |ss|
      invariant 0 <= i <= |ss| && flat == Concat(ss[..i])
    {
      assert ss[..i + 1][..i] == ss[..i];
      flat := flat + ss[i];
      i := i + 1;
    }
    assert ss[..i] == ss;
  }

  /** A fresh array for each bucket. */
  method Buckets(chunks: seq<seq<seq<int>>>, width: nat, ghost swaps: seq<seq<nat>>) returns (perms: seq<CByteArray>, flats: seq<seq<int>>)
    requires 1 <= width <= 8 && |swaps| == |chunks| && forall t | 0 <= t < |chunks| :: Suits(swaps[t], |Concat(chunks[t])|)
    ensures |perms| == |flats| == |chunks| && Separate(perms)
    ensures forall t | 0 <= t < |chunks| :: flats[t] == Concat(chunks[t]) && Progress(perms[t], flats[t], swaps[t], Steps(|flats[t]|)) && perms[t].width == width
    ensures forall t | 0 <= t < |chunks| :: fresh(perms[t]) && fresh(perms[t].bytes)
  {
    hide Suits, Concat, Progress, CByteArray.Values;
    perms, flats := [], [];
    var t := 0;
    while t < |chunks|
      invariant 0 <= t <= |chunks| && |perms| == |flats| == t && Separate(perms)
      invariant forall u | 0 <= u < t :: flats[u] == Concat(chunks[u]) && Progress(perms[u], flats[u], swaps[u], Steps(|flats[u]|)) && perms[u].width == width
      invariant forall u | 0 <= u < t :: fresh(perms[u]) && fresh(perms[u].bytes)
    {
      var flat := Flatten(chunks[t]);
      var p := new CByteArray(width, |flat|);
      NothingYet(p, flat, swaps[t]);
      perms, flats := perms + [p], flats + [flat];
      t := t + 1;
    }
  }

  lemma NothingYet(p: CByteArray, flat: seq<int>, swaps: seq<nat>)
    requires p.Valid() && p.capacity == |flat| && Suits(swaps, |flat|)
    ensures Progress(p, flat, swaps, Steps(|flat|))
  {
    if flat == [] {
      assert p.Values() == flat;
    }
  }

  /** Every number below `size` exactly once: a permutation. */
  lemma OnceEach(s: seq<int>, size: nat)
    requires forall x: int :: Count(s, x) == if 0 <= x < size then 1 else 0
    ensures Permutes(s, size)
  {
    forall i | 0 <= i < |s| ensures 0 <= s[i] < size {
      CountAt(s, i, i);
    }
    forall i, j | 0 <= i < j < |s| ensures s[i] != s[j] {
      CountAt(s, i, j);
    }
    forall x | 0 <= x < size ensures x in s {
      Occurs(s, x);
    }
    ElementsSize(s);
    BelowSize(size);
    assert Elements(s) == NumbersBelow(size);
  }

  lemma {:induction false} CountAt(s: seq<int>, i: nat, j: nat)
    requires i <= j < |s|
    ensures 1 <= Count(s, s[i])
    ensures i < j && s[i] == s[j] ==> 2 <= Count(s, s[i])
  {
    var n := |s| - 1;
    if j < n {
      CountAt(s[..n], i, j);
    } else if i < n {
      CountAt(s[..n], i, i);
    }
  }

  lemma {:induction false} Occurs(s: seq<int>, x: int)
    requires 0 < Count(s, x)
    ensures x in s
  {
    if s[|s| - 1] != x {
      Occurs(s[..|s| - 1], x);
    }
  }

  /** The number of occurrences does not depend on how the buckets are shuffled. */
  lemma {:induction false} SameCounts(chunks: seq<seq<seq<int>>>, vs: seq<seq<int>>, x: int)
    requires |vs| == |chunks| && forall t | 0 <= t < |vs| :: Count(vs[t], x) == Count(Concat(chunks[t]), x)
    ensures CountAll(vs, x) == Thrown(chunks, x)
  {
    if vs != [] {
      var n := |vs| - 1;
      SameCounts(chunks[..n], vs[..n], x);
      CountConcat(chunks[n], x);
    }
  }

  /** Numbers in the buckets are numbers below `size`. */
  lemma {:induction false} InBucket(chunks: seq<seq<seq<int>>>, t: nat, x: int)
    requires t < |chunks|
    ensures Count(Concat(chunks[t]), x) <= Thrown(chunks, x)
    decreases |chunks|
  {
    var n := |chunks| - 1;
    if t == n {
      CountConcat(chunks[n], x);
    } else {
      InBucket(chunks[..n], t, x);
    }
  }

  lemma FlatsFit(chunks: seq<seq<seq<int>>>, t: nat, size: nat)
    requires t < |chunks| && 1 <= size <= Pow256(8) / 2
    requires forall x: int :: Thrown(chunks, x) == if 0 <= x < size then 1 else 0
    ensures Fit(Concat(chunks[t]), BytesPerElement(size))
  {
    hide Kept, Concat, Thrown;
    WidthEnough(size);
    var flat := Concat(chunks[t]);
    forall i | 0 <= i < |flat| ensures Kept(BytesPerElement(size), flat[i]) == flat[i] {
      CountAt(flat, i, i);
      InBucket(chunks, t, flat[i]);
    }
  }

  ghost function ValuesEach(perms: seq<CByteArray>): (vs: seq<seq<int>>)
    requires forall t | 0 <= t < |perms| :: perms[t].Valid()
    reads set p | p in perms :: p.bytes
    ensures |vs| == |perms| && forall t | 0 <= t < |perms| :: vs[t] == perms[t].Values()
  {
    if perms == [] then [] else ValuesEach(perms[..|perms| - 1]) + [perms[|perms| - 1].Values()]
  }

  /** The numbers drawn: a bucket for each number, and for each bucket the positions of its swaps. */
  ghost predicate Drawn(size: nat, n: nat, targets: seq<nat>, swaps: seq<seq<nat>>) {
    && |targets| == size && (forall y | 0 <= y < size :: targets[y] < n)
    && |swaps| == n && forall t | 0 <= t < n :: Suits(swaps[t], |Caught(targets, t, 0, size)|)
  }

  /** What the buckets hold in the end, one after the other: a function of the numbers drawn alone. */
  ghost function Outcome(targets: seq<nat>, swaps: seq<seq<nat>>): (s: seq<int>)
    requires Drawn(|targets|, |swaps|, targets, swaps)
  {
    Concat(seq(|swaps|, t requires 0 <= t < |swaps| =>
      Suitable(swaps[t], |Caught(targets, t, 0, |targets|)|); Swapped(Caught(targets, t, 0, |targets|), swaps[t], |swaps[t]|)))
  }

  lemma Suitable(swaps: seq<nat>, c: nat)
    requires Suits(swaps, c)
    ensures |swaps| <= c && forall i | 0 <= i < |swaps| :: swaps[i] < c
  {
  }

  /** The whole computation: a permutation of the numbers below `size` that depends on the numbers drawn, but not
      on the order of the tasks' steps. */
  method Compute(size: nat, n: nat, targets: seq<nat>, swaps: seq<seq<nat>>) returns (r: CByteArray)
    requires 1 <= n <= size <= Pow256(8) / 2 && Drawn(size, n, targets, swaps)
    ensures fresh(r) && fresh(r.bytes) && r.Valid() && Permutes(r.Values(), size) && r.width == BytesPerElement(size)
    ensures r.Values() == Outcome(targets, swaps)
  {
    hide Thrown, Count, Fit, Kept, Pow256, CByteArray.Values, Consecutive, Concat, Caught, Suits, Swapped;
    var width := BytesPerElement(size);
    WidthEnough(size);
    var starts, ends := Ranges(size, n);
    var chunks := Throw(n, size, starts, ends, targets);
    var perms, flats := Buckets(chunks, width, swaps);
    forall t | 0 <= t < n ensures Fit(flats[t], perms[t].width) {
      FlatsFit(chunks, t, size);
    }
    Shuffle(perms, flats, swaps);
    r := Gather(perms, flats, swaps, targets, chunks, width, size);
  }

  /** As many buckets as asked for, at most one for each number, and whatever is drawn. */
  method ComputeRandomPermutationParallel(size: nat, buckets: nat) returns (r: CByteArray)
    requires 1 <= size <= Pow256(8) / 2 && 1 <= buckets
    ensures fresh(r) && fresh(r.bytes) && r.Valid() && Permutes(r.Values(), size) && r.width == BytesPerElement(size)
  {
    hide Pow256, Suits, Caught, CByteArray.Values;
    var n := if buckets > size then size else buckets;
    var targets: seq<nat> := [];
    while |targets| < size
      invariant |targets| <= size && forall y | 0 <= y < |targets| :: targets[y] < n
    {
      var target: nat :| target < n;
      targets := targets + [target];
    }
    var swaps: seq<seq<nat>> := [];
    while |swaps| < n
      invariant |swaps| <= n && forall t | 0 <= t < |swaps| :: Suits(swaps[t], |Caught(targets, t, 0, size)|)
    {
      var s := DrawSwaps(|Caught(targets, |swaps|, 0, size)|);
      swaps := swaps + [s];
    }
    r := Compute(size, n, targets, swaps);
  }

  method DrawSwaps(c: nat) returns (swaps: seq<nat>)
    ensures Suits(swaps, c)
  {
    swaps := [];
    while |swaps| + 2 < c
      invariant |swaps| <= (if 2 <= c then c - 2 else 0) && forall i | 0 <= i < |swaps| :: i <= swaps[i] < c
    {
      var j: nat :| |swaps| <= j < c;
      swaps := swaps + [j];
    }
  }

  /** The buckets' arrays one after the other. */
  method Gather(perms: seq<CByteArray>, ghost flats: seq<seq<int>>, ghost swaps: seq<seq<nat>>, ghost targets: seq<nat>, ghost chunks: seq<seq<seq<int>>>,
                ghost width: nat, ghost size: nat) returns (r: CByteArray)
    requires 0 < |perms| == |flats| == |chunks| == |swaps| && Drawn(size, |perms|, targets, swaps)
    requires forall t | 0 <= t < |perms| :: Progress(perms[t], flats[t], swaps[t], 0) && perms[t].width == width && flats[t] == Concat(chunks[t])
    requires forall t | 0 <= t < |perms| :: flats[t] == Caught(targets, t, 0, size)
    requires forall x: int :: Thrown(chunks, x) == if 0 <= x < size then 1 else 0
    ensures fresh(r) && fresh(r.bytes) && r.Valid() && Permutes(r.Values(), size) && r.width == width
    ensures r.Values() == Outcome(targets, swaps)
  {
    hide Thrown, Count, Kept, CByteArray.Values, Concat, Bytes, Caught, Swapped;
    ghost var vs := ValuesEach(perms);
    var merged := Merge(perms, vs);
    r := merged;
    forall x: int ensures Count(r.Values(), x) == if 0 <= x < size then 1 else 0 {
      CountConcat(vs, x);
      SameCounts(chunks, vs, x);
    }
    OnceEach(r.Values(), size);
    assert vs == seq(|swaps|, t requires 0 <= t < |swaps| =>
      Suitable(swaps[t], |Caught(targets, t, 0, |targets|)|); Swapped(Caught(targets, t, 0, |targets|), swaps[t], |swaps[t]|));
  }

  /** The permutation as a list of indices. */
  method RawKeys(n: nat) returns (perm: seq<nat>)
    requires 1 <= n <= Pow256(8) / 2
    ensures Permutes(perm, n)
  {
    hide CByteArray.Values, Bytes, Pow256, Permutes;
    var rp := ComputeRandomPermutationParallel(n, 1024);
    ghost var keys := rp.Values();
    PermutesBounds(keys, n);
    perm := [];
    var i := 0;
    while i < n
      invariant 0 <= i <= n && |perm| == i && rp.Valid() && rp.Values() == keys
      invariant forall j | 0 <= j < i :: perm[j] == keys[j]
    {
      var k := rp.Get(i);
      perm := perm + [k];
      i := i + 1;
    }
    SamePermutation(keys, perm, n);
  }

  lemma PermutesBounds(s: seq<int>, n: nat)
    requires Permutes(s, n)
    ensures |s| == n && forall i | 0 <= i < n :: 0 <= s[i] < n
  {
  }

  lemma SamePermutation(s: seq<int>, t: seq<int>, n: nat)
    requires Permutes(s, n) && |t| == n && forall i | 0 <= i < n :: t[i] == s[i]
    ensures Permutes(t, n)
  {
    assert s == t;
  }
}
