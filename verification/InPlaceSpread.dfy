/** The in-place spread of a window of segments (BTreePMA_v4::spread): compact towards the end of
    the window with the last four segments set aside, then redistribute forwards over the same
    cells, adding one new pair on the way. */
module InPlaceSpread {
  import opened Sequences
  import opened Layout

  /** One column (keys or values) of the array as the spread finds it: `x` is to be added at
      offset `q` of the run formed by the pair `ins`, that is the segments 2*ins and 2*ins + 1. */
  datatype Column<T> = Column(a: seq<T>, c: seq<nat>, cap: nat, ins: nat, q: nat, x: T) {

    ghost predicate Ok() {
      && 2 * ins + 1 < |c|
      && Fits(|a|, c, cap)
      && q <= Sum(c, 2 * ins, 2 * ins + 2)
    }

    /** The run of the pair `j`, with the new element if it belongs there. */
    ghost function Pair(j: nat): (s: seq<T>)
      requires Ok() && 2 * j + 1 < |c|
    {
      AddIf(j == ins, Read(a, c, cap, 2 * j, 2 * j + 2), if j == ins then q else 0, x)
    }

    /** What the pairs [lo, hi) hold once the new element is in. */
    ghost function Merged(lo: nat, hi: nat): (s: seq<T>)
      requires Ok() && lo <= hi && 2 * hi <= |c|
      ensures |s| == Sum(c, 2 * lo, 2 * hi) + if lo <= ins < hi then 1 else 0
    {
      var s := Read(a, c, cap, 2 * lo, 2 * hi);
      if lo <= ins < hi then
        Offset(lo, hi);
        InsertAt(s, Sum(c, 2 * lo, 2 * ins) + q, x)
      else s
    }

    lemma Offset(lo: nat, hi: nat)
      requires Ok() && lo <= ins < hi && 2 * hi <= |c|
      ensures Sum(c, 2 * lo, 2 * ins) + q <= Sum(c, 2 * lo, 2 * hi)
    {
      hide Fits;
      SumSplit(c, 2 * lo, 2 * ins, 2 * hi);
      SumSplit(c, 2 * ins, 2 * ins + 2, 2 * hi);
    }
  }

  lemma InsertRight<T>(l: seq<T>, r: seq<T>, p: nat, x: T)
    requires p <= |r|
    ensures InsertAt(l + r, |l| + p, x) == l + InsertAt(r, p, x)
  {
  }

  lemma InsertLeft<T>(l: seq<T>, r: seq<T>, p: nat, x: T)
    requires p <= |l|
    ensures InsertAt(l + r, p, x) == InsertAt(l, p, x) + r
  {
  }

  lemma MergedSplit<T>(w: Column<T>, lo: nat, mid: nat, hi: nat)
    requires w.Ok() && lo <= mid <= hi && 2 * hi <= |w.c|
    ensures w.Merged(lo, hi) == w.Merged(lo, mid) + w.Merged(mid, hi)
  {
    hide Read, Fits, Base, Sum;
    ghost var l, r := Read(w.a, w.c, w.cap, 2 * lo, 2 * mid), Read(w.a, w.c, w.cap, 2 * mid, 2 * hi);
    ReadSplit(w.a, w.c, w.cap, 2 * lo, 2 * mid, 2 * hi);
    if lo <= w.ins < mid {
      w.Offset(lo, mid);
      InsertLeft(l, r, Sum(w.c, 2 * lo, 2 * w.ins) + w.q, w.x);
    } else if mid <= w.ins < hi {
      w.Offset(mid, hi);
      SumSplit(w.c, 2 * lo, 2 * mid, 2 * w.ins);
      InsertRight(l, r, Sum(w.c, 2 * mid, 2 * w.ins) + w.q, w.x);
    }
  }

  lemma MergedNone<T>(w: Column<T>, hi: nat)
    requires w.Ok() && 2 * hi <= |w.c|
    ensures w.Merged(hi, hi) == []
  {
  }

  lemma MergedPair<T>(w: Column<T>, j: nat)
    requires w.Ok() && 2 * j + 1 < |w.c|
    ensures w.Merged(j, j + 1) == w.Pair(j)
  {
    hide Read, Fits;
    assert Sum(w.c, 2 * j, 2 * j) == 0;
  }

  /** memcpy on 8-byte elements, as an ascending copy: right whenever the destination is not
      inside the part of the source still to be read. */
  method CopyCells(dst: array<int>, d: nat, src: array<int>, s: nat, n: nat)
    requires d + n <= dst.Length && s + n <= src.Length
    requires dst == src ==> d <= s || s + n <= d
    modifies dst
    ensures dst[..] == Splice(old(dst[..]), d, old(src[s..s + n]))
  {
    ghost var was, w := dst[..], src[s..s + n];
    var i := 0;
    while i < n
      invariant 0 <= i <= n
      invariant dst[..d] == was[..d] && dst[d + i..] == was[d + i..] && dst[d..d + i] == w[..i]
      invariant src[s + i..s + n] == w[i..]
    {
      CellStep(src[s + i..s + n], w, i);
      dst[d + i] := src[s + i];
      i := i + 1;
    }
    assert dst[..] == dst[..d] + dst[d..d + n] + dst[d + n..];
  }

  lemma CellStep(rest: seq<int>, w: seq<int>, i: nat)
    requires i < |w| && rest == w[i..]
    ensures rest[0] == w[i] && rest[1..] == w[i + 1..] && w[..i + 1] == w[..i] + [w[i]]
  {
  }

  /** First half of a sorted copy: the keys below `key`. */
  method CopySmaller(src: array<int>, s: nat, dst: array<int>, d: nat, n: nat, key: int, ghost run: seq<int>) returns (i: nat)
    requires s + n <= src.Length && d + n <= dst.Length && src[s..s + n] == run
    requires src == dst ==> s + n <= d
    modifies dst
    ensures i == FirstGeq(run, key)
    ensures dst[..] == Splice(old(dst[..]), d, run[..i])
  {
    i := 0;
    while i < n && src[s + i] < key
      invariant 0 <= i <= n
      invariant forall p | s <= p < s + n :: src[p] == run[p - s]
      invariant forall j | 0 <= j < i :: run[j] < key && dst[d + j] == run[j]
      invariant forall p | 0 <= p < dst.Length && !(d <= p < d + i) :: dst[p] == old(dst[p])
    {
      dst[d + i] := src[s + i];
      i := i + 1;
    }
    FirstGeqAt(run, key, i);
  }

  lemma SpliceInsert<T>(s: seq<T>, d: nat, run: seq<T>, i: nat, x: T)
    requires i <= |run| && d + |run| + 1 <= |s|
    ensures Splice(Splice(s, d, run[..i])[d + i := x], d + i + 1, run[i..]) == Splice(s, d, InsertAt(run, i, x))
  {
  }

  /** Second half of a sorted copy: put `x` down at offset `i` and copy the rest behind it. */
  method PlaceAndCopy(dst: array<int>, d: nat, src: array<int>, s: nat, n: nat, i: nat, x: int,
                      ghost run: seq<int>, ghost was: seq<int>)
    requires i <= n == |run| && s + n <= src.Length && d + n + 1 <= dst.Length == |was|
    requires dst == src ==> s + n <= d
    requires src[s + i..s + n] == run[i..] && dst[..] == Splice(was, d, run[..i])
    modifies dst
    ensures dst[..] == Splice(was, d, InsertAt(run, i, x))
  {
    hide Splice, InsertAt;
    dst[d + i] := x;
    assert dst[..] == Splice(was, d, run[..i])[d + i := x];
    assert src[s + i..s + n] == run[i..];
    CopyCells(dst, d + i + 1, src, s + i, n - i);
    SpliceInsert(was, d, run, i, x);
  }

  method InsertColumn(src: array<int>, s: nat, dst: array<int>, d: nat, n: nat, i: nat, x: int)
    requires i <= n && s + n <= src.Length && d + n + 1 <= dst.Length
    requires dst == src ==> s + n <= d
    modifies dst
    ensures dst[..] == Splice(old(dst[..]), d, InsertAt(old(src[s..s + n]), i, x))
  {
    ghost var run := src[s..s + n];
    assert src[s..s + i] == run[..i];
    CopyCells(dst, d, src, s, i);
    assert src[s + i..s + n] == run[i..] by {
      if src == dst {
        SpliceAbove(old(dst[..]), d, run[..i], s + i, s + n);
        assert dst[..][s + i..s + n] == dst[s + i..s + n];
      }
    }
    PlaceAndCopy(dst, d, src, s, n, i, x, run, old(dst[..]));
  }

  /** spread_insert_unsafe, one column after the other: a copy that adds the pair in key order. */
  method SpreadInsertUnsafe(keysFrom: array<int>, valuesFrom: array<int>, s: nat,
                            keysTo: array<int>, valuesTo: array<int>, d: nat,
                            n: nat, key: int, value: int)
    requires keysFrom != valuesFrom && keysTo != valuesTo && keysFrom != valuesTo && valuesFrom != keysTo
    requires s + n <= keysFrom.Length && s + n <= valuesFrom.Length
    requires d + n + 1 <= keysTo.Length && d + n + 1 <= valuesTo.Length
    requires keysFrom == keysTo || valuesFrom == valuesTo ==> s + n <= d
    modifies keysTo, valuesTo
    ensures keysTo[..] == Splice(old(keysTo[..]), d, InsertAt(old(keysFrom[s..s + n]), FirstGeq(old(keysFrom[s..s + n]), key), key))
    ensures valuesTo[..] == Splice(old(valuesTo[..]), d, InsertAt(old(valuesFrom[s..s + n]), FirstGeq(old(keysFrom[s..s + n]), key), value))
  {
    ghost var run := keysFrom[s..s + n];
    var i := CopySmaller(keysFrom, s, keysTo, d, n, key, run);
    assert keysFrom[s + i..s + n] == run[i..] by {
      if keysFrom == keysTo {
        SpliceAbove(old(keysTo[..]), d, run[..i], s + i, s + n);
        assert keysTo[..][s + i..s + n] == keysTo[s + i..s + n];
      }
    }
    PlaceAndCopy(keysTo, d, keysFrom, s, n, i, key, run, old(keysTo[..]));
    assert valuesFrom[s..s + n] == old(valuesFrom[s..s + n]);
    InsertColumn(valuesFrom, s, valuesTo, d, n, i, value);
  }

  /** Move the cells [start, end) of both columns so that they end just before `cur` of the
      destination, adding the new pair if it belongs to this run. */
  method MoveRun(keys: array<int>, values: array<int>, start: nat, end: nat,
                 toKeys: array<int>, toValues: array<int>, cur: nat,
                 insert: bool, key: int, value: int) returns (left: nat)
    requires keys != values && toKeys != toValues && keys != toValues && values != toKeys
    requires start <= end <= keys.Length && end <= values.Length
    requires cur <= toKeys.Length && cur <= toValues.Length
    requires end - start + (if insert then 1 else 0) <= cur
    requires keys == toKeys || values == toValues ==> end <= cur - (end - start) - if insert then 1 else 0
    modifies toKeys, toValues
    ensures left == cur - (end - start) - if insert then 1 else 0
    ensures toKeys[..] == Splice(old(toKeys[..]), left, AddIf(insert, old(keys[start..end]), FirstGeq(old(keys[start..end]), key), key))
    ensures toValues[..] == Splice(old(toValues[..]), left, AddIf(insert, old(values[start..end]), FirstGeq(old(keys[start..end]), key), value))
  {
    var n := end - start;
    assert start + n == end;
    if insert {
      left := cur - n - 1;
      SpreadInsertUnsafe(keys, values, start, toKeys, toValues, left, n, key, value);
    } else {
      left := cur - n;
      MoveColumns(keys, values, start, n, toKeys, toValues, left);
    }
  }

  method MoveColumns(keys: array<int>, values: array<int>, start: nat, n: nat,
                     toKeys: array<int>, toValues: array<int>, left: nat)
    requires toKeys != toValues && keys != toValues && values != toKeys
    requires start + n <= keys.Length && start + n <= values.Length
    requires left + n <= toKeys.Length && left + n <= toValues.Length
    requires keys == toKeys || values == toValues ==> left <= start || start + n <= left
    modifies toKeys, toValues
    ensures toKeys[..] == Splice(old(toKeys[..]), left, old(keys[start..start + n]))
    ensures toValues[..] == Splice(old(toValues[..]), left, old(values[start..start + n]))
  {
    CopyCells(toKeys, left, keys, start, n);
    CopyCells(toValues, left, values, start, n);
  }

  function AddIf<T>(add: bool, s: seq<T>, p: nat, x: T): (r: seq<T>)
    requires p <= |s|
    ensures |r| == |s| + if add then 1 else 0
  {
    if add then InsertAt(s, p, x) else s
  }

  /** What the pair of segments (s, s+1) must contribute: its cells in both columns, with the new
      pair added in key order when `seg` is one of the two. */
  datatype Run = Run(start: nat, end: nat, insert: bool, keys: seq<int>, values: seq<int>)

  ghost predicate RunOk(r: Run, cap: nat, s: nat, ak: seq<int>, av: seq<int>, seg: nat, key: int, value: int) {
    && Base(s, cap) <= r.start <= r.end <= Base(s + 2, cap) <= |ak| == |av|
    && r.end - r.start <= 2 * cap
    && r.insert == (seg == s || seg == s + 1)
    && r.keys == AddIf(r.insert, ak[r.start..r.end], FirstGeq(ak[r.start..r.end], key), key)
    && r.values == AddIf(r.insert, av[r.start..r.end], FirstGeq(ak[r.start..r.end], key), value)
  }

  method MovePair(keys: array<int>, values: array<int>, cards: array<nat>, cap: nat, s: nat, seg: nat,
                  toKeys: array<int>, toValues: array<int>, cur: nat, key: int, value: int,
                  ghost r: Run, ghost ak: seq<int>, ghost av: seq<int>) returns (left: nat)
    requires keys != values && toKeys != toValues && keys != toValues && values != toKeys
    requires s + 1 < cards.Length && r.start == Start(cards[..], cap, s) && r.end == End(cards[..], cap, s + 1)
    requires RunOk(r, cap, s, ak, av, seg, key, value)
    requires keys.Length == values.Length == |ak|
    requires forall p | Base(s, cap) <= p < Base(s + 2, cap) :: keys[p] == ak[p] && values[p] == av[p]
    requires cur <= toKeys.Length && cur <= toValues.Length && |r.keys| <= cur
    requires keys == toKeys || values == toValues ==> Base(s + 2, cap) <= cur - |r.keys|
    modifies toKeys, toValues
    ensures left == cur - |r.keys|
    ensures |r.keys| == |r.values|
    ensures toKeys[..] == Splice(old(toKeys[..]), left, r.keys)
    ensures toValues[..] == Splice(old(toValues[..]), left, r.values)
  {
    hide Base, FirstGeq;
    var start := Start(cards[..], cap, s);
    var end := End(cards[..], cap, s + 1);
    assert keys[start..end] == ak[start..end];
    assert values[start..end] == av[start..end];
    left := MoveRun(keys, values, start, end, toKeys, toValues, cur, seg == s || seg == s + 1, key, value);
  }

  ghost function FlatKeys(rs: seq<Run>, lo: nat, hi: nat): (s: seq<int>)
    requires lo <= hi <= |rs|
    decreases hi - lo
  {
    if lo == hi then [] else rs[lo].keys + FlatKeys(rs, lo + 1, hi)
  }

  ghost function FlatValues(rs: seq<Run>, lo: nat, hi: nat): (s: seq<int>)
    requires lo <= hi <= |rs|
    decreases hi - lo
  {
    if lo == hi then [] else rs[lo].values + FlatValues(rs, lo + 1, hi)
  }

  /** The runs of the window, pair by pair from segment `ws` on, and the pair that gets the new element. */
  ghost predicate Plan(rs: seq<Run>, c: seq<nat>, cap: nat, ws: nat, ak: seq<int>, av: seq<int>, seg: nat, key: int, value: int) {
    forall j | 0 <= j < |rs| :: PlanAt(rs[j], c, cap, ws + 2 * j, ak, av, seg, key, value)
  }

  ghost predicate PlanAt(r: Run, c: seq<nat>, cap: nat, s: nat, ak: seq<int>, av: seq<int>, seg: nat, key: int, value: int) {
    && s + 1 < |c|
    && r.start == Start(c, cap, s) && r.end == End(c, cap, s + 1)
    && RunOk(r, cap, s, ak, av, seg, key, value)
  }

  lemma RunSize(r: Run, c: seq<nat>, cap: nat, s: nat, ak: seq<int>, av: seq<int>, seg: nat, key: int, value: int)
    requires PlanAt(r, c, cap, s, ak, av, seg, key, value)
    ensures |r.keys| == |r.values| <= 2 * cap + if seg == s || seg == s + 1 then 1 else 0
  {
  }

  lemma FlatNone(rs: seq<Run>, hi: nat)
    requires hi <= |rs|
    ensures FlatKeys(rs, hi, hi) == [] && FlatValues(rs, hi, hi) == []
  {
  }

  lemma FlatFirst(rs: seq<Run>, lo: nat, hi: nat)
    requires lo < hi <= |rs|
    ensures FlatKeys(rs, lo, hi) == rs[lo].keys + FlatKeys(rs, lo + 1, hi)
    ensures FlatValues(rs, lo, hi) == rs[lo].values + FlatValues(rs, lo + 1, hi)
  {
  }

  /** One pair of segments to the side buffer, in front of what is there. */
  method StashPair(keys: array<int>, values: array<int>, cards: array<nat>, cap: nat, s: nat, seg: nat, key: int, value: int,
                   chunkKeys: array<int>, chunkValues: array<int>, left0: nat, ghost r: Run) returns (left: nat)
    requires keys != values && chunkKeys != chunkValues && keys != chunkValues && values != chunkKeys && keys != chunkKeys && values != chunkValues
    requires keys.Length == values.Length && PlanAt(r, cards[..], cap, s, keys[..], values[..], seg, key, value)
    requires |r.keys| <= left0 <= chunkKeys.Length == chunkValues.Length
    modifies chunkKeys, chunkValues
    ensures left == left0 - |r.keys|
    ensures chunkKeys[..][left..] == r.keys + old(chunkKeys[..])[left0..] && chunkValues[..][left..] == r.values + old(chunkValues[..])[left0..]
  {
    hide Base, Start, End, RunOk, PlanAt, FirstGeq, Splice;
    ghost var k0, v0 := chunkKeys[..], chunkValues[..];
    PlanFacts(r, cards[..], cap, s, keys[..], values[..], seg, key, value);
    left := MovePair(keys, values, cards, cap, s, seg, chunkKeys, chunkValues, left0, key, value, r, keys[..], values[..]);
    SpliceAt(k0, left, r.keys);
    SpliceAt(v0, left, r.values);
  }

  /** First step: the last four segments (or two, when the window has no more) go to the side buffer. */
  method StashTail(keys: array<int>, values: array<int>, cards: array<nat>, cap: nat,
                   ws: nat, np: nat, seg: nat, key: int, value: int,
                   chunkKeys: array<int>, chunkValues: array<int>,
                   ghost rs: seq<Run>)
    returns (left: nat, j: nat)
    requires keys != values && chunkKeys != chunkValues && keys != chunkValues && values != chunkKeys
    requires keys != chunkKeys && values != chunkValues
    requires keys.Length == values.Length && 1 <= np == |rs|
    requires Plan(rs, cards[..], cap, ws, keys[..], values[..], seg, key, value)
    requires chunkKeys.Length == chunkValues.Length == 4 * cap + 1
    modifies chunkKeys, chunkValues
    ensures j == if 2 <= np then np - 2 else 0
    ensures left <= 4 * cap + 1
    ensures chunkKeys[..][left..] == FlatKeys(rs, j, np) && chunkValues[..][left..] == FlatValues(rs, j, np)
  {
    hide Base, Start, End, RunOk, PlanAt, FirstGeq, FlatKeys, FlatValues;
    FlatNone(rs, np);
    j := np;
    var copied := 0;
    left := 4 * cap + 1;
    ghost var room, spare := 4 * cap, 1;
    while 0 < j && copied < 4
      invariant 0 <= j == np - copied / 2 && (copied == 0 || copied == 2 || copied == 4)
      invariant copied == 0 ==> room == 4 * cap
      invariant copied == 2 ==> room == 2 * cap
      invariant copied == 4 ==> room == 0
      invariant 0 <= spare <= 1 && (spare == 0 ==> ws + 2 * j <= seg)
      invariant room + spare <= left <= 4 * cap + 1
      invariant chunkKeys[..][left..] == FlatKeys(rs, j, np) && chunkValues[..][left..] == FlatValues(rs, j, np)
    {
      j := j - 1;
      var s := ws + 2 * j;
      FlatFirst(rs, j, np);
      RunSize(rs[j], cards[..], cap, s, keys[..], values[..], seg, key, value);
      left := StashPair(keys, values, cards, cap, s, seg, key, value, chunkKeys, chunkValues, left, rs[j]);
      room := room - 2 * cap;
      spare := if seg == s || seg == s + 1 then 0 else spare;
      copied := copied + 2;
    }
  }

  lemma PlanFacts(r: Run, c: seq<nat>, cap: nat, s: nat, ak: seq<int>, av: seq<int>, seg: nat, key: int, value: int)
    requires PlanAt(r, c, cap, s, ak, av, seg, key, value)
    ensures s + 1 < |c| && r.start == Start(c, cap, s) && r.end == End(c, cap, s + 1)
    ensures RunOk(r, cap, s, ak, av, seg, key, value)
    ensures Base(s, cap) <= Base(s + 2, cap) <= |ak|
  {
  }

  /** Second step: the remaining pairs are packed against the end of the window, last pair first.
      The write position stays above every cell still to be read. */
  method CompactRest(keys: array<int>, values: array<int>, cards: array<nat>, cap: nat,
                     ws: nat, j0: nat, top: nat, seg: nat, key: int, value: int,
                     ghost rs: seq<Run>, ghost ak: seq<int>, ghost av: seq<int>)
    returns (cur: nat)
    requires keys != values && keys.Length == values.Length && 1 <= cap
    requires ak == keys[..] && av == values[..]
    requires j0 <= |rs| && top <= keys.Length && Base(ws, cap) <= top
    requires 0 < j0 ==> top == Base(ws + 2 * j0, cap) + 4 * cap
    requires Plan(rs, cards[..], cap, ws, ak, av, seg, key, value)
    modifies keys, values
    ensures Base(ws, cap) <= cur <= top
    ensures keys[..][cur..top] == FlatKeys(rs, 0, j0) && values[..][cur..top] == FlatValues(rs, 0, j0)
    ensures forall p | 0 <= p < Base(ws, cap) || top <= p < keys.Length :: keys[p] == ak[p] && values[p] == av[p]
  {
    hide Start, End, RunOk, PlanAt, FirstGeq, Splice, Base;
    var j := j0;
    cur := top;
    ghost var spare := 1;
    while 0 < j
      invariant 0 <= j <= j0
      invariant 0 <= spare <= 1 && (spare == 0 ==> ws + 2 * j <= seg)
      invariant Base(ws + 2 * j, cap) <= cur <= top
      invariant 0 < j ==> Base(ws + 2 * j, cap) + 4 * cap + spare <= cur + 1
      invariant forall p | 0 <= p < Base(ws + 2 * j, cap) || top <= p < keys.Length :: p < |ak| && keys[p] == ak[p] && values[p] == av[p]
      invariant keys[..][cur..top] == FlatKeys(rs, j, j0) && values[..][cur..top] == FlatValues(rs, j, j0)
    {
      ghost var k0, v0, c0 := keys[..], values[..], cur;
      j := j - 1;
      var s := ws + 2 * j;
      ghost var r := rs[j];
      assert PlanAt(r, cards[..], cap, s, ak, av, seg, key, value);
      RunSize(r, cards[..], cap, s, ak, av, seg, key, value);
      PlanFacts(r, cards[..], cap, s, ak, av, seg, key, value);
      BaseTwo(s, cap);
      cur := MovePair(keys, values, cards, cap, s, seg, keys, values, cur, key, value, r, ak, av);
      PrependBelow(k0, cur, r.keys, c0, top, Base(s + 2, cap));
      PrependBelow(v0, cur, r.values, c0, top, Base(s + 2, cap));
      assert keys[..] == Splice(k0, cur, r.keys) && values[..] == Splice(v0, cur, r.values);
      spare := if seg == s || seg == s + 1 then 0 else spare;
      forall p | 0 <= p < Base(s, cap) || top <= p < keys.Length ensures p < |ak| && keys[p] == ak[p] && values[p] == av[p] {
        assert keys[p] == keys[..][p] && values[p] == values[..][p];
      }
    }
  }

  lemma BaseTwo(s: nat, cap: nat)
    ensures Base(s + 2, cap) == Base(s, cap) + 2 * cap
  {
    assert Base(s + 2, cap) == Base(s + 1, cap) + cap;
  }

  /** A block laid down just below `cur`, above everything under `low`. */
  lemma PrependBelow<T>(t: seq<T>, left: nat, w: seq<T>, cur: nat, top: nat, low: nat)
    requires low <= left && left + |w| == cur <= top <= |t|
    ensures Splice(t, left, w)[left..top] == w + t[cur..top]
    ensures forall p | 0 <= p < low || top <= p < |t| :: Splice(t, left, w)[p] == t[p]
  {
  }

  /** How far the redistribution has read: `first` while it still reads the part packed at the end
      of the window (n1 elements), then the side buffer. */
  datatype Cursor = Cursor(first: bool, at: nat) {
    function Rank(n1: nat): (r: nat) {
      if first then at else n1 + at
    }

    function Advance(n: nat, n1: nat): (c: Cursor)
      requires first ==> at + n <= n1
      ensures c.Rank(n1) == Rank(n1) + n
      ensures c.first ==> c.at < n1
    {
      if first && at + n == n1 then Cursor(false, 0) else Cursor(first, at + n)
    }
  }

  /** The unread elements of `t` are where the cursor will look for them: packed in the cells
      [cur, top) of column `a`, or in the side buffer from `left` on. */
  ghost predicate Unread(a: seq<int>, chunk: seq<int>, cur: nat, top: nat, left: nat, c: Cursor, t: seq<int>) {
    && cur <= top <= |a| && left <= |chunk|
    && |t| == (top - cur) + (|chunk| - left)
    && chunk[left..] == t[top - cur..]
    && c.Rank(top - cur) <= |t|
    && (c.first ==> c.at < top - cur && a[cur + c.at..top] == t[c.at..top - cur])
  }

  /** The next block of both columns: from the packed part or from the side buffer. */
  method Feed(keys: array<int>, values: array<int>, out: nat, n: nat, chunkKeys: array<int>, chunkValues: array<int>,
              cur: nat, top: nat, left: nat, c: Cursor, ghost tk: seq<int>, ghost tv: seq<int>)
    requires keys != values && keys != chunkKeys && values != chunkValues && keys != chunkValues && values != chunkKeys
    requires keys.Length == values.Length && chunkKeys.Length == chunkValues.Length && |tk| == |tv|
    requires Unread(keys[..], chunkKeys[..], cur, top, left, c, tk) && Unread(values[..], chunkValues[..], cur, top, left, c, tv)
    requires out + n <= keys.Length && c.Rank(top - cur) + n <= |tk|
    requires c.first ==> c.at + n <= top - cur && out <= cur + c.at
    modifies keys, values
    ensures keys[..] == Splice(old(keys[..]), out, tk[c.Rank(top - cur)..c.Rank(top - cur) + n])
    ensures values[..] == Splice(old(values[..]), out, tv[c.Rank(top - cur)..c.Rank(top - cur) + n])
  {
    hide Unread, Splice;
    NextBlock(keys[..], chunkKeys[..], cur, top, left, c, tk, n);
    NextBlock(values[..], chunkValues[..], cur, top, left, c, tv, n);
    if c.first {
      assert keys[cur + c.at..cur + c.at + n] == keys[..][cur + c.at..cur + c.at + n];
      assert values[cur + c.at..cur + c.at + n] == values[..][cur + c.at..cur + c.at + n];
      MoveColumns(keys, values, cur + c.at, n, keys, values, out);
    } else {
      assert chunkKeys[left + c.at..left + c.at + n] == chunkKeys[..][left + c.at..left + c.at + n];
      assert chunkValues[left + c.at..left + c.at + n] == chunkValues[..][left + c.at..left + c.at + n];
      MoveColumns(chunkKeys, chunkValues, left + c.at, n, keys, values, out);
    }
  }

  lemma NextBlock(a: seq<int>, chunk: seq<int>, cur: nat, top: nat, left: nat, c: Cursor, t: seq<int>, n: nat)
    requires Unread(a, chunk, cur, top, left, c, t) && c.Rank(top - cur) + n <= |t|
    requires c.first ==> c.at + n <= top - cur
    ensures cur <= top <= |a| && left <= |chunk| && |t| == (top - cur) + (|chunk| - left)
    ensures var r := c.Rank(top - cur);
            if c.first then a[cur + c.at..cur + c.at + n] == t[r..r + n]
            else left + c.at + n <= |chunk| && chunk[left + c.at..left + c.at + n] == t[r..r + n]
  {
    if c.first {
      assert a[cur + c.at..cur + c.at + n] == a[cur + c.at..top][..n];
      assert t[c.at..c.at + n] == t[c.at..top - cur][..n];
    } else {
      assert chunk[left + c.at..left + c.at + n] == chunk[left..][c.at..c.at + n];
    }
  }

  /** Writing at or below what was just read leaves the unread elements alone. */
  lemma UnreadKept(a: seq<int>, chunk: seq<int>, cur: nat, top: nat, left: nat, c: Cursor, t: seq<int>, out: nat, n: nat)
    requires Unread(a, chunk, cur, top, left, c, t)
    requires out + n <= |a| && c.Rank(top - cur) + n <= |t|
    requires c.first ==> c.at + n <= top - cur && out <= cur + c.at
    ensures var r := c.Rank(top - cur);
            Unread(Splice(a, out, t[r..r + n]), chunk, cur, top, left, c.Advance(n, top - cur), t)
  {
    var r := c.Rank(top - cur);
    var c' := c.Advance(n, top - cur);
    var b := Splice(a, out, t[r..r + n]);
    if c'.first {
      SpliceAbove(a, out, t[r..r + n], cur + c'.at, top);
      assert a[cur + c'.at..top] == a[cur + c.at..top][n..];
    }
  }

  lemma SpliceJoin<T>(s: seq<T>, d: nat, x: seq<T>, y: seq<T>)
    requires d + |x| + |y| <= |s|
    ensures Splice(Splice(s, d, x), d + |x|, y) == Splice(s, d, x + y)
  {
  }

  lemma SpliceNothing<T>(s: seq<T>, d: nat)
    requires d <= |s|
    ensures Splice(s, d, []) == s
  {
  }

  lemma FillStep(a0: seq<int>, a: seq<int>, chunk: seq<int>, cur: nat, top: nat, left: nat, c: Cursor, t: seq<int>,
                 start: nat, r0: nat, n: nat)
    requires Unread(a, chunk, cur, top, left, c, t) && cur <= top
    requires r0 <= c.Rank(top - cur) && c.Rank(top - cur) + n <= |t| && start + (c.Rank(top - cur) - r0) + n <= |a0|
    requires a == Splice(a0, start, t[r0..c.Rank(top - cur)])
    requires c.first ==> c.at + n <= top - cur && start + (c.Rank(top - cur) - r0) <= cur + c.at
    ensures var r := c.Rank(top - cur);
            var b := Splice(a, start + (r - r0), t[r..r + n]);
            && Unread(b, chunk, cur, top, left, c.Advance(n, top - cur), t)
            && b == Splice(a0, start, t[r0..r + n])
  {
    hide Unread, Splice;
    var r := c.Rank(top - cur);
    UnreadKept(a, chunk, cur, top, left, c, t, start + (r - r0), n);
    SpliceJoin(a0, start, t[r0..r], t[r..r + n]);
    assert t[r0..r] + t[r..r + n] == t[r0..r + n];
  }

  /** Fill the cells [out, end) of one pair with the next elements, switching to the side buffer
      when the packed part is used up. */
  method FillRun(keys: array<int>, values: array<int>, start: nat, end: nat, chunkKeys: array<int>, chunkValues: array<int>,
                 cur: nat, top: nat, left: nat, c0: Cursor, ghost tk: seq<int>, ghost tv: seq<int>) returns (c: Cursor)
    requires keys != values && keys != chunkKeys && values != chunkValues && keys != chunkValues && values != chunkKeys
    requires keys.Length == values.Length && chunkKeys.Length == chunkValues.Length && cur <= top && left <= chunkKeys.Length
    requires |tk| == |tv| == (top - cur) + (chunkKeys.Length - left)
    requires Unread(keys[..], chunkKeys[..], cur, top, left, c0, tk) && Unread(values[..], chunkValues[..], cur, top, left, c0, tv)
    requires start <= end <= keys.Length && c0.Rank(top - cur) + (end - start) <= |tk|
    requires c0.first ==> c0.at < top - cur && start <= cur + c0.at
    modifies keys, values
    ensures c.Rank(top - cur) == c0.Rank(top - cur) + (end - start)
    ensures c.first ==> c.at < top - cur
    ensures Unread(keys[..], chunkKeys[..], cur, top, left, c, tk) && Unread(values[..], chunkValues[..], cur, top, left, c, tv)
    ensures keys[..] == Splice(old(keys[..]), start, tk[c0.Rank(top - cur)..c.Rank(top - cur)])
    ensures values[..] == Splice(old(values[..]), start, tv[c0.Rank(top - cur)..c.Rank(top - cur)])
  {
    hide Unread, Splice;
    c := c0;
    var out := start;
    ghost var n1, r0 := top - cur, c0.Rank(top - cur);
    ghost var k0, v0 := keys[..], values[..];
    SpliceNothing(k0, start);
    SpliceNothing(v0, start);
    assert tk[r0..r0] == [] && tv[r0..r0] == [];
    while out < end
      invariant start <= out <= end
      invariant c.Rank(n1) == r0 + (out - start)
      invariant c.first ==> c0.first && c.at < n1
      invariant Unread(keys[..], chunkKeys[..], cur, top, left, c, tk) && Unread(values[..], chunkValues[..], cur, top, left, c, tv)
      invariant keys[..] == Splice(k0, start, tk[r0..c.Rank(n1)]) && values[..] == Splice(v0, start, tv[r0..c.Rank(n1)])
    {
      var size := if c.first then top - cur else chunkKeys.Length - left;
      var n := if end - out <= size - c.at then end - out else size - c.at;
      ghost var r := c.Rank(n1);
      FillStep(k0, keys[..], chunkKeys[..], cur, top, left, c, tk, start, r0, n);
      FillStep(v0, values[..], chunkValues[..], cur, top, left, c, tv, start, r0, n);
      Feed(keys, values, out, n, chunkKeys, chunkValues, cur, top, left, c, tk, tv);
      c := c.Advance(n, top - cur);
      out := out + n;
    }
  }

  /** The redistribution's ordering argument. When the pair `s` is about to be written, the
      elements not yet written still need as many cells, all of them below the window's end; so
      the first cell written lies at least `side` cells below the next packed element to be read,
      `side` being the size of the side buffer. */
  lemma WritesBelowReads(c: seq<nat>, cap: nat, n: nat, ws: nat, s: nat, hi: nat, cur: nat, side: nat)
    requires Fits(n, c, cap) && ws <= s && s + 2 <= hi <= |c| && s % 2 == 0
    requires cur + (Sum(c, ws, hi) - side) == Base(hi, cap) && side <= Sum(c, ws, hi)
    ensures Start(c, cap, s) + side <= cur + Sum(c, ws, s)
  {
    hide Sum, Base, Start, End;
    SumSplit(c, ws, s, hi);
    SumSplit(c, s, s + 2, hi);
    PairBounds(n, c, cap, s);
    SumBounds(c, cap, s + 2, hi);
    BaseSum(s + 2, hi - (s + 2), cap);
  }

  /** One more pair written: what has been written so far reads back as a longer prefix of `t`. */
  lemma ReadExtends(a: seq<int>, c: seq<nat>, cap: nat, ws: nat, s: nat, t: seq<int>)
    requires Fits(|a|, c, cap) && ws <= s && s + 2 <= |c| && s % 2 == 0
    requires Sum(c, ws, s + 2) <= |t|
    requires Sum(c, ws, s + 2) == Sum(c, ws, s) + (c[s] + c[s + 1])
    requires Read(a, c, cap, ws, s) == t[..Sum(c, ws, s)]
    requires 0 <= Start(c, cap, s) && Start(c, cap, s) + c[s] + c[s + 1] <= |a|
    ensures var b := Splice(a, Start(c, cap, s), t[Sum(c, ws, s)..Sum(c, ws, s + 2)]);
            Read(b, c, cap, ws, s + 2) == t[..Sum(c, ws, s + 2)]
  {
    hide Fits, Sum, Read, Base, Start, End;
    var r, r' := Sum(c, ws, s), Sum(c, ws, s + 2);
    var st := Start(c, cap, s);
    var b := Splice(a, st, t[r..r']);
    PairBounds(|a|, c, cap, s);
    SpliceAt(a, st, t[r..r']);
    ReadPair(b, c, cap, s);
    assert Base(s, cap) <= |a|;
    ReadFrame(a, c, b, c, cap, ws, s);
    ReadSplit(b, c, cap, ws, s, s + 2);
  }

  /** Third step: redistribute the elements evenly over the window, front to back, in place. */
  method Redistribute(keys: array<int>, values: array<int>, cards: array<nat>, cap: nat, ws: nat, np: nat,
                      chunkKeys: array<int>, chunkValues: array<int>, cur: nat, top: nat, left: nat,
                      ghost tk: seq<int>, ghost tv: seq<int>)
    requires keys != values && keys != chunkKeys && values != chunkValues && keys != chunkValues && values != chunkKeys
    requires keys.Length == values.Length && chunkKeys.Length == chunkValues.Length
    requires Fits(keys.Length, cards[..], cap) && ws % 2 == 0 && ws + 2 * np <= cards.Length
    requires Base(ws, cap) <= cur <= top == Base(ws + 2 * np, cap) <= keys.Length && left <= chunkKeys.Length
    requires |tk| == |tv| == (top - cur) + (chunkKeys.Length - left) == Sum(cards[..], ws, ws + 2 * np)
    requires keys[..][cur..top] == tk[..top - cur] && chunkKeys[..][left..] == tk[top - cur..]
    requires values[..][cur..top] == tv[..top - cur] && chunkValues[..][left..] == tv[top - cur..]
    modifies keys, values
    ensures Read(keys[..], cards[..], cap, ws, ws + 2 * np) == tk
    ensures Read(values[..], cards[..], cap, ws, ws + 2 * np) == tv
    ensures forall p | 0 <= p < Base(ws, cap) || top <= p < keys.Length :: keys[p] == old(keys[p]) && values[p] == old(values[p])
  {
    hide Unread, Splice, Fits, Base, Sum, Read, Start, End;
    ghost var cs, n1, hi := cards[..], top - cur, ws + 2 * np;
    var c := Cursor(cur < top, 0);
    StartUnread(keys[..], chunkKeys[..], cur, top, left, tk);
    StartUnread(values[..], chunkValues[..], cur, top, left, tv);
    ReadNothing(keys[..], cs, cap, ws);
    ReadNothing(values[..], cs, cap, ws);
    var i := 0;
    while i < np
      invariant 0 <= i <= np && cards[..] == cs
      invariant c.Rank(n1) == Sum(cs, ws, ws + 2 * i) <= |tk|
      invariant c.first ==> c.at < n1
      invariant Unread(keys[..], chunkKeys[..], cur, top, left, c, tk) && Unread(values[..], chunkValues[..], cur, top, left, c, tv)
      invariant Read(keys[..], cs, cap, ws, ws + 2 * i) == tk[..c.Rank(n1)]
      invariant Read(values[..], cs, cap, ws, ws + 2 * i) == tv[..c.Rank(n1)]
      invariant forall p | 0 <= p < Base(ws, cap) || top <= p < keys.Length :: keys[p] == old(keys[p]) && values[p] == old(values[p])
    {
      var s := ws + 2 * i;
      ghost var k0, v0 := keys[..], values[..];
      PairBounds(keys.Length, cs, cap, s);
      SumSplit(cs, ws, s, s + 2);
      SumSplit(cs, ws, s + 2, hi);
      WritesBelowReads(cs, cap, keys.Length, ws, s, hi, cur, chunkKeys.Length - left);
      BaseLe(ws, s, cap);
      BaseLe(s + 2, hi, cap);
      ReadExtends(k0, cs, cap, ws, s, tk);
      ReadExtends(v0, cs, cap, ws, s, tv);
      var start := Start(cards[..], cap, s);
      var end := End(cards[..], cap, s + 1);
      c := FillRun(keys, values, start, end, chunkKeys, chunkValues, cur, top, left, c, tk, tv);
      SpliceFrame(k0, keys[..], start, tk[Sum(cs, ws, s)..c.Rank(n1)], Base(ws, cap), top);
      SpliceFrame(v0, values[..], start, tv[Sum(cs, ws, s)..c.Rank(n1)], Base(ws, cap), top);
      forall p | 0 <= p < Base(ws, cap) || top <= p < keys.Length ensures keys[p] == old(keys[p]) && values[p] == old(values[p]) {
        assert keys[p] == keys[..][p] && values[p] == values[..][p];
      }
      i := i + 1;
    }
    assert tk[..|tk|] == tk && tv[..|tv|] == tv;
  }

  lemma StartUnread(a: seq<int>, chunk: seq<int>, cur: nat, top: nat, left: nat, t: seq<int>)
    requires cur <= top <= |a| && left <= |chunk| && |t| == (top - cur) + (|chunk| - left)
    requires a[cur..top] == t[..top - cur] && chunk[left..] == t[top - cur..]
    ensures Unread(a, chunk, cur, top, left, Cursor(cur < top, 0), t)
  {
    assert t[0..top - cur] == t[..top - cur];
  }

  lemma ReadNothing(a: seq<int>, c: seq<nat>, cap: nat, ws: nat)
    requires Fits(|a|, c, cap) && ws <= |c|
    ensures Read(a, c, cap, ws, ws) == [] && Sum(c, ws, ws) == 0
  {
  }

  lemma SpliceFrame(a: seq<int>, b: seq<int>, d: nat, w: seq<int>, lo: nat, hi: nat)
    requires d + |w| <= |a| && b == Splice(a, d, w) && lo <= d && d + |w| <= hi
    ensures forall p | 0 <= p < lo || hi <= p < |a| :: b[p] == a[p]
  {
  }

  /** The `i`-th of `n` nearly equal parts of `total`, the larger ones first. */
  function Share(total: nat, n: nat, i: nat): (k: nat)
    requires 0 < n
  {
    total / n + if i < total % n then 1 else 0
  }

  lemma {:induction false} ShareSum(c: seq<nat>, ws: nat, total: nat, n: nat, i: nat)
    requires 0 < n && i <= n && ws + n <= |c|
    requires forall k | 0 <= k < n :: c[ws + k] == Share(total, n, k)
    ensures Sum(c, ws, ws + i) == Base(i, total / n) + if i < total % n then i else total % n
  {
    if i != 0 {
      ShareSum(c, ws, total, n, i - 1);
      assert c[ws + (i - 1)] == Share(total, n, i - 1);
    }
  }

  /** The parts add up, and none is empty or over `cap` when the total allows it. */
  lemma Shares(c: seq<nat>, ws: nat, total: nat, n: nat, cap: nat)
    requires 0 < n && ws + n <= |c|
    requires forall k | 0 <= k < n :: c[ws + k] == Share(total, n, k)
    ensures Sum(c, ws, ws + n) == total
    ensures total <= Base(n, cap) ==> forall k | ws <= k < ws + n :: c[k] <= cap
    ensures n <= total ==> forall k | ws <= k < ws + n :: 1 <= c[k]
  {
    hide Sum, Share, Base;
    ShareSum(c, ws, total, n, n);
    BaseIsProduct(n, total / n);
    BaseIsProduct(n, cap);
    assert total == n * (total / n) + total % n && total % n < n;
    forall k | ws <= k < ws + n
      ensures total <= Base(n, cap) ==> c[k] <= cap
      ensures n <= total ==> 1 <= c[k]
    {
      assert c[ws + (k - ws)] == Share(total, n, k - ws);
      ShareBounds(total, n, k - ws, cap);
    }
  }

  lemma ShareBounds(total: nat, n: nat, i: nat, cap: nat)
    requires 0 < n && i < n
    ensures total <= n * cap ==> Share(total, n, i) <= cap
    ensures n <= total ==> 1 <= Share(total, n, i)
  {
    var d, m := total / n, total % n;
    assert total == n * d + m;
    if cap < d + (if i < m then 1 else 0) {
      if cap <= d {
        Monotone(cap, d, n);
      }
      if cap < d {
        Monotone(cap + 1, d, n);
      }
    }
  }

  lemma Monotone(x: nat, y: nat, n: nat)
    requires x <= y
    ensures n * x <= n * y
  {
  }

  method SetCardinalities(cards: array<nat>, ws: nat, ns: nat, total: nat)
    requires 0 < ns && ws + ns <= cards.Length
    modifies cards
    ensures forall k | 0 <= k < ns :: cards[ws + k] == Share(total, ns, k)
    ensures forall i | 0 <= i < cards.Length && !(ws <= i < ws + ns) :: cards[i] == old(cards[i])
  {
    hide Share;
    var i := 0;
    while i < ns
      invariant 0 <= i <= ns
      invariant forall k | 0 <= k < i :: cards[ws + k] == Share(total, ns, k)
      invariant forall j | 0 <= j < cards.Length && !(ws <= j < ws + i) :: cards[j] == old(cards[j])
    {
      cards[ws + i] := Share(total, ns, i);
      i := i + 1;
    }
  }

  ghost function MakeRun(ak: seq<int>, av: seq<int>, c: seq<nat>, cap: nat, s: nat, seg: nat, key: int, value: int): (r: Run)
    requires Fits(|ak|, c, cap) && |ak| == |av| && s % 2 == 0 && s + 1 < |c|
    ensures PlanAt(r, c, cap, s, ak, av, seg, key, value)
  {
    PairBounds(|ak|, c, cap, s);
    BaseTwo(s, cap);
    var st, en, ins := Start(c, cap, s), End(c, cap, s + 1), seg == s || seg == s + 1;
    var q := FirstGeq(ak[st..en], key);
    Run(st, en, ins, AddIf(ins, ak[st..en], q, key), AddIf(ins, av[st..en], q, value))
  }

  ghost function MakeRuns(ak: seq<int>, av: seq<int>, c: seq<nat>, cap: nat, ws: nat, np: nat, seg: nat, key: int, value: int): (rs: seq<Run>)
    requires Fits(|ak|, c, cap) && |ak| == |av| && ws % 2 == 0 && ws + 2 * np <= |c|
    ensures |rs| == np
    ensures forall j | 0 <= j < np :: rs[j] == MakeRun(ak, av, c, cap, ws + 2 * j, seg, key, value)
    ensures Plan(rs, c, cap, ws, ak, av, seg, key, value)
  {
    seq(np, j requires 0 <= j < np => MakeRun(ak, av, c, cap, ws + 2 * j, seg, key, value))
  }

  /** The runs planned for the pairs wp, wp + 1, ... are those of the column. */
  ghost predicate KeyRuns(w: Column<int>, rs: seq<Run>, wp: nat) {
    w.Ok() && 2 * (wp + |rs|) <= |w.c| && forall j | 0 <= j < |rs| :: rs[j].keys == w.Pair(wp + j)
  }

  ghost predicate ValueRuns(w: Column<int>, rs: seq<Run>, wp: nat) {
    w.Ok() && 2 * (wp + |rs|) <= |w.c| && forall j | 0 <= j < |rs| :: rs[j].values == w.Pair(wp + j)
  }

  /** The planned runs, one after the other, are the old elements with the new one in place. */
  lemma {:induction false} FlatKeysMerged(w: Column<int>, rs: seq<Run>, wp: nat, j: nat)
    requires KeyRuns(w, rs, wp) && j <= |rs|
    ensures FlatKeys(rs, j, |rs|) == w.Merged(wp + j, wp + |rs|)
    decreases |rs| - j
  {
    hide Read, Fits, Base, Sum, Column.Merged, Column.Pair;
    if j == |rs| {
      MergedNone(w, wp + j);
    } else {
      FlatKeysMerged(w, rs, wp, j + 1);
      MergedPair(w, wp + j);
      MergedSplit(w, wp + j, wp + j + 1, wp + |rs|);
    }
  }

  lemma {:induction false} FlatValuesMerged(w: Column<int>, rs: seq<Run>, wp: nat, j: nat)
    requires ValueRuns(w, rs, wp) && j <= |rs|
    ensures FlatValues(rs, j, |rs|) == w.Merged(wp + j, wp + |rs|)
    decreases |rs| - j
  {
    hide Read, Fits, Base, Sum, Column.Merged, Column.Pair;
    if j == |rs| {
      MergedNone(w, wp + j);
    } else {
      FlatValuesMerged(w, rs, wp, j + 1);
      MergedPair(w, wp + j);
      MergedSplit(w, wp + j, wp + j + 1, wp + |rs|);
    }
  }

  lemma RunIsPair(ak: seq<int>, av: seq<int>, c: seq<nat>, cap: nat, seg: nat, q: nat, key: int, value: int, j: nat)
    requires Fits(|ak|, c, cap) && |ak| == |av| && 2 * j + 1 < |c| && 2 * (seg / 2) + 1 < |c|
    requires q == FirstGeq(Read(ak, c, cap, 2 * (seg / 2), 2 * (seg / 2) + 2), key)
    ensures Column(ak, c, cap, seg / 2, q, key).Ok() && Column(av, c, cap, seg / 2, q, value).Ok()
    ensures MakeRun(ak, av, c, cap, 2 * j, seg, key, value).keys == Column(ak, c, cap, seg / 2, q, key).Pair(j)
    ensures MakeRun(ak, av, c, cap, 2 * j, seg, key, value).values == Column(av, c, cap, seg / 2, q, value).Pair(j)
  {
    hide Read, Fits, Base, Sum, FirstGeq, Start, End;
    ReadPair(ak, c, cap, 2 * j);
    ReadPair(av, c, cap, 2 * j);
    assert seg == 2 * j || seg == 2 * j + 1 <==> j == seg / 2;
  }

  lemma {:induction false} FlatSplit(rs: seq<Run>, lo: nat, mid: nat, hi: nat)
    requires lo <= mid <= hi <= |rs|
    ensures FlatKeys(rs, lo, hi) == FlatKeys(rs, lo, mid) + FlatKeys(rs, mid, hi)
    ensures FlatValues(rs, lo, hi) == FlatValues(rs, lo, mid) + FlatValues(rs, mid, hi)
    decreases mid - lo
  {
    if lo < mid {
      FlatSplit(rs, lo + 1, mid, hi);
      assert rs[lo].keys + (FlatKeys(rs, lo + 1, mid) + FlatKeys(rs, mid, hi)) == (rs[lo].keys + FlatKeys(rs, lo + 1, mid)) + FlatKeys(rs, mid, hi);
      assert rs[lo].values + (FlatValues(rs, lo + 1, mid) + FlatValues(rs, mid, hi)) == (rs[lo].values + FlatValues(rs, lo + 1, mid)) + FlatValues(rs, mid, hi);
    } else {
      assert [] + FlatKeys(rs, mid, hi) == FlatKeys(rs, mid, hi);
      assert [] + FlatValues(rs, mid, hi) == FlatValues(rs, mid, hi);
    }
  }

  /** Where the new key goes: everything before its pair of segments is smaller, nothing after it is. */
  ghost predicate Brackets(e: seq<int>, key: int, lo: nat, hi: nat) {
    && lo <= hi <= |e|
    && (forall p | 0 <= p < lo :: e[p] < key)
    && (forall p | hi <= p < |e| :: key <= e[p])
  }

  lemma PairPosition(e: seq<int>, key: int, lo: nat, hi: nat)
    requires Brackets(e, key, lo, hi)
    ensures FirstGeq(e, key) == lo + FirstGeq(e[lo..hi], key)
  {
    var q := FirstGeq(e[lo..hi], key);
    forall p | 0 <= p < lo + q ensures e[p] < key {
      if lo <= p {
        assert e[p] == e[lo..hi][p - lo];
      }
    }
    if lo + q < |e| {
      if q < hi - lo {
        assert e[lo + q] == e[lo..hi][q];
      }
    }
    FirstGeqAt(e, key, lo + q);
  }

  /** The elements of the window [ws, hi) surround the key at the pair of segments holding `seg`. */
  ghost predicate RightPair(ak: seq<int>, c: seq<nat>, cap: nat, ws: nat, hi: nat, seg: nat, key: int) {
    && Fits(|ak|, c, cap) && ws <= 2 * (seg / 2) && 2 * (seg / 2) + 2 <= hi <= |c|
    && Brackets(Read(ak, c, cap, ws, hi), key, Sum(c, ws, 2 * (seg / 2)), Sum(c, ws, 2 * (seg / 2) + 2))
  }

  lemma PairOffset(ak: seq<int>, c: seq<nat>, cap: nat, ws: nat, hi: nat, seg: nat, key: int)
    requires RightPair(ak, c, cap, ws, hi, seg, key)
    ensures var s := 2 * (seg / 2);
            FirstGeq(Read(ak, c, cap, ws, hi), key) == Sum(c, ws, s) + FirstGeq(Read(ak, c, cap, s, s + 2), key)
  {
    hide Read, Fits, Base, Sum, FirstGeq;
    var s := 2 * (seg / 2);
    var e := Read(ak, c, cap, ws, hi);
    var l, m, r := Read(ak, c, cap, ws, s), Read(ak, c, cap, s, s + 2), Read(ak, c, cap, s + 2, hi);
    PairPosition(e, key, Sum(c, ws, s), Sum(c, ws, s + 2));
    ReadSplit(ak, c, cap, ws, s + 2, hi);
    ReadSplit(ak, c, cap, ws, s, s + 2);
    assert e == (l + m) + r;
    assert e[|l|..|l| + |m|] == m;
  }

  lemma RunsArePairs(ak: seq<int>, av: seq<int>, c: seq<nat>, cap: nat, wp: nat, np: nat, seg: nat, q: nat, key: int, value: int)
    requires Fits(|ak|, c, cap) && |ak| == |av| && 2 * (seg / 2) + 1 < |c| && 2 * (wp + np) <= |c|
    requires q == FirstGeq(Read(ak, c, cap, 2 * (seg / 2), 2 * (seg / 2) + 2), key)
    ensures KeyRuns(Column(ak, c, cap, seg / 2, q, key), MakeRuns(ak, av, c, cap, 2 * wp, np, seg, key, value), wp)
    ensures ValueRuns(Column(av, c, cap, seg / 2, q, value), MakeRuns(ak, av, c, cap, 2 * wp, np, seg, key, value), wp)
  {
    hide Read, Fits, Base, Sum, FirstGeq, MakeRun, MakeRuns, Column.Pair, Column.Ok, Plan;
    RunIsPair(ak, av, c, cap, seg, q, key, value, seg / 2);
    forall j | 0 <= j < np
      ensures MakeRuns(ak, av, c, cap, 2 * wp, np, seg, key, value)[j].keys == Column(ak, c, cap, seg / 2, q, key).Pair(wp + j)
      ensures MakeRuns(ak, av, c, cap, 2 * wp, np, seg, key, value)[j].values == Column(av, c, cap, seg / 2, q, value).Pair(wp + j)
    {
      RunAt(ak, av, c, cap, wp, np, seg, q, key, value, j);
    }
  }

  lemma RunAt(ak: seq<int>, av: seq<int>, c: seq<nat>, cap: nat, wp: nat, np: nat, seg: nat, q: nat, key: int, value: int, j: nat)
    requires Fits(|ak|, c, cap) && |ak| == |av| && 2 * (seg / 2) + 1 < |c| && 2 * (wp + np) <= |c| && j < np
    requires q == FirstGeq(Read(ak, c, cap, 2 * (seg / 2), 2 * (seg / 2) + 2), key)
    requires Column(ak, c, cap, seg / 2, q, key).Ok() && Column(av, c, cap, seg / 2, q, value).Ok()
    ensures MakeRuns(ak, av, c, cap, 2 * wp, np, seg, key, value)[j].keys == Column(ak, c, cap, seg / 2, q, key).Pair(wp + j)
    ensures MakeRuns(ak, av, c, cap, 2 * wp, np, seg, key, value)[j].values == Column(av, c, cap, seg / 2, q, value).Pair(wp + j)
  {
    hide Read, Fits, Base, Sum, FirstGeq, MakeRun, Column.Pair, Column.Ok, Plan;
    assert 2 * wp + 2 * j == 2 * (wp + j);
    RunIsPair(ak, av, c, cap, seg, q, key, value, wp + j);
  }

  /** What the planned runs amount to: the window's old elements and the new pair, in key order. */
  lemma PlannedRuns(ak: seq<int>, av: seq<int>, c: seq<nat>, cap: nat, wp: nat, np: nat, seg: nat, key: int, value: int)
    requires |ak| == |av| && RightPair(ak, c, cap, 2 * wp, 2 * (wp + np), seg, key)
    ensures var rs := MakeRuns(ak, av, c, cap, 2 * wp, np, seg, key, value);
            var e := Read(ak, c, cap, 2 * wp, 2 * (wp + np));
            && FlatKeys(rs, 0, np) == InsertAt(e, FirstGeq(e, key), key)
            && FlatValues(rs, 0, np) == InsertAt(Read(av, c, cap, 2 * wp, 2 * (wp + np)), FirstGeq(e, key), value)
  {
    hide Read, Fits, Base, Sum, FirstGeq, MakeRun, MakeRuns, FlatKeys, FlatValues, Column.Pair, Plan, Brackets;
    var rs := MakeRuns(ak, av, c, cap, 2 * wp, np, seg, key, value);
    var q := FirstGeq(Read(ak, c, cap, 2 * (seg / 2), 2 * (seg / 2) + 2), key);
    PairOffset(ak, c, cap, 2 * wp, 2 * (wp + np), seg, key);
    RunsArePairs(ak, av, c, cap, wp, np, seg, q, key, value);
    FlatKeysMerged(Column(ak, c, cap, seg / 2, q, key), rs, wp, 0);
    FlatValuesMerged(Column(av, c, cap, seg / 2, q, value), rs, wp, 0);
  }

  /** The whole spread: the window ends up holding its old elements and the new pair, in key order
      and evenly distributed; nothing outside the window changes. */
  method Spread(keys: array<int>, values: array<int>, cards: array<nat>, cap: nat,
                after: nat, ws: nat, ns: nat, seg: nat, key: int, value: int)
    requires keys != values && keys.Length == values.Length && 1 <= cap
    requires ws % 2 == 0 && ns % 2 == 0 && 0 < ns && ws <= seg < ws + ns <= cards.Length
    requires RightPair(keys[..], cards[..], cap, ws, ws + ns, seg, key)
    requires after == Sum(cards[..], ws, ws + ns) + 1 <= Base(ns, cap)
    modifies keys, values, cards
    ensures forall k | 0 <= k < ns :: cards[ws + k] == Share(after, ns, k)
    ensures forall i | 0 <= i < cards.Length && !(ws <= i < ws + ns) :: cards[i] == old(cards[i])
    ensures Fits(keys.Length, cards[..], cap)
    ensures var e := old(Read(keys[..], cards[..], cap, ws, ws + ns));
            && Read(keys[..], cards[..], cap, ws, ws + ns) == InsertAt(e, FirstGeq(e, key), key)
            && Read(values[..], cards[..], cap, ws, ws + ns)
               == InsertAt(old(Read(values[..], cards[..], cap, ws, ws + ns)), FirstGeq(e, key), value)
    ensures forall p | 0 <= p < Base(ws, cap) || Base(ws + ns, cap) <= p < keys.Length :: keys[p] == old(keys[p]) && values[p] == old(values[p])
  {
    hide Read, Fits, Base, Sum, FirstGeq, FlatKeys, FlatValues, Plan, RightPair, Share;
    ghost var ak, av, c := keys[..], values[..], cards[..];
    var np := ns / 2;
    ghost var rs := StartPlan(ak, av, c, cap, ws, np, seg, key, value);
    var chunkKeys := new int[4 * cap + 1];
    var chunkValues := new int[4 * cap + 1];
    var left, j0 := StashTail(keys, values, cards, cap, ws, np, seg, key, value, chunkKeys, chunkValues, rs);
    var top := Base(ws + ns, cap);
    WindowTop(c, cap, keys.Length, ws, ns, j0);
    var cur := CompactRest(keys, values, cards, cap, ws, j0, top, seg, key, value, rs, ak, av);
    FlatSplit(rs, 0, j0, np);
    SetCardinalities(cards, ws, ns, after);
    SharedOut(c, cards[..], cap, keys.Length, ws, ns, after);
    Redistribute(keys, values, cards, cap, ws, np, chunkKeys, chunkValues, cur, top, left, FlatKeys(rs, 0, np), FlatValues(rs, 0, np));
  }

  lemma StartPlan(ak: seq<int>, av: seq<int>, c: seq<nat>, cap: nat, ws: nat, np: nat, seg: nat, key: int, value: int) returns (rs: seq<Run>)
    requires ws % 2 == 0 && |ak| == |av| && RightPair(ak, c, cap, ws, ws + 2 * np, seg, key)
    ensures |rs| == np && Plan(rs, c, cap, ws, ak, av, seg, key, value)
    ensures Fits(|ak|, c, cap)
    ensures var e := Read(ak, c, cap, ws, ws + 2 * np);
            && FlatKeys(rs, 0, np) == InsertAt(e, FirstGeq(e, key), key)
            && FlatValues(rs, 0, np) == InsertAt(Read(av, c, cap, ws, ws + 2 * np), FirstGeq(e, key), value)
            && |e| == Sum(c, ws, ws + 2 * np)
  {
    hide Read, Fits, Base, Sum, FirstGeq, FlatKeys, FlatValues, Plan, Brackets;
    assert ws == 2 * (ws / 2) && ws + 2 * np == 2 * (ws / 2 + np);
    PlannedRuns(ak, av, c, cap, ws / 2, np, seg, key, value);
    rs := MakeRuns(ak, av, c, cap, ws, np, seg, key, value);
  }

  lemma WindowTop(c: seq<nat>, cap: nat, n: nat, ws: nat, ns: nat, j0: nat)
    requires Fits(n, c, cap) && 0 < ns && ns % 2 == 0 && ws + ns <= |c|
    requires j0 == if 4 <= ns then ns / 2 - 2 else 0
    ensures Base(ws, cap) <= Base(ws + ns, cap) <= n
    ensures 0 < j0 ==> Base(ws + ns, cap) == Base(ws + 2 * j0, cap) + 4 * cap
  {
    hide Base;
    BaseLe(ws, ws + ns, cap);
    FitsAt(n, c, cap, ws + ns - 1);
    if 0 < j0 {
      BaseTwo(ws + 2 * j0, cap);
      BaseTwo(ws + 2 * j0 + 2, cap);
    }
  }

  /** After the counts are set: they still fit, and they add up to the window's new size. */
  lemma SharedOut(c: seq<nat>, d: seq<nat>, cap: nat, n: nat, ws: nat, ns: nat, after: nat)
    requires Fits(n, c, cap) && |c| == |d| && 0 < ns && ws + ns <= |c| && after <= Base(ns, cap)
    requires forall k | 0 <= k < ns :: d[ws + k] == Share(after, ns, k)
    requires forall i | 0 <= i < |c| && !(ws <= i < ws + ns) :: d[i] == c[i]
    ensures Fits(n, d, cap) && Sum(d, ws, ws + ns) == after
  {
    hide Base, Share, Sum;
    Shares(d, ws, after, ns, cap);
    forall i | 0 <= i < |d| ensures d[i] <= cap && Base(i, cap) + cap <= n {
      FitsAt(n, c, cap, i);
    }
  }
}
