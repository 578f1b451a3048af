/** Range queries over the clustered array: the iterator and the aggregate sum of BTreePMA_v4. */
module RangeScan {
  import opened Sequences
  import opened Layout
  import opened InPlaceSpread
  import opened Regrow
  import opened SortedStore
  import opened ClusteredPma
  import opened RangeSums

  ghost function Zip(ks: seq<int>, vs: seq<int>): (s: seq<(int, int)>)
    requires |ks| == |vs|
    ensures |s| == |ks|
  {
    if ks == [] then [] else [(ks[0], vs[0])] + Zip(ks[1..], vs[1..])
  }

  /** The pairs with key in [min, max], in order: what a range query is asked for. */
  ghost function Between(ks: seq<int>, vs: seq<int>, min: int, max: int): (s: seq<(int, int)>)
    requires |ks| == |vs|
  {
    Within(Zip(ks, vs), min, max)
  }

  lemma BetweenStep(ks: seq<int>, vs: seq<int>, min: int, max: int)
    requires 0 < |ks| == |vs|
    ensures Between(ks, vs, min, max) == (if min <= ks[0] <= max then [(ks[0], vs[0])] else []) + Between(ks[1..], vs[1..], min, max)
  {
  }

  /** The ranks a query covers: from the first key not below `min` up to the first key above `max`. */
  ghost function Low(ks: seq<int>, min: int): (r: nat)
    ensures r <= |ks|
  {
    FirstGeq(ks, min)
  }

  ghost function High(ks: seq<int>, max: int): (r: nat)
    ensures r <= |ks|
  {
    FirstGeq(ks, max + 1)
  }

  /** On ascending keys the pairs asked for are one stretch of the sequence. */
  lemma {:induction false} BetweenIsSlice(ks: seq<int>, vs: seq<int>, min: int, max: int)
    requires |ks| == |vs| && Ascending(ks) && min <= max
    ensures Low(ks, min) <= High(ks, max)
    ensures Between(ks, vs, min, max) == Zip(ks[Low(ks, min)..High(ks, max)], vs[Low(ks, min)..High(ks, max)])
  {
    hide Within, Between;
    if ks != [] {
      BetweenStep(ks, vs, min, max);
      BetweenIsSlice(ks[1..], vs[1..], min, max);
      Steps(ks, min, max);
      var lo, hi := Low(ks, min), High(ks, max);
      if max < ks[0] {
        AllAbove(ks, vs, min, max);
      } else if min <= ks[0] {
        LowZero(ks[1..], min);
        ZipFront(ks, vs, hi);
      } else {
        assert ks[1..|ks|] == ks[1..] && vs[1..|vs|] == vs[1..];
        SubSlice(ks, 1, |ks|, lo - 1, hi - lo);
        SubSlice(vs, 1, |vs|, lo - 1, hi - lo);
      }
    } else {
      NoneBetween(ks, vs, min, max);
    }
  }

  lemma Steps(ks: seq<int>, min: int, max: int)
    requires 0 < |ks|
    ensures Low(ks, min) == if min <= ks[0] then 0 else 1 + Low(ks[1..], min)
    ensures High(ks, max) == if max < ks[0] then 0 else 1 + High(ks[1..], max)
  {
  }

  lemma ZipFront(ks: seq<int>, vs: seq<int>, hi: nat)
    requires 0 < hi <= |ks| == |vs|
    ensures Zip(ks[0..hi], vs[0..hi]) == [(ks[0], vs[0])] + Zip(ks[1..][0..hi - 1], vs[1..][0..hi - 1])
  {
    assert ks[0..hi][1..] == ks[1..][0..hi - 1] && vs[0..hi][1..] == vs[1..][0..hi - 1];
  }

  lemma LowZero(ks: seq<int>, min: int)
    requires ks != [] ==> min <= ks[0]
    ensures Low(ks, min) == 0
  {
  }

  lemma {:induction false} AllAbove(ks: seq<int>, vs: seq<int>, min: int, max: int)
    requires |ks| == |vs| && forall i | 0 <= i < |ks| :: max < ks[i]
    ensures Between(ks, vs, min, max) == []
  {
    if ks != [] {
      BetweenStep(ks, vs, min, max);
      AllAbove(ks[1..], vs[1..], min, max);
    }
  }

  /** The segment after the contiguous run that starts with segment `s`. */
  function After(n: nat, s: nat): (t: nat)
    requires s < n
    ensures s < t <= n
  {
    if s % 2 == 0 && s + 1 < n then s + 2 else s + 1
  }

  function RunEnd(c: seq<nat>, cap: nat, s: nat): (p: int)
    requires s < |c|
  {
    End(c, cap, After(|c|, s) - 1)
  }

  /** A run is a stretch of cells that holds a stretch of the sequence. */
  lemma RunCells<T>(a: seq<T>, c: seq<nat>, cap: nat, s: nat)
    requires Fits(|a|, c, cap) && s < |c|
    ensures var t := After(|c|, s);
            && Base(s, cap) <= Start(c, cap, s) <= RunEnd(c, cap, s) <= Base(t, cap) <= |a|
            && Sum(c, 0, s) <= Sum(c, 0, t) <= Sum(c, 0, |c|)
            && RunEnd(c, cap, s) - Start(c, cap, s) == Sum(c, 0, t) - Sum(c, 0, s)
            && a[Start(c, cap, s)..RunEnd(c, cap, s)] == Read(a, c, cap, 0, |c|)[Sum(c, 0, s)..Sum(c, 0, t)]
  {
    hide Read, Fits, Base, Sum, Start, End;
    var t := After(|c|, s);
    SegmentBounds(|a|, c, cap, s);
    ReadSlice(a, c, cap, s, t);
    if t == s + 2 {
      PairBounds(|a|, c, cap, s);
      ReadPair(a, c, cap, s);
    } else {
      ReadOne(a, c, cap, s);
      SegmentCells(a, c, cap, s);
    }
  }

  lemma SegmentCells<T>(a: seq<T>, c: seq<nat>, cap: nat, s: nat)
    requires Fits(|a|, c, cap) && s < |c|
    ensures 0 <= Start(c, cap, s) <= End(c, cap, s) <= |a| && End(c, cap, s) == Start(c, cap, s) + c[s]
    ensures Segment(a, c, cap, s) == a[Start(c, cap, s)..End(c, cap, s)]
  {
  }

  /** The cell just past the element of rank hi - 1, which lies in segment `last`. */
  ghost predicate EndsAt(c: seq<nat>, cap: nat, hi: nat, last: nat, indexMax: int) {
    last < |c| && Sum(c, 0, last) < hi <= Sum(c, 0, last + 1) && indexMax == Start(c, cap, last) + (hi - Sum(c, 0, last))
  }

  /** Cutting a run at the last cell cuts its ranks at `hi`. */
  lemma CutRun(n: nat, c: seq<nat>, cap: nat, s: nat, hi: nat, last: nat, indexMax: int)
    requires Fits(n, c, cap) && s < |c| && EndsAt(c, cap, hi, last, indexMax)
    ensures Sum(c, 0, s) < hi ==>
              (if indexMax <= RunEnd(c, cap, s) then indexMax - Start(c, cap, s) == hi - Sum(c, 0, s) && hi <= Sum(c, 0, After(|c|, s))
               else Sum(c, 0, After(|c|, s)) < hi)
    ensures hi <= Sum(c, 0, s) ==> indexMax <= Start(c, cap, s)
  {
    hide Fits, Base, Sum, Start, End;
    var t := After(|c|, s);
    SegmentBounds(n, c, cap, s);
    SegmentBounds(n, c, cap, last);
    SegmentBounds(n, c, cap, t - 1);
    SumSteps(c, last);
    if last < s {
      SumMonotone(c, last + 1, s);
      BaseLe(last + 1, s, cap);
    } else if t <= last {
      SumMonotone(c, s, last);
      SumMonotone(c, t, last);
      BaseLe(t, last, cap);
    } else {
      SumMonotone(c, s, last);
      if last == s + 1 {
        PairBounds(n, c, cap, s);
        SumSteps(c, s);
      }
      SumMonotone(c, last + 1, t);
      if last == s && t == s + 2 {
        PairBounds(n, c, cap, s);
      }
    }
  }

  lemma SumSteps(c: seq<nat>, s: nat)
    requires s < |c|
    ensures Sum(c, 0, s + 1) == Sum(c, 0, s) + c[s]
  {
  }

  /** Where the scan for the lower end stops: at the first key not below `min`, or past the end. */
  ghost predicate FirstAt(k: seq<int>, c: seq<nat>, cap: nat, min: int, s: nat, offset: int)
    requires Fits(|k|, c, cap)
  {
    var e := Read(k, c, cap, 0, |c|);
    s < |c| && Sum(c, 0, s) <= Low(e, min) < Sum(c, 0, s + 1) && offset == Start(c, cap, s) + (Low(e, min) - Sum(c, 0, s))
  }

  method FindFirst(keys: array<int>, values: array<int>, cards: array<nat>, cap: nat, first: nat, min: int)
    returns (notfound: bool, s: nat, offset: int, stop: int)
    requires Store(keys[..], values[..], cards[..], cap) && Located(Mins(keys[..], cards[..], cap), min, first)
    ensures notfound ==> s == cards.Length && Low(Read(keys[..], cards[..], cap, 0, cards.Length), min) == Sum(cards[..], 0, cards.Length)
    ensures !notfound ==> FirstAt(keys[..], cards[..], cap, min, s, offset) && stop == End(cards[..], cap, s)
    ensures 0 <= offset
  {
    hide Read, Fits, Base, Sum, Mins, Ascending, NoneEmpty, Low, Start, End;
    ghost var k, c := keys[..], cards[..];
    ghost var e := Read(k, c, cap, 0, |c|);
    notfound, s, offset, stop := true, first, -1, -1;
    BelowLocated(k, values[..], c, cap, min, first);
    while notfound && s < cards.Length
      invariant 0 <= s <= cards.Length && (first < s || !notfound ==> 0 <= offset) && first <= s
      invariant notfound ==> Sum(c, 0, s) <= Low(e, min)
      invariant !notfound ==> FirstAt(k, c, cap, min, s, offset) && stop == End(c, cap, s)
      decreases notfound, cards.Length - s
    {
      var start := Start(cards[..], cap, s);
      stop := End(cards[..], cap, s);
      SegmentBounds(|k|, c, cap, s);
      offset := start;
      while offset < stop && keys[offset] < min
        invariant start <= offset <= stop
        invariant forall p | start <= p < offset :: k[p] < min
      {
        offset := offset + 1;
      }
      notfound := offset == stop;
      LowInSegment(k, c, cap, min, s, offset - start);
      if notfound {
        s := s + 1;
      }
    }
    if notfound {
      LowAtMost(e, min);
    }
  }

  lemma LowAtMost(e: seq<int>, min: int)
    ensures Low(e, min) <= |e|
  {
  }

  /** All elements of the segments before the located one are below the key. */
  lemma BelowLocated(k: seq<int>, v: seq<int>, c: seq<nat>, cap: nat, key: int, s: nat)
    requires Store(k, v, c, cap) && Located(Mins(k, c, cap), key, s)
    ensures Sum(c, 0, s) <= Low(Read(k, c, cap, 0, |c|), key)
    ensures s < |c|
  {
    hide Read, Fits, Base, Sum, Mins;
    EmptySum(c);
    MinRank(k, c, cap, s);
    var e := Read(k, c, cap, 0, |c|);
    assert Low(e, key) < |e| ==> key <= e[Low(e, key)];
  }

  /** Element `i` of segment `s` is the element of rank Sum(c, 0, s) + i. */
  lemma SegmentRank<T>(k: seq<T>, c: seq<nat>, cap: nat, s: nat, i: nat)
    requires Fits(|k|, c, cap) && s < |c| && i < c[s]
    ensures Sum(c, 0, s + 1) == Sum(c, 0, s) + c[s] <= Sum(c, 0, |c|)
    ensures 0 <= Start(c, cap, s) && Start(c, cap, s) + c[s] <= |k|
    ensures k[Start(c, cap, s) + i] == Read(k, c, cap, 0, |c|)[Sum(c, 0, s) + i]
  {
    hide Read, Fits, Base, Sum, Start, End;
    SumSteps(c, s);
    SegmentCells(k, c, cap, s);
    ReadOne(k, c, cap, s);
    ReadSlice(k, c, cap, s, s + 1);
    var e, g := Read(k, c, cap, 0, |c|), Segment(k, c, cap, s);
    assert g[i] == k[Start(c, cap, s) + i];
    assert g[i] == e[Sum(c, 0, s)..Sum(c, 0, s + 1)][i];
  }

  lemma LowInSegment(k: seq<int>, c: seq<nat>, cap: nat, min: int, s: nat, i: nat)
    requires Fits(|k|, c, cap) && s < |c| && i <= c[s] && 0 <= Start(c, cap, s) && Start(c, cap, s) + c[s] <= |k|
    requires Sum(c, 0, s) <= Low(Read(k, c, cap, 0, |c|), min)
    requires forall p | Start(c, cap, s) <= p < Start(c, cap, s) + i :: k[p] < min
    requires i < c[s] ==> min <= k[Start(c, cap, s) + i]
    ensures i == c[s] ==> Sum(c, 0, s + 1) <= Low(Read(k, c, cap, 0, |c|), min)
    ensures i < c[s] ==> FirstAt(k, c, cap, min, s, Start(c, cap, s) + i)
  {
    hide Read, Fits, Base, Sum, Start, End;
    var f, b := Low(Read(k, c, cap, 0, |c|), min), Sum(c, 0, s);
    SumSteps(c, s);
    SumMonotone(c, s + 1, |c|);
    if f < b + i {
      SegmentRank(k, c, cap, s, f - b);
    }
    if i < c[s] {
      SegmentRank(k, c, cap, s, i);
    }
  }

  /** The scan for the upper end, backwards from the segment located for `max`. For an even segment
      the source lets the scan run one cell below the first element; it never gets there, because
      the located segment starts with a key that is not above `max`. */
  method FindLast(keys: array<int>, values: array<int>, cards: array<nat>, cap: nat, from: nat, last: nat, max: int)
    returns (offset: int)
    requires Store(keys[..], values[..], cards[..], cap) && Located(Mins(keys[..], cards[..], cap), max, last) && from <= last
    requires 0 < High(Read(keys[..], cards[..], cap, 0, cards.Length), max)
    ensures EndsAt(cards[..], cap, High(Read(keys[..], cards[..], cap, 0, cards.Length), max), last, offset + 1)
  {
    hide Read, Fits, Base, Sum, Mins, Ascending, NoneEmpty, High, Start, End, EndsAt;
    ghost var k, c := keys[..], cards[..];
    ghost var hi := High(Read(k, c, cap, 0, |c|), max);
    UpperSegment(k, values[..], c, cap, max, last);
    var s: int, notfound := last, true;
    offset := -1;
    while notfound && s >= from
      invariant notfound ==> s == last
      invariant !notfound ==> EndsAt(c, cap, hi, last, offset + 1)
      decreases notfound
    {
      var start, stop;
      SegmentEnds(|k|, c, cap, last);
      if s % 2 == 0 {
        start := Base(s, cap) + cap - 1;
        stop := start - cards[s];
      } else {
        stop := Base(s, cap);
        start := stop + cards[s] - 1;
      }
      offset := start;
      ghost var first := Start(c, cap, last);
      while offset >= stop && keys[offset] > max
        invariant first <= offset <= start
        invariant forall p | offset < p <= start :: max < k[p]
        decreases offset
      {
        offset := offset - 1;
      }
      HighInSegment(k, c, cap, max, last, offset - first);
      notfound := offset < stop;
      if notfound {
        s := s - 1;
      }
    }
  }

  lemma SegmentEnds(n: nat, c: seq<nat>, cap: nat, s: nat)
    requires Fits(n, c, cap) && s < |c|
    ensures 0 <= Start(c, cap, s) && Start(c, cap, s) + c[s] <= n
    ensures s % 2 == 0 ==> Start(c, cap, s) == Base(s, cap) + cap - c[s]
    ensures s % 2 != 0 ==> Start(c, cap, s) == Base(s, cap)
  {
  }

  /** The element of rank High - 1 is in the segment located for `max`. */
  lemma UpperSegment(k: seq<int>, v: seq<int>, c: seq<nat>, cap: nat, max: int, s: nat)
    requires Store(k, v, c, cap) && Located(Mins(k, c, cap), max, s)
    requires 0 < High(Read(k, c, cap, 0, |c|), max)
    ensures s < |c| && 1 <= c[s] && 0 <= Start(c, cap, s) < |k| && k[Start(c, cap, s)] <= max
    ensures Sum(c, 0, s) < High(Read(k, c, cap, 0, |c|), max) <= Sum(c, 0, s + 1)
  {
    hide Read, Fits, Base, Sum, Mins;
    var e := Read(k, c, cap, 0, |c|);
    var hi := High(e, max);
    EmptySum(c);
    SegmentHead(k, c, cap, s);
    MinRank(k, c, cap, s);
    MinAt(k, c, cap, s);
    if s + 1 < |c| {
      MinRank(k, c, cap, s + 1);
    }
    assert e[0] < max + 1;
  }

  lemma HighInSegment(k: seq<int>, c: seq<nat>, cap: nat, max: int, s: nat, i: nat)
    requires Fits(|k|, c, cap) && s < |c| && i < c[s] && 0 <= Start(c, cap, s) && Start(c, cap, s) + c[s] <= |k|
    requires Sum(c, 0, s) < High(Read(k, c, cap, 0, |c|), max) <= Sum(c, 0, s + 1)
    requires forall p | Start(c, cap, s) + i < p <= Start(c, cap, s) + c[s] - 1 :: max < k[p]
    requires k[Start(c, cap, s) + i] <= max
    requires Ascending(Read(k, c, cap, 0, |c|))
    ensures EndsAt(c, cap, High(Read(k, c, cap, 0, |c|), max), s, Start(c, cap, s) + i + 1)
  {
    hide Read, Fits, Base, Sum, Start, End;
    var e, hi, b := Read(k, c, cap, 0, |c|), High(Read(k, c, cap, 0, |c|), max), Sum(c, 0, s);
    SegmentRank(k, c, cap, s, i);
    SegmentRank(k, c, cap, s, hi - 1 - b);
  }

  /** The iterator stands before the element of rank `rank`, somewhere in the run that starts with
      segment `run`, and will stop before rank `hi`. */
  ghost predicate Scanning(n: nat, c: seq<nat>, cap: nat, next: nat, offset: int, stop: int, indexMax: int,
                           rank: nat, hi: nat, run: nat, last: nat) {
    && rank <= hi
    && (rank == hi ==> stop <= offset)
    && (rank < hi ==> Fits(n, c, cap) && OnRun(c, cap, next, offset, stop, indexMax, rank, hi, run, last))
  }

  ghost predicate OnRun(c: seq<nat>, cap: nat, next: nat, offset: int, stop: int, indexMax: int,
                        rank: nat, hi: nat, run: nat, last: nat) {
    && EndsAt(c, cap, hi, last, indexMax)
    && run < |c| && next == After(|c|, run)
    && Sum(c, 0, run) <= rank < Sum(c, 0, next)
    && offset == Start(c, cap, run) + (rank - Sum(c, 0, run))
    && stop == (if indexMax <= RunEnd(c, cap, run) then indexMax else RunEnd(c, cap, run))
  }

  /** While elements are left, the cell at the offset holds the element of that rank, and the end of
      the current stretch is either the end of the scan or the end of the run. */
  lemma AtOffset(k: seq<int>, v: seq<int>, c: seq<nat>, cap: nat, next: nat, offset: int, stop: int, indexMax: int,
                 rank: nat, hi: nat, run: nat, last: nat)
    requires Store(k, v, c, cap) && rank < hi && OnRun(c, cap, next, offset, stop, indexMax, rank, hi, run, last)
    ensures hi <= Sum(c, 0, |c|)
    ensures 0 <= offset < |k| && k[offset] == Read(k, c, cap, 0, |c|)[rank] && v[offset] == Read(v, c, cap, 0, |c|)[rank]
    ensures stop - offset == (if hi <= Sum(c, 0, next) then hi else Sum(c, 0, next)) - rank
    ensures next <= |c|
  {
    hide Read, Fits, Base, Sum, Start, End;
    RunCells(k, c, cap, run);
    RunCells(v, c, cap, run);
    CutRun(|k|, c, cap, run, hi, last, indexMax);
    SumMonotone(c, last + 1, |c|);
    var i := rank - Sum(c, 0, run);
    var st, en := Start(c, cap, run), RunEnd(c, cap, run);
    assert k[offset] == k[st..en][i] && v[offset] == v[st..en][i];
  }

  /** At the end of a run: what is left starts with the next run, if anything is left. */
  ghost predicate BetweenRuns(c: seq<nat>, cap: nat, next: nat, indexMax: int, rank: nat, hi: nat, last: nat) {
    if next < |c| then EndsAt(c, cap, hi, last, indexMax) && (if rank < hi then rank == Sum(c, 0, next) else hi <= Sum(c, 0, next))
    else rank == hi
  }

  /** The fields of an iterator over [min, max], given the segments located for the two ends. */
  method Position(keys: array<int>, values: array<int>, cards: array<nat>, cap: nat, first: nat, end: nat, min: int, max: int)
    returns (next: nat, offset: int, stop: int, indexMax: int, run: nat)
    requires Store(keys[..], values[..], cards[..], cap) && min <= max
    requires Located(Mins(keys[..], cards[..], cap), min, first) && Located(Mins(keys[..], cards[..], cap), max, end)
    ensures var e := Read(keys[..], cards[..], cap, 0, cards.Length);
            Scanning(keys.Length, cards[..], cap, next, offset, stop, indexMax, Low(e, min), High(e, max), run, end)
  {
    hide Read, Fits, Base, Sum, Start, End, Mins, Ascending, NoneEmpty, EndsAt, Low, High, Located, RunEnd;
    ghost var k, v, c := keys[..], values[..], cards[..];
    ghost var e := Read(k, c, cap, 0, |c|);
    LowHigh(e, min, max);
    var notfound;
    notfound, run, offset, stop := FindFirst(keys, values, cards, cap, first, min);
    next := run + 1;
    if notfound {
      NothingBetween(k, c, cap, min, max);
      indexMax, stop := 0, 0;
    } else {
      FirstCell(k, v, c, cap, min, max, run, offset);
      if keys[offset] > max {
        indexMax, stop := 0, 0;
      } else {
        next := After(cards.Length, run);
        FromBeforeEnd(k, v, c, cap, min, max, run, end);
        indexMax := FindLast(keys, values, cards, cap, run, end, max);
        indexMax := indexMax + 1;
        stop := RunEnd(cards[..], cap, run);
        stop := if indexMax <= stop then indexMax else stop;
        StartsOnRun(k, v, c, cap, min, run);
      }
    }
  }

  lemma LowHigh(e: seq<int>, min: int, max: int)
    requires Ascending(e) && min <= max
    ensures Low(e, min) <= High(e, max)
  {
  }

  class Iterator {
    const pma: BTreePMA
    var nextSegment: nat
    var offset: int
    var stop: int
    var indexMax: int
    ghost var rank: nat
    ghost var hi: nat
    ghost var run: nat
    ghost var last: nat

    ghost predicate Valid()
      reads this, pma, pma.keys, pma.values, pma.cards, pma.densities
    {
      && pma.Valid()
      && hi <= |pma.Keys()| == |pma.Values()|
      && (rank < hi ==> 0 < pma.cardinality)
      && Scanning(pma.keys.Length, pma.cards[..], pma.segmentCapacity, nextSegment, offset, stop, indexMax, rank, hi, run, last)
    }

    /** The pairs still to be delivered. */
    ghost function Remaining(): (s: seq<(int, int)>)
      requires Valid()
      reads this, pma, pma.keys, pma.values, pma.cards, pma.densities
    {
      Zip(pma.Keys()[rank..hi], pma.Values()[rank..hi])
    }

    constructor (p: BTreePMA, next: nat, offset: int, stop: int, indexMax: int, ghost rank: nat, ghost hi: nat, ghost run: nat, ghost last: nat)
      ensures pma == p && nextSegment == next && this.offset == offset && this.stop == stop && this.indexMax == indexMax
      ensures this.rank == rank && this.hi == hi && this.run == run && this.last == last
    {
      pma := p;
      nextSegment, this.offset, this.stop, this.indexMax := next, offset, stop, indexMax;
      this.rank, this.hi, this.run, this.last := rank, hi, run, last;
    }

    predicate HasNext()
      reads this
    {
      offset < stop
    }

    method NextSequence()
      requires pma.Valid() && 0 < pma.cardinality && rank <= hi && stop <= offset
      requires BetweenRuns(pma.cards[..], pma.segmentCapacity, nextSegment, indexMax, rank, hi, last)
      modifies this`nextSegment, this`offset, this`stop, this`run
      ensures Scanning(pma.keys.Length, pma.cards[..], pma.segmentCapacity, nextSegment, offset, stop, indexMax, rank, hi, run, last)
    {
      hide Read, Fits, Base, Sum, Start, End, Mins, Covers, Ascending, NoneEmpty, Sized, EndsAt, OnRun;
      var s := nextSegment;
      if s < pma.numberSegments {
        NextRun(pma.keys[..], pma.values[..], pma.cards[..], pma.segmentCapacity, s, indexMax, rank, hi, last);
        offset := Start(pma.cards[..], pma.segmentCapacity, s);
        stop := RunEnd(pma.cards[..], pma.segmentCapacity, s);
        stop := if indexMax <= stop then indexMax else stop;
        nextSegment := After(pma.numberSegments, s);
        run := s;
      }
    }

    /** The next pair in key order; what remains is one pair shorter. */
    method Next() returns (result: (int, int))
      requires Valid() && Remaining() != []
      modifies this
      ensures Valid() && old(Remaining()) == [result] + Remaining()
    {
      hide Read, Fits, Base, Sum, Start, End, Mins, Covers, Ascending, NoneEmpty, Sized, EndsAt, RunEnd, Zip;
      ghost var ks, vs := pma.Keys(), pma.Values();
      ZipStep(ks, vs, rank, hi);
      AtOffset(pma.keys[..], pma.values[..], pma.cards[..], pma.segmentCapacity, nextSegment, offset, stop, indexMax, rank, hi, run, last);
      result := (pma.keys[offset], pma.values[offset]);
      offset := offset + 1;
      rank := rank + 1;
      if stop <= offset {
        SumOver(pma.cards[..], nextSegment);
        NextSequence();
      }
    }
  }

  lemma SameLengths(k: seq<int>, v: seq<int>, c: seq<nat>, cap: nat, card: nat, index: map<int, nat>)
    requires Holds(k, v, c, cap, card, index)
    ensures card != 0 ==> Fits(|k|, c, cap) && Fits(|v|, c, cap)
    ensures |Contents(k, c, cap, card)| == |Contents(v, c, cap, card)| == card
  {
  }

  lemma HoldsStore(k: seq<int>, v: seq<int>, c: seq<nat>, cap: nat, card: nat, index: map<int, nat>)
    requires Holds(k, v, c, cap, card, index) && card != 0
    ensures Store(k, v, c, cap) && Fits(|k|, c, cap) && Ascending(Read(k, c, cap, 0, |c|))
  {
  }

  lemma NothingBetween(k: seq<int>, c: seq<nat>, cap: nat, min: int, max: int)
    requires Fits(|k|, c, cap) && min <= max
    requires Low(Read(k, c, cap, 0, |c|), min) == Sum(c, 0, |c|)
    ensures High(Read(k, c, cap, 0, |c|), max) == Low(Read(k, c, cap, 0, |c|), min)
  {
  }

  /** The first cell decides: its key is above `max` exactly when no element qualifies. */
  lemma FirstCell(k: seq<int>, v: seq<int>, c: seq<nat>, cap: nat, min: int, max: int, s: nat, offset: int)
    requires Store(k, v, c, cap) && FirstAt(k, c, cap, min, s, offset) && min <= max
    ensures 0 <= offset < |k|
    ensures max < k[offset] ==> High(Read(k, c, cap, 0, |c|), max) == Low(Read(k, c, cap, 0, |c|), min)
    ensures k[offset] <= max ==> Low(Read(k, c, cap, 0, |c|), min) < High(Read(k, c, cap, 0, |c|), max)
  {
    hide Read, Fits, Base, Sum, Start, End;
    var e, lo, hi := Read(k, c, cap, 0, |c|), Low(Read(k, c, cap, 0, |c|), min), High(Read(k, c, cap, 0, |c|), max);
    SumSteps(c, s);
    SegmentRank(k, c, cap, s, lo - Sum(c, 0, s));
    assert e[lo] == k[offset];
    if max < k[offset] {
      FirstGeqAt(e, max + 1, lo);
    }
  }

  /** The segment of the first element is not behind the one located for `max`. */
  lemma FromBeforeEnd(k: seq<int>, v: seq<int>, c: seq<nat>, cap: nat, min: int, max: int, s: nat, end: nat)
    requires Store(k, v, c, cap) && s < |c| && Located(Mins(k, c, cap), max, end)
    requires Sum(c, 0, s) <= Low(Read(k, c, cap, 0, |c|), min) < High(Read(k, c, cap, 0, |c|), max)
    ensures s <= end
  {
    hide Read, Fits, Base, Sum, Start, End, Mins, Located, Low, High;
    UpperSegment(k, v, c, cap, max, end);
    if end < s {
      SumMonotone(c, end + 1, s);
    }
  }

  lemma StartsOnRun(k: seq<int>, v: seq<int>, c: seq<nat>, cap: nat, min: int, s: nat)
    requires Store(k, v, c, cap) && s < |c| && Low(Read(k, c, cap, 0, |c|), min) < Sum(c, 0, s + 1)
    ensures Low(Read(k, c, cap, 0, |c|), min) < Sum(c, 0, After(|c|, s))
  {
    hide Read, Fits, Sum, Low;
    SumMonotone(c, s + 1, After(|c|, s));
  }

  /** find(min, max): an iterator over exactly the stored pairs with key in [min, max], in order. */
  method FindRange(p: BTreePMA, min: int, max: int) returns (it: Iterator)
    requires p.Valid()
    ensures it.pma == p && it.Valid() && |p.Keys()| == |p.Values()|
    ensures it.Remaining() == Between(p.Keys(), p.Values(), min, max)
  {
    hide Mins, Read, Sum, Fits, Between, Located, Store, Holds, BTreePMA.Shape, OnRun, Low, High, Zip, Ascending;
    SameLengths(p.keys[..], p.values[..], p.cards[..], p.segmentCapacity, p.cardinality, p.index);
    if min > max || p.cardinality == 0 {
      it := new Iterator(p, 0, 0, 0, 0, 0, 0, 0, 0);
      NoneBetween(p.Keys(), p.Values(), min, max);
      ZipStep(p.Keys(), p.Values(), 0, 0);
    } else {
      var first := p.FindSegment(min);
      var end := p.FindSegment(max);
      HoldsStore(p.keys[..], p.values[..], p.cards[..], p.segmentCapacity, p.cardinality, p.index);
      ghost var e := Read(p.keys[..], p.cards[..], p.segmentCapacity, 0, p.cards.Length);
      BetweenIsSlice(p.Keys(), p.Values(), min, max);
      var next, offset, stop, indexMax, run := Position(p.keys, p.values, p.cards, p.segmentCapacity, first, end, min, max);
      it := new Iterator(p, next, offset, stop, indexMax, Low(e, min), High(e, max), run, end);
    }
  }

  lemma {:induction false} NoneBetween(ks: seq<int>, vs: seq<int>, min: int, max: int)
    requires |ks| == |vs|
    ensures max < min || ks == [] ==> Between(ks, vs, min, max) == []
  {
    if ks != [] {
      BetweenStep(ks, vs, min, max);
      NoneBetween(ks[1..], vs[1..], min, max);
    }
  }

  lemma AdvanceRun(k: seq<int>, c: seq<nat>, cap: nat, s: nat)
    requires Dense(k, c, cap) && s < |c|
    ensures Sum(c, 0, s) < Sum(c, 0, After(|c|, s))
  {
  }

  lemma SumOver(c: seq<nat>, s: nat)
    requires s <= |c|
    ensures Sum(c, 0, s) <= Sum(c, 0, |c|)
  {
    SumMonotone(c, s, |c|);
  }

  lemma ZipStep(ks: seq<int>, vs: seq<int>, lo: nat, hi: nat)
    requires |ks| == |vs| && lo <= hi <= |ks|
    ensures Zip(ks[lo..hi], vs[lo..hi]) == if lo == hi then [] else [(ks[lo], vs[lo])] + Zip(ks[lo + 1..hi], vs[lo + 1..hi])
  {
  }

  /** The source's loop condition says exactly whether pairs are left. */
  lemma HasNextExact(it: Iterator)
    requires it.Valid()
    ensures it.HasNext() <==> it.Remaining() != []
  {
    hide Read, Fits, Base, Sum, Mins, Covers, Ascending, NoneEmpty, Sized, Zip, EndsAt, RunEnd, Start;
    ZipStep(it.pma.Keys(), it.pma.Values(), it.rank, it.hi);
    if it.rank < it.hi {
      var p := it.pma;
      AtOffset(p.keys[..], p.values[..], p.cards[..], p.segmentCapacity, it.nextSegment, it.offset, it.stop, it.indexMax,
               it.rank, it.hi, it.run, it.last);
    }
  }

  function Total(s: seq<int>): (t: int) {
    if s == [] then 0 else Total(s[..|s| - 1]) + s[|s| - 1]
  }

  /** The aggregate of the elements of ranks [lo, hi). */
  ghost function Summary(ks: seq<int>, vs: seq<int>, lo: nat, hi: nat): (r: SumResult)
    requires |ks| == |vs| && lo <= hi <= |ks|
  {
    if lo == hi then SumResult(0, 0, 0, 0, 0)
    else SumResult(ks[lo], ks[hi - 1], hi - lo, Total(ks[lo..hi]), Total(vs[lo..hi]))
  }

  lemma TotalStep(s: seq<int>, lo: nat, r: nat)
    requires lo <= r < |s|
    ensures Total(s[lo..r + 1]) == Total(s[lo..r]) + s[r]
  {
    assert s[lo..r + 1][..r - lo] == s[lo..r];
  }

  /** Add up the stretch the scan stands on. */
  method AddStretch(keys: array<int>, values: array<int>, offset: int, stop: int, sumKeys0: int, sumValues0: int,
                    ghost ks: seq<int>, ghost vs: seq<int>, ghost lo: nat, ghost r0: nat)
    returns (sumKeys: int, sumValues: int)
    requires 0 <= offset <= stop <= keys.Length == values.Length && lo <= r0 && r0 + (stop - offset) <= |ks| == |vs|
    requires keys[..][offset..stop] == ks[r0..r0 + (stop - offset)] && values[..][offset..stop] == vs[r0..r0 + (stop - offset)]
    requires sumKeys0 == Total(ks[lo..r0]) && sumValues0 == Total(vs[lo..r0])
    ensures sumKeys == Total(ks[lo..r0 + (stop - offset)]) && sumValues == Total(vs[lo..r0 + (stop - offset)])
  {
    hide Total;
    sumKeys, sumValues := sumKeys0, sumValues0;
    var i := offset;
    ghost var r := r0;
    while i < stop
      invariant offset <= i <= stop && r == r0 + (i - offset)
      invariant sumKeys == Total(ks[lo..r]) && sumValues == Total(vs[lo..r])
    {
      assert keys[i] == keys[..][offset..stop][i - offset] && values[i] == values[..][offset..stop][i - offset];
      TotalStep(ks, lo, r);
      TotalStep(vs, lo, r);
      sumKeys := sumKeys + keys[i];
      sumValues := sumValues + values[i];
      i := i + 1;
      r := r + 1;
    }
  }

  /** The cells up to the end of the current stretch hold the next elements. */
  lemma StretchCells(k: seq<int>, v: seq<int>, c: seq<nat>, cap: nat, next: nat, offset: int, stop: int, indexMax: int,
                     rank: nat, hi: nat, run: nat, last: nat)
    requires Store(k, v, c, cap) && rank < hi && OnRun(c, cap, next, offset, stop, indexMax, rank, hi, run, last)
    ensures hi <= Sum(c, 0, |c|) && next <= |c|
    ensures 0 <= offset < stop <= |k| && rank + (stop - offset) <= Sum(c, 0, |c|)
    ensures stop - offset == (if hi <= Sum(c, 0, next) then hi else Sum(c, 0, next)) - rank
    ensures k[offset..stop] == Read(k, c, cap, 0, |c|)[rank..rank + (stop - offset)]
    ensures v[offset..stop] == Read(v, c, cap, 0, |c|)[rank..rank + (stop - offset)]
  {
    hide Read, Fits, Base, Sum, Start, End;
    AtOffset(k, v, c, cap, next, offset, stop, indexMax, rank, hi, run, last);
    StoreFits(k, v, c, cap);
    StretchOf(k, c, cap, run, offset, stop - offset, rank);
    StretchOf(v, c, cap, run, offset, stop - offset, rank);
  }

  lemma StoreFits(k: seq<int>, v: seq<int>, c: seq<nat>, cap: nat)
    requires Store(k, v, c, cap)
    ensures Fits(|k|, c, cap) && |k| == |v|
  {
  }

  /** Cells of one run hold elements in a row. */
  lemma StretchOf(a: seq<int>, c: seq<nat>, cap: nat, run: nat, offset: int, n: nat, rank: nat)
    requires Fits(|a|, c, cap) && run < |c| && Sum(c, 0, run) <= rank && rank + n <= Sum(c, 0, After(|c|, run))
    requires offset == Start(c, cap, run) + (rank - Sum(c, 0, run))
    ensures 0 <= offset && offset + n <= |a| && rank + n <= Sum(c, 0, |c|)
    ensures a[offset..offset + n] == Read(a, c, cap, 0, |c|)[rank..rank + n]
  {
    hide Read, Fits, Base, Sum, Start, End, RunEnd;
    RunCells(a, c, cap, run);
    var b, t := Sum(c, 0, run), Sum(c, 0, After(|c|, run));
    SubStretch(a, Read(a, c, cap, 0, |c|), Start(c, cap, run), RunEnd(c, cap, run), b, t, rank - b, n);
  }

  lemma SubStretch(a: seq<int>, e: seq<int>, lo: nat, hi: nat, r: nat, t: nat, i: nat, n: nat)
    requires lo <= hi <= |a| && r <= t <= |e| && a[lo..hi] == e[r..t] && i + n <= hi - lo
    ensures a[lo + i..lo + i + n] == e[r + i..r + i + n]
  {
    SubSlice(a, lo, hi, i, n);
    SubSlice(e, r, t, i, n);
  }

  lemma {:induction false} AggregateZip(ks: seq<int>, vs: seq<int>)
    requires |ks| == |vs|
    ensures SumKeys(Zip(ks, vs)) == Total(ks) && SumValues(Zip(ks, vs)) == Total(vs)
    ensures Aggregate(Zip(ks, vs)) == if ks == [] then SumResult(0, 0, 0, 0, 0) else SumResult(ks[0], ks[|ks| - 1], |ks|, Total(ks), Total(vs))
  {
    if ks != [] {
      var n := |ks| - 1;
      AggregateZip(ks[..n], vs[..n]);
      ZipLast(ks, vs);
    }
  }

  lemma {:induction false} ZipLast(ks: seq<int>, vs: seq<int>)
    requires 0 < |ks| == |vs|
    ensures var n := |ks| - 1; Zip(ks, vs)[..n] == Zip(ks[..n], vs[..n]) && Zip(ks, vs)[n] == (ks[n], vs[n]) && Zip(ks, vs)[0] == (ks[0], vs[0])
  {
    var n := |ks| - 1;
    if 0 < n {
      ZipLast(ks[1..], vs[1..]);
      assert ks[1..][..n - 1] == ks[..n][1..] && vs[1..][..n - 1] == vs[..n][1..];
    }
  }

  /** The aggregate of the ranks of a range is the aggregate of the pairs in the range. */
  lemma SummaryExact(ks: seq<int>, vs: seq<int>, min: int, max: int)
    requires |ks| == |vs| && Ascending(ks) && min <= max
    ensures Low(ks, min) <= High(ks, max)
    ensures Summary(ks, vs, Low(ks, min), High(ks, max)) == Aggregate(Between(ks, vs, min, max))
  {
    hide Ascending, Low, High;
    BetweenIsSlice(ks, vs, min, max);
    var lo, hi := Low(ks, min), High(ks, max);
    AggregateZip(ks[lo..hi], vs[lo..hi]);
  }

  /** sum(min, max): count, sums, first and last key of exactly the pairs with key in [min, max]. */
  method AggregateSum(p: BTreePMA, min: int, max: int) returns (sum: SumResult)
    requires p.Valid()
    ensures |p.Keys()| == |p.Values()| && sum == Aggregate(Between(p.Keys(), p.Values(), min, max))
  {
    hide Mins, Read, Sum, Fits, Located, Store, Holds, BTreePMA.Shape, OnRun, Low, High, Ascending, Total;
    SameLengths(p.keys[..], p.values[..], p.cards[..], p.segmentCapacity, p.cardinality, p.index);
    sum := SumResult(0, 0, 0, 0, 0);
    NoneBetween(p.Keys(), p.Values(), min, max);
    if min > max || p.cardinality == 0 {
      return;
    }
    var first := p.FindSegment(min);
    var end := p.FindSegment(max);
    HoldsStore(p.keys[..], p.values[..], p.cards[..], p.segmentCapacity, p.cardinality, p.index);
    SummaryExact(p.Keys(), p.Values(), min, max);
    var next, offset, stop, indexMax, run := Position(p.keys, p.values, p.cards, p.segmentCapacity, first, end, min, max);
    if stop <= offset {
      NothingLeft(p.keys[..], p.values[..], p.cards[..], p.segmentCapacity, next, offset, stop, indexMax, Low(p.Keys(), min), High(p.Keys(), max), run, end);
      return;
    }
    sum := SumRuns(p.keys, p.values, p.cards, p.segmentCapacity, next, offset, stop, indexMax, run, end, Low(p.Keys(), min), High(p.Keys(), max));
  }

  lemma NothingLeft(k: seq<int>, v: seq<int>, c: seq<nat>, cap: nat, next: nat, offset: int, stop: int, indexMax: int,
                    rank: nat, hi: nat, run: nat, last: nat)
    requires Store(k, v, c, cap) && Scanning(|k|, c, cap, next, offset, stop, indexMax, rank, hi, run, last) && stop <= offset
    ensures rank == hi
  {
    hide Read, Fits, Base, Sum, Start, End, OnRun, Store;
    if rank < hi {
      StretchCells(k, v, c, cap, next, offset, stop, indexMax, rank, hi, run, last);
    }
  }

  /** The summing loop, run by run. */
  method SumRuns(keys: array<int>, values: array<int>, cards: array<nat>, cap: nat,
                 next0: nat, offset0: int, stop0: int, indexMax: int, ghost run0: nat, ghost last: nat, ghost lo: nat, ghost hi: nat)
    returns (sum: SumResult)
    requires Store(keys[..], values[..], cards[..], cap) && keys.Length == values.Length && lo < hi
    requires OnRun(cards[..], cap, next0, offset0, stop0, indexMax, lo, hi, run0, last)
    ensures hi <= Sum(cards[..], 0, cards.Length)
    ensures sum == Summary(Read(keys[..], cards[..], cap, 0, cards.Length), Read(values[..], cards[..], cap, 0, cards.Length), lo, hi)
  {
    hide Read, Fits, Base, Sum, Start, End, OnRun, Store, EndsAt, Total, BetweenRuns;
    ghost var k, v, c := keys[..], values[..], cards[..];
    StoreMins(k, v, c, cap);
    ghost var ks, vs := Read(k, c, cap, 0, |c|), Read(v, c, cap, 0, |c|);
    ghost var r: nat, run: nat := lo, run0;
    var next: nat, offset, stop := next0, offset0, stop0;
    StretchCells(k, v, c, cap, next, offset, stop, indexMax, lo, hi, run, last);
    AtOffset(k, v, c, cap, next, offset, stop, indexMax, lo, hi, run, last);
    LastCellOf(k, v, c, cap, next, offset, stop, indexMax, lo, hi, run, last);
    TotalNone(ks, vs, lo);
    var firstKey, num, sumKeys, sumValues := keys[offset], 0, 0, 0;
    while offset < indexMax
      invariant lo <= r <= hi && num == r - lo
      invariant sumKeys == Total(ks[lo..r]) && sumValues == Total(vs[lo..r])
      invariant r < hi ==> OnRun(c, cap, next, offset, stop, indexMax, r, hi, run, last) && offset < indexMax
      invariant r == hi ==> indexMax <= offset
      decreases hi - r
    {
      StretchCells(k, v, c, cap, next, offset, stop, indexMax, r, hi, run, last);
      num := num + (stop - offset);
      sumKeys, sumValues := AddStretch(keys, values, offset, stop, sumKeys, sumValues, ks, vs, lo, r);
      EndOfStretch(k, v, c, cap, next, offset, stop, indexMax, r, hi, run, last);
      r := r + (stop - offset);
      offset := stop;
      if next < cards.Length {
        NextRun(k, v, c, cap, next, indexMax, r, hi, last);
        run := next;
        offset := Start(cards[..], cap, next);
        stop := RunEnd(cards[..], cap, next);
        stop := if indexMax <= stop then indexMax else stop;
        next := After(cards.Length, next);
      }
    }
    sum := SumResult(firstKey, keys[indexMax - 1], num, sumKeys, sumValues);
  }

  lemma TotalNone(ks: seq<int>, vs: seq<int>, lo: nat)
    requires lo <= |ks| == |vs|
    ensures Total(ks[lo..lo]) == 0 && Total(vs[lo..lo]) == 0
  {
  }

  lemma LastCellOf(k: seq<int>, v: seq<int>, c: seq<nat>, cap: nat, next: nat, offset: int, stop: int, indexMax: int,
                   rank: nat, hi: nat, run: nat, last: nat)
    requires Store(k, v, c, cap) && rank < hi && OnRun(c, cap, next, offset, stop, indexMax, rank, hi, run, last)
    ensures hi <= Sum(c, 0, |c|) && 0 <= indexMax - 1 < |k| && k[indexMax - 1] == Read(k, c, cap, 0, |c|)[hi - 1]
    ensures stop <= indexMax
  {
    hide Read, Fits, Base, Sum, Start, End;
    SumSteps(c, last);
    SegmentRank(k, c, cap, last, hi - 1 - Sum(c, 0, last));
  }

  lemma EndOfStretch(k: seq<int>, v: seq<int>, c: seq<nat>, cap: nat, next: nat, offset: int, stop: int, indexMax: int,
                     rank: nat, hi: nat, run: nat, last: nat)
    requires Store(k, v, c, cap) && rank < hi && OnRun(c, cap, next, offset, stop, indexMax, rank, hi, run, last)
    ensures offset <= stop && BetweenRuns(c, cap, next, indexMax, rank + (stop - offset), hi, last)
    ensures rank + (stop - offset) <= hi && (rank + (stop - offset) == hi ==> stop == indexMax)
    ensures next <= |c|
  {
    hide Read, Fits, Base, Sum, Start, End, EndsAt;
    AtOffset(k, v, c, cap, next, offset, stop, indexMax, rank, hi, run, last);
    CutRun(|k|, c, cap, run, hi, last, indexMax);
    SumMonotone(c, next, |c|);
  }

  /** Moving to the next run keeps the scan in step, or ends it. */
  lemma NextRun(k: seq<int>, v: seq<int>, c: seq<nat>, cap: nat, s: nat, indexMax: int, rank: nat, hi: nat, last: nat)
    requires Store(k, v, c, cap) && s < |c| && rank <= hi && BetweenRuns(c, cap, s, indexMax, rank, hi, last)
    ensures var offset, end := Start(c, cap, s), RunEnd(c, cap, s);
            var stop := if indexMax <= end then indexMax else end;
            && (rank < hi ==> OnRun(c, cap, After(|c|, s), offset, stop, indexMax, rank, hi, s, last) && offset < indexMax)
            && (rank == hi ==> indexMax <= offset && stop <= offset)
  {
    hide Read, Fits, Base, Sum, Start, End, EndsAt;
    CutRun(|k|, c, cap, s, hi, last, indexMax);
    RunCells(k, c, cap, s);
    AdvanceRun(k, c, cap, s);
  }
}
