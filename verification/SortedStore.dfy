/** The sorted sequence a clustered array stores, its separators and its index, as pure facts. */
module SortedStore {
  import opened Sequences
  import opened Layout
  import opened InPlaceSpread
  import opened Regrow

  /** A non-empty array: every segment holds between one element and its capacity, and the keys
      ascend strictly over the whole array. */
  ghost predicate Store(k: seq<int>, v: seq<int>, c: seq<nat>, cap: nat) {
    && 0 < |c| && 1 <= cap
    && |k| == |v| == Base(|c|, cap)
    && Fits(|k|, c, cap) && NoneEmpty(c)
    && Ascending(Read(k, c, cap, 0, |c|))
  }

  /** The separator of segment `i`: its smallest key. */
  function Min(k: seq<int>, c: seq<nat>, cap: nat, i: nat): (m: int)
    requires i < |c| && 0 <= Start(c, cap, i) < |k|
  {
    k[Start(c, cap, i)]
  }

  ghost predicate Dense(k: seq<int>, c: seq<nat>, cap: nat) {
    Fits(|k|, c, cap) && NoneEmpty(c)
  }

  ghost function Mins(k: seq<int>, c: seq<nat>, cap: nat): (m: seq<int>)
    requires Dense(k, c, cap)
    ensures |m| == |c|
  {
    seq(|c|, i requires 0 <= i < |c| => MinStart(k, c, cap, i); Min(k, c, cap, i))
  }

  lemma MinStart(k: seq<int>, c: seq<nat>, cap: nat, i: nat)
    requires Dense(k, c, cap) && i < |c|
    ensures 0 <= Start(c, cap, i) < |k|
  {
  }

  lemma SegmentHead(k: seq<int>, c: seq<nat>, cap: nat, i: nat)
    requires Dense(k, c, cap) && i < |c|
    ensures 1 <= c[i] && Segment(k, c, cap, i)[0] == Mins(k, c, cap)[i]
  {
  }

  /** The separator is the element whose rank is the number of elements in the segments before. */
  lemma MinRank(k: seq<int>, c: seq<nat>, cap: nat, i: nat)
    requires Dense(k, c, cap) && i < |c|
    ensures Sum(c, 0, i) < Sum(c, 0, i + 1) <= Sum(c, 0, |c|)
    ensures Mins(k, c, cap)[i] == Read(k, c, cap, 0, |c|)[Sum(c, 0, i)]
    ensures Mins(k, c, cap)[i] == Segment(k, c, cap, i)[0]
  {
    hide Read, Fits, Base, Start, End, Segment;
    MinStart(k, c, cap, i);
    SegmentHead(k, c, cap, i);
    SumSplit(c, 0, i + 1, |c|);
    ReadSplit(k, c, cap, 0, i + 1, |c|);
    ReadSplit(k, c, cap, 0, i, i + 1);
    ReadOne(k, c, cap, i);
    assert Sum(c, 0, i + 1) == Sum(c, 0, i) + c[i];
    var l, m, r := Read(k, c, cap, 0, i), Segment(k, c, cap, i), Read(k, c, cap, i + 1, |c|);
    assert Read(k, c, cap, 0, |c|) == (l + m) + r;
    assert ((l + m) + r)[|l|] == m[0];

  }

  lemma MinsAscend(k: seq<int>, c: seq<nat>, cap: nat)
    requires Dense(k, c, cap) && Ascending(Read(k, c, cap, 0, |c|))
    ensures Ascending(Mins(k, c, cap))
  {
    hide Read, Dense, Mins, Sum;
    var m := Mins(k, c, cap);
    forall i, j | 0 <= i < j < |m| ensures m[i] < m[j] {
      MinRank(k, c, cap, i);
      MinRank(k, c, cap, j);
      SumMonotone(c, i + 1, j);
    }
  }

  lemma {:induction false} SumMonotone(c: seq<nat>, i: nat, j: nat)
    requires i <= j <= |c|
    ensures Sum(c, 0, i) <= Sum(c, 0, j)
  {
    SumSplit(c, 0, i, j);
  }

  /** `s` is the segment a search for `key` must end in. */
  ghost predicate Located(mins: seq<int>, key: int, s: nat) {
    && s < |mins|
    && (s == 0 || mins[s] <= key)
    && forall i | s < i < |mins| :: key < mins[i]
  }

  /** Every range of segments around the located one surrounds the key. */
  lemma SurroundsKey(k: seq<int>, c: seq<nat>, cap: nat, key: int, s: nat, lo: nat, hi: nat)
    requires Dense(k, c, cap) && Ascending(Read(k, c, cap, 0, |c|))
    requires Located(Mins(k, c, cap), key, s) && lo <= s < hi <= |c|
    requires key !in Read(k, c, cap, 0, |c|)
    ensures Brackets(Read(k, c, cap, 0, |c|), key, Sum(c, 0, lo), Sum(c, 0, hi))
  {
    hide Read, Fits, Mins, Sum;
    var e, n := Read(k, c, cap, 0, |c|), |c|;
    SumMonotone(c, lo, hi);
    SumMonotone(c, hi, n);
    forall p | 0 <= p < Sum(c, 0, lo) ensures e[p] < key {
      EmptySum(c);
      MinRank(k, c, cap, s);
      SumMonotone(c, lo, s);
      assert e[Sum(c, 0, s)] in e;
    }
    forall p | Sum(c, 0, hi) <= p < |e| ensures key <= e[p] {
      if hi < n {
        MinRank(k, c, cap, hi);
        assert e[Sum(c, 0, hi)] <= e[p];
      }
    }
  }

  lemma EmptySum(c: seq<nat>)
    ensures Sum(c, 0, 0) == 0
  {
  }

  /** The reading of a range of segments is a slice of the whole reading. */
  lemma ReadSlice<T>(k: seq<T>, c: seq<nat>, cap: nat, lo: nat, hi: nat)
    requires Fits(|k|, c, cap) && lo <= hi <= |c|
    ensures Sum(c, 0, lo) <= Sum(c, 0, hi) <= Sum(c, 0, |c|) && Sum(c, 0, hi) - Sum(c, 0, lo) == Sum(c, lo, hi)
    ensures Read(k, c, cap, lo, hi) == Read(k, c, cap, 0, |c|)[Sum(c, 0, lo)..Sum(c, 0, hi)]
  {
    hide Read, Fits, Sum;
    SumMonotone(c, lo, hi);
    SumMonotone(c, hi, |c|);
    SumSplit(c, 0, lo, hi);
    ReadSplit(k, c, cap, 0, hi, |c|);
    ReadSplit(k, c, cap, 0, lo, hi);
  }

  /** In the located segment, the key's place is its place in the whole sequence. */
  lemma PlaceInSegment(k: seq<int>, c: seq<nat>, cap: nat, key: int, s: nat)
    requires Dense(k, c, cap) && Ascending(Read(k, c, cap, 0, |c|)) && key !in Read(k, c, cap, 0, |c|)
    requires Located(Mins(k, c, cap), key, s)
    ensures FirstGeq(Read(k, c, cap, 0, |c|), key) == Sum(c, 0, s) + FirstGeq(Segment(k, c, cap, s), key)
    ensures Ascending(Segment(k, c, cap, s)) && key !in Segment(k, c, cap, s)
  {
    hide Read, Fits, Sum, FirstGeq, Mins, Brackets, Segment;
    var e := Read(k, c, cap, 0, |c|);
    SurroundsKey(k, c, cap, key, s, s, s + 1);
    PairPosition(e, key, Sum(c, 0, s), Sum(c, 0, s + 1));
    ReadSlice(k, c, cap, s, s + 1);
    ReadOne(k, c, cap, s);
  }

  /** In a window of whole pairs around the located segment, the pair of that segment is the right
      one, and the key's place in the window is its place in the whole sequence. */
  lemma PlaceInWindow(k: seq<int>, c: seq<nat>, cap: nat, key: int, s: nat, lo: nat, hi: nat)
    requires Dense(k, c, cap) && Ascending(Read(k, c, cap, 0, |c|)) && key !in Read(k, c, cap, 0, |c|)
    requires Located(Mins(k, c, cap), key, s) && lo <= s < hi <= |c| && lo % 2 == 0 && hi % 2 == 0
    ensures RightPair(k, c, cap, lo, hi, s, key)
    ensures FirstGeq(Read(k, c, cap, 0, |c|), key) == Sum(c, 0, lo) + FirstGeq(Read(k, c, cap, lo, hi), key)
  {
    hide Read, Fits, Sum, FirstGeq, Mins, Located, Brackets;
    var e, s2 := Read(k, c, cap, 0, |c|), 2 * (s / 2);
    SurroundsKey(k, c, cap, key, s, lo, hi);
    PairPosition(e, key, Sum(c, 0, lo), Sum(c, 0, hi));
    ReadSlice(k, c, cap, lo, hi);
    assert lo <= s2 && s2 + 2 <= hi;
    SurroundsKey(k, c, cap, key, s, s2, s2 + 2);
    SumSplit(c, 0, lo, s2);
    SumSplit(c, 0, lo, s2 + 2);
    SumMonotone(c, s2 + 2, hi);
    SumMonotone(c, s2, s2 + 2);
    BracketsSlice(e, key, Sum(c, 0, s2), Sum(c, 0, s2 + 2), Sum(c, 0, lo), Sum(c, 0, hi));
  }

  lemma BracketsSlice(e: seq<int>, key: int, lo: nat, hi: nat, a: nat, b: nat)
    requires Brackets(e, key, lo, hi) && a <= lo && hi <= b <= |e|
    ensures Brackets(e[a..b], key, lo - a, hi - a)
  {
  }

  /** The index maps exactly the separators of the segments outside [lo, hi) to their segments. */
  ghost predicate Covers(index: map<int, nat>, mins: seq<int>, lo: nat, hi: nat) {
    && (forall j | 0 <= j < |mins| && !(lo <= j < hi) :: mins[j] in index && index[mins[j]] == j)
    && (forall m | m in index :: index[m] < |mins| && !(lo <= index[m] < hi) && mins[index[m]] == m)
  }

  /** The greatest separator that is not above the key leads to the segment located. */
  lemma FloorLocates(index: map<int, nat>, mins: seq<int>, key: int, sep: int)
    requires Covers(index, mins, 0, 0) && Ascending(mins)
    requires sep in index && sep <= key && forall m | m in index && m <= key :: m <= sep
    ensures Located(mins, key, index[sep])
  {
  }

  lemma NoFloorLocates(index: map<int, nat>, mins: seq<int>, key: int)
    requires Covers(index, mins, 0, 0) && 0 < |mins|
    requires forall m | m in index :: key < m
    ensures Located(mins, key, 0)
  {
  }
}
