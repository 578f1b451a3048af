/** What each update of the array does to the stored sequence, the separators and the index. */
module StoreSteps {
  import opened Sequences
  import opened Layout
  import opened InPlaceSpread
  import opened Regrow
  import opened SegmentInsert
  import opened SortedStore

  ghost predicate SameOutside<T>(a: seq<T>, b: seq<T>, lo: nat, hi: nat) {
    |a| == |b| && forall p | 0 <= p < |a| && !(lo <= p < hi) :: a[p] == b[p]
  }

  /** An insertion inside the segments [lo, hi) is an insertion in the whole sequence. */
  lemma WindowUpdate<T>(a: seq<T>, c: seq<nat>, b: seq<T>, d: seq<nat>, cap: nat, lo: nat, hi: nat, p: nat, x: T)
    requires |a| == Base(|c|, cap) && Fits(|a|, c, cap) && Fits(|b|, d, cap) && lo <= hi <= |c|
    requires SameOutside(a, b, Base(lo, cap), Base(hi, cap)) && SameOutside(c, d, lo, hi)
    requires p <= Sum(c, lo, hi) && Read(b, d, cap, lo, hi) == InsertAt(Read(a, c, cap, lo, hi), p, x)
    ensures Sum(c, 0, lo) + p <= Sum(c, 0, |c|)
    ensures Read(b, d, cap, 0, |c|) == InsertAt(Read(a, c, cap, 0, |c|), Sum(c, 0, lo) + p, x)
  {
    hide Read, Fits, Sum, Base, InsertAt, SameOutside;
    var n := |c|;
    ReadOutside(a, c, b, d, cap, lo, hi);
    SumSplit(c, 0, lo, hi);
    SumSplit(c, 0, hi, n);
    ReadThree(a, c, cap, lo, hi, n);
    ReadThree(b, d, cap, lo, hi, n);
    var l, m, r := Read(a, c, cap, 0, lo), Read(a, c, cap, lo, hi), Read(a, c, cap, hi, n);
    InsertLeft(l + m, r, |l| + p, x);
    InsertRight(l, m, p, x);
  }

  lemma ReadThree<T>(a: seq<T>, c: seq<nat>, cap: nat, lo: nat, hi: nat, n: nat)
    requires Fits(|a|, c, cap) && lo <= hi <= n <= |c|
    ensures Read(a, c, cap, 0, n) == (Read(a, c, cap, 0, lo) + Read(a, c, cap, lo, hi)) + Read(a, c, cap, hi, n)
  {
    hide Read, Fits, Sum;
    ReadSplit(a, c, cap, 0, hi, n);
    ReadSplit(a, c, cap, 0, lo, hi);
  }

  lemma ReadOutside<T>(a: seq<T>, c: seq<nat>, b: seq<T>, d: seq<nat>, cap: nat, lo: nat, hi: nat)
    requires |a| == Base(|c|, cap) && Fits(|a|, c, cap) && Fits(|b|, d, cap) && lo <= hi <= |c|
    requires SameOutside(a, b, Base(lo, cap), Base(hi, cap)) && SameOutside(c, d, lo, hi)
    ensures |c| == |d|
    ensures Read(b, d, cap, 0, lo) == Read(a, c, cap, 0, lo) && Read(b, d, cap, hi, |c|) == Read(a, c, cap, hi, |c|)
  {
    hide Read, Fits, Base;
    BaseLe(lo, hi, cap);
    BaseLe(hi, |c|, cap);
    ReadFrame(b, d, a, c, cap, 0, lo);
    ReadFrame(b, d, a, c, cap, hi, |c|);
  }

  lemma MinsOutside(a: seq<int>, c: seq<nat>, b: seq<int>, d: seq<nat>, cap: nat, lo: nat, hi: nat)
    requires Dense(a, c, cap) && Dense(b, d, cap) && lo <= hi <= |c|
    requires SameOutside(a, b, Base(lo, cap), Base(hi, cap)) && SameOutside(c, d, lo, hi)
    ensures SameOutside(Mins(a, c, cap), Mins(b, d, cap), lo, hi)
  {
    hide Fits, Base;
    forall i | 0 <= i < |c| && !(lo <= i < hi) ensures Mins(a, c, cap)[i] == Mins(b, d, cap)[i] {
      MinStart(a, c, cap, i);
      MinStart(b, d, cap, i);
      FitsAt(|a|, c, cap, i);
      SegmentBounds(|a|, c, cap, i);
      if i < lo {
        BaseLe(i + 1, lo, cap);
      } else {
        BaseLe(hi, i, cap);
      }
      assert c[i] == d[i] && 1 <= c[i];
    }
  }

  /** After a spread the array is again a store, with the new pair in its sorted place. */
  lemma AfterSpread(k: seq<int>, v: seq<int>, c: seq<nat>, k': seq<int>, v': seq<int>, d: seq<nat>, cap: nat,
                    seg: nat, key: int, value: int, lo: nat, hi: nat)
    requires Store(k, v, c, cap) && key !in Read(k, c, cap, 0, |c|) && Located(Mins(k, c, cap), key, seg)
    requires lo <= seg < hi <= |c| && lo % 2 == 0 && hi % 2 == 0
    requires SameOutside(k, k', Base(lo, cap), Base(hi, cap)) && SameOutside(v, v', Base(lo, cap), Base(hi, cap))
    requires SameOutside(c, d, lo, hi) && Fits(|k|, d, cap) && NoneEmpty(d)
    requires var e := Read(k, c, cap, lo, hi);
             && Read(k', d, cap, lo, hi) == InsertAt(e, FirstGeq(e, key), key)
             && Read(v', d, cap, lo, hi) == InsertAt(Read(v, c, cap, lo, hi), FirstGeq(e, key), value)
    ensures Store(k', v', d, cap)
    ensures var e := Read(k, c, cap, 0, |c|);
            && Read(k', d, cap, 0, |d|) == InsertAt(e, FirstGeq(e, key), key)
            && Read(v', d, cap, 0, |d|) == InsertAt(Read(v, c, cap, 0, |c|), FirstGeq(e, key), value)
    ensures SameOutside(Mins(k, c, cap), Mins(k', d, cap), lo, hi)
    ensures Sum(d, 0, |d|) == Sum(c, 0, |c|) + 1
  {
    hide Read, Fits, Sum, FirstGeq, Base, Mins, Located, NoneEmpty, SameOutside, Ascending;
    PlaceInWindow(k, c, cap, key, seg, lo, hi);
    var p := FirstGeq(Read(k, c, cap, lo, hi), key);
    SameSizes(k, k', Base(lo, cap), Base(hi, cap));
    SameSizes(v, v', Base(lo, cap), Base(hi, cap));
    SameSizes(c, d, lo, hi);
    WindowUpdate(k, c, k', d, cap, lo, hi, p, key);
    WindowUpdate(v, c, v', d, cap, lo, hi, p, value);
    AscendingInsert(Read(k, c, cap, 0, |c|), key);
    MinsOutside(k, c, k', d, cap, lo, hi);
  }

  lemma SameSizes<T>(a: seq<T>, b: seq<T>, lo: nat, hi: nat)
    requires SameOutside(a, b, lo, hi)
    ensures |a| == |b|
  {
  }

  /** After insert_common the array is again a store, with the new pair in its sorted place; only
      the separator of that segment can have changed, and only to the new key. */
  lemma AfterCommon(k: seq<int>, v: seq<int>, c: seq<nat>, cap: nat, s: nat, key: int, value: int)
    requires Store(k, v, c, cap) && key !in Read(k, c, cap, 0, |c|) && Located(Mins(k, c, cap), key, s) && c[s] < cap
    ensures var q, d := FirstGeq(Segment(k, c, cap, s), key), c[s := c[s] + 1];
            var k', v' := Grown(k, c, cap, s, q, key), Grown(v, c, cap, s, q, value);
            var e := Read(k, c, cap, 0, |c|);
            && Store(k', v', d, cap)
            && Read(k', d, cap, 0, |c|) == InsertAt(e, FirstGeq(e, key), key)
            && Read(v', d, cap, 0, |c|) == InsertAt(Read(v, c, cap, 0, |c|), FirstGeq(e, key), value)
            && Mins(k', d, cap) == (if q == 0 then Mins(k, c, cap)[s := key] else Mins(k, c, cap))
            && Sum(d, 0, |c|) == Sum(c, 0, |c|) + 1
  {
    hide Read, Fits, Sum, FirstGeq, Base, Mins, Grown, Ascending, Segment;
    var q, d := FirstGeq(Segment(k, c, cap, s), key), c[s := c[s] + 1];
    PlaceInSegment(k, c, cap, key, s);
    GrownReads(k, c, cap, s, q, key);
    GrownReads(v, c, cap, s, q, value);
    AscendingInsert(Read(k, c, cap, 0, |c|), key);
    GrownMins(k, c, cap, s, q, key);
  }

  lemma GrownMins(k: seq<int>, c: seq<nat>, cap: nat, s: nat, q: nat, key: int)
    requires Dense(k, c, cap) && |k| == Base(|c|, cap) && s < |c| && c[s] < cap && q <= c[s]
    ensures Dense(Grown(k, c, cap, s, q, key), c[s := c[s] + 1], cap)
    ensures Mins(Grown(k, c, cap, s, q, key), c[s := c[s] + 1], cap)
            == if q == 0 then Mins(k, c, cap)[s := key] else Mins(k, c, cap)
  {
    hide Fits, Base, Mins;
    var b, d := Grown(k, c, cap, s, q, key), c[s := c[s] + 1];
    RoomBounds(|k|, c, cap, s);
    SegmentHead(k, c, cap, s);
    SegmentHead(b, d, cap, s);
    GrownSegment(k, c, cap, s, q, key);
    SpliceOutside(k, Start(d, cap, s), InsertAt(Segment(k, c, cap, s), q, key), Base(s, cap), Base(s + 1, cap));
    MinsOutside(k, c, b, d, cap, s, s + 1);
  }

  /** Replacing one separator in the index keeps it exact. */
  lemma Reindex(index: map<int, nat>, mins: seq<int>, s: nat, key: int)
    requires Covers(index, mins, 0, 0) && Ascending(mins) && s < |mins| && key !in mins
    ensures mins[s] in index && index[mins[s]] == s
    ensures Covers((index - {mins[s]})[key := s], mins[s := key], 0, 0)
  {
  }

  /** Taking a separator out of the index, or putting one in, moves the border of the range that is missing. */
  lemma Unindex(index: map<int, nat>, mins: seq<int>, lo: nat, hi: nat)
    requires Covers(index, mins, lo, hi) && Ascending(mins) && lo <= hi < |mins|
    ensures mins[hi] in index && Covers(index - {mins[hi]}, mins, lo, hi + 1)
  {
  }

  lemma Index(index: map<int, nat>, mins: seq<int>, lo: nat, hi: nat)
    requires Covers(index, mins, lo, hi) && Ascending(mins) && lo < hi <= |mins|
    ensures Covers(index[mins[lo] := lo], mins, lo + 1, hi)
  {
  }

  lemma CoversSame(index: map<int, nat>, mins: seq<int>, mins': seq<int>, lo: nat, hi: nat)
    requires Covers(index, mins, lo, hi) && SameOutside(mins, mins', lo, hi)
    ensures Covers(index, mins', lo, hi)
  {
  }

  lemma CoversNone(mins: seq<int>)
    ensures Covers(map[], mins, 0, |mins|)
  {
  }

  lemma CoversAll(index: map<int, nat>, mins: seq<int>, lo: nat)
    requires Covers(index, mins, lo, lo)
    ensures Covers(index, mins, 0, 0)
  {
  }
}
