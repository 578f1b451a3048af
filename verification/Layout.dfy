/** How the clustered packed array lays its elements out: segment `i` owns the cells
    [i*cap, (i+1)*cap) and keeps its elements at the right end of them when `i` is even,
    at the left end when `i` is odd. */
module Layout {
  import opened Sequences

  /** The first cell of segment `i`; a product, spelled as repeated addition (see BaseIsProduct). */
  function Base(i: nat, cap: nat): (p: nat) {
    if i == 0 then 0 else Base(i - 1, cap) + cap
  }

  lemma {:induction false} BaseIsProduct(i: nat, cap: nat)
    ensures Base(i, cap) == i * cap
  {
    if i != 0 {
      BaseIsProduct(i - 1, cap);
      assert (i - 1) * cap + cap == i * cap;
    }
  }

  lemma {:induction false} BaseLe(i: nat, j: nat, cap: nat)
    requires i <= j
    ensures Base(i, cap) <= Base(j, cap)
  {
    if i < j {
      BaseLe(i, j - 1, cap);
    }
  }

  lemma {:induction false} BaseSum(i: nat, j: nat, cap: nat)
    ensures Base(i + j, cap) == Base(i, cap) + Base(j, cap)
  {
    if j != 0 {
      BaseSum(i, j - 1, cap);
      assert i + j - 1 == i + (j - 1);
    }
  }

  function Start(c: seq<nat>, cap: nat, i: nat): (p: int)
    requires i < |c|
  {
    if i % 2 == 0 then Base(i, cap) + cap - c[i] else Base(i, cap)
  }

  function End(c: seq<nat>, cap: nat, i: nat): (p: int)
    requires i < |c|
  {
    Start(c, cap, i) + c[i]
  }

  /** Every segment lies inside an array of `n` cells and holds no more than its capacity. */
  ghost predicate Fits(n: nat, c: seq<nat>, cap: nat) {
    forall i | 0 <= i < |c| :: c[i] <= cap && Base(i, cap) + cap <= n
  }

  lemma FitsAt(n: nat, c: seq<nat>, cap: nat, i: nat)
    requires Fits(n, c, cap) && i < |c|
    ensures c[i] <= cap && Base(i, cap) + cap <= n && Base(i + 1, cap) == Base(i, cap) + cap
  {
  }

  lemma FitsWhole(n: nat, c: seq<nat>, cap: nat)
    requires n == Base(|c|, cap)
    requires forall i | 0 <= i < |c| :: c[i] <= cap
    ensures Fits(n, c, cap)
  {
    forall i | 0 <= i < |c| ensures Base(i, cap) + cap <= n {
      BaseLe(i + 1, |c|, cap);
    }
  }

  ghost function Segment<T>(a: seq<T>, c: seq<nat>, cap: nat, i: nat): (s: seq<T>)
    requires i < |c| && Fits(|a|, c, cap)
    ensures |s| == c[i]
  {
    a[Start(c, cap, i)..End(c, cap, i)]
  }

  /** The elements of the segments [lo, hi), in order. */
  ghost function Read<T>(a: seq<T>, c: seq<nat>, cap: nat, lo: nat, hi: nat): (s: seq<T>)
    requires lo <= hi <= |c| && Fits(|a|, c, cap)
    ensures |s| == Sum(c, lo, hi)
    decreases hi
  {
    if lo == hi then [] else Read(a, c, cap, lo, hi - 1) + Segment(a, c, cap, hi - 1)
  }

  lemma {:induction false} ReadSplit<T>(a: seq<T>, c: seq<nat>, cap: nat, lo: nat, mid: nat, hi: nat)
    requires lo <= mid <= hi <= |c| && Fits(|a|, c, cap)
    ensures Read(a, c, cap, lo, hi) == Read(a, c, cap, lo, mid) + Read(a, c, cap, mid, hi)
    decreases hi
  {
    var l, r := Read(a, c, cap, lo, mid), Read(a, c, cap, mid, hi);
    if mid == hi {
      assert l + [] == l;
    } else {
      ReadSplit(a, c, cap, lo, mid, hi - 1);
      var s, r' := Segment(a, c, cap, hi - 1), Read(a, c, cap, mid, hi - 1);
      assert l + (r' + s) == (l + r') + s;
    }
  }

  /** Reading depends only on the cells and counts of the segments read. */
  lemma {:induction false} ReadFrame<T>(a: seq<T>, c: seq<nat>, b: seq<T>, d: seq<nat>, cap: nat, lo: nat, hi: nat)
    requires lo <= hi <= |c| && hi <= |d| && Fits(|a|, c, cap) && Fits(|b|, d, cap)
    requires forall i | lo <= i < hi :: c[i] == d[i]
    requires Base(hi, cap) <= |a| && Base(hi, cap) <= |b|
    requires forall p | Base(lo, cap) <= p < Base(hi, cap) :: a[p] == b[p]
    ensures Read(a, c, cap, lo, hi) == Read(b, d, cap, lo, hi)
    decreases hi
  {
    if lo < hi {
      var i := hi - 1;
      BaseLe(lo, i, cap);
      ReadFrame(a, c, b, d, cap, lo, i);
      assert c[i] == d[i];
      assert Segment(a, c, cap, i) == Segment(b, d, cap, i);
    }
  }

  lemma ReadOne<T>(a: seq<T>, c: seq<nat>, cap: nat, i: nat)
    requires i < |c| && Fits(|a|, c, cap)
    ensures Read(a, c, cap, i, i + 1) == Segment(a, c, cap, i)
    ensures Sum(c, i, i + 1) == c[i]
  {
    assert [] + Segment(a, c, cap, i) == Segment(a, c, cap, i);
  }

  lemma PairBounds(n: nat, c: seq<nat>, cap: nat, i: nat)
    requires i + 1 < |c| && i % 2 == 0 && Fits(n, c, cap)
    ensures Base(i, cap) <= Start(c, cap, i) <= End(c, cap, i + 1) <= Base(i + 2, cap) <= n
    ensures Start(c, cap, i) == Base(i + 1, cap) - c[i] && End(c, cap, i + 1) == Base(i + 1, cap) + c[i + 1]
    ensures Sum(c, i, i + 2) == c[i] + c[i + 1]
  {
    assert c[i] <= cap && c[i + 1] <= cap;
    assert Base(i + 2, cap) == Base(i + 1, cap) + cap;
    assert Sum(c, i, i + 1) == c[i];
  }

  /** An even segment and its odd neighbour are one contiguous run of cells. */
  lemma ReadPair<T>(a: seq<T>, c: seq<nat>, cap: nat, i: nat)
    requires i + 1 < |c| && i % 2 == 0 && Fits(|a|, c, cap)
    ensures Base(i, cap) <= Start(c, cap, i) <= End(c, cap, i + 1) <= Base(i + 2, cap) <= |a|
    ensures Read(a, c, cap, i, i + 2) == a[Start(c, cap, i)..End(c, cap, i + 1)]
  {
    PairBounds(|a|, c, cap, i);
    ReadOne(a, c, cap, i);
    Slices(a, Start(c, cap, i), Start(c, cap, i + 1), End(c, cap, i + 1));
  }

  lemma {:induction false} SumBounds(c: seq<nat>, cap: nat, lo: nat, hi: nat)
    requires lo <= hi <= |c|
    requires forall i | lo <= i < hi :: c[i] <= cap
    ensures Sum(c, lo, hi) <= Base(hi - lo, cap)
    ensures (forall i | lo <= i < hi :: 1 <= c[i]) ==> hi - lo <= Sum(c, lo, hi)
    decreases hi
  {
    if lo < hi {
      SumBounds(c, cap, lo, hi - 1);
    }
  }
}
