/** BTreePMA_v4::insert_common: one more pair in a segment that has room, shifting towards the
    free end of the segment, and what that means for the whole sequence. */
module SegmentInsert {
  import opened Sequences
  import opened Layout
  import opened InPlaceSpread

  /** Room is at the left of an even segment: the smaller keys move one cell down. The segment's
      elements are the `sz` cells before `end`. */
  method ShiftDown(keys: array<int>, end: nat, sz: nat, key: int, ghost run: seq<int>) returns (i: nat)
    requires sz + 1 <= end <= keys.Length && run == keys[..][end - sz..end]
    modifies keys
    ensures i == end - sz - 1 + FirstGeq(run, key)
    ensures keys[..] == Splice(old(keys[..]), end - sz - 1, InsertAt(run, FirstGeq(run, key), key))
  {
    hide Splice, FirstGeq, InsertAt;
    var start, stop := end - sz - 1, end - 1;
    i := start;
    assert forall p | 0 <= p < sz :: old(keys[start + 1 + p]) == run[p];
    while i < stop && keys[i + 1] < key
      invariant start <= i <= stop
      invariant forall p | 0 <= p < i - start :: keys[start + p] == run[p] && run[p] < key
      invariant forall p | 0 <= p < keys.Length && !(start <= p < i) :: keys[p] == old(keys[p])
    {
      keys[i] := keys[i + 1];
      i := i + 1;
    }
    FirstGeqAt(run, key, i - start);
    keys[i] := key;
    Shifted(old(keys[..]), keys[..], start, run, i - start, key);
  }

  lemma Shifted(a: seq<int>, b: seq<int>, start: nat, run: seq<int>, q: nat, x: int)
    requires |a| == |b| && q <= |run| && start + |run| + 1 <= |a|
    requires forall p | 0 <= p < q :: b[start + p] == run[p]
    requires b[start + q] == x
    requires forall p | q <= p < |run| :: b[start + 1 + p] == run[p]
    requires forall p | 0 <= p < |a| && !(start <= p < start + |run| + 1) :: b[p] == a[p]
    ensures b == Splice(a, start, InsertAt(run, q, x))
  {
    var w := InsertAt(run, q, x);
    forall p | 0 <= p < |w| ensures b[start + p] == w[p] {
      if q < p {
        assert b[start + 1 + (p - 1)] == run[p - 1];
      }
    }
    forall p | 0 <= p < |a| ensures b[p] == Splice(a, start, w)[p] {
      if start <= p < start + |w| {
        assert b[start + (p - start)] == w[p - start];
      }
    }
  }

  method ShiftValuesDown(values: array<int>, start: nat, i: nat, sz: nat, value: int, ghost run: seq<int>)
    requires start <= i <= start + sz && start + sz + 1 <= values.Length && run == values[..][start + 1..start + sz + 1]
    modifies values
    ensures values[..] == Splice(old(values[..]), start, InsertAt(run, i - start, value))
  {
    var j := start;
    while j < i
      invariant start <= j <= i
      invariant forall p | 0 <= p < j - start :: values[start + p] == run[p]
      invariant forall p | 0 <= p < values.Length && !(start <= p < j) :: values[p] == old(values[p])
    {
      values[j] := values[j + 1];
      j := j + 1;
    }
    values[i] := value;
    Shifted(old(values[..]), values[..], start, run, i - start, value);
  }

  ghost predicate NonDescending(s: seq<int>) {
    forall i, j | 0 <= i < j < |s| :: s[i] <= s[j]
  }

  /** The place of a key in a segment: before equal keys in an even one, behind them in an odd one. */
  function Place(run: seq<int>, key: int, even: bool): (q: nat) {
    FirstGeq(run, if even then key else key + 1)
  }

  /** Either place is a sorted one, and without an equal key there is only one. */
  lemma PlaceSorted(run: seq<int>, key: int, even: bool)
    requires NonDescending(run)
    ensures Place(run, key, even) <= |run| && NonDescending(InsertAt(run, Place(run, key, even), key))
    ensures key !in run ==> Place(run, key, even) == FirstGeq(run, key)
  {
    var q := Place(run, key, even);
    var r := InsertAt(run, q, key);
    forall i, j | 0 <= i < j < |r| ensures r[i] <= r[j] {
      assert r[i] == if i < q then run[i] else if i == q then key else run[i - 1];
      assert r[j] == if j < q then run[j] else if j == q then key else run[j - 1];
    }
    if key !in run {
      forall i | 0 <= i < q ensures run[i] < key {
        assert run[i] in run;
      }
      FirstGeqAt(run, key, q);
    }
  }

  lemma BehindAll(run: seq<int>, key: int, i: nat)
    requires NonDescending(run) && i <= |run| && (0 < i ==> run[i - 1] <= key) && forall p | i <= p < |run| :: key < run[p]
    ensures FirstGeq(run, key + 1) == i
  {
    FirstGeqAt(run, key + 1, i);
  }

  /** Strictly ascending keys do not descend, and a new one among them has only one place. */
  lemma OnePlace(run: seq<int>, key: int, even: bool)
    requires Ascending(run) && key !in run
    ensures NonDescending(run) && Place(run, key, even) == FirstGeq(run, key)
  {
    PlaceSorted(run, key, even);
  }

  /** Room is at the right of an odd segment: the larger keys move one cell up. */
  method ShiftUp(keys: array<int>, lo: nat, sz: nat, key: int, ghost run: seq<int>) returns (i: nat)
    requires lo + sz + 1 <= keys.Length && run == keys[..][lo..lo + sz]
    requires NonDescending(run)
    modifies keys
    ensures i == FirstGeq(run, key + 1)
    ensures keys[..] == Splice(old(keys[..]), lo, InsertAt(run, FirstGeq(run, key + 1), key))
  {
    hide NonDescending, Splice, FirstGeq, InsertAt;
    i := sz;
    while i > 0 && keys[lo + i - 1] > key
      invariant 0 <= i <= sz
      invariant forall p | i <= p < sz :: keys[lo + 1 + p] == run[p] && key < run[p]
      invariant forall p | 0 <= p < keys.Length && !(lo + i < p <= lo + sz) :: keys[p] == old(keys[p])
    {
      keys[lo + i] := keys[lo + i - 1];
      i := i - 1;
    }
    assert 0 < i ==> run[i - 1] == keys[lo + i - 1];
    BehindAll(run, key, i);
    keys[lo + i] := key;
    Shifted(old(keys[..]), keys[..], lo, run, i, key);
  }

  method ShiftValuesUp(values: array<int>, lo: nat, i: nat, sz: nat, value: int, ghost run: seq<int>)
    requires i <= sz && lo + sz + 1 <= values.Length && run == values[..][lo..lo + sz]
    modifies values
    ensures values[..] == Splice(old(values[..]), lo, InsertAt(run, i, value))
  {
    var j := sz;
    while j > i
      invariant i <= j <= sz
      invariant forall p | j <= p < sz :: values[lo + 1 + p] == run[p]
      invariant forall p | 0 <= p < values.Length && !(lo + j < p <= lo + sz) :: values[p] == old(values[p])
    {
      values[lo + j] := values[lo + j - 1];
      j := j - 1;
    }
    values[lo + i] := value;
    Shifted(old(values[..]), values[..], lo, run, i, value);
  }

  /** The array with `x` added at offset `q` of segment `s`: one more element, next to the free end. */
  ghost function Grown<T>(a: seq<T>, c: seq<nat>, cap: nat, s: nat, q: nat, x: T): (b: seq<T>)
    requires Fits(|a|, c, cap) && s < |c| && c[s] < cap && q <= c[s]
    ensures |b| == |a|
  {
    RoomBounds(|a|, c, cap, s);
    Splice(a, Start(c[s := c[s] + 1], cap, s), InsertAt(Segment(a, c, cap, s), q, x))
  }

  lemma RoomBounds(n: nat, c: seq<nat>, cap: nat, s: nat)
    requires Fits(n, c, cap) && s < |c| && c[s] < cap
    ensures Fits(n, c[s := c[s] + 1], cap)
    ensures Base(s, cap) <= Start(c[s := c[s] + 1], cap, s)
    ensures Start(c[s := c[s] + 1], cap, s) + c[s] + 1 <= Base(s + 1, cap) <= n
    ensures s % 2 == 0 ==> Start(c[s := c[s] + 1], cap, s) == Base(s, cap) + cap - c[s] - 1
    ensures s % 2 == 1 ==> Start(c[s := c[s] + 1], cap, s) == Base(s, cap)
  {
    FitsAt(n, c, cap, s);
    forall i | 0 <= i < |c| ensures c[s := c[s] + 1][i] <= cap && Base(i, cap) + cap <= n {
      FitsAt(n, c, cap, i);
    }
  }

  /** insert_common on a segment with room, whether it holds the key already or not. `q` is the new pair's offset;
      it is reported as the new minimum exactly when `q` is 0. */
  method InsertCommon(keys: array<int>, values: array<int>, cards: array<nat>, cap: nat, s: nat, key: int, value: int)
    returns (minimum: bool)
    requires keys != values && keys.Length == values.Length
    requires Fits(keys.Length, cards[..], cap) && s < cards.Length && cards[s] < cap
    requires NonDescending(Segment(keys[..], cards[..], cap, s))
    modifies keys, values, cards
    ensures var q := Place(old(Segment(keys[..], cards[..], cap, s)), key, s % 2 == 0);
            && minimum == (q == 0)
            && cards[..] == old(cards[..][s := cards[s] + 1])
            && keys[..] == Grown(old(keys[..]), old(cards[..]), cap, s, q, key)
            && values[..] == Grown(old(values[..]), old(cards[..]), cap, s, q, value)
  {
    hide Fits, NonDescending, FirstGeq, Splice;
    ghost var c, run, vals := cards[..], Segment(keys[..], cards[..], cap, s), Segment(values[..], cards[..], cap, s);
    var sz := cards[s];
    RoomBounds(keys.Length, c, cap, s);
    FitsAt(keys.Length, c, cap, s);
    var lo := Base(s, cap);
    if s % 2 == 0 {
      var i := ShiftDown(keys, lo + cap, sz, key, run);
      ShiftValuesDown(values, lo + cap - sz - 1, i, sz, value, vals);
      minimum := i == lo + cap - sz - 1;
    } else {
      var i := ShiftUp(keys, lo, sz, key, run);
      ShiftValuesUp(values, lo, i, sz, value, vals);
      minimum := i == 0;
    }
    cards[s] := cards[s] + 1;
  }

  /** One more element in one segment is one more element in the whole sequence, at the place given
      by the segments before it. */
  lemma GrownReads<T>(a: seq<T>, c: seq<nat>, cap: nat, s: nat, q: nat, x: T)
    requires Fits(|a|, c, cap) && s < |c| && c[s] < cap && q <= c[s] && |a| == Base(|c|, cap)
    ensures Fits(|a|, c[s := c[s] + 1], cap)
    ensures Sum(c, 0, s) + q <= Sum(c, 0, |c|)
    ensures Read(Grown(a, c, cap, s, q, x), c[s := c[s] + 1], cap, 0, |c|)
            == InsertAt(Read(a, c, cap, 0, |c|), Sum(c, 0, s) + q, x)
  {
    hide Fits, Read, Sum, Start, Base, End, InsertAt, Grown, Segment;
    var d, n := c[s := c[s] + 1], |c|;
    var b := Grown(a, c, cap, s, q, x);
    var l, m, r := Read(a, c, cap, 0, s), Segment(a, c, cap, s), Read(a, c, cap, s + 1, n);
    RoomBounds(|a|, c, cap, s);
    SumSplit(c, 0, s, s + 1);
    SumSplit(c, 0, s + 1, n);
    ReadSplit(a, c, cap, 0, s + 1, n);
    ReadSplit(a, c, cap, 0, s, s + 1);
    ReadOne(a, c, cap, s);
    ReadSplit(b, d, cap, 0, s + 1, n);
    ReadSplit(b, d, cap, 0, s, s + 1);
    ReadOne(b, d, cap, s);
    GrownSegment(a, c, cap, s, q, x);
    GrownAround(a, c, cap, s, q, x);
    InsertLeft(l + m, r, Sum(c, 0, s) + q, x);
    InsertRight(l, m, q, x);
  }

  lemma GrownSegment<T>(a: seq<T>, c: seq<nat>, cap: nat, s: nat, q: nat, x: T)
    requires Fits(|a|, c, cap) && s < |c| && c[s] < cap && q <= c[s]
    ensures Fits(|a|, c[s := c[s] + 1], cap)
    ensures Segment(Grown(a, c, cap, s, q, x), c[s := c[s] + 1], cap, s) == InsertAt(Segment(a, c, cap, s), q, x)
  {
    hide Fits, Base, Splice;
    RoomBounds(|a|, c, cap, s);
    SpliceAt(a, Start(c[s := c[s] + 1], cap, s), InsertAt(Segment(a, c, cap, s), q, x));
  }

  lemma GrownAround<T>(a: seq<T>, c: seq<nat>, cap: nat, s: nat, q: nat, x: T)
    requires Fits(|a|, c, cap) && s < |c| && c[s] < cap && q <= c[s] && |a| == Base(|c|, cap)
    ensures Fits(|a|, c[s := c[s] + 1], cap)
    ensures var b, d := Grown(a, c, cap, s, q, x), c[s := c[s] + 1];
            && Read(b, d, cap, 0, s) == Read(a, c, cap, 0, s)
            && Read(b, d, cap, s + 1, |c|) == Read(a, c, cap, s + 1, |c|)
  {
    hide Fits, Read, Base;
    var b, d, w := Grown(a, c, cap, s, q, x), c[s := c[s] + 1], InsertAt(Segment(a, c, cap, s), q, x);
    RoomBounds(|a|, c, cap, s);
    SpliceOutside(a, Start(d, cap, s), w, Base(s, cap), Base(s + 1, cap));
    BaseLe(s + 1, |c|, cap);
    ReadFrame(b, d, a, c, cap, 0, s);
    ReadFrame(b, d, a, c, cap, s + 1, |c|);
  }

  lemma SpliceOutside<T>(a: seq<T>, d: nat, w: seq<T>, lo: nat, hi: nat)
    requires d + |w| <= |a| && lo <= d && d + |w| <= hi
    ensures forall p | 0 <= p < lo || hi <= p < |a| :: Splice(a, d, w)[p] == a[p]
  {
  }
}
