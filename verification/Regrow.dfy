/** The copy of BTreePMA_v4::resize: the old segments, read front to back, are dealt out evenly
    over the segments of a larger array. */
module Regrow {
  import opened Sequences
  import opened Layout
  import opened InPlaceSpread

  /** The source side: `rest` elements of segment `seg` are still to be read, from cell `at` on. */
  datatype Source = Source(seg: nat, rest: nat, at: nat)

  /** The cursor stands before the element of rank `r` of the segments of `c`. */
  ghost predicate AtRank(s: Source, c: seq<nat>, cap: nat, r: nat) {
    if s.seg < |c| then
      && 0 < s.rest <= c[s.seg]
      && s.at + s.rest == End(c, cap, s.seg)
      && r + s.rest == Sum(c, 0, s.seg + 1)
    else s.seg == |c| && s.rest == 0 && r == Sum(c, 0, |c|)
  }

  ghost predicate NoneEmpty(c: seq<nat>) {
    forall i | 0 <= i < |c| :: 1 <= c[i]
  }

  /** The unread part of the current segment is the next stretch of the whole sequence. */
  lemma {:induction false} NextCells<T>(a: seq<T>, c: seq<nat>, cap: nat, s: Source, r: nat, n: nat)
    requires Fits(|a|, c, cap) && AtRank(s, c, cap, r) && s.seg < |c| && n <= s.rest
    ensures 0 <= s.at && s.at + n <= |a| && r + n <= Sum(c, 0, |c|)
    ensures a[s.at..s.at + n] == Read(a, c, cap, 0, |c|)[r..r + n]
  {
    hide Read, Sum, Fits, Base, Start, End;
    var i := s.seg;
    var all, l, m := Read(a, c, cap, 0, |c|), Read(a, c, cap, 0, i), Segment(a, c, cap, i);
    var k := c[i] - s.rest;
    SumSplit(c, 0, i, i + 1);
    SumSplit(c, 0, i + 1, |c|);
    ReadOne(a, c, cap, i);
    ReadSplit(a, c, cap, 0, i, i + 1);
    ReadSplit(a, c, cap, 0, i + 1, |c|);
    SegmentSlice(a, c, cap, i, k, n);
    assert all == (l + m) + Read(a, c, cap, i + 1, |c|);
    assert r == |l| + k;
    assert all[r..r + n] == m[k..k + n];
  }

  lemma SegmentSlice<T>(a: seq<T>, c: seq<nat>, cap: nat, i: nat, k: nat, n: nat)
    requires Fits(|a|, c, cap) && i < |c| && k + n <= c[i]
    ensures 0 <= Start(c, cap, i) && Start(c, cap, i) + k + n <= |a|
    ensures End(c, cap, i) == Start(c, cap, i) + c[i]
    ensures Segment(a, c, cap, i)[k..k + n] == a[Start(c, cap, i) + k..Start(c, cap, i) + k + n]
  {
    SubSlice(a, Start(c, cap, i), End(c, cap, i), k, n);
  }

  lemma SubSlice<T>(a: seq<T>, lo: nat, hi: nat, k: nat, n: nat)
    requires lo + k + n <= hi <= |a|
    ensures a[lo..hi][k..k + n] == a[lo + k..lo + k + n]
  {
    var x := a[lo..hi];
    var y, z := x[k..k + n], a[lo + k..lo + k + n];
    forall j | 0 <= j < n ensures y[j] == z[j] {
    }
  }

  /** Move past `n` elements; at the end of a segment go to the first element of the next one. */
  method Skip(cards: array<nat>, cap: nat, s: Source, n: nat, ghost r: nat) returns (t: Source)
    requires Fits(Base(cards.Length, cap), cards[..], cap) && NoneEmpty(cards[..])
    requires AtRank(s, cards[..], cap, r) && s.seg < cards.Length && n <= s.rest
    ensures AtRank(t, cards[..], cap, r + n)
  {
    hide Fits, Base;
    ghost var c := cards[..];
    t := Source(s.seg, s.rest - n, s.at + n);
    if t.rest == 0 {
      var i := s.seg + 1;
      if i < cards.Length {
        assert Sum(c, 0, i + 1) == Sum(c, 0, i) + c[i];
        StartNonNegative(Base(cards.Length, cap), c, cap, i);
        t := Source(i, cards[i], Start(cards[..], cap, i));
      } else {
        t := Source(i, 0, 0);
      }
    }
  }

  lemma StartNonNegative(n: nat, c: seq<nat>, cap: nat, i: nat)
    requires Fits(n, c, cap) && i < |c|
    ensures 0 <= Start(c, cap, i) && End(c, cap, i) == Start(c, cap, i) + c[i] <= n
  {
  }

  /** Copy the next `n` elements of both columns to the cells from `out` on. */
  method FillSegment(keys: array<int>, values: array<int>, cards: array<nat>, cap: nat,
                     toKeys: array<int>, toValues: array<int>, out0: nat, n: nat, s0: Source, ghost r0: nat)
    returns (s: Source)
    requires keys != toKeys && values != toValues && keys != toValues && values != toKeys && toKeys != toValues
    requires keys.Length == values.Length == Base(cards.Length, cap) && toKeys.Length == toValues.Length
    requires Fits(keys.Length, cards[..], cap) && NoneEmpty(cards[..])
    requires AtRank(s0, cards[..], cap, r0) && r0 + n <= Sum(cards[..], 0, cards.Length) && out0 + n <= toKeys.Length
    modifies toKeys, toValues
    ensures AtRank(s, cards[..], cap, r0 + n)
    ensures toKeys[..] == Splice(old(toKeys[..]), out0, Read(keys[..], cards[..], cap, 0, cards.Length)[r0..r0 + n])
    ensures toValues[..] == Splice(old(toValues[..]), out0, Read(values[..], cards[..], cap, 0, cards.Length)[r0..r0 + n])
  {
    hide Fits, Base, Sum, Read, Splice, Start, End, NoneEmpty;
    ghost var c, k0, v0 := cards[..], toKeys[..], toValues[..];
    ghost var ak, av := keys[..], values[..];
    ghost var tk, tv := Read(ak, c, cap, 0, |c|), Read(av, c, cap, 0, |c|);
    s := s0;
    var left, out := n, out0;
    ghost var r := r0;
    SpliceNothing(k0, out0);
    SpliceNothing(v0, out0);
    assert tk[r0..r0] == [] && tv[r0..r0] == [];
    while left > 0
      invariant 0 <= left <= n && out == out0 + (n - left) && r == r0 + (n - left)
      invariant AtRank(s, c, cap, r)
      invariant cards[..] == c && keys[..] == ak && values[..] == av
      invariant toKeys[..] == Splice(k0, out0, tk[r0..r]) && toValues[..] == Splice(v0, out0, tv[r0..r])
    {
      var m := if left <= s.rest then left else s.rest;
      NextCells(ak, c, cap, s, r, m);
      NextCells(av, c, cap, s, r, m);
      SpliceJoin(k0, out0, tk[r0..r], tk[r..r + m]);
      SpliceJoin(v0, out0, tv[r0..r], tv[r..r + m]);
      assert tk[r0..r] + tk[r..r + m] == tk[r0..r + m] && tv[r0..r] + tv[r..r + m] == tv[r0..r + m];
      assert keys[s.at..s.at + m] == ak[s.at..s.at + m] && values[s.at..s.at + m] == av[s.at..s.at + m];
      MoveColumns(keys, values, s.at, m, toKeys, toValues, out);
      s := Skip(cards, cap, s, m, r);
      r := r + m;
      out := out + m;
      left := left - m;
    }
  }

  /** One more segment written: what is there reads back as a longer prefix. */
  lemma SegmentExtends(a: seq<int>, c: seq<nat>, cap: nat, i: nat, t: seq<int>)
    requires Fits(|a|, c, cap) && i < |c| && Sum(c, 0, i + 1) <= |t|
    requires Read(a, c, cap, 0, i) == t[..Sum(c, 0, i)]
    ensures 0 <= Start(c, cap, i) && Start(c, cap, i) + c[i] <= |a|
    ensures var b := Splice(a, Start(c, cap, i), t[Sum(c, 0, i)..Sum(c, 0, i + 1)]);
            Read(b, c, cap, 0, i + 1) == t[..Sum(c, 0, i + 1)]
  {
    hide Fits, Base, Read;
    var r, r' := Sum(c, 0, i), Sum(c, 0, i + 1);
    var st := Start(c, cap, i);
    SegmentBounds(|a|, c, cap, i);
    var b := Splice(a, st, t[r..r']);
    SpliceAt(a, st, t[r..r']);
    ReadFrame(a, c, b, c, cap, 0, i);
    ReadSplit(b, c, cap, 0, i, i + 1);
    ReadOne(b, c, cap, i);
  }

  lemma SegmentBounds(n: nat, c: seq<nat>, cap: nat, i: nat)
    requires Fits(n, c, cap) && i < |c|
    ensures Base(i, cap) <= Start(c, cap, i) && End(c, cap, i) == Start(c, cap, i) + c[i] <= Base(i + 1, cap) <= n
  {
  }

  /** The old elements, all of them and in order, dealt out over the new segments. */
  method Redeal(keys: array<int>, values: array<int>, cards: array<nat>, cap: nat,
                toKeys: array<int>, toValues: array<int>, toCards: array<nat>, toCap: nat, total: nat)
    requires keys != toKeys && values != toValues && keys != toValues && values != toKeys && toKeys != toValues && cards != toCards
    requires keys.Length == values.Length == Base(cards.Length, cap)
    requires toKeys.Length == toValues.Length == Base(toCards.Length, toCap)
    requires 0 < cards.Length && 0 < toCards.Length
    requires Fits(keys.Length, cards[..], cap) && NoneEmpty(cards[..])
    requires total == Sum(cards[..], 0, cards.Length) <= Base(toCards.Length, toCap)
    modifies toKeys, toValues, toCards
    ensures forall i | 0 <= i < toCards.Length :: toCards[i] == Share(total, toCards.Length, i)
    ensures Fits(toKeys.Length, toCards[..], toCap)
    ensures Read(toKeys[..], toCards[..], toCap, 0, toCards.Length) == Read(keys[..], cards[..], cap, 0, cards.Length)
    ensures Read(toValues[..], toCards[..], toCap, 0, toCards.Length) == Read(values[..], cards[..], cap, 0, cards.Length)
  {
    hide Fits, Base, Sum, Read, Splice, Start, End, Share, AtRank;
    ghost var c := cards[..];
    ghost var tk, tv := Read(keys[..], c, cap, 0, |c|), Read(values[..], c, cap, 0, |c|);
    var n := toCards.Length;
    SetCardinalities(toCards, 0, n, total);
    ghost var d := toCards[..];
    DealtOut(d, toCap, toKeys.Length, total);
    var s := FirstSource(cards, cap);
    var j := 0;
    ReadNothing(toKeys[..], d, toCap, 0);
    ReadNothing(toValues[..], d, toCap, 0);
    while j < n
      invariant 0 <= j <= n && cards[..] == c && toCards[..] == d
      invariant AtRank(s, c, cap, Sum(d, 0, j)) && Sum(d, 0, j) <= total
      invariant Read(toKeys[..], d, toCap, 0, j) == tk[..Sum(d, 0, j)]
      invariant Read(toValues[..], d, toCap, 0, j) == tv[..Sum(d, 0, j)]
    {
      ghost var k0, v0 := toKeys[..], toValues[..];
      SumSplit(d, 0, j + 1, n);
      SumSplit(d, 0, j, j + 1);
      ReadOne(k0, d, toCap, j);
      SegmentExtends(k0, d, toCap, j, tk);
      SegmentExtends(v0, d, toCap, j, tv);
      s := FillSegment(keys, values, cards, cap, toKeys, toValues, Start(toCards[..], toCap, j), toCards[j], s, Sum(d, 0, j));
      j := j + 1;
    }
    assert tk[..total] == tk && tv[..total] == tv;
  }

  method FirstSource(cards: array<nat>, cap: nat) returns (s: Source)
    requires 0 < cards.Length && Fits(Base(cards.Length, cap), cards[..], cap) && NoneEmpty(cards[..])
    ensures AtRank(s, cards[..], cap, 0)
  {
    StartNonNegative(Base(cards.Length, cap), cards[..], cap, 0);
    s := Source(0, cards[0], Start(cards[..], cap, 0));
    assert Sum(cards[..], 0, 1) == cards[..][0];
  }

  lemma DealtOut(d: seq<nat>, cap: nat, n: nat, total: nat)
    requires 0 < |d| && n == Base(|d|, cap) && total <= n
    requires forall k | 0 <= k < |d| :: d[0 + k] == Share(total, |d|, k)
    ensures Fits(n, d, cap) && Sum(d, 0, |d|) == total
  {
    hide Base, Share, Sum;
    Shares(d, 0, total, |d|, cap);
    FitsWhole(n, d, cap);
  }
}
