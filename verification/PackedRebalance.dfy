/** What spreading a window or growing the array does to BTreePMA_v2's array and to its index. */
module PackedRebalance {
  import opened Layout
  import opened LiveCells
  import opened PackedSegments
  import opened PackedClimb
  import opened PackedDeal
  import opened InPlaceSpread

  /** The first pointer that does not lie before the window, looking from `g0` forward or backward. */
  method FirstPointer(pointers: seq<nat>, g0: nat, w0: nat, last: nat) returns (g: nat, value: int)
    requires g0 < |pointers| && Rising(pointers)
    ensures g <= |pointers| && (forall k | 0 <= k < g :: pointers[k] < w0) && (forall k | g <= k < |pointers| :: w0 <= pointers[k])
    ensures (g < |pointers| && value == pointers[g]) || (value == -1 && (g < |pointers| ==> last < pointers[g]))
  {
    g, value := g0, -1;
    if pointers[g] < w0 {
      g := g + 1;
      while g < |pointers| && pointers[g] < w0
        invariant g0 < g <= |pointers| && pointers[g - 1] < w0
      {
        g := g + 1;
      }
      if g < |pointers| && pointers[g] <= last {
        value := pointers[g];
      }
    } else {
      var prev: int := g0;
      while 0 <= prev && w0 <= pointers[prev]
        invariant -1 <= prev < |pointers| && g < |pointers| && w0 <= pointers[g]
        invariant prev == g0 == g || (prev == g - 1)
      {
        g := prev;
        prev := prev - 1;
      }
      value := pointers[g];
    }
  }

  /** The cut at the start of a window tells pointers apart by rank. */
  lemma RanksAtCut(e: seq<Element>, ptrs: seq<nat>, r: seq<nat>, cut: nat)
    requires Points(e, ptrs, r) && cut <= |e|
    ensures |ptrs| == |r| && forall k | 0 <= k < |r| :: ptrs[k] < cut <==> r[k] < |Alive(e[..cut])|
  {
    hide Alive, Pointing;
    forall k | 0 <= k < |r| ensures ptrs[k] < cut <==> r[k] < |Alive(e[..cut])| {
      assert Pointing(e, ptrs[k], r[k]);
      PointingCut(e, ptrs[k], r[k], cut);
    }
  }

  /** Exchanging a window for cells with the same elements leaves the contents alone, and pointers that have
      followed lead to the elements they led to. */
  lemma Exchanged(e: seq<Element>, work: seq<Element>, w0: nat, w1: nat, ptrs: seq<nat>, r: seq<nat>, p: seq<nat>)
    requires w0 <= w1 <= |e| && |work| == w1 - w0 && Alive(work) == Alive(e[w0..w1]) && Points(e, ptrs, r)
    requires var r0 := |Alive(e[..w0])|; Retargeted(work, ptrs, r, p, w0, r0, |Alive(work)|)
    ensures var e' := e[..w0] + work + e[w1..];
            |e'| == |e| && Alive(e') == Alive(e) && Points(e', p, r) && |p| == |r|
  {
    var a, c := e[..w0], e[w1..];
    var e' := a + work + c;
    var r0 := |Alive(a)|;
    AliveSplit(e, w0, w1);
    AliveJoin(a + work, c);
    AliveJoin(a, work);
    forall g | 0 <= g < |r| ensures Pointing(e', p[g], r[g]) {
      assert Pointing(e, ptrs[g], r[g]);
      ExchangedPointer(e, work, w0, w1, ptrs[g], r[g], p[g]);
    }
  }

  lemma ExchangedPointer(e: seq<Element>, work: seq<Element>, w0: nat, w1: nat, p: nat, r: nat, p': nat)
    requires w0 <= w1 <= |e| && |work| == w1 - w0 && Alive(work) == Alive(e[w0..w1]) && Pointing(e, p, r)
    requires var r0 := |Alive(e[..w0])|; if r0 <= r < r0 + |Alive(work)| then w0 <= p' && Pointing(work, p' - w0, r - r0) else p' == p
    ensures Pointing(e[..w0] + work + e[w1..], p', r)
  {
    hide Alive, Pointing;
    var a, c := e[..w0], e[w1..];
    AliveSplit(e, w0, w1);
    PointingCut(e, p, r, w0);
    PointingCut(e, p, r, w1);
    if r < |Alive(a)| {
      PointingInto([], a, work + c, p, r);
      AliveNone();
      assert [] + a + (work + c) == a + work + c;
    } else if r < |Alive(a)| + |Alive(work)| {
      PointingInto(a, work, c, p' - w0, r - |Alive(a)|);
    } else {
      AliveJoin(a, work);
      PointingInto(a + work, c, [], p - w1, r - |Alive(e[..w1])|);
      assert a + work + c + [] == a + work + c;
    }
  }

  lemma AliveNone()
    ensures Alive([]) == []
  {
  }

  /** Evenly filled segments are packed, and have room when there are fewer elements than that. */
  lemma FilledPacked(d: seq<Element>, s: nat, n: nat, wl: nat, k: nat)
    requires 0 < wl && k < wl && Filled(d, s, n, wl, wl) && 1 <= s && wl <= n <= wl * (s - 1)
    ensures Packed(d, Base(k, s), s) && HasRoom(d, Base(k, s), s)
  {
  }

  /** A packed segment moved as a whole. */
  lemma PackedMoved(d: seq<Element>, b: nat, e: seq<Element>, b': nat, s: nat)
    requires Packed(d, b, s) && b + s <= |d| && b' + s <= |e| && (forall q | b' <= q < b' + s :: e[q] == d[q - b' + b])
    ensures Packed(e, b', s)
    ensures HasRoom(d, b, s) ==> HasRoom(e, b', s)
  {
  }

  /** After the spread every segment of the window is packed and has room; the others are as they were. */
  lemma SpreadSegments(e: seq<Element>, work: seq<Element>, s: nat, ns: nat, ws: nat, wl: nat, n: nat)
    requires Segmented(e, s, ns) && 0 < wl && ws + wl <= ns && |work| == Base(wl, s) && Filled(work, s, n, wl, wl) && wl <= n <= wl * (s - 1)
    requires forall k | 0 <= k < ns && !(ws <= k < ws + wl) :: HasRoom(e, Base(k, s), s)
    ensures Base(ws, s) <= Base(ws + wl, s) <= |e| && Base(ws + wl, s) == Base(ws, s) + |work|
    ensures var e' := e[..Base(ws, s)] + work + e[Base(ws + wl, s)..]; Segmented(e', s, ns) && Roomy(e', s, ns)
  {
    hide Base, Packed, HasRoom, Filled;
    BaseSum(ws, wl, s);
    BaseLe(ws, ws + wl, s);
    BaseLe(ws + wl, ns, s);
    var w0, w1 := Base(ws, s), Base(ws + wl, s);
    var e' := e[..w0] + work + e[w1..];
    forall k | 0 <= k < ns ensures Packed(e', Base(k, s), s) && HasRoom(e', Base(k, s), s) {
      SegmentAt(e, s, ns, k);
      if ws <= k < ws + wl {
        FilledPacked(work, s, n, wl, k - ws);
        PackedFits(work, Base(k - ws, s), s);
        BaseSum(ws, k - ws, s);
        PackedMoved(work, Base(k - ws, s), e', Base(k, s), s);
      } else {
        PackedFits(e, Base(k, s), s);
        if k < ws {
          BaseLe(k + 1, ws, s);
        } else {
          BaseLe(ws + wl, k, s);
        }
        PackedMoved(e, Base(k, s), e', Base(k, s), s);
      }
    }
  }

  lemma PackedFits(e: seq<Element>, b: nat, s: nat)
    requires Packed(e, b, s)
    ensures b + s <= |e| && Live(e[b])
  {
  }

  /** Every segment of a window holds at least one element. */
  lemma {:induction false} AtLeastOneEach(e: seq<Element>, s: nat, ns: nat, lo: nat, hi: nat)
    requires Segmented(e, s, ns) && lo <= hi <= ns
    ensures Base(lo, s) <= Base(hi, s) <= |e| && hi - lo <= Elements(e, s, lo, hi)
    decreases hi
  {
    hide Base, Packed, Alive, Elements, Segmented;
    SegmentedSize(e, s, ns);
    BaseLe(lo, hi, s);
    BaseLe(hi, ns, s);
    if lo < hi {
      AtLeastOneEach(e, s, ns, lo, hi - 1);
      ElementsJoin(e, s, lo, hi - 1, hi);
      OneInSegment(e, s, ns, hi - 1);
    }
  }

  lemma OneInSegment(e: seq<Element>, s: nat, ns: nat, i: nat)
    requires Segmented(e, s, ns) && i < ns
    ensures Base(i, s) <= Base(i + 1, s) <= |e| && 1 <= Elements(e, s, i, i + 1)
  {
    hide Base;
    SegmentAt(e, s, ns, i);
    var b := Base(i, s);
    assert e[b..b + s] == [e[b]] + e[b + 1..b + s];
    AliveJoin([e[b]], e[b + 1..b + s]);
    AliveOne(e[b]);
  }

  /** The first pointer into the window, or none. */
  method WindowPointer(elements: array<Element>, s: nat, ghost ns: nat, g0: nat, ghost n: nat, ws: nat, wl: nat, pointers: seq<nat>, ghost r: seq<nat>)
    returns (g: nat, value: int)
    requires Segmented(elements[..], s, ns) && 0 < wl && ws + wl <= ns && g0 < |pointers| == |r|
    requires Points(elements[..], pointers, r) && Rising(r)
    requires Base(ws, s) <= Base(ws + wl, s) <= elements.Length && n == Elements(elements[..], s, ws, ws + wl)
    ensures AtPointer(pointers, r, g, value, |Alive(elements[..][..Base(ws, s)])|, 0, n)
  {
    hide Base, Segmented, Packed, Alive, Points, Rising, HasRoom, Roomy, AtPointer, Pointing;
    ghost var e, w0, w1 := elements[..], Base(ws, s), Base(ws + wl, s);
    BaseIsProduct(ws, s);
    SegmentedSize(e, s, ns);
    SegmentAt(e, s, ns, ws + wl - 1);
    var m := SegmentCardinality(elements, s, ws + wl - 1);
    BaseIsProduct(ws + wl - 1, s);
    BaseLe(ws, ws + wl - 1, s);
    var last := (ws + wl - 1) * s + m - 1;
    PointersRise(e, pointers, r);
    g, value := FirstPointer(pointers, g0, ws * s, last);
    CursorAtWindow(e, pointers, r, g, value, w0, w1, last, n);
  }

  /** storage_spread: the window's elements, dealt out evenly over its segments, with the pointers following. */
  method Spread(elements: array<Element>, s: nat, ghost ns: nat, g0: nat, n: nat, ws: nat, wl: nat, pointers0: seq<nat>, ghost r: seq<nat>)
    returns (pointers: seq<nat>)
    requires Segmented(elements[..], s, ns) && 0 < wl && ws + wl <= ns && g0 < |pointers0| == |r|
    requires Points(elements[..], pointers0, r) && Rising(r)
    requires Base(ws, s) <= Base(ws + wl, s) <= elements.Length && n == Elements(elements[..], s, ws, ws + wl) <= wl * (s - 1)
    requires forall k | 0 <= k < ns && !(ws <= k < ws + wl) :: HasRoom(elements[..], Base(k, s), s)
    modifies elements
    ensures Alive(elements[..]) == Alive(old(elements[..])) && Points(elements[..], pointers, r) && |pointers| == |r|
    ensures Segmented(elements[..], s, ns) && Roomy(elements[..], s, ns)
    ensures elements[..Base(ws, s)] == old(elements[..Base(ws, s)]) && elements[Base(ws + wl, s)..] == old(elements[Base(ws + wl, s)..])
    ensures Filled(elements[Base(ws, s)..Base(ws + wl, s)], s, n, wl, wl)
  {
    hide Base, Segmented, Packed, Alive, Points, Rising, HasRoom, Roomy, AtPointer, Retargeted, Filled, Pointing;
    ghost var e, w0, w1 := elements[..], Base(ws, s), Base(ws + wl, s);
    ghost var r0 := |Alive(e[..w0])|;
    AtLeastOneEach(e, s, ns, ws, ws + wl);
    BaseIsProduct(ws, s);
    SegmentedSize(e, s, ns);
    var g, value := WindowPointer(elements, s, ns, g0, n, ws, wl, pointers0, r);
    SegmentAt(e, s, ns, ws);
    FirstOfWindow(e, w0, s);
    WindowFits(e, w0, w1, wl, s, n);
    var work;
    work, pointers := DealWindow(elements, s, n, wl, ws * s, ws * s, pointers0, g, value, r, r0);
    SpreadSegments(e, work[..], s, ns, ws, wl, n);
    Exchanged(e, work[..], w0, w1, pointers0, r, pointers);
    CopyBack(elements, ws * s, work);
    assert elements[..] == e[..w0] + work[..] + e[w1..];
    assert elements[w0..w1] == work[..];
  }

  lemma FirstOfWindow(e: seq<Element>, w0: nat, s: nat)
    requires Packed(e, w0, s)
    ensures Pointing(e, w0, |Alive(e[..w0])|)
  {
  }

  lemma WindowFits(e: seq<Element>, w0: nat, w1: nat, wl: nat, s: nat, n: nat)
    requires w0 <= w1 <= |e| && n == |Alive(e[w0..w1])| <= wl * (s - 1) && 1 <= s
    ensures n <= wl * s
    ensures var r0 := |Alive(e[..w0])|; r0 + n <= |Alive(e)| && Alive(e)[r0..r0 + n] == Alive(e[w0..w1])
  {
    AliveSplit(e, w0, w1);
    assert wl * s == wl * (s - 1) + wl;
  }

  /** The pointer the spread starts with is the first one into the window. */
  lemma CursorAtWindow(e: seq<Element>, ptrs: seq<nat>, r: seq<nat>, g: nat, value: int, w0: nat, w1: nat, last: nat, n: nat)
    requires Points(e, ptrs, r) && w0 <= w1 <= |e| && n == |Alive(e[w0..w1])| && w0 <= last < w1 && (forall p | last < p < w1 :: !Live(e[p]))
    requires g <= |ptrs| && (forall k | 0 <= k < g :: ptrs[k] < w0) && (forall k | g <= k < |ptrs| :: w0 <= ptrs[k])
    requires (g < |ptrs| && value == ptrs[g]) || (value == -1 && (g < |ptrs| ==> last < ptrs[g]))
    ensures AtPointer(ptrs, r, g, value, |Alive(e[..w0])|, 0, n)
  {
    hide Alive;
    RanksAtCut(e, ptrs, r, w0);
    RanksAtCut(e, ptrs, r, w1);
    AliveSplit(e, w0, w1);
    if g < |ptrs| && last < ptrs[g] {
      assert Pointing(e, ptrs[g], r[g]);
    }
  }

  /** Copy the workspace back. */
  method CopyBack(elements: array<Element>, w0: nat, work: array<Element>)
    requires elements != work && w0 + work.Length <= elements.Length
    modifies elements
    ensures elements[..] == old(elements[..w0]) + work[..] + old(elements[w0 + work.Length..])
  {
    var k := 0;
    while k < work.Length
      invariant 0 <= k <= work.Length
      invariant elements[..w0] == old(elements[..w0]) && elements[w0 + work.Length..] == old(elements[w0 + work.Length..])
      invariant elements[w0..w0 + k] == work[..k]
    {
      elements[w0 + k] := work[k];
      k := k + 1;
    }
  }

  /** storage_resize: all elements, dealt out evenly over the segments of a new array. */
  method Regrow(elements: array<Element>, s': nat, ns': nat, n: nat, pointers0: seq<nat>, ghost r: seq<nat>) returns (grown: array<Element>, pointers: seq<nat>)
    requires 1 <= s' && 1 <= ns' <= n <= ns' * (s' - 1) && n == |Alive(elements[..])| && 0 < |pointers0| == |r|
    requires elements.Length > 0 && Live(elements[0]) && Points(elements[..], pointers0, r) && Rising(r)
    ensures fresh(grown) && grown.Length == Base(ns', s')
    ensures Alive(grown[..]) == Alive(elements[..]) && Points(grown[..], pointers, r) && |pointers| == |r|
    ensures Segmented(grown[..], s', ns') && Roomy(grown[..], s', ns') && Filled(grown[..], s', n, ns', ns')
  {
    hide Alive, Points, Rising, Dealt, AtPointer, Pointing, Base, Given, Filled, Ends, Retargeted, Segmented, Roomy;
    ghost var e := elements[..];
    BaseIsProduct(ns', s');
    grown := new Element[ns' * s'](_ => EMPTY);
    var next, g, value := 0, 0, pointers0[0];
    pointers := pointers0;
    StartOfAll(e, pointers0, r, n);
    NothingDealt(e, grown[..0], pointers0, r, g, value, 0, 0, n);
    NoneFilled(grown[..], s', n, ns');
    GivenAll(n, ns');
    assert ns' * s' == ns' * (s' - 1) + ns';
    var i := 0;
    while i < ns'
      invariant 0 <= i <= ns' && Base(i, s') <= grown.Length && Filled(grown[..], s', n, ns', i)
      invariant forall p | Base(i, s') <= p < grown.Length :: !Live(grown[p])
      invariant Dealt(e, grown[..Base(i, s')], pointers0, r, pointers, g, value, 0, 0, Given(n, ns', i), n)
      invariant Given(n, ns', i) < n ==> Pointing(e, next, 0 + Given(n, ns', i))
    {
      BaseLe(i + 1, ns', s');
      BaseNext(i, s');
      BaseIsProduct(i, s');
      GivenNext(n, ns', i);
      GivenMonotone(n, ns', i + 1, ns');
      ShareBounds(n, ns', i, s');
      var share := Share(n, ns', i);
      ghost var w, b := grown[..], Base(i, s');
      next, pointers, g, value := DealSegment(elements, grown, next, i * s', share, 0, pointers, g, value, pointers0, r, 0, Given(n, ns', i), n);
      SegmentDealt(e, w, grown[..], pointers0, r, pointers, g, value, b, s', share, Given(n, ns', i + 1), n);
      FilledMore(w, grown[..], s', n, ns', i);
      i := i + 1;
    }
    assert grown[..Base(ns', s')] == grown[..];
    DealtAll(e, grown[..], pointers0, r, pointers, g, value, 0, 0, n);
    AllFollowed(e, grown[..], pointers0, r, pointers, n);
    FilledSegments(grown[..], s', n, ns');
  }

  lemma SegmentDealt(e: seq<Element>, w: seq<Element>, d: seq<Element>, was: seq<nat>, r: seq<nat>, p: seq<nat>, g: nat, value: int,
                     b: nat, s: nat, share: nat, t: nat, n: nat)
    requires 1 <= share <= s && b + s <= |w| == |d| && d[..b] == w[..b] && d[b + share..] == w[b + share..]
    requires (forall q | b <= q < |w| :: !Live(w[q])) && (forall q | b <= q < b + share :: Live(d[q]))
    requires Dealt(e, d[..b + share], was, r, p, g, value, 0, 0, t, n)
    ensures Dealt(e, d[..b + s], was, r, p, g, value, 0, 0, t, n) && Ends(d, b, s, share)
    ensures forall q | b + s <= q < |d| :: !Live(d[q])
  {
    hide Dealt;
    forall q | b + share <= q < |d| ensures !Live(d[q]) {
      assert d[b + share..][q - (b + share)] == w[b + share..][q - (b + share)];
    }
    DealtPad(e, d[..b + share], d[b + share..b + s], was, r, p, g, value, 0, 0, t, n);
    assert d[..b + s] == d[..b + share] + d[b + share..b + s];
  }

  lemma StartOfAll(e: seq<Element>, ptrs: seq<nat>, r: seq<nat>, n: nat)
    requires 0 < |ptrs| == |r| && 0 < |e| && Live(e[0])
    ensures AtPointer(ptrs, r, 0, ptrs[0], 0, 0, n) && Pointing(e, 0, 0)
  {
  }

  lemma AllFollowed(e: seq<Element>, d: seq<Element>, was: seq<nat>, r: seq<nat>, p: seq<nat>, n: nat)
    requires Points(e, was, r) && n == |Alive(e)| && Retargeted(d, was, r, p, 0, 0, n) && Alive(d) == Alive(e)[0..0 + n]
    ensures Alive(d) == Alive(e) && Points(d, p, r) && |p| == |r|
  {
    hide Alive;
    forall g | 0 <= g < |r| ensures Pointing(d, p[g], r[g]) {
      PointingAt(e, was[g], r[g]);
    }
  }

  lemma FilledSegments(d: seq<Element>, s: nat, n: nat, ns: nat)
    requires 1 <= ns && |d| == Base(ns, s) && Filled(d, s, n, ns, ns) && 1 <= s && ns <= n <= ns * (s - 1)
    ensures Segmented(d, s, ns) && Roomy(d, s, ns)
  {
    hide Base, Packed, HasRoom, Filled;
    forall k | 0 <= k < ns ensures Packed(d, Base(k, s), s) && HasRoom(d, Base(k, s), s) {
      FilledPacked(d, s, n, ns, k);
    }
  }
}
