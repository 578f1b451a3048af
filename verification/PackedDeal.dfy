/** BTreePMA_v2::storage_spread and storage_resize: elements are copied out to evenly filled segments, and the
    index pointers follow them on the way. */
module PackedDeal {
  import opened Layout
  import opened LiveCells
  import opened PackedSegments
  import opened InPlaceSpread

  /** Pointers to the first `t` copied elements lead into the copy, all others are as they were. */
  ghost predicate Retargeted(d: seq<Element>, was: seq<nat>, r: seq<nat>, p: seq<nat>, w0: nat, r0: nat, t: nat) {
    && |p| == |was| == |r|
    && forall g | 0 <= g < |r| :: if r0 <= r[g] < r0 + t then w0 <= p[g] && Pointing(d, p[g] - w0, r[g] - r0) else p[g] == was[g]
  }

  /** `g` is the first pointer to an element not yet copied; `value` its old position, or a stale one. */
  ghost predicate AtPointer(was: seq<nat>, r: seq<nat>, g: nat, value: int, r0: nat, t: nat, all: nat) {
    && g <= |was| == |r|
    && (forall k | 0 <= k < g :: r[k] < r0 + t) && (forall k | g <= k < |r| :: r0 + t <= r[k])
    && (|| (g < |r| && value == was[g])
        || (value == -1 && (g < |r| ==> r0 + all <= r[g]))
        || (g == |r| && 0 < g && value == was[g - 1]))
  }

  /** `t` of the `all` elements from rank `r0` on have been copied, and their pointers follow. */
  ghost predicate Dealt(e: seq<Element>, d: seq<Element>, was: seq<nat>, r: seq<nat>, p: seq<nat>, g: nat, value: int,
                        w0: nat, r0: nat, t: nat, all: nat) {
    && t <= all && r0 + all <= |Alive(e)| && Alive(d) == Alive(e)[r0..r0 + t]
    && Retargeted(d, was, r, p, w0, r0, t) && AtPointer(was, r, g, value, r0, t, all)
  }

  lemma PointingLonger(d: seq<Element>, w: seq<Element>, p: nat, r: nat)
    requires Pointing(d, p, r)
    ensures Pointing(d + w, p, r)
  {
    hide Alive;
    assert (d + w)[..p] == d[..p];
  }

  /** Cells that stay empty change nothing. */
  lemma DealtPad(e: seq<Element>, d: seq<Element>, w: seq<Element>, was: seq<nat>, r: seq<nat>, p: seq<nat>, g: nat, value: int,
                 w0: nat, r0: nat, t: nat, all: nat)
    requires Dealt(e, d, was, r, p, g, value, w0, r0, t, all) && forall q | 0 <= q < |w| :: !Live(w[q])
    ensures Dealt(e, d + w, was, r, p, g, value, w0, r0, t, all)
  {
    hide Alive, AtPointer, Pointing;
    AliveJoin(d, w);
    NoneAlive(w);
    forall k | 0 <= k < |r| && r0 <= r[k] < r0 + t ensures Pointing(d + w, p[k] - w0, r[k] - r0) {
      assert w0 <= p[k];
      PointingLonger(d, w, p[k] - w0, r[k] - r0);
    }
  }

  /** The test for the pointer of an element finds exactly the pointer with its rank. */
  lemma CursorHits(e: seq<Element>, was: seq<nat>, r: seq<nat>, g: nat, value: int, r0: nat, t: nat, all: nat, next: nat)
    requires Points(e, was, r) && Rising(r) && AtPointer(was, r, g, value, r0, t, all) && t < all && Pointing(e, next, r0 + t)
    ensures value == next <==> g < |r| && r[g] == r0 + t
  {
    hide Alive, Pointing;
    if g < |r| {
      assert Pointing(e, was[g], r[g]);
      PointingOrder(e, was[g], r[g], next, r0 + t);
    }
    if 0 < g {
      assert Pointing(e, was[g - 1], r[g - 1]);
      PointingOrder(e, was[g - 1], r[g - 1], next, r0 + t);
    }
  }

  lemma CursorNext(was: seq<nat>, r: seq<nat>, g: nat, value: int, r0: nat, t: nat, all: nat, hit: bool)
    requires Rising(r) && AtPointer(was, r, g, value, r0, t, all) && t < all && (hit <==> g < |r| && r[g] == r0 + t)
    ensures !hit ==> AtPointer(was, r, g, value, r0, t + 1, all)
    ensures hit ==> AtPointer(was, r, g + 1, if g + 1 < |was| then was[g + 1] else was[g], r0, t + 1, all)
  {
  }

  /** One more element copied. */
  lemma DealtMore(e: seq<Element>, d: seq<Element>, was: seq<nat>, r: seq<nat>, p: seq<nat>, g: nat, value: int,
                  w0: nat, r0: nat, t: nat, all: nat, next: nat)
    requires Points(e, was, r) && Rising(r) && Dealt(e, d, was, r, p, g, value, w0, r0, t, all) && t < all && Pointing(e, next, r0 + t)
    ensures |p| == |r| && (value == next <==> g < |r| && r[g] == r0 + t)
    ensures value != next ==> Dealt(e, d + [e[next]], was, r, p, g, value, w0, r0, t + 1, all)
    ensures value == next ==> var p' := p[g := w0 + |d|];
                              (g + 1 < |p'| ==> p'[g + 1] == was[g + 1])
                              && Dealt(e, d + [e[next]], was, r, p', g + 1, if g + 1 < |p'| then p'[g + 1] else value, w0, r0, t + 1, all)
  {
    var x := e[next];
    hide Alive, Pointing, AtPointer, Retargeted, Points, Rising;
    CursorHits(e, was, r, g, value, r0, t, all, next);
    CursorNext(was, r, g, value, r0, t, all, value == next);
    AliveNext(e, d, r0, t, next);
    CursorRange(was, r, g, value, r0, t, all);
    RetargetedMore(d, x, was, r, p, g, w0, r0, t, value == next);
    if value == next {
      CursorValue(was, r, g, value, r0, t, all);
    }
  }

  lemma RetargetedMore(d: seq<Element>, x: Element, was: seq<nat>, r: seq<nat>, p: seq<nat>, g: nat, w0: nat, r0: nat, t: nat, hit: bool)
    requires Retargeted(d, was, r, p, w0, r0, t) && Rising(r) && Pointing(d + [x], |d|, t)
    requires g <= |r| && (forall k | 0 <= k < g :: r[k] < r0 + t) && (forall k | g <= k < |r| :: r0 + t <= r[k])
    requires hit <==> g < |r| && r[g] == r0 + t
    ensures |p| == |r| == |was|
    ensures Retargeted(d + [x], was, r, if hit then p[g := w0 + |d|] else p, w0, r0, t + 1)
    ensures hit && g + 1 < |p| ==> p[g + 1] == was[g + 1]
  {
    hide Alive, Pointing;
    var p' := if hit then p[g := w0 + |d|] else p;
    forall k | 0 <= k < |r|
      ensures if r0 <= r[k] < r0 + t + 1 then w0 <= p'[k] && Pointing(d + [x], p'[k] - w0, r[k] - r0) else p'[k] == was[k]
    {
      if r0 <= r[k] < r0 + t {
        PointingLonger(d, [x], p[k] - w0, r[k] - r0);
      } else if r[k] == r0 + t {
        assert g <= k;
      }
    }
  }

  lemma CursorRange(was: seq<nat>, r: seq<nat>, g: nat, value: int, r0: nat, t: nat, all: nat)
    requires AtPointer(was, r, g, value, r0, t, all)
    ensures g <= |r| == |was|
    ensures forall k | 0 <= k < g :: r[k] < r0 + t
    ensures forall k | g <= k < |r| :: r0 + t <= r[k]
  {
  }

  lemma CursorValue(was: seq<nat>, r: seq<nat>, g: nat, value: int, r0: nat, t: nat, all: nat)
    requires AtPointer(was, r, g, value, r0, t, all) && g < |r| && r[g] == r0 + t && t < all
    ensures value == was[g]
  {
  }

  lemma AliveNext(e: seq<Element>, d: seq<Element>, r0: nat, t: nat, next: nat)
    requires Pointing(e, next, r0 + t) && r0 + t <= |Alive(e)| && Alive(d) == Alive(e)[r0..r0 + t]
    ensures r0 + t + 1 <= |Alive(e)| && Alive(d + [e[next]]) == Alive(e)[r0..r0 + t + 1]
    ensures Pointing(d + [e[next]], |d|, t)
  {
    hide Alive;
    PointingAt(e, next, r0 + t);
    AliveJoin(d, [e[next]]);
    AliveOne(e[next]);
    SliceNext(Alive(e), r0, r0 + t);
    assert (d + [e[next]])[..|d|] == d;
  }

  lemma SliceNext<T>(a: seq<T>, i: nat, j: nat)
    requires i <= j < |a|
    ensures a[i..j] + [a[j]] == a[i..j + 1]
  {
  }

  /** Copy the next `n` elements to the cells from `out` on. */
  method DealSegment(src: array<Element>, dst: array<Element>, next0: nat, out: nat, n: nat, w0: nat, pointers0: seq<nat>, g0: nat, value0: int,
                     ghost ptrs: seq<nat>, ghost r: seq<nat>, ghost r0: nat, ghost t0: nat, ghost all: nat)
    returns (next: nat, pointers: seq<nat>, g: nat, value: int)
    requires src != dst && out + n <= dst.Length && t0 + n <= all && Points(src[..], ptrs, r) && Rising(r)
    requires Dealt(src[..], dst[..out], ptrs, r, pointers0, g0, value0, w0, r0, t0, all)
    requires t0 < all ==> Pointing(src[..], next0, r0 + t0)
    modifies dst
    ensures Dealt(src[..], dst[..out + n], ptrs, r, pointers, g, value, w0, r0, t0 + n, all)
    ensures t0 + n < all ==> Pointing(src[..], next, r0 + t0 + n)
    ensures dst[..out] == old(dst[..out]) && dst[out + n..] == old(dst[out + n..]) && forall p | out <= p < out + n :: Live(dst[p])
  {
    hide Alive, Points, Rising, Dealt;
    ghost var e := src[..];
    next, pointers, g, value := next0, pointers0, g0, value0;
    var j := 0;
    while j < n
      invariant 0 <= j <= n && Dealt(e, dst[..out + j], ptrs, r, pointers, g, value, w0, r0, t0 + j, all)
      invariant t0 + j < all ==> Pointing(e, next, r0 + t0 + j)
      invariant dst[..out] == old(dst[..out]) && dst[out + n..] == old(dst[out + n..]) && forall p | out <= p < out + j :: Live(dst[p])
    {
      ghost var d := dst[..out + j];
      DealtMore(e, d, ptrs, r, pointers, g, value, w0, r0, t0 + j, all, next);
      DealtCursor(e, d, ptrs, r, pointers, g, value, w0, r0, t0 + j, all);
      dst[out + j] := src[next];
      assert dst[..out + j + 1] == d + [e[next]];
      if value == next {
        pointers := pointers[g := w0 + (out + j)];
        g := g + 1;
        if g < |pointers| {
          value := pointers[g];
        }
      }
      ghost var at := next;
      next := NextLive(src, next);
      MoreToCopy(e, at, r0 + t0 + j, next, r0 + all);
      j := j + 1;
    }
  }

  lemma DealtCursor(e: seq<Element>, d: seq<Element>, was: seq<nat>, r: seq<nat>, p: seq<nat>, g: nat, value: int, w0: nat, r0: nat, t: nat, all: nat)
    requires Dealt(e, d, was, r, p, g, value, w0, r0, t, all)
    ensures g <= |p| == |r| && r0 + all <= |Alive(e)|
  {
  }

  lemma MoreToCopy(e: seq<Element>, pos: nat, r: nat, next: nat, last: nat)
    requires Pointing(e, pos, r) && pos < next <= |e| && (next < |e| ==> Live(e[next])) && forall q | pos < q < next :: !Live(e[q])
    requires last <= |Alive(e)|
    ensures r + 1 < last ==> Pointing(e, next, r + 1)
  {
    NextPointing(e, pos, r, next);
  }

  /** How many elements the first `i` of `wl` segments get when `n` are dealt out evenly. */
  ghost function Given(n: nat, wl: nat, i: nat): (k: nat)
    requires 0 < wl
  {
    if i == 0 then 0 else Given(n, wl, i - 1) + Share(n, wl, i - 1)
  }

  lemma {:induction false} GivenIs(n: nat, wl: nat, i: nat)
    requires 0 < wl && i <= wl
    ensures Given(n, wl, i) == Base(i, n / wl) + if i < n % wl then i else n % wl
  {
    if 0 < i {
      GivenIs(n, wl, i - 1);
    }
  }

  lemma {:induction false} GivenMonotone(n: nat, wl: nat, i: nat, j: nat)
    requires 0 < wl && i <= j
    ensures Given(n, wl, i) <= Given(n, wl, j)
  {
    if i < j {
      GivenMonotone(n, wl, i, j - 1);
    }
  }

  lemma GivenAll(n: nat, wl: nat)
    requires 0 < wl
    ensures Given(n, wl, wl) == n
  {
    hide Given;
    GivenIs(n, wl, wl);
    BaseIsProduct(wl, n / wl);
    assert n == wl * (n / wl) + n % wl;
  }

  /** The first `i` segments of `s` cells have been filled with their shares. */
  ghost predicate Filled(d: seq<Element>, s: nat, n: nat, wl: nat, i: nat)
    requires 0 < wl
  {
    Base(i, s) <= |d| && forall k | 0 <= k < i :: Base(k, s) + s <= |d| && Ends(d, Base(k, s), s, Share(n, wl, k))
  }

  lemma FilledMore(d: seq<Element>, d': seq<Element>, s: nat, n: nat, wl: nat, i: nat)
    requires 0 < wl && Filled(d, s, n, wl, i) && |d'| == |d| && Base(i, s) + s <= |d| && d'[..Base(i, s)] == d[..Base(i, s)]
    requires Ends(d', Base(i, s), s, Share(n, wl, i))
    ensures Filled(d', s, n, wl, i + 1)
  {
    hide Share, Ends, Base;
    BaseNext(i, s);
    forall k | 0 <= k < i ensures Base(k, s) + s <= |d'| && Ends(d', Base(k, s), s, Share(n, wl, k)) {
      BaseLe(k + 1, i, s);
      BaseNext(k, s);
      assert Ends(d, Base(k, s), s, Share(n, wl, k));
      SameEnds(d, d', Base(k, s), s, Share(n, wl, k), Base(i, s));
    }
  }

  lemma SameEnds(d: seq<Element>, d': seq<Element>, b: nat, s: nat, n: nat, upto: nat)
    requires Ends(d, b, s, n) && b + s <= upto <= |d| == |d'| && d'[..upto] == d[..upto]
    ensures Ends(d', b, s, n)
  {
    forall p | b <= p < b + s ensures d'[p] == d[p] {
      assert d'[..upto][p] == d[..upto][p];
    }
  }

  /** The copy of storage_spread: the elements of a window into a workspace. */
  method DealWindow(elements: array<Element>, s: nat, n: nat, wl: nat, first: nat, w0: nat, pointers0: seq<nat>, g0: nat, value0: int,
                    ghost r: seq<nat>, ghost r0: nat)
    returns (work: array<Element>, pointers: seq<nat>)
    requires 1 <= s && 1 <= wl <= n <= wl * s && |pointers0| == |r| && Points(elements[..], pointers0, r) && Rising(r) && r0 + n <= |Alive(elements[..])|
    requires Pointing(elements[..], first, r0) && AtPointer(pointers0, r, g0, value0, r0, 0, n)
    ensures fresh(work) && work.Length == Base(wl, s) && Filled(work[..], s, n, wl, wl)
    ensures Alive(work[..]) == Alive(elements[..])[r0..r0 + n] && Retargeted(work[..], pointers0, r, pointers, w0, r0, n)
  {
    hide Alive, Points, Rising, Dealt, AtPointer, Pointing, Base, Given, Filled, Ends, Retargeted;
    ghost var e, all := elements[..], n;
    BaseIsProduct(wl, s);
    work := new Element[wl * s];
    var next, g, value := first, g0, value0;
    pointers := pointers0;
    assert work[..0] == [];
    NothingDealt(e, work[..0], pointers0, r, g0, value0, w0, r0, n);
    NoneFilled(work[..], s, n, wl);
    GivenAll(n, wl);
    var i, pos := 0, 0;
    while i < wl
      invariant 0 <= i <= wl && pos == Base(i, s) <= work.Length && Filled(work[..], s, n, wl, i)
      invariant Dealt(e, work[..pos], pointers0, r, pointers, g, value, w0, r0, Given(n, wl, i), n)
      invariant Given(n, wl, i) < n ==> Pointing(e, next, r0 + Given(n, wl, i))
    {
      BaseLe(i + 1, wl, s);
      BaseNext(i, s);
      GivenNext(n, wl, i);
      GivenMonotone(n, wl, i + 1, wl);
      ShareBounds(n, wl, i, s);
      var share := Share(n, wl, i);
      ghost var w := work[..];
      next, pointers, g, value := DealSegment(elements, work, next, pos, share, w0, pointers, g, value, pointers0, r, r0, Given(n, wl, i), n);
      ghost var w1, k := work[..], pos + share;
      pos := Clear(work, pos + share, s - share);
      assert work[..k] == w1[..k] && work[..pos] == work[..k] + work[k..pos];
      DealtPad(e, work[..k], work[k..pos], pointers0, r, pointers, g, value, w0, r0, Given(n, wl, i + 1), n);
      SegmentFilled(work[..], w1, Base(i, s), s, share);
      assert work[..Base(i, s)] == w1[..Base(i, s)] == w[..Base(i, s)];
      FilledMore(w, work[..], s, n, wl, i);
      i := i + 1;
    }
    assert work[..pos] == work[..];
    DealtAll(e, work[..], pointers0, r, pointers, g, value, w0, r0, n);
  }

  /** Mark cells as empty. */
  method Clear(a: array<Element>, pos0: nat, n: nat) returns (pos: nat)
    requires pos0 + n <= a.Length
    modifies a
    ensures pos == pos0 + n && a[..pos0] == old(a[..pos0]) && a[pos..] == old(a[pos0 + n..]) && forall p | pos0 <= p < pos :: !Live(a[p])
  {
    pos := pos0;
    var j := 0;
    while j < n
      invariant 0 <= j <= n && pos == pos0 + j
      invariant a[..pos0] == old(a[..pos0]) && a[pos0 + n..] == old(a[pos0 + n..]) && forall p | pos0 <= p < pos :: !Live(a[p])
    {
      a[pos] := EMPTY;
      pos := pos + 1;
      j := j + 1;
    }
  }

  lemma SegmentFilled(a: seq<Element>, b: seq<Element>, start: nat, s: nat, n: nat)
    requires 1 <= n <= s && start + s <= |a| == |b| && a[..start + n] == b[..start + n]
    requires (forall p | start <= p < start + n :: Live(b[p])) && (forall p | start + n <= p < start + s :: !Live(a[p]))
    ensures Ends(a, start, s, n)
  {
    forall p | start <= p < start + n ensures Live(a[p]) {
      assert a[..start + n][p] == b[..start + n][p];
    }
  }

  lemma BaseNext(i: nat, s: nat)
    ensures Base(i + 1, s) == Base(i, s) + s
  {
  }

  lemma GivenNext(n: nat, wl: nat, i: nat)
    requires 0 < wl
    ensures Given(n, wl, i + 1) == Given(n, wl, i) + Share(n, wl, i)
  {
  }

  lemma NoneFilled(d: seq<Element>, s: nat, n: nat, wl: nat)
    requires 0 < wl
    ensures Base(0, s) == 0 && Filled(d, s, n, wl, 0) && Given(n, wl, 0) == 0
  {
  }

  lemma NothingDealt(e: seq<Element>, d: seq<Element>, was: seq<nat>, r: seq<nat>, g: nat, value: int, w0: nat, r0: nat, n: nat)
    requires d == [] && |was| == |r| && r0 + n <= |Alive(e)| && AtPointer(was, r, g, value, r0, 0, n)
    ensures Dealt(e, d, was, r, was, g, value, w0, r0, 0, n)
  {
  }

  lemma DealtAll(e: seq<Element>, d: seq<Element>, was: seq<nat>, r: seq<nat>, p: seq<nat>, g: nat, value: int, w0: nat, r0: nat, n: nat)
    requires Dealt(e, d, was, r, p, g, value, w0, r0, n, n)
    ensures Alive(d) == Alive(e)[r0..r0 + n] && Retargeted(d, was, r, p, w0, r0, n)
  {
  }
}
