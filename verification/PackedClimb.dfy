/** BTreePMA_v2::storage_rebalance: the window of segments that is spread when a segment has filled up, and
    why every segment has room again afterwards. */
module PackedClimb {
  import opened Layout
  import opened Powers
  import opened LiveCells
  import opened PackedSegments
  import opened InPlaceSpread
  import Calibrator

  const LOWER: real := 0.5
  const UPPER: real := 0.75

  /** storage_thresholds */
  function Thresholds(height: nat, h: nat): (t: (real, real))
    requires 1 <= height
  {
    var diff := (height - h) as real / height as real;
    (LOWER - 0.25 * diff, UPPER + 0.25 * diff)
  }

  /** The lower threshold falls and the upper one rises towards the leaves of the calibrator tree. */
  lemma ThresholdsMonotone(height: nat, g: nat, h: nat)
    requires 1 <= g < h <= height
    ensures Thresholds(height, g).0 < Thresholds(height, h).0 < Thresholds(height, h).1 < Thresholds(height, g).1 < 1.0
  {
    var d := height as real;
    Ratio((height - h) as real, (height - g) as real, d);
    Ratio((height - g) as real, d, d);
    assert d / d == 1.0;
    assert 0.0 <= (height - h) as real / d;
  }

  lemma Ratio(x: real, y: real, d: real)
    requires 0.0 < d && x < y
    ensures x / d < y / d
  {
  }

  /** The number of elements in the segments [lo, hi). */
  ghost function Elements(e: seq<Element>, s: nat, lo: nat, hi: nat): (n: nat)
    requires lo <= hi && Base(lo, s) <= Base(hi, s) <= |e|
  {
    |Alive(e[Base(lo, s)..Base(hi, s)])|
  }

  lemma ElementsJoin(e: seq<Element>, s: nat, lo: nat, mid: nat, hi: nat)
    requires lo <= mid <= hi && Base(hi, s) <= |e|
    ensures Base(lo, s) <= Base(mid, s) <= Base(hi, s)
    ensures Elements(e, s, lo, hi) == Elements(e, s, lo, mid) + Elements(e, s, mid, hi)
  {
    hide Base;
    BaseLe(lo, mid, s);
    BaseLe(mid, hi, s);
    var a, b, c := Base(lo, s), Base(mid, s), Base(hi, s);
    assert e[a..c] == e[a..b] + e[b..c];
    AliveJoin(e[a..b], e[b..c]);
  }

  function Density(n: nat, wl: nat, s: nat): (d: real)
    requires 1 <= wl && 1 <= s
  {
    assert 0 < wl * s;
    n as real / (wl * s) as real
  }

  /** The window at height `h` is sparse enough to be spread. */
  ghost predicate Sparse(e: seq<Element>, s: nat, height: nat, seg: nat, h: nat)
    requires 1 <= s && 1 <= h <= height
  {
    var ws, wl := Calibrator.WindowStart(seg, h), Pow2(h - 1);
    Base(ws, s) <= Base(ws + wl, s) <= |e| && Density(Elements(e, s, ws, ws + wl), wl, s) < Thresholds(height, h).1
  }

  /** No window of the segment, from two segments up to the whole array, is sparse enough. */
  ghost predicate NoneSparse(e: seq<Element>, s: nat, height: nat, seg: nat)
    requires 1 <= s
  {
    forall h | 2 <= h <= height :: !Sparse(e, s, height, seg, h)
  }

  /** The window at height `h` is the smallest one that is sparse enough. */
  ghost predicate SmallestSparse(e: seq<Element>, s: nat, height: nat, seg: nat, h: nat)
    requires 1 <= s
  {
    2 <= h <= height && Sparse(e, s, height, seg, h) && forall k | 2 <= k < h :: !Sparse(e, s, height, seg, k)
  }

  /** What that means without fractions: the whole array must be less than three quarters full, a smaller window
      may be fuller in proportion to how far below the root it is. */
  lemma SparseExactly(e: seq<Element>, s: nat, height: nat, seg: nat, h: nat)
    requires 1 <= s && 1 <= h <= height
    requires var ws, wl := Calibrator.WindowStart(seg, h), Pow2(h - 1); Base(ws, s) <= Base(ws + wl, s) <= |e|
    ensures var ws, wl := Calibrator.WindowStart(seg, h), Pow2(h - 1);
            Sparse(e, s, height, seg, h) <==> Elements(e, s, ws, ws + wl) * (4 * height) < wl * s * (4 * height - h)
  {
    hide Pow2, Calibrator.WindowStart, Elements, Density, Thresholds;
    var ws, wl := Calibrator.WindowStart(seg, h), Pow2(h - 1);
    SparseProduct(Elements(e, s, ws, ws + wl), wl, s, height, h);
  }

  lemma SparseIf(e: seq<Element>, s: nat, height: nat, seg: nat, h: nat, n: nat)
    requires 1 <= s && 1 <= h <= height
    requires var ws, wl := Calibrator.WindowStart(seg, h), Pow2(h - 1);
             Base(ws, s) <= Base(ws + wl, s) <= |e| && n == Elements(e, s, ws, ws + wl)
    ensures Sparse(e, s, height, seg, h) <==> Density(n, Pow2(h - 1), s) < Thresholds(height, h).1
  {
  }

  /** The climb to the smallest window of two segments or more whose density is below the threshold of
      its level; if there is none, it ends at the root. */
  method Climb(elements: array<Element>, s: nat, ghost ns: nat, height: nat, seg: nat)
    returns (sparse: bool, n: nat, ws: nat, wl: nat, ghost h: nat)
    requires Segmented(elements[..], s, ns) && 1 <= height && Calibrator.InTree(ns, height) && seg < ns && SegmentElements(elements[..], s, ns, seg) == s
    ensures 1 <= h <= height && ws == Calibrator.WindowStart(seg, h) && wl == Pow2(h - 1) && ws + wl <= ns && ws <= seg < ws + wl
    ensures Base(ws, s) <= Base(ws + wl, s) <= elements.Length && n == Elements(elements[..], s, ws, ws + wl) 
    ensures 1 <= s && (sparse ==> 2 <= h && Sparse(elements[..], s, height, seg, h) && Density(n, wl, s) < Thresholds(height, h).1)
    ensures forall k | 2 <= k < h :: !Sparse(elements[..], s, height, seg, k)
    ensures !sparse && 2 <= h ==> !Sparse(elements[..], s, height, seg, h)
    ensures h == 1 ==> n == s
    ensures !sparse ==> h == height && (1 == height || Density(n, wl, s) >= UPPER)
    ensures sparse ==> SmallestSparse(elements[..], s, height, seg, h)
    ensures sparse <==> !NoneSparse(elements[..], s, height, seg)
  {
    hide Base, Pow2, Segmented, Packed, Elements, SegmentElements, Calibrator.WindowStart, Density, Thresholds, Alive, Calibrator.InTree, Sparse;
    h, n, wl, ws := 1, s, 1, seg;
    ghost var e := elements[..];
    Calibrator.ClimbStart(seq(ns, i => 0), seg);
    SegmentWindow(e, s, ns, seg);
    SegmentedSize(e, s, ns);
    var density, theta := 1.0, UPPER;
    if height > 1 {
      var id, left: int, right := seg, seg - 1, seg + 1;
      var climbing, level := true, 1;
      while climbing
        invariant 1 <= h <= height && level == h && (climbing ==> h < height) && (!climbing ==> 2 <= h) && (h == 1 ==> n == s)
        invariant wl == Pow2(h - 1) && id == seg / wl && ws == Calibrator.WindowStart(seg, h) && ws + wl <= ns && ws <= seg < ws + wl
        invariant left == ws - 1 && right == ws + wl && Base(ws, s) <= Base(right, s) <= |e| && n == Elements(e, s, ws, right)
        invariant 1 <= s && forall k | 2 <= k <= h && (climbing || k < h) :: !Sparse(e, s, height, seg, k)
        invariant !climbing ==> (Sparse(e, s, height, seg, h) <==> density < theta)
        invariant !climbing ==> density == Density(n, wl, s) && theta == Thresholds(height, h).1 && (density < theta || h == height)
        decreases height - h, climbing
      {
        Calibrator.Widen(seg, h, height, ns);
        Calibrator.WindowInside(ns, height, seg, h + 1);
        h, level := h + 1, level + 1;
        wl := wl * 2;
        id := id / 2;
        ws := id * wl;
        assert ws == Calibrator.WindowStart(seg, h) && wl == Pow2(h - 1);
        theta := Thresholds(height, level).1;
        left, right, n := Collect(elements, s, ns, ws, ws + wl, left, right, n);
        density := Density(n, wl, s);
        SparseIf(e, s, height, seg, h, n);
        climbing := density >= theta && level < height;
      }
      TopThreshold(height);
    }
    sparse := density < theta;
  }

  ghost function SegmentElements(e: seq<Element>, s: nat, ns: nat, i: nat): (n: nat)
    requires Segmented(e, s, ns) && i < ns
  {
    SegmentAt(e, s, ns, i);
    |Alive(e[Base(i, s)..Base(i, s) + s])|
  }

  lemma SegmentWindow(e: seq<Element>, s: nat, ns: nat, i: nat)
    requires Segmented(e, s, ns) && i < ns
    ensures Base(i, s) <= Base(i + 1, s) <= |e| && Elements(e, s, i, i + 1) == SegmentElements(e, s, ns, i)
  {
    SegmentAt(e, s, ns, i);
  }

  lemma TopThreshold(height: nat)
    requires 1 <= height
    ensures Thresholds(height, height).1 == UPPER
  {
  }

  /** Count in the segments by which the window has grown, to the left and to the right. */
  method Collect(elements: array<Element>, s: nat, ghost ns: nat, ws: nat, end: nat, left0: int, right0: nat, n0: nat) returns (left: int, right: nat, n: nat)
    requires Segmented(elements[..], s, ns) && ws <= left0 + 1 <= right0 <= end <= ns
    requires Base(left0 + 1, s) <= Base(right0, s) <= elements.Length && n0 == Elements(elements[..], s, left0 + 1, right0)
    ensures left == ws - 1 && right == end && Base(ws, s) <= Base(end, s) <= elements.Length && n == Elements(elements[..], s, ws, end)
  {
    hide Base, Elements, Packed, Segmented;
    ghost var e := elements[..];
    left, right, n := left0, right0, n0;
    while left >= ws
      invariant ws - 1 <= left <= left0 && Base(left + 1, s) <= Base(right, s) <= |e| && n == Elements(e, s, left + 1, right)
    {
      SegmentAt(e, s, ns, left);
      SegmentWindow(e, s, ns, left);
      ElementsJoin(e, s, left, left + 1, right);
      SegmentedSize(e, s, ns);
      var m := SegmentCardinality(elements, s, left);
      n := n + m;
      left := left - 1;
    }
    while right < end
      invariant right0 <= right <= end && Base(ws, s) <= Base(right, s) <= |e| && n == Elements(e, s, ws, right)
    {
      SegmentAt(e, s, ns, right);
      SegmentWindow(e, s, ns, right);
      ElementsJoin(e, s, ws, right, right + 1);
      SegmentedSize(e, s, ns);
      var m := SegmentCardinality(elements, s, right);
      n := n + m;
      right := right + 1;
    }
  }

  lemma SegmentedSize(e: seq<Element>, s: nat, ns: nat)
    requires Segmented(e, s, ns)
    ensures 1 <= s && |e| == Base(ns, s)
  {
  }

  /** (h / 4) * 2^(h-1) >= 2^(h-1) - 1 from the second level on: with equality on the levels 2 and 3. */
  lemma {:induction false} Tight(h: nat)
    requires 2 <= h
    ensures 4 * (Pow2(h - 1) - 1) <= Pow2(h - 1) * h
  {
    if h == 2 {
      assert Pow2(1) == 2 * Pow2(0);
    } else if h == 3 {
      assert Pow2(2) == 2 * Pow2(1) && Pow2(1) == 2 * Pow2(0);
    } else {
      MulLe(4, h, Pow2(h - 1));
    }
  }

  /** A window below its threshold holds at most one element less per segment than there are cells, as long
      as the segments have as many cells as the calibrator tree has levels. */
  lemma SparseRoom(n: nat, s: nat, height: nat, h: nat)
    requires 2 <= h <= height <= s && Density(n, Pow2(h - 1), s) < Thresholds(height, h).1
    ensures n <= Pow2(h - 1) * (s - 1)
  {
    hide Pow2;
    var wl := Pow2(h - 1);
    SparseProduct(n, wl, s, height, h);
    Tight(h);
    Saved(wl, s, height, h);
    Finish(n, wl, s, height, h);
  }

  lemma Saved(wl: nat, s: nat, height: nat, h: nat)
    requires 1 <= wl && 4 * (wl - 1) <= wl * h && height <= s
    ensures 4 * height * (wl - 1) <= wl * s * h
  {
    MulLe(4 * (wl - 1), wl * h, s);
    MulLe(height, s, 4 * (wl - 1));
    assert height * (4 * (wl - 1)) == 4 * height * (wl - 1) && wl * h * s == wl * s * h;
  }

  lemma Finish(n: nat, wl: nat, s: nat, height: nat, h: nat)
    requires 1 <= wl && 1 <= s && 1 <= height && h <= height && n * (4 * height) < wl * s * (4 * height - h) && 4 * height * (wl - 1) <= wl * s * h
    ensures n <= wl * (s - 1)
  {
    var d, a := 4 * height, wl * s;
    assert a * (d - h) == a * d - a * h;
    assert wl * (s - 1) == a - wl;
    MulLe(wl, a, 1);
    assert (a - wl + 1) * d == a * d - d * (wl - 1);
    Below(n, a - wl + 1, d);
  }

  lemma Below(n: nat, m: nat, d: nat)
    requires n * d < m * d
    ensures n < m
  {
    if m <= n {
      MulLe(m, n, d);
    }
  }

  lemma SparseProduct(n: nat, wl: nat, s: nat, height: nat, h: nat)
    requires 1 <= wl && 1 <= s && 1 <= h <= height
    ensures Density(n, wl, s) < Thresholds(height, h).1 <==> n * (4 * height) < wl * s * (4 * height - h)
  {
    var w, d, k := (wl * s) as real, height as real, h as real;
    var theta := Thresholds(height, h).1;
    assert (height - h) as real == d - k;
    assert theta * (4.0 * d) == 4.0 * d - k by {
      assert (d - k) / d * d == d - k;
    }
    var q := n as real / w;
    assert q * w == n as real;
    var a, b := n * (4 * height), wl * s * (4 * height - h);
    assert a as real == q * w * (4.0 * d);
    assert b as real == w * (4.0 * d - k) == theta * w * (4.0 * d) by {
      assert theta * w * (4.0 * d) == w * (theta * (4.0 * d));
    }
    Calibrator.Scaled(theta, q, w);
    Calibrator.Scaled(theta * w, q * w, 4.0 * d);
  }
}
