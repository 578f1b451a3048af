/** The climb of BTreePMA_v4::rebalance through the calibrator tree: which window of segments is
    spread when a segment is full, and when the array has to grow instead. */
module Calibrator {
  import opened Sequences
  import opened Layout
  import opened Powers
  import DensityBounds

  /** The aligned window of 2^(h-1) segments that contains `seg`. */
  function WindowStart(seg: nat, h: nat): (ws: nat)
    requires 1 <= h
  {
    RoundDown(seg, Pow2(h - 1))
  }

  /** Window number times window length. */
  function RoundDown(x: nat, d: nat): (r: nat)
    requires 0 < d
  {
    var id := x / d;
    id * d
  }

  ghost predicate InTree(n: nat, height: nat) {
    1 <= height && n == Pow2(height - 1)
  }

  lemma WindowInside(n: nat, height: nat, seg: nat, h: nat)
    requires InTree(n, height) && seg < n && 1 <= h <= height
    ensures WindowStart(seg, h) <= seg < WindowStart(seg, h) + Pow2(h - 1) <= n
    ensures WindowStart(seg, h) % Pow2(h - 1) == 0
  {
    hide Pow2;
    WindowAligned(seg, Pow2(h - 1));
    Pow2Sum(height - h, h - 1);
    Aligned(seg, Pow2(h - 1), Pow2(height - h));
  }

  lemma WindowAligned(x: nat, d: nat)
    requires 0 < d
    ensures RoundDown(x, d) % d == 0
  {
    DivUnique(RoundDown(x, d), d, x / d, 0);
  }

  lemma Aligned(x: nat, d: nat, m: nat)
    requires 0 < d && x < m * d
    ensures x / d * d <= x < x / d * d + d <= m * d
  {
    var q := x / d;
    assert x == q * d + x % d;
    if m <= q {
      MulLe(m, q, d);
    }
    MulLe(q + 1, m, d);
  }

  /** How many elements the window at height `h` would hold with the new one. */
  ghost function Count(c: seq<nat>, height: nat, seg: nat, h: nat): (n: nat)
    requires InTree(|c|, height) && seg < |c| && 1 <= h <= height
  {
    WindowInside(|c|, height, seg, h);
    Sum(c, WindowStart(seg, h), WindowStart(seg, h) + Pow2(h - 1)) + 1
  }

  function Density(n: nat, cap: nat, h: nat): (d: real)
    requires 1 <= h && 1 <= cap
  {
    n as real / (Pow2(h - 1) * cap) as real
  }

  /** The window at height `h` is sparse enough to take the new element. */
  ghost predicate Qualifies(b: DensityBounds.Bounds, c: seq<nat>, cap: nat, height: nat, seg: nat, h: nat)
    requires InTree(|c|, height) && seg < |c| && 1 <= h <= height && 1 <= cap
  {
    Density(Count(c, height, seg, h), cap, h) <= b.At(height, h as real).1
  }

  /** What that means without fractions: with the new element the window holds at most the share of its cells that
      lies between theta_h for the whole array and theta_0 for a segment, in proportion to its height. */
  lemma QualifiesExactly(b: DensityBounds.Bounds, c: seq<nat>, cap: nat, height: nat, seg: nat, h: nat)
    requires InTree(|c|, height) && seg < |c| && 2 <= h <= height && 1 <= cap
    ensures WindowStart(seg, h) <= seg < WindowStart(seg, h) + Pow2(h - 1) <= |c|
    ensures var n, cells := Sum(c, WindowStart(seg, h), WindowStart(seg, h) + Pow2(h - 1)) + 1, Pow2(h - 1) * cap;
            Qualifies(b, c, cap, height, seg, h) <==>
              n as real * (height - 1) as real <= (b.thetaH * (h - 1) as real + b.theta0 * (height - h) as real) * cells as real
  {
    hide Sum, Pow2, WindowStart;
    WindowInside(|c|, height, seg, h);
    var n, cells := Sum(c, WindowStart(seg, h), WindowStart(seg, h) + Pow2(h - 1)) + 1, Pow2(h - 1) * cap;
    assert 0 < cells;
    var k, m := (height - 1) as real, (height - h) as real;
    var scale := m / k;
    DensityBounds.AtScale(b, height, h as real, scale);
    var theta := b.thetaH + (b.theta0 - b.thetaH) * scale;
    Interpolated(b.thetaH, b.theta0, k, m, scale);
    assert theta * k == b.thetaH * (h - 1) as real + b.theta0 * (height - h) as real;
    CrossMultiplied(n as real, cells as real, theta, k);
  }

  lemma Interpolated(lo: real, hi: real, k: real, m: real, scale: real)
    requires 0.0 < k && scale == m / k
    ensures (lo + (hi - lo) * scale) * k == lo * (k - m) + hi * m
  {
    assert scale * k == m;
    assert (hi - lo) * scale * k == (hi - lo) * (scale * k);
  }

  lemma CrossMultiplied(n: real, d: real, t: real, k: real)
    requires 0.0 < d && 0.0 < k
    ensures n / d <= t <==> n * k <= t * k * d
  {
    var q := n / d;
    assert n == q * d;
    Scaled(q, t, d);
    Scaled(q * d, t * d, k);
    assert t * d * k == t * k * d;
  }

  lemma Scaled(x: real, y: real, d: real)
    requires 0.0 < d
    ensures x <= y <==> x * d <= y * d
  {
  }

  /** The smallest qualifying window of at least two segments, or none at all. */
  method FindWindow(cards: array<nat>, cap: nat, height: nat, seg: nat, densities: DensityBounds.CachedDensityBounds)
    returns (found: bool, h: nat, ws: nat, wl: nat, n: nat)
    requires InTree(cards.Length, height) && seg < cards.Length && 1 <= cap && cards[seg] == cap
    requires densities.Coherent()
    modifies densities
    ensures densities.Coherent()
    ensures found ==> 2 <= h <= height && ws == WindowStart(seg, h) && wl == Pow2(h - 1)
    ensures found ==> n == Count(cards[..], height, seg, h) && Qualifies(densities.bounds, cards[..], cap, height, seg, h)
    ensures found ==> forall k | 2 <= k < h :: !Qualifies(densities.bounds, cards[..], cap, height, seg, k)
    ensures !found ==> forall k | 2 <= k <= height :: !Qualifies(densities.bounds, cards[..], cap, height, seg, k)
  {
    hide Pow2, Sum, DensityBounds.Bounds.At, DensityBounds.CachedDensityBounds.Coherent, Qualifies, Count, WindowStart, Density;
    n := cap + 1;
    h := 1;
    wl := 1;
    ws := seg;
    var theta := 1.0;
    var density := n as real / cap as real;
    assert theta < density by {
      FullSegment(cap);
    }
    if height > 1 {
      ghost var c := cards[..];
      var id := seg;
      var left: int, right := seg - 1, seg + 1;
      var climbing := true;
      ClimbStart(c, seg);
      while climbing
        invariant 1 <= h <= height && (climbing ==> h < height) && (!climbing ==> 2 <= h)
        invariant wl == Pow2(h - 1) && id == seg / wl && ws == WindowStart(seg, h) && ws + wl <= |c|
        invariant left == ws - 1 && right == ws + wl && n == Sum(c, ws, right) + 1
        invariant forall k | 2 <= k < h :: !Qualifies(densities.bounds, c, cap, height, seg, k)
        invariant 2 <= h ==> n == Count(c, height, seg, h)
        invariant climbing && 2 <= h ==> !Qualifies(densities.bounds, c, cap, height, seg, h)
        invariant !climbing ==> (density <= theta) == Qualifies(densities.bounds, c, cap, height, seg, h)
        invariant !climbing ==> density <= theta || h == height
        invariant densities.Coherent()
        decreases height - h, climbing
      {
        Widen(seg, h, height, |c|);
        h := h + 1;
        wl := wl * 2;
        id := id / 2;
        ws := id * wl;
        var bounds := densities.Thresholds(height, h);
        theta := bounds.1;
        left, right, n := Collect(cards, ws, ws + wl, left, right, n);
        density := DensityOf(n, wl, cap, h);
        QualifiesBy(densities.bounds, c, cap, height, seg, h, n);
        climbing := density > theta && h < height;
      }
    }
    found := density <= theta;
  }

  lemma FullSegment(cap: nat)
    requires 1 <= cap
    ensures 1.0 < (cap + 1) as real / cap as real
  {
    DensityBounds.DivOrder(cap as real, (cap + 1) as real, cap as real);
    assert cap as real / cap as real == 1.0;
  }

  lemma ClimbStart(c: seq<nat>, seg: nat)
    requires seg < |c|
    ensures Pow2(0) == 1 && seg / 1 == seg && WindowStart(seg, 1) == seg && Sum(c, seg, seg + 1) == c[seg]
  {
  }

  lemma Widen(seg: nat, h: nat, height: nat, n: nat)
    requires InTree(n, height) && seg < n && 1 <= h < height
    ensures Pow2(h) == Pow2(h - 1) * 2
    ensures seg / Pow2(h) == seg / Pow2(h - 1) / 2
    ensures seg / Pow2(h - 1) / 2 * Pow2(h) == WindowStart(seg, h + 1) <= WindowStart(seg, h)
    ensures WindowStart(seg, h) + Pow2(h - 1) <= WindowStart(seg, h + 1) + Pow2(h) <= n
  {
    Halving(seg, Pow2(h - 1));
    WindowInside(n, height, seg, h + 1);
  }

  lemma QualifiesBy(b: DensityBounds.Bounds, c: seq<nat>, cap: nat, height: nat, seg: nat, h: nat, n: nat)
    requires InTree(|c|, height) && seg < |c| && 1 <= h <= height && 1 <= cap
    requires WindowStart(seg, h) + Pow2(h - 1) <= |c| && n == Sum(c, WindowStart(seg, h), WindowStart(seg, h) + Pow2(h - 1)) + 1
    ensures n == Count(c, height, seg, h)
    ensures Qualifies(b, c, cap, height, seg, h) == (Density(n, cap, h) <= b.At(height, h as real).1)
  {
  }

  method DensityOf(n: nat, wl: nat, cap: nat, h: nat) returns (d: real)
    requires 1 <= h && 1 <= cap && wl == Pow2(h - 1)
    ensures d == Density(n, cap, h)
  {
    assert 0 < wl * cap;
    d := n as real / (wl * cap) as real;
  }

  /** Count in the segments by which the window has grown, to the left and to the right. */
  method Collect(cards: array<nat>, ws: nat, end: nat, left0: int, right0: nat, n0: nat) returns (left: int, right: nat, n: nat)
    requires ws <= left0 + 1 <= right0 <= end <= cards.Length
    requires n0 == Sum(cards[..], left0 + 1, right0) + 1
    ensures left == ws - 1 && right == end && n == Sum(cards[..], ws, end) + 1
  {
    left, right, n := left0, right0, n0;
    while left >= ws
      invariant ws - 1 <= left <= left0 && n == Sum(cards[..], left + 1, right) + 1
    {
      SumSplit(cards[..], left, left + 1, right);
      n := n + cards[left];
      left := left - 1;
    }
    while right < end
      invariant right0 <= right <= end && n == Sum(cards[..], ws, right) + 1
    {
      n := n + cards[right];
      right := right + 1;
    }
  }

  /** A qualifying window has strictly more cells than it will hold elements. */
  lemma RoomLeft(b: DensityBounds.Bounds, c: seq<nat>, cap: nat, height: nat, seg: nat, h: nat)
    requires b.Ordered() && InTree(|c|, height) && seg < |c| && 2 <= h <= height && 1 <= cap
    requires Qualifies(b, c, cap, height, seg, h)
    ensures Count(c, height, seg, h) < Pow2(h - 1) * cap == Base(Pow2(h - 1), cap)
  {
    DensityBounds.InnerTheta(b, height, h);
    BaseIsProduct(Pow2(h - 1), cap);
    var n, d := Count(c, height, seg, h), Pow2(h - 1) * cap;
    BelowOne(n, d);
  }

  lemma BelowOne(n: nat, d: nat)
    requires 0 < d && n as real / d as real < 1.0
    ensures n < d
  {
    assert d as real / d as real == 1.0;
    if d <= n {
      DensityBounds.DivOrder(d as real, n as real, d as real);
    }
  }

  /** When even the whole array does not qualify, it is filled beyond thetaH, counting the new element. */
  lemma TooDense(b: DensityBounds.Bounds, c: seq<nat>, cap: nat, height: nat, seg: nat)
    requires b.Ordered() && InTree(|c|, height) && seg < |c| && 2 <= height && 1 <= cap
    requires !Qualifies(b, c, cap, height, seg, height)
    ensures b.thetaH * (|c| * cap) as real < (Sum(c, 0, |c|) + 1) as real
  {
    DensityBounds.Extremes(b, height, height as real);
    WindowInside(|c|, height, seg, height);
    var n, d := Sum(c, 0, |c|) + 1, |c| * cap;
    assert Count(c, height, seg, height) == n;
    Above(b.thetaH, n, d);
  }

  lemma Above(t: real, n: nat, d: nat)
    requires 0 < d && t < n as real / d as real
    ensures t * d as real < n as real
  {
    var q := n as real / d as real;
    assert q * d as real == n as real;
  }
}
