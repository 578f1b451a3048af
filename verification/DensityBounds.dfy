/** The density thresholds of the calibrator tree and their cache. Doubles are reals. */
module DensityBounds {
  import opened Options

  datatype Bounds = Bounds(rho0: real, rhoH: real, thetaH: real, theta0: real) {

    /** What the constructor accepts. */
    predicate Ordered() {
      0.0 <= rho0 < rhoH <= thetaH < theta0 <= 1.0
    }

    /** The thresholds (rho, theta) at `height` in a tree of height `tree`; `height` may be fractional. */
    function At(tree: nat, height: real): (t: (real, real))
      requires 1.0 <= height <= tree as real
    {
      if tree == 1 then (rho0, theta0)
      else
        var scale := (tree as real - height) / (tree - 1) as real;
        (rhoH - (rhoH - rho0) * scale, thetaH + (theta0 - thetaH) * scale)
    }
  }

  function Checked(rho0: real, rhoH: real, thetaH: real, theta0: real): (b: Option<Bounds>)
    ensures b.Some? <==> 0.0 <= rho0 < rhoH <= thetaH < theta0 <= 1.0
    ensures b.Some? ==> b.value.Ordered()
  {
    if !(0.0 <= rho0) then None
    else if !(rho0 < rhoH) then None
    else if !(rhoH <= thetaH) then None
    else if !(thetaH < theta0) then None
    else if !(theta0 <= 1.0) then None
    else Some(Bounds(rho0, rhoH, thetaH, theta0))
  }

  lemma ScaleOrder(tree: nat, h1: real, h2: real)
    requires 2 <= tree && 1.0 <= h1 <= h2 <= tree as real
    ensures 0.0 <= (tree as real - h2) / (tree - 1) as real <= (tree as real - h1) / (tree - 1) as real <= 1.0
    ensures h1 < h2 ==> (tree as real - h2) / (tree - 1) as real < (tree as real - h1) / (tree - 1) as real
  {
  }

  lemma DivOrder(x: real, y: real, d: real)
    requires 0.0 < d && x <= y
    ensures x / d <= y / d
    ensures x < y ==> x / d < y / d
  {
  }

  lemma ScaleDiff(a: real, s: real, t: real)
    requires 0.0 < a && s <= t
    ensures a * s <= a * t
    ensures s < t ==> a * s < a * t
  {
  }

  /** theta falls and rho rises strictly with the height, from the leaf pair to the root pair. */
  lemma Monotone(b: Bounds, tree: nat, h1: real, h2: real)
    requires b.Ordered() && 2 <= tree && 1.0 <= h1 < h2 <= tree as real
    ensures b.At(tree, h1).1 > b.At(tree, h2).1
    ensures b.At(tree, h1).0 < b.At(tree, h2).0
  {
    var d := (tree - 1) as real;
    var s1, s2 := (tree as real - h1) / d, (tree as real - h2) / d;
    ScaleOrder(tree, h1, h2);
    ScaleDiff(b.theta0 - b.thetaH, s2, s1);
    ScaleDiff(b.rhoH - b.rho0, s2, s1);
    AtScale(b, tree, h1, s1);
    AtScale(b, tree, h2, s2);
  }

  lemma AtScale(b: Bounds, tree: nat, h: real, scale: real)
    requires 2 <= tree && 1.0 <= h <= tree as real && scale == (tree as real - h) / (tree - 1) as real
    ensures b.At(tree, h).0 == b.rhoH - (b.rhoH - b.rho0) * scale
    ensures b.At(tree, h).1 == b.thetaH + (b.theta0 - b.thetaH) * scale
  {
  }

  /** At the leaves the thresholds are the leaf pair, at the root of a taller tree the root pair. */
  lemma Extremes(b: Bounds, tree: nat, h: real)
    requires b.Ordered() && 1.0 <= h <= tree as real
    ensures h == 1.0 ==> b.At(tree, h) == (b.rho0, b.theta0)
    ensures h == tree as real && 2 <= tree ==> b.At(tree, h) == (b.rhoH, b.thetaH)
  {
    if 2 <= tree {
      var d := (tree - 1) as real;
      var scale := (tree as real - h) / d;
      assert h == 1.0 ==> scale == 1.0;
      assert h == tree as real ==> scale == 0.0;
      assert (b.rhoH - b.rho0) * 1.0 == b.rhoH - b.rho0 && (b.theta0 - b.thetaH) * 1.0 == b.theta0 - b.thetaH;
      assert (b.rhoH - b.rho0) * 0.0 == 0.0 && (b.theta0 - b.thetaH) * 0.0 == 0.0;
    }
  }

  /** Above the leaves a window is only accepted with theta in [thetaH, 1), so with room to spare. */
  lemma InnerTheta(b: Bounds, tree: nat, h: nat)
    requires b.Ordered() && 2 <= h <= tree
    ensures b.thetaH <= b.At(tree, h as real).1 < 1.0
  {
    var leaf := 1.0;
    Monotone(b, tree, leaf, h as real);
    Extremes(b, tree, leaf);
    Extremes(b, tree, tree as real);
    if h < tree {
      Monotone(b, tree, h as real, tree as real);
    }
  }

  class CachedDensityBounds {
    const bounds: Bounds
    var cached: seq<(real, real)>

    /** The cache holds the thresholds of a tree as high as the cache is long. */
    ghost predicate Coherent()
      reads this
    {
      forall i | 0 <= i < |cached| :: cached[i] == bounds.At(|cached|, (i + 1) as real)
    }

    constructor (b: Bounds)
      ensures Coherent() && bounds == b
    {
      bounds := b;
      cached := [];
    }

    method Rebuild(tree: nat)
      modifies this
      ensures |cached| == tree && Coherent()
    {
      cached := [];
      var i := 1;
      while i <= tree
        invariant 1 <= i <= tree + 1 && |cached| == i - 1
        invariant forall k | 0 <= k < |cached| :: cached[k] == bounds.At(tree, (k + 1) as real)
      {
        cached := cached + [bounds.At(tree, i as real)];
        i := i + 1;
      }
    }

    /** Whatever was asked before, the cached thresholds are the direct ones. */
    method Thresholds(tree: nat, height: nat) returns (t: (real, real))
      requires 1 <= height <= tree && Coherent()
      modifies this
      ensures Coherent() && t == bounds.At(tree, height as real)
    {
      if |cached| != tree {
        Rebuild(tree);
      }
      t := cached[height - 1];
    }
  }
}
