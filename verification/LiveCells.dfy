/** The cells of BTreePMA_v2's packed array: a cell with a negative key is empty, and an index pointer is the
    position of an occupied cell. */
module LiveCells {

  type Element = (int, int)

  const EMPTY: Element := (-1, -1)

  predicate Live(x: Element) {
    0 <= x.0
  }

  /** The occupied cells, in order. */
  ghost function Alive(e: seq<Element>): (s: seq<Element>) {
    if e == [] then [] else Alive(e[..|e| - 1]) + if Live(e[|e| - 1]) then [e[|e| - 1]] else []
  }

  lemma {:induction false} AliveJoin(a: seq<Element>, b: seq<Element>)
    ensures Alive(a + b) == Alive(a) + Alive(b)
    decreases |b|
  {
    if b == [] {
      assert a + b == a;
    } else {
      var n := |b| - 1;
      AliveJoin(a, b[..n]);
      assert (a + b)[..|a| + n] == a + b[..n];
    }
  }

  lemma AliveOne(x: Element)
    ensures Alive([x]) == if Live(x) then [x] else []
  {
    assert [x][..0] == [];
  }

  lemma AliveSplit(e: seq<Element>, i: nat, j: nat)
    requires i <= j <= |e|
    ensures Alive(e) == Alive(e[..i]) + Alive(e[i..j]) + Alive(e[j..])
    ensures Alive(e[..j]) == Alive(e[..i]) + Alive(e[i..j])
    ensures Alive(e[i..]) == Alive(e[i..j]) + Alive(e[j..])
  {
    hide Alive;
    assert e == e[..j] + e[j..] && e[..j] == e[..i] + e[i..j] && e[i..] == e[i..j] + e[j..];
    AliveJoin(e[..j], e[j..]);
    AliveJoin(e[..i], e[i..j]);
    AliveJoin(e[i..j], e[j..]);
  }

  lemma {:induction false} AllAlive(e: seq<Element>)
    requires forall p | 0 <= p < |e| :: Live(e[p])
    ensures Alive(e) == e
  {
    if e != [] {
      AllAlive(e[..|e| - 1]);
    }
  }

  lemma {:induction false} NoneAlive(e: seq<Element>)
    requires forall p | 0 <= p < |e| :: !Live(e[p])
    ensures Alive(e) == []
  {
    if e != [] {
      NoneAlive(e[..|e| - 1]);
    }
  }

  lemma {:induction false} AliveAtMost(e: seq<Element>)
    ensures |Alive(e)| <= |e|
    ensures forall x | x in Alive(e) :: Live(x)
  {
    if e != [] {
      AliveAtMost(e[..|e| - 1]);
    }
  }

  /** The pointer `p` leads to the element of rank `r`. */
  ghost predicate Pointing(e: seq<Element>, p: nat, r: nat) {
    p < |e| && Live(e[p]) && |Alive(e[..p])| == r
  }

  lemma PointingAt(e: seq<Element>, p: nat, r: nat)
    requires Pointing(e, p, r)
    ensures r < |Alive(e)| && Alive(e)[r] == e[p]
  {
    AliveSplit(e, p, p + 1);
    assert e[p..p + 1] == [e[p]];
    AliveOne(e[p]);
  }

  /** Pointers are in the order of the ranks. */
  lemma PointingOrder(e: seq<Element>, p: nat, r: nat, q: nat, s: nat)
    requires Pointing(e, p, r) && Pointing(e, q, s)
    ensures p < q <==> r < s
    ensures p == q <==> r == s
  {
    if p < q {
      PointingBefore(e, p, r, q, s);
    } else if q < p {
      PointingBefore(e, q, s, p, r);
    }
  }

  lemma PointingBefore(e: seq<Element>, p: nat, r: nat, q: nat, s: nat)
    requires Pointing(e, p, r) && Pointing(e, q, s) && p < q
    ensures r < s
  {
    assert e[..q] == e[..p] + [e[p]] + e[p + 1..q];
    AliveJoin(e[..p] + [e[p]], e[p + 1..q]);
    AliveJoin(e[..p], [e[p]]);
    AliveOne(e[p]);
  }

  /** Ranks and positions agree on both sides of a cut. */
  lemma PointingCut(e: seq<Element>, p: nat, r: nat, cut: nat)
    requires Pointing(e, p, r) && cut <= |e|
    ensures p < cut <==> r < |Alive(e[..cut])|
    ensures p < cut ==> Pointing(e[..cut], p, r)
    ensures cut <= p ==> Pointing(e[cut..], p - cut, r - |Alive(e[..cut])|)
  {
    if p < cut {
      assert e[..cut][..p] == e[..p];
      PointingAt(e[..cut], p, r);
    } else {
      AliveSplit(e, cut, p);
      assert e[..p] == e[..cut] + e[cut..p];
      AliveJoin(e[..cut], e[cut..p]);
      assert e[cut..][..p - cut] == e[cut..p];
    }
  }

  /** A pointer into a part is a pointer into the whole. */
  lemma PointingInto(a: seq<Element>, b: seq<Element>, c: seq<Element>, p: nat, r: nat)
    requires Pointing(b, p, r)
    ensures Pointing(a + b + c, |a| + p, |Alive(a)| + r)
  {
    var e := a + b + c;
    assert e[..|a| + p] == a + b[..p];
    AliveJoin(a, b[..p]);
  }

  /** The index: pointers to elements of given ranks. */
  ghost predicate Points(e: seq<Element>, p: seq<nat>, r: seq<nat>) {
    |p| == |r| && forall g | 0 <= g < |p| :: Pointing(e, p[g], r[g])
  }

  ghost predicate Rising(r: seq<nat>) {
    forall g, h | 0 <= g < h < |r| :: r[g] < r[h]
  }

  lemma PointersRise(e: seq<Element>, p: seq<nat>, r: seq<nat>)
    requires Points(e, p, r) && Rising(r)
    ensures Rising(p)
  {
    hide Pointing;
    forall g, h | 0 <= g < h < |p| ensures p[g] < p[h] {
      assert Pointing(e, p[g], r[g]) && Pointing(e, p[h], r[h]);
      PointingOrder(e, p[g], r[g], p[h], r[h]);
    }
  }

  /** The next occupied cell, or the end. */
  method NextLive(elements: array<Element>, pos: nat) returns (next: nat)
    requires pos < elements.Length
    ensures pos < next <= elements.Length && (next < elements.Length ==> Live(elements[next]))
    ensures forall q | pos < q < next :: !Live(elements[q])
  {
    next := pos + 1;
    while next < elements.Length && elements[next].0 < 0
      invariant pos < next <= elements.Length && forall q | pos < q < next :: !Live(elements[q])
    {
      next := next + 1;
    }
  }

  lemma NextPointing(e: seq<Element>, pos: nat, r: nat, next: nat)
    requires Pointing(e, pos, r) && pos < next <= |e| && (next < |e| ==> Live(e[next])) && forall q | pos < q < next :: !Live(e[q])
    ensures |Alive(e[..next])| == r + 1
    ensures next < |e| <==> r + 1 < |Alive(e)|
    ensures next < |e| ==> Pointing(e, next, r + 1)
  {
    assert e[..next] == e[..pos] + [e[pos]] + e[pos + 1..next];
    AliveJoin(e[..pos] + [e[pos]], e[pos + 1..next]);
    AliveJoin(e[..pos], [e[pos]]);
    AliveOne(e[pos]);
    NoneAlive(e[pos + 1..next]);
    if next < |e| {
      PointingAt(e, next, r + 1);
    } else {
      assert e[..next] == e;
    }
  }

  /** The element of a rank has a cell. */
  lemma {:induction false} CellOf(e: seq<Element>, r: nat) returns (p: nat)
    requires r < |Alive(e)|
    ensures Pointing(e, p, r)
  {
    var n := |e| - 1;
    if r < |Alive(e[..n])| {
      p := CellOf(e[..n], r);
      assert e[..n][..p] == e[..p];
    } else {
      p := n;
    }
  }
}
