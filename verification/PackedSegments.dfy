/** The segments of BTreePMA_v2's array: each keeps its elements at its left end. */
module PackedSegments {
  import opened Sequences
  import opened Layout
  import opened LiveCells

  /** The `s` cells from `b` on: occupied up to some point and then empty. */
  ghost predicate Packed(e: seq<Element>, b: nat, s: nat) {
    && b + s <= |e| && 1 <= s && Live(e[b])
    && forall p, q | b <= p < q < b + s && Live(e[q]) :: Live(e[p])
  }

  ghost predicate Segmented(e: seq<Element>, s: nat, ns: nat) {
    && 1 <= s && 1 <= ns && |e| == Base(ns, s)
    && forall i | 0 <= i < ns :: Packed(e, Base(i, s), s)
  }

  /** The segment is not full: its last cell is empty. */
  ghost predicate HasRoom(e: seq<Element>, b: nat, s: nat) {
    1 <= s && b + s <= |e| && !Live(e[b + s - 1])
  }

  ghost predicate Roomy(e: seq<Element>, s: nat, ns: nat) {
    forall i | 0 <= i < ns :: HasRoom(e, Base(i, s), s)
  }

  /** The cells from `b` on are the same in both arrays. */
  ghost predicate SameCells(e: seq<Element>, e': seq<Element>, b: nat, s: nat) {
    b + s <= |e| == |e'| && forall p | b <= p < b + s :: e'[p] == e[p]
  }

  lemma SegmentAt(e: seq<Element>, s: nat, ns: nat, i: nat)
    requires Segmented(e, s, ns) && i < ns
    ensures Packed(e, Base(i, s), s) && Base(i + 1, s) == Base(i, s) + s <= |e|
  {
  }

  /** Where the occupied cells of a segment end. */
  ghost predicate Ends(e: seq<Element>, b: nat, s: nat, n: nat) {
    && 1 <= n <= s && b + s <= |e|
    && (forall p | b <= p < b + n :: Live(e[p])) && (forall p | b + n <= p < b + s :: !Live(e[p]))
  }

  lemma EndsAlive(e: seq<Element>, b: nat, s: nat, n: nat)
    requires Ends(e, b, s, n)
    ensures Alive(e[b..b + s]) == e[b..b + n] && |Alive(e[b..b + s])| == n
  {
    var seg := e[b..b + s];
    assert seg == e[b..b + n] + e[b + n..b + s];
    AllAlive(e[b..b + n]);
    NoneAlive(e[b + n..b + s]);
    AliveJoin(e[b..b + n], e[b + n..b + s]);
  }

  /** storage_get_segment_cardinality */
  method SegmentCardinality(elements: array<Element>, s: nat, seg: nat) returns (n: nat)
    requires 1 <= s && Packed(elements[..], Base(seg, s), s)
    ensures Ends(elements[..], Base(seg, s), s, n) && n == |Alive(elements[..][Base(seg, s)..Base(seg, s) + s])|
  {
    hide Base;
    BaseIsProduct(seg, s);
    var start := seg * s;
    var pos := start + s - 1;
    while pos > start && elements[pos].0 < 0
      invariant start <= pos < start + s && forall p | pos < p < start + s :: !Live(elements[p])
    {
      pos := pos - 1;
    }
    n := pos + 1 - start;
    PackedUpTo(elements[..], start, s, pos);
    EndsAlive(elements[..], start, s, n);
  }

  lemma PackedUpTo(e: seq<Element>, b: nat, s: nat, pos: nat)
    requires Packed(e, b, s) && b <= pos < b + s && Live(e[pos])
    ensures forall p | b <= p <= pos :: Live(e[p])
  {
  }

  /** The array with `x` put at `pos` and the cells up to the empty one at `gap` moved right. */
  function Shifted(e: seq<Element>, pos: nat, gap: nat, x: Element): (r: seq<Element>)
    requires pos <= gap < |e|
    ensures |r| == |e|
  {
    e[..pos] + [x] + e[pos..gap] + e[gap + 1..]
  }

  lemma ShiftedAlive(e: seq<Element>, pos: nat, gap: nat, x: Element)
    requires pos <= gap < |e| && !Live(e[gap]) && Live(x)
    ensures var q := |Alive(e[..pos])|;
            q <= |Alive(e)| && Alive(Shifted(e, pos, gap, x)) == InsertAt(Alive(e), q, x)
  {
    hide Alive;
    var l, m, r := e[..pos], e[pos..gap], e[gap + 1..];
    assert e == l + m + [e[gap]] + r;
    AliveJoin(l + m + [e[gap]], r);
    AliveJoin(l + m, [e[gap]]);
    AliveJoin(l, m);
    AliveOne(e[gap]);
    AliveJoin(l + [x] + m, r);
    AliveJoin(l + [x], m);
    AliveJoin(l, [x]);
    AliveOne(x);
    var al, am, ar := Alive(l), Alive(m), Alive(r);
    assert Alive(e) == al + (am + ar);
    assert InsertAt(Alive(e), |al|, x) == al + [x] + (am + ar);
  }

  /** Pointers after the shift. */
  lemma ShiftedPointing(e: seq<Element>, pos: nat, gap: nat, x: Element, p: nat, r: nat)
    requires pos <= gap < |e| && !Live(e[gap]) && Live(x) && Pointing(e, p, r)
    ensures var e' := Shifted(e, pos, gap, x);
            && p != gap
            && (p < pos ==> Pointing(e', p, r) && r < |Alive(e[..pos])|)
            && (pos <= p < gap ==> Pointing(e', p + 1, r + 1) && |Alive(e[..pos])| <= r)
            && (gap < p ==> Pointing(e', p, r + 1) && |Alive(e[..pos])| <= r)
  {
    hide Alive;
    var e' := Shifted(e, pos, gap, x);
    PointingCut(e, p, r, pos);
    if p < pos {
      assert e'[..p] == e[..p];
    } else if p < gap {
      assert e'[..p + 1] == e[..pos] + [x] + e[pos..p];
      assert e[..p] == e[..pos] + e[pos..p];
      AliveJoin(e[..pos] + [x], e[pos..p]);
      AliveJoin(e[..pos], [x]);
      AliveJoin(e[..pos], e[pos..p]);
      AliveOne(x);
    } else {
      assert e[..p] == e[..pos] + e[pos..gap] + [e[gap]] + e[gap + 1..p];
      assert e'[..p] == e[..pos] + [x] + e[pos..gap] + e[gap + 1..p];
      AliveJoin(e[..pos] + e[pos..gap] + [e[gap]], e[gap + 1..p]);
      AliveJoin(e[..pos] + e[pos..gap], [e[gap]]);
      AliveJoin(e[..pos], e[pos..gap]);
      AliveJoin(e[..pos] + [x] + e[pos..gap], e[gap + 1..p]);
      AliveJoin(e[..pos] + [x], e[pos..gap]);
      AliveJoin(e[..pos], [x]);
      AliveOne(x);
      AliveOne(e[gap]);
    }
  }

  lemma ShiftedNew(e: seq<Element>, pos: nat, gap: nat, x: Element)
    requires pos <= gap < |e| && Live(x)
    ensures Pointing(Shifted(e, pos, gap, x), pos, |Alive(e[..pos])|)
  {
    hide Alive;
    assert Shifted(e, pos, gap, x)[..pos] == e[..pos];
  }

  /** The segment of the shift stays packed and so do the others. */
  lemma ShiftedSegments(e: seq<Element>, s: nat, ns: nat, i: nat, pos: nat, gap: nat, x: Element)
    requires Segmented(e, s, ns) && i < ns && Base(i, s) <= pos <= gap < Base(i, s) + s && Live(x)
    requires forall p | Base(i, s) <= p < gap :: Live(e[p])
    requires forall p | gap <= p < Base(i, s) + s :: !Live(e[p])
    ensures |e| == Base(ns, s) && gap < |e|
    ensures Segmented(Shifted(e, pos, gap, x), s, ns)
    ensures forall k | 0 <= k < ns && k != i :: SameCells(e, Shifted(e, pos, gap, x), Base(k, s), s)
  {
    hide Base, Shifted, Packed;
    SegmentAt(e, s, ns, i);
    var e' := Shifted(e, pos, gap, x);
    forall k | 0 <= k < ns && k != i ensures SameCells(e, e', Base(k, s), s) && Packed(e', Base(k, s), s) {
      SegmentAt(e, s, ns, k);
      Apart(s, i, k);
      ShiftedElsewhere(e, pos, gap, x, Base(k, s), s);
      PackedSame(e, e', Base(k, s), s);
    }
    ShiftedPacked(e, pos, gap, x, Base(i, s), s);
  }

  lemma ShiftedElsewhere(e: seq<Element>, pos: nat, gap: nat, x: Element, b: nat, s: nat)
    requires pos <= gap < |e| && b + s <= |e| && (b + s <= pos || gap < b)
    ensures SameCells(e, Shifted(e, pos, gap, x), b, s)
  {
  }

  lemma PackedSame(e: seq<Element>, e': seq<Element>, b: nat, s: nat)
    requires Packed(e, b, s) && SameCells(e, e', b, s)
    ensures Packed(e', b, s)
  {
  }

  lemma ShiftedPacked(e: seq<Element>, pos: nat, gap: nat, x: Element, b: nat, s: nat)
    requires b <= pos <= gap < b + s <= |e| && Live(x)
    requires (forall p | b <= p < gap :: Live(e[p])) && (forall p | gap <= p < b + s :: !Live(e[p]))
    ensures Packed(Shifted(e, pos, gap, x), b, s)
  {
  }

  lemma Apart(s: nat, i: nat, k: nat)
    ensures i < k ==> Base(i, s) + s <= Base(k, s)
    ensures k < i ==> Base(k, s) + s <= Base(i, s)
  {
  }

  /** The segment of a cell. */
  lemma SegmentOf(s: nat, ns: nat, p: nat) returns (i: nat)
    requires 1 <= s && p < Base(ns, s)
    ensures i == p / s && i < ns && Base(i, s) <= p < Base(i, s) + s
  {
    i := p / s;
    BaseIsProduct(i, s);
    BaseIsProduct(ns, s);
    assert p == i * s + p % s;
    if ns <= i {
      BaseLe(ns, i, s);
    }
  }
}
