/** The index of BTreePMA_v2: pointers into the packed array, each with the number of elements up to the next
    pointer and, but for the first, a separator that is the key of the element it leads to. */
module PackedIndex {
  import opened Sequences
  import opened LiveCells
  import opened PackedSegments
  import opened Trees
  import opened TreeScan

  /** The ranks of the elements the pointers lead to. */
  ghost function Ranks(c: seq<nat>): (r: seq<nat>)
    ensures |r| == |c| && forall g | 0 <= g < |c| :: r[g] == Sum(c, 0, g)
  {
    seq(|c|, g requires 0 <= g < |c| => Sum(c, 0, g))
  }

  ghost predicate Counted(c: seq<nat>, most: nat, n: nat) {
    Sum(c, 0, |c|) == n && forall g | 0 <= g < |c| :: 1 <= c[g] <= most
  }

  /** Each separator is the key of the element that its pointer leads to. */
  ghost predicate Separated(a: seq<Element>, c: seq<nat>, k: seq<int>) {
    |c| == |k| + 1 && forall g | 0 <= g < |k| :: SeparatedAt(a, c, k, g)
  }

  ghost predicate SeparatedAt(a: seq<Element>, c: seq<nat>, k: seq<int>, g: nat)
    requires g < |k| && g < |c|
  {
    Sum(c, 0, g + 1) < |a| && k[g] == a[Sum(c, 0, g + 1)].0
  }

  /** The index fits the array. */
  ghost predicate Indexed(e: seq<Element>, p: seq<nat>, c: seq<nat>, k: seq<int>, most: nat) {
    Points(e, p, Ranks(c)) && Counted(c, most, |Alive(e)|) && Separated(Alive(e), c, k)
  }

  lemma {:induction false} SumRises(c: seq<nat>, g: nat, h: nat)
    requires g < h <= |c| && forall i | 0 <= i < |c| :: 1 <= c[i]
    ensures Sum(c, 0, g) < Sum(c, 0, h)
    decreases h
  {
    assert Sum(c, 0, h) == Sum(c, 0, h - 1) + c[h - 1];
    if g < h - 1 {
      SumRises(c, g, h - 1);
    }
  }

  lemma RanksRise(c: seq<nat>)
    requires forall i | 0 <= i < |c| :: 1 <= c[i]
    ensures Rising(Ranks(c)) && forall g | 0 <= g < |c| :: Ranks(c)[g] < Sum(c, 0, |c|)
  {
    var r := Ranks(c);
    forall g, h | 0 <= g < h < |r| ensures r[g] < r[h] {
      SumRises(c, g, h);
    }
    forall g | 0 <= g < |c| ensures r[g] < Sum(c, 0, |c|) {
      SumRises(c, g, |c|);
    }
  }

  /** One element more for the pointer `i`. */
  lemma RanksAfter(c: seq<nat>, i: nat, g: nat)
    requires i < |c| && g <= |c|
    ensures Sum(c[i := c[i] + 1], 0, g) == Sum(c, 0, g) + if i < g then 1 else 0
  {
    var d := c[i := c[i] + 1];
    if g <= i {
      SumFrame(c, d, 0, g);
    } else {
      SumFrame(c, d, 0, i);
      SumFrame(c, d, i + 1, g);
      SumSplit(c, 0, i, g);
      SumSplit(c, i, i + 1, g);
      SumSplit(d, 0, i, g);
      SumSplit(d, i, i + 1, g);
    }
  }

  /** The rank at which a new element with this key goes when the search has come to pointer `i`. */
  ghost predicate Belongs(a: seq<Element>, r: seq<nat>, i: nat, key: int, q: nat) {
    && i < |r| && q <= |a| && r[i] <= q && (0 < i ==> r[i] < q) && (i + 1 < |r| ==> q <= r[i + 1])
    && (forall j | 0 <= j < q :: a[j].0 < key) && (forall j | q <= j < |a| :: key <= a[j].0)
  }

  /** What becomes of a pointer when the cells from `pos` to `gap` move right. */
  function Followed(p: nat, pos: nat, gap: nat): (q: nat) {
    if pos <= p < gap then p + 1 else p
  }

  /** After an insertion the pointers lead to the elements they led to; if the new element is the very first
      one, the first pointer leads to it. */
  lemma PointsInserted(e: seq<Element>, p: seq<nat>, r: seq<nat>, i: nat, pos: nat, gap: nat, x: Element, p': seq<nat>, r': seq<nat>)
    requires Points(e, p, r) && Rising(r) && 0 < |r| == |r'| == |p'| && r[0] == 0
    requires pos <= gap < |e| && !Live(e[gap]) && Live(x) && Belongs(Alive(e), r, i, x.0, |Alive(e[..pos])|)
    requires forall g | 0 <= g < |r| :: r'[g] == r[g] + (if i < g then 1 else 0)
    requires forall g | 0 <= g < |r| :: p'[g] == if g == i && pos < Followed(p[g], pos, gap) then pos else Followed(p[g], pos, gap)
    ensures Points(Shifted(e, pos, gap, x), p', r')
  {
    hide Alive, Pointing, Shifted;
    var e', q := Shifted(e, pos, gap, x), |Alive(e[..pos])|;
    forall g | 0 <= g < |r| ensures Pointing(e', p'[g], r'[g]) {
      assert Pointing(e, p[g], r[g]);
      ShiftedPointing(e, pos, gap, x, p[g], r[g]);
      PointingCut(e, p[g], r[g], pos);
      if g == i && r[i] == q {
        assert i == 0;
        ShiftedNew(e, pos, gap, x);
        FirstBehind(e, p[0], pos, gap);
      } else if g <= i {
        assert g < i ==> r[g] < r[i];
      } else {
        assert r[i + 1] <= r[g];
      }
    }
  }

  lemma FirstBehind(e: seq<Element>, p: nat, pos: nat, gap: nat)
    requires pos <= p && pos <= gap < |e| && !Live(e[gap]) && Pointing(e, p, |Alive(e[..pos])|)
    ensures pos < Followed(p, pos, gap)
  {
  }

  /** The separators after an insertion. */
  lemma SeparatedInserted(a: seq<Element>, c: seq<nat>, k: seq<int>, i: nat, x: Element, q: nat)
    requires Separated(a, c, k) && i < |c| && Belongs(a, Ranks(c), i, x.0, q) && forall g | 0 <= g < |c| :: 1 <= c[g]
    ensures Separated(InsertAt(a, q, x), c[i := c[i] + 1], k)
  {
    var a', c' := InsertAt(a, q, x), c[i := c[i] + 1];
    forall g | 0 <= g < |k| ensures SeparatedAt(a', c', k, g) {
      assert SeparatedAt(a, c, k, g);
      RanksAfter(c, i, g + 1);
      if g + 1 <= i {
        if g + 1 < i {
          SumRises(c, g + 1, i);
        }
        assert a'[Sum(c, 0, g + 1)] == a[Sum(c, 0, g + 1)];
      } else {
        if i + 1 < g + 1 {
          SumRises(c, i + 1, g + 1);
        }
        assert Ranks(c)[i + 1] == Sum(c, 0, i + 1);
        assert a'[Sum(c, 0, g + 1) + 1] == a[Sum(c, 0, g + 1)];
      }
    }
  }

  lemma SortedInserted(a: seq<Element>, r: seq<nat>, i: nat, x: Element, q: nat)
    requires Sorted(a) && Belongs(a, r, i, x.0, q)
    ensures q == First(a, x.0) && Sorted(InsertAt(a, q, x))
  {
    FirstIs(a, x.0, q);
    var b := InsertAt(a, q, x);
    forall j, l | 0 <= j < l < |b| ensures b[j].0 <= b[l].0 {
      assert b[j] == if j < q then a[j] else if j == q then x else a[j - 1];
      assert b[l] == if l < q then a[l] else if l == q then x else a[l - 1];
    }
  }

  /** The counts after pointer `i` has given all but `h` of its elements to a new pointer. */
  function Halved(c: seq<nat>, i: nat, h: nat): (d: seq<nat>)
    requires i < |c| && h <= c[i]
  {
    c[..i] + [h, c[i] - h] + c[i + 1..]
  }

  /** A new pointer to the middle of the elements of pointer `i`. */
  lemma AugmentedRanks(c: seq<nat>, i: nat, h: nat, g: nat)
    requires i < |c| && h <= c[i] && g <= |c| + 1
    ensures var c' := Halved(c, i, h);
            |c'| == |c| + 1 && Sum(c', 0, g) == if g <= i then Sum(c, 0, g) else if g == i + 1 then Sum(c, 0, i) + h else Sum(c, 0, g - 1)
  {
    var c' := Halved(c, i, h);
    SumFrame(c, c', 0, if g <= i then g else i);
    if i < g {
      assert Sum(c', 0, i + 1) == Sum(c', 0, i) + c'[i];
      if i + 1 < g {
        AugmentedTail(c, c', i, h, g);
      }
    }
  }

  lemma {:induction false} AugmentedTail(c: seq<nat>, c': seq<nat>, i: nat, h: nat, g: nat)
    requires i < |c| && h <= c[i] && i + 2 <= g <= |c| + 1 && c' == Halved(c, i, h)
    requires Sum(c', 0, i + 1) == Sum(c, 0, i) + h
    ensures Sum(c', 0, g) == Sum(c, 0, g - 1)
    decreases g
  {
    assert Sum(c', 0, g) == Sum(c', 0, g - 1) + c'[g - 1];
    if i + 2 < g {
      AugmentedTail(c, c', i, h, g - 1);
      assert c'[g - 1] == c[g - 2];
    } else {
      assert Sum(c, 0, i + 1) == Sum(c, 0, i) + c[i];
    }
  }

  lemma AugmentedPoints(e: seq<Element>, p: seq<nat>, c: seq<nat>, i: nat, h: nat, at: nat)
    requires Points(e, p, Ranks(c)) && i < |c| && h <= c[i] && Pointing(e, at, Ranks(c)[i] + h)
    ensures Points(e, InsertAt(p, i + 1, at), Ranks(Halved(c, i, h)))
  {
    hide Alive, Pointing, Sum;
    var c', p' := Halved(c, i, h), InsertAt(p, i + 1, at);
    forall g | 0 <= g < |c'| ensures Pointing(e, p'[g], Ranks(c')[g]) {
      AugmentedRanks(c, i, h, g);
      if g != i + 1 {
        var o := if g <= i then g else g - 1;
        assert p'[g] == p[o] && Pointing(e, p[o], Ranks(c)[o]);
      }
    }
  }

  lemma AugmentedSeparated(a: seq<Element>, c: seq<nat>, k: seq<int>, i: nat, h: nat)
    requires Separated(a, c, k) && i < |c| && h <= c[i] && Sum(c, 0, i) + h < |a|
    ensures Separated(a, Halved(c, i, h), InsertAt(k, i, a[Sum(c, 0, i) + h].0))
  {
    hide Sum;
    var c', k' := Halved(c, i, h), InsertAt(k, i, a[Sum(c, 0, i) + h].0);
    AugmentedRanks(c, i, h, 0);
    forall g | 0 <= g < |k'| ensures SeparatedAt(a, c', k', g) {
      AugmentedRanks(c, i, h, g + 1);
      if g < i {
        assert k'[g] == k[g] && SeparatedAt(a, c, k, g);
      } else if i < g {
        assert k'[g] == k[g - 1] && SeparatedAt(a, c, k, g - 1);
      }
    }
  }

  /** Splitting the elements of a pointer keeps the index right. */
  lemma Augmented(e: seq<Element>, p: seq<nat>, c: seq<nat>, k: seq<int>, most: nat, i: nat, h: nat, at: nat)
    requires Points(e, p, Ranks(c)) && Sum(c, 0, |c|) == |Alive(e)| && Separated(Alive(e), c, k)
    requires i < |c| && 1 <= h < c[i] && h <= most && c[i] - h <= most && forall g | 0 <= g < |c| :: 1 <= c[g] && (g != i ==> c[g] <= most)
    requires Pointing(e, at, Ranks(c)[i] + h)
    ensures at < |e| && Indexed(e, InsertAt(p, i + 1, at), Halved(c, i, h), InsertAt(k, i, e[at].0), most)
  {
    hide Alive, Pointing, Points, Separated, Sum, Counted, Halved, InsertAt, Live;
    assert Ranks(c)[i] == Sum(c, 0, i);
    hide Ranks;
    PointingAt(e, at, Ranks(c)[i] + h);
    PointingInside(e, at, Ranks(c)[i] + h);
    AugmentedPoints(e, p, c, i, h, at);
    AugmentedSeparated(Alive(e), c, k, i, h);
    AugmentedCounted(c, i, h, most, |Alive(e)|);
  }

  lemma PointingInside(e: seq<Element>, p: nat, r: nat)
    requires Pointing(e, p, r)
    ensures p < |e|
  {
  }

  lemma AugmentedCounted(c: seq<nat>, i: nat, h: nat, most: nat, n: nat)
    requires Sum(c, 0, |c|) == n
    requires i < |c| && 1 <= h < c[i] && h <= most && c[i] - h <= most && forall g | 0 <= g < |c| :: 1 <= c[g] && (g != i ==> c[g] <= most)
    ensures Counted(Halved(c, i, h), most, n)
  {
    hide Sum;
    AugmentedRanks(c, i, h, |c| + 1);
    var d := Halved(c, i, h);
    forall g | 0 <= g < |d| ensures 1 <= d[g] <= most {
      assert d[g] == if g < i then c[g] else if g == i then h else if g == i + 1 then c[i] - h else c[g - 1];
    }
  }
}
