/** ABTree::rotate_left, rotate_right, merge and rebalance_lb: a child that has lost an entry takes
    some from a sibling or is merged with it. */
module TreeBalance {
  import opened Trees
  import opened TreeMemory
  import opened TreeInsert
  import TreeRotate

  /** Two siblings under one inner node. */
  ghost predicate PairAt(mem: Memory, c: Config, node: Ptr, i: nat, h: nat, l: Tree, r: Tree, a: seq<Ptr>, b: seq<Ptr>)
    reads mem
  {
    && c.Valid() && node in mem.cells && mem.cells[node].InnerCell?
    && i + 1 < |mem.cells[node].kids| == |mem.cells[node].keys| + 1
    && mem.cells[node].kids[i] == l.at && mem.cells[node].kids[i + 1] == r.at && node !in AddrsOf([l, r])
    && StoredAll(mem.cells, [l, r]) && DistinctOf([l, r])
    && Ok(c, l, h, c.Lower(h) - 1, c.Upper(h)) && Ok(c, r, h, c.Lower(h) - 1, c.Upper(h))
    && Starts(r, mem.cells[node].keys[i])
    && Chained(mem, a + LeavesOf([l, r]) + b)
  }

  /** The entries of two siblings, divided anew after the first `n`. */
  function Cut(l: Tree, r: Tree, sep: int, n: nat): (t: (Tree, int, Tree))
    requires l.Leaf? == r.Leaf? && 0 < n < Size(l) + Size(r)
    requires l.Inner? ==> |l.keys| + 1 == |l.kids| && |r.keys| + 1 == |r.kids|
  {
    if l.Leaf? then
      var all := l.items + r.items;
      (Leaf(l.at, all[..n]), all[n].0, Leaf(r.at, all[n..]))
    else
      var keys, kids := l.keys + [sep] + r.keys, l.kids + r.kids;
      (Inner(l.at, keys[..n - 1], kids[..n]), keys[n - 1], Inner(r.at, keys[n..], kids[n..]))
  }

  lemma ForestJoin(c: Config, a: seq<Tree>, ak: seq<int>, sep: int, b: seq<Tree>, bk: seq<int>, h: nat)
    requires Forest(c, a, ak, h) && Forest(c, b, bk, h) && Starts(b[0], sep)
    ensures Forest(c, a + b, ak + [sep] + bk, h)
  {
    var ts, keys := a + b, ak + [sep] + bk;
    forall i | 0 <= i < |keys| ensures Starts(ts[i + 1], keys[i]) {
      if |a| <= i {
        assert ts[i + 1] == b[i - |a| + 1] && keys[i] == bk[i - |a|];
      }
    }
  }

  lemma ForestSlice(c: Config, ts: seq<Tree>, keys: seq<int>, h: nat, i: nat, j: nat)
    requires Forest(c, ts, keys, h) && i < j <= |ts|
    ensures Forest(c, ts[i..j], keys[i..j - 1], h)
    ensures 0 < i ==> Starts(ts[i..j][0], keys[i - 1])
  {
    var r, rk := ts[i..j], keys[i..j - 1];
    forall k | 0 <= k < |rk| ensures Starts(r[k + 1], rk[k]) {
      assert Starts(ts[i + k + 1], keys[i + k]);
    }
    if 0 < i {
      assert Starts(ts[i - 1 + 1], keys[i - 1]);
    }
  }

  lemma StartsInner(c: Config, ts: seq<Tree>, keys: seq<int>, h: nat, k: int, at: Ptr)
    requires c.Valid() && Forest(c, ts, keys, h)
    ensures Starts(Inner(at, keys, ts), k) <==> Starts(ts[0], k)
  {
    NotEmpty(c, ts[0], h, c.Lower(h), c.Upper(h));
    FirstOf(ts);
  }

  /** Wherever two siblings are divided within the bounds, the two parts are proper siblings with
      the same contents and leaves. */
  lemma CutOk(c: Config, l: Tree, r: Tree, sep: int, n: nat, h: nat)
    requires c.Valid() && Ok(c, l, h, c.Lower(h) - 1, c.Upper(h)) && Ok(c, r, h, c.Lower(h) - 1, c.Upper(h)) && Starts(r, sep)
    requires c.Lower(h) <= n <= c.Upper(h) && c.Lower(h) <= Size(l) + Size(r) - n <= c.Upper(h)
    ensures l.Leaf? == r.Leaf? && (l.Inner? ==> |l.keys| + 1 == |l.kids| && |r.keys| + 1 == |r.kids|)
    ensures var (l', k, r') := Cut(l, r, sep, n);
            && Forest(c, [l', r'], [k], h)
            && Items(l') + Items(r') == Items(l) + Items(r) && Leaves(l') + Leaves(r') == Leaves(l) + Leaves(r)
  {
    hide ItemsOf, LeavesOf, AddrsOf;
    if l.Inner? {
      CutInner(c, l, r, sep, n, h);
    } else {
      assert (l.items + r.items)[n] == (l.items + r.items)[n..][0];
    }
  }

  lemma CutInner(c: Config, l: Tree, r: Tree, sep: int, n: nat, h: nat)
    requires c.Valid() && 0 < h && l.Inner? && r.Inner? && Forest(c, l.kids, l.keys, h - 1) && Forest(c, r.kids, r.keys, h - 1) && Starts(r, sep)
    requires c.Lower(h) <= n <= c.Upper(h) && c.Lower(h) <= Size(l) + Size(r) - n <= c.Upper(h)
    ensures var (l', k, r') := Cut(l, r, sep, n);
            && Forest(c, [l', r'], [k], h)
            && Items(l') + Items(r') == Items(l) + Items(r) && Leaves(l') + Leaves(r') == Leaves(l) + Leaves(r)
  {
    hide ItemsOf, LeavesOf, Forest, Starts;
    ForestShape(c, l.kids, l.keys, h - 1);
    ForestShape(c, r.kids, r.keys, h - 1);
    var (l', k, r') := Cut(l, r, sep, n);
    var keys, kids := l.keys + [sep] + r.keys, l.kids + r.kids;
    StartsInner(c, r.kids, r.keys, h - 1, sep, r.at);
    ForestJoin(c, l.kids, l.keys, sep, r.kids, r.keys, h - 1);
    ForestSlice(c, kids, keys, h - 1, 0, n);
    ForestSlice(c, kids, keys, h - 1, n, |kids|);
    assert kids[..n] == kids[0..n] && kids[n..] == kids[n..|kids|] && keys[..n - 1] == keys[0..n - 1] && keys[n..] == keys[n..|kids| - 1];
    StartsInner(c, r'.kids, r'.keys, h - 1, k, r'.at);
    assert kids == l'.kids + r'.kids;
    ItemsJoin(l.kids, r.kids);
    ItemsJoin(l'.kids, r'.kids);
    LeavesJoin(l.kids, r.kids);
    LeavesJoin(l'.kids, r'.kids);
    PairForest(c, l', r', k, h);
  }

  lemma ForestShape(c: Config, ts: seq<Tree>, keys: seq<int>, h: nat)
    requires Forest(c, ts, keys, h)
    ensures |keys| + 1 == |ts|
  {
  }

  lemma PairForest(c: Config, l: Tree, r: Tree, k: int, h: nat)
    requires Ok(c, l, h, c.Lower(h), c.Upper(h)) && Ok(c, r, h, c.Lower(h), c.Upper(h)) && Starts(r, k)
    ensures Forest(c, [l, r], [k], h)
  {
  }

  lemma CutStored(m: map<Ptr, Cell>, m': map<Ptr, Cell>, l: Tree, r: Tree, sep: int, n: nat)
    requires l.Leaf? == r.Leaf? && 0 < n < Size(l) + Size(r)
    requires l.Inner? ==> |l.keys| + 1 == |l.kids| && |r.keys| + 1 == |r.kids|
    requires StoredAll(m, [l, r]) && DistinctOf([l, r])
    requires var (l', _, r') := Cut(l, r, sep, n);
             m' == m[l.at := CellOf(l')][r.at := CellOf(r')]
    ensures var (l', _, r') := Cut(l, r, sep, n);
            StoredAll(m', [l', r']) && DistinctOf([l', r']) && Framed(m, m', AddrsOf([l, r]), AddrsOf([l', r']))
  {
    hide AddrsOf, DistinctOf, StoredAll;
    var (l', _, r') := Cut(l, r, sep, n);
    StoredAllAddrs(m, [l, r]);
    PairStored(m, l, r);
    PairApart(l, r);
    if l.Inner? {
      var kids := l.kids + r.kids;
      AddrsJoin(l.kids, r.kids);
      AddrsJoin(l'.kids, r'.kids);
      assert kids == l'.kids + r'.kids;
      StoredJoin(m, l, r);
      StoredAllFrame(m, m', kids);
      StoredSlice(m', kids, 0, n);
      StoredSlice(m', kids, n, |kids|);
      assert kids[0..n] == l'.kids && kids[n..|kids|] == r'.kids;
      Fold(m', l');
      Fold(m', r');
    }
    TwoApart(l', r');
    StoredPair(m', l', r');
  }

  function CellOf(t: Tree): (c: Cell) {
    if t.Leaf? then LeafCell(t.items) else InnerCell(t.keys, Ats(t.kids))
  }

  lemma PairApart(l: Tree, r: Tree)
    requires DistinctOf([l, r])
    ensures Distinct(l) && Distinct(r) && Addrs(l) !! Addrs(r) && AddrsOf([l, r]) == Addrs(l) + Addrs(r)
  {
    hide Addrs, Distinct;
    One(r);
    assert [l, r][1..] == [r];
  }

  lemma StoredPair(m: map<Ptr, Cell>, l: Tree, r: Tree)
    requires Stored(m, l) && Stored(m, r)
    ensures StoredAll(m, [l, r])
  {
  }

  lemma StoredJoin(m: map<Ptr, Cell>, l: Tree, r: Tree)
    requires l.Inner? && r.Inner? && Stored(m, l) && Stored(m, r)
    ensures StoredAll(m, l.kids + r.kids)
  {
  }

  lemma StoredSlice(m: map<Ptr, Cell>, ts: seq<Tree>, i: nat, j: nat)
    requires StoredAll(m, ts) && i <= j <= |ts|
    ensures StoredAll(m, ts[i..j])
  {
  }

  /** Both rotations, once the cells are written: the siblings are divided anew. */
  lemma Rotated(mem: Memory, m: map<Ptr, Cell>, c: Config, node: Ptr, i: nat, h: nat, l: Tree, r: Tree, n: nat, a: seq<Ptr>, b: seq<Ptr>)
    returns (w: seq<Tree>, wk: seq<int>)
    requires c.Valid() && StoredAll(m, [l, r]) && DistinctOf([l, r]) && node !in AddrsOf([l, r])
    requires Ok(c, l, h, c.Lower(h) - 1, c.Upper(h)) && Ok(c, r, h, c.Lower(h) - 1, c.Upper(h))
    requires node in m && m[node].InnerCell? && i < |m[node].keys| && Starts(r, m[node].keys[i])
    requires c.Lower(h) <= n <= c.Upper(h) && c.Lower(h) <= Size(l) + Size(r) - n <= c.Upper(h)
    requires l.Leaf? == r.Leaf? && (l.Inner? ==> |l.keys| + 1 == |l.kids| && |r.keys| + 1 == |r.kids|)
    requires var (l', k, r') := Cut(l, r, m[node].keys[i], n);
             mem.cells == m[l.at := CellOf(l')][r.at := CellOf(r')][node := InnerCell(m[node].keys[i := k], m[node].kids)]
    requires Linked(mem.next, mem.prev, a + LeavesOf([l, r]) + b) && forall p | p in a + LeavesOf([l, r]) + b :: p in m && m[p].LeafCell?
    ensures |w| == 2 && |wk| == 1 && w[0].at == l.at && w[1].at == r.at && ItemsOf(w) == ItemsOf([l, r])
    ensures Size(w[0]) == n && Size(w[1]) == Size(l) + Size(r) - n
    ensures ChildIs(mem, m, c, node, [l, r], h, w, wk, m[node].keys[i := wk[0]], m[node].kids, a, b)
  {
    hide Framed, Linked, AddrsOf, DistinctOf, Stored, StoredAll, ItemsOf, LeavesOf, Forest, Ok, Starts, Items, Leaves, Addrs, Distinct;
    var (l', k, r') := Cut(l, r, m[node].keys[i], n);
    w, wk := [l', r'], [k];
    var m1 := m[l.at := CellOf(l')][r.at := CellOf(r')];
    CutOk(c, l, r, m[node].keys[i], n, h);
    CutStored(m, m1, l, r, m[node].keys[i], n);
    Untouched(m, m1, AddrsOf([l, r]), AddrsOf(w), node);
    ParentCell(m, m1, mem.cells, node, AddrsOf([l, r]), w, InnerCell(m[node].keys[i := k], m[node].kids));
    PairOf(l, r);
    PairOf(l', r');
    PairStored(m, l, r);
    KindAt(m, l);
    KindAt(m, r);
  }

  lemma KindAt(m: map<Ptr, Cell>, t: Tree)
    requires Stored(m, t)
    ensures t.at in m && m[t.at].LeafCell? == t.Leaf?
  {
  }

  /** The last `need` entries of the left sibling go to the front of the right one. */
  method RotateRight(mem: Memory, c: Config, node: Ptr, i: nat, h: nat, need: nat, ghost l: Tree, ghost r: Tree, ghost a: seq<Ptr>, ghost b: seq<Ptr>)
    returns (ghost w: seq<Tree>, ghost wk: seq<int>)
    requires c.Valid() && PairAt(mem, c, node, i, h, l, r, a, b) && 1 <= need <= 2
    requires Size(r) + 1 == c.Lower(h) && c.Lower(h) + need <= Size(l)
    modifies mem`cells
    ensures |w| == 2 && |wk| == 1 && w[0].at == l.at && w[1].at == r.at && ItemsOf(w) == ItemsOf([l, r])
    ensures Size(w[0]) == Size(l) - need && Size(w[1]) == Size(r) + need
    ensures ChildIs(mem, old(mem.cells), c, node, [l, r], h, w, wk, old(mem.cells[node].keys)[i := wk[0]], old(mem.cells[node].kids), a, b)
  {
    hide Framed, Linked, AddrsOf, DistinctOf, ItemsOf, LeavesOf, Forest, Starts;
    ghost var m := mem.cells;
    var keys, kids := mem.cells[node].keys, mem.cells[node].kids;
    var at1: Ptr, at2: Ptr := kids[i], kids[i + 1];
    PairStored(mem.cells, l, r);
    PairShape(c, l, r, h);
    ghost var n := Size(l) - need;
    if h == 0 {
      var l1, l2 := mem.cells[at1].items, mem.cells[at2].items;
      var l1', l2' := TreeRotate.LeafRight(l1, l2, need);
      assert (l1 + l2)[n..] == l2' && (l1 + l2)[..n] == l1';
      mem.cells := mem.cells[at1 := LeafCell(l1')][at2 := LeafCell(l2')][node := InnerCell(keys[i := l2'[0].0], kids)];
    } else {
      var n1, n2 := mem.cells[at1], mem.cells[at2];
      var k1, c1, pivot, k2, c2 := TreeRotate.InnerRight(n1.keys, n1.kids, keys[i], n2.keys, n2.kids, need);
      CutRight(l, r, keys[i], need);
      mem.cells := mem.cells[at1 := InnerCell(k1, c1)][at2 := InnerCell(k2, c2)][node := InnerCell(keys[i := pivot], kids)];
    }
    w, wk := Rotated(mem, m, c, node, i, h, l, r, n, a, b);
  }

  lemma PairShape(c: Config, l: Tree, r: Tree, h: nat)
    requires c.Valid() && Ok(c, l, h, c.Lower(h) - 1, c.Upper(h)) && Ok(c, r, h, c.Lower(h) - 1, c.Upper(h))
    ensures l.Leaf? == r.Leaf? == (h == 0)
    ensures l.Inner? ==> |l.keys| + 1 == |l.kids| && |r.keys| + 1 == |r.kids|
  {
  }

  lemma CutRight(l: Tree, r: Tree, sep: int, need: nat)
    requires l.Inner? && r.Inner? && |l.keys| + 1 == |l.kids| && |r.keys| + 1 == |r.kids| && 1 <= need < |l.kids|
    ensures var cut := |l.kids| - need;
            var (l', k, r') := Cut(l, r, sep, cut);
            && k == l.keys[cut - 1]
            && CellOf(l') == InnerCell(l.keys[..cut - 1], Ats(l.kids)[..cut])
            && CellOf(r') == InnerCell(l.keys[cut..] + [sep] + r.keys, Ats(l.kids)[cut..] + Ats(r.kids))
  {
    var cut := |l.kids| - need;
    var (l', k, r') := Cut(l, r, sep, cut);
    assert Ats(l'.kids) == Ats(l.kids)[..cut];
    assert Ats(r'.kids) == Ats(l.kids)[cut..] + Ats(r.kids);
    assert l'.keys == l.keys[..cut - 1];
    assert r'.keys == l.keys[cut..] + [sep] + r.keys;
  }

  lemma CutLeft(l: Tree, r: Tree, sep: int, need: nat)
    requires l.Inner? && r.Inner? && |l.keys| + 1 == |l.kids| && |r.keys| + 1 == |r.kids| && 1 <= need < |r.kids| && 0 < |l.kids|
    ensures var (l', k, r') := Cut(l, r, sep, |l.kids| + need);
            && k == r.keys[need - 1]
            && CellOf(l') == InnerCell(l.keys + [sep] + r.keys[..need - 1], Ats(l.kids) + Ats(r.kids)[..need])
            && CellOf(r') == InnerCell(r.keys[need..], Ats(r.kids)[need..])
  {
    var (l', k, r') := Cut(l, r, sep, |l.kids| + need);
    assert Ats(l'.kids) == Ats(l.kids) + Ats(r.kids)[..need];
    assert Ats(r'.kids) == Ats(r.kids)[need..];
    assert l'.keys == l.keys + [sep] + r.keys[..need - 1];
    assert r'.keys == r.keys[need..];
  }

  /** The first `need` entries of the right sibling go to the end of the left one. */
  method RotateLeft(mem: Memory, c: Config, node: Ptr, i: nat, h: nat, need: nat, ghost l: Tree, ghost r: Tree, ghost a: seq<Ptr>, ghost b: seq<Ptr>)
    returns (ghost w: seq<Tree>, ghost wk: seq<int>)
    requires c.Valid() && PairAt(mem, c, node, i, h, l, r, a, b) && 1 <= need <= 2
    requires Size(l) + 1 == c.Lower(h) && c.Lower(h) + need <= Size(r)
    modifies mem`cells
    ensures |w| == 2 && |wk| == 1 && w[0].at == l.at && w[1].at == r.at && ItemsOf(w) == ItemsOf([l, r])
    ensures Size(w[0]) == Size(l) + need && Size(w[1]) == Size(r) - need
    ensures ChildIs(mem, old(mem.cells), c, node, [l, r], h, w, wk, old(mem.cells[node].keys)[i := wk[0]], old(mem.cells[node].kids), a, b)
  {
    hide Framed, Linked, AddrsOf, DistinctOf, ItemsOf, LeavesOf, Forest, Starts;
    ghost var m := mem.cells;
    var keys, kids := mem.cells[node].keys, mem.cells[node].kids;
    var at1: Ptr, at2: Ptr := kids[i], kids[i + 1];
    PairStored(mem.cells, l, r);
    PairShape(c, l, r, h);
    ghost var n := Size(l) + need;
    if h == 0 {
      var l1, l2 := mem.cells[at1].items, mem.cells[at2].items;
      var l1', l2' := TreeRotate.LeafLeft(l1, l2, need);
      assert (l1 + l2)[..n] == l1' && (l1 + l2)[n..] == l2';
      mem.cells := mem.cells[at1 := LeafCell(l1')][at2 := LeafCell(l2')][node := InnerCell(keys[i := l2'[0].0], kids)];
    } else {
      var n1, n2 := mem.cells[at1], mem.cells[at2];
      var k1, c1, pivot, k2, c2 := TreeRotate.InnerLeft(n1.keys, n1.kids, keys[i], n2.keys, n2.kids, need);
      CutLeft(l, r, keys[i], need);
      mem.cells := mem.cells[at1 := InnerCell(k1, c1)][at2 := InnerCell(k2, c2)][node := InnerCell(keys[i := pivot], kids)];
    }
    w, wk := Rotated(mem, m, c, node, i, h, l, r, n, a, b);
  }

  lemma LinkedMerge(next: map<Ptr, Link>, prev: map<Ptr, Link>, a: seq<Ptr>, x: Ptr, y: Ptr, b: seq<Ptr>)
    requires Linked(next, prev, a + [x, y] + b)
    ensures x in next && y in next && y !in a + [x] + b
    ensures var next' := next[x := next[y]];
            var prev' := if next[y].To? then prev[next[y].p := To(x)] else prev;
            Linked(next' - {y}, prev' - {y}, a + [x] + b)
  {
    hide Linked;
    var l, l' := a + [x, y] + b, a + [x] + b;
    var n := |a|;
    assert l[n] == x && l[n + 1] == y;
    ChainAt(next, prev, l, n, n);
    ChainAt(next, prev, l, n + 1, n);
    var next' := next[x := next[y]];
    var prev' := if next[y].To? then prev[next[y].p := To(x)] else prev;
    forall i | 0 <= i < |l'| ensures l'[i] != y && LinkedAt(next' - {y}, prev' - {y}, l', i) {
      var j := if i <= n then i else i + 1;
      assert l'[i] == l[j];
      ChainAt(next, prev, l, j, n);
      ChainAt(next, prev, l, j, n + 1);
      ChainAt(next, prev, l, j, n + 2);
      MergedNeighbours(a, x, y, b, i);
    }
    LinkedByAll(next' - {y}, prev' - {y}, l');
  }

  /** The neighbours in the shorter chain. */
  lemma MergedNeighbours(a: seq<Ptr>, x: Ptr, y: Ptr, b: seq<Ptr>, i: nat)
    requires i < |a| + 1 + |b|
    ensures var l, l', n := a + [x, y] + b, a + [x] + b, |a|;
            var j := if i <= n then i else i + 1;
            && LinkAt(l', i + 1) == (if i == n then LinkAt(l, n + 2) else LinkAt(l, j + 1))
            && LinkAt(l', i - 1) == (if i == n + 1 then To(x) else LinkAt(l, j - 1))
  {
  }

  /** Two siblings as one node at the left one's address. */
  function Joined(l: Tree, r: Tree, sep: int): (t: Tree)
    requires l.Leaf? == r.Leaf?
  {
    if l.Leaf? then Leaf(l.at, l.items + r.items) else Inner(l.at, l.keys + [sep] + r.keys, l.kids + r.kids)
  }

  lemma JoinedOk(c: Config, l: Tree, r: Tree, sep: int, h: nat)
    requires c.Valid() && Ok(c, l, h, c.Lower(h) - 1, c.Upper(h)) && Ok(c, r, h, c.Lower(h) - 1, c.Upper(h)) && Starts(r, sep)
    requires Size(l) + Size(r) == 2 * c.Lower(h) - 1
    ensures l.Leaf? == r.Leaf? == (h == 0)
    ensures var t := Joined(l, r, sep);
            && Forest(c, [t], [], h) && Items(t) == Items(l) + Items(r)
            && Leaves(t) == if h == 0 then [l.at] else Leaves(l) + Leaves(r)
  {
    hide ItemsOf, LeavesOf;
    if h != 0 {
      StartsInner(c, r.kids, r.keys, h - 1, sep, r.at);
      ForestJoin(c, l.kids, l.keys, sep, r.kids, r.keys, h - 1);
      ItemsJoin(l.kids, r.kids);
      LeavesJoin(l.kids, r.kids);
    }
  }

  lemma JoinedStored(m: map<Ptr, Cell>, m': map<Ptr, Cell>, l: Tree, r: Tree, sep: int)
    requires l.Leaf? == r.Leaf? && StoredAll(m, [l, r]) && DistinctOf([l, r])
    requires m' == m[l.at := CellOf(Joined(l, r, sep))] - {r.at}
    ensures var t := Joined(l, r, sep);
            Stored(m', t) && Distinct(t) && Framed(m, m', AddrsOf([l, r]), AddrsOf([t]))
  {
    hide AddrsOf, DistinctOf, StoredAll;
    var t := Joined(l, r, sep);
    StoredAllAddrs(m, [l, r]);
    PairStored(m, l, r);
    PairApart(l, r);
    One(t);
    if l.Inner? {
      AddrsJoin(l.kids, r.kids);
      StoredJoin(m, l, r);
      StoredAllFrame(m, m', t.kids);
      Fold(m', t);
    }
  }

  /** The right sibling's entries go to the left one, and the right one is freed. */
  method Merge(mem: Memory, c: Config, node: Ptr, i: nat, h: nat, ghost l: Tree, ghost r: Tree, ghost a: seq<Ptr>, ghost b: seq<Ptr>)
    returns (ghost w: seq<Tree>)
    requires c.Valid() && PairAt(mem, c, node, i, h, l, r, a, b) && Size(l) + Size(r) == 2 * c.Lower(h) - 1
    modifies mem
    ensures |w| == 1 && w[0].at == l.at && ItemsOf(w) == ItemsOf([l, r]) && Size(w[0]) == Size(l) + Size(r)
    ensures ChildIs(mem, old(mem.cells), c, node, [l, r], h, w, [], Swap(old(mem.cells[node].keys), i, 1, []), Swap(old(mem.cells[node].kids), i + 1, 1, []), a, b)
  {
    hide Framed, Linked, AddrsOf, DistinctOf, ItemsOf, LeavesOf, Forest, Starts;
    ghost var m := mem.cells;
    var keys, kids := mem.cells[node].keys, mem.cells[node].kids;
    var at1: Ptr, at2: Ptr := kids[i], kids[i + 1];
    PairStored(mem.cells, l, r);
    JoinedOk(c, l, r, keys[i], h);
    ghost var t := Joined(l, r, keys[i]);
    PairOf(l, r);
    One(t);
    if h == 0 {
      TwoLeaves(l, r);
      LinkedMerge(mem.next, mem.prev, a, at1, at2, b);
      var joined := mem.cells[at1].items + mem.cells[at2].items;
      mem.cells := mem.cells[at1 := LeafCell(joined)];
      mem.next := mem.next[at1 := mem.next[at2]];
      if mem.next[at2].To? {
        mem.prev := mem.prev[mem.next[at2].p := To(at1)];
      }
      mem.next, mem.prev := mem.next - {at2}, mem.prev - {at2};
    } else {
      var n1, n2 := mem.cells[at1], mem.cells[at2];
      PairShape(c, l, r, h);
      assert Ats(l.kids) + Ats(r.kids) == Ats(l.kids + r.kids);
      mem.cells := mem.cells[at1 := InnerCell(n1.keys + [keys[i]] + n2.keys, n1.kids + n2.kids)];
    }
    assert mem.cells == m[l.at := CellOf(t)];
    mem.cells := mem.cells - {at2};
    JoinedStored(m, mem.cells, l, r, keys[i]);
    ghost var m1 := mem.cells;
    Untouched(m, m1, AddrsOf([l, r]), AddrsOf([t]), node);
    var cell := InnerCell(Swap(keys, i, 1, []), Swap(kids, i + 1, 1, []));
    mem.cells := mem.cells[node := cell];
    w := [t];
    AsOne(m1, t);
    ParentCell(m, m1, mem.cells, node, AddrsOf([l, r]), w, cell);
    MergedChain(mem, m, l, r, h, a, b);
  }

  lemma AsOne(m: map<Ptr, Cell>, t: Tree)
    requires Stored(m, t) && Distinct(t)
    ensures StoredAll(m, [t]) && DistinctOf([t])
  {
    One(t);
  }

  lemma MergedChain(mem: Memory, m: map<Ptr, Cell>, l: Tree, r: Tree, h: nat, a: seq<Ptr>, b: seq<Ptr>)
    requires l.Leaf? == r.Leaf? == (h == 0)
    requires forall p | p in m && p != r.at && m[p].LeafCell? :: p in mem.cells && mem.cells[p].LeafCell?
    requires forall p | p in a + (Leaves(l) + Leaves(r)) + b :: p in m && m[p].LeafCell?
    requires r.at in m && m[r.at].LeafCell? == (h == 0)
    requires if h == 0 then Linked(mem.next, mem.prev, a + [l.at] + b) && r.at !in a + [l.at] + b
             else Linked(mem.next, mem.prev, a + (Leaves(l) + Leaves(r)) + b)
    ensures Chained(mem, a + (if h == 0 then [l.at] else Leaves(l) + Leaves(r)) + b)
  {
    hide Linked;
    var ls := a + (if h == 0 then [l.at] else Leaves(l) + Leaves(r)) + b;
    forall p | p in ls ensures p in mem.cells && mem.cells[p].LeafCell? {
      if h == 0 {
        assert p in a || p == l.at || p in b;
        assert p in a + (Leaves(l) + Leaves(r)) + b;
      }
    }
  }

  function CellSize(c: Cell): (n: nat) {
    if c.LeafCell? then |c.items| else |c.kids|
  }

  /** A node all of whose children are in order, except that child `j` may be one entry short. */
  ghost predicate OneShort(c: Config, u: Tree, h: nat, j: nat) {
    && c.Valid() && u.Inner? && 2 <= |u.kids| && j < |u.kids|
    && ForestBut(c, u.kids, u.keys, h, j, 1)
    && Ok(c, u.kids[j], h, c.Lower(h) - 1, c.Upper(h))
    && (0 < j ==> Starts(u.kids[j], u.keys[j - 1]))
  }

  lemma ShortShape(c: Config, u: Tree, h: nat, j: nat)
    requires OneShort(c, u, h, j)
    ensures c.Valid() && u.Inner? && 2 <= |u.keys| + 1 == |u.kids| && j < |u.kids|
  {
  }

  lemma Sibling(c: Config, u: Tree, h: nat, j: nat, i: nat)
    requires OneShort(c, u, h, j) && i < |u.kids|
    ensures Ok(c, u.kids[i], h, c.Lower(h) - 1, c.Upper(h))
    ensures i != j ==> c.Lower(h) <= Size(u.kids[i])
    ensures |u.keys| + 1 == |u.kids|
    ensures 0 < i ==> Starts(u.kids[i], u.keys[i - 1])
  {
    if i != j && 0 < i {
      assert Starts(u.kids[i - 1 + 1], u.keys[i - 1]);
    }
  }

  /** Two neighbouring children, seen as a pair. */
  lemma AsPair(mem: Memory, c: Config, u: Tree, h: nat, j: nat, i: nat, a: seq<Ptr>, b: seq<Ptr>)
    requires OneShort(c, u, h, j) && i + 1 < |u.kids| && Stored(mem.cells, u) && Distinct(u) && Chained(mem, a + Leaves(u) + b)
    ensures PairAt(mem, c, u.at, i, h, u.kids[i], u.kids[i + 1], a + LeavesOf(u.kids[..i]), LeavesOf(u.kids[i + 2..]) + b)
    ensures u.kids[i..i + 2] == [u.kids[i], u.kids[i + 1]]
    ensures mem.cells[u.at] == InnerCell(u.keys, Ats(u.kids))
  {
    hide Linked, AddrsOf, DistinctOf, ItemsOf, LeavesOf, OneShort, Ok, Starts, Stored, StoredAll;
    ShortShape(c, u, h, j);
    var ts := u.kids;
    Sibling(c, u, h, j, i);
    Sibling(c, u, h, j, i + 1);
    Middle(ts, i, i + 2);
    assert ts[i..i + 2] == [ts[i], ts[i + 1]];
    Unfold(mem.cells, u);
    StoredSlice(mem.cells, ts, i, i + 2);
    Reassoc(a, LeavesOf(ts[..i]), LeavesOf(ts[i..i + 2]), LeavesOf(ts[i + 2..]), b);
  }

  /** A pair of children rebuilt with the same contents: the whole node is in order. */
  lemma FinishPair(mem: Memory, m: map<Ptr, Cell>, c: Config, u: Tree, h: nat, j: nat, i: nat, w: seq<Tree>, wk: seq<int>, k: seq<int>, kids: seq<Ptr>,
                   a: seq<Ptr>, b: seq<Ptr>) returns (v: Tree)
    requires OneShort(c, u, h, j) && i + 1 < |u.kids| && i <= j <= i + 1 && Stored(m, u) && Distinct(u)
    requires |w| == |wk| + 1 && |w| <= 2 && ItemsOf(w) == ItemsOf(u.kids[i..i + 2])
    requires |u.keys| + 1 == |u.kids| && Items(u.kids[i]) != []
    requires w[0].at == u.kids[i].at && (|w| == 2 ==> w[1].at == u.kids[i + 1].at)
    requires k == (if |wk| == 1 then u.keys[i := wk[0]] else Swap(u.keys, i, 1, []))
    requires kids == (if |wk| == 1 then Ats(u.kids) else Swap(Ats(u.kids), i + 1, 1, []))
    requires ChildIs(mem, m, c, u.at, u.kids[i..i + 2], h, w, wk, k, kids, a + LeavesOf(u.kids[..i]), LeavesOf(u.kids[i + 2..]) + b)
    ensures v.at == u.at && Stored(mem.cells, v) && Distinct(v)
    ensures v.Inner? && Forest(c, v.kids, v.keys, h) && |u.kids| - 1 <= |v.kids| <= |u.kids|
    ensures Items(v) == Items(u) && Framed(m, mem.cells, Addrs(u), Addrs(v)) && Chained(mem, a + Leaves(v) + b)
    ensures v == Inner(u.at, k, Swap(u.kids, i, 2, w))
  {
    hide Framed, Linked, AddrsOf, Addrs, DistinctOf, Distinct, Stored, StoredAll, ItemsOf, LeavesOf, Leaves, Chained, Edited, ChildIs, Forest, Ok, Ats, Swap, OneShort;
    ShortShape(c, u, h, j);
    v := Inner(u.at, k, Swap(u.kids, i, 2, w));
    PairPointers(u.kids, i, w, kids);
    PairKeys(mem, m, c, u, h, j, i, w, wk, k, kids, a + LeavesOf(u.kids[..i]), LeavesOf(u.kids[i + 2..]) + b);
    SameEdit(ItemsOf(w));
    Concluded(mem, m, c, u, h + 1, 0, |u.kids|, i, 2, w, wk, k, 0, 0, [], a, b);
    NoEdit(Items(u), Items(v), |ItemsOf(u.kids[..i])|);
    InnerShape(c, v, h + 1, 0, |u.kids|);
  }

  function Sizes(ts: seq<Tree>): (s: seq<nat>)
    ensures |s| == |ts| && forall i | 0 <= i < |ts| :: s[i] == Size(ts[i])
  {
    seq(|ts|, i requires 0 <= i < |ts| => Size(ts[i]))
  }

  function MergedAt(s: seq<nat>, i: nat, n: nat): (t: seq<nat>)
    requires i + 1 < |s|
  {
    s[..i] + [n] + s[i + 2..]
  }

  lemma SizesSwapped(ts: seq<Tree>, i: nat, w: seq<Tree>)
    requires i + 1 < |ts| && 1 <= |w| <= 2
    ensures |w| == 1 ==> Sizes(Swap(ts, i, 2, w)) == MergedAt(Sizes(ts), i, Size(w[0]))
    ensures |w| == 2 ==> Sizes(Swap(ts, i, 2, w)) == Sizes(ts)[i := Size(w[0])][i + 1 := Size(w[1])]
  {
  }

  /** Where a child `j` with fewer than `a` entries gets them from: two from the left sibling if it can spare them,
      else two from the right one, else one from the left, else one from the right; otherwise it is merged with its
      right sibling, or with the left one if it is the last child. */
  ghost predicate FilledUp(a: nat, s: seq<nat>, t: seq<nat>, j: nat)
    requires 2 <= |s| && j < |s|
  {
    if a <= s[j] then t == s
    else if 0 < j && a + 2 <= s[j - 1] then t == s[j - 1 := s[j - 1] - 2][j := s[j] + 2]
    else if j + 1 < |s| && a + 2 <= s[j + 1] then t == s[j := s[j] + 2][j + 1 := s[j + 1] - 2]
    else if 0 < j && a + 1 == s[j - 1] then t == s[j - 1 := a][j := s[j] + 1]
    else if j + 1 < |s| && a + 1 == s[j + 1] then t == s[j := s[j] + 1][j + 1 := a]
    else if j + 1 < |s| then t == MergedAt(s, j, s[j] + s[j + 1])
    else t == MergedAt(s, j - 1, s[j - 1] + s[j])
  }

  lemma SameEdit<T>(s: seq<T>)
    ensures Edited(s, s, 0, 0, [])
  {
    assert s == s[..0] + [] + s[0..];
  }

  lemma NoEdit<T>(s: seq<T>, t: seq<T>, p: nat)
    requires Edited(s, t, p, 0, [])
    ensures s == t
  {
    assert s == s[..p] + [] + s[p + 0..];
  }

  lemma PairPointers(ts: seq<Tree>, i: nat, w: seq<Tree>, kids: seq<Ptr>)
    requires i + 1 < |ts| && 1 <= |w| <= 2 && w[0].at == ts[i].at && (|w| == 2 ==> w[1].at == ts[i + 1].at)
    requires kids == if |w| == 2 then Ats(ts) else Swap(Ats(ts), i + 1, 1, [])
    ensures Swap(Ats(ts), i, 2, Ats(w)) == kids
  {
    var r := Swap(Ats(ts), i, 2, Ats(w));
    assert |r| == |kids| && forall j | 0 <= j < |r| :: r[j] == kids[j];
  }

  lemma PairKeys(mem: Memory, m: map<Ptr, Cell>, c: Config, u: Tree, h: nat, j: nat, i: nat, w: seq<Tree>, wk: seq<int>, k: seq<int>, kids: seq<Ptr>,
                 a: seq<Ptr>, b: seq<Ptr>)
    requires OneShort(c, u, h, j) && i + 1 < |u.kids| && i <= j <= i + 1
    requires |w| == |wk| + 1 && |w| <= 2 && ItemsOf(w) == ItemsOf(u.kids[i..i + 2]) && Items(u.kids[i]) != []
    requires k == (if |wk| == 1 then u.keys[i := wk[0]] else Swap(u.keys, i, 1, []))
    requires ChildIs(mem, m, c, u.at, u.kids[i..i + 2], h, w, wk, k, kids, a, b)
    ensures ForestBut(c, u.kids, u.keys, h, i, 2) && Items(w[0]) != []
    ensures |u.keys| + 1 == |u.kids| && k == (if i == 0 then [] else u.keys[..i - 1] + [Items(w[0])[0].0]) + wk + u.keys[i + 1..]
  {
    hide ItemsOf, Items, Forest, Ok, ChildIs, Starts, ForestBut, OneShort;
    ShortShape(c, u, h, j);
    WiderGap(c, u, h, j, i);
    ChildForest(mem, m, c, u.at, u.kids[i..i + 2], h, w, wk, k, kids, a, b);
    SameStart(c, w, wk, h, u.kids[i..i + 2]);
    Sibling(c, u, h, j, i);
    if 0 < i {
      StartsIs(u.kids[i], u.keys[i - 1]);
    }
    KeySeq(u.keys, i, wk, k, Items(w[0])[0].0);
  }

  lemma KeySeq(keys: seq<int>, i: nat, wk: seq<int>, k: seq<int>, first: int)
    requires i < |keys| && |wk| <= 1 && (0 < i ==> first == keys[i - 1])
    requires k == if |wk| == 1 then keys[i := wk[0]] else Swap(keys, i, 1, [])
    ensures k == (if i == 0 then [] else keys[..i - 1] + [first]) + wk + keys[i + 1..]
  {
    var r := (if i == 0 then [] else keys[..i - 1] + [first]) + wk + keys[i + 1..];
    assert |r| == |k| && forall p | 0 <= p < |r| :: r[p] == k[p];
  }

  lemma StartsIs(t: Tree, k: int)
    requires Starts(t, k)
    ensures Items(t) != [] && Items(t)[0].0 == k
  {
  }

  lemma WiderGap(c: Config, u: Tree, h: nat, j: nat, i: nat)
    requires OneShort(c, u, h, j) && i + 1 < |u.kids| && i <= j <= i + 1
    ensures ForestBut(c, u.kids, u.keys, h, i, 2)
  {
  }

  lemma SameStart(c: Config, w: seq<Tree>, wk: seq<int>, h: nat, x: seq<Tree>)
    requires c.Valid() && Forest(c, w, wk, h) && x != [] && Items(x[0]) != [] && ItemsOf(w) == ItemsOf(x)
    ensures Items(w[0]) != [] && Items(w[0])[0] == Items(x[0])[0]
  {
    hide ItemsOf, Items;
    NotEmpty(c, w[0], h, c.Lower(h), c.Upper(h));
    FirstOf(w);
    FirstOf(x);
  }

  /** The sizes after two neighbours have been divided anew or merged as rebalance_lb decides. */
  lemma FilledBy(a: nat, us: seq<Tree>, vs: seq<Tree>, j: nat, i: nat, w: seq<Tree>, need: nat)
    requires 2 <= |us| && j < |us| && i + 1 < |us| && i <= j <= i + 1 && 1 <= |w| <= 2 && vs == Swap(us, i, 2, w) && Size(us[j]) + 1 == a
    requires 0 < j ==> a <= Size(us[j - 1])
    requires j + 1 < |us| ==> a <= Size(us[j + 1])
    requires var l, r := 0 < j && a + 2 <= Size(us[j - 1]), j + 1 < |us| && a + 2 <= Size(us[j + 1]);
             if |w| == 2 && i + 1 == j then
               && 1 <= need <= 2 && a + need <= Size(us[i]) && Size(w[0]) == Size(us[i]) - need && Size(w[1]) == a - 1 + need
               && (need == 1 ==> !l && !r)
             else if |w| == 2 then
               && 1 <= need <= 2 && a + need <= Size(us[j + 1]) && Size(w[0]) == a - 1 + need && Size(w[1]) == Size(us[j + 1]) - need
               && !l && (need == 1 ==> !r && (0 < j ==> Size(us[j - 1]) == a))
             else
               && Size(w[0]) == Size(us[i]) + Size(us[i + 1]) && (0 < j ==> Size(us[j - 1]) == a) && (j + 1 < |us| ==> Size(us[j + 1]) == a)
               && (i == j <==> j + 1 < |us|)
    ensures FilledUp(a, Sizes(us), Sizes(vs), j)
  {
    SizesSwapped(us, i, w);
  }

  /** The node `u` with the same contents as `v`, all of whose children are in order. */
  ghost predicate Mended(mem: Memory, m: map<Ptr, Cell>, c: Config, u: Tree, v: Tree, h: nat, a: seq<Ptr>, b: seq<Ptr>)
    requires u.Inner?
    reads mem
  {
    && v.at == u.at && Stored(mem.cells, v) && Distinct(v)
    && v.Inner? && Forest(c, v.kids, v.keys, h) && |u.kids| - 1 <= |v.kids| <= |u.kids|
    && Items(v) == Items(u) && Framed(m, mem.cells, Addrs(u), Addrs(v)) && Chained(mem, a + Leaves(v) + b)
  }

  /** `need` entries of the left sibling go to child `j`. */
  method TakeFromLeft(mem: Memory, c: Config, node: Ptr, j: nat, h: nat, need: nat, ghost u: Tree, ghost a: seq<Ptr>, ghost b: seq<Ptr>)
    returns (ghost v: Tree, ghost w: seq<Tree>)
    requires OneShort(c, u, h, j) && u.at == node && Stored(mem.cells, u) && Distinct(u) && Chained(mem, a + Leaves(u) + b)
    requires u.Inner? && 0 < j < |u.kids| && 1 <= need <= 2 && Size(u.kids[j]) + 1 == c.Lower(h) && c.Lower(h) + need <= Size(u.kids[j - 1])
    modifies mem`cells
    ensures Mended(mem, old(mem.cells), c, u, v, h, a, b) && |w| == 2 && v.kids == Swap(u.kids, j - 1, 2, w)
    ensures Size(w[0]) == Size(u.kids[j - 1]) - need && Size(w[1]) == Size(u.kids[j]) + need
  {
    hide Framed, Linked, AddrsOf, Addrs, DistinctOf, Distinct, Stored, ItemsOf, LeavesOf, Leaves, Chained, Forest, ForestBut, Ok, OneShort, PairAt, ChildIs, Swap, Ats;
    ghost var l, r := a + LeavesOf(u.kids[..j - 1]), LeavesOf(u.kids[j + 1..]) + b;
    ghost var wk;
    SizeInCell(mem.cells, c, u, h, j, j - 1);
    AsPair(mem, c, u, h, j, j - 1, a, b);
    w, wk := RotateRight(mem, c, node, j - 1, h, need, u.kids[j - 1], u.kids[j], l, r);
    v := FinishPair(mem, old(mem.cells), c, u, h, j, j - 1, w, wk, u.keys[j - 1 := wk[0]], Ats(u.kids), a, b);
  }

  /** `need` entries of the right sibling go to child `j`. */
  method TakeFromRight(mem: Memory, c: Config, node: Ptr, j: nat, h: nat, need: nat, ghost u: Tree, ghost a: seq<Ptr>, ghost b: seq<Ptr>)
    returns (ghost v: Tree, ghost w: seq<Tree>)
    requires OneShort(c, u, h, j) && u.at == node && Stored(mem.cells, u) && Distinct(u) && Chained(mem, a + Leaves(u) + b)
    requires u.Inner? && j + 1 < |u.kids| && 1 <= need <= 2 && Size(u.kids[j]) + 1 == c.Lower(h) && c.Lower(h) + need <= Size(u.kids[j + 1])
    modifies mem`cells
    ensures Mended(mem, old(mem.cells), c, u, v, h, a, b) && |w| == 2 && v.kids == Swap(u.kids, j, 2, w)
    ensures Size(w[0]) == Size(u.kids[j]) + need && Size(w[1]) == Size(u.kids[j + 1]) - need
  {
    hide Framed, Linked, AddrsOf, Addrs, DistinctOf, Distinct, Stored, ItemsOf, LeavesOf, Leaves, Chained, Forest, ForestBut, Ok, OneShort, PairAt, ChildIs, Swap, Ats;
    ghost var l, r := a + LeavesOf(u.kids[..j]), LeavesOf(u.kids[j + 2..]) + b;
    ghost var wk;
    SizeInCell(mem.cells, c, u, h, j, j);
    AsPair(mem, c, u, h, j, j, a, b);
    w, wk := RotateLeft(mem, c, node, j, h, need, u.kids[j], u.kids[j + 1], l, r);
    v := FinishPair(mem, old(mem.cells), c, u, h, j, j, w, wk, u.keys[j := wk[0]], Ats(u.kids), a, b);
  }

  /** The children `i` and `i + 1`, one of them child `j`, are merged. */
  method MergeKids(mem: Memory, c: Config, node: Ptr, j: nat, i: nat, h: nat, ghost u: Tree, ghost a: seq<Ptr>, ghost b: seq<Ptr>)
    returns (ghost v: Tree, ghost w: seq<Tree>)
    requires OneShort(c, u, h, j) && u.at == node && Stored(mem.cells, u) && Distinct(u) && Chained(mem, a + Leaves(u) + b)
    requires u.Inner? && i <= j <= i + 1 < |u.kids| && Size(u.kids[i]) + Size(u.kids[i + 1]) == 2 * c.Lower(h) - 1
    modifies mem
    ensures Mended(mem, old(mem.cells), c, u, v, h, a, b) && |w| == 1 && v.kids == Swap(u.kids, i, 2, w)
    ensures Size(w[0]) == Size(u.kids[i]) + Size(u.kids[i + 1])
  {
    hide Framed, Linked, AddrsOf, Addrs, DistinctOf, Distinct, Stored, ItemsOf, LeavesOf, Leaves, Chained, Forest, ForestBut, Ok, OneShort, PairAt, ChildIs, Swap, Ats;
    ghost var l, r := a + LeavesOf(u.kids[..i]), LeavesOf(u.kids[i + 2..]) + b;
    SizeInCell(mem.cells, c, u, h, j, i);
    AsPair(mem, c, u, h, j, i, a, b);
    w := Merge(mem, c, node, i, h, u.kids[i], u.kids[i + 1], l, r);
    v := FinishPair(mem, old(mem.cells), c, u, h, j, i, w, [], Swap(u.keys, i, 1, []), Swap(Ats(u.kids), i + 1, 1, []), a, b);
  }

  /** rebalance_lb: nothing to do for a child with enough entries; otherwise one or two entries are
      taken from a sibling that can spare them, preferably the left one and preferably two; otherwise
      the child and a sibling are merged. The contents stay the same. */
  method RebalanceLb(mem: Memory, c: Config, node: Ptr, j: nat, h: nat, ghost u: Tree, ghost a: seq<Ptr>, ghost b: seq<Ptr>)
    returns (ghost v: Tree)
    requires OneShort(c, u, h, j) && u.at == node && Stored(mem.cells, u) && Distinct(u) && Chained(mem, a + Leaves(u) + b)
    modifies mem
    ensures u.Inner? && 2 <= |u.kids| && j < |u.kids| && Mended(mem, old(mem.cells), c, u, v, h, a, b)
    ensures FilledUp(if h == 0 then c.la else c.ia, Sizes(u.kids), Sizes(v.kids), j)
    ensures (if h == 0 then c.la else c.ia) <= Size(u.kids[j]) ==> v == u && mem.cells == old(mem.cells) && mem.next == old(mem.next) && mem.prev == old(mem.prev)
  {
    hide Framed, Linked, AddrsOf, Addrs, DistinctOf, Distinct, Stored, ItemsOf, LeavesOf, Leaves, Chained, Forest, ForestBut, Ok, OneShort, FilledUp, Sizes, Swap;
    ShortShape(c, u, h, j);
    Unfold(mem.cells, u);
    var kids := mem.cells[node].kids;
    SizeInCell(mem.cells, c, u, h, j, j);
    var childSize := CellSize(mem.cells[kids[j]]);
    var lower := c.Lower(h);
    if childSize >= lower {
      Balanced(mem.cells, c, u, h, j);
      v := u;
      AlreadyFilled(lower, u.kids, j);
      return;
    }
    hide Mended;
    ghost var w;
    var need := lower - childSize;
    var canRotateRight, canRotateLeft := false, false;
    var leftSize, rightSize := 0, 0;
    if j > 0 {
      SizeInCell(mem.cells, c, u, h, j, j - 1);
      leftSize := CellSize(mem.cells[kids[j - 1]]);
    }
    if j < |kids| - 1 {
      SizeInCell(mem.cells, c, u, h, j, j + 1);
      rightSize := CellSize(mem.cells[kids[j + 1]]);
    }
    if j > 0 {
      if leftSize >= lower + need + 1 {
        v, w := TakeFromLeft(mem, c, node, j, h, need + 1, u, a, b);
        FilledBy(lower, u.kids, v.kids, j, j - 1, w, need + 1);
        return;
      }
      canRotateRight := leftSize >= lower + need;
    }
    if j < |kids| - 1 {
      if rightSize >= lower + need + 1 {
        v, w := TakeFromRight(mem, c, node, j, h, need + 1, u, a, b);
        FilledBy(lower, u.kids, v.kids, j, j, w, need + 1);
        return;
      }
      canRotateLeft := rightSize >= lower + need;
    }
    if canRotateRight {
      v, w := TakeFromLeft(mem, c, node, j, h, need, u, a, b);
      FilledBy(lower, u.kids, v.kids, j, j - 1, w, need);
    } else if canRotateLeft {
      v, w := TakeFromRight(mem, c, node, j, h, need, u, a, b);
      FilledBy(lower, u.kids, v.kids, j, j, w, need);
    } else if j < |kids| - 1 {
      v, w := MergeKids(mem, c, node, j, j, h, u, a, b);
      FilledBy(lower, u.kids, v.kids, j, j, w, 0);
    } else {
      v, w := MergeKids(mem, c, node, j, j - 1, h, u, a, b);
      FilledBy(lower, u.kids, v.kids, j, j - 1, w, 0);
    }
  }

  lemma AlreadyFilled(a: nat, us: seq<Tree>, j: nat)
    requires 2 <= |us| && j < |us| && a <= Size(us[j])
    ensures FilledUp(a, Sizes(us), Sizes(us), j)
  {
  }

  lemma SizeInCell(m: map<Ptr, Cell>, c: Config, u: Tree, h: nat, j: nat, i: nat)
    requires OneShort(c, u, h, j) && Stored(m, u) && i < |u.kids|
    ensures u.kids[i].at in m && CellSize(m[u.kids[i].at]) == Size(u.kids[i]) && c.Lower(h) - 1 <= Size(u.kids[i])
    ensures i != j ==> c.Lower(h) <= Size(u.kids[i])
    ensures |u.keys| + 1 == |u.kids| && 2 <= |u.kids| && j < |u.kids| && c.Valid()
    ensures Items(u.kids[i]) != []
  {
    Sibling(c, u, h, j, i);
    assert Stored(m, u.kids[i]);
    NotEmpty(c, u.kids[i], h, c.Lower(h) - 1, c.Upper(h));
  }

  lemma Balanced(m: map<Ptr, Cell>, c: Config, u: Tree, h: nat, j: nat)
    requires OneShort(c, u, h, j) && Stored(m, u) && c.Lower(h) <= Size(u.kids[j])
    ensures Forest(c, u.kids, u.keys, h) && Framed(m, m, Addrs(u), Addrs(u))
  {
    StoredAddrs(m, u);
    ResizeOk(c, u.kids[j], h, c.Lower(h) - 1, c.Upper(h), c.Lower(h), c.Upper(h));
    forall i | 0 <= i < |u.keys| ensures Starts(u.kids[i + 1], u.keys[i]) {
      Sibling(c, u, h, j, i + 1);
    }
    forall i | 0 <= i < |u.kids| ensures Ok(c, u.kids[i], h, c.Lower(h), c.Upper(h)) {
    }
  }
}
