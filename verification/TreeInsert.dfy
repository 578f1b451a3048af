/** ABTree::split and ABTree::insert on the tree in memory. */
module TreeInsert {
  import opened Sequences
  import opened Trees
  import opened TreeMemory

  /** The chain of leaves, all of them allocated. */
  ghost predicate Chained(mem: Memory, ls: seq<Ptr>)
    reads mem
  {
    Linked(mem.next, mem.prev, ls) && forall p | p in ls :: p in mem.cells && mem.cells[p].LeafCell?
  }

  /** `p` is a place for `key` in the sequence. */
  ghost predicate Place(s: seq<Pair>, p: nat, key: int) {
    && p <= |s|
    && (forall i | 0 <= i < p :: s[i].0 <= key)
    && (forall i | p <= i < |s| :: key <= s[i].0)
  }

  ghost predicate AllLe(s: seq<Pair>, k: int) {
    forall i | 0 <= i < |s| :: s[i].0 <= k
  }

  ghost predicate AllGe(s: seq<Pair>, k: int) {
    forall i | 0 <= i < |s| :: k <= s[i].0
  }

  lemma PlaceInside(l: seq<Pair>, a: seq<Pair>, r: seq<Pair>, p: nat, key: int)
    requires Place(a, p, key) && AllLe(l, key) && AllGe(r, key)
    ensures Place(l + a + r, |l| + p, key)
  {
  }

  lemma SortedInsert(a: seq<Pair>, b: seq<Pair>, p: nat, x: Pair)
    requires Sorted(a) && Place(a, p, x.0) && Edited(a, b, p, 0, [x])
    ensures Sorted(b)
  {
  }

  lemma SortedParts(l: seq<Pair>, a: seq<Pair>, r: seq<Pair>)
    requires Sorted(l + a + r)
    ensures Sorted(l) && Sorted(a) && Sorted(r)
    ensures a + r != [] ==> AllLe(l, (a + r)[0].0)
    ensures r != [] ==> AllGe(r, r[0].0)
    ensures r != [] ==> AllLe(a, r[0].0)
  {
    var s, n, m := l + a + r, |l|, |l| + |a|;
    SortedSlice(s, 0, n);
    SortedSlice(s, n, m);
    SortedSlice(s, m, |s|);
    assert s[0..n] == l && s[n..m] == a && s[m..|s|] == r;
    hide Sorted;
    if a + r != [] {
      assert (a + r)[0] == s[n];
      SortedUpTo(s, 0, n, n);
    }
    if r != [] {
      assert r[0] == s[m];
      SortedUpTo(s, n, m, m);
      SortedFrom(s, m);
    }
  }

  lemma SortedSlice(s: seq<Pair>, i: nat, j: nat)
    requires Sorted(s) && i <= j <= |s|
    ensures Sorted(s[i..j])
  {
  }

  lemma SortedUpTo(s: seq<Pair>, i: nat, j: nat, k: nat)
    requires Sorted(s) && i <= j <= k < |s|
    ensures AllLe(s[i..j], s[k].0)
  {
  }

  lemma SortedFrom(s: seq<Pair>, k: nat)
    requires Sorted(s) && k < |s|
    ensures AllGe(s[k..|s|], s[k].0)
  {
  }

  /** The keys to the left of subtree `i` are not above its left separator, those to the right not
      below its right separator. */
  lemma AroundKid(c: Config, ts: seq<Tree>, keys: seq<int>, h: nat, i: nat)
    requires c.Valid() && Forest(c, ts, keys, h) && i < |ts| && Sorted(ItemsOf(ts))
    ensures ItemsOf(ts) == ItemsOf(ts[..i]) + Items(ts[i]) + ItemsOf(ts[i + 1..])
    ensures Sorted(Items(ts[i])) && Items(ts[i]) != []
    ensures i == 0 ==> ItemsOf(ts[..i]) == []
    ensures 0 < i ==> AllLe(ItemsOf(ts[..i]), keys[i - 1]) && Starts(ts[i], keys[i - 1])
    ensures i + 1 == |ts| ==> ItemsOf(ts[i + 1..]) == []
    ensures i + 1 < |ts| ==> AllGe(ItemsOf(ts[i + 1..]), keys[i]) && AllLe(Items(ts[i]), keys[i])
  {
    hide Items;
    Middle(ts, i, i + 1);
    assert ts[i..i + 1] == [ts[i]];
    One(ts[i]);
    NotEmpty(c, ts[i], h, c.Lower(h), c.Upper(h));
    SortedParts(ItemsOf(ts[..i]), Items(ts[i]), ItemsOf(ts[i + 1..]));
    if 0 < i {
      assert Starts(ts[i - 1 + 1], keys[i - 1]);
    }
    if i + 1 < |ts| {
      assert Starts(ts[i + 1], keys[i]);
      assert ts[i + 1..][0] == ts[i + 1];
    }
  }

  /** The child to go to when equality goes left: the first whose separator is not below the key. */
  method ChildFor(keys: seq<int>, key: int) returns (i: nat)
    ensures i <= |keys|
    ensures forall j | 0 <= j < i :: keys[j] < key
    ensures i < |keys| ==> key <= keys[i]
  {
    i := 0;
    while i < |keys| && keys[i] < key
      invariant i <= |keys| && forall j | 0 <= j < i :: keys[j] < key
    {
      i := i + 1;
    }
  }

  lemma LinkedSplit(next: map<Ptr, Link>, prev: map<Ptr, Link>, a: seq<Ptr>, x: Ptr, b: seq<Ptr>, y: Ptr)
    requires Linked(next, prev, a + [x] + b) && y !in a + [x] + b
    ensures x in next
    ensures var next' := next[y := next[x]];
            var prev' := if next'[y].To? then prev[next'[y].p := To(y)] else prev;
            Linked(next'[x := To(y)], prev'[y := To(x)], a + [x, y] + b)
  {
    hide Linked;
    var l, l' := a + [x] + b, a + [x, y] + b;
    var n := |a|;
    ChainAt(next, prev, l, n, n);
    assert l[n] == x;
    var next1 := next[y := next[x]];
    var prev1 := if next1[y].To? then prev[next1[y].p := To(y)] else prev;
    var next2, prev2 := next1[x := To(y)], prev1[y := To(x)];
    forall i | 0 <= i < |l'| ensures LinkedAt(next2, prev2, l', i) {
      if i != n + 1 {
        var j := if i <= n then i else i - 1;
        assert l'[i] == l[j] && l[j] in l;
        ChainAt(next, prev, l, j, n);
        ChainAt(next, prev, l, j, n + 1);
        SplitNeighbours(a, x, b, y, i);
      }
    }
    LinkedByAll(next2, prev2, l');
  }

  /** The neighbours in the longer chain. */
  lemma SplitNeighbours(a: seq<Ptr>, x: Ptr, b: seq<Ptr>, y: Ptr, i: nat)
    requires i < |a| + 2 + |b| && i != |a| + 1
    ensures var l, l', n := a + [x] + b, a + [x, y] + b, |a|;
            var j := if i <= n then i else i - 1;
            && LinkAt(l', i + 1) == (if i == n then To(y) else LinkAt(l, j + 1))
            && LinkAt(l', i - 1) == (if i == n + 2 then To(y) else LinkAt(l, j - 1))
  {
  }

  /** Half of the child `x` of `node` moves to a new child to its right. */
  method Split(mem: Memory, c: Config, node: Ptr, i: nat, h: nat, ghost x: Tree, ghost a: seq<Ptr>, ghost b: seq<Ptr>)
    returns (ghost l: Tree, ghost r: Tree, ghost k: int)
    requires c.Valid() && Ok(c, x, h, if h == 0 then c.lb else c.ib + 1, if h == 0 then c.lb else c.ib + 1)
    requires node in mem.cells && mem.cells[node].InnerCell? && i < |mem.cells[node].kids| && i <= |mem.cells[node].keys|
    requires mem.cells[node].kids[i] == x.at && node !in Addrs(x)
    requires Stored(mem.cells, x) && Distinct(x) && Chained(mem, a + Leaves(x) + b)
    modifies mem
    ensures l.at == x.at && Forest(c, [l, r], [k], h)
    ensures Items(x) == Items(l) + Items(r) && Size(l) + Size(r) == Size(x)
    ensures if h == 0 then Size(r) <= Size(l) <= Size(r) + 1 else Size(r) < Size(l) <= Size(r) + 2
    ensures StoredAll(mem.cells, [l, r]) && DistinctOf([l, r]) && node !in AddrsOf([l, r])
    ensures Framed(old(mem.cells), mem.cells, {node} + Addrs(x), {node} + AddrsOf([l, r]))
    ensures node in mem.cells && mem.cells[node] == InnerCell(InsertAt(old(mem.cells[node].keys), i, k), InsertAt(old(mem.cells[node].kids), i + 1, r.at))
    ensures Chained(mem, a + (Leaves(l) + Leaves(r)) + b)
  {
    hide Framed, Linked, AddrsOf, DistinctOf, ItemsOf, LeavesOf;
    ghost var m := mem.cells;
    var at := mem.cells[node].kids[i];
    StoredAddrs(mem.cells, x);
    var q := mem.Allocate();
    var pivot;
    if h == 0 {
      l, r, pivot := SplitLeaf(mem, c, at, q, x, a, b);
    } else {
      l, r, pivot := SplitInner(mem, c, at, q, h, x, a, b);
    }
    k := pivot;
    Untouched(m, mem.cells, Addrs(x), AddrsOf([l, r]), node);
    var cell := InnerCell(InsertAt(mem.cells[node].keys, i, pivot), InsertAt(mem.cells[node].kids, i + 1, q));
    ParentCell(m, mem.cells, mem.cells[node := cell], node, Addrs(x), [l, r], cell);
    mem.cells := mem.cells[node := cell];
    assert Chained(mem, a + (Leaves(l) + Leaves(r)) + b);
  }

  lemma Untouched(m: map<Ptr, Cell>, m': map<Ptr, Cell>, a: set<Ptr>, b: set<Ptr>, p: Ptr)
    requires Framed(m, m', a, b) && p in m && p !in a
    ensures p in m' && m'[p] == m[p] && p !in b
  {
  }

  lemma ParentCell(m: map<Ptr, Cell>, m1: map<Ptr, Cell>, m2: map<Ptr, Cell>, node: Ptr, a: set<Ptr>, w: seq<Tree>, cell: Cell)
    requires Framed(m, m1, a, AddrsOf(w)) && StoredAll(m1, w) && node in m && node !in a && m2 == m1[node := cell]
    ensures Framed(m, m2, {node} + a, {node} + AddrsOf(w)) && StoredAll(m2, w) && node !in AddrsOf(w) && m2[node] == cell
  {
    hide Stored, AddrsOf;
    StoredAllAddrs(m1, w);
    StoredAllFrame(m1, m2, w);
  }

  method SplitLeaf(mem: Memory, c: Config, at: Ptr, q: Ptr, ghost x: Tree, ghost a: seq<Ptr>, ghost b: seq<Ptr>)
    returns (ghost l: Tree, ghost r: Tree, k: int)
    requires c.Valid() && Ok(c, x, 0, c.lb, c.lb) && x.at == at && q !in mem.cells
    requires Stored(mem.cells, x) && Chained(mem, a + Leaves(x) + b)
    modifies mem
    ensures l.at == at && r.at == q && Forest(c, [l, r], [k], 0) && Items(x) == Items(l) + Items(r)
    ensures Size(l) + Size(r) == Size(x) && Size(r) <= Size(l) <= Size(r) + 1
    ensures StoredAll(mem.cells, [l, r]) && DistinctOf([l, r])
    ensures Framed(old(mem.cells), mem.cells, Addrs(x), AddrsOf([l, r]))
    ensures Chained(mem, a + (Leaves(l) + Leaves(r)) + b)
  {
    hide Framed, Linked, AddrsOf, DistinctOf, Forest, ItemsOf, LeavesOf;
    var items := mem.cells[at].items;
    var thres := LeafHalf(|items|);
    l, r := Leaf(at, items[..thres]), Leaf(q, items[thres..]);
    ghost var m := mem.cells;
    mem.cells := mem.cells[at := LeafCell(items[..thres])][q := LeafCell(items[thres..])];
    LinkedSplit(mem.next, mem.prev, a, at, b, q);
    mem.next := mem.next[q := mem.next[at]];
    if mem.next[q].To? {
      mem.prev := mem.prev[mem.next[q].p := To(q)];
    }
    mem.prev := mem.prev[q := To(at)];
    mem.next := mem.next[at := To(q)];
    k := items[thres].0;
    TwoApart(l, r);
    TwoCells(m, mem.cells, x, l, r);
    assert Leaves(l) + Leaves(r) == [at, q];
    SplitLeafShape(c, at, q, items, thres);
    ChainGrows(mem, a, [at], [at, q], b);
  }

  lemma SplitLeafShape(c: Config, at: Ptr, q: Ptr, items: seq<Pair>, thres: nat)
    requires c.Valid() && |items| == c.lb && thres == LeafHalf(|items|)
    ensures thres < |items| && items == items[..thres] + items[thres..]
    ensures Forest(c, [Leaf(at, items[..thres]), Leaf(q, items[thres..])], [items[thres].0], 0)
  {
  }

  lemma TwoApart(l: Tree, r: Tree)
    requires Distinct(l) && Distinct(r) && Addrs(l) !! Addrs(r)
    ensures AddrsOf([l, r]) == Addrs(l) + Addrs(r) && DistinctOf([l, r])
    ensures ItemsOf([l, r]) == Items(l) + Items(r) && LeavesOf([l, r]) == Leaves(l) + Leaves(r)
  {
    hide Items, Leaves, Addrs, Distinct;
    One(r);
    assert [l, r][1..] == [r];
  }

  lemma TwoCells(m: map<Ptr, Cell>, m': map<Ptr, Cell>, x: Tree, l: Tree, r: Tree)
    requires Addrs(x) <= m.Keys && l.at == x.at && l.at != r.at && r.at !in m
    requires m'.Keys == m.Keys + {r.at} && AddrsOf([l, r]) == Addrs(l) + Addrs(r)
    requires Addrs(l) + Addrs(r) == Addrs(x) + {r.at}
    requires forall p | p in m && p != l.at :: m'[p] == m[p]
    ensures Framed(m, m', Addrs(x), AddrsOf([l, r]))
  {
  }

  lemma ChainGrows(mem: Memory, a: seq<Ptr>, x: seq<Ptr>, y: seq<Ptr>, b: seq<Ptr>)
    requires Linked(mem.next, mem.prev, a + y + b)
    requires forall p | p in a + x + b || p in y :: p in mem.cells && mem.cells[p].LeafCell?
    ensures Chained(mem, a + y + b)
  {
  }

  method SplitInner(mem: Memory, c: Config, at: Ptr, q: Ptr, h: nat, ghost x: Tree, ghost a: seq<Ptr>, ghost b: seq<Ptr>)
    returns (ghost l: Tree, ghost r: Tree, k: int)
    requires c.Valid() && 0 < h && Ok(c, x, h, c.ib + 1, c.ib + 1) && x.at == at && q !in mem.cells
    requires Stored(mem.cells, x) && Distinct(x) && Chained(mem, a + Leaves(x) + b)
    modifies mem
    ensures l.at == at && r.at == q && Forest(c, [l, r], [k], h) && Items(x) == Items(l) + Items(r)
    ensures Size(l) + Size(r) == Size(x) && Size(r) < Size(l) <= Size(r) + 2
    ensures StoredAll(mem.cells, [l, r]) && DistinctOf([l, r])
    ensures Framed(old(mem.cells), mem.cells, Addrs(x), AddrsOf([l, r]))
    ensures Chained(mem, a + (Leaves(l) + Leaves(r)) + b)
  {
    hide Framed, Linked, AddrsOf, DistinctOf, ItemsOf, LeavesOf;
    var keys, kids := mem.cells[at].keys, mem.cells[at].kids;
    var thres := InnerHalf(|kids|) - 1;
    l := Inner(at, keys[..thres], x.kids[..thres + 1]);
    r := Inner(q, keys[thres + 1..], x.kids[thres + 1..]);
    k := keys[thres];
    ghost var m := mem.cells;
    mem.cells := mem.cells[at := InnerCell(keys[..thres], kids[..thres + 1])][q := InnerCell(keys[thres + 1..], kids[thres + 1..])];
    HalvesOk(c, x, h, thres, q);
    HalvesStored(m, mem.cells, x, thres, q);
    ChainGrows(mem, a, Leaves(x), Leaves(x), b);
  }

  lemma HalvesOk(c: Config, x: Tree, h: nat, t: nat, q: Ptr)
    requires c.Valid() && 0 < h && Ok(c, x, h, c.ib + 1, c.ib + 1) && x.Inner? && t == InnerHalf(|x.kids|) - 1 && |x.keys| + 1 == |x.kids|
    ensures var l, r := Inner(x.at, x.keys[..t], x.kids[..t + 1]), Inner(q, x.keys[t + 1..], x.kids[t + 1..]);
            && Forest(c, [l, r], [x.keys[t]], h)
            && Items(x) == Items(l) + Items(r) && Leaves(x) == Leaves(l) + Leaves(r)
  {
    hide ItemsOf, LeavesOf;
    var l, r := Inner(x.at, x.keys[..t], x.kids[..t + 1]), Inner(q, x.keys[t + 1..], x.kids[t + 1..]);
    ItemsJoin(l.kids, r.kids);
    LeavesJoin(l.kids, r.kids);
    assert x.kids == l.kids + r.kids;
    assert Forest(c, l.kids, l.keys, h - 1);
    forall i | 0 <= i < |r.keys| ensures Starts(r.kids[i + 1], r.keys[i]) {
      assert Starts(x.kids[t + 1 + i + 1], x.keys[t + 1 + i]);
    }
    assert Forest(c, r.kids, r.keys, h - 1);
    assert Starts(x.kids[t + 1], x.keys[t]) && r.kids[0] == x.kids[t + 1];
    FirstOf(r.kids);
  }

  /** The first key of a node is the first key of its first child. */
  lemma FirstOf(ts: seq<Tree>)
    requires ts != [] && Items(ts[0]) != []
    ensures ItemsOf(ts) != [] && ItemsOf(ts)[0] == Items(ts[0])[0]
  {
  }

  lemma HalvesStored(m: map<Ptr, Cell>, m': map<Ptr, Cell>, x: Tree, t: nat, q: Ptr)
    requires x.Inner? && t < |x.kids| == |x.keys| + 1 && t < |x.keys| && Stored(m, x) && Distinct(x) && q !in m
    requires m' == m[x.at := InnerCell(x.keys[..t], Ats(x.kids)[..t + 1])][q := InnerCell(x.keys[t + 1..], Ats(x.kids)[t + 1..])]
    ensures var l, r := Inner(x.at, x.keys[..t], x.kids[..t + 1]), Inner(q, x.keys[t + 1..], x.kids[t + 1..]);
            StoredAll(m', [l, r]) && DistinctOf([l, r]) && Framed(m, m', Addrs(x), AddrsOf([l, r]))
  {
    hide AddrsOf, DistinctOf;
    var l, r := Inner(x.at, x.keys[..t], x.kids[..t + 1]), Inner(q, x.keys[t + 1..], x.kids[t + 1..]);
    StoredAllAddrs(m, x.kids);
    assert x.kids == l.kids + r.kids;
    AddrsJoin(l.kids, r.kids);
    StoredAllFrame(m, m', x.kids);
    assert Ats(l.kids) == Ats(x.kids)[..t + 1] && Ats(r.kids) == Ats(x.kids)[t + 1..];
    TwoApart(l, r);
  }

  /** A subtree in memory, its leaves linked between the leaves `a` and `b`. */
  ghost predicate Subtree(mem: Memory, c: Config, u: Tree, h: nat, lo: nat, hi: nat, a: seq<Ptr>, b: seq<Ptr>)
    reads mem
  {
    && Stored(mem.cells, u) && Distinct(u) && Ok(c, u, h, lo, hi) && Sorted(Items(u))
    && Chained(mem, a + Leaves(u) + b)
  }

  /** The child `x` of `node` has become `w`, separated by `wk`; nothing else has changed. */
  ghost predicate ChildIs(mem: Memory, m: map<Ptr, Cell>, c: Config, node: Ptr, x: seq<Tree>, h: nat, w: seq<Tree>, wk: seq<int>,
                          k: seq<int>, kids: seq<Ptr>, a: seq<Ptr>, b: seq<Ptr>)
    reads mem
  {
    && StoredAll(mem.cells, w) && DistinctOf(w) && node !in AddrsOf(w)
    && Framed(m, mem.cells, {node} + AddrsOf(x), {node} + AddrsOf(w))
    && node in mem.cells && mem.cells[node] == InnerCell(k, kids)
    && Forest(c, w, wk, h)
    && Chained(mem, a + LeavesOf(w) + b)
  }

  /** A node whose children from `i` on have been rebuilt is again a subtree. */
  lemma Concluded(mem: Memory, m: map<Ptr, Cell>, c: Config, u: Tree, h: nat, lo: nat, hi: nat, i: nat, n: nat, w: seq<Tree>, wk: seq<int>, k: seq<int>,
                  p: nat, del: nat, ins: seq<Pair>, a: seq<Ptr>, b: seq<Ptr>)
    requires u.Inner? && 0 < h && ForestBut(c, u.kids, u.keys, h - 1, i, n) && Stored(m, u) && Distinct(u)
    requires 0 < n && i + n <= |u.kids| && lo <= |u.kids| - n + |w| <= hi
    requires ChildIs(mem, m, c, u.at, u.kids[i..i + n], h - 1, w, wk, k, Swap(Ats(u.kids), i, n, Ats(w)),
                     a + LeavesOf(u.kids[..i]), LeavesOf(u.kids[i + n..]) + b)
    requires 0 < i ==> Items(w[0]) != []
    requires k == (if i == 0 then [] else u.keys[..i - 1] + [Items(w[0])[0].0]) + wk + u.keys[i + n - 1..]
    requires Edited(ItemsOf(u.kids[i..i + n]), ItemsOf(w), p, del, ins)
    ensures var v := Inner(u.at, k, Swap(u.kids, i, n, w));
            && Stored(mem.cells, v) && Distinct(v) && Ok(c, v, h, lo, hi)
            && Framed(m, mem.cells, Addrs(u), Addrs(v))
            && Chained(mem, a + Leaves(v) + b)
            && Edited(Items(u), Items(v), |ItemsOf(u.kids[..i])| + p, del, ins)
  {
    hide Stored, Framed, DistinctOf, AddrsOf, ItemsOf, LeavesOf, Chained, Edited, Addrs, Distinct, Forest, ForestBut, StoredAll;
    var v := Inner(u.at, k, Swap(u.kids, i, n, w));
    RebuiltStored(m, mem.cells, u, i, n, w, k);
    ForestExchanged(c, u.kids, u.keys, h - 1, i, n, w, wk, k);
    Middle(u.kids, i, i + n);
    Exchanged(u.kids, i, n, w);
    EditedInside(ItemsOf(u.kids[..i]), ItemsOf(u.kids[i..i + n]), ItemsOf(w), ItemsOf(u.kids[i + n..]), p, del, ins);
    Reassoc(a, LeavesOf(u.kids[..i]), LeavesOf(w), LeavesOf(u.kids[i + n..]), b);
  }

  lemma Reassoc<T>(a: seq<T>, b: seq<T>, c: seq<T>, d: seq<T>, e: seq<T>)
    ensures (a + b) + c + (d + e) == a + (b + c + d) + e
  {
  }

  /** The base case: shift the larger pairs of the leaf up and put the new one down, behind pairs with the same key. */
  method LeafInsert(mem: Memory, at: Ptr, key: int, value: int, ghost u: Tree) returns (ghost v: Tree, ghost p: nat)
    requires u.Leaf? && u.at == at && Stored(mem.cells, u) && Sorted(u.items)
    modifies mem`cells
    ensures v.Leaf? && v.at == at && mem.cells == old(mem.cells)[at := LeafCell(v.items)]
    ensures Edited(u.items, v.items, p, 0, [(key, value)]) && Place(u.items, p, key) && (p < |u.items| ==> key < u.items[p].0)
  {
    ghost var s := mem.cells[at].items;
    var items;
    items, p := ShiftIn(mem.cells[at].items, (key, value));
    mem.cells := mem.cells[at := LeafCell(items)];
    v := Leaf(at, items);
    PlaceAt(s, p, key);
  }

  /** Entries with a greater key move one place to the right and the pair goes before them. */
  method ShiftIn(s: seq<Pair>, x: Pair) returns (items: seq<Pair>, ghost p: nat)
    ensures p <= |s| && items == s[..p] + [x] + s[p..]
    ensures (0 < p ==> s[p - 1].0 <= x.0) && (p < |s| ==> x.0 < s[p].0)
  {
    var i := |s|;
    items := s + [x];
    while i > 0 && items[i - 1].0 > x.0
      invariant 0 <= i <= |s| && |items| == |s| + 1
      invariant items[..i] == s[..i] && items[i + 1..] == s[i..]
      invariant i < |s| ==> x.0 < s[i].0
    {
      ShiftStep(s, items, i);
      items := items[i := items[i - 1]];
      i := i - 1;
    }
    assert 0 < i ==> items[..i][i - 1] == s[i - 1];
    items := items[i := x];
    assert items == items[..i] + [x] + items[i + 1..];
    p := i;
  }

  lemma ShiftStep(s: seq<Pair>, items: seq<Pair>, i: nat)
    requires 0 < i <= |s| && |items| == |s| + 1 && items[..i] == s[..i] && items[i + 1..] == s[i..]
    ensures items[i - 1] == s[i - 1]
    ensures var t := items[i := items[i - 1]]; t[..i - 1] == s[..i - 1] && t[i..] == s[i - 1..]
  {
  }

  lemma PlaceAt(s: seq<Pair>, i: nat, key: int)
    requires Sorted(s) && i <= |s| && (0 < i ==> s[i - 1].0 <= key) && (i < |s| ==> key <= s[i].0)
    ensures Place(s, i, key)
  {
  }

  lemma LeafOfPair(m: map<Ptr, Cell>, m': map<Ptr, Cell>, l: Tree, r: Tree, l': Tree, r': Tree)
    requires l.Leaf? && r.Leaf? && StoredAll(m, [l, r]) && DistinctOf([l, r])
    requires l'.Leaf? && r'.Leaf? && l'.at == l.at && r'.at == r.at
    requires m' == m[l.at := LeafCell(l'.items)][r.at := LeafCell(r'.items)]
    ensures StoredAll(m', [l', r']) && DistinctOf([l', r']) && AddrsOf([l', r']) == AddrsOf([l, r]) && LeavesOf([l', r']) == LeavesOf([l, r])
    ensures ItemsOf([l', r']) == l'.items + r'.items
    ensures Framed(m, m', AddrsOf([l, r]), AddrsOf([l, r]))
  {
    assert [l, r][1..] == [r];
    One(r);
    TwoApart(l, r);
    TwoApart(l', r');
    assert [l, r][0] == l && [l, r][1] == r;
  }

  lemma HalvesPlace(c: Config, l: Tree, r: Tree, k: int, key: int)
    requires Forest(c, [l, r], [k], 0) && Sorted(Items(l) + Items(r))
    ensures l.Leaf? && r.Leaf? && Sorted(l.items) && Sorted(r.items) && c.la <= |l.items| && c.la <= |r.items|
    ensures k < key ==> AllLe(l.items, key)
    ensures key <= k ==> AllGe(r.items, key)
  {
    assert Ok(c, [l, r][0], 0, c.la, c.lb) && Ok(c, [l, r][1], 0, c.la, c.lb) && Starts([l, r][0 + 1], [k][0]);
    SortedTwo(l.items, r.items);
  }

  lemma SortedTwo(l: seq<Pair>, r: seq<Pair>)
    requires Sorted(l + r)
    ensures Sorted(l) && Sorted(r)
    ensures r != [] ==> AllGe(r, r[0].0) && AllLe(l, r[0].0)
  {
    var s := l + r;
    assert forall i | 0 <= i < |l| :: l[i] == s[i];
    assert forall i | 0 <= i < |r| :: r[i] == s[|l| + i];
  }

  lemma PairStored(m: map<Ptr, Cell>, l: Tree, r: Tree)
    requires StoredAll(m, [l, r])
    ensures Stored(m, l) && Stored(m, r)
  {
    assert Stored(m, [l, r][0]) && Stored(m, [l, r][1]);
  }

  lemma TwoLeaves(l: Tree, r: Tree)
    requires l.Leaf? && r.Leaf?
    ensures LeavesOf([l, r]) == Leaves(l) + Leaves(r) == [l.at, r.at]
  {
    One(r);
    assert [l, r][1..] == [r];
  }

  lemma SameThere(m: map<Ptr, Cell>, m1: map<Ptr, Cell>, m2: map<Ptr, Cell>, a: set<Ptr>, node: Ptr, b: set<Ptr>)
    requires Framed(m, m1, a, {node} + b) && Framed(m1, m2, b, b) && node !in b
    ensures Framed(m, m2, a, {node} + b) && m2[node] == m1[node]
  {
  }

  lemma OneChild(x: Tree)
    ensures AddrsOf([x]) == Addrs(x) && ItemsOf([x]) == Items(x)
  {
  }

  lemma Unequal(l: Tree, l': Tree, p: nat, key: int, value: int)
    requires l.Leaf? && l'.Leaf? && Edited(l.items, l'.items, p, 0, [(key, value)])
    ensures l != l'
  {
  }

  lemma GrownHalves(c: Config, l: Tree, r: Tree, l': Tree, r': Tree, k: int, key: int, value: int, p: nat)
    requires c.Valid() && Forest(c, [l, r], [k], 0) && l.Leaf? && r.Leaf? && l'.Leaf? && r'.Leaf? && |l.items| + |r.items| == c.lb
    requires if l' == l then Edited(r.items, r'.items, p, 0, [(key, value)]) && Place(r.items, p, key) && k < key
             else r' == r && Edited(l.items, l'.items, p, 0, [(key, value)])
    ensures Forest(c, [l', r'], [k], 0)
  {
    assert Ok(c, [l, r][0], 0, c.la, c.lb) && Ok(c, [l, r][1], 0, c.la, c.lb) && Starts([l, r][0 + 1], [k][0]);
  }

  /** Into one of the two halves of a split leaf. */
  method InsertIntoHalf(mem: Memory, c: Config, node: Ptr, i: nat, key: int, value: int, ghost l: Tree, ghost r: Tree, ghost k: int)
    returns (ghost l': Tree, ghost r': Tree, ghost p: nat)
    requires c.Valid() && Forest(c, [l, r], [k], 0) && StoredAll(mem.cells, [l, r]) && DistinctOf([l, r])
    requires Sorted(Items(l) + Items(r)) && |Items(l) + Items(r)| == c.lb
    requires node in mem.cells && mem.cells[node].InnerCell? && i + 1 < |mem.cells[node].kids| && i < |mem.cells[node].keys|
    requires mem.cells[node].keys[i] == k && mem.cells[node].kids[i] == l.at && mem.cells[node].kids[i + 1] == r.at
    modifies mem`cells
    ensures l.Leaf? && r.Leaf? && l'.Leaf? && r'.Leaf? && l'.at == l.at && r'.at == r.at
    ensures mem.cells == old(mem.cells)[l.at := LeafCell(l'.items)][r.at := LeafCell(r'.items)]
    ensures Forest(c, [l', r'], [k], 0)
    ensures Edited(Items(l) + Items(r), Items(l') + Items(r'), p, 0, [(key, value)]) && Place(Items(l) + Items(r), p, key)
  {
    hide AddrsOf, DistinctOf, Edited, ItemsOf, LeavesOf, Forest, Place, Sorted, AllLe, AllGe, StoredAll;
    l', r' := l, r;
    var at := mem.cells[node].kids[i];
    HalvesPlace(c, l, r, k, key);
    PairStored(mem.cells, l, r);
    LeftAndRight(mem.cells, l, r);
    if key > mem.cells[node].keys[i] {
      at := mem.cells[node].kids[i + 1];
      r', p := LeafInsert(mem, at, key, value, r);
      EditedRight(l.items, r.items, r'.items, p, 0, [(key, value)]);
      PlaceRight(l.items, r.items, p, key);
      GrownHalves(c, l, r, l, r', k, key, value, p);
      p := |l.items| + p;
    } else {
      l', p := LeafInsert(mem, at, key, value, l);
      EditedLeft(l.items, l'.items, r.items, p, 0, [(key, value)]);
      PlaceLeft(l.items, r.items, p, key);
      Unequal(l, l', p, key, value);
      GrownHalves(c, l, r, l', r, k, key, value, p);
    }
  }

  lemma EditedRight<T>(l: seq<T>, a: seq<T>, b: seq<T>, p: nat, del: nat, ins: seq<T>)
    requires Edited(a, b, p, del, ins)
    ensures Edited(l + a, l + b, |l| + p, del, ins)
  {
  }

  lemma EditedLeft<T>(a: seq<T>, b: seq<T>, r: seq<T>, p: nat, del: nat, ins: seq<T>)
    requires Edited(a, b, p, del, ins)
    ensures Edited(a + r, b + r, p, del, ins)
  {
  }

  lemma PlaceRight(l: seq<Pair>, a: seq<Pair>, p: nat, key: int)
    requires Place(a, p, key) && AllLe(l, key)
    ensures Place(l + a, |l| + p, key)
  {
  }

  lemma PlaceLeft(a: seq<Pair>, r: seq<Pair>, p: nat, key: int)
    requires Place(a, p, key) && AllGe(r, key)
    ensures Place(a + r, p, key)
  {
  }

  /** Both leaves are where they are stored, at different addresses. */
  lemma LeftAndRight(m: map<Ptr, Cell>, l: Tree, r: Tree)
    requires StoredAll(m, [l, r]) && DistinctOf([l, r]) && l.Leaf? && r.Leaf?
    ensures l.at != r.at && l.at in m && r.at in m && m[l.at] == LeafCell(l.items) && m[r.at] == LeafCell(r.items)
  {
  }

  /** A full leaf is split first; the pair then goes to the half it belongs to. */
  method InsertIntoFullLeaf(mem: Memory, c: Config, node: Ptr, i: nat, key: int, value: int, ghost x: Tree, ghost a: seq<Ptr>, ghost b: seq<Ptr>)
    returns (ghost w: seq<Tree>, ghost wk: seq<int>, ghost p: nat)
    requires c.Valid() && Subtree(mem, c, x, 0, c.lb, c.lb, a, b)
    requires node in mem.cells && mem.cells[node].InnerCell? && i < |mem.cells[node].kids| == |mem.cells[node].keys| + 1
    requires mem.cells[node].kids[i] == x.at && node !in Addrs(x)
    modifies mem
    ensures |w| == 2 && |wk| == 1 && w[0].at == x.at
    ensures ChildIs(mem, old(mem.cells), c, node, [x], 0, w, wk, InsertAt(old(mem.cells[node].keys), i, wk[0]),
                    InsertAt(old(mem.cells[node].kids), i + 1, w[1].at), a, b)
    ensures Edited(Items(x), ItemsOf(w), p, 0, [(key, value)]) && Place(Items(x), p, key)
  {
    hide Framed, Linked, AddrsOf, DistinctOf, Edited, Stored, StoredAll, ItemsOf, LeavesOf, Forest, Place, Sorted, AllLe, AllGe;
    ghost var l, r, k := Split(mem, c, node, i, 0, x, a, b);
    ghost var m1 := mem.cells;
    ghost var l', r';
    assert Items(l) + Items(r) == Items(x);
    l', r', p := InsertIntoHalf(mem, c, node, i, key, value, l, r, k);
    w, wk := [l', r'], [k];
    LeafOfPair(m1, mem.cells, l, r, l', r');
    SameThere(old(mem.cells), m1, mem.cells, {node} + Addrs(x), node, AddrsOf([l, r]));
    OneChild(x);
    TwoLeaves(l, r);
  }

  lemma NodeKept(m: map<Ptr, Cell>, m': map<Ptr, Cell>, a: set<Ptr>, b: set<Ptr>, node: Ptr)
    requires Framed(m, m', a, b) && node in m && node !in a
    ensures Framed(m, m', {node} + a, {node} + b) && node in m' && m'[node] == m[node] && node !in b
  {
  }

  lemma AsChild(mem: Memory, c: Config, v: Tree, h: nat)
    requires Stored(mem.cells, v) && Distinct(v) && Ok(c, v, h, c.Lower(h), c.Upper(h))
    ensures StoredAll(mem.cells, [v]) && DistinctOf([v]) && AddrsOf([v]) == Addrs(v) && ItemsOf([v]) == Items(v) && LeavesOf([v]) == Leaves(v)
    ensures Forest(c, [v], [], h)
  {
  }

  /** Below an inner node: an inner child that was full may have to be split afterwards. */
  method InsertIntoChild(mem: Memory, c: Config, node: Ptr, i: nat, key: int, value: int, h: nat, ghost x: Tree, ghost a: seq<Ptr>, ghost b: seq<Ptr>)
    returns (ghost w: seq<Tree>, ghost wk: seq<int>, ghost p: nat)
    requires c.Valid() && Subtree(mem, c, x, h, c.Lower(h), if h == 0 then c.lb - 1 else c.ib, a, b)
    requires node in mem.cells && mem.cells[node].InnerCell? && i < |mem.cells[node].kids| == |mem.cells[node].keys| + 1
    requires mem.cells[node].kids[i] == x.at && node !in Addrs(x)
    modifies mem
    ensures |w| == |wk| + 1 && |wk| <= 1 && w[0].at == x.at
    ensures ChildIs(mem, old(mem.cells), c, node, [x], h, w, wk,
                    if |wk| == 0 then old(mem.cells[node].keys) else InsertAt(old(mem.cells[node].keys), i, wk[0]),
                    if |wk| == 0 then old(mem.cells[node].kids) else InsertAt(old(mem.cells[node].kids), i + 1, w[1].at), a, b)
    ensures Edited(Items(x), ItemsOf(w), p, 0, [(key, value)]) && Place(Items(x), p, key)
    decreases h, 1
  {
    hide Framed, Linked, AddrsOf, Addrs, DistinctOf, Distinct, Edited, Stored, StoredAll, ItemsOf, Items, LeavesOf, Leaves, Forest, Place, Sorted;
    var child := mem.cells[node].kids[i];
    ChildSize(mem.cells, c, x, h);
    var full := h > 0 && |mem.cells[child].kids| == c.ib;
    ghost var v;
    v, p := InsertInto(mem, c, child, key, value, h, x, c.Lower(h), a, b);
    NodeKept(old(mem.cells), mem.cells, Addrs(x), Addrs(v), node);
    OneChild(x);
    ChildSize(mem.cells, c, v, h);
    if full && |mem.cells[child].kids| > c.ib {
      ghost var m1 := mem.cells;
      ghost var l, r, k;
      ResizeOk(c, v, h, c.Lower(h), c.ib + 1, c.ib + 1, c.ib + 1);
      l, r, k := Split(mem, c, node, i, h, v, a, b);
      w, wk := [l, r], [k];
      FramedThen(old(mem.cells), m1, mem.cells, {node} + Addrs(x), {node} + Addrs(v), {node} + AddrsOf(w));
      PairOf(l, r);
    } else {
      ResizeOk(c, v, h, c.Lower(h), if h == 0 then c.lb else c.ib + 1, c.Lower(h), c.Upper(h));
      AsChild(mem, c, v, h);
      w, wk := [v], [];
    }
  }

  lemma PairOf(l: Tree, r: Tree)
    ensures ItemsOf([l, r]) == Items(l) + Items(r) && LeavesOf([l, r]) == Leaves(l) + Leaves(r)
  {
    hide Items, Leaves;
    One(r);
    assert [l, r][1..] == [r];
  }

  lemma ResizeOk(c: Config, v: Tree, h: nat, lo: nat, hi: nat, lo': nat, hi': nat)
    requires Ok(c, v, h, lo, hi) && lo' <= Size(v) <= hi'
    ensures Ok(c, v, h, lo', hi')
  {
  }

  /** The size of a node can be read off its cell. */
  lemma ChildSize(m: map<Ptr, Cell>, c: Config, x: Tree, h: nat)
    requires Stored(m, x) && exists lo, hi :: Ok(c, x, h, lo, hi)
    ensures x.at in m && m[x.at].LeafCell? == (h == 0)
    ensures Size(x) == if h == 0 then |m[x.at].items| else |m[x.at].kids|
  {
  }

  method InsertIntoLeaf(mem: Memory, c: Config, node: Ptr, key: int, value: int, ghost u: Tree, ghost lo: nat, ghost a: seq<Ptr>, ghost b: seq<Ptr>)
    returns (ghost v: Tree, ghost p: nat)
    requires c.Valid() && u.at == node && Subtree(mem, c, u, 0, lo, c.lb - 1, a, b)
    modifies mem
    ensures v.at == node && Stored(mem.cells, v) && Distinct(v)
    ensures Ok(c, v, 0, lo, c.lb) && lo <= Size(v) <= Size(u) + 1
    ensures Framed(old(mem.cells), mem.cells, Addrs(u), Addrs(v))
    ensures Chained(mem, a + Leaves(v) + b)
    ensures Edited(Items(u), Items(v), p, 0, [(key, value)]) && Place(Items(u), p, key)
  {
    v, p := LeafInsert(mem, node, key, value, u);
  }

  /** The child to descend into is a subtree in its own right. */
  lemma Descend(mem: Memory, c: Config, u: Tree, h: nat, lo: nat, hi: nat, i: nat, a: seq<Ptr>, b: seq<Ptr>)
    requires c.Valid() && 0 < h && Subtree(mem, c, u, h, lo, hi, a, b) && u.Inner? && i < |u.kids|
    ensures Subtree(mem, c, u.kids[i], h - 1, c.Lower(h - 1), c.Upper(h - 1), a + LeavesOf(u.kids[..i]), LeavesOf(u.kids[i + 1..]) + b)
    ensures u.at !in Addrs(u.kids[i]) && Forest(c, u.kids, u.keys, h - 1) && |u.keys| + 1 == |u.kids| && Sorted(ItemsOf(u.kids))
  {
    hide LeavesOf, ItemsOf, AddrsOf, Linked, DistinctOf, AllLe, AllGe, Sorted;
    var ts := u.kids;
    KidAddrs(ts, i);
    AroundKid(c, ts, u.keys, h - 1, i);
    Middle(ts, i, i + 1);
    assert ts[i..i + 1] == [ts[i]];
    One(ts[i]);
    Reassoc(a, LeavesOf(ts[..i]), Leaves(ts[i]), LeavesOf(ts[i + 1..]), b);
  }

  lemma FinishInsert(mem: Memory, m: map<Ptr, Cell>, c: Config, u: Tree, h: nat, lo: nat, i: nat, w: seq<Tree>, wk: seq<int>, q: nat,
                     key: int, value: int, a: seq<Ptr>, b: seq<Ptr>) returns (v: Tree, p: nat)
    requires c.Valid() && u.Inner? && 0 < h && Ok(c, u, h, lo, c.ib) && Stored(m, u) && Distinct(u) && Sorted(ItemsOf(u.kids))
    requires i < |u.kids| == |u.keys| + 1 && (forall j | 0 <= j < i :: u.keys[j] < key) && (i < |u.keys| ==> key <= u.keys[i])
    requires |w| == |wk| + 1 && |wk| <= 1 && w[0].at == u.kids[i].at
    requires ChildIs(mem, m, c, u.at, [u.kids[i]], h - 1, w, wk,
                     if |wk| == 0 then u.keys else InsertAt(u.keys, i, wk[0]),
                     if |wk| == 0 then Ats(u.kids) else InsertAt(Ats(u.kids), i + 1, w[1].at),
                     a + LeavesOf(u.kids[..i]), LeavesOf(u.kids[i + 1..]) + b)
    requires Edited(Items(u.kids[i]), ItemsOf(w), q, 0, [(key, value)]) && Place(Items(u.kids[i]), q, key)
    ensures v.at == u.at && Stored(mem.cells, v) && Distinct(v)
    ensures Ok(c, v, h, lo, c.ib + 1) && lo <= Size(v) <= Size(u) + 1
    ensures Framed(m, mem.cells, Addrs(u), Addrs(v))
    ensures Chained(mem, a + Leaves(v) + b)
    ensures Edited(Items(u), Items(v), p, 0, [(key, value)]) && Place(Items(u), p, key)
  {
    hide Framed, Linked, AddrsOf, Addrs, DistinctOf, Distinct, Stored, StoredAll, ItemsOf, LeavesOf, Leaves, Chained, Place, Edited, Sorted, ChildIs, Forest, Ok, Ats, Swap, InsertAt, Items;
    var ts, x := u.kids, u.kids[i];
    InnerShape(c, u, h, lo, c.ib);
    var a', b' := a + LeavesOf(ts[..i]), LeavesOf(ts[i + 1..]) + b;
    var k, kids := if |wk| == 0 then u.keys else InsertAt(u.keys, i, wk[0]), if |wk| == 0 then Ats(ts) else InsertAt(Ats(ts), i + 1, w[1].at);
    ChildForest(mem, m, c, u.at, [x], h - 1, w, wk, k, kids, a', b');
    PlaceBelow(c, ts, u.keys, h - 1, i, q, key);
    NewKeys(c, ts, u.keys, h - 1, i, w, wk, q, key, value);
    OneKid(ts, i);
    KidPointers(ts, i, w);
    ButAll(c, ts, u.keys, h - 1, i, 1);
    ItemsBelow(u);
    Concluded(mem, m, c, u, h, lo, c.ib + 1, i, 1, w, wk, k, q, 0, [(key, value)], a, b);
    v, p := Inner(u.at, k, Swap(ts, i, 1, w)), |ItemsOf(ts[..i])| + q;
  }

  lemma OneKid(ts: seq<Tree>, i: nat)
    requires i < |ts|
    ensures ts[i..i + 1] == [ts[i]] && ItemsOf(ts[i..i + 1]) == Items(ts[i])
  {
    hide ItemsOf, Items;
    One(ts[i]);
    assert ts[i..i + 1] == [ts[i]];
  }

  lemma ItemsBelow(u: Tree)
    requires u.Inner?
    ensures Items(u) == ItemsOf(u.kids)
  {
  }

  lemma ChildForest(mem: Memory, m: map<Ptr, Cell>, c: Config, node: Ptr, x: seq<Tree>, h: nat, w: seq<Tree>, wk: seq<int>,
                    k: seq<int>, kids: seq<Ptr>, a: seq<Ptr>, b: seq<Ptr>)
    requires ChildIs(mem, m, c, node, x, h, w, wk, k, kids, a, b)
    ensures Forest(c, w, wk, h)
  {
  }

  lemma ButAll(c: Config, ts: seq<Tree>, keys: seq<int>, h: nat, i: nat, n: nat)
    requires Forest(c, ts, keys, h)
    ensures ForestBut(c, ts, keys, h, i, n)
  {
  }

  lemma KidPointers(ts: seq<Tree>, i: nat, w: seq<Tree>)
    requires i < |ts| && 1 <= |w| <= 2 && w[0].at == ts[i].at
    ensures Swap(Ats(ts), i, 1, Ats(w)) == if |w| == 1 then Ats(ts) else InsertAt(Ats(ts), i + 1, w[1].at)
  {
    var r, s := Swap(Ats(ts), i, 1, Ats(w)), if |w| == 1 then Ats(ts) else InsertAt(Ats(ts), i + 1, w[1].at);
    assert |r| == |s| && forall j | 0 <= j < |r| :: r[j] == s[j];
  }

  lemma InnerShape(c: Config, u: Tree, h: nat, lo: nat, hi: nat)
    requires Ok(c, u, h, lo, hi) && 0 < h
    ensures u.Inner? && lo <= |u.keys| + 1 == |u.kids| <= hi && Forest(c, u.kids, u.keys, h - 1)
  {
  }

  /** A place in the child the search descends to is a place in the whole. */
  lemma PlaceBelow(c: Config, ts: seq<Tree>, keys: seq<int>, h: nat, i: nat, q: nat, key: int)
    requires c.Valid() && Forest(c, ts, keys, h) && Sorted(ItemsOf(ts)) && i < |ts|
    requires (forall j | 0 <= j < i :: keys[j] < key) && (i < |keys| ==> key <= keys[i])
    requires Place(Items(ts[i]), q, key)
    ensures Place(ItemsOf(ts), |ItemsOf(ts[..i])| + q, key)
    ensures 0 < i ==> Items(ts[i]) != [] && Items(ts[i])[0].0 == keys[i - 1] < key
  {
    hide ItemsOf, Items, Place, Sorted;
    AroundKid(c, ts, keys, h, i);
    PlaceInside(ItemsOf(ts[..i]), Items(ts[i]), ItemsOf(ts[i + 1..]), q, key);
  }

  /** The new child keeps the separator to its left. */
  lemma NewKeys(c: Config, ts: seq<Tree>, keys: seq<int>, h: nat, i: nat, w: seq<Tree>, wk: seq<int>, q: nat, key: int, value: int)
    requires c.Valid() && Forest(c, w, wk, h) && i < |ts| == |keys| + 1 && |wk| <= 1
    requires 0 < i ==> Items(ts[i]) != [] && Items(ts[i])[0].0 == keys[i - 1] < key
    requires Edited(Items(ts[i]), ItemsOf(w), q, 0, [(key, value)]) && Place(Items(ts[i]), q, key)
    ensures Items(w[0]) != []
    ensures (if |wk| == 0 then keys else InsertAt(keys, i, wk[0]))
            == (if i == 0 then [] else keys[..i - 1] + [Items(w[0])[0].0]) + wk + keys[i..]
  {
    hide Items, Place, Edited;
    NotEmpty(c, w[0], h, c.Lower(h), c.Upper(h));
    FirstOf(w);
    if 0 < i {
      FirstKept(Items(ts[i]), ItemsOf(w), q, key, value);
      assert keys[..i - 1] + [keys[i - 1]] == keys[..i];
    }
    assert wk == [] || wk == [wk[0]];
    if wk == [] {
      assert keys[..i] + [] + keys[i..] == keys;
    }
  }

  /** A key above the smallest does not become the smallest. */
  lemma FirstKept(s: seq<Pair>, t: seq<Pair>, q: nat, key: int, value: int)
    requires s != [] && s[0].0 < key && Place(s, q, key) && Edited(s, t, q, 0, [(key, value)])
    ensures t != [] && t[0] == s[0]
  {
  }

  /** insert below `node`, `h` levels above the leaves: one pair more, in its sorted place. The
      source's loop over the inner nodes is the recursion it stands for. */
  method InsertInto(mem: Memory, c: Config, node: Ptr, key: int, value: int, h: nat, ghost u: Tree, ghost lo: nat, ghost a: seq<Ptr>, ghost b: seq<Ptr>)
    returns (ghost v: Tree, ghost p: nat)
    requires c.Valid() && u.at == node && Subtree(mem, c, u, h, lo, if h == 0 then c.lb - 1 else c.ib, a, b)
    modifies mem
    ensures v.at == node && Stored(mem.cells, v) && Distinct(v)
    ensures Ok(c, v, h, lo, if h == 0 then c.lb else c.ib + 1) && lo <= Size(v) <= Size(u) + 1
    ensures Framed(old(mem.cells), mem.cells, Addrs(u), Addrs(v))
    ensures Chained(mem, a + Leaves(v) + b)
    ensures Edited(Items(u), Items(v), p, 0, [(key, value)]) && Place(Items(u), p, key)
    decreases h, 0
  {
    hide Framed, Linked, AddrsOf, DistinctOf, Edited, Stored, StoredAll, ItemsOf, LeavesOf, Forest, Place, Sorted, AllLe, AllGe, ChildIs;
    if h == 0 {
      v, p := InsertIntoLeaf(mem, c, node, key, value, u, lo, a, b);
    } else {
      InnerShape(c, u, h, lo, c.ib);
      Unfold(mem.cells, u);
      var keys, kids := mem.cells[node].keys, mem.cells[node].kids;
      var i := ChildFor(keys, key);
      ghost var ts, x := u.kids, u.kids[i];
      ghost var a', b' := a + LeavesOf(ts[..i]), LeavesOf(ts[i + 1..]) + b;
      Descend(mem, c, u, h, lo, c.ib, i, a, b);
      ghost var w, wk, q;
      var child := kids[i];
      ChildSize(mem.cells, c, x, h - 1);
      if h == 1 && |mem.cells[child].items| == c.lb {
        ResizeOk(c, x, h - 1, c.Lower(h - 1), c.Upper(h - 1), c.lb, c.lb);
        w, wk, q := InsertIntoFullLeaf(mem, c, node, i, key, value, x, a', b');
      } else {
        ResizeOk(c, x, h - 1, c.Lower(h - 1), c.Upper(h - 1), c.Lower(h - 1), if h == 1 then c.lb - 1 else c.ib);
        w, wk, q := InsertIntoChild(mem, c, node, i, key, value, h - 1, x, a', b');
      }
      v, p := FinishInsert(mem, old(mem.cells), c, u, h, lo, i, w, wk, q, key, value, a, b);
    }
  }
}
