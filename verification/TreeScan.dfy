/** Reading the tree: point lookup, the range iterator and the aggregate sum of ABTree. */
module TreeScan {
  import opened Trees
  import opened TreeMemory
  import opened TreeInsert
  import opened RangeSums
  import opened TreeRemove

  /** What point lookup, insertion and removal need of the tree: the whole tree is a subtree with
      nothing around it. */
  ghost predicate Whole(mem: Memory, c: Config, t: Tree, h: nat)
    reads mem
  {
    && c.Valid() && Stored(mem.cells, t) && Distinct(t) && Ok(c, t, h, if h == 0 then 0 else 2, c.Upper(h)) && Sorted(Items(t))
    && Chained(mem, Leaves(t))
  }

  /** A stored node within its bounds, leaf or inner node. */
  ghost predicate CellWithin(c: Config, cell: Cell) {
    match cell
    case LeafCell(items) => c.la <= |items| <= c.lb
    case InnerCell(keys, kids) => c.ia <= |kids| <= c.ib && |keys| + 1 == |kids|
  }

  /** A way of `d` steps down from one stored node to another. */
  ghost predicate Leads(m: map<Ptr, Cell>, p: Ptr, q: Ptr, d: nat)
    decreases d
  {
    if d == 0 then p == q
    else p in m && m[p].InnerCell? && exists i :: 0 <= i < |m[p].kids| && Leads(m, m[p].kids[i], q, d - 1)
  }

  /** All nodes below the top one are within bounds. */
  lemma {:induction false} NodesWithin(m: map<Ptr, Cell>, c: Config, t: Tree, h: nat, lo: nat, hi: nat)
    requires Stored(m, t) && Ok(c, t, h, lo, hi)
    ensures forall p | p in Addrs(t) && p != t.at :: p in m && CellWithin(c, m[p])
    ensures t.at in m && match m[t.at]
                         case LeafCell(items) => h == 0 && lo <= |items| <= hi
                         case InnerCell(keys, kids) => 0 < h && lo <= |kids| <= hi && |keys| + 1 == |kids|
    decreases h, 0
  {
    if t.Inner? {
      NodesOfWithin(m, c, t.kids, h - 1);
    }
  }

  lemma {:induction false} NodesOfWithin(m: map<Ptr, Cell>, c: Config, ts: seq<Tree>, h: nat)
    requires StoredAll(m, ts) && forall i | 0 <= i < |ts| :: Ok(c, ts[i], h, c.Lower(h), c.Upper(h))
    ensures forall p | p in AddrsOf(ts) :: p in m && CellWithin(c, m[p])
    decreases h, 1, ts
  {
    if ts != [] {
      NodesWithin(m, c, ts[0], h, c.Lower(h), c.Upper(h));
      NodesOfWithin(m, c, ts[1..], h);
    }
  }

  /** All leaves are equally deep. */
  lemma {:induction false} LeavesLevel(m: map<Ptr, Cell>, c: Config, t: Tree, h: nat, lo: nat, hi: nat, q: Ptr, d: nat)
    requires Stored(m, t) && Ok(c, t, h, lo, hi) && Leads(m, t.at, q, d) && q in m && m[q].LeafCell?
    ensures d == h
    decreases d
  {
    if t.Inner? && d != 0 {
      var i :| 0 <= i < |m[t.at].kids| && Leads(m, m[t.at].kids[i], q, d - 1);
      assert Stored(m, t.kids[i]);
      LeavesLevel(m, c, t.kids[i], h - 1, c.Lower(h - 1), c.Upper(h - 1), q, d - 1);
    }
  }

  /** find(key) goes to the right of a separator that equals the key. */
  method ChildAfter(keys: seq<int>, key: int) returns (i: nat)
    ensures i <= |keys|
    ensures forall j | 0 <= j < i :: keys[j] <= key
    ensures i < |keys| ==> key < keys[i]
  {
    i := 0;
    while i < |keys| && keys[i] <= key
      invariant i <= |keys| && forall j | 0 <= j < i :: keys[j] <= key
    {
      i := i + 1;
    }
  }

  /** What is known of a subtree on the way down. */
  ghost predicate Below(m: map<Ptr, Cell>, c: Config, t: Tree, h: nat) {
    c.Valid() && Stored(m, t) && (exists lo, hi :: Ok(c, t, h, lo, hi)) && Sorted(Items(t)) && (0 < h ==> t.Inner? && 2 <= |t.kids|)
  }

  lemma BelowKid(m: map<Ptr, Cell>, c: Config, t: Tree, h: nat, i: nat)
    requires Below(m, c, t, h) && 0 < h && i < |t.kids|
    ensures c.Valid() && t.Inner? && t.at in m && m[t.at] == InnerCell(t.keys, Ats(t.kids)) && |t.keys| + 1 == |t.kids|
    ensures Forest(c, t.kids, t.keys, h - 1) && Sorted(ItemsOf(t.kids))
    ensures Below(m, c, t.kids[i], h - 1)
    ensures Items(t) == ItemsOf(t.kids[..i]) + Items(t.kids[i]) + ItemsOf(t.kids[i + 1..])
    ensures Leaves(t) == LeavesOf(t.kids[..i]) + Leaves(t.kids[i]) + LeavesOf(t.kids[i + 1..])
  {
    hide LeavesOf, ItemsOf, Sorted;
    var lo, hi :| Ok(c, t, h, lo, hi);
    InnerShape(c, t, h, lo, hi);
    var x := t.kids[i];
    assert Ok(c, x, h - 1, c.Lower(h - 1), c.Upper(h - 1));
    AroundKid(c, t.kids, t.keys, h - 1, i);
    Middle(t.kids, i, i + 1);
    assert t.kids[i..i + 1] == [x];
    One(x);
  }

  lemma BelowCell(m: map<Ptr, Cell>, c: Config, t: Tree, h: nat)
    requires Below(m, c, t, h)
    ensures c.Valid() && Sorted(Items(t)) && t.at in m && (h == 0 ==> t.Leaf? && m[t.at] == LeafCell(t.items))
    ensures 0 < h ==> t.Inner? && 2 <= |t.kids| == |t.keys| + 1 && m[t.at] == InnerCell(t.keys, Ats(t.kids))
  {
    if 0 < h {
      BelowKid(m, c, t, h, 0);
    }
  }

  /** The child to the right of an equal separator holds the key if any child does, too. */
  lemma WhereFound(c: Config, ts: seq<Tree>, keys: seq<int>, h: nat, i: nat, key: int)
    requires c.Valid() && Forest(c, ts, keys, h) && Sorted(ItemsOf(ts)) && i < |ts|
    requires (0 < i ==> keys[i - 1] <= key) && (i < |keys| ==> key < keys[i])
    requires HasKey(ItemsOf(ts), key)
    ensures HasKey(Items(ts[i]), key)
  {
    if 0 < i {
      assert Starts(ts[i - 1 + 1], keys[i - 1]);
    }
    WhereKey(c, ts, keys, h, i, key);
  }

  /** Every pair of the subtree is a pair of the tree. */
  ghost predicate Part(s: seq<Pair>, t: seq<Pair>) {
    forall i | 0 <= i < |s| :: s[i] in t
  }

  lemma PartMiddle(l: seq<Pair>, s: seq<Pair>, r: seq<Pair>, t: seq<Pair>)
    requires Part(l + s + r, t)
    ensures Part(s, t)
  {
    forall i | 0 <= i < |s| ensures s[i] in t {
      assert (l + s + r)[|l| + i] == s[i];
    }
  }

  /** find(key): the value of some occurrence of the key, or -1 if there is none. */
  method Find(mem: Memory, c: Config, root: Ptr, height: nat, key: int, ghost t: Tree) returns (value: int)
    requires 1 <= height && t.at == root && Whole(mem, c, t, height - 1)
    ensures HasKey(Items(t), key) ==> (key, value) in Items(t)
    ensures !HasKey(Items(t), key) ==> value == -1
  {
    hide Stored, Ok, Items, ItemsOf, Sorted, HasKey, Part, Below, Forest;
    WholeBelow(mem, c, t, height - 1);
    var node, h := root, height - 1;
    ghost var x := t;
    PartSelf(Items(t));
    while h > 0
      invariant x.at == node && Below(mem.cells, c, x, h) && Part(Items(x), Items(t))
      invariant HasKey(Items(t), key) ==> HasKey(Items(x), key)
    {
      BelowCell(mem.cells, c, x, h);
      var keys, kids := mem.cells[node].keys, mem.cells[node].kids;
      var i := ChildAfter(keys, key);
      BelowKid(mem.cells, c, x, h, i);
      PartMiddle(ItemsOf(x.kids[..i]), Items(x.kids[i]), ItemsOf(x.kids[i + 1..]), Items(t));
      if HasKey(Items(x), key) {
        InnerItems(x);
        WhereFound(c, x.kids, x.keys, h - 1, i, key);
      }
      node := kids[i];
      x := x.kids[i];
      h := h - 1;
    }
    BelowCell(mem.cells, c, x, h);
    InnerItems(x);
    value := FindInLeaf(mem.cells[node].items, key);
    FoundPart(x.items, Items(t), key, value);
  }

  lemma InnerItems(x: Tree)
    ensures x.Inner? ==> Items(x) == ItemsOf(x.kids)
    ensures x.Leaf? ==> Items(x) == x.items
  {
  }

  lemma WholeBelow(mem: Memory, c: Config, t: Tree, h: nat)
    requires Whole(mem, c, t, h)
    ensures Below(mem.cells, c, t, h)
  {
  }

  lemma PartSelf(s: seq<Pair>)
    ensures Part(s, s)
  {
  }

  lemma FoundPart(s: seq<Pair>, t: seq<Pair>, key: int, value: int)
    requires Part(s, t) && (HasKey(s, key) ==> (key, value) in s)
    ensures HasKey(s, key) ==> (key, value) in t && HasKey(t, key)
  {
  }

  method FindInLeaf(items: seq<Pair>, key: int) returns (value: int)
    requires Sorted(items)
    ensures HasKey(items, key) ==> (key, value) in items
    ensures !HasKey(items, key) ==> value == -1
  {
    var i := 0;
    while i < |items| && items[i].0 < key
      invariant i <= |items| && forall j | 0 <= j < i :: items[j].0 < key
    {
      i := i + 1;
    }
    if i < |items| && items[i].0 == key {
      value := items[i].1;
      assert items[i] == (key, value);
    } else {
      value := -1;
    }
  }

  function ItemsAt(m: map<Ptr, Cell>, p: Ptr): (s: seq<Pair>) {
    if p in m && m[p].LeafCell? then m[p].items else []
  }

  /** The pairs of a chain of leaves, one leaf after the other. */
  ghost function Flat(m: map<Ptr, Cell>, ls: seq<Ptr>): (s: seq<Pair>) {
    if ls == [] then [] else ItemsAt(m, ls[0]) + Flat(m, ls[1..])
  }

  lemma {:induction false} FlatJoin(m: map<Ptr, Cell>, a: seq<Ptr>, b: seq<Ptr>)
    ensures Flat(m, a + b) == Flat(m, a) + Flat(m, b)
  {
    if a == [] {
      assert a + b == b;
    } else {
      FlatJoin(m, a[1..], b);
      assert (a + b)[1..] == a[1..] + b;
      Assoc(ItemsAt(m, a[0]), Flat(m, a[1..]), Flat(m, b));
    }
  }

  /** The chain of leaves holds the contents of the tree, in order. */
  lemma {:induction false} FlatLeaves(m: map<Ptr, Cell>, t: Tree)
    requires Stored(m, t)
    ensures Flat(m, Leaves(t)) == Items(t)
    decreases t, 0
  {
    match t
    case Leaf(at, items) => assert [at][1..] == []; assert items + [] == items;
    case Inner(_, _, kids) => FlatLeavesOf(m, kids);
  }

  lemma {:induction false} FlatLeavesOf(m: map<Ptr, Cell>, ts: seq<Tree>)
    requires StoredAll(m, ts)
    ensures Flat(m, LeavesOf(ts)) == ItemsOf(ts)
    decreases ts
  {
    if ts != [] {
      FlatLeaves(m, ts[0]);
      FlatLeavesOf(m, ts[1..]);
      FlatJoin(m, Leaves(ts[0]), LeavesOf(ts[1..]));
    }
  }

  /** Leaf `n` of the chain holds a stretch of the contents. */
  lemma FlatSplit3(m: map<Ptr, Cell>, ls: seq<Ptr>, n: nat)
    requires n < |ls|
    ensures Flat(m, ls) == (Flat(m, ls[..n]) + ItemsAt(m, ls[n])) + Flat(m, ls[n + 1..])
    ensures Flat(m, ls[..n + 1]) == Flat(m, ls[..n]) + ItemsAt(m, ls[n])
  {
    hide ItemsAt, Flat;
    ThreeParts(ls, n);
    FlatJoin(m, ls[..n], [ls[n]]);
    FlatJoin(m, ls[..n + 1], ls[n + 1..]);
    FlatOne(m, ls[n]);
  }

  lemma FlatSize(m: map<Ptr, Cell>, ls: seq<Ptr>, n: nat)
    requires n < |ls|
    ensures |Flat(m, ls[..n + 1])| == |Flat(m, ls[..n])| + |ItemsAt(m, ls[n])| <= |Flat(m, ls)|
    ensures n + 1 == |ls| ==> |Flat(m, ls[..n + 1])| == |Flat(m, ls)|
  {
    hide ItemsAt, Flat;
    FlatSplit3(m, ls, n);
    ThreeParts(ls, n);
  }

  lemma FlatAt(m: map<Ptr, Cell>, ls: seq<Ptr>, n: nat, i: nat)
    requires n < |ls| && i < |ItemsAt(m, ls[n])|
    ensures |Flat(m, ls[..n])| + i < |Flat(m, ls)| && Flat(m, ls)[|Flat(m, ls[..n])| + i] == ItemsAt(m, ls[n])[i]
  {
    hide ItemsAt, Flat;
    FlatSplit3(m, ls, n);
    InMiddle(Flat(m, ls[..n]), ItemsAt(m, ls[n]), Flat(m, ls[n + 1..]), i);
  }

  lemma ThreeParts<T>(s: seq<T>, n: nat)
    requires n < |s|
    ensures s == (s[..n] + [s[n]]) + s[n + 1..] && s[..n + 1] == s[..n] + [s[n]]
    ensures n + 1 == |s| ==> s[..n + 1] == s
  {
  }

  lemma InMiddle<T>(l: seq<T>, s: seq<T>, r: seq<T>, i: nat)
    requires i < |s|
    ensures (l + s + r)[|l| + i] == s[i]
  {
  }

  lemma FlatNone(m: map<Ptr, Cell>)
    ensures Flat(m, []) == []
  {
  }

  lemma FlatOne(m: map<Ptr, Cell>, p: Ptr)
    ensures Flat(m, [p]) == ItemsAt(m, p)
  {
  }

  /** Below an inner node no leaf is empty. */
  lemma {:induction false} LeavesFull(m: map<Ptr, Cell>, c: Config, t: Tree, h: nat, lo: nat, hi: nat, p: Ptr)
    requires c.Valid() && Stored(m, t) && Ok(c, t, h, lo, hi) && 1 <= lo && p in Leaves(t)
    ensures ItemsAt(m, p) != []
    decreases t, 0
  {
    if t.Inner? {
      LeavesFullOf(m, c, t.kids, h - 1, p);
    }
  }

  lemma {:induction false} LeavesFullOf(m: map<Ptr, Cell>, c: Config, ts: seq<Tree>, h: nat, p: Ptr)
    requires c.Valid() && StoredAll(m, ts) && (forall i | 0 <= i < |ts| :: Ok(c, ts[i], h, c.Lower(h), c.Upper(h))) && p in LeavesOf(ts)
    ensures ItemsAt(m, p) != []
    decreases ts
  {
    if p in Leaves(ts[0]) {
      LeavesFull(m, c, ts[0], h, c.Lower(h), c.Upper(h), p);
    } else {
      LeavesFullOf(m, c, ts[1..], h, p);
    }
  }

  /** The first position whose key is at least `k`. */
  ghost function First(s: seq<Pair>, k: int): (r: nat)
    ensures r <= |s| && (forall i | 0 <= i < r :: s[i].0 < k) && (r < |s| ==> k <= s[r].0)
  {
    if s == [] || k <= s[0].0 then 0 else 1 + First(s[1..], k)
  }

  lemma FirstIs(s: seq<Pair>, k: int, r: nat)
    requires r <= |s| && (forall i | 0 <= i < r :: s[i].0 < k) && (r < |s| ==> k <= s[r].0)
    ensures First(s, k) == r
  {
  }

  /** In sorted contents the pairs of a range are one stretch. */
  lemma {:induction false} WithinIsSlice(s: seq<Pair>, min: int, max: int)
    requires Sorted(s) && min <= max
    ensures First(s, min) <= First(s, max + 1)
    ensures Within(s, min, max) == s[First(s, min)..First(s, max + 1)]
  {
    if s != [] {
      WithinIsSlice(s[1..], min, max);
      var lo, hi := First(s, min), First(s, max + 1);
      assert Within(s, min, max) == (if min <= s[0].0 <= max then [s[0]] else []) + Within(s[1..], min, max);
      assert lo == if min <= s[0].0 then 0 else 1 + First(s[1..], min);
      assert hi == if max + 1 <= s[0].0 then 0 else 1 + First(s[1..], max + 1);
      hide Within, First;
      if max < s[0].0 {
        NoneWithin(s, min, max);
      } else if min <= s[0].0 {
        FirstIs(s[1..], min, 0);
        SliceFrom(s, hi);
      } else {
        SliceOver(s, lo, hi);
      }
    }
  }

  lemma SliceFrom<T>(s: seq<T>, hi: nat)
    requires 0 < hi <= |s|
    ensures [s[0]] + s[1..][0..hi - 1] == s[0..hi]
  {
  }

  lemma SliceOver<T>(s: seq<T>, lo: nat, hi: nat)
    requires 0 < lo <= hi <= |s|
    ensures s[1..][lo - 1..hi - 1] == s[lo..hi]
  {
  }

  /** The leaf a range query starts from: no pair before it is in the range, none after it is below. */
  method FindLeaf(mem: Memory, c: Config, root: Ptr, height: nat, min: int, ghost t: Tree) returns (leaf: Ptr, ghost n: nat)
    requires 1 <= height && t.at == root && Whole(mem, c, t, height - 1)
    ensures n < |Leaves(t)| && Leaves(t)[n] == leaf
    ensures |Flat(mem.cells, Leaves(t)[..n])| <= First(Items(t), min)
    ensures First(Items(t), min) <= |Flat(mem.cells, Leaves(t)[..n + 1])|
  {
    hide Stored, Ok, Items, ItemsOf, Leaves, LeavesOf, Sorted, Below, Forest, Flat;
    FlatNone(mem.cells);
    WholeBelow(mem, c, t, height - 1);
    var node, h := root, height - 1;
    ghost var x, a, b, l, r := t, [], [], [], [];
    assert [] + Leaves(t) + [] == Leaves(t) && [] + Items(t) + [] == Items(t);
    while h > 0
      invariant x.at == node && Below(mem.cells, c, x, h)
      invariant Leaves(t) == a + Leaves(x) + b && Items(t) == l + Items(x) + r && Flat(mem.cells, a) == l
      invariant AllLe(l, min - 1) && AllGe(r, min)
    {
      BelowCell(mem.cells, c, x, h);
      var keys, kids := mem.cells[node].keys, mem.cells[node].kids;
      var i := ChildFor(keys, min);
      BelowKid(mem.cells, c, x, h, i);
      l, r, a, b := DownTo(mem.cells, c, x, h, i, min, l, r, a, b);
      node := kids[i];
      x := x.kids[i];
      h := h - 1;
    }
    BelowCell(mem.cells, c, x, h);
    leaf, n := node, |a|;
    AtLeaf(mem.cells, t, x, a, b, l, r, min);
  }

  lemma DownTo(m: map<Ptr, Cell>, c: Config, x: Tree, h: nat, i: nat, min: int, l: seq<Pair>, r: seq<Pair>, a: seq<Ptr>, b: seq<Ptr>)
    returns (l': seq<Pair>, r': seq<Pair>, a': seq<Ptr>, b': seq<Ptr>)
    requires Below(m, c, x, h) && 0 < h && x.Inner? && i < |x.kids| == |x.keys| + 1
    requires (0 < i ==> x.keys[i - 1] < min) && (i < |x.keys| ==> min <= x.keys[i])
    requires AllLe(l, min - 1) && AllGe(r, min) && Flat(m, a) == l
    ensures l' + Items(x.kids[i]) + r' == l + Items(x) + r && a' + Leaves(x.kids[i]) + b' == a + Leaves(x) + b
    ensures AllLe(l', min - 1) && AllGe(r', min) && Flat(m, a') == l'
  {
    hide Stored, Ok, Items, ItemsOf, Leaves, LeavesOf, Sorted, Below, Forest, Flat;
    BelowKid(m, c, x, h, i);
    var ts := x.kids;
    AroundKid(c, ts, x.keys, h - 1, i);
    l', r' := l + ItemsOf(ts[..i]), ItemsOf(ts[i + 1..]) + r;
    a', b' := a + LeavesOf(ts[..i]), LeavesOf(ts[i + 1..]) + b;
    Reassoc(l, ItemsOf(ts[..i]), Items(ts[i]), ItemsOf(ts[i + 1..]), r);
    Reassoc(a, LeavesOf(ts[..i]), Leaves(ts[i]), LeavesOf(ts[i + 1..]), b);
    FlatJoin(m, a, LeavesOf(ts[..i]));
    KidsStored(m, c, x, h, i);
    FlatLeavesOf(m, ts[..i]);
  }

  lemma KidsStored(m: map<Ptr, Cell>, c: Config, x: Tree, h: nat, i: nat)
    requires Below(m, c, x, h) && 0 < h && i <= |x.kids|
    ensures StoredAll(m, x.kids[..i])
  {
  }

  lemma AtLeaf(m: map<Ptr, Cell>, t: Tree, x: Tree, a: seq<Ptr>, b: seq<Ptr>, l: seq<Pair>, r: seq<Pair>, min: int)
    requires x.Leaf? && Leaves(t) == a + Leaves(x) + b && Items(t) == l + Items(x) + r && Flat(m, a) == l
    requires AllLe(l, min - 1) && AllGe(r, min) && x.at in m && m[x.at] == LeafCell(x.items)
    ensures |a| < |Leaves(t)| && Leaves(t)[|a|] == x.at
    ensures |Flat(m, Leaves(t)[..|a|])| <= First(Items(t), min) <= |Flat(m, Leaves(t)[..|a| + 1])|
  {
    hide Flat;
    var ls, s, f := Leaves(t), Items(t), First(Items(t), min);
    assert ls[..|a|] == a && ls[..|a| + 1] == a + [x.at];
    FlatJoin(m, a, [x.at]);
    FlatOne(m, x.at);
    assert forall q | 0 <= q < |l| :: s[q] == l[q] && s[q].0 < min;
    assert r != [] ==> s[|l| + |x.items|] == r[0];
  }
}
