/** The index of BTreePMA_v2 as a tree: leaves of pointers under inner nodes of separators. Read in order it is
    the chain of its leaves, which is all the packed array knows of it. */
module IndexTree {
  import opened Sequences

  /** A pointer into the packed array and how many elements there are up to the next one. */
  type Entry = (nat, nat)

  /** Entries with separators between them. */
  datatype Chain = Chain(entries: seq<Entry>, seps: seq<int>)

  datatype Bounds = Bounds(ia: nat, ib: nat, la: nat, lb: nat) {
    /** What the constructor does not refuse. */
    predicate Valid() {
      1 < ia && 2 * ia <= ib && 1 < la && 2 * la <= lb
    }

    function Lower(h: nat): (n: nat) {
      if h == 0 then la else ia
    }

    function Upper(h: nat): (n: nat) {
      if h == 0 then lb else ib
    }
  }

  datatype Node =
    | Leaf(entries: seq<Entry>, keys: seq<int>)
    | Inner(keys: seq<int>, kids: seq<Node>)

  function Size(t: Node): (n: nat) {
    if t.Leaf? then |t.entries| else |t.kids|
  }

  function Join(a: Chain, k: int, b: Chain): (c: Chain) {
    Chain(a.entries + b.entries, a.seps + [k] + b.seps)
  }

  /** The leaves of the tree, one after the other, with the inner separators between them. */
  function Flat(t: Node): (c: Chain)
    decreases t, 0
  {
    if t.Leaf? then Chain(t.entries, t.keys) else FlatAll(t.kids, t.keys)
  }

  function FlatAll(ts: seq<Node>, keys: seq<int>): (c: Chain)
    decreases ts, 1
  {
    if ts == [] then Chain([], [])
    else if |ts| == 1 || keys == [] then Flat(ts[0])
    else Join(Flat(ts[0]), keys[0], FlatAll(ts[1..], keys[1..]))
  }

  /** A subtree `h` levels above its leaves whose top node has between `lo` and `hi` entries. */
  ghost predicate Ok(b: Bounds, t: Node, h: nat, lo: nat, hi: nat)
    decreases h, 0
  {
    && lo <= Size(t) <= hi
    && match t
       case Leaf(entries, keys) => h == 0 && |keys| + 1 == |entries|
       case Inner(keys, kids) => 0 < h && Kids(b, kids, keys, h - 1)
  }

  ghost predicate Kids(b: Bounds, ts: seq<Node>, keys: seq<int>, h: nat)
    decreases h, 1
  {
    |keys| + 1 == |ts| && forall i | 0 <= i < |ts| :: Ok(b, ts[i], h, b.Lower(h), b.Upper(h))
  }

  /** A node within its bounds, leaf or inner node, and all nodes below it. */
  ghost predicate Within(b: Bounds, t: Node) {
    match t
    case Leaf(entries, keys) => b.la <= |entries| <= b.lb && |keys| + 1 == |entries|
    case Inner(keys, kids) => b.ia <= |kids| <= b.ib && |keys| + 1 == |kids| && forall i | 0 <= i < |kids| :: Within(b, kids[i])
  }

  /** All nodes below the top one are within bounds. */
  lemma {:induction false} NodesWithin(b: Bounds, t: Node, h: nat, lo: nat, hi: nat)
    requires Ok(b, t, h, lo, hi)
    ensures lo <= Size(t) <= hi && (t.Leaf? <==> h == 0)
    ensures if t.Leaf? then |t.keys| + 1 == |t.entries| else |t.keys| + 1 == |t.kids| && forall i | 0 <= i < |t.kids| :: Within(b, t.kids[i])
  {
    if t.Inner? {
      forall i | 0 <= i < |t.kids| ensures Within(b, t.kids[i]) {
        NodesWithin(b, t.kids[i], h - 1, b.Lower(h - 1), b.Upper(h - 1));
      }
    }
  }

  lemma JoinAssoc(a: Chain, k: int, b: Chain, l: int, c: Chain)
    ensures Join(Join(a, k, b), l, c) == Join(a, k, Join(b, l, c))
  {
    assert a.entries + b.entries + c.entries == a.entries + (b.entries + c.entries);
    assert a.seps + [k] + b.seps + [l] + c.seps == a.seps + [k] + (b.seps + [l] + c.seps);
  }

  /** The children up to one and those from it on. */
  lemma {:induction false} FlatCut(ts: seq<Node>, keys: seq<int>, i: nat)
    requires 0 < i < |ts| == |keys| + 1
    ensures FlatAll(ts, keys) == Join(FlatAll(ts[..i], keys[..i - 1]), keys[i - 1], FlatAll(ts[i..], keys[i..]))
    decreases ts
  {
    hide Join, Flat;
    assert ts[..i][0] == ts[0];
    if i > 1 {
      FlatCut(ts[1..], keys[1..], i - 1);
      assert ts[1..][..i - 1] == ts[..i][1..] && ts[1..][i - 1..] == ts[i..];
      assert keys[1..][..i - 2] == keys[..i - 1][1..] && keys[1..][i - 1..] == keys[i..] && keys[1..][i - 2] == keys[i - 1];
      JoinAssoc(Flat(ts[0]), keys[0], FlatAll(ts[..i][1..], keys[..i - 1][1..]), keys[i - 1], FlatAll(ts[i..], keys[i..]));
    }
  }

  lemma FlatOne(t: Node, keys: seq<int>)
    ensures FlatAll([t], keys) == Flat(t)
  {
  }

  /** One child out of all of them. */
  ghost function Around(ts: seq<Node>, keys: seq<int>, i: nat, c: Chain): (r: Chain)
    requires i < |ts| == |keys| + 1
  {
    var right := if i + 1 < |ts| then Join(c, keys[i], FlatAll(ts[i + 1..], keys[i + 1..])) else c;
    if 0 < i then Join(FlatAll(ts[..i], keys[..i - 1]), keys[i - 1], right) else right
  }

  lemma FlatAround(ts: seq<Node>, keys: seq<int>, i: nat)
    requires i < |ts| == |keys| + 1
    ensures FlatAll(ts, keys) == Around(ts, keys, i, Flat(ts[i]))
  {
    hide Join, Flat, FlatAll;
    if 0 < i {
      FlatCut(ts, keys, i);
    }
    var r, rk := ts[i..], keys[i..];
    if i + 1 < |ts| {
      FlatCut(r, rk, 1);
      assert r[..1] == [ts[i]] && r[1..] == ts[i + 1..] && rk[1..] == keys[i + 1..] && rk[..0] == [];
      FlatOne(ts[i], []);
    } else {
      assert r == [ts[i]];
      FlatOne(ts[i], rk);
    }
    if i == 0 {
      assert ts[0..] == ts && keys[0..] == keys;
    }
  }

  /** Another child in the place of one. */
  lemma AroundKid(ts: seq<Node>, keys: seq<int>, i: nat, t: Node)
    requires i < |ts| == |keys| + 1
    ensures FlatAll(ts[i := t], keys) == Around(ts, keys, i, Flat(t))
  {
    hide Join, Flat, FlatAll;
    var us := ts[i := t];
    FlatAround(us, keys, i);
    assert us[..i] == ts[..i] && us[i + 1..] == ts[i + 1..];
  }

  /** Two children in the place of one. */
  lemma AroundTwo(ts: seq<Node>, keys: seq<int>, i: nat, l: Node, k: int, r: Node)
    requires i < |ts| == |keys| + 1
    ensures FlatAll(ts[..i] + [l, r] + ts[i + 1..], InsertAt(keys, i, k)) == Around(ts, keys, i, Join(Flat(l), k, Flat(r)))
  {
    hide Join, Flat, FlatAll;
    var us, uk := ts[..i] + [l, r] + ts[i + 1..], InsertAt(keys, i, k);
    FlatAround(us, uk, i);
    assert us[..i] == ts[..i] && us[i] == l && uk[i] == k;
    assert 0 < i ==> uk[..i - 1] == keys[..i - 1] && uk[i - 1] == keys[i - 1];
    var vs, vk := us[i + 1..], uk[i + 1..];
    assert vs == [r] + ts[i + 1..] && vk == keys[i..];
    FlatAround(vs, vk, 0);
    assert vs[1..] == ts[i + 1..];
    if i + 1 < |ts| {
      assert vk[1..] == keys[i + 1..] && vk[0] == keys[i];
      JoinAssoc(Flat(l), k, Flat(r), keys[i], FlatAll(ts[i + 1..], keys[i + 1..]));
    }
  }

  /** index_split_node: half of the child moves to a new one to its right; the leaves read the same. */
  method SplitNode(b: Bounds, keys: seq<int>, kids: seq<Node>, i: nat, ghost h: nat) returns (keys': seq<int>, kids': seq<Node>)
    requires b.Valid() && i < |kids| == |keys| + 1 && Ok(b, kids[i], h, b.Upper(h) + 1, b.Upper(h) + 1)
    requires forall j | 0 <= j < |kids| && j != i :: Ok(b, kids[j], h, b.Lower(h), b.Upper(h))
    ensures |kids'| == |kids| + 1 && Kids(b, kids', keys', h) && FlatAll(kids', keys') == FlatAll(kids, keys)
    ensures kids'[..i] == kids[..i] && kids'[i + 2..] == kids[i + 1..] && Size(kids'[i + 1]) < Size(kids'[i]) <= Size(kids'[i + 1]) + 2
  {
    hide Flat, FlatAll, Ok;
    FlatAround(kids, keys, i);
    var l, pivot, r := Halves(b, kids[i], h);
    AroundTwo(kids, keys, i, l, pivot, r);
    keys', kids' := InsertAt(keys, i, pivot), kids[..i] + [l, r] + kids[i + 1..];
    forall j | 0 <= j < |kids'| ensures Ok(b, kids'[j], h, b.Lower(h), b.Upper(h)) {
      assert kids'[j] == if j < i then kids[j] else if j == i then l else if j == i + 1 then r else kids[j - 1];
    }
  }

  method Halves(b: Bounds, x: Node, ghost h: nat) returns (l: Node, pivot: int, r: Node)
    requires b.Valid() && Ok(b, x, h, b.Upper(h) + 1, b.Upper(h) + 1)
    ensures Ok(b, l, h, b.Lower(h), b.Upper(h)) && Ok(b, r, h, b.Lower(h), b.Upper(h))
    ensures Flat(x) == Join(Flat(l), pivot, Flat(r))
    ensures Size(l) + Size(r) == Size(x) && Size(r) < Size(l) <= Size(r) + 2
  {
    var n := Size(x);
    var thres := n / 2;
    pivot := x.keys[thres];
    match x {
      case Leaf(entries, keys) =>
        l, r := Leaf(entries[..thres + 1], keys[..thres]), Leaf(entries[thres + 1..], keys[thres + 1..]);
        assert entries == l.entries + r.entries && keys == l.keys + [pivot] + r.keys;
      case Inner(keys, kids) =>
        l, r := Inner(keys[..thres], kids[..thres + 1]), Inner(keys[thres + 1..], kids[thres + 1..]);
        FlatCut(kids, keys, thres + 1);
    }
  }

  /** index_split_root */
  method SplitRoot(b: Bounds, root: Node, ghost h: nat) returns (root': Node)
    requires b.Valid() && Ok(b, root, h, b.Upper(h) + 1, b.Upper(h) + 1)
    ensures Ok(b, root', h + 1, 2, 2) && Flat(root') == Flat(root)
  {
    hide Flat;
    FlatOne(root, []);
    var keys, kids := SplitNode(b, [], [root], 0, h);
    root' := Inner(keys, kids);
    FlatInner(root');
  }

  lemma FlatInner(t: Node)
    requires t.Inner?
    ensures Flat(t) == FlatAll(t.kids, t.keys)
  {
  }

  ghost predicate Ordered(s: seq<int>) {
    forall i, j | 0 <= i < j < |s| :: s[i] <= s[j]
  }

  /** Where a search ends that goes left on equality, or one that goes right. */
  ghost predicate Reached(s: seq<int>, i: nat, key: int, right: bool) {
    && i <= |s|
    && if right then (forall j | 0 <= j < i :: s[j] < key) || (0 < i && s[i - 1] == key)
       else (forall j | 0 <= j < i :: s[j] < key) && (i < |s| ==> key <= s[i])
  }

  /** A search that goes left can only end at one place. */
  lemma ReachedOnce(s: seq<int>, i: nat, j: nat, key: int)
    requires Reached(s, i, key, false) && Reached(s, j, key, false)
    ensures i == j
  {
  }

  /** The first separator that is not below the key, or behind one that is equal to it. */
  method ChildFor(keys: seq<int>, key: int, right: bool) returns (i: nat)
    ensures Reached(keys, i, key, right)
  {
    i := 0;
    while i < |keys| && keys[i] < key
      invariant i <= |keys| && forall j | 0 <= j < i :: keys[j] < key
    {
      i := i + 1;
    }
    if right && i < |keys| && keys[i] == key {
      i := i + 1;
    }
  }

  lemma {:induction false} FlatShape(b: Bounds, t: Node, h: nat, lo: nat, hi: nat)
    requires b.Valid() && Ok(b, t, h, lo, hi) && 1 <= lo
    ensures |Flat(t).entries| == |Flat(t).seps| + 1
    decreases h, 0
  {
    if t.Inner? {
      FlatShapeAll(b, t.kids, t.keys, h - 1);
    }
  }

  lemma {:induction false} FlatShapeAll(b: Bounds, ts: seq<Node>, keys: seq<int>, h: nat)
    requires b.Valid() && Kids(b, ts, keys, h)
    ensures |FlatAll(ts, keys).entries| == |FlatAll(ts, keys).seps| + 1
    decreases h, 1, ts
  {
    hide Ok, Flat;
    FlatShape(b, ts[0], h, b.Lower(h), b.Upper(h));
    if 1 < |ts| {
      FlatShapeAll(b, ts[1..], keys[1..], h);
    }
  }

  /** How many entries there are before a child. */
  function Before(ts: seq<Node>, keys: seq<int>, i: nat): (n: nat)
    requires i < |ts| == |keys| + 1
  {
    if i == 0 then 0 else |FlatAll(ts[..i], keys[..i - 1]).entries|
  }

  /** The separators of a child among all separators, and those next to them. */
  lemma SepsAround(b: Bounds, ts: seq<Node>, keys: seq<int>, h: nat, i: nat)
    requires b.Valid() && Kids(b, ts, keys, h) && i < |ts|
    ensures var s, n, c := FlatAll(ts, keys).seps, Before(ts, keys, i), Flat(ts[i]).seps;
            && n + |c| <= |s| && (forall j | 0 <= j < |c| :: s[n + j] == c[j])
            && (0 < i ==> 0 < n && s[n - 1] == keys[i - 1]) && (i + 1 < |ts| ==> n + |c| < |s| && s[n + |c|] == keys[i])
            && (i + 1 == |ts| ==> n + |c| == |s|)
  {
    hide Flat, FlatAll, Ok;
    FlatAround(ts, keys, i);
    if 0 < i {
      FlatShapeAll(b, ts[..i], keys[..i - 1], h);
    }
  }

  lemma OrderedKid(b: Bounds, ts: seq<Node>, keys: seq<int>, h: nat, i: nat)
    requires b.Valid() && Kids(b, ts, keys, h) && i < |ts| && Ordered(FlatAll(ts, keys).seps)
    ensures Ordered(Flat(ts[i]).seps)
  {
    hide Flat, FlatAll, Ok;
    SepsAround(b, ts, keys, h, i);
    var c, s, n := Flat(ts[i]).seps, FlatAll(ts, keys).seps, Before(ts, keys, i);
    forall x, y | 0 <= x < y < |c| ensures c[x] <= c[y] {
      assert c[x] == s[n + x] && c[y] == s[n + y];
    }
  }

  /** The place in the child the search goes to is the place in the whole. */
  lemma ReachedBelow(b: Bounds, ts: seq<Node>, keys: seq<int>, h: nat, i: nat, g: nat, key: int, right: bool)
    requires b.Valid() && Kids(b, ts, keys, h) && Ordered(FlatAll(ts, keys).seps) && i < |ts|
    requires Reached(keys, i, key, right) && Reached(Flat(ts[i]).seps, g, key, right)
    ensures Reached(FlatAll(ts, keys).seps, Before(ts, keys, i) + g, key, right)
  {
    hide Flat, FlatAll, Ok;
    SepsAround(b, ts, keys, h, i);
    var c, s, n := Flat(ts[i]).seps, FlatAll(ts, keys).seps, Before(ts, keys, i);
    if 0 < g {
      assert s[n + (g - 1)] == c[g - 1];
    }
    if g < |c| {
      assert s[n + g] == c[g];
    }
    if !right || ((forall j | 0 <= j < i :: keys[j] < key) && (forall j | 0 <= j < g :: c[j] < key)) {
      forall j | 0 <= j < n + g ensures s[j] < key {
        if n <= j {
          assert s[n + (j - n)] == c[j - n];
        } else {
          assert s[j] <= s[n - 1] == keys[i - 1];
        }
      }
    }
  }

  /** The descent to a leaf, and there to an entry: it leads to the place of the key in the chain of leaves. */
  method Search(b: Bounds, t: Node, key: int, right: bool, ghost h: nat, ghost lo: nat, ghost hi: nat) returns (g: nat)
    requires b.Valid() && Ok(b, t, h, lo, hi) && 1 <= lo && Ordered(Flat(t).seps)
    ensures Reached(Flat(t).seps, g, key, right) && g < |Flat(t).entries|
    decreases t
  {
    hide FlatAll;
    FlatShape(b, t, h, lo, hi);
    var i := ChildFor(t.keys, key, right);
    if t.Leaf? {
      return i;
    }
    OrderedKid(b, t.kids, t.keys, h - 1, i);
    g := Search(b, t.kids[i], key, right, h - 1, b.Lower(h - 1), b.Upper(h - 1));
    ReachedBelow(b, t.kids, t.keys, h - 1, i, g, key, right);
    g := Before(t.kids, t.keys, i) + g;
  }

  /** The chain with entry `g` replaced by others. */
  function Replaced(c: Chain, g: nat, es: seq<Entry>, seps: seq<int>): (r: Chain)
    requires g < |c.entries| == |c.seps| + 1
  {
    Chain(c.entries[..g] + es + c.entries[g + 1..], c.seps[..g] + seps + c.seps[g..])
  }

  lemma ReplacedLeft(c: Chain, g: nat, es: seq<Entry>, seps: seq<int>, k: int, d: Chain)
    requires g < |c.entries| == |c.seps| + 1 && |d.entries| == |d.seps| + 1
    ensures Join(Replaced(c, g, es, seps), k, d) == Replaced(Join(c, k, d), g, es, seps)
  {
    assert (c.entries + d.entries)[g + 1..] == c.entries[g + 1..] + d.entries;
    assert (c.entries + d.entries)[..g] == c.entries[..g];
    assert (c.seps + [k] + d.seps)[g..] == c.seps[g..] + [k] + d.seps;
    assert (c.seps + [k] + d.seps)[..g] == c.seps[..g];
  }

  lemma ReplacedRight(a: Chain, k: int, c: Chain, g: nat, es: seq<Entry>, seps: seq<int>)
    requires g < |c.entries| == |c.seps| + 1 && |a.entries| == |a.seps| + 1
    ensures Join(a, k, Replaced(c, g, es, seps)) == Replaced(Join(a, k, c), |a.entries| + g, es, seps)
  {
    var n := |a.entries|;
    assert (a.entries + c.entries)[n + g + 1..] == c.entries[g + 1..];
    assert (a.entries + c.entries)[..n + g] == a.entries + c.entries[..g];
    assert (a.seps + [k] + c.seps)[n + g..] == c.seps[g..];
    assert (a.seps + [k] + c.seps)[..n + g] == a.seps + [k] + c.seps[..g];
  }

  lemma ReplacedBelow(b: Bounds, ts: seq<Node>, keys: seq<int>, h: nat, i: nat, g: nat, es: seq<Entry>, seps: seq<int>)
    requires b.Valid() && Kids(b, ts, keys, h) && i < |ts| && g < |Flat(ts[i]).entries| == |Flat(ts[i]).seps| + 1
    ensures |FlatAll(ts, keys).entries| == |FlatAll(ts, keys).seps| + 1 && Before(ts, keys, i) + g < |FlatAll(ts, keys).entries|
    ensures Around(ts, keys, i, Replaced(Flat(ts[i]), g, es, seps)) == Replaced(FlatAll(ts, keys), Before(ts, keys, i) + g, es, seps)
  {
    hide Flat, FlatAll, Ok, Replaced, Join;
    FlatAround(ts, keys, i);
    FlatShapeAll(b, ts, keys, h);
    BeforeChild(b, ts, keys, h, i);
    var c := Flat(ts[i]);
    var r := c;
    if i + 1 < |ts| {
      var d := FlatAll(ts[i + 1..], keys[i + 1..]);
      FlatShapeAll(b, ts[i + 1..], keys[i + 1..], h);
      ReplacedLeft(c, g, es, seps, keys[i], d);
      r := Join(c, keys[i], d);
      JoinShape(c, keys[i], d);
    }
    if 0 < i {
      FlatShapeAll(b, ts[..i], keys[..i - 1], h);
      ReplacedRight(FlatAll(ts[..i], keys[..i - 1]), keys[i - 1], r, g, es, seps);
    }
  }

  lemma JoinShape(a: Chain, k: int, c: Chain)
    ensures |Join(a, k, c).entries| == |a.entries| + |c.entries| && |Join(a, k, c).seps| == |a.seps| + 1 + |c.seps|
  {
  }

  lemma BeforeChild(b: Bounds, ts: seq<Node>, keys: seq<int>, h: nat, i: nat)
    requires b.Valid() && Kids(b, ts, keys, h) && i < |ts|
    ensures Before(ts, keys, i) + |Flat(ts[i]).entries| <= |FlatAll(ts, keys).entries|
  {
    hide Flat, FlatAll, Ok;
    FlatAround(ts, keys, i);
  }

  lemma ReplacedLeaf(t: Node, i: nat, es: seq<Entry>, seps: seq<int>)
    requires t.Leaf? && i < |t.entries| == |t.keys| + 1
    ensures Flat(Leaf(t.entries[..i] + es + t.entries[i + 1..], t.keys[..i] + seps + t.keys[i..])) == Replaced(Flat(t), i, es, seps)
  {
  }

  /** The recursion of insert: on the way to the key's entry and back. In the chain the entry has given way to
      one or two; full nodes on the way have been split, and the top one may have an entry too many. */
  method Place(b: Bounds, t: Node, key: int, es: seq<Entry>, seps: seq<int>, ghost h: nat, ghost lo: nat, ghost hi: nat) returns (t': Node, ghost g: nat)
    requires b.Valid() && Ok(b, t, h, lo, hi) && 1 <= lo && Ordered(Flat(t).seps) && 1 <= |es| <= 2 && |es| == |seps| + 1
    ensures Reached(Flat(t).seps, g, key, false) && g < |Flat(t).entries| == |Flat(t).seps| + 1
    ensures Size(t) <= Size(t') <= Size(t) + 1 && Ok(b, t', h, lo, hi + 1) && Flat(t') == Replaced(Flat(t), g, es, seps)
    decreases t
  {
    hide FlatAll, Replaced;
    FlatShape(b, t, h, lo, hi);
    var i := ChildFor(t.keys, key, false);
    match t {
      case Leaf(entries, keys) =>
        g := i;
        t' := Leaf(entries[..i] + es + entries[i + 1..], keys[..i] + seps + keys[i..]);
        ReplacedLeaf(t, i, es, seps);
      case Inner(keys, kids) =>
        OrderedKid(b, kids, keys, h - 1, i);
        var full := Size(kids[i]) == if kids[i].Leaf? then b.lb else b.ib;
        var kid;
        ghost var gi;
        kid, gi := Place(b, kids[i], key, es, seps, h - 1, b.Lower(h - 1), b.Upper(h - 1));
        ReachedBelow(b, kids, keys, h - 1, i, gi, key, false);
        ReplacedBelow(b, kids, keys, h - 1, i, gi, es, seps);
        AroundKid(kids, keys, i, kid);
        g := Before(kids, keys, i) + gi;
        var keys', kids' := keys, kids[i := kid];
        if full && Size(kid) > (if kid.Leaf? then b.lb else b.ib) {
          keys', kids' := SplitNode(b, keys, kids', i, h - 1);
        }
        t' := Inner(keys', kids');
        assert Kids(b, kids', keys', h - 1);
        assert Flat(t') == FlatAll(kids', keys');
    }
  }

  /** The chain up to child `i`, and then with it. */
  lemma FlatNext(ts: seq<Node>, keys: seq<int>, i: nat)
    requires 0 < i < |ts| == |keys| + 1
    ensures FlatAll(ts[..i + 1], keys[..i]) == Join(FlatAll(ts[..i], keys[..i - 1]), keys[i - 1], Flat(ts[i]))
  {
    hide Join, Flat, FlatAll;
    var us, uk := ts[..i + 1], keys[..i];
    FlatCut(us, uk, i);
    assert us[..i] == ts[..i] && us[i..] == [ts[i]] && uk[..i - 1] == keys[..i - 1];
    FlatOne(ts[i], uk[i..]);
  }

  /** The entries as the array operations have rewritten them along the chain of leaves, in the leaves they
      belong to: nothing else of the tree changes. */
  method Refill(b: Bounds, t: Node, es: seq<Entry>, ghost h: nat, ghost lo: nat, ghost hi: nat) returns (t': Node)
    requires b.Valid() && Ok(b, t, h, lo, hi) && 1 <= lo && |es| == |Flat(t).entries|
    ensures Ok(b, t', h, lo, hi) && Size(t') == Size(t) && Flat(t') == Chain(es, Flat(t).seps)
    decreases t
  {
    hide FlatAll, Join;
    match t {
      case Leaf(entries, keys) =>
        t' := Leaf(es, keys);
      case Inner(keys, kids) =>
        var kids', at, i := [], 0, 0;
        while i < |kids|
          invariant i == |kids'| <= |kids| && at <= |es|
          invariant forall j | 0 <= j < i :: Ok(b, kids'[j], h - 1, b.Lower(h - 1), b.Upper(h - 1))
          invariant 0 < i ==> at == |FlatAll(kids[..i], keys[..i - 1]).entries|
          invariant 0 < i ==> FlatAll(kids', keys[..i - 1]) == Chain(es[..at], FlatAll(kids[..i], keys[..i - 1]).seps)
          invariant i == 0 ==> at == 0
        {
          RefillStep(kids, keys, i, at, |es|);
          var n := |Flat(kids[i]).entries|;
          var kid := Refill(b, kids[i], es[at..at + n], h - 1, b.Lower(h - 1), b.Upper(h - 1));
          Refilled(kids, keys, kids', kid, es, at, n);
          kids', at, i := kids' + [kid], at + n, i + 1;
        }
        assert kids[..i] == kids && keys[..i - 1] == keys && es[..at] == es;
        t' := Inner(keys, kids');
        assert Kids(b, kids', keys, h - 1);
        assert Flat(t') == FlatAll(kids', keys) && Flat(t) == FlatAll(kids, keys);
    }
  }

  lemma RefillStep(ts: seq<Node>, keys: seq<int>, i: nat, at: nat, n: nat)
    requires i < |ts| == |keys| + 1 && n == |FlatAll(ts, keys).entries| && at == Before(ts, keys, i)
    ensures at + |Flat(ts[i]).entries| <= n && (i + 1 == |ts| ==> at + |Flat(ts[i]).entries| == n)
  {
    hide Flat, FlatAll;
    FlatAround(ts, keys, i);
  }

  lemma Refilled(ts: seq<Node>, keys: seq<int>, us: seq<Node>, u: Node, es: seq<Entry>, at: nat, n: nat)
    requires |us| < |ts| == |keys| + 1 && at + n <= |es| && at == Before(ts, keys, |us|) && n == |Flat(ts[|us|]).entries|
    requires Flat(u) == Chain(es[at..at + n], Flat(ts[|us|]).seps)
    requires 0 < |us| ==> FlatAll(us, keys[..|us| - 1]) == Chain(es[..at], FlatAll(ts[..|us|], keys[..|us| - 1]).seps)
    ensures var i := |us|; FlatAll(us + [u], keys[..i]) == Chain(es[..at + n], FlatAll(ts[..i + 1], keys[..i]).seps)
    ensures at + n == |FlatAll(ts[..|us| + 1], keys[..|us|]).entries|
  {
    hide Flat, FlatAll;
    var i := |us|;
    if i == 0 {
      FlatOne(u, []);
      FlatOne(ts[0], []);
      assert us + [u] == [u] && ts[..1] == [ts[0]] && keys[..0] == [] && es[..at + n] == es[at..at + n];
    } else {
      FlatNext(ts, keys, i);
      var vs, vk := us + [u], keys[..i];
      FlatNext(vs, vk, i);
      assert vs[..i + 1] == vs && vk[..i] == vk && vs[..i] == us && vk[..i - 1] == keys[..i - 1];
      assert es[..at + n] == es[..at] + es[at..at + n];
    }
  }
}
