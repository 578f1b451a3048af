/** The (a,b)-tree as a value: its shape, its contents in key order, its leaves from left to right
    and the addresses of its nodes. */
module Trees {

  type Ptr = nat
  type Pair = (int, int)

  /** Bounds on the size of inner nodes and leaves. */
  datatype Config = Config(ia: nat, ib: nat, la: nat, lb: nat) {
    /** What the constructor lets pass. */
    predicate Admitted() {
      1 < ia && 2 * ia - 1 <= ib && 1 < la && 2 * la - 1 <= lb
    }

    /** What a split needs; see SplitHalves. */
    ghost predicate Valid() {
      2 <= ia && 2 * ia <= ib && 2 <= la && 2 * la <= lb
    }

    function Lower(h: nat): (n: nat) {
      if h == 0 then la else ia
    }

    function Upper(h: nat): (n: nat) {
      if h == 0 then lb else ib
    }
  }

  datatype Tree =
    | Leaf(at: Ptr, items: seq<Pair>)
    | Inner(at: Ptr, keys: seq<int>, kids: seq<Tree>)

  function Size(t: Tree): (n: nat) {
    if t.Leaf? then |t.items| else |t.kids|
  }

  ghost function Items(t: Tree): (s: seq<Pair>) {
    match t
    case Leaf(_, items) => items
    case Inner(_, _, kids) => ItemsOf(kids)
  }

  ghost function ItemsOf(ts: seq<Tree>): (s: seq<Pair>) {
    if ts == [] then [] else Items(ts[0]) + ItemsOf(ts[1..])
  }

  ghost function Leaves(t: Tree): (s: seq<Ptr>) {
    match t
    case Leaf(at, _) => [at]
    case Inner(_, _, kids) => LeavesOf(kids)
  }

  ghost function LeavesOf(ts: seq<Tree>): (s: seq<Ptr>) {
    if ts == [] then [] else Leaves(ts[0]) + LeavesOf(ts[1..])
  }

  ghost function Addrs(t: Tree): (s: set<Ptr>)
    ensures t.at in s
  {
    {t.at} + match t
             case Leaf(_, _) => {}
             case Inner(_, _, kids) => AddrsOf(kids)
  }

  ghost function AddrsOf(ts: seq<Tree>): (s: set<Ptr>) {
    if ts == [] then {} else Addrs(ts[0]) + AddrsOf(ts[1..])
  }

  /** No address occurs twice. */
  ghost predicate Distinct(t: Tree) {
    match t
    case Leaf(_, _) => true
    case Inner(at, _, kids) => at !in AddrsOf(kids) && DistinctOf(kids)
  }

  ghost predicate DistinctOf(ts: seq<Tree>) {
    ts != [] ==> Distinct(ts[0]) && Addrs(ts[0]) !! AddrsOf(ts[1..]) && DistinctOf(ts[1..])
  }

  ghost predicate Sorted(s: seq<Pair>) {
    forall i, j | 0 <= i < j < |s| :: s[i].0 <= s[j].0
  }

  /** `k` is the smallest key of the subtree. */
  ghost predicate Starts(t: Tree, k: int) {
    Items(t) != [] && Items(t)[0].0 == k
  }

  /** A subtree `h` levels above its leaves whose top node has between `lo` and `hi` entries. */
  ghost predicate Ok(c: Config, t: Tree, h: nat, lo: nat, hi: nat)
    decreases h, 0
  {
    && lo <= Size(t) <= hi
    && match t
       case Leaf(_, _) => h == 0
       case Inner(_, keys, kids) => h > 0 && Forest(c, kids, keys, h - 1)
  }

  /** Subtrees of one height within their bounds; each separator is the smallest key to its right. */
  ghost predicate Forest(c: Config, ts: seq<Tree>, keys: seq<int>, h: nat)
    decreases h, 1
  {
    && |keys| + 1 == |ts|
    && (forall i | 0 <= i < |ts| :: Ok(c, ts[i], h, c.Lower(h), c.Upper(h)))
    && (forall i | 0 <= i < |keys| :: Starts(ts[i + 1], keys[i]))
  }

  lemma Assoc<T>(a: seq<T>, b: seq<T>, c: seq<T>)
    ensures a + (b + c) == (a + b) + c
  {
  }

  lemma {:induction false} ItemsJoin(a: seq<Tree>, b: seq<Tree>)
    ensures ItemsOf(a + b) == ItemsOf(a) + ItemsOf(b)
  {
    hide Items;
    if a == [] {
      assert a + b == b;
    } else {
      ItemsJoin(a[1..], b);
      assert (a + b)[1..] == a[1..] + b;
      Assoc(Items(a[0]), ItemsOf(a[1..]), ItemsOf(b));
    }
  }

  lemma {:induction false} LeavesJoin(a: seq<Tree>, b: seq<Tree>)
    ensures LeavesOf(a + b) == LeavesOf(a) + LeavesOf(b)
  {
    hide Leaves;
    if a == [] {
      assert a + b == b;
    } else {
      LeavesJoin(a[1..], b);
      assert (a + b)[1..] == a[1..] + b;
      Assoc(Leaves(a[0]), LeavesOf(a[1..]), LeavesOf(b));
    }
  }

  lemma {:induction false} AddrsJoin(a: seq<Tree>, b: seq<Tree>)
    ensures AddrsOf(a + b) == AddrsOf(a) + AddrsOf(b)
    ensures DistinctOf(a + b) <==> DistinctOf(a) && DistinctOf(b) && AddrsOf(a) !! AddrsOf(b)
  {
    if a == [] {
      assert a + b == b;
    } else {
      AddrsJoin(a[1..], b);
      assert (a + b)[1..] == a[1..] + b;
    }
  }

  lemma One(t: Tree)
    ensures ItemsOf([t]) == Items(t) && LeavesOf([t]) == Leaves(t) && AddrsOf([t]) == Addrs(t)
    ensures DistinctOf([t]) <==> Distinct(t)
  {
  }

  /** The subtrees from `i` to `j`, out of all of them. */
  lemma Middle(ts: seq<Tree>, i: nat, j: nat)
    requires i <= j <= |ts|
    ensures ItemsOf(ts) == ItemsOf(ts[..i]) + ItemsOf(ts[i..j]) + ItemsOf(ts[j..])
    ensures LeavesOf(ts) == LeavesOf(ts[..i]) + LeavesOf(ts[i..j]) + LeavesOf(ts[j..])
    ensures AddrsOf(ts) == AddrsOf(ts[..i]) + AddrsOf(ts[i..j]) + AddrsOf(ts[j..])
    ensures DistinctOf(ts) <==> DistinctOf(ts[..i]) && DistinctOf(ts[i..j]) && DistinctOf(ts[j..])
                                && AddrsOf(ts[..i]) !! AddrsOf(ts[i..j]) && AddrsOf(ts[..j]) !! AddrsOf(ts[j..])
    ensures AddrsOf(ts[..j]) == AddrsOf(ts[..i]) + AddrsOf(ts[i..j])
  {
    hide ItemsOf, LeavesOf, AddrsOf, DistinctOf;
    assert ts == ts[..j] + ts[j..] && ts[..j] == ts[..i] + ts[i..j];
    ItemsJoin(ts[..j], ts[j..]);
    ItemsJoin(ts[..i], ts[i..j]);
    LeavesJoin(ts[..j], ts[j..]);
    LeavesJoin(ts[..i], ts[i..j]);
    AddrsJoin(ts[..j], ts[j..]);
    AddrsJoin(ts[..i], ts[i..j]);
  }

  function Swap<T>(s: seq<T>, i: nat, n: nat, w: seq<T>): (r: seq<T>)
    requires i + n <= |s|
    ensures |r| == |s| - n + |w|
  {
    s[..i] + w + s[i + n..]
  }

  /** What the exchange of some subtrees does to the whole. */
  lemma Exchanged(ts: seq<Tree>, i: nat, n: nat, w: seq<Tree>)
    requires i + n <= |ts|
    ensures var r := Swap(ts, i, n, w);
            && ItemsOf(r) == ItemsOf(ts[..i]) + ItemsOf(w) + ItemsOf(ts[i + n..])
            && LeavesOf(r) == LeavesOf(ts[..i]) + LeavesOf(w) + LeavesOf(ts[i + n..])
            && AddrsOf(r) == AddrsOf(ts[..i]) + AddrsOf(w) + AddrsOf(ts[i + n..])
            && (DistinctOf(r) <==> DistinctOf(ts[..i]) && DistinctOf(w) && DistinctOf(ts[i + n..])
                                   && AddrsOf(ts[..i]) !! AddrsOf(w) && (AddrsOf(ts[..i]) + AddrsOf(w)) !! AddrsOf(ts[i + n..]))
  {
    hide ItemsOf, LeavesOf, AddrsOf, DistinctOf;
    var r := Swap(ts, i, n, w);
    Middle(r, i, i + |w|);
    assert r[..i] == ts[..i] && r[i..i + |w|] == w && r[i + |w|..] == ts[i + n..];
  }

  /** A forest, except for what is said about the subtrees [i, i + n). */
  ghost predicate ForestBut(c: Config, ts: seq<Tree>, keys: seq<int>, h: nat, i: nat, n: nat) {
    && |keys| + 1 == |ts|
    && (forall j | 0 <= j < |ts| && !(i <= j < i + n) :: Ok(c, ts[j], h, c.Lower(h), c.Upper(h)))
    && (forall j | 0 <= j < |keys| && !(i <= j + 1 < i + n) :: Starts(ts[j + 1], keys[j]))
  }

  lemma ForestExchanged(c: Config, ts: seq<Tree>, keys: seq<int>, h: nat, i: nat, n: nat, w: seq<Tree>, wk: seq<int>, k: seq<int>)
    requires i + n <= |ts| && 0 < n && ForestBut(c, ts, keys, h, i, n) && Forest(c, w, wk, h)
    requires 0 < i ==> Items(w[0]) != []
    requires k == (if i == 0 then [] else keys[..i - 1] + [Items(w[0])[0].0]) + wk + keys[i + n - 1..]
    ensures Forest(c, Swap(ts, i, n, w), k, h)
  {
    var r := Swap(ts, i, n, w);
    forall j | 0 <= j < |r| ensures Ok(c, r[j], h, c.Lower(h), c.Upper(h)) {
      if i + |w| <= j {
        assert r[j] == ts[j - |w| + n];
      }
    }
    forall j | 0 <= j < |k| ensures Starts(r[j + 1], k[j]) {
      if j + 1 < i {
        assert Starts(ts[j + 1], keys[j]);
      } else if j + 1 == i {
      } else if j + 1 < i + |w| {
        assert k[j] == wk[j - i] && r[j + 1] == w[j - i + 1];
      } else {
        assert k[j] == keys[j - |w| + n] && r[j + 1] == ts[j - |w| + n + 1];
      }
    }
  }

  lemma {:induction false} NotEmpty(c: Config, t: Tree, h: nat, lo: nat, hi: nat)
    requires c.Valid() && Ok(c, t, h, lo, hi) && 1 <= lo
    ensures Items(t) != []
    ensures Leaves(t) != []
    decreases h
  {
    if t.Inner? {
      NotEmpty(c, t.kids[0], h - 1, c.Lower(h - 1), c.Upper(h - 1));
    }
  }

  /** How many entries a full leaf keeps when it is split, and how many children an inner node keeps. */
  function LeafHalf(n: nat): (k: nat) {
    (n + 1) / 2
  }

  function InnerHalf(n: nat): (k: nat) {
    n / 2 + 1
  }

  /** The bounds the constructor lets pass are right for splits exactly when Valid holds: leaves are
      split at lb entries, inner nodes at ib + 1, and otherwise a right half has one entry too few. */
  lemma SplitHalves(c: Config, items: seq<Pair>, kids: seq<Tree>)
    requires c.Admitted() && |items| == c.lb && |kids| == c.ib + 1
    ensures LeafHalf(|items|) <= |items| && InnerHalf(|kids|) <= |kids|
    ensures c.la <= |items[..LeafHalf(|items|)]| && c.ia <= |kids[..InnerHalf(|kids|)]|
    ensures c.Valid() <==> c.la <= |items[LeafHalf(|items|)..]| && c.ia <= |kids[InnerHalf(|kids|)..]|
    ensures c.lb == 2 * c.la - 1 ==> |items[LeafHalf(|items|)..]| == c.la - 1
    ensures c.ib == 2 * c.ia - 1 ==> |kids[InnerHalf(|kids|)..]| == c.ia - 1
  {
  }

  /** Bounds 2 and 3 are accepted, but a full leaf of three entries leaves one to its right half. */
  lemma SplitThree(items: seq<Pair>)
    requires |items| == 3
    ensures var c := Config(2, 3, 2, 3);
            c.Admitted() && !c.Valid() && |items| == c.lb && |items[LeafHalf(|items|)..]| == 1 < c.la
  {
  }
}
