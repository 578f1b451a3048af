/** The memory the tree lives in: a cell for each allocated node and the links between leaves.
    An inner cell holds separators and the addresses of its children, a leaf cell its pairs. */
module TreeMemory {
  import opened Trees

  datatype Cell = InnerCell(keys: seq<int>, kids: seq<Ptr>) | LeafCell(items: seq<Pair>)

  datatype Link = Null | To(p: Ptr)

  class Memory {
    var cells: map<Ptr, Cell>
    var next: map<Ptr, Link>
    var prev: map<Ptr, Link>

    constructor ()
      ensures cells == map[] && next == map[] && prev == map[]
    {
      cells, next, prev := map[], map[], map[];
    }

    /** An address that is not in use. */
    method Allocate() returns (p: Ptr)
      ensures p !in cells
    {
      SomeFree(cells.Keys);
      p :| p !in cells;
    }
  }

  lemma {:induction false} Above(s: set<Ptr>) returns (p: Ptr)
    ensures forall q | q in s :: q < p
  {
    p := 0;
    if s != {} {
      var q :| q in s;
      p := Above(s - {q});
      p := if p <= q then q + 1 else p;
      assert forall r | r in s :: r in s - {q} || r == q;
    }
  }

  lemma SomeFree(s: set<Ptr>)
    ensures exists p: Ptr :: p !in s
  {
    var p := Above(s);
    assert p !in s;
  }

  function Ats(ts: seq<Tree>): (s: seq<Ptr>)
    ensures |s| == |ts| && forall i | 0 <= i < |ts| :: s[i] == ts[i].at
  {
    seq(|ts|, i requires 0 <= i < |ts| => ts[i].at)
  }

  /** The memory holds the tree. */
  ghost predicate Stored(m: map<Ptr, Cell>, t: Tree) {
    t.at in m &&
    match t
    case Leaf(at, items) => m[at] == LeafCell(items)
    case Inner(at, keys, kids) => m[at] == InnerCell(keys, Ats(kids)) && forall i | 0 <= i < |kids| :: Stored(m, kids[i])
  }

  ghost predicate StoredAll(m: map<Ptr, Cell>, ts: seq<Tree>) {
    forall i | 0 <= i < |ts| :: Stored(m, ts[i])
  }

  function LinkAt(ls: seq<Ptr>, i: int): (l: Link) {
    if 0 <= i < |ls| then To(ls[i]) else Null
  }

  /** The leaves are chained in this order, both ways. */
  ghost predicate Linked(next: map<Ptr, Link>, prev: map<Ptr, Link>, ls: seq<Ptr>) {
    forall i | 0 <= i < |ls| :: ls[i] in next && ls[i] in prev && next[ls[i]] == LinkAt(ls, i + 1) && prev[ls[i]] == LinkAt(ls, i - 1)
  }

  /** The links of one leaf of the chain. */
  ghost predicate LinkedAt(next: map<Ptr, Link>, prev: map<Ptr, Link>, ls: seq<Ptr>, i: int) {
    0 <= i < |ls| && ls[i] in next && ls[i] in prev && next[ls[i]] == LinkAt(ls, i + 1) && prev[ls[i]] == LinkAt(ls, i - 1)
  }

  lemma LinkedByAll(next: map<Ptr, Link>, prev: map<Ptr, Link>, ls: seq<Ptr>)
    requires forall i | 0 <= i < |ls| :: LinkedAt(next, prev, ls, i)
    ensures Linked(next, prev, ls)
  {
    forall i | 0 <= i < |ls|
      ensures ls[i] in next && ls[i] in prev && next[ls[i]] == LinkAt(ls, i + 1) && prev[ls[i]] == LinkAt(ls, i - 1)
    {
      assert LinkedAt(next, prev, ls, i);
    }
  }

  /** Different positions of a chain are different leaves, and the chain knows its neighbours. */
  lemma ChainAt(next: map<Ptr, Link>, prev: map<Ptr, Link>, ls: seq<Ptr>, j: nat, k: nat)
    requires Linked(next, prev, ls) && j < |ls|
    ensures k < |ls| && j != k ==> ls[j] != ls[k]
    ensures LinkedAt(next, prev, ls, j)
  {
    if k < |ls| {
      if j < k {
        ChainDistinct(next, prev, ls, j, k);
      } else if k < j {
        ChainDistinct(next, prev, ls, k, j);
      }
    }
  }

  /** A chain cannot come back to a leaf. */
  lemma {:induction false} ChainDistinct(next: map<Ptr, Link>, prev: map<Ptr, Link>, ls: seq<Ptr>, i: nat, j: nat)
    requires Linked(next, prev, ls) && i < j < |ls|
    ensures ls[i] != ls[j]
    decreases |ls| - j
  {
    if ls[i] == ls[j] {
      assert next[ls[j]] == LinkAt(ls, j + 1) == LinkAt(ls, i + 1);
      if j + 1 < |ls| {
        ChainDistinct(next, prev, ls, i + 1, j + 1);
      }
    }
  }

  lemma {:induction false} KidAddrs(ts: seq<Tree>, i: nat)
    requires i < |ts|
    ensures Addrs(ts[i]) <= AddrsOf(ts)
    ensures DistinctOf(ts) ==> Distinct(ts[i])
  {
    if 0 < i {
      KidAddrs(ts[1..], i - 1);
    }
  }

  ghost predicate Same(m: map<Ptr, Cell>, m': map<Ptr, Cell>, s: set<Ptr>) {
    s <= m.Keys && s <= m'.Keys && forall p | p in s :: m'[p] == m[p]
  }

  lemma {:induction false} StoredFrame(m: map<Ptr, Cell>, m': map<Ptr, Cell>, t: Tree)
    requires Stored(m, t) && Same(m, m', Addrs(t))
    ensures Stored(m', t)
    decreases t
  {
    if t.Inner? {
      forall i | 0 <= i < |t.kids| ensures Stored(m', t.kids[i]) {
        KidAddrs(t.kids, i);
        StoredFrame(m, m', t.kids[i]);
      }
    }
  }

  lemma StoredAllFrame(m: map<Ptr, Cell>, m': map<Ptr, Cell>, ts: seq<Tree>)
    requires StoredAll(m, ts) && Same(m, m', AddrsOf(ts))
    ensures StoredAll(m', ts)
  {
    forall i | 0 <= i < |ts| ensures Stored(m', ts[i]) {
      KidAddrs(ts, i);
      StoredFrame(m, m', ts[i]);
    }
  }

  lemma {:induction false} StoredAddrs(m: map<Ptr, Cell>, t: Tree)
    requires Stored(m, t)
    ensures Addrs(t) <= m.Keys
    decreases t, 0
  {
    if t.Inner? {
      StoredAllAddrs(m, t.kids);
    }
  }

  lemma {:induction false} StoredAllAddrs(m: map<Ptr, Cell>, ts: seq<Tree>)
    requires StoredAll(m, ts)
    ensures AddrsOf(ts) <= m.Keys
    decreases ts
  {
    if ts != [] {
      StoredAddrs(m, ts[0]);
      StoredAllAddrs(m, ts[1..]);
    }
  }

  /** Only the cells at `a` were touched; they are now the cells at `b`, reused or new. */
  ghost predicate Framed(m: map<Ptr, Cell>, m': map<Ptr, Cell>, a: set<Ptr>, b: set<Ptr>) {
    && a <= m.Keys
    && m'.Keys == (m.Keys - a) + b
    && (m.Keys - a) !! b
    && forall p | p in m && p !in a :: m'[p] == m[p]
  }

  lemma FramedThen(m: map<Ptr, Cell>, m1: map<Ptr, Cell>, m2: map<Ptr, Cell>, a: set<Ptr>, b: set<Ptr>, c: set<Ptr>)
    requires Framed(m, m1, a, b) && Framed(m1, m2, b, c)
    ensures Framed(m, m2, a, c)
  {
  }

  /** `b` is `a` with `del` elements at `p` replaced by `ins`. */
  ghost predicate Edited<T>(a: seq<T>, b: seq<T>, p: nat, del: nat, ins: seq<T>) {
    p + del <= |a| && b == a[..p] + ins + a[p + del..]
  }

  lemma EditedInside<T>(l: seq<T>, a: seq<T>, b: seq<T>, r: seq<T>, p: nat, del: nat, ins: seq<T>)
    requires Edited(a, b, p, del, ins)
    ensures Edited(l + a + r, l + b + r, |l| + p, del, ins)
  {
    var x := l + a + r;
    assert x[..|l| + p] == l + a[..p];
    assert x[|l| + p + del..] == a[p + del..] + r;
    Assoc(l, a[..p], ins);
    assert l + b + r == x[..|l| + p] + ins + x[|l| + p + del..];
  }

  /** A node whose subtrees `i` to `i + n` have become `w`, with everything else as it was. */
  ghost predicate Rebuilt(m: map<Ptr, Cell>, m': map<Ptr, Cell>, u: Tree, i: nat, n: nat, w: seq<Tree>, k: seq<int>) {
    && u.Inner? && i + n <= |u.kids|
    && StoredAll(m', w) && DistinctOf(w) && u.at !in AddrsOf(w)
    && Framed(m, m', {u.at} + AddrsOf(u.kids[i..i + n]), {u.at} + AddrsOf(w))
    && m'[u.at] == InnerCell(k, Swap(Ats(u.kids), i, n, Ats(w)))
  }

  lemma RebuiltStored(m: map<Ptr, Cell>, m': map<Ptr, Cell>, u: Tree, i: nat, n: nat, w: seq<Tree>, k: seq<int>)
    requires Stored(m, u) && Distinct(u) && Rebuilt(m, m', u, i, n, w, k)
    ensures var v := Inner(u.at, k, Swap(u.kids, i, n, w));
            Stored(m', v) && Distinct(v) && Framed(m, m', Addrs(u), Addrs(v))
  {
    hide Framed, DistinctOf, AddrsOf, Stored, Same, Addrs, Distinct;
    var ts := u.kids;
    var v := Inner(u.at, k, Swap(ts, i, n, w));
    var x := AddrsOf(ts[..i]) + AddrsOf(ts[i + n..]);
    AddrsAround(u, i, n);
    Unfold(m, u);
    StoredAllAddrs(m, ts);
    Outside(m, m', {u.at} + AddrsOf(ts[i..i + n]), {u.at} + AddrsOf(w), x);
    SamePart(m, m', x, AddrsOf(ts[..i]));
    SamePart(m, m', x, AddrsOf(ts[i + n..]));
    StoredAllFrame(m, m', ts[..i]);
    StoredAllFrame(m, m', ts[i + n..]);
    assert Ats(v.kids) == Swap(Ats(ts), i, n, Ats(w));
    Fold(m', v);
    DistinctAround(u, i, n, w, k);
  }

  lemma SamePart(m: map<Ptr, Cell>, m': map<Ptr, Cell>, s: set<Ptr>, r: set<Ptr>)
    requires Same(m, m', s) && r <= s
    ensures Same(m, m', r)
  {
  }

  lemma AddrsAround(u: Tree, i: nat, n: nat)
    requires u.Inner? && Distinct(u) && i + n <= |u.kids|
    ensures var x, a := AddrsOf(u.kids[..i]) + AddrsOf(u.kids[i + n..]), {u.at} + AddrsOf(u.kids[i..i + n]);
            x !! a && a + x == Addrs(u) && x <= AddrsOf(u.kids)
  {
    hide DistinctOf, AddrsOf;
    Middle(u.kids, i, i + n);
  }

  lemma DistinctAround(u: Tree, i: nat, n: nat, w: seq<Tree>, k: seq<int>)
    requires u.Inner? && Distinct(u) && i + n <= |u.kids|
    requires DistinctOf(w) && u.at !in AddrsOf(w)
    requires (AddrsOf(u.kids[..i]) + AddrsOf(u.kids[i + n..])) !! ({u.at} + AddrsOf(w))
    ensures var v := Inner(u.at, k, Swap(u.kids, i, n, w));
            && Distinct(v)
            && Addrs(v) == {u.at} + AddrsOf(w) + (AddrsOf(u.kids[..i]) + AddrsOf(u.kids[i + n..]))
  {
    hide DistinctOf, AddrsOf, Swap;
    MiddleAddrs(u.kids, i, i + n);
    ExchangedAddrs(u.kids, i, n, w);
  }

  lemma MiddleAddrs(ts: seq<Tree>, i: nat, j: nat)
    requires i <= j <= |ts|
    ensures AddrsOf(ts) == AddrsOf(ts[..i]) + AddrsOf(ts[i..j]) + AddrsOf(ts[j..])
    ensures DistinctOf(ts) ==> DistinctOf(ts[..i]) && DistinctOf(ts[j..]) && AddrsOf(ts[..i]) !! AddrsOf(ts[j..])
  {
    hide DistinctOf, AddrsOf;
    Middle(ts, i, j);
  }

  lemma ExchangedAddrs(ts: seq<Tree>, i: nat, n: nat, w: seq<Tree>)
    requires i + n <= |ts|
    requires DistinctOf(ts[..i]) && DistinctOf(w) && DistinctOf(ts[i + n..])
    requires AddrsOf(ts[..i]) !! AddrsOf(ts[i + n..]) && (AddrsOf(ts[..i]) + AddrsOf(ts[i + n..])) !! AddrsOf(w)
    ensures DistinctOf(Swap(ts, i, n, w))
    ensures AddrsOf(Swap(ts, i, n, w)) == AddrsOf(w) + (AddrsOf(ts[..i]) + AddrsOf(ts[i + n..]))
  {
    hide DistinctOf, AddrsOf, Swap;
    Exchanged(ts, i, n, w);
  }

  lemma Outside(m: map<Ptr, Cell>, m': map<Ptr, Cell>, a: set<Ptr>, b: set<Ptr>, x: set<Ptr>)
    requires Framed(m, m', a, b) && x <= m.Keys && x !! a
    ensures Framed(m, m', a + x, b + x) && x !! b
    ensures Same(m, m', x)
  {
  }

  lemma Unfold(m: map<Ptr, Cell>, u: Tree)
    requires Stored(m, u) && u.Inner?
    ensures u.at in m && m[u.at] == InnerCell(u.keys, Ats(u.kids)) && StoredAll(m, u.kids)
  {
  }

  lemma Fold(m: map<Ptr, Cell>, u: Tree)
    requires u.Inner? && u.at in m && m[u.at] == InnerCell(u.keys, Ats(u.kids)) && StoredAll(m, u.kids)
    ensures Stored(m, u)
  {
  }
}
