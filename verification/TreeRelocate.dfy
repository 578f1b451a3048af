/** ABTree::permute: the nodes of the tree are moved to each other's addresses in memory. */
module TreeRelocate {
  import opened Permutations
  import opened Trees
  import opened TreeMemory
  import opened TreeScan

  /** Where a node has gone; nodes that are not mentioned have stayed. */
  function Gone(f: map<Ptr, Ptr>, p: Ptr): (q: Ptr) {
    if p in f then f[p] else p
  }

  function GoneAll(f: map<Ptr, Ptr>, ps: seq<Ptr>): (qs: seq<Ptr>)
    ensures |qs| == |ps| && forall i | 0 <= i < |ps| :: qs[i] == Gone(f, ps[i])
  {
    seq(|ps|, i requires 0 <= i < |ps| => Gone(f, ps[i]))
  }

  function MovedCell(f: map<Ptr, Ptr>, c: Cell): (d: Cell) {
    if c.LeafCell? then c else InnerCell(c.keys, GoneAll(f, c.kids))
  }

  function MovedLink(f: map<Ptr, Ptr>, l: Link): (k: Link) {
    if l.To? then To(Gone(f, l.p)) else Null
  }

  /** The same tree at other addresses. */
  ghost function Renamed(f: map<Ptr, Ptr>, t: Tree): (v: Tree)
    decreases t, 0
  {
    match t
    case Leaf(at, items) => Leaf(Gone(f, at), items)
    case Inner(at, keys, kids) => Inner(Gone(f, at), keys, RenamedAll(f, kids))
  }

  ghost function RenamedAll(f: map<Ptr, Ptr>, ts: seq<Tree>): (vs: seq<Tree>)
    ensures |vs| == |ts| && forall i | 0 <= i < |ts| :: vs[i] == Renamed(f, ts[i])
    decreases ts
  {
    if ts == [] then [] else [Renamed(f, ts[0])] + RenamedAll(f, ts[1..])
  }

  /** The tree without its addresses: shape, separators, keys and values. */
  ghost function Bare(t: Tree): (v: Tree)
    decreases t, 0
  {
    match t
    case Leaf(_, items) => Leaf(0, items)
    case Inner(_, keys, kids) => Inner(0, keys, BareAll(kids))
  }

  ghost function BareAll(ts: seq<Tree>): (vs: seq<Tree>)
    decreases ts
  {
    if ts == [] then [] else [Bare(ts[0])] + BareAll(ts[1..])
  }

  lemma {:induction false} SameBare(f: map<Ptr, Ptr>, t: Tree)
    ensures Bare(Renamed(f, t)) == Bare(t)
    decreases t, 0
  {
    if t.Inner? {
      SameBareAll(f, t.kids);
    }
  }

  lemma {:induction false} SameBareAll(f: map<Ptr, Ptr>, ts: seq<Tree>)
    ensures BareAll(RenamedAll(f, ts)) == BareAll(ts)
    decreases ts
  {
    if ts != [] {
      SameBare(f, ts[0]);
      SameBareAll(f, ts[1..]);
      assert RenamedAll(f, ts)[1..] == RenamedAll(f, ts[1..]);
    }
  }

  /** Shape, separators and contents do not depend on addresses; the leaves are the moved leaves. */
  lemma {:induction false} SameTree(f: map<Ptr, Ptr>, t: Tree)
    ensures Items(Renamed(f, t)) == Items(t) && Leaves(Renamed(f, t)) == GoneAll(f, Leaves(t)) && Size(Renamed(f, t)) == Size(t)
    decreases t, 0
  {
    if t.Inner? {
      SameTrees(f, t.kids);
    }
  }

  lemma {:induction false} SameTrees(f: map<Ptr, Ptr>, ts: seq<Tree>)
    ensures ItemsOf(RenamedAll(f, ts)) == ItemsOf(ts) && LeavesOf(RenamedAll(f, ts)) == GoneAll(f, LeavesOf(ts))
    decreases ts
  {
    if ts != [] {
      SameTree(f, ts[0]);
      SameTrees(f, ts[1..]);
      assert RenamedAll(f, ts)[1..] == RenamedAll(f, ts[1..]);
      assert GoneAll(f, Leaves(ts[0]) + LeavesOf(ts[1..])) == GoneAll(f, Leaves(ts[0])) + GoneAll(f, LeavesOf(ts[1..]));
    }
  }

  lemma {:induction false} SameOk(f: map<Ptr, Ptr>, c: Config, t: Tree, h: nat, lo: nat, hi: nat)
    requires Ok(c, t, h, lo, hi)
    ensures Ok(c, Renamed(f, t), h, lo, hi)
    decreases h
  {
    SameTree(f, t);
    if t.Inner? {
      var v := Renamed(f, t);
      forall i | 0 <= i < |t.kids| ensures Ok(c, v.kids[i], h - 1, c.Lower(h - 1), c.Upper(h - 1)) {
        SameOk(f, c, t.kids[i], h - 1, c.Lower(h - 1), c.Upper(h - 1));
      }
      forall i | 0 <= i < |t.keys| ensures Starts(v.kids[i + 1], t.keys[i]) {
        assert Starts(t.kids[i + 1], t.keys[i]);
        SameTree(f, t.kids[i + 1]);
      }
    }
  }

  /** No two of these nodes have gone to the same address. */
  ghost predicate Apart(f: map<Ptr, Ptr>, s: set<Ptr>) {
    forall p, q | p in s && q in s && p != q :: Gone(f, p) != Gone(f, q)
  }

  ghost function GoneSet(f: map<Ptr, Ptr>, s: set<Ptr>): (r: set<Ptr>) {
    set p | p in s :: Gone(f, p)
  }

  lemma {:induction false} RenamedAddrs(f: map<Ptr, Ptr>, t: Tree)
    requires Distinct(t) && Apart(f, Addrs(t))
    ensures Distinct(Renamed(f, t)) && Addrs(Renamed(f, t)) == GoneSet(f, Addrs(t))
    decreases t, 0
  {
    if t.Inner? {
      RenamedAllAddrs(f, t.kids);
      GoneUnion(f, {t.at}, AddrsOf(t.kids));
      assert GoneSet(f, {t.at}) == {Gone(f, t.at)};
    } else {
      assert GoneSet(f, {t.at}) == {Gone(f, t.at)};
    }
  }

  lemma {:induction false} RenamedAllAddrs(f: map<Ptr, Ptr>, ts: seq<Tree>)
    requires DistinctOf(ts) && Apart(f, AddrsOf(ts))
    ensures DistinctOf(RenamedAll(f, ts)) && AddrsOf(RenamedAll(f, ts)) == GoneSet(f, AddrsOf(ts))
    decreases ts
  {
    if ts != [] {
      RenamedAddrs(f, ts[0]);
      RenamedAllAddrs(f, ts[1..]);
      assert RenamedAll(f, ts)[1..] == RenamedAll(f, ts[1..]);
      GoneUnion(f, Addrs(ts[0]), AddrsOf(ts[1..]));
    }
  }

  lemma GoneUnion(f: map<Ptr, Ptr>, a: set<Ptr>, b: set<Ptr>)
    ensures GoneSet(f, a + b) == GoneSet(f, a) + GoneSet(f, b)
    ensures Apart(f, a + b) && a !! b ==> GoneSet(f, a) !! GoneSet(f, b)
  {
  }

  /** The memory after the move: every node of `s`, with its pointers redirected, is where it has gone. */
  ghost predicate Moved(m: map<Ptr, Cell>, m': map<Ptr, Cell>, f: map<Ptr, Ptr>, s: set<Ptr>) {
    forall p | p in s && p in m :: Gone(f, p) in m' && m'[Gone(f, p)] == MovedCell(f, m[p])
  }

  lemma {:induction false} MovedStored(m: map<Ptr, Cell>, m': map<Ptr, Cell>, f: map<Ptr, Ptr>, t: Tree)
    requires Stored(m, t) && Moved(m, m', f, Addrs(t))
    ensures Stored(m', Renamed(f, t))
    decreases t
  {
    assert t.at in Addrs(t);
    if t.Inner? {
      var v := Renamed(f, t);
      forall i | 0 <= i < |t.kids| ensures Stored(m', v.kids[i]) {
        KidAddrs(t.kids, i);
        MovedStored(m, m', f, t.kids[i]);
      }
      assert GoneAll(f, Ats(t.kids)) == Ats(v.kids);
    }
  }

  ghost predicate MovedLinks(next: map<Ptr, Link>, next': map<Ptr, Link>, f: map<Ptr, Ptr>, s: seq<Ptr>) {
    forall p | p in s && p in next :: Gone(f, p) in next' && next'[Gone(f, p)] == MovedLink(f, next[p])
  }

  lemma MovedLinked(next: map<Ptr, Link>, prev: map<Ptr, Link>, next': map<Ptr, Link>, prev': map<Ptr, Link>, f: map<Ptr, Ptr>, ls: seq<Ptr>)
    requires Linked(next, prev, ls) && MovedLinks(next, next', f, ls) && MovedLinks(prev, prev', f, ls)
    ensures Linked(next', prev', GoneAll(f, ls))
  {
  }

  /** Moving the nodes anywhere, as long as no two go to the same place, gives the same tree: same
      shape, keys, values, contents and order of leaves, found from the new root. */
  lemma Relocated(mem: Memory, m: map<Ptr, Cell>, next: map<Ptr, Link>, prev: map<Ptr, Link>, c: Config, t: Tree, h: nat, f: map<Ptr, Ptr>)
    requires c.Valid() && Stored(m, t) && Distinct(t) && Ok(c, t, h, if h == 0 then 0 else 2, c.Upper(h)) && Sorted(Items(t))
    requires Linked(next, prev, Leaves(t)) && (forall p | p in Leaves(t) :: p in m && m[p].LeafCell? && p in Addrs(t))
    requires Apart(f, Addrs(t)) && Moved(m, mem.cells, f, Addrs(t))
    requires MovedLinks(next, mem.next, f, Leaves(t)) && MovedLinks(prev, mem.prev, f, Leaves(t))
    ensures var v := Renamed(f, t);
            && v.at == Gone(f, t.at) && Whole(mem, c, v, h) && Items(v) == Items(t) && Leaves(v) == GoneAll(f, Leaves(t))
            && Addrs(v) == GoneSet(f, Addrs(t))
  {
    hide Linked, Items, Leaves, Addrs;
    MovedStored(m, mem.cells, f, t);
    RenamedAddrs(f, t);
    SameTree(f, t);
    SameOk(f, c, t, h, if h == 0 then 0 else 2, c.Upper(h));
    MovedLinked(next, prev, mem.next, mem.prev, f, Leaves(t));
    LeavesMoved(m, mem.cells, f, t);
  }

  lemma LeavesMoved(m: map<Ptr, Cell>, m': map<Ptr, Cell>, f: map<Ptr, Ptr>, t: Tree)
    requires (forall p | p in Leaves(t) :: p in m && m[p].LeafCell? && p in Addrs(t)) && Moved(m, m', f, Addrs(t))
    ensures forall q | q in GoneAll(f, Leaves(t)) :: q in m' && m'[q].LeafCell?
  {
  }

  /** The nodes in the order of the depth-first visit. */
  ghost function Order(t: Tree): (s: seq<Ptr>)
    decreases t, 0
  {
    [t.at] + if t.Leaf? then [] else OrderOf(t.kids)
  }

  ghost function OrderOf(ts: seq<Tree>): (s: seq<Ptr>)
    decreases ts
  {
    if ts == [] then [] else OrderOf(ts[..|ts| - 1]) + Order(ts[|ts| - 1])
  }

  lemma {:induction false} OrderAddrs(t: Tree, p: Ptr)
    ensures p in Order(t) <==> p in Addrs(t)
    decreases t, 0
  {
    if t.Inner? {
      OrderOfAddrs(t.kids, p);
    }
  }

  lemma {:induction false} OrderOfAddrs(ts: seq<Tree>, p: Ptr)
    ensures p in OrderOf(ts) <==> p in AddrsOf(ts)
    decreases ts
  {
    if ts != [] {
      var n := |ts| - 1;
      OrderOfAddrs(ts[..n], p);
      OrderAddrs(ts[n], p);
      assert ts == ts[..n] + [ts[n]];
      AddrsJoin(ts[..n], [ts[n]]);
      One(ts[n]);
    }
  }

  /** m_node2index: where each node is in the list. */
  ghost predicate Indexed(index: map<Ptr, nat>, nodes: seq<Ptr>) {
    forall i | 0 <= i < |nodes| :: nodes[i] in index && index[nodes[i]] == i
  }

  /** pann_dfs_visit: all nodes below `node`, at the end of the list. */
  method Visit(mem: Memory, c: Config, node: Ptr, h: nat, nodes0: seq<Ptr>, index0: map<Ptr, nat>, ghost t: Tree)
    returns (nodes: seq<Ptr>, index: map<Ptr, nat>)
    requires t.at == node && Below(mem.cells, c, t, h) && Distinct(t)
    requires Indexed(index0, nodes0) && forall p | p in nodes0 :: p !in Addrs(t)
    ensures nodes == nodes0 + Order(t) && Indexed(index, nodes)
    decreases h, 0
  {
    hide Distinct, Below, Addrs;
    BelowCell(mem.cells, c, t, h);
    NodeAddr(t);
    index := index0[node := |nodes0|];
    nodes := nodes0 + [node];
    if h > 0 {
      nodes, index := VisitKids(mem, c, mem.cells[node].kids, h, nodes, index, t);
    }
    Assoc(nodes0, [node], if t.Leaf? then [] else OrderOf(t.kids));
  }

  lemma NodeAddr(t: Tree)
    ensures t.at in Addrs(t) && (t.Inner? ==> Addrs(t) == {t.at} + AddrsOf(t.kids))
    ensures t.Inner? && Distinct(t) ==> t.at !in AddrsOf(t.kids) && DistinctOf(t.kids)
  {
  }

  method VisitKids(mem: Memory, c: Config, kids: seq<Ptr>, h: nat, nodes0: seq<Ptr>, index0: map<Ptr, nat>, ghost t: Tree)
    returns (nodes: seq<Ptr>, index: map<Ptr, nat>)
    requires 0 < h && Below(mem.cells, c, t, h) && t.Inner? && DistinctOf(t.kids) && kids == Ats(t.kids)
    requires Indexed(index0, nodes0) && forall p | p in nodes0 :: p !in AddrsOf(t.kids)
    ensures nodes == nodes0 + OrderOf(t.kids) && Indexed(index, nodes)
    decreases h - 1, 1
  {
    hide Below, Distinct, DistinctOf, Addrs, AddrsOf, Order;
    nodes, index := nodes0, index0;
    var i := 0;
    assert nodes0 + [] == nodes0;
    while i < |kids|
      invariant 0 <= i <= |kids| && nodes == nodes0 + OrderOf(t.kids[..i]) && Indexed(index, nodes)
    {
      ghost var x := t.kids[i];
      BelowKid(mem.cells, c, t, h, i);
      KidAddrs(t.kids, i);
      NotYet(t.kids, i, nodes0);
      nodes, index := Visit(mem, c, kids[i], h - 1, nodes, index, x);
      assert t.kids[..i + 1][..i] == t.kids[..i];
      Assoc(nodes0, OrderOf(t.kids[..i]), Order(x));
      i := i + 1;
    }
    assert t.kids[..i] == t.kids;
  }

  lemma KidApart(ts: seq<Tree>, i: nat)
    requires i < |ts| && DistinctOf(ts)
    ensures Addrs(ts[i]) <= AddrsOf(ts) && AddrsOf(ts[..i]) !! Addrs(ts[i])
  {
    hide DistinctOf, AddrsOf, Addrs, ItemsOf, LeavesOf;
    Middle(ts, i, i + 1);
    assert ts[i..i + 1] == [ts[i]];
    One(ts[i]);
  }

  lemma NotYet(ts: seq<Tree>, i: nat, nodes0: seq<Ptr>)
    requires i < |ts| && DistinctOf(ts) && forall p | p in nodes0 :: p !in AddrsOf(ts)
    ensures forall p | p in nodes0 + OrderOf(ts[..i]) :: p !in Addrs(ts[i])
  {
    hide DistinctOf, AddrsOf, Addrs, OrderOf;
    KidApart(ts, i);
    forall p | p in OrderOf(ts[..i]) ensures p !in Addrs(ts[i]) {
      OrderOfAddrs(ts[..i], p);
    }
  }

  /** Where the permutation sends the nodes of the list. */
  ghost predicate Sends(f: map<Ptr, Ptr>, nodes: seq<Ptr>, perm: seq<nat>) {
    && |perm| == |nodes| && (forall i | 0 <= i < |nodes| :: perm[i] < |nodes|)
    && (forall p :: p in f <==> p in nodes)
    && (forall i {:trigger perm[i]} | 0 <= i < |nodes| :: nodes[i] in f && f[nodes[i]] == nodes[perm[i]])
  }

  ghost function Sending(nodes: seq<Ptr>, index: map<Ptr, nat>, perm: seq<nat>): (f: map<Ptr, Ptr>)
    requires Indexed(index, nodes) && |perm| == |nodes| && forall i | 0 <= i < |nodes| :: perm[i] < |nodes|
    ensures Sends(f, nodes, perm)
  {
    map p | p in nodes :: Lookup(nodes, index, p); nodes[perm[index[p]]]
  }

  lemma Lookup(nodes: seq<Ptr>, index: map<Ptr, nat>, p: Ptr)
    requires Indexed(index, nodes) && p in nodes
    ensures p in index && index[p] < |nodes| && nodes[index[p]] == p
  {
  }

  /** Redirect the pointers of one list of children. */
  method RedirectKids(kids: seq<Ptr>, nodes: seq<Ptr>, index: map<Ptr, nat>, perm: seq<nat>, ghost f: map<Ptr, Ptr>) returns (r: seq<Ptr>)
    requires Indexed(index, nodes) && Sends(f, nodes, perm) && forall i | 0 <= i < |kids| :: kids[i] in nodes
    ensures r == GoneAll(f, kids)
  {
    r := kids;
    var i := 0;
    while i < |kids|
      invariant 0 <= i <= |kids| == |r|
      invariant forall j | 0 <= j < |kids| :: r[j] == if j < i then Gone(f, kids[j]) else kids[j]
    {
      Lookup(nodes, index, r[i]);
      r := r[i := nodes[perm[index[r[i]]]]];
      i := i + 1;
    }
  }

  method RedirectLink(l: Link, nodes: seq<Ptr>, index: map<Ptr, nat>, perm: seq<nat>, ghost f: map<Ptr, Ptr>) returns (r: Link)
    requires Indexed(index, nodes) && Sends(f, nodes, perm) && (l.To? ==> l.p in nodes)
    ensures r == MovedLink(f, l)
  {
    r := l;
    if l.To? {
      Lookup(nodes, index, l.p);
      r := To(nodes[perm[index[l.p]]]);
    }
  }

  /** All pointers of the node `p` lead to nodes of the list. */
  ghost predicate Closed(m: map<Ptr, Cell>, next: map<Ptr, Link>, prev: map<Ptr, Link>, p: Ptr, nodes: seq<Ptr>) {
    p in m && match m[p]
              case InnerCell(_, kids) => forall i | 0 <= i < |kids| :: kids[i] in nodes
              case LeafCell(_) => p in next && p in prev && (next[p].To? ==> next[p].p in nodes) && (prev[p].To? ==> prev[p].p in nodes)
  }

  /** The cells of `s` have their pointers redirected, all others are as they were. */
  ghost predicate CellsFor(m: map<Ptr, Cell>, m': map<Ptr, Cell>, f: map<Ptr, Ptr>, s: set<Ptr>) {
    m'.Keys == m.Keys && forall p | p in m :: m'[p] == if p in s then MovedCell(f, m[p]) else m[p]
  }

  /** The same for the links of the leaves of `s`. */
  ghost predicate LinksFor(l: map<Ptr, Link>, l': map<Ptr, Link>, m: map<Ptr, Cell>, f: map<Ptr, Ptr>, s: set<Ptr>) {
    l'.Keys == l.Keys && forall p | p in l :: l'[p] == if p in s && p in m && m[p].LeafCell? then MovedLink(f, l[p]) else l[p]
  }

  ghost predicate Distinctive(ps: seq<Ptr>) {
    forall i, j | 0 <= i < j < |ps| :: ps[i] != ps[j]
  }

  ghost function Among(ps: seq<Ptr>): (s: set<Ptr>) {
    set p | p in ps
  }

  /** For each node of the list: redirect its pointers, then copy it to its place in the workspace. */
  method RedirectAndCopy(mem: Memory, nodes: seq<Ptr>, index: map<Ptr, nat>, perm: seq<nat>, ghost f: map<Ptr, Ptr>) returns (work: seq<(Cell, Link, Link)>)
    requires Indexed(index, nodes) && Sends(f, nodes, perm) && Distinctive(nodes) && Permutes(perm, |nodes|)
    requires forall i | 0 <= i < |nodes| :: Closed(mem.cells, mem.next, mem.prev, nodes[i], nodes)
    modifies mem
    ensures CellsFor(old(mem.cells), mem.cells, f, Among(nodes))
    ensures LinksFor(old(mem.next), mem.next, old(mem.cells), f, Among(nodes)) && LinksFor(old(mem.prev), mem.prev, old(mem.cells), f, Among(nodes))
    ensures |work| == |nodes|
    ensures forall j | 0 <= j < |nodes| :: 0 <= perm[j] < |nodes| && work[perm[j]] == Record(mem.cells, mem.next, mem.prev, nodes[j])
  {
    hide Sends, Indexed, Closed, CellsFor, LinksFor, Among, Permutes, Record;
    ghost var m, nx, pv := mem.cells, mem.next, mem.prev;
    var n := |nodes|;
    PermutesAll(perm, n);
    work := seq(n, _ => (LeafCell([]), Null, Null));
    var i := 0;
    NothingMoved(m, nx, pv, f);
    assert nodes[..0] == [];
    while i < n
      invariant 0 <= i <= n && |work| == n
      invariant CellsFor(m, mem.cells, f, Among(nodes[..i])) && LinksFor(nx, mem.next, m, f, Among(nodes[..i])) && LinksFor(pv, mem.prev, m, f, Among(nodes[..i]))
      invariant forall j | 0 <= j < i :: work[perm[j]] == Record(mem.cells, mem.next, mem.prev, nodes[j])
    {
      AmongNext(nodes, i);
      ghost var m1, nx1, pv1 := mem.cells, mem.next, mem.prev;
      RedirectOne(mem, nodes[i], nodes, index, perm, f, m, nx, pv, Among(nodes[..i]));
      forall j | 0 <= j < i ensures Record(mem.cells, mem.next, mem.prev, nodes[j]) == Record(m1, nx1, pv1, nodes[j]) {
        SameRecord(m1, mem.cells, nx1, mem.next, pv1, mem.prev, nodes[i], nodes[j]);
      }
      work := work[perm[i] := Record(mem.cells, mem.next, mem.prev, nodes[i])];
      i := i + 1;
    }
    assert nodes[..i] == nodes;
  }

  lemma SameRecord(m: map<Ptr, Cell>, m': map<Ptr, Cell>, nx: map<Ptr, Link>, nx': map<Ptr, Link>, pv: map<Ptr, Link>, pv': map<Ptr, Link>, p: Ptr, q: Ptr)
    requires p != q && AllBut(m, m', p) && AllBut(nx, nx', p) && AllBut(pv, pv', p)
    ensures Record(m, nx, pv, q) == Record(m', nx', pv', q)
  {
  }

  /** Nothing changed except at `p`. */
  ghost predicate AllBut<V>(m: map<Ptr, V>, m': map<Ptr, V>, p: Ptr) {
    m.Keys == m'.Keys && forall q | q in m && q != p :: m'[q] == m[q]
  }

  lemma NothingMoved(m: map<Ptr, Cell>, nx: map<Ptr, Link>, pv: map<Ptr, Link>, f: map<Ptr, Ptr>)
    ensures CellsFor(m, m, f, Among([])) && LinksFor(nx, nx, m, f, Among([])) && LinksFor(pv, pv, m, f, Among([]))
  {
  }

  lemma AmongNext(ps: seq<Ptr>, i: nat)
    requires i < |ps| && Distinctive(ps)
    ensures Among(ps[..i + 1]) == Among(ps[..i]) + {ps[i]} && ps[i] !in Among(ps[..i])
  {
  }

  method RedirectOne(mem: Memory, p: Ptr, nodes: seq<Ptr>, index: map<Ptr, nat>, perm: seq<nat>, ghost f: map<Ptr, Ptr>,
                     ghost m: map<Ptr, Cell>, ghost nx: map<Ptr, Link>, ghost pv: map<Ptr, Link>, ghost s: set<Ptr>)
    requires Indexed(index, nodes) && Sends(f, nodes, perm) && Closed(m, nx, pv, p, nodes) && p !in s
    requires CellsFor(m, mem.cells, f, s) && LinksFor(nx, mem.next, m, f, s) && LinksFor(pv, mem.prev, m, f, s)
    modifies mem
    ensures CellsFor(m, mem.cells, f, s + {p}) && LinksFor(nx, mem.next, m, f, s + {p}) && LinksFor(pv, mem.prev, m, f, s + {p})
    ensures AllBut(old(mem.cells), mem.cells, p) && AllBut(old(mem.next), mem.next, p) && AllBut(old(mem.prev), mem.prev, p)
  {
    hide Sends, Indexed, CellsFor, LinksFor, MovedLink, GoneAll, Closed;
    ClosedParts(m, nx, pv, p, nodes);
    AsBefore(m, mem.cells, nx, mem.next, pv, mem.prev, f, s, p);
    if mem.cells[p].InnerCell? {
      var kids := RedirectKids(mem.cells[p].kids, nodes, index, perm, f);
      CellStep(m, mem.cells, f, s, p, InnerCell(mem.cells[p].keys, kids));
      mem.cells := mem.cells[p := InnerCell(mem.cells[p].keys, kids)];
      NoLinkStep(nx, mem.next, m, f, s, p);
      NoLinkStep(pv, mem.prev, m, f, s, p);
    } else {
      var l := RedirectLink(mem.prev[p], nodes, index, perm, f);
      LinkStep(pv, mem.prev, m, f, s, p, l);
      mem.prev := mem.prev[p := l];
      l := RedirectLink(mem.next[p], nodes, index, perm, f);
      LinkStep(nx, mem.next, m, f, s, p, l);
      mem.next := mem.next[p := l];
      CellStep(m, mem.cells, f, s, p, mem.cells[p]);
      assert mem.cells[p := mem.cells[p]] == mem.cells;
    }
  }

  lemma ClosedParts(m: map<Ptr, Cell>, nx: map<Ptr, Link>, pv: map<Ptr, Link>, p: Ptr, nodes: seq<Ptr>)
    requires Closed(m, nx, pv, p, nodes)
    ensures p in m
    ensures m[p].InnerCell? ==> forall i | 0 <= i < |m[p].kids| :: m[p].kids[i] in nodes
    ensures m[p].LeafCell? ==> p in nx && p in pv && (nx[p].To? ==> nx[p].p in nodes) && (pv[p].To? ==> pv[p].p in nodes)
  {
  }

  lemma AsBefore(m: map<Ptr, Cell>, m': map<Ptr, Cell>, nx: map<Ptr, Link>, nx': map<Ptr, Link>, pv: map<Ptr, Link>, pv': map<Ptr, Link>,
                 f: map<Ptr, Ptr>, s: set<Ptr>, p: Ptr)
    requires CellsFor(m, m', f, s) && LinksFor(nx, nx', m, f, s) && LinksFor(pv, pv', m, f, s) && p !in s && p in m
    ensures p in m' && m'[p] == m[p]
    ensures p in nx ==> p in nx' && nx'[p] == nx[p]
    ensures p in pv ==> p in pv' && pv'[p] == pv[p]
  {
  }

  lemma CellStep(m: map<Ptr, Cell>, m': map<Ptr, Cell>, f: map<Ptr, Ptr>, s: set<Ptr>, p: Ptr, c: Cell)
    requires CellsFor(m, m', f, s) && p in m && c == MovedCell(f, m[p])
    ensures CellsFor(m, m'[p := c], f, s + {p})
  {
  }

  lemma LinkStep(l: map<Ptr, Link>, l': map<Ptr, Link>, m: map<Ptr, Cell>, f: map<Ptr, Ptr>, s: set<Ptr>, p: Ptr, k: Link)
    requires LinksFor(l, l', m, f, s) && p in l && p in m && m[p].LeafCell? && k == MovedLink(f, l[p])
    ensures LinksFor(l, l'[p := k], m, f, s + {p})
  {
  }

  lemma NoLinkStep(l: map<Ptr, Link>, l': map<Ptr, Link>, m: map<Ptr, Cell>, f: map<Ptr, Ptr>, s: set<Ptr>, p: Ptr)
    requires LinksFor(l, l', m, f, s) && p in m && m[p].InnerCell?
    ensures LinksFor(l, l', m, f, s + {p})
  {
  }

  /** The workspace: node `i` of the list goes to place perm[i]. */
  method CopyOut(mem: Memory, nodes: seq<Ptr>, perm: seq<nat>) returns (work: seq<(Cell, Link, Link)>)
    requires Permutes(perm, |nodes|)
    ensures |work| == |nodes|
    ensures forall j | 0 <= j < |nodes| :: 0 <= perm[j] < |nodes| && work[perm[j]] == Record(mem.cells, mem.next, mem.prev, nodes[j])
  {
    hide Permutes, Record;
    PermutesAll(perm, |nodes|);
    var n := |nodes|;
    work := seq(n, _ => (LeafCell([]), Null, Null));
    var i := 0;
    while i < n
      invariant 0 <= i <= n && |work| == n
      invariant forall j | 0 <= j < i :: work[perm[j]] == Record(mem.cells, mem.next, mem.prev, nodes[j])
    {
      work := work[perm[i] := Record(mem.cells, mem.next, mem.prev, nodes[i])];
      i := i + 1;
    }
  }

  /** The workspace over the nodes of the list. */
  method CopyBack(mem: Memory, nodes: seq<Ptr>, perm: seq<nat>, work: seq<(Cell, Link, Link)>)
    requires Permutes(perm, |nodes|) && Distinctive(nodes) && |work| == |nodes|
    requires forall i | 0 <= i < |nodes| :: nodes[i] in mem.cells && (mem.cells[nodes[i]].LeafCell? ==> nodes[i] in mem.next && nodes[i] in mem.prev)
    requires forall j | 0 <= j < |nodes| :: 0 <= perm[j] < |nodes| && work[perm[j]] == Record(mem.cells, mem.next, mem.prev, nodes[j])
    modifies mem
    ensures ExchangedCells(old(mem.cells), mem.cells, nodes, perm)
    ensures ExchangedLinks(old(mem.next), mem.next, old(mem.cells), nodes, perm) && ExchangedLinks(old(mem.prev), mem.prev, old(mem.cells), nodes, perm)
    ensures (forall k | 0 <= k < |work| :: work[k].0.InnerCell?) ==> mem.next == old(mem.next) && mem.prev == old(mem.prev)
  {
    hide Permutes, Record, CopiedCells, CopiedLinks, ExchangedCells, ExchangedLinks;
    PermutesAll(perm, |nodes|);
    ghost var m, nx, pv := mem.cells, mem.next, mem.prev;
    var n := |nodes|;
    var i := 0;
    CopiedNone(m, nx, pv, nodes, work);
    while i < n
      invariant 0 <= i <= n
      invariant CopiedCells(m, mem.cells, nodes, work, i) && CopiedLinks(nx, mem.next, nodes, work, i, true) && CopiedLinks(pv, mem.prev, nodes, work, i, false)
      invariant (forall k | 0 <= k < i :: work[k].0.InnerCell?) ==> mem.next == nx && mem.prev == pv
    {
      CopiedNext(m, mem.cells, nodes, work, i);
      CopiedNextLink(nx, mem.next, nodes, work, i, true);
      CopiedNextLink(pv, mem.prev, nodes, work, i, false);
      mem.cells := mem.cells[nodes[i] := work[i].0];
      if work[i].0.LeafCell? {
        mem.next, mem.prev := mem.next[nodes[i] := work[i].1], mem.prev[nodes[i] := work[i].2];
      }
      i := i + 1;
    }
    CopiedAll(m, mem.cells, nx, mem.next, pv, mem.prev, nodes, perm, work);
  }

  ghost predicate CopiedCells(m: map<Ptr, Cell>, m': map<Ptr, Cell>, nodes: seq<Ptr>, work: seq<(Cell, Link, Link)>, i: nat)
    requires i <= |nodes| == |work|
  {
    && m'.Keys == m.Keys
    && (forall p | p in m && p !in nodes[..i] :: m'[p] == m[p])
    && (forall j | 0 <= j < i :: nodes[j] in m' && m'[nodes[j]] == work[j].0)
  }

  ghost predicate CopiedLinks(l: map<Ptr, Link>, l': map<Ptr, Link>, nodes: seq<Ptr>, work: seq<(Cell, Link, Link)>, i: nat, forward: bool)
    requires i <= |nodes| == |work|
  {
    && (forall p | p in l && p !in nodes[..i] :: p in l' && l'[p] == l[p])
    && (forall j | 0 <= j < i && work[j].0.LeafCell? :: nodes[j] in l' && l'[nodes[j]] == if forward then work[j].1 else work[j].2)
  }

  lemma CopiedNone(m: map<Ptr, Cell>, nx: map<Ptr, Link>, pv: map<Ptr, Link>, nodes: seq<Ptr>, work: seq<(Cell, Link, Link)>)
    requires |nodes| == |work|
    ensures CopiedCells(m, m, nodes, work, 0) && CopiedLinks(nx, nx, nodes, work, 0, true) && CopiedLinks(pv, pv, nodes, work, 0, false)
  {
  }

  lemma CopiedNext(m: map<Ptr, Cell>, m': map<Ptr, Cell>, nodes: seq<Ptr>, work: seq<(Cell, Link, Link)>, i: nat)
    requires i < |nodes| == |work| && CopiedCells(m, m', nodes, work, i) && Distinctive(nodes) && nodes[i] in m
    ensures CopiedCells(m, m'[nodes[i] := work[i].0], nodes, work, i + 1)
  {
  }

  lemma CopiedNextLink(l: map<Ptr, Link>, l': map<Ptr, Link>, nodes: seq<Ptr>, work: seq<(Cell, Link, Link)>, i: nat, forward: bool)
    requires i < |nodes| == |work| && CopiedLinks(l, l', nodes, work, i, forward) && Distinctive(nodes)
    ensures CopiedLinks(l, if work[i].0.LeafCell? then l'[nodes[i] := if forward then work[i].1 else work[i].2] else l', nodes, work, i + 1, forward)
  {
  }

  lemma CopiedAll(m: map<Ptr, Cell>, m': map<Ptr, Cell>, nx: map<Ptr, Link>, nx': map<Ptr, Link>, pv: map<Ptr, Link>, pv': map<Ptr, Link>,
                  nodes: seq<Ptr>, perm: seq<nat>, work: seq<(Cell, Link, Link)>)
    requires |nodes| == |work| == |perm|
    requires CopiedCells(m, m', nodes, work, |nodes|) && CopiedLinks(nx, nx', nodes, work, |nodes|, true) && CopiedLinks(pv, pv', nodes, work, |nodes|, false)
    requires forall i | 0 <= i < |nodes| :: nodes[i] in m && (m[nodes[i]].LeafCell? ==> nodes[i] in nx && nodes[i] in pv)
    requires forall j | 0 <= j < |nodes| :: 0 <= perm[j] < |nodes| && work[perm[j]] == Record(m, nx, pv, nodes[j])
    ensures ExchangedCells(m, m', nodes, perm) && ExchangedLinks(nx, nx', m, nodes, perm) && ExchangedLinks(pv, pv', m, nodes, perm)
  {
    assert nodes[..|nodes|] == nodes;
  }

  /** All that is stored at an address. */
  function Record(m: map<Ptr, Cell>, nx: map<Ptr, Link>, pv: map<Ptr, Link>, p: Ptr): (r: (Cell, Link, Link)) {
    (if p in m then m[p] else LeafCell([]), if p in nx then nx[p] else Null, if p in pv then pv[p] else Null)
  }

  lemma PermutesAll(perm: seq<nat>, n: nat)
    requires Permutes(perm, n)
    ensures |perm| == n && (forall i | 0 <= i < n :: 0 <= perm[i] < n) && (forall i, j | 0 <= i < j < n :: perm[i] != perm[j])
  {
  }

  ghost predicate ExchangedCells(m: map<Ptr, Cell>, m': map<Ptr, Cell>, nodes: seq<Ptr>, perm: seq<nat>) {
    && |perm| == |nodes| && m'.Keys == m.Keys
    && (forall p | p in m && p !in nodes :: m'[p] == m[p])
    && (forall j | 0 <= j < |nodes| :: perm[j] < |nodes| && nodes[perm[j]] in m' && nodes[j] in m && m'[nodes[perm[j]]] == m[nodes[j]])
  }

  ghost predicate ExchangedLinks(l: map<Ptr, Link>, l': map<Ptr, Link>, m: map<Ptr, Cell>, nodes: seq<Ptr>, perm: seq<nat>) {
    && |perm| == |nodes|
    && (forall p | p in l && p !in nodes :: p in l' && l'[p] == l[p])
    && (forall j | 0 <= j < |nodes| && nodes[j] in m && m[nodes[j]].LeafCell? && nodes[j] in l ::
          perm[j] < |nodes| && nodes[perm[j]] in l' && l'[nodes[perm[j]]] == l[nodes[j]])
  }
}