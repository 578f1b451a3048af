/** The two variants of ABTree::permute: all nodes among themselves, when inner nodes and leaves have
    the same size, or inner nodes with inner nodes and leaves with leaves. */
module TreePermute {
  import opened Permutations
  import opened Trees
  import opened TreeMemory
  import opened TreeScan
  import opened TreeRelocate

  lemma {:induction false} LeafAddrs(t: Tree, p: Ptr)
    requires p in Leaves(t)
    ensures p in Addrs(t)
    decreases t, 0
  {
    if t.Inner? {
      LeafAddrsOf(t.kids, p);
    }
  }

  lemma {:induction false} LeafAddrsOf(ts: seq<Tree>, p: Ptr)
    requires p in LeavesOf(ts)
    ensures p in AddrsOf(ts)
    decreases ts
  {
    if p in Leaves(ts[0]) {
      LeafAddrs(ts[0], p);
    } else {
      LeafAddrsOf(ts[1..], p);
    }
  }

  /** The children of a node are nodes of the tree, and a node without children is on the list of leaves. */
  lemma {:induction false} NodeKinds(m: map<Ptr, Cell>, t: Tree, p: Ptr)
    requires Stored(m, t) && p in Addrs(t)
    ensures p in m
    ensures m[p].InnerCell? ==> forall i | 0 <= i < |m[p].kids| :: m[p].kids[i] in Addrs(t)
    ensures m[p].LeafCell? ==> p in Leaves(t)
    decreases t
  {
    if t.Inner? {
      if p == t.at {
        forall i | 0 <= i < |t.kids| ensures t.kids[i].at in Addrs(t) {
          KidAddrs(t.kids, i);
        }
      } else {
        var i := Holding(t.kids, p);
        KidAddrs(t.kids, i);
        NodeKinds(m, t.kids[i], p);
        if m[p].LeafCell? {
          HoldingLeaf(t.kids, i, p);
        }
      }
    }
  }

  /** The subtree an address belongs to. */
  lemma {:induction false} Holding(ts: seq<Tree>, p: Ptr) returns (i: nat)
    requires p in AddrsOf(ts)
    ensures i < |ts| && p in Addrs(ts[i])
  {
    if p in Addrs(ts[0]) {
      i := 0;
    } else {
      i := Holding(ts[1..], p);
      i := i + 1;
    }
  }

  lemma {:induction false} HoldingLeaf(ts: seq<Tree>, i: nat, p: Ptr)
    requires i < |ts| && p in Leaves(ts[i])
    ensures p in LeavesOf(ts)
  {
    if 0 < i {
      HoldingLeaf(ts[1..], i - 1, p);
    }
  }

  lemma LinkKinds(next: map<Ptr, Link>, prev: map<Ptr, Link>, ls: seq<Ptr>, p: Ptr)
    requires Linked(next, prev, ls) && p in ls
    ensures p in next && p in prev
    ensures next[p].To? ==> next[p].p in ls
    ensures prev[p].To? ==> prev[p].p in ls
  {
    var i :| 0 <= i < |ls| && ls[i] == p;
    assert next[ls[i]] == LinkAt(ls, i + 1);
  }

  /** No pointer leads out of the tree. */
  lemma AllClosed(m: map<Ptr, Cell>, next: map<Ptr, Link>, prev: map<Ptr, Link>, t: Tree, nodes: seq<Ptr>)
    requires Stored(m, t) && Linked(next, prev, Leaves(t)) && Among(nodes) == Addrs(t)
    ensures forall i | 0 <= i < |nodes| :: Closed(m, next, prev, nodes[i], nodes)
  {
    hide Stored, Linked, Leaves, Addrs;
    forall i | 0 <= i < |nodes| ensures Closed(m, next, prev, nodes[i], nodes) {
      var p := nodes[i];
      assert p in Among(nodes);
      NodeKinds(m, t, p);
      if m[p].LeafCell? {
        LinkKinds(next, prev, Leaves(t), p);
        forall q | q in Leaves(t) ensures q in nodes {
          LeafAddrs(t, q);
        }
      }
    }
  }

  lemma IndexedDistinct(index: map<Ptr, nat>, nodes: seq<Ptr>)
    requires Indexed(index, nodes)
    ensures Distinctive(nodes)
  {
    forall i, j | 0 <= i < j < |nodes| ensures nodes[i] != nodes[j] {
      assert index[nodes[i]] == i && index[nodes[j]] == j;
    }
  }

  lemma {:induction false} AmongSize(ps: seq<Ptr>)
    requires Distinctive(ps)
    ensures |Among(ps)| == |ps|
  {
    if ps == [] {
      assert Among(ps) == {};
    } else {
      var n := |ps| - 1;
      AmongSize(ps[..n]);
      assert ps == ps[..n] + [ps[n]];
      assert Among(ps) == Among(ps[..n]) + {ps[n]};
    }
  }

  lemma OrderAmong(t: Tree)
    ensures Among(Order(t)) == Addrs(t)
  {
    hide Order, Addrs;
    forall p ensures p in Among(Order(t)) <==> p in Addrs(t) {
      OrderAddrs(t, p);
    }
  }

  lemma SentOnce(f: map<Ptr, Ptr>, nodes: seq<Ptr>, perm: seq<nat>, p: Ptr, q: Ptr)
    requires Sends(f, nodes, perm) && Permutes(perm, |nodes|) && Distinctive(nodes) && p != q
    ensures Gone(f, p) != Gone(f, q)
  {
    if p in f {
      SentWithin(f, nodes, perm, p);
      var i :| 0 <= i < |nodes| && nodes[i] == p;
      if q in f {
        var j :| 0 <= j < |nodes| && nodes[j] == q;
        assert perm[i] != perm[j];
        assert f[p] == nodes[perm[i]] && f[q] == nodes[perm[j]];
      }
    } else if q in f {
      SentWithin(f, nodes, perm, q);
    }
  }

  lemma SentFrom(f: map<Ptr, Ptr>, nodes: seq<Ptr>, perm: seq<nat>, q: Ptr) returns (p: Ptr)
    requires Sends(f, nodes, perm) && Permutes(perm, |nodes|) && q in nodes
    ensures p in nodes && Gone(f, p) == q
  {
    var k :| 0 <= k < |nodes| && nodes[k] == q;
    Onto(perm, |nodes|, k);
    var i :| 0 <= i < |nodes| && perm[i] == k;
    p := nodes[i];
  }

  /** A permutation of listed nodes sends no two nodes to one address and onto the same set of addresses. */
  lemma SentApart(f: map<Ptr, Ptr>, nodes: seq<Ptr>, perm: seq<nat>, s: set<Ptr>)
    requires Sends(f, nodes, perm) && Permutes(perm, |nodes|) && Distinctive(nodes) && Among(nodes) <= s
    ensures Apart(f, s) && GoneSet(f, s) == s
  {
    hide Permutes, Distinctive;
    forall p, q | p in s && q in s && p != q ensures Gone(f, p) != Gone(f, q) {
      SentOnce(f, nodes, perm, p, q);
    }
    forall q | q in s ensures q in GoneSet(f, s) {
      if q in nodes {
        var p := SentFrom(f, nodes, perm, q);
        assert p in Among(nodes);
      } else {
        assert Gone(f, q) == q;
      }
    }
    forall p | p in s ensures Gone(f, p) in s {
      if p in f {
        SentWithin(f, nodes, perm, p);
        assert f[p] in Among(nodes);
      }
    }
  }

  lemma SentWithin(f: map<Ptr, Ptr>, nodes: seq<Ptr>, perm: seq<nat>, p: Ptr)
    requires Sends(f, nodes, perm) && p in f
    ensures f[p] in nodes && p in nodes
  {
    var i :| 0 <= i < |nodes| && nodes[i] == p;
    assert nodes[perm[i]] in nodes;
  }

  /** Redirecting and then exchanging moves the cells ... */
  lemma CellsMoved(m0: map<Ptr, Cell>, m1: map<Ptr, Cell>, m2: map<Ptr, Cell>, f: map<Ptr, Ptr>, nodes: seq<Ptr>, perm: seq<nat>)
    requires Sends(f, nodes, perm) && CellsFor(m0, m1, f, Among(nodes)) && ExchangedCells(m1, m2, nodes, perm)
    ensures m2.Keys == m0.Keys && Moved(m0, m2, f, Among(nodes))
  {
    hide MovedCell;
    forall p | p in Among(nodes) && p in m0 ensures Gone(f, p) in m2 && m2[Gone(f, p)] == MovedCell(f, m0[p]) {
      var j :| 0 <= j < |nodes| && nodes[j] == p;
    }
  }

  /** ... and the links. */
  lemma LinksMoved(l0: map<Ptr, Link>, l1: map<Ptr, Link>, l2: map<Ptr, Link>, m0: map<Ptr, Cell>, m1: map<Ptr, Cell>,
                   f: map<Ptr, Ptr>, nodes: seq<Ptr>, perm: seq<nat>, ls: seq<Ptr>)
    requires Sends(f, nodes, perm) && CellsFor(m0, m1, f, Among(nodes)) && LinksFor(l0, l1, m0, f, Among(nodes)) && ExchangedLinks(l1, l2, m1, nodes, perm)
    requires forall p | p in ls :: p in nodes && p in m0 && m0[p].LeafCell?
    ensures MovedLinks(l0, l2, f, ls)
  {
    hide MovedLink;
    forall p | p in ls && p in l0 ensures Gone(f, p) in l2 && l2[Gone(f, p)] == MovedLink(f, l0[p]) {
      var j :| 0 <= j < |nodes| && nodes[j] == p;
      assert p in Among(nodes);
    }
  }

  /** pann_main: the node visited as number `i` goes to the address of the one visited as number `perm[i]`. */
  method PermuteAll(mem: Memory, c: Config, root0: Ptr, height: nat, perm: seq<nat>, ghost t: Tree) returns (root: Ptr, ghost f: map<Ptr, Ptr>)
    requires 1 <= height && t.at == root0 && Whole(mem, c, t, height - 1) && mem.cells.Keys == Addrs(t)
    requires Permutes(perm, |Order(t)|)
    modifies mem
    ensures Sends(f, Order(t), perm)
    ensures Apart(f, Addrs(t)) && root == Gone(f, root0) == Renamed(f, t).at
    ensures Whole(mem, c, Renamed(f, t), height - 1) && mem.cells.Keys == Addrs(t) == Addrs(Renamed(f, t))
  {
    hide Stored, Distinct, Ok, Linked, Items, Leaves, Addrs, Sorted, Moved, MovedLinks, CellsFor, LinksFor, ExchangedCells, ExchangedLinks,
         Sends, Indexed, Distinctive, Permutes, Closed, Order, Apart, Below, Among, GoneSet, Record;
    ghost var m, nx, pv := mem.cells, mem.next, mem.prev;
    if height == 1 {
      NoMove(mem, c, t, perm);
      return root0, map[root0 := root0];
    }
    WholeBelow(mem, c, t, height - 1);
    var nodes, index := VisitFromRoot(mem, c, root0, height - 1, t);
    PermutesAll(perm, |nodes|);
    f := Sending(nodes, index, perm);
    IndexedDistinct(index, nodes);
    AllClosed(m, nx, pv, t, nodes);
    var work := RedirectAndCopy(mem, nodes, index, perm, f);
    ghost var m1, nx1, pv1 := mem.cells, mem.next, mem.prev;
    StillAllThere(m, m1, nx, nx1, pv, pv1, f, nodes);
    CopyBack(mem, nodes, perm, work);
    CellsMoved(m, m1, mem.cells, f, nodes, perm);
    LeavesListed(m, t, nodes);
    LinksMoved(nx, nx1, mem.next, m, m1, f, nodes, perm, Leaves(t));
    LinksMoved(pv, pv1, mem.prev, m, m1, f, nodes, perm, Leaves(t));
    SentApart(f, nodes, perm, Addrs(t));
    LeavesListed(m, t, nodes);
    Relocated(mem, m, nx, pv, c, t, height - 1, f);
    NodeAddr(t);
    AmongIn(nodes, root0);
    Lookup(nodes, index, root0);
    root := nodes[perm[index[root0]]];
    SentTo(f, nodes, perm, index[root0]);
  }

  lemma AmongIn(nodes: seq<Ptr>, p: Ptr)
    ensures p in Among(nodes) <==> p in nodes
  {
  }

  lemma SentTo(f: map<Ptr, Ptr>, nodes: seq<Ptr>, perm: seq<nat>, i: nat)
    requires Sends(f, nodes, perm) && i < |nodes|
    ensures perm[i] < |nodes| && Gone(f, nodes[i]) == nodes[perm[i]]
  {
  }

  lemma LeavesListed(m: map<Ptr, Cell>, t: Tree, nodes: seq<Ptr>)
    requires Among(nodes) == Addrs(t) && forall p | p in Leaves(t) :: p in m && m[p].LeafCell?
    ensures forall p | p in Leaves(t) :: p in nodes && p in m && m[p].LeafCell? && p in Addrs(t)
  {
    hide Leaves, Addrs;
    forall p | p in Leaves(t) ensures p in nodes && p in Addrs(t) {
      LeafAddrs(t, p);
      assert p in Among(nodes);
    }
  }

  lemma StillAllThere(m: map<Ptr, Cell>, m1: map<Ptr, Cell>, nx: map<Ptr, Link>, nx1: map<Ptr, Link>, pv: map<Ptr, Link>, pv1: map<Ptr, Link>, f: map<Ptr, Ptr>, nodes: seq<Ptr>)
    requires CellsFor(m, m1, f, Among(nodes)) && LinksFor(nx, nx1, m, f, Among(nodes)) && LinksFor(pv, pv1, m, f, Among(nodes))
    requires forall i | 0 <= i < |nodes| :: Closed(m, nx, pv, nodes[i], nodes)
    ensures forall i | 0 <= i < |nodes| :: nodes[i] in m1 && (m1[nodes[i]].LeafCell? ==> nodes[i] in nx1 && nodes[i] in pv1)
  {
    forall i | 0 <= i < |nodes| ensures nodes[i] in m1 && (m1[nodes[i]].LeafCell? ==> nodes[i] in nx1 && nodes[i] in pv1) {
      ClosedParts(m, nx, pv, nodes[i], nodes);
    }
  }

  lemma NoMove(mem: Memory, c: Config, t: Tree, perm: seq<nat>)
    requires Whole(mem, c, t, 0) && Permutes(perm, |Order(t)|)
    ensures var f := map[t.at := t.at]; Apart(f, Addrs(t)) && Renamed(f, t) == t && Sends(f, Order(t), perm)
  {
  }

  method VisitFromRoot(mem: Memory, c: Config, root: Ptr, h: nat, ghost t: Tree) returns (nodes: seq<Ptr>, index: map<Ptr, nat>)
    requires t.at == root && Below(mem.cells, c, t, h) && Distinct(t) && mem.cells.Keys == Addrs(t)
    ensures nodes == Order(t) && Indexed(index, nodes) && Among(nodes) == Addrs(t) && 1 <= |nodes| == |mem.cells|
  {
    hide Below, Distinct, Addrs;
    nodes, index := Visit(mem, c, root, h, [], map[], t);
    OrderAmong(t);
    assert [] + Order(t) == Order(t);
    IndexedDistinct(index, nodes);
    AmongSize(nodes);
    assert |mem.cells| == |mem.cells.Keys|;
  }
}
