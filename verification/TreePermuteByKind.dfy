/** The variant of ABTree::permute for nodes of different sizes: inner nodes take each other's places,
    then leaves do. */
module TreePermuteByKind {
  import opened Permutations
  import opened Trees
  import opened TreeMemory
  import opened TreeScan
  import opened TreeRelocate
  import opened TreePermute

  /** The inner nodes in the order of the depth-first visit. */
  ghost function Inners(t: Tree): (s: seq<Ptr>)
    decreases t, 0
  {
    if t.Leaf? then [] else [t.at] + InnersOf(t.kids)
  }

  ghost function InnersOf(ts: seq<Tree>): (s: seq<Ptr>)
    decreases ts
  {
    if ts == [] then [] else Inners(ts[0]) + InnersOf(ts[1..])
  }

  lemma {:induction false} InnersJoin(a: seq<Tree>, b: seq<Tree>)
    ensures InnersOf(a + b) == InnersOf(a) + InnersOf(b)
  {
    hide Inners;
    if a == [] {
      assert a + b == b;
    } else {
      InnersJoin(a[1..], b);
      assert (a + b)[1..] == a[1..] + b;
      Assoc(Inners(a[0]), InnersOf(a[1..]), InnersOf(b));
    }
  }

  /** Every node is an inner node or a leaf. */
  lemma {:induction false} KindsOf(t: Tree, p: Ptr)
    ensures p in Addrs(t) <==> p in Inners(t) || p in Leaves(t)
    decreases t, 0
  {
    if t.Inner? {
      KindsOfAll(t.kids, p);
    }
  }

  lemma {:induction false} KindsOfAll(ts: seq<Tree>, p: Ptr)
    ensures p in AddrsOf(ts) <==> p in InnersOf(ts) || p in LeavesOf(ts)
    decreases ts
  {
    if ts != [] {
      KindsOf(ts[0], p);
      KindsOfAll(ts[1..], p);
    }
  }

  /** There are more leaves than inner nodes. */
  lemma {:induction false} MoreLeaves(m: map<Ptr, Cell>, c: Config, t: Tree, h: nat)
    requires Below(m, c, t, h)
    ensures |Inners(t)| < |Leaves(t)|
    decreases h, 1
  {
    hide Below;
    BelowCell(m, c, t, h);
    if 0 < h {
      MoreLeavesOf(m, c, t, h, |t.kids|);
      assert t.kids[..|t.kids|] == t.kids;
    }
  }

  lemma {:induction false} MoreLeavesOf(m: map<Ptr, Cell>, c: Config, t: Tree, h: nat, n: nat)
    requires Below(m, c, t, h) && 0 < h && n <= |t.kids|
    ensures |InnersOf(t.kids[..n])| + n <= |LeavesOf(t.kids[..n])|
    decreases h, 0, n
  {
    hide Below, Inners, Leaves;
    BelowCell(m, c, t, h);
    if 0 < n {
      MoreLeavesOf(m, c, t, h, n - 1);
      BelowKid(m, c, t, h, n - 1);
      MoreLeaves(m, c, t.kids[n - 1], h - 1);
      KidsNext(t.kids, n - 1);
    }
  }

  lemma KidsNext(ts: seq<Tree>, i: nat)
    requires i < |ts|
    ensures InnersOf(ts[..i + 1]) == InnersOf(ts[..i]) + Inners(ts[i])
    ensures LeavesOf(ts[..i + 1]) == LeavesOf(ts[..i]) + Leaves(ts[i])
  {
    assert ts[..i + 1] == ts[..i] + [ts[i]];
    InnersJoin(ts[..i], [ts[i]]);
    LeavesJoin(ts[..i], [ts[i]]);
    One(ts[i]);
    assert InnersOf([ts[i]]) == Inners(ts[i]);
  }

  /** pand_dfs_visit_abtree: inner nodes and leaves on a list each, with one index for both. */
  method VisitKinds(mem: Memory, c: Config, node: Ptr, h: nat, inodes0: seq<Ptr>, leaves0: seq<Ptr>, index0: map<Ptr, nat>, ghost t: Tree)
    returns (inodes: seq<Ptr>, leaves: seq<Ptr>, index: map<Ptr, nat>)
    requires t.at == node && Below(mem.cells, c, t, h) && Distinct(t)
    requires Indexed(index0, inodes0) && Indexed(index0, leaves0) && forall p | p in inodes0 + leaves0 :: p !in Addrs(t)
    ensures inodes == inodes0 + Inners(t) && leaves == leaves0 + Leaves(t)
    ensures Indexed(index, inodes) && Indexed(index, leaves)
    decreases h, 0
  {
    hide Distinct, Below, Addrs;
    BelowCell(mem.cells, c, t, h);
    NodeAddr(t);
    if h == 0 {
      index := index0[node := |leaves0|];
      inodes, leaves := inodes0, leaves0 + [node];
    } else {
      index := index0[node := |inodes0|];
      inodes := inodes0 + [node];
      inodes, leaves, index := VisitKidsKinds(mem, c, mem.cells[node].kids, h, inodes, leaves0, index, t);
      Assoc(inodes0, [node], InnersOf(t.kids));
    }
  }

  method VisitKidsKinds(mem: Memory, c: Config, kids: seq<Ptr>, h: nat, inodes0: seq<Ptr>, leaves0: seq<Ptr>, index0: map<Ptr, nat>, ghost t: Tree)
    returns (inodes: seq<Ptr>, leaves: seq<Ptr>, index: map<Ptr, nat>)
    requires 0 < h && Below(mem.cells, c, t, h) && t.Inner? && DistinctOf(t.kids) && kids == Ats(t.kids)
    requires Indexed(index0, inodes0) && Indexed(index0, leaves0) && forall p | p in inodes0 + leaves0 :: p !in AddrsOf(t.kids)
    ensures inodes == inodes0 + InnersOf(t.kids) && leaves == leaves0 + LeavesOf(t.kids)
    ensures Indexed(index, inodes) && Indexed(index, leaves)
    decreases h - 1, 1
  {
    hide Below, Distinct, DistinctOf, Addrs, AddrsOf, Inners, Leaves, Indexed;
    inodes, leaves, index := inodes0, leaves0, index0;
    var i := 0;
    assert inodes0 + [] == inodes0 && leaves0 + [] == leaves0;
    while i < |kids|
      invariant 0 <= i <= |kids| && Indexed(index, inodes) && Indexed(index, leaves)
      invariant inodes == inodes0 + InnersOf(t.kids[..i]) && leaves == leaves0 + LeavesOf(t.kids[..i])
    {
      ghost var x := t.kids[i];
      BelowKid(mem.cells, c, t, h, i);
      KidAddrs(t.kids, i);
      NotYetKinds(t.kids, i, inodes0, leaves0);
      inodes, leaves, index := VisitKinds(mem, c, kids[i], h - 1, inodes, leaves, index, x);
      KidsNext(t.kids, i);
      Assoc(inodes0, InnersOf(t.kids[..i]), Inners(x));
      Assoc(leaves0, LeavesOf(t.kids[..i]), Leaves(x));
      i := i + 1;
    }
    assert t.kids[..i] == t.kids;
  }

  lemma NotYetKinds(ts: seq<Tree>, i: nat, inodes0: seq<Ptr>, leaves0: seq<Ptr>)
    requires i < |ts| && DistinctOf(ts) && forall p | p in inodes0 + leaves0 :: p !in AddrsOf(ts)
    ensures forall p | p in (inodes0 + InnersOf(ts[..i])) + (leaves0 + LeavesOf(ts[..i])) :: p !in Addrs(ts[i])
  {
    hide DistinctOf, AddrsOf, Addrs, InnersOf, LeavesOf;
    Middle(ts, i, i + 1);
    assert ts[i..i + 1] == [ts[i]];
    One(ts[i]);
    forall p | p in (inodes0 + InnersOf(ts[..i])) + (leaves0 + LeavesOf(ts[..i])) ensures p !in Addrs(ts[i]) {
      KindsOfAll(ts[..i], p);
      if p in inodes0 || p in leaves0 {
        assert p in inodes0 + leaves0;
      }
    }
  }

  ghost predicate AllIn(ps: seq<Ptr>, qs: seq<Ptr>) {
    forall i | 0 <= i < |ps| :: ps[i] in qs
  }

  /** The children of an inner node are all leaves or all inner nodes. */
  ghost predicate Uniform(m: map<Ptr, Cell>, inodes: seq<Ptr>, leaves: seq<Ptr>, p: Ptr) {
    p in m && m[p].InnerCell? && m[p].kids != [] && (AllIn(m[p].kids, leaves) || AllIn(m[p].kids, inodes))
  }

  lemma {:induction false} InnerKind(m: map<Ptr, Cell>, c: Config, t: Tree, h: nat, p: Ptr)
    requires Below(m, c, t, h) && p in Inners(t)
    ensures Uniform(m, Inners(t), Leaves(t), p)
    decreases h
  {
    hide Below;
    BelowCell(m, c, t, h);
    if p == t.at {
      forall i | 0 <= i < |t.kids| ensures if h == 1 then t.kids[i].at in Leaves(t) else t.kids[i].at in Inners(t) {
        BelowKid(m, c, t, h, i);
        BelowCell(m, c, t.kids[i], h - 1);
        KidKinds(t.kids, i, t.kids[i].at);
      }
      assert AllIn(m[p].kids, if h == 1 then Leaves(t) else Inners(t));
    } else {
      var i := HoldingInner(t.kids, p);
      BelowKid(m, c, t, h, i);
      InnerKind(m, c, t.kids[i], h - 1, p);
      forall j | 0 <= j < |m[p].kids|
        ensures m[p].kids[j] in Leaves(t.kids[i]) ==> m[p].kids[j] in Leaves(t)
        ensures m[p].kids[j] in Inners(t.kids[i]) ==> m[p].kids[j] in Inners(t)
      {
        KidKinds(t.kids, i, m[p].kids[j]);
      }
    }
  }

  lemma KidKinds(ts: seq<Tree>, i: nat, p: Ptr)
    requires i < |ts|
    ensures p in Leaves(ts[i]) ==> p in LeavesOf(ts)
    ensures p in Inners(ts[i]) ==> p in InnersOf(ts)
  {
    hide Leaves, Inners, LeavesOf, InnersOf;
    KidsNext(ts, i);
    assert ts == ts[..i + 1] + ts[i + 1..];
    LeavesJoin(ts[..i + 1], ts[i + 1..]);
    InnersJoin(ts[..i + 1], ts[i + 1..]);
  }

  lemma {:induction false} HoldingInner(ts: seq<Tree>, p: Ptr) returns (i: nat)
    requires p in InnersOf(ts)
    ensures i < |ts| && p in Inners(ts[i])
  {
    if p in Inners(ts[0]) {
      i := 0;
    } else {
      i := HoldingInner(ts[1..], p);
      i := i + 1;
    }
  }

  /** What both phases rely on: two lists without a common node, with one index. */
  ghost predicate Kinds(m: map<Ptr, Cell>, inodes: seq<Ptr>, leaves: seq<Ptr>, index: map<Ptr, nat>) {
    && Indexed(index, inodes) && Indexed(index, leaves) && |inodes| < |leaves|
    && (forall p | p in inodes :: p !in leaves && Uniform(m, inodes, leaves, p))
    && (forall p | p in leaves :: p in m && m[p].LeafCell?)
  }

  /** m_leaf_parents: the inner nodes whose children are leaves, each once. */
  ghost predicate Parents(m: map<Ptr, Cell>, parents: seq<Ptr>, seen: seq<Ptr>, inodes: seq<Ptr>, leaves: seq<Ptr>) {
    && Distinctive(parents)
    && (forall p | p in parents :: p in seen && p in m && m[p].InnerCell? && AllIn(m[p].kids, leaves))
    && (forall p | p in seen && p !in parents :: p in m && m[p].InnerCell? && AllIn(m[p].kids, inodes))
  }

  /** The check by which the source tells leaves from inner nodes: is the first child on the list of leaves
      at its index? */
  lemma FirstChild(m: map<Ptr, Cell>, inodes: seq<Ptr>, leaves: seq<Ptr>, index: map<Ptr, nat>, p: Ptr)
    requires Kinds(m, inodes, leaves, index) && p in inodes
    ensures p in m && m[p].InnerCell? && m[p].kids != []
    ensures var child := m[p].kids[0];
            && child in index && index[child] < |leaves|
            && AllIn(m[p].kids, if child == leaves[index[child]] then leaves else inodes)
  {
  }

  lemma KindsExchanged(m: map<Ptr, Cell>, m': map<Ptr, Cell>, inodes: seq<Ptr>, leaves: seq<Ptr>, index: map<Ptr, nat>, f: map<Ptr, Ptr>, perm: seq<nat>)
    requires Kinds(m, inodes, leaves, index) && ExchangedCells(m, m', inodes, perm) && Permutes(perm, |inodes|) && Sends(f, inodes, perm)
    ensures Kinds(m', inodes, leaves, index)
  {
    hide Indexed, Permutes;
    forall p | p in inodes ensures Uniform(m', inodes, leaves, p) {
      var q := SentFrom(f, inodes, perm, p);
      var j :| 0 <= j < |inodes| && inodes[j] == q;
      assert perm[j] < |inodes|;
      assert Uniform(m, inodes, leaves, q);
    }
    forall p | p in leaves ensures p in m' && m'[p].LeafCell? {
      assert p !in inodes;
    }
  }

  /** A node none of whose children moves has nothing to redirect. */
  lemma Unaffected(f: map<Ptr, Ptr>, c: Cell)
    requires c.InnerCell? ==> forall i | 0 <= i < |c.kids| :: c.kids[i] !in f
    ensures MovedCell(f, c) == c
  {
  }

  lemma SentDomain(f: map<Ptr, Ptr>, nodes: seq<Ptr>, perm: seq<nat>)
    requires Sends(f, nodes, perm)
    ensures forall p :: p in f <==> p in nodes
  {
  }

  lemma ParentsNext(m: map<Ptr, Cell>, parents: seq<Ptr>, i: nat, inodes: seq<Ptr>, leaves: seq<Ptr>, leafKids: bool)
    requires i < |inodes| && Distinctive(inodes) && Parents(m, parents, inodes[..i], inodes, leaves)
    requires inodes[i] in m && m[inodes[i]].InnerCell? && AllIn(m[inodes[i]].kids, if leafKids then leaves else inodes)
    ensures Parents(m, if leafKids then parents + [inodes[i]] else parents, inodes[..i + 1], inodes, leaves)
  {
  }

  /** One step of the loop that updates the pointers to the children. */
  method FixChildren(mem: Memory, inodes: seq<Ptr>, leaves: seq<Ptr>, index: map<Ptr, nat>, perm: seq<nat>, i: nat, parents0: seq<Ptr>,
                     ghost f: map<Ptr, Ptr>, ghost m: map<Ptr, Cell>) returns (parents: seq<Ptr>)
    requires i < |inodes| && Distinctive(inodes) && Kinds(m, inodes, leaves, index) && Sends(f, inodes, perm)
    requires CellsFor(m, mem.cells, f, Among(inodes[..i])) && Parents(m, parents0, inodes[..i], inodes, leaves)
    modifies mem
    ensures mem.next == old(mem.next) && mem.prev == old(mem.prev)
    ensures CellsFor(m, mem.cells, f, Among(inodes[..i + 1])) && Parents(m, parents, inodes[..i + 1], inodes, leaves)
  {
    hide Sends, CellsFor, Kinds, Parents, Among, Distinctive, Indexed, AllIn, GoneAll;
    ghost var p := inodes[i];
    AmongNext(inodes, i);
    FirstChild(m, inodes, leaves, index, p);
    CellAsBefore(m, mem.cells, f, Among(inodes[..i]), p);
    KindsParts(m, inodes, leaves, index);
    var children := mem.cells[inodes[i]].kids;
    var child0 := children[0];
    if child0 == leaves[index[child0]] {
      parents := parents0 + [inodes[i]];
      ParentsNext(m, parents0, i, inodes, leaves, true);
      NoneSent(f, inodes, leaves, perm, m[p].kids);
      Unaffected(f, m[p]);
      CellStep(m, mem.cells, f, Among(inodes[..i]), p, m[p]);
      assert mem.cells[p := m[p]] == mem.cells;
    } else {
      parents := parents0;
      ParentsNext(m, parents0, i, inodes, leaves, false);
      AllInParts(children, inodes);
      children := RedirectKids(children, inodes, index, perm, f);
      CellStep(m, mem.cells, f, Among(inodes[..i]), p, InnerCell(m[p].keys, children));
      mem.cells := mem.cells[inodes[i] := InnerCell(mem.cells[inodes[i]].keys, children)];
    }
  }

  lemma AllInParts(ps: seq<Ptr>, qs: seq<Ptr>)
    requires AllIn(ps, qs)
    ensures forall i | 0 <= i < |ps| :: ps[i] in qs
  {
  }

  lemma NoneSent(f: map<Ptr, Ptr>, inodes: seq<Ptr>, leaves: seq<Ptr>, perm: seq<nat>, kids: seq<Ptr>)
    requires Sends(f, inodes, perm) && AllIn(kids, leaves) && forall p | p in inodes :: p !in leaves
    ensures forall i | 0 <= i < |kids| :: kids[i] !in f
  {
  }

  lemma KindsParts(m: map<Ptr, Cell>, inodes: seq<Ptr>, leaves: seq<Ptr>, index: map<Ptr, nat>)
    requires Kinds(m, inodes, leaves, index)
    ensures Indexed(index, inodes) && Indexed(index, leaves) && |inodes| < |leaves|
    ensures forall p | p in inodes :: p !in leaves && p in m && m[p].InnerCell?
    ensures forall p | p in leaves :: p in m && m[p].LeafCell?
  {
  }

  lemma CellAsBefore(m: map<Ptr, Cell>, m': map<Ptr, Cell>, f: map<Ptr, Ptr>, s: set<Ptr>, p: Ptr)
    requires CellsFor(m, m', f, s) && p !in s && p in m
    ensures p in m' && m'[p] == m[p]
  {
  }

  /** Update the pointers from inner nodes to inner nodes, and list the parents of the leaves. */
  method FixAllChildren(mem: Memory, inodes: seq<Ptr>, leaves: seq<Ptr>, index: map<Ptr, nat>, perm: seq<nat>, ghost f: map<Ptr, Ptr>) returns (parents: seq<Ptr>)
    requires Distinctive(inodes) && Kinds(mem.cells, inodes, leaves, index) && Sends(f, inodes, perm)
    modifies mem
    ensures mem.next == old(mem.next) && mem.prev == old(mem.prev)
    ensures CellsFor(old(mem.cells), mem.cells, f, Among(inodes)) && Parents(old(mem.cells), parents, inodes, inodes, leaves)
  {
    hide Sends, CellsFor, Kinds, Parents, Among, Distinctive;
    ghost var m1 := mem.cells;
    parents := [];
    var i := 0;
    assert inodes[..0] == [];
    NoneYet(m1, f, inodes, leaves);
    while i < |inodes|
      invariant 0 <= i <= |inodes| && mem.next == old(mem.next) && mem.prev == old(mem.prev)
      invariant CellsFor(m1, mem.cells, f, Among(inodes[..i])) && Parents(m1, parents, inodes[..i], inodes, leaves)
    {
      parents := FixChildren(mem, inodes, leaves, index, perm, i, parents, f, m1);
      i := i + 1;
    }
    assert inodes[..i] == inodes;
  }

  /** pand_permute_inodes: inner node `i` goes to the address of inner node `perm[i]`. */
  method PermuteInner(mem: Memory, root0: Ptr, inodes: seq<Ptr>, leaves: seq<Ptr>, index: map<Ptr, nat>, perm: seq<nat>)
    returns (root: Ptr, parents: seq<Ptr>, ghost f: map<Ptr, Ptr>)
    requires Kinds(mem.cells, inodes, leaves, index) && Permutes(perm, |inodes|)
    requires inodes != [] ==> root0 in inodes
    requires |inodes| == 1 ==> inodes[0] in mem.cells && mem.cells[inodes[0]].InnerCell? && AllIn(mem.cells[inodes[0]].kids, leaves)
    modifies mem
    ensures mem.next == old(mem.next) && mem.prev == old(mem.prev) && mem.cells.Keys == old(mem.cells).Keys
    ensures Sends(f, inodes, perm) && root == Gone(f, root0)
    ensures Moved(old(mem.cells), mem.cells, f, Among(inodes)) && Untouched(old(mem.cells), mem.cells, inodes)
    ensures Parents(mem.cells, parents, inodes, inodes, leaves)
  {
    hide Sends, CellsFor, Kinds, Parents, Among, Distinctive, Indexed, AllIn, MovedCell, GoneAll, Permutes, Record, ExchangedCells, ExchangedLinks,
         Moved, Untouched;
    ghost var m0 := mem.cells;
    KindsParts(m0, inodes, leaves, index);
    IndexedDistinct(index, inodes);
    root := root0;
    if |inodes| <= 1 {
      parents := inodes;
      f := map p | p in inodes :: p;
      StaysPut(m0, f, inodes, leaves, perm);
      return;
    }
    PermutesAll(perm, |inodes|);
    f := Sending(inodes, index, perm);
    var work := CopyOut(mem, inodes, perm);
    NoLeaves(m0, mem.next, mem.prev, inodes, perm, work);
    CopyBack(mem, inodes, perm, work);
    ghost var m1 := mem.cells;
    KindsExchanged(m0, m1, inodes, leaves, index, f, perm);
    Lookup(inodes, index, root0);
    root := inodes[perm[index[root0]]];
    SentTo(f, inodes, perm, index[root0]);
    parents := FixAllChildren(mem, inodes, leaves, index, perm, f);
    InnerMoved(m0, m1, mem.cells, f, inodes, leaves, index, perm, parents);
  }

  lemma NoLeaves(m: map<Ptr, Cell>, nx: map<Ptr, Link>, pv: map<Ptr, Link>, nodes: seq<Ptr>, perm: seq<nat>, work: seq<(Cell, Link, Link)>)
    requires Permutes(perm, |nodes|) && |work| == |nodes| && forall i | 0 <= i < |nodes| :: nodes[i] in m && m[nodes[i]].InnerCell?
    requires forall j | 0 <= j < |nodes| :: 0 <= perm[j] < |nodes| && work[perm[j]] == Record(m, nx, pv, nodes[j])
    ensures forall k | 0 <= k < |work| :: work[k].0.InnerCell?
  {
    forall k | 0 <= k < |work| ensures work[k].0.InnerCell? {
      Onto(perm, |nodes|, k);
      var j :| 0 <= j < |nodes| && perm[j] == k;
    }
  }

  /** The cells of all other nodes are as they were. */
  ghost predicate Untouched(m: map<Ptr, Cell>, m': map<Ptr, Cell>, nodes: seq<Ptr>) {
    forall p | p in m && p !in nodes :: p in m' && m'[p] == m[p]
  }

  lemma NoneYet(m: map<Ptr, Cell>, f: map<Ptr, Ptr>, inodes: seq<Ptr>, leaves: seq<Ptr>)
    ensures CellsFor(m, m, f, Among([])) && Parents(m, [], [], inodes, leaves)
  {
  }

  lemma StaysPut(m: map<Ptr, Cell>, f: map<Ptr, Ptr>, inodes: seq<Ptr>, leaves: seq<Ptr>, perm: seq<nat>)
    requires |inodes| <= 1 && f == (map p | p in inodes :: p) && Permutes(perm, |inodes|)
    requires |inodes| == 1 ==> inodes[0] in m && m[inodes[0]].InnerCell? && AllIn(m[inodes[0]].kids, leaves)
    ensures Sends(f, inodes, perm) && Moved(m, m, f, Among(inodes)) && Untouched(m, m, inodes)
    ensures Parents(m, inodes, inodes, inodes, leaves)
  {
  }

  lemma InnerMoved(m0: map<Ptr, Cell>, m1: map<Ptr, Cell>, m2: map<Ptr, Cell>, f: map<Ptr, Ptr>, inodes: seq<Ptr>, leaves: seq<Ptr>,
                   index: map<Ptr, nat>, perm: seq<nat>, parents: seq<Ptr>)
    requires Sends(f, inodes, perm) && ExchangedCells(m0, m1, inodes, perm) && CellsFor(m1, m2, f, Among(inodes))
    requires Parents(m1, parents, inodes, inodes, leaves) && Kinds(m1, inodes, leaves, index)
    ensures m2.Keys == m0.Keys && Moved(m0, m2, f, Among(inodes)) && Untouched(m0, m2, inodes)
    ensures Parents(m2, parents, inodes, inodes, leaves)
  {
    hide MovedCell, Indexed, Parents, Kinds;
    forall p | p in Among(inodes) && p in m0 ensures Gone(f, p) in m2 && m2[Gone(f, p)] == MovedCell(f, m0[p]) {
      var j :| 0 <= j < |inodes| && inodes[j] == p;
      assert inodes[perm[j]] in inodes;
      assert Gone(f, p) in Among(inodes);
    }
    ParentsMoved(m1, m2, f, inodes, leaves, index, perm, parents);
  }

  lemma ParentsMoved(m1: map<Ptr, Cell>, m2: map<Ptr, Cell>, f: map<Ptr, Ptr>, inodes: seq<Ptr>, leaves: seq<Ptr>,
                     index: map<Ptr, nat>, perm: seq<nat>, parents: seq<Ptr>)
    requires Sends(f, inodes, perm) && CellsFor(m1, m2, f, Among(inodes))
    requires Parents(m1, parents, inodes, inodes, leaves) && Kinds(m1, inodes, leaves, index)
    ensures Parents(m2, parents, inodes, inodes, leaves)
  {
    hide Kinds, Indexed, Distinctive, Sends;
    KindsParts(m1, inodes, leaves, index);
    forall p | p in inodes
      ensures p in m2 && m2[p].InnerCell?
      ensures AllIn(m1[p].kids, leaves) ==> AllIn(m2[p].kids, leaves)
      ensures AllIn(m1[p].kids, inodes) ==> AllIn(m2[p].kids, inodes)
    {
      assert m2[p] == MovedCell(f, m1[p]);
      if AllIn(m1[p].kids, leaves) {
        NoneSent(f, inodes, leaves, perm, m1[p].kids);
        Unaffected(f, m1[p]);
      }
      if AllIn(m1[p].kids, inodes) {
        forall i | 0 <= i < |m1[p].kids| ensures m2[p].kids[i] in inodes {
          SentDomain(f, inodes, perm);
          SentWithin(f, inodes, perm, m1[p].kids[i]);
        }
      }
    }
  }

  /** The leaves have moved and their parents follow them. */
  ghost predicate LeavesGone(m: map<Ptr, Cell>, m': map<Ptr, Cell>, f: map<Ptr, Ptr>, leaves: seq<Ptr>, parents: seq<Ptr>) {
    && m'.Keys == m.Keys && Moved(m, m', f, Among(leaves))
    && forall p | p in m && p !in leaves :: m'[p] == if p in parents then MovedCell(f, m[p]) else m[p]
  }

  /** pand_permute_leaves: leaf `i` goes to the address of leaf `perm[i]`. */
  method PermuteLeaves(mem: Memory, leaves: seq<Ptr>, index: map<Ptr, nat>, parents: seq<Ptr>, perm: seq<nat>) returns (ghost f: map<Ptr, Ptr>)
    requires Indexed(index, leaves) && Permutes(perm, |leaves|)
    requires Linked(mem.next, mem.prev, leaves) && forall p | p in leaves :: p in mem.cells && mem.cells[p].LeafCell?
    requires Distinctive(parents) && forall p | p in parents :: p in mem.cells && mem.cells[p].InnerCell? && AllIn(mem.cells[p].kids, leaves)
    modifies mem
    ensures Sends(f, leaves, perm) && mem.cells.Keys == old(mem.cells).Keys
    ensures LeavesGone(old(mem.cells), mem.cells, f, leaves, parents)
    ensures MovedLinks(old(mem.next), mem.next, f, leaves) && MovedLinks(old(mem.prev), mem.prev, f, leaves)
  {
    hide Sends, CellsFor, LinksFor, Among, Distinctive, Indexed, AllIn, MovedCell, GoneAll, Permutes, Record, ExchangedCells, ExchangedLinks,
         Moved, MovedLinks, MovedLink, Linked, Closed, LeavesGone;
    ghost var m0, nx, pv := mem.cells, mem.next, mem.prev;
    IndexedDistinct(index, leaves);
    if |leaves| <= 1 {
      f := map p | p in leaves :: p;
      LeavesStay(m0, nx, pv, f, leaves, parents, perm);
      return;
    }
    PermutesAll(perm, |leaves|);
    f := Sending(leaves, index, perm);
    LeavesClosed(m0, nx, pv, leaves);
    var work := RedirectAndCopy(mem, leaves, index, perm, f);
    ghost var m1, nx1, pv1 := mem.cells, mem.next, mem.prev;
    StillAllThere(m0, m1, nx, nx1, pv, pv1, f, leaves);
    CopyBack(mem, leaves, perm, work);
    ghost var m2 := mem.cells;
    CellsMoved(m0, m1, m2, f, leaves, perm);
    LinksMoved(nx, nx1, mem.next, m0, m1, f, leaves, perm, leaves);
    LinksMoved(pv, pv1, mem.prev, m0, m1, f, leaves, perm, leaves);
    OthersKept(m0, m1, m2, f, leaves, perm);
    FixParents(mem, leaves, index, parents, perm, f);
    LeavesWent(m0, m2, mem.cells, f, leaves, parents, perm);
    SameKeys(m2, mem.cells, f, Among(parents));
  }

  lemma SameKeys(m: map<Ptr, Cell>, m': map<Ptr, Cell>, f: map<Ptr, Ptr>, s: set<Ptr>)
    requires CellsFor(m, m', f, s)
    ensures m'.Keys == m.Keys
  {
  }

  /** Update the pointers of the parents. */
  method FixParents(mem: Memory, leaves: seq<Ptr>, index: map<Ptr, nat>, parents: seq<Ptr>, perm: seq<nat>, ghost f: map<Ptr, Ptr>)
    requires Indexed(index, leaves) && Sends(f, leaves, perm) && Distinctive(parents)
    requires forall p | p in parents :: p in mem.cells && mem.cells[p].InnerCell? && AllIn(mem.cells[p].kids, leaves)
    modifies mem`cells
    ensures CellsFor(old(mem.cells), mem.cells, f, Among(parents))
  {
    hide Sends, CellsFor, Among, Distinctive, Indexed, AllIn, GoneAll;
    ghost var m := mem.cells;
    var i := 0;
    assert parents[..0] == [];
    NothingMoved(m, mem.next, mem.prev, f);
    while i < |parents|
      invariant 0 <= i <= |parents| && CellsFor(m, mem.cells, f, Among(parents[..i]))
    {
      ghost var p := parents[i];
      assert p in parents;
      AmongNext(parents, i);
      CellAsBefore(m, mem.cells, f, Among(parents[..i]), p);
      var children := mem.cells[parents[i]].kids;
      AllInParts(children, leaves);
      children := RedirectKids(children, leaves, index, perm, f);
      CellStep(m, mem.cells, f, Among(parents[..i]), p, InnerCell(m[p].keys, children));
      mem.cells := mem.cells[parents[i] := InnerCell(mem.cells[parents[i]].keys, children)];
      i := i + 1;
    }
    assert parents[..i] == parents;
  }

  lemma LeavesClosed(m: map<Ptr, Cell>, next: map<Ptr, Link>, prev: map<Ptr, Link>, leaves: seq<Ptr>)
    requires Linked(next, prev, leaves) && forall p | p in leaves :: p in m && m[p].LeafCell?
    ensures forall i | 0 <= i < |leaves| :: Closed(m, next, prev, leaves[i], leaves)
  {
  }

  lemma LeavesStay(m: map<Ptr, Cell>, nx: map<Ptr, Link>, pv: map<Ptr, Link>, f: map<Ptr, Ptr>, leaves: seq<Ptr>, parents: seq<Ptr>, perm: seq<nat>)
    requires |leaves| <= 1 && f == (map p | p in leaves :: p) && Permutes(perm, |leaves|)
    ensures Sends(f, leaves, perm) && LeavesGone(m, m, f, leaves, parents)
    ensures MovedLinks(nx, nx, f, leaves) && MovedLinks(pv, pv, f, leaves)
  {
    forall c: Cell ensures MovedCell(f, c) == c {
      if c.InnerCell? {
        assert GoneAll(f, c.kids) == c.kids;
      }
    }
  }

  lemma OthersKept(m0: map<Ptr, Cell>, m1: map<Ptr, Cell>, m2: map<Ptr, Cell>, f: map<Ptr, Ptr>, nodes: seq<Ptr>, perm: seq<nat>)
    requires CellsFor(m0, m1, f, Among(nodes)) && ExchangedCells(m1, m2, nodes, perm)
    ensures Untouched(m0, m2, nodes)
  {
  }

  lemma LeavesWent(m0: map<Ptr, Cell>, m2: map<Ptr, Cell>, m3: map<Ptr, Cell>, f: map<Ptr, Ptr>, leaves: seq<Ptr>, parents: seq<Ptr>, perm: seq<nat>)
    requires m2.Keys == m0.Keys && Moved(m0, m2, f, Among(leaves)) && Untouched(m0, m2, leaves) && CellsFor(m2, m3, f, Among(parents))
    requires (forall p | p in leaves :: p in m0 && m0[p].LeafCell?) && (forall p | p in parents :: p in m0 && m0[p].InnerCell?) && Sends(f, leaves, perm)
    ensures LeavesGone(m0, m3, f, leaves, parents)
  {
  }

  lemma KindsOfTree(m: map<Ptr, Cell>, c: Config, t: Tree, h: nat, index: map<Ptr, nat>)
    requires Below(m, c, t, h) && Distinct(t) && Indexed(index, Inners(t)) && Indexed(index, Leaves(t)) && m.Keys == Addrs(t)
    requires forall p | p in Leaves(t) :: p in m && m[p].LeafCell?
    ensures Kinds(m, Inners(t), Leaves(t), index) && |Inners(t)| <= |m| && |Leaves(t)| <= |m|
    ensures Inners(t) != [] ==> t.at in Inners(t)
    ensures |Inners(t)| == 1 ==> Inners(t)[0] in m && m[Inners(t)[0]].InnerCell? && AllIn(m[Inners(t)[0]].kids, Leaves(t))
  {
    hide Below, Leaves, Addrs, Indexed;
    var inodes, leaves := Inners(t), Leaves(t);
    MoreLeaves(m, c, t, h);
    forall p | p in inodes ensures p !in leaves && Uniform(m, inodes, leaves, p) {
      InnerKind(m, c, t, h, p);
    }
    SomeOf(t, inodes, index, m);
    SomeOf(t, leaves, index, m);
    if |inodes| == 1 {
      SingleInner(m, c, t, h);
    }
  }

  lemma SomeOf(t: Tree, ps: seq<Ptr>, index: map<Ptr, nat>, m: map<Ptr, Cell>)
    requires Indexed(index, ps) && (ps == Inners(t) || ps == Leaves(t)) && m.Keys == Addrs(t)
    ensures |ps| <= |m|
  {
    hide Inners, Leaves, Addrs, Indexed;
    IndexedDistinct(index, ps);
    AmongSize(ps);
    forall p | p in Among(ps) ensures p in m.Keys {
      KindsOf(t, p);
    }
    SubsetCard(Among(ps), m.Keys);
    assert |m| == |m.Keys|;
  }

  lemma SingleInner(m: map<Ptr, Cell>, c: Config, t: Tree, h: nat)
    requires Below(m, c, t, h) && Distinct(t) && |Inners(t)| == 1
    ensures t.at in m && m[t.at].InnerCell? && AllIn(m[t.at].kids, Leaves(t)) && Inners(t)[0] == t.at
  {
    hide Below, Leaves, Addrs, AddrsOf;
    InnerKind(m, c, t, h, t.at);
    BelowCell(m, c, t, h);
    if AllIn(m[t.at].kids, Inners(t)) {
      KidAddrs(t.kids, 0);
      NodeAddr(t);
      assert false;
    }
  }

  lemma ParentsParts(m: map<Ptr, Cell>, parents: seq<Ptr>, seen: seq<Ptr>, inodes: seq<Ptr>, leaves: seq<Ptr>)
    requires Parents(m, parents, seen, inodes, leaves)
    ensures Distinctive(parents)
    ensures forall p | p in parents :: p in m && m[p].InnerCell? && AllIn(m[p].kids, leaves)
  {
  }

  lemma InnerRelocated(mem: Memory, c: Config, t: Tree, h: nat, f: map<Ptr, Ptr>, perm: seq<nat>, index: map<Ptr, nat>, m: map<Ptr, Cell>)
    requires c.Valid() && Stored(m, t) && Distinct(t) && Ok(c, t, h, if h == 0 then 0 else 2, c.Upper(h)) && Sorted(Items(t))
    requires Linked(mem.next, mem.prev, Leaves(t)) && Kinds(m, Inners(t), Leaves(t), index)
    requires Sends(f, Inners(t), perm) && Permutes(perm, |Inners(t)|)
    requires Moved(m, mem.cells, f, Among(Inners(t))) && Untouched(m, mem.cells, Inners(t))
    ensures var v := Renamed(f, t);
            && v.at == Gone(f, t.at) && Whole(mem, c, v, h) && Items(v) == Items(t) && Leaves(v) == Leaves(t) && Addrs(v) == Addrs(t)
    ensures Apart(f, Addrs(t))
  {
    hide Stored, Distinct, Ok, Linked, Items, Leaves, Addrs, Sorted, Sends, Indexed, Permutes, Inners, Apart, GoneSet, Kinds, Moved, MovedLinks;
    var inodes, leaves := Inners(t), Leaves(t);
    KindsParts(m, inodes, leaves, index);
    IndexedDistinct(index, inodes);
    WithinTree(t, inodes);
    SentApart(f, inodes, perm, Addrs(t));
    SentDomain(f, inodes, perm);
    LeafLinksStay(mem.next, mem.prev, f, leaves);
    InnerAllMoved(m, mem.cells, f, t);
    forall p | p in leaves ensures p in Addrs(t) {
      LeafAddrs(t, p);
    }
    Relocated(mem, m, mem.next, mem.prev, c, t, h, f);
    assert GoneAll(f, leaves) == leaves;
  }

  lemma WithinTree(t: Tree, ps: seq<Ptr>)
    requires ps == Inners(t) || ps == Leaves(t)
    ensures Among(ps) <= Addrs(t)
  {
    hide Inners, Leaves, Addrs;
    forall p | p in Among(ps) ensures p in Addrs(t) {
      KindsOf(t, p);
    }
  }

  lemma LeafLinksStay(next: map<Ptr, Link>, prev: map<Ptr, Link>, f: map<Ptr, Ptr>, leaves: seq<Ptr>)
    requires Linked(next, prev, leaves) && forall p | p in leaves :: p !in f
    ensures MovedLinks(next, next, f, leaves) && MovedLinks(prev, prev, f, leaves)
  {
  }

  lemma InnerAllMoved(m: map<Ptr, Cell>, m': map<Ptr, Cell>, f: map<Ptr, Ptr>, t: Tree)
    requires Moved(m, m', f, Among(Inners(t))) && Untouched(m, m', Inners(t))
    requires (forall p :: p in f <==> p in Inners(t)) && (forall p | p in Leaves(t) :: p !in Inners(t) && p in m && m[p].LeafCell?)
    ensures Moved(m, m', f, Addrs(t))
  {
    hide Inners, Leaves, Addrs;
    forall p | p in Addrs(t) && p in m ensures Gone(f, p) in m' && m'[Gone(f, p)] == MovedCell(f, m[p]) {
      KindsOf(t, p);
      if p in Inners(t) {
        assert p in Among(Inners(t));
      }
    }
  }

  lemma LeavesRelocated(mem: Memory, c: Config, v: Tree, h: nat, g: map<Ptr, Ptr>, perm: seq<nat>, parents: seq<Ptr>, inodes: seq<Ptr>,
                        m: map<Ptr, Cell>, nx: map<Ptr, Link>, pv: map<Ptr, Link>)
    requires c.Valid() && Stored(m, v) && Distinct(v) && Ok(c, v, h, if h == 0 then 0 else 2, c.Upper(h)) && Sorted(Items(v))
    requires Linked(nx, pv, Leaves(v)) && forall p | p in Leaves(v) :: p in m && m[p].LeafCell? && p !in inodes
    requires Sends(g, Leaves(v), perm) && Permutes(perm, |Leaves(v)|) && Distinctive(Leaves(v))
    requires LeavesGone(m, mem.cells, g, Leaves(v), parents) && Parents(m, parents, inodes, inodes, Leaves(v))
    requires MovedLinks(nx, mem.next, g, Leaves(v)) && MovedLinks(pv, mem.prev, g, Leaves(v))
    requires forall p | p in Addrs(v) :: p in inodes || p in Leaves(v)
    ensures var w := Renamed(g, v);
            && Whole(mem, c, w, h) && Items(w) == Items(v) && Addrs(w) == Addrs(v) && w.at == Gone(g, v.at)
    ensures Apart(g, Addrs(v))
  {
    hide Stored, Distinct, Ok, Linked, Items, Leaves, Addrs, Sorted, Sends, Permutes, Apart, GoneSet, Moved, MovedLinks, LeavesGone, Parents, Distinctive;
    var leaves := Leaves(v);
    WithinTree(v, leaves);
    SentApart(g, leaves, perm, Addrs(v));
    SentDomain(g, leaves, perm);
    LeafAllMoved(m, mem.cells, g, v, inodes, parents);
    forall p | p in leaves ensures p in Addrs(v) {
      LeafAddrs(v, p);
    }
    Relocated(mem, m, nx, pv, c, v, h, g);
  }

  lemma LeafAllMoved(m: map<Ptr, Cell>, m': map<Ptr, Cell>, g: map<Ptr, Ptr>, v: Tree, inodes: seq<Ptr>, parents: seq<Ptr>)
    requires LeavesGone(m, m', g, Leaves(v), parents) && Parents(m, parents, inodes, inodes, Leaves(v))
    requires (forall p :: p in g <==> p in Leaves(v)) && (forall p | p in Leaves(v) :: p !in inodes) && (forall p | p in Addrs(v) :: p in inodes || p in Leaves(v))
    ensures Moved(m, m', g, Addrs(v))
  {
  }

  /** A root that is not a leaf is not moved with the leaves, and a single leaf stays where it is. */
  lemma RootStays(g: map<Ptr, Ptr>, v: Tree, perm: seq<nat>)
    requires Sends(g, Leaves(v), perm) && Permutes(perm, |Leaves(v)|) && Distinct(v)
    ensures Gone(g, v.at) == v.at
  {
    hide Sends, Permutes;
    SentDomain(g, Leaves(v), perm);
    if v.Leaf? {
      PermutesAll(perm, 1);
      SentTo(g, Leaves(v), perm, 0);
    } else if v.at in Leaves(v) {
      LeafAddrsOf(v.kids, v.at);
    }
  }

  lemma KindsOfAllNodes(t: Tree)
    ensures forall p | p in Addrs(t) :: p in Inners(t) || p in Leaves(t)
  {
    hide Inners, Leaves, Addrs;
    forall p | p in Addrs(t) ensures p in Inners(t) || p in Leaves(t) {
      KindsOf(t, p);
    }
  }

  method VisitAll(mem: Memory, c: Config, root: Ptr, h: nat, ghost t: Tree) returns (inodes: seq<Ptr>, leaves: seq<Ptr>, index: map<Ptr, nat>)
    requires t.at == root && Below(mem.cells, c, t, h) && Distinct(t)
    ensures inodes == Inners(t) && leaves == Leaves(t) && Indexed(index, inodes) && Indexed(index, leaves)
  {
    hide Below, Distinct, Inners, Leaves;
    inodes, leaves, index := VisitKinds(mem, c, root, h, [], [], map[], t);
    assert [] + Inners(t) == Inners(t) && [] + Leaves(t) == Leaves(t);
  }

  /** At every address there still is a node of the same kind. */
  ghost predicate SameKinds(m: map<Ptr, Cell>, m': map<Ptr, Cell>) {
    m'.Keys == m.Keys && forall p | p in m :: m'[p].LeafCell? == m[p].LeafCell?
  }

  lemma KindsThen(m: map<Ptr, Cell>, m1: map<Ptr, Cell>, m2: map<Ptr, Cell>)
    requires SameKinds(m, m1) && SameKinds(m1, m2)
    ensures SameKinds(m, m2)
  {
  }

  lemma InnerKindsKept(m: map<Ptr, Cell>, m': map<Ptr, Cell>, f: map<Ptr, Ptr>, inodes: seq<Ptr>, perm: seq<nat>)
    requires m'.Keys == m.Keys && (forall p | p in inodes :: p in m && m[p].InnerCell?)
    requires Sends(f, inodes, perm) && Permutes(perm, |inodes|) && Moved(m, m', f, Among(inodes)) && Untouched(m, m', inodes)
    ensures SameKinds(m, m')
  {
    hide Sends, Permutes;
    forall q | q in inodes ensures m'[q].InnerCell? {
      var p := SentFrom(f, inodes, perm, q);
      assert p in Among(inodes);
    }
  }

  lemma LeafKindsKept(m: map<Ptr, Cell>, m': map<Ptr, Cell>, f: map<Ptr, Ptr>, leaves: seq<Ptr>, parents: seq<Ptr>, perm: seq<nat>)
    requires (forall p | p in leaves :: p in m && m[p].LeafCell?) && (forall p | p in parents :: p in m && m[p].InnerCell?)
    requires Sends(f, leaves, perm) && Permutes(perm, |leaves|) && LeavesGone(m, m', f, leaves, parents)
    ensures SameKinds(m, m')
  {
    hide Sends, Permutes;
    forall q | q in leaves ensures m'[q].LeafCell? {
      var p := SentFrom(f, leaves, perm, q);
      assert p in Among(leaves);
    }
  }

  /** pand_main: inner nodes go to addresses of inner nodes, then leaves to addresses of leaves. */
  method PermuteByKind(mem: Memory, c: Config, root0: Ptr, height: nat, innerPerm: seq<nat>, leafPerm: seq<nat>, ghost t: Tree)
    returns (root: Ptr, ghost f: map<Ptr, Ptr>, ghost g: map<Ptr, Ptr>)
    requires 1 <= height && t.at == root0 && Whole(mem, c, t, height - 1) && mem.cells.Keys == Addrs(t)
    requires Permutes(innerPerm, |Inners(t)|) && Permutes(leafPerm, |Leaves(t)|)
    modifies mem
    ensures Sends(f, Inners(t), innerPerm) && Sends(g, Leaves(t), leafPerm)
    ensures Apart(f, Addrs(t)) && Apart(g, Addrs(t)) && root == Renamed(g, Renamed(f, t)).at
    ensures Whole(mem, c, Renamed(g, Renamed(f, t)), height - 1) && mem.cells.Keys == Addrs(t) == Addrs(Renamed(g, Renamed(f, t)))
    ensures Items(Renamed(g, Renamed(f, t))) == Items(t) && SameKinds(old(mem.cells), mem.cells)
  {
    hide Stored, Distinct, Ok, Linked, Items, Leaves, Addrs, Sorted, Moved, MovedLinks, Sends, Indexed, Distinctive, Permutes, SameKinds,
         Inners, Apart, Below, Among, GoneSet, Kinds, Parents, LeavesGone, Untouched, AllIn, Renamed;
    ghost var m0, nx, pv := mem.cells, mem.next, mem.prev;
    WholeBelow(mem, c, t, height - 1);
    var inodes, leaves, index := VisitAll(mem, c, root0, height - 1, t);
    KindsOfTree(m0, c, t, height - 1, index);
    var parents;
    KindsParts(m0, inodes, leaves, index);
    root, parents, f := PermuteInner(mem, root0, inodes, leaves, index, innerPerm);
    ghost var m1 := mem.cells;
    InnerRelocated(mem, c, t, height - 1, f, innerPerm, index, m0);
    SentDomain(f, inodes, innerPerm);
    ghost var v := Renamed(f, t);
    ParentsParts(m1, parents, inodes, inodes, leaves);
    g := PermuteLeaves(mem, leaves, index, parents, leafPerm);
    SentDomain(g, leaves, leafPerm);
    IndexedDistinct(index, leaves);
    KindsOfAllNodes(t);
    LeavesRelocated(mem, c, v, height - 1, g, leafPerm, parents, inodes, m1, nx, pv);
    RootStays(g, v, leafPerm);
    InnerKindsKept(m0, m1, f, inodes, innerPerm);
    LeafKindsKept(m1, mem.cells, g, leaves, parents, leafPerm);
    KindsThen(m0, m1, mem.cells);
  }
}
