/** ABTree: an (a,b)-tree with linked leaves. */
module AbTree {
  import opened Sequences
  import opened Trees
  import opened TreeMemory
  import opened TreeInsert
  import opened TreeBalance
  import opened TreeRemove
  import opened TreeScan
  import opened TreeRange
  import opened RangeSums
  import TreeRelocate
  import TreePermute
  import TreePermuteByKind
  import ByteArrays
  import opened Permutations
  import RandomPermutation
  import TreeLoad

  class ABTree {
    const c: Config
    const mem: Memory
    var root: Ptr
    var height: nat
    var cardinality: int
    ghost var tree: Tree

    /** The tree in memory is a proper one, the memory holds nothing else, and the count is right. */
    ghost predicate Valid()
      reads this, mem
    {
      && 1 <= height && tree.at == root && Whole(mem, c, tree, height - 1)
      && mem.cells.Keys == Addrs(tree)
      && cardinality == |Items(tree)|
    }

    /** What a valid tree is, node by node as stored: all but the root have between `a` and `b` entries, the root
        has at least two children unless it is a leaf, and all leaves are equally deep. */
    lemma WithinBounds()
      requires Valid()
      ensures forall p | p in mem.cells && p != root :: CellWithin(c, mem.cells[p])
      ensures root in mem.cells && match mem.cells[root]
                                   case LeafCell(items) => height == 1 && |items| <= c.lb
                                   case InnerCell(keys, kids) => 1 < height && 2 <= |kids| <= c.ib && |keys| + 1 == |kids|
      ensures forall q: Ptr, d: nat | q in mem.cells && mem.cells[q].LeafCell? && Leads(mem.cells, root, q, d) :: d == height - 1
    {
      NodesWithin(mem.cells, c, tree, height - 1, if height == 1 then 0 else 2, c.Upper(height - 1));
      forall q: Ptr, d: nat | q in mem.cells && mem.cells[q].LeafCell? && Leads(mem.cells, root, q, d) ensures d == height - 1 {
        LeavesLevel(mem.cells, c, tree, height - 1, if height == 1 then 0 else 2, c.Upper(height - 1), q, d);
      }
    }

    /** The stored pairs in key order. */
    ghost function Contents(): (s: seq<Pair>)
      reads this
    {
      Items(tree)
    }

    /** An empty tree: one empty leaf, whose bounds let it grow properly or not. */
    constructor (c: Config)
      ensures Contents() == [] && fresh(mem) && this.c == c
      ensures Valid() <==> c.Valid()
    {
      this.c := c;
      var m := new Memory();
      var p := m.Allocate();
      m.cells, m.next, m.prev := map[p := LeafCell([])], map[p := Null], map[p := Null];
      mem := m;
      root, height, cardinality := p, 1, 0;
      tree := Leaf(p, []);
      new;
      assert Leaves(tree) == [p];
    }

    /** What the source's constructor does with any bounds: it refuses some, and of the others it lets some pass
        that do not suit a split. */
    static method Create(c: Config) returns (t: ABTree?)
      ensures t == null <==> !c.Admitted()
      ensures t != null ==> fresh(t) && fresh(t.mem) && t.Contents() == [] && t.c == c
      ensures t != null ==> (t.Valid() <==> 2 * c.ia <= c.ib && 2 * c.la <= c.lb)
    {
      if !c.Admitted() {
        return null;
      }
      t := new ABTree(c);
    }

    /** A tree with the given pairs from the start, for the number of levels computed in floating point: it is
        a proper tree if and only if that number is right. */
    constructor FromArray(c: Config, elements: seq<Pair>, numLevels: nat)
      requires c.Valid()
      ensures fresh(mem) && this.c == c
      ensures Valid() <==> TreeLoad.LevelsFit(c, |elements|, numLevels)
      ensures TreeLoad.LevelsFit(c, |elements|, numLevels) ==> Sorted(Contents()) && TreeLoad.SamePairs(Contents(), elements)
      ensures TreeLoad.LevelsFit(c, |elements|, numLevels) ==> TreeLoad.FewAndEven(mem.cells, Leaves(tree), |elements|, c.lb)
    {
      hide TreeLoad.SamePairs, TreeLoad.LevelsFit, TreeLoad.FewAndEven, Stored, Distinct, Linked, Items, Leaves, Addrs, Sorted, Ok, Whole;
      this.c := c;
      var m := new Memory();
      var sorted := TreeLoad.SortPairs(elements);
      TreeLoad.SameLength(sorted, elements);
      ghost var t;
      var ok, top, h;
      ok, top, h, t := TreeLoad.InitializeFromArray(m, c, sorted, numLevels);
      var p := RootOf(m, ok, top);
      mem, tree, root, height, cardinality := m, t, p, h, |sorted|;
      new;
      LoadedTree(mem, c, |sorted|, numLevels, ok, top, p, h, tree, sorted);
    }

    /** load: an empty tree takes all pairs at once, in their own order if that is sorted; a tree that
        is not empty refuses. Afterwards the tree is a proper one if and only if the number of levels,
        computed in floating point, is right. */
    method Load(elements: seq<Pair>, numLevels: nat) returns (ok: bool)
      requires Valid()
      modifies this, mem
      ensures ok <==> old(Contents()) == []
      ensures !ok ==> unchanged(this) && unchanged(mem)
      ensures ok ==> (Valid() <==> TreeLoad.LevelsFit(c, |elements|, numLevels))
      ensures ok && TreeLoad.LevelsFit(c, |elements|, numLevels) ==>
        Sorted(Contents()) && TreeLoad.SamePairs(Contents(), elements) && (Sorted(elements) ==> Contents() == elements)
      ensures ok && TreeLoad.LevelsFit(c, |elements|, numLevels) ==> TreeLoad.FewAndEven(mem.cells, Leaves(tree), |elements|, c.lb)
    {
      hide TreeLoad.SamePairs, TreeLoad.LevelsFit, TreeLoad.FewAndEven, Stored, Distinct, Linked, Items, Leaves, Addrs, Sorted, Ok;
      if cardinality > 0 {
        return false;
      }
      EmptyRoot(mem, c, tree, height - 1);
      mem.cells, mem.next, mem.prev := mem.cells - {root}, mem.next - {root}, mem.prev - {root};
      assert mem.cells == map[];
      var sorted := elements;
      var inOrder := TreeLoad.InOrder(elements);
      if !inOrder {
        sorted := TreeLoad.SortPairs(elements);
      }
      SameAsItself(elements);
      TreeLoad.SameLength(sorted, elements);
      ghost var t;
      var done, top;
      done, top, height, t := TreeLoad.InitializeFromArray(mem, c, sorted, numLevels);
      root := RootOf(mem, done, top);
      tree, cardinality := t, |sorted|;
      LoadedTree(mem, c, |sorted|, numLevels, done, top, root, height, tree, sorted);
      ok := true;
    }

    /** split_root: a root with one entry too many gets a parent and is split below it. */
    method SplitRoot(ghost n: nat)
      requires 1 <= height && tree.at == root && c.Valid() && n == (if height == 1 then c.lb else c.ib + 1)
      requires Stored(mem.cells, tree) && Distinct(tree) && Ok(c, tree, height - 1, n, n) && Sorted(Items(tree)) && Chained(mem, Leaves(tree))
      requires mem.cells.Keys == Addrs(tree)
      modifies this, mem
      ensures height == old(height) + 1 && cardinality == old(cardinality) && Contents() == old(Contents())
      ensures tree.at == root && Whole(mem, c, tree, height - 1) && mem.cells.Keys == Addrs(tree) && Size(tree) == 2
    {
      hide Stored, Distinct, DistinctOf, Linked, Ok, Framed, Items, ItemsOf, Leaves, LeavesOf, Addrs, AddrsOf, Sorted, Forest, StoredAll;
      ghost var m, x := mem.cells, tree;
      var h := height - 1;
      var root0 := mem.Allocate();
      Alone(Leaves(x));
      NewParent(mem, root0, root, x);
      mem.cells := mem.cells[root0 := InnerCell([], [root])];
      height := height + 1;
      ghost var m1 := mem.cells;
      assert Chained(mem, Leaves(x));
      ghost var l, r, k := Split(mem, c, root0, 0, h, x, [], []);
      Alone(Leaves(l) + Leaves(r));
      tree := Inner(root0, [k], [l, r]);
      root := root0;
      RootInner(mem, m, m1, c, x, l, r, k, h, root0);
    }

    /** insert: one pair more, in its sorted place; duplicates are kept. */
    method Insert(key: int, value: int) returns (ghost p: nat)
      requires Valid()
      modifies this, mem
      ensures Valid()
      ensures Place(old(Contents()), p, key) && Edited(old(Contents()), Contents(), p, 0, [(key, value)])
    {
      hide Stored, Distinct, DistinctOf, Chained, Framed, Items, ItemsOf, Leaves, LeavesOf, Addrs, AddrsOf, Sorted, Forest, Place, Edited;
      RootCell(mem.cells, c, tree, height - 1);
      if height == 1 && |mem.cells[root].items| == c.lb {
        SplitRoot(c.lb);
      }
      ghost var m1, t1 := mem.cells, tree;
      Alone(Leaves(tree));
      RootCell(mem.cells, c, tree, height - 1);
      RootSubtree(mem, c, tree, height - 1);
      ghost var v;
      v, p := InsertInto(mem, c, root, key, value, height - 1, tree, if height == 1 then 0 else 2, [], []);
      tree := v;
      cardinality := cardinality + 1;
      Alone(Leaves(tree));
      Grown(m1, mem.cells, t1, v, key, value, p);
      RootCellOf(mem.cells, c, tree, height - 1);
      if height > 1 && |mem.cells[root].kids| > c.ib {
        SplitRoot(c.ib + 1);
      }
    }

    /** remove(key): exactly one pair with that key goes, and its value is returned; without one
        nothing changes and the result is -1. The count and the height are only brought up to date
        when the value is not negative, so the tree stays valid exactly then. */
    method Remove(key: int) returns (value: int, ghost p: nat)
      requires Valid()
      modifies this, mem
      ensures Took(old(Contents()), Contents(), key, value, p)
      ensures !HasKey(old(Contents()), key) ==> unchanged(this) && mem.cells == old(mem.cells) && mem.next == old(mem.next) && mem.prev == old(mem.prev) && Valid()
      ensures HasKey(old(Contents()), key) ==> (Valid() <==> 0 <= value)
      ensures value < 0 ==> cardinality == old(cardinality) && height == old(height) && root == old(root)
      ensures (forall x | x in old(Contents()) && x.0 == key :: 0 <= x.1) ==> Valid()
      ensures HasKey(old(Contents()), key) && (forall x | x in old(Contents()) && x.0 == key :: x.1 < 0) ==> !Valid()
    {
      hide Stored, Distinct, DistinctOf, Linked, Framed, Items, ItemsOf, Leaves, LeavesOf, Addrs, AddrsOf, Sorted, Forest, Took, HasKey;
      ghost var t0, m0 := tree, mem.cells;
      Alone(Leaves(tree));
      RootSubtree(mem, c, tree, height - 1);
      ghost var v;
      var omin;
      value, omin, v, p := RemoveFrom(mem, c, root, key, height - 1, false, tree, if height == 1 then 0 else 2, [], []);
      tree := v;
      Alone(Leaves(tree));
      Shrunk(m0, mem.cells, t0, v, key, value, p);
      if value >= 0 {
        cardinality := cardinality - 1;
        ShrinkTree();
      }
      if HasKey(old(Contents()), key) {
        TakenPair(old(Contents()), Contents(), key, value, p);
      }
    }

    /** After a removal: a root with a single child gives way to it. */
    method ShrinkTree()
      requires 1 <= height && tree.at == root && c.Valid() && cardinality == |Items(tree)|
      requires Stored(mem.cells, tree) && Distinct(tree) && Ok(c, tree, height - 1, if height == 1 then 0 else 1, c.Upper(height - 1))
      requires Sorted(Items(tree)) && Chained(mem, Leaves(tree)) && mem.cells.Keys == Addrs(tree)
      modifies this, mem
      ensures Valid() && Contents() == old(Contents())
    {
      hide Stored, Distinct, DistinctOf, Linked, Items, ItemsOf, Leaves, LeavesOf, Addrs, AddrsOf, Sorted, Forest;
      RootCellOf(mem.cells, c, tree, height - 1);
      if height > 1 && |mem.cells[root].kids| == 1 {
        OnlyChild(mem, c, tree, height - 1);
        var child := mem.cells[root].kids[0];
        mem.cells := mem.cells - {root};
        root := child;
        tree := tree.kids[0];
        height := height - 1;
      }
    }

    /** find(key): the value of some pair with the key, -1 if there is none. */
    method FindValue(key: int) returns (value: int)
      requires Valid()
      ensures HasKey(Contents(), key) ==> (key, value) in Contents()
      ensures !HasKey(Contents(), key) ==> value == -1
    {
      value := Find(mem, c, root, height, key, tree);
    }

    /** find(min, max). */
    method FindBetween(min: int, max: int) returns (it: TreeRange.Iterator)
      requires Valid()
      ensures fresh(it) && it.Valid() && it.Remaining() == Within(Contents(), min, max)
    {
      it := TreeRange.FindRange(mem, c, root, height, min, max, tree);
    }

    /** key_max: the greatest key, -1 when there is none. */
    method KeyMax() returns (key: int)
      requires Valid()
      ensures key == if Contents() == [] then -1 else Contents()[|Contents()| - 1].0
    {
      hide Stored, Distinct, Linked, Items, ItemsOf, Leaves, Addrs, Sorted, Ok, Below;
      if cardinality == 0 {
        return -1;
      }
      WholeBelow(mem, c, tree, height - 1);
      var node, depth, l := root, 0, height - 1;
      ghost var x, before := tree, [];
      assert before + Items(x) == Items(tree);
      while depth < l
        invariant 0 <= depth <= l && x.at == node && Below(mem.cells, c, x, l - depth) && before + Items(x) == Items(tree) && Items(x) != []
      {
        BelowCell(mem.cells, c, x, l - depth);
        LastChild(mem.cells, c, x, l - depth);
        var kids := mem.cells[node].kids;
        node := kids[|kids| - 1];
        Assoc(before, ItemsOf(x.kids[..|x.kids| - 1]), Items(x.kids[|x.kids| - 1]));
        before := before + ItemsOf(x.kids[..|x.kids| - 1]);
        x := x.kids[|x.kids| - 1];
        depth := depth + 1;
      }
      BelowCell(mem.cells, c, x, 0);
      LeafContents(x);
      var items := mem.cells[node].items;
      key := items[|items| - 1].0;
    }

    /** sum(min, max). */
    method SumBetween(min: int, max: int) returns (sum: SumResult)
      requires Valid()
      ensures sum == Report(Contents(), Inside(mem.cells, Leaves(tree), TreeScan.First(Contents(), min)), min, max)
    {
      sum := TreeRange.Sum(mem, c, root, height, cardinality, min, max, tree);
    }

    /** permute: the nodes trade places in memory as the permutations say; the tree found from the new root is the
        same one. All nodes do if inner nodes and leaves have the same size; otherwise inner nodes trade places with
        inner nodes and leaves with leaves. */
    method Permute(commonSize: bool, perm: seq<nat>, innerPerm: seq<nat>, leafPerm: seq<nat>)
      requires Valid()
      requires commonSize ==> Permutes(perm, |TreeRelocate.Order(tree)|)
      requires !commonSize ==> Permutes(innerPerm, |TreePermuteByKind.Inners(tree)|) && Permutes(leafPerm, |Leaves(tree)|)
      modifies this, mem
      ensures Valid() && Contents() == old(Contents())
      ensures TreeRelocate.Bare(tree) == TreeRelocate.Bare(old(tree))
      ensures height == old(height) && cardinality == old(cardinality) && mem.cells.Keys == old(mem.cells).Keys
      ensures commonSize ==> exists f :: TreeRelocate.Sends(f, TreeRelocate.Order(old(tree)), perm) && tree == TreeRelocate.Renamed(f, old(tree))
      ensures !commonSize ==>
                (exists f, g ::
                  && TreeRelocate.Sends(f, TreePermuteByKind.Inners(old(tree)), innerPerm) && TreeRelocate.Sends(g, Leaves(old(tree)), leafPerm)
                  && tree == TreeRelocate.Renamed(g, TreeRelocate.Renamed(f, old(tree))))
      ensures !commonSize ==> forall p | p in mem.cells :: mem.cells[p].LeafCell? == old(mem.cells)[p].LeafCell?
    {
      hide Stored, Distinct, DistinctOf, Linked, Items, ItemsOf, Leaves, LeavesOf, Addrs, AddrsOf, Sorted, Forest, Ok,
           TreeRelocate.Apart, TreePermuteByKind.Inners, TreeRelocate.Renamed, TreeRelocate.Bare, TreeRelocate.Sends, TreeRelocate.Order, Permutes;
      if commonSize {
        ghost var f;
        root, f := TreePermute.PermuteAll(mem, c, root, height, perm, tree);
        TreeRelocate.SameTree(f, tree);
        TreeRelocate.SameBare(f, tree);
        tree := TreeRelocate.Renamed(f, tree);
      } else {
        ghost var f, g;
        root, f, g := TreePermuteByKind.PermuteByKind(mem, c, root, height, innerPerm, leafPerm, tree);
        TreeRelocate.SameBare(f, tree);
        tree := TreeRelocate.Renamed(f, tree);
        TreeRelocate.SameBare(g, tree);
        tree := TreeRelocate.Renamed(g, tree);
      }
    }

    /** permute with permutations as the parallel computation leaves them, in as many bytes as it takes. */
    method PermuteRandomly(commonSize: bool)
      requires Valid() && |mem.cells| <= ByteArrays.Pow256(8) / 2
      modifies this, mem
      ensures Valid() && Contents() == old(Contents()) && TreeRelocate.Bare(tree) == TreeRelocate.Bare(old(tree))
      ensures !commonSize ==> forall p | p in mem.cells :: p in old(mem.cells) && mem.cells[p].LeafCell? == old(mem.cells)[p].LeafCell?
    {
      hide Stored, Distinct, DistinctOf, Linked, Items, ItemsOf, Leaves, LeavesOf, Addrs, AddrsOf, Sorted, Forest, Ok, ByteArrays.Pow256,
           TreePermuteByKind.Inners, TreeRelocate.Bare, TreeRelocate.Order, Permutes, Below, TreeRelocate.Indexed, Chained;
      WholeBelow(mem, c, tree, height - 1);
      if commonSize {
        var nodes, _ := TreePermute.VisitFromRoot(mem, c, root, height - 1, tree);
        var perm := RandomPermutation.RawKeys(|nodes|);
        Permute(true, perm, [], []);
      } else {
        var inodes, leaves, index := TreePermuteByKind.VisitAll(mem, c, root, height - 1, tree);
        KindCounts(mem, c, tree, height - 1, index);
        var innerPerm := [];
        if inodes != [] {
          innerPerm := RandomPermutation.RawKeys(|inodes|);
        } else {
          NoneToPermute();
        }
        var leafPerm := RandomPermutation.RawKeys(|leaves|);
        Permute(false, [], innerPerm, leafPerm);
      }
    }
  }

  lemma NoneToPermute()
    ensures Permutes([], 0)
  {
  }

  lemma KindCounts(mem: Memory, c: Config, t: Tree, h: nat, index: map<Ptr, nat>)
    requires Whole(mem, c, t, h) && mem.cells.Keys == Addrs(t)
    requires TreeRelocate.Indexed(index, TreePermuteByKind.Inners(t)) && TreeRelocate.Indexed(index, Leaves(t))
    ensures |TreePermuteByKind.Inners(t)| <= |mem.cells| && 1 <= |Leaves(t)| <= |mem.cells|
  {
    hide Stored, Distinct, Linked, Items, Leaves, Addrs, Sorted, Forest, Ok, TreePermuteByKind.Inners, Below, TreeRelocate.Indexed;
    WholeBelow(mem, c, t, h);
    TreePermuteByKind.KindsOfTree(mem.cells, c, t, h, index);
    TreePermuteByKind.MoreLeaves(mem.cells, c, t, h);
  }

  /** The root pointer; where there is none, an address at which there is no node. */
  method RootOf(mem: Memory, ok: bool, root: Link) returns (p: Ptr)
    ensures if ok && root.To? then p == root.p else p !in mem.cells
  {
    if ok && root.To? {
      p := root.p;
    } else {
      p := mem.Allocate();
    }
  }

  /** What a load leaves behind is a proper tree with all pairs if and only if the number of levels is right. */
  lemma LoadedTree(mem: Memory, c: Config, size: nat, numLevels: nat, ok: bool, top: Link, root: Ptr, height: nat, t: Tree, elements: seq<Pair>)
    requires c.Valid() && 1 <= height && size == |elements| && if ok && top.To? then root == top.p else root !in mem.cells
    requires TreeLoad.LevelsFit(c, size, numLevels) ==>
      ok && top == To(t.at) && Whole(mem, c, t, height - 1) && mem.cells.Keys == Addrs(t) && Items(t) == elements
    requires !TreeLoad.LevelsFit(c, size, numLevels) ==>
      forall u :: ok && Whole(mem, c, u, height - 1) ==> top != To(u.at) || |Items(u)| != size
    ensures (t.at == root && Whole(mem, c, t, height - 1) && mem.cells.Keys == Addrs(t) && |Items(t)| == size) <==> TreeLoad.LevelsFit(c, size, numLevels)
    ensures TreeLoad.LevelsFit(c, size, numLevels) ==> Items(t) == elements
  {
    hide TreeLoad.LevelsFit, Whole, Items;
    if Whole(mem, c, t, height - 1) {
      RootThere(mem, c, t, height - 1);
    }
  }

  lemma RootThere(mem: Memory, c: Config, t: Tree, h: nat)
    requires Whole(mem, c, t, h)
    ensures t.at in mem.cells
  {
    StoredAddrs(mem.cells, t);
  }

  /** What is returned is the value of some pair with the key. */
  lemma TakenPair(s: seq<Pair>, t: seq<Pair>, key: int, value: int, p: nat)
    requires Took(s, t, key, value, p) && HasKey(s, key)
    ensures (key, value) in s
  {
  }

  /** A stored value below zero: its removal takes the pair away but not off the count, and the tree is
      no longer a proper one. */
  method RemoveNegative() returns (t: ABTree, value: int)
    ensures t.Contents() == [] && t.cardinality == 1 && !t.Valid() && value == -5
  {
    t := new ABTree(Config(2, 4, 2, 4));
    ghost var p;
    p := t.Insert(3, -5);
    assert t.Contents() == [(3, -5)] && t.cardinality == 1;
    assert t.Contents()[0].0 == 3;
    value, p := t.Remove(3);
    assert t.Contents() == [];
  }

  /** A range without pairs between the two pairs of a leaf: 8 is reported as first key, 4 as last. */
  method SumInGap() returns (t: ABTree, sum: SumResult)
    ensures t.Valid() && t.Contents() == [(4, 0), (8, 0)] && sum == SumResult(8, 4, 0, 0, 0)
    ensures Within(t.Contents(), 5, 6) == []
  {
    hide Stored, Items, Leaves, Place, Edited, Inside, Within, TreeScan.First, Whole;
    t := new ABTree(Config(2, 4, 2, 4));
    ghost var p;
    p := t.Insert(4, 0);
    OnlyPair(t.Contents(), p, (4, 0));
    p := t.Insert(8, 0);
    NextPair(t.Contents(), p, (4, 0), (8, 0));
    sum := t.SumBetween(5, 6);
    SmallTree(t.mem, t.c, t.tree, t.height - 1);
    OneLeaf(t.mem.cells, t.tree);
    GapReport(t.Contents());
  }

  lemma OnlyPair(t: seq<Pair>, p: nat, x: Pair)
    requires Edited([], t, p, 0, [x])
    ensures t == [x]
  {
  }

  lemma NextPair(t: seq<Pair>, p: nat, x: Pair, y: Pair)
    requires x.0 < y.0 && Place([x], p, y.0) && Edited([x], t, p, 0, [y])
    ensures t == [x, y]
  {
    assert [x][0].0 < y.0;
  }

  lemma SmallTree(mem: Memory, c: Config, x: Tree, h: nat)
    requires Whole(mem, c, x, h) && |Items(x)| < 2 * c.la
    ensures h == 0 && x.Leaf? && Stored(mem.cells, x) && Items(x) == x.items
  {
    hide Items, ItemsOf, Stored, Distinct, Sorted, Chained;
    if 0 < h {
      InnerShape(c, x, h, 2, c.Upper(h));
      KidOk(c, x.kids, x.keys, h - 1, 0);
      KidOk(c, x.kids, x.keys, h - 1, 1);
      MinItems(c, x.kids[0], h - 1);
      MinItems(c, x.kids[1], h - 1);
      TwoKids(x);
    } else {
      LeafContents(x);
    }
  }

  lemma KidOk(c: Config, ts: seq<Tree>, keys: seq<int>, h: nat, i: nat)
    requires Forest(c, ts, keys, h) && i < |ts|
    ensures Ok(c, ts[i], h, c.Lower(h), c.Upper(h))
  {
  }

  lemma TwoKids(x: Tree)
    requires x.Inner? && 2 <= |x.kids|
    ensures |Items(x.kids[0])| + |Items(x.kids[1])| <= |Items(x)|
  {
    assert x.kids[1..][0] == x.kids[1];
    assert ItemsOf(x.kids[1..]) == Items(x.kids[1]) + ItemsOf(x.kids[1..][1..]);
    assert Items(x) == Items(x.kids[0]) + ItemsOf(x.kids[1..]);
  }

  lemma FirstKid(x: Tree)
    requires x.Inner? && x.kids != []
    ensures |Items(x.kids[0])| <= |Items(x)|
  {
  }

  /** No proper subtree holds fewer pairs than a leaf must. */
  lemma {:induction false} MinItems(c: Config, x: Tree, h: nat)
    requires c.Valid() && Ok(c, x, h, c.Lower(h), c.Upper(h))
    ensures c.la <= |Items(x)|
    decreases h
  {
    hide Items;
    if 0 < h {
      InnerShape(c, x, h, c.Lower(h), c.Upper(h));
      KidOk(c, x.kids, x.keys, h - 1, 0);
      MinItems(c, x.kids[0], h - 1);
      FirstKid(x);
    } else {
      LeafContents(x);
    }
  }

  lemma OneLeaf(m: map<Ptr, Cell>, x: Tree)
    requires x.Leaf? && Stored(m, x) && |x.items| == 2
    ensures Inside(m, Leaves(x), 1)
  {
    var ls := Leaves(x);
    assert ls == [x.at] && ls[..0] == [] && TreeScan.ItemsAt(m, x.at) == x.items;
    assert TreeScan.Flat(m, []) == [];
    TreeRange.InsideLeaf(m, ls, 0, 1);
  }

  lemma GapReport(s: seq<Pair>)
    requires s == [(4, 0), (8, 0)]
    ensures Within(s, 5, 6) == [] && TreeScan.First(s, 5) == 1
  {
    var rest: seq<Pair> := [(8, 0)];
    assert s[1..] == rest && rest[1..] == [];
    assert Within(rest, 5, 6) == [] + Within([], 5, 6);
    assert TreeScan.First(rest, 5) == 0;
  }

  /** The last child holds the greatest keys. */
  lemma LastChild(m: map<Ptr, Cell>, c: Config, x: Tree, h: nat)
    requires Below(m, c, x, h) && 0 < h
    ensures x.Inner? && 0 < |x.kids| && m.Keys >= {x.at} && m[x.at] == InnerCell(x.keys, Ats(x.kids))
    ensures var n := |x.kids| - 1;
            Below(m, c, x.kids[n], h - 1) && Items(x.kids[n]) != [] && Items(x) == ItemsOf(x.kids[..n]) + Items(x.kids[n])
  {
    hide Stored, Items, Sorted, Below;
    BelowCell(m, c, x, h);
    var n := |x.kids| - 1;
    BelowKid(m, c, x, h, n);
    assert x.kids[n + 1..] == [];
    assert Ok(c, x.kids[n], h - 1, c.Lower(h - 1), c.Upper(h - 1));
    NotEmpty(c, x.kids[n], h - 1, c.Lower(h - 1), c.Upper(h - 1));
  }

  lemma LeafContents(x: Tree)
    requires x.Leaf?
    ensures Items(x) == x.items
  {
  }

  /** An empty tree is a single leaf. */
  lemma EmptyRoot(mem: Memory, c: Config, t: Tree, h: nat)
    requires Whole(mem, c, t, h) && mem.cells.Keys == Addrs(t) && Items(t) == []
    ensures h == 0 && mem.cells.Keys == {t.at}
  {
    if 0 < h {
      NotEmpty(c, t, h, 2, c.Upper(h));
    }
  }

  lemma SameAsItself(s: seq<Pair>)
    ensures TreeLoad.SamePairs(s, s)
  {
  }

  lemma Alone<T>(s: seq<T>)
    ensures [] + s + [] == s
  {
  }

  lemma NewParent(mem: Memory, root0: Ptr, root: Ptr, x: Tree)
    requires Stored(mem.cells, x) && root0 !in mem.cells && mem.cells.Keys == Addrs(x) && Chained(mem, Leaves(x))
    ensures var m := mem.cells[root0 := InnerCell([], [root])];
            && Stored(m, x) && root0 !in Addrs(x)
            && forall p | p in Leaves(x) :: p in m && m[p].LeafCell?
  {
    hide Linked, Addrs, Leaves;
    StoredFrame(mem.cells, mem.cells[root0 := InnerCell([], [root])], x);
  }

  lemma RootInner(mem: Memory, m: map<Ptr, Cell>, m1: map<Ptr, Cell>, c: Config, x: Tree, l: Tree, r: Tree, k: int, h: nat, root0: Ptr)
    requires c.Valid() && m.Keys == Addrs(x) && root0 !in m && m1 == m[root0 := InnerCell([], [x.at])]
    requires Forest(c, [l, r], [k], h) && Items(x) == Items(l) + Items(r) && Sorted(Items(x))
    requires StoredAll(mem.cells, [l, r]) && DistinctOf([l, r]) && root0 !in AddrsOf([l, r])
    requires Framed(m1, mem.cells, {root0} + Addrs(x), {root0} + AddrsOf([l, r]))
    requires root0 in mem.cells && mem.cells[root0].InnerCell? && mem.cells[root0].keys == [k] && mem.cells[root0].kids == [l.at, r.at]
    requires Chained(mem, Leaves(l) + Leaves(r))
    ensures var t := Inner(root0, [k], [l, r]);
            Whole(mem, c, t, h + 1) && mem.cells.Keys == Addrs(t) && Items(t) == Items(x)
  {
    hide Stored, Distinct, DistinctOf, Linked, ItemsOf, LeavesOf, AddrsOf, Addrs, Sorted, StoredAll, Forest;
    var t := Inner(root0, [k], [l, r]);
    PairOf(l, r);
    assert Ats([l, r]) == [l.at, r.at];
    Fold(mem.cells, t);
    TreeLoad.RootParts(t);
  }

  lemma RootCell(m: map<Ptr, Cell>, c: Config, t: Tree, h: nat)
    requires c.Valid() && Stored(m, t) && Ok(c, t, h, if h == 0 then 0 else 2, c.Upper(h))
    ensures t.at in m && m[t.at].LeafCell? == (h == 0)
    ensures Size(t) == CellSize(m[t.at])
  {
  }

  lemma RootCellOf(m: map<Ptr, Cell>, c: Config, t: Tree, h: nat)
    requires Stored(m, t) && exists lo, hi :: Ok(c, t, h, lo, hi)
    ensures t.at in m && m[t.at].LeafCell? == (h == 0)
    ensures Size(t) == CellSize(m[t.at])
  {
  }

  lemma RootSubtree(mem: Memory, c: Config, t: Tree, h: nat)
    requires Whole(mem, c, t, h)
    ensures Subtree(mem, c, t, h, if h == 0 then 0 else 2, c.Upper(h), [], [])
  {
    Alone(Leaves(t));
  }

  lemma Grown(m: map<Ptr, Cell>, m': map<Ptr, Cell>, t: Tree, v: Tree, key: int, value: int, p: nat)
    requires m.Keys == Addrs(t) && Framed(m, m', Addrs(t), Addrs(v)) && Sorted(Items(t))
    requires Place(Items(t), p, key) && Edited(Items(t), Items(v), p, 0, [(key, value)])
    ensures m'.Keys == Addrs(v) && Sorted(Items(v)) && |Items(v)| == |Items(t)| + 1
  {
    hide Items, Addrs;
    SortedInsert(Items(t), Items(v), p, (key, value));
  }

  lemma Shrunk(m: map<Ptr, Cell>, m': map<Ptr, Cell>, t: Tree, v: Tree, key: int, value: int, p: nat)
    requires m.Keys == Addrs(t) && Framed(m, m', Addrs(t), Addrs(v)) && Sorted(Items(t))
    requires Took(Items(t), Items(v), key, value, p)
    ensures m'.Keys == Addrs(v) && Sorted(Items(v))
    ensures |Items(v)| == if HasKey(Items(t), key) then |Items(t)| - 1 else |Items(t)|
    ensures !HasKey(Items(t), key) ==> value < 0
  {
    hide Items, Addrs;
    SortedTook(Items(t), Items(v), key, value, p);
  }

  /** A root with a single child gives way to it. */
  lemma OnlyChild(mem: Memory, c: Config, t: Tree, h: nat)
    requires c.Valid() && 0 < h && Stored(mem.cells, t) && Distinct(t) && Ok(c, t, h, 1, c.Upper(h)) && Size(t) == 1
    requires Sorted(Items(t)) && Chained(mem, Leaves(t)) && mem.cells.Keys == Addrs(t)
    ensures var x, m := t.kids[0], mem.cells - {t.at};
            && t.Inner? && x.at == mem.cells[t.at].kids[0] && m.Keys == Addrs(x)
            && Items(x) == Items(t) && Leaves(x) == Leaves(t)
            && Stored(m, x) && Distinct(x) && Ok(c, x, h - 1, if h == 1 then 0 else 2, c.Upper(h - 1))
            && forall p | p in Leaves(x) :: p in m && m[p].LeafCell?
  {
    hide Linked, ItemsOf, LeavesOf, AddrsOf, DistinctOf;
    var x, m := t.kids[0], mem.cells - {t.at};
    InnerShape(c, t, h, 1, c.Upper(h));
    assert t.kids == [x];
    One(x);
    assert Ok(c, t.kids[0], h - 1, c.Lower(h - 1), c.Upper(h - 1));
    StoredFrame(mem.cells, m, x);
  }
}
