/** ABTree::remove of a single key. */
module TreeRemove {
  import opened Trees
  import opened TreeMemory
  import opened TreeInsert
  import opened TreeBalance

  ghost predicate HasKey(s: seq<Pair>, key: int) {
    exists i :: 0 <= i < |s| && s[i].0 == key
  }

  /** `t` is `s` without its pair (key, value) at `p`, or `s` itself when the key is not there. */
  ghost predicate Took(s: seq<Pair>, t: seq<Pair>, key: int, value: int, p: nat) {
    if HasKey(s, key) then p < |s| && s[p] == (key, value) && Edited(s, t, p, 1, [])
    else t == s && value == -1
  }

  lemma TookInside(l: seq<Pair>, s: seq<Pair>, t: seq<Pair>, r: seq<Pair>, key: int, value: int, p: nat)
    requires Took(s, t, key, value, p) && (HasKey(l + s + r, key) ==> HasKey(s, key))
    ensures Took(l + s + r, l + t + r, key, value, |l| + p)
  {
    if HasKey(s, key) {
      EditedInside(l, s, t, r, p, 1, []);
      assert (l + s + r)[|l| + p] == s[p];
    }
  }

  lemma SortedTook(s: seq<Pair>, t: seq<Pair>, key: int, value: int, p: nat)
    requires Sorted(s) && Took(s, t, key, value, p)
    ensures Sorted(t)
  {
  }

  /** The entries behind entry `i` move down by one place. */
  method ShiftOut(s: seq<Pair>, i: nat) returns (items: seq<Pair>)
    requires i < |s|
    ensures items == s[..i] + s[i + 1..]
  {
    items := s;
    var j := i;
    while j < |s| - 1
      invariant i <= j <= |s| - 1 && |items| == |s|
      invariant forall q | 0 <= q < i || j < q < |s| :: items[q] == s[q]
      invariant forall q | i <= q < j :: items[q] == s[q + 1]
    {
      items := items[j := items[j + 1]];
      j := j + 1;
    }
    items := items[..|s| - 1];
  }

  /** The base case: of several entries with the key the last one goes if the leaf ends with them, otherwise the
      first one. */
  method RemoveFromLeaf(mem: Memory, at: Ptr, key: int, ghost u: Tree) returns (value: int, ghost v: Tree, ghost p: nat)
    requires u.Leaf? && u.at == at && Stored(mem.cells, u) && Sorted(u.items)
    modifies mem`cells
    ensures v.Leaf? && v.at == at && |u.items| - 1 <= |v.items| <= |u.items| && mem.cells == old(mem.cells)[at := LeafCell(v.items)]
    ensures Took(u.items, v.items, key, value, p)
    ensures HasKey(u.items, key) ==>
              if u.items[|u.items| - 1].0 == key then p + 1 == |u.items| else forall i | 0 <= i < p :: u.items[i].0 < key
    ensures !HasKey(u.items, key) ==> v == u
  {
    var items := mem.cells[at].items;
    ghost var s := items;
    var n := |items|;
    value, v, p := -1, u, 0;
    if n > 0 {
      if items[n - 1].0 == key {
        value := items[n - 1].1;
        p := n - 1;
        assert s[p].0 == key;
        items := items[..n - 1];
        assert items == s[..p] + [] + s[p + 1..];
      } else if items[n - 1].0 > key {
        var i := 0;
        while i < n && items[i].0 < key
          invariant 0 <= i <= n && forall j | 0 <= j < i :: items[j].0 < key
        {
          i := i + 1;
        }
        if i < n && items[i].0 == key {
          value := items[i].1;
          p := i;
          assert s[p].0 == key;
          items := ShiftOut(items, i);
          assert items == s[..p] + [] + s[p + 1..];
        } else {
          assert !HasKey(s, key);
        }
      }
    }
    v := Leaf(at, items);
    mem.cells := mem.cells[at := LeafCell(items)];
  }

  /** The key, if it is anywhere, is in the child the search goes to. */
  lemma WhereKey(c: Config, ts: seq<Tree>, keys: seq<int>, h: nat, i: nat, key: int)
    requires c.Valid() && Forest(c, ts, keys, h) && Sorted(ItemsOf(ts)) && i < |ts|
    requires (0 < i ==> keys[i - 1] < key || Starts(ts[i], key)) && (i < |keys| ==> key < keys[i] || Starts(ts[i], key))
    requires HasKey(ItemsOf(ts), key)
    ensures HasKey(Items(ts[i]), key)
  {
    hide ItemsOf, Items;
    AroundKid(c, ts, keys, h, i);
    var l, s, r := ItemsOf(ts[..i]), Items(ts[i]), ItemsOf(ts[i + 1..]);
    KeyInParts(l, s, r, key);
    if s[0].0 == key {
      KeyFound(ts[i], key);
    } else {
      NoKey(l, r, if 0 < i then keys[i - 1] else key - 1, if i < |keys| then keys[i] else key + 1, key);
    }
  }

  lemma KeyInParts(l: seq<Pair>, s: seq<Pair>, r: seq<Pair>, key: int)
    requires HasKey(l + s + r, key)
    ensures HasKey(l, key) || HasKey(s, key) || HasKey(r, key)
  {
  }

  lemma NoKey(l: seq<Pair>, r: seq<Pair>, lo: int, hi: int, key: int)
    requires (l == [] || AllLe(l, lo)) && (r == [] || AllGe(r, hi)) && lo < key < hi
    ensures !HasKey(l, key) && !HasKey(r, key)
  {
  }

  lemma KeyAbove(u: Tree, j: nat, key: int)
    requires u.Inner? && j < |u.kids| && HasKey(Items(u.kids[j]), key)
    ensures HasKey(Items(u), key)
  {
    hide ItemsOf;
    var ts := u.kids;
    Middle(ts, j, j + 1);
    assert ts[j..j + 1] == [ts[j]];
    One(ts[j]);
    var l, s, r := ItemsOf(ts[..j]), Items(ts[j]), ItemsOf(ts[j + 1..]);
    var q :| 0 <= q < |s| && s[q].0 == key;
    assert (l + s + r)[|l| + q] == s[q];
  }

  /** After the removal from child `j` (and the update of its separator): everything is in order
      again but for the size of that child. */
  lemma AfterKid(mem: Memory, m: map<Ptr, Cell>, m1: map<Ptr, Cell>, c: Config, u: Tree, h: nat, lo: nat, j: nat, x': Tree, k: seq<int>,
                 key: int, value: int, q: nat, a: seq<Ptr>, b: seq<Ptr>) returns (v: Tree, p: nat)
    requires c.Valid() && 0 < h && Ok(c, u, h, lo, c.Upper(h)) && 2 <= lo && Stored(m, u) && Distinct(u)
    requires j < |u.kids| && x'.at == u.kids[j].at && Stored(m1, x') && Distinct(x') && Framed(m, m1, Addrs(u.kids[j]), Addrs(x'))
    requires Ok(c, x', h - 1, c.Lower(h - 1) - 1, c.Upper(h - 1))
    requires |k| == |u.keys| && (forall i | 0 <= i < |k| && i + 1 != j :: k[i] == u.keys[i]) && (0 < j <= |k| ==> Starts(x', k[j - 1]))
    requires Took(Items(u.kids[j]), Items(x'), key, value, q) && (HasKey(Items(u), key) ==> HasKey(Items(u.kids[j]), key))
    requires u.at in m1 && mem.cells == m1[u.at := InnerCell(k, Ats(u.kids))]
    requires Chained(mem, (a + LeavesOf(u.kids[..j])) + Leaves(x') + (LeavesOf(u.kids[j + 1..]) + b))
    ensures v == Inner(u.at, k, u.kids[j := x']) && OneShort(c, v, h - 1, j)
    ensures Stored(mem.cells, v) && Distinct(v) && Framed(m, mem.cells, Addrs(u), Addrs(v))
    ensures Chained(mem, a + Leaves(v) + b)
    ensures Took(Items(u), Items(v), key, value, p)
    ensures j == 0 ==> Items(x') != [] && Items(v) != [] && Items(v)[0] == Items(x')[0]
  {
    hide Framed, Linked, AddrsOf, DistinctOf, Stored, StoredAll, ItemsOf, LeavesOf, Chained, Took, Starts, Forest, OneShort;
    InnerShape(c, u, h, lo, c.Upper(h));
    v := Inner(u.at, k, u.kids[j := x']);
    var ts := u.kids;
    p := |ItemsOf(ts[..j])| + q;
    KidAddrs(ts, j);
    NodeOutside(m, u, ts[j]);
    NodeKept(m, m1, Addrs(ts[j]), Addrs(x'), u.at);
    One(ts[j]);
    One(x');
    AsOne(m1, x');
    ParentCell(m, m1, mem.cells, u.at, Addrs(ts[j]), [x'], InnerCell(k, Ats(ts)));
    assert ts[j..j + 1] == [ts[j]] && Swap(ts, j, 1, [x']) == ts[j := x'];
    assert Swap(Ats(ts), j, 1, Ats([x'])) == Ats(ts);
    RebuiltStored(m, mem.cells, u, j, 1, [x'], k);
    Middle(ts, j, j + 1);
    Exchanged(ts, j, 1, [x']);
    Reassoc(a, LeavesOf(ts[..j]), Leaves(x'), LeavesOf(ts[j + 1..]), b);
    TookInside(ItemsOf(ts[..j]), Items(ts[j]), Items(x'), ItemsOf(ts[j + 1..]), key, value, q);
    ShortAfter(c, u, h, lo, j, x', k);
    NotEmpty(c, x', h - 1, c.Lower(h - 1) - 1, c.Upper(h - 1));
    if j == 0 {
      FirstOf(v.kids);
    }
  }

  lemma NodeOutside(m: map<Ptr, Cell>, u: Tree, x: Tree)
    requires Stored(m, u) && Distinct(u) && u.Inner? && Addrs(x) <= AddrsOf(u.kids)
    ensures u.at in m && u.at !in Addrs(x) && m[u.at] == InnerCell(u.keys, Ats(u.kids))
  {
  }

  lemma ShortAfter(c: Config, u: Tree, h: nat, lo: nat, j: nat, x': Tree, k: seq<int>)
    requires c.Valid() && 0 < h && Ok(c, u, h, lo, c.Upper(h)) && 2 <= lo && j < |u.kids|
    requires Ok(c, x', h - 1, c.Lower(h - 1) - 1, c.Upper(h - 1))
    requires |k| == |u.keys| && (forall i | 0 <= i < |k| && i + 1 != j :: k[i] == u.keys[i]) && (0 < j <= |k| ==> Starts(x', k[j - 1]))
    ensures OneShort(c, Inner(u.at, k, u.kids[j := x']), h - 1, j)
  {
  }

  method RemoveAtLeaf(mem: Memory, c: Config, node: Ptr, key: int, min: bool, ghost u: Tree, ghost lo: nat, ghost a: seq<Ptr>, ghost b: seq<Ptr>)
    returns (value: int, omin: int, ghost v: Tree, ghost p: nat)
    requires c.Valid() && u.at == node && Subtree(mem, c, u, 0, lo, c.Upper(0), a, b) && (min ==> 2 <= lo)
    modifies mem
    ensures v.at == node && Stored(mem.cells, v) && Distinct(v)
    ensures Ok(c, v, 0, if lo == 0 then 0 else lo - 1, c.Upper(0)) && Size(u) - 1 <= Size(v) <= Size(u)
    ensures Framed(old(mem.cells), mem.cells, Addrs(u), Addrs(v)) && Chained(mem, a + Leaves(v) + b)
    ensures Took(Items(u), Items(v), key, value, p)
    ensures !HasKey(Items(u), key) ==> v == u && mem.cells == old(mem.cells)
    ensures mem.next == old(mem.next) && mem.prev == old(mem.prev)
    ensures min ==> Items(v) != [] && omin == Items(v)[0].0
  {
    hide Linked, Took, HasKey, Sorted;
    value, v, p := RemoveFromLeaf(mem, node, key, u);
    omin := 0;
    if min {
      omin := if |mem.cells[node].items| > 0 then mem.cells[node].items[0].0 else -1;
    }
  }

  /** The child the search goes to: right on equality with a separator, unless the smallest key is
      being followed; it holds the key if any child does. */
  lemma SearchChild(c: Config, u: Tree, h: nat, lo: nat, i: nat, j: nat, key: int, min: bool)
    requires c.Valid() && 0 < h && Ok(c, u, h, lo, c.Upper(h)) && 2 <= lo && Sorted(Items(u))
    requires i <= |u.keys| && (forall t | 0 <= t < i :: u.keys[t] < key) && (i < |u.keys| ==> key <= u.keys[i])
    requires j == if !min && i < |u.keys| && u.keys[i] == key then i + 1 else i
    requires min ==> Starts(u, key)
    ensures j < |u.kids| && u.kids[j].at == Ats(u.kids)[j]
    ensures j == i + 1 || min ==> Starts(u.kids[j], key)
    ensures min ==> j == 0
    ensures HasKey(Items(u), key) ==> HasKey(Items(u.kids[j]), key)
    ensures j == i + 1 ==> HasKey(Items(u), key)
    ensures 0 < j == i ==> Starts(u.kids[j], u.keys[j - 1]) && u.keys[j - 1] < key
  {
    hide ItemsOf, Starts, HasKey;
    var ts := u.kids;
    assert Forest(c, ts, u.keys, h - 1);
    if 0 < i {
      assert Starts(ts[i - 1 + 1], u.keys[i - 1]);
    }
    if j == i + 1 {
      assert Starts(ts[i + 1], u.keys[i]);
      KeyFound(ts[i + 1], key);
      KeyAbove(u, i + 1, key);
    }
    if min {
      FirstKid(c, u, h, key);
      if 0 < i {
        AroundKid(c, ts, u.keys, h - 1, 0);
        SmallestFirst(c, ts, u.keys, h - 1, key);
      }
    }
    if HasKey(Items(u), key) {
      WhereKey(c, ts, u.keys, h - 1, j, key);
    }
  }

  lemma FirstKid(c: Config, u: Tree, h: nat, key: int)
    requires c.Valid() && 0 < h && u.Inner? && Forest(c, u.kids, u.keys, h - 1) && Starts(u, key)
    ensures Starts(u.kids[0], key)
  {
    StartsInner(c, u.kids, u.keys, h - 1, key, u.at);
  }

  lemma SmallestFirst(c: Config, ts: seq<Tree>, keys: seq<int>, h: nat, key: int)
    requires c.Valid() && Forest(c, ts, keys, h) && Sorted(ItemsOf(ts)) && Starts(ts[0], key) && 1 < |ts|
    ensures key <= keys[0]
  {
    hide ItemsOf, Items;
    AroundKid(c, ts, keys, h, 0);
  }

  lemma KeptStart(x: Tree, x': Tree, sep: int, key: int, value: int, q: nat)
    requires Starts(x, sep) && sep < key && Took(Items(x), Items(x'), key, value, q)
    ensures Starts(x', sep)
  {
  }

  lemma StillChained(mem: Memory, cell: Cell, node: Ptr, m1: map<Ptr, Cell>, ls: seq<Ptr>)
    requires Linked(mem.next, mem.prev, ls) && forall p | p in ls :: p in m1 && m1[p].LeafCell?
    requires node in m1 && m1[node].InnerCell? && mem.cells == m1[node := cell]
    ensures Chained(mem, ls)
  {
  }

  /** Where a separator equals the key, the pair is taken from the child to its right, whose new
      smallest key becomes the separator; otherwise from the child the search leads to. */
  method RemoveBelow(mem: Memory, c: Config, node: Ptr, key: int, h: nat, min: bool, j: nat, replace: bool,
                     ghost u: Tree, ghost lo: nat, ghost a: seq<Ptr>, ghost b: seq<Ptr>)
    returns (value: int, omin: int, ghost v: Tree, ghost p: nat)
    requires c.Valid() && 0 < h && u.at == node && Subtree(mem, c, u, h, lo, c.Upper(h), a, b) && 2 <= lo
    requires j < |u.kids| == |u.keys| + 1 && (replace ==> 0 < j && !min)
    requires replace || min ==> Starts(u.kids[j], key)
    requires min ==> j == 0
    requires 0 < j && !replace ==> Starts(u.kids[j], u.keys[j - 1]) && u.keys[j - 1] < key
    requires HasKey(Items(u), key) ==> HasKey(Items(u.kids[j]), key)
    modifies mem
    ensures v.at == node && OneShort(c, v, h - 1, j) && |v.kids| == |u.kids| && Size(v.kids[j]) + 1 >= Size(u.kids[j])
    ensures Stored(mem.cells, v) && Distinct(v) && Framed(old(mem.cells), mem.cells, Addrs(u), Addrs(v))
    ensures Chained(mem, a + Leaves(v) + b)
    ensures Took(Items(u), Items(v), key, value, p)
    ensures !HasKey(Items(u), key) ==> v == u && mem.cells == old(mem.cells) && mem.next == old(mem.next) && mem.prev == old(mem.prev)
    ensures min ==> Items(v) != [] && omin == Items(v)[0].0
    decreases h, 0
  {
    hide Framed, Linked, AddrsOf, Addrs, DistinctOf, Distinct, Stored, StoredAll, ItemsOf, LeavesOf, Leaves, Took, HasKey, Starts, Forest, OneShort, Sorted, AllLe, AllGe, Items, Ok;
    InnerShape(c, u, h, lo, c.Upper(h));
    Unfold(mem.cells, u);
    var keys, kids := mem.cells[node].keys, mem.cells[node].kids;
    ghost var m, x, x', q := mem.cells, u.kids[j], u.kids[j], 0;
    ghost var a', b' := a + LeavesOf(u.kids[..j]), LeavesOf(u.kids[j + 1..]) + b;
    var k := keys;
    Descend(mem, c, u, h, lo, c.Upper(h), j, a, b);
    if HasKey(Items(x), key) {
      KeyAbove(u, j, key);
    }
    assert u.kids[j := x] == u.kids;
    if replace {
      var newKey;
      value, newKey, x', q := RemoveFrom(mem, c, kids[j], key, h - 1, true, x, c.Lower(h - 1), a', b');
      k := keys[j - 1 := newKey];
      omin := 0;
      KeyFound(x, key);
      NodeKept(m, mem.cells, Addrs(x), Addrs(x'), node);
      ghost var m1 := mem.cells;
      mem.cells := mem.cells[node := InnerCell(k, kids)];
      StillChained(mem, InnerCell(k, kids), node, m1, a' + Leaves(x') + b');
      StartsAt(x', newKey);
      v, p := AfterKid(mem, m, m1, c, u, h, lo, j, x', k, key, value, q, a, b);
    } else {
      value, omin, x', q := RemoveFrom(mem, c, kids[j], key, h - 1, min, x, c.Lower(h - 1), a', b');
      NodeKept(m, mem.cells, Addrs(x), Addrs(x'), node);
      if 0 < j {
        KeptStart(x, x', u.keys[j - 1], key, value, q);
      }
      assert mem.cells == mem.cells[node := InnerCell(k, kids)];
      v, p := AfterKid(mem, m, mem.cells, c, u, h, lo, j, x', k, key, value, q, a, b);
    }
  }

  lemma KeyFound(x: Tree, key: int)
    requires Starts(x, key)
    ensures HasKey(Items(x), key)
  {
  }

  lemma StartsAt(x: Tree, key: int)
    requires Items(x) != [] && key == Items(x)[0].0
    ensures Starts(x, key)
  {
  }

  /** remove below `node`, `h` levels above the leaves: exactly one pair with the key is gone, or
      nothing at all has changed. The flag `min` stands for a non-null `omin`: the key is the
      smallest of the subtree, and the new smallest one is wanted. The source's loop over the inner
      nodes is the recursion it stands for. */
  method RemoveFrom(mem: Memory, c: Config, node: Ptr, key: int, h: nat, min: bool, ghost u: Tree, ghost lo: nat, ghost a: seq<Ptr>, ghost b: seq<Ptr>)
    returns (value: int, omin: int, ghost v: Tree, ghost p: nat)
    requires c.Valid() && u.at == node && Subtree(mem, c, u, h, lo, c.Upper(h), a, b) && (0 < h ==> 2 <= lo)
    requires min ==> 2 <= lo && Starts(u, key)
    modifies mem
    ensures v.at == node && Stored(mem.cells, v) && Distinct(v)
    ensures Ok(c, v, h, if lo == 0 then 0 else lo - 1, c.Upper(h)) && Size(u) - 1 <= Size(v) <= Size(u)
    ensures Framed(old(mem.cells), mem.cells, Addrs(u), Addrs(v)) && Chained(mem, a + Leaves(v) + b)
    ensures Took(Items(u), Items(v), key, value, p)
    ensures !HasKey(Items(u), key) ==> v == u && mem.cells == old(mem.cells) && mem.next == old(mem.next) && mem.prev == old(mem.prev)
    ensures min ==> Items(v) != [] && omin == Items(v)[0].0
    decreases h, 1
  {
    hide Framed, Linked, AddrsOf, Addrs, DistinctOf, Distinct, Stored, StoredAll, ItemsOf, LeavesOf, Leaves, Chained, Took, HasKey, Starts, Forest, OneShort, Sorted, Items;
    if h == 0 {
      value, omin, v, p := RemoveAtLeaf(mem, c, node, key, min, u, lo, a, b);
      return;
    }
    InnerShape(c, u, h, lo, c.Upper(h));
    Unfold(mem.cells, u);
    var keys, kids := mem.cells[node].keys, mem.cells[node].kids;
    var i := ChildFor(keys, key);
    if !min && i < |keys| && keys[i] == key {
      SearchChild(c, u, h, lo, i, i + 1, key, min);
      value, omin, v, p := RemoveBelow(mem, c, node, key, h, min, i + 1, true, u, lo, a, b);
      ghost var m1, v1 := mem.cells, v;
      ShortShape(c, v1, h - 1, i + 1);
      v := RebalanceLb(mem, c, node, i + 1, h - 1, v1, a, b);
      FinishRemove(old(mem.cells), m1, mem.cells, c, u, v1, v, h, lo, i + 1);
    } else {
      SearchChild(c, u, h, lo, i, i, key, min);
      KidSize(mem.cells, c, u, h, lo, i);
      if CellSize(mem.cells[kids[i]]) <= c.Lower(h - 1) {
        value, omin, v, p := RemoveBelow(mem, c, node, key, h, min, i, false, u, lo, a, b);
        ghost var m1, v1 := mem.cells, v;
        ShortShape(c, v1, h - 1, i);
        v := RebalanceLb(mem, c, node, i, h - 1, v1, a, b);
        FinishRemove(old(mem.cells), m1, mem.cells, c, u, v1, v, h, lo, i);
      } else {
        value, omin, v, p := RemoveBelow(mem, c, node, key, h, min, i, false, u, lo, a, b);
        ShortShape(c, v, h - 1, i);
        Balanced(mem.cells, c, v, h - 1, i);
        FinishRemove(old(mem.cells), mem.cells, mem.cells, c, u, v, v, h, lo, i);
      }
    }
  }

  lemma KidSize(m: map<Ptr, Cell>, c: Config, u: Tree, h: nat, lo: nat, i: nat)
    requires Ok(c, u, h, lo, c.Upper(h)) && 0 < h && Stored(m, u) && i < |u.kids|
    ensures u.kids[i].at in m && CellSize(m[u.kids[i].at]) == Size(u.kids[i]) && c.Lower(h - 1) <= Size(u.kids[i])
  {
    InnerShape(c, u, h, lo, c.Upper(h));
    var x := u.kids[i];
    assert Stored(m, x) && Ok(c, x, h - 1, c.Lower(h - 1), c.Upper(h - 1));
  }

  lemma FinishRemove(m: map<Ptr, Cell>, m1: map<Ptr, Cell>, m2: map<Ptr, Cell>, c: Config, u: Tree, v1: Tree, v: Tree, h: nat, lo: nat, j: nat)
    requires c.Valid() && 0 < h && Ok(c, u, h, lo, c.Upper(h)) && u.Inner? && v1.Inner? && |v1.kids| == |u.kids| && 2 <= lo
    requires v.Inner? && Forest(c, v.kids, v.keys, h - 1) && |v1.kids| - 1 <= |v.kids| <= |v1.kids|
    requires Framed(m, m1, Addrs(u), Addrs(v1)) && Framed(m1, m2, Addrs(v1), Addrs(v))
    ensures Ok(c, v, h, lo - 1, c.Upper(h)) && Framed(m, m2, Addrs(u), Addrs(v))
  {
  }
}
