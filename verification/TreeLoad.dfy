/** ABTree bulk load: leaves are filled evenly from left to right and handed up to the nodes under
    construction, one on each level. */
module TreeLoad {
  import opened Trees
  import opened TreeMemory
  import opened TreeInsert
  import opened TreeScan
  import Powers

  /** The node under construction on one level of inner nodes. The first `bbpoint` nodes of a level get
      fillFactor + 1 children, the others fillFactor. */
  datatype NodeState = NodeState(node: Link, firstKey: int, fillFactor: nat, index: nat, bbpoint: nat)

  function CeilDiv(n: nat, b: nat): (q: nat)
    requires 0 < b
  {
    (n + b - 1) / b
  }

  function Target(s: NodeState): (n: nat) {
    if s.index < s.bbpoint then s.fillFactor + 1 else s.fillFactor
  }

  /** How many children the first `j` nodes of a level take. */
  function Taken(ff: nat, bb: nat, j: nat): (n: nat) {
    j * ff + if j < bb then j else bb
  }

  /** How many children the level has taken so far. */
  ghost function Pushed(s: NodeState, part: seq<Tree>): (n: nat) {
    Taken(s.fillFactor, s.bbpoint, s.index) + if part == [] || part[0].Leaf? then 0 else |part[0].kids|
  }

  /** How the children of a level are spread over its nodes: below the root, evenly and within bounds. */
  ghost predicate Spread(c: Config, s: NodeState, children: nat, nodes: nat) {
    && 2 <= children && 1 <= nodes
    && children == nodes * s.fillFactor + s.bbpoint && s.bbpoint < nodes
    && c.ia <= s.fillFactor && s.fillFactor + (if s.bbpoint == 0 then 0 else 1) <= c.ib
  }

  /** counts[l] is the number of children on level l. The top of the tree is on level `base`, which has
      room for all of its children; `base` is 0 if the number of levels is right. */
  ghost predicate Plan(c: Config, levels: seq<NodeState>, counts: seq<nat>, base: nat) {
    && base < |levels| == |counts|
    && 2 <= counts[base] <= c.ib && levels[base].index == 0
    && levels[base].bbpoint == (if base == 0 then 1 else 0) && levels[base].fillFactor == (if base == 0 then c.ib else counts[base])
    && (forall l | base < l < |levels| :: Spread(c, levels[l], counts[l], counts[l - 1]))
  }

  /** The node under construction is a proper one so far; its children have height `h`. */
  ghost predicate Level(c: Config, s: NodeState, part: seq<Tree>, h: nat) {
    if s.node.Null? then
      part == [] && s.index == 0
    else
      && |part| == 1 && part[0].Inner? && part[0].at == s.node.p
      && 1 <= |part[0].kids| <= Target(s)
      && Forest(c, part[0].kids, part[0].keys, h) && Starts(part[0].kids[0], s.firstKey)
  }

  /** The levels from the top down to `k`: as many nodes are complete on a level as the level above has
      taken. Above the top there is nothing. */
  ghost predicate Building(c: Config, levels: seq<NodeState>, counts: seq<nat>, parts: seq<seq<Tree>>, k: nat, base: nat) {
    && Plan(c, levels, counts, base) && |parts| == |levels| && base <= k <= |levels|
    && (forall l | base <= l < k :: Level(c, levels[l], parts[l], |levels| - 1 - l))
    && (forall l | base < l < k :: levels[l].index == Pushed(levels[l - 1], parts[l - 1]))
    && (forall l | 0 <= l < base :: levels[l].node.Null? && parts[l] == [])
  }

  /** What is known of a load: nothing, or the level its tree ends on. */
  datatype Mode = Loose | Top(base: nat)

  /** The nodes under construction are inner nodes in memory. */
  ghost predicate Safe(m: map<Ptr, Cell>, levels: seq<NodeState>) {
    forall l | 0 <= l < |levels| && levels[l].node.To? :: levels[l].node.p in m && m[levels[l].node.p].InnerCell?
  }

  /** No node goes away or changes its kind. */
  ghost predicate Kept(m: map<Ptr, Cell>, m': map<Ptr, Cell>) {
    forall p | p in m :: p in m' && (m'[p].InnerCell? <==> m[p].InnerCell?)
  }

  /** No leaf changes. */
  ghost predicate LeavesKept(m: map<Ptr, Cell>, m': map<Ptr, Cell>) {
    forall p | p in m && m[p].LeafCell? :: p in m' && m'[p] == m[p]
  }

  /** The leaf `p` holds `n` pairs. */
  ghost predicate HoldsPairs(m: map<Ptr, Cell>, p: Ptr, n: nat) {
    p in m && m[p].LeafCell? && |m[p].items| == n
  }

  /** The first `mod` leaves hold one pair more than the others. */
  ghost predicate EvenAlong(m: map<Ptr, Cell>, ls: seq<Ptr>, ff: nat, mod: nat) {
    forall k | 0 <= k < |ls| :: HoldsPairs(m, ls[k], if k < mod then ff + 1 else ff)
  }

  /** As few leaves as can hold so many pairs, filled as evenly as possible, the fuller ones first. */
  ghost predicate FewAndEven(m: map<Ptr, Cell>, ls: seq<Ptr>, size: nat, most: nat) {
    && 1 <= |ls| && (|ls| == 1 || (|ls| - 1) * most < size) && size <= |ls| * most
    && exists ff: nat, mod: nat :: mod < |ls| && size == |ls| * ff + mod && EvenAlong(m, ls, ff, mod)
  }

  lemma EvenStill(m: map<Ptr, Cell>, m': map<Ptr, Cell>, ls: seq<Ptr>, leaf: Ptr, ff: nat, mod: nat)
    requires EvenAlong(m, ls, ff, mod) && leaf !in ls && forall p | p in m && p != leaf && m[p].LeafCell? :: p in m' && m'[p] == m[p]
    ensures EvenAlong(m', ls, ff, mod)
  {
    forall k | 0 <= k < |ls| ensures HoldsPairs(m', ls[k], if k < mod then ff + 1 else ff) {
      assert HoldsPairs(m, ls[k], if k < mod then ff + 1 else ff) && ls[k] in ls;
    }
  }

  lemma EvenMore(m: map<Ptr, Cell>, ls: seq<Ptr>, leaf: Ptr, ff: nat, mod: nat)
    requires EvenAlong(m, ls, ff, mod) && HoldsPairs(m, leaf, if |ls| < mod then ff + 1 else ff)
    ensures EvenAlong(m, ls + [leaf], ff, mod)
  {
  }

  lemma LeafOutside(mem: Memory, leaf: Ptr, ts: seq<Tree>)
    requires Filling(mem, leaf, ts)
    ensures leaf !in LeavesOf(ts)
  {
    var ls := LeavesOf(ts);
    if leaf in ls {
      var i :| 0 <= i < |ls| && ls[i] == leaf;
      ChainDistinct(mem.next, mem.prev, ls + [leaf], i, |ls|);
    }
  }

  /** A level too many: the node above the finished tree has it as its only child, and nothing is above that. */
  ghost predicate Topless(m: map<Ptr, Cell>, levels: seq<NodeState>, base: nat) {
    && 0 < base <= |levels| && (forall l | 0 <= l < base - 1 :: levels[l].node.Null?)
    && levels[base - 1].node.To? && levels[base - 1].node.p in m
    && m[levels[base - 1].node.p].InnerCell? && |m[levels[base - 1].node.p].kids| == 1
  }

  /** All nodes under construction, from the top. */
  ghost function Flat(parts: seq<seq<Tree>>): (ts: seq<Tree>) {
    if parts == [] then [] else Flat(parts[..|parts| - 1]) + parts[|parts| - 1]
  }

  lemma FlatNext(parts: seq<seq<Tree>>, k: nat)
    requires k < |parts|
    ensures Flat(parts[..k + 1]) == Flat(parts[..k]) + parts[k]
  {
    assert parts[..k + 1][..k] == parts[..k];
  }

  lemma TakenNext(ff: nat, bb: nat, j: nat)
    ensures Taken(ff, bb, j + 1) == Taken(ff, bb, j) + if j < bb then ff + 1 else ff
  {
  }

  lemma {:induction false} TakenLe(ff: nat, bb: nat, i: nat, j: nat)
    requires i <= j
    ensures Taken(ff, bb, i) + (j - i) * ff <= Taken(ff, bb, j)
    decreases j - i
  {
  }

  lemma IndexBelow(ff: nat, bb: nat, index: nat, nodes: nat)
    requires bb < nodes && Taken(ff, bb, index) < nodes * ff + bb
    ensures index < nodes
  {
  }

  /** What is left for the nodes after this one: nothing, or enough for one more. */
  lemma LeftOver(ff: nat, bb: nat, index: nat, nodes: nat)
    requires index < nodes && bb < nodes
    ensures var left := nodes * ff + bb - Taken(ff, bb, index + 1); (left == 0 && index + 1 == nodes) || (left >= ff && index + 1 < nodes)
  {
    TakenLe(ff, bb, index + 1, nodes);
    if index + 1 < nodes {
      Powers.MulLe(1, nodes - (index + 1), ff);
    }
  }

  /** While a level has children to take, its nodes are not all complete, and the last node is completed
      by the last child. */
  lemma NotDone(c: Config, s: NodeState, n: nat, children: nat, nodes: nat)
    requires Spread(c, s, children, nodes) && 2 <= c.ia && 1 <= n <= Target(s) && Taken(s.fillFactor, s.bbpoint, s.index) + n < children
    ensures s.index < nodes
    ensures n == Target(s) ==> Taken(s.fillFactor, s.bbpoint, s.index) + n < children - 1 && s.index + 1 < nodes
    ensures Taken(s.fillFactor, s.bbpoint, s.index) + n == children - 1 <==> s.index + 1 == nodes && n + 1 == Target(s)
  {
    var ff, bb := s.fillFactor, s.bbpoint;
    IndexBelow(ff, bb, s.index, nodes);
    TakenNext(ff, bb, s.index);
    LeftOver(ff, bb, s.index, nodes);
    var taken, next, all := Taken(ff, bb, s.index), Taken(ff, bb, s.index + 1), nodes * ff;
    hide Taken;
    assert next == taken + Target(s) && all + bb == children;
  }

  lemma NoneTaken(ff: nat, bb: nat)
    ensures Taken(ff, bb, 0) == 0
  {
  }

  /** What is handed up: a forest in memory that has taken the place of another, contents unchanged. */
  ghost predicate Grew(m: map<Ptr, Cell>, m': map<Ptr, Cell>, ts: seq<Tree>, r: seq<Tree>) {
    && StoredAll(m', r) && DistinctOf(r) && Framed(m, m', AddrsOf(ts), AddrsOf(r))
    && ItemsOf(r) == ItemsOf(ts) && LeavesOf(r) == LeavesOf(ts)
  }

  lemma GrewThen(m: map<Ptr, Cell>, m1: map<Ptr, Cell>, m2: map<Ptr, Cell>, a: seq<Tree>, b: seq<Tree>, r: seq<Tree>)
    requires Grew(m, m1, a, b) && Grew(m1, m2, b, r)
    ensures Grew(m, m2, a, r)
  {
  }

  /** The child joins the last node of the forest. */
  lemma Appended(m: map<Ptr, Cell>, ts: seq<Tree>, t: Tree, x: Tree, key: int)
    requires t.Inner? && StoredAll(m, ts + [t] + [x]) && DistinctOf(ts + [t] + [x])
    ensures t.at in m
    ensures var m' := m[t.at := InnerCell(t.keys + [key], Ats(t.kids) + [x.at])];
            Grew(m, m', ts + [t] + [x], ts + [Inner(t.at, t.keys + [key], t.kids + [x])])
  {
    hide Framed, AddrsOf, DistinctOf, Stored, Same, Addrs, Distinct, ItemsOf, LeavesOf, StoredAll;
    var m' := m[t.at := InnerCell(t.keys + [key], Ats(t.kids) + [x.at])];
    var v := Inner(t.at, t.keys + [key], t.kids + [x]);
    Parts3(m, ts, t, x);
    RootParts(t);
    RootParts(v);
    Unfold(m, t);
    AddrsJoin(t.kids, [x]);
    ItemsJoin(t.kids, [x]);
    LeavesJoin(t.kids, [x]);
    One(x);
    StoredAllAddrs(m, ts);
    StoredAllAddrs(m, t.kids);
    StoredAddrs(m, x);
    StoredAddrs(m, t);
    SameElsewhere(m, m', t.at, AddrsOf(ts));
    SameElsewhere(m, m', t.at, AddrsOf(t.kids));
    SameElsewhere(m, m', t.at, Addrs(x));
    StoredAllFrame(m, m', ts);
    StoredAllFrame(m, m', t.kids);
    StoredFrame(m, m', x);
    StoredAllJoin(m', t.kids, [x]);
    StoredOne(m', x);
    assert Ats(v.kids) == Ats(t.kids) + [x.at];
    Fold(m', v);
    StoredOne(m', v);
    StoredAllJoin(m', ts, [v]);
    AddrsJoin(ts, [v]);
    ItemsJoin(ts, [v]);
    LeavesJoin(ts, [v]);
    One(v);
    Assoc(ItemsOf(ts), Items(t), Items(x));
    Assoc(LeavesOf(ts), Leaves(t), Leaves(x));
    OneCell(m, m', t.at, AddrsOf(ts + [t] + [x]), AddrsOf(ts + [v]));
  }

  lemma RootParts(t: Tree)
    requires t.Inner?
    ensures Addrs(t) == {t.at} + AddrsOf(t.kids)
    ensures Distinct(t) <==> t.at !in AddrsOf(t.kids) && DistinctOf(t.kids)
    ensures Leaves(t) == LeavesOf(t.kids) && Items(t) == ItemsOf(t.kids)
  {
  }

  lemma Parts3(m: map<Ptr, Cell>, ts: seq<Tree>, t: Tree, x: Tree)
    requires StoredAll(m, ts + [t] + [x]) && DistinctOf(ts + [t] + [x])
    ensures StoredAll(m, ts) && Stored(m, t) && Stored(m, x) && t.at in m
    ensures DistinctOf(ts) && Distinct(t) && Distinct(x) && AddrsOf(ts) !! Addrs(t) && (AddrsOf(ts) + Addrs(t)) !! Addrs(x)
    ensures AddrsOf(ts + [t] + [x]) == AddrsOf(ts) + Addrs(t) + Addrs(x)
    ensures ItemsOf(ts + [t] + [x]) == ItemsOf(ts) + Items(t) + Items(x)
    ensures LeavesOf(ts + [t] + [x]) == LeavesOf(ts) + Leaves(t) + Leaves(x)
  {
    hide AddrsOf, DistinctOf, Addrs, Distinct, ItemsOf, LeavesOf;
    AddrsJoin(ts + [t], [x]);
    AddrsJoin(ts, [t]);
    ItemsJoin(ts + [t], [x]);
    ItemsJoin(ts, [t]);
    LeavesJoin(ts + [t], [x]);
    LeavesJoin(ts, [t]);
    One(t);
    One(x);
    var w := ts + [t] + [x];
    assert w[|ts|] == t && w[|ts| + 1] == x;
    forall i | 0 <= i < |ts| ensures Stored(m, ts[i]) {
      assert w[i] == ts[i];
    }
  }

  lemma StoredOne(m: map<Ptr, Cell>, x: Tree)
    requires Stored(m, x)
    ensures StoredAll(m, [x])
  {
  }

  lemma StoredAllJoin(m: map<Ptr, Cell>, a: seq<Tree>, b: seq<Tree>)
    ensures StoredAll(m, a + b) <==> StoredAll(m, a) && StoredAll(m, b)
  {
    hide Stored;
    if StoredAll(m, a + b) {
      forall i | 0 <= i < |a| ensures Stored(m, a[i]) {
        assert (a + b)[i] == a[i];
      }
      forall i | 0 <= i < |b| ensures Stored(m, b[i]) {
        assert (a + b)[|a| + i] == b[i];
      }
    }
  }

  lemma SameElsewhere(m: map<Ptr, Cell>, m': map<Ptr, Cell>, p: Ptr, s: set<Ptr>)
    requires p !in s && s <= m.Keys && (p in m' && m' == m[p := m'[p]])
    ensures Same(m, m', s)
  {
  }

  lemma OneCell(m: map<Ptr, Cell>, m': map<Ptr, Cell>, p: Ptr, a: set<Ptr>, b: set<Ptr>)
    requires p in a && a <= m.Keys && b == a && p in m' && m' == m[p := m'[p]]
    ensures Framed(m, m', a, b)
  {
  }

  /** The child becomes the first child of a new node. */
  lemma Opened(m: map<Ptr, Cell>, p: Ptr, ts: seq<Tree>, x: Tree)
    requires p !in m && StoredAll(m, ts + [x]) && DistinctOf(ts + [x])
    ensures Grew(m, m[p := InnerCell([], [x.at])], ts + [x], ts + [Inner(p, [], [x])])
  {
    hide AddrsOf, DistinctOf, Stored, Same, Addrs, Distinct, ItemsOf, LeavesOf, StoredAll;
    var m' := m[p := InnerCell([], [x.at])];
    var v := Inner(p, [], [x]);
    StoredAllJoin(m, ts, [x]);
    AddrsJoin(ts, [x]);
    ItemsJoin(ts, [x]);
    LeavesJoin(ts, [x]);
    One(x);
    RootParts(v);
    StoredAllAddrs(m, ts);
    StoredAllAddrs(m, [x]);
    SameAfterNew(m, m', p, AddrsOf(ts));
    SameAfterNew(m, m', p, AddrsOf([x]));
    StoredAllFrame(m, m', ts);
    StoredAllFrame(m, m', [x]);
    assert Ats([x]) == [x.at];
    Fold(m', v);
    StoredOne(m', v);
    StoredAllJoin(m', ts, [v]);
    AddrsJoin(ts, [v]);
    ItemsJoin(ts, [v]);
    LeavesJoin(ts, [v]);
    One(v);
  }

  lemma SameAfterNew(m: map<Ptr, Cell>, m': map<Ptr, Cell>, p: Ptr, s: set<Ptr>)
    requires p !in m && s <= m.Keys && p in m' && m' == m[p := m'[p]]
    ensures Same(m, m', s)
  {
  }

  /** A forest next to one that grows is left alone. */
  lemma GrewBeside(m: map<Ptr, Cell>, m': map<Ptr, Cell>, ts: seq<Tree>, r: seq<Tree>, x: Tree)
    requires Grew(m, m', ts, r) && StoredAll(m, ts + [x]) && DistinctOf(ts + [x])
    ensures Grew(m, m', ts + [x], r + [x])
  {
    hide AddrsOf, DistinctOf, Stored, Same, Addrs, Distinct, ItemsOf, LeavesOf, StoredAll, Framed;
    StoredAllJoin(m, ts, [x]);
    AddrsJoin(ts, [x]);
    ItemsJoin(ts, [x]);
    LeavesJoin(ts, [x]);
    StoredAllAddrs(m, [x]);
    Outside(m, m', AddrsOf(ts), AddrsOf(r), AddrsOf([x]));
    StoredAllFrame(m, m', [x]);
    StoredAllJoin(m', r, [x]);
    AddrsJoin(r, [x]);
    ItemsJoin(r, [x]);
    LeavesJoin(r, [x]);
  }

  lemma BuildingParts(c: Config, levels: seq<NodeState>, counts: seq<nat>, parts: seq<seq<Tree>>, level: nat, base: nat)
    requires base <= level < |levels| && Building(c, levels, counts, parts, level + 1, base)
    ensures |parts| == |levels| == |counts| && Building(c, levels, counts, parts, level, base)
    ensures Level(c, levels[level], parts[level], |levels| - 1 - level) && 2 <= counts[level]
    ensures level == base ==> levels[level].index == 0 && counts[level] <= c.ib
                              && levels[level].bbpoint == (if base == 0 then 1 else 0)
                              && levels[level].fillFactor == (if base == 0 then c.ib else counts[level])
    ensures base < level ==> Spread(c, levels[level], counts[level], counts[level - 1]) && levels[level].index == Pushed(levels[level - 1], parts[level - 1])
  {
    hide Level, Pushed;
    if base < level {
      assert Spread(c, levels[level], counts[level], counts[level - 1]);
    }
  }

  /** The levels up to `level`, after those above it and then itself have taken a child. */
  lemma BuildingNext(c: Config, levels: seq<NodeState>, counts: seq<nat>, parts: seq<seq<Tree>>, level: nat, base: nat, s: NodeState, part: seq<Tree>)
    requires base <= level < |levels| && Building(c, levels, counts, parts, level, base) && Level(c, s, part, |levels| - 1 - level)
    requires s.fillFactor == levels[level].fillFactor && s.bbpoint == levels[level].bbpoint
    requires s.index == if level == base then 0 else Pushed(levels[level - 1], parts[level - 1])
    ensures Building(c, levels[level := s], counts, parts[level := part], level + 1, base)
  {
    hide Level, Pushed;
    var levels', parts' := levels[level := s], parts[level := part];
    forall l | base < l < |levels| ensures Spread(c, levels'[l], counts[l], counts[l - 1]) {
      assert Spread(c, levels[l], counts[l], counts[l - 1]);
    }
  }

  /** The level when a child is added to its node. */
  lemma LevelMore(c: Config, s: NodeState, t: Tree, h: nat, x: Tree, key: int)
    requires Level(c, s, [t], h) && s.node.To? && |t.kids| < Target(s) && Ok(c, x, h, c.Lower(h), c.Upper(h)) && Starts(x, key)
    ensures var v := Inner(t.at, t.keys + [key], t.kids + [x]); Level(c, s, [v], h) && Pushed(s, [v]) == Pushed(s, [t]) + 1
  {
  }

  /** The level when it opens a new node. */
  lemma LevelNew(c: Config, s: NodeState, h: nat, p: Ptr, x: Tree, key: int)
    requires Ok(c, x, h, c.Lower(h), c.Upper(h)) && Starts(x, key) && 1 <= Target(s) && s.node == To(p) && s.firstKey == key
    ensures Level(c, s, [Inner(p, [], [x])], h) && Pushed(s, [Inner(p, [], [x])]) == Taken(s.fillFactor, s.bbpoint, s.index) + 1
  {
  }

  /** A complete node. */
  lemma Complete(c: Config, s: NodeState, t: Tree, h: nat, children: nat, nodes: nat)
    requires Level(c, s, [t], h) && s.node.To? && |t.kids| == Target(s) && Spread(c, s, children, nodes)
    ensures Ok(c, t, h + 1, c.Lower(h + 1), c.Upper(h + 1)) && Starts(t, s.firstKey)
  {
  }

  lemma CompleteRoot(c: Config, s: NodeState, t: Tree, h: nat, n: nat)
    requires Level(c, s, [t], h) && s.node.To? && |t.kids| == n && 2 <= n <= c.ib
    ensures Ok(c, t, h + 1, 2, c.ib)
  {
  }

  /** The test whether the child goes to a new node. */
  method NeedsNode(mem: Memory, s: NodeState) returns (full: bool)
    requires s.node.To? ==> s.node.p in mem.cells && mem.cells[s.node.p].InnerCell?
    ensures full <==> s.node.Null? || |mem.cells[s.node.p].kids| == Target(s)
  {
    if s.node.Null? {
      full := true;
    } else {
      var n := |mem.cells[s.node.p].kids|;
      full := (s.index < s.bbpoint && n == s.fillFactor + 1) || (s.index >= s.bbpoint && n == s.fillFactor);
    }
  }

  /** The node under construction, as it is stored. */
  lemma NodeCell(m: map<Ptr, Cell>, c: Config, s: NodeState, part: seq<Tree>, h: nat, ts: seq<Tree>, x: Tree)
    requires Level(c, s, part, h) && StoredAll(m, ts + part + [x]) && DistinctOf(ts + part + [x]) && s.node.To?
    ensures |part| == 1 && part[0].Inner? && part[0].at == s.node.p && s.node.p in m
    ensures m[s.node.p] == InnerCell(part[0].keys, Ats(part[0].kids)) && |m[s.node.p].kids| == |part[0].kids|
  {
    hide Forest, StoredAll, DistinctOf;
    var t := part[0];
    assert part == [t];
    Parts3(m, ts, t, x);
    Unfold(m, t);
  }

  lemma GrewParts(m: map<Ptr, Cell>, m': map<Ptr, Cell>, ts: seq<Tree>, r: seq<Tree>)
    requires Grew(m, m', ts, r)
    ensures StoredAll(m', r) && DistinctOf(r)
  {
  }

  lemma GrewNone(m: map<Ptr, Cell>, ts: seq<Tree>)
    requires StoredAll(m, ts) && DistinctOf(ts)
    ensures Grew(m, m, ts, ts)
  {
    hide Stored;
    StoredAllAddrs(m, ts);
  }

  lemma Front(m: map<Ptr, Cell>, ts: seq<Tree>, x: Tree)
    requires StoredAll(m, ts + [x]) && DistinctOf(ts + [x])
    ensures StoredAll(m, ts) && DistinctOf(ts)
  {
    hide Stored, AddrsOf, Distinct;
    StoredAllJoin(m, ts, [x]);
    AddrsJoin(ts, [x]);
  }

  /** A level that has no node, or whose node is complete, is not at its last child, and the level above has room. */
  lemma NotLast(c: Config, levels: seq<NodeState>, counts: seq<nat>, parts: seq<seq<Tree>>, level: nat, base: nat)
    requires c.Valid() && base <= level < |levels| && Building(c, levels, counts, parts, level + 1, base)
    requires Pushed(levels[level], parts[level]) < counts[level]
    requires levels[level].node.Null? || |parts[level][0].kids| == Target(levels[level])
    ensures Pushed(levels[level], parts[level]) < counts[level] - 1
    ensures levels[level].node.To? ==> base < level && Pushed(levels[level - 1], parts[level - 1]) < counts[level - 1] - 1
  {
    hide Building, Forest, Taken;
    BuildingParts(c, levels, counts, parts, level, base);
    var s := levels[level];
    if s.node.To? {
      if level == base {
        NoneTaken(s.fillFactor, s.bbpoint);
      } else {
        NotDone(c, s, |parts[level][0].kids|, counts[level], counts[level - 1]);
      }
    } else {
      NoneTaken(s.fillFactor, s.bbpoint);
    }
  }

  /** A level that has room is at its last child exactly when this completes its node and the level above
      is at its last child too. */
  lemma AtLast(c: Config, levels: seq<NodeState>, counts: seq<nat>, parts: seq<seq<Tree>>, level: nat, base: nat)
    requires c.Valid() && base < level < |levels| && Building(c, levels, counts, parts, level + 1, base)
    requires levels[level].node.To? && |parts[level][0].kids| != Target(levels[level])
    requires level < |counts| && Pushed(levels[level], parts[level]) + 1 == counts[level]
    ensures |parts[level][0].kids| + 1 == Target(levels[level]) && Pushed(levels[level - 1], parts[level - 1]) == counts[level - 1] - 1
  {
    hide Building, Forest, Taken;
    BuildingParts(c, levels, counts, parts, level, base);
    NotDone(c, levels[level], |parts[level][0].kids|, counts[level], counts[level - 1]);
  }

  lemma PushedNext(s: NodeState, t: Tree)
    requires t.Inner? && |t.kids| == Target(s)
    ensures Pushed(s, [t]) == Taken(s.fillFactor, s.bbpoint, s.index + 1)
  {
  }

  lemma LevelSome(c: Config, s: NodeState, t: Tree, h: nat)
    requires Level(c, s, [t], h) && s.node.To?
    ensures t.Inner? && t.at == s.node.p && 1 <= |t.kids| <= Target(s)
  {
  }

  /** The root takes all its children itself. */
  lemma RootTaken(s: NodeState, t: Tree, v: Tree)
    requires s.index == 0 && t.Inner? && v.Inner? && |v.kids| == |t.kids| + 1
    ensures Flat([]) == [] && Pushed(s, [t]) == |t.kids|
  {
  }

  lemma LevelNone(c: Config, s: NodeState, part: seq<Tree>, h: nat)
    requires Level(c, s, part, h) && s.node.Null?
    ensures part == [] && s.index == 0 && Pushed(s, part) == 0 == Taken(s.fillFactor, s.bbpoint, s.index)
  {
  }

  lemma HasTarget(c: Config, s: NodeState, s': NodeState, children: nat, nodes: nat)
    requires c.Valid() && (1 <= s.fillFactor || Spread(c, s, children, nodes)) && s'.fillFactor == s.fillFactor
    ensures 1 <= Target(s')
  {
  }

  /** The level is to be handed the child `x`, and this is its last one exactly if `last` says so. */
  ghost predicate Ready(m: map<Ptr, Cell>, c: Config, levels: seq<NodeState>, level: int, child: Ptr, key: int, last: bool,
                        counts: seq<nat>, parts: seq<seq<Tree>>, x: Tree, base: nat) {
    && base <= level < |levels| && Building(c, levels, counts, parts, level + 1, base)
    && x.at == child && Starts(x, key)
    && (var h := |levels| - 1 - level; Ok(c, x, h, c.Lower(h), c.Upper(h)))
    && (var n := Pushed(levels[level], parts[level]); n < counts[level] && (last <==> n == counts[level] - 1))
    && StoredAll(m, Flat(parts[..level + 1]) + [x]) && DistinctOf(Flat(parts[..level + 1]) + [x])
  }

  /** The level has been handed the child: it is one of the nodes under construction `r`; the last child of
      all has completed the tree. */
  ghost predicate Handed(m0: map<Ptr, Cell>, m: map<Ptr, Cell>, c: Config, levels0: seq<NodeState>, levels: seq<NodeState>, level: nat, last: bool,
                         counts: seq<nat>, parts0: seq<seq<Tree>>, parts: seq<seq<Tree>>, x: Tree, base: nat, r: seq<Tree>)
    requires level < |levels0| == |parts0|
  {
    && |levels| == |levels0| && |parts| == |parts0| && parts[level + 1..] == parts0[level + 1..]
    && (!last || base == 0 ==> Grew(m0, m, Flat(parts0[..level + 1]) + [x], r))
    && (!last ==> && Building(c, levels, counts, parts, level + 1, base) && r == Flat(parts[..level + 1])
                  && Pushed(levels[level], parts[level]) == Pushed(levels0[level], parts0[level]) + 1)
    && (last && base == 0 ==> |r| == 1 && levels[0].node == To(r[0].at) && Ok(c, r[0], |levels|, 2, c.ib))
    && (last && 0 < base ==> Topless(m, levels, base))
  }

  /** Handing a child to a level: it joins the node under construction there; if that one is complete, it
      is handed to the level above and the child opens a new node. The last child of all completes the
      node on each level, up to the root. Above the topmost level there is nothing to hand a node to. */
  method Propagate(mem: Memory, c: Config, levels0: seq<NodeState>, level: int, child: Ptr, key: int, last: bool,
                   ghost mode: Mode, ghost counts: seq<nat>, ghost parts0: seq<seq<Tree>>, ghost x: Tree)
    returns (ok: bool, levels: seq<NodeState>, ghost parts: seq<seq<Tree>>, ghost r: seq<Tree>)
    requires c.Valid() && -1 <= level < |levels0| && Safe(mem.cells, levels0)
    requires mode.Top? && mode.base <= level ==> Ready(mem.cells, c, levels0, level, child, key, last, counts, parts0, x, mode.base)
    requires mode.Top? && level < mode.base ==> 0 <= level == mode.base - 1 && last && forall l | 0 <= l <= level :: levels0[l].node.Null?
    modifies mem`cells
    ensures |levels| == |levels0| && levels[level + 1..] == levels0[level + 1..] && Kept(old(mem.cells), mem.cells) && LeavesKept(old(mem.cells), mem.cells)
    ensures if ok then Safe(mem.cells, levels) else mode.Loose?
    ensures mode.Top? && mode.base <= level ==>
      |parts0| == |levels0| && Handed(old(mem.cells), mem.cells, c, levels0, levels, level, last, counts, parts0, parts, x, mode.base, r)
    ensures mode.Top? && level < mode.base ==> Topless(mem.cells, levels, mode.base)
    decreases level + 1
  {
    hide Ready, Handed, Level, Building, Plan, Pushed, Target, StoredAll, DistinctOf, Flat, Ok, Starts;
    ok, levels, parts, r := true, levels0, parts0, [];
    if level < 0 {
      return false, levels, parts, r;
    }
    ghost var m, strong := mem.cells, mode.Top? && mode.base <= level;
    var s := levels[level];
    var full := NeedsNode(mem, s);
    ghost var r1 := [];
    if full {
      if strong {
        NotReady(m, c, levels, level, child, key, last, counts, parts, x, mode.base);
        r1 := Flat(parts[..level]);
      }
      if s.node.To? {
        ghost var t := x;
        if strong {
          t := parts[level][0];
          HandUp(m, c, levels, level, child, key, last, counts, parts, x, mode.base);
        }
        ok, levels, parts, r1 := Propagate(mem, c, levels, level - 1, s.node.p, s.firstKey, last, mode, counts, parts, t);
        if !ok {
          return;
        }
        s := s.(index := s.index + 1);
      }
      ghost var m1, levels1, parts1 := mem.cells, levels, parts;
      var p := mem.Allocate();
      mem.cells := mem.cells[p := InnerCell([], [child])];
      s := s.(node := To(p), firstKey := key);
      levels := levels[level := s];
      if strong {
        AfterOpen(m, m1, mem.cells, c, levels0, levels1, level, child, key, last, counts, parts0, parts1, x, mode.base, s, p, r1);
        parts, r := parts1[level := [Inner(p, [], [x])]], r1 + [Inner(p, [], [x])];
      }
    } else {
      var cell := mem.cells[s.node.p];
      mem.cells := mem.cells[s.node.p := InnerCell(cell.keys + [key], cell.kids + [child])];
      ghost var v := x;
      if strong {
        v := AfterAdd(m, mem.cells, c, levels, level, child, key, last, counts, parts, x, mode.base);
        parts, r := parts0[level := [v]], Flat(parts0[..level]) + [v];
      }
      if last && level > 0 {
        ghost var m1, parts1, r0 := mem.cells, parts, r;
        ok, levels, parts, r := Propagate(mem, c, levels, level - 1, s.node.p, s.firstKey, last, mode, counts, parts, v);
        if strong {
          AfterLast(m, m1, mem.cells, c, levels0, levels, level, key, counts, parts0, parts1, parts, x, v, mode.base, r0, r);
          if level == mode.base {
            parts := parts0;
          }
        }
      }
    }
  }

  /** The level has no node or a complete one. */
  lemma NotReady(m: map<Ptr, Cell>, c: Config, levels: seq<NodeState>, level: nat, child: Ptr, key: int, last: bool,
                 counts: seq<nat>, parts: seq<seq<Tree>>, x: Tree, base: nat)
    requires c.Valid() && level < |levels| && Ready(m, c, levels, level, child, key, last, counts, parts, x, base)
    requires levels[level].node.To? ==> levels[level].node.p in m && m[levels[level].node.p].InnerCell? && |m[levels[level].node.p].kids| == Target(levels[level])
    ensures !last && |parts| == |levels|
    ensures levels[level].node.To? ==> base < level && |parts[level]| == 1 && parts[level][0].Inner?
                                       && parts[level][0].at == levels[level].node.p && |parts[level][0].kids| == Target(levels[level])
  {
    hide Building, Level, Pushed, Target, StoredAll, DistinctOf, Ok, Starts;
    BuildingParts(c, levels, counts, parts, level, base);
    FlatNext(parts, level);
    if levels[level].node.To? {
      NodeCell(m, c, levels[level], parts[level], |levels| - 1 - level, Flat(parts[..level]), x);
    }
    NotLast(c, levels, counts, parts, level, base);
  }

  /** A complete node is handed to the level above. */
  lemma HandUp(m: map<Ptr, Cell>, c: Config, levels: seq<NodeState>, level: nat, child: Ptr, key: int, last: bool,
               counts: seq<nat>, parts: seq<seq<Tree>>, x: Tree, base: nat)
    requires c.Valid() && base < level < |levels| == |parts| && Ready(m, c, levels, level, child, key, last, counts, parts, x, base) && !last
    requires levels[level].node.To? && |parts[level]| == 1 && parts[level][0].Inner? && |parts[level][0].kids| == Target(levels[level])
    ensures Ready(m, c, levels, level - 1, levels[level].node.p, levels[level].firstKey, false, counts, parts, parts[level][0], base)
    ensures parts[level][0].at == levels[level].node.p
  {
    hide Building, Level, Pushed, Target, StoredAll, DistinctOf, Ok, Starts, Flat;
    var t := parts[level][0];
    assert parts[level] == [t];
    BuildingParts(c, levels, counts, parts, level, base);
    LevelSome(c, levels[level], t, |levels| - 1 - level);
    FlatNext(parts, level);
    NotLast(c, levels, counts, parts, level, base);
    Complete(c, levels[level], t, |levels| - 1 - level, counts[level], counts[level - 1]);
    Front(m, Flat(parts[..level]) + [t], x);
  }

  /** After a node has been opened for the child. */
  lemma AfterOpen(m: map<Ptr, Cell>, m1: map<Ptr, Cell>, m2: map<Ptr, Cell>, c: Config, levels0: seq<NodeState>, levels1: seq<NodeState>, level: nat,
                  child: Ptr, key: int, last: bool, counts: seq<nat>, parts0: seq<seq<Tree>>, parts1: seq<seq<Tree>>, x: Tree, base: nat,
                  s: NodeState, p: Ptr, r1: seq<Tree>)
    requires c.Valid() && level < |levels0| == |parts0| && Ready(m, c, levels0, level, child, key, last, counts, parts0, x, base) && !last
    requires |levels1| == |levels0| && levels1[level..] == levels0[level..]
    requires if levels0[level].node.Null? then m1 == m && levels1 == levels0 && parts1 == parts0 && r1 == Flat(parts0[..level])
             else base < level && |parts0[level]| == 1 && parts0[level][0].Inner? && |parts0[level][0].kids| == Target(levels0[level])
                  && Handed(m, m1, c, levels0, levels1, level - 1, last, counts, parts0, parts1, parts0[level][0], base, r1)
    requires p !in m1 && m2 == m1[p := InnerCell([], [child])]
    requires s == levels0[level].(index := levels0[level].index + (if levels0[level].node.Null? then 0 else 1), node := To(p), firstKey := key)
    ensures |parts1| == |levels1|
    ensures Handed(m, m2, c, levels0, levels1[level := s], level, last, counts, parts0, parts1[level := [Inner(p, [], [x])]], x, base, r1 + [Inner(p, [], [x])])
  {
    hide Grew, Forest, Ok, Starts, StoredAll, DistinctOf, Flat, Taken, Building, Level, Pushed, Spread, Target;
    var s0, h, ts, v := levels0[level], |levels0| - 1 - level, Flat(parts0[..level]), Inner(p, [], [x]);
    BuildingParts(c, levels0, counts, parts0, level, base);
    FlatNext(parts0, level);
    var part0 := parts0[level];
    if s0.node.To? {
      var t := part0[0];
      assert part0 == [t];
      GrewBeside(m, m1, ts + [t], r1, x);
      PushedNext(s0, t);
    } else {
      LevelNone(c, s0, part0, h);
      GrewNone(m, ts + part0 + [x]);
      assert ts + part0 == ts;
    }
    GrewParts(m, m1, ts + part0 + [x], r1 + [x]);
    Opened(m1, p, r1, x);
    GrewThen(m, m1, m2, ts + part0 + [x], r1 + [x], r1 + [v]);
    HasTarget(c, s0, s, counts[level], if level == 0 then 1 else counts[level - 1]);
    LevelNew(c, s, h, p, x, key);
    assert levels1[level] == levels0[level..][0] by {
      assert levels1[level] == levels1[level..][0];
    }
    BuildingNext(c, levels1, counts, parts1, level, base, s, [v]);
    var parts := parts1[level := [v]];
    FlatNext(parts, level);
    assert parts[..level] == parts1[..level];
    assert parts[level + 1..] == parts0[level + 1..] by {
      if s0.node.To? {
        assert parts1[level..] == parts0[level..];
        assert parts1[level..][1..] == parts0[level..][1..];
      }
    }
  }

  /** After the child has joined the node of the level. */
  lemma AfterAdd(m: map<Ptr, Cell>, m1: map<Ptr, Cell>, c: Config, levels: seq<NodeState>, level: nat, child: Ptr, key: int, last: bool,
                 counts: seq<nat>, parts: seq<seq<Tree>>, x: Tree, base: nat) returns (v: Tree)
    requires c.Valid() && level < |levels| && Ready(m, c, levels, level, child, key, last, counts, parts, x, base)
    requires levels[level].node.To? && levels[level].node.p in m && m[levels[level].node.p].InnerCell?
    requires var cell := m[levels[level].node.p]; |cell.kids| != Target(levels[level]) && m1 == m[levels[level].node.p := InnerCell(cell.keys + [key], cell.kids + [child])]
    ensures |parts| == |levels| && v.at == levels[level].node.p
    ensures Grew(m, m1, Flat(parts[..level + 1]) + [x], Flat(parts[..level]) + [v])
    ensures !last ==> Handed(m, m1, c, levels, levels, level, last, counts, parts, parts[level := [v]], x, base, Flat(parts[..level]) + [v])
    ensures last && level == base ==> Ok(c, v, |levels| - level, 2, c.ib) && (level == 0 ==> Flat(parts[..level]) + [v] == [v])
    ensures last && base < level ==> Ready(m1, c, levels, level - 1, v.at, levels[level].firstKey, last, counts, parts[level := [v]], v, base)
    ensures last && base == 0 == level ==> Handed(m, m1, c, levels, levels, level, last, counts, parts, parts[level := [v]], x, base, Flat(parts[..level]) + [v])
    ensures forall l | 0 <= l < base :: levels[l].node.Null?
  {
    hide Grew, Forest, Ok, Starts, StoredAll, DistinctOf, Flat, Taken, Building, Level, Pushed, Spread, Target;
    BuildingParts(c, levels, counts, parts, level, base);
    var s, h, ts := levels[level], |levels| - 1 - level, Flat(parts[..level]);
    BuildingBelow(c, levels, counts, parts, level, base);
    FlatNext(parts, level);
    NodeCell(m, c, s, parts[level], h, ts, x);
    var t := parts[level][0];
    assert parts[level] == [t];
    v := Inner(t.at, t.keys + [key], t.kids + [x]);
    Appended(m, ts, t, x, key);
    LevelSome(c, s, t, h);
    LevelMore(c, s, t, h, x, key);
    BuildingNext(c, levels, counts, parts, level, base, s, [v]);
    assert levels[level := s] == levels;
    var parts' := parts[level := [v]];
    FlatNext(parts', level);
    assert parts'[..level] == parts[..level];
    if last && level == base {
      RootTaken(s, t, v);
      CompleteRoot(c, s, v, h, counts[level]);
      if level == 0 {
        assert parts[..level] == [];
      }
    } else if last {
      BuildingParts(c, levels, counts, parts', level, base);
      AtLast(c, levels, counts, parts, level, base);
      Complete(c, s, v, h, counts[level], counts[level - 1]);
      GrewParts(m, m1, ts + [t] + [x], ts + [v]);
    }
  }

  lemma BuildingSizes(c: Config, levels: seq<NodeState>, counts: seq<nat>, parts: seq<seq<Tree>>, k: nat, base: nat)
    requires Building(c, levels, counts, parts, k, base)
    ensures |parts| == |levels| == |counts|
  {
  }

  lemma BuildingBelow(c: Config, levels: seq<NodeState>, counts: seq<nat>, parts: seq<seq<Tree>>, level: nat, base: nat)
    requires Building(c, levels, counts, parts, level, base)
    ensures forall l | 0 <= l < base :: levels[l].node.Null?
  {
  }

  /** After the last child has gone up: the levels above are complete. */
  lemma AfterLast(m: map<Ptr, Cell>, m1: map<Ptr, Cell>, m2: map<Ptr, Cell>, c: Config, levels0: seq<NodeState>, levels: seq<NodeState>, level: nat,
                  key: int, counts: seq<nat>, parts0: seq<seq<Tree>>, parts1: seq<seq<Tree>>, parts: seq<seq<Tree>>, x: Tree, v: Tree, base: nat,
                  r0: seq<Tree>, r: seq<Tree>)
    requires 0 < level < |levels0| == |parts0| && |levels| == |levels0| && base <= level && parts1 == parts0[level := [v]]
    requires r0 == Flat(parts0[..level]) + [v] && Grew(m, m1, Flat(parts0[..level + 1]) + [x], r0)
    requires if base < level then Handed(m1, m2, c, levels0, levels, level - 1, true, counts, parts1, parts, v, base, r) else Topless(m2, levels, base)
    ensures base < level ==> Handed(m, m2, c, levels0, levels, level, true, counts, parts0, parts, x, base, r)
    ensures base == level ==> Handed(m, m2, c, levels0, levels, level, true, counts, parts0, parts0, x, base, r)
  {
    hide Grew, Ok, Flat, Topless, Building, Pushed;
    if base < level {
      assert parts1[..level] == parts0[..level];
      assert parts1[..level - 1 + 1] == parts1[..level];
      assert parts[level + 1..] == parts[level..][1..] && parts1[level..][1..] == parts0[level + 1..];
      if base == 0 {
        GrewThen(m, m1, m2, Flat(parts0[..level + 1]) + [x], r0, r);
      }
    }
  }

  function Pow(b: nat, e: nat): (p: nat) {
    if e == 0 then 1 else b * Pow(b, e - 1)
  }

  /** The number of levels of inner nodes above so many leaves is right: ceil(log(n) / log(b)), exactly. */
  ghost predicate RightLevels(n: nat, b: nat, levels: nat) {
    1 <= levels && Pow(b, levels - 1) < n <= Pow(b, levels)
  }

  /** In doubles, log(125) / log(5) is above 3 and rounds up to 4. */
  lemma LevelTooMany()
    ensures RightLevels(125, 5, 3) && !RightLevels(125, 5, 4)
  {
    assert Pow(5, 1) == 5 && Pow(5, 2) == 25 && Pow(5, 3) == 125;
  }

  /** Entries spread evenly over as few nodes as possible meet the bounds. */
  lemma Evenly(a: nat, b: nat, n: nat)
    requires 2 <= a && 2 * a <= b < n
    ensures var nodes := CeilDiv(n, b);
            && 2 <= nodes && n == nodes * (n / nodes) + n % nodes && n % nodes < nodes
            && a <= n / nodes && n / nodes + (if n % nodes == 0 then 0 else 1) <= b
  {
    var nodes := CeilDiv(n, b);
    CeilBounds(n, b);
    EvenLower(a, b, n, nodes);
    QuotientWithin(a, b, n, nodes);
  }

  lemma EvenLower(a: nat, b: nat, n: nat, nodes: nat)
    requires 2 * a <= b < n && 1 <= nodes && (nodes - 1) * b < n <= nodes * b
    ensures 2 <= nodes && a * nodes <= n
  {
  }

  lemma QuotientWithin(a: nat, b: nat, n: nat, nodes: nat)
    requires 1 <= nodes && a * nodes <= n <= nodes * b
    ensures n == nodes * (n / nodes) + n % nodes && n % nodes < nodes
    ensures a <= n / nodes && n / nodes + (if n % nodes == 0 then 0 else 1) <= b
  {
    var q, r := n / nodes, n % nodes;
    assert n == nodes * q + r && r < nodes;
    assert (q + 1) * nodes == nodes * q + nodes && (b + 1) * nodes == nodes * b + nodes;
    Cancel(a, q, nodes);
    Cancel(q, b, nodes);
  }

  lemma Cancel(a: nat, q: nat, d: nat)
    requires a * d < (q + 1) * d
    ensures a <= q
  {
  }

  lemma CeilBounds(n: nat, b: nat)
    requires 0 < b
    ensures n <= CeilDiv(n, b) * b
    ensures 0 < n ==> 1 <= CeilDiv(n, b) && (CeilDiv(n, b) - 1) * b < n
  {
  }

  /** One level up there are that many times fewer nodes. */
  lemma LevelUp(n: nat, b: nat, e: nat)
    requires 2 <= b && 1 <= n
    ensures 1 <= CeilDiv(n, b) && (CeilDiv(n, b) <= Pow(b, e) <==> n <= Pow(b, e + 1))
  {
    var q := CeilDiv(n, b);
    CeilBounds(n, b);
    if q <= Pow(b, e) {
      Powers.MulLe(q, Pow(b, e), b);
    } else {
      Powers.MulLe(Pow(b, e), q - 1, b);
    }
  }

  /** All children in one node. */
  lemma OneNode(n: nat, b: nat)
    requires 1 <= n <= b
    ensures CeilDiv(n, b) == 1 && n / 1 == n && n % 1 == 0
  {
    CeilBounds(n, b);
    if 2 <= CeilDiv(n, b) {
      Powers.MulLe(1, CeilDiv(n, b) - 1, b);
    }
  }

  /** What the plan amounts to, given how many levels there are. */
  ghost predicate Planned(c: Config, levels: seq<NodeState>, numLeaves: nat, mode: Mode, counts: seq<nat>) {
    && (mode.Top? ==> Plan(c, levels, counts, mode.base) && counts[|levels| - 1] == numLeaves)
    && (mode == Top(0) <==> RightLevels(numLeaves, c.ib, |levels|))
    && (mode.Loose? ==> Pow(c.ib, |levels|) < numLeaves)
    && (forall l | 0 <= l < |levels| :: levels[l].node.Null? && levels[l].index == 0)
  }

  /** The fill factors of all levels. If there are too many levels, the topmost ones are for one node each; if
      there are too few, the root would have too many children. */
  method MakePlan(c: Config, numLeaves: nat, numLevels: nat) returns (levels: seq<NodeState>, ghost mode: Mode, ghost counts: seq<nat>)
    requires c.Valid() && 2 <= numLeaves && 1 <= numLevels
    ensures |levels| == numLevels && Planned(c, levels, numLeaves, mode, counts)
  {
    hide Pow;
    levels := seq(numLevels, _ => NodeState(Null, 0, 0, 0, 0));
    counts := seq(numLevels, _ => numLeaves);
    ghost var base: nat := numLevels - 1;
    var children := numLeaves;
    var l := numLevels - 1;
    while l > 0
      invariant 0 <= l <= numLevels - 1 && |levels| == |counts| == numLevels
      invariant counts[l] == children && counts[numLevels - 1] == numLeaves && 1 <= children
      invariant numLeaves <= Pow(c.ib, numLevels) <==> children <= Pow(c.ib, l + 1)
      invariant numLeaves <= Pow(c.ib, numLevels - 1) <==> children <= Pow(c.ib, l)
      invariant l <= base < numLevels && (if base == l then 2 <= children else children == 1 && 2 <= counts[base] <= c.ib)
      invariant l < base ==> levels[base].fillFactor == counts[base] && levels[base].bbpoint == 0
      invariant forall j | 0 <= j < numLevels :: levels[j].node.Null? && levels[j].index == 0
      invariant forall j | base < j < numLevels :: Spread(c, levels[j], counts[j], counts[j - 1])
    {
      LevelUp(children, c.ib, l - 1);
      LevelUp(children, c.ib, l);
      var nodes := CeilDiv(children, c.ib);
      if children > c.ib {
        Evenly(c.ia, c.ib, children);
        base := l - 1;
      } else {
        OneNode(children, c.ib);
      }
      levels := levels[l := levels[l].(fillFactor := children / nodes, bbpoint := children % nodes)];
      counts := counts[l - 1 := nodes];
      children := nodes;
      l := l - 1;
    }
    FirstPowers(c.ib);
    levels := levels[0 := levels[0].(fillFactor := c.ib, bbpoint := 1)];
    mode := if children <= c.ib then Top(base) else Loose;
  }

  lemma FirstPowers(b: nat)
    ensures Pow(b, 0) == 1 && Pow(b, 1) == b
  {
  }

  /** `e` leaves are complete and `len` of the first `i` pairs are in the current one. */
  ghost predicate Filled(ff: nat, bb: nat, e: nat, i: nat, len: nat) {
    i == Taken(ff, bb, e) + len && len <= if e < bb then ff + 1 else ff
  }

  /** The test whether the current leaf is full, and the size it is then given. */
  lemma LeafFull(ff: nat, mod: nat, e: nat, i: nat, len: nat)
    requires 1 <= ff && Filled(ff, mod, e, i, len)
    ensures var bbpoint := mod * (ff + 1);
            && ((i < bbpoint && len > ff) || (i >= bbpoint && len >= ff) <==> len == if e < mod then ff + 1 else ff)
            && (len == (if e < mod then ff + 1 else ff) ==> len == if i <= bbpoint then ff + 1 else ff)
  {
    assert mod * (ff + 1) == Taken(ff, mod, mod);
    TakenNext(ff, mod, e);
    if e < mod {
      TakenLe(ff, mod, e + 1, mod);
      Powers.MulLe(0, mod - (e + 1), ff);
    } else {
      TakenLe(ff, mod, mod, e);
      Powers.MulLe(0, e - mod, ff);
    }
  }

  lemma NoneFilled(ff: nat, bb: nat)
    ensures Filled(ff, bb, 0, 0, 0)
  {
  }

  lemma OneFilled(ff: nat, bb: nat, e: nat, i: nat, len: nat)
    requires Filled(ff, bb, e, i, len) && len < if e < bb then ff + 1 else ff
    ensures Filled(ff, bb, e, i + 1, len + 1)
  {
  }

  lemma IsEven(c: Config, ff: nat, mod: nat, leaves: nat, size: nat)
    requires mod < leaves && size == leaves * ff + mod && c.la <= ff && ff + (if mod == 0 then 0 else 1) <= c.lb
    ensures EvenLeaves(c, ff, mod, leaves, size)
  {
  }

  /** The leaves are filled evenly. */
  ghost predicate EvenLeaves(c: Config, ff: nat, mod: nat, leaves: nat, size: nat) {
    mod < leaves && size == leaves * ff + mod && c.la <= ff && ff + (if mod == 0 then 0 else 1) <= c.lb
  }

  lemma MoreToCome(c: Config, ff: nat, mod: nat, leaves: nat, size: nat, e: nat, i: nat, len: nat)
    requires 1 <= c.la && Filled(ff, mod, e, i, len) && EvenLeaves(c, ff, mod, leaves, size) && e < leaves && i <= size
    ensures 1 <= ff && c.la <= ff <= c.lb && c.la <= (if e < mod then ff + 1 else ff) <= c.lb && len <= (if e < mod then ff + 1 else ff)
    ensures i < size && len == (if e < mod then ff + 1 else ff) ==> e + 1 < leaves && Filled(ff, mod, e + 1, i, 0)
    ensures i == size ==> e + 1 == leaves && len == ff
  {
    TakenNext(ff, mod, e);
    LeftOver(ff, mod, e, leaves);
  }

  lemma {:induction false} LeafCells(m: map<Ptr, Cell>, ts: seq<Tree>)
    requires StoredAll(m, ts)
    ensures forall p | p in LeavesOf(ts) :: p in m && m[p].LeafCell?
    decreases ts
  {
    if ts != [] {
      LeafCellsOf(m, ts[0]);
      LeafCells(m, ts[1..]);
    }
  }

  lemma {:induction false} LeafCellsOf(m: map<Ptr, Cell>, t: Tree)
    requires Stored(m, t)
    ensures forall p | p in Leaves(t) :: p in m && m[p].LeafCell?
    decreases t, 0
  {
    if t.Inner? {
      LeafCells(m, t.kids);
    }
  }

  /** The finished leaves and nodes in memory, with an unfinished leaf chained behind them. */
  ghost predicate Filling(mem: Memory, leaf: Ptr, ts: seq<Tree>)
    reads mem
  {
    && StoredAll(mem.cells, ts) && DistinctOf(ts) && leaf in mem.cells && leaf !in AddrsOf(ts)
    && mem.cells.Keys == AddrsOf(ts) + {leaf} && Linked(mem.next, mem.prev, LeavesOf(ts) + [leaf])
  }

  lemma LeafDone(m: map<Ptr, Cell>, ts: seq<Tree>, leaf: Ptr, items: seq<Pair>)
    requires StoredAll(m, ts) && DistinctOf(ts) && leaf in m && leaf !in AddrsOf(ts) && m.Keys == AddrsOf(ts) + {leaf}
    ensures var x := Leaf(leaf, items);
            && StoredAll(m[leaf := LeafCell(items)], ts + [x]) && DistinctOf(ts + [x]) && AddrsOf(ts + [x]) == m.Keys
            && ItemsOf(ts + [x]) == ItemsOf(ts) + items && LeavesOf(ts + [x]) == LeavesOf(ts) + [leaf]
  {
    hide AddrsOf, DistinctOf, ItemsOf, LeavesOf, StoredAll, Same;
    var x, m' := Leaf(leaf, items), m[leaf := LeafCell(items)];
    SameElsewhere(m, m', leaf, AddrsOf(ts));
    StoredAllFrame(m, m', ts);
    StoredOne(m', x);
    StoredAllJoin(m', ts, [x]);
    AddrsJoin(ts, [x]);
    ItemsJoin(ts, [x]);
    LeavesJoin(ts, [x]);
    One(x);
  }

  /** The leaf under construction and the levels above it: the leaf is a leaf in memory, and what is known of
      the levels. */
  ghost predicate Held(mem: Memory, c: Config, levels: seq<NodeState>, leaf: Ptr, mode: Mode, counts: seq<nat>, parts: seq<seq<Tree>>, e: nat)
    reads mem
  {
    && 1 <= |levels| && Safe(mem.cells, levels) && leaf in mem.cells && mem.cells[leaf].LeafCell?
    && (mode.Top? ==>
          && |parts| == |levels| == |counts| && Building(c, levels, counts, parts, |levels|, mode.base)
          && Pushed(levels[|levels| - 1], parts[|levels| - 1]) == e < counts[|levels| - 1] && Filling(mem, leaf, Flat(parts)))
  }

  lemma HeldParts(mem: Memory, c: Config, levels: seq<NodeState>, leaf: Ptr, mode: Mode, counts: seq<nat>, parts: seq<seq<Tree>>, e: nat)
    requires Held(mem, c, levels, leaf, mode, counts, parts, e)
    ensures 1 <= |levels| && leaf in mem.cells && mem.cells[leaf].LeafCell?
    ensures mode.Top? ==> Filling(mem, leaf, Flat(parts)) && Linked(mem.next, mem.prev, LeavesOf(Flat(parts)) + [leaf])
  {
  }

  /** The finished leaf is ready to be handed to the lowest level of inner nodes. */
  lemma LeafReady(mem: Memory, m: map<Ptr, Cell>, c: Config, levels: seq<NodeState>, leaf: Ptr, items: seq<Pair>, last: bool, mode: Mode,
                  counts: seq<nat>, parts: seq<seq<Tree>>, e: nat)
    requires Held(mem, c, levels, leaf, mode, counts, parts, e) && m == mem.cells[leaf := LeafCell(items)] && 1 <= c.la <= |items| <= c.lb
    requires mode.Top? ==> (last <==> e + 1 == counts[|levels| - 1])
    ensures 1 <= |levels| && Safe(m, levels)
    ensures mode.Top? ==> Ready(m, c, levels, |levels| - 1, leaf, items[0].0, last, counts, parts, Leaf(leaf, items), mode.base)
    ensures mode.Top? ==> |parts| == |levels| && Pushed(levels[|levels| - 1], parts[|levels| - 1]) == e
    ensures mode.Top? ==> mode.base <= |levels| - 1 && AddrsOf(Flat(parts) + [Leaf(leaf, items)]) == m.Keys && |parts| == |levels|
    ensures mode.Top? ==> ItemsOf(Flat(parts) + [Leaf(leaf, items)]) == ItemsOf(Flat(parts)) + items
                          && LeavesOf(Flat(parts) + [Leaf(leaf, items)]) == LeavesOf(Flat(parts)) + [leaf]
  {
    hide StoredAll, DistinctOf, Flat, Taken, Level, Pushed, Spread, Linked, AddrsOf, ItemsOf, LeavesOf;
    if mode.Top? {
      assert parts[..|levels| - 1 + 1] == parts;
      LeafDone(mem.cells, Flat(parts), leaf, items);
    }
  }

  /** What is left when a leaf has been handed on: one leaf more, or the whole tree. */
  ghost predicate Stacked(m: map<Ptr, Cell>, c: Config, levels: seq<NodeState>, last: bool, mode: Mode, counts: seq<nat>, parts: seq<seq<Tree>>,
                          e: nat, r: seq<Tree>, items: seq<Pair>, ls: seq<Ptr>) {
    && 1 <= |levels| && Safe(m, levels)
    && (mode.Top? && (!last || mode.base == 0) ==>
          StoredAll(m, r) && DistinctOf(r) && m.Keys == AddrsOf(r) && ItemsOf(r) == items && LeavesOf(r) == ls)
    && (mode.Top? && !last ==>
          && |parts| == |levels| == |counts| && Building(c, levels, counts, parts, |levels|, mode.base) && r == Flat(parts)
          && Pushed(levels[|levels| - 1], parts[|levels| - 1]) == e + 1)
    && (mode == Top(0) && last ==> |r| == 1 && levels[0].node == To(r[0].at) && Ok(c, r[0], |levels|, 2, c.ib))
    && (mode.Top? && 0 < mode.base && last ==> Topless(m, levels, mode.base))
  }

  /** Give a leaf its size and hand it to the lowest level of inner nodes. */
  method FinishLeaf(mem: Memory, c: Config, levels0: seq<NodeState>, leaf: Ptr, pairs: seq<Pair>, n: nat, last: bool, ghost mode: Mode,
                    ghost counts: seq<nat>, ghost parts0: seq<seq<Tree>>, ghost e: nat)
    returns (ok: bool, levels: seq<NodeState>, ghost parts: seq<seq<Tree>>, ghost r: seq<Tree>)
    requires c.Valid() && Held(mem, c, levels0, leaf, mode, counts, parts0, e) && n <= |pairs| && c.la <= n <= c.lb
    requires mode.Top? ==> (last <==> e + 1 == counts[|levels0| - 1])
    modifies mem`cells
    ensures |levels| == |levels0| && Kept(old(mem.cells), mem.cells) && (!ok ==> mode.Loose?)
    ensures HoldsPairs(mem.cells, leaf, n) && forall p | p in old(mem.cells) && p != leaf && old(mem.cells)[p].LeafCell? :: p in mem.cells && mem.cells[p] == old(mem.cells)[p]
    ensures ok ==> Stacked(mem.cells, c, levels, last, mode, counts, parts, e, r, ItemsOf(Flat(parts0)) + pairs[..n], LeavesOf(Flat(parts0)) + [leaf])
  {
    hide Held, Ready, Handed, Grew, StoredAll, DistinctOf, Flat, Taken, Level, Pushed, Spread, Linked, AddrsOf, ItemsOf, LeavesOf, Building, Safe, Ok, Topless;
    ghost var x := Leaf(leaf, pairs[..n]);
    HeldParts(mem, c, levels0, leaf, mode, counts, parts0, e);
    LeafReady(mem, mem.cells[leaf := LeafCell(pairs[..n])], c, levels0, leaf, pairs[..n], last, mode, counts, parts0, e);
    mem.cells := mem.cells[leaf := LeafCell(pairs[..n])];
    ghost var m := mem.cells;
    var l := |levels0| - 1;
    assert pairs[..n][0] == pairs[0];
    ok, levels, parts, r := Propagate(mem, c, levels0, l, leaf, pairs[0].0, last, mode, counts, parts0, x);
    if mode.Top? {
      LeafHanded(m, mem.cells, c, levels0, levels, last, counts, parts0, parts, x, mode.base, e, r);
    }
  }

  lemma HandedParts(m: map<Ptr, Cell>, m': map<Ptr, Cell>, c: Config, levels0: seq<NodeState>, levels: seq<NodeState>, level: nat, last: bool,
                    counts: seq<nat>, parts0: seq<seq<Tree>>, parts: seq<seq<Tree>>, x: Tree, base: nat, r: seq<Tree>)
    requires level < |levels0| == |parts0| && Handed(m, m', c, levels0, levels, level, last, counts, parts0, parts, x, base, r)
    ensures |levels| == |levels0| && |parts| == |parts0|
    ensures !last || base == 0 ==> Grew(m, m', Flat(parts0[..level + 1]) + [x], r)
    ensures !last ==> Building(c, levels, counts, parts, level + 1, base) && r == Flat(parts[..level + 1])
                      && Pushed(levels[level], parts[level]) == Pushed(levels0[level], parts0[level]) + 1
    ensures last && base == 0 ==> |r| == 1 && levels[0].node == To(r[0].at) && Ok(c, r[0], |levels|, 2, c.ib)
    ensures last && 0 < base ==> Topless(m', levels, base)
  {
    hide Grew, Flat, Pushed, Ok, Topless, Building;
  }

  lemma {:induction false} LeafHanded(m: map<Ptr, Cell>, m': map<Ptr, Cell>, c: Config, levels0: seq<NodeState>, levels: seq<NodeState>, last: bool, counts: seq<nat>,
                   parts0: seq<seq<Tree>>, parts: seq<seq<Tree>>, x: Tree, base: nat, e: nat, r: seq<Tree>)
    requires 1 <= |levels0| == |parts0| && Handed(m, m', c, levels0, levels, |levels0| - 1, last, counts, parts0, parts, x, base, r)
    requires m.Keys == AddrsOf(Flat(parts0) + [x]) && Pushed(levels0[|levels0| - 1], parts0[|levels0| - 1]) == e
    ensures |levels| == |levels0|
    ensures !last || base == 0 ==> StoredAll(m', r) && DistinctOf(r) && m'.Keys == AddrsOf(r)
    ensures !last || base == 0 ==> ItemsOf(r) == ItemsOf(Flat(parts0) + [x]) && LeavesOf(r) == LeavesOf(Flat(parts0) + [x])
    ensures !last ==> |parts| == |levels| == |counts| && Building(c, levels, counts, parts, |levels|, base) && r == Flat(parts)
                      && Pushed(levels[|levels| - 1], parts[|levels| - 1]) == e + 1
    ensures last && base == 0 ==> |r| == 1 && levels[0].node == To(r[0].at) && Ok(c, r[0], |levels|, 2, c.ib)
    ensures last && 0 < base ==> Topless(m', levels, base)
  {
    hide *;
    var l := |levels0| - 1;
    HandedParts(m, m', c, levels0, levels, l, last, counts, parts0, parts, x, base, r);
    assert parts0[..l + 1] == parts0;
    if !last {
      assert parts[..l + 1] == parts;
      BuildingSizes(c, levels, counts, parts, l + 1, base);
    }
    if !last || base == 0 {
      GrewKeys(m, m', Flat(parts0) + [x], r);
    }
  }

  lemma GrewKeys(m: map<Ptr, Cell>, m': map<Ptr, Cell>, ts: seq<Tree>, r: seq<Tree>)
    requires Grew(m, m', ts, r) && m.Keys == AddrsOf(ts)
    ensures m'.Keys == AddrsOf(r) && StoredAll(m', r) && DistinctOf(r) && ItemsOf(r) == ItemsOf(ts) && LeavesOf(r) == LeavesOf(ts)
  {
  }

  lemma ChainMore(next: map<Ptr, Link>, prev: map<Ptr, Link>, ls: seq<Ptr>, leaf: Ptr, p: Ptr)
    requires Linked(next, prev, ls + [leaf]) && p !in ls && p != leaf
    ensures Linked(next[leaf := To(p)][p := Null], prev[p := To(leaf)], ls + [leaf] + [p])
  {
    var a, b := ls + [leaf], ls + [leaf] + [p];
    var next', prev' := next[leaf := To(p)][p := Null], prev[p := To(leaf)];
    forall i | 0 <= i < |b| ensures b[i] in next' && b[i] in prev' && next'[b[i]] == LinkAt(b, i + 1) && prev'[b[i]] == LinkAt(b, i - 1) {
      if i < |a| {
        assert a[i] in next && prev[a[i]] == LinkAt(a, i - 1);
        if i < |ls| {
          ChainDistinct(next, prev, a, i, |ls|);
          assert next[a[i]] == LinkAt(a, i + 1);
        }
      }
    }
  }

  /** A new leaf behind the last one. */
  method NextLeaf(mem: Memory, leaf: Ptr, ghost proper: bool, ghost ts: seq<Tree>, ghost ls: seq<Ptr>) returns (p: Ptr)
    requires proper ==> StoredAll(mem.cells, ts) && DistinctOf(ts) && mem.cells.Keys == AddrsOf(ts)
    requires proper ==> LeavesOf(ts) == ls + [leaf] && Linked(mem.next, mem.prev, LeavesOf(ts))
    modifies mem
    ensures p !in old(mem.cells) && mem.cells == old(mem.cells)[p := LeafCell([])]
    ensures proper ==> Filling(mem, p, ts)
  {
    hide Linked, StoredAll, DistinctOf, AddrsOf, LeavesOf, Same;
    p := mem.Allocate();
    ghost var m := mem.cells;
    if proper {
      LeafCells(mem.cells, ts);
      assert leaf in ls + [leaf];
      ChainMore(mem.next, mem.prev, ls, leaf, p);
      SameAfterNew(m, m[p := LeafCell([])], p, AddrsOf(ts));
      StoredAllFrame(m, m[p := LeafCell([])], ts);
    }
    mem.cells := mem.cells[p := LeafCell([])];
    mem.prev := mem.prev[p := To(leaf)];
    mem.next := mem.next[leaf := To(p)][p := Null];
  }

  method SingleLeaf(mem: Memory, c: Config, elements: seq<Pair>) returns (root: Ptr, ghost t: Tree)
    requires c.Valid() && Sorted(elements) && mem.cells == map[] && |elements| <= c.lb
    modifies mem
    ensures t == Leaf(root, elements) && root in mem.cells && mem.cells[root] == LeafCell(elements) && Whole(mem, c, t, 0) && mem.cells.Keys == Addrs(t) && Items(t) == elements
  {
    root := mem.Allocate();
    mem.cells, mem.next, mem.prev := map[root := LeafCell(elements)], map[root := Null], map[root := Null];
    t := Leaf(root, elements);
    assert Leaves(t) == [root];
  }

  lemma NothingBuilt(mem: Memory, c: Config, levels: seq<NodeState>, mode: Mode, counts: seq<nat>, parts: seq<seq<Tree>>, leaf: Ptr)
    requires 1 <= |levels| == |parts| && (forall l | 0 <= l < |levels| :: levels[l].node.Null? && levels[l].index == 0 && parts[l] == [])
    requires mode.Top? ==> Plan(c, levels, counts, mode.base) && 1 <= counts[|levels| - 1]
    requires mem.cells == map[leaf := LeafCell([])] && mem.next == map[leaf := Null] && mem.prev == map[leaf := Null]
    ensures Held(mem, c, levels, leaf, mode, counts, parts, 0) && ItemsOf(Flat(parts)) == []
  {
    FlatNone(parts);
    assert LeavesOf([]) + [leaf] == [leaf];
  }

  lemma {:induction false} FlatNone(parts: seq<seq<Tree>>)
    requires forall l | 0 <= l < |parts| :: parts[l] == []
    ensures Flat(parts) == []
  {
    if parts != [] {
      FlatNone(parts[..|parts| - 1]);
    }
  }

  lemma Loaded(mem: Memory, c: Config, t: Tree, h: nat, elements: seq<Pair>)
    requires c.Valid() && 1 <= h && Ok(c, t, h, 2, c.ib) && StoredAll(mem.cells, [t]) && DistinctOf([t]) && mem.cells.Keys == AddrsOf([t])
    requires ItemsOf([t]) == elements && Sorted(elements) && Linked(mem.next, mem.prev, LeavesOf([t]))
    ensures Whole(mem, c, t, h) && mem.cells.Keys == Addrs(t) && Items(t) == elements
  {
    hide Linked, AddrsOf, LeavesOf, ItemsOf, DistinctOf, Ok, Sorted, Leaves, Items, Addrs, Distinct;
    One(t);
    LeafCells(mem.cells, [t]);
    assert Stored(mem.cells, [t][0]);
  }

  lemma AddedPair(elements: seq<Pair>, i: nat, before: seq<Pair>, pairs: seq<Pair>)
    requires i < |elements| && elements[..i] == before + pairs
    ensures elements[..i + 1] == before + (pairs + [elements[i]])
  {
  }

  /** When the current leaf is full, finish it and start the next one. */
  method NextIfFull(mem: Memory, c: Config, levels0: seq<NodeState>, current0: Ptr, pairs0: seq<Pair>, i: nat, ff: nat, mod: nat,
                    ghost mode: Mode, ghost counts: seq<nat>, ghost parts0: seq<seq<Tree>>, ghost e0: nat, ghost size: nat, ghost numLeaves: nat)
    returns (ok: bool, levels: seq<NodeState>, current: Ptr, pairs: seq<Pair>, ghost parts: seq<seq<Tree>>, ghost e: nat)
    requires c.Valid() && Held(mem, c, levels0, current0, mode, counts, parts0, e0) && (mode.Top? ==> counts[|levels0| - 1] == numLeaves)
    requires e0 < numLeaves && Filled(ff, mod, e0, i, |pairs0|) && EvenLeaves(c, ff, mod, numLeaves, size) && i < size
    requires mode.Top? ==> EvenAlong(mem.cells, LeavesOf(Flat(parts0)), ff, mod) && |LeavesOf(Flat(parts0))| == e0
    modifies mem
    ensures |levels| == |levels0| && (!ok ==> mode.Loose?)
    ensures ok ==> Held(mem, c, levels, current, mode, counts, parts, e) && e < numLeaves
    ensures ok ==> Filled(ff, mod, e, i, |pairs|) && |pairs| < if e < mod then ff + 1 else ff
    ensures ok && mode.Top? ==> ItemsOf(Flat(parts)) + pairs == ItemsOf(Flat(parts0)) + pairs0
    ensures ok && mode.Top? ==> EvenAlong(mem.cells, LeavesOf(Flat(parts)), ff, mod) && |LeavesOf(Flat(parts))| == e
  {
    hide Held, Linked, StoredAll, DistinctOf, AddrsOf, LeavesOf, ItemsOf, Filling, Building, Plan, Pushed, Flat, Filled, EvenLeaves, Ok, Stacked, Safe, EvenAlong, HoldsPairs;
    ok, levels, current, pairs, parts, e := true, levels0, current0, pairs0, parts0, e0;
    var bbpoint := mod * (ff + 1);
    MoreToCome(c, ff, mod, numLeaves, size, e, i, |pairs|);
    LeafFull(ff, mod, e, i, |pairs|);
    if (i < bbpoint && |pairs| > ff) || (i >= bbpoint && |pairs| >= ff) {
      var n := if i <= bbpoint then ff + 1 else ff;
      ghost var ls, r := LeavesOf(Flat(parts)), [];
      HeldParts(mem, c, levels, current, mode, counts, parts, e);
      ghost var m0, done := mem.cells, current;
      if mode.Top? {
        LeafOutside(mem, current, Flat(parts));
      }
      ok, levels, parts, r := FinishLeaf(mem, c, levels, current, pairs, n, false, mode, counts, parts, e);
      if !ok {
        return;
      }
      StackedParts(mem.cells, c, levels, mode, counts, parts, e, r, ItemsOf(Flat(parts0)) + pairs[..n], ls + [current]);
      assert pairs[..n] == pairs;
      ghost var m := mem.cells;
      if mode.Top? {
        EvenStill(m0, m, ls, done, ff, mod);
        EvenMore(m, ls, done, ff, mod);
      }
      current := NextLeaf(mem, current, mode.Top?, r, ls);
      if mode.Top? {
        NewOutside(m, ls + [done], current, ff, mod);
        EvenStill(m, mem.cells, ls + [done], current, ff, mod);
      }
      HeldNext(mem, m, c, levels, current, mode, counts, parts, e + 1);
      e, pairs := e + 1, [];
    }
  }

  lemma NewOutside(m: map<Ptr, Cell>, ls: seq<Ptr>, leaf: Ptr, ff: nat, mod: nat)
    requires EvenAlong(m, ls, ff, mod) && leaf !in m
    ensures leaf !in ls
  {
  }

  lemma StackedParts(m: map<Ptr, Cell>, c: Config, levels: seq<NodeState>, mode: Mode, counts: seq<nat>, parts: seq<seq<Tree>>,
                     e: nat, r: seq<Tree>, items: seq<Pair>, ls: seq<Ptr>)
    requires Stacked(m, c, levels, false, mode, counts, parts, e, r, items, ls)
    ensures 1 <= |levels| && Safe(m, levels)
    ensures mode.Top? ==> StoredAll(m, r) && DistinctOf(r) && m.Keys == AddrsOf(r) && ItemsOf(r) == items && LeavesOf(r) == ls
    ensures mode.Top? ==> |parts| == |levels| == |counts| && Building(c, levels, counts, parts, |levels|, mode.base) && r == Flat(parts)
                          && Pushed(levels[|levels| - 1], parts[|levels| - 1]) == e + 1
  {
  }

  lemma HeldNext(mem: Memory, m: map<Ptr, Cell>, c: Config, levels: seq<NodeState>, leaf: Ptr, mode: Mode, counts: seq<nat>, parts: seq<seq<Tree>>, e: nat)
    requires 1 <= |levels| && Safe(m, levels) && leaf !in m && mem.cells == m[leaf := LeafCell([])]
    requires mode.Top? ==> |parts| == |levels| == |counts| && Building(c, levels, counts, parts, |levels|, mode.base)
    requires mode.Top? ==> Pushed(levels[|levels| - 1], parts[|levels| - 1]) == e < counts[|levels| - 1] && Filling(mem, leaf, Flat(parts))
    ensures Held(mem, c, levels, leaf, mode, counts, parts, e)
  {
    hide Building, Pushed, Filling, Flat;
  }

  /** The pairs go to the leaves one by one. The root is what the topmost level ends up with. */
  method FillTree(mem: Memory, c: Config, elements: seq<Pair>, levels0: seq<NodeState>, ghost mode: Mode, ghost counts: seq<nat>, ff: nat, mod: nat, ghost numLeaves: nat)
    returns (ok: bool, root: Link, ghost t: Tree)
    requires c.Valid() && Sorted(elements) && mem.cells == map[] && 1 <= |levels0| && 2 <= numLeaves
    requires Planned(c, levels0, numLeaves, mode, counts) && EvenLeaves(c, ff, mod, numLeaves, |elements|)
    modifies mem
    ensures mode == Top(0) ==> ok && root == To(t.at) && Whole(mem, c, t, |levels0|) && mem.cells.Keys == Addrs(t) && Items(t) == elements
    ensures mode == Top(0) ==> EvenAlong(mem.cells, Leaves(t), ff, mod) && |Leaves(t)| == numLeaves
    ensures mode.Top? && 0 < mode.base ==> ok && NoRoot(mem.cells, root)
  {
    hide Held, Linked, StoredAll, DistinctOf, AddrsOf, LeavesOf, ItemsOf, Items, Addrs, Filling, Building, Plan, Pushed, Flat, Filled, EvenLeaves, Ok, Sorted, Whole, Stacked, Safe, Pow, EvenAlong, HoldsPairs, Leaves;
    var size := |elements|;
    var levels := levels0;
    var current := mem.Allocate();
    mem.cells, mem.next, mem.prev := map[current := LeafCell([])], map[current := Null], map[current := Null];
    var pairs: seq<Pair>, i := [], 0;
    ghost var parts: seq<seq<Tree>>, e: nat := seq(|levels|, _ => []), 0;
    NothingBuilt(mem, c, levels, mode, counts, parts, current);
    NoneFilled(ff, mod);
    NoneAlong(mem.cells, parts, ff, mod);
    assert elements[..0] == [];
    ok, root, t := true, Null, Leaf(0, []);
    while i < size
      invariant 0 <= i <= size && |levels| == |levels0| && e < numLeaves && Held(mem, c, levels, current, mode, counts, parts, e)
      invariant Filled(ff, mod, e, i, |pairs|) && (mode.Top? ==> elements[..i] == ItemsOf(Flat(parts)) + pairs)
      invariant mode.Top? ==> EvenAlong(mem.cells, LeavesOf(Flat(parts)), ff, mod) && |LeavesOf(Flat(parts))| == e
    {
      ok, levels, current, pairs, parts, e := NextIfFull(mem, c, levels, current, pairs, i, ff, mod, mode, counts, parts, e, size, numLeaves);
      if !ok {
        return;
      }
      if mode.Top? {
        AddedPair(elements, i, ItemsOf(Flat(parts)), pairs);
      }
      OneFilled(ff, mod, e, i, |pairs|);
      pairs := pairs + [elements[i]];
      i := i + 1;
    }
    MoreToCome(c, ff, mod, numLeaves, size, e, i, |pairs|);
    HeldParts(mem, c, levels, current, mode, counts, parts, e);
    ghost var r, parts1;
    ghost var items, ls := ItemsOf(Flat(parts)) + pairs, LeavesOf(Flat(parts)) + [current];
    ghost var m0 := mem.cells;
    if mode.Top? {
      LeafOutside(mem, current, Flat(parts));
    }
    ok, levels, parts1, r := FinishLeaf(mem, c, levels, current, pairs, ff, true, mode, counts, parts, e);
    assert pairs[..ff] == pairs && elements[..i] == elements;
    if ok {
      LastStacked(mem.cells, c, levels, mode, counts, parts1, e, r, items, ls);
      root := levels[0].node;
    }
    if mode == Top(0) {
      t := r[0];
      assert r == [t];
      Loaded(mem, c, t, |levels|, elements);
      EvenStill(m0, mem.cells, LeavesOf(Flat(parts)), current, ff, mod);
      LastShort(c, ff, mod, numLeaves, size, e);
      EvenMore(mem.cells, LeavesOf(Flat(parts)), current, ff, mod);
      One(t);
    }
  }

  lemma NoneAlong(m: map<Ptr, Cell>, parts: seq<seq<Tree>>, ff: nat, mod: nat)
    requires forall l | 0 <= l < |parts| :: parts[l] == []
    ensures LeavesOf(Flat(parts)) == [] && EvenAlong(m, [], ff, mod)
  {
    FlatNone(parts);
  }

  lemma LastShort(c: Config, ff: nat, mod: nat, leaves: nat, size: nat, e: nat)
    requires EvenLeaves(c, ff, mod, leaves, size) && e + 1 == leaves
    ensures mod <= e
  {
  }

  /** There is no root, or one with a single child. */
  ghost predicate NoRoot(m: map<Ptr, Cell>, root: Link) {
    root.To? ==> root.p in m && m[root.p].InnerCell? && |m[root.p].kids| == 1
  }

  lemma LastStacked(m: map<Ptr, Cell>, c: Config, levels: seq<NodeState>, mode: Mode, counts: seq<nat>, parts: seq<seq<Tree>>,
                    e: nat, r: seq<Tree>, items: seq<Pair>, ls: seq<Ptr>)
    requires Stacked(m, c, levels, true, mode, counts, parts, e, r, items, ls)
    ensures 1 <= |levels|
    ensures mode == Top(0) ==> StoredAll(m, r) && DistinctOf(r) && m.Keys == AddrsOf(r) && ItemsOf(r) == items && LeavesOf(r) == ls
    ensures mode == Top(0) ==> |r| == 1 && levels[0].node == To(r[0].at) && Ok(c, r[0], |levels|, 2, c.ib)
    ensures mode.Top? && 0 < mode.base ==> NoRoot(m, levels[0].node)
  {
  }

  /** No tree fits under a root with a single child, and none of the right height holds too many pairs. */
  lemma NotProper(mem: Memory, c: Config, u: Tree, h: nat)
    requires Whole(mem, c, u, h) && 0 < h
    ensures !NoRoot(mem.cells, To(u.at))
  {
    InnerShape(c, u, h, 2, c.ib);
    Unfold(mem.cells, u);
  }

  lemma {:induction false} MostItems(c: Config, u: Tree, h: nat, lo: nat)
    requires Ok(c, u, h, lo, c.Upper(h))
    ensures |Items(u)| <= Pow(c.ib, h) * c.lb
    decreases h, 0
  {
    hide Pow, Items, Ok;
    FirstPowers(c.ib);
    if 0 < h {
      InnerShape(c, u, h, lo, c.Upper(h));
      MostInAll(c, u.kids, u.keys, h - 1, |u.kids|);
      RootParts(u);
      assert u.kids[..|u.kids|] == u.kids;
      PowNext(c.ib, h - 1);
      ByOneMore(|u.kids|, c.ib, Pow(c.ib, h - 1), c.lb);
    } else {
      LeafParts(c, u, lo);
    }
  }

  lemma ByOneMore(k: nat, b: nat, p: nat, l: nat)
    requires k <= b
    ensures k * (p * l) <= b * p * l
  {
    Powers.MulLe(k, b, p * l);
    assert b * p * l == b * (p * l);
  }

  lemma LeafParts(c: Config, u: Tree, lo: nat)
    requires Ok(c, u, 0, lo, c.lb)
    ensures |Items(u)| <= 1 * c.lb
  {
  }

  lemma PowNext(b: nat, e: nat)
    ensures Pow(b, e + 1) == b * Pow(b, e)
  {
  }

  lemma {:induction false} MostInAll(c: Config, ts: seq<Tree>, keys: seq<int>, h: nat, n: nat)
    requires Forest(c, ts, keys, h) && n <= |ts|
    ensures |ItemsOf(ts[..n])| <= n * (Pow(c.ib, h) * c.lb)
    decreases h, 1, n
  {
    hide Pow, Items;
    if 0 < n {
      MostInAll(c, ts, keys, h, n - 1);
      MostItems(c, ts[n - 1], h, c.Lower(h));
      assert ts[..n] == ts[..n - 1] + [ts[n - 1]];
      ItemsJoin(ts[..n - 1], [ts[n - 1]]);
      One(ts[n - 1]);
      assert (n - 1) * (Pow(c.ib, h) * c.lb) + Pow(c.ib, h) * c.lb == n * (Pow(c.ib, h) * c.lb);
    }
  }

  /** More leaves than a tree of this height can have: too many pairs for it. */
  lemma TooMany(c: Config, u: Tree, h: nat, size: nat, lo: nat)
    requires c.Valid() && Ok(c, u, h, lo, c.Upper(h)) && Pow(c.ib, h) < CeilDiv(size, c.lb)
    ensures |Items(u)| < size
  {
    MostItems(c, u, h, lo);
    CeilBounds(size, c.lb);
    Powers.MulLe(Pow(c.ib, h), CeilDiv(size, c.lb) - 1, c.lb);
  }

  /** A load with this number of levels of inner nodes can come out right: they do not matter for a single leaf. */
  ghost predicate LevelsFit(c: Config, size: nat, numLevels: nat)
    requires c.Valid()
  {
    size <= c.lb || RightLevels(CeilDiv(size, c.lb), c.ib, numLevels)
  }

  /** initialize_from_array on sorted pairs, for the number of levels computed in floating point. The result is
      a proper tree with exactly these pairs if and only if that number is right. */
  method InitializeFromArray(mem: Memory, c: Config, elements: seq<Pair>, numLevels: nat) returns (ok: bool, root: Link, height: nat, ghost t: Tree)
    requires c.Valid() && Sorted(elements) && mem.cells == map[]
    modifies mem
    ensures 1 <= height
    ensures LevelsFit(c, |elements|, numLevels) ==>
      ok && root == To(t.at) && Whole(mem, c, t, height - 1) && mem.cells.Keys == Addrs(t) && Items(t) == elements
    ensures LevelsFit(c, |elements|, numLevels) ==> FewAndEven(mem.cells, Leaves(t), |elements|, c.lb)
    ensures !LevelsFit(c, |elements|, numLevels) ==>
      forall u :: ok && Whole(mem, c, u, height - 1) ==> root != To(u.at) || |Items(u)| != |elements|
  {
    hide Linked, StoredAll, DistinctOf, AddrsOf, LeavesOf, ItemsOf, Items, Addrs, EvenLeaves, Sorted, Pow, CeilDiv, Whole, Planned, NoRoot, RightLevels, EvenAlong, FewAndEven, Leaves;
    var size := |elements|;
    ok, root, height, t := true, Null, 1, Leaf(0, []);
    if size <= c.lb {
      var leaf;
      leaf, t := SingleLeaf(mem, c, elements);
      FewOne(mem.cells, leaf, elements, c.lb);
      return true, To(leaf), 1, t;
    }
    var numLeaves := CeilDiv(size, c.lb);
    Evenly(c.la, c.lb, size);
    var ff, mod := size / numLeaves, size % numLeaves;
    IsEven(c, ff, mod, numLeaves, size);
    height := numLevels + 1;
    if numLevels == 0 {
      NoLevels(numLeaves, c.ib);
      return false, Null, height, t;
    }
    var levels;
    ghost var mode, counts;
    levels, mode, counts := MakePlan(c, numLeaves, numLevels);
    PlannedMode(c, levels, numLeaves, mode, counts);
    ok, root, t := FillTree(mem, c, elements, levels, mode, counts, ff, mod, numLeaves);
    if mode == Top(0) {
      FewEven(mem.cells, Leaves(t), size, c.lb, ff, mod);
    } else {
      forall u | ok && Whole(mem, c, u, height - 1) ensures root != To(u.at) || |Items(u)| != |elements| {
        WholeOk(mem, c, u, numLevels);
        if mode.Top? {
          if root == To(u.at) {
            NotProper(mem, c, u, numLevels);
          }
        } else {
          TooMany(c, u, numLevels, size, if numLevels == 0 then 0 else 2);
        }
      }
    }
  }

  lemma FewOne(m: map<Ptr, Cell>, leaf: Ptr, elements: seq<Pair>, most: nat)
    requires leaf in m && m[leaf] == LeafCell(elements) && |elements| <= most
    ensures FewAndEven(m, Leaves(Leaf(leaf, elements)), |elements|, most)
  {
    assert EvenAlong(m, [leaf], |elements|, 0);
  }

  lemma FewEven(m: map<Ptr, Cell>, ls: seq<Ptr>, size: nat, most: nat, ff: nat, mod: nat)
    requires 1 <= most && 1 <= size && |ls| == CeilDiv(size, most) && mod == size % |ls| && ff == size / |ls| && 1 <= |ls| && EvenAlong(m, ls, ff, mod)
    ensures FewAndEven(m, ls, size, most)
  {
    hide EvenAlong;
    CeilBounds(size, most);
    assert size == |ls| * ff + mod;
  }

  lemma NoLevels(n: nat, b: nat)
    ensures !RightLevels(n, b, 0)
  {
  }

  lemma PlannedMode(c: Config, levels: seq<NodeState>, numLeaves: nat, mode: Mode, counts: seq<nat>)
    requires Planned(c, levels, numLeaves, mode, counts)
    ensures mode == Top(0) <==> RightLevels(numLeaves, c.ib, |levels|)
    ensures mode.Loose? ==> Pow(c.ib, |levels|) < numLeaves
  {
  }

  lemma WholeOk(mem: Memory, c: Config, u: Tree, h: nat)
    requires Whole(mem, c, u, h)
    ensures Ok(c, u, h, if h == 0 then 0 else 2, c.Upper(h))
  {
  }

  /** The check whether the pairs are already in order. */
  method InOrder(elements: seq<Pair>) returns (sorted: bool)
    ensures sorted <==> Sorted(elements)
  {
    sorted := true;
    var i := 1;
    while i < |elements| && sorted
      invariant 1 <= i && (i <= |elements| || i == 1)
      invariant if sorted then forall j, k | 0 <= j < k < i && k < |elements| :: elements[j].0 <= elements[k].0
                else i <= |elements| && 2 <= i && elements[i - 1].0 < elements[i - 2].0
    {
      sorted := elements[i - 1].0 <= elements[i].0;
      i := i + 1;
    }
  }

  lemma Counted(r: seq<Pair>, p: nat, x: Pair)
    requires p <= |r|
    ensures multiset(r[..p] + [x] + r[p..]) == multiset(r + [x])
  {
    assert r == r[..p] + r[p..];
    assert multiset(r[..p] + [x] + r[p..]) == multiset(r[..p]) + multiset([x]) + multiset(r[p..]);
    assert multiset(r + [x]) == multiset(r[..p]) + multiset(r[p..]) + multiset([x]);
  }

  lemma InPlace(r: seq<Pair>, p: nat, x: Pair)
    requires Sorted(r) && p <= |r| && (0 < p ==> r[p - 1].0 <= x.0) && (p < |r| ==> x.0 < r[p].0)
    ensures Sorted(r[..p] + [x] + r[p..])
  {
  }

  /** The same pairs, each as often. */
  ghost predicate SamePairs(r: seq<Pair>, s: seq<Pair>) {
    multiset(r) == multiset(s)
  }

  lemma SameLength(r: seq<Pair>, s: seq<Pair>)
    requires SamePairs(r, s)
    ensures |r| == |s|
  {
    assert |multiset(r)| == |r| && |multiset(s)| == |s|;
  }

  lemma SameAndOne(r: seq<Pair>, s: seq<Pair>, p: nat, x: Pair)
    requires SamePairs(r, s) && p <= |r|
    ensures SamePairs(r[..p] + [x] + r[p..], s + [x])
  {
    Counted(r, p, x);
  }

  /** The sort of the standard library: some order of the same pairs by key. */
  method SortPairs(elements: seq<Pair>) returns (r: seq<Pair>)
    ensures Sorted(r) && SamePairs(r, elements)
  {
    r := [];
    var i := 0;
    assert elements[..0] == [];
    while i < |elements|
      invariant 0 <= i <= |elements| && Sorted(r) && SamePairs(r, elements[..i])
    {
      r := InsertPair(r, elements[i], elements[..i]);
      assert elements[..i + 1] == elements[..i] + [elements[i]];
      i := i + 1;
    }
    assert elements[..i] == elements;
  }

  method InsertPair(r: seq<Pair>, x: Pair, ghost s: seq<Pair>) returns (r': seq<Pair>)
    requires Sorted(r) && SamePairs(r, s)
    ensures Sorted(r') && SamePairs(r', s + [x])
  {
    hide Sorted, SamePairs;
    var p := |r|;
    while 0 < p && x.0 < r[p - 1].0
      invariant 0 <= p <= |r| && (p < |r| ==> x.0 < r[p].0)
    {
      p := p - 1;
    }
    InPlace(r, p, x);
    SameAndOne(r, s, p, x);
    r' := r[..p] + [x] + r[p..];
  }
}
