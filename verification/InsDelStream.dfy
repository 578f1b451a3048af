/** The stream of the insert/delete experiment: keys to insert, then insertions and deletions in groups, then
    look-ups and range scans with their expected sums. The numbers drawn are arbitrary. */
module InsDelStream {
  import opened Trees
  import opened TreeScan
  import opened TreeInsert
  import opened TreeMemory
  import TreeRemove
  import TreeRange
  import AbTree
  import opened RangeSums

  const LOW: nat := 0x1_0000_0000
  const INT64_MAX: int := 0x7FFF_FFFF_FFFF_FFFF
  const INT64_MIN: int := -0x8000_0000_0000_0000

  /** Bitwise or. */
  function BitOr(a: nat, b: nat): (r: nat) {
    if a == 0 then b else if b == 0 then a
    else 2 * BitOr(a / 2, b / 2) + if a % 2 == 1 || b % 2 == 1 then 1 else 0
  }

  /** The drawn number in the upper half, the counter over it. */
  function KeyOf(draw: nat, counter: nat): (k: nat) {
    BitOr(draw, counter / LOW) * LOW + counter % LOW
  }

  /** As long as the counter fits in the lower half it can be read off the key. */
  lemma KeyParts(draw: nat, counter: nat)
    requires counter < 0x1_0000_0000
    ensures KeyOf(draw, counter) == draw * 0x1_0000_0000 + counter && KeyOf(draw, counter) % LOW == counter && KeyOf(draw, counter) / LOW == draw
  {
  }

  /** Beyond that keys repeat: here the counters 0 and 2^32 give the same key. */
  lemma KeysRepeat()
    ensures KeyOf(1, 0) == KeyOf(1, 0x1_0000_0000)
  {
    assert LOW / LOW == 1 && LOW % LOW == 0;
    assert BitOr(1, 1) == 2 * BitOr(0, 0) + 1 && BitOr(0, 0) == 0;
  }

  /** The keys of a stream, for the numbers drawn. */
  function KeysOf(draws: seq<nat>): (keys: seq<int>) {
    seq(|draws|, i requires 0 <= i < |draws| => KeyOf(draws[i], i))
  }

  /** `n` numbers from the range of the distributions. */
  ghost predicate Drawn(draws: seq<nat>, n: nat, range: nat) {
    |draws| == n && forall i | 0 <= i < n :: 1 <= draws[i] <= range
  }

  ghost predicate AllDiffer(keys: seq<int>) {
    forall i, j | 0 <= i < j < |keys| :: keys[i] != keys[j]
  }

  /** The keys of a stream are all different, whatever is drawn, exactly if there are at most 2^32 of them. */
  lemma KeysDistinct(n: nat, range: nat)
    requires 1 <= range
    ensures (forall draws :: Drawn(draws, n, range) ==> AllDiffer(KeysOf(draws))) <==> n <= 0x1_0000_0000
  {
    if n <= LOW {
      forall draws | Drawn(draws, n, range) ensures AllDiffer(KeysOf(draws)) {
        forall i, j | 0 <= i < j < n ensures KeysOf(draws)[i] != KeysOf(draws)[j] {
          KeyParts(draws[i], i);
          KeyParts(draws[j], j);
        }
      }
    } else {
      var ones: seq<nat> := seq(n, _ => 1);
      KeysRepeat();
      assert Drawn(ones, n, range) && KeysOf(ones)[0] == KeysOf(ones)[LOW];
    }
  }

  lemma KeyPositive(draw: nat, counter: nat)
    requires 1 <= draw
    ensures 0 < KeyOf(draw, counter)
  {
    OrAtLeast(draw, counter / LOW);
  }

  lemma {:induction false} OrAtLeast(a: nat, b: nat)
    ensures a <= BitOr(a, b)
  {
    if a != 0 && b != 0 {
      OrAtLeast(a / 2, b / 2);
    }
  }

  /** What is live after a stream of operations: a positive number inserts, a negative one deletes. */
  ghost function Replay(ops: seq<int>): (live: set<int>) {
    if ops == [] then {} else
      var x := ops[|ops| - 1];
      if 0 < x then Replay(ops[..|ops| - 1]) + {x} else Replay(ops[..|ops| - 1]) - {-x}
  }

  /** Every insertion is of a key that is not there, every deletion of one that is. */
  ghost predicate Legal(ops: seq<int>) {
    ops == [] ||
    (var x := ops[|ops| - 1];
     Legal(ops[..|ops| - 1]) && x != 0 && if 0 < x then x !in Replay(ops[..|ops| - 1]) else -x in Replay(ops[..|ops| - 1]))
  }

  /** The inserted keys, in order. */
  ghost function Inserted(ops: seq<int>): (keys: seq<int>) {
    if ops == [] then [] else
      Inserted(ops[..|ops| - 1]) + if 0 < ops[|ops| - 1] then [ops[|ops| - 1]] else []
  }

  /** The insertions of the stream are of the keys drawn. */
  ghost predicate Keyed(ops: seq<int>, draws: seq<nat>, n: nat, range: nat) {
    Drawn(draws, n, range) && Inserted(ops) == KeysOf(draws)
  }

  lemma KeyedInsert(ops: seq<int>, draws: seq<nat>, n: nat, range: nat, draw: nat)
    requires Keyed(ops, draws, n, range) && 1 <= draw <= range
    ensures Keyed(ops + [KeyOf(draw, n)], draws + [draw], n + 1, range)
  {
    KeyPositive(draw, n);
    StepReplay(ops, KeyOf(draw, n));
    assert KeysOf(draws + [draw]) == KeysOf(draws) + [KeyOf(draw, n)];
  }

  lemma KeyedDelete(ops: seq<int>, draws: seq<nat>, n: nat, range: nat, key: int)
    requires Keyed(ops, draws, n, range) && 0 < key
    ensures Keyed(ops + [-key], draws, n, range)
  {
    StepReplay(ops, -key);
  }

  /** A live key a deletion may come down to for the number drawn: the least one that is not below the number in the
      upper half, or the greatest of all if there is none. */
  ghost predicate Picked(live: set<int>, draw: nat, key: int) {
    && key in live
    && if exists k :: k in live && draw * LOW <= k <= INT64_MAX
       then draw * LOW <= key <= INT64_MAX && forall k | k in live && draw * LOW <= k <= INT64_MAX :: key <= k
       else forall k | k in live :: k <= key
  }

  /** The deletions of the stream are of the keys picked from what is live at that point, for the numbers drawn. */
  ghost predicate Chosen(ops: seq<int>, picks: seq<nat>) {
    if ops == [] then picks == [] else
      var n := |ops| - 1;
      if 0 < ops[n] then Chosen(ops[..n], picks)
      else picks != [] && Chosen(ops[..n], picks[..|picks| - 1]) && Picked(Replay(ops[..n]), picks[|picks| - 1], -ops[n])
  }

  lemma ChosenInsert(ops: seq<int>, picks: seq<nat>, key: int)
    requires Chosen(ops, picks) && 0 < key
    ensures Chosen(ops + [key], picks)
  {
    assert (ops + [key])[..|ops|] == ops;
  }

  lemma ChosenDelete(ops: seq<int>, picks: seq<nat>, key: int, draw: nat)
    requires Chosen(ops, picks) && 0 < key && Picked(Replay(ops), draw, key)
    ensures Chosen(ops + [-key], picks + [draw])
  {
    assert (ops + [-key])[..|ops|] == ops && (picks + [draw])[..|picks|] == picks;
  }

  /** The position a search in the tree for the first key of a range comes to, or else the last one. */
  lemma Foremost(s: seq<Pair>, min: int, max: int) returns (f: nat)
    requires Sorted(s) && s != []
    ensures f < |s| && s[f].0 == var w := Within(s, min, max); if w != [] then w[0].0 else s[|s| - 1].0
    ensures if min <= s[f].0 <= max then forall i | 0 <= i < |s| && min <= s[i].0 <= max :: s[f].0 <= s[i].0
            else f == |s| - 1 && forall i | 0 <= i < |s| :: !(min <= s[i].0 <= max)
  {
    hide Within, First;
    FirstOrder(s, min);
    FirstOrder(s, max + 1);
    if min <= max {
      WithinIsSlice(s, min, max);
      f := if First(s, min) < First(s, max + 1) then First(s, min) else |s| - 1;
    } else {
      NoneWithin(s, min, max);
      f := |s| - 1;
    }
  }

  lemma FirstOrder(s: seq<Pair>, k: int)
    requires Sorted(s)
    ensures var f := First(s, k); f <= |s| && (forall i | 0 <= i < f :: s[i].0 < k) && (forall i | f <= i < |s| :: k <= s[i].0)
  {
  }

  /** What the search finds is the key to be picked. */
  lemma PickedBy(s: seq<Pair>, ops: seq<int>, counter: nat, draw: nat, key: int)
    requires Sound(s, ops, counter) && s != []
    requires var w := Within(s, draw * LOW, INT64_MAX); key == if w != [] then w[0].0 else s[|s| - 1].0
    ensures Picked(Replay(ops), draw, key)
  {
    hide Within, Replay, Legal, Inserted, First;
    var f := Foremost(s, draw * LOW, INT64_MAX);
    PickedAt(s, Replay(ops), draw, f);
  }

  lemma PickedAt(s: seq<Pair>, live: set<int>, draw: nat, f: nat)
    requires live == KeySet(s) && f < |s| && forall i, j | 0 <= i < j < |s| :: s[i].0 < s[j].0
    requires var min, max := draw * LOW, INT64_MAX;
             if min <= s[f].0 <= max then forall i | 0 <= i < |s| && min <= s[i].0 <= max :: s[f].0 <= s[i].0
             else f == |s| - 1 && forall i | 0 <= i < |s| :: !(min <= s[i].0 <= max)
    ensures Picked(live, draw, s[f].0)
  {
    forall k | k in live ensures exists i :: 0 <= i < |s| && s[i].0 == k {
      var x :| x in s && x.0 == k;
    }
    assert s[f] in s;
  }

  /** Which operations of a stream are insertions. */
  function Kinds(ops: seq<int>): (k: seq<bool>) {
    seq(|ops|, i requires 0 <= i < |ops| => 0 < ops[i])
  }

  function Times(b: bool, n: nat): (k: seq<bool>) {
    seq(n, _ => b)
  }

  /** Groups of insertions and then deletions, these at most as many as keys are live, until they add up to `total`. */
  function Groups(size: nat, total: int, ins: nat, del: nat): (k: seq<bool>)
    requires 0 < ins + del
    decreases total
  {
    if total <= 0 then []
    else Times(true, ins) + (if del <= size + ins then Times(false, del) + Groups(size + ins - del, total - ins - del, ins, del)
                             else Times(false, size + ins) + Groups(0, total - ins - del, ins, del))
  }

  lemma NothingYet()
    ensures forall k: seq<bool> :: Kinds([]) + k == k
  {
  }

  lemma KeyedParts(ops: seq<int>, draws: seq<nat>, n: nat, range: nat)
    requires Keyed(ops, draws, n, range)
    ensures Drawn(draws, n, range) && Inserted(ops) == KeysOf(draws)
  {
  }

  lemma KindsNext(ops: seq<int>, x: int, was: seq<bool>, b: bool, i: nat)
    requires Kinds(ops) == was + Times(b, i) && (0 < x) == b
    ensures Kinds(ops + [x]) == was + Times(b, i + 1)
  {
    assert Times(b, i + 1) == Times(b, i) + [b];
    assert Kinds(ops + [x]) == Kinds(ops) + [b];
  }

  lemma NoTimes(b: bool, k: seq<bool>)
    ensures k + Times(b, 0) == k
  {
  }

  /** One more group. */
  lemma GroupNext(was: seq<bool>, k: seq<bool>, k': seq<bool>, size: nat, size': nat, total: int, ins: nat, del: nat)
    requires 0 < ins + del && 0 < total && k == was + Times(true, ins)
    requires k' == k + Times(false, if del <= size + ins then del else size + ins) && size' == if del <= size + ins then size + ins - del else 0
    ensures was + Groups(size, total, ins, del) == k' + Groups(size', total - ins - del, ins, del)
  {
    hide Times;
  }

  lemma GroupsDone(was: seq<bool>, k: seq<bool>, groups: seq<bool>, size: nat, total: int, ins: nat, del: nat)
    requires 0 < ins + del && total <= 0 && was + groups == k + Groups(size, total, ins, del)
    ensures k == was + groups
  {
  }

  lemma KindsJoin(a: seq<int>, b: seq<int>)
    ensures Kinds(a + b) == Kinds(a) + Kinds(b)
  {
  }

  lemma AllInserted(a: seq<int>)
    requires forall i | 0 <= i < |a| :: 0 < a[i]
    ensures Kinds(a) == Times(true, |a|)
  {
  }

  /** The way back from `live` keys to the initial number. */
  function Restoring(live: nat, initial: nat): (k: seq<bool>) {
    if live <= initial then Times(true, initial - live) else Times(false, live - initial)
  }

  /** How many keys are live, from `size` on, once groups of insertions and deletions have added up to `total`. */
  function LiveAfter(size: nat, total: int, ins: nat, del: nat): (n: nat)
    requires 0 < ins + del
    decreases total
  {
    if total <= 0 then size else LiveAfter(if del <= size + ins then size + ins - del else 0, total - ins - del, ins, del)
  }

  /** How many keys these groups insert. */
  function InsertedBy(total: int, ins: nat, del: nat): (n: nat)
    requires 0 < ins + del
    decreases total
  {
    if total <= 0 then 0 else ins + InsertedBy(total - ins - del, ins, del)
  }

  /** How many keys a whole stream inserts. */
  function KeyCount(initial: nat, total: nat, ins: nat, del: nat, restore: bool): (n: nat)
    requires 0 < ins + del
  {
    var live := LiveAfter(initial, total, ins, del);
    initial + InsertedBy(total, ins, del) + if restore && live < initial then initial - live else 0
  }

  /** The lower half of the i-th inserted key is i. */
  ghost predicate Numbered(keys: seq<int>) {
    forall i | 0 <= i < |keys| :: keys[i] % LOW == i
  }

  lemma NumberedDistinct(keys: seq<int>)
    requires Numbered(keys)
    ensures AllDiffer(keys)
  {
  }

  lemma {:induction false} LiveInserted(ops: seq<int>, x: int)
    requires x in Replay(ops)
    ensures x in Inserted(ops)
  {
    var n := |ops| - 1;
    if x in Replay(ops[..n]) {
      LiveInserted(ops[..n], x);
    }
  }

  lemma StepReplay(ops: seq<int>, x: int)
    ensures Replay(ops + [x]) == if 0 < x then Replay(ops) + {x} else Replay(ops) - {-x}
    ensures Legal(ops + [x]) <==> Legal(ops) && x != 0 && if 0 < x then x !in Replay(ops) else -x in Replay(ops)
    ensures Inserted(ops + [x]) == Inserted(ops) + if 0 < x then [x] else []
  {
    var o := ops + [x];
    assert o[..|o| - 1] == ops;
  }

  ghost function KeySet(s: seq<Pair>): (k: set<int>) {
    set p | p in s :: p.0
  }

  /** The tree holds exactly the live keys, each once. */
  ghost predicate Agrees(s: seq<Pair>, ops: seq<int>) {
    KeySet(s) == Replay(ops) && forall i, j | 0 <= i < j < |s| :: s[i].0 < s[j].0
  }

  ghost predicate ZeroValues(s: seq<Pair>) {
    forall i | 0 <= i < |s| :: s[i].1 == 0
  }

  lemma KeySetEdited(s: seq<Pair>, t: seq<Pair>, p: nat, x: Pair, k: int)
    requires Edited(s, t, p, 0, [x])
    ensures k in KeySet(t) <==> k in KeySet(s) || k == x.0
  {
    assert s == s[..p] + s[p..];
    if k in KeySet(s) {
      var y :| y in s && y.0 == k;
      assert y in t;
    }
    if k in KeySet(t) {
      var y :| y in t && y.0 == k;
      assert y in s || y == x;
    }
    assert x in t;
  }

  /** One insertion. */
  lemma AgreesInsert(s: seq<Pair>, t: seq<Pair>, p: nat, key: int, ops: seq<int>)
    requires Agrees(s, ops) && Place(s, p, key) && Edited(s, t, p, 0, [(key, 0)]) && 0 < key && key !in KeySet(s)
    ensures Agrees(t, ops + [key])
  {
    StepReplay(ops, key);
    forall k: int ensures k in KeySet(t) <==> k in Replay(ops + [key]) {
      KeySetEdited(s, t, p, (key, 0), k);
    }
    forall i, j | 0 <= i < j < |t| ensures t[i].0 < t[j].0 {
      AscendingAt(s, t, p, key, i, j);
    }
  }

  lemma AscendingAt(s: seq<Pair>, t: seq<Pair>, p: nat, key: int, i: nat, j: nat)
    requires Place(s, p, key) && Edited(s, t, p, 0, [(key, 0)]) && key !in KeySet(s) && i < j < |t|
    requires forall a, b | 0 <= a < b < |s| :: s[a].0 < s[b].0
    ensures t[i].0 < t[j].0
  {
    if i == p {
      assert t[j] == s[j - 1] && s[j - 1].0 in KeySet(s);
    } else if j == p {
      assert t[i] == s[i] && s[i].0 in KeySet(s);
    } else {
      assert t[i] == s[if i < p then i else i - 1] && t[j] == s[if j < p then j else j - 1];
    }
  }

  lemma ZeroInsert(s: seq<Pair>, t: seq<Pair>, p: nat, key: int)
    requires ZeroValues(s) && Edited(s, t, p, 0, [(key, 0)])
    ensures ZeroValues(t) && |t| == |s| + 1
  {
    forall i | 0 <= i < |t| ensures t[i].1 == 0 {
      assert t[i] == if i < p then s[i] else if i == p then (key, 0) else s[i - 1];
    }
  }

  function Skip(i: nat, p: nat): (j: nat) {
    if i < p then i else i + 1
  }

  lemma RemovedAt(s: seq<Pair>, t: seq<Pair>, p: nat)
    requires Edited(s, t, p, 1, [])
    ensures |t| == |s| - 1 && forall i | 0 <= i < |t| :: t[i] == s[Skip(i, p)]
  {
  }

  lemma KeySetRemoved(s: seq<Pair>, t: seq<Pair>, p: nat, k: int)
    requires p < |s| && |t| == |s| - 1 && (forall i | 0 <= i < |t| :: t[i] == s[Skip(i, p)])
    requires forall a, b | 0 <= a < b < |s| :: s[a].0 < s[b].0
    ensures k in KeySet(t) <==> k in KeySet(s) && k != s[p].0
  {
    if k in KeySet(t) {
      var y :| y in t && y.0 == k;
      var i :| 0 <= i < |t| && t[i] == y;
      assert s[Skip(i, p)] in s;
    }
    if k in KeySet(s) && k != s[p].0 {
      var y :| y in s && y.0 == k;
      var i :| 0 <= i < |s| && s[i] == y;
      var j := if i < p then i else i - 1;
      assert t[j] == s[Skip(j, p)] && t[j] in t;
    }
  }

  /** One deletion. */
  lemma AgreesDelete(s: seq<Pair>, t: seq<Pair>, p: nat, key: int, ops: seq<int>)
    requires Agrees(s, ops) && p < |s| && s[p].0 == key && Edited(s, t, p, 1, []) && 0 < key
    ensures Agrees(t, ops + [-key]) && key in Replay(ops)
  {
    hide KeySet, Replay, Edited;
    RemovedAt(s, t, p);
    StepReplay(ops, -key);
    HasKeySet(s, p);
    forall k: int ensures k in KeySet(t) <==> k in Replay(ops + [-key]) {
      KeySetRemoved(s, t, p, k);
    }
  }

  lemma HasKeySet(s: seq<Pair>, p: nat)
    requires p < |s|
    ensures s[p].0 in KeySet(s)
  {
    assert s[p] in s;
  }

  lemma ZeroDelete(s: seq<Pair>, t: seq<Pair>, p: nat)
    requires ZeroValues(s) && Edited(s, t, p, 1, [])
    ensures ZeroValues(t) && |t| == |s| - 1
  {
    forall i | 0 <= i < |t| ensures t[i].1 == 0 {
      assert t[i] == s[if i < p then i else i + 1];
    }
  }

  /** The set of keys has as many elements as there are pairs. */
  lemma {:induction false} KeySetSize(s: seq<Pair>)
    requires forall i, j | 0 <= i < j < |s| :: s[i].0 < s[j].0
    ensures |KeySet(s)| == |s|
  {
    if s != [] {
      hide KeySet;
      var n := |s| - 1;
      KeySetSize(s[..n]);
      KeySetStep(s);
    }
  }

  lemma KeySetStep(s: seq<Pair>)
    requires s != [] && forall i, j | 0 <= i < j < |s| :: s[i].0 < s[j].0
    ensures var n := |s| - 1;
            KeySet(s) == KeySet(s[..n]) + {s[n].0} && s[n].0 !in KeySet(s[..n])
  {
    var n := |s| - 1;
    forall x | x in s ensures x.0 in KeySet(s[..n]) + {s[n].0} {
      var i :| 0 <= i < |s| && s[i] == x;
      assert i < n ==> s[..n][i] == x;
    }
    forall x | x in s[..n] ensures x in s && x.0 < s[n].0 {
      var i :| 0 <= i < n && s[..n][i] == x;
      assert s[i] == x;
    }
  }

  class Builder {
    const tree: AbTree.ABTree
    const range: nat
    const initialSize: nat
    const numInsDel: nat
    const insertsPerGroup: nat
    const deletionsPerGroup: nat
    const restore: bool
    var counter: nat
    var insertKeys: seq<int>
    var insdelKeys: seq<int>
    /** The numbers drawn for the keys. */
    ghost var draws: seq<nat>
    /** The numbers drawn for the deletions. */
    ghost var picks: seq<nat>

    /** The whole stream so far. */
    ghost function Ops(): (ops: seq<int>)
      reads this
    {
      insertKeys + insdelKeys
    }

    /** What always holds, the inserted keys being those of the numbers drawn; and, while the counter fits in 32 bits:
        the stream is legal, the tree holds what replaying it leaves, the inserted keys are numbered by the counter,
        and the deleted ones are those picked for the numbers drawn. */
    ghost predicate Valid()
      reads this, tree, tree.mem
    {
      && tree.Valid() && ZeroValues(tree.Contents()) && 1 <= range && 0 < insertsPerGroup + deletionsPerGroup
      && (forall i | 0 <= i < |tree.Contents()| :: 0 < tree.Contents()[i].0)
      && Keyed(Ops(), draws, counter, range)
      && (forall i | 0 <= i < |picks| :: 1 <= picks[i] <= range)
      && (counter <= LOW ==> Sound(tree.Contents(), Ops(), counter) && Chosen(Ops(), picks))
    }

    /** An empty builder over a tree of order 64. */
    constructor (range: nat, initialSize: nat, numInsDel: nat, insertsPerGroup: nat, deletionsPerGroup: nat, restore: bool)
      requires 1 <= range && 0 < insertsPerGroup + deletionsPerGroup
      ensures Valid() && New() && fresh(tree) && fresh(tree.mem)
      ensures this.initialSize == initialSize && this.numInsDel == numInsDel && this.insertsPerGroup == insertsPerGroup
      ensures this.deletionsPerGroup == deletionsPerGroup && this.restore == restore && this.range == range
    {
      hide AbTree.ABTree.Valid;
      var t := new AbTree.ABTree(Config(32, 64, 32, 64));
      tree := t;
      this.range, this.initialSize, this.numInsDel := range, initialSize, numInsDel;
      this.insertsPerGroup, this.deletionsPerGroup, this.restore := insertsPerGroup, deletionsPerGroup, restore;
      counter, insertKeys, insdelKeys, draws, picks := 0, [], [], [], [];
    }

    /** Nothing has been generated yet. */
    ghost predicate New()
      reads this, tree
    {
      insertKeys == [] && insdelKeys == [] && draws == [] && picks == [] && counter == 0 && tree.Contents() == []
    }

    /** The number of keys the whole stream inserts. */
    ghost function Total(): (n: nat)
      requires 0 < insertsPerGroup + deletionsPerGroup
    {
      KeyCount(initialSize, numInsDel, insertsPerGroup, deletionsPerGroup, restore)
    }

    /** Which operations of the second part are insertions. */
    ghost function Plan(): (k: seq<bool>)
      requires 0 < insertsPerGroup + deletionsPerGroup
    {
      Groups(initialSize, numInsDel, insertsPerGroup, deletionsPerGroup) +
      if restore then Restoring(LiveAfter(initialSize, numInsDel, insertsPerGroup, deletionsPerGroup), initialSize) else []
    }

    /** A number of one of the distributions. */
    method Draw() returns (x: nat)
      requires 1 <= range
      ensures 1 <= x <= range
    {
      x :| 1 <= x <= range;
    }

    /** The next key goes into the tree. */
    method InsertNext() returns (key: int)
      requires Valid()
      modifies this`counter, this`draws, tree, tree.mem
      ensures Keyed(Ops() + [key], draws, counter, range)
      ensures counter == old(counter) + 1 && tree.Valid() && ZeroValues(tree.Contents()) && |tree.Contents()| == |old(tree.Contents())| + 1
      ensures forall i | 0 <= i < |tree.Contents()| :: 0 < tree.Contents()[i].0
      ensures 0 < key && (counter <= LOW ==> Sound(tree.Contents(), Ops() + [key], counter) && Chosen(Ops() + [key], picks))
    {
      hide AbTree.ABTree.Valid, AbTree.ABTree.Contents, KeyOf, Chosen, Sound, Place, Edited, ZeroValues, Keyed;
      var draw := Draw();
      key := KeyOf(draw, counter);
      KeyPositive(draw, counter);
      KeyedInsert(Ops(), draws, counter, range, draw);
      draws := draws + [draw];
      ghost var s, c := tree.Contents(), counter;
      counter := counter + 1;
      ghost var p;
      p := tree.Insert(key, 0);
      ZeroInsert(s, tree.Contents(), p, key);
      PositiveInsert(s, tree.Contents(), p, key);
      if counter <= LOW {
        KeyParts(draw, c);
        SoundInsert(s, tree.Contents(), p, key, Ops(), c);
        ChosenInsert(Ops(), picks, key);
      }
    }

    /** generate_initial_inserts */
    method GenerateInitialInserts()
      requires Valid() && New()
      modifies this`counter, this`draws, this`insertKeys, tree, tree.mem
      ensures Valid() && |insertKeys| == initialSize == |tree.Contents()| && counter == initialSize
      ensures forall i | 0 <= i < |insertKeys| :: 0 < insertKeys[i]
    {
      hide AbTree.ABTree.Valid, AbTree.ABTree.Contents, Chosen, Sound, ZeroValues, Keyed;
      var i := 0;
      while i < initialSize
        invariant 0 <= i <= initialSize && Valid() && insdelKeys == [] && |insertKeys| == i == |tree.Contents()| && counter == i
        invariant forall j | 0 <= j < i :: 0 < insertKeys[j]
      {
        var key := InsertNext();
        assert insertKeys + [] + [key] == insertKeys + [key] + [];
        insertKeys := insertKeys + [key];
        i := i + 1;
      }
    }

    /** generate_ins */
    method GenerateIns(count: nat)
      requires Valid()
      modifies this`counter, this`draws, this`insdelKeys, tree, tree.mem
      ensures Valid() && counter == old(counter) + count && |tree.Contents()| == |old(tree.Contents())| + count
      ensures Kinds(insdelKeys) == Kinds(old(insdelKeys)) + Times(true, count)
    {
      hide AbTree.ABTree.Valid, AbTree.ABTree.Contents, Chosen, Sound, ZeroValues, Keyed, Kinds, Times;
      NoTimes(true, Kinds(insdelKeys));
      var i := 0;
      while i < count
        invariant 0 <= i <= count && Valid() && counter == old(counter) + i && |tree.Contents()| == |old(tree.Contents())| + i
        invariant Kinds(insdelKeys) == Kinds(old(insdelKeys)) + Times(true, i)
      {
        var key := InsertNext();
        assert insertKeys + insdelKeys + [key] == insertKeys + (insdelKeys + [key]);
        KindsNext(insdelKeys, key, Kinds(old(insdelKeys)), true, i);
        insdelKeys := insdelKeys + [key];
        i := i + 1;
      }
    }

    /** The next key to delete: the first one not below a drawn number, or else the greatest. */
    method Victim() returns (key: int, ghost draw: nat)
      requires Valid() && tree.Contents() != []
      ensures TreeRemove.HasKey(tree.Contents(), key) && 0 < key && 1 <= draw <= range
      ensures var s := tree.Contents(); var w := Within(s, draw * LOW, INT64_MAX);
              key == if w != [] then w[0].0 else s[|s| - 1].0
    {
      hide AbTree.ABTree.Valid, AbTree.ABTree.Contents, Chosen, Sound, ZeroValues, Within, TreeRange.Iterator.Valid;
      var drawn := Draw();
      draw := drawn;
      var candidate := drawn * LOW;
      var it := tree.FindBetween(candidate, INT64_MAX);
      TreeRange.HasNextExact(it);
      if it.HasNext() {
        ghost var w := it.Remaining();
        var v := it.Next();
        key := v.0;
        assert w[0] == v;
        InWithin(tree.Contents(), candidate, INT64_MAX, v);
      } else {
        key := tree.KeyMax();
      }
    }

    /** generate_del: so many deletions of the keys the numbers drawn come down to, unless the tree runs empty. */
    method GenerateDel(count: nat)
      requires Valid()
      modifies this`insdelKeys, this`picks, tree, tree.mem
      ensures Valid() && |tree.Contents()| == if count <= |old(tree.Contents())| then |old(tree.Contents())| - count else 0
      ensures Kinds(insdelKeys) == Kinds(old(insdelKeys)) + Times(false, if count <= |old(tree.Contents())| then count else |old(tree.Contents())|)
    {
      hide AbTree.ABTree.Contents, AbTree.ABTree.Valid, Chosen, Picked, Within, Sound, ZeroValues, Edited, Keyed, Kinds, Times;
      NoTimes(false, Kinds(insdelKeys));
      var i := 0;
      while i < count
        invariant 0 <= i <= count && Valid() && i <= |old(tree.Contents())| && |tree.Contents()| == |old(tree.Contents())| - i
        invariant Kinds(insdelKeys) == Kinds(old(insdelKeys)) + Times(false, i)
      {
        if tree.cardinality == 0 {
          TreeSize(tree);
          return;
        }
        TreeSize(tree);
        var key;
        ghost var draw;
        key, draw := Victim();
        ghost var s := tree.Contents();
        ghost var p;
        var value;
        value, p := tree.Remove(key);
        TookParts(s, tree.Contents(), key, value, p);
        ZeroDelete(s, tree.Contents(), p);
        PositiveDelete(s, tree.Contents(), p);
        KeyedDelete(Ops(), draws, counter, range, key);
        if counter <= LOW {
          PickedBy(s, Ops(), counter, draw, key);
          ChosenDelete(Ops(), picks, key, draw);
          SoundDelete(s, tree.Contents(), p, key, Ops(), counter);
        }
        picks := picks + [draw];
        assert insertKeys + insdelKeys + [-key] == insertKeys + (insdelKeys + [-key]);
        KindsNext(insdelKeys, -key, Kinds(old(insdelKeys)), false, i);
        insdelKeys := insdelKeys + [-key];
        i := i + 1;
      }
    }

    /** Back to the initial size. */
    method RestoreSize()
      requires Valid()
      modifies this`counter, this`draws, this`picks, this`insdelKeys, tree, tree.mem
      ensures Valid() && |tree.Contents()| == initialSize
      ensures Kinds(insdelKeys) == Kinds(old(insdelKeys)) + Restoring(|old(tree.Contents())|, initialSize)
      ensures counter == old(counter) + if |old(tree.Contents())| < initialSize then initialSize - |old(tree.Contents())| else 0
    {
      hide AbTree.ABTree.Contents, AbTree.ABTree.Valid, Chosen, Kinds, Times, Sound, ZeroValues, Keyed;
      TreeSize(tree);
      var diff := initialSize - tree.cardinality;
      if diff >= 0 {
        GenerateIns(diff);
      } else {
        GenerateDel(-diff);
      }
    }

    /** generate_ins_del: groups of insertions and deletions; in the end, if asked for, back to the initial size. */
    method GenerateInsDel() returns (ghost groups: nat)
      requires Valid()
      modifies this`counter, this`draws, this`picks, this`insdelKeys, tree, tree.mem
      ensures Valid() && (restore ==> |tree.Contents()| == initialSize)
      ensures numInsDel <= groups * (insertsPerGroup + deletionsPerGroup)
      ensures groups != 0 ==> (groups - 1) * (insertsPerGroup + deletionsPerGroup) < numInsDel
      ensures old(counter) + groups * insertsPerGroup <= counter
      ensures |old(tree.Contents())| == initialSize ==> counter == old(counter) - initialSize + Total()
      ensures |old(tree.Contents())| == initialSize ==> Kinds(insdelKeys) == Kinds(old(insdelKeys)) + Plan()
    {
      hide AbTree.ABTree.Contents, AbTree.ABTree.Valid, Chosen, Kinds, Times, Sound, ZeroValues, Keyed, Groups;
      var count := 0;
      groups := 0;
      while count < numInsDel
        invariant Valid() && count == groups * (insertsPerGroup + deletionsPerGroup)
        invariant groups != 0 ==> (groups - 1) * (insertsPerGroup + deletionsPerGroup) < numInsDel
        invariant counter == old(counter) + groups * insertsPerGroup
        invariant old(counter) + InsertedBy(numInsDel, insertsPerGroup, deletionsPerGroup)
                  == counter + InsertedBy(numInsDel - count, insertsPerGroup, deletionsPerGroup)
        invariant LiveAfter(|old(tree.Contents())|, numInsDel, insertsPerGroup, deletionsPerGroup)
                  == LiveAfter(|tree.Contents()|, numInsDel - count, insertsPerGroup, deletionsPerGroup)
        invariant Kinds(old(insdelKeys)) + Groups(|old(tree.Contents())|, numInsDel, insertsPerGroup, deletionsPerGroup)
                  == Kinds(insdelKeys) + Groups(|tree.Contents()|, numInsDel - count, insertsPerGroup, deletionsPerGroup)
        decreases numInsDel - count
      {
        ghost var was, size := Kinds(insdelKeys), |tree.Contents()|;
        GenerateIns(insertsPerGroup);
        ghost var k := Kinds(insdelKeys);
        GenerateDel(deletionsPerGroup);
        GroupNext(was, k, Kinds(insdelKeys), size, |tree.Contents()|, numInsDel - count, insertsPerGroup, deletionsPerGroup);
        OneMoreTime(groups, insertsPerGroup + deletionsPerGroup);
        OneMoreTime(groups, insertsPerGroup);
        count := count + insertsPerGroup + deletionsPerGroup;
        groups := groups + 1;
      }
      GroupsDone(Kinds(old(insdelKeys)), Kinds(insdelKeys), Groups(|old(tree.Contents())|, numInsDel, insertsPerGroup, deletionsPerGroup),
                 |tree.Contents()|, numInsDel - count, insertsPerGroup, deletionsPerGroup);
      if restore {
        RestoreSize();
      }
    }

    /** The whole stream. It inserts as many keys as the sizes asked for say, those of the numbers drawn. If
        there are at most 2^32 of them, all are different, every deletion is of the live key that the number
        drawn for it comes down to, and replaying the stream leaves the keys of the tree; in the end the size is the initial one if that is
        asked for. */
    method Generate()
      requires Valid() && New()
      modifies this, tree, tree.mem
      ensures Valid() && |insertKeys| == initialSize && counter == Total()
      ensures Drawn(draws, Total(), range) && Inserted(Ops()) == KeysOf(draws) && Kinds(Ops()) == Times(true, initialSize) + Plan()
      ensures Total() <= LOW ==> Chosen(Ops(), picks) && forall i | 0 <= i < |picks| :: 1 <= picks[i] <= range
      ensures Total() <= LOW ==> Legal(Ops()) && KeySet(tree.Contents()) == Replay(Ops()) && |Replay(Ops())| == |tree.Contents()|
      ensures Total() <= LOW ==> AllDiffer(Inserted(Ops()))
      ensures restore ==> |tree.Contents()| == initialSize
    {
      hide AbTree.ABTree.Valid, AbTree.ABTree.Contents, ZeroValues, Sound, Replay, Legal, Inserted, AllDiffer, Drawn, KeysOf, KeyCount, Chosen, Kinds, Times, Keyed, Groups;
      NothingYet();
      GenerateInitialInserts();
      AllInserted(insertKeys);
      ghost var groups;
      groups := GenerateInsDel();
      KindsJoin(insertKeys, insdelKeys);
      KeyedParts(Ops(), draws, counter, range);
      if counter <= LOW {
        SoundParts(tree.Contents(), Ops(), counter);
      }
    }
  }

  lemma OneMoreTime(n: nat, k: nat)
    ensures (n + 1) * k == n * k + k
  {
  }

  /** The stream is legal and agrees with the tree, and the counter numbers its insertions. */
  ghost predicate Sound(s: seq<Pair>, ops: seq<int>, counter: nat) {
    Agrees(s, ops) && Legal(ops) && Numbered(Inserted(ops)) && |Inserted(ops)| == counter
  }

  lemma SoundParts(s: seq<Pair>, ops: seq<int>, counter: nat)
    requires Sound(s, ops, counter)
    ensures Legal(ops) && KeySet(s) == Replay(ops) && |Replay(ops)| == |s|
    ensures AllDiffer(Inserted(ops))
  {
    hide Legal, Replay, Inserted, AllDiffer;
    KeySetSize(s);
    NumberedDistinct(Inserted(ops));
  }

  /** A key numbered by the counter is a new one. */
  lemma SoundInsert(s: seq<Pair>, t: seq<Pair>, p: nat, key: int, ops: seq<int>, counter: nat)
    requires Sound(s, ops, counter) && Place(s, p, key) && Edited(s, t, p, 0, [(key, 0)]) && 0 < key && key % LOW == counter
    ensures Sound(t, ops + [key], counter + 1)
  {
    hide Replay, Legal, Inserted, Place, Edited;
    StepReplay(ops, key);
    if key in Replay(ops) {
      LiveInserted(ops, key);
    }
    AgreesInsert(s, t, p, key, ops);
  }

  lemma SoundDelete(s: seq<Pair>, t: seq<Pair>, p: nat, key: int, ops: seq<int>, counter: nat)
    requires Sound(s, ops, counter) && p < |s| && s[p].0 == key && Edited(s, t, p, 1, []) && 0 < key
    ensures Sound(t, ops + [-key], counter)
  {
    hide Replay, Legal, Inserted, Edited;
    StepReplay(ops, -key);
    AgreesDelete(s, t, p, key, ops);
  }

  lemma PositiveInsert(s: seq<Pair>, t: seq<Pair>, p: nat, key: int)
    requires Edited(s, t, p, 0, [(key, 0)]) && 0 < key && forall i | 0 <= i < |s| :: 0 < s[i].0
    ensures forall i | 0 <= i < |t| :: 0 < t[i].0
  {
    forall i | 0 <= i < |t| ensures 0 < t[i].0 {
      assert t[i] == if i < p then s[i] else if i == p then (key, 0) else s[i - 1];
    }
  }

  lemma PositiveDelete(s: seq<Pair>, t: seq<Pair>, p: nat)
    requires Edited(s, t, p, 1, []) && forall i | 0 <= i < |s| :: 0 < s[i].0
    ensures forall i | 0 <= i < |t| :: 0 < t[i].0
  {
    RemovedAt(s, t, p);
  }

  lemma TookParts(s: seq<Pair>, t: seq<Pair>, key: int, value: int, p: nat)
    requires TreeRemove.Took(s, t, key, value, p) && TreeRemove.HasKey(s, key) && ZeroValues(s)
    ensures p < |s| && s[p] == (key, value) && value == 0 && Edited(s, t, p, 1, [])
  {
  }

  lemma TreeSize(tree: AbTree.ABTree)
    requires tree.Valid()
    ensures tree.cardinality == |tree.Contents()|
  {
  }

  lemma {:induction false} InWithin(s: seq<Pair>, min: int, max: int, x: Pair)
    requires x in Within(s, min, max)
    ensures exists i :: 0 <= i < |s| && s[i] == x
  {
    if x in Within(s[1..], min, max) {
      InWithin(s[1..], min, max, x);
      var i :| 0 <= i < |s[1..]| && s[1..][i] == x;
      assert s[i + 1] == x;
    } else {
      assert s[0] == x;
    }
  }

  /** Every key with the sum of the keys up to it. */
  ghost predicate Prefixes(prefixes: seq<(int, int)>, s: seq<Pair>) {
    |prefixes| <= |s| && forall j | 0 <= j < |prefixes| :: prefixes[j].0 == s[j].0 && prefixes[j].1 == SumKeys(s[..j + 1])
  }

  lemma NextPrefix(s: seq<Pair>, j: nat)
    requires j < |s|
    ensures SumKeys(s[..j + 1]) == SumKeys(s[..j]) + s[j].0
    ensures SumKeys(s[..0]) == 0
  {
    assert s[..j + 1][..j] == s[..j];
  }

  /** generate_prefix_sum */
  method GeneratePrefixSum(tree: AbTree.ABTree) returns (prefixes: seq<(int, int)>)
    requires tree.Valid() && forall i | 0 <= i < |tree.Contents()| :: INT64_MIN <= tree.Contents()[i].0 <= INT64_MAX
    ensures |prefixes| == |tree.Contents()| && Prefixes(prefixes, tree.Contents())
  {
    hide AbTree.ABTree.Valid, AbTree.ABTree.Contents, Within, TreeRange.Iterator.Valid, SumKeys;
    ghost var s := tree.Contents();
    var it := tree.FindBetween(INT64_MIN, INT64_MAX);
    AllWithin(s, INT64_MIN, INT64_MAX);
    prefixes := [];
    var j := 0;
    assert s[j..] == s;
    while it.HasNext()
      invariant 0 <= j == |prefixes| <= |s| && Prefixes(prefixes, s) && it.Valid() && it.Remaining() == s[j..] && fresh(it)
      decreases |s| - j
    {
      TreeRange.HasNextExact(it);
      var v := it.Next();
      assert v == s[j..][0] && it.Remaining() == s[j..][1..];
      NextPrefix(s, j);
      var sum := v.0;
      if j > 0 {
        sum := sum + prefixes[j - 1].1;
      }
      prefixes := prefixes + [(v.0, sum)];
      j := j + 1;
    }
    TreeRange.HasNextExact(it);
  }

  lemma {:induction false} AllWithin(s: seq<Pair>, min: int, max: int)
    requires forall i | 0 <= i < |s| :: min <= s[i].0 <= max
    ensures Within(s, min, max) == s
  {
    if s != [] {
      AllWithin(s[1..], min, max);
    }
  }

  /** generate_lookups: the live keys at the positions drawn; any number stands for a position. */
  method GenerateLookups(prefixes: seq<(int, int)>, drawn: seq<nat>, ghost s: seq<Pair>) returns (keys: seq<int>)
    requires Prefixes(prefixes, s) && |prefixes| == |s|
    ensures if s == [] then keys == [] else |keys| == |drawn| && forall i | 0 <= i < |keys| :: keys[i] == s[drawn[i] % |s|].0
  {
    keys := [];
    if |prefixes| == 0 {
      return;
    }
    var i := 0;
    while i < |drawn|
      invariant 0 <= i <= |drawn| && |keys| == i && forall j | 0 <= j < i :: keys[j] == s[drawn[j] % |s|].0
    {
      var j := drawn[i] % |prefixes|;
      keys := keys + [prefixes[j].0];
      i := i + 1;
    }
  }

  datatype ScanRange = ScanRange(keyMin: int, keyMax: int, expectedSum: int)

  /** The first positions a scan can be drawn from, and its length: the requested one, at least one, and
      less than all keys. */
  function ScanBounds(n: nat, length: nat): (r: (int, int, int)) {
    var l := if length < 1 then 1 else length;
    if n - l < 1 then (1, 1, n - 1) else (1, n - l, l)
  }

  /** A scan of `l` keys from a position on stays inside the keys. */
  predicate Inside(n: nat, l: int, outcome: int) {
    0 <= outcome <= outcome + l - 1 < n
  }

  /** Every outcome gives a scan inside the keys exactly when there are at least two of them. */
  lemma ScanFits(n: nat, length: nat)
    requires 1 <= n && length <= n
    ensures var (lo, hi, l) := ScanBounds(n, length);
            lo <= hi && ((forall outcome: int | lo <= outcome <= hi :: Inside(n, l, outcome)) <==> 2 <= n)
  {
    var (lo, hi, l) := ScanBounds(n, length);
    if n == 1 {
      assert lo <= 1 <= hi && !Inside(n, l, 1);
    }
  }

  /** How many keys a scan covers, and from how many positions it can start. */
  function ScanLength(n: nat, length: nat): (l: nat)
    requires 2 <= n
  {
    if length < 1 then 1 else if length < n then length else n - 1
  }

  /** The position a number stands for, out of so many from the second one on. */
  function Position(drawn: nat, span: nat): (p: nat)
    requires 1 <= span
    ensures 1 <= p <= span
  {
    1 + drawn % span
  }

  /** generate_scan_ranges: each range starts at the position drawn, never the first one, covers the keys asked for,
      and its expected sum is the sum of the keys in it. `length` is the share of the keys the source computes in
      floating point; any number stands for a position. */
  method GenerateScanRanges(prefixes: seq<(int, int)>, length: nat, drawn: seq<nat>, ghost s: seq<Pair>) returns (ranges: seq<ScanRange>)
    requires Prefixes(prefixes, s) && |prefixes| == |s| && 2 <= |s| && length <= |s|
    requires forall i, j | 0 <= i < j < |s| :: s[i].0 < s[j].0
    ensures |ranges| == |drawn|
    ensures forall r | r in ranges :: r.keyMin <= r.keyMax && r.expectedSum == Aggregate(Within(s, r.keyMin, r.keyMax)).sumKeys
    ensures forall r | r in ranges :: |Within(s, r.keyMin, r.keyMax)| == ScanLength(|s|, length)
    ensures forall i | 0 <= i < |drawn| :: ranges[i].keyMin == s[Position(drawn[i], |s| - ScanLength(|s|, length))].0
  {
    hide Within, Aggregate, ScanBounds, ScanLength, Prefixes;
    ranges := [];
    var (lo, hi, l) := ScanBounds(|prefixes|, length);
    ScanSpan(|prefixes|, length);
    var i := 0;
    while i < |drawn|
      invariant 0 <= i <= |drawn| && |ranges| == i
      invariant forall r | r in ranges :: r.keyMin <= r.keyMax && r.expectedSum == Aggregate(Within(s, r.keyMin, r.keyMax)).sumKeys
      invariant forall r | r in ranges :: |Within(s, r.keyMin, r.keyMax)| == l
      invariant forall j | 0 <= j < i :: ranges[j].keyMin == s[Position(drawn[j], |s| - l)].0
    {
      var r := OneScan(prefixes, lo + drawn[i] % (hi - lo + 1), l, s);
      ranges := ranges + [r];
      i := i + 1;
    }
  }

  lemma ScanSpan(n: nat, length: nat)
    requires 2 <= n && length <= n
    ensures var (lo, hi, l) := ScanBounds(n, length); lo == 1 && l == ScanLength(n, length) && 1 <= l < n && hi - lo + 1 == n - l
  {
  }

  method OneScan(prefixes: seq<(int, int)>, outcome: nat, l: nat, ghost s: seq<Pair>) returns (r: ScanRange)
    requires Prefixes(prefixes, s) && |prefixes| == |s| && forall i, j | 0 <= i < j < |s| :: s[i].0 < s[j].0
    requires 1 <= l && outcome + l <= |s|
    ensures r.keyMin <= r.keyMax && r.expectedSum == Aggregate(Within(s, r.keyMin, r.keyMax)).sumKeys
    ensures |Within(s, r.keyMin, r.keyMax)| == l && r.keyMin == s[outcome].0
  {
    hide Within, Aggregate;
    var indexMin, indexMax := outcome, outcome + l - 1;
    var expected := prefixes[indexMax].1;
    if indexMin > 0 {
      expected := expected - prefixes[indexMin - 1].1;
    }
    SumBetween(s, indexMin, indexMax);
    r := ScanRange(prefixes[indexMin].0, prefixes[indexMax].0, expected);
  }

  /** The keys from one position to another are those in the range of their keys. */
  lemma SumBetween(s: seq<Pair>, i: nat, j: nat)
    requires i <= j < |s| && forall a, b | 0 <= a < b < |s| :: s[a].0 < s[b].0
    ensures Within(s, s[i].0, s[j].0) == s[i..j + 1] && s[i].0 <= s[j].0
    ensures SumKeys(s[..j + 1]) - SumKeys(s[..i]) == Aggregate(Within(s, s[i].0, s[j].0)).sumKeys
  {
    hide Within, SumKeys, Aggregate, TreeScan.First;
    StrictlySorted(s);
    RanksOf(s, i, j);
    WithinIsSlice(s, s[i].0, s[j].0);
    SumSlice(s, i, j + 1);
    AggregateKeys(s[i..j + 1]);
  }

  lemma StrictlySorted(s: seq<Pair>)
    requires forall a, b | 0 <= a < b < |s| :: s[a].0 < s[b].0
    ensures Sorted(s)
  {
  }

  lemma RanksOf(s: seq<Pair>, i: nat, j: nat)
    requires i <= j < |s| && forall a, b | 0 <= a < b < |s| :: s[a].0 < s[b].0
    ensures s[i].0 <= s[j].0 && TreeScan.First(s, s[i].0) == i && TreeScan.First(s, s[j].0 + 1) == j + 1
  {
    hide TreeScan.First;
    TreeScan.FirstIs(s, s[i].0, i);
    AtMost(s, j);
    TreeScan.FirstIs(s, s[j].0 + 1, j + 1);
  }

  lemma AtMost(s: seq<Pair>, j: nat)
    requires j < |s| && forall a, b | 0 <= a < b < |s| :: s[a].0 < s[b].0
    ensures forall a | 0 <= a < j + 1 :: s[a].0 < s[j].0 + 1
  {
    forall a | 0 <= a < j + 1 ensures s[a].0 < s[j].0 + 1 {
      assert a < j ==> s[a].0 < s[j].0;
    }
  }

  lemma {:induction false} SumSlice(s: seq<Pair>, i: nat, j: nat)
    requires i <= j <= |s|
    ensures SumKeys(s[..j]) - SumKeys(s[..i]) == SumKeys(s[i..j])
    decreases j
  {
    if i < j {
      SumSlice(s, i, j - 1);
      assert s[i..j][..j - 1 - i] == s[i..j - 1];
      assert s[..j][..j - 1] == s[..j - 1];
    }
  }
}
