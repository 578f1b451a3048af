/** The loops of ABTree::rotate_right and rotate_left, entry by entry. A node's array has room behind
    its entries; what is there, and what a loop reads in front of the array, is arbitrary. The loops
    over inner nodes are right for a shift by one or two entries, which is all that is asked for. */
module TreeRotate {
  import opened Trees

  const SIZE_MAX: nat := 0xFFFF_FFFF_FFFF_FFFF

  /** The free places behind the entries of a node. */
  method Room<T(==)>(x: T, n: nat) returns (free: seq<T>)
    ensures |free| == n
  {
    assert |seq(n, _ => x)| == n;
    free :| |free| == n;
  }

  /** Leaves: the last `need` entries of the left one go to the front of the right one. */
  method LeafRight(l1: seq<Pair>, l2: seq<Pair>, need: nat) returns (r1: seq<Pair>, r2: seq<Pair>)
    requires 1 <= need <= |l1|
    ensures r1 == l1[..|l1| - need] && r2 == l1[|l1| - need..] + l2
  {
    var free := Room((0, 0), need);
    r2 := l2 + free;
    var i := |l2| - 1 + need;
    while i > 0
      invariant 0 <= i < |r2| == |l2| + need
      invariant forall k | 0 <= k <= i && k < |l2| :: r2[k] == l2[k]
      invariant forall k | i < k < |r2| && need <= k :: r2[k] == l2[k - need]
    {
      var x: Pair;
      if i >= need {
        x := r2[i - need];
      } else {
        var outside: Pair :| true;
        x := outside;
      }
      r2 := r2[i := x];
      i := i - 1;
    }
    while i < need
      invariant 0 <= i <= need && |r2| == |l2| + need
      invariant forall k | 0 <= k < i :: r2[k] == l1[|l1| - need + k]
      invariant forall k | need <= k < |r2| :: r2[k] == l2[k - need]
    {
      r2 := r2[i := l1[|l1| - need + i]];
      i := i + 1;
    }
    r1 := l1[..|l1| - need];
    assert forall k | 0 <= k < |r2| :: r2[k] == (l1[|l1| - need..] + l2)[k];
  }

  /** Inner nodes: the last `need` children of the left one, and the keys between them. */
  method InnerRight(k1: seq<int>, c1: seq<Ptr>, pivot: int, k2: seq<int>, c2: seq<Ptr>, need: nat)
    returns (k1': seq<int>, c1': seq<Ptr>, pivot': int, k2': seq<int>, c2': seq<Ptr>)
    requires |k1| + 1 == |c1| && |k2| + 1 == |c2| && 1 <= need <= 2 && need < |c1|
    ensures k1' == k1[..|c1| - need - 1] && c1' == c1[..|c1| - need] && pivot' == k1[|c1| - need - 1]
    ensures k2' == k1[|c1| - need..] + [pivot] + k2 && c2' == c1[|c1| - need..] + c2
  {
    var n1, n2 := |c1|, |c2|;
    var freeKeys: seq<int> := Room(0, need);
    var freeKids: seq<Ptr> := Room(0, need);
    k2', c2' := k2 + freeKeys, c2 + freeKids;
    c2' := c2'[n2 + need - 1 := c2'[n2 - 1]];
    var i := n2 + need - 2;
    while i >= need
      invariant need - 1 <= i <= n2 + need - 2 && |k2'| == n2 - 1 + need && |c2'| == n2 + need
      invariant forall k | 0 <= k <= i && k < n2 - 1 :: k2'[k] == k2[k] && c2'[k] == c2[k]
      invariant forall k | i < k < n2 + need - 1 && need <= k :: k2'[k] == k2[k - need] && c2'[k] == c2[k - need]
      invariant c2'[n2 + need - 1] == c2[n2 - 1]
    {
      k2', c2' := k2'[i := k2'[i - need]], c2'[i := c2'[i - need]];
      i := i - 1;
    }
    k2', c2' := k2'[need - 1 := pivot], c2'[need - 1 := c1[n1 - 1]];
    var idx := n1 - need;
    i := 0;
    while i < need - 1
      invariant |k2'| == n2 - 1 + need && |c2'| == n2 + need && (i == 0 || (i == SIZE_MAX && need == 2))
      invariant if i == 0 then idx == n1 - need else k2'[0] == k1[n1 - need] && c2'[0] == c1[n1 - need]
      invariant k2'[need - 1] == pivot && c2'[need - 1] == c1[n1 - 1]
      invariant forall k | need <= k < n2 - 1 + need :: k2'[k] == k2[k - need]
      invariant forall k | need <= k < n2 + need :: c2'[k] == c2[k - need]
      decreases i == 0
    {
      k2', c2' := k2'[i := k1[idx]], c2'[i := c1[idx]];
      idx := idx + 1;
      i := if i == 0 then SIZE_MAX else i - 1;
    }
    pivot' := k1[n1 - need - 1];
    k1', c1' := k1[..n1 - need - 1], c1[..n1 - need];
    assert forall k | 0 <= k < |k2'| :: k2'[k] == (k1[n1 - need..] + [pivot] + k2)[k];
    assert forall k | 0 <= k < |c2'| :: c2'[k] == (c1[n1 - need..] + c2)[k];
  }

  /** Leaves: the first `need` entries of the right one go to the end of the left one. */
  method LeafLeft(l1: seq<Pair>, l2: seq<Pair>, need: nat) returns (r1: seq<Pair>, r2: seq<Pair>)
    requires 1 <= need < |l2|
    ensures r1 == l1 + l2[..need] && r2 == l2[need..]
  {
    var free := Room((0, 0), need);
    r1, r2 := l1 + free, l2;
    var i := 0;
    while i < need
      invariant 0 <= i <= need && |r1| == |l1| + need
      invariant (forall k | 0 <= k < |l1| :: r1[k] == l1[k]) && forall k | 0 <= k < i :: r1[|l1| + k] == l2[k]
    {
      r1 := r1[|l1| + i := l2[i]];
      i := i + 1;
    }
    assert r1 == l1 + l2[..need];
    i := 0;
    while i < |l2| - need
      invariant 0 <= i <= |l2| - need && |r2| == |l2|
      invariant (forall k | 0 <= k < i :: r2[k] == l2[k + need]) && forall k | i <= k < |l2| :: r2[k] == l2[k]
    {
      r2 := r2[i := r2[i + need]];
      i := i + 1;
    }
    r2 := r2[..|l2| - need];
    assert r2 == l2[need..];
  }

  /** Inner nodes: the first `need` children of the right one, and the keys between them. */
  method InnerLeft(k1: seq<int>, c1: seq<Ptr>, pivot: int, k2: seq<int>, c2: seq<Ptr>, need: nat)
    returns (k1': seq<int>, c1': seq<Ptr>, pivot': int, k2': seq<int>, c2': seq<Ptr>)
    requires |k1| + 1 == |c1| && |k2| + 1 == |c2| && 1 <= need <= 2 && need < |c2|
    ensures k1' == k1 + [pivot] + k2[..need - 1] && c1' == c1 + c2[..need] && pivot' == k2[need - 1]
    ensures k2' == k2[need..] && c2' == c2[need..]
  {
    k1', c1' := AppendSome(k1, c1, pivot, k2, c2, need);
    pivot' := k2[need - 1];
    k2', c2' := DropSome(k2, c2, need);
  }

  /** The pivot, the first child of the right node and what comes with a second one. */
  method AppendSome(k1: seq<int>, c1: seq<Ptr>, pivot: int, k2: seq<int>, c2: seq<Ptr>, need: nat) returns (k: seq<int>, c: seq<Ptr>)
    requires |k1| + 1 == |c1| && |k2| + 1 == |c2| && 1 <= need <= 2 && need < |c2|
    ensures k == k1 + [pivot] + k2[..need - 1] && c == c1 + c2[..need]
  {
    var n1 := |c1|;
    var freeKeys: seq<int> := Room(0, need);
    var freeKids: seq<Ptr> := Room(0, need);
    k, c := k1 + freeKeys, c1 + freeKids;
    k, c := k[n1 - 1 := pivot], c[n1 := c2[0]];
    var idx := n1;
    var i := 0;
    while i < need - 1
      invariant 0 <= i < need && |k| == n1 - 1 + need && |c| == n1 + need
      invariant k[..n1] == k1 + [pivot] && c[..n1 + 1] == c1 + [c2[0]]
      invariant i == 1 ==> k[n1] == k2[0] && c[n1 + 1] == c2[1]
    {
      k, c := k[idx := k2[i]], c[idx + 1 := c2[i + 1]];
      i := i + 1;
    }
    assert k == k[..n1] + k[n1..] && k[n1..] == k2[..need - 1];
    assert c == c[..n1 + 1] + c[n1 + 1..] && c2[..need] == [c2[0]] + c[n1 + 1..];
  }

  /** The rest of the right node moves down. */
  method DropSome(k2: seq<int>, c2: seq<Ptr>, need: nat) returns (k: seq<int>, c: seq<Ptr>)
    requires |k2| + 1 == |c2| && 1 <= need < |c2|
    ensures k == k2[need..] && c == c2[need..]
  {
    var n2 := |c2|;
    k, c := k2, c2;
    var i := 0;
    while i < n2 - need - 1
      invariant 0 <= i <= n2 - need - 1 && |k| == n2 - 1 && |c| == n2
      invariant forall j | 0 <= j < i :: k[j] == k2[j + need] && c[j] == c2[j + need]
      invariant (forall j | i <= j < n2 - 1 :: k[j] == k2[j]) && forall j | i <= j < n2 :: c[j] == c2[j]
    {
      k, c := k[i := k[i + need]], c[i := c[i + need]];
      i := i + 1;
    }
    c := c[n2 - need - 1 := c[n2 - 1]];
    k, c := k[..n2 - need - 1], c[..n2 - need];
  }
}
