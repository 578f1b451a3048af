/** Permutations of [0, n) as sequences. */
module Permutations {

  ghost predicate Permutes(s: seq<int>, n: nat) {
    && |s| == n
    && (forall i | 0 <= i < n :: 0 <= s[i] < n)
    && (forall i, j | 0 <= i < j < n :: s[i] != s[j])
  }

  ghost function NumbersBelow(n: nat): (s: set<int>)
    ensures forall i: int :: i in s <==> 0 <= i < n
  {
    if n == 0 then {} else NumbersBelow(n - 1) + {n - 1}
  }

  lemma {:induction false} BelowSize(n: nat)
    ensures |NumbersBelow(n)| == n
  {
    if n == 0 {
      assert NumbersBelow(0) == {};
    } else {
      BelowSize(n - 1);
      assert NumbersBelow(n) == NumbersBelow(n - 1) + {n - 1};
    }
  }

  ghost function Elements(s: seq<int>): (e: set<int>) {
    set x | x in s
  }

  lemma {:induction false} ElementsSize(s: seq<int>)
    requires forall i, j | 0 <= i < j < |s| :: s[i] != s[j]
    ensures |Elements(s)| == |s|
  {
    if s == [] {
      assert Elements(s) == {};
    } else {
      var t := s[..|s| - 1];
      ElementsSize(t);
      assert Elements(s) == Elements(t) + {s[|s| - 1]} by {
        assert s == t + [s[|s| - 1]];
      }
    }
  }

  lemma SubsetSize<T>(a: set<T>, b: set<T>)
    requires a <= b && |a| == |b|
    ensures a == b
  {
    if a != b {
      var x :| x in b && x !in a;
      SubsetCard(a, b - {x});
    }
  }

  lemma {:induction false} SubsetCard<T>(a: set<T>, b: set<T>)
    requires a <= b
    ensures |a| <= |b|
  {
    if a != {} {
      var x :| x in a;
      SubsetCard(a - {x}, b - {x});
    }
  }

  /** A permutation hits every number. */
  lemma Onto(s: seq<int>, n: nat, k: nat)
    requires Permutes(s, n) && k < n
    ensures k in s
  {
    BelowSize(n);
    ElementsSize(s);
    SubsetSize(Elements(s), NumbersBelow(n));
    assert k in NumbersBelow(n);
  }
}
