/** Vocabulary shared by the models: sorted insertion, sums and small arithmetic facts. */
module Sequences {

  function InsertAt<T>(s: seq<T>, p: nat, x: T): (r: seq<T>)
    requires p <= |s|
  {
    s[..p] + [x] + s[p..]
  }

  /** The first position whose element is at least `k`, or the length when there is none. */
  function FirstGeq(s: seq<int>, k: int): (p: nat)
    ensures p <= |s|
    ensures forall i | 0 <= i < p :: s[i] < k
    ensures p < |s| ==> k <= s[p]
  {
    if s == [] || k <= s[0] then 0 else 1 + FirstGeq(s[1..], k)
  }

  ghost predicate Ascending(s: seq<int>) {
    forall i, j | 0 <= i < j < |s| :: s[i] < s[j]
  }

  function Sum(c: seq<nat>, lo: nat, hi: nat): (n: nat)
    requires lo <= hi <= |c|
    decreases hi - lo
  {
    if lo == hi then 0 else Sum(c, lo, hi - 1) + c[hi - 1]
  }

  lemma {:induction false} SumSplit(c: seq<nat>, lo: nat, mid: nat, hi: nat)
    requires lo <= mid <= hi <= |c|
    ensures Sum(c, lo, hi) == Sum(c, lo, mid) + Sum(c, mid, hi)
    decreases hi
  {
    if mid < hi {
      SumSplit(c, lo, mid, hi - 1);
    }
  }

  lemma {:induction false} SumFrame(c: seq<nat>, d: seq<nat>, lo: nat, hi: nat)
    requires lo <= hi <= |c| && hi <= |d|
    requires forall i | lo <= i < hi :: c[i] == d[i]
    ensures Sum(c, lo, hi) == Sum(d, lo, hi)
    decreases hi
  {
    if lo < hi {
      SumFrame(c, d, lo, hi - 1);
    }
  }

  /** `s` with the elements from position `d` on overwritten by `w`. */
  function Splice<T>(s: seq<T>, d: nat, w: seq<T>): (r: seq<T>)
    requires d + |w| <= |s|
    ensures |r| == |s|
  {
    s[..d] + w + s[d + |w|..]
  }

  lemma SpliceAt<T>(s: seq<T>, d: nat, w: seq<T>)
    requires d + |w| <= |s|
    ensures Splice(s, d, w)[d..d + |w|] == w
    ensures Splice(s, d, w)[..d] == s[..d] && Splice(s, d, w)[d + |w|..] == s[d + |w|..]
    ensures Splice(s, d, w)[d..] == w + s[d + |w|..]
  {
  }

  lemma SpliceAbove<T>(s: seq<T>, d: nat, w: seq<T>, i: nat, j: nat)
    requires d + |w| <= |s| && i <= j <= |s|
    requires j <= d || d + |w| <= i
    ensures Splice(s, d, w)[i..j] == s[i..j]
  {
  }

  lemma Slices<T>(s: seq<T>, i: nat, j: nat, k: nat)
    requires i <= j <= k <= |s|
    ensures s[i..j] + s[j..k] == s[i..k]
  {
  }

  /** A position in a sorted sequence is fixed by what lies on either side of it. */
  lemma FirstGeqAt(s: seq<int>, k: int, p: nat)
    requires p <= |s|
    requires forall i | 0 <= i < p :: s[i] < k
    requires p < |s| ==> k <= s[p]
    ensures FirstGeq(s, k) == p
  {
  }

  lemma AscendingInsert(s: seq<int>, k: int)
    requires Ascending(s) && k !in s
    ensures Ascending(InsertAt(s, FirstGeq(s, k), k))
  {
    var p := FirstGeq(s, k);
    var r := InsertAt(s, p, k);
    forall i, j | 0 <= i < j < |r| ensures r[i] < r[j] {
      assert r[i] == if i < p then s[i] else if i == p then k else s[i - 1];
      assert r[j] == if j < p then s[j] else if j == p then k else s[j - 1];
      if p < |s| {
        assert s[p] != k;
      }
    }
  }
}
