/** Range queries on sorted pairs: the pairs of a range and their aggregate, for all containers alike. */
module RangeSums {

  datatype SumResult = SumResult(firstKey: int, lastKey: int, numElements: nat, sumKeys: int, sumValues: int)

  /** The pairs with key in [min, max]. */
  ghost function Within(s: seq<(int, int)>, min: int, max: int): (r: seq<(int, int)>) {
    if s == [] then [] else (if min <= s[0].0 <= max then [s[0]] else []) + Within(s[1..], min, max)
  }

  lemma {:induction false} NoneWithin(s: seq<(int, int)>, min: int, max: int)
    requires max < min || forall i | 0 <= i < |s| :: max < s[i].0
    ensures Within(s, min, max) == []
  {
    if s != [] {
      NoneWithin(s[1..], min, max);
    }
  }

  ghost function SumKeys(s: seq<(int, int)>): (t: int) {
    if s == [] then 0 else SumKeys(s[..|s| - 1]) + s[|s| - 1].0
  }

  ghost function SumValues(s: seq<(int, int)>): (t: int) {
    if s == [] then 0 else SumValues(s[..|s| - 1]) + s[|s| - 1].1
  }

  /** The aggregate of a sequence of pairs: first and last key, how many there are, and both sums. */
  ghost function Aggregate(w: seq<(int, int)>): (r: SumResult) {
    if w == [] then SumResult(0, 0, 0, 0, 0)
    else SumResult(w[0].0, w[|w| - 1].0, |w|, SumKeys(w), SumValues(w))
  }

  lemma SumStep(s: seq<(int, int)>, lo: nat, r: nat)
    requires lo <= r < |s|
    ensures SumKeys(s[lo..r + 1]) == SumKeys(s[lo..r]) + s[r].0 && SumValues(s[lo..r + 1]) == SumValues(s[lo..r]) + s[r].1
  {
    assert s[lo..r + 1][..r - lo] == s[lo..r];
  }

  lemma NoSum(s: seq<(int, int)>, lo: nat)
    requires lo <= |s|
    ensures SumKeys(s[lo..lo]) == 0 && SumValues(s[lo..lo]) == 0
  {
  }

  lemma AggregateKeys(w: seq<(int, int)>)
    ensures Aggregate(w).sumKeys == SumKeys(w)
  {
  }
}
