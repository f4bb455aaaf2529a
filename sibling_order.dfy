/**
 * The comparator handed to `root.sort` (main.js line 75):
 * `b.height - a.height || b.value - a.value`.
 */
module SiblingOrder {

  /** The two fields of a hierarchy node the comparator reads; d3 computes both. */
  datatype Ranked = Ranked(height: nat, value: int)

  /** `a` belongs before `b`: it is higher, or as high and of greater value. */
  predicate Before(a: Ranked, b: Ranked)
  {
    a.height > b.height || (a.height == b.height && a.value > b.value)
  }

  /**
   * The comparator. JavaScript's `x || y` yields `y` exactly when `x` is 0,
   * so the value difference is consulted only when the heights are equal.
   */
  function Compare(a: Ranked, b: Ranked): (r: int)
    ensures r < 0 <==> Before(a, b)
    ensures r > 0 <==> Before(b, a)
    ensures r == 0 <==> a.height == b.height && a.value == b.value
  {
    var dh := b.height - a.height;
    if dh != 0 then dh else b.value - a.value
  }

  /**
   * The comparator is consistent, as `Array.prototype.sort` requires of one:
   * reversing the arguments reverses the sign, and "not after" is transitive.
   */
  lemma CompareIsConsistent(a: Ranked, b: Ranked, c: Ranked)
    ensures Compare(a, b) < 0 <==> Compare(b, a) > 0
    ensures Compare(a, b) == 0 <==> Compare(b, a) == 0
    ensures Compare(a, b) <= 0 && Compare(b, c) <= 0 ==> Compare(a, c) <= 0
    ensures Compare(a, b) == 0 && Compare(b, c) == 0 ==> Compare(a, c) == 0
  {
  }

  /** What a sort with `Compare` leaves behind: no neighbour pair out of order. */
  predicate SortedByCompare(s: seq<Ranked>)
  {
    forall i :: 0 < i < |s| ==> Compare(s[i - 1], s[i]) <= 0
  }

  /** Siblings by height descending, equal heights by value descending. */
  ghost predicate HeightThenValueDescending(s: seq<Ranked>)
  {
    forall i, j :: 0 <= i < j < |s| ==>
      s[i].height >= s[j].height &&
      (s[i].height == s[j].height ==> s[i].value >= s[j].value)
  }

  /** A sequence is sorted by the comparator exactly when it is in that order. */
  lemma {:induction false} SortedIffDescending(s: seq<Ranked>)
    ensures SortedByCompare(s) <==> HeightThenValueDescending(s)
  {
    if SortedByCompare(s) {
      SortedPairwise(s, |s|);
    }
    if HeightThenValueDescending(s) {
      forall i | 0 < i < |s|
        ensures Compare(s[i - 1], s[i]) <= 0
      {
        assert s[i - 1].height >= s[i].height;
      }
    }
  }

  lemma {:induction false} SortedPairwise(s: seq<Ranked>, n: nat)
    requires n <= |s|
    requires SortedByCompare(s)
    ensures forall i, j :: 0 <= i < j < n ==> Compare(s[i], s[j]) <= 0
  {
    if n > 1 {
      SortedPairwise(s, n - 1);
      forall i | 0 <= i < n - 1
        ensures Compare(s[i], s[n - 1]) <= 0
      {
        CompareIsConsistent(s[i], s[n - 2], s[n - 1]);
      }
    }
  }
}
