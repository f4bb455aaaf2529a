/**
 * The legend's category list (main.js lines 165-171): the leaves' categories,
 * deduplicated with `self.indexOf(category) === index`.
 */
module Categories {
  import opened Wrappers
  import opened Hierarchy

  /** `Array.prototype.indexOf` with strict equality: the first index of `x`, or -1. */
  function IndexOf<T(==)>(xs: seq<T>, x: T): (r: int)
    ensures -1 <= r < |xs|
    ensures r == -1 <==> x !in xs
    ensures r >= 0 ==> xs[r] == x && forall j :: 0 <= j < r ==> xs[j] != x
  {
    if xs == [] then -1
    else if xs[0] == x then 0
    else
      var r := IndexOf(xs[1..], x);
      if r == -1 then -1 else r + 1
  }

  /** The filter applied to the first `n` elements: keep `xs[i]` when it occurs first at `i`. */
  function KeepFirsts<T(==)>(xs: seq<T>, n: nat): (r: seq<T>)
    requires n <= |xs|
    ensures |r| <= n
    ensures forall x :: x in r ==> x in xs[..n]
  {
    if n == 0 then []
    else KeepFirsts(xs, n - 1) + (if IndexOf(xs, xs[n - 1]) == n - 1 then [xs[n - 1]] else [])
  }

  /** `xs.filter((x, index, self) => self.indexOf(x) === index)`. */
  function Dedup<T(==)>(xs: seq<T>): (r: seq<T>)
    ensures |r| <= |xs|
    ensures forall x :: x in r ==> x in xs
  {
    KeepFirsts(xs, |xs|)
  }

  ghost predicate NoDuplicates<T>(s: seq<T>)
  {
    forall i, j :: 0 <= i < j < |s| ==> s[i] != s[j]
  }

  /** A reference definition: walk left to right, append what has not been seen. */
  function Unique<T(==)>(xs: seq<T>): seq<T>
  {
    if xs == [] then []
    else
      var init := xs[..|xs| - 1];
      Unique(init) + (if xs[|xs| - 1] in init then [] else [xs[|xs| - 1]])
  }

  lemma {:induction false} KeepFirstsFacts<T>(xs: seq<T>, n: nat)
    requires n <= |xs|
    ensures |KeepFirsts(xs, n)| <= n
    ensures forall x :: x in KeepFirsts(xs, n) <==> x in xs[..n]
    ensures forall i :: 0 <= i < |KeepFirsts(xs, n)| ==> 0 <= IndexOf(xs, KeepFirsts(xs, n)[i]) < n
    ensures forall i, j :: 0 <= i < j < |KeepFirsts(xs, n)| ==>
              IndexOf(xs, KeepFirsts(xs, n)[i]) < IndexOf(xs, KeepFirsts(xs, n)[j])
  {
    KeepFirstsMembers(xs, n);
    KeepFirstsOrder(xs, n);
  }

  /** The kept elements are exactly the elements of the prefix. */
  lemma {:induction false} KeepFirstsMembers<T>(xs: seq<T>, n: nat)
    requires n <= |xs|
    ensures |KeepFirsts(xs, n)| <= n
    ensures forall x :: x in KeepFirsts(xs, n) <==> x in xs[..n]
  {
    if n > 0 {
      KeepFirstsMembers(xs, n - 1);
      var x := xs[n - 1];
      var k := IndexOf(xs, x);
      assert xs[..n] == xs[..n - 1] + [x];
      if k != n - 1 {
        assert xs[..n - 1][k] == x;
      }
    }
  }

  /** The kept elements come in the order of their first occurrence, all within the prefix. */
  lemma {:induction false} KeepFirstsOrder<T>(xs: seq<T>, n: nat)
    requires n <= |xs|
    ensures forall i :: 0 <= i < |KeepFirsts(xs, n)| ==> 0 <= IndexOf(xs, KeepFirsts(xs, n)[i]) < n
    ensures forall i, j :: 0 <= i < j < |KeepFirsts(xs, n)| ==>
              IndexOf(xs, KeepFirsts(xs, n)[i]) < IndexOf(xs, KeepFirsts(xs, n)[j])
  {
    if n > 0 {
      KeepFirstsOrder(xs, n - 1);
    }
  }

  /** The filter keeps each element of `xs` once, in the order of first occurrence. */
  lemma DedupFacts<T>(xs: seq<T>)
    ensures |Dedup(xs)| <= |xs|
    ensures NoDuplicates(Dedup(xs))
    ensures forall x :: x in Dedup(xs) <==> x in xs
    ensures forall i, j :: 0 <= i < j < |Dedup(xs)| ==>
              IndexOf(xs, Dedup(xs)[i]) < IndexOf(xs, Dedup(xs)[j])
  {
    KeepFirstsFacts(xs, |xs|);
    assert xs[..|xs|] == xs;
  }

  lemma {:induction false} KeepFirstsIsUnique<T>(xs: seq<T>, n: nat)
    requires n <= |xs|
    ensures KeepFirsts(xs, n) == Unique(xs[..n])
  {
    if n > 0 {
      KeepFirstsIsUnique(xs, n - 1);
      assert xs[..n][..n - 1] == xs[..n - 1];
      var x := xs[n - 1];
      var k := IndexOf(xs, x);
      if k < n - 1 {
        assert xs[..n - 1][k] == x;
      } else {
        AbsentFromPrefix(xs, n - 1, x);
      }
    }
  }

  lemma AbsentFromPrefix<T>(xs: seq<T>, m: nat, x: T)
    requires m <= |xs|
    requires forall j :: 0 <= j < m ==> xs[j] != x
    ensures x !in xs[..m]
  {
    var p := xs[..m];
    assert forall j :: 0 <= j < m ==> p[j] == xs[j];
  }

  /** The indexOf filter agrees with the left-to-right walk. */
  lemma DedupIsUnique<T>(xs: seq<T>)
    ensures Dedup(xs) == Unique(xs)
  {
    KeepFirstsIsUnique(xs, |xs|);
    assert xs[..|xs|] == xs;
  }

  lemma {:induction false} DistinctKeptWhole<T>(ys: seq<T>, n: nat)
    requires NoDuplicates(ys)
    requires n <= |ys|
    ensures KeepFirsts(ys, n) == ys[..n]
  {
    if n > 0 {
      DistinctKeptWhole(ys, n - 1);
      var k := IndexOf(ys, ys[n - 1]);
      assert ys[k] == ys[n - 1];
      assert k == n - 1;
      assert ys[..n] == ys[..n - 1] + [ys[n - 1]];
    }
  }

  /** A list without repetitions is left as it is, so deduplicating twice changes nothing. */
  lemma DedupIdempotent<T>(xs: seq<T>)
    ensures Dedup(Dedup(xs)) == Dedup(xs)
  {
    DedupFacts(xs);
    var ys := Dedup(xs);
    DistinctKeptWhole(ys, |ys|);
    assert ys[..|ys|] == ys;
  }

  // ---------------------------------------------------------------------
  // The legend's categories

  /** `root.leaves().map(nodes => nodes.data.category)`. */
  function LeafCategories(t: Node): seq<Option<string>>
  {
    seq(|Leaves(t)|, i requires 0 <= i < |Leaves(t)| => Leaves(t)[i].category)
  }

  /** The `categories` array the legend is drawn from. */
  function LegendCategories(t: Node): (cs: seq<Option<string>>)
    ensures |cs| <= |Leaves(t)|
  {
    Dedup(LeafCategories(t))
  }

  /**
   * Every leaf's category is listed, everything listed is some leaf's
   * category, nothing is listed twice, the list is ordered by first
   * occurrence among the leaves and is no longer than the leaf count.
   */
  lemma LegendCategoriesFacts(t: Node)
    ensures forall l :: l in Leaves(t) ==> l.category in LegendCategories(t)
    ensures forall c :: c in LegendCategories(t) ==>
              exists l :: l in Leaves(t) && l.category == c
    ensures NoDuplicates(LegendCategories(t))
    ensures forall i, j :: 0 <= i < j < |LegendCategories(t)| ==>
              IndexOf(LeafCategories(t), LegendCategories(t)[i]) <
              IndexOf(LeafCategories(t), LegendCategories(t)[j])
    ensures 1 <= |LegendCategories(t)| <= |Leaves(t)|
  {
    DedupFacts(LeafCategories(t));
    LegendListsEveryLeaf(t);
    LegendListsOnlyLeaves(t);
    LeavesArePreorderChildless(t);
    assert Leaves(t)[0] in Leaves(t);
  }

  lemma LegendListsEveryLeaf(t: Node)
    ensures forall l :: l in Leaves(t) ==> l.category in LegendCategories(t)
  {
    var ls, cs := Leaves(t), LeafCategories(t);
    DedupFacts(cs);
    forall l | l in ls
      ensures l.category in LegendCategories(t)
    {
      var i :| 0 <= i < |ls| && ls[i] == l;
      assert cs[i] == l.category;
    }
  }

  lemma LegendListsOnlyLeaves(t: Node)
    ensures forall c :: c in LegendCategories(t) ==>
              exists l :: l in Leaves(t) && l.category == c
  {
    var ls, cs := Leaves(t), LeafCategories(t);
    DedupFacts(cs);
    forall c | c in LegendCategories(t)
      ensures exists l :: l in ls && l.category == c
    {
      var i :| 0 <= i < |cs| && cs[i] == c;
      assert ls[i] in ls;
    }
  }

  /** Recomputing the list from itself gives the same legend. */
  lemma LegendCategoriesStable(t: Node)
    ensures Dedup(LegendCategories(t)) == LegendCategories(t)
  {
    DedupIdempotent(LeafCategories(t));
  }
}
