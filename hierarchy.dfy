/**
 * The dataset tree and the dotted-path ids written by the `eachBefore`
 * callback (main.js lines 69-72).
 */
module Hierarchy {
  import opened Wrappers

  /**
   * A node of the fetched JSON: its name, its optional category, its value
   * and its children. A node whose children sequence is empty is a leaf.
   */
  datatype Node = Node(name: string, category: Option<string>, value: int, children: seq<Node>)

  /** Number of nodes in a tree. */
  function Size(t: Node): (n: nat)
    ensures n >= 1
  {
    1 + ForestSize(t.children)
  }

  function ForestSize(cs: seq<Node>): nat
  {
    if cs == [] then 0 else Size(cs[0]) + ForestSize(cs[1..])
  }

  /** The id of a node whose parent carries `parentId` (`None`: no parent). */
  function NodeId(parentId: Option<string>, name: string): string
  {
    match parentId
    case None => name
    case Some(p) => p + "." + name
  }

  // ---------------------------------------------------------------------
  // The ids as a tree

  /** A node together with the id assigned to it. */
  datatype Labelled = Labelled(id: string, node: Node, kids: seq<Labelled>)

  /** The id tree of `t`, where `t`'s parent (if any) carries `parentId`. */
  function Label(t: Node, parentId: Option<string>): Labelled
  {
    var id := NodeId(parentId, t.name);
    Labelled(id, t, LabelForest(t.children, id))
  }

  function LabelForest(cs: seq<Node>, parentId: string): (ls: seq<Labelled>)
    ensures |ls| == |cs|
    ensures forall j :: 0 <= j < |cs| ==> ls[j] == Label(cs[j], Some(parentId))
  {
    if cs == [] then [] else [Label(cs[0], Some(parentId))] + LabelForest(cs[1..], parentId)
  }

  /**
   * The property the callback establishes at every node: each child's id is
   * its parent's id, a dot and the child's own name, and the labelled tree
   * follows the shape of the node tree.
   */
  ghost predicate WellLabelled(l: Labelled)
  {
    && |l.kids| == |l.node.children|
    && (forall j :: 0 <= j < |l.kids| ==>
          l.kids[j].node == l.node.children[j] &&
          l.kids[j].id == l.id + "." + l.node.children[j].name)
    && (forall j :: 0 <= j < |l.kids| ==> WellLabelled(l.kids[j]))
  }

  /** The root's id is its own name and every child's id extends its parent's. */
  lemma {:induction false} LabelIsWellLabelled(t: Node, parentId: Option<string>)
    ensures Label(t, parentId).node == t
    ensures parentId == None ==> Label(t, parentId).id == t.name
    ensures parentId.Some? ==> Label(t, parentId).id == parentId.value + "." + t.name
    ensures WellLabelled(Label(t, parentId))
  {
    var l := Label(t, parentId);
    forall j | 0 <= j < |l.kids|
      ensures WellLabelled(l.kids[j])
    {
      LabelIsWellLabelled(t.children[j], Some(l.id));
    }
  }

  /** Only one labelling has those properties: the ids are determined by the names. */
  lemma {:induction false} WellLabelledIsLabel(l: Labelled, parentId: Option<string>)
    requires WellLabelled(l)
    requires l.id == NodeId(parentId, l.node.name)
    ensures l == Label(l.node, parentId)
  {
    var cs := l.node.children;
    forall j | 0 <= j < |l.kids|
      ensures l.kids[j] == Label(cs[j], Some(l.id))
    {
      WellLabelledIsLabel(l.kids[j], Some(l.id));
    }
    assert l.kids == LabelForest(cs, l.id);
  }

  /**
   * Ids are not disambiguated: two siblings with the same name get the same
   * id, together with their whole subtrees when these are equal.
   */
  lemma SameNamedSiblingsCollide(t: Node, parentId: Option<string>, i: nat, j: nat)
    requires i < |t.children| && j < |t.children| && i != j
    requires t.children[i].name == t.children[j].name
    ensures Label(t, parentId).kids[i].id == Label(t, parentId).kids[j].id
  {
  }

  // ---------------------------------------------------------------------
  // The ids in visiting order

  /** The ids of `t`'s subtree in pre-order, the order `eachBefore` visits. */
  function PreorderIds(t: Node, parentId: Option<string>): (ids: seq<string>)
    ensures |ids| == Size(t)
    ensures ids[0] == NodeId(parentId, t.name)
  {
    var id := NodeId(parentId, t.name);
    [id] + ForestIds(t.children, id)
  }

  function ForestIds(cs: seq<Node>, parentId: string): (ids: seq<string>)
    ensures |ids| == ForestSize(cs)
  {
    if cs == [] then [] else PreorderIds(cs[0], Some(parentId)) + ForestIds(cs[1..], parentId)
  }

  /** The ids of a labelled tree, read in pre-order. */
  function LabelIds(l: Labelled): seq<string>
  {
    [l.id] + LabelForestIds(l.kids)
  }

  function LabelForestIds(ls: seq<Labelled>): seq<string>
  {
    if ls == [] then [] else LabelIds(ls[0]) + LabelForestIds(ls[1..])
  }

  /** The visiting-order ids are the ids of the labelling, read in pre-order. */
  lemma {:induction false} PreorderIdsAreLabelIds(t: Node, parentId: Option<string>)
    ensures PreorderIds(t, parentId) == LabelIds(Label(t, parentId))
    decreases t, 1
  {
    ForestIdsAreLabelIds(t.children, NodeId(parentId, t.name));
  }

  lemma {:induction false} ForestIdsAreLabelIds(cs: seq<Node>, parentId: string)
    ensures ForestIds(cs, parentId) == LabelForestIds(LabelForest(cs, parentId))
    decreases cs, 0
  {
    if cs != [] {
      PreorderIdsAreLabelIds(cs[0], Some(parentId));
      ForestIdsAreLabelIds(cs[1..], parentId);
      assert LabelForest(cs, parentId)[1..] == LabelForest(cs[1..], parentId);
    }
  }

  // ---------------------------------------------------------------------
  // The traversal as d3 performs it: nodes in pre-order, each knowing the
  // index of its parent, ids written in place one node after another.

  /** One visited node: its name and the pre-order index of its parent. */
  datatype Entry = Entry(name: string, parent: Option<nat>)

  /** Every parent is visited before its children. */
  ghost predicate ParentsFirst(es: seq<Entry>)
  {
    forall i :: 0 <= i < |es| && es[i].parent.Some? ==> es[i].parent.value < i
  }

  /** The id the callback gives entry `i`: its parent's id, a dot and its name. */
  function PathId(es: seq<Entry>, i: nat): (id: string)
    requires ParentsFirst(es)
    requires i < |es|
    ensures es[i].parent.None? ==> id == es[i].name
    ensures es[i].parent.Some? ==> |id| > |es[i].name|
    decreases i
  {
    match es[i].parent
    case None => es[i].name
    case Some(p) => PathId(es, p) + "." + es[i].name
  }

  /** `t`'s subtree in pre-order, `t` at index `base`, its parent at `parent`. */
  function Flatten(t: Node, parent: Option<nat>, base: nat): (es: seq<Entry>)
    ensures |es| == Size(t)
  {
    [Entry(t.name, parent)] + FlattenForest(t.children, base, base + 1)
  }

  function FlattenForest(cs: seq<Node>, parent: nat, base: nat): (es: seq<Entry>)
    ensures |es| == ForestSize(cs)
  {
    if cs == [] then []
    else Flatten(cs[0], Some(parent), base) + FlattenForest(cs[1..], parent, base + Size(cs[0]))
  }

  /** The callback `d.data.id = (d.parent ? d.parent.data.id + '.' : '') + d.data.name`. */
  method AssignIds(es: seq<Entry>, ids: array<string>)
    requires ParentsFirst(es)
    requires ids.Length == |es|
    modifies ids
    ensures forall i :: 0 <= i < |es| ==> ids[i] == PathId(es, i)
    ensures forall i :: 0 <= i < |es| && es[i].parent.None? ==> ids[i] == es[i].name
    ensures forall i :: 0 <= i < |es| && es[i].parent.Some? ==>
              ids[i] == ids[es[i].parent.value] + "." + es[i].name
  {
    var i := 0;
    while i < |es|
      invariant 0 <= i <= |es|
      invariant forall k :: 0 <= k < i ==> ids[k] == PathId(es, k)
    {
      match es[i].parent {
        case None => ids[i] := es[i].name;
        case Some(p) => ids[i] := ids[p] + "." + es[i].name;
      }
      i := i + 1;
    }
  }

  // ---------------------------------------------------------------------
  // The traversal agrees with the tree

  /** Flattening puts every parent before its children. */
  lemma {:induction false} FlattenParentsFirst(t: Node, parent: Option<nat>, base: nat)
    requires parent.Some? ==> parent.value < base
    ensures forall k :: 0 <= k < Size(t) && Flatten(t, parent, base)[k].parent.Some? ==>
              Flatten(t, parent, base)[k].parent.value < base + k
  {
    var es := Flatten(t, parent, base);
    var rest := FlattenForest(t.children, base, base + 1);
    FlattenForestParentsFirst(t.children, base, base + 1);
    forall k | 1 <= k < Size(t) && es[k].parent.Some?
      ensures es[k].parent.value < base + k
    {
      assert es[k] == rest[k - 1];
    }
  }

  lemma {:induction false} FlattenForestParentsFirst(cs: seq<Node>, parent: nat, base: nat)
    requires parent < base
    ensures forall k :: 0 <= k < ForestSize(cs) && FlattenForest(cs, parent, base)[k].parent.Some? ==>
              FlattenForest(cs, parent, base)[k].parent.value < base + k
  {
    if cs != [] {
      var es := FlattenForest(cs, parent, base);
      var first := Flatten(cs[0], Some(parent), base);
      var rest := FlattenForest(cs[1..], parent, base + Size(cs[0]));
      FlattenParentsFirst(cs[0], Some(parent), base);
      FlattenForestParentsFirst(cs[1..], parent, base + Size(cs[0]));
      forall k | 0 <= k < ForestSize(cs) && es[k].parent.Some?
        ensures es[k].parent.value < base + k
      {
        if k < Size(cs[0]) {
          assert es[k] == first[k];
        } else {
          assert es[k] == rest[k - Size(cs[0])];
        }
      }
    }
  }

  /** The ids the callback gives the `len` slots of the visiting order from `lo` on. */
  function PathIds(es: seq<Entry>, lo: nat, len: nat): (ids: seq<string>)
    requires ParentsFirst(es)
    requires lo + len <= |es|
    ensures |ids| == len
  {
    seq(len, k requires 0 <= k < len => PathId(es, lo + k))
  }

  lemma PathIdsAppend(es: seq<Entry>, lo: nat, a: nat, b: nat)
    requires ParentsFirst(es)
    requires lo + a + b <= |es|
    ensures PathIds(es, lo, a + b) == PathIds(es, lo, a) + PathIds(es, lo + a, b)
  {
    var whole, left, right := PathIds(es, lo, a + b), PathIds(es, lo, a), PathIds(es, lo + a, b);
    forall k | 0 <= k < a + b
      ensures whole[k] == (left + right)[k]
    {
      if k >= a {
        assert right[k - a] == PathId(es, lo + a + (k - a));
      }
    }
  }

  lemma SliceSplit<T>(s: seq<T>, lo: nat, a: nat, b: nat, x: seq<T>, y: seq<T>)
    requires lo + a + b <= |s| && |x| == a && |y| == b
    requires s[lo..lo + (a + b)] == x + y
    ensures s[lo..lo + a] == x && s[lo + a..lo + a + b] == y
  {
    assert s[lo..lo + a] == s[lo..lo + (a + b)][..a];
    assert s[lo + a..lo + a + b] == s[lo..lo + (a + b)][a..];
  }

  /** `t`'s subtree, with its parent at `parent`, fills the slots of `es` from `base` on in pre-order. */
  ghost predicate Occupies(es: seq<Entry>, t: Node, parent: Option<nat>, base: nat)
    decreases t, 1
  {
    && base < |es|
    && es[base] == Entry(t.name, parent)
    && OccupiesForest(es, t.children, base, base + 1)
  }

  ghost predicate OccupiesForest(es: seq<Entry>, cs: seq<Node>, parent: nat, base: nat)
    decreases cs, 0
  {
    cs != [] ==>
      Occupies(es, cs[0], Some(parent), base) &&
      OccupiesForest(es, cs[1..], parent, base + Size(cs[0]))
  }

  lemma {:induction false} FlattenOccupies(es: seq<Entry>, t: Node, parent: Option<nat>, base: nat)
    requires base + Size(t) <= |es|
    requires es[base..base + Size(t)] == Flatten(t, parent, base)
    ensures Occupies(es, t, parent, base)
    decreases t, 1
  {
    var m := ForestSize(t.children);
    SliceSplit(es, base, 1, m, [Entry(t.name, parent)], FlattenForest(t.children, base, base + 1));
    assert es[base] == es[base..base + 1][0];
    FlattenForestOccupies(es, t.children, base, base + 1);
  }

  lemma {:induction false} FlattenForestOccupies(es: seq<Entry>, cs: seq<Node>, parent: nat, base: nat)
    requires base + ForestSize(cs) <= |es|
    requires es[base..base + ForestSize(cs)] == FlattenForest(cs, parent, base)
    ensures OccupiesForest(es, cs, parent, base)
    decreases cs, 0
  {
    if cs != [] {
      var a, b := Size(cs[0]), ForestSize(cs[1..]);
      SliceSplit(es, base, a, b, Flatten(cs[0], Some(parent), base),
                 FlattenForest(cs[1..], parent, base + a));
      FlattenOccupies(es, cs[0], Some(parent), base);
      FlattenForestOccupies(es, cs[1..], parent, base + a);
    }
  }

  /**
   * Inside any visiting order `es` in which `t`'s subtree occupies the slots
   * from `base` on, the ids the callback computes are `t`'s pre-order ids.
   */
  lemma {:induction false} PathIdsOfTree(es: seq<Entry>, t: Node, parent: Option<nat>,
                                         parentId: Option<string>, base: nat)
    requires ParentsFirst(es)
    requires base + Size(t) <= |es|
    requires Occupies(es, t, parent, base)
    requires parent.None? <==> parentId.None?
    requires parent.Some? ==> parent.value < |es| && PathId(es, parent.value) == parentId.value
    ensures PathIds(es, base, Size(t)) == PreorderIds(t, parentId)
    decreases t, 1
  {
    var id := NodeId(parentId, t.name);
    assert PathId(es, base) == id;
    assert PathIds(es, base, 1) == [id];
    PathIdsOfForest(es, t.children, base, id, base + 1);
    PathIdsAppend(es, base, 1, ForestSize(t.children));
  }

  lemma {:induction false} PathIdsOfForest(es: seq<Entry>, cs: seq<Node>, parent: nat,
                                           parentId: string, base: nat)
    requires ParentsFirst(es)
    requires parent < |es| && PathId(es, parent) == parentId
    requires base + ForestSize(cs) <= |es|
    requires OccupiesForest(es, cs, parent, base)
    ensures PathIds(es, base, ForestSize(cs)) == ForestIds(cs, parentId)
    decreases cs, 0
  {
    if cs != [] {
      var a, b := Size(cs[0]), ForestSize(cs[1..]);
      PathIdsOfTree(es, cs[0], Some(parent), Some(parentId), base);
      PathIdsOfForest(es, cs[1..], parent, parentId, base + a);
      PathIdsAppend(es, base, a, b);
    }
  }

  /**
   * The whole `eachBefore` pass over a tree: visiting `t` in pre-order and
   * writing each id in place yields, slot by slot, `t`'s pre-order ids.
   */
  method AssignTreeIds(t: Node) returns (es: seq<Entry>, ids: array<string>)
    ensures es == Flatten(t, None, 0)
    ensures ids.Length == Size(t)
    ensures ids[..] == PreorderIds(t, None)
    ensures ids[..] == LabelIds(Label(t, None))
  {
    es := Flatten(t, None, 0);
    FlattenParentsFirst(t, None, 0);
    ids := new string[|es|];
    AssignIds(es, ids);
    assert es[0..Size(t)] == es;
    FlattenOccupies(es, t, None, 0);
    PathIdsOfTree(es, t, None, None, 0);
    assert ids[..] == PathIds(es, 0, |es|);
    PreorderIdsAreLabelIds(t, None);
  }

  // ---------------------------------------------------------------------
  // Leaves

  /** All nodes of `t` in pre-order. */
  function PreorderNodes(t: Node): (ns: seq<Node>)
    ensures |ns| == Size(t) && ns[0] == t
  {
    [t] + ForestNodes(t.children)
  }

  function ForestNodes(cs: seq<Node>): (ns: seq<Node>)
    ensures |ns| == ForestSize(cs)
  {
    if cs == [] then [] else PreorderNodes(cs[0]) + ForestNodes(cs[1..])
  }

  /** The childless nodes among `ns`, in order. */
  function Childless(ns: seq<Node>): (ls: seq<Node>)
  {
    if ns == [] then []
    else (if ns[0].children == [] then [ns[0]] else []) + Childless(ns[1..])
  }

  /** `root.leaves()`: the leaves of `t`, left to right. */
  function Leaves(t: Node): (ls: seq<Node>)
    ensures |ls| >= 1
    ensures forall i :: 0 <= i < |ls| ==> ls[i].children == []
  {
    if t.children == [] then [t] else ForestLeaves(t.children)
  }

  function ForestLeaves(cs: seq<Node>): (ls: seq<Node>)
    ensures cs != [] ==> |ls| >= 1
    ensures forall i :: 0 <= i < |ls| ==> ls[i].children == []
  {
    if cs == [] then [] else Leaves(cs[0]) + ForestLeaves(cs[1..])
  }

  lemma {:induction false} ChildlessAppend(a: seq<Node>, b: seq<Node>)
    ensures Childless(a + b) == Childless(a) + Childless(b)
  {
    if a == [] {
      assert a + b == b;
    } else {
      assert (a + b)[1..] == a[1..] + b;
      ChildlessAppend(a[1..], b);
    }
  }

  /**
   * The leaves are exactly the childless nodes of a pre-order walk, in the
   * order of that walk; every leaf has no children and a tree has at least one.
   */
  lemma {:induction false} LeavesArePreorderChildless(t: Node)
    ensures Leaves(t) == Childless(PreorderNodes(t))
    ensures |Leaves(t)| >= 1
    ensures forall l :: l in Leaves(t) ==> l.children == []
    decreases t, 1
  {
    ForestLeavesArePreorderChildless(t.children);
    ChildlessAppend([t], ForestNodes(t.children));
    if t.children != [] {
      LeavesArePreorderChildless(t.children[0]);
      assert Leaves(t.children[0]) <= ForestLeaves(t.children);
    }
  }

  lemma {:induction false} ForestLeavesArePreorderChildless(cs: seq<Node>)
    ensures ForestLeaves(cs) == Childless(ForestNodes(cs))
    ensures forall l :: l in ForestLeaves(cs) ==> l.children == []
    decreases cs, 0
  {
    if cs != [] {
      LeavesArePreorderChildless(cs[0]);
      ForestLeavesArePreorderChildless(cs[1..]);
      ChildlessAppend(PreorderNodes(cs[0]), ForestNodes(cs[1..]));
    }
  }
}
