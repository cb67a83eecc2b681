/**
 * HistogramItem.Insert (histogram-item.go): add `count` copies of a value below a
 * node, hanging a new leaf when the value is new, then walking UpdateHeight(true)
 * towards the root. The contracts say what an insertion does to the stored values,
 * the order, the Count augmentation and the heights.
 */
module Insertion {
  import opened HistogramItem
  import opened RotationLemmas

  /** The new subtree, and whether UpdateHeight's walk towards the root is under way. */
  datatype Inserted = Inserted(tree: Item, rebalance: bool)

  /** After a child of n has changed: walk UpdateHeight(true) at n when the walk is
      under way, and report that it goes on upwards. */
  function Resume(n: Item, walk: bool, variant: Variant): (r: Inserted)
    requires n.Node?
    ensures r.tree.Node? && r.rebalance == walk
    ensures Keys(r.tree) == Keys(n) && Contents(r.tree) == Contents(n)
    ensures forall x :: Occurrences(r.tree, x) == Occurrences(n, x)
    ensures Ordered(n) ==> Ordered(r.tree)
    ensures CountsOk(n) ==> CountsOk(r.tree) && Count(r.tree) == Count(n)
    ensures HeightsOk(n.left) && HeightsOk(n.right) && (walk || HeightsOk(n)) ==> HeightsOk(r.tree)
    ensures !walk ==> r.tree == n
  {
    StepKeepsValues(n, true, variant);
    StepKeepsAllOccurrences(n, true, variant);
    StepKeepsCounts(n, true, variant);
    StepKeepsHeights(n, true, variant);
    if walk then Inserted(Step(n, true, variant), true) else Inserted(n, false)
  }

  /** Replacing the left child of t by one that also holds v (v below t's value). */
  lemma GrowLeft(t: Item, l: Item, v: real, count: nat)
    requires t.Node? && v < t.value
    requires Keys(l) == Keys(t.left) + {v}
    requires Ordered(t.left) ==> Ordered(l)
    ensures var n := t.(left := l, count := t.count + count);
      && Keys(n) == Keys(t) + {v}
      && (Ordered(t) ==> Ordered(n))
  {
  }

  /** The mirror image of GrowLeft. */
  lemma GrowRight(t: Item, r: Item, v: real, count: nat)
    requires t.Node? && t.value < v
    requires Keys(r) == Keys(t.right) + {v}
    requires Ordered(t.right) ==> Ordered(r)
    ensures var n := t.(right := r, count := t.count + count);
      && Keys(n) == Keys(t) + {v}
      && (Ordered(t) ==> Ordered(n))
  {
  }

  /** Insert(v, count) when v is already stored: the node holding it gets `count`
      more Duplications and every Count on the way down to it grows by `count`;
      the shape is unchanged and no rebalancing starts. */
  function Bumped(t: Item, v: real, count: nat): Item
  {
    if t.Nil? then Nil
    else if v == t.value then t.(dups := t.dups + count, count := t.count + count)
    else if v < t.value then t.(left := Bumped(t.left, v, count), count := t.count + count)
    else t.(right := Bumped(t.right, v, count), count := t.count + count)
  }

  /** When Insert keeps the Counts exact: always under the intended rule; as written,
      when one copy is inserted (the new node's Count 1 is then right) or when v is
      already stored (no new node is made). */
  ghost predicate ExactCounts(t: Item, v: real, count: nat, variant: Variant)
  {
    variant == Intended || count == 1 || (Ordered(t) && v in Keys(t))
  }

  /** What Insert(v, count) at node t promises: exactly `count` copies of v are
      added and nothing else changes among the values; the order, the Counts and
      the heights stay exact, a subtree whose walk has not started keeps its height,
      and under the intended rotation rule an AVL subtree stays one (Grown). */
  ghost predicate Added(t: Item, r: Inserted, v: real, count: nat, variant: Variant)
  {
    && r.tree.Node?
    && Keys(r.tree) == Keys(t) + {v}
    && (forall x :: Occurrences(r.tree, x) == Occurrences(t, x) + (if x == v then count else 0))
    && (Ordered(t) ==> Ordered(r.tree))
    && (ExactCounts(t, v, count, variant) && CountsOk(t) ==> CountsOk(r.tree) && Count(r.tree) == Count(t) + count)
    && (HeightsOk(t) ==> HeightsOk(r.tree) && (!r.rebalance ==> Height(r.tree) == Height(t)))
    && (variant == Intended && HeightsOk(t) && Balanced(t) ==> Grown(t, r.tree))
    && (Ordered(t) && v in Keys(t) ==> r == Inserted(Bumped(t, v, count), false))
  }

  /** Insert(v, count) at node t: bump the node holding v, or go down to the side v
      belongs on and Resume the walk at t. */
  function InsertAt(t: Item, v: real, count: nat, variant: Variant): (r: Inserted)
    requires t.Node?
    ensures Added(t, r, v, count, variant)
    decreases t, 0
  {
    if v == t.value then Inserted(t.(dups := t.dups + count, count := t.count + count), false)
    else if v < t.value then
      var sub := InsertInto(t.left, t.right, v, count, variant);
      RejoinLeft(t, sub, v, count, variant);
      Resume(t.(left := sub.tree, count := t.count + count), sub.rebalance, variant)
    else
      var sub := InsertInto(t.right, t.left, v, count, variant);
      RejoinRight(t, sub, v, count, variant);
      Resume(t.(right := sub.tree, count := t.count + count), sub.rebalance, variant)
  }

  /** What InsertInto promises about the child on v's side, its sibling and the result. */
  ghost predicate AddedBelow(child: Item, sibling: Item, r: Inserted, v: real, count: nat, variant: Variant)
  {
    && r.tree.Node?
    && Keys(r.tree) == Keys(child) + {v}
    && (forall x :: Occurrences(r.tree, x) == Occurrences(child, x) + (if x == v then count else 0))
    && (Ordered(child) ==> Ordered(r.tree))
    && (ExactCounts(child, v, count, variant) && CountsOk(child) ==> CountsOk(r.tree) && Count(r.tree) == Count(child) + count)
    && (HeightsOk(child) && HeightsOk(sibling) ==>
         HeightsOk(r.tree) && (!r.rebalance ==> Max(Height(r.tree), Height(sibling)) == Max(Height(child), Height(sibling))))
    && (variant == Intended && HeightsOk(child) && Balanced(child) && HeightsOk(sibling) && -1 <= Height(child) - Height(sibling) <= 1 ==>
         Grown(child, r.tree) && (!r.rebalance ==> -1 <= Height(r.tree) - Height(sibling) <= 1))
    && (Ordered(child) && v in Keys(child) ==> r == Inserted(Bumped(child, v, count), false))
  }

  /** One level of InsertAt on the left: what happened below t carries over to t once
      Resume has run there. */
  lemma RejoinLeft(t: Item, sub: Inserted, v: real, count: nat, variant: Variant)
    requires t.Node? && v < t.value
    requires AddedBelow(t.left, t.right, sub, v, count, variant)
    ensures Added(t, Resume(t.(left := sub.tree, count := t.count + count), sub.rebalance, variant), v, count, variant)
  {
    var r := Resume(t.(left := sub.tree, count := t.count + count), sub.rebalance, variant);
    GrowLeft(t, sub.tree, v, count);
    ResumeBalanced(t, sub, true, count, variant);
    assert forall x :: Occurrences(r.tree, x) == Occurrences(t, x) + (if x == v then count else 0);
  }

  /** The mirror image of RejoinLeft. */
  lemma RejoinRight(t: Item, sub: Inserted, v: real, count: nat, variant: Variant)
    requires t.Node? && t.value < v
    requires AddedBelow(t.right, t.left, sub, v, count, variant)
    ensures Added(t, Resume(t.(right := sub.tree, count := t.count + count), sub.rebalance, variant), v, count, variant)
  {
    var r := Resume(t.(right := sub.tree, count := t.count + count), sub.rebalance, variant);
    GrowRight(t, sub.tree, v, count);
    ResumeBalanced(t, sub, false, count, variant);
    assert forall x :: Occurrences(r.tree, x) == Occurrences(t, x) + (if x == v then count else 0);
  }

  /** What an insertion does to an AVL subtree under the intended rotation rule: the
      result is balanced, at most one higher, and when it did grow it leans towards
      the side that grew (so that a rotation above it restores the old height). */
  ghost predicate Grown(t: Item, r: Item)
  {
    && HeightsOk(r) && Balanced(r)
    && Height(t) <= Height(r) <= Height(t) + 1
    && (Height(r) == Height(t) + 1 && t.Node? ==> Leans(r))
  }

  /** The balance step of InsertAt: the child on v's side has grown as Grown says,
      and Resume restores Grown one level up. */
  lemma ResumeBalanced(t: Item, sub: Inserted, left: bool, count: nat, variant: Variant)
    requires t.Node?
    ensures var c := if left then t.left else t.right;
      var s := if left then t.right else t.left;
      var n := if left then t.(left := sub.tree, count := t.count + count) else t.(right := sub.tree, count := t.count + count);
      && variant == Intended && HeightsOk(t) && Balanced(t) && Grown(c, sub.tree)
      && (!sub.rebalance ==> -1 <= Height(sub.tree) - Height(s) <= 1 && Max(Height(sub.tree), Height(s)) == Max(Height(c), Height(s)))
      ==> Grown(t, Resume(n, sub.rebalance, variant).tree)
  {
    var c := if left then t.left else t.right;
    var s := if left then t.right else t.left;
    var n := if left then t.(left := sub.tree, count := t.count + count) else t.(right := sub.tree, count := t.count + count);
    if variant == Intended && HeightsOk(t) && Balanced(t) && Grown(c, sub.tree) && sub.rebalance {
      StepBalances(n, true);
      StepKeepsHeights(n, true, Intended);
    }
  }

  /** Insert below a node whose child on v's side is `child`: hang a new leaf there
      when it is empty, and start the UpdateHeight(true) walk only when the leaf is
      its parent's only child (its `sibling` is empty too). A walk that does not
      start leaves the parent's height as it was. */
  function InsertInto(child: Item, sibling: Item, v: real, count: nat, variant: Variant): (r: Inserted)
    ensures AddedBelow(child, sibling, r, v, count, variant)
    decreases child, 1
  {
    if child.Nil? then Inserted(NewLeaf(v, count, variant), sibling.Nil?)
    else InsertAt(child, v, count, variant)
  }

  /** The tree after root.Insert(v, count), whatever root it ends up with. */
  function Insert(t: Item, v: real, count: nat, variant: Variant): (r: Item)
    requires t.Node?
    ensures Contents(r) == Contents(t) + Copies(v, count) && Keys(r) == Keys(t) + {v}
    ensures Ordered(t) ==> Ordered(r)
    ensures ExactCounts(t, v, count, variant) && CountsOk(t) ==> CountsOk(r) && Count(r) == Count(t) + count
    ensures Ordered(t) && v in Keys(t) ==> r == Bumped(t, v, count)
    ensures HeightsOk(t) ==> HeightsOk(r)
    ensures variant == Intended && IsAvl(t) ==> IsAvl(r) && Height(t) <= Height(r) <= Height(t) + 1
  {
    InsertContents(t, v, count, variant);
    InsertAt(t, v, count, variant).tree
  }

  /** The stored copies, as a multiset: Insert adds exactly `count` copies of v. */
  lemma InsertContents(t: Item, v: real, count: nat, variant: Variant)
    requires t.Node?
    ensures Contents(InsertAt(t, v, count, variant).tree) == Contents(t) + Copies(v, count)
  {
    ContentsByOccurrences(t, InsertAt(t, v, count, variant).tree, Copies(v, count));
  }
}
