/**
 * HistogramItem.Delete (histogram-item.go): remove one copy of a node's value;
 * with its last copy the node itself goes, replaced by the largest node of its left
 * subtree (FindLargestInLeft) or, without a left child, by the smallest of its
 * right subtree (FindSmallestInRight). The Counts on the way to the root drop, and
 * UpdateHeight(false) runs from the lowest changed node to the root.
 */
module Deletion {
  import opened HistogramItem
  import opened RotationLemmas

  /** What is left of a subtree after unlinking one node, and that node. */
  datatype Detached = Detached(rest: Item, node: Item)

  /** What a removal does to an AVL subtree under the intended rotation rule: the
      result is balanced with exact heights, and at most one lower. */
  ghost predicate Shrunk(t: Item, r: Item)
  {
    HeightsOk(r) && Balanced(r) && Height(t) - 1 <= Height(r) <= Height(t)
  }

  /** UpdateHeight(false) at n, a node standing where t stood whose subtree on one
      side has Shrunk and whose other subtree is t's: n's subtree Shrunk from t's. */
  lemma StepAfterShrink(t: Item, n: Item, left: bool, variant: Variant)
    requires t.Node? && n.Node?
    requires if left then n.right == t.right else n.left == t.left
    ensures variant == Intended && HeightsOk(t) && Balanced(t) && Shrunk(if left then t.left else t.right, if left then n.left else n.right)
      ==> Shrunk(t, Step(n, false, variant))
  {
    if variant == Intended && HeightsOk(t) && Balanced(t) && Shrunk(if left then t.left else t.right, if left then n.left else n.right) {
      assert HeightsOk(t.left) && HeightsOk(t.right) && Balanced(t.left) && Balanced(t.right);
      assert Height(t) == 1 + Max(Height(t.left), Height(t.right));
      StepBalances(n, false);
      StepKeepsHeights(n, false, variant);
    }
  }

  /** FindLargestInLeft's node unlinked from t (its left child takes its place), with
      the Counts on its path reduced by its Duplications and UpdateHeight(false)
      applied on the way up. In an ordered tree it is the largest value, which no
      longer occurs in what is left. */
  function RemoveMax(t: Item, variant: Variant): (r: Detached)
    requires t.Node?
    ensures r.node.Node?
    ensures Keys(r.rest) + {r.node.value} == Keys(t)
    ensures forall x :: Occurrences(r.rest, x) + (if r.node.value == x then r.node.dups else 0) == Occurrences(t, x)
    ensures Ordered(t) ==> Ordered(r.rest) && r.node.value !in Keys(r.rest) && r.node.value == Rightmost(t)
    ensures CountsOk(t) ==> CountsOk(r.rest) && Count(r.rest) == Count(t) - r.node.dups
    ensures HeightsOk(t) ==> HeightsOk(r.rest)
    ensures variant == Intended && HeightsOk(t) && Balanced(t) ==> Shrunk(t, r.rest)
  {
    if t.right.Nil? then Detached(t.left, t)
    else
      var d := RemoveMax(t.right, variant);
      var n := t.(right := d.rest, count := t.count - d.node.dups);
      StepAfterShrink(t, n, false, variant);
      StepKeepsValues(n, false, variant);
      StepKeepsAllOccurrences(n, false, variant);
      StepKeepsCounts(n, false, variant);
      StepKeepsHeights(n, false, variant);
      Detached(Step(n, false, variant), d.node)
  }

  /** FindSmallestInRight's node unlinked from t, the mirror image of RemoveMax. */
  function RemoveMin(t: Item, variant: Variant): (r: Detached)
    requires t.Node?
    ensures r.node.Node?
    ensures Keys(r.rest) + {r.node.value} == Keys(t)
    ensures forall x :: Occurrences(r.rest, x) + (if r.node.value == x then r.node.dups else 0) == Occurrences(t, x)
    ensures Ordered(t) ==> Ordered(r.rest) && r.node.value !in Keys(r.rest) && r.node.value == Leftmost(t)
    ensures CountsOk(t) ==> CountsOk(r.rest) && Count(r.rest) == Count(t) - r.node.dups
    ensures HeightsOk(t) ==> HeightsOk(r.rest)
    ensures variant == Intended && HeightsOk(t) && Balanced(t) ==> Shrunk(t, r.rest)
  {
    if t.left.Nil? then Detached(t.right, t)
    else
      var d := RemoveMin(t.left, variant);
      var n := t.(left := d.rest, count := t.count - d.node.dups);
      StepAfterShrink(t, n, true, variant);
      StepKeepsValues(n, false, variant);
      StepKeepsAllOccurrences(n, false, variant);
      StepKeepsCounts(n, false, variant);
      StepKeepsHeights(n, false, variant);
      Detached(Step(n, false, variant), d.node)
  }

  /** Delete on a node with Duplications > 1: one copy less there and one less in
      the Count of every node on its path; no node moves. */
  function Decrement(t: Item, v: real): (r: Item)
    requires Find(t, v).Node? && Find(t, v).dups > 1
    ensures Keys(r) == Keys(t) && InOrder(r) == InOrder(t)
    ensures forall x :: Occurrences(r, x) + (if v == x then 1 else 0) == Occurrences(t, x)
    ensures Ordered(t) ==> Ordered(r)
    ensures CountsOk(t) ==> CountsOk(r) && Count(r) == Count(t) - 1
    ensures HeightsOk(t) ==> HeightsOk(r) && Height(r) == Height(t)
    ensures Balanced(t) ==> Balanced(r)
  {
    if v == t.value then t.(dups := t.dups - 1, count := t.count - 1)
    else if v < t.value then t.(left := Decrement(t.left, v), count := t.count - 1)
    else t.(right := Decrement(t.right, v), count := t.count - 1)
  }

  /** The node that replaces t when its predecessor m (with k copies) has been
      unlinked from t's left subtree, leaving `rest`. */
  lemma PredecessorInPlace(t: Item, rest: Item, m: Item)
    requires t.Node? && t.left.Node? && m.Node?
    requires Keys(rest) + {m.value} == Keys(t.left)
    requires forall x :: Occurrences(rest, x) + (if m.value == x then m.dups else 0) == Occurrences(t.left, x)
    requires Ordered(t.left) ==> Ordered(rest) && m.value !in Keys(rest) && m.value == Rightmost(t.left)
    requires CountsOk(t.left) ==> CountsOk(rest) && Count(rest) == Count(t.left) - m.dups
    requires HeightsOk(t.left) ==> HeightsOk(rest)
    ensures var n := Node(rest, m.value, m.dups, t.count - t.dups, t.height, t.right);
      && (Ordered(t) ==> Ordered(n) && Keys(n) == Keys(t) - {t.value})
      && (forall x :: Occurrences(n, x) + (if t.value == x then t.dups else 0) == Occurrences(t, x))
      && (CountsOk(t) ==> CountsOk(n) && Count(n) == Count(t) - t.dups)
      && (HeightsOk(t) ==> HeightsOk(n.left) && HeightsOk(n.right))
  {
  }

  /** The node that replaces t, without a left child, when its successor m has been
      unlinked from t's right subtree, leaving `rest`. */
  lemma SuccessorInPlace(t: Item, rest: Item, m: Item)
    requires t.Node? && t.left.Nil? && t.right.Node? && m.Node?
    requires Keys(rest) + {m.value} == Keys(t.right)
    requires forall x :: Occurrences(rest, x) + (if m.value == x then m.dups else 0) == Occurrences(t.right, x)
    requires Ordered(t.right) ==> Ordered(rest) && m.value !in Keys(rest) && m.value == Leftmost(t.right)
    requires CountsOk(t.right) ==> CountsOk(rest) && Count(rest) == Count(t.right) - m.dups
    requires HeightsOk(t.right) ==> HeightsOk(rest)
    ensures var n := Node(Nil, m.value, m.dups, t.count - t.dups, t.height, rest);
      && (Ordered(t) ==> Ordered(n) && Keys(n) == Keys(t) - {t.value})
      && (forall x :: Occurrences(n, x) + (if t.value == x then t.dups else 0) == Occurrences(t, x))
      && (CountsOk(t) ==> CountsOk(n) && Count(n) == Count(t) - t.dups)
      && (HeightsOk(t) ==> HeightsOk(n.left) && HeightsOk(n.right))
  {
  }

  /** The subtree that takes the place of the deleted node t: nothing for a leaf;
      otherwise t's predecessor (or, without a left child, its successor) in t's
      place with t's Height and t's Count less t's Duplications, followed by
      UpdateHeight(false) from the lowest changed node. */
  function Unlink(t: Item, variant: Variant): (r: Item)
    requires t.Node?
    ensures Ordered(t) ==> Ordered(r) && Keys(r) == Keys(t) - {t.value}
    ensures forall x :: Occurrences(r, x) + (if t.value == x then t.dups else 0) == Occurrences(t, x)
    ensures CountsOk(t) ==> CountsOk(r) && Count(r) == Count(t) - t.dups
    ensures HeightsOk(t) ==> HeightsOk(r)
    ensures variant == Intended && HeightsOk(t) && Balanced(t) ==> Shrunk(t, r)
  {
    if t.left.Nil? && t.right.Nil? then Nil
    else if t.left.Node? then
      var x := RemoveMax(t.left, variant);
      var n := Node(x.rest, x.node.value, x.node.dups, t.count - t.dups, t.height, t.right);
      PredecessorInPlace(t, x.rest, x.node);
      StepAfterShrink(t, n, true, variant);
      StepKeepsValues(n, false, variant);
      StepKeepsAllOccurrences(n, false, variant);
      StepKeepsCounts(n, false, variant);
      StepKeepsHeights(n, false, variant);
      Step(n, false, variant)
    else
      var x := RemoveMin(t.right, variant);
      var n := Node(Nil, x.node.value, x.node.dups, t.count - t.dups, t.height, x.rest);
      SuccessorInPlace(t, x.rest, x.node);
      StepAfterShrink(t, n, false, variant);
      StepKeepsValues(n, false, variant);
      StepKeepsAllOccurrences(n, false, variant);
      StepKeepsCounts(n, false, variant);
      StepKeepsHeights(n, false, variant);
      Step(n, false, variant)
  }

  /** One level above the deleted node: t's child on v's side has lost v. */
  lemma RemovedBelow(t: Item, c: Item, v: real, d: nat, left: bool)
    requires t.Node? && (if left then v < t.value else t.value < v)
    requires var old_c := if left then t.left else t.right;
      && (Ordered(old_c) ==> Ordered(c) && Keys(c) == Keys(old_c) - {v})
      && (forall x :: Occurrences(c, x) + (if v == x then d else 0) == Occurrences(old_c, x))
      && (CountsOk(old_c) ==> CountsOk(c) && Count(c) == Count(old_c) - d)
      && (HeightsOk(old_c) ==> HeightsOk(c))
    ensures var n := if left then t.(left := c, count := t.count - d) else t.(right := c, count := t.count - d);
      && (Ordered(t) ==> Ordered(n) && Keys(n) == Keys(t) - {v})
      && (forall x :: Occurrences(n, x) + (if v == x then d else 0) == Occurrences(t, x))
      && (CountsOk(t) ==> CountsOk(n) && Count(n) == Count(t) - d)
      && (HeightsOk(t) ==> HeightsOk(n.left) && HeightsOk(n.right))
  {
  }

  /** ... and after UpdateHeight(false) at t. */
  lemma RejoinAfterRemoval(t: Item, c: Item, v: real, d: nat, left: bool, variant: Variant)
    requires t.Node? && (if left then v < t.value else t.value < v)
    requires var old_c := if left then t.left else t.right;
      && (Ordered(old_c) ==> Ordered(c) && Keys(c) == Keys(old_c) - {v})
      && (forall x :: Occurrences(c, x) + (if v == x then d else 0) == Occurrences(old_c, x))
      && (CountsOk(old_c) ==> CountsOk(c) && Count(c) == Count(old_c) - d)
      && (HeightsOk(old_c) ==> HeightsOk(c))
    ensures var r := Step(if left then t.(left := c, count := t.count - d) else t.(right := c, count := t.count - d), false, variant);
      && (Ordered(t) ==> Ordered(r) && Keys(r) == Keys(t) - {v})
      && (forall x :: Occurrences(r, x) + (if v == x then d else 0) == Occurrences(t, x))
      && (CountsOk(t) ==> CountsOk(r) && Count(r) == Count(t) - d)
      && (HeightsOk(t) ==> HeightsOk(r))
  {
    var n := if left then t.(left := c, count := t.count - d) else t.(right := c, count := t.count - d);
    RemovedBelow(t, c, v, d, left);
    StepKeepsValues(n, false, variant);
    StepKeepsAllOccurrences(n, false, variant);
    StepKeepsCounts(n, false, variant);
    StepKeepsHeights(n, false, variant);
  }

  /** Delete on the node holding v with d <= 1 copies: Unlink it, reduce the Counts
      above it by d, and go on with UpdateHeight(false) up to the root. In an ordered
      tree v is gone from the values and nothing else is. */
  function RemoveNode(t: Item, v: real, d: nat, variant: Variant): (r: Item)
    requires Find(t, v).Node? && d == Find(t, v).dups
    ensures Ordered(t) ==> Ordered(r) && Keys(r) == Keys(t) - {v}
    ensures forall x :: Occurrences(r, x) + (if v == x then d else 0) == Occurrences(t, x)
    ensures CountsOk(t) ==> CountsOk(r) && Count(r) == Count(t) - d
    ensures HeightsOk(t) ==> HeightsOk(r)
    ensures variant == Intended && HeightsOk(t) && Balanced(t) ==> Shrunk(t, r)
  {
    if v == t.value then Unlink(t, variant)
    else if v < t.value then
      var c := RemoveNode(t.left, v, d, variant);
      RejoinAfterRemoval(t, c, v, d, true, variant);
      StepAfterShrink(t, t.(left := c, count := t.count - d), true, variant);
      Step(t.(left := c, count := t.count - d), false, variant)
    else
      var c := RemoveNode(t.right, v, d, variant);
      RejoinAfterRemoval(t, c, v, d, false, variant);
      StepAfterShrink(t, t.(right := c, count := t.count - d), false, variant);
      Step(t.(right := c, count := t.count - d), false, variant)
  }

  /** The tree after Delete() on the node holding v: one copy of v fewer, the node
      itself gone with its last copy, order, Counts and heights kept. */
  function Delete(t: Item, v: real, variant: Variant): (r: Item)
    requires Find(t, v).Node?
    ensures Ordered(t) ==> Ordered(r) && Contents(r) == Contents(t) - multiset{v}
    ensures Ordered(t) ==> Keys(r) == if Find(t, v).dups > 1 then Keys(t) else Keys(t) - {v}
    ensures CountsOk(t) ==> CountsOk(r) && Count(r) == Count(t) - (if Find(t, v).dups == 0 then 0 else 1)
    ensures HeightsOk(t) ==> HeightsOk(r)
    ensures variant == Intended && IsAvl(t) ==> IsAvl(r) && Height(t) - 1 <= Height(r) <= Height(t)
  {
    var n := Find(t, v);
    if n.dups > 1 then
      DecrementContents(t, v);
      Decrement(t, v)
    else
      RemoveNodeContents(t, v, n.dups, variant);
      RemoveNode(t, v, n.dups, variant)
  }

  /* ---------------- the stored copies ---------------- */

  /** Decrement takes exactly one copy of v away, as a multiset. */
  lemma DecrementContents(t: Item, v: real)
    requires Find(t, v).Node? && Find(t, v).dups > 1
    ensures Contents(Decrement(t, v)) == Contents(t) - multiset{v}
  {
    ContentsByOccurrences(Decrement(t, v), t, multiset{v});
  }

  /** In an ordered tree the node holding v holds all of its copies, so with at most
      one of them RemoveNode is the removal of one copy of v. */
  lemma RemoveNodeContents(t: Item, v: real, d: nat, variant: Variant)
    requires Find(t, v).Node? && d == Find(t, v).dups && d <= 1
    ensures Ordered(t) ==> Contents(RemoveNode(t, v, d, variant)) == Contents(t) - multiset{v}
  {
    var r := RemoveNode(t, v, d, variant);
    ContentsByOccurrences(r, t, Copies(v, d));
  }
}
