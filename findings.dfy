/**
 * Three defects of the tree code, each exhibited for the variant that follows the
 * source (`AsWritten`) on every input of a given shape, and repaired in the
 * `Intended` variant, about which Insertion, Deletion and SlidingWindow prove the
 * corresponding invariants for every input (Insertion.Insert, Deletion.Delete,
 * SlidingWindow.AddToTree).
 *
 * The small lemmas below evaluate one level of an insertion or a deletion each; the
 * solver evaluates each level cheaply on its own.
 */
module Findings {
  import opened HistogramItem
  import opened Insertion
  import opened Deletion
  import opened SlidingWindow
  import opened Wrappers

  /** A leaf holding one copy, with Height 1 and Count 1. */
  function Leaf(v: real): (r: Item)
    ensures Ordered(r)
    ensures CountsOk(r)
    ensures HeightsOk(r)
    ensures Balanced(r)
    ensures Keys(r) == {v} && Height(r) == 1 && Count(r) == 1
  {
    Node(Nil, v, 1, 1, 1, Nil)
  }

  /* ---------------- the Count of a new node ---------------- */

  lemma LeafCountDescend(a: real, b: real)
    requires a < b
    ensures InsertAt(Leaf(a), b, 3, AsWritten) == Resume(Node(Nil, a, 1, 4, 1, Node(Nil, b, 3, 1, 1, Nil)), true, AsWritten)
  {
  }

  lemma LeafCountResume(a: real, b: real)
    ensures var n := Node(Nil, a, 1, 4, 1, Node(Nil, b, 3, 1, 1, Nil));
      Resume(n, true, AsWritten) == Inserted(n.(height := 2), true)
  {
  }

  /** Inserting three copies of a new, larger value b below a leaf holding a: the new
      node gets three Duplications but a Count of 1, so the Counts no longer add up,
      while the root's Count says four copies are stored. */
  lemma NewLeafCountAsWritten(a: real, b: real)
    requires a < b
    ensures var t := Insert(Leaf(a), b, 3, AsWritten);
      && t.right == Node(Nil, b, 3, 1, 1, Nil)
      && Count(t) == 4 && Count(t.right) == 1
      && !CountsOk(t)
  {
    LeafCountDescend(a, b);
    LeafCountResume(a, b);
  }

  /** Enqueue of `copies` copies of v into an empty histogram: NewHistogramItem gives
      the root Count 1 and only its Duplications are set to `copies`, while the
      histogram's Count and the queue hold `copies` values. For any number of copies
      other than 1, the root's Count is wrong and no window invariant holds. */
  lemma EmptyEnqueueCountAsWritten(v: real, copies: nat)
    requires copies != 1
    ensures var r := NewLeaf(v, copies, AsWritten);
      && r.dups == copies && Count(r) == 1
      && !CountsOk(r)
      && !Window(Repeat(v, copies), r, copies, Some(v), Some(v))
  {
    var r := NewLeaf(v, copies, AsWritten);
    assert !CountsOk(r);
  }

  /* ---------------- the choice of rotation, on insertion ---------------- */

  /** The AVL tree that inserting e, c, f, b, d (in that order) builds. */
  function FiveValues(b: real, c: real, d: real, e: real, f: real): Item
  {
    Node(Node(Leaf(b), c, 1, 3, 2, Leaf(d)), e, 1, 5, 3, Leaf(f))
  }

  /** The subtree rooted at c once a has been inserted and the walk has passed c. */
  function GrownLeft(a: real, b: real, c: real, d: real): Item
  {
    Node(Node(Leaf(a), b, 1, 2, 2, Nil), c, 1, 4, 3, Leaf(d))
  }

  lemma FiveValuesIsAvl(b: real, c: real, d: real, e: real, f: real)
    requires b < c < d < e < f
    ensures IsAvl(FiveValues(b, c, d, e, f))
  {
    var t := FiveValues(b, c, d, e, f);
    assert IsAvl(t.left) && Keys(t.left) == {b, c, d};
  }

  lemma InsertDescendB(a: real, b: real)
    requires a < b
    ensures InsertAt(Leaf(b), a, 1, AsWritten) == Resume(Node(Leaf(a), b, 1, 2, 1, Nil), true, AsWritten)
  {
  }

  lemma InsertResumeB(a: real, b: real)
    ensures Resume(Node(Leaf(a), b, 1, 2, 1, Nil), true, AsWritten) == Inserted(Node(Leaf(a), b, 1, 2, 2, Nil), true)
  {
  }

  lemma InsertDescendC(a: real, b: real, c: real, d: real)
    requires a < b < c
    requires InsertAt(Leaf(b), a, 1, AsWritten) == Inserted(Node(Leaf(a), b, 1, 2, 2, Nil), true)
    ensures InsertAt(Node(Leaf(b), c, 1, 3, 2, Leaf(d)), a, 1, AsWritten)
      == Resume(Node(Node(Leaf(a), b, 1, 2, 2, Nil), c, 1, 4, 2, Leaf(d)), true, AsWritten)
  {
  }

  lemma InsertResumeC(a: real, b: real, c: real, d: real)
    ensures Resume(Node(Node(Leaf(a), b, 1, 2, 2, Nil), c, 1, 4, 2, Leaf(d)), true, AsWritten)
      == Inserted(GrownLeft(a, b, c, d), true)
  {
  }

  lemma InsertDescendE(a: real, b: real, c: real, d: real, e: real, f: real)
    requires a < b < c < e
    requires InsertAt(Node(Leaf(b), c, 1, 3, 2, Leaf(d)), a, 1, AsWritten) == Inserted(GrownLeft(a, b, c, d), true)
    ensures InsertAt(FiveValues(b, c, d, e, f), a, 1, AsWritten)
      == Resume(Node(GrownLeft(a, b, c, d), e, 1, 6, 3, Leaf(f)), true, AsWritten)
  {
  }

  /** UpdateHeight at e as written: e is left-heavy and c has a right child, so c is
      rotated left first although its left subtree is the higher one. */
  lemma InsertResumeE(a: real, b: real, c: real, d: real, e: real, f: real)
    ensures Resume(Node(GrownLeft(a, b, c, d), e, 1, 6, 3, Leaf(f)), true, AsWritten)
      == Inserted(Node(Node(Node(Leaf(a), b, 1, 2, 2, Nil), c, 1, 3, 3, Nil), d, 1, 6, 4, Node(Nil, e, 1, 2, 2, Leaf(f))), true)
  {
  }

  /** Inserting e, c, f, b, d and then a (say 50, 30, 60, 20, 40, 10) as written leaves
      c with a left subtree of height 2 and no right subtree: the tree is no longer
      balanced, although the one before the last insertion was an AVL tree. */
  lemma InsertUnbalancesAsWritten(a: real, b: real, c: real, d: real, e: real, f: real)
    requires a < b < c < d < e < f
    ensures IsAvl(FiveValues(b, c, d, e, f))
    ensures var t := Insert(FiveValues(b, c, d, e, f), a, 1, AsWritten);
      && t == Node(Node(Node(Leaf(a), b, 1, 2, 2, Nil), c, 1, 3, 3, Nil), d, 1, 6, 4, Node(Nil, e, 1, 2, 2, Leaf(f)))
      && Height(t.left.left) == 2 && t.left.right.Nil?
      && !Balanced(t)
  {
    FiveValuesIsAvl(b, c, d, e, f);
    InsertDescendB(a, b);
    InsertResumeB(a, b);
    InsertDescendC(a, b, c, d);
    InsertResumeC(a, b, c, d);
    InsertDescendE(a, b, c, d, e, f);
    InsertResumeE(a, b, c, d, e, f);
  }

  /* ---------------- the choice of rotation, on deletion ---------------- */

  /** The AVL tree that inserting c, a, d, b (in that order) builds. */
  function FourValues(a: real, b: real, c: real, d: real): Item
  {
    Node(Node(Nil, a, 1, 2, 2, Leaf(b)), c, 1, 4, 3, Leaf(d))
  }

  lemma FourValuesIsAvl(a: real, b: real, c: real, d: real)
    requires a < b < c < d
    ensures IsAvl(FourValues(a, b, c, d))
  {
    var t := FourValues(a, b, c, d);
    assert IsAvl(t.left) && Keys(t.left) == {a, b};
  }

  lemma DeleteFindsD(a: real, b: real, c: real, d: real)
    requires c < d
    ensures Find(FourValues(a, b, c, d), d) == Leaf(d)
    ensures Delete(FourValues(a, b, c, d), d, AsWritten) == RemoveNode(FourValues(a, b, c, d), d, 1, AsWritten)
  {
  }

  lemma DeleteRemovesD(a: real, b: real, c: real, d: real)
    requires c < d
    ensures RemoveNode(FourValues(a, b, c, d), d, 1, AsWritten)
      == Step(Node(Node(Nil, a, 1, 2, 2, Leaf(b)), c, 1, 3, 3, Nil), false, AsWritten)
  {
  }

  /** UpdateHeight(false) at c as written never rotates a child first, although a
      leans right. */
  lemma DeleteResumeC(a: real, b: real, c: real)
    ensures Step(Node(Node(Nil, a, 1, 2, 2, Leaf(b)), c, 1, 3, 3, Nil), false, AsWritten)
      == Node(Nil, a, 1, 3, 3, Node(Leaf(b), c, 1, 2, 2, Nil))
  {
  }

  /** Deleting d from the tree that inserting c, a, d, b builds (say 50, 30, 60, 40,
      then deleting 60) as written leaves a at the root with no left subtree and a
      right subtree of height 2. */
  lemma DeleteUnbalancesAsWritten(a: real, b: real, c: real, d: real)
    requires a < b < c < d
    ensures IsAvl(FourValues(a, b, c, d))
    ensures var t := Delete(FourValues(a, b, c, d), d, AsWritten);
      && t == Node(Nil, a, 1, 3, 3, Node(Leaf(b), c, 1, 2, 2, Nil))
      && !Balanced(t)
  {
    FourValuesIsAvl(a, b, c, d);
    DeleteFindsD(a, b, c, d);
    DeleteRemovesD(a, b, c, d);
    DeleteResumeC(a, b, c);
  }
}
