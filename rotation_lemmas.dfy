/**
 * What the tree operations of histogram-item.go preserve: the in-order sequence
 * (the threaded list), the stored values, the search order, the Count
 * augmentation and the stored heights.
 */
module RotationLemmas {
  import opened Wrappers
  import opened HistogramItem

  /* ---------------- rotations ---------------- */

  /** A left rotation keeps the in-order sequence and the stored values. */
  lemma LeftRotateKeepsValues(t: Item)
    ensures InOrder(LeftRotate(t)) == InOrder(t)
    ensures Keys(LeftRotate(t)) == Keys(t) && Contents(LeftRotate(t)) == Contents(t)
  {
    if t.Node? && t.right.Node? {
      var p := t.right;
      var r := LeftRotate(t);
      var a, b, c := t.left, p.left, p.right;
      var l := r.left;
      assert l.left == a && l.right == b && l.value == t.value && l.dups == t.dups;
      assert r.right == c && r.value == p.value && r.dups == p.dups;
      calc {
        InOrder(r);
        InOrder(l) + [p.value] + InOrder(c);
        (InOrder(a) + [t.value] + InOrder(b)) + [p.value] + InOrder(c);
        InOrder(a) + [t.value] + (InOrder(b) + [p.value] + InOrder(c));
        InOrder(t);
      }
      calc {
        Contents(r);
        Contents(l) + Copies(p.value, p.dups) + Contents(c);
        (Contents(a) + Copies(t.value, t.dups) + Contents(b)) + Copies(p.value, p.dups) + Contents(c);
        Contents(a) + Copies(t.value, t.dups) + (Contents(b) + Copies(p.value, p.dups) + Contents(c));
        Contents(t);
      }
      calc {
        Keys(r);
        Keys(l) + {p.value} + Keys(c);
        (Keys(a) + {t.value} + Keys(b)) + {p.value} + Keys(c);
        Keys(a) + {t.value} + (Keys(b) + {p.value} + Keys(c));
        Keys(t);
      }
    }
  }

  /** A left rotation keeps the search order. */
  lemma LeftRotateKeepsOrder(t: Item)
    requires Ordered(t)
    ensures Ordered(LeftRotate(t))
  {
    if t.Node? && t.right.Node? {
      var p := t.right;
      var r := LeftRotate(t);
      var a, b, c := t.left, p.left, p.right;
      assert r == Node(Node(a, t.value, t.dups, r.left.count, r.left.height, b), p.value, p.dups, r.count, r.height, c);
      assert Keys(p) == Keys(b) + {p.value} + Keys(c);
      assert forall k :: k in Keys(b) ==> t.value < k < p.value;
      assert Ordered(r.left);
      assert Keys(r.left) == Keys(a) + {t.value} + Keys(b);
      assert forall k :: k in Keys(r.left) ==> k < p.value;
    }
  }

  /** A left rotation's Count arithmetic keeps the augmentation exact, and the new
      subtree root has the old one's Count. */
  lemma LeftRotateKeepsCounts(t: Item)
    requires CountsOk(t)
    ensures CountsOk(LeftRotate(t)) && Count(LeftRotate(t)) == Count(t)
  {
  }

  /** A left rotation recomputes the heights of the two nodes it moves. */
  lemma LeftRotateKeepsHeights(t: Item)
    requires t.Node? && t.right.Node? && HeightsOk(t.left) && HeightsOk(t.right)
    ensures HeightsOk(LeftRotate(t))
  {
    var p := t.right;
    var r := LeftRotate(t);
    assert HeightsOk(p.left) && HeightsOk(p.right);
    assert r.left.left == t.left && r.left.right == p.left && r.right == p.right;
    assert HeightsOk(r.left);
  }

  lemma RightRotateKeepsValues(t: Item)
    ensures InOrder(RightRotate(t)) == InOrder(t)
    ensures Keys(RightRotate(t)) == Keys(t) && Contents(RightRotate(t)) == Contents(t)
  {
    if t.Node? && t.left.Node? {
      var p := t.left;
      var r := RightRotate(t);
      var a, b, c := p.left, p.right, t.right;
      assert r == Node(a, p.value, p.dups, r.count, r.height, Node(b, t.value, t.dups, r.right.count, r.right.height, c));
      assert InOrder(r) == InOrder(a) + [p.value] + (InOrder(b) + [t.value] + InOrder(c));
      assert InOrder(t) == (InOrder(a) + [p.value] + InOrder(b)) + [t.value] + InOrder(c);
      assert Contents(r) == Contents(a) + Copies(p.value, p.dups) + (Contents(b) + Copies(t.value, t.dups) + Contents(c));
    }
  }

  lemma RightRotateKeepsOrder(t: Item)
    requires Ordered(t)
    ensures Ordered(RightRotate(t))
  {
    if t.Node? && t.left.Node? {
      var p := t.left;
      var r := RightRotate(t);
      var a, b, c := p.left, p.right, t.right;
      assert r == Node(a, p.value, p.dups, r.count, r.height, Node(b, t.value, t.dups, r.right.count, r.right.height, c));
      assert Keys(p) == Keys(a) + {p.value} + Keys(b);
      assert forall k :: k in Keys(b) ==> p.value < k < t.value;
      assert Ordered(r.right);
      assert Keys(r.right) == Keys(b) + {t.value} + Keys(c);
      assert forall k :: k in Keys(r.right) ==> p.value < k;
    }
  }

  lemma RightRotateKeepsCounts(t: Item)
    requires CountsOk(t)
    ensures CountsOk(RightRotate(t)) && Count(RightRotate(t)) == Count(t)
  {
  }

  lemma RightRotateKeepsHeights(t: Item)
    requires t.Node? && t.left.Node? && HeightsOk(t.left) && HeightsOk(t.right)
    ensures HeightsOk(RightRotate(t))
  {
    var p := t.left;
    var r := RightRotate(t);
    assert HeightsOk(p.left) && HeightsOk(p.right);
    assert r.right.right == t.right && r.right.left == p.right && r.left == p.left;
    assert HeightsOk(r.right);
  }

  /* ---------------- one step of UpdateHeight ---------------- */

  /** A child replaced by one with the same in-order sequence and values leaves the
      node's in-order sequence and values as they were. */
  lemma NewChildKeepsValues(c: Item, k: Item, left: bool)
    requires c.Node?
    requires InOrder(k) == InOrder(if left then c.left else c.right)
    requires Keys(k) == Keys(if left then c.left else c.right)
    requires Contents(k) == Contents(if left then c.left else c.right)
    ensures var c1 := if left then c.(left := k) else c.(right := k);
      InOrder(c1) == InOrder(c) && Keys(c1) == Keys(c) && Contents(c1) == Contents(c)
  {
  }

  lemma FixLeftHeavyKeepsValues(c: Item, inserting: bool, variant: Variant)
    requires c.Node? && c.left.Node?
    ensures InOrder(FixLeftHeavy(c, inserting, variant)) == InOrder(c)
    ensures Keys(FixLeftHeavy(c, inserting, variant)) == Keys(c)
    ensures Contents(FixLeftHeavy(c, inserting, variant)) == Contents(c)
  {
    if RotateChildFirst(c.left, true, inserting, variant) {
      LeftRotateKeepsValues(c.left);
      NewChildKeepsValues(c, LeftRotate(c.left), true);
      RightRotateKeepsValues(c.(left := LeftRotate(c.left)));
    } else {
      RightRotateKeepsValues(c);
    }
  }

  lemma FixLeftHeavyKeepsOrder(c: Item, inserting: bool, variant: Variant)
    requires c.Node? && c.left.Node? && Ordered(c)
    ensures Ordered(FixLeftHeavy(c, inserting, variant))
  {
    var c1 := if RotateChildFirst(c.left, true, inserting, variant) then c.(left := LeftRotate(c.left)) else c;
    LeftRotateKeepsValues(c.left);
    LeftRotateKeepsOrder(c.left);
    assert Keys(c1.left) == Keys(c.left);
    assert Ordered(c1);
    RightRotateKeepsOrder(c1);
  }

  lemma FixRightHeavyKeepsValues(c: Item, inserting: bool, variant: Variant)
    requires c.Node? && c.right.Node?
    ensures InOrder(FixRightHeavy(c, inserting, variant)) == InOrder(c)
    ensures Keys(FixRightHeavy(c, inserting, variant)) == Keys(c)
    ensures Contents(FixRightHeavy(c, inserting, variant)) == Contents(c)
  {
    if RotateChildFirst(c.right, false, inserting, variant) {
      RightRotateKeepsValues(c.right);
      NewChildKeepsValues(c, RightRotate(c.right), false);
      LeftRotateKeepsValues(c.(right := RightRotate(c.right)));
    } else {
      LeftRotateKeepsValues(c);
    }
  }

  lemma FixRightHeavyKeepsOrder(c: Item, inserting: bool, variant: Variant)
    requires c.Node? && c.right.Node? && Ordered(c)
    ensures Ordered(FixRightHeavy(c, inserting, variant))
  {
    var c1 := if RotateChildFirst(c.right, false, inserting, variant) then c.(right := RightRotate(c.right)) else c;
    RightRotateKeepsValues(c.right);
    RightRotateKeepsOrder(c.right);
    assert Keys(c1.right) == Keys(c.right);
    assert Ordered(c1);
    LeftRotateKeepsOrder(c1);
  }

  /** A rebalancing step keeps the in-order sequence, the stored values and the order,
      whichever rotations it chooses. */
  lemma StepKeepsValues(t: Item, inserting: bool, variant: Variant)
    requires t.Node?
    ensures Keys(Step(t, inserting, variant)) == Keys(t) && Contents(Step(t, inserting, variant)) == Contents(t)
    ensures Ordered(t) ==> Ordered(Step(t, inserting, variant))
  {
    var c := CalcHeight(t);
    CalcHeightKeepsValues(t);
    if Height(c.left) > Height(c.right) + 1 {
      FixLeftHeavyKeepsValues(c, inserting, variant);
      if Ordered(c) { FixLeftHeavyKeepsOrder(c, inserting, variant); }
    } else if Height(c.right) > Height(c.left) + 1 {
      FixRightHeavyKeepsValues(c, inserting, variant);
      if Ordered(c) { FixRightHeavyKeepsOrder(c, inserting, variant); }
    }
  }

  /** CalcHeight touches only the height. */
  lemma CalcHeightKeepsValues(t: Item)
    requires t.Node?
    ensures var c := CalcHeight(t);
      && c.left == t.left && c.right == t.right && c.value == t.value && c.dups == t.dups
      && Keys(c) == Keys(t) && Contents(c) == Contents(t) && InOrder(c) == InOrder(t)
      && Ordered(c) == Ordered(t)
  {
  }

  /** ... copy by copy ... */
  lemma StepKeepsOccurrences(t: Item, inserting: bool, variant: Variant, x: real)
    requires t.Node?
    ensures Occurrences(Step(t, inserting, variant), x) == Occurrences(t, x)
  {
    StepKeepsValues(t, inserting, variant);
    OccurrencesAreContents(t, x);
    OccurrencesAreContents(Step(t, inserting, variant), x);
  }

  lemma StepKeepsAllOccurrences(t: Item, inserting: bool, variant: Variant)
    requires t.Node?
    ensures forall x :: Occurrences(Step(t, inserting, variant), x) == Occurrences(t, x)
  {
    forall x ensures Occurrences(Step(t, inserting, variant), x) == Occurrences(t, x) {
      StepKeepsOccurrences(t, inserting, variant, x);
    }
  }

  /** ... and so the threaded Smaller/Larger list. */
  lemma StepKeepsInOrder(t: Item, inserting: bool, variant: Variant)
    requires t.Node?
    ensures InOrder(Step(t, inserting, variant)) == InOrder(t)
  {
    var c := CalcHeight(t);
    if Height(c.left) > Height(c.right) + 1 {
      FixLeftHeavyKeepsValues(c, inserting, variant);
    } else if Height(c.right) > Height(c.left) + 1 {
      FixRightHeavyKeepsValues(c, inserting, variant);
    }
  }

  /** A rebalancing step keeps the Count augmentation and the subtree's Count. */
  lemma StepKeepsCounts(t: Item, inserting: bool, variant: Variant)
    requires t.Node?
    ensures CountsOk(t) ==> CountsOk(Step(t, inserting, variant)) && Count(Step(t, inserting, variant)) == Count(t)
  {
    var c := CalcHeight(t);
    if !CountsOk(t) {
    } else if Height(c.left) > Height(c.right) + 1 {
      var c1 := if RotateChildFirst(c.left, true, inserting, variant) then c.(left := LeftRotate(c.left)) else c;
      LeftRotateKeepsCounts(c.left);
      assert CountsOk(c1);
      RightRotateKeepsCounts(c1);
    } else if Height(c.right) > Height(c.left) + 1 {
      var c1 := if RotateChildFirst(c.right, false, inserting, variant) then c.(right := RightRotate(c.right)) else c;
      RightRotateKeepsCounts(c.right);
      assert CountsOk(c1);
      LeftRotateKeepsCounts(c1);
    }
  }

  /** A rebalancing step leaves every height it touches recomputed. */
  lemma StepKeepsHeights(t: Item, inserting: bool, variant: Variant)
    requires t.Node?
    ensures HeightsOk(t.left) && HeightsOk(t.right) ==> HeightsOk(Step(t, inserting, variant))
  {
    var c := CalcHeight(t);
    if !(HeightsOk(t.left) && HeightsOk(t.right)) {
    } else if Height(c.left) > Height(c.right) + 1 {
      var rotate := RotateChildFirst(c.left, true, inserting, variant);
      var c1 := if rotate then c.(left := LeftRotate(c.left)) else c;
      if rotate { LeftRotateKeepsHeights(c.left); }
      RightRotateKeepsHeights(c1);
    } else if Height(c.right) > Height(c.left) + 1 {
      var rotate := RotateChildFirst(c.right, false, inserting, variant);
      var c1 := if rotate then c.(right := RightRotate(c.right)) else c;
      if rotate { RightRotateKeepsHeights(c.right); }
      LeftRotateKeepsHeights(c1);
    }
  }

  /* ---------------- balance (the intended rotation rule) ---------------- */

  /** The hypotheses under which UpdateHeight meets node t: both subtrees are AVL
      trees with exact heights, and their heights differ by at most two. */
  ghost predicate StepReady(t: Item)
  {
    && t.Node?
    && HeightsOk(t.left) && HeightsOk(t.right) && Balanced(t.left) && Balanced(t.right)
    && -2 <= Height(t.left) - Height(t.right) <= 2
  }

  /** A subtree leans when its children's heights differ. */
  ghost predicate Leans(t: Item)
  {
    t.Node? && Height(t.left) != Height(t.right)
  }

  /** Single right rotation at a node whose left child is two higher than its right
      and does not lean right. */
  lemma SingleRightBalance(c: Item)
    requires StepReady(c) && c.left.Node? && Height(c.left) == Height(c.right) + 2
    requires Height(c.left.left) >= Height(c.left.right)
    ensures Balanced(RightRotate(c))
    ensures Height(RightRotate(c)) == Height(c.left) + (if Height(c.left.left) == Height(c.left.right) then 1 else 0)
  {
    var p := c.left;
    assert HeightsOk(p.left) && HeightsOk(p.right) && Balanced(p.left) && Balanced(p.right);
    var r := RightRotate(c);
    assert r.left == p.left && r.right.left == p.right && r.right.right == c.right;
  }

  /** Left-right double rotation at a node whose left child is two higher than its
      right and leans right. */
  lemma DoubleRightBalance(c: Item)
    requires StepReady(c) && c.left.Node? && Height(c.left) == Height(c.right) + 2
    requires Height(c.left.right) > Height(c.left.left)
    ensures Balanced(RightRotate(c.(left := LeftRotate(c.left))))
    ensures Height(RightRotate(c.(left := LeftRotate(c.left)))) == Height(c.left)
  {
    var p := c.left;
    var q := p.right;
    assert HeightsOk(p.left) && HeightsOk(q) && Balanced(p.left) && Balanced(q);
    assert HeightsOk(q.left) && HeightsOk(q.right) && Balanced(q.left) && Balanced(q.right);
    var l := LeftRotate(p);
    assert l.left.left == p.left && l.left.right == q.left && l.right == q.right && l.value == q.value;
    var r := RightRotate(c.(left := l));
    assert r.left == l.left && r.right.left == q.right && r.right.right == c.right;
  }

  lemma SingleLeftBalance(c: Item)
    requires StepReady(c) && c.right.Node? && Height(c.right) == Height(c.left) + 2
    requires Height(c.right.right) >= Height(c.right.left)
    ensures Balanced(LeftRotate(c))
    ensures Height(LeftRotate(c)) == Height(c.right) + (if Height(c.right.left) == Height(c.right.right) then 1 else 0)
  {
    var p := c.right;
    assert HeightsOk(p.left) && HeightsOk(p.right) && Balanced(p.left) && Balanced(p.right);
    var r := LeftRotate(c);
    assert r.right == p.right && r.left.right == p.left && r.left.left == c.left;
  }

  lemma DoubleLeftBalance(c: Item)
    requires StepReady(c) && c.right.Node? && Height(c.right) == Height(c.left) + 2
    requires Height(c.right.left) > Height(c.right.right)
    ensures Balanced(LeftRotate(c.(right := RightRotate(c.right))))
    ensures Height(LeftRotate(c.(right := RightRotate(c.right)))) == Height(c.right)
  {
    var p := c.right;
    var q := p.left;
    assert HeightsOk(p.right) && HeightsOk(q) && Balanced(p.right) && Balanced(q);
    assert HeightsOk(q.left) && HeightsOk(q.right) && Balanced(q.left) && Balanced(q.right);
    var l := RightRotate(p);
    assert l.right.right == p.right && l.right.left == q.right && l.left == q.left && l.value == q.value;
    var r := LeftRotate(c.(right := l));
    assert r.right == l.right && r.left.right == q.left && r.left.left == c.left;
  }

  /** With the intended rotation rule, one step of UpdateHeight leaves an AVL subtree
      whose height is one more than its higher child's when no rotation was needed;
      after a rotation it is at most one more than the higher child's, and exactly
      that height when the higher child leans away from the lower one's side. */
  lemma StepBalances(t: Item, inserting: bool)
    requires StepReady(t)
    ensures var r := Step(t, inserting, Intended); var m := Max(Height(t.left), Height(t.right));
      && Balanced(r)
      && m <= Height(r) <= m + 1
      && (-1 <= Height(t.left) - Height(t.right) <= 1 ==> Height(r) == m + 1 && r.left == t.left && r.right == t.right)
      && (Height(t.left) == Height(t.right) + 2 && Leans(t.left) ==> Height(r) == m)
      && (Height(t.right) == Height(t.left) + 2 && Leans(t.right) ==> Height(r) == m)
  {
    var c := CalcHeight(t);
    if Height(c.left) > Height(c.right) + 1 {
      if Height(c.left.right) > Height(c.left.left) {
        DoubleRightBalance(c);
      } else {
        SingleRightBalance(c);
      }
    } else if Height(c.right) > Height(c.left) + 1 {
      if Height(c.right.left) > Height(c.right.right) {
        DoubleLeftBalance(c);
      } else {
        SingleLeftBalance(c);
      }
    }
  }
}
