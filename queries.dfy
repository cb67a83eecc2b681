/**
 * The read-only queries of histogram-item.go on the tree: the two walks that find
 * the replacement for a deleted node, the floor lookup FindNoLargerThan and the rank
 * CumulativeCount, each proved against a characterisation by the tree's values, and
 * what the in-order traversal (the threaded Smaller/Larger list) is for an ordered tree.
 */
module Queries {
  import opened Wrappers
  import opened HistogramItem

  /** FindSmallestInRight: nothing without a right child; otherwise the node reached
      by going left from the right child as far as possible. In an ordered tree its
      value is the smallest above t's own value. */
  method FindSmallestInRight(t: Item) returns (r: Option<Item>)
    requires t.Node?
    ensures r.Some? <==> t.right.Node?
    ensures r.Some? ==> r.value.Node? && r.value.left.Nil? && r.value.value == Leftmost(t.right)
    ensures Ordered(t) && r.Some? ==>
      t.value < r.value.value && forall k :: k in Keys(t) && t.value < k ==> r.value.value <= k
  {
    if t.right.Nil? {
      return None;
    }
    var c := t.right;
    while c.left.Node?
      invariant c.Node? && Leftmost(c) == Leftmost(t.right)
      decreases c
    {
      c := c.left;
    }
    return Some(c);
  }

  /** FindLargestInLeft, the mirror image of FindSmallestInRight. */
  method FindLargestInLeft(t: Item) returns (r: Option<Item>)
    requires t.Node?
    ensures r.Some? <==> t.left.Node?
    ensures r.Some? ==> r.value.Node? && r.value.right.Nil? && r.value.value == Rightmost(t.left)
    ensures Ordered(t) && r.Some? ==>
      r.value.value < t.value && forall k :: k in Keys(t) && k < t.value ==> k <= r.value.value
  {
    if t.left.Nil? {
      return None;
    }
    var c := t.left;
    while c.right.Node?
      invariant c.Node? && Rightmost(c) == Rightmost(t.left)
      decreases c
    {
      c := c.right;
    }
    return Some(c);
  }

  /** FindNoLargerThan(v): the node holding the largest value not above v, or nothing
      when every value is above v. From a node not above v it walks right while the
      values stay not above v; having overshot, the answer lies in the overshooting
      node's left subtree or is the node it came from. From a node above v it walks
      left until a value not above v, whose right subtree may hold a better one. */
  method FindNoLargerThan(t: Item, v: real) returns (r: Option<Item>)
    ensures r.Some? ==> r.value.Node? && r.value.value in Keys(t) && r.value.value <= v
    ensures Ordered(t) && r.Some? ==> forall k :: k in Keys(t) && k <= v ==> k <= r.value.value
    ensures Ordered(t) && r.None? ==> forall k :: k in Keys(t) ==> v < k
    decreases Size(t)
  {
    if t.Nil? {
      return None;
    }
    var p := t;
    if p.value <= v {
      var parent := Nil;
      while p.right.Node? && p.value <= v
        invariant p.Node? && Keys(p) <= Keys(t) && Size(p) <= Size(t)
        invariant p == t || (parent.Node? && parent.value in Keys(t) && parent.value <= v)
        invariant p == t ==> p.value <= v
        invariant Ordered(t) ==> Ordered(p)
        invariant Ordered(t) && p != t ==>
          (forall k :: k in Keys(p) ==> parent.value < k) &&
          (forall k :: k in Keys(t) && k !in Keys(p) ==> k <= parent.value)
        decreases Size(p)
      {
        parent := p;
        p := p.right;
      }
      if p.value <= v {
        return Some(p);
      }
      r := Some(parent);
      if p.left.Node? {
        var c := FindNoLargerThan(p.left, v);
        if c.Some? {
          r := c;
        }
      }
    } else {
      while p.left.Node? && v < p.value
        invariant p.Node? && Keys(p) <= Keys(t) && Size(p) <= Size(t)
        invariant Ordered(t) ==> Ordered(p) && forall k :: k in Keys(t) && k !in Keys(p) ==> v < k
        decreases Size(p)
      {
        p := p.left;
      }
      if v < p.value {
        return None;
      }
      r := Some(p);
      if p.right.Node? {
        var c := FindNoLargerThan(p.right, v);
        if c.Some? {
          r := c;
        }
      }
    }
  }

  /** CumulativeCount of the node holding v: its own Duplications and its left
      subtree's Count, plus, for every ancestor it lies to the right of, that
      ancestor's Duplications and left subtree's Count. The source adds these up
      walking from the node to the root; here they are added walking from the root
      down the search path, which visits the same ancestors. In a tree whose Counts
      are exact, the result is the number of stored values not above v. */
  method CumulativeCount(t: Item, v: real) returns (r: int)
    requires Find(t, v).Node?
    ensures Ordered(t) && CountsOk(t) ==> r == CountNoLargerThan(t, v)
  {
    var p := t;
    var acc := 0;
    while p.value != v
      invariant Find(p, v).Node? && p.Node?
      invariant Ordered(t) && CountsOk(t) ==>
        Ordered(p) && CountsOk(p) && v in Keys(p) && acc + CountNoLargerThan(p, v) == CountNoLargerThan(t, v)
      decreases p
    {
      if v < p.value {
        NoneNotAbove(p.right, v);
        p := p.left;
      } else {
        AllNotAbove(p.left, v);
        acc := acc + p.dups + Count(p.left);
        p := p.right;
      }
    }
    AllNotAbove(p.left, v);
    NoneNotAbove(p.right, v);
    r := acc + p.dups + Count(p.left);
  }

  /** A subtree whose values are all at most x contributes its whole Count. */
  lemma {:induction false} AllNotAbove(t: Item, x: real)
    ensures CountsOk(t) && (forall k :: k in Keys(t) ==> k <= x) ==> CountNoLargerThan(t, x) == Count(t)
  {
    if t.Node? && CountsOk(t) && forall k :: k in Keys(t) ==> k <= x {
      assert t.value in Keys(t);
      AllNotAbove(t.left, x);
      AllNotAbove(t.right, x);
    }
  }

  /** A subtree whose values are all above x contributes nothing. */
  lemma {:induction false} NoneNotAbove(t: Item, x: real)
    ensures (forall k :: k in Keys(t) ==> x < k) ==> CountNoLargerThan(t, x) == 0
  {
    if t.Node? && forall k :: k in Keys(t) ==> x < k {
      assert t.value in Keys(t);
      NoneNotAbove(t.left, x);
      NoneNotAbove(t.right, x);
    }
  }

  /** The root's Count is the number of stored values when the Counts are exact. */
  lemma {:induction false} CountIsSize(t: Item)
    ensures CountsOk(t) ==> Count(t) == |Contents(t)|
  {
    if t.Node? {
      CountIsSize(t.left);
      CountIsSize(t.right);
    }
  }

  /** The in-order traversal holds exactly the tree's values... */
  lemma {:induction false} InOrderHoldsKeys(t: Item)
    ensures forall k :: k in InOrder(t) <==> k in Keys(t)
  {
    if t.Node? {
      InOrderHoldsKeys(t.left);
      InOrderHoldsKeys(t.right);
    }
  }

  /** ... and, in an ordered tree, in strictly ascending order: the threaded list runs
      from the smallest to the largest value without repeating one. */
  lemma {:induction false} InOrderAscends(t: Item)
    ensures Ordered(t) ==> StrictlyAscending(InOrder(t))
  {
    if t.Node? && Ordered(t) {
      InOrderAscends(t.left);
      InOrderAscends(t.right);
      InOrderHoldsKeys(t.left);
      InOrderHoldsKeys(t.right);
      var s := InOrder(t);
      var n := |InOrder(t.left)|;
      forall i, j | 0 <= i < j < |s| ensures s[i] < s[j] {
        if j < n {
          assert s[i] == InOrder(t.left)[i] && s[j] == InOrder(t.left)[j];
        } else if i > n {
          assert s[i] == InOrder(t.right)[i - n - 1] && s[j] == InOrder(t.right)[j - n - 1];
        } else {
          assert i < n ==> s[i] == InOrder(t.left)[i] && InOrder(t.left)[i] in InOrder(t.left);
          assert n < j ==> s[j] == InOrder(t.right)[j - n - 1] && InOrder(t.right)[j - n - 1] in InOrder(t.right);
        }
      }
    }
  }

  /** Two strictly ascending sequences with the same elements are equal. */
  lemma {:induction false} AscendingIsDetermined(a: seq<real>, b: seq<real>)
    requires StrictlyAscending(a) && StrictlyAscending(b)
    requires forall k :: k in a <==> k in b
    ensures a == b
    decreases |a|
  {
    assert a == [] <==> b == [] by {
      if a != [] { assert a[0] in a; }
      if b != [] { assert b[0] in b; }
    }
    if a != [] {
      assert a[0] == b[0] by {
        assert a[0] in a && b[0] in b;
      }
      forall k ensures k in a[1..] <==> k in b[1..] {
        if k in a[1..] {
          var j :| 1 <= j < |a| && a[j] == k;
          assert k in b && k != b[0];
          assert b == [b[0]] + b[1..];
        }
        if k in b[1..] {
          var j :| 1 <= j < |b| && b[j] == k;
          assert k in a && k != a[0];
          assert a == [a[0]] + a[1..];
        }
      }
      AscendingIsDetermined(a[1..], b[1..]);
      assert a == [a[0]] + a[1..] && b == [b[0]] + b[1..];
    }
  }

  /** The threaded list of an ordered tree depends only on its values: after an
      Insert or a Delete that keeps the tree ordered, Smaller/Larger link the new set
      of values in ascending order, whatever rotations took place. */
  lemma SameKeysSameList(a: Item, b: Item)
    requires Ordered(a) && Ordered(b) && Keys(a) == Keys(b)
    ensures InOrder(a) == InOrder(b)
  {
    InOrderHoldsKeys(a);
    InOrderHoldsKeys(b);
    InOrderAscends(a);
    InOrderAscends(b);
    AscendingIsDetermined(InOrder(a), InOrder(b));
  }
}
