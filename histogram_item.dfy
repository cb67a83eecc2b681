/**
 * The augmented AVL tree of histogram-item.go, modelled as an immutable value.
 *
 * A node carries its value, its multiplicity (`dups`), the order-statistic
 * augmentation (`count`, the number of values stored in its subtree) and its
 * `height`. The parent pointers are implicit in the nesting, and the threaded
 * `Smaller`/`Larger` list is the in-order traversal (`InOrder`), whose links are
 * given by `Below` and `Above`.
 */
module HistogramItem {
  import opened Wrappers

  datatype Item = Nil | Node(left: Item, value: real, dups: nat, count: int, height: nat, right: Item)

  /** `AsWritten` follows the source line by line; `Intended` repairs the two defects
      recorded under Findings (leaf count, choice of rotation). */
  datatype Variant = AsWritten | Intended

  /* ---------------- specification functions ---------------- */

  function Height(t: Item): nat { if t.Nil? then 0 else t.height }

  function Count(t: Item): int { if t.Nil? then 0 else t.count }

  function Size(t: Item): nat { if t.Nil? then 0 else 1 + Size(t.left) + Size(t.right) }

  function Keys(t: Item): set<real>
  {
    if t.Nil? then {} else Keys(t.left) + {t.value} + Keys(t.right)
  }

  /** The multiset of stored values, each node contributing `dups` copies. */
  function Contents(t: Item): multiset<real>
  {
    if t.Nil? then multiset{} else Contents(t.left) + Copies(t.value, t.dups) + Contents(t.right)
  }

  function Copies(x: real, n: nat): multiset<real> { multiset{}[x := n] }

  /** The number of stored copies of x: Contents(t)[x], counted node by node. */
  ghost function Occurrences(t: Item, x: real): nat
  {
    if t.Nil? then 0
    else Occurrences(t.left, x) + (if t.value == x then t.dups else 0) + Occurrences(t.right, x)
  }

  lemma {:induction false} OccurrencesAreContents(t: Item, x: real)
    ensures Occurrences(t, x) == Contents(t)[x]
  {
    if t.Node? {
      OccurrencesAreContents(t.left, x);
      OccurrencesAreContents(t.right, x);
    }
  }

  /** Two trees whose copies of every value differ by m differ by m as multisets. */
  lemma ContentsByOccurrences(a: Item, b: Item, m: multiset<real>)
    requires forall x :: Occurrences(a, x) + m[x] == Occurrences(b, x)
    ensures Contents(a) + m == Contents(b)
  {
    forall x ensures (Contents(a) + m)[x] == Contents(b)[x] {
      OccurrencesAreContents(a, x);
      OccurrencesAreContents(b, x);
    }
  }

  /** The in-order traversal: the threaded Smaller/Larger list from the smallest node. */
  function InOrder(t: Item): seq<real>
  {
    if t.Nil? then [] else InOrder(t.left) + [t.value] + InOrder(t.right)
  }

  /** Binary-search-tree order with distinct values. */
  ghost predicate Ordered(t: Item)
  {
    t.Node? ==>
      && (forall k :: k in Keys(t.left) ==> k < t.value)
      && (forall k :: k in Keys(t.right) ==> t.value < k)
      && Ordered(t.left) && Ordered(t.right)
  }

  /** Every node's Count is its own Duplications plus its children's Counts. */
  ghost predicate CountsOk(t: Item)
  {
    t.Node? ==> t.count == t.dups + Count(t.left) + Count(t.right) && CountsOk(t.left) && CountsOk(t.right)
  }

  /** Every node's Height is one more than the larger of its children's Heights. */
  ghost predicate HeightsOk(t: Item)
  {
    t.Node? ==> t.height == 1 + Max(Height(t.left), Height(t.right)) && HeightsOk(t.left) && HeightsOk(t.right)
  }

  /** AVL balance: sibling heights differ by at most one at every node. */
  ghost predicate Balanced(t: Item)
  {
    t.Node? ==> -1 <= Height(t.left) - Height(t.right) <= 1 && Balanced(t.left) && Balanced(t.right)
  }

  /** All the invariants the tests of the tree check. */
  ghost predicate IsAvl(t: Item)
  {
    Ordered(t) && CountsOk(t) && HeightsOk(t) && Balanced(t)
  }

  function Max(a: int, b: int): int { if a < b then b else a }

  ghost predicate StrictlyAscending(s: seq<real>)
  {
    forall i, j :: 0 <= i < j < |s| ==> s[i] < s[j]
  }

  /** Sum of the Duplications of all nodes whose value is at most x. */
  ghost function CountNoLargerThan(t: Item, x: real): int
  {
    if t.Nil? then 0
    else CountNoLargerThan(t.left, x) + (if t.value <= x then t.dups else 0) + CountNoLargerThan(t.right, x)
  }

  /** The value of the leftmost node: in an ordered tree, the smallest value. */
  function Leftmost(t: Item): (r: real)
    requires t.Node?
    ensures r in Keys(t)
    ensures Ordered(t) ==> forall k :: k in Keys(t) ==> r <= k
  {
    if t.left.Nil? then t.value else Leftmost(t.left)
  }

  /** The value of the rightmost node: in an ordered tree, the largest value. */
  function Rightmost(t: Item): (r: real)
    requires t.Node?
    ensures r in Keys(t)
    ensures Ordered(t) ==> forall k :: k in Keys(t) ==> k <= r
  {
    if t.right.Nil? then t.value else Rightmost(t.right)
  }

  /* ---------------- construction and height ---------------- */

  /** NewHistogramItem: a leaf of height 1 holding one copy of v. */
  function NewHistogramItem(v: real): (r: Item)
    ensures IsAvl(r) && Contents(r) == multiset{v} && InOrder(r) == [v] && Height(r) == 1
  {
    Node(Nil, v, 1, 1, 1, Nil)
  }

  /** The node Insert and Enqueue create for `count` copies of a new value: the source
      sets Duplications to count but leaves Count at the 1 of NewHistogramItem. */
  function NewLeaf(v: real, count: nat, variant: Variant): (leaf: Item)
  {
    Node(Nil, v, count, if variant == AsWritten then 1 else count, 1, Nil)
  }

  /** CalcHeight: recompute this node's Height from its children's. */
  function CalcHeight(t: Item): (r: Item)
    requires t.Node?
  {
    t.(height := 1 + Max(Height(t.left), Height(t.right)))
  }

  /* ---------------- rotations ---------------- */

  /** LeftRotate, with the source's incremental Count arithmetic; a no-op without a right child. */
  function LeftRotate(t: Item): (r: Item)
    ensures t.Node? ==> r.Node?
  {
    if t.Nil? || t.right.Nil? then t
    else
      var p := t.right;
      var tCount := t.count - p.count + Count(p.left);
      var pCount := p.count + (t.count - p.count);
      var t' := CalcHeight(Node(t.left, t.value, t.dups, tCount, t.height, p.left));
      CalcHeight(Node(t', p.value, p.dups, pCount, p.height, p.right))
  }

  /** RightRotate, the mirror image of LeftRotate; a no-op without a left child. */
  function RightRotate(t: Item): (r: Item)
    ensures t.Node? ==> r.Node?
  {
    if t.Nil? || t.left.Nil? then t
    else
      var p := t.left;
      var tCount := t.count - p.count + Count(p.right);
      var pCount := p.count + (t.count - p.count);
      var t' := CalcHeight(Node(p.right, t.value, t.dups, tCount, t.height, t.right));
      CalcHeight(Node(p.left, p.value, p.dups, pCount, p.height, t'))
  }

  /** Whether the child on the heavy side is rotated first (a double rotation). */
  predicate RotateChildFirst(child: Item, towardsLeft: bool, inserting: bool, variant: Variant)
    requires child.Node?
  {
    match variant
    case AsWritten =>
      inserting && (if towardsLeft then child.right.Node? else child.left.Node?)
    case Intended =>
      if towardsLeft then Height(child.right) > Height(child.left) else Height(child.left) > Height(child.right)
  }

  /** One iteration of UpdateHeight's loop at node t: CalcHeight, then a single or
      double rotation when the children's heights differ by more than one. */
  function Step(t: Item, inserting: bool, variant: Variant): (r: Item)
    requires t.Node?
    ensures r.Node?
  {
    var c := CalcHeight(t);
    if Height(c.left) > Height(c.right) + 1 then FixLeftHeavy(c, inserting, variant)
    else if Height(c.right) > Height(c.left) + 1 then FixRightHeavy(c, inserting, variant)
    else c
  }

  /** The right rotation at a left-heavy node, preceded by a left rotation of its left
      child when RotateChildFirst says so. */
  function FixLeftHeavy(c: Item, inserting: bool, variant: Variant): (r: Item)
    requires c.Node? && c.left.Node?
    ensures r.Node?
  {
    RightRotate(if RotateChildFirst(c.left, true, inserting, variant) then c.(left := LeftRotate(c.left)) else c)
  }

  /** The mirror image of FixLeftHeavy. */
  function FixRightHeavy(c: Item, inserting: bool, variant: Variant): (r: Item)
    requires c.Node? && c.right.Node?
    ensures r.Node?
  {
    LeftRotate(if RotateChildFirst(c.right, false, inserting, variant) then c.(right := RightRotate(c.right)) else c)
  }

  /* ---------------- queries ---------------- */

  /** Find: the node holding exactly v, or Nil. */
  function Find(t: Item, v: real): (r: Item)
    ensures r.Node? ==> r.value == v
    ensures Ordered(t) ==> (r.Node? <==> v in Keys(t))
    ensures Ordered(t) && r.Node? ==> r.dups == Contents(t)[v]
  {
    if t.Nil? then Nil
    else if t.value == v then
      CopiesHere(t);
      t
    else if v < t.value then
      var r := Find(t.left, v);
      CopiesOutside(t, v);
      r
    else
      var r := Find(t.right, v);
      CopiesOutside(t, v);
      r
  }

  /** In an ordered tree a value occurs only in the subtree the search descends into. */
  lemma CopiesOutside(t: Item, v: real)
    requires t.Node? && t.value != v
    ensures Ordered(t) && v < t.value ==> v !in Keys(t.right) && Contents(t)[v] == Contents(t.left)[v]
    ensures Ordered(t) && t.value < v ==> v !in Keys(t.left) && Contents(t)[v] == Contents(t.right)[v]
  {
    if Ordered(t) && v < t.value { NotInKeys(t.right, v); }
    if Ordered(t) && t.value < v { NotInKeys(t.left, v); }
  }

  /** In an ordered tree the node holding a value holds all of its copies. */
  lemma CopiesHere(t: Item)
    requires t.Node?
    ensures Ordered(t) ==> Contents(t)[t.value] == t.dups
  {
    if Ordered(t) {
      NotInKeys(t.left, t.value);
      NotInKeys(t.right, t.value);
    }
  }

  lemma {:induction false} NotInKeys(t: Item, v: real)
    requires v !in Keys(t)
    ensures Contents(t)[v] == 0
  {
    if t.Node? { NotInKeys(t.left, v); NotInKeys(t.right, v); }
  }

  /** The threaded link Smaller: the largest value strictly below x. */
  function Below(t: Item, x: real): (r: Option<real>)
    ensures r.Some? ==> r.value in Keys(t) && r.value < x
    ensures Ordered(t) && r.Some? ==> forall k :: k in Keys(t) && k < x ==> k <= r.value
    ensures Ordered(t) && r.None? ==> forall k :: k in Keys(t) ==> x <= k
  {
    if t.Nil? then None
    else if t.value < x then
      match Below(t.right, x)
      case Some(k) => Some(k)
      case None => Some(t.value)
    else Below(t.left, x)
  }

  /** The threaded link Larger: the smallest value strictly above x. */
  function Above(t: Item, x: real): (r: Option<real>)
    ensures r.Some? ==> r.value in Keys(t) && x < r.value
    ensures Ordered(t) && r.Some? ==> forall k :: k in Keys(t) && x < k ==> r.value <= k
    ensures Ordered(t) && r.None? ==> forall k :: k in Keys(t) ==> k <= x
  {
    if t.Nil? then None
    else if x < t.value then
      match Above(t.left, x)
      case Some(k) => Some(k)
      case None => Some(t.value)
    else Above(t.right, x)
  }
}
