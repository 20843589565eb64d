/** The weight-balanced leaf tree of Words16 (Words16/Tree.c). Keys and their
    counts live in the leaves. Every internal node carries a search key and the
    weight (wt) and weighted external path length (wepl) of its subtree. A single
    rotation happens whenever it would cut the wepl by more than the improvement
    factor lim. The tree is modelled as a value: each operation returns the
    rewritten tree. */
module WeplTree {
  import opened Common

  /** Nil is the NULL tree. A Leaf holds a key and its count, which is the node's
      wt; a leaf's wepl is 0 and it has no children. An internal Node holds its
      search key, its wt and wepl fields and both children. */
  datatype Tree =
    | Nil
    | Leaf(key: string, wt: int)
    | Node(key: string, wt: int, wepl: int, left: Tree, right: Tree)

  /** The wt field of a node; 0 for the empty tree. */
  function Wt(t: Tree): int {
    match t
    case Nil => 0
    case Leaf(_, w) => w
    case Node(_, w, _, _, _) => w
  }

  /** The wepl field of a node; 0 for a leaf and for the empty tree. */
  function Wepl(t: Tree): int {
    match t
    case Node(_, _, e, _, _) => e
    case _ => 0
  }

  // ---------------------------------------------------------------------------
  // What the tree holds

  /** The (key, count) pairs of the leaves from left to right: the inorder walk
      of printPairs. */
  function Pairs(t: Tree): seq<(string, int)> {
    match t
    case Nil => []
    case Leaf(k, w) => [(k, w)]
    case Node(_, _, _, l, r) => Pairs(l) + Pairs(r)
  }

  /** The keys held in leaves. */
  function Keys(t: Tree): set<string> {
    match t
    case Nil => {}
    case Leaf(k, _) => {k}
    case Node(_, _, _, l, r) => Keys(l) + Keys(r)
  }

  /** The total count of the pairs of s with key x. */
  function CountIn(s: seq<(string, int)>, x: string): int {
    if s == [] then 0
    else (if s[0].0 == x then s[0].1 else 0) + CountIn(s[1..], x)
  }

  /** The pairs of s whose key is not k, in order. */
  function Without(s: seq<(string, int)>, k: string): seq<(string, int)> {
    if s == [] then []
    else (if s[0].0 == k then [] else [s[0]]) + Without(s[1..], k)
  }

  /** The sum of the counts of s. */
  function Weight(s: seq<(string, int)>): int {
    if s == [] then 0 else s[0].1 + Weight(s[1..])
  }

  /** The weighted external path length computed from its definition: each
      leaf's count times its depth, for a subtree whose root lies at depth d. */
  function PathLength(t: Tree, d: nat): int {
    match t
    case Nil => 0
    case Leaf(_, w) => w * d
    case Node(_, _, _, l, r) => PathLength(l, d + 1) + PathLength(r, d + 1)
  }

  /** Keys strictly ascending in strcmp order. */
  predicate Ascending(s: seq<(string, int)>) {
    forall i, j :: 0 <= i < j < |s| ==> StrLess(s[i].0, s[j].0)
  }

  // ---------------------------------------------------------------------------
  // Invariants

  /** An internal node always has two non-NULL children. */
  predicate WellFormed(t: Tree) {
    match t
    case Node(_, _, _, l, r) => l != Nil && r != Nil && WellFormed(l) && WellFormed(r)
    case _ => true
  }

  /** The search order: keys that strcmp puts after a node's key are in its
      right subtree, all the others in its left subtree. */
  predicate Ordered(t: Tree) {
    match t
    case Node(k, _, _, l, r) =>
      && (forall x :: x in Keys(l) ==> !StrLess(k, x))
      && (forall x :: x in Keys(r) ==> StrLess(k, x))
      && Ordered(l) && Ordered(r)
    case _ => true
  }

  /** Every internal node's wt is the sum of its children's and its wepl is the
      children's wepl plus its own wt: what update establishes. */
  predicate Annotated(t: Tree) {
    match t
    case Node(_, w, e, l, r) =>
      w == Wt(l) + Wt(r) && e == Wepl(l) + Wepl(r) + w && Annotated(l) && Annotated(r)
    case _ => true
  }

  /** Every leaf count is at least 1. */
  predicate Positive(t: Tree) {
    match t
    case Leaf(_, w) => w >= 1
    case Node(_, _, _, l, r) => Positive(l) && Positive(r)
    case Nil => true
  }

  predicate Valid(t: Tree) {
    WellFormed(t) && Ordered(t) && Annotated(t) && Positive(t)
  }

  // ---------------------------------------------------------------------------
  // create, initLeaf, update

  /** create: the empty tree, which holds nothing. */
  function Create(): (t: Tree)
    ensures Valid(t) && Pairs(t) == [] && Keys(t) == {}
  {
    Nil
  }

  /** initLeaf: a leaf with key k, wt = count, wepl 0 and no children. */
  function InitLeaf(k: string, count: int): (t: Tree)
    ensures t.Leaf? && Wt(t) == count && Wepl(t) == 0
    ensures Pairs(t) == [(k, count)] && Keys(t) == {k}
  {
    Leaf(k, count)
  }

  /** update: an internal node's wt and wepl recomputed from its children; a
      leaf is left alone. Only those two fields change. */
  function Update(t: Tree): (u: Tree)
    ensures !t.Node? ==> u == t
    ensures t.Node? ==> u.Node? && u.key == t.key && u.left == t.left && u.right == t.right
    ensures t.Node? ==> (Annotated(u) <==> Annotated(t.left) && Annotated(t.right))
    ensures t.Node? ==> Wt(u) == Wt(t.left) + Wt(t.right)
    ensures Pairs(u) == Pairs(t) && Keys(u) == Keys(t)
    ensures WellFormed(u) == WellFormed(t) && Ordered(u) == Ordered(t) && Positive(u) == Positive(t)
  {
    match t
    case Node(k, _, _, l, r) =>
      var w := Wt(l) + Wt(r);
      Node(k, w, Wepl(l) + Wepl(r) + w, l, r)
    case _ => t
  }

  /** On a tree whose fields already agree with its children, update changes
      nothing. */
  lemma UpdateAnnotated(t: Tree)
    requires Annotated(t)
    ensures Update(t) == t
  {
  }

  // ---------------------------------------------------------------------------
  // wDiff and rotate

  /** wDiff: the reduction in wepl that a left (left = true) or right rotation
      at t would achieve; 0 at a leaf and when the child that would move up is
      a leaf. For children whose fields agree with their grandchildren, rotating
      and updating keeps the wt and lowers the wepl by exactly wDiff. */
  function WDiff(t: Tree, left: bool): (r: int)
    requires t != Nil && WellFormed(t)
    ensures (t.Node? ==> Annotated(t.left) && Annotated(t.right)) ==>
      && Annotated(Update(Rotate(t, left)))
      && Wt(Update(Rotate(t, left))) == Wt(Update(t))
      && Wepl(Update(Rotate(t, left))) == Wepl(Update(t)) - r
  {
    match t
    case Leaf(_, _) => 0
    case Node(_, _, _, l, rt) =>
      if left && rt.Leaf? then 0
      else if !left && l.Leaf? then 0
      else if left then RotateLeftWepl(t); Wt(rt.right) - Wt(l)
      else RotateRightWepl(t); Wt(l.left) - Wt(rt)
  }

  /** rotate: a left rotation lifts the right child, a right rotation the left
      child; the two nodes that move below it get update, the lifted node keeps
      its old fields (its caller updates it). A leaf, the empty tree and a node
      whose lifted child is a leaf are returned unchanged. The left-to-right
      sequence of leaves, and so the keys and their counts, stay the same. */
  function Rotate(t: Tree, left: bool): (r: Tree)
    ensures Pairs(r) == Pairs(t)
  {
    match t
    case Node(a, w, e, l, rt) =>
      if left then
        (match rt
         case Node(b, wb, eb, rl, rr) =>
           assert Pairs(t) == Pairs(l) + (Pairs(rl) + Pairs(rr));
           Node(b, wb, eb, Update(Node(a, w, e, l, rl)), Update(rr))
         case _ => t)
      else
        (match l
         case Node(b, wb, eb, ll, lr) =>
           assert Pairs(t) == (Pairs(ll) + Pairs(lr)) + Pairs(rt);
           Node(b, wb, eb, Update(ll), Update(Node(a, w, e, lr, rt)))
         case _ => t)
    case _ => t
  }

  lemma RotateWellFormed(t: Tree, left: bool)
    requires t != Nil && WellFormed(t)
    ensures Rotate(t, left) != Nil && WellFormed(Rotate(t, left))
  {
    match t
    case Node(a, w, e, l, rt) =>
      if left && rt.Node? {
        assert WellFormed(Update(Node(a, w, e, l, rt.left)));
      } else if !left && l.Node? {
        assert WellFormed(Update(Node(a, w, e, l.right, rt)));
      }
    case _ =>
  }

  /** A subtree of a well-formed tree that is not NULL holds some key. */
  lemma {:induction false} HasKey(t: Tree)
    requires WellFormed(t) && t != Nil
    ensures Keys(t) != {}
  {
    if t.Node? {
      HasKey(t.left);
    }
  }

  /** x comes no later than y in strcmp order. */
  predicate NotAfter(x: string, y: string) {
    !StrLess(y, x)
  }

  lemma NotAfterLess(x: string, y: string, z: string)
    requires NotAfter(x, y) && StrLess(y, z)
    ensures StrLess(x, z)
  {
    StrLessTrichotomy(x, y);
    if x != y {
      StrLessTransitive(x, y, z);
    }
  }

  lemma LessNotAfter(x: string, y: string, z: string)
    requires StrLess(x, y) && NotAfter(y, z)
    ensures StrLess(x, z)
  {
    StrLessTrichotomy(y, z);
    if y != z {
      StrLessTransitive(x, y, z);
    }
  }

  lemma LessIsNotAfter(x: string, y: string)
    requires StrLess(x, y)
    ensures NotAfter(x, y)
  {
    StrLessTrichotomy(x, y);
  }

  /** A rotation of a well-formed tree keeps it well formed and keeps the
      search order. */
  lemma RotateOrdered(t: Tree, left: bool)
    requires WellFormed(t) && Ordered(t)
    ensures WellFormed(Rotate(t, left)) && Ordered(Rotate(t, left))
  {
    match t
    case Node(a, w, e, l, rt) =>
      if left && rt.Node? {
        var b, rl, rr := rt.key, rt.left, rt.right;
        HasKey(rl);
        var y :| y in Keys(rl);
        LessNotAfter(a, y, b);
        forall x | x in Keys(l) ensures NotAfter(x, b) {
          NotAfterLess(x, a, b);
          LessIsNotAfter(x, b);
        }
      } else if !left && l.Node? {
        var b, ll, lr := l.key, l.left, l.right;
        HasKey(lr);
        var y :| y in Keys(lr);
        LessNotAfter(b, y, a);
        forall x | x in Keys(rt) ensures StrLess(b, x) {
          StrLessTransitive(b, a, x);
        }
      }
    case _ =>
  }

  /** A left rotation lowers the wepl by the weight of the right grandchild
      that moves up less the weight of the left child that moves down. */
  lemma RotateLeftWepl(t: Tree)
    requires t.Node? && WellFormed(t) && t.right.Node?
    ensures Annotated(t.left) && Annotated(t.right) ==>
      && Annotated(Update(Rotate(t, true)))
      && Wt(Update(Rotate(t, true))) == Wt(Update(t))
      && Wepl(Update(Rotate(t, true))) == Wepl(Update(t)) - (Wt(t.right.right) - Wt(t.left))
  {
    if Annotated(t.left) && Annotated(t.right) {
      var l, rt := t.left, t.right;
      var rl, rr := rt.left, rt.right;
      UpdateAnnotated(rr);
      var x := Update(Node(t.key, t.wt, t.wepl, l, rl));
      assert Wepl(x) == Wepl(l) + Wepl(rl) + Wt(l) + Wt(rl);
      var q := Node(rt.key, rt.wt, rt.wepl, x, rr);
      assert Rotate(t, true) == q;
      assert Wt(rt) == Wt(rl) + Wt(rr) && Wepl(rt) == Wepl(rl) + Wepl(rr) + Wt(rt);
      assert Wepl(Update(q)) == Wepl(x) + Wepl(rr) + Wt(x) + Wt(rr);
      assert Wepl(Update(t)) == Wepl(l) + Wepl(rt) + Wt(l) + Wt(rt);
    }
  }

  /** A right rotation lowers the wepl by the weight of the left grandchild
      that moves up less the weight of the right child that moves down. */
  lemma RotateRightWepl(t: Tree)
    requires t.Node? && WellFormed(t) && t.left.Node?
    ensures Annotated(t.left) && Annotated(t.right) ==>
      && Annotated(Update(Rotate(t, false)))
      && Wt(Update(Rotate(t, false))) == Wt(Update(t))
      && Wepl(Update(Rotate(t, false))) == Wepl(Update(t)) - (Wt(t.left.left) - Wt(t.right))
  {
    if Annotated(t.left) && Annotated(t.right) {
      var l, rt := t.left, t.right;
      var ll, lr := l.left, l.right;
      UpdateAnnotated(ll);
      var x := Update(Node(t.key, t.wt, t.wepl, lr, rt));
      assert Wepl(x) == Wepl(lr) + Wepl(rt) + Wt(lr) + Wt(rt);
      var q := Node(l.key, l.wt, l.wepl, ll, x);
      assert Rotate(t, false) == q;
      assert Wt(l) == Wt(ll) + Wt(lr) && Wepl(l) == Wepl(ll) + Wepl(lr) + Wt(l);
      assert Wepl(Update(q)) == Wepl(ll) + Wepl(x) + Wt(ll) + Wt(x);
      assert Wepl(Update(t)) == Wepl(l) + Wepl(rt) + Wt(l) + Wt(rt);
    }
  }

  /** The step that increment and delete apply at each node on the way back
      up: rotate when wDiff exceeds lim, then update. */
  function Rebalance(t: Tree, left: bool, lim: int): (r: Tree)
    requires t != Nil && WellFormed(t)
    ensures r != Nil && WellFormed(r)
  {
    RotateWellFormed(t, left);
    Update(if WDiff(t, left) > lim then Rotate(t, left) else t)
  }

  /** Rebalance rotates only when wDiff exceeds lim, and then the wepl drops by
      wDiff, more than lim; otherwise it is only an update. Weights, leaves and
      the invariants are kept either way. */
  lemma RebalanceWepl(t: Tree, left: bool, lim: int)
    requires t != Nil && WellFormed(t) && Ordered(t)
    requires t.Node? ==> Annotated(t.left) && Annotated(t.right)
    ensures var r := Rebalance(t, left, lim);
      && WellFormed(r) && Ordered(r) && Annotated(r)
      && Pairs(r) == Pairs(t) && Keys(r) == Keys(t) && Wt(r) == Wt(Update(t))
      && (WDiff(t, left) <= lim ==> r == Update(t))
      && (WDiff(t, left) > lim ==> Wepl(r) == Wepl(Update(t)) - WDiff(t, left) < Wepl(Update(t)) - lim)
  {
    RotateOrdered(t, left);
  }

  lemma RebalancePositive(t: Tree, left: bool, lim: int)
    requires t != Nil && WellFormed(t) && Positive(t)
    ensures Positive(Rebalance(t, left, lim))
  {
  }

  // ---------------------------------------------------------------------------
  // increment

  /** increment: descend by the search order; at a leaf with key k add 1 to its
      count, at another leaf split it into two leaves (the internal node takes
      the smaller key), on the empty tree make a leaf with count 1; rebalance
      each internal node on the way back. */
  function Increment(t: Tree, k: string, lim: int): (r: Tree)
    requires WellFormed(t)
    ensures r != Nil && WellFormed(r)
  {
    match t
    case Nil => InitLeaf(k, 1)
    case Leaf(key, w) =>
      if k == key then Leaf(key, w + 1)
      else if StrLess(key, k) then Update(Node(key, w, 0, InitLeaf(key, w), InitLeaf(k, 1)))
      else Update(Node(k, w, 0, InitLeaf(k, 1), InitLeaf(key, w)))
    case Node(key, w, e, l, rt) =>
      if StrLess(key, k) then
        Rebalance(Node(key, w, e, l, Increment(rt, k, lim)), true, lim)
      else
        Rebalance(Node(key, w, e, Increment(l, k, lim), rt), false, lim)
  }

  lemma CountAppend(a: seq<(string, int)>, b: seq<(string, int)>, x: string)
    ensures CountIn(a + b, x) == CountIn(a, x) + CountIn(b, x)
  {
    if a != [] {
      assert a + b != [] && (a + b)[0] == a[0] && (a + b)[1..] == a[1..] + b;
      CountAppend(a[1..], b, x);
    } else {
      assert a + b == b;
    }
  }

  lemma {:induction false} CountOutside(t: Tree, x: string)
    requires x !in Keys(t)
    ensures CountIn(Pairs(t), x) == 0
  {
    match t
    case Node(_, _, _, l, r) =>
      CountOutside(l, x);
      CountOutside(r, x);
      CountAppend(Pairs(l), Pairs(r), x);
    case _ =>
  }

  /** s holds the pairs of s0 with 1 more for key k. */
  ghost predicate Bumped(s: seq<(string, int)>, s0: seq<(string, int)>, k: string) {
    forall x :: CountIn(s, x) == CountIn(s0, x) + (if x == k then 1 else 0)
  }

  lemma BumpedRight(l: seq<(string, int)>, c: seq<(string, int)>, c0: seq<(string, int)>, k: string)
    requires Bumped(c, c0, k)
    ensures Bumped(l + c, l + c0, k)
  {
    forall x ensures CountIn(l + c, x) == CountIn(l + c0, x) + (if x == k then 1 else 0) {
      CountAppend(l, c, x);
      CountAppend(l, c0, x);
    }
  }

  lemma BumpedLeft(c: seq<(string, int)>, c0: seq<(string, int)>, r: seq<(string, int)>, k: string)
    requires Bumped(c, c0, k)
    ensures Bumped(c + r, c0 + r, k)
  {
    forall x ensures CountIn(c + r, x) == CountIn(c0 + r, x) + (if x == k then 1 else 0) {
      CountAppend(c, r, x);
      CountAppend(c0, r, x);
    }
  }

  /** increment at a leaf. */
  lemma IncrementLeaf(t: Tree, k: string, lim: int)
    requires Valid(t) && t.Leaf?
    ensures Valid(Increment(t, k, lim))
    ensures Keys(Increment(t, k, lim)) == Keys(t) + {k}
    ensures Bumped(Pairs(Increment(t, k, lim)), Pairs(t), k)
  {
    var key, w := t.key, t.wt;
    if k != key {
      StrLessIrreflexive(key);
      StrLessIrreflexive(k);
      StrLessTrichotomy(key, k);
      if StrLess(key, k) {
        BumpedRight([(key, w)], [(k, 1)], [], k);
      } else {
        BumpedLeft([(k, 1)], [], [(key, w)], k);
      }
    }
  }

  /** The way back up through an internal node after increment changed the
      right (toRight) or left child to c. */
  lemma IncrementNode(t: Tree, c: Tree, k: string, lim: int, toRight: bool)
    requires Valid(t) && t.Node? && toRight == StrLess(t.key, k)
    requires c != Nil && Valid(c)
    requires toRight ==> Keys(c) == Keys(t.right) + {k} && Bumped(Pairs(c), Pairs(t.right), k)
    requires !toRight ==> Keys(c) == Keys(t.left) + {k} && Bumped(Pairs(c), Pairs(t.left), k)
    ensures var u := if toRight then Node(t.key, t.wt, t.wepl, t.left, c)
                     else Node(t.key, t.wt, t.wepl, c, t.right);
      var r := Rebalance(u, toRight, lim);
      Valid(r) && Keys(r) == Keys(t) + {k} && Bumped(Pairs(r), Pairs(t), k)
  {
    if toRight {
      IncrementRightNode(t, c, k, lim);
    } else {
      IncrementLeftNode(t, c, k, lim);
    }
  }

  lemma IncrementRightNode(t: Tree, c: Tree, k: string, lim: int)
    requires Valid(t) && t.Node? && StrLess(t.key, k)
    requires c != Nil && Valid(c) && Keys(c) == Keys(t.right) + {k} && Bumped(Pairs(c), Pairs(t.right), k)
    ensures var r := Rebalance(Node(t.key, t.wt, t.wepl, t.left, c), true, lim);
      Valid(r) && Keys(r) == Keys(t) + {k} && Bumped(Pairs(r), Pairs(t), k)
  {
    var u := Node(t.key, t.wt, t.wepl, t.left, c);
    assert Keys(u) == Keys(t) + {k} && Pairs(u) == Pairs(t.left) + Pairs(c);
    RebalanceWepl(u, true, lim);
    RebalancePositive(u, true, lim);
    BumpedRight(Pairs(t.left), Pairs(c), Pairs(t.right), k);
  }

  lemma IncrementLeftNode(t: Tree, c: Tree, k: string, lim: int)
    requires Valid(t) && t.Node? && !StrLess(t.key, k)
    requires c != Nil && Valid(c) && Keys(c) == Keys(t.left) + {k} && Bumped(Pairs(c), Pairs(t.left), k)
    ensures var r := Rebalance(Node(t.key, t.wt, t.wepl, c, t.right), false, lim);
      Valid(r) && Keys(r) == Keys(t) + {k} && Bumped(Pairs(r), Pairs(t), k)
  {
    var u := Node(t.key, t.wt, t.wepl, c, t.right);
    assert Keys(u) == Keys(t) + {k} && Pairs(u) == Pairs(c) + Pairs(t.right);
    RebalanceWepl(u, false, lim);
    RebalancePositive(u, false, lim);
    BumpedLeft(Pairs(c), Pairs(t.left), Pairs(t.right), k);
  }

  /** increment keeps the invariants, adds k to the keys and adds exactly 1 to
      the count of k, leaving every other count alone. */
  lemma {:induction false} IncrementCounts(t: Tree, k: string, lim: int)
    requires Valid(t)
    ensures Valid(Increment(t, k, lim))
    ensures Keys(Increment(t, k, lim)) == Keys(t) + {k}
    ensures forall x :: CountIn(Pairs(Increment(t, k, lim)), x)
                        == CountIn(Pairs(t), x) + (if x == k then 1 else 0)
  {
    match t
    case Nil =>
    case Leaf(_, _) =>
      IncrementLeaf(t, k, lim);
    case Node(key, _, _, l, rt) =>
      if StrLess(key, k) {
        IncrementCounts(rt, k, lim);
        IncrementNode(t, Increment(rt, k, lim), k, lim, true);
      } else {
        IncrementCounts(l, k, lim);
        IncrementNode(t, Increment(l, k, lim), k, lim, false);
      }
  }

  /** An existing key keeps the number of leaves; an absent key adds one leaf,
      so the new key's count is 1. */
  lemma {:induction false} IncrementSize(t: Tree, k: string, lim: int)
    requires Valid(t)
    ensures |Pairs(Increment(t, k, lim))| == |Pairs(t)| + (if k in Keys(t) then 0 else 1)
    ensures k !in Keys(t) ==> CountIn(Pairs(Increment(t, k, lim)), k) == 1
  {
    match t
    case Nil =>
    case Leaf(key, w) =>
      if k != key {
        CountAppend([(key, w)], [(k, 1)], k);
        CountAppend([(k, 1)], [(key, w)], k);
      }
    case Node(key, w, e, l, rt) =>
      if StrLess(key, k) {
        IncrementSize(rt, k, lim);
        IncrementCounts(rt, k, lim);
        RebalanceWepl(Node(key, w, e, l, Increment(rt, k, lim)), true, lim);
      } else {
        IncrementSize(l, k, lim);
        IncrementCounts(l, k, lim);
        RebalanceWepl(Node(key, w, e, Increment(l, k, lim), rt), false, lim);
      }
    if k !in Keys(t) {
      CountOutside(t, k);
      IncrementCounts(t, k, lim);
    }
  }

  // ---------------------------------------------------------------------------
  // delete

  /** delete at an internal node. The flag is the static variable changed:
      whether a leaf was removed below, which the caller reads to decide on a
      rotation. If k goes right (or left) and that child is a leaf holding k,
      the leaf goes and its sibling takes the node's place; if the child is a
      leaf with another key, nothing is removed. */
  function DeleteIn(t: Tree, k: string, lim: int): (r: (Tree, bool))
    requires t.Node? && WellFormed(t)
    ensures r.0 != Nil && WellFormed(r.0)
    decreases t
  {
    var key, w, e, l, rt := t.key, t.wt, t.wepl, t.left, t.right;
    if StrLess(key, k) then
      if rt.Node? then
        var (c, changed) := DeleteIn(rt, k, lim);
        var u := Update(Node(key, w, e, l, c));
        (if changed then Rebalance(u, false, lim) else Update(u), changed)
      else if rt.key == k then (Update(l), true)
      else (Update(t), false)
    else
      if l.Node? then
        var (c, changed) := DeleteIn(l, k, lim);
        var u := Update(Node(key, w, e, c, rt));
        (if changed then Rebalance(u, true, lim) else Update(u), changed)
      else if l.key == k then (Update(rt), true)
      else (Update(t), false)
  }

  /** delete: a lone leaf holding k gives the empty tree, another leaf and the
      empty tree stay as they are. */
  function Delete(t: Tree, k: string, lim: int): (r: Tree)
    requires WellFormed(t)
    ensures WellFormed(r)
  {
    match t
    case Node(_, _, _, _, _) => DeleteIn(t, k, lim).0
    case Leaf(key, _) => if k == key then Nil else t
    case Nil => Nil
  }

  lemma WithoutAppend(a: seq<(string, int)>, b: seq<(string, int)>, k: string)
    ensures Without(a + b, k) == Without(a, k) + Without(b, k)
  {
    if a != [] {
      assert a + b != [] && (a + b)[0] == a[0] && (a + b)[1..] == a[1..] + b;
      WithoutAppend(a[1..], b, k);
    } else {
      assert a + b == b;
    }
  }

  /** Removing a key a tree does not hold changes nothing. */
  lemma {:induction false} WithoutAbsent(t: Tree, k: string)
    requires k !in Keys(t)
    ensures Without(Pairs(t), k) == Pairs(t)
  {
    match t
    case Node(_, _, _, l, r) =>
      WithoutAbsent(l, k);
      WithoutAbsent(r, k);
      WithoutAppend(Pairs(l), Pairs(r), k);
    case _ =>
  }

  lemma WithoutCount(s: seq<(string, int)>, k: string, x: string)
    ensures CountIn(Without(s, k), x) == if x == k then 0 else CountIn(s, x)
  {
    if s != [] {
      WithoutCount(s[1..], k, x);
      CountAppend(if s[0].0 == k then [] else [s[0]], Without(s[1..], k), x);
    }
  }

  /** delete at an internal node, on the way back up after the right child
      became c. */
  lemma DeleteRight(t: Tree, c: Tree, changed: bool, k: string, lim: int)
    requires Valid(t) && t.Node? && StrLess(t.key, k) && t.right.Node?
    requires c != Nil && Valid(c) && Keys(c) == Keys(t.right) - {k}
    requires Pairs(c) == Without(Pairs(t.right), k) && (changed <==> k in Keys(t.right))
    ensures var u := Update(Node(t.key, t.wt, t.wepl, t.left, c));
      var r := if changed then Rebalance(u, false, lim) else Update(u);
      && Valid(r) && Keys(r) == Keys(t) - {k} && Pairs(r) == Without(Pairs(t), k)
      && (changed <==> k in Keys(t))
  {
    var u := Update(Node(t.key, t.wt, t.wepl, t.left, c));
    assert Valid(u);
    if changed {
      RebalanceWepl(u, false, lim);
      RebalancePositive(u, false, lim);
    } else {
      UpdateAnnotated(u);
    }
    WithoutAbsent(t.left, k);
    WithoutAppend(Pairs(t.left), Pairs(t.right), k);
  }

  /** delete at an internal node, on the way back up after the left child
      became c. */
  lemma DeleteLeft(t: Tree, c: Tree, changed: bool, k: string, lim: int)
    requires Valid(t) && t.Node? && !StrLess(t.key, k) && t.left.Node?
    requires c != Nil && Valid(c) && Keys(c) == Keys(t.left) - {k}
    requires Pairs(c) == Without(Pairs(t.left), k) && (changed <==> k in Keys(t.left))
    ensures var u := Update(Node(t.key, t.wt, t.wepl, c, t.right));
      var r := if changed then Rebalance(u, true, lim) else Update(u);
      && Valid(r) && Keys(r) == Keys(t) - {k} && Pairs(r) == Without(Pairs(t), k)
      && (changed <==> k in Keys(t))
  {
    var u := Update(Node(t.key, t.wt, t.wepl, c, t.right));
    assert Valid(u);
    if changed {
      RebalanceWepl(u, true, lim);
      RebalancePositive(u, true, lim);
    } else {
      UpdateAnnotated(u);
    }
    StrLessTrichotomy(t.key, k);
    WithoutAbsent(t.right, k);
    WithoutAppend(Pairs(t.left), Pairs(t.right), k);
  }

  /** delete at an internal node whose right child, where k belongs, is a
      leaf. */
  lemma DeleteAtRightLeaf(t: Tree, k: string, lim: int)
    requires Valid(t) && t.Node? && StrLess(t.key, k) && t.right.Leaf?
    ensures var r := DeleteIn(t, k, lim);
      && Valid(r.0) && Keys(r.0) == Keys(t) - {k} && Pairs(r.0) == Without(Pairs(t), k)
      && (r.1 <==> k in Keys(t))
  {
    var l, rt := t.left, t.right;
    UpdateAnnotated(l);
    UpdateAnnotated(t);
    WithoutAppend(Pairs(l), Pairs(rt), k);
    WithoutAbsent(l, k);
    assert Without(Pairs(rt), k) == if rt.key == k then [] else Pairs(rt);
  }

  /** delete at an internal node whose left child, where k belongs, is a
      leaf. */
  lemma DeleteAtLeftLeaf(t: Tree, k: string, lim: int)
    requires Valid(t) && t.Node? && !StrLess(t.key, k) && t.left.Leaf?
    ensures var r := DeleteIn(t, k, lim);
      && Valid(r.0) && Keys(r.0) == Keys(t) - {k} && Pairs(r.0) == Without(Pairs(t), k)
      && (r.1 <==> k in Keys(t))
  {
    var l, rt := t.left, t.right;
    UpdateAnnotated(rt);
    UpdateAnnotated(t);
    WithoutAppend(Pairs(l), Pairs(rt), k);
    WithoutAbsent(rt, k);
    assert Without(Pairs(l), k) == if l.key == k then [] else Pairs(l);
  }

  /** delete at an internal node keeps the invariants, removes k from the keys
      and its leaf from the leaf sequence, and reports a change exactly when k
      was there. */
  lemma {:induction false} DeleteInValid(t: Tree, k: string, lim: int)
    requires Valid(t) && t.Node?
    ensures Valid(DeleteIn(t, k, lim).0)
    ensures Keys(DeleteIn(t, k, lim).0) == Keys(t) - {k}
    ensures Pairs(DeleteIn(t, k, lim).0) == Without(Pairs(t), k)
    ensures DeleteIn(t, k, lim).1 <==> k in Keys(t)
  {
    if StrLess(t.key, k) && t.right.Node? {
      DeleteInValid(t.right, k, lim);
      var r := DeleteIn(t.right, k, lim);
      DeleteRight(t, r.0, r.1, k, lim);
    } else if !StrLess(t.key, k) && t.left.Node? {
      DeleteInValid(t.left, k, lim);
      var r := DeleteIn(t.left, k, lim);
      DeleteLeft(t, r.0, r.1, k, lim);
    } else if StrLess(t.key, k) {
      DeleteAtRightLeaf(t, k, lim);
    } else {
      DeleteAtLeftLeaf(t, k, lim);
    }
  }

  /** delete keeps the invariants and removes exactly the leaf of k: its count
      drops to 0 and every other count stays. An absent key leaves the leaves
      as they were, and a lone leaf holding k leaves the empty tree. */
  lemma DeleteCounts(t: Tree, k: string, lim: int)
    requires Valid(t)
    ensures Valid(Delete(t, k, lim))
    ensures Keys(Delete(t, k, lim)) == Keys(t) - {k}
    ensures Pairs(Delete(t, k, lim)) == Without(Pairs(t), k)
    ensures forall x :: CountIn(Pairs(Delete(t, k, lim)), x) == if x == k then 0 else CountIn(Pairs(t), x)
    ensures k !in Keys(t) ==> Pairs(Delete(t, k, lim)) == Pairs(t)
    ensures t.Leaf? && t.key == k ==> Delete(t, k, lim) == Nil
  {
    if t.Node? {
      DeleteInValid(t, k, lim);
    }
    forall x ensures CountIn(Pairs(Delete(t, k, lim)), x) == if x == k then 0 else CountIn(Pairs(t), x) {
      WithoutCount(Pairs(t), k, x);
    }
    if k !in Keys(t) {
      WithoutAbsent(t, k);
    }
  }

  /** A present key loses its one leaf; an absent key changes no leaf. */
  lemma {:induction false} DeleteSize(t: Tree, k: string, lim: int)
    requires Valid(t)
    ensures |Pairs(Delete(t, k, lim))| == |Pairs(t)| - (if k in Keys(t) then 1 else 0)
  {
    if t.Node? {
      DeleteInSize(t, k, lim);
    }
  }

  lemma {:induction false} DeleteInSize(t: Tree, k: string, lim: int)
    requires Valid(t) && t.Node?
    ensures |Pairs(DeleteIn(t, k, lim).0)| == |Pairs(t)| - (if k in Keys(t) then 1 else 0)
  {
    var l, rt := t.left, t.right;
    if StrLess(t.key, k) {
      if rt.Node? {
        DeleteInSize(rt, k, lim);
        DeleteInValid(rt, k, lim);
        var r := DeleteIn(rt, k, lim);
        DeleteRight(t, r.0, r.1, k, lim);
      }
    } else {
      StrLessTrichotomy(t.key, k);
      if l.Node? {
        DeleteInSize(l, k, lim);
        DeleteInValid(l, k, lim);
        var r := DeleteIn(l, k, lim);
        DeleteLeft(t, r.0, r.1, k, lim);
      }
    }
  }

  // ---------------------------------------------------------------------------
  // dump, printPairs, printEPL

  /** dump: the keys of all nodes in preorder, internal nodes included: the
      root's key first, and every leaf key among them. */
  function Dump(t: Tree): (r: seq<string>)
    ensures t != Nil ==> r != [] && r[0] == t.key
    ensures forall x :: x in Keys(t) ==> x in r
  {
    match t
    case Nil => []
    case Leaf(k, _) => [k]
    case Node(k, _, _, l, r) => [k] + Dump(l) + Dump(r)
  }

  /** A nonempty well-formed tree dumps one line per node: 2n - 1 of them for
      n leaves. */
  lemma {:induction false} DumpShape(t: Tree)
    requires WellFormed(t) && t != Nil
    ensures |Dump(t)| == 2 * |Pairs(t)| - 1
  {
    if t.Node? {
      DumpShape(t.left);
      DumpShape(t.right);
    }
  }

  /** Every leaf key is in Keys, and every key in Keys is some leaf's key. */
  lemma {:induction false} PairsKeys(t: Tree)
    ensures forall i :: 0 <= i < |Pairs(t)| ==> Pairs(t)[i].0 in Keys(t)
    ensures forall x :: x in Keys(t) ==> exists i :: 0 <= i < |Pairs(t)| && Pairs(t)[i].0 == x
  {
    match t
    case Node(_, _, _, l, r) =>
      PairsKeys(l);
      PairsKeys(r);
      var a: seq<(string, int)>, b: seq<(string, int)> := Pairs(l), Pairs(r);
      assert Pairs(t) == a + b && Keys(t) == Keys(l) + Keys(r);
      forall x | x in Keys(t) ensures exists i :: 0 <= i < |a + b| && (a + b)[i].0 == x {
        if x in Keys(l) {
          var i :| 0 <= i < |a| && a[i].0 == x;
          assert (a + b)[i] == a[i];
        } else {
          var i :| 0 <= i < |b| && b[i].0 == x;
          assert (a + b)[|a| + i] == b[i];
        }
      }
    case Leaf(_, _) =>
      assert Pairs(t)[0].0 == t.key;
    case Nil =>
  }

  /** printPairs lists the keys in strictly ascending strcmp order. */
  lemma {:induction false} PrintPairsAscending(t: Tree)
    requires Ordered(t)
    ensures Ascending(Pairs(t))
  {
    match t
    case Node(k, _, _, l, r) =>
      PrintPairsAscending(l);
      PrintPairsAscending(r);
      PairsKeys(l);
      PairsKeys(r);
      var a: seq<(string, int)>, b: seq<(string, int)> := Pairs(l), Pairs(r);
      forall i, j | 0 <= i < j < |a + b| ensures StrLess((a + b)[i].0, (a + b)[j].0) {
        if j < |a| {
          assert (a + b)[i] == a[i] && (a + b)[j] == a[j];
        } else if |a| <= i {
          assert (a + b)[i] == b[i - |a|] && (a + b)[j] == b[j - |a|];
        } else {
          assert (a + b)[i] == a[i] && (a + b)[j] == b[j - |a|];
          NotAfterLess(a[i].0, k, b[j - |a|].0);
        }
      }
    case _ =>
  }

  /** With positive counts, a key has a positive count exactly when the tree
      holds it. */
  lemma {:induction false} CountPositive(t: Tree, x: string)
    requires Positive(t)
    ensures CountIn(Pairs(t), x) > 0 <==> x in Keys(t)
    ensures CountIn(Pairs(t), x) >= 0
  {
    match t
    case Node(_, _, _, l, r) =>
      CountPositive(l, x);
      CountPositive(r, x);
      CountAppend(Pairs(l), Pairs(r), x);
    case Leaf(k, w) =>
      assert Pairs(t)[1..] == [];
    case Nil =>
  }

  /** printEPL: the root's wt and wepl, and 0, 0 for the empty tree. */
  function PrintEpl(t: Tree): (r: (int, int))
    ensures t == Nil ==> r == (0, 0)
  {
    (Wt(t), Wepl(t))
  }

  lemma WeightAppend(a: seq<(string, int)>, b: seq<(string, int)>)
    ensures Weight(a + b) == Weight(a) + Weight(b)
  {
    if a != [] {
      assert a + b != [] && (a + b)[0] == a[0] && (a + b)[1..] == a[1..] + b;
      WeightAppend(a[1..], b);
    } else {
      assert a + b == b;
    }
  }

  /** One level deeper adds the subtree's weight once more. */
  lemma {:induction false} PathLengthDeeper(t: Tree, d: nat)
    ensures PathLength(t, d + 1) == PathLength(t, d) + Weight(Pairs(t))
  {
    match t
    case Node(_, _, _, l, r) =>
      PathLengthDeeper(l, d + 1);
      PathLengthDeeper(r, d + 1);
      WeightAppend(Pairs(l), Pairs(r));
    case Leaf(_, w) =>
      assert w * (d + 1) == w * d + w;
    case Nil =>
  }

  /** On an annotated tree printEPL reports the total count of all leaves and
      the weighted external path length: the sum over the leaves of count
      times depth. */
  lemma {:induction false} PrintEplReports(t: Tree)
    requires Annotated(t)
    ensures PrintEpl(t) == (Weight(Pairs(t)), PathLength(t, 0))
  {
    match t
    case Node(_, _, _, l, r) =>
      PrintEplReports(l);
      PrintEplReports(r);
      WeightAppend(Pairs(l), Pairs(r));
      PathLengthDeeper(l, 0);
      PathLengthDeeper(r, 0);
    case Leaf(_, w) =>
    case Nil =>
  }
}
