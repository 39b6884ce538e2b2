/**
 * The node graph of AVLSet.hpp as a value. Each node exclusively owns its two
 * children, so a subtree is a `Tree` value and an update through a `Node*&`
 * slot becomes a function that returns the new content of that slot. Keys
 * are integers, ordered by `<`.
 */
module Trees {

  datatype Option<T> = None | Some(value: T)

  /** `Nil` is the null pointer; `depth` is the node's stored `depth` field. */
  datatype Tree = Nil | Node(data: int, left: Tree, right: Tree, depth: int)

  /** The node created for a new element (AVLSet.hpp:171-172). */
  function Leaf(e: int): Tree
  {
    Node(e, Nil, Nil, 1)
  }

  /** AVLSet.hpp:356-360. */
  function GetMax(a: int, b: int): (m: int)
    ensures m >= a && m >= b
    ensures m == a || m == b
  {
    if a > b then a else b
  }

  /** AVLSet.hpp:362-367: 0 for an absent subtree, the stored depth otherwise. */
  function GetDepth(t: Tree): (d: int)
    ensures t.Nil? ==> d == 0
    ensures t.Node? ==> d == t.depth
  {
    if t.Nil? then 0 else t.depth
  }

  /** The stored depth a node gets when it is refreshed from its children. */
  function Refreshed(left: Tree, right: Tree): int
  {
    GetMax(GetDepth(left), GetDepth(right)) + 1
  }

  /** Left-minus-right depth, the quantity the balance checks test. */
  function Diff(t: Tree): int
  {
    if t.Nil? then 0 else GetDepth(t.left) - GetDepth(t.right)
  }

  // ---------------------------------------------------------------------------
  // Specification functions

  /** The in-order sequence of keys. */
  function InOrder(t: Tree): seq<int>
  {
    if t.Nil? then [] else InOrder(t.left) + [t.data] + InOrder(t.right)
  }

  ghost function Elements(t: Tree): set<int>
  {
    if t.Nil? then {} else Elements(t.left) + {t.data} + Elements(t.right)
  }

  /** Binary-search-tree order: everything left of a node is smaller, everything
      right of it larger. */
  ghost predicate IsBST(t: Tree)
  {
    t.Node? ==>
      && IsBST(t.left) && IsBST(t.right)
      && (forall x :: x in Elements(t.left) ==> x < t.data)
      && (forall x :: x in Elements(t.right) ==> t.data < x)
  }

  ghost predicate StrictlyIncreasing(s: seq<int>)
  {
    forall i, j :: 0 <= i < j < |s| ==> s[i] < s[j]
  }

  /** Every stored depth is at least 1, as every depth the source writes is. */
  ghost predicate PositiveDepths(t: Tree)
  {
    t.Node? ==> t.depth >= 1 && PositiveDepths(t.left) && PositiveDepths(t.right)
  }

  lemma {:induction false} ElementsAreInOrder(t: Tree, x: int)
    ensures x in Elements(t) <==> x in InOrder(t)
  {
    if t.Node? {
      ElementsAreInOrder(t.left, x);
      ElementsAreInOrder(t.right, x);
    }
  }

  lemma SortedAround(a: seq<int>, d: int, b: seq<int>)
    ensures StrictlyIncreasing(a + [d] + b) <==>
      && StrictlyIncreasing(a) && StrictlyIncreasing(b)
      && (forall x :: x in a ==> x < d) && (forall x :: x in b ==> d < x)
  {
    var s := a + [d] + b;
    if StrictlyIncreasing(s) {
      forall i, j | 0 <= i < j < |a| ensures a[i] < a[j] {
        assert a[i] == s[i] && a[j] == s[j];
      }
      forall i, j | 0 <= i < j < |b| ensures b[i] < b[j] {
        assert b[i] == s[|a| + 1 + i] && b[j] == s[|a| + 1 + j];
      }
      forall x | x in a ensures x < d {
        var i :| 0 <= i < |a| && a[i] == x;
        assert s[i] == x && s[|a|] == d;
      }
      forall x | x in b ensures d < x {
        var i :| 0 <= i < |b| && b[i] == x;
        assert s[|a| + 1 + i] == x && s[|a|] == d;
      }
    }
    if && StrictlyIncreasing(a) && StrictlyIncreasing(b)
       && (forall x :: x in a ==> x < d) && (forall x :: x in b ==> d < x)
    {
      forall i, j | 0 <= i < j < |s| ensures s[i] < s[j] {
        if j < |a| {
          assert s[i] == a[i] && s[j] == a[j];
        } else if j == |a| {
          assert s[i] == a[i] && a[i] in a;
        } else if i < |a| {
          assert s[i] == a[i] && a[i] in a && s[j] == b[j - |a| - 1] && b[j - |a| - 1] in b;
        } else if i == |a| {
          assert s[j] == b[j - |a| - 1] && b[j - |a| - 1] in b;
        } else {
          assert s[i] == b[i - |a| - 1] && s[j] == b[j - |a| - 1];
        }
      }
    }
  }

  /** A tree is a BST exactly when its in-order sequence strictly increases. */
  lemma {:induction false} BSTIffSorted(t: Tree)
    ensures IsBST(t) <==> StrictlyIncreasing(InOrder(t))
  {
    if t.Node? {
      BSTIffSorted(t.left);
      BSTIffSorted(t.right);
      SortedAround(InOrder(t.left), t.data, InOrder(t.right));
      forall x ensures x in Elements(t.left) <==> x in InOrder(t.left) {
        ElementsAreInOrder(t.left, x);
      }
      forall x ensures x in Elements(t.right) <==> x in InOrder(t.right) {
        ElementsAreInOrder(t.right, x);
      }
    }
  }

  /** Two trees with the same in-order sequence agree on BST order and on
      their elements: what every rotation relies on. */
  lemma SameInOrder(s: Tree, t: Tree)
    requires InOrder(s) == InOrder(t)
    ensures IsBST(s) <==> IsBST(t)
    ensures Elements(s) == Elements(t)
  {
    BSTIffSorted(s);
    BSTIffSorted(t);
    forall x ensures x in Elements(s) <==> x in Elements(t) {
      ElementsAreInOrder(s, x);
      ElementsAreInOrder(t, x);
    }
  }

  // ---------------------------------------------------------------------------
  // Rotations

  /** What a rotation does with the `Node*&` slot it is given. The source
      never assigns to it, so the slot keeps pointing at the old root
      (`Kept`); the evident intent is to store the promoted node there
      (`Reassigned`). */
  datatype Slot = Reassigned | Kept

  /** AVLSet.hpp:325-337 with the promoted node returned: the right child `a`
      becomes the subtree root, the old root becomes its left child and takes
      `a`'s former left subtree as its right child. The demoted node's depth is
      refreshed first, then the promoted node's. */
  function LeftRotate(t: Tree): (r: Tree)
    requires t.Node? && t.right.Node?
    ensures r.Node? && r.left.Node?
    ensures InOrder(r) == InOrder(t)
    ensures r.data == t.right.data && r.left.data == t.data
    ensures r.left.depth == GetMax(GetDepth(t.left), GetDepth(t.right.left)) + 1
    ensures r.depth == GetMax(r.left.depth, GetDepth(t.right.right)) + 1
    ensures PositiveDepths(t) ==> PositiveDepths(r)
  {
    var a := t.right;
    assert PositiveDepths(t) ==> PositiveDepths(a);
    assert PositiveDepths(a) ==> PositiveDepths(a.left) && PositiveDepths(a.right);
    var demoted := Node(t.data, t.left, a.left, Refreshed(t.left, a.left));
    assert InOrder(t) == InOrder(demoted) + [a.data] + InOrder(a.right) by {
      assert InOrder(a) == InOrder(a.left) + [a.data] + InOrder(a.right);
    }
    Node(a.data, demoted, a.right, Refreshed(demoted, a.right))
  }

  /** AVLSet.hpp:339-354 with the promoted node returned: the mirror image of
      LeftRotate, except for the depths. Lines 350-351 refresh the demoted node
      twice and the promoted node never, so the promoted node keeps the depth
      it had as the left child. */
  function RightRotate(t: Tree): (r: Tree)
    requires t.Node? && t.left.Node?
    ensures r.Node? && r.right.Node?
    ensures InOrder(r) == InOrder(t)
    ensures r.data == t.left.data && r.right.data == t.data
    ensures r.right.depth == GetMax(GetDepth(t.left.right), GetDepth(t.right)) + 1
    ensures r.depth == t.left.depth
    ensures PositiveDepths(t) ==> PositiveDepths(r)
  {
    var a := t.left;
    assert PositiveDepths(t) ==> PositiveDepths(a);
    assert PositiveDepths(a) ==> PositiveDepths(a.left) && PositiveDepths(a.right) && a.depth >= 1;
    var demoted := Node(t.data, a.right, t.right, Refreshed(a.right, t.right));
    assert InOrder(t) == InOrder(a.left) + [a.data] + InOrder(demoted) by {
      assert InOrder(a) == InOrder(a.left) + [a.data] + InOrder(a.right);
    }
    Node(a.data, a.left, demoted, a.depth)
  }

  /** What the caller's slot holds after the source's `leftRotate(root)`
      (AVLSet.hpp:326-337): the old root, whose right child is now the promoted
      node's former left subtree. Exactly the promoted node and its right
      subtree are no longer reachable from the slot. */
  function LeftRotateAsWritten(t: Tree): (r: Tree)
    requires t.Node? && t.right.Node?
    ensures r.Node? && r.data == t.data && r.left == t.left && r.right == t.right.left
    ensures r.depth == GetMax(GetDepth(t.left), GetDepth(t.right.left)) + 1
    ensures IsBST(t) ==> IsBST(r) && Elements(r) == Elements(t) - ({t.right.data} + Elements(t.right.right))
    ensures PositiveDepths(t) ==> PositiveDepths(r)
  {
    var a := t.right;
    assert IsBST(t) ==> IsBST(a) && IsBST(a.left) && a.data in Elements(a);
    assert PositiveDepths(t) ==> PositiveDepths(t.left) && PositiveDepths(a) && PositiveDepths(a.left);
    LeftRotationLoss(t);
    Node(t.data, t.left, t.right.left, Refreshed(t.left, t.right.left))
  }

  /** In a BST the keys of the promoted node and of its outer subtree occur
      nowhere else. */
  lemma LeftRotationLoss(t: Tree)
    requires t.Node? && t.right.Node?
    ensures IsBST(t) ==>
      Elements(t.left) + {t.data} + Elements(t.right.left) == Elements(t) - ({t.right.data} + Elements(t.right.right))
  {
    if IsBST(t) {
      var a := t.right;
      assert a.data in Elements(a);
      assert IsBST(a) && t.data < a.data;
      forall x | x in Elements(a.right) ensures x !in Elements(t.left) + {t.data} + Elements(a.left) {
        assert a.data < x;
      }
    }
  }

  /** What the caller's slot holds after the source's `rightRotate(root)`
      (AVLSet.hpp:340-354): the old root, with the promoted node's former right
      subtree as its left child. Exactly the promoted node and its left
      subtree are no longer reachable from the slot. */
  function RightRotateAsWritten(t: Tree): (r: Tree)
    requires t.Node? && t.left.Node?
    ensures r.Node? && r.data == t.data && r.left == t.left.right && r.right == t.right
    ensures r.depth == GetMax(GetDepth(t.left.right), GetDepth(t.right)) + 1
    ensures IsBST(t) ==> IsBST(r) && Elements(r) == Elements(t) - ({t.left.data} + Elements(t.left.left))
    ensures PositiveDepths(t) ==> PositiveDepths(r)
  {
    var a := t.left;
    assert IsBST(t) ==> IsBST(a) && IsBST(a.right) && a.data in Elements(a);
    assert PositiveDepths(t) ==> PositiveDepths(t.right) && PositiveDepths(a) && PositiveDepths(a.right);
    RightRotationLoss(t);
    Node(t.data, t.left.right, t.right, Refreshed(t.left.right, t.right))
  }

  /** The mirror image of LeftRotationLoss. */
  lemma RightRotationLoss(t: Tree)
    requires t.Node? && t.left.Node?
    ensures IsBST(t) ==>
      Elements(t.left.right) + {t.data} + Elements(t.right) == Elements(t) - ({t.left.data} + Elements(t.left.left))
  {
    if IsBST(t) {
      var a := t.left;
      assert a.data in Elements(a);
      assert IsBST(a) && a.data < t.data;
      forall x | x in Elements(a.left) ensures x !in Elements(a.right) + {t.data} + Elements(t.right) {
        assert x < a.data;
      }
    }
  }

  /** Without the reassignment a left rotation of 1 -> 3 leaves only 1 in the
      slot: the key 3 is lost. */
  lemma LeftRotateAsWrittenLosesKeys()
    ensures var t := Node(1, Nil, Leaf(3), 2);
      && InOrder(LeftRotateAsWritten(t)) == [1]
      && InOrder(t) == [1, 3]
      && InOrder(LeftRotate(t)) == [1, 3]
  {
  }

  /** Without the reassignment a right rotation of 2 <- 3 leaves only 3 in the
      slot: the key 2 is lost. */
  lemma RightRotateAsWrittenLosesKeys()
    ensures var t := Node(3, Leaf(2), Nil, 2);
      && InOrder(RightRotateAsWritten(t)) == [3]
      && InOrder(t) == [2, 3]
      && InOrder(RightRotate(t)) == [2, 3]
  {
  }

  /** A left rotation under either slot behaviour: BST order is kept and no
      key is invented; with the reassignment the in-order sequence is kept. */
  function RotateLeft(slot: Slot, t: Tree): (r: Tree)
    requires t.Node? && t.right.Node?
    ensures r.Node?
    ensures slot == Reassigned ==> InOrder(r) == InOrder(t)
    ensures IsBST(t) ==> IsBST(r) && Elements(r) <= Elements(t)
    ensures PositiveDepths(t) ==> PositiveDepths(r)
  {
    match slot
    case Reassigned => SameInOrder(LeftRotate(t), t); LeftRotate(t)
    case Kept => LeftRotateAsWritten(t)
  }

  /** The mirror image of RotateLeft. */
  function RotateRight(slot: Slot, t: Tree): (r: Tree)
    requires t.Node? && t.left.Node?
    ensures r.Node?
    ensures slot == Reassigned ==> InOrder(r) == InOrder(t)
    ensures IsBST(t) ==> IsBST(r) && Elements(r) <= Elements(t)
    ensures PositiveDepths(t) ==> PositiveDepths(r)
  {
    match slot
    case Reassigned => SameInOrder(RightRotate(t), t); RightRotate(t)
    case Kept => RightRotateAsWritten(t)
  }

  // ---------------------------------------------------------------------------
  // Rebalancing, as the four checks of AVLSet.hpp:180-216 (repeated at
  // AVLSet.hpp:229-265). Each check is evaluated on the subtree as the previous
  // one left it. `None` stands for a null dereference, after which the source
  // has undefined behaviour. Under either slot behaviour BST order is kept and
  // no key is invented; only with the reassignment are all keys kept.

  /** AVLSet.hpp:181-187. In a BST the right child is larger than the node, so
      the rotation never happens (see CaseGuardsInBST). */
  function RightRightCase(slot: Slot, n: Tree): (r: Option<Tree>)
    ensures r.Some? && slot == Reassigned ==> InOrder(r.value) == InOrder(n)
    ensures r.Some? && IsBST(n) ==> IsBST(r.value) && Elements(r.value) <= Elements(n)
    ensures r.Some? && PositiveDepths(n) ==> PositiveDepths(r.value)
  {
    if n.Node? && Diff(n) < -1 then
      if n.right.Nil? then None
      else if n.right.data < n.data then Some(RotateLeft(slot, n))
      else Some(n)
    else Some(n)
  }

  /** A node whose right subtree is replaced by a BST holding some of the old
      right subtree's keys is still a BST and holds no new key. */
  lemma WithFewerRight(n: Tree, r': Tree)
    requires n.Node?
    ensures IsBST(n) && IsBST(r') && Elements(r') <= Elements(n.right) ==>
      IsBST(Node(n.data, n.left, r', n.depth)) && Elements(Node(n.data, n.left, r', n.depth)) <= Elements(n)
  {
  }

  /** The mirror image of WithFewerRight. */
  lemma WithFewerLeft(n: Tree, l': Tree)
    requires n.Node?
    ensures IsBST(n) && IsBST(l') && Elements(l') <= Elements(n.left) ==>
      IsBST(Node(n.data, l', n.right, n.depth)) && Elements(Node(n.data, l', n.right, n.depth)) <= Elements(n)
  {
  }

  /** AVLSet.hpp:189-197: right-rotate the right child, then left-rotate the
      node. In a BST this is the case taken whenever the node is right-heavy;
      the first rotation dereferences null when the right child has no left
      child. */
  function RightLeftCase(slot: Slot, n: Tree): (r: Option<Tree>)
    ensures r.Some? && slot == Reassigned ==> InOrder(r.value) == InOrder(n)
    ensures r.Some? && IsBST(n) ==> IsBST(r.value) && Elements(r.value) <= Elements(n)
    ensures r.Some? && PositiveDepths(n) ==> PositiveDepths(r.value)
  {
    if n.Node? && Diff(n) < -1 then
      if n.right.Nil? then None
      else if n.right.data > n.data then
        if n.right.left.Nil? then None
        else
          var inner := Node(n.data, n.left, RotateRight(slot, n.right), n.depth);
          WithFewerRight(n, inner.right);
          Some(RotateLeft(slot, inner))
      else Some(n)
    else Some(n)
  }

  /** AVLSet.hpp:199-206. In a BST the left child is smaller than the node, so
      the rotation never happens. */
  function LeftLeftCase(slot: Slot, n: Tree): (r: Option<Tree>)
    ensures r.Some? && slot == Reassigned ==> InOrder(r.value) == InOrder(n)
    ensures r.Some? && IsBST(n) ==> IsBST(r.value) && Elements(r.value) <= Elements(n)
    ensures r.Some? && PositiveDepths(n) ==> PositiveDepths(r.value)
  {
    if n.Node? && Diff(n) > 1 then
      if n.left.Nil? then None
      else if n.left.data > n.data then Some(RotateRight(slot, n))
      else Some(n)
    else Some(n)
  }

  /** AVLSet.hpp:208-216: left-rotate the left child, then right-rotate the
      node. In a BST this is the case taken whenever the node is left-heavy;
      the first rotation dereferences null when the left child has no right
      child. */
  function LeftRightCase(slot: Slot, n: Tree): (r: Option<Tree>)
    ensures r.Some? && slot == Reassigned ==> InOrder(r.value) == InOrder(n)
    ensures r.Some? && IsBST(n) ==> IsBST(r.value) && Elements(r.value) <= Elements(n)
    ensures r.Some? && PositiveDepths(n) ==> PositiveDepths(r.value)
  {
    if n.Node? && Diff(n) > 1 then
      if n.left.Nil? then None
      else if n.left.data < n.data then
        if n.left.right.Nil? then None
        else
          var inner := Node(n.data, RotateLeft(slot, n.left), n.right, n.depth);
          WithFewerLeft(n, inner.left);
          Some(RotateRight(slot, inner))
      else Some(n)
    else Some(n)
  }

  /** The four checks in the source's order. */
  function Rebalance(slot: Slot, n: Tree): (r: Option<Tree>)
    ensures r.Some? && slot == Reassigned ==> InOrder(r.value) == InOrder(n)
    ensures r.Some? && IsBST(n) ==> IsBST(r.value) && Elements(r.value) <= Elements(n)
    ensures r.Some? && PositiveDepths(n) ==> PositiveDepths(r.value)
  {
    match RightRightCase(slot, n)
    case None => None
    case Some(n1) =>
      match RightLeftCase(slot, n1)
      case None => None
      case Some(n2) =>
        match LeftLeftCase(slot, n2)
        case None => None
        case Some(n3) => LeftRightCase(slot, n3)
  }

  /** With the reassignment, rebalancing that does not fault keeps BST order
      and the keys. */
  lemma RebalanceKeepsKeys(n: Tree)
    ensures Rebalance(Reassigned, n).Some? ==>
      (IsBST(Rebalance(Reassigned, n).value) <==> IsBST(n)) &&
      Elements(Rebalance(Reassigned, n).value) == Elements(n)
  {
    if Rebalance(Reassigned, n).Some? {
      SameInOrder(Rebalance(Reassigned, n).value, n);
    }
  }

  /** Within a BST the guards at AVLSet.hpp:183 and 202 are always false and
      those at AVLSet.hpp:192 and 211 always true. */
  lemma CaseGuardsInBST(n: Tree)
    requires IsBST(n) && n.Node?
    ensures n.right.Node? ==> !(n.right.data < n.data) && n.right.data > n.data
    ensures n.left.Node? ==> !(n.left.data > n.data) && n.left.data < n.data
  {
    if n.right.Node? {
      assert n.right.data in Elements(n.right);
    }
    if n.left.Node? {
      assert n.left.data in Elements(n.left);
    }
  }

  /** A node whose depths pass the checks is left as it is. */
  lemma RebalanceKeepsBalanced(slot: Slot, n: Tree)
    requires -1 <= Diff(n) <= 1
    ensures Rebalance(slot, n) == Some(n)
  {
  }

  // ---------------------------------------------------------------------------
  // Insertion

  /** AVLSet.hpp:166-273, returning the new content of the `root` slot. A null
      slot receives a depth-1 leaf. Going left with balancing on, the node's
      depth is refreshed after the recursive call (AVLSet.hpp:179); going
      right it is not (AVLSet.hpp:227), and without balancing it never is.
      `None` propagates a null dereference from a rotation. An element equal
      to the node's key changes nothing at that node. With `Kept` this is the
      source as written; with `Reassigned`, the source with its rotations
      storing the promoted node. */
  function AddElement(t: Tree, e: int, balance: bool, slot: Slot): (r: Option<Tree>)
    ensures !balance ==> r.Some?
    ensures r.Some? && IsBST(t) ==> IsBST(r.value) && Elements(r.value) <= Elements(t) + {e}
    ensures r.Some? && IsBST(t) && slot == Reassigned ==> Elements(r.value) == Elements(t) + {e}
    ensures r.Some? && PositiveDepths(t) ==> PositiveDepths(r.value)
  {
    match t
    case Nil => Some(Leaf(e))
    case Node(d, l, rt, h) =>
      if e < d then
        match AddElement(l, e, balance, slot)
        case None => None
        case Some(l') =>
          if balance then
            var n := Node(d, l', rt, Refreshed(rt, l'));
            BSTWithNewLeft(t, l', n, e);
            RebalanceKeepsKeys(n);
            Rebalance(slot, n)
          else
            BSTWithNewLeft(t, l', Node(d, l', rt, h), e);
            Some(Node(d, l', rt, h))
      else if e > d then
        match AddElement(rt, e, balance, slot)
        case None => None
        case Some(r') =>
          var n := Node(d, l, r', h);
          BSTWithNewRight(t, r', n, e);
          if balance then
            RebalanceKeepsKeys(n);
            Rebalance(slot, n)
          else Some(n)
      else Some(t)
  }

  lemma BSTWithNewLeft(t: Tree, l': Tree, n: Tree, e: int)
    requires t.Node? && e < t.data
    requires n.Node? && n.data == t.data && n.left == l' && n.right == t.right
    requires IsBST(t) ==> IsBST(l') && Elements(l') <= Elements(t.left) + {e}
    ensures IsBST(t) ==> IsBST(n) && Elements(n) <= Elements(t) + {e}
    ensures IsBST(t) && Elements(l') == Elements(t.left) + {e} ==> Elements(n) == Elements(t) + {e}
  {
  }

  lemma BSTWithNewRight(t: Tree, r': Tree, n: Tree, e: int)
    requires t.Node? && e > t.data
    requires n.Node? && n.data == t.data && n.left == t.left && n.right == r'
    requires IsBST(t) ==> IsBST(r') && Elements(r') <= Elements(t.right) + {e}
    ensures IsBST(t) ==> IsBST(n) && Elements(n) <= Elements(t) + {e}
    ensures IsBST(t) && Elements(r') == Elements(t.right) + {e} ==> Elements(n) == Elements(t) + {e}
  {
  }

  /** The subtree whose root holds `e`, reached by the search of
      AVLSet.hpp:279-286; `Nil` when the search falls off the tree. */
  function Find(t: Tree, e: int): Tree
  {
    if t.Nil? then Nil
    else if t.data == e then t
    else if e > t.data then Find(t.right, e)
    else Find(t.left, e)
  }

  /** The (key, stored depth) pairs of the nodes. */
  ghost function Labels(t: Tree): set<(int, int)>
  {
    if t.Nil? then {} else Labels(t.left) + {(t.data, t.depth)} + Labels(t.right)
  }

  /** In a BST the search finds exactly the keys present, at a node holding
      the key. */
  lemma {:induction false} FindInBST(t: Tree, e: int)
    requires IsBST(t)
    ensures Find(t, e).Node? <==> e in Elements(t)
    ensures Find(t, e).Node? ==> Find(t, e).data == e
  {
    if t.Node? && t.data != e {
      FindInBST(t.left, e);
      FindInBST(t.right, e);
    }
  }

  /** Without balancing (AVLSet.hpp:169-173, 218-221, 267-270) a present key
      changes nothing, and an absent key is hung as a depth-1 leaf in the
      empty slot where the search for it falls off; every other node keeps
      its key and its stored depth. */
  lemma {:induction false} UnbalancedInsertion(t: Tree, e: int, slot: Slot)
    requires IsBST(t)
    ensures e in Elements(t) ==> AddElement(t, e, false, slot) == Some(t)
    ensures e !in Elements(t) ==>
      && Find(t, e) == Nil
      && Find(AddElement(t, e, false, slot).value, e) == Leaf(e)
      && Labels(AddElement(t, e, false, slot).value) == Labels(t) + {(e, 1)}
  {
    if t.Node? {
      UnbalancedInsertion(t.left, e, slot);
      UnbalancedInsertion(t.right, e, slot);
      if e < t.data {
        assert e !in Elements(t.right);
      } else if e > t.data {
        assert e !in Elements(t.left);
      }
    }
  }

  /** Without balancing no rotation runs, so the slot behaviour does not
      matter. */
  lemma {:induction false} UnbalancedIgnoresSlot(t: Tree, e: int)
    ensures AddElement(t, e, false, Kept) == AddElement(t, e, false, Reassigned)
  {
    if t.Node? {
      UnbalancedIgnoresSlot(t.left, e);
      UnbalancedIgnoresSlot(t.right, e);
    }
  }

  /** When the refreshed node passes the balance checks, a balanced left
      insertion yields that node: new left subtree, depth 1 + the larger
      child depth (AVLSet.hpp:178-179). */
  lemma LeftInsertionRefreshesDepth(t: Tree, e: int, slot: Slot, l': Tree)
    requires t.Node? && e < t.data
    requires AddElement(t.left, e, true, slot) == Some(l')
    requires -1 <= GetDepth(l') - GetDepth(t.right) <= 1
    ensures AddElement(t, e, true, slot) ==
      Some(Node(t.data, l', t.right, GetMax(GetDepth(t.right), GetDepth(l')) + 1))
  {
    var n := Node(t.data, l', t.right, Refreshed(t.right, l'));
    RebalanceKeepsBalanced(slot, n);
    assert AddElement(t, e, true, slot) == Rebalance(slot, n);
  }

  /** A balanced right insertion keeps the node's old depth (AVLSet.hpp:227). */
  lemma RightInsertionKeepsDepth(t: Tree, e: int, slot: Slot, r': Tree)
    requires t.Node? && e > t.data
    requires AddElement(t.right, e, true, slot) == Some(r')
    requires -1 <= GetDepth(t.left) - GetDepth(r') <= 1
    ensures AddElement(t, e, true, slot) == Some(Node(t.data, t.left, r', t.depth))
  {
    var n := Node(t.data, t.left, r', t.depth);
    RebalanceKeepsBalanced(slot, n);
    assert AddElement(t, e, true, slot) == Rebalance(slot, n);
  }

  /** Ascending insertion of 1, 2, 3 with balancing: right insertions never
      refresh a depth, so no check fires, the tree stays a right spine and the
      root's depth stays 1. */
  lemma AscendingInsertion(slot: Slot)
    ensures AddElement(Leaf(1), 2, true, slot) == Some(Node(1, Nil, Leaf(2), 1))
    ensures AddElement(Node(1, Nil, Leaf(2), 1), 3, true, slot) ==
      Some(Node(1, Nil, Node(2, Nil, Leaf(3), 1), 1))
  {
  }

  /** A smaller key inserted into a leaf becomes its left child and refreshes
      the leaf's depth to 2; no balance check fires. */
  lemma SmallerIntoLeaf(slot: Slot, d: int, e: int)
    requires e < d
    ensures AddElement(Leaf(d), e, true, slot) == Some(Node(d, Leaf(e), Nil, 2))
  {
    RebalanceKeepsBalanced(slot, Node(d, Leaf(e), Nil, 2));
  }

  /** Descending insertion of 3, 2, 1 with balancing: the third insertion makes
      the root left-heavy and the left-right case rotates the left child 2,
      which has no right child -- the null dereference of AVLSet.hpp:329. */
  lemma DescendingInsertionFaults(slot: Slot)
    ensures AddElement(Leaf(3), 2, true, slot) == Some(Node(3, Leaf(2), Nil, 2))
    ensures AddElement(Node(3, Leaf(2), Nil, 2), 1, true, slot) == None
  {
    SmallerIntoLeaf(slot, 3, 2);
    SmallerIntoLeaf(slot, 2, 1);
    var n := Node(3, Node(2, Leaf(1), Nil, 2), Nil, 3);
    assert AddElement(Node(3, Leaf(2), Nil, 2), 1, true, slot) == Rebalance(slot, n);
    assert RightRightCase(slot, n) == Some(n);
    assert RightLeftCase(slot, n) == Some(n);
    assert LeftLeftCase(slot, n) == Some(n);
    assert LeftRightCase(slot, n) == None;
  }

  /** Inserting 10 and then 20 with balancing: a right spine of depth 1 at
      the root. Inserting 15 below it makes 10 right-heavy. */
  lemma RightLeftSetup(slot: Slot)
    ensures AddElement(Nil, 10, true, slot) == Some(Leaf(10))
    ensures AddElement(Leaf(10), 20, true, slot) == Some(Node(10, Nil, Leaf(20), 1))
    ensures AddElement(Node(10, Nil, Leaf(20), 1), 15, true, slot) ==
      Rebalance(slot, Node(10, Nil, Node(20, Leaf(15), Nil, 2), 1))
  {
    RebalanceKeepsBalanced(slot, Node(10, Nil, Leaf(20), 1));
    RebalanceKeepsBalanced(slot, Node(20, Leaf(15), Nil, 2));
    assert AddElement(Leaf(20), 15, true, slot) == Some(Node(20, Leaf(15), Nil, 2));
  }

  /** Inserting 10, 20, 15 with balancing, as written: the right-left case
      fires at 10. The right rotation of 20 leaves 15 unreachable, and the
      left rotation of 10 then leaves 20 unreachable, so only 10 remains
      although three absent keys were added (AVLSet.hpp:239-245). */
  lemma RightLeftInsertionLosesKeys()
    ensures AddElement(Nil, 10, true, Kept) == Some(Leaf(10))
    ensures AddElement(Leaf(10), 20, true, Kept) == Some(Node(10, Nil, Leaf(20), 1))
    ensures 20 !in Elements(Leaf(10)) && 15 !in Elements(Node(10, Nil, Leaf(20), 1))
    ensures AddElement(Node(10, Nil, Leaf(20), 1), 15, true, Kept) == Some(Leaf(10))
    ensures Elements(Leaf(10)) == {10}
  {
    RightLeftSetup(Kept);
    var n := Node(10, Nil, Node(20, Leaf(15), Nil, 2), 1);
    assert RightRightCase(Kept, n) == Some(n);
    assert RotateRight(Kept, n.right) == Leaf(20);
    assert RotateLeft(Kept, Node(10, Nil, Leaf(20), 1)) == Leaf(10);
    assert RightLeftCase(Kept, n) == Some(Leaf(10));
    RebalanceKeepsBalanced(Kept, Leaf(10));
    assert LeftLeftCase(Kept, Leaf(10)) == Some(Leaf(10));
  }

  /** The same insertions with the reassignment: 15 over 10 and 20, all three
      keys kept. */
  lemma RightLeftInsertionReassigned()
    ensures AddElement(Node(10, Nil, Leaf(20), 1), 15, true, Reassigned) ==
      Some(Node(15, Leaf(10), Leaf(20), 2))
  {
    RightLeftSetup(Reassigned);
    var n := Node(10, Nil, Node(20, Leaf(15), Nil, 2), 1);
    var m := Node(15, Leaf(10), Leaf(20), 2);
    assert RightRightCase(Reassigned, n) == Some(n);
    assert RotateRight(Reassigned, n.right) == Node(15, Nil, Leaf(20), 1);
    assert RotateLeft(Reassigned, Node(10, Nil, Node(15, Nil, Leaf(20), 1), 1)) == m;
    assert RightLeftCase(Reassigned, n) == Some(m);
    assert LeftLeftCase(Reassigned, m) == Some(m);
  }
}
