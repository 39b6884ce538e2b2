/**
 * The set object of AVLSet.hpp: the root slot, the element count and the
 * balancing flag. The node graph under `root` is a Trees.Tree value.
 */
module AVL {
  import opened Trees

  class AVLSet {
    var root: Tree
    var treeSize: nat
    /** Set to 0 by the constructor and never read or written again. */
    var treeHeight: int
    var balance: bool

    /** BST order, every stored depth at least 1, and `treeSize` the number of
        keys. Balance is not part of it: the source does not maintain it. */
    ghost predicate Valid()
      reads this
    {
      IsBST(root) && PositiveDepths(root) && treeSize == |Elements(root)|
    }

    /** AVLSet.hpp:105-110. */
    constructor (shouldBalance: bool)
      ensures Valid()
      ensures root == Nil && treeSize == 0 && treeHeight == 0 && balance == shouldBalance
    {
      root := Nil;
      treeSize := 0;
      treeHeight := 0;
      balance := shouldBalance;
    }

    /** AVLSet.hpp:156-164: insert-if-absent through `addElement`, then count
        one more element. `ok` is false when the insertion reaches one of the
        null dereferences of the rebalancing code; the model then leaves the
        set as it was, where the source has undefined behaviour. */
    method Add(e: int) returns (ok: bool)
      requires Valid()
      modifies this
      ensures Valid()
      ensures balance == old(balance) && treeHeight == old(treeHeight)
      ensures e in old(Elements(root)) ==> ok && root == old(root) && treeSize == old(treeSize)
      ensures e !in old(Elements(root)) ==>
        match AddElement(old(root), e, balance, Reassigned)
        case Some(t) => ok && root == t && treeSize == old(treeSize) + 1
        case None => !ok && root == old(root) && treeSize == old(treeSize)
      ensures ok ==> Elements(root) == old(Elements(root)) + {e}
      ensures !balance ==> ok
    {
      var present := Contains(e);
      if present {
        return true;
      }
      match AddElement(root, e, balance, Reassigned)
      case None =>
        ok := false;
      case Some(t) =>
        root := t;
        treeSize := treeSize + 1;
        ok := true;
    }

    /** AVLSet.hpp:276-289: walk down from the root, right on greater, left on
        less, stopping on equality. */
    method Contains(e: int) returns (found: bool)
      requires Valid()
      ensures found <==> e in Elements(root)
    {
      var temp := root;
      while temp.Node?
        invariant IsBST(temp)
        invariant e in Elements(root) <==> e in Elements(temp)
        decreases temp
      {
        if temp.data == e {
          return true;
        } else if e > temp.data {
          temp := temp.right;
        } else if e < temp.data {
          temp := temp.left;
        }
      }
      return false;
    }

    /** AVLSet.hpp:292-296. */
    method Size() returns (n: nat)
      requires Valid()
      ensures n == |Elements(root)|
    {
      n := treeSize;
    }

    /** AVLSet.hpp:299-304: -1 for the empty tree, otherwise the root's stored
        depth. Since a leaf is stored with depth 1 (AVLSet.hpp:172), a
        non-empty tree reports at least 1, never the 0 the -1 convention of
        AVLSet.hpp:60-61 would give a single node. */
    function Height(): (h: int)
      reads this
      requires Valid()
      ensures h == -1 <==> root.Nil?
      ensures root.Node? ==> h == GetDepth(root) && h >= 1
    {
      if root.Nil? then -1 else root.depth
    }
  }
}
