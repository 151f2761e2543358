/**
 * The `Tree` object: its fields and the methods that read or replace its root.
 * The nodes themselves are values of `Bst.Tree`; a method that re-links nodes
 * in place is modelled as replacing the root with the rebuilt value.
 */
module TreeObject {
  import opened Bst
  import opened Construction
  import opened Updates
  import opened Queries

  class Tree {
    var sortedAndUniqueArray: seq<int>
    var root: Bst.Tree

    /** Every method keeps left <= node <= right at every node. */
    ghost predicate Valid()
      reads this
    {
      Ordered(root)
    }

    /**
     * Deduplicates and sorts the input, then builds the tree with `buildTree`
     * as written. The tree is always strictly-left ordered and holds no key
     * outside the input and every non-zero key of it; a 0 that lands in a
     * one-key slice is lost. Without the key 0 the in-order keys are the
     * sorted array and the tree is balanced and of least height.
     */
    constructor (elements: seq<int>)
      ensures sortedAndUniqueArray == SortUnique(elements)
      ensures StrictlyIncreasing(sortedAndUniqueArray)
      ensures root == BuildTree(sortedAndUniqueArray)
      ensures Valid() && StrictlyLeftOrdered(root)
      ensures forall x :: x in Keys(root) ==> x in elements
      ensures forall x | x != 0 :: x in elements ==> x in Keys(root)
      ensures 0 !in elements ==> InOrder(root) == sortedAndUniqueArray
      ensures 0 !in elements ==>
        Balanced(root) && CalculateHeight(root) == LogHeight(|sortedAndUniqueArray|)
    {
      var sorted := SortUnique(elements);
      sortedAndUniqueArray := sorted;
      root := BuildTree(sorted);
      BuildTreeOrdered(sorted, true);
      StrictOrderIsOrder(BuildTree(sorted));
      BuildTreeKeys(sorted);
      if 0 !in elements {
        BuildTreeInOrder(sorted);
        BuildTreeAgreesWithoutZero(sorted);
        BuildTreeFixedShape(sorted);
      }
    }

    /** Adds one occurrence of `value` as a new leaf; `find` then reaches it. */
    method Insert(value: int)
      requires Valid()
      modifies this
      ensures root == InsertRec(value, old(root))
      ensures sortedAndUniqueArray == old(sortedAndUniqueArray)
      ensures Valid() && Keys(root) == old(Keys(root)) + multiset{value}
      ensures old(StrictlyLeftOrdered(root)) ==> StrictlyLeftOrdered(root)
      ensures Search(root, value).Node?
      ensures CalculateHeight(root) <= old(CalculateHeight(root)) + 1
    {
      InsertKeepsOrder(value, root, false);
      if StrictlyLeftOrdered(root) {
        InsertKeepsOrder(value, root, true);
      }
      InsertThenFind(value, root);
      InsertHeight(value, root);
      root := InsertRec(value, root);
    }

    /**
     * The leftmost node of `node`'s right subtree, or the empty link when there
     * is no right subtree. In an ordered tree its key is the smallest key of the
     * right subtree, so it is the in-order successor of `node`.
     */
    method GetSuccessor(node: Bst.Tree) returns (s: Bst.Tree)
      requires node.Node?
      ensures node.right.Empty? ==> s.Empty?
      ensures node.right.Node? ==> s == Leftmost(node.right)
      ensures node.right.Node? && Ordered(node) ==>
        node.data <= s.data && forall k | k in Keys(node.right) :: s.data <= k
    {
      var current := node.right;
      while current.Node? && current.left.Node?
        invariant node.right.Empty? ==> current.Empty?
        invariant node.right.Node? ==> current.Node? && Leftmost(current) == Leftmost(node.right)
        decreases current
      {
        current := current.left;
      }
      s := current;
      if node.right.Node? && Ordered(node) {
        LeftmostIsMinimum(node.right);
      }
    }

    /** Removes one occurrence of `value`; an absent key leaves the tree unchanged. */
    method DeleteItem(value: int)
      requires Valid()
      modifies this
      ensures root == DeleteRec(value, old(root))
      ensures sortedAndUniqueArray == old(sortedAndUniqueArray)
      ensures Valid() && Keys(root) == old(Keys(root)) - multiset{value}
      ensures old(StrictlyLeftOrdered(root)) ==> StrictlyLeftOrdered(root)
      ensures value !in old(Keys(root)) ==> root == old(root)
    {
      DeleteKeepsOrder(value, root, false);
      if StrictlyLeftOrdered(root) {
        DeleteKeepsOrder(value, root, true);
      }
      DeleteRemovesOne(value, root);
      if value !in Keys(root) {
        DeleteAbsentKey(value, root);
      }
      root := DeleteRec(value, root);
    }

    /**
     * Walks down from the root to the first node holding `value`; the empty
     * link when the walk runs off the tree, which in an ordered tree happens
     * exactly when the key is absent.
     */
    method Find(value: int) returns (node: Bst.Tree, ghost steps: nat)
      ensures node == Search(root, value)
      ensures Valid() ==> (node.Node? <==> value in Keys(root))
      ensures steps <= CalculateHeight(root) + 1
    {
      if Valid() {
        SearchFindsPresentKeys(root, value);
      }
      var current := root;
      steps := 0;
      while current.Node?
        invariant Search(current, value) == Search(root, value)
        invariant steps + CalculateHeight(current) <= CalculateHeight(root)
        decreases current
      {
        steps := steps + 1;
        if current.data > value {
          current := current.left;
        } else if current.data < value {
          current := current.right;
        } else {
          return current, steps;
        }
      }
      node := current;
    }

    /**
     * The keys handed to the visitor in breadth-first order, with a queue of
     * nodes. On an empty tree the visitor receives the empty link and the next
     * step fails, which is the `None` result.
     */
    method LevelOrderForEach() returns (visited: Option<seq<int>>)
      ensures root.Empty? <==> visited.None?
      ensures root.Node? ==> visited == Some(LevelOrderRec([root]))
      ensures visited.Some? ==> multiset(visited.value) == Keys(root) && |visited.value| == Size(root)
    {
      if root.Empty? {
        return None;
      }
      var queue := [root];
      var out := [];
      while |queue| > 0
        invariant AllNodes(queue)
        invariant out + LevelOrderRec(queue) == LevelOrderRec([root])
        decreases QueueSize(queue)
      {
        var current := queue[0];
        var pushed := queue;
        if current.left.Node? {
          pushed := pushed + [current.left];
        }
        ghost var afterLeft := pushed;
        if current.right.Node? {
          pushed := pushed + [current.right];
        }
        LevelOrderRound(out, queue, afterLeft, pushed);
        out := out + [current.data];
        queue := pushed[1..];
      }
      assert LevelOrderRec(queue) == [];
      assert out + [] == out;
      assert out == LevelOrderRec([root]);
      LevelOrderOfTree(root);
      visited := Some(out);
    }

    /** The same visit order through the recursion on the queue. */
    method LevelOrderRecursiveForEach() returns (visited: Option<seq<int>>)
      ensures root.Empty? <==> visited.None?
      ensures visited.Some? ==> multiset(visited.value) == Keys(root) && |visited.value| == Size(root)
      ensures root.Node? ==> visited == Some(LevelOrderRec([root]))
      ensures visited.Some? ==> visited.value[0] == root.data
    {
      if root.Empty? {
        return None;
      }
      LevelOrderOfTree(root);
      visited := Some(LevelOrderRec([root]));
    }

    /** The height of the node `find` reaches, `None` when it reaches none. */
    method Height(value: int) returns (h: Option<int>)
      ensures h.Some? <==> Search(root, value).Node?
      ensures h.Some? ==> h.value == CalculateHeight(Search(root, value)) && 0 <= h.value <= CalculateHeight(root)
      ensures Valid() ==> (h.Some? <==> value in Keys(root))
    {
      var node;
      ghost var steps;
      node, steps := Find(value);
      if node.Node? {
        h := Some(CalculateHeight(node));
      } else {
        h := None;
      }
    }

    /**
     * The number of edges from the root to the first node holding `value`, by
     * a loop; it agrees with the recursive `depthRecursive`.
     */
    method Depth(value: int) returns (d: Option<nat>)
      ensures d == DepthRecursive(root, value)
      ensures Valid() ==> (d.Some? <==> value in Keys(root))
      ensures d.Some? ==> d.value + CalculateHeight(Search(root, value)) <= CalculateHeight(root)
    {
      DepthFacts(root, value);
      var current := root;
      if current.Empty? {
        return None;
      }
      var depth := 0;
      while current.Node?
        invariant Deeper(DepthRecursive(current, value), depth) == DepthRecursive(root, value)
        decreases current
      {
        DepthStep(current, value);
        if value > current.data {
          current := current.right;
        } else if value < current.data {
          current := current.left;
        } else {
          break;
        }
        DeeperAdd(DepthRecursive(current, value), 1, depth);
        depth := depth + 1;
      }
      if current.Node? {
        d := Some(depth);
      } else {
        d := None;
      }
    }

    /**
     * Compares `checkBalance`'s result with its -1 failure signal. Since the
     * empty link also reports -1, the answer is false for every tree.
     */
    method IsBalanced() returns (b: bool)
      ensures !b
    {
      b := CheckBalance(root) != -1;
      CheckBalanceAlwaysFails(root);
    }

    /**
     * Rebuilds the tree from its in-order keys with `buildTree` as written.
     * The result is ordered and keeps every key but 0; without the key 0 it
     * keeps the same keys in the same order and is balanced and of the least
     * height a tree of its size can have.
     */
    method Rebalance()
      requires Valid()
      modifies this
      ensures root == BuildTree(old(InOrder(root)))
      ensures sortedAndUniqueArray == old(sortedAndUniqueArray)
      ensures Valid() && Keys(root) <= old(Keys(root))
      ensures forall x | x != 0 :: Keys(root)[x] == old(Keys(root))[x]
      ensures 0 !in old(Keys(root)) ==>
        InOrder(root) == old(InOrder(root)) && Keys(root) == old(Keys(root))
      ensures 0 !in old(Keys(root)) ==> Balanced(root)
      ensures 0 !in old(Keys(root)) ==>
        forall other | Size(other) == Size(root) :: CalculateHeight(root) <= CalculateHeight(other)
    {
      ghost var before := root;
      var ordered := InOrder(root);
      root := BuildTree(ordered);
      RebuildFacts(before, root);
    }
  }

  /**
   * Rebalancing can put a key equal to a node's key in its left subtree, so
   * strictly-left ordering, which insert and delete keep, is not kept by
   * `rebalance`: three inserts of 3 make a chain that rebuilds into a node
   * with a 3 on each side.
   */
  lemma RebalanceMayPutEqualKeyLeft()
    ensures Chain3() == InsertRec(3, InsertRec(3, InsertRec(3, Empty)))
    ensures StrictlyLeftOrdered(Chain3())
    ensures !StrictlyLeftOrdered(BuildTree(InOrder(Chain3())))
  {
    ThreeInsertsMakeAChain();
    ChainOfThreesIsStrict();
    ChainInOrder();
    RebuiltThreesAreNotStrict();
  }

  /** Three nodes holding 3, each the right child of the one above. */
  function Chain3(): Bst.Tree
  {
    Node(Empty, 3, Node(Empty, 3, Node(Empty, 3, Empty)))
  }

  lemma ThreeInsertsMakeAChain()
    ensures InsertRec(3, InsertRec(3, InsertRec(3, Empty))) == Chain3()
  {
    var leaf := Node(Empty, 3, Empty);
    assert InsertRec(3, Empty) == leaf;
    assert InsertRec(3, leaf) == Node(Empty, 3, leaf);
  }

  lemma ChainInOrder()
    ensures InOrder(Chain3()) == [3, 3, 3]
  {
  }

  lemma ChainOfThreesIsStrict()
    ensures StrictlyLeftOrdered(Chain3())
  {
    var leaf := Node(Empty, 3, Empty);
    assert Keys(leaf) == multiset{3};
    assert StrictlyLeftOrdered(Node(Empty, 3, leaf));
    assert Keys(Node(Empty, 3, leaf)) == multiset{3, 3};
  }

  lemma RebuiltThreesAreNotStrict()
    ensures !StrictlyLeftOrdered(BuildTree([3, 3, 3]))
  {
    var leaf := Node(Empty, 3, Empty);
    assert [3, 3, 3][..1] == [3] && [3, 3, 3][2..] == [3];
    assert BuildTree([3, 3, 3]) == Node(leaf, 3, leaf);
    assert 3 in Keys(leaf);
  }
}
