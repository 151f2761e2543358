/**
 * The nodes of the binary search tree as values, and the specification
 * functions the rest of the model is stated with: the key multiset, the
 * three depth-first traversals, the search path followed by `find`, the
 * in-order successor, the height and the balance condition.
 */
module Bst {

  datatype Option<T> = None | Some(value: T)

  /** A `Node` with its key and two child links, or the `null` link. */
  datatype Tree = Empty | Node(left: Tree, data: int, right: Tree)

  /** Number of nodes. */
  function Size(t: Tree): nat
  {
    match t
    case Empty => 0
    case Node(l, _, r) => Size(l) + 1 + Size(r)
  }

  /** The multiset of keys held by the nodes of `t`, one per node. */
  function Keys(t: Tree): multiset<int>
  {
    match t
    case Empty => multiset{}
    case Node(l, d, r) => Keys(l) + multiset{d} + Keys(r)
  }

  /**
   * The search-tree ordering: every key of a node's left subtree is at most
   * the node's key (strictly below it when `strictLeft`), and every key of its
   * right subtree is at least the node's key.
   */
  ghost predicate OrderedBy(t: Tree, strictLeft: bool)
  {
    match t
    case Empty => true
    case Node(l, d, r) =>
      && (forall k | k in Keys(l) :: k < d || (!strictLeft && k == d))
      && (forall k | k in Keys(r) :: d <= k)
      && OrderedBy(l, strictLeft)
      && OrderedBy(r, strictLeft)
  }

  /** left <= node <= right: the ordering every operation of the tree keeps. */
  ghost predicate Ordered(t: Tree)
  {
    OrderedBy(t, false)
  }

  /** left < node <= right: the ordering construction, insert and delete keep. */
  ghost predicate StrictlyLeftOrdered(t: Tree)
  {
    OrderedBy(t, true)
  }

  ghost predicate NonDecreasing(s: seq<int>)
  {
    forall i, j | 0 <= i < j < |s| :: s[i] <= s[j]
  }

  ghost predicate StrictlyIncreasing(s: seq<int>)
  {
    forall i, j | 0 <= i < j < |s| :: s[i] < s[j]
  }

  /** The keys handed to the visitor of `inOrderForEach`: left, node, right. */
  function InOrder(t: Tree): (s: seq<int>)
    ensures multiset(s) == Keys(t)
  {
    match t
    case Empty => []
    case Node(l, d, r) => InOrder(l) + [d] + InOrder(r)
  }

  /** The keys handed to the visitor of `preOrderForEach`: node, left, right. */
  function PreOrder(t: Tree): (s: seq<int>)
    ensures multiset(s) == Keys(t)
    ensures t.Node? ==> |s| > 0 && s[0] == t.data
  {
    match t
    case Empty => []
    case Node(l, d, r) => [d] + PreOrder(l) + PreOrder(r)
  }

  /** The keys handed to the visitor of `postOrderForEach`: left, right, node. */
  function PostOrder(t: Tree): (s: seq<int>)
    ensures multiset(s) == Keys(t)
    ensures t.Node? ==> |s| > 0 && s[|s| - 1] == t.data
  {
    match t
    case Empty => []
    case Node(l, d, r) => PostOrder(l) + PostOrder(r) + [d]
  }

  function Pow2(n: nat): (p: nat)
    ensures p >= 1
  {
    if n == 0 then 1 else 2 * Pow2(n - 1)
  }

  lemma {:induction false} Pow2Monotone(m: nat, n: nat)
    requires m <= n
    ensures Pow2(m) <= Pow2(n)
  {
    if m < n {
      Pow2Monotone(m, n - 1);
    }
  }

  function Max(a: int, b: int): int
  {
    if a < b then b else a
  }

  /**
   * `#calculateHeight`: edges on the longest downward path, -1 for the empty
   * link, so 0 for a leaf.
   */
  function CalculateHeight(t: Tree): (h: int)
    ensures -1 <= h < Size(t)
    ensures h == -1 <==> t.Empty?
  {
    match t
    case Empty => -1
    case Node(l, _, r) => 1 + Max(CalculateHeight(l), CalculateHeight(r))
  }

  lemma {:induction false} TwoBelowPow2(sl: nat, sr: nat, hl: int, hr: int)
    requires -1 <= hl && -1 <= hr
    requires sl < Pow2(hl + 1) && sr < Pow2(hr + 1)
    ensures sl + 1 + sr < Pow2(Max(hl, hr) + 2)
  {
    var m := Max(hl, hr);
    Pow2Monotone(hl + 1, m + 1);
    Pow2Monotone(hr + 1, m + 1);
    assert Pow2(m + 2) == 2 * Pow2(m + 1);
  }

  /** A tree of height h has fewer than 2^(h+1) nodes. */
  lemma {:induction false} SizeBelowPow2(t: Tree)
    ensures Size(t) < Pow2(CalculateHeight(t) + 1)
  {
    if t.Node? {
      var l, r := t.left, t.right;
      SizeBelowPow2(l);
      SizeBelowPow2(r);
      TwoBelowPow2(Size(l), Size(r), CalculateHeight(l), CalculateHeight(r));
      assert Size(t) == Size(l) + 1 + Size(r);
      assert CalculateHeight(t) + 1 == Max(CalculateHeight(l), CalculateHeight(r)) + 2;
    }
  }

  /** Every node's two subtrees differ in height by at most one. */
  ghost predicate Balanced(t: Tree)
  {
    match t
    case Empty => true
    case Node(l, _, r) =>
      && -1 <= CalculateHeight(l) - CalculateHeight(r) <= 1
      && Balanced(l)
      && Balanced(r)
  }

  /**
   * The node `find` stops at: the first node on the search path from the root
   * whose key equals `v`, or `Empty` when the path runs off the tree.
   */
  function Search(t: Tree, v: int): (r: Tree)
    ensures r.Node? ==> r.data == v
    ensures r.Node? ==> v in Keys(t) && CalculateHeight(r) <= CalculateHeight(t)
  {
    match t
    case Empty => Empty
    case Node(l, d, rr) =>
      if d > v then Search(l, v)
      else if d < v then Search(rr, v)
      else t
  }

  /** The node `getSuccessor` walks to: the leftmost node of a non-empty tree. */
  function Leftmost(t: Tree): (m: Tree)
    requires t.Node?
    ensures m.Node? && m.left.Empty? && m.data in Keys(t)
  {
    if t.left.Empty? then t else Leftmost(t.left)
  }

  lemma {:induction false} StrictOrderIsOrder(t: Tree)
    requires StrictlyLeftOrdered(t)
    ensures Ordered(t)
  {
    if t.Node? {
      StrictOrderIsOrder(t.left);
      StrictOrderIsOrder(t.right);
    }
  }

  /** On an ordered tree `find` reaches a node exactly when the key is present. */
  lemma {:induction false} SearchFindsPresentKeys(t: Tree, v: int)
    requires Ordered(t)
    ensures Search(t, v).Node? <==> v in Keys(t)
  {
    match t
    case Empty =>
    case Node(l, d, r) =>
      if d > v {
        SearchFindsPresentKeys(l, v);
        assert v !in Keys(r);
      } else if d < v {
        SearchFindsPresentKeys(r, v);
        assert v !in Keys(l);
      }
  }

  /** The in-order successor is the smallest key of an ordered subtree. */
  lemma {:induction false} LeftmostIsMinimum(t: Tree)
    requires t.Node? && Ordered(t)
    ensures forall k | k in Keys(t) :: Leftmost(t).data <= k
  {
    if t.left.Node? {
      LeftmostIsMinimum(t.left);
    }
  }

  lemma {:induction false} SortedSplit(a: seq<int>, d: int, b: seq<int>)
    ensures NonDecreasing(a + [d] + b) <==>
      && NonDecreasing(a)
      && NonDecreasing(b)
      && (forall x | x in a :: x <= d)
      && (forall x | x in b :: d <= x)
  {
    var s := a + [d] + b;
    if NonDecreasing(s) {
      forall i, j | 0 <= i < j < |a| ensures a[i] <= a[j] {
        assert s[i] == a[i] && s[j] == a[j];
      }
      forall i, j | 0 <= i < j < |b| ensures b[i] <= b[j] {
        assert s[|a| + 1 + i] == b[i] && s[|a| + 1 + j] == b[j];
      }
      forall x | x in a ensures x <= d {
        var i :| 0 <= i < |a| && a[i] == x;
        assert s[i] == x && s[|a|] == d;
      }
      forall x | x in b ensures d <= x {
        var i :| 0 <= i < |b| && b[i] == x;
        assert s[|a| + 1 + i] == x && s[|a|] == d;
      }
    }
    if && NonDecreasing(a) && NonDecreasing(b)
       && (forall x | x in a :: x <= d) && (forall x | x in b :: d <= x)
    {
      forall i, j | 0 <= i < j < |s| ensures s[i] <= s[j] {
        if j < |a| {
          assert s[i] == a[i] && s[j] == a[j];
        } else if j == |a| {
          assert s[i] == a[i] && a[i] in a;
        } else if i < |a| {
          assert s[i] == a[i] && a[i] in a;
          assert s[j] == b[j - |a| - 1] && b[j - |a| - 1] in b;
        } else if i == |a| {
          assert s[j] == b[j - |a| - 1] && b[j - |a| - 1] in b;
        } else {
          assert s[i] == b[i - |a| - 1] && s[j] == b[j - |a| - 1];
        }
      }
    }
  }

  lemma {:induction false} InOrderMembers(t: Tree)
    ensures forall x :: x in InOrder(t) <==> x in Keys(t)
  {
    forall x ensures x in InOrder(t) <==> x in Keys(t) {
      assert x in InOrder(t) <==> x in multiset(InOrder(t));
    }
  }

  /** The in-order traversal visits every node once. */
  lemma {:induction false} InOrderLength(t: Tree)
    ensures |InOrder(t)| == Size(t)
  {
    if t.Node? {
      InOrderLength(t.left);
      InOrderLength(t.right);
    }
  }

  /**
   * A tree is ordered (left <= node <= right) exactly when its in-order
   * traversal is non-decreasing.
   */
  lemma {:induction false} OrderedIffInOrderSorted(t: Tree)
    ensures Ordered(t) <==> NonDecreasing(InOrder(t))
  {
    match t
    case Empty =>
    case Node(l, d, r) =>
      OrderedIffInOrderSorted(l);
      OrderedIffInOrderSorted(r);
      SortedSplit(InOrder(l), d, InOrder(r));
      InOrderMembers(l);
      InOrderMembers(r);
      assert InOrder(t) == InOrder(l) + [d] + InOrder(r);
  }
}
