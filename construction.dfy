/**
 * Construction of the tree: the constructor's deduplicate-and-sort step and
 * `buildTree`'s midpoint split, as written (a one-element slice holding key 0
 * builds the empty link) and as evidently intended.
 */
module Construction {
  import opened Bst

  lemma {:induction false} ConsIncreasing(h: int, r: seq<int>)
    requires StrictlyIncreasing(r)
    requires forall y | y in r :: h < y
    ensures StrictlyIncreasing([h] + r)
  {
    var s := [h] + r;
    forall i, j | 0 <= i < j < |s| ensures s[i] < s[j] {
      assert s[j] == r[j - 1] && r[j - 1] in r;
      if i > 0 {
        assert s[i] == r[i - 1];
      }
    }
  }

  lemma {:induction false} TailAbove(s: seq<int>)
    requires StrictlyIncreasing(s) && s != []
    ensures StrictlyIncreasing(s[1..])
    ensures forall y | y in s[1..] :: s[0] < y
  {
    forall y | y in s[1..] ensures s[0] < y {
      var i :| 0 <= i < |s| - 1 && s[1..][i] == y;
      assert s[i + 1] == y;
    }
  }

  /** Adds `x` to a strictly increasing sequence unless it is already there. */
  function InsertUnique(x: int, s: seq<int>): (r: seq<int>)
    requires StrictlyIncreasing(s)
    ensures StrictlyIncreasing(r)
    ensures forall y :: y in r <==> y == x || y in s
  {
    if s == [] then [x]
    else
      TailAbove(s);
      assert s == [s[0]] + s[1..];
      if x < s[0] then
        ConsIncreasing(x, s);
        [x] + s
      else if x == s[0] then s
      else
        var rest := InsertUnique(x, s[1..]);
        ConsIncreasing(s[0], rest);
        [s[0]] + rest
  }

  /**
   * `[...new Set(array)].sort((a, b) => a - b)`: the distinct keys of the
   * input in increasing numeric order.
   */
  function SortUnique(a: seq<int>): (r: seq<int>)
    ensures StrictlyIncreasing(r)
    ensures forall y :: y in r <==> y in a
  {
    if a == [] then [] else InsertUnique(a[0], SortUnique(a[1..]))
  }

  /**
   * `buildTree` as written: the element at index floor((L-1)/2) becomes the
   * root and the slices on either side become its subtrees. A slice of length
   * at most one is tested with `array[0] ?`, so a lone key 0 is dropped.
   */
  function BuildTree(a: seq<int>): Tree
    decreases |a|
  {
    if |a| <= 1 then
      if |a| == 1 && a[0] != 0 then Node(Empty, a[0], Empty) else Empty
    else
      var mid := (|a| - 1) / 2;
      Node(BuildTree(a[..mid]), a[mid], BuildTree(a[mid + 1..]))
  }

  /**
   * `buildTree` with the evidently intended length test `array.length === 1`:
   * every element of the slice, 0 included, becomes a node.
   */
  function BuildTreeFixed(a: seq<int>): Tree
    decreases |a|
  {
    if |a| == 0 then Empty
    else
      var mid := (|a| - 1) / 2;
      Node(BuildTreeFixed(a[..mid]), a[mid], BuildTreeFixed(a[mid + 1..]))
  }

  lemma {:induction false} MidpointSplit(a: seq<int>, mid: nat)
    requires mid < |a|
    ensures a == a[..mid] + [a[mid]] + a[mid + 1..]
    ensures multiset(a) == multiset(a[..mid]) + multiset{a[mid]} + multiset(a[mid + 1..])
  {
    assert a == a[..mid] + [a[mid]] + a[mid + 1..];
  }

  /** The fixed build hands every element back, in order, to an in-order traversal. */
  lemma {:induction false} BuildTreeFixedInOrder(a: seq<int>)
    ensures InOrder(BuildTreeFixed(a)) == a
    decreases |a|
  {
    if |a| > 0 {
      var mid := (|a| - 1) / 2;
      BuildTreeFixedInOrder(a[..mid]);
      BuildTreeFixedInOrder(a[mid + 1..]);
      MidpointSplit(a, mid);
    }
  }

  /** The build as written loses no key but 0, and never adds one. */
  lemma {:induction false} BuildTreeKeys(a: seq<int>)
    ensures Keys(BuildTree(a)) <= multiset(a)
    ensures forall x | x != 0 :: Keys(BuildTree(a))[x] == multiset(a)[x]
    decreases |a|
  {
    if |a| > 1 {
      var mid := (|a| - 1) / 2;
      BuildTreeKeys(a[..mid]);
      BuildTreeKeys(a[mid + 1..]);
      MidpointSplit(a, mid);
    }
  }

  /** The key-0 discrepancy: a one-key input `[0]` builds the empty tree. */
  lemma {:induction false} ZeroKeyIsDropped()
    ensures BuildTree([0]) == Empty && InOrder(BuildTreeFixed([0])) == [0]
  {
    BuildTreeFixedInOrder([0]);
  }

  lemma {:induction false} SlicesAvoid(a: seq<int>, mid: nat, x: int)
    requires mid < |a| && x !in a
    ensures x !in a[..mid] && x !in a[mid + 1..]
  {
    MidpointSplit(a, mid);
  }

  /** Without the key 0 both versions build the same tree. */
  lemma {:induction false} BuildTreeAgreesWithoutZero(a: seq<int>)
    requires 0 !in a
    ensures BuildTree(a) == BuildTreeFixed(a)
    decreases |a|
  {
    if |a| > 1 {
      var mid := (|a| - 1) / 2;
      SlicesAvoid(a, mid, 0);
      BuildTreeAgreesWithoutZero(a[..mid]);
      BuildTreeAgreesWithoutZero(a[mid + 1..]);
    }
  }

  /** The constructor's input without the key 0 comes back out in order. */
  lemma {:induction false} BuildTreeInOrder(a: seq<int>)
    requires 0 !in a
    ensures InOrder(BuildTree(a)) == a
  {
    BuildTreeAgreesWithoutZero(a);
    BuildTreeFixedInOrder(a);
  }

  /**
   * The root of a non-empty build is the lower middle element, and the two
   * slices beside it make up its subtrees.
   */
  lemma {:induction false} BuildTreeRoot(a: seq<int>)
    requires |a| > 0 && 0 !in a
    ensures BuildTree(a).Node? && BuildTree(a).data == a[(|a| - 1) / 2]
    ensures InOrder(BuildTree(a).left) == a[..(|a| - 1) / 2]
    ensures InOrder(BuildTree(a).right) == a[(|a| - 1) / 2 + 1..]
  {
    var mid := (|a| - 1) / 2;
    BuildTreeAgreesWithoutZero(a);
    BuildTreeFixedInOrder(a[..mid]);
    BuildTreeFixedInOrder(a[mid + 1..]);
  }

  /** In a sorted `lo + [d] + hi` the elements of `lo` are below `d` and those of `hi` above. */
  lemma {:induction false} SortedAround(lo: seq<int>, d: int, hi: seq<int>, strict: bool)
    requires if strict then StrictlyIncreasing(lo + [d] + hi) else NonDecreasing(lo + [d] + hi)
    ensures forall k | k in lo :: k < d || (!strict && k == d)
    ensures forall k | k in hi :: d <= k
  {
    var a := lo + [d] + hi;
    forall k | k in lo ensures k < d || (!strict && k == d) {
      var i :| 0 <= i < |lo| && lo[i] == k;
      assert a[i] == k && a[|lo|] == d;
    }
    forall k | k in hi ensures d <= k {
      var i :| 0 <= i < |hi| && hi[i] == k;
      assert a[|lo| + 1 + i] == k && a[|lo|] == d;
    }
  }

  lemma {:induction false} SortedSlices(a: seq<int>, i: nat, j: nat, strict: bool)
    requires i <= j <= |a|
    requires if strict then StrictlyIncreasing(a) else NonDecreasing(a)
    ensures if strict then StrictlyIncreasing(a[i..j]) else NonDecreasing(a[i..j])
  {
  }

  /** A node over ordered subtrees drawn from the keys on either side of it is ordered. */
  lemma {:induction false} NodeOrdered(l: Tree, d: int, r: Tree, lo: seq<int>, hi: seq<int>, strict: bool)
    requires OrderedBy(l, strict) && OrderedBy(r, strict)
    requires Keys(l) <= multiset(lo) && Keys(r) <= multiset(hi)
    requires forall k | k in lo :: k < d || (!strict && k == d)
    requires forall k | k in hi :: d <= k
    ensures OrderedBy(Node(l, d, r), strict)
  {
    forall k | k in Keys(l) ensures k < d || (!strict && k == d) {
      assert k in multiset(lo);
      assert k in lo;
    }
    forall k | k in Keys(r) ensures d <= k {
      assert k in multiset(hi);
      assert k in hi;
    }
  }

  /** A sorted input builds an ordered tree; a strictly sorted one a strictly-left ordered one. */
  lemma {:induction false} BuildTreeOrdered(a: seq<int>, strict: bool)
    requires if strict then StrictlyIncreasing(a) else NonDecreasing(a)
    ensures OrderedBy(BuildTree(a), strict)
    decreases |a|
  {
    if |a| > 1 {
      var mid := (|a| - 1) / 2;
      var lo, hi := a[..mid], a[mid + 1..];
      assert OrderedBy(BuildTree(lo), strict) by {
        SortedSlices(a, 0, mid, strict);
        BuildTreeOrdered(lo, strict);
      }
      assert OrderedBy(BuildTree(hi), strict) by {
        SortedSlices(a, mid + 1, |a|, strict);
        BuildTreeOrdered(hi, strict);
      }
      MidpointSplit(a, mid);
      WrittenNodeOrdered(lo, a[mid], hi, strict);
    }
  }

  lemma {:induction false} WrittenNodeOrdered(lo: seq<int>, d: int, hi: seq<int>, strict: bool)
    requires if strict then StrictlyIncreasing(lo + [d] + hi) else NonDecreasing(lo + [d] + hi)
    requires OrderedBy(BuildTree(lo), strict) && OrderedBy(BuildTree(hi), strict)
    ensures OrderedBy(Node(BuildTree(lo), d, BuildTree(hi)), strict)
  {
    BuildTreeKeys(lo);
    BuildTreeKeys(hi);
    SortedAround(lo, d, hi, strict);
    NodeOrdered(BuildTree(lo), d, BuildTree(hi), lo, hi, strict);
  }

  /** The fixed build keeps every element of its input, once per occurrence. */
  lemma {:induction false} BuildTreeFixedKeys(a: seq<int>)
    ensures Keys(BuildTreeFixed(a)) == multiset(a)
  {
    BuildTreeFixedInOrder(a);
  }

  /** The fixed build orders a sorted input the same way the written one does. */
  lemma {:induction false} BuildTreeFixedOrdered(a: seq<int>, strict: bool)
    requires if strict then StrictlyIncreasing(a) else NonDecreasing(a)
    ensures OrderedBy(BuildTreeFixed(a), strict)
    decreases |a|
  {
    if |a| > 0 {
      var mid := (|a| - 1) / 2;
      var lo, hi := a[..mid], a[mid + 1..];
      assert OrderedBy(BuildTreeFixed(lo), strict) by {
        SortedSlices(a, 0, mid, strict);
        BuildTreeFixedOrdered(lo, strict);
      }
      assert OrderedBy(BuildTreeFixed(hi), strict) by {
        SortedSlices(a, mid + 1, |a|, strict);
        BuildTreeFixedOrdered(hi, strict);
      }
      MidpointSplit(a, mid);
      FixedNodeOrdered(lo, a[mid], hi, strict);
    }
  }

  lemma {:induction false} FixedNodeOrdered(lo: seq<int>, d: int, hi: seq<int>, strict: bool)
    requires if strict then StrictlyIncreasing(lo + [d] + hi) else NonDecreasing(lo + [d] + hi)
    requires OrderedBy(BuildTreeFixed(lo), strict) && OrderedBy(BuildTreeFixed(hi), strict)
    ensures OrderedBy(Node(BuildTreeFixed(lo), d, BuildTreeFixed(hi)), strict)
  {
    BuildTreeFixedKeys(lo);
    BuildTreeFixedKeys(hi);
    SortedAround(lo, d, hi, strict);
    NodeOrdered(BuildTreeFixed(lo), d, BuildTreeFixed(hi), lo, hi, strict);
  }

  /** floor(log2(n)) + 1 levels hold n nodes; -1 for no nodes. */
  function LogHeight(n: nat): (h: int)
    ensures h >= -1
  {
    if n == 0 then -1 else 1 + LogHeight(n / 2)
  }

  lemma {:induction false} LogHeightMonotone(m: nat, n: nat)
    requires m <= n
    ensures LogHeight(m) <= LogHeight(n)
  {
    if m > 0 {
      LogHeightMonotone(m / 2, n / 2);
    }
  }

  lemma {:induction false} LogHeightStep(n: nat)
    ensures LogHeight(n + 1) <= LogHeight(n) + 1
  {
    if n > 0 && (n + 1) / 2 != n / 2 {
      LogHeightStep(n / 2);
    }
  }

  lemma {:induction false} Pow2LogHeight(n: nat)
    requires n > 0
    ensures LogHeight(n) >= 0 && Pow2(LogHeight(n)) <= n
  {
    if n > 1 {
      Pow2LogHeight(n / 2);
    }
  }

  lemma {:induction false} Pow2Below(a: nat, b: nat)
    requires Pow2(a) < Pow2(b)
    ensures a < b
  {
    if a >= b {
      Pow2Monotone(b, a);
    }
  }

  /** No tree with n nodes is lower than LogHeight(n). */
  lemma {:induction false} HeightLowerBound(t: Tree)
    ensures CalculateHeight(t) >= LogHeight(Size(t))
  {
    var n, h := Size(t), CalculateHeight(t);
    if n > 0 {
      SizeBelowPow2(t);
      Pow2LogHeight(n);
      Pow2Below(LogHeight(n), h + 1);
    }
  }

  /** Two slices whose lengths differ by at most one differ in LogHeight by at most one. */
  lemma {:induction false} MidpointHeights(m: nat, k: nat)
    requires k == m || k == m + 1
    ensures LogHeight(m) <= LogHeight(k) <= LogHeight(m) + 1
    ensures LogHeight(m + k + 1) == 1 + LogHeight(k)
  {
    assert (m + k + 1) / 2 == k;
    LogHeightMonotone(m, k);
    LogHeightStep(m);
  }

  /** A node over two balanced subtrees of LogHeight built from slices of lengths m and k. */
  lemma {:induction false} MidpointNode(lt: Tree, d: int, rt: Tree, m: nat, k: nat)
    requires k == m || k == m + 1
    requires CalculateHeight(lt) == LogHeight(m) && Balanced(lt)
    requires CalculateHeight(rt) == LogHeight(k) && Balanced(rt)
    ensures CalculateHeight(Node(lt, d, rt)) == LogHeight(m + k + 1)
    ensures Balanced(Node(lt, d, rt))
  {
    MidpointHeights(m, k);
  }

  lemma {:induction false} MidpointLengths(n: nat, mid: nat)
    requires n > 0 && mid == (n - 1) / 2
    ensures n - mid - 1 == mid || n - mid - 1 == mid + 1
  {
  }

  /** The fixed build has height LogHeight(L) and is balanced at every node. */
  lemma {:induction false} BuildTreeFixedShape(a: seq<int>)
    ensures CalculateHeight(BuildTreeFixed(a)) == LogHeight(|a|)
    ensures Balanced(BuildTreeFixed(a))
    decreases |a|
  {
    if |a| > 0 {
      var mid := (|a| - 1) / 2;
      var lo, hi := a[..mid], a[mid + 1..];
      var lt, rt := BuildTreeFixed(lo), BuildTreeFixed(hi);
      assert CalculateHeight(lt) == LogHeight(|lo|) && Balanced(lt) by {
        BuildTreeFixedShape(lo);
      }
      assert CalculateHeight(rt) == LogHeight(|hi|) && Balanced(rt) by {
        BuildTreeFixedShape(hi);
      }
      MidpointLengths(|a|, mid);
      MidpointNode(lt, a[mid], rt, |lo|, |hi|);
      FixedRoot(a, mid);
    }
  }

  lemma {:induction false} FixedRoot(a: seq<int>, mid: nat)
    requires |a| > 0 && mid == (|a| - 1) / 2
    ensures BuildTreeFixed(a) == Node(BuildTreeFixed(a[..mid]), a[mid], BuildTreeFixed(a[mid + 1..]))
  {
  }

  /**
   * The fixed build is balanced and of the least height any tree with as many
   * nodes can have.
   */
  lemma {:induction false} BuildTreeFixedBalancedAndMinimal(a: seq<int>, other: Tree)
    requires Size(other) == |a|
    ensures Balanced(BuildTreeFixed(a))
    ensures CalculateHeight(BuildTreeFixed(a)) == LogHeight(|a|) <= CalculateHeight(other)
  {
    BuildTreeFixedShape(a);
    HeightLowerBound(other);
  }

  /**
   * Rebuilding an ordered tree from its in-order keys with `buildTree` as
   * written gives an ordered tree that holds no key the old one did not, and
   * every key other than 0 as often as before.
   */
  lemma {:induction false} RebuildKeepsOrder(t: Tree)
    requires Ordered(t)
    ensures Ordered(BuildTree(InOrder(t)))
    ensures Keys(BuildTree(InOrder(t))) <= Keys(t)
    ensures forall x | x != 0 :: Keys(BuildTree(InOrder(t)))[x] == Keys(t)[x]
  {
    OrderedIffInOrderSorted(t);
    BuildTreeOrdered(InOrder(t), false);
    BuildTreeKeys(InOrder(t));
  }

  /** Without the key 0, the rebuild keeps every key, in the same order. */
  lemma {:induction false} RebuildKeepsKeysInOrder(t: Tree)
    requires 0 !in Keys(t)
    ensures InOrder(BuildTree(InOrder(t))) == InOrder(t)
    ensures Keys(BuildTree(InOrder(t))) == Keys(t)
  {
    InOrderMembers(t);
    BuildTreeInOrder(InOrder(t));
  }

  /**
   * Without the key 0, the rebuilt tree is balanced and no tree of its size
   * is lower.
   */
  lemma {:induction false} RebuildIsBalancedAndMinimal(t: Tree)
    requires 0 !in Keys(t)
    ensures Balanced(BuildTree(InOrder(t)))
    ensures Size(BuildTree(InOrder(t))) == Size(t)
    ensures forall other | Size(other) == Size(t) ::
      CalculateHeight(BuildTree(InOrder(t))) <= CalculateHeight(other)
  {
    var a := InOrder(t);
    InOrderMembers(t);
    BuildTreeAgreesWithoutZero(a);
    InOrderLength(t);
    BuildTreeFixedInOrder(a);
    InOrderLength(BuildTreeFixed(a));
    BuildTreeFixedShape(a);
    forall other | Size(other) == Size(t)
      ensures CalculateHeight(BuildTreeFixed(a)) <= CalculateHeight(other)
    {
      BuildTreeFixedBalancedAndMinimal(a, other);
    }
  }

  /** Everything the rebuild keeps, gathered for `rebalance`. */
  lemma {:induction false} RebuildFacts(t: Tree, r: Tree)
    requires Ordered(t) && r == BuildTree(InOrder(t))
    ensures Ordered(r) && Keys(r) <= Keys(t)
    ensures forall x | x != 0 :: Keys(r)[x] == Keys(t)[x]
    ensures 0 !in Keys(t) ==> InOrder(r) == InOrder(t) && Keys(r) == Keys(t)
    ensures 0 !in Keys(t) ==> Balanced(r)
    ensures 0 !in Keys(t) ==>
      forall other | Size(other) == Size(r) :: CalculateHeight(r) <= CalculateHeight(other)
  {
    RebuildKeepsOrder(t);
    if 0 !in Keys(t) {
      RebuildKeepsKeysInOrder(t);
      RebuildIsBalancedAndMinimal(t);
    }
  }

  /**
   * The rebuild as written can lose a key 0: the ordered tree holding -1
   * with 0 as its right child rebuilds to the lone node -1.
   */
  lemma {:induction false} RebuildMayDropZero()
    ensures Ordered(MinusOneAndZero())
    ensures InOrder(MinusOneAndZero()) == [-1, 0]
    ensures InOrder(BuildTree(InOrder(MinusOneAndZero()))) == [-1]
  {
    MinusOneAndZeroFacts();
    PairRebuildsToLeaf();
  }

  /** The node -1 with the leaf 0 as its right child. */
  function MinusOneAndZero(): Tree
  {
    Node(Empty, -1, Node(Empty, 0, Empty))
  }

  lemma {:induction false} MinusOneAndZeroFacts()
    ensures Ordered(MinusOneAndZero())
    ensures InOrder(MinusOneAndZero()) == [-1, 0]
  {
    assert Keys(Node(Empty, 0, Empty)) == multiset{0};
    assert InOrder(Node(Empty, 0, Empty)) == [0];
  }

  lemma {:induction false} PairRebuildsToLeaf()
    ensures InOrder(BuildTree([-1, 0])) == [-1]
  {
    var a: seq<int> := [-1, 0];
    assert a[..0] == [] && a[1..] == [0];
    assert BuildTree(a) == Node(Empty, -1, Empty);
  }

  /**
   * Without the key 0, `buildTree` builds a balanced tree of the least
   * height any tree with as many nodes can have.
   */
  lemma {:induction false} BuildTreeBalancedAndMinimal(a: seq<int>, other: Tree)
    requires 0 !in a && Size(other) == |a|
    ensures Balanced(BuildTree(a))
    ensures CalculateHeight(BuildTree(a)) == LogHeight(|a|) <= CalculateHeight(other)
  {
    BuildTreeAgreesWithoutZero(a);
    BuildTreeFixedShape(a);
    HeightLowerBound(other);
  }

  /** Rebuilding from the in-order keys of a built tree gives the same tree. */
  lemma {:induction false} RebuildIsIdempotent(a: seq<int>)
    requires 0 !in a
    ensures BuildTree(InOrder(BuildTree(a))) == BuildTree(a)
  {
    BuildTreeInOrder(a);
  }
}
