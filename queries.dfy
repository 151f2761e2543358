/**
 * The read-only recursions of the tree: `depthRecursive`, the balance check
 * of `isBalanced` (as written and as evidently intended) and the queue-passing
 * recursion of `levelOrderRecursiveForEach`.
 */
module Queries {
  import opened Bst

  /**
   * `depthRecursive`'s `calculateDepth`: 0 at the first node holding `v` on
   * the search path, one more per edge above it, `None` when the path runs
   * off the tree.
   */
  function DepthRecursive(t: Tree, v: int): Option<nat>
  {
    match t
    case Empty => None
    case Node(l, d, rr) =>
      if d == v then Some(0)
      else if v > d then
        match DepthRecursive(rr, v)
        case None => None
        case Some(k) => Some(1 + k)
      else
        match DepthRecursive(l, v)
        case None => None
        case Some(k) => Some(1 + k)
  }

  /** On an ordered tree the depth is defined exactly for the keys present. */
  lemma {:induction false} DepthDefinedForPresentKeys(t: Tree, v: int)
    requires Ordered(t)
    ensures DepthRecursive(t, v).Some? <==> v in Keys(t)
  {
    SearchFindsPresentKeys(t, v);
    DepthPlusHeight(t, v);
  }

  /**
   * The depth is defined exactly when `find` reaches a node, and that node's
   * depth plus its height is at most the tree's height.
   */
  lemma {:induction false} DepthPlusHeight(t: Tree, v: int)
    ensures DepthRecursive(t, v).Some? <==> Search(t, v).Node?
    ensures DepthRecursive(t, v).Some? ==>
      DepthRecursive(t, v).value + CalculateHeight(Search(t, v)) <= CalculateHeight(t)
  {
    match t
    case Empty =>
    case Node(l, d, rr) =>
      if v > d {
        DepthPlusHeight(rr, v);
      } else if v < d {
        DepthPlusHeight(l, v);
      }
  }

  /** Adds `n` edges to a depth measured from a lower node. */
  function Deeper(o: Option<nat>, n: nat): Option<nat>
  {
    match o
    case None => None
    case Some(k) => Some(n + k)
  }

  lemma {:induction false} DeeperAdd(o: Option<nat>, m: nat, n: nat)
    ensures Deeper(Deeper(o, m), n) == Deeper(o, n + m)
  {
  }

  /** One step of the depth loop: past a node not holding `v`, one edge deeper. */
  lemma {:induction false} DepthStep(t: Tree, v: int)
    requires t.Node?
    ensures v > t.data ==> DepthRecursive(t, v) == Deeper(DepthRecursive(t.right, v), 1)
    ensures v < t.data ==> DepthRecursive(t, v) == Deeper(DepthRecursive(t.left, v), 1)
    ensures v == t.data ==> DepthRecursive(t, v) == Some(0)
  {
  }

  /** What the depth says about the keys and the height of an ordered tree. */
  lemma {:induction false} DepthFacts(t: Tree, v: int)
    ensures DepthRecursive(t, v).Some? <==> Search(t, v).Node?
    ensures Ordered(t) ==> (DepthRecursive(t, v).Some? <==> v in Keys(t))
    ensures DepthRecursive(t, v).Some? ==>
      DepthRecursive(t, v).value + CalculateHeight(Search(t, v)) <= CalculateHeight(t)
  {
    if Ordered(t) {
      DepthDefinedForPresentKeys(t, v);
    }
    DepthPlusHeight(t, v);
  }

  function Abs(x: int): nat
  {
    if x < 0 then -x else x
  }

  /**
   * `checkBalance` as written: -1 is both the height of the empty link and
   * the signal that a subtree is unbalanced.
   */
  function CheckBalance(t: Tree): int
  {
    match t
    case Empty => -1
    case Node(l, _, r) =>
      var lh := CheckBalance(l);
      if lh == -1 then -1
      else
        var rh := CheckBalance(r);
        if rh == -1 then -1
        else if Abs(lh - rh) > 1 then -1
        else 1 + Max(lh, rh)
  }

  /**
   * The sentinel clash: the empty link reports -1, which is also the failure
   * signal, so every node sees its left child fail and the check reports -1
   * for every tree. `isBalanced`, which compares the result with -1, is
   * therefore false for every tree, the empty one included.
   */
  lemma {:induction false} CheckBalanceAlwaysFails(t: Tree)
    ensures CheckBalance(t) == -1
  {
    if t.Node? {
      CheckBalanceAlwaysFails(t.left);
    }
  }

  /**
   * `checkBalance` with a failure signal distinct from every height: it
   * succeeds exactly on balanced trees, and then returns their height.
   */
  function CheckBalanceFixed(t: Tree): (r: Option<int>)
    ensures r.Some? <==> Balanced(t)
    ensures r.Some? ==> r.value == CalculateHeight(t)
  {
    match t
    case Empty => Some(-1)
    case Node(l, _, rr) =>
      match CheckBalanceFixed(l)
      case None => None
      case Some(lh) =>
        match CheckBalanceFixed(rr)
        case None => None
        case Some(rh) =>
          if Abs(lh - rh) > 1 then None else Some(1 + Max(lh, rh))
  }

  ghost predicate AllNodes(q: seq<Tree>)
  {
    forall i | 0 <= i < |q| :: q[i].Node?
  }

  /** Total number of nodes under the links waiting in a queue. */
  function QueueSize(q: seq<Tree>): nat
  {
    if q == [] then 0 else Size(q[0]) + QueueSize(q[1..])
  }

  /** Keys under the links waiting in a queue. */
  function QueueKeys(q: seq<Tree>): multiset<int>
  {
    if q == [] then multiset{} else Keys(q[0]) + QueueKeys(q[1..])
  }

  lemma {:induction false} QueueConcat(a: seq<Tree>, b: seq<Tree>)
    ensures QueueSize(a + b) == QueueSize(a) + QueueSize(b)
    ensures QueueKeys(a + b) == QueueKeys(a) + QueueKeys(b)
  {
    if a == [] {
      assert a + b == b;
    } else {
      assert (a + b)[0] == a[0];
      assert (a + b)[1..] == a[1..] + b;
      QueueConcat(a[1..], b);
    }
  }

  /** The non-empty children of a node, left first, as the level-order loops push them. */
  function Children(n: Tree): (c: seq<Tree>)
    requires n.Node?
    ensures AllNodes(c)
    ensures QueueSize(c) == Size(n.left) + Size(n.right)
  {
    var c := (if n.left.Node? then [n.left] else []) + (if n.right.Node? then [n.right] else []);
    QueueConcat(if n.left.Node? then [n.left] else [], if n.right.Node? then [n.right] else []);
    c
  }

  lemma {:induction false} ChildrenKeys(n: Tree)
    requires n.Node?
    ensures QueueKeys(Children(n)) == Keys(n.left) + Keys(n.right)
  {
    QueueConcat(if n.left.Node? then [n.left] else [], if n.right.Node? then [n.right] else []);
  }

  /** The queue after one step: the head dequeued, its children enqueued. */
  function NextQueue(q: seq<Tree>): (r: seq<Tree>)
    requires q != [] && AllNodes(q)
    ensures AllNodes(r)
    ensures QueueSize(r) == QueueSize(q) - 1
  {
    QueueConcat(q[1..], Children(q[0]));
    q[1..] + Children(q[0])
  }

  lemma {:induction false} NextQueueKeys(q: seq<Tree>)
    requires q != [] && AllNodes(q)
    ensures QueueKeys(NextQueue(q)) + multiset{q[0].data} == QueueKeys(q)
  {
    QueueConcat(q[1..], Children(q[0]));
    ChildrenKeys(q[0]);
  }

  /**
   * `levelOrderRecursiveForEach`'s `recursive(queue)`: the keys handed to the
   * visitor, head of the queue first.
   */
  function LevelOrderRec(q: seq<Tree>): seq<int>
    requires AllNodes(q)
    decreases QueueSize(q)
  {
    if q == [] then [] else [q[0].data] + LevelOrderRec(NextQueue(q))
  }

  /**
   * One round of the level-order loop: visit the head, push its non-empty
   * children, then shift the head off the queue.
   */
  lemma {:induction false} LevelOrderRound(out: seq<int>, q: seq<Tree>, afterLeft: seq<Tree>, pushed: seq<Tree>)
    requires q != [] && AllNodes(q)
    requires afterLeft == if q[0].left.Node? then q + [q[0].left] else q
    requires pushed == if q[0].right.Node? then afterLeft + [q[0].right] else afterLeft
    ensures pushed[1..] == NextQueue(q)
    ensures (out + [q[0].data]) + LevelOrderRec(pushed[1..]) == out + LevelOrderRec(q)
  {
    assert pushed == q + Children(q[0]);
    assert (q + Children(q[0]))[1..] == q[1..] + Children(q[0]);
  }

  /** Level order visits every node under the queue exactly once. */
  lemma {:induction false} LevelOrderVisitsEachNodeOnce(q: seq<Tree>)
    requires AllNodes(q)
    ensures multiset(LevelOrderRec(q)) == QueueKeys(q)
    ensures |LevelOrderRec(q)| == QueueSize(q)
    decreases QueueSize(q)
  {
    if q != [] {
      LevelOrderVisitsEachNodeOnce(NextQueue(q));
      NextQueueKeys(q);
    }
  }

  /** From the root: every key of the tree once, the root's first. */
  lemma {:induction false} LevelOrderOfTree(t: Tree)
    requires t.Node?
    ensures multiset(LevelOrderRec([t])) == Keys(t)
    ensures |LevelOrderRec([t])| == Size(t) && LevelOrderRec([t])[0] == t.data
  {
    LevelOrderVisitsEachNodeOnce([t]);
    assert [t][1..] == [];
  }
}
