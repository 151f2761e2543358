/**
 * The recursive halves of `insert` and `deleteItem`: each takes a subtree and
 * a key and returns the subtree that replaces it in its parent's link.
 */
module Updates {
  import opened Bst

  /**
   * `insertRec`: a new leaf at the empty link the search reaches, going left
   * only when the key is strictly below the node's key, so an equal key goes
   * right. Exactly one key is added; the result is never the empty link.
   */
  function InsertRec(v: int, t: Tree): (r: Tree)
    ensures Keys(r) == Keys(t) + multiset{v}
    ensures r.Node?
  {
    match t
    case Empty => Node(Empty, v, Empty)
    case Node(l, d, rr) =>
      if v < d then Node(InsertRec(v, l), d, rr)
      else Node(l, d, InsertRec(v, rr))
  }

  /** Insertion keeps both orderings. */
  lemma {:induction false} InsertKeepsOrder(v: int, t: Tree, strictLeft: bool)
    requires OrderedBy(t, strictLeft)
    ensures OrderedBy(InsertRec(v, t), strictLeft)
  {
    match t
    case Empty =>
    case Node(l, d, rr) =>
      if v < d {
        InsertKeepsOrder(v, l, strictLeft);
        InsertLeftOrdered(v, l, d, rr, strictLeft);
      } else {
        InsertKeepsOrder(v, rr, strictLeft);
        InsertRightOrdered(v, l, d, rr, strictLeft);
      }
  }

  lemma {:induction false} InsertLeftOrdered(v: int, l: Tree, d: int, rr: Tree, strictLeft: bool)
    requires v < d && OrderedBy(Node(l, d, rr), strictLeft)
    requires OrderedBy(InsertRec(v, l), strictLeft)
    ensures OrderedBy(InsertRec(v, Node(l, d, rr)), strictLeft)
  {
    var nl := InsertRec(v, l);
    forall k | k in Keys(nl) ensures k < d || (!strictLeft && k == d) {
      assert k in Keys(l) || k == v;
    }
    assert InsertRec(v, Node(l, d, rr)) == Node(nl, d, rr);
  }

  lemma {:induction false} InsertRightOrdered(v: int, l: Tree, d: int, rr: Tree, strictLeft: bool)
    requires d <= v && OrderedBy(Node(l, d, rr), strictLeft)
    requires OrderedBy(InsertRec(v, rr), strictLeft)
    ensures OrderedBy(InsertRec(v, Node(l, d, rr)), strictLeft)
  {
    var nr := InsertRec(v, rr);
    forall k | k in Keys(nr) ensures d <= k {
      assert k in Keys(rr) || k == v;
    }
    assert InsertRec(v, Node(l, d, rr)) == Node(l, d, nr);
  }

  /** Insertion grows the height by at most one. */
  lemma {:induction false} InsertHeight(v: int, t: Tree)
    ensures CalculateHeight(InsertRec(v, t)) <= CalculateHeight(t) + 1
  {
    match t
    case Empty =>
    case Node(l, d, rr) =>
      if v < d {
        InsertHeight(v, l);
        assert InsertRec(v, t) == Node(InsertRec(v, l), d, rr);
      } else {
        InsertHeight(v, rr);
        assert InsertRec(v, t) == Node(l, d, InsertRec(v, rr));
      }
  }

  /** After an insert, `find` reaches a node holding the inserted key. */
  lemma {:induction false} InsertThenFind(v: int, t: Tree)
    ensures Search(InsertRec(v, t), v).Node?
  {
    match t
    case Empty =>
    case Node(l, d, rr) =>
      if v < d {
        InsertThenFind(v, l);
      } else if d < v {
        InsertThenFind(v, rr);
      }
  }

  /**
   * `deleteRec`: follows the search path to the first node holding `v`. A node
   * missing a child is replaced by its other child; a node with two children
   * takes the key of its in-order successor, which is then deleted from its
   * right subtree. A tree without `v` comes back unchanged.
   */
  function DeleteRec(v: int, t: Tree): Tree
    decreases t
  {
    match t
    case Empty => Empty
    case Node(l, d, rr) =>
      if v > d then Node(l, d, DeleteRec(v, rr))
      else if v < d then Node(DeleteRec(v, l), d, rr)
      else if l.Empty? then rr
      else if rr.Empty? then l
      else
        var s := Leftmost(rr).data;
        Node(l, s, DeleteRec(s, rr))
  }

  /** Deleting an absent key, from an empty tree in particular, changes nothing. */
  lemma {:induction false} DeleteAbsentKey(v: int, t: Tree)
    requires v !in Keys(t)
    ensures DeleteRec(v, t) == t
  {
    match t
    case Empty =>
    case Node(l, d, rr) =>
      DeleteAbsentKey(v, l);
      DeleteAbsentKey(v, rr);
  }

  /** On an ordered tree, deletion removes exactly one occurrence of `v`, none when it is absent. */
  lemma {:induction false} DeleteRemovesOne(v: int, t: Tree)
    requires Ordered(t)
    ensures Keys(DeleteRec(v, t)) == Keys(t) - multiset{v}
    decreases t
  {
    match t
    case Empty =>
    case Node(l, d, rr) =>
      if v > d {
        assert v !in Keys(l) by {
          assert forall k | k in Keys(l) :: k <= d;
        }
        assert Keys(DeleteRec(v, rr)) == Keys(rr) - multiset{v} by {
          DeleteRemovesOne(v, rr);
        }
        DeleteRightKeys(v, l, d, rr);
      } else if v < d {
        assert v !in Keys(rr) by {
          assert forall k | k in Keys(rr) :: d <= k;
        }
        assert Keys(DeleteRec(v, l)) == Keys(l) - multiset{v} by {
          DeleteRemovesOne(v, l);
        }
        DeleteLeftKeys(v, l, d, rr);
      } else if l.Node? && rr.Node? {
        var s := Leftmost(rr).data;
        assert Keys(DeleteRec(s, rr)) == Keys(rr) - multiset{s} by {
          DeleteRemovesOne(s, rr);
        }
        DeleteHereKeys(l, d, rr);
      } else {
        DeleteOneChildKeys(l, d, rr);
      }
  }

  lemma {:induction false} DeleteOneChildKeys(l: Tree, d: int, rr: Tree)
    requires l.Empty? || rr.Empty?
    ensures Keys(DeleteRec(d, Node(l, d, rr))) == Keys(Node(l, d, rr)) - multiset{d}
  {
    if l.Empty? {
      assert DeleteRec(d, Node(l, d, rr)) == rr;
      assert Keys(Node(l, d, rr)) == multiset{d} + Keys(rr);
    } else {
      assert DeleteRec(d, Node(l, d, rr)) == l;
      assert Keys(Node(l, d, rr)) == Keys(l) + multiset{d};
    }
  }

  lemma {:induction false} DeleteRightKeys(v: int, l: Tree, d: int, rr: Tree)
    requires v > d && v !in Keys(l)
    requires Keys(DeleteRec(v, rr)) == Keys(rr) - multiset{v}
    ensures Keys(DeleteRec(v, Node(l, d, rr))) == Keys(Node(l, d, rr)) - multiset{v}
  {
    assert DeleteRec(v, Node(l, d, rr)) == Node(l, d, DeleteRec(v, rr));
    RemoveFromRight(Keys(l), d, Keys(rr), Keys(DeleteRec(v, rr)), v);
  }

  lemma {:induction false} DeleteLeftKeys(v: int, l: Tree, d: int, rr: Tree)
    requires v < d && v !in Keys(rr)
    requires Keys(DeleteRec(v, l)) == Keys(l) - multiset{v}
    ensures Keys(DeleteRec(v, Node(l, d, rr))) == Keys(Node(l, d, rr)) - multiset{v}
  {
    assert DeleteRec(v, Node(l, d, rr)) == Node(DeleteRec(v, l), d, rr);
    RemoveFromLeft(Keys(l), Keys(DeleteRec(v, l)), d, Keys(rr), v);
  }

  lemma {:induction false} DeleteHereKeys(l: Tree, d: int, rr: Tree)
    requires l.Node? && rr.Node?
    requires Keys(DeleteRec(Leftmost(rr).data, rr)) == Keys(rr) - multiset{Leftmost(rr).data}
    ensures Keys(DeleteRec(d, Node(l, d, rr))) == Keys(Node(l, d, rr)) - multiset{d}
  {
    var s := Leftmost(rr).data;
    assert DeleteRec(d, Node(l, d, rr)) == Node(l, s, DeleteRec(s, rr));
    ReplaceBySuccessor(Keys(l), d, Keys(rr), s, Keys(DeleteRec(s, rr)));
  }

  /** The key multisets of a node whose right subtree lost one `v`. */
  lemma {:induction false} RemoveFromRight(kl: multiset<int>, d: int, kr: multiset<int>, nkr: multiset<int>, v: int)
    requires v !in kl && v != d && nkr == kr - multiset{v}
    ensures kl + multiset{d} + nkr == (kl + multiset{d} + kr) - multiset{v}
  {
  }

  /** The key multisets of a node whose left subtree lost one `v`. */
  lemma {:induction false} RemoveFromLeft(kl: multiset<int>, nkl: multiset<int>, d: int, kr: multiset<int>, v: int)
    requires v !in kr && v != d && nkl == kl - multiset{v}
    ensures nkl + multiset{d} + kr == (kl + multiset{d} + kr) - multiset{v}
  {
  }

  /** The key multisets of a node whose key `d` was replaced by `s`, taken out of the right subtree. */
  lemma {:induction false} ReplaceBySuccessor(kl: multiset<int>, d: int, kr: multiset<int>, s: int, nkr: multiset<int>)
    requires s in kr && nkr == kr - multiset{s}
    ensures kl + multiset{s} + nkr == (kl + multiset{d} + kr) - multiset{d}
  {
    assert multiset{s} + nkr == kr;
  }

  /** Deletion keeps both orderings. */
  lemma {:induction false} DeleteKeepsOrder(v: int, t: Tree, strictLeft: bool)
    requires OrderedBy(t, strictLeft)
    ensures OrderedBy(DeleteRec(v, t), strictLeft)
    decreases t
  {
    StrictOrderIsOrderIf(t, strictLeft);
    match t
    case Empty =>
    case Node(l, d, rr) =>
      if v > d {
        assert OrderedBy(DeleteRec(v, rr), strictLeft) && Keys(DeleteRec(v, rr)) == Keys(rr) - multiset{v} by {
          DeleteKeepsOrder(v, rr, strictLeft);
          DeleteRemovesOne(v, rr);
        }
        DeleteRightOrdered(v, l, d, rr, strictLeft);
      } else if v < d {
        assert OrderedBy(DeleteRec(v, l), strictLeft) && Keys(DeleteRec(v, l)) == Keys(l) - multiset{v} by {
          DeleteKeepsOrder(v, l, strictLeft);
          DeleteRemovesOne(v, l);
        }
        DeleteLeftOrdered(v, l, d, rr, strictLeft);
      } else if l.Node? && rr.Node? {
        var s := Leftmost(rr).data;
        assert OrderedBy(DeleteRec(s, rr), strictLeft) && Keys(DeleteRec(s, rr)) == Keys(rr) - multiset{s} by {
          DeleteKeepsOrder(s, rr, strictLeft);
          DeleteRemovesOne(s, rr);
        }
        LeftmostIsMinimum(rr);
        DeleteHereOrdered(l, d, rr, strictLeft);
      }
  }

  lemma {:induction false} DeleteRightOrdered(v: int, l: Tree, d: int, rr: Tree, strictLeft: bool)
    requires v > d && OrderedBy(Node(l, d, rr), strictLeft)
    requires OrderedBy(DeleteRec(v, rr), strictLeft)
    requires Keys(DeleteRec(v, rr)) == Keys(rr) - multiset{v}
    ensures OrderedBy(DeleteRec(v, Node(l, d, rr)), strictLeft)
  {
    assert DeleteRec(v, Node(l, d, rr)) == Node(l, d, DeleteRec(v, rr));
    forall k | k in Keys(DeleteRec(v, rr)) ensures d <= k {
      assert k in Keys(rr);
    }
  }

  lemma {:induction false} DeleteLeftOrdered(v: int, l: Tree, d: int, rr: Tree, strictLeft: bool)
    requires v < d && OrderedBy(Node(l, d, rr), strictLeft)
    requires OrderedBy(DeleteRec(v, l), strictLeft)
    requires Keys(DeleteRec(v, l)) == Keys(l) - multiset{v}
    ensures OrderedBy(DeleteRec(v, Node(l, d, rr)), strictLeft)
  {
    assert DeleteRec(v, Node(l, d, rr)) == Node(DeleteRec(v, l), d, rr);
    forall k | k in Keys(DeleteRec(v, l)) ensures k < d || (!strictLeft && k == d) {
      assert k in Keys(l);
    }
  }

  lemma {:induction false} DeleteHereOrdered(l: Tree, d: int, rr: Tree, strictLeft: bool)
    requires l.Node? && rr.Node? && OrderedBy(Node(l, d, rr), strictLeft)
    requires forall k | k in Keys(rr) :: Leftmost(rr).data <= k
    requires OrderedBy(DeleteRec(Leftmost(rr).data, rr), strictLeft)
    requires Keys(DeleteRec(Leftmost(rr).data, rr)) == Keys(rr) - multiset{Leftmost(rr).data}
    ensures OrderedBy(DeleteRec(d, Node(l, d, rr)), strictLeft)
  {
    var s := Leftmost(rr).data;
    assert DeleteRec(d, Node(l, d, rr)) == Node(l, s, DeleteRec(s, rr));
    assert d <= s;
    forall k | k in Keys(DeleteRec(s, rr)) ensures s <= k {
      assert k in Keys(rr);
    }
  }

  lemma {:induction false} StrictOrderIsOrderIf(t: Tree, strictLeft: bool)
    requires OrderedBy(t, strictLeft)
    ensures Ordered(t)
  {
    if strictLeft {
      StrictOrderIsOrder(t);
    }
  }

  /**
   * Deleting a key just inserted into a tree that did not hold it gives back
   * the very same tree: both follow the same search path.
   */
  lemma {:induction false} InsertThenDelete(v: int, t: Tree)
    requires v !in Keys(t)
    ensures DeleteRec(v, InsertRec(v, t)) == t
  {
    match t
    case Empty =>
    case Node(l, d, rr) =>
      if v < d {
        InsertThenDelete(v, l);
      } else {
        InsertThenDelete(v, rr);
      }
  }
}
