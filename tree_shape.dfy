/**
 * The value-level picture of the insert-only binary search tree of
 * tree/tree.go: the shape of the linked nodes, the descent of `Node.Insert`
 * over it, and the facts that the descent keeps.
 */
module TreeShape {

  /** The tree hanging from one `*Node` pointer: nil, or a node with its value and two subtrees. */
  datatype Shape = Empty | Branch(left: Shape, value: int, right: Shape)

  /** A node with no children, as `&Node{nil, nil, value}` builds it. */
  function Leaf(x: int): (s: Shape)
    ensures s.Branch? && s.value == x && Values(s) == {x} && Count(s) == 1
  {
    Branch(Empty, x, Empty)
  }

  /** The values held by the nodes of `s`. */
  function Values(s: Shape): set<int>
  {
    match s
    case Empty => {}
    case Branch(l, v, r) => Values(l) + {v} + Values(r)
  }

  /** The number of nodes of `s`. */
  function Count(s: Shape): nat
  {
    match s
    case Empty => 0
    case Branch(l, _, r) => Count(l) + 1 + Count(r)
  }

  /** The search-tree order: left values below the node's value, right values above it. */
  ghost predicate Ordered(s: Shape)
  {
    match s
    case Empty => true
    case Branch(l, v, r) =>
      && Ordered(l) && Ordered(r)
      && (forall y :: y in Values(l) ==> y < v)
      && (forall y :: y in Values(r) ==> v < y)
  }

  /**
   * `root.Insert(node)` on the tree `s` of `root`, with `n` the tree of `node`:
   * go right while the new value is greater, left while it is smaller, hang `n`
   * in the first nil slot met, and drop it on an equal value.
   */
  function Graft(s: Shape, n: Shape): (r: Shape)
    requires n.Branch?
    ensures r.Branch?
    ensures s.Branch? ==> r.value == s.value
  {
    match s
    case Empty => n
    case Branch(l, v, r) =>
      if n.value > v then Branch(l, v, Graft(r, n))
      else if n.value < v then Branch(Graft(l, n), v, r)
      else s
  }

  /**
   * `BinaryTree.Insert(x)` on a tree of shape `s`: a nil root first becomes a
   * node holding `x`, then a fresh node holding `x` is grafted below the root.
   */
  function InsertValue(s: Shape, x: int): (r: Shape)
    ensures r.Branch?
    ensures r.value == if s.Empty? then x else s.value
  {
    Graft(if s.Empty? then Leaf(x) else s, Leaf(x))
  }

  /**
   * `t` is `s` with possibly more nodes hung in slots that are empty in `s`:
   * every node of `s` is still in `t` at the same position with the same value.
   */
  ghost predicate Extends(t: Shape, s: Shape)
  {
    match s
    case Empty => true
    case Branch(l, v, r) =>
      t.Branch? && t.value == v && Extends(t.left, l) && Extends(t.right, r)
  }

  /** The grafted tree keeps every old node in place and only fills an empty slot. */
  lemma {:induction false} GraftExtends(s: Shape, n: Shape)
    requires n.Branch?
    ensures Extends(Graft(s, n), s)
  {
    match s
    case Empty =>
    case Branch(l, v, r) =>
      if n.value > v {
        GraftExtends(r, n);
        ExtendsRefl(l);
      } else if n.value < v {
        GraftExtends(l, n);
        ExtendsRefl(r);
      } else {
        ExtendsRefl(s);
      }
  }

  lemma {:induction false} ExtendsRefl(s: Shape)
    ensures Extends(s, s)
  {
    match s
    case Empty =>
    case Branch(l, _, r) =>
      ExtendsRefl(l);
      ExtendsRefl(r);
  }

  /** The grafted tree holds the old values and either nothing else or all of `n`'s. */
  lemma {:induction false} GraftValues(s: Shape, n: Shape)
    requires n.Branch?
    ensures Graft(s, n) == s || Values(Graft(s, n)) == Values(s) + Values(n)
    ensures Values(s) <= Values(Graft(s, n)) <= Values(s) + Values(n)
  {
    match s
    case Empty =>
    case Branch(l, v, r) =>
      if n.value > v {
        GraftValues(r, n);
      } else if n.value < v {
        GraftValues(l, n);
      }
  }

  /** Grafting a single node holding `x` adds exactly `x` to the values, whatever the order. */
  lemma {:induction false} GraftLeafValues(s: Shape, x: int)
    ensures Values(Graft(s, Leaf(x))) == Values(s) + {x}
  {
    match s
    case Empty =>
    case Branch(l, v, r) =>
      if x > v {
        GraftLeafValues(r, x);
      } else if x < v {
        GraftLeafValues(l, x);
      }
  }

  /** Grafting a single node keeps the search-tree order. */
  lemma {:induction false} GraftLeafOrdered(s: Shape, x: int)
    requires Ordered(s)
    ensures Ordered(Graft(s, Leaf(x)))
  {
    match s
    case Empty =>
    case Branch(l, v, r) =>
      if x > v {
        GraftLeafOrdered(r, x);
        GraftLeafValues(r, x);
      } else if x < v {
        GraftLeafOrdered(l, x);
        GraftLeafValues(l, x);
      }
  }

  /** In an ordered tree, any node whose value is already present stops the descent: nothing changes. */
  lemma {:induction false} GraftPresent(s: Shape, n: Shape)
    requires n.Branch? && Ordered(s) && n.value in Values(s)
    ensures Graft(s, n) == s
  {
    match s
    case Branch(l, v, r) =>
      if n.value > v {
        GraftPresent(r, n);
      } else if n.value < v {
        GraftPresent(l, n);
      }
  }

  /** In an ordered tree, grafting one node adds a node exactly when its value is new. */
  lemma {:induction false} GraftLeafCount(s: Shape, x: int)
    requires Ordered(s)
    ensures Count(Graft(s, Leaf(x))) == Count(s) + (if x in Values(s) then 0 else 1)
  {
    match s
    case Empty =>
    case Branch(l, v, r) =>
      if x > v {
        GraftLeafCount(r, x);
      } else if x < v {
        GraftLeafCount(l, x);
      }
  }

  /** In an ordered tree no value is held twice, so the nodes are as many as the values. */
  lemma {:induction false} OrderedCount(s: Shape)
    requires Ordered(s)
    ensures Count(s) == |Values(s)|
  {
    match s
    case Empty =>
    case Branch(l, v, r) =>
      OrderedCount(l);
      OrderedCount(r);
      assert Values(l) !! Values(r) by {
        forall y | y in Values(l) ensures y !in Values(r) { }
      }
      assert v !in Values(l) + Values(r);
      calc {
        |Values(s)|;
        == { assert Values(s) == (Values(l) + Values(r)) + {v}; }
        |Values(l) + Values(r)| + 1;
        == |Values(l)| + |Values(r)| + 1;
      }
  }

  /**
   * `BinaryTree.Insert(x)` on an ordered tree: the result is ordered, its
   * values gain exactly `x`, it keeps every old node in place, it has one more
   * node exactly when `x` is new, and it is unchanged when `x` is present. On
   * an empty tree the result is the single node holding `x`.
   */
  lemma InsertValueFacts(s: Shape, x: int)
    requires Ordered(s)
    ensures Ordered(InsertValue(s, x))
    ensures Values(InsertValue(s, x)) == Values(s) + {x}
    ensures Extends(InsertValue(s, x), s)
    ensures Count(InsertValue(s, x)) == Count(s) + (if x in Values(s) then 0 else 1)
    ensures x in Values(s) ==> InsertValue(s, x) == s
    ensures s == Empty ==> InsertValue(s, x) == Leaf(x)
  {
    var start := if s.Empty? then Leaf(x) else s;
    GraftLeafOrdered(start, x);
    GraftLeafValues(start, x);
    GraftExtends(start, Leaf(x));
    GraftLeafCount(start, x);
    if x in Values(s) {
      GraftPresent(s, Leaf(x));
    }
  }

  /** The values of a sequence. */
  function Elems(xs: seq<int>): set<int>
  {
    set x | x in xs
  }

  /** No value occurs twice in `xs`. */
  predicate Distinct(xs: seq<int>)
  {
    forall p, q :: 0 <= p < q < |xs| ==> xs[p] != xs[q]
  }

  lemma ElemsSnoc(init: seq<int>, last: int)
    ensures Elems(init + [last]) == Elems(init) + {last}
  {
  }

  lemma DistinctSnoc(init: seq<int>, last: int)
    ensures Distinct(init + [last]) <==> Distinct(init) && last !in init
  {
    var xs := init + [last];
    if Distinct(xs) {
      forall p, q | 0 <= p < q < |init| ensures init[p] != init[q] {
        assert xs[p] == init[p] && xs[q] == init[q];
      }
      forall p | 0 <= p < |init| ensures init[p] != last {
        assert xs[p] == init[p] && xs[|init|] == last;
      }
    }
    if Distinct(init) && last !in init {
      forall p, q | 0 <= p < q < |xs| ensures xs[p] != xs[q] {
        assert xs[p] == init[p] && xs[p] in init;
      }
    }
  }

  /** A sequence has at most as many distinct values as entries, and as many exactly when no value repeats. */
  lemma {:induction false} ElemsCount(xs: seq<int>)
    ensures |Elems(xs)| <= |xs|
    ensures |Elems(xs)| == |xs| <==> Distinct(xs)
  {
    if xs != [] {
      var init, last := xs[..|xs| - 1], xs[|xs| - 1];
      assert xs == init + [last];
      ElemsCount(init);
      ElemsSnoc(init, last);
      DistinctSnoc(init, last);
      if last in init {
        assert Elems(xs) == Elems(init);
      }
    }
  }
}
