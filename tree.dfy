/**
 * The insert-only binary search tree of tree/tree.go: linked `Node` objects
 * whose child pointers `Node.Insert` fills in place, and a `BinaryTree` that
 * owns the root and counts insertions in `size`.
 */
module Tree {
  import opened TreeShape

  class Node {
    var left: Node?
    var right: Node?
    var value: int

    /** The nodes of the subtree rooted here. */
    ghost var Repr: set<Node>
    /** The shape of the subtree rooted here. */
    ghost var Model: Shape

    /** The subtree is a finite tree (no sharing, no cycle) and `Model` describes it. */
    ghost predicate Valid()
      reads this, Repr
      decreases Repr
    {
      && this in Repr
      && (left != null ==>
            left in Repr && left.Repr <= Repr && this !in left.Repr && left.Valid())
      && (right != null ==>
            right in Repr && right.Repr <= Repr && this !in right.Repr && right.Valid())
      && (left != null && right != null ==> left.Repr !! right.Repr)
      && Model == Branch(ShapeOf(left), value, ShapeOf(right))
    }

    /** The shape hanging from a child pointer. */
    static ghost function ShapeOf(n: Node?): Shape
      reads n
    {
      if n == null then Empty else n.Model
    }

    /** `&Node{nil, nil, value}`: a node with no children. */
    constructor (value: int)
      ensures Valid() && fresh(Repr) && Repr == {this}
      ensures this.value == value && left == null && right == null
      ensures Model == Leaf(value)
    {
      this.value := value;
      left, right := null, null;
      Repr := {this};
      Model := Leaf(value);
    }

    /**
     * Hangs `node` (with whatever subtree it carries) in the first nil slot of
     * the descent: right while its value is greater, left while it is smaller;
     * an equal value drops it. Only a nil slot is ever written, and only with
     * `node`; no value changes.
     */
    method Insert(node: Node)
      requires Valid() && node.Valid() && Repr !! node.Repr
      modifies Repr
      decreases Repr
      ensures Valid() && unchanged(node.Repr)
      ensures Model == Graft(old(Model), node.Model)
      ensures old(Repr) <= Repr <= old(Repr) + node.Repr
      ensures forall n :: n in old(Repr) ==>
                && n.value == old(n.value)
                && (n.left == old(n.left) || (old(n.left) == null && n.left == node))
                && (n.right == old(n.right) || (old(n.right) == null && n.right == node))
    {
      if node.value > value {
        if right == null {
          right := node;
        } else {
          right.Insert(node);
          assert left != null ==> left.Valid() && left.Repr !! right.Repr;
        }
        Repr := Repr + right.Repr;
        Model := Branch(Model.left, value, right.Model);
      } else if node.value < value {
        if left == null {
          left := node;
        } else {
          left.Insert(node);
          assert right != null ==> right.Valid() && left.Repr !! right.Repr;
        }
        Repr := Repr + left.Repr;
        Model := Branch(left.Model, value, Model.right);
      }
    }
  }

  class BinaryTree {
    var root: Node?
    var size: int

    /** The values passed to `Insert`, oldest first. */
    ghost var Inserted: seq<int>

    /** The nodes of the tree. */
    ghost function Nodes(): set<Node>
      reads this, root
    {
      if root == null then {} else root.Repr
    }

    /** The shape hanging from `root`. */
    ghost function Model(): Shape
      reads this, root
    {
      if root == null then Empty else root.Model
    }

    ghost predicate Valid()
      reads this, root, Nodes()
    {
      && (root != null ==> root in root.Repr && root.Valid())
      && Ordered(Model())
      && Values(Model()) == Elems(Inserted)
      && size == |Inserted|
      && (root == null <==> Inserted == [])
      && (root != null ==> root.value == Inserted[0])
    }

    /** `NewBt`: no root, size 0. */
    constructor NewBt()
      ensures Valid() && fresh(Nodes())
      ensures root == null && size == 0 && Inserted == [] && Model() == Empty
    {
      root, size := null, 0;
      Inserted := [];
    }

    /** `Size`: the number of `Insert` calls, which bounds the number of nodes and equals it exactly when no value was inserted twice. */
    function Size(): (r: int)
      reads this, root, Nodes()
      requires Valid()
      ensures r == |Inserted|
      ensures Count(Model()) <= r
      ensures Count(Model()) == r <==> Distinct(Inserted)
    {
      OrderedCount(Model());
      ElemsCount(Inserted);
      size
    }

    /** `Root`: nil before the first `Insert`, and afterwards the node holding the first inserted value. */
    function Root(): (r: Node?)
      reads this, root, Nodes()
      requires Valid()
      ensures r == null <==> Inserted == []
      ensures r != null ==> r in Nodes() && r.value == Inserted[0] && r.Model == Model()
    {
      root
    }

    /**
     * Creates the root on first use, counts the call in `size` whatever the
     * value, and grafts a fresh node holding `value` below the root.
     */
    method Insert(value: int)
      requires Valid()
      modifies this, Nodes()
      ensures Valid() && fresh(Nodes() - old(Nodes()))
      ensures Inserted == old(Inserted) + [value]
      ensures size == old(size) + 1
      ensures Model() == InsertValue(old(Model()), value)
      ensures old(root) == null ==> root != null && root.value == value && Model() == Leaf(value)
      ensures old(root) != null ==> root == old(root) && root.value == old(root.value)
      ensures forall n :: n in old(Nodes()) ==>
                && n.value == old(n.value)
                && (old(n.left) != null ==> n.left == old(n.left))
                && (old(n.right) != null ==> n.right == old(n.right))
    {
      ghost var before := Model();
      AbstractInsert(before, Inserted, value);
      if root == null {
        root := new Node(value);
      }
      size := size + 1;
      Inserted := Inserted + [value];
      var n := new Node(value);
      root.Insert(n);
    }

    /** One insert keeps the abstract part of `Valid`: the shape stays ordered and holds the inserted values. */
    static lemma AbstractInsert(s: Shape, inserted: seq<int>, x: int)
      requires Ordered(s) && Values(s) == Elems(inserted)
      ensures Ordered(InsertValue(s, x)) && Values(InsertValue(s, x)) == Elems(inserted + [x])
    {
      var start := if s.Empty? then Leaf(x) else s;
      GraftLeafOrdered(start, x);
      GraftLeafValues(start, x);
      assert Elems(inserted + [x]) == Elems(inserted) + {x};
    }
  }
}
