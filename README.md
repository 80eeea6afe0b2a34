# Verified model of three small algorithms from opskzz/LeetCode

This project models three small sequential pieces of the repository in Dafny
and proves what each promises.

- **Insert-only binary search tree** (`tree/tree.go`). `Node` objects hold a
  value and `left`/`right` child pointers. `Node.Insert` walks down, going
  right on a greater value and left on a smaller one. It hangs the new node
  in the first nil slot it meets and drops it on an equal value.
  `BinaryTree` owns the root and a `size` counter. `BinaryTree.Insert`
  creates the root on first use, increments `size` on every call and then
  grafts a fresh node below the root. `tree.dfy` keeps the imperative form:
  classes whose methods assign the pointer fields in place. Each node carries
  a ghost footprint (`Repr`) and a ghost value-level picture (`Model`, a
  `Shape`). The tree reads its node set and shape off `root`, and carries
  the ghost history of inserted values (`Inserted`). `tree_shape.dfy` holds the value-level `Shape`, the descent
  as a function (`Graft`) and the lemmas about ordering, value sets, node
  counts and positions.
- **Two-sum lookup** (`twoSum/twoSum.go`, `twoSum/twoSum.py`). One
  left-to-right pass keeps a map from each value seen to the last index where
  it was seen. It returns `[j, i]` at the first index `i` whose complement
  `target - nums[i]` is already a key, or nil/None after the loop. Both
  versions are loops over a `map<int, int>`. Both are proved against one
  predicate, `IsAnswer`, that pins the result down uniquely. So the two
  versions agree on every input.
- **Counter generator** (`goByExample/closures.go`). `intSeq` returns a
  closure over a private counter. Here the closure is a `Counter` object whose
  one field is the captured variable, and a call of the closure is `Next()`.

Go's `[]int{j, i}` and Python's `[j, i]` are modelled as `Some((j, i))`; nil
and None are `None`.

A `Node` of `tree/tree.go` has no parent link and caches no height or size;
the tree offers insertion, `Size` and `Root` and nothing else.

## Model

| member | source | states |
|---|---|---|
| `TreeShape.GraftExtends` | tree/tree.go:40-54 | The descent keeps every old node at its old position with its old value and only fills a nil slot, so existing child links are never overwritten |
| `TreeShape.GraftValues` | tree/tree.go:40-54 | Inserting a node that carries a subtree either leaves the tree as it was or adds exactly that subtree's values; the old values always stay |
| `TreeShape.GraftLeafValues` | tree/tree.go:40-54 | Inserting a single node holding `x` makes the value set the old set plus `x`, whether or not `x` was already present |
| `TreeShape.GraftLeafOrdered` | tree/tree.go:40-54 | Inserting a single node keeps the search-tree order: left subtree values below each node's value, right subtree values above it |
| `TreeShape.GraftLeafCount` | tree/tree.go:40-54 | In an ordered tree, inserting `x` adds one node when `x` is new and none when it is present |
| `TreeShape.OrderedCount` | tree/tree.go:40-54 | An ordered tree holds no value twice, so its node count equals the number of its distinct values |
| `TreeShape.InsertValueFacts` | tree/tree.go:57-63 | One tree insert keeps the order, adds exactly the value, keeps old nodes in place, adds a node exactly when the value is new, and on an empty tree yields the single node holding the value (the follow-up equal insert adds nothing) |
| `TreeShape.ElemsCount` | tree/tree.go:57-62 | A sequence of insert values has at most as many distinct values as entries, with equality exactly when no value repeats |
| `TreeShape.Leaf` | tree/tree.go:59 | `&Node{nil, nil, value}` as a shape: one node holding `value`, whose value set is `{value}` and whose node count is 1 |
| `TreeShape.Graft` | tree/tree.go:40-54 | The descent of `root.Insert(node)` as a function: the result is never empty and keeps the root's value, so the root never changes |
| `TreeShape.GraftPresent` | tree/tree.go:41-53 | In an ordered tree, inserting any node whose value is already present leaves the tree unchanged, so re-inserting a node of the tree writes nothing |
| `TreeShape.InsertValue` | tree/tree.go:57-63 | `BinaryTree.Insert(x)` as a function: the result is never empty; its root holds `x` when the tree was empty and otherwise keeps the old root's value |
| `Tree.Node.constructor` | tree/tree.go:59 | `&Node{nil, nil, value}`: a valid node with no children holding `value` |
| `Tree.Node.Insert` | tree/tree.go:40-54 | The new shape is the old one with `node` grafted at the first nil slot of the descent; no node's value changes; a child link changes only from nil to `node`; the footprint grows at most by `node`'s subtree |
| `Tree.BinaryTree.NewBt` | tree/tree.go:33-37 | A new tree has no root, size 0 and an empty insert history |
| `Tree.BinaryTree.Size` | tree/tree.go:23-25 | `Size()` is the number of `Insert` calls; the number of nodes is at most that, and equal exactly when every inserted value was distinct |
| `Tree.BinaryTree.Root` | tree/tree.go:28-30 | The root is nil exactly before the first insert; afterwards it is the node holding the first inserted value |
| `Tree.BinaryTree.Insert` | tree/tree.go:57-63 | Every call appends to the history and adds one to `size`, duplicates included; the shape becomes the ordered one-value insert of the old shape; the first insert makes a root holding the value, and later inserts keep the root and its value; no old node's value or non-nil link changes |
| `Tree.BinaryTree.AbstractInsert` | tree/tree.go:57-63 | One insert keeps the value-level half of the tree invariant: the shape stays ordered and its values are exactly the values inserted so far, the new one included |
| `TwoSumGo.TwoSum` | twoSum/twoSum.go:6-15 | The result is nil only when no two distinct indices sum to `target`; otherwise `(j, i)` with `0 <= j < i < len(nums)`, `nums[j] + nums[i] == target`, `i` the first index completing any pair and `j` the last index below `i` completing it, so nothing is paired with itself |
| `TwoSumGo.IndexesLastStep` | twoSum/twoSum.go:12 | Writing `lookUP[nums[i]] = i` keeps the loop invariant: the map's keys are the values of the prefix read so far, each mapped to its last index in that prefix |
| `TwoSumGo.AnswerUnique` | twoSum/twoSum.go:8-14 | The promised answer is unique: two results meeting it for the same input are equal |
| `TwoSumPy.TwoSum` | twoSum/twoSum.py:4-9 | Same promise as the Go version, with None returned by falling off the end of the loop |
| `TwoSumPy.AgreesWithGo` | twoSum/twoSum.py:4-9 | On every input the Python version returns the same pair as the Go version, and None exactly where Go returns nil |
| `Closures.Counter.IntSeq` | goByExample/closures.go:3-4 | `intSeq` creates a closure whose captured counter starts at 0 |
| `Closures.Counter.Next` | goByExample/closures.go:5-8 | Each call returns one more than the counter held before the call and leaves the counter at the returned value |
| `Closures.FirstCalls` | goByExample/closures.go:3-9 | On a fresh generator the k-th call returns k, so the first call returns 1 and the values strictly increase |
| `Closures.TwoGenerators` | goByExample/closures.go:3-9 | Two generators from separate `intSeq` calls count independently: calls on one do not change what the other returns |

## Left out

- The `Root` struct (tree/tree.go:11-14) is declared but never used and has no behaviour.
- Tree.Node.Insert: requires that `node`'s subtree shares no node with the receiver's tree. Go does not check this. In an unordered tree, or when `node` carries nodes of the tree below it, the Go code could then build a shared subtree or a cycle, which the model does not represent.
- Tree.Node.Insert: re-inserting a node that is already in an ordered tree is a no-op in Go (the descent reaches that node and both comparisons fail, tree/tree.go:41 and :47); the requires excludes this call, although `TreeShape.GraftPresent` proves the no-op at the value level.
- Tree.Node.Insert: a nil `node`, which makes Go panic on `node.value` at tree/tree.go:41, is excluded by the non-null parameter type.
- TreeShape.GraftLeafOrdered: the order is proved only for inserting a node with no children, the only kind `BinaryTree.Insert` passes. Grafting a node that carries a subtree can break the order in Go too.
- Tree.BinaryTree.Insert: does not model wrap-around of the Go `int` in `bt.size++`; sizes are mathematical integers, assumed to stay in range.
- TwoSumGo.TwoSum: does not model wrap-around of the Go `int` in `target - num`; values are mathematical integers, assumed to stay in range.
- Closures.Counter.Next: does not model wrap-around of the Go `int` in `i++`; the counter is a mathematical integer, assumed to stay in range.
- The map capacity hint in `make(map[int]int, len(nums))` and Go's heap and garbage collection: they have no observable effect.
- The Python class wrapper `problems` and its `self` parameter: `twoSum` is modelled as a plain method. Python's dynamic typing is not modelled: `nums` is taken to hold integers.
