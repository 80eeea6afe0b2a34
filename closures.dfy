/**
 * The counter generator of goByExample/closures.go: `intSeq` returns a
 * closure over a private counter `i`; each call of the closure increments `i`
 * and returns it. The closure and its captured variable are an object with one
 * field.
 */
module Closures {

  /** The closure returned by `intSeq`, with the variable `i` it captures. */
  class Counter {
    var i: int

    /** `intSeq`: a new closure whose counter starts at 0. */
    constructor IntSeq()
      ensures i == 0
    {
      i := 0;
    }

    /** A call of the closure: one more than the previous call returned (or than 0 on the first call). */
    method Next() returns (r: int)
      modifies this
      ensures r == old(i) + 1 && i == r
    {
      i := i + 1;
      r := i;
    }
  }

  /** The first `n` calls on a fresh generator return 1, 2, ..., n: the k-th call returns k, so the values strictly increase. */
  method FirstCalls(n: nat) returns (values: seq<int>)
    ensures |values| == n
    ensures forall k :: 0 <= k < n ==> values[k] == k + 1
    ensures forall p, q :: 0 <= p < q < n ==> values[p] < values[q]
  {
    var f := new Counter.IntSeq();
    values := [];
    while |values| < n
      invariant |values| <= n
      invariant f.i == |values|
      invariant forall k :: 0 <= k < |values| ==> values[k] == k + 1
    {
      var v := f.Next();
      values := values + [v];
    }
  }

  /**
   * Two generators from separate `intSeq` calls count independently: after
   * `m` calls on the first, the first call on the second still returns 1, and
   * the next call on the first returns `m + 1`.
   */
  method TwoGenerators(m: nat) returns (fromSecond: int, fromFirst: int)
    ensures fromSecond == 1 && fromFirst == m + 1
  {
    var f := new Counter.IntSeq();
    var g := new Counter.IntSeq();
    var calls := 0;
    while calls < m
      invariant calls <= m && f.i == calls && g.i == 0
    {
      var _ := f.Next();
      calls := calls + 1;
    }
    fromSecond := g.Next();
    fromFirst := f.Next();
  }
}
