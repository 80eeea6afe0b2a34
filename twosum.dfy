/**
 * The two-sum lookup of twoSum/twoSum.go: one left-to-right pass that keeps,
 * for every value seen so far, the index where it was last seen, and stops at
 * the first index whose complement is already known.
 */
module TwoSumGo {

  datatype Option<T> = None | Some(value: T)

  /** Indices `j` and `i` form a pair: `j` strictly before `i`, both in range, values summing to `target`. */
  predicate IsPair(nums: seq<int>, target: int, j: int, i: int)
  {
    0 <= j < i < |nums| && nums[j] + nums[i] == target
  }

  /**
   * What the lookup promises about its answer: nil only when no pair exists;
   * otherwise a pair `(j, i)` whose `i` is the first index completing any pair
   * and whose `j` is the last index before `i` completing it.
   */
  ghost predicate IsAnswer(nums: seq<int>, target: int, r: Option<(int, int)>)
  {
    match r
    case None => forall j, i :: !IsPair(nums, target, j, i)
    case Some((j, i)) =>
      && IsPair(nums, target, j, i)
      && (forall j', i' :: i' < i ==> !IsPair(nums, target, j', i'))
      && (forall j' :: j < j' ==> !IsPair(nums, target, j', i))
  }

  /** The promise pins the answer down: two answers for the same input are equal. */
  lemma AnswerUnique(nums: seq<int>, target: int, r1: Option<(int, int)>, r2: Option<(int, int)>)
    requires IsAnswer(nums, target, r1) && IsAnswer(nums, target, r2)
    ensures r1 == r2
  {
  }

  /**
   * The map of the lookup after reading `prefix`: its keys are exactly the
   * values of `prefix`, each mapped to the last index where it occurs.
   */
  ghost predicate IndexesLast(m: map<int, int>, prefix: seq<int>)
  {
    && (forall v :: v in m <==> v in prefix)
    && (forall v :: v in m ==>
          && 0 <= m[v] < |prefix| && prefix[m[v]] == v
          && forall k :: m[v] < k < |prefix| ==> prefix[k] != v)
  }

  /** Recording index `|prefix|` for its value turns the map of `prefix` into the map of the longer prefix. */
  lemma IndexesLastStep(m: map<int, int>, prefix: seq<int>, x: int)
    requires IndexesLast(m, prefix)
    ensures IndexesLast(m[x := |prefix|], prefix + [x])
  {
  }

  /** `twoSum` of twoSum/twoSum.go: `[j, i]` is returned as `Some((j, i))` and nil as `None`. */
  method TwoSum(nums: seq<int>, target: int) returns (r: Option<(int, int)>)
    ensures IsAnswer(nums, target, r)
  {
    var lookUp: map<int, int> := map[];
    for i := 0 to |nums|
      invariant IndexesLast(lookUp, nums[..i])
      invariant forall j', i' :: i' < i ==> !IsPair(nums, target, j', i')
    {
      var num := nums[i];
      if target - num in lookUp {
        var j := lookUp[target - num];
        assert nums[..i][j] == nums[j];
        return Some((j, i));
      }
      assert forall j' :: !IsPair(nums, target, j', i) by {
        forall j' | 0 <= j' < i ensures nums[j'] != target - num {
          assert nums[..i][j'] == nums[j'];
        }
      }
      IndexesLastStep(lookUp, nums[..i], nums[i]);
      assert nums[..i] + [nums[i]] == nums[..i + 1];
      lookUp := lookUp[nums[i] := i];
    }
    return None;
  }
}
