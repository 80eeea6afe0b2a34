/**
 * The two-sum lookup of twoSum/twoSum.py: the same pass as the Go version,
 * written with a membership test before the read, and answering None by
 * falling off the end of the loop.
 */
module TwoSumPy {
  import opened TwoSumGo

  /** `problems.twoSum`: `[lookUP[target - num], i]` is returned as `Some((j, i))` and None as `None`. */
  method TwoSum(nums: seq<int>, target: int) returns (r: Option<(int, int)>)
    ensures IsAnswer(nums, target, r)
  {
    var lookUp: map<int, int> := map[];
    var i := 0;
    while i < |nums|
      invariant 0 <= i <= |nums|
      invariant IndexesLast(lookUp, nums[..i])
      invariant forall j', i' :: i' < i ==> !IsPair(nums, target, j', i')
    {
      var num := nums[i];
      if target - num in lookUp {
        assert nums[..i][lookUp[target - num]] == nums[lookUp[target - num]];
        r := Some((lookUp[target - num], i));
        return;
      }
      forall j' | 0 <= j' < i ensures nums[j'] != target - num {
        assert nums[..i][j'] == nums[j'];
      }
      IndexesLastStep(lookUp, nums[..i], num);
      assert nums[..i] + [num] == nums[..i + 1];
      lookUp := lookUp[num := i];
      i := i + 1;
    }
    r := None;
  }

  /** On every input the Python lookup answers as the Go lookup does, None standing for nil. */
  method AgreesWithGo(nums: seq<int>, target: int) returns (fromGo: Option<(int, int)>, fromPython: Option<(int, int)>)
    ensures fromGo == fromPython
  {
    fromGo := TwoSumGo.TwoSum(nums, target);
    fromPython := TwoSum(nums, target);
    AnswerUnique(nums, target, fromGo, fromPython);
  }
}
