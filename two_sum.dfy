/** golang_task1/task1_08.go: two indices whose values add up to a target,
    found in one pass with a map from each value seen to its latest index. */
module TwoSum {

  /** Go's result: nil, or the slice [i, j]. */
  datatype Answer = Nil | Pair(i: nat, j: nat)

  /** Some index before j holds the complement of nums[j]. */
  ghost predicate HasPartnerBefore(nums: seq<int>, target: int, j: int)
    requires 0 <= j < |nums|
  {
    exists k :: 0 <= k < j && nums[k] + nums[j] == target
  }

  /** The map sends every value of nums[..n] to the last index below n where it occurs, and has no other keys. */
  ghost predicate LastIndexMap(nums: seq<int>, n: int, m: map<int, nat>)
    requires 0 <= n <= |nums|
  {
    (forall v :: v in m <==> v in nums[..n]) &&
    (forall v :: v in m ==> m[v] < n && nums[m[v]] == v) &&
    (forall v, k :: v in m && m[v] < k < n ==> nums[k] != v)
  }

  /** Recording nums[n] at n extends the map by one position. */
  lemma LastIndexMapStep(nums: seq<int>, n: int, m: map<int, nat>)
    requires 0 <= n < |nums| && LastIndexMap(nums, n, m)
    ensures LastIndexMap(nums, n + 1, m[nums[n] := n])
  {
    assert nums[..n + 1] == nums[..n] + [nums[n]];
  }

  /** A value missing from the map occurs nowhere before n. */
  lemma LastIndexMapAbsent(nums: seq<int>, n: int, m: map<int, nat>, v: int)
    requires 0 <= n <= |nums| && LastIndexMap(nums, n, m) && v !in m
    ensures forall k :: 0 <= k < n ==> nums[k] != v
  {
    forall k | 0 <= k < n ensures nums[k] != v {
      assert nums[..n][k] == nums[k];
    }
  }

  /** test: scans nums once; at each index j it first looks the complement
      target - nums[j] up among the earlier values, then records nums[j] at j,
      overwriting an earlier index of the same value. */
  method TwoSum(nums: seq<int>, target: int) returns (r: Answer)
    ensures r.Pair? ==> r.i < r.j < |nums| && nums[r.i] + nums[r.j] == target
    ensures r.Pair? ==> HasPartnerBefore(nums, target, r.j)
    ensures r.Pair? ==> forall j :: 0 <= j < r.j ==> !HasPartnerBefore(nums, target, j)
    ensures r.Pair? ==> forall k :: r.i < k < r.j ==> nums[k] + nums[r.j] != target
    ensures r.Nil? <==> forall j, k :: 0 <= k < j < |nums| ==> nums[k] + nums[j] != target
  {
    var numMap: map<int, nat> := map[];
    var i := 0;
    while i < |nums|
      invariant 0 <= i <= |nums|
      invariant LastIndexMap(nums, i, numMap)
      invariant forall j :: 0 <= j < i ==> !HasPartnerBefore(nums, target, j)
    {
      var num := nums[i];
      var complement := target - num;
      if complement in numMap {
        var idx := numMap[complement];
        forall k | idx < k < i ensures nums[k] + nums[i] != target {
          assert nums[k] != complement;
        }
        return Pair(idx, i);
      }
      LastIndexMapAbsent(nums, i, numMap, complement);
      LastIndexMapStep(nums, i, numMap);
      numMap := numMap[num := i];
      i := i + 1;
    }
    forall j, k | 0 <= k < j < |nums| ensures nums[k] + nums[j] != target {
      assert !HasPartnerBefore(nums, target, j);
    }
    return Nil;
  }
}
