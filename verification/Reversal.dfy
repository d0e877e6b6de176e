/** In-place reversal of a stretch of an array, used by solutions 189 and 31. */
module Reversal {

  /** s with the stretch i..j, both ends included, turned round. */
  ghost function Mirrored(s: seq<int>, i: nat, j: int): (r: seq<int>)
    requires i <= j + 1 <= |s|
    ensures |r| == |s|
  {
    seq(|s|, p requires 0 <= p < |s| => s[if i <= p <= j then i + j - p else p])
  }

  /** Reverses nums[i0..j0], both ends included. */
  method Reverse(nums: array<int>, i0: int, j0: int)
    requires 0 <= i0 <= j0 + 1 <= nums.Length
    modifies nums
    ensures nums[..] == Mirrored(old(nums[..]), i0, j0)
  {
    var i, j := i0, j0;
    while i < j
      invariant i0 <= i && i + j == i0 + j0 && i <= j + 1
      invariant forall p :: 0 <= p < nums.Length ==>
                  nums[p] == old(nums[..])[if i0 <= p < i || j < p <= j0 then i0 + j0 - p else p]
    {
      nums[i], nums[j] := nums[j], nums[i];
      i, j := i + 1, j - 1;
    }
  }

  lemma {:induction false} MirrorPermutes(s: seq<int>, i: nat, j: int)
    requires i <= j + 1 <= |s|
    ensures multiset(Mirrored(s, i, j)) == multiset(s)
    decreases j + 1 - i
  {
    if i >= j {
      assert Mirrored(s, i, j) == s;
    } else {
      var t := s[i := s[j]][j := s[i]];
      SwapPermutes(s, i, j);
      assert Mirrored(s, i, j) == Mirrored(t, i + 1, j - 1);
      MirrorPermutes(t, i + 1, j - 1);
    }
  }

  lemma SwapPermutes(s: seq<int>, i: nat, j: nat)
    requires i < |s| && j < |s|
    ensures multiset(s[i := s[j]][j := s[i]]) == multiset(s)
  {
  }
}
