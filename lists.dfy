/** Helpers over integer lists shared by the schedule expander and the matcher:
    JavaScript's `Array.prototype.indexOf` and the ordering facts stated about
    expanded fields. */
module Lists {

  /** `s.indexOf(x)`: the first position holding `x`, or -1 when `x` is absent. */
  function IndexOf(s: seq<int>, x: int): (r: int)
    ensures -1 <= r < |s|
    ensures r == -1 <==> x !in s
    ensures r >= 0 ==> s[r] == x && x !in s[..r]
  {
    if s == [] then -1
    else if s[0] == x then 0
    else
      var j := IndexOf(s[1..], x);
      if j == -1 then -1
      else
        assert s[..j + 1] == [s[0]] + s[1..][..j];
        j + 1
  }

  /** Every element is smaller than every later one: sorted with no duplicates. */
  ghost predicate StrictlyIncreasing(s: seq<int>) {
    forall i, j :: 0 <= i < j < |s| ==> s[i] < s[j]
  }

  /** `s.splice(s.indexOf(x), 1, y)` guarded by `indexOf > -1`: the first `x`
      is overwritten in place by `y`; a list without `x` is left alone. */
  function ReplaceFirst(s: seq<int>, x: int, y: int): seq<int> {
    var i := IndexOf(s, x);
    if i > -1 then s[i := y] else s
  }

  /** In a list without duplicates, replacing the first `x` by `y` changes exactly
      the one element equal to `x` and keeps every position. */
  lemma ReplaceFirstAt(s: seq<int>, x: int, y: int)
    requires forall i, j :: 0 <= i < j < |s| ==> s[i] != s[j]
    ensures |ReplaceFirst(s, x, y)| == |s|
    ensures forall k :: 0 <= k < |s| ==> ReplaceFirst(s, x, y)[k] == if s[k] == x then y else s[k]
  {
    var i := IndexOf(s, x);
    if i > -1 {
      forall k | 0 <= k < |s| && k != i
        ensures s[k] != x
      {
        if k < i { assert s[k] != s[i]; } else { assert s[i] != s[k]; }
      }
    }
  }
}
