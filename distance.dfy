// One-dimensional distance helpers: the absolute difference of two numbers
// and a linear scan for the element of an array closest to a target.
// Go's float32 values are modelled as exact reals.
module Distance {

  /** The absolute difference |a - b|. */
  function Dist(a: real, b: real): (r: real)
    ensures r >= 0.0
    ensures r == a - b || r == b - a
  {
    var diff := a - b;
    if diff < 0.0 then -diff else diff
  }

  /** Dist does not depend on the order of its arguments. */
  lemma DistSymmetric(a: real, b: real)
    ensures Dist(a, b) == Dist(b, a)
  {
  }

  /** Dist is zero exactly when the two numbers are equal. */
  lemma DistZeroIff(a: real, b: real)
    ensures Dist(a, b) == 0.0 <==> a == b
  {
  }

  /** `arr[k]` is the closest element to `target`, and no earlier element is as close. */
  ghost predicate IsFirstClosest(arr: seq<real>, target: real, k: int)
  {
    && 0 <= k < |arr|
    && (forall j :: 0 <= j < |arr| ==> Dist(target, arr[k]) <= Dist(target, arr[j]))
    && (forall j :: 0 <= j < k ==> Dist(target, arr[k]) < Dist(target, arr[j]))
  }

  /**
   * The element of `arr` closest to `target`; ties go to the lowest index
   * because only a strictly smaller distance replaces the candidate.
   * An empty array yields the sentinel -1.
   */
  method LinearScanClosetNeighbor(arr: seq<real>, target: real) returns (r: real)
    ensures |arr| == 0 ==> r == -1.0
    ensures |arr| > 0 ==> exists k :: IsFirstClosest(arr, target, k) && r == arr[k]
  {
    var n := |arr|;
    if n == 0 {
      return -1.0;
    }
    var candidate := arr[0];
    var closetDist := Dist(target, candidate);
    ghost var k := 0;
    for i := 1 to n
      invariant 0 <= k < i
      invariant candidate == arr[k] && closetDist == Dist(target, arr[k])
      invariant forall j :: 0 <= j < i ==> closetDist <= Dist(target, arr[j])
      invariant forall j :: 0 <= j < k ==> closetDist < Dist(target, arr[j])
    {
      var currDist := Dist(target, arr[i]);
      if currDist < closetDist {
        closetDist := currDist;
        candidate := arr[i];
        k := i;
      }
    }
    assert IsFirstClosest(arr, target, k);
    r := candidate;
  }
}
