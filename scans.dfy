/**
 * The scans over fitness values that the algorithm performs: the first
 * strictly-best element (tournament selection and `std::max_element` with
 * `<`), the per-generation maximum that starts at 0, and the integer sum of
 * the fitness values.
 */
module Scans {

  /**
   * Position of the first maximal element: scanning left to right, a later
   * element replaces the current best only when it is strictly greater.
   */
  function FirstMax(fs: seq<int>): (b: nat)
    requires |fs| > 0
    ensures b < |fs|
    ensures forall j :: 0 <= j < |fs| ==> fs[j] <= fs[b]
    ensures forall j :: 0 <= j < b ==> fs[j] < fs[b]
  {
    if |fs| == 1 then 0
    else
      var b := FirstMax(fs[..|fs| - 1]);
      if fs[b] < fs[|fs| - 1] then |fs| - 1 else b
  }

  /** The maximum of 0 and the elements, as a scan that starts from 0. */
  function MaxFit(fs: seq<int>): (m: int)
    ensures 0 <= m
    ensures forall j :: 0 <= j < |fs| ==> fs[j] <= m
    ensures m == 0 || exists j :: 0 <= j < |fs| && fs[j] == m
  {
    if fs == [] then 0
    else
      var m := MaxFit(fs[..|fs| - 1]);
      if fs[|fs| - 1] > m then fs[|fs| - 1] else m
  }

  /** Sum of the elements. */
  function Sum(fs: seq<int>): int
  {
    if fs == [] then 0 else Sum(fs[..|fs| - 1]) + fs[|fs| - 1]
  }

  /** With non-negative elements, the maximum is attained by one of them. */
  lemma MaxFitAttained(fs: seq<int>)
    requires |fs| > 0
    requires forall j :: 0 <= j < |fs| ==> 0 <= fs[j]
    ensures exists j :: 0 <= j < |fs| && fs[j] == MaxFit(fs)
  {
    if MaxFit(fs) == 0 {
      assert fs[0] <= 0;
      assert fs[0] == MaxFit(fs);
    }
  }

  /** The maximum found by the scan is the element FirstMax points at. */
  lemma MaxFitIsFirstMax(fs: seq<int>)
    requires |fs| > 0
    requires forall j :: 0 <= j < |fs| ==> 0 <= fs[j]
    ensures MaxFit(fs) == fs[FirstMax(fs)]
  {
    MaxFitAttained(fs);
  }

  /**
   * The fitness sum lies between 0 and |fs| times any upper bound, so the
   * reported mean lies between 0 and the reported maximum.
   */
  lemma {:induction false} SumBounded(fs: seq<int>, m: int)
    requires forall j :: 0 <= j < |fs| ==> 0 <= fs[j] <= m
    ensures 0 <= Sum(fs) <= |fs| * m
  {
    if fs != [] {
      var h := fs[..|fs| - 1];
      assert forall j :: 0 <= j < |h| ==> h[j] == fs[j];
      SumBounded(h, m);
      assert |fs| * m == |h| * m + m;
    }
  }
}
