/**
 * The class-deficit selector of `get_char_type_deficit`, and the balance of
 * class counts that the password loop keeps with it.
 */
module Deficit {
  import opened Common

  /** `_CHAR_TYPE_DEFICIT_NUMBER`: the spread of class counts at which a class is forced. */
  const DeficitNumber: int := 2

  /** `k` is the first position holding the smallest value. */
  ghost predicate IsFirstMinimum(vals: seq<int>, k: int)
  {
    0 <= k < |vals|
    && (forall j :: 0 <= j < |vals| ==> vals[k] <= vals[j])
    && (forall j :: 0 <= j < k ==> vals[j] > vals[k])
  }

  /** `k` is a position holding the largest value. */
  ghost predicate IsMaximum(vals: seq<int>, k: int)
  {
    0 <= k < |vals| && forall j :: 0 <= j < |vals| ==> vals[j] <= vals[k]
  }

  /**
   * The scan of `get_char_type_deficit` from position `i` on, with the
   * indices of the smallest and largest values seen so far; a value only
   * replaces them when strictly smaller or larger.
   */
  function Scan(vals: seq<int>, i: int, minIndex: int, maxIndex: int): (r: (int, int))
    requires 0 <= i <= |vals|
    requires 0 <= minIndex < |vals| && 0 <= maxIndex < |vals|
    requires minIndex <= i && maxIndex <= i
    requires forall j :: 0 <= j < i ==> vals[minIndex] <= vals[j] && vals[j] <= vals[maxIndex]
    requires forall j :: 0 <= j < minIndex ==> vals[j] > vals[minIndex]
    ensures IsFirstMinimum(vals, r.0)
    ensures IsMaximum(vals, r.1)
    decreases |vals| - i
  {
    if i == |vals| then (minIndex, maxIndex)
    else
      var minIndex' := if vals[i] < vals[minIndex] then i else minIndex;
      var maxIndex' := if vals[i] > vals[maxIndex] then i else maxIndex;
      Scan(vals, i + 1, minIndex', maxIndex')
  }

  /**
   * `get_char_type_deficit` over the values of the class-count dictionary in
   * key order: the position of the first smallest count when the largest
   * count exceeds it by at least `DeficitNumber`, otherwise None (the
   * source's empty string); an empty dictionary fails on `vals[0]`.
   */
  function CharTypeDeficit(makeup: seq<int>): (r: Result<Option<nat>>)
    ensures r.Err? <==> |makeup| == 0
    ensures r.Err? ==> r.error == IndexError
    ensures r.Ok? && r.value.Some? ==>
              IsFirstMinimum(makeup, r.value.value)
              && exists j :: 0 <= j < |makeup| && makeup[j] - makeup[r.value.value] >= DeficitNumber
    ensures r.Ok? ==> (r.value.None? <==>
              forall i, j :: 0 <= i < |makeup| && 0 <= j < |makeup| ==> makeup[i] - makeup[j] < DeficitNumber)
  {
    if |makeup| == 0 then Err(IndexError)
    else
      var (minIndex, maxIndex) := Scan(makeup, 0, 0, 0);
      if makeup[maxIndex] - makeup[minIndex] >= DeficitNumber then Ok(Some(minIndex)) else Ok(None)
  }

  /** No class count exceeds another by more than `DeficitNumber`. */
  ghost predicate Balanced(counts: seq<int>)
  {
    forall i, j :: 0 <= i < |counts| && 0 <= j < |counts| ==> counts[i] - counts[j] <= DeficitNumber
  }

  /** One more character of the class at position `k`. */
  function Bump(counts: seq<int>, k: int): (r: seq<int>)
    requires 0 <= k < |counts|
    ensures |r| == |counts| && r[k] == counts[k] + 1
    ensures forall j :: 0 <= j < |counts| && j != k ==> r[j] == counts[j]
  {
    counts[k := counts[k] + 1]
  }

  /**
   * The balance the password loop keeps: from balanced counts, adding a
   * character of the deficit class (or of any class when there is none)
   * leaves the counts balanced.
   */
  lemma DeficitKeepsBalance(counts: seq<int>, k: int)
    requires Balanced(counts)
    requires 0 <= k < |counts|
    requires CharTypeDeficit(counts).Ok? && CharTypeDeficit(counts).value.Some? ==> k == CharTypeDeficit(counts).value.value
    ensures Balanced(Bump(counts, k))
  {
    var d := CharTypeDeficit(counts);
    var r := Bump(counts, k);
    forall i, j | 0 <= i < |r| && 0 <= j < |r|
      ensures r[i] - r[j] <= DeficitNumber
    {
      if d.value.None? {
        assert counts[i] - counts[j] < DeficitNumber;
      } else {
        assert IsFirstMinimum(counts, k);
        assert counts[k] <= counts[j];
      }
    }
  }

  /** Ties go to the earlier key; a spread of one forces nothing. */
  lemma DeficitExamples()
    ensures CharTypeDeficit([1, 0, 0, 2]) == Ok(Some(1))
    ensures CharTypeDeficit([3, 2, 3, 3]) == Ok(None)
    ensures CharTypeDeficit([0, 5, 5, 5]) == Ok(Some(0))
    ensures CharTypeDeficit([5, 5, 5, 5]) == Ok(None)
  {
    var a, b, c, d := [1, 0, 0, 2], [3, 2, 3, 3], [0, 5, 5, 5], [5, 5, 5, 5];
    assert a[3] - a[1] >= DeficitNumber;
    assert b[1] - b[1] < DeficitNumber;
    assert c[1] - c[0] >= DeficitNumber;
    assert d[0] - d[0] < DeficitNumber;
  }

  /**
   * The balance is a spread of `DeficitNumber`, not 1: at a spread of 1
   * nothing is forced, so a character of the largest class can take the
   * spread to 2, which is still balanced and only then forces a class.
   */
  lemma UnforcedStepReachesSpreadTwo()
    ensures CharTypeDeficit([1, 0, 0, 0]) == Ok(None)
    ensures Bump([1, 0, 0, 0], 0) == [2, 0, 0, 0]
    ensures Balanced([2, 0, 0, 0]) && [2, 0, 0, 0][0] - [2, 0, 0, 0][1] == 2
    ensures CharTypeDeficit([2, 0, 0, 0]) == Ok(Some(1))
  {
    var a, b := [1, 0, 0, 0], [2, 0, 0, 0];
    assert a[1] - a[1] < DeficitNumber;
    assert b[0] - b[1] >= DeficitNumber;
  }
}
