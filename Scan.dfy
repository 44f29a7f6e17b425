/**
 * Left-to-right scans that keep the FIRST strict improvement, the shape shared
 * by `identify` (running best similarity from -1, `>`), the IoU pass of
 * `matchToExistingTrack` (running best IoU from 0, `>`) and its
 * centre-distance pass (running least distance from Float.MAX_VALUE, `<`).
 */
module Scan {

  /** Where a scan ended: the index it kept (-1 if none) and the running value. */
  datatype Pick = Pick(index: int, value: real)

  /** Keep the first index whose value is strictly greater than everything seen so far, starting from `floor`. */
  function Highest(s: seq<real>, floor: real): (p: Pick)
    ensures -1 <= p.index < |s|
  {
    if |s| == 0 then Pick(-1, floor)
    else
      var p := Highest(s[..|s| - 1], floor);
      if s[|s| - 1] > p.value then Pick(|s| - 1, s[|s| - 1]) else p
  }

  /** Keep the first index whose value is strictly less than everything seen so far, starting from `ceiling`. */
  function Lowest(s: seq<real>, ceiling: real): (p: Pick)
    ensures -1 <= p.index < |s|
  {
    if |s| == 0 then Pick(-1, ceiling)
    else
      var p := Lowest(s[..|s| - 1], ceiling);
      if s[|s| - 1] < p.value then Pick(|s| - 1, s[|s| - 1]) else p
  }

  /** What `Highest` finds: the first position of the maximum if it beats `floor`, otherwise nothing. */
  ghost predicate IsFirstHighest(s: seq<real>, floor: real, p: Pick)
  {
    && -1 <= p.index < |s|
    && floor <= p.value
    && (forall j :: 0 <= j < |s| ==> s[j] <= p.value)
    && (p.index == -1 <==> forall j :: 0 <= j < |s| ==> s[j] <= floor)
    && (p.index == -1 ==> p.value == floor)
    && (p.index >= 0 ==> s[p.index] == p.value && floor < p.value)
    && (forall j :: 0 <= j < p.index ==> s[j] < p.value)
  }

  /** What `Lowest` finds: the first position of the minimum if it is below `ceiling`, otherwise nothing. */
  ghost predicate IsFirstLowest(s: seq<real>, ceiling: real, p: Pick)
  {
    && -1 <= p.index < |s|
    && p.value <= ceiling
    && (forall j :: 0 <= j < |s| ==> p.value <= s[j])
    && (p.index == -1 <==> forall j :: 0 <= j < |s| ==> ceiling <= s[j])
    && (p.index == -1 ==> p.value == ceiling)
    && (p.index >= 0 ==> s[p.index] == p.value && p.value < ceiling)
    && (forall j :: 0 <= j < p.index ==> p.value < s[j])
  }

  lemma {:induction false} HighestIsFirstMax(s: seq<real>, floor: real)
    ensures IsFirstHighest(s, floor, Highest(s, floor))
  {
    if |s| > 0 {
      var s' := s[..|s| - 1];
      HighestIsFirstMax(s', floor);
      assert forall j :: 0 <= j < |s'| ==> s'[j] == s[j];
    }
  }

  lemma {:induction false} LowestIsFirstMin(s: seq<real>, ceiling: real)
    ensures IsFirstLowest(s, ceiling, Lowest(s, ceiling))
  {
    if |s| > 0 {
      var s' := s[..|s| - 1];
      LowestIsFirstMin(s', ceiling);
      assert forall j :: 0 <= j < |s'| ==> s'[j] == s[j];
    }
  }
}
