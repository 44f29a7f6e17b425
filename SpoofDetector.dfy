/**
 * The decision half of the two-model liveness detector: each model's raw
 * output goes through a softmax, the two probability vectors are averaged
 * class by class, the label is the first arg-max of the average, and the live
 * and spoof scores are read off it.
 *
 * Scores are `real`; the exponential is a parameter. The interpreters, the
 * crops and the pixel buffers are not part of this model: the raw outputs of
 * the two models are inputs.
 */
module SpoofDetector {
  import opened Wrappers
  import Rects

  /** The `SpoofResult` that `detect` returns. */
  datatype SpoofResult = SpoofResult(
    isLive: bool,
    liveScore: real,
    spoofScore: real,
    labelIndex: nat,
    classCount: int,
    probsAvg: seq<real>)

  /** Left-to-right sum, the order of the source's loops. */
  function Sum(s: seq<real>): real
    decreases |s|
  {
    if |s| == 0 then 0.0 else Sum(s[..|s| - 1]) + s[|s| - 1]
  }

  /** The sum over the classes other than `skip`. */
  function SumExcept(s: seq<real>, skip: int): real
    decreases |s|
  {
    if |s| == 0 then 0.0
    else SumExcept(s[..|s| - 1], skip) + (if |s| - 1 != skip then s[|s| - 1] else 0.0)
  }

  // ---------------------------------------------------------------------------
  // softmax
  // ---------------------------------------------------------------------------

  /** The running maximum of the softmax's first loop; `None` stands for its start value, negative infinity. */
  function MaxFrom(s: seq<real>): Option<real>
    decreases |s|
  {
    if |s| == 0 then None
    else
      var m := MaxFrom(s[..|s| - 1]);
      if m.None? || s[|s| - 1] > m.value then Some(s[|s| - 1]) else m
  }

  /** exp(logit - max) for every class. */
  function Exps(logits: seq<real>, m: real, exp: real -> real): (e: seq<real>)
    ensures |e| == |logits|
  {
    seq(|logits|, i requires 0 <= i < |logits| => exp(logits[i] - m))
  }

  function Zeros(n: nat): (z: seq<real>)
    ensures |z| == n && forall i :: 0 <= i < n ==> z[i] == 0.0
  {
    seq(n, _ => 0.0)
  }

  function Scaled(e: seq<real>, sum: real): (p: seq<real>)
    requires sum != 0.0
    ensures |p| == |e|
  {
    seq(|e|, i requires 0 <= i < |e| => e[i] / sum)
  }

  /** What `softmax` returns: the shifted exponentials over their sum, or all zeros when that sum is 0. */
  function SoftmaxSpec(logits: seq<real>, exp: real -> real): (p: seq<real>)
    ensures |p| == |logits|
  {
    var e := Exps(logits, MaxFrom(logits).GetOr(0.0), exp);
    if Sum(e) == 0.0 then Zeros(|logits|) else Scaled(e, Sum(e))
  }

  /** The first loop of `softmax`: the largest logit, from negative infinity with `>`. */
  method RunningMax(logits: seq<real>) returns (maxV: Option<real>)
    ensures maxV == MaxFrom(logits)
  {
    maxV := None;
    for i := 0 to |logits|
      invariant maxV == MaxFrom(logits[..i])
    {
      assert logits[..i + 1][..i] == logits[..i];
      if maxV.None? || logits[i] > maxV.value {
        maxV := Some(logits[i]);
      }
    }
    assert logits[..|logits|] == logits;
  }

  /** `softmax`: a max loop, an exponentials loop with a running sum, then a division in place. */
  method Softmax(logits: seq<real>, exp: real -> real) returns (p: seq<real>)
    ensures p == SoftmaxSpec(logits, exp)
  {
    var maxV := RunningMax(logits);
    ghost var e := Exps(logits, maxV.GetOr(0.0), exp);
    var sum := 0.0;
    var exps := new real[|logits|];
    for i := 0 to |logits|
      invariant exps[..i] == e[..i]
      invariant sum == Sum(e[..i])
    {
      assert e[..i + 1][..i] == e[..i];
      var x := exp(logits[i] - maxV.GetOr(0.0));
      exps[i] := x;
      sum := sum + x;
    }
    assert e[..|logits|] == e;
    if sum == 0.0 {
      return Zeros(|logits|);
    }
    for i := 0 to exps.Length
      invariant forall j :: 0 <= j < i ==> exps[j] == e[j] / sum
      invariant forall j :: i <= j < exps.Length ==> exps[j] == e[j]
    {
      exps[i] := exps[i] / sum;
    }
    p := exps[..];
    assert p == Scaled(e, sum);
  }

  lemma {:induction false} MaxFromIsMax(s: seq<real>)
    ensures MaxFrom(s).None? <==> |s| == 0
    ensures MaxFrom(s).Some? ==> (exists k :: 0 <= k < |s| && s[k] == MaxFrom(s).value)
    ensures MaxFrom(s).Some? ==> forall j :: 0 <= j < |s| ==> s[j] <= MaxFrom(s).value
    decreases |s|
  {
    if |s| > 0 {
      var s' := s[..|s| - 1];
      MaxFromIsMax(s');
      assert forall j :: 0 <= j < |s'| ==> s'[j] == s[j];
      if MaxFrom(s') == MaxFrom(s) && |s'| > 0 {
        var k :| 0 <= k < |s'| && s'[k] == MaxFrom(s').value;
        assert s[k] == MaxFrom(s).value;
      }
    }
  }

  lemma {:induction false} SumNonNegative(s: seq<real>)
    requires forall i :: 0 <= i < |s| ==> s[i] >= 0.0
    ensures Sum(s) >= 0.0
    decreases |s|
  {
    if |s| > 0 {
      SumNonNegative(s[..|s| - 1]);
    }
  }

  /** A non-negative entry is at most the sum. */
  lemma {:induction false} ElementAtMostSum(s: seq<real>, k: nat)
    requires k < |s| && forall i :: 0 <= i < |s| ==> s[i] >= 0.0
    ensures s[k] <= Sum(s)
    decreases |s|
  {
    var s' := s[..|s| - 1];
    if k < |s'| {
      ElementAtMostSum(s', k);
    } else {
      SumNonNegative(s');
    }
  }

  lemma {:induction false} SumScaled(e: seq<real>, sum: real)
    requires sum != 0.0
    ensures Sum(Scaled(e, sum)) == Sum(e) / sum
    decreases |e|
  {
    if |e| > 0 {
      var e' := e[..|e| - 1];
      SumScaled(e', sum);
      assert Scaled(e, sum)[..|e| - 1] == Scaled(e', sum);
    }
  }

  /**
   * For a non-empty vector, and an exponential that is never negative and positive at 0,
   * `softmax` gives a probability distribution.
   */
  lemma SoftmaxIsDistribution(logits: seq<real>, exp: real -> real)
    requires |logits| > 0
    requires forall x :: exp(x) >= 0.0
    requires exp(0.0) > 0.0
    ensures var p := SoftmaxSpec(logits, exp);
      && (forall i :: 0 <= i < |p| ==> 0.0 <= p[i] <= 1.0)
      && Sum(p) == 1.0
  {
    MaxFromIsMax(logits);
    var m := MaxFrom(logits).value;
    var e := Exps(logits, m, exp);
    var k :| 0 <= k < |logits| && logits[k] == m;
    assert e[k] > 0.0;
    assert forall i :: 0 <= i < |e| ==> e[i] >= 0.0;
    ScaledIsDistribution(e, k);
  }

  /** Non-negative weights, one of them positive, divided by their sum form a distribution. */
  lemma ScaledIsDistribution(e: seq<real>, k: nat)
    requires k < |e| && e[k] > 0.0
    requires forall i :: 0 <= i < |e| ==> e[i] >= 0.0
    ensures Sum(e) > 0.0
    ensures var p := Scaled(e, Sum(e));
      && (forall i :: 0 <= i < |p| ==> 0.0 <= p[i] <= 1.0)
      && Sum(p) == 1.0
  {
    ElementAtMostSum(e, k);
    var sum := Sum(e);
    var p := Scaled(e, sum);
    forall i | 0 <= i < |p|
      ensures 0.0 <= p[i] <= 1.0
    {
      ElementAtMostSum(e, i);
      Rects.DivAtMostOne(e[i], sum);
    }
    SumScaled(e, sum);
    DivSelf(sum);
  }

  lemma DivSelf(y: real)
    requires y != 0.0
    ensures y / y == 1.0
  {
  }

  // ---------------------------------------------------------------------------
  // argmax
  // ---------------------------------------------------------------------------

  /** What `argmax` returns: the first index of the maximum, 0 for an empty array. */
  function ArgMaxSpec(s: seq<real>): (k: nat)
    ensures |s| == 0 ==> k == 0
    ensures |s| > 0 ==> k < |s| && forall j :: 0 <= j < |s| ==> s[j] <= s[k]
    decreases |s|
  {
    if |s| <= 1 then 0
    else
      var k := ArgMaxSpec(s[..|s| - 1]);
      if k < |s| - 1 && s[|s| - 1] > s[k] then |s| - 1 else k
  }

  lemma {:induction false} ArgMaxIsFirstMax(s: seq<real>)
    requires |s| > 0
    ensures ArgMaxSpec(s) < |s|
    ensures forall j :: 0 <= j < |s| ==> s[j] <= s[ArgMaxSpec(s)]
    ensures forall j :: 0 <= j < ArgMaxSpec(s) ==> s[j] < s[ArgMaxSpec(s)]
    decreases |s|
  {
    if |s| > 1 {
      var s' := s[..|s| - 1];
      ArgMaxIsFirstMax(s');
      assert forall j :: 0 <= j < |s'| ==> s'[j] == s[j];
    }
  }

  /** `argmax`: `best` starts at 0 and the running value at negative infinity (`None`). */
  method ArgMax(arr: seq<real>) returns (best: nat)
    ensures best == ArgMaxSpec(arr)
  {
    best := 0;
    var bestVal: Option<real> := None;
    for i := 0 to |arr|
      invariant i == 0 ==> best == 0 && bestVal.None?
      invariant i > 0 ==> best == ArgMaxSpec(arr[..i]) && best < i && bestVal == Some(arr[best])
    {
      assert arr[..i + 1][..i] == arr[..i];
      if bestVal.None? || arr[i] > bestVal.value {
        bestVal := Some(arr[i]);
        best := i;
      }
    }
    assert arr[..|arr|] == arr;
  }

  // ---------------------------------------------------------------------------
  // detect
  // ---------------------------------------------------------------------------

  /** The class count a model reports: the second dimension of its output shape, 2 if the shape has fewer. */
  function ClassesOf(shape: seq<int>): int
  {
    if |shape| >= 2 then shape[1] else 2
  }

  /** The smaller of the two models' class counts. */
  function ClassCount(shape27: seq<int>, shape40: seq<int>): (n: int)
    ensures n <= ClassesOf(shape27) && n <= ClassesOf(shape40)
    ensures n == ClassesOf(shape27) || n == ClassesOf(shape40)
  {
    var c27, c40 := ClassesOf(shape27), ClassesOf(shape40);
    if c27 <= c40 then c27 else c40
  }

  /**
   * The class-by-class mean of the two models' probabilities: each entry lies between the two
   * models' values, and two models that agree average to their common vector.
   */
  function Average(s27: seq<real>, s40: seq<real>): (avg: seq<real>)
    requires |s27| == |s40|
    ensures |avg| == |s27|
    ensures forall i :: 0 <= i < |avg| ==> (s27[i] <= avg[i] <= s40[i]) || (s40[i] <= avg[i] <= s27[i])
    ensures s27 == s40 ==> avg == s27
  {
    seq(|s27|, i requires 0 <= i < |s27| => (s27[i] + s40[i]) / 2.0)
  }

  /** The interpreter fills an output array of `classCount` floats. */
  predicate OutputsFit(shape27: seq<int>, shape40: seq<int>, raw27: seq<real>, raw40: seq<real>)
  {
    ClassCount(shape27, shape40) >= 2 ==>
      |raw27| == ClassCount(shape27, shape40) && |raw40| == ClassCount(shape27, shape40)
  }

  /**
   * What `detect` returns for the two raw outputs. `None` is a throw: the `require` on fewer than
   * two classes, or, when the two models report different class counts, the interpreter's `run`,
   * which refuses to copy an output tensor into an array of the other (minimum) width.
   */
  function DetectSpec(shape27: seq<int>, shape40: seq<int>, raw27: seq<real>, raw40: seq<real>,
                      liveIndex: int, exp: real -> real): (r: Option<SpoofResult>)
    requires OutputsFit(shape27, shape40, raw27, raw40)
    ensures r.None? <==> ClassesOf(shape27) < 2 || ClassesOf(shape40) < 2 || ClassesOf(shape27) != ClassesOf(shape40)
    ensures r.Some? ==> r.value.classCount == ClassesOf(shape27) == ClassesOf(shape40)
  {
    var classCount := ClassCount(shape27, shape40);
    if classCount < 2 then None
    else if ClassesOf(shape27) != ClassesOf(shape40) then None
    else Some(Decision(Average(SoftmaxSpec(raw27, exp), SoftmaxSpec(raw40, exp)), classCount, liveIndex))
  }

  /** The result read off the averaged probabilities: label, live flag and the two scores. */
  function Decision(avg: seq<real>, classCount: int, liveIndex: int): SpoofResult
  {
    var top := ArgMaxSpec(avg);
    var liveScore := if 0 <= liveIndex < |avg| then avg[liveIndex] else 0.0;
    var spoofScore := if classCount == 2 then 1.0 - liveScore else SumExcept(avg, liveIndex);
    SpoofResult(top == liveIndex, liveScore, spoofScore, top, classCount, avg)
  }

  /** The tail of `detect` after the average: arg-max, live score and the spoof score's loop. */
  method Decide(avg: seq<real>, classCount: int, liveIndex: int) returns (r: SpoofResult)
    ensures r == Decision(avg, classCount, liveIndex)
  {
    var top := ArgMax(avg);
    var liveScore := if 0 <= liveIndex < |avg| then avg[liveIndex] else 0.0;
    var spoofScore: real;
    if classCount == 2 {
      spoofScore := 1.0 - liveScore;
    } else {
      spoofScore := SpoofSum(avg, liveIndex);
    }
    r := SpoofResult(top == liveIndex, liveScore, spoofScore, top, classCount, avg);
  }

  /** The loop of `detect` that adds up the classes other than `liveIndex`. */
  method SpoofSum(avg: seq<real>, liveIndex: int) returns (s: real)
    ensures s == SumExcept(avg, liveIndex)
  {
    s := 0.0;
    for i := 0 to |avg|
      invariant s == SumExcept(avg[..i], liveIndex)
    {
      assert avg[..i + 1][..i] == avg[..i];
      if i != liveIndex {
        s := s + avg[i];
      }
    }
    assert avg[..|avg|] == avg;
  }

  /** `detect`, from the models' output shapes and raw outputs on. */
  method Detect(shape27: seq<int>, shape40: seq<int>, raw27: seq<real>, raw40: seq<real>,
                liveIndex: int, exp: real -> real) returns (r: Option<SpoofResult>)
    requires OutputsFit(shape27, shape40, raw27, raw40)
    ensures r == DetectSpec(shape27, shape40, raw27, raw40, liveIndex, exp)
  {
    var classes27 := if |shape27| >= 2 then shape27[1] else 2;
    var classes40 := if |shape40| >= 2 then shape40[1] else 2;
    var classCount := if classes27 <= classes40 then classes27 else classes40;
    if classCount < 2 {
      return None;
    }
    if classes27 != classes40 {
      // `run` throws: the output tensor is wider than the `classCount`-wide array
      return None;
    }
    var s27 := Softmax(raw27, exp);
    var s40 := Softmax(raw40, exp);
    var avg := seq(classCount, i requires 0 <= i < classCount => (s27[i] + s40[i]) / 2.0);
    assert avg == Average(s27, s40);
    var d := Decide(avg, classCount, liveIndex);
    r := Some(d);
  }

  // ---------------------------------------------------------------------------
  // Properties of the decision
  // ---------------------------------------------------------------------------

  /**
   * The label is the first class of highest average probability, the result is live exactly when
   * that class is `liveIndex`, and the live score is the average at `liveIndex` (0 when out of range).
   */
  lemma DecisionIsFirstArgMax(shape27: seq<int>, shape40: seq<int>, raw27: seq<real>, raw40: seq<real>,
                              liveIndex: int, exp: real -> real)
    requires OutputsFit(shape27, shape40, raw27, raw40)
    ensures var d := DetectSpec(shape27, shape40, raw27, raw40, liveIndex, exp);
      d.Some? ==> var r := d.value;
      && |r.probsAvg| == r.classCount
      && r.labelIndex < r.classCount
      && (forall j :: 0 <= j < r.classCount ==> r.probsAvg[j] <= r.probsAvg[r.labelIndex])
      && (forall j :: 0 <= j < r.labelIndex ==> r.probsAvg[j] < r.probsAvg[r.labelIndex])
      && (r.isLive <==> r.labelIndex == liveIndex)
      && r.liveScore == (if 0 <= liveIndex < r.classCount then r.probsAvg[liveIndex] else 0.0)
      && (r.isLive ==> forall j :: 0 <= j < r.classCount ==> r.probsAvg[j] <= r.liveScore)
  {
    var d := DetectSpec(shape27, shape40, raw27, raw40, liveIndex, exp);
    if d.Some? {
      ArgMaxIsFirstMax(d.value.probsAvg);
    }
  }

  lemma {:induction false} SumAverage(a: seq<real>, b: seq<real>)
    requires |a| == |b|
    ensures Sum(Average(a, b)) == (Sum(a) + Sum(b)) / 2.0
    decreases |a|
  {
    if |a| > 0 {
      var n := |a| - 1;
      var avg := Average(a, b);
      SumAverage(a[..n], b[..n]);
      assert avg[..n] == Average(a[..n], b[..n]);
      assert Sum(avg) == Sum(avg[..n]) + avg[n];
      assert avg[n] == (a[n] + b[n]) / 2.0;
    }
  }

  /** Leaving one class out of the sum removes exactly that class. */
  lemma {:induction false} SumExceptPlusSkipped(s: seq<real>, skip: int)
    ensures SumExcept(s, skip) + (if 0 <= skip < |s| then s[skip] else 0.0) == Sum(s)
    decreases |s|
  {
    if |s| > 0 {
      var s' := s[..|s| - 1];
      SumExceptPlusSkipped(s', skip);
      if 0 <= skip < |s'| {
        assert s'[skip] == s[skip];
      }
    }
  }

  /**
   * When both softmaxes are distributions (an exponential never negative and positive at 0),
   * the live and spoof scores add up to 1 whatever the class count and whether or not
   * `liveIndex` is in range; each average probability is in [0, 1].
   */
  lemma ScoresAreComplementary(shape27: seq<int>, shape40: seq<int>, raw27: seq<real>, raw40: seq<real>,
                               liveIndex: int, exp: real -> real)
    requires OutputsFit(shape27, shape40, raw27, raw40)
    requires forall x :: exp(x) >= 0.0
    requires exp(0.0) > 0.0
    ensures var d := DetectSpec(shape27, shape40, raw27, raw40, liveIndex, exp);
      d.Some? ==> var r := d.value;
      && Sum(r.probsAvg) == 1.0
      && (forall j :: 0 <= j < r.classCount ==> 0.0 <= r.probsAvg[j] <= 1.0)
      && r.liveScore + r.spoofScore == 1.0
  {
    if DetectSpec(shape27, shape40, raw27, raw40, liveIndex, exp).Some? {
      var s27, s40 := SoftmaxSpec(raw27, exp), SoftmaxSpec(raw40, exp);
      SoftmaxIsDistribution(raw27, exp);
      SoftmaxIsDistribution(raw40, exp);
      SumAverage(s27, s40);
      var avg := Average(s27, s40);
      SumExceptPlusSkipped(avg, liveIndex);
    }
  }

  /** With two classes, a live decision means the live score is at least the spoof score. */
  lemma TwoClassLiveWins(shape27: seq<int>, shape40: seq<int>, raw27: seq<real>, raw40: seq<real>,
                         liveIndex: int, exp: real -> real)
    requires OutputsFit(shape27, shape40, raw27, raw40)
    requires ClassCount(shape27, shape40) == 2
    requires forall x :: exp(x) >= 0.0
    requires exp(0.0) > 0.0
    ensures var d := DetectSpec(shape27, shape40, raw27, raw40, liveIndex, exp);
      d.Some? ==> d.value.isLive ==> d.value.liveScore >= d.value.spoofScore
  {
    var d := DetectSpec(shape27, shape40, raw27, raw40, liveIndex, exp);
    DecisionIsFirstArgMax(shape27, shape40, raw27, raw40, liveIndex, exp);
    ScoresAreComplementary(shape27, shape40, raw27, raw40, liveIndex, exp);
    if d.Some? && d.value.isLive {
      var r := d.value;
      var avg := r.probsAvg;
      assert Sum(avg) == Sum(avg[..1]) + avg[1];
      assert avg[..1][..0] == [];
      assert Sum(avg) == avg[0] + avg[1];
    }
  }
}
