/**
 * The live identification screen: detections of each frame are matched to the
 * tracks of the previous frame (by IoU, then by centre distance), every track
 * is relabelled (an embedding is computed only when the face moved and the
 * cooldown allows it), and tracks not seen in this frame disappear.
 *
 * One call of `Tracker.OnFrame` is one run of the frame coroutine, with
 * `now` and `frameCounter` as arguments. `sqrt` is a parameter. A `FaceTrack`
 * is a value: the source mutates only tracks it has just created or copied,
 * so no other reference observes those writes.
 */
module IdentifyLiveScreen {
  import opened Wrappers
  import opened Rects
  import opened Scan
  import ImageUtils
  import FaceSdk

  /** The label of a face that did not match anyone. */
  const Unknown: string := "Desconocido"

  /** The IoU a match must reach in the first pass. */
  const IouAccept: real := 0.3
  /** The squared centre distance a match must stay below in the second pass. */
  const DistAccept: real := 2000.0
  /** `Float.MAX_VALUE`, the start value of the distance pass. */
  const MaxFloat: real := 340282346638528859811704183484516925440.0

  /** The screen's parameters, with the source's defaults in `Defaults`. */
  datatype LiveConfig = LiveConfig(
    matchThreshold: real,
    maxFacesPerFrame: int,
    embedCooldownMs: int,
    labelPersistMs: int,
    labelGraceMs: int,
    movementCenterPx: real,
    movementScaleFrac: real)

  const Defaults := LiveConfig(0.75, 6, 400, 1500, 700, 8.0, 0.12)

  /** The toasts of the screen. */
  datatype Notice =
    | DetectionError(requested: int)  // `take` refused a negative face count: "Error: " and its message

  /** `FaceTrack`. */
  datatype FaceTrack = FaceTrack(
    bboxMirror: Rect,
    lastSeen: int,
    name: Option<string>,
    score: real,
    isLive: bool,
    lockUntil: int,
    lastEmbedAt: int,
    lastEmbedRectMirror: Rect)

  // ---------------------------------------------------------------------------
  // iou / centerDist2
  // ---------------------------------------------------------------------------

  function InterWidth(a: Rect, b: Rect): int { Max(Min(a.right, b.right) - Max(a.left, b.left), 0) }
  function InterHeight(a: Rect, b: Rect): int { Max(Min(a.bottom, b.bottom) - Max(a.top, b.top), 0) }

  /** Area with negative sides counted as 0 (`coerceAtLeast(0)`). */
  function Area(r: Rect): int { Max(r.Width(), 0) * Max(r.Height(), 0) }

  /** `iou`: intersection over union, 0 when the union is not positive; a ratio in [0, 1]. */
  function Iou(a: Rect, b: Rect): (r: real)
    ensures 0.0 <= r <= 1.0
    ensures InterWidth(a, b) == 0 || InterHeight(a, b) == 0 ==> r == 0.0
  {
    var inter := InterWidth(a, b) * InterHeight(a, b);
    var union := Area(a) + Area(b) - inter;
    InterAtMostArea(a, b);
    if union <= 0 then 0.0
    else
      assert inter as real <= union as real;
      DivAtMostOne(inter as real, union as real);
      inter as real / union as real
  }

  lemma ProductMono(a: int, b: int, c: int, d: int)
    requires 0 <= a <= c && 0 <= b <= d
    ensures a * b <= c * d
  {
    assert a * b <= c * b;
    assert c * b <= c * d;
  }

  /** The intersection is never larger than either box's area. */
  lemma InterAtMostArea(a: Rect, b: Rect)
    ensures 0 <= InterWidth(a, b) * InterHeight(a, b) <= Area(a)
    ensures InterWidth(a, b) * InterHeight(a, b) <= Area(b)
  {
    ProductMono(InterWidth(a, b), InterHeight(a, b), Max(a.Width(), 0), Max(a.Height(), 0));
    ProductMono(InterWidth(a, b), InterHeight(a, b), Max(b.Width(), 0), Max(b.Height(), 0));
  }

  lemma IouSymmetric(a: Rect, b: Rect)
    ensures Iou(a, b) == Iou(b, a)
  {
    assert InterWidth(a, b) == InterWidth(b, a) && InterHeight(a, b) == InterHeight(b, a);
  }

  /** A box with positive sides overlaps itself completely. */
  lemma IouSelf(a: Rect)
    requires a.Width() > 0 && a.Height() > 0
    ensures Iou(a, a) == 1.0
  {
    assert InterWidth(a, a) * InterHeight(a, a) == Area(a);
    assert Area(a) > 0 by { ProductMono(1, 1, a.Width(), a.Height()); }
    var r := Area(a) as real;
    assert Area(a) + Area(a) - Area(a) == Area(a);
    assert r / r == 1.0;
  }

  /** `centerDist2`: the squared distance between the two centres. */
  function CenterDist2(a: Rect, b: Rect): (d: real)
    ensures d >= 0.0
    ensures a == b ==> d == 0.0
  {
    var dx := ImageUtils.CentreX(a) - ImageUtils.CentreX(b);
    var dy := ImageUtils.CentreY(a) - ImageUtils.CentreY(b);
    dx * dx + dy * dy
  }

  lemma CenterDist2Symmetric(a: Rect, b: Rect)
    ensures CenterDist2(a, b) == CenterDist2(b, a)
  {
    var dx := ImageUtils.CentreX(a) - ImageUtils.CentreX(b);
    var dy := ImageUtils.CentreY(a) - ImageUtils.CentreY(b);
    assert (-dx) * (-dx) == dx * dx && (-dy) * (-dy) == dy * dy;
  }

  // ---------------------------------------------------------------------------
  // matchToExistingTrack
  // ---------------------------------------------------------------------------

  function Ious(box: Rect, tracks: seq<FaceTrack>): (s: seq<real>)
    ensures |s| == |tracks|
  {
    seq(|tracks|, i requires 0 <= i < |tracks| => Iou(box, tracks[i].bboxMirror))
  }

  function Dists(box: Rect, tracks: seq<FaceTrack>): (s: seq<real>)
    ensures |s| == |tracks|
  {
    seq(|tracks|, i requires 0 <= i < |tracks| => CenterDist2(box, tracks[i].bboxMirror))
  }

  /**
   * What `matchToExistingTrack` returns: the first track of highest IoU when that IoU reaches 0.3,
   * otherwise the first track of least squared centre distance when that is below 2000, otherwise -1.
   */
  function MatchSpec(box: Rect, tracks: seq<FaceTrack>): (m: int)
    ensures -1 <= m < |tracks|
  {
    var p := Highest(Ious(box, tracks), 0.0);
    if p.value >= IouAccept then p.index
    else
      var q := Lowest(Dists(box, tracks), MaxFloat);
      if q.value < DistAccept then q.index else -1
  }

  /** `matchToExistingTrack`: an IoU pass from 0 with `>`, then a distance pass from `Float.MAX_VALUE` with `<`. */
  method MatchToExistingTrack(box: Rect, tracks: seq<FaceTrack>) returns (m: int)
    ensures m == MatchSpec(box, tracks)
  {
    ghost var ious := Ious(box, tracks);
    var best := -1;
    var bestIoU := 0.0;
    for idx := 0 to |tracks|
      invariant Highest(ious[..idx], 0.0) == Pick(best, bestIoU)
    {
      assert ious[..idx + 1][..idx] == ious[..idx];
      var i := Iou(box, tracks[idx].bboxMirror);
      if i > bestIoU {
        bestIoU := i;
        best := idx;
      }
    }
    assert ious[..|tracks|] == ious;
    if bestIoU >= IouAccept {
      return best;
    }
    ghost var dists := Dists(box, tracks);
    var bestIdx := -1;
    var bestD2 := MaxFloat;
    for idx := 0 to |tracks|
      invariant Lowest(dists[..idx], MaxFloat) == Pick(bestIdx, bestD2)
    {
      assert dists[..idx + 1][..idx] == dists[..idx];
      var d2 := CenterDist2(box, tracks[idx].bboxMirror);
      if d2 < bestD2 {
        bestD2 := d2;
        bestIdx := idx;
      }
    }
    assert dists[..|tracks|] == dists;
    m := if bestD2 < DistAccept then bestIdx else -1;
  }

  /**
   * The match, characterised: -1 for no tracks; a match by overlap is the first track of highest IoU,
   * which is at least 0.3; a match by distance happens only when every IoU is below 0.3, and is the
   * first track of least squared centre distance, which is below 2000; -1 otherwise.
   */
  lemma MatchCharacterization(box: Rect, tracks: seq<FaceTrack>)
    ensures var m := MatchSpec(box, tracks);
      var ious, dists := Ious(box, tracks), Dists(box, tracks);
      && (|tracks| == 0 ==> m == -1)
      && (m == -1 <==>
            (forall j :: 0 <= j < |tracks| ==> ious[j] < IouAccept)
            && (forall j :: 0 <= j < |tracks| ==> dists[j] >= DistAccept))
      && ((exists j :: 0 <= j < |tracks| && ious[j] >= IouAccept) ==>
            && 0 <= m
            && (forall j :: 0 <= j < |tracks| ==> ious[j] <= ious[m])
            && (forall j :: 0 <= j < m ==> ious[j] < ious[m]))
      && (0 <= m && ious[m] < IouAccept ==>
            && (forall j :: 0 <= j < |tracks| ==> ious[j] < IouAccept)
            && dists[m] < DistAccept
            && (forall j :: 0 <= j < |tracks| ==> dists[m] <= dists[j])
            && (forall j :: 0 <= j < m ==> dists[m] < dists[j]))
  {
    HighestIsFirstMax(Ious(box, tracks), 0.0);
    LowestIsFirstMin(Dists(box, tracks), MaxFloat);
  }

  // ---------------------------------------------------------------------------
  // shouldComputeEmbedding
  // ---------------------------------------------------------------------------

  /** The distance the face's centre moved since the last embedding (the root of the same square sum as `centerDist2`). */
  function CentreShift(prev: Rect, cur: Rect, sqrt: real -> real): real
  {
    sqrt(CenterDist2(prev, cur))
  }

  function Diagonal(r: Rect, sqrt: real -> real): real
  {
    sqrt((r.Width() * r.Width() + r.Height() * r.Height()) as real)
  }

  /** The relative change of the diagonal, over the old diagonal but at least 1. */
  function ScaleDelta(prev: Rect, cur: Rect, sqrt: real -> real): real
  {
    AbsR(Diagonal(cur, sqrt) - Diagonal(prev, sqrt)) / MaxR(Diagonal(prev, sqrt), 1.0)
  }

  /**
   * `shouldComputeEmbedding`. Within the cooldown, or on an odd frame-plus-offset, nothing is
   * computed whatever the movement; otherwise an embedding is computed exactly when the centre
   * moved far enough or the size changed enough.
   */
  function ShouldComputeEmbedding(t: FaceTrack, now: int, frameCounter: int, perTrackOffset: int,
                                  cooldownMs: int, movementCenterPx: real, movementScaleFrac: real,
                                  sqrt: real -> real): (b: bool)
    ensures now - t.lastEmbedAt < cooldownMs ==> !b
    ensures (frameCounter + perTrackOffset) % 2 == 1 ==> !b
    ensures now - t.lastEmbedAt >= cooldownMs && (frameCounter + perTrackOffset) % 2 == 0 ==>
      (b <==> CentreShift(t.lastEmbedRectMirror, t.bboxMirror, sqrt) >= movementCenterPx
              || ScaleDelta(t.lastEmbedRectMirror, t.bboxMirror, sqrt) >= movementScaleFrac)
  {
    if now - t.lastEmbedAt < cooldownMs then false
    // Kotlin's remainder truncates, Dafny's is Euclidean; both are 0 exactly for even sums
    else if (frameCounter + perTrackOffset) % 2 != 0 then false
    else if CentreShift(t.lastEmbedRectMirror, t.bboxMirror, sqrt) >= movementCenterPx then true
    else ScaleDelta(t.lastEmbedRectMirror, t.bboxMirror, sqrt) >= movementScaleFrac
  }

  lemma SquareMono(x: real, y: real)
    requires 0.0 <= x && 0.0 <= y
    ensures x >= y <==> x * x >= y * y
  {
    if x >= y {
      assert x * x >= x * y >= y * y;
    } else {
      SquareStrict(x, y);
    }
  }

  lemma SquareStrict(x: real, y: real)
    requires 0.0 <= x < y
    ensures x * x < y * y
  {
    var d := y - x;
    assert y * y == x * x + 2.0 * x * d + d * d;
    assert d * d > 0.0;
    assert x * d >= 0.0;
  }

  /**
   * With a true square root, the centre test is a test on the squared distance: the centre moved at least
   * `movementCenterPx` (taken non-negative) exactly when the squared shift is at least its square.
   */
  lemma CentreTestBySquares(prev: Rect, cur: Rect, movementCenterPx: real, sqrt: real -> real)
    requires forall x :: x >= 0.0 ==> sqrt(x) >= 0.0 && sqrt(x) * sqrt(x) == x
    requires movementCenterPx >= 0.0
    ensures CentreShift(prev, cur, sqrt) >= movementCenterPx
        <==> CenterDist2(prev, cur) >= movementCenterPx * movementCenterPx
  {
    var d2 := CenterDist2(prev, cur);
    SquareMono(sqrt(d2), movementCenterPx);
  }

  // ---------------------------------------------------------------------------
  // Matching the detections of a frame to the previous tracks (lines 108-140)
  // ---------------------------------------------------------------------------

  /** `det.spoof?.isLive == true`. */
  function IsLive(det: FaceSdk.FaceSdkResult): bool
  {
    det.spoof.Some? && det.spoof.value.isLive
  }

  /** The track a detection opens when it has no unclaimed match. */
  function Fresh(det: FaceSdk.FaceSdkResult, now: int): FaceTrack
  {
    FaceTrack(det.bbox, now, None, 0.0, IsLive(det), 0, 0, det.bbox)
  }

  /** `prev.copy(bboxMirror = det.bbox, lastSeen = now, isLive = live)`. */
  function Reused(prev: FaceTrack, det: FaceSdk.FaceSdkResult, now: int): FaceTrack
  {
    prev.(bboxMirror := det.bbox, lastSeen := now, isLive := IsLive(det))
  }

  /**
   * The association loop after some detections: the new tracks, the previous track each one continues
   * (-1 for a fresh one), and the `usedPrev` flags.
   */
  datatype Association = Association(tracks: seq<FaceTrack>, origin: seq<int>, used: seq<bool>)

  /** The match `matchToExistingTrack` finds for each detection among the previous tracks. */
  function Matches(dets: seq<FaceSdk.FaceSdkResult>, prev: seq<FaceTrack>): (ms: seq<int>)
    ensures |ms| == |dets|
    ensures forall i :: 0 <= i < |dets| ==> ms[i] == MatchSpec(dets[i].bbox, prev)
  {
    seq(|dets|, i requires 0 <= i < |dets| => MatchSpec(dets[i].bbox, prev))
  }

  /** Every match is -1 or a previous track. */
  predicate ValidMatches(ms: seq<int>, prev: seq<FaceTrack>)
  {
    forall i :: 0 <= i < |ms| ==> -1 <= ms[i] < |prev|
  }

  /** The association loop, for detections whose matches are `ms`. */
  function AssociateBy(dets: seq<FaceSdk.FaceSdkResult>, ms: seq<int>, prev: seq<FaceTrack>, now: int): (a: Association)
    requires |ms| == |dets| && ValidMatches(ms, prev)
    ensures |a.tracks| == |dets| && |a.origin| == |dets| && |a.used| == |prev|
    decreases |dets|
  {
    if |dets| == 0 then Association([], [], seq(|prev|, _ => false))
    else
      var n := |dets| - 1;
      Next(AssociateBy(dets[..n], ms[..n], prev, now), dets[n], ms[n], prev, now)
  }

  /** One detection with match `m`: continue that track if it is unclaimed, otherwise open a fresh one. */
  function Next(a: Association, det: FaceSdk.FaceSdkResult, m: int, prev: seq<FaceTrack>, now: int): (b: Association)
    requires |a.used| == |prev| && -1 <= m < |prev|
    ensures |b.tracks| == |a.tracks| + 1 && |b.origin| == |a.origin| + 1 && |b.used| == |prev|
  {
    if m >= 0 && !a.used[m] then
      Association(a.tracks + [Reused(prev[m], det, now)], a.origin + [m], a.used[m := true])
    else
      Association(a.tracks + [Fresh(det, now)], a.origin + [-1], a.used)
  }

  /** The association of a longer prefix takes one more step. */
  lemma AssociatePrefixStep(dets: seq<FaceSdk.FaceSdkResult>, ms: seq<int>, prev: seq<FaceTrack>, now: int, k: nat)
    requires |ms| == |dets| && ValidMatches(ms, prev) && k < |dets|
    ensures AssociateBy(dets[..k + 1], ms[..k + 1], prev, now)
         == Next(AssociateBy(dets[..k], ms[..k], prev, now), dets[k], ms[k], prev, now)
  {
    assert dets[..k + 1][..k] == dets[..k] && ms[..k + 1][..k] == ms[..k];
  }

  /** The association loop of lines 108-140, each detection matched by `matchToExistingTrack`. */
  function Associate(dets: seq<FaceSdk.FaceSdkResult>, prev: seq<FaceTrack>, now: int): (a: Association)
    ensures |a.tracks| == |dets| && |a.origin| == |dets| && |a.used| == |prev|
  {
    AssociateBy(dets, Matches(dets, prev), prev, now)
  }

  /** What the association promises about detection `i`. */
  ghost predicate AssociatedAt(dets: seq<FaceSdk.FaceSdkResult>, ms: seq<int>, prev: seq<FaceTrack>, now: int,
                               a: Association, i: int)
    requires |a.tracks| == |dets| && |a.origin| == |dets| && |ms| == |dets| && ValidMatches(ms, prev)
    requires 0 <= i < |dets|
  {
    var m := ms[i];
    && (a.origin[i] >= 0 ==>
          a.origin[i] == m && a.tracks[i] == Reused(prev[m], dets[i], now)
          && forall j :: 0 <= j < i ==> a.origin[j] != m)
    && (a.origin[i] < 0 ==>
          a.origin[i] == -1 && a.tracks[i] == Fresh(dets[i], now)
          && (m < 0 || exists j :: 0 <= j < i && a.origin[j] == m))
  }

  ghost predicate UsedMeansClaimed(prev: seq<FaceTrack>, a: Association)
    requires |a.used| == |prev|
  {
    forall k :: 0 <= k < |prev| ==> (a.used[k] <==> exists i :: 0 <= i < |a.origin| && a.origin[i] == k)
  }

  /**
   * Every detection continues its match if no earlier detection claimed it, and opens a fresh track
   * otherwise; so a previous track is continued by at most one detection, and `usedPrev` marks exactly
   * the previous tracks that were continued.
   */
  lemma {:induction false} AssociationFacts(dets: seq<FaceSdk.FaceSdkResult>, ms: seq<int>, prev: seq<FaceTrack>, now: int)
    requires |ms| == |dets| && ValidMatches(ms, prev)
    ensures var a := AssociateBy(dets, ms, prev, now);
      && (forall i :: 0 <= i < |dets| ==> AssociatedAt(dets, ms, prev, now, a, i))
      && UsedMeansClaimed(prev, a)
    decreases |dets|
  {
    if |dets| > 0 {
      var n := |dets| - 1;
      AssociationFacts(dets[..n], ms[..n], prev, now);
      var a := AssociateBy(dets, ms, prev, now);
      forall i | 0 <= i < n
        ensures AssociatedAt(dets, ms, prev, now, a, i)
      {
        EarlierStayAssociated(dets, ms, prev, now, i);
      }
      LastIsAssociated(dets, ms, prev, now);
      UsedStaysClaimed(dets, ms, prev, now);
    }
  }

  /** The step of `AssociateBy` keeps what the shorter list gave. */
  lemma AssociateStep(dets: seq<FaceSdk.FaceSdkResult>, ms: seq<int>, prev: seq<FaceTrack>, now: int)
    requires |ms| == |dets| && ValidMatches(ms, prev) && |dets| > 0
    ensures var n := |dets| - 1;
      var a, a' := AssociateBy(dets, ms, prev, now), AssociateBy(dets[..n], ms[..n], prev, now);
      forall j :: 0 <= j < n ==> a.origin[j] == a'.origin[j] && a.tracks[j] == a'.tracks[j]
  {
  }

  lemma EarlierStayAssociated(dets: seq<FaceSdk.FaceSdkResult>, ms: seq<int>, prev: seq<FaceTrack>, now: int, i: int)
    requires |ms| == |dets| && ValidMatches(ms, prev)
    requires 0 <= i < |dets| - 1
    requires AssociatedAt(dets[..|dets| - 1], ms[..|dets| - 1], prev, now,
                          AssociateBy(dets[..|dets| - 1], ms[..|dets| - 1], prev, now), i)
    ensures AssociatedAt(dets, ms, prev, now, AssociateBy(dets, ms, prev, now), i)
  {
    var n := |dets| - 1;
    AssociateStep(dets, ms, prev, now);
    assert dets[i] == dets[..n][i] && ms[i] == ms[..n][i];
  }

  lemma LastIsAssociated(dets: seq<FaceSdk.FaceSdkResult>, ms: seq<int>, prev: seq<FaceTrack>, now: int)
    requires |ms| == |dets| && ValidMatches(ms, prev) && |dets| > 0
    requires UsedMeansClaimed(prev, AssociateBy(dets[..|dets| - 1], ms[..|dets| - 1], prev, now))
    ensures AssociatedAt(dets, ms, prev, now, AssociateBy(dets, ms, prev, now), |dets| - 1)
  {
    var n := |dets| - 1;
    AssociateStep(dets, ms, prev, now);
    var a, a' := AssociateBy(dets, ms, prev, now), AssociateBy(dets[..n], ms[..n], prev, now);
    var m := ms[n];
    assert forall j :: 0 <= j < n ==> a.origin[j] == a'.origin[j];
    if m >= 0 && a'.used[m] {
      var j :| 0 <= j < |a'.origin| && a'.origin[j] == m;
      assert a.origin[j] == m;
    }
  }

  lemma UsedStaysClaimed(dets: seq<FaceSdk.FaceSdkResult>, ms: seq<int>, prev: seq<FaceTrack>, now: int)
    requires |ms| == |dets| && ValidMatches(ms, prev) && |dets| > 0
    requires UsedMeansClaimed(prev, AssociateBy(dets[..|dets| - 1], ms[..|dets| - 1], prev, now))
    ensures UsedMeansClaimed(prev, AssociateBy(dets, ms, prev, now))
  {
    var n := |dets| - 1;
    AssociateStep(dets, ms, prev, now);
    var a, a' := AssociateBy(dets, ms, prev, now), AssociateBy(dets[..n], ms[..n], prev, now);
    forall k | 0 <= k < |prev|
      ensures a.used[k] <==> exists i :: 0 <= i < |a.origin| && a.origin[i] == k
    {
      if a.used[k] && !a'.used[k] {
        assert a.origin[n] == k;
      } else if a'.used[k] {
        var i :| 0 <= i < |a'.origin| && a'.origin[i] == k;
        assert a.origin[i] == k;
      }
      if exists i :: 0 <= i < |a.origin| && a.origin[i] == k {
        var i :| 0 <= i < |a.origin| && a.origin[i] == k;
        if i < n {
          assert a'.origin[i] == k;
        }
      }
    }
  }

  /**
   * In a frame's association, a detection continues the track `matchToExistingTrack` found for it
   * unless an earlier detection claimed that track, and then opens a fresh track (there is no
   * second-best choice); no two new tracks continue the same previous track.
   */
  lemma ReuseIsInjective(dets: seq<FaceSdk.FaceSdkResult>, prev: seq<FaceTrack>, now: int, i: int, j: int)
    requires 0 <= i < j < |dets|
    ensures var a := Associate(dets, prev, now);
      var m := MatchSpec(dets[j].bbox, prev);
      && (a.origin[j] >= 0 ==> a.origin[j] == m && a.origin[i] != a.origin[j])
      && (m >= 0 && a.origin[i] == m ==> a.origin[j] == -1 && a.tracks[j] == Fresh(dets[j], now))
  {
    var ms := Matches(dets, prev);
    AssociationFacts(dets, ms, prev, now);
    var a := Associate(dets, prev, now);
    assert AssociatedAt(dets, ms, prev, now, a, j);
  }

  // ---------------------------------------------------------------------------
  // Labelling (lines 143-196)
  // ---------------------------------------------------------------------------

  /** What one frame's labelling step reads besides the track. */
  datatype LabelContext = LabelContext(
    now: int,
    frameCounter: int,
    cfg: LiveConfig,
    users: seq<string>,
    gallery: seq<seq<real>>,
    lastFrame: Option<FaceSdk.Frame>,
    faceNet: FaceSdk.Crop -> Option<seq<real>>,
    sqrt: real -> real)

  /** The branch condition of line 155. */
  predicate ComputesEmbedding(t: FaceTrack, idx: int, c: LabelContext)
    ensures ComputesEmbedding(t, idx, c) ==>
      && t.isLive && c.now > t.lockUntil
      && c.now - t.lastEmbedAt >= c.cfg.embedCooldownMs && (c.frameCounter + idx) % 2 == 0
  {
    && t.isLive
    && ShouldComputeEmbedding(t, c.now, c.frameCounter, idx, c.cfg.embedCooldownMs,
                              c.cfg.movementCenterPx, c.cfg.movementScaleFrac, c.sqrt)
    && c.now > t.lockUntil
  }

  /**
   * The embedding-and-identify branch; an exception inside the try leaves the track as it was.
   * A match names the track after the best user, with that score and a lock of `labelPersistMs`;
   * once the lock has expired (the only case in which the branch runs) a completed non-match
   * always sets the unknown label with score 0, so the "keep the label while locked" branch is
   * never taken; both record the embedding time and box.
   */
  function Relabel(t: FaceTrack, frame: FaceSdk.Frame, c: LabelContext): (u: FaceTrack)
    ensures u.bboxMirror == t.bboxMirror && u.lastSeen == t.lastSeen && u.isLive == t.isLive
    ensures var emb := FaceSdk.GetEmbedding(frame, t.bboxMirror, c.faceNet);
      !FaceSdk.Comparable(emb, c.gallery) ==> u == t
    ensures var emb := FaceSdk.GetEmbedding(frame, t.bboxMirror, c.faceNet);
      FaceSdk.Comparable(emb, c.gallery) ==>
      var res := FaceSdk.IdentifySpec(emb, c.gallery, c.cfg.matchThreshold);
      && (res.matched && (res.bestIndex.None? || res.bestIndex.value >= |c.users|) ==> u == t)
      && (res.matched && res.bestIndex.Some? && res.bestIndex.value < |c.users| ==>
            && u.name == Some(c.users[res.bestIndex.value]) && u.score == res.score
            && u.lockUntil == c.now + c.cfg.labelPersistMs
            && u.lastEmbedAt == c.now && u.lastEmbedRectMirror == t.bboxMirror)
      && (!res.matched ==>
            && u.lockUntil == t.lockUntil
            && u.lastEmbedAt == c.now && u.lastEmbedRectMirror == t.bboxMirror
            && (c.now < t.lockUntil ==> u.name == t.name && u.score == t.score)
            && (c.now >= t.lockUntil ==> u.name == Some(Unknown) && u.score == 0.0))
  {
    var emb := FaceSdk.GetEmbedding(frame, t.bboxMirror, c.faceNet);
    // cosineSimilarity indexes every stored vector by the live one: a shorter one throws
    if !FaceSdk.Comparable(emb, c.gallery) then t
    else
      var res := FaceSdk.IdentifySpec(emb, c.gallery, c.cfg.matchThreshold);
      if res.matched then
        // `users[res.bestIndex!!]` throws on a null index or one past the user list
        if res.bestIndex.None? || res.bestIndex.value >= |c.users| then t
        else
          t.(name := Some(c.users[res.bestIndex.value]), score := res.score,
             lockUntil := c.now + c.cfg.labelPersistMs,
             lastEmbedAt := c.now, lastEmbedRectMirror := t.bboxMirror)
      else
        var kept := if c.now < t.lockUntil then t else t.(name := Some(Unknown), score := 0.0);
        kept.(lastEmbedAt := c.now, lastEmbedRectMirror := t.bboxMirror)
  }

  /**
   * The body of the labelling loop for the track at position `idx`. Labelling never moves a
   * track: its box, its last sighting and its liveness stay. A non-live track is reset to the
   * unknown label, score 0 and no lock. The grace branch extends the lock to
   * `lastEmbedAt + labelGraceMs`, which lies in the future.
   */
  function Label(t: FaceTrack, idx: int, c: LabelContext): (u: FaceTrack)
    ensures u.bboxMirror == t.bboxMirror && u.lastSeen == t.lastSeen && u.isLive == t.isLive
    ensures !t.isLive ==>
      u.name == Some(Unknown) && u.score == 0.0 && u.lockUntil == 0
      && u.lastEmbedAt == t.lastEmbedAt && u.lastEmbedRectMirror == t.lastEmbedRectMirror
    ensures ComputesEmbedding(t, idx, c) ==>
      u == if c.lastFrame.None? then t else Relabel(t, c.lastFrame.value, c)
    ensures && !ComputesEmbedding(t, idx, c) && t.isLive
            && t.name.Some? && t.name.value != Unknown
            && c.now > t.lockUntil && c.now - t.lastEmbedAt < c.cfg.labelGraceMs ==>
      u == t.(lockUntil := t.lastEmbedAt + c.cfg.labelGraceMs) && u.lockUntil > c.now
    ensures && !ComputesEmbedding(t, idx, c) && t.isLive
            && !(&& t.name.Some? && t.name.value != Unknown
                 && c.now > t.lockUntil && c.now - t.lastEmbedAt < c.cfg.labelGraceMs) ==>
      u == t
  {
    if ComputesEmbedding(t, idx, c) then
      match c.lastFrame
      case None => t
      case Some(frame) => Relabel(t, frame, c)
    else if !t.isLive then t.(name := Some(Unknown), score := 0.0, lockUntil := 0)
    else if t.name.Some? && t.name.value != Unknown && c.now > t.lockUntil && c.now - t.lastEmbedAt < c.cfg.labelGraceMs then
      t.(lockUntil := c.now + (c.cfg.labelGraceMs - (c.now - t.lastEmbedAt)))
    else t
  }

  /**
   * On the embedding path of the labelling loop the lock has expired, so a completed
   * identification that does not match always clears the label to the unknown name with
   * score 0: the "keep the previous label" branch of line 173 is never taken there.
   */
  lemma UnmatchedEmbeddingClearsLabel(t: FaceTrack, idx: int, c: LabelContext)
    requires ComputesEmbedding(t, idx, c) && c.lastFrame.Some?
    requires var emb := FaceSdk.GetEmbedding(c.lastFrame.value, t.bboxMirror, c.faceNet);
      && FaceSdk.Comparable(emb, c.gallery)
      && !FaceSdk.IdentifySpec(emb, c.gallery, c.cfg.matchThreshold).matched
    ensures var u := Label(t, idx, c);
      && u.name == Some(Unknown) && u.score == 0.0 && u.lockUntil == t.lockUntil
      && u.lastEmbedAt == c.now
  {
  }

  /** The labelling loop over all tracks; no track moves. */
  function LabelAll(ts: seq<FaceTrack>, c: LabelContext): (r: seq<FaceTrack>)
    ensures |r| == |ts|
    ensures forall i :: 0 <= i < |ts| ==>
      r[i].bboxMirror == ts[i].bboxMirror && r[i].lastSeen == ts[i].lastSeen && r[i].isLive == ts[i].isLive
  {
    seq(|ts|, i requires 0 <= i < |ts| => Label(ts[i], i, c))
  }

  /** After an embedding at `now`, none is computed again for the same track within the cooldown. */
  lemma CooldownBlocksNext(t: FaceTrack, frame: FaceSdk.Frame, c: LabelContext, later: int, idx: int)
    requires c.cfg.embedCooldownMs > 0
    requires Relabel(t, frame, c) != t
    requires c.now <= later < c.now + c.cfg.embedCooldownMs
    ensures !ShouldComputeEmbedding(Relabel(t, frame, c), later, c.frameCounter, idx,
                                    c.cfg.embedCooldownMs, c.cfg.movementCenterPx, c.cfg.movementScaleFrac, c.sqrt)
  {
    assert Relabel(t, frame, c).lastEmbedAt == c.now;
  }

  // ---------------------------------------------------------------------------
  // The whole frame (lines 104-216)
  // ---------------------------------------------------------------------------

  /** `1000L.coerceAtLeast(labelPersistMs)`. */
  function ExpireMs(cfg: LiveConfig): int { Max(1000, cfg.labelPersistMs) }

  /** `filter { now - it.lastSeen <= expireMs }`. */
  function Pruned(ts: seq<FaceTrack>, now: int, expireMs: int): (r: seq<FaceTrack>)
    ensures |r| <= |ts|
    decreases |ts|
  {
    if |ts| == 0 then []
    else
      var rest := Pruned(ts[..|ts| - 1], now, expireMs);
      if now - ts[|ts| - 1].lastSeen <= expireMs then rest + [ts[|ts| - 1]] else rest
  }

  /** Tracks seen in this very frame all survive a non-negative expiry. */
  lemma {:induction false} PruneKeepsCurrent(ts: seq<FaceTrack>, now: int, expireMs: int)
    requires expireMs >= 0
    requires forall i :: 0 <= i < |ts| ==> ts[i].lastSeen == now
    ensures Pruned(ts, now, expireMs) == ts
    decreases |ts|
  {
    if |ts| > 0 {
      PruneKeepsCurrent(ts[..|ts| - 1], now, expireMs);
      assert ts[..|ts| - 1] + [ts[|ts| - 1]] == ts;
    }
  }

  /** The tracks after one frame; a negative face limit makes `take` throw and the frame changes nothing. */
  function FrameTracks(prev: seq<FaceTrack>, results: seq<FaceSdk.FaceSdkResult>, c: LabelContext): (r: seq<FaceTrack>)
    ensures c.cfg.maxFacesPerFrame < 0 ==> r == prev
    ensures c.cfg.maxFacesPerFrame >= 0 ==> |r| <= Min(|results|, c.cfg.maxFacesPerFrame)
  {
    if c.cfg.maxFacesPerFrame < 0 then prev
    else
      var limited := results[..Min(|results|, c.cfg.maxFacesPerFrame)];
      var updated := Associate(limited, prev, c.now).tracks;
      var labelled := if |c.users| > 0 then LabelAll(updated, c) else updated;
      Pruned(labelled, c.now, ExpireMs(c.cfg))
  }

  /**
   * After a frame there is one track per detection kept, at most `maxFacesPerFrame` of them, in detection
   * order, each at its detection's box, seen now, with the detection's liveness; previous tracks that no
   * detection continued are gone, and the expiry filter removes nothing.
   */
  lemma FrameTracksShape(prev: seq<FaceTrack>, results: seq<FaceSdk.FaceSdkResult>, c: LabelContext)
    requires c.cfg.maxFacesPerFrame >= 0
    ensures var ts := FrameTracks(prev, results, c);
      && |ts| == Min(|results|, c.cfg.maxFacesPerFrame)
      && forall i :: 0 <= i < |ts| ==>
           ts[i].bboxMirror == results[i].bbox && ts[i].lastSeen == c.now && ts[i].isLive == IsLive(results[i])
  {
    var limited := results[..Min(|results|, c.cfg.maxFacesPerFrame)];
    var updated := Associate(limited, prev, c.now).tracks;
    AssociatedPlaced(limited, prev, c.now);
    var labelled := if |c.users| > 0 then LabelAll(updated, c) else updated;
    PruneKeepsCurrent(labelled, c.now, ExpireMs(c.cfg));
    assert FrameTracks(prev, results, c) == labelled;
  }

  /** Every associated track sits at its detection's box, seen now, with the detection's liveness. */
  lemma AssociatedPlaced(dets: seq<FaceSdk.FaceSdkResult>, prev: seq<FaceTrack>, now: int)
    ensures var ts := Associate(dets, prev, now).tracks;
      forall i :: 0 <= i < |ts| ==> ts[i].bboxMirror == dets[i].bbox && ts[i].lastSeen == now && ts[i].isLive == IsLive(dets[i])
  {
    var ms := Matches(dets, prev);
    var a := Associate(dets, prev, now);
    AssociationFacts(dets, ms, prev, now);
    forall i | 0 <= i < |dets|
      ensures a.tracks[i].bboxMirror == dets[i].bbox && a.tracks[i].lastSeen == now && a.tracks[i].isLive == IsLive(dets[i])
    {
      assert AssociatedAt(dets, ms, prev, now, a, i);
    }
  }

  /** The overlay tag of a track: a name with its score, or the plain label. */
  datatype TagText = Scored(name: string, score: real) | Plain(text: string)

  datatype LiveTag = LiveTag(rect: RectF, text: TagText, isLive: bool)

  /**
   * The tag drawn for a track: its box and liveness, and the name with its score only for a track
   * named after a user with a positive score; otherwise the bare name, "Desconocido" for none.
   */
  function TagOf(t: FaceTrack): (tag: LiveTag)
    ensures tag.rect == ToRectF(t.bboxMirror) && tag.isLive == t.isLive
    ensures tag.text.Scored? <==> t.name.Some? && t.name.value != Unknown && t.score > 0.0
    ensures tag.text.Scored? ==> tag.text.name == t.name.value && tag.text.score == t.score
    ensures tag.text.Plain? ==> tag.text.text == if t.name.Some? then t.name.value else Unknown
  {
    var text := if t.name.Some? && t.name.value != Unknown && t.score > 0.0 then Scored(t.name.value, t.score)
                else Plain(t.name.GetOr(Unknown));
    LiveTag(ToRectF(t.bboxMirror), text, t.isLive)
  }

  function TagsOf(ts: seq<FaceTrack>): (tags: seq<LiveTag>)
    ensures |tags| == |ts|
    ensures forall i :: 0 <= i < |ts| ==> tags[i].rect == ToRectF(ts[i].bboxMirror) && tags[i].isLive == ts[i].isLive
  {
    seq(|ts|, i requires 0 <= i < |ts| => TagOf(ts[i]))
  }

  /** The screen's state: `faceTracks` and the tags drawn over the preview. */
  class Tracker {
    var faceTracks: seq<FaceTrack>
    var tags: seq<LiveTag>
    /** The toasts shown so far, oldest first. */
    var notices: seq<Notice>

    constructor ()
      ensures faceTracks == [] && tags == [] && notices == []
    {
      faceTracks := [];
      tags := [];
      notices := [];
    }

    /** The body of the labelling loop, with `identify` run as the SDK runs it. */
    static method LabelTrack(t: FaceTrack, idx: int, c: LabelContext) returns (u: FaceTrack)
      ensures u == Label(t, idx, c)
    {
      u := t;
      if ComputesEmbedding(t, idx, c) {
        if c.lastFrame.None? {
          return;
        }
        var emb := FaceSdk.GetEmbedding(c.lastFrame.value, t.bboxMirror, c.faceNet);
        if !FaceSdk.Comparable(emb, c.gallery) {
          return;
        }
        var res := FaceSdk.Identify(emb, c.gallery, c.cfg.matchThreshold);
        if res.matched {
          if res.bestIndex.None? || res.bestIndex.value >= |c.users| {
            return;
          }
          u := u.(name := Some(c.users[res.bestIndex.value]), score := res.score,
                  lockUntil := c.now + c.cfg.labelPersistMs);
        } else if c.now < t.lockUntil {
        } else {
          u := u.(name := Some(Unknown), score := 0.0);
        }
        u := u.(lastEmbedAt := c.now, lastEmbedRectMirror := t.bboxMirror);
      } else if !t.isLive {
        u := u.(name := Some(Unknown), score := 0.0, lockUntil := 0);
      } else if t.name.Some? && t.name.value != Unknown && c.now > t.lockUntil && c.now - t.lastEmbedAt < c.cfg.labelGraceMs {
        u := u.(lockUntil := c.now + (c.cfg.labelGraceMs - (c.now - t.lastEmbedAt)));
      }
    }

    /** The association loop: `updatedTracks` filled detection by detection, `usedPrev` as a flag array. */
    static method AssociateTracks(limited: seq<FaceSdk.FaceSdkResult>, prev: seq<FaceTrack>, now: int)
      returns (updated: seq<FaceTrack>)
      ensures updated == Associate(limited, prev, now).tracks
    {
      updated := [];
      ghost var ms := Matches(limited, prev);
      ghost var origin: seq<int> := [];
      var usedPrev := new bool[|prev|](_ => false);
      for k := 0 to |limited|
        invariant AssociateBy(limited[..k], ms[..k], prev, now) == Association(updated, origin, usedPrev[..])
      {
        AssociatePrefixStep(limited, ms, prev, now, k);
        ghost var a := Association(updated, origin, usedPrev[..]);
        var det := limited[k];
        var live := det.spoof.Some? && det.spoof.value.isLive;
        var matchIndex := MatchToExistingTrack(det.bbox, prev);
        assert matchIndex == ms[k];
        var track: FaceTrack;
        if matchIndex >= 0 && !usedPrev[matchIndex] {
          usedPrev[matchIndex] := true;
          assert usedPrev[..] == a.used[matchIndex := true];
          track := prev[matchIndex].(bboxMirror := det.bbox, lastSeen := now, isLive := live);
          assert track == Reused(prev[matchIndex], det, now);
          origin := origin + [matchIndex];
        } else {
          track := FaceTrack(det.bbox, now, None, 0.0, live, 0, 0, det.bbox);
          assert track == Fresh(det, now);
          origin := origin + [-1];
        }
        updated := updated + [track];
        assert Association(updated, origin, usedPrev[..]) == Next(a, det, matchIndex, prev, now);
      }
      assert limited[..|limited|] == limited && ms[..|ms|] == ms;
    }

    /** The labelling loop over the new tracks, in place. */
    static method LabelTracks(associated: seq<FaceTrack>, c: LabelContext) returns (updated: seq<FaceTrack>)
      ensures updated == LabelAll(associated, c)
    {
      updated := associated;
      for idx := 0 to |updated|
        invariant |updated| == |associated|
        invariant forall j :: 0 <= j < idx ==> updated[j] == Label(associated[j], j, c)
        invariant forall j :: idx <= j < |updated| ==> updated[j] == associated[j]
      {
        var t := LabelTrack(updated[idx], idx, c);
        updated := updated[idx := t];
      }
    }

    /** One run of the frame coroutine, from the SDK's results for the frame on. */
    method OnFrame(results: seq<FaceSdk.FaceSdkResult>, c: LabelContext)
      modifies this
      ensures faceTracks == FrameTracks(old(faceTracks), results, c)
      ensures tags == if c.cfg.maxFacesPerFrame < 0 then old(tags) else TagsOf(faceTracks)
      ensures notices == old(notices) + if c.cfg.maxFacesPerFrame < 0 then [DetectionError(c.cfg.maxFacesPerFrame)] else []
    {
      if c.cfg.maxFacesPerFrame < 0 {
        // `take` throws before the tracks are touched; the catch shows the error toast
        notices := notices + [DetectionError(c.cfg.maxFacesPerFrame)];
        return;
      }
      var limited := results[..Min(|results|, c.cfg.maxFacesPerFrame)];
      var updated := AssociateTracks(limited, faceTracks, c.now);
      if |c.users| > 0 {
        updated := LabelTracks(updated, c);
      }
      faceTracks := Pruned(updated, c.now, Max(1000, c.cfg.labelPersistMs));
      tags := TagsOf(faceTracks);
    }
  }
}
