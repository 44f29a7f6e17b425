/**
 * The SDK facade: 1:N identification over stored embeddings, the per-frame
 * analysis with front-camera mirroring, the HD-photo path, the embedding of
 * an already detected face, and `close`.
 *
 * The face detector, the FaceNet interpreter and the liveness detector are
 * parameters: the detector's output is a list of float boxes, FaceNet maps a
 * crop to an embedding or fails (`None` for an exception), and the liveness
 * check maps a frame and a box to a result or fails.
 */
module FaceSdk {
  import opened Wrappers
  import opened Rects
  import opened Scan
  import opened ImageUtils
  import Utilitis
  import SpoofDetector

  /** `FaceNetEngine.embeddingDim`. */
  const EmbeddingDim: nat := 512

  /** The margin every face crop of the SDK takes: 15 %. */
  const Margin: real := 0.15

  /** A decoded camera frame or photo; only its size matters to the geometry. */
  datatype Frame = Frame(width: int, height: int, pixels: seq<int>)

  /** What FaceNet is given: a window of a frame, with the alpha channel cleared (`prepareForEmbedding`) or not. */
  datatype Crop = Crop(frame: Frame, window: Window, prepared: bool)

  /** `CosineResult`: whether the best score reaches the threshold, where it was found, and the score. */
  datatype CosineResult = CosineResult(matched: bool, bestIndex: Option<nat>, score: real)

  /** `FaceSdkResult`. */
  datatype FaceSdkResult = FaceSdkResult(
    name: Option<string>,
    similarity: Option<real>,
    bbox: Rect,
    spoof: Option<SpoofDetector.SpoofResult>,
    embedding: Option<seq<real>>)

  // ---------------------------------------------------------------------------
  // identify
  // ---------------------------------------------------------------------------

  /** Every stored embedding is at least as long as the live one (`cosineSimilarity` indexes by the live one). */
  predicate Comparable(live: seq<real>, gallery: seq<seq<real>>)
  {
    forall i :: 0 <= i < |gallery| ==> |live| <= |gallery[i]|
  }

  function Similarities(live: seq<real>, gallery: seq<seq<real>>): (s: seq<real>)
    requires Comparable(live, gallery)
    ensures |s| == |gallery|
  {
    seq(|gallery|, i requires 0 <= i < |gallery| => Utilitis.Dot(live, gallery[i]))
  }

  /**
   * What `identify` returns: the first best similarity above the start value -1, and its index.
   * An empty gallery gives no index and the score -1, which matches only a threshold of at most -1.
   */
  function IdentifySpec(live: seq<real>, gallery: seq<seq<real>>, threshold: real): (r: CosineResult)
    requires Comparable(live, gallery)
    ensures |gallery| == 0 ==> r == CosineResult(-1.0 >= threshold, None, -1.0)
  {
    var p := Highest(Similarities(live, gallery), -1.0);
    CosineResult(p.value >= threshold, if p.index < 0 then None else Some(p.index as nat), p.value)
  }

  /** `identify`: scans the gallery, keeping a candidate only when it is strictly better. */
  method Identify(live: seq<real>, gallery: seq<seq<real>>, threshold: real) returns (r: CosineResult)
    requires Comparable(live, gallery)
    ensures r == IdentifySpec(live, gallery, threshold)
  {
    ghost var sims := Similarities(live, gallery);
    var bestScore := -1.0;
    var bestIndex: Option<nat> := None;
    for i := 0 to |gallery|
      invariant Highest(sims[..i], -1.0)
             == Pick(if bestIndex.None? then -1 else bestIndex.value, bestScore)
      invariant bestIndex.Some? ==> bestIndex.value < i
    {
      assert sims[..i + 1][..i] == sims[..i];
      var score := Utilitis.CosineSimilarity(live, gallery[i]);
      if score > bestScore {
        bestScore := score;
        bestIndex := Some(i);
      }
    }
    assert sims[..|gallery|] == sims;
    r := CosineResult(bestScore >= threshold, bestIndex, bestScore);
  }

  /**
   * The identification result: a found index holds the first highest similarity, which beats -1;
   * no index means no similarity beats -1 and the score is -1; matched exactly when the score
   * reaches the threshold.
   */
  lemma IdentifyIsFirstBest(live: seq<real>, gallery: seq<seq<real>>, threshold: real)
    requires Comparable(live, gallery)
    ensures var r := IdentifySpec(live, gallery, threshold);
      var sims := Similarities(live, gallery);
      && (r.matched <==> r.score >= threshold)
      && r.score >= -1.0
      && (forall j :: 0 <= j < |gallery| ==> sims[j] <= r.score)
      && (r.bestIndex.Some? ==>
            && r.bestIndex.value < |gallery|
            && sims[r.bestIndex.value] == r.score
            && r.score > -1.0
            && forall j :: 0 <= j < r.bestIndex.value ==> sims[j] < r.score)
      && (r.bestIndex.None? <==> forall j :: 0 <= j < |gallery| ==> sims[j] <= -1.0)
      && (r.bestIndex.None? ==> r.score == -1.0)
  {
    HighestIsFirstMax(Similarities(live, gallery), -1.0);
  }

  // ---------------------------------------------------------------------------
  // analyzeFrame
  // ---------------------------------------------------------------------------

  /** The box shown to the user: mirrored about the frame's width for the front camera. */
  function OverlayBox(bboxReal: Rect, frameWidth: int, isFrontCamera: bool): (b: Rect)
    ensures isFrontCamera ==> MirroredToNonMirrored(b, frameWidth) == bboxReal
    ensures !isFrontCamera ==> b == bboxReal
  {
    if isFrontCamera then
      Rect(frameWidth - bboxReal.right, bboxReal.top, frameWidth - bboxReal.left, bboxReal.bottom)
    else bboxReal
  }

  /** The embedding `analyzeFrame` attaches: FaceNet on the unprepared crop; nothing if the crop or FaceNet fails. */
  function FrameEmbedding(frame: Frame, bboxReal: Rect, faceNet: Crop -> Option<seq<real>>): (e: Option<seq<real>>)
    ensures e.Some? ==> exists w :: SafeCropWithMargin(frame.width, frame.height, bboxReal, Margin) == Cropped(w)
    ensures frame.width < 1 || frame.height < 1 ==> e.None?
  {
    match SafeCropWithMargin(frame.width, frame.height, bboxReal, Margin)
    case Cropped(w) => faceNet(Crop(frame, w, false))
    case _ => None
  }

  /** The result `analyzeFrame` builds for one detection. */
  function DetectionResult(frame: Frame, box: RectF, isFrontCamera: bool, doSpoof: bool, doEmbedding: bool,
                           spoof: (Frame, Rect) -> Option<SpoofDetector.SpoofResult>,
                           faceNet: Crop -> Option<seq<real>>): FaceSdkResult
  {
    var bboxReal := Truncated(box);
    FaceSdkResult(
      None, None,
      OverlayBox(bboxReal, frame.width, isFrontCamera),
      if doSpoof then spoof(frame, bboxReal) else None,
      if doEmbedding then FrameEmbedding(frame, bboxReal, faceNet) else None)
  }

  /** What `analyzeFrame` returns: one result per detection, in detection order. */
  function AnalyzeSpec(frame: Frame, detections: seq<RectF>, isFrontCamera: bool, doSpoof: bool, doEmbedding: bool,
                       spoof: (Frame, Rect) -> Option<SpoofDetector.SpoofResult>,
                       faceNet: Crop -> Option<seq<real>>): (rs: seq<FaceSdkResult>)
    ensures |rs| == |detections|
  {
    seq(|detections|, i requires 0 <= i < |detections| =>
      DetectionResult(frame, detections[i], isFrontCamera, doSpoof, doEmbedding, spoof, faceNet))
  }

  /** One more detection adds its own result at the end. */
  lemma AnalyzeSpecStep(frame: Frame, detections: seq<RectF>, i: nat, isFrontCamera: bool, doSpoof: bool,
                        doEmbedding: bool, spoof: (Frame, Rect) -> Option<SpoofDetector.SpoofResult>,
                        faceNet: Crop -> Option<seq<real>>)
    requires i < |detections|
    ensures AnalyzeSpec(frame, detections[..i + 1], isFrontCamera, doSpoof, doEmbedding, spoof, faceNet)
         == AnalyzeSpec(frame, detections[..i], isFrontCamera, doSpoof, doEmbedding, spoof, faceNet)
            + [DetectionResult(frame, detections[i], isFrontCamera, doSpoof, doEmbedding, spoof, faceNet)]
  {
  }

  /**
   * Every result of `analyzeFrame` carries no name and no similarity; a liveness result only when asked for,
   * an embedding only when asked for; and its box, mirrored back for the front camera, is the detection's
   * box truncated to integers.
   */
  lemma AnalyzeResults(frame: Frame, detections: seq<RectF>, isFrontCamera: bool, doSpoof: bool,
                       doEmbedding: bool, spoof: (Frame, Rect) -> Option<SpoofDetector.SpoofResult>,
                       faceNet: Crop -> Option<seq<real>>, i: nat)
    requires i < |detections|
    ensures var r := AnalyzeSpec(frame, detections, isFrontCamera, doSpoof, doEmbedding, spoof, faceNet)[i];
      && r.name.None? && r.similarity.None?
      && (!doSpoof ==> r.spoof.None?)
      && (!doEmbedding ==> r.embedding.None?)
      && (if isFrontCamera then MirroredToNonMirrored(r.bbox, frame.width) else r.bbox) == Truncated(detections[i])
  {
  }

  /**
   * The mirrored box `analyzeFrame` reports for the front camera, handed back to `getEmbedding`,
   * is cropped exactly where the detection was.
   */
  lemma OverlayBoxCropsDetection(frame: Frame, box: RectF)
    ensures var back := MirroredToNonMirrored(OverlayBox(Truncated(box), frame.width, true), frame.width);
      SafeCropWithMargin(frame.width, frame.height, back, Margin)
        == SafeCropWithMargin(frame.width, frame.height, Truncated(box), Margin)
  {
  }

  // ---------------------------------------------------------------------------
  // getEmbedding / processPhoto
  // ---------------------------------------------------------------------------

  function ZeroEmbedding(): (z: seq<real>)
    ensures |z| == EmbeddingDim && forall i :: 0 <= i < |z| ==> z[i] == 0.0
  {
    seq(EmbeddingDim, _ => 0.0)
  }

  /**
   * `getEmbedding(frame, bboxMirror)`: un-mirror the box, crop with a 15 % margin, clear alpha, run FaceNet.
   * A crop that throws or is null, and a FaceNet failure, all give the zero vector of `EmbeddingDim` entries;
   * otherwise the result is FaceNet's output for the prepared crop of the un-mirrored box.
   */
  function GetEmbedding(frame: Frame, bboxMirror: Rect, faceNet: Crop -> Option<seq<real>>): (e: seq<real>)
    ensures frame.width < 1 || frame.height < 1 ==> e == ZeroEmbedding()
    ensures var c := SafeCropWithMargin(frame.width, frame.height, MirroredToNonMirrored(bboxMirror, frame.width), Margin);
      && (c.Cropped? && faceNet(Crop(frame, c.window, true)).Some? ==> e == faceNet(Crop(frame, c.window, true)).value)
      && (c.Cropped? && faceNet(Crop(frame, c.window, true)).None? ==> e == ZeroEmbedding())
  {
    var nmRect := MirroredToNonMirrored(bboxMirror, frame.width);
    match SafeCropWithMargin(frame.width, frame.height, nmRect, Margin)
    case CropThrows => ZeroEmbedding()
    case NullCrop => ZeroEmbedding()
    case Cropped(w) =>
      match faceNet(Crop(frame, w, true))
      case None => ZeroEmbedding()
      case Some(emb) => emb
  }

  /**
   * `processPhoto(bitmap)`: the first detection, truncated, cropped with a 15 % margin and prepared.
   * No face, a crop that throws or is null, or a FaceNet failure give null.
   */
  function ProcessPhoto(bitmap: Frame, detections: seq<RectF>, faceNet: Crop -> Option<seq<real>>): (r: Option<FaceSdkResult>)
    ensures |detections| == 0 ==> r.None?
    ensures bitmap.width < 1 || bitmap.height < 1 ==> r.None?
    ensures r.Some? ==>
      && |detections| > 0
      && r.value.bbox == Truncated(detections[0])
      && r.value.name.None? && r.value.similarity.None? && r.value.spoof.None?
      && r.value.embedding.Some?
      && var c := SafeCropWithMargin(bitmap.width, bitmap.height, Truncated(detections[0]), Margin);
         c.Cropped? && faceNet(Crop(bitmap, c.window, true)) == r.value.embedding
  {
    if |detections| == 0 then None
    else
      var bbox := Truncated(detections[0]);
      match SafeCropWithMargin(bitmap.width, bitmap.height, bbox, Margin)
      case CropThrows => None
      case NullCrop => None
      case Cropped(w) =>
        match faceNet(Crop(bitmap, w, true))
        case None => None
        case Some(emb) => Some(FaceSdkResult(None, None, bbox, None, Some(emb)))
  }

  /**
   * The two embedding paths agree on a face: `getEmbedding` of the mirrored box that `analyzeFrame`
   * reports and `processPhoto` of the same single detection on the same image both run FaceNet on
   * the same prepared crop.
   */
  lemma EmbeddingPathsAgree(frame: Frame, box: RectF, faceNet: Crop -> Option<seq<real>>)
    requires ProcessPhoto(frame, [box], faceNet).Some?
    ensures GetEmbedding(frame, OverlayBox(Truncated(box), frame.width, true), faceNet)
         == ProcessPhoto(frame, [box], faceNet).value.embedding.value
  {
    OverlayBoxCropsDetection(frame, box);
  }

  // ---------------------------------------------------------------------------
  // The SDK object: lastFrameBitmap, analyzeFrame, close
  // ---------------------------------------------------------------------------

  datatype Backend = Detector | FaceNet | Liveness

  /** One release attempt of `close`, and whether it threw. */
  datatype Release = Release(backend: Backend, threw: bool)

  class FaceSdk {
    /** `lastFrameBitmap`: the last frame `analyzeFrame` converted, null once closed. */
    var lastFrameBitmap: Option<Frame>
    /** The release attempts made so far, in order. */
    var releases: seq<Release>

    constructor ()
      ensures lastFrameBitmap.None? && releases == []
    {
      lastFrameBitmap := None;
      releases := [];
    }

    /**
     * `analyzeFrame`: keeps the converted frame, then builds one result per detection.
     * The backends' outputs for this frame are arguments.
     */
    method AnalyzeFrame(frame: Frame, detections: seq<RectF>, isFrontCamera: bool, doSpoof: bool, doEmbedding: bool,
                        spoof: (Frame, Rect) -> Option<SpoofDetector.SpoofResult>,
                        faceNet: Crop -> Option<seq<real>>) returns (results: seq<FaceSdkResult>)
      modifies this
      ensures lastFrameBitmap == Some(frame)
      ensures releases == old(releases)
      ensures results == AnalyzeSpec(frame, detections, isFrontCamera, doSpoof, doEmbedding, spoof, faceNet)
    {
      lastFrameBitmap := Some(frame);
      if |detections| == 0 {
        return [];
      }
      results := [];
      for i := 0 to |detections|
        invariant results == AnalyzeSpec(frame, detections[..i], isFrontCamera, doSpoof, doEmbedding, spoof, faceNet)
        invariant lastFrameBitmap == Some(frame) && releases == old(releases)
      {
        var d := detections[i];
        var bboxReal := Rect(ToInt(d.left), ToInt(d.top), ToInt(d.right), ToInt(d.bottom));
        var bboxOverlay := if isFrontCamera then
            Rect(frame.width - bboxReal.right, bboxReal.top, frame.width - bboxReal.left, bboxReal.bottom)
          else bboxReal;
        var s: Option<SpoofDetector.SpoofResult> := None;
        var embedding: Option<seq<real>> := None;
        if doSpoof {
          s := spoof(frame, bboxReal);
        }
        if doEmbedding {
          embedding := FrameEmbedding(frame, bboxReal, faceNet);
        }
        assert FaceSdkResult(None, None, bboxOverlay, s, embedding)
            == DetectionResult(frame, d, isFrontCamera, doSpoof, doEmbedding, spoof, faceNet);
        AnalyzeSpecStep(frame, detections, i, isFrontCamera, doSpoof, doEmbedding, spoof, faceNet);
        results := results + [FaceSdkResult(None, None, bboxOverlay, s, embedding)];
      }
      assert detections[..|detections|] == detections;
    }

    /**
     * `close`: tries to release the detector, FaceNet and the liveness models in that order, each in its own
     * try/catch, so a failure in one does not skip the others; then forgets the last frame.
     */
    method Close(detectorThrows: bool, faceNetThrows: bool, livenessThrows: bool)
      modifies this
      ensures releases == old(releases)
        + [Release(Detector, detectorThrows), Release(FaceNet, faceNetThrows), Release(Liveness, livenessThrows)]
      ensures lastFrameBitmap.None?
    {
      releases := releases + [Release(Detector, detectorThrows)];
      releases := releases + [Release(FaceNet, faceNetThrows)];
      releases := releases + [Release(Liveness, livenessThrows)];
      lastFrameBitmap := None;
    }
  }
}
