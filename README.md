# Face SDK decision logic, modelled in Dafny

This project models the per-frame decision code of an Android face-recognition SDK and its demo
screens. That code sits between the machine-learning models (face detector, FaceNet embedder,
two anti-spoofing networks) and the screen. The project covers:

- **The live identification screen.** It matches each frame's detections to the previous frame's
  tracks, by IoU first and then by centre distance. It claims each previous track at most once.
  It decides per track whether a new embedding is due, and keeps labels with a lock and a grace
  period.
- **The SDK.** This covers the 1:N `identify` argmax over dot products, the front-camera box
  mirroring of `analyzeFrame`, the crop-and-embed paths `getEmbedding` and `processPhoto`, and
  `close`, which releases each backend independently.
- **The liveness ensemble.** This covers `softmax`, the averaging of the two models'
  probabilities, `argmax`, and the live and spoof scores.
- **The guided-capture screens.** The verification, registration and alignment screens share a
  rolling spoof voter and a +2/−3 stable counter. The counter fires once when it saturates. The
  alignment overlay decides whether a face is in the guide.
- **Box utilities and embedding storage.** This covers `mirroredToNonMirrored`, `expandSquare`,
  `safeCropWithMargin`, and the float-array ⇄ base64 packing. The base64 layer is padded standard
  base64 as in section 4 of RFC 4648, without line breaks.

Each source file is one module. The modules have the source file's name (`Utilitis` keeps the
source's spelling). Four helper modules support them:

- `Wrappers`: Option.
- `Rects`: Android `Rect`/`RectF`, Kotlin `toInt`, integer division and `coerceIn`.
- `Scan`: the "first strict improvement" scan shared by `identify` and `matchToExistingTrack`.
- `Base64`.

The source has two styles of code, and the model follows each:

- **Loops.** Each loop in the source is a `method` with a `while`/`for` loop. The method is
  proved equal to a specification function. The properties are then proved about that function.
- **Screen state.** The state a screen mutates is a `class` with the source's fields. Each frame
  callback or tick is a method whose postcondition ties the new state to a step function of the
  old state.

Floats are `real`s. The machine-learning backends, `exp`, `sqrt` and the float ⇄ raw-bits
conversions are function-typed parameters.

Some behaviours of the code are easy to miss, and the model states them as they are:

- **Unmatched tracks.** The code replaces the track list with the tracks of the current frame, so
  an unmatched track disappears at once and the expiry filter removes nothing
  (`IdentifyLiveScreen.FrameTracksShape`).
- **Claimed matches.** The code computes one match per detection and ignores claims. A detection
  whose match an earlier detection already claimed opens a fresh track, with no fallback to
  another track (`IdentifyLiveScreen.ReuseIsInjective`).
- **Track ids.** Tracks have no id field; a track is known only by its position in the list.
- **Face limit.** The code keeps the first `maxFacesPerFrame` detections in detector order.
- **Empty gallery.** `identify` on an empty gallery gives `matched = (-1 >= threshold)`, which is
  true for a threshold of −1 or less (`FaceSdk.IdentifySpec`).
- **Similarity range.** The similarity is a plain dot product, and nothing in the modelled code
  normalises an embedding, so the model does not bound the similarities to [−1, 1].

## Model

| member | source | states |
|---|---|---|
| Rects.ToInt | facesdk/src/main/java/com/dcl/facesdk/utils/ImageUtils.kt:62-69 | `Float.toInt()` rounds toward zero: the result is the integer part of a non-negative value, and minus the integer part of the magnitude of a negative one |
| Rects.CoerceIn | facesdk/src/main/java/com/dcl/facesdk/utils/ImageUtils.kt:72-75 | `coerceIn(lo, hi)` throws exactly when lo > hi; otherwise the result lies in [lo, hi], and a value already in range is returned unchanged |
| Scan.Highest | facesdk/src/main/java/com/dcl/facesdk/FaceSdk.kt:218-224 | the running-best scan returns an index in [-1, \|s\|) |
| Scan.Lowest | app/src/main/java/com/dcl/demo/ui/IdentifyLiveScreen.kt:318-324 | the running-least scan returns an index in [-1, \|s\|) |
| Scan.HighestIsFirstMax | facesdk/src/main/java/com/dcl/facesdk/FaceSdk.kt:218-224 | a strict-`>` scan from a floor finds the first position of the maximum if it beats the floor, and -1 with the floor otherwise; every entry is at most the kept value, and every earlier entry is strictly below it |
| Scan.LowestIsFirstMin | app/src/main/java/com/dcl/demo/ui/IdentifyLiveScreen.kt:318-324 | a strict-`<` scan from a ceiling finds the first position of the minimum if it is below the ceiling, and -1 with the ceiling otherwise |
| Utilitis.CosineSimilarity | facesdk/src/main/java/com/dcl/facesdk/utils/Utilitis.kt:23-27 | the accumulating loop returns Σ a[i]·b[i] over a's indices, for b at least as long as a |
| Utilitis.DotPrefix | facesdk/src/main/java/com/dcl/facesdk/utils/Utilitis.kt:23-27 | entries of b beyond a's length do not affect the similarity |
| Utilitis.DotSymmetric | facesdk/src/main/java/com/dcl/facesdk/utils/Utilitis.kt:23-27 | for vectors of equal length the similarity is symmetric |
| Utilitis.DotSelfNonNegative | facesdk/src/main/java/com/dcl/facesdk/utils/Utilitis.kt:23-27 | the similarity of a vector with itself, a sum of squares, is non-negative |
| Utilitis.WordRoundTrip | facesdk/src/main/java/com/dcl/facesdk/utils/Utilitis.kt:10-19 | four bytes written by `putFloat` in a byte order are read back by `getFloat` in the same order as the same word |
| Utilitis.Pack | facesdk/src/main/java/com/dcl/facesdk/utils/Utilitis.kt:10-11 | the buffer holds exactly 4·size bytes |
| Utilitis.Unpack | facesdk/src/main/java/com/dcl/facesdk/utils/Utilitis.kt:17-19 | `toFloatArray` yields bytes.size / 4 words |
| Utilitis.PackAt | facesdk/src/main/java/com/dcl/facesdk/utils/Utilitis.kt:10-11 | word i occupies bytes 4i to 4i+3 of the buffer |
| Utilitis.UnpackPack | facesdk/src/main/java/com/dcl/facesdk/utils/Utilitis.kt:10-19 | unpacking a packed buffer gives the words back |
| Utilitis.UnpackIgnoresTrailing | facesdk/src/main/java/com/dcl/facesdk/utils/Utilitis.kt:16-19 | fewer than four trailing bytes do not change the decoded words |
| Utilitis.ToBase64 | facesdk/src/main/java/com/dcl/facesdk/utils/Utilitis.kt:9-13 | the buffer-filling loop produces the base64 text of the packed words |
| Utilitis.ToFloatArray | facesdk/src/main/java/com/dcl/facesdk/utils/Utilitis.kt:15-21 | the decoding loop produces the unpacked words of the decoded bytes, and fails exactly when base64 decoding throws |
| Utilitis.PackedLength | facesdk/src/main/java/com/dcl/facesdk/utils/Utilitis.kt:10-12 | the stored text decodes to exactly 4·size bytes, and it is 4·⌈4·size/3⌉ characters long |
| Utilitis.FloatArrayRoundTrip | facesdk/src/main/java/com/dcl/facesdk/utils/Utilitis.kt:10-19 | toFloatArray(toBase64(v)) == v for every word sequence and byte order |
| Base64.Encode | facesdk/src/main/java/com/dcl/facesdk/utils/Utilitis.kt:12 | the encoding's length is a multiple of 4, and it is empty exactly when the input is |
| Base64.Decode | facesdk/src/main/java/com/dcl/facesdk/utils/Utilitis.kt:16 | strict decoding succeeds only on whole groups of four characters, and gives three bytes per group less at most two for padding |
| Base64.PadBitsIgnored | facesdk/src/main/java/com/dcl/facesdk/utils/Utilitis.kt:16 | decoding does not check pad bits: "QR==" decodes to the byte that encodes as "QQ==" |
| Base64.EncodeLength | facesdk/src/main/java/com/dcl/facesdk/utils/Utilitis.kt:12 | padded base64 has 4·⌈n/3⌉ characters |
| Base64.QuadRoundTrip | facesdk/src/main/java/com/dcl/facesdk/utils/Utilitis.kt:12-16 | a full group of three bytes decodes back to itself |
| Base64.DecodeEncode | facesdk/src/main/java/com/dcl/facesdk/utils/Utilitis.kt:12-16 | decode(encode(bytes)) == bytes, padding included |
| Users.Gallery | app/src/main/java/com/dcl/demo/ui/VerifyFaceScreen.kt:241 | `users.map { toFloatArray }`: when it succeeds, one embedding per user in user order, each the decoding of that user's text; it fails exactly when some user's text fails to decode |
| Users.Stored | facesdk/src/main/java/com/dcl/facesdk/utils/Utilitis.kt:9-13 | the stored text of an embedding of n floats has 4·⌈4n/3⌉ characters |
| Users.Loaded | facesdk/src/main/java/com/dcl/facesdk/utils/Utilitis.kt:15-21 | a text loads exactly when it decodes, into one float per four decoded bytes |
| Users.StoredLoads | app/src/main/java/com/dcl/demo/ui/RegisterFaceScreen.kt:184 | an embedding stored as `toBase64` text always loads back through `toFloatArray`, as the floats of its raw bits; so it reads back unchanged when each of its values is the float of its own raw bits |
| Users.GalleryOfStored | app/src/main/java/com/dcl/demo/ui/VerifyFaceScreen.kt:241 | a gallery built from stored records is exactly the list of stored embeddings, when each stored value is the float of its own raw bits |
| ImageUtils.MirroredToNonMirrored | facesdk/src/main/java/com/dcl/facesdk/utils/ImageUtils.kt:110-117 | mirroring keeps top, bottom, width and height, and reflects left and right about the width |
| ImageUtils.MirrorInvolution | facesdk/src/main/java/com/dcl/facesdk/utils/ImageUtils.kt:110-117 | mirroring twice about the same width gives the box back |
| ImageUtils.PaddedSquare | facesdk/src/main/java/com/dcl/facesdk/utils/ImageUtils.kt:62-69 | before clamping, the square's width and height are both trunc(max(w, h)·(1 + padFrac)) |
| ImageUtils.ExpandSquare | facesdk/src/main/java/com/dcl/facesdk/utils/ImageUtils.kt:59-78 | it throws exactly when the image is empty; otherwise 0 ≤ left ≤ imgW − 1, 0 ≤ top ≤ imgH − 1, left < right ≤ imgW and top < bottom ≤ imgH |
| ImageUtils.ExpandSquareKeepsInside | facesdk/src/main/java/com/dcl/facesdk/utils/ImageUtils.kt:62-75 | a padded square that already fits inside the image is returned unclamped |
| ImageUtils.ExpandSquareSteps | facesdk/src/main/java/com/dcl/facesdk/utils/ImageUtils.kt:59-78 | the step-by-step reassignment of left/top/right/bottom computes `expandSquare` |
| ImageUtils.SafeCropWithMargin | facesdk/src/main/java/com/dcl/facesdk/utils/ImageUtils.kt:80-85 | it throws exactly for an empty source and never returns null; its window has w, h ≥ 1, left + w ≤ width and top + h ≤ height, and it is the clamped square |
| SpoofDetector.SoftmaxSpec | facesdk/src/main/java/com/dcl/facesdk/liveness/SpoofDetector.kt:207-220 | softmax keeps the input length |
| SpoofDetector.RunningMax | facesdk/src/main/java/com/dcl/facesdk/liveness/SpoofDetector.kt:208-209 | the first loop of softmax computes the running maximum from negative infinity |
| SpoofDetector.Softmax | facesdk/src/main/java/com/dcl/facesdk/liveness/SpoofDetector.kt:207-220 | the loops compute the shifted exponentials divided by their sum, or all zeros when that sum is 0 |
| SpoofDetector.MaxFromIsMax | facesdk/src/main/java/com/dcl/facesdk/liveness/SpoofDetector.kt:208-209 | the running maximum is absent only for no input; otherwise it is an entry and at least every entry |
| SpoofDetector.SoftmaxIsDistribution | facesdk/src/main/java/com/dcl/facesdk/liveness/SpoofDetector.kt:207-220 | with exp non-negative and positive at 0, every probability lies in [0, 1] and they sum to 1 |
| SpoofDetector.ArgMax | facesdk/src/main/java/com/dcl/facesdk/liveness/SpoofDetector.kt:222-232 | the loop computes the arg-max specification |
| SpoofDetector.ArgMaxSpec | facesdk/src/main/java/com/dcl/facesdk/liveness/SpoofDetector.kt:222-232 | 0 for an empty array; otherwise an index of the array whose value no entry exceeds |
| SpoofDetector.ArgMaxIsFirstMax | facesdk/src/main/java/com/dcl/facesdk/liveness/SpoofDetector.kt:222-232 | for non-empty input, argmax is an index in [0, n) that holds the maximum, and every earlier entry is strictly below it |
| SpoofDetector.ClassCount | facesdk/src/main/java/com/dcl/facesdk/liveness/SpoofDetector.kt:83-90 | the class count is the smaller of the two models' counts, each 2 for a shape with fewer than two dimensions |
| SpoofDetector.Average | facesdk/src/main/java/com/dcl/facesdk/liveness/SpoofDetector.kt:109 | each averaged probability lies between the two models' values, and two equal vectors average to themselves |
| SpoofDetector.DetectSpec | facesdk/src/main/java/com/dcl/facesdk/liveness/SpoofDetector.kt:83-90 | detection fails exactly when either model reports fewer than two classes (the `require`) or the two counts differ (the interpreter's `run` into a minimum-width array); a result carries the common class count |
| SpoofDetector.Decide | facesdk/src/main/java/com/dcl/facesdk/liveness/SpoofDetector.kt:127-137 | after the average, the code computes the decision: label, live flag, live score and spoof score |
| SpoofDetector.SpoofSum | facesdk/src/main/java/com/dcl/facesdk/liveness/SpoofDetector.kt:133-135 | the spoof-score loop sums every class except the live one |
| SpoofDetector.Detect | facesdk/src/main/java/com/dcl/facesdk/liveness/SpoofDetector.kt:83-147 | `detect`, from the two output shapes and raw outputs on, computes its specification, failing on too few or differing class counts |
| SpoofDetector.DecisionIsFirstArgMax | facesdk/src/main/java/com/dcl/facesdk/liveness/SpoofDetector.kt:127-137 | when `detect` returns: the label is the first class of maximal averaged probability; isLive ⇔ label == liveIndex; liveScore is avg[liveIndex], or 0 out of range; a live decision has the largest probability |
| SpoofDetector.SumAverage | facesdk/src/main/java/com/dcl/facesdk/liveness/SpoofDetector.kt:109 | the average's sum is the mean of the two sums |
| SpoofDetector.SumExceptPlusSkipped | facesdk/src/main/java/com/dcl/facesdk/liveness/SpoofDetector.kt:133-135 | the sum without the live class plus the live class is the total |
| SpoofDetector.ScoresAreComplementary | facesdk/src/main/java/com/dcl/facesdk/liveness/SpoofDetector.kt:128-136 | when `detect` returns, the averaged probabilities form a distribution, and liveScore + spoofScore == 1 for every class count |
| SpoofDetector.TwoClassLiveWins | facesdk/src/main/java/com/dcl/facesdk/liveness/SpoofDetector.kt:127-130 | with two classes, a live decision has liveScore ≥ spoofScore |
| FaceSdk.IdentifySpec | facesdk/src/main/java/com/dcl/facesdk/FaceSdk.kt:215-230 | an empty gallery gives no index, score −1 and matched = (−1 ≥ threshold) |
| FaceSdk.Identify | facesdk/src/main/java/com/dcl/facesdk/FaceSdk.kt:209-231 | the scanning loop computes the identify specification |
| FaceSdk.IdentifyIsFirstBest | facesdk/src/main/java/com/dcl/facesdk/FaceSdk.kt:218-227 | matched ⇔ score ≥ threshold; score ≥ every similarity; a present index is valid, holds the score, beats −1, and is the first such; the index is absent exactly when no similarity beats −1, and then the score is −1 |
| FaceSdk.OverlayBox | facesdk/src/main/java/com/dcl/facesdk/FaceSdk.kt:88-95 | the front-camera box mirrors back to the detected box, and the rear-camera box is the detected box |
| FaceSdk.FrameEmbedding | facesdk/src/main/java/com/dcl/facesdk/FaceSdk.kt:125-138 | an embedding exists only if the margin crop succeeded, and never for an empty frame |
| FaceSdk.AnalyzeSpec | facesdk/src/main/java/com/dcl/facesdk/FaceSdk.kt:71-152 | there is one result per detection: none for no detections |
| FaceSdk.AnalyzeResults | facesdk/src/main/java/com/dcl/facesdk/FaceSdk.kt:79-152 | result i has no name and no similarity, no spoof verdict when spoof checks are off, and no embedding when embeddings are off; its box mirrored back (front camera) is detection i truncated |
| FaceSdk.OverlayBoxCropsDetection | facesdk/src/main/java/com/dcl/facesdk/FaceSdk.kt:88-95 | `getEmbedding`'s unmirroring of the reported front-camera box crops where the detection was |
| FaceSdk.ZeroEmbedding | facesdk/src/main/java/com/dcl/facesdk/FaceSdk.kt:262-279 | the fallback is a zero vector of length embeddingDim |
| FaceSdk.GetEmbedding | facesdk/src/main/java/com/dcl/facesdk/FaceSdk.kt:255-280 | an empty frame or a failed FaceNet call gives the zero vector; a successful crop and call give FaceNet's vector for the crop of the unmirrored box |
| FaceSdk.ProcessPhoto | facesdk/src/main/java/com/dcl/facesdk/FaceSdk.kt:158-203 | no face or an empty bitmap gives null; a result holds the first detection truncated, no name, similarity or spoof verdict, and FaceNet's embedding of its margin crop |
| FaceSdk.EmbeddingPathsAgree | facesdk/src/main/java/com/dcl/facesdk/FaceSdk.kt:158-280 | `getEmbedding` of the reported front-camera box and `processPhoto` of the same single face give the same embedding |
| FaceSdk.FaceSdk.constructor | facesdk/src/main/java/com/dcl/facesdk/FaceSdk.kt:48-53 | a new SDK holds no frame and has released nothing |
| FaceSdk.FaceSdk.AnalyzeFrame | facesdk/src/main/java/com/dcl/facesdk/FaceSdk.kt:58-153 | keeps the frame as `lastFrameBitmap` and returns the specification's results, releasing nothing |
| FaceSdk.FaceSdk.Close | facesdk/src/main/java/com/dcl/facesdk/FaceSdk.kt:287-312 | attempts the detector, FaceNet and liveness releases, in that order, whatever each throws, then clears `lastFrameBitmap` |
| IdentifyLiveScreen.InterAtMostArea | app/src/main/java/com/dcl/demo/ui/IdentifyLiveScreen.kt:286-298 | the intersection area is non-negative and at most either box's area |
| IdentifyLiveScreen.Iou | app/src/main/java/com/dcl/demo/ui/IdentifyLiveScreen.kt:286-298 | IoU lies in [0, 1] for every pair of boxes, inverted ones included, and is 0 for boxes that do not overlap |
| IdentifyLiveScreen.IouSymmetric | app/src/main/java/com/dcl/demo/ui/IdentifyLiveScreen.kt:286-298 | IoU is symmetric |
| IdentifyLiveScreen.IouSelf | app/src/main/java/com/dcl/demo/ui/IdentifyLiveScreen.kt:286-298 | a box with positive width and height has IoU 1 with itself |
| IdentifyLiveScreen.CenterDist2 | app/src/main/java/com/dcl/demo/ui/IdentifyLiveScreen.kt:300-308 | the squared centre distance is non-negative and 0 for identical boxes |
| IdentifyLiveScreen.CenterDist2Symmetric | app/src/main/java/com/dcl/demo/ui/IdentifyLiveScreen.kt:300-308 | the squared centre distance is symmetric |
| IdentifyLiveScreen.MatchSpec | app/src/main/java/com/dcl/demo/ui/IdentifyLiveScreen.kt:310-326 | the match lies in [-1, tracks.size) |
| IdentifyLiveScreen.MatchToExistingTrack | app/src/main/java/com/dcl/demo/ui/IdentifyLiveScreen.kt:310-326 | the two scanning loops compute the match specification |
| IdentifyLiveScreen.MatchCharacterization | app/src/main/java/com/dcl/demo/ui/IdentifyLiveScreen.kt:310-326 | −1 for no tracks; the result is −1 exactly when every IoU is below 0.3 and every distance² is at least 2000; if some IoU reaches 0.3, the result is the first track of maximal IoU; otherwise a result is the first track of minimal distance², below 2000 |
| IdentifyLiveScreen.ShouldComputeEmbedding | app/src/main/java/com/dcl/demo/ui/IdentifyLiveScreen.kt:328-355 | false inside the cooldown, false on odd frame-plus-offset whatever the movement, and otherwise true exactly when the centre moved at least movementCenterPx or the diagonal changed by at least movementScaleFrac |
| IdentifyLiveScreen.CentreTestBySquares | app/src/main/java/com/dcl/demo/ui/IdentifyLiveScreen.kt:342-348 | for a true square root, the centre-shift test is the comparison of distance² with the squared threshold |
| IdentifyLiveScreen.Associate | app/src/main/java/com/dcl/demo/ui/IdentifyLiveScreen.kt:108-140 | the association yields one track and one origin per detection, and one `usedPrev` flag per previous track |
| IdentifyLiveScreen.AssociationFacts | app/src/main/java/com/dcl/demo/ui/IdentifyLiveScreen.kt:108-140 | a detection continues its match, with only box, lastSeen and isLive changed, if no earlier detection claimed it, and otherwise opens a fresh track (no name, score 0, no lock, box as last embedding box); `usedPrev` marks exactly the continued previous tracks |
| IdentifyLiveScreen.ReuseIsInjective | app/src/main/java/com/dcl/demo/ui/IdentifyLiveScreen.kt:113-138 | a reused track continues its own match, and no two detections continue the same previous track; a detection whose match an earlier one claimed gets a fresh track, with no second-best fallback |
| IdentifyLiveScreen.Relabel | app/src/main/java/com/dcl/demo/ui/IdentifyLiveScreen.kt:155-184 | relabelling keeps box, lastSeen and isLive; a gallery vector shorter than the live one, or a match whose index is null or past the user list, throws and leaves the track unchanged; otherwise the embedding time and box are recorded, a match takes the best user's name and score with lockUntil = now + labelPersistMs, and a non-match keeps the lock and the label while `now < lockUntil` and otherwise sets "Desconocido" with score 0 |
| IdentifyLiveScreen.Label | app/src/main/java/com/dcl/demo/ui/IdentifyLiveScreen.kt:143-196 | labelling keeps box, lastSeen and isLive; on the embedding branch the track is relabelled when there is a frame and unchanged without one; a non-live track is reset to "Desconocido", 0 and no lock; the grace branch only sets lockUntil = lastEmbedAt + labelGraceMs, which is after now; in every other case the track is unchanged |
| IdentifyLiveScreen.ComputesEmbedding | app/src/main/java/com/dcl/demo/ui/IdentifyLiveScreen.kt:144-155 | an embedding is computed only for a live track whose lock has expired, whose cooldown has elapsed and whose frame parity is even |
| IdentifyLiveScreen.UnmatchedEmbeddingClearsLabel | app/src/main/java/com/dcl/demo/ui/IdentifyLiveScreen.kt:155-184 | on the embedding path a completed identification without a match always clears the label to "Desconocido" with score 0, so the keep-the-label branch is never taken there |
| IdentifyLiveScreen.LabelAll | app/src/main/java/com/dcl/demo/ui/IdentifyLiveScreen.kt:143-196 | the labelling loop keeps the number of tracks and every track's box, lastSeen and isLive |
| IdentifyLiveScreen.CooldownBlocksNext | app/src/main/java/com/dcl/demo/ui/IdentifyLiveScreen.kt:180-181 | after an embedding at `now`, none is computed for that track again within the cooldown |
| IdentifyLiveScreen.Pruned | app/src/main/java/com/dcl/demo/ui/IdentifyLiveScreen.kt:199-201 | the expiry filter never adds tracks |
| IdentifyLiveScreen.PruneKeepsCurrent | app/src/main/java/com/dcl/demo/ui/IdentifyLiveScreen.kt:199-201 | tracks all seen now survive any non-negative expiry |
| IdentifyLiveScreen.FrameTracksShape | app/src/main/java/com/dcl/demo/ui/IdentifyLiveScreen.kt:104-201 | after a frame there are exactly min(results.size, maxFacesPerFrame) tracks, in detection order, each at its detection's box, seen now, with its liveness: unmatched previous tracks are gone and the expiry filter removes nothing |
| IdentifyLiveScreen.FrameTracks | app/src/main/java/com/dcl/demo/ui/IdentifyLiveScreen.kt:104-201 | a negative face limit leaves the previous tracks; otherwise there are at most min(results.size, maxFacesPerFrame) tracks |
| IdentifyLiveScreen.TagOf | app/src/main/java/com/dcl/demo/ui/IdentifyLiveScreen.kt:204-212 | a tag has its track's box and liveness; it shows the name with the score exactly when the track is named after a user with a positive score, and otherwise the bare name, "Desconocido" when there is none |
| IdentifyLiveScreen.TagsOf | app/src/main/java/com/dcl/demo/ui/IdentifyLiveScreen.kt:204-216 | one tag per track, in track order, each at its track's box with its liveness |
| IdentifyLiveScreen.AssociatedPlaced | app/src/main/java/com/dcl/demo/ui/IdentifyLiveScreen.kt:121-138 | every associated track sits at its detection's box, is seen now, and carries the detection's liveness |
| IdentifyLiveScreen.Tracker.constructor | app/src/main/java/com/dcl/demo/ui/IdentifyLiveScreen.kt:263-272 | a new tracker has no tracks, no tags and no toasts |
| IdentifyLiveScreen.Tracker.LabelTrack | app/src/main/java/com/dcl/demo/ui/IdentifyLiveScreen.kt:143-196 | the loop body, which mutates the track's var fields, computes the labelling function |
| IdentifyLiveScreen.Tracker.AssociateTracks | app/src/main/java/com/dcl/demo/ui/IdentifyLiveScreen.kt:108-140 | the loop over detections with the `usedPrev` array computes the association |
| IdentifyLiveScreen.Tracker.LabelTracks | app/src/main/java/com/dcl/demo/ui/IdentifyLiveScreen.kt:143-196 | the labelling loop computes the labelling of every track |
| IdentifyLiveScreen.Tracker.OnFrame | app/src/main/java/com/dcl/demo/ui/IdentifyLiveScreen.kt:104-222 | one frame replaces the tracks by the frame's tracks and the tags by theirs; a negative face limit makes `take` throw, which leaves tracks and tags as they were and shows the error toast |
| CaptureGate.Vote | app/src/main/java/com/dcl/demo/ui/VerifyFaceScreen.kt:89-103 | each frame adds one vote; a total over 30 resets both counters, so the total is then 0; the verdict changes only at such a window decision |
| CaptureGate.Count | app/src/main/java/com/dcl/demo/ui/VerifyFaceScreen.kt:89-94 | a vote count is at most the number of frames |
| CaptureGate.CountsCover | app/src/main/java/com/dcl/demo/ui/VerifyFaceScreen.kt:89-94 | every frame is either a live vote or a spoof vote (a frame without a face counts as spoof) |
| CaptureGate.VotesKeepWindow | app/src/main/java/com/dcl/demo/ui/VerifyFaceScreen.kt:97-103 | the total of both counters stays at most 30 after every frame |
| CaptureGate.QuietVotes | app/src/main/java/com/dcl/demo/ui/VerifyFaceScreen.kt:89-103 | until the window fills, the counters only count and the verdict sticks |
| CaptureGate.WindowDecides | app/src/main/java/com/dcl/demo/ui/VerifyFaceScreen.kt:97-103 | 31 votes from empty counters set the verdict to spoof > 1.5·live on those votes and reset the counters |
| CaptureGate.WindowThreshold | app/src/main/java/com/dcl/demo/ui/VerifyFaceScreen.kt:98 | a full window of 31 votes is a spoof exactly when at most 12 are live |
| CaptureGate.FiveLiveTwentySixSpoof | app/src/main/java/com/dcl/demo/ui/VerifyFaceScreen.kt:97-103 | five live votes and 26 spoof votes give a spoof verdict and reset the counters |
| CaptureGate.Settle | app/src/main/java/com/dcl/demo/ui/VerifyFaceScreen.kt:149-155 | `coerceIn` throws exactly for a negative requirement; otherwise the counter lies in [0, required], and an in-range counter becomes min(c + 2, required) when aligned and max(0, c − 3) when not |
| CaptureGate.Progress | app/src/main/java/com/dcl/demo/ui/VerifyFaceScreen.kt:156 | the progress is undefined (0/0 or a division by zero) exactly for a requirement of 0; it lies in [0, 1] for an in-range counter, and is 1 exactly when the counter is full |
| VerifyFaceScreen.Tick | app/src/main/java/com/dcl/demo/ui/VerifyFaceScreen.kt:147-181 | a tick throws exactly for a negative requirement; otherwise the counter and progress stay in range; it blocks (counter and progress 0, not verifying) exactly when the counter fills under a spoof verdict while idle, and launches exactly when it fills without one, after resetting the counter and setting `verifying`; while verifying, no tick launches or clears `verifying` |
| VerifyFaceScreen.ProcessCapture | app/src/main/java/com/dcl/demo/ui/VerifyFaceScreen.kt:208-260 | the coroutine's early returns compute the outcome toast: no face, no embedding, no users, an exception, a welcome, or not recognised |
| VerifyFaceScreen.Outcome | app/src/main/java/com/dcl/demo/ui/VerifyFaceScreen.kt:208-260 | the no-face, no-embedding and no-users toasts come exactly in their early-return cases; the failure toast comes exactly when a stored text does not decode or a stored vector is shorter than the live one; a welcome names a registered user; the fake-face toast never comes from here |
| VerifyFaceScreen.LoadGallery | app/src/main/java/com/dcl/demo/ui/VerifyFaceScreen.kt:241 | the loop over stored users computes the gallery, failing when one text throws |
| VerifyFaceScreen.WelcomeIsBestMatch | app/src/main/java/com/dcl/demo/ui/VerifyFaceScreen.kt:241-251 | a welcome names the first user of maximal similarity, which reaches the threshold; "not recognised" means no similarity both reaches the threshold and beats −1 |
| VerifyFaceScreen.NoEmbeddingFailure | app/src/main/java/com/dcl/demo/ui/VerifyFaceScreen.kt:221-228 | a `processPhoto` result always has an embedding, so that toast never appears |
| VerifyFaceScreen.RegisteredUserIsWelcomed | app/src/main/java/com/dcl/demo/ui/VerifyFaceScreen.kt:241-251 | a user stored with the photo's embedding, strictly most similar and at or above the threshold, is welcomed by name, when each stored value is the float of its own raw bits |
| VerifyFaceScreen.VerifyFlow.constructor | app/src/main/java/com/dcl/demo/ui/VerifyFaceScreen.kt:46-60 | the screen starts with zero counters, no verdict, progress 0, not verifying, no capture and no toasts |
| VerifyFaceScreen.VerifyFlow.CaptureReady | app/src/main/java/com/dcl/demo/ui/VerifyFaceScreen.kt:75 | the capture becomes available and nothing else changes |
| VerifyFaceScreen.VerifyFlow.OnFrame | app/src/main/java/com/dcl/demo/ui/VerifyFaceScreen.kt:89-103 | the voter moves by one vote of the frame's first face, and nothing else changes |
| VerifyFaceScreen.VerifyFlow.TickOnce | app/src/main/java/com/dcl/demo/ui/VerifyFaceScreen.kt:147-181 | the loop body computes the tick; a block adds the fake-face toast; the voter is untouched |
| VerifyFaceScreen.VerifyFlow.Finish | app/src/main/java/com/dcl/demo/ui/VerifyFaceScreen.kt:171-173 | `onFinish` clears `verifying` after its toast |
| VerifyFaceScreen.VerifyFlow.Verified | app/src/main/java/com/dcl/demo/ui/VerifyFaceScreen.kt:206-260 | a processed capture shows exactly one outcome toast and clears `verifying` |
| RegisterFaceScreen.Tick | app/src/main/java/com/dcl/demo/ui/RegisterFaceScreen.kt:144-207 | the counter stays in [0, 60] and progress in [0, 1]; while verifying the counter is frozen and nothing fires; something fires exactly when the counter fills while idle: a spoof blocks, otherwise a capture starts, or without a camera `verifying` drops back at once; each resets the counter, and only a started capture leaves `verifying` set |
| RegisterFaceScreen.PendingRoundTrip | app/src/main/java/com/dcl/demo/ui/RegisterFaceScreen.kt:180-186 | the pending base64 text reads back as the photo's embedding, when each of its values is the float of its own raw bits |
| RegisterFaceScreen.Pending | app/src/main/java/com/dcl/demo/ui/RegisterFaceScreen.kt:180-186 | there is a pending text exactly when the photo gave a result with an embedding, and its length is that of the embedding's stored text |
| RegisterFaceScreen.ParseLong | app/src/main/java/com/dcl/demo/ui/RegisterFaceScreen.kt:221 | `toLong` accepts only text with a digit, giving a value in the Long range |
| RegisterFaceScreen.DecimalValue | app/src/main/java/com/dcl/demo/ui/RegisterFaceScreen.kt:221 | the decimal digits of a number have that number as their value |
| RegisterFaceScreen.ParseLongRoundTrip | app/src/main/java/com/dcl/demo/ui/RegisterFaceScreen.kt:221 | every Long written in decimal parses back to itself |
| RegisterFaceScreen.ParseLongRejects | app/src/main/java/com/dcl/demo/ui/RegisterFaceScreen.kt:221 | an empty id, a bare sign, or a non-digit after the optional sign throws |
| RegisterFaceScreen.SaveRecord | app/src/main/java/com/dcl/demo/ui/RegisterFaceScreen.kt:217-227 | a saved record keeps the dialog's name, the pending embedding and the creation time |
| RegisterFaceScreen.SavedRecordHoldsPhoto | app/src/main/java/com/dcl/demo/ui/RegisterFaceScreen.kt:219-227 | the record for a decimal id has that id, role 1 and an empty fingerprint, and its embedding reads back as the photo's when each of its values is the float of its own raw bits |
| RegisterFaceScreen.RegisterFlow.constructor | app/src/main/java/com/dcl/demo/ui/RegisterFaceScreen.kt:50-61 | the screen starts with zero counters, no verdict, no pending embedding, no dialog and nothing inserted |
| RegisterFaceScreen.RegisterFlow.CaptureReady | app/src/main/java/com/dcl/demo/ui/RegisterFaceScreen.kt:75 | the capture becomes available and nothing else changes |
| RegisterFaceScreen.RegisterFlow.OnFrame | app/src/main/java/com/dcl/demo/ui/RegisterFaceScreen.kt:93-104 | the voter moves by one vote of the frame's first face, and nothing else changes |
| RegisterFaceScreen.RegisterFlow.TickOnce | app/src/main/java/com/dcl/demo/ui/RegisterFaceScreen.kt:144-207 | the loop body computes the tick; a block adds the fake-face toast |
| RegisterFaceScreen.RegisterFlow.PhotoProcessed | app/src/main/java/com/dcl/demo/ui/RegisterFaceScreen.kt:175-196 | `verifying` becomes false whatever the result; only an embedding sets the pending text and opens the dialog, and otherwise the invalid-face toast is shown |
| RegisterFaceScreen.RegisterFlow.Dismiss | app/src/main/java/com/dcl/demo/ui/RegisterFaceScreen.kt:216 | dismissing closes the dialog and changes nothing else |
| RegisterFaceScreen.RegisterFlow.Save | app/src/main/java/com/dcl/demo/ui/RegisterFaceScreen.kt:217-231 | saving inserts the record when the id is a Long, and always closes the dialog and shows the toast |
| AlignFaceScreen.Tick | app/src/main/java/com/dcl/demo/ui/AlignFaceScreen.kt:90-107 | after every tick the counter lies in [0, 99]; a completed cycle leaves it at 0 |
| AlignFaceScreen.AlignedRun | app/src/main/java/com/dcl/demo/ui/AlignFaceScreen.kt:92-103 | aligned from 0, the counter after k ticks is 2·(k mod 50) |
| AlignFaceScreen.CompletesEveryFifty | app/src/main/java/com/dcl/demo/ui/AlignFaceScreen.kt:92-103 | aligned from 0, a cycle completes on tick k exactly when k is a multiple of 50 |
| AlignFaceScreen.UnalignedRun | app/src/main/java/com/dcl/demo/ui/AlignFaceScreen.kt:95-98 | unaligned, the counter after k ticks is max(0, c − 3k), and no cycle completes |
| AlignFaceScreen.DecaysToZero | app/src/main/java/com/dcl/demo/ui/AlignFaceScreen.kt:95-98 | unaligned, the counter is 0 after ⌈c/3⌉ ticks and stays there |
| AlignFaceScreen.AlignCounter.constructor | app/src/main/java/com/dcl/demo/ui/AlignFaceScreen.kt:33 | the counter starts at 0 |
| AlignFaceScreen.AlignCounter.TickOnce | app/src/main/java/com/dcl/demo/ui/AlignFaceScreen.kt:90-107 | the loop body reassigns the counter as the tick does, and reports a completed cycle |
| AlignFaceOverlay.GuideRect | app/src/main/java/com/dcl/demo/ui/AlignFaceOverlay.kt:37-42 | the guide is 0.60·viewW wide and 1.15 times as tall as wide, horizontally centred, and vertically centred then shifted by offsetYRatio of the height |
| AlignFaceOverlay.PreviewSide | app/src/main/java/com/dcl/demo/ui/AlignFaceOverlay.kt:34-35 | a preview side is at least 1 and at least the reported size |
| AlignFaceOverlay.ScaleCovers | app/src/main/java/com/dcl/demo/ui/AlignFaceOverlay.kt:52-54 | the scale makes the frame cover the preview on both axes and fit it exactly on one |
| AlignFaceOverlay.MapPreservesOrder | app/src/main/java/com/dcl/demo/ui/AlignFaceOverlay.kt:49-61 | mapping to the canvas keeps left ≤ right and top ≤ bottom |
| AlignFaceOverlay.Expanded | app/src/main/java/com/dcl/demo/ui/AlignFaceOverlay.kt:63-68 | the tolerance grows the guide by tolerancePx on every side |
| AlignFaceOverlay.Judge | app/src/main/java/com/dcl/demo/ui/AlignFaceOverlay.kt:44-79 | no face or an empty frame gives not aligned and red; aligned exactly when green |
| AlignFaceOverlay.MapBox | app/src/main/java/com/dcl/demo/ui/AlignFaceOverlay.kt:52-61 | the mapped box's width and height are the detection's, times the frame-to-preview scale and the preview-to-canvas stretch |
| AlignFaceOverlay.Contains | app/src/main/java/com/dcl/demo/ui/AlignFaceOverlay.kt:71 | a contained box lies in a non-empty outer box and is no wider and no taller than it |
| AlignFaceOverlay.SizeOk | app/src/main/java/com/dcl/demo/ui/AlignFaceOverlay.kt:70-72 | on a canvas of positive height the size test holds exactly when the face height lies between the two ratios times the canvas height |
| AlignFaceOverlay.AlignedMeans | app/src/main/java/com/dcl/demo/ui/AlignFaceOverlay.kt:63-79 | aligned ⇔ the mapped box lies in the guide grown by the tolerance and its height / viewH lies in [minSizeRatio, maxSizeRatio]; yellow ⇔ inside but wrongly sized; red ⇔ not inside |
| AlignFaceOverlay.Percent | app/src/main/java/com/dcl/demo/ui/AlignFaceOverlay.kt:100-101 | the shown percentage lies in [0, 100] |
| AlignFaceOverlay.PercentOfCounter | app/src/main/java/com/dcl/demo/ui/AlignFaceOverlay.kt:100-101 | the percentage is min(100, ⌊100·counter / required⌋), and it is 100 exactly when the counter reaches the requirement |

## Left out

- Camera and capture plumbing, bitmap conversion, rotation, EXIF decoding and the Activities are
  Android I/O. Whether CameraX has delivered an `ImageCapture` is a boolean field. The captured
  photo and the stored users are arguments.
- `captureHDPhoto`'s error path only logs and never calls back. A failed capture on the
  registration screen therefore leaves `verifying` set for good. The model has no step for it
  (`app/src/main/java/com/dcl/demo/utils/CaptureHDPhoto.kt` is not part of this model).
- The face detector, FaceNet and the two TFLite spoof models are foreign calls. They appear as
  function-typed parameters that return boxes, embeddings, raw logits or spoof verdicts. This
  includes the interpreter calls, the model loading, `cropByScale`, `toFloat32BGRBuffer` and
  `prepareForEmbedding`.
- IEEE floats are modelled as reals:
  - float constants take their decimal value;
  - rounding, NaN and infinities are not modelled;
  - `Float.toInt` saturation is not modelled.
- `exp` and `sqrt` are parameters. The lemmas assume only what they need: `exp` non-negative and
  positive at 0; `sqrt` a true square root.
- The float ⇄ raw-bits conversions are parameters. Where a round trip needs it, each stored
  value is assumed to be a float that its raw bits give back (`Users.BitsRecover`); nothing is
  assumed about other reals.
- SpoofDetector.DetectSpec: the interpreter's `run` is modelled only by its output-shape check,
  which throws when the two models' class counts differ. When the counts agree, the raw outputs
  are assumed to have `classCount` entries. A missing or short output shape falls back to 2
  classes, and the model does not follow what `run` then does.
- `l2Normalize` is not modelled.
- Concurrency and timing are not modelled: coroutine dispatch, the `delay` cadence,
  `LaunchedEffect` restarts, the `synchronized` blocks, `@Volatile`, and the `frameCounter`
  increment that races the frame coroutine. Each frame and each tick is one sequential step, with
  `now` and `frameCounter` as arguments.
- Toasts are recorded as a list of notices. They are not displayed. The live screen's error toast records the refused face count, not the exception's message text.
- The Room database is not modelled. Inserting a user appends to a list. A query returns the
  argument list of users.
- Drawing and UI are not modelled: the overlays, the result card, the progress circle, the save
  dialog's layout and the canvas calls. `FaceTagsOverlay`'s text formatting ("%.2f") is reduced to
  a name-and-score tag.
- Logic-free data holders and the build configuration are not modelled.
  `facesdk/src/main/java/com/dcl/facesdk/data/SpoofResult.kt` is not part of this model: the
  liveness detector defines and uses its own `SpoofResult`.
- Integer widths are unbounded, except the Long range that `toLong` checks. The model does not
  capture:
  - `Rect` int-multiplication overflow in `iou`;
  - `Int` overflow of the counters and of the timestamp arithmetic.
- Base64.Decode: the model's decoder is strict padded base64: whole four-character groups, padding
  only in the last, pad bits not checked (`Base64.PadBitsIgnored`). Android's decoder is more
  lenient (unpadded text, whitespace), so some text it accepts is refused here. The round trip of
  text the SDK itself wrote is unaffected.
- RegisterFaceScreen.ParseLong accepts only ASCII digits. Kotlin's `toLong` also accepts other
  Unicode decimal digits.
- Utilitis.CosineSimilarity requires b to be at least as long as a. The source reads past the end
  of a shorter b and throws. Callers check this with `FaceSdk.Comparable`, and the screens model
  the throw as an exception outcome.
- FaceSdk.FaceSdk.AnalyzeFrame takes the spoof verdicts and embeddings for the frame as
  function-typed arguments. It does not model the per-face try/catch logging.
- RegisterFaceScreen.RegisterFlow.PhotoProcessed treats the two main-thread updates after
  `processPhoto` as one step: clearing `verifying`, and setting the pending embedding or showing
  the toast. The source runs them as separate statements within the same callback.
- IdentifyLiveScreen.FaceTrack is a value. The source mutates the `var` fields only of tracks it
  has just created or copied, so no alias observes those writes. The model has no track identity
  beyond the record itself.
- RegisterFaceScreen.RegisterFlow.Save does not model what follows a failed `toLong`. The failure
  happens inside the insert coroutine, after the dialog has closed and the toast has been shown.
  The model records no insert and stops there. The uncaught exception's effect on the app is not
  modelled.
- The registration record's `createdAt` default is a clock read, so it is an argument.
