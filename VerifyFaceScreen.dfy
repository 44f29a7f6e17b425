/**
 * The verification screen: the spoof voter fed by the camera frames, the stable counter that
 * fills while the face is aligned, and the verification it launches once the counter is full
 * and no spoof has been seen, which captures a photo, embeds it and looks it up among the
 * stored users.
 *
 * Each frame and each tick is one step of the class below; the coroutines, the 50 ms delay
 * and the toasts' display are outside the model, the toasts themselves are kept as a log.
 */
module VerifyFaceScreen {
  import opened Wrappers
  import Rects
  import Utilitis
  import FaceSdk
  import Users
  import CaptureGate

  const DefaultMatchThreshold: real := 0.75
  const DefaultRequiredStableFrames: int := 60

  /** The toasts of the screen. */
  datatype Notice =
    | FakeFace                 // the counter filled while a spoof verdict stood
    | NoFace                   // `processPhoto` found no usable face
    | EmbeddingFailed          // the result carried no embedding
    | NoUsers                  // nobody is registered
    | Welcome(name: string)    // the best stored embedding reached the threshold
    | NotRecognised
    | VerifyFailed             // an exception inside the verification coroutine

  /** What one tick of the loop led to. */
  datatype TickEvent =
    | Idle
    | SpoofBlocked                             // full counter under a spoof verdict: the count starts again
    | VerifyLaunched(captureRequested: bool)   // full counter without one: `launchVerify` was called
    | Crashed                                  // `coerceIn` threw: `requiredStableFrames` is negative

  /** The tick loop's own variables. */
  datatype TickState = TickState(counter: int, progress: Option<real>, verifying: bool)

  /** The result of one tick: the new variables and what happened. */
  datatype Ticked = Ticked(state: TickState, event: TickEvent)

  // ---------------------------------------------------------------------------
  // The tick loop
  // ---------------------------------------------------------------------------

  /**
   * One pass of the `while (true)` loop: move and clamp the counter, update the progress and,
   * on a full counter while nothing is being verified, either block (spoof verdict) or reset
   * the counter and launch a verification. A missing camera capture makes `launchVerify`
   * return at once without calling `onFinish`.
   *
   * The tick throws exactly when the required number of frames is negative; otherwise the
   * counter and the progress stay in range. It blocks exactly when the counter fills under a
   * spoof verdict while nothing is being verified, and launches exactly when it fills without
   * one; a launch resets the counter and sets `verifying` first. While a verification runs no
   * tick launches another or clears `verifying`: only `onFinish` does.
   */
  function Tick(s: TickState, aligned: bool, spoofDetected: bool, required: int, hasCapture: bool): (t: Ticked)
    ensures t.event == Crashed <==> required < 0
    ensures t.event != Crashed ==> 0 <= t.state.counter <= required
    ensures t.event != Crashed && required > 0 ==>
      t.state.progress.Some? && 0.0 <= t.state.progress.value <= 1.0
    ensures t.event == SpoofBlocked <==>
      required >= 0 && spoofDetected && !s.verifying && CaptureGate.Settle(s.counter, aligned, required) == Some(required)
    ensures t.event == SpoofBlocked ==> t.state == TickState(0, Some(0.0), false)
    ensures t.event.VerifyLaunched? <==>
      required >= 0 && !spoofDetected && !s.verifying && CaptureGate.Settle(s.counter, aligned, required) == Some(required)
    ensures t.event.VerifyLaunched? ==>
      t.state.counter == 0 && t.state.verifying && t.event.captureRequested == hasCapture
    ensures s.verifying ==> t.state.verifying && (t.event == Idle || t.event == Crashed)
  {
    var stepped := CaptureGate.Step(s.counter, aligned);
    match CaptureGate.Settle(s.counter, aligned, required)
    case None => Ticked(s.(counter := stepped), Crashed)
    case Some(c) =>
      var p := CaptureGate.Progress(c, required);
      if c >= required && !s.verifying then
        if spoofDetected then Ticked(TickState(0, Some(0.0), false), SpoofBlocked)
        else Ticked(TickState(0, p, true), VerifyLaunched(hasCapture))
      else Ticked(TickState(c, p, s.verifying), Idle)
  }

  // ---------------------------------------------------------------------------
  // launchVerify's processing coroutine
  // ---------------------------------------------------------------------------

  /**
   * The toast that ends a verification of the captured photo's result: no face, no embedding,
   * nobody registered, an exception (a stored embedding that does not decode, or one shorter
   * than the live one, which makes `cosineSimilarity` index out of bounds), a welcome for the
   * best match, or not recognised.
   */
  function Outcome(photo: Option<FaceSdk.FaceSdkResult>, users: seq<Users.UserData>, threshold: real,
                   order: Utilitis.ByteOrder, floatOf: Utilitis.Word32 -> real): (n: Notice)
    ensures n == NoFace <==> photo.None?
    ensures n == EmbeddingFailed <==> photo.Some? && photo.value.embedding.None?
    ensures n == NoUsers <==> photo.Some? && photo.value.embedding.Some? && |users| == 0
    ensures n == VerifyFailed <==>
      && photo.Some? && photo.value.embedding.Some? && |users| > 0
      && (|| Users.Gallery(users, order, floatOf).None?
          || !FaceSdk.Comparable(photo.value.embedding.value, Users.Gallery(users, order, floatOf).value))
    ensures n.Welcome? ==> exists i :: 0 <= i < |users| && users[i].name == n.name
    ensures !n.FakeFace?
  {
    if photo.None? then NoFace
    else if photo.value.embedding.None? then EmbeddingFailed
    else if |users| == 0 then NoUsers
    else
      var emb := photo.value.embedding.value;
      match Users.Gallery(users, order, floatOf)
      case None => VerifyFailed
      case Some(gallery) =>
        if !FaceSdk.Comparable(emb, gallery) then VerifyFailed
        else
          var m := FaceSdk.IdentifySpec(emb, gallery, threshold);
          FaceSdk.IdentifyIsFirstBest(emb, gallery, threshold);
          if m.matched && m.bestIndex.Some? then Welcome(users[m.bestIndex.value].name)
          else NotRecognised
  }

  /** The coroutine's body, in its order of early returns. */
  method ProcessCapture(photo: Option<FaceSdk.FaceSdkResult>, users: seq<Users.UserData>, threshold: real,
                        order: Utilitis.ByteOrder, floatOf: Utilitis.Word32 -> real) returns (n: Notice)
    ensures n == Outcome(photo, users, threshold, order, floatOf)
  {
    if photo.None? {
      return NoFace;
    }
    var emb := photo.value.embedding;
    if emb.None? {
      return EmbeddingFailed;
    }
    if |users| == 0 {
      return NoUsers;
    }
    var loaded := LoadGallery(users, order, floatOf);
    if loaded.None? {
      return VerifyFailed;
    }
    var gallery := loaded.value;
    if !FaceSdk.Comparable(emb.value, gallery) {
      return VerifyFailed;
    }
    var m := FaceSdk.Identify(emb.value, gallery, threshold);
    FaceSdk.IdentifyIsFirstBest(emb.value, gallery, threshold);
    if m.matched && m.bestIndex.Some? {
      n := Welcome(users[m.bestIndex.value].name);
    } else {
      n := NotRecognised;
    }
  }

  /** `users.map { it.embedding.toFloatArray() }`; `None` when one stored text throws. */
  method LoadGallery(users: seq<Users.UserData>, order: Utilitis.ByteOrder, floatOf: Utilitis.Word32 -> real)
    returns (g: Option<seq<seq<real>>>)
    ensures g == Users.Gallery(users, order, floatOf)
  {
    var gallery: seq<seq<real>> := [];
    for i := 0 to |users|
      invariant Users.Gallery(users[..i], order, floatOf) == Some(gallery)
    {
      assert users[..i + 1][..i] == users[..i];
      var w := Utilitis.ToFloatArray(users[i].embedding, order);
      if w.None? {
        GalleryFailsFrom(users, i, order, floatOf);
        return None;
      }
      gallery := gallery + [Users.Floats(w.value, floatOf)];
    }
    assert users[..|users|] == users;
    return Some(gallery);
  }

  /** A stored text that does not decode makes the whole gallery fail. */
  lemma GalleryFailsFrom(users: seq<Users.UserData>, i: nat, order: Utilitis.ByteOrder, floatOf: Utilitis.Word32 -> real)
    requires i < |users| && Utilitis.FloatArrayOf(users[i].embedding, order).None?
    ensures Users.Gallery(users, order, floatOf).None?
  {
    assert Users.Loaded(users[i].embedding, order, floatOf).None?;
  }

  /**
   * A welcome names the user whose stored embedding is the first most similar one, and that
   * similarity reaches the threshold; "not recognised" means no similarity reaches it or none
   * beats -1.
   */
  lemma WelcomeIsBestMatch(photo: Option<FaceSdk.FaceSdkResult>, users: seq<Users.UserData>, threshold: real,
                           order: Utilitis.ByteOrder, floatOf: Utilitis.Word32 -> real)
    requires photo.Some? && photo.value.embedding.Some? && |users| > 0
    requires Users.Gallery(users, order, floatOf).Some?
    requires FaceSdk.Comparable(photo.value.embedding.value, Users.Gallery(users, order, floatOf).value)
    ensures var emb := photo.value.embedding.value;
      var gallery := Users.Gallery(users, order, floatOf).value;
      var sims := FaceSdk.Similarities(emb, gallery);
      var n := Outcome(photo, users, threshold, order, floatOf);
      && (n.Welcome? ==>
            exists i :: 0 <= i < |users| && users[i].name == n.name
              && sims[i] >= threshold
              && (forall j :: 0 <= j < |users| ==> sims[j] <= sims[i])
              && (forall j :: 0 <= j < i ==> sims[j] < sims[i]))
      && (n == NotRecognised ==>
            forall j :: 0 <= j < |users| ==> sims[j] < threshold || sims[j] <= -1.0)
      && (n.Welcome? || n == NotRecognised)
  {
    var emb := photo.value.embedding.value;
    var gallery := Users.Gallery(users, order, floatOf).value;
    FaceSdk.IdentifyIsFirstBest(emb, gallery, threshold);
  }

  /**
   * A photo result from `processPhoto` always carries an embedding, so the "embedding failed"
   * toast is never shown.
   */
  lemma NoEmbeddingFailure(bitmap: FaceSdk.Frame, detections: seq<Rects.RectF>,
                           faceNet: FaceSdk.Crop -> Option<seq<real>>, users: seq<Users.UserData>,
                           threshold: real, order: Utilitis.ByteOrder, floatOf: Utilitis.Word32 -> real)
    ensures Outcome(FaceSdk.ProcessPhoto(bitmap, detections, faceNet), users, threshold, order, floatOf) != EmbeddingFailed
  {
  }

  /**
   * A user registered with an embedding equal to the photo's is welcomed, provided the
   * threshold is at most that user's similarity and every other user is strictly less similar.
   */
  lemma RegisteredUserIsWelcomed(photo: FaceSdk.FaceSdkResult, users: seq<Users.UserData>,
                                 embeddings: seq<seq<real>>, threshold: real, order: Utilitis.ByteOrder,
                                 bitsOf: real -> Utilitis.Word32, floatOf: Utilitis.Word32 -> real, k: nat)
    requires |users| == |embeddings| && k < |users|
    requires forall i :: 0 <= i < |embeddings| ==> Users.BitsRecover(embeddings[i], bitsOf, floatOf)
    requires forall i :: 0 <= i < |users| ==> users[i].embedding == Users.Stored(embeddings[i], order, bitsOf)
    requires photo.embedding == Some(embeddings[k])
    requires FaceSdk.Comparable(embeddings[k], embeddings)
    requires var sims := FaceSdk.Similarities(embeddings[k], embeddings);
      && sims[k] > -1.0 && sims[k] >= threshold
      && (forall j :: 0 <= j < |users| && j != k ==> sims[j] < sims[k])
    ensures Outcome(Some(photo), users, threshold, order, floatOf) == Welcome(users[k].name)
  {
    Users.GalleryOfStored(users, embeddings, order, bitsOf, floatOf);
    var sims := FaceSdk.Similarities(embeddings[k], embeddings);
    FaceSdk.IdentifyIsFirstBest(embeddings[k], embeddings, threshold);
    var m := FaceSdk.IdentifySpec(embeddings[k], embeddings, threshold);
    assert m.score >= sims[k];
  }

  // ---------------------------------------------------------------------------
  // The screen
  // ---------------------------------------------------------------------------

  class VerifyFlow {
    const requiredStableFrames: int
    const matchThreshold: real

    var liveCounter: nat
    var spoofCounter: nat
    var spoofDetected: bool
    var stableCounter: int
    var progress: Option<real>
    var verifying: bool
    /** Whether CameraX has handed over its `ImageCapture`. */
    var hasCapture: bool
    /** The toasts shown so far, oldest first. */
    var notices: seq<Notice>

    constructor(requiredStableFrames: int, matchThreshold: real)
      ensures this.requiredStableFrames == requiredStableFrames && this.matchThreshold == matchThreshold
      ensures liveCounter == 0 && spoofCounter == 0 && !spoofDetected
      ensures stableCounter == 0 && progress == Some(0.0) && !verifying && !hasCapture && notices == []
    {
      this.requiredStableFrames := requiredStableFrames;
      this.matchThreshold := matchThreshold;
      liveCounter, spoofCounter, spoofDetected := 0, 0, false;
      stableCounter, progress, verifying := 0, Some(0.0), false;
      hasCapture, notices := false, [];
    }

    /** `onImageCaptureReady`. */
    method CaptureReady()
      modifies this
      ensures hasCapture
      ensures liveCounter == old(liveCounter) && spoofCounter == old(spoofCounter) && spoofDetected == old(spoofDetected)
      ensures stableCounter == old(stableCounter) && progress == old(progress) && verifying == old(verifying)
      ensures notices == old(notices)
    {
      hasCapture := true;
    }

    /** The main-thread part of `onFrame`: one vote for the frame's first face. */
    method OnFrame(results: seq<FaceSdk.FaceSdkResult>)
      modifies this
      ensures CaptureGate.Voter(liveCounter, spoofCounter, spoofDetected)
           == CaptureGate.Vote(CaptureGate.Voter(old(liveCounter), old(spoofCounter), old(spoofDetected)),
                               CaptureGate.IsLiveVote(results))
      ensures stableCounter == old(stableCounter) && progress == old(progress) && verifying == old(verifying)
      ensures hasCapture == old(hasCapture) && notices == old(notices)
    {
      var isLive := |results| > 0 && results[0].spoof.Some? && results[0].spoof.value.isLive;
      if isLive {
        liveCounter := liveCounter + 1;
      } else {
        spoofCounter := spoofCounter + 1;
      }
      var total := liveCounter + spoofCounter;
      if total > CaptureGate.Window {
        spoofDetected := spoofCounter as real > liveCounter as real * CaptureGate.Weight;
        liveCounter := 0;
        spoofCounter := 0;
      }
    }

    /** One pass of the tick loop. */
    method TickOnce(aligned: bool) returns (event: TickEvent)
      modifies this
      ensures Ticked(TickState(stableCounter, progress, verifying), event)
           == Tick(TickState(old(stableCounter), old(progress), old(verifying)), aligned,
                   spoofDetected, requiredStableFrames, hasCapture)
      ensures notices == old(notices) + (if event == SpoofBlocked then [FakeFace] else [])
      ensures liveCounter == old(liveCounter) && spoofCounter == old(spoofCounter) && spoofDetected == old(spoofDetected)
      ensures hasCapture == old(hasCapture)
    {
      if aligned {
        stableCounter := stableCounter + 2;
      } else {
        stableCounter := Rects.Max(0, stableCounter - 3);
      }
      if requiredStableFrames < 0 {
        return Crashed;
      }
      stableCounter := Rects.Clamp(stableCounter, 0, requiredStableFrames);
      progress := CaptureGate.Progress(stableCounter, requiredStableFrames);
      event := Idle;
      if spoofDetected {
        if stableCounter >= requiredStableFrames && !verifying {
          stableCounter := 0;
          progress := Some(0.0);
          verifying := false;
          notices := notices + [FakeFace];
          event := SpoofBlocked;
        }
      } else {
        if stableCounter >= requiredStableFrames && !verifying {
          stableCounter := 0;
          verifying := true;
          event := VerifyLaunched(hasCapture);
        }
      }
    }

    /** `onFinish`, called once by every path of the processing coroutine, with its toast. */
    method Finish(n: Notice)
      modifies this
      ensures !verifying && notices == old(notices) + [n]
      ensures liveCounter == old(liveCounter) && spoofCounter == old(spoofCounter) && spoofDetected == old(spoofDetected)
      ensures stableCounter == old(stableCounter) && progress == old(progress) && hasCapture == old(hasCapture)
    {
      notices := notices + [n];
      verifying := false;
    }

    /** A captured photo's whole verification: process it, show the toast and finish. */
    method Verified(photo: Option<FaceSdk.FaceSdkResult>, users: seq<Users.UserData>,
                    order: Utilitis.ByteOrder, floatOf: Utilitis.Word32 -> real)
      modifies this
      ensures !verifying
      ensures notices == old(notices) + [Outcome(photo, users, matchThreshold, order, floatOf)]
      ensures liveCounter == old(liveCounter) && spoofCounter == old(spoofCounter) && spoofDetected == old(spoofDetected)
      ensures stableCounter == old(stableCounter) && progress == old(progress) && hasCapture == old(hasCapture)
    {
      var n := ProcessCapture(photo, users, matchThreshold, order, floatOf);
      Finish(n);
    }
  }
}
