/**
 * The registration screen: the same spoof voter and stable counter as the verification
 * screen, except that the counter stands still while a capture is being processed and the
 * threshold is fixed at 60 ticks. A full counter without a spoof verdict captures a photo;
 * its embedding, packed as base64 text, waits in `pendingEmbedding` for the save dialog,
 * which turns it into a stored user record.
 */
module RegisterFaceScreen {
  import opened Wrappers
  import Rects
  import Utilitis
  import FaceSdk
  import Users
  import CaptureGate

  /** `requiredStableFrames`, about three seconds of ticks. */
  const RequiredStableFrames: nat := 60

  /** The role every registered user gets. */
  const RegisteredRole: int := 1

  /** The range of a Kotlin `Long`. */
  const MinLong: int := -0x8000_0000_0000_0000
  const MaxLong: int := 0x7FFF_FFFF_FFFF_FFFF

  /** The toasts of the screen. */
  datatype Notice =
    | FakeFace       // the counter filled while a spoof verdict stood
    | InvalidFace    // the photo gave no embedding
    | Registered     // the save dialog was confirmed

  /** What one tick of the loop led to. */
  datatype TickEvent =
    | Idle
    | SpoofBlocked      // full counter under a spoof verdict: the count starts again
    | CaptureStarted    // full counter without one: an HD photo was requested
    | NoCamera          // full counter, but no `ImageCapture` yet: `verifying` is cleared at once

  datatype TickState = TickState(counter: int, progress: real, verifying: bool)

  datatype Ticked = Ticked(state: TickState, event: TickEvent)

  // ---------------------------------------------------------------------------
  // The tick loop
  // ---------------------------------------------------------------------------

  /**
   * One pass of the `while (true)` loop; the counter only moves while nothing is being processed.
   *
   * After every tick the counter lies in [0, 60] and the progress in [0, 1]. While a capture is
   * being processed the counter stands still (once in range) and nothing fires. Something fires
   * exactly when the counter fills while nothing is being processed: a spoof verdict blocks,
   * otherwise a capture starts, or without a camera `verifying` drops back at once. In every
   * case the counter restarts from 0, and only a started capture leaves `verifying` set.
   */
  function Tick(s: TickState, aligned: bool, spoofDetected: bool, hasCapture: bool): (t: Ticked)
    ensures 0 <= t.state.counter <= RequiredStableFrames
    ensures 0.0 <= t.state.progress <= 1.0
    ensures s.verifying && 0 <= s.counter <= RequiredStableFrames ==>
      t == Ticked(TickState(s.counter, s.counter as real / RequiredStableFrames as real, true), Idle)
    ensures var full := !s.verifying && Rects.Clamp(CaptureGate.Step(s.counter, aligned), 0, RequiredStableFrames) == RequiredStableFrames;
      && (t.event != Idle <==> full)
      && (t.event == SpoofBlocked <==> full && spoofDetected)
      && (t.event == CaptureStarted <==> full && !spoofDetected && hasCapture)
      && (t.event == NoCamera <==> full && !spoofDetected && !hasCapture)
    ensures t.event != Idle ==> t.state.counter == 0 && (t.state.verifying <==> t.event == CaptureStarted)
  {
    var moved := if !s.verifying then CaptureGate.Step(s.counter, aligned) else s.counter;
    var c := Rects.Clamp(moved, 0, RequiredStableFrames);
    var p := c as real / RequiredStableFrames as real;
    if c >= RequiredStableFrames && !s.verifying then
      if spoofDetected then Ticked(TickState(0, 0.0, false), SpoofBlocked)
      else if hasCapture then Ticked(TickState(0, p, true), CaptureStarted)
      else Ticked(TickState(0, p, false), NoCamera)
    else Ticked(TickState(c, p, s.verifying), Idle)
  }

  // ---------------------------------------------------------------------------
  // The capture callback and the save dialog
  // ---------------------------------------------------------------------------

  /** The text kept for the dialog: the photo's embedding as `toBase64()`; `None` without one. */
  function Pending(photo: Option<FaceSdk.FaceSdkResult>, order: Utilitis.ByteOrder,
                   bitsOf: real -> Utilitis.Word32): (p: Option<string>)
    ensures p.Some? <==> photo.Some? && photo.value.embedding.Some?
    ensures p.Some? ==> |p.value| == 4 * ((4 * |photo.value.embedding.value| + 2) / 3)
  {
    if photo.Some? && photo.value.embedding.Some? then
      Some(Users.Stored(photo.value.embedding.value, order, bitsOf))
    else None
  }

  /** The pending text reads back as the photo's embedding. */
  lemma PendingRoundTrip(photo: Option<FaceSdk.FaceSdkResult>, order: Utilitis.ByteOrder,
                         bitsOf: real -> Utilitis.Word32, floatOf: Utilitis.Word32 -> real)
    requires photo.Some? && photo.value.embedding.Some?
    requires Users.BitsRecover(photo.value.embedding.value, bitsOf, floatOf)
    ensures Pending(photo, order, bitsOf).Some?
    ensures Users.Loaded(Pending(photo, order, bitsOf).value, order, floatOf) == photo.value.embedding
  {
    Users.StoredLoads(photo.value.embedding.value, order, bitsOf, floatOf);
  }

  /** A decimal digit. */
  predicate IsDigit(ch: char)
  {
    '0' <= ch <= '9'
  }

  function DigitValue(ch: char): nat
    requires IsDigit(ch)
  {
    ch as int - '0' as int
  }

  /** The value of a run of decimal digits, most significant first. */
  function DigitsValue(s: string): nat
    requires forall i :: 0 <= i < |s| ==> IsDigit(s[i])
    decreases |s|
  {
    if |s| == 0 then 0 else DigitsValue(s[..|s| - 1]) * 10 + DigitValue(s[|s| - 1])
  }

  /** The text after an optional leading sign. */
  function Unsigned(s: string): (body: string)
    requires |s| > 0
    ensures s[0] == '-' || s[0] == '+' ==> body == s[1..]
    ensures s[0] != '-' && s[0] != '+' ==> body == s
  {
    if s[0] == '-' || s[0] == '+' then s[1..] else s
  }

  /**
   * `String.toLong()`: an optional sign and at least one decimal digit, within the range of a
   * Long; `None` where Kotlin throws `NumberFormatException`.
   */
  function ParseLong(s: string): (r: Option<int>)
    ensures r.Some? ==> MinLong <= r.value <= MaxLong
    ensures r.Some? ==> exists i :: 0 <= i < |s| && IsDigit(s[i])
  {
    if |s| == 0 then None
    else
      var negative := s[0] == '-';
      var body := Unsigned(s);
      if |body| == 0 || exists i :: 0 <= i < |body| && !IsDigit(body[i]) then None
      else
        assert IsDigit(body[0]) && body[0] == s[|s| - |body|];
        var v: int := if negative then -(DigitsValue(body) as int) else DigitsValue(body);
        if MinLong <= v <= MaxLong then Some(v) else None
  }

  /** The decimal digits of a number, without leading zeros (`Long.toString` of a non-negative value). */
  function Decimal(n: nat): (s: string)
    ensures |s| > 0 && forall i :: 0 <= i < |s| ==> IsDigit(s[i])
    decreases n
  {
    var d := ['0' + (n % 10) as char];
    if n < 10 then d else Decimal(n / 10) + d
  }

  lemma {:induction false} DecimalValue(n: nat)
    ensures DigitsValue(Decimal(n)) == n
    decreases n
  {
    var s := Decimal(n);
    if n >= 10 {
      DecimalValue(n / 10);
      assert s[..|s| - 1] == Decimal(n / 10);
    }
  }

  /** Every Long written in decimal, with a minus sign when negative, parses back to itself. */
  lemma ParseLongRoundTrip(n: int)
    requires MinLong <= n <= MaxLong
    ensures n >= 0 ==> ParseLong(Decimal(n)) == Some(n)
    ensures n < 0 ==> ParseLong("-" + Decimal(-n)) == Some(n)
  {
    if n >= 0 {
      DecimalValue(n);
      assert IsDigit(Decimal(n)[0]);
    } else {
      DecimalValue(-n);
      assert Unsigned("-" + Decimal(-n)) == Decimal(-n);
    }
  }

  /** An empty id, a bare sign, and an id with anything but a digit after its optional sign are all rejected. */
  lemma ParseLongRejects(s: string, i: nat)
    requires i < |s| && !IsDigit(s[i]) && (i > 0 || (s[0] != '-' && s[0] != '+'))
    ensures ParseLong(s) == None
    ensures ParseLong("") == None && ParseLong("-") == None && ParseLong("+") == None
  {
    var body := Unsigned(s);
    if s[0] == '-' || s[0] == '+' {
      assert !IsDigit(body[i - 1]);
    } else {
      assert !IsDigit(body[i]);
    }
    assert "-"[1..] == [];
    assert "+"[1..] == [];
  }

  /** The record the dialog saves: role 1, no fingerprint, and the id read as a Long. */
  function SaveRecord(userId: string, name: string, embedding: string, createdAt: int): (u: Option<Users.UserData>)
    ensures u.Some? ==> u.value.name == name && u.value.embedding == embedding && u.value.createdAt == createdAt
  {
    match ParseLong(userId)
    case None => None
    case Some(id) => Some(Users.UserData(id, name, RegisteredRole, embedding, "", createdAt))
  }

  /**
   * The record saved for a decimal id keeps that id, role 1 and an empty fingerprint, and its
   * embedding reads back as the photo's.
   */
  lemma SavedRecordHoldsPhoto(n: nat, name: string, photo: Option<FaceSdk.FaceSdkResult>, createdAt: int,
                              order: Utilitis.ByteOrder, bitsOf: real -> Utilitis.Word32,
                              floatOf: Utilitis.Word32 -> real)
    requires n <= MaxLong
    requires photo.Some? && photo.value.embedding.Some?
    requires Users.BitsRecover(photo.value.embedding.value, bitsOf, floatOf)
    ensures var u := SaveRecord(Decimal(n), name, Pending(photo, order, bitsOf).value, createdAt);
      && u.Some? && u.value.userId == n && u.value.roleId == RegisteredRole && u.value.fingerprintCsv == ""
      && Users.Loaded(u.value.embedding, order, floatOf) == photo.value.embedding
  {
    ParseLongRoundTrip(n);
    PendingRoundTrip(photo, order, bitsOf, floatOf);
  }

  // ---------------------------------------------------------------------------
  // The screen
  // ---------------------------------------------------------------------------

  class RegisterFlow {
    var liveCounter: nat
    var spoofCounter: nat
    var spoofDetected: bool
    var stableCounter: int
    var progress: real
    var verifying: bool
    var hasCapture: bool
    var pendingEmbedding: Option<string>
    var showSaveDialog: bool
    /** The toasts shown so far, oldest first. */
    var notices: seq<Notice>
    /** The records handed to `userDao().insert`, oldest first. */
    var inserted: seq<Users.UserData>

    constructor()
      ensures liveCounter == 0 && spoofCounter == 0 && !spoofDetected
      ensures stableCounter == 0 && progress == 0.0 && !verifying && !hasCapture
      ensures pendingEmbedding.None? && !showSaveDialog && notices == [] && inserted == []
    {
      liveCounter, spoofCounter, spoofDetected := 0, 0, false;
      stableCounter, progress, verifying, hasCapture := 0, 0.0, false, false;
      pendingEmbedding, showSaveDialog, notices, inserted := None, false, [], [];
    }

    /** `onImageCaptureReady`. */
    method CaptureReady()
      modifies this
      ensures hasCapture
      ensures liveCounter == old(liveCounter) && spoofCounter == old(spoofCounter) && spoofDetected == old(spoofDetected)
      ensures stableCounter == old(stableCounter) && progress == old(progress) && verifying == old(verifying)
      ensures pendingEmbedding == old(pendingEmbedding) && showSaveDialog == old(showSaveDialog)
      ensures notices == old(notices) && inserted == old(inserted)
    {
      hasCapture := true;
    }

    /** The main-thread part of `onFrame`: one vote for the frame's first face. */
    method OnFrame(results: seq<FaceSdk.FaceSdkResult>)
      modifies this
      ensures CaptureGate.Voter(liveCounter, spoofCounter, spoofDetected)
           == CaptureGate.Vote(CaptureGate.Voter(old(liveCounter), old(spoofCounter), old(spoofDetected)),
                               CaptureGate.IsLiveVote(results))
      ensures stableCounter == old(stableCounter) && progress == old(progress) && verifying == old(verifying)
      ensures hasCapture == old(hasCapture)
      ensures pendingEmbedding == old(pendingEmbedding) && showSaveDialog == old(showSaveDialog)
      ensures notices == old(notices) && inserted == old(inserted)
    {
      var isLive := |results| > 0 && results[0].spoof.Some? && results[0].spoof.value.isLive;
      if isLive {
        liveCounter := liveCounter + 1;
      } else {
        spoofCounter := spoofCounter + 1;
      }
      var total := liveCounter + spoofCounter;
      if total > CaptureGate.Window {
        spoofDetected := spoofCounter as real > liveCounter as real * CaptureGate.Weight;
        liveCounter := 0;
        spoofCounter := 0;
      }
    }

    /** One pass of the tick loop. */
    method TickOnce(aligned: bool) returns (event: TickEvent)
      modifies this
      ensures Ticked(TickState(stableCounter, progress, verifying), event)
           == Tick(TickState(old(stableCounter), old(progress), old(verifying)), aligned, spoofDetected, hasCapture)
      ensures notices == old(notices) + (if event == SpoofBlocked then [FakeFace] else [])
      ensures liveCounter == old(liveCounter) && spoofCounter == old(spoofCounter) && spoofDetected == old(spoofDetected)
      ensures hasCapture == old(hasCapture) && inserted == old(inserted)
      ensures pendingEmbedding == old(pendingEmbedding) && showSaveDialog == old(showSaveDialog)
    {
      if aligned && !verifying {
        stableCounter := stableCounter + 2;
      } else if !verifying {
        stableCounter := Rects.Max(0, stableCounter - 3);
      }
      stableCounter := Rects.Clamp(stableCounter, 0, RequiredStableFrames);
      progress := stableCounter as real / RequiredStableFrames as real;
      event := Idle;
      if spoofDetected {
        if stableCounter >= RequiredStableFrames && !verifying {
          stableCounter := 0;
          progress := 0.0;
          verifying := false;
          notices := notices + [FakeFace];
          event := SpoofBlocked;
        }
      } else {
        if stableCounter >= RequiredStableFrames && !verifying {
          verifying := true;
          stableCounter := 0;
          if hasCapture {
            event := CaptureStarted;
          } else {
            verifying := false;
            event := NoCamera;
          }
        }
      }
    }

    /**
     * The capture callback once `processPhoto` has returned: processing is over, and only a
     * result with an embedding fills the dialog; any other result is a toast.
     */
    method PhotoProcessed(photo: Option<FaceSdk.FaceSdkResult>, order: Utilitis.ByteOrder,
                          bitsOf: real -> Utilitis.Word32)
      modifies this
      ensures !verifying
      ensures Pending(photo, order, bitsOf).Some? ==>
        pendingEmbedding == Pending(photo, order, bitsOf) && showSaveDialog && notices == old(notices)
      ensures Pending(photo, order, bitsOf).None? ==>
        pendingEmbedding == old(pendingEmbedding) && showSaveDialog == old(showSaveDialog)
        && notices == old(notices) + [InvalidFace]
      ensures liveCounter == old(liveCounter) && spoofCounter == old(spoofCounter) && spoofDetected == old(spoofDetected)
      ensures stableCounter == old(stableCounter) && progress == old(progress)
      ensures hasCapture == old(hasCapture) && inserted == old(inserted)
    {
      verifying := false;
      if photo.Some? && photo.value.embedding.Some? {
        var text := Utilitis.ToBase64(Users.Bits(photo.value.embedding.value, bitsOf), order);
        pendingEmbedding := Some(text);
        showSaveDialog := true;
      } else {
        notices := notices + [InvalidFace];
      }
    }

    /** `onDismiss`. */
    method Dismiss()
      modifies this
      ensures !showSaveDialog
      ensures liveCounter == old(liveCounter) && spoofCounter == old(spoofCounter) && spoofDetected == old(spoofDetected)
      ensures stableCounter == old(stableCounter) && progress == old(progress) && verifying == old(verifying)
      ensures hasCapture == old(hasCapture) && pendingEmbedding == old(pendingEmbedding)
      ensures notices == old(notices) && inserted == old(inserted)
    {
      showSaveDialog := false;
    }

    /**
     * `onSave`, offered only while the dialog is up with a pending embedding: the record is
     * inserted unless the id is not a Long (the insert coroutine then throws); the dialog closes
     * and the toast is shown either way.
     */
    method Save(userId: string, name: string, createdAt: int)
      requires showSaveDialog && pendingEmbedding.Some?
      modifies this
      ensures !showSaveDialog && notices == old(notices) + [Registered]
      ensures var u := SaveRecord(userId, name, old(pendingEmbedding).value, createdAt);
        inserted == old(inserted) + (if u.Some? then [u.value] else [])
      ensures liveCounter == old(liveCounter) && spoofCounter == old(spoofCounter) && spoofDetected == old(spoofDetected)
      ensures stableCounter == old(stableCounter) && progress == old(progress) && verifying == old(verifying)
      ensures hasCapture == old(hasCapture) && pendingEmbedding == old(pendingEmbedding)
    {
      var u := SaveRecord(userId, name, pendingEmbedding.value, createdAt);
      if u.Some? {
        inserted := inserted + [u.value];
      }
      showSaveDialog := false;
      notices := notices + [Registered];
    }
  }
}
