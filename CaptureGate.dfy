/**
 * The two pieces of state the guided-capture screens keep between frames and ticks.
 *
 * The spoof voter: every analysed frame casts one vote, live or spoof, and once a
 * window holds more than 30 votes the screen decides whether it is looking at a
 * spoof (more than 1.5 spoof votes per live vote), keeps that verdict until the
 * next window closes, and starts counting again. The verification and the
 * registration screens carry identical copies of this code.
 *
 * The stable counter: on every tick it climbs by 2 while the face is aligned and
 * falls by 3 (never below 0) while it is not, then is clamped to
 * [0, requiredStableFrames].
 */
module CaptureGate {
  import opened Wrappers
  import Rects
  import FaceSdk

  /** A window is decided as soon as it holds more than this many votes. */
  const Window: nat := 30

  /** A decided window is a spoof when its spoof votes exceed this many times its live votes. */
  const Weight: real := 1.5

  // ---------------------------------------------------------------------------
  // The spoof voter
  // ---------------------------------------------------------------------------

  datatype Voter = Voter(live: nat, spoof: nat, spoofDetected: bool)

  /** The vote of one frame: live only when its first face carries a live verdict. */
  predicate IsLiveVote(results: seq<FaceSdk.FaceSdkResult>)
  {
    |results| > 0 && results[0].spoof.Some? && results[0].spoof.value.isLive
  }

  /** The verdict on a window of `live` and `spoof` votes (`spoofCounter > liveCounter * 1.5f`). */
  predicate IsSpoofWindow(live: nat, spoof: nat)
  {
    spoof as real > live as real * Weight
  }

  /** One frame: count its vote; a window over 30 votes sets the verdict and empties the counters. */
  function Vote(v: Voter, isLive: bool): (w: Voter)
    ensures w.live + w.spoof == (if v.live + v.spoof + 1 > Window then 0 else v.live + v.spoof + 1)
    ensures w.spoofDetected != v.spoofDetected ==> v.live + v.spoof + 1 > Window
  {
    var live := if isLive then v.live + 1 else v.live;
    var spoof := if isLive then v.spoof else v.spoof + 1;
    if live + spoof > Window then Voter(0, 0, IsSpoofWindow(live, spoof))
    else Voter(live, spoof, v.spoofDetected)
  }

  /** The voter after a run of frames, in order. */
  function Votes(v: Voter, frames: seq<bool>): Voter
    decreases |frames|
  {
    if |frames| == 0 then v else Vote(Votes(v, frames[..|frames| - 1]), frames[|frames| - 1])
  }

  /** The number of votes of kind `b` in a run. */
  function Count(frames: seq<bool>, b: bool): (n: nat)
    ensures n <= |frames|
    decreases |frames|
  {
    if |frames| == 0 then 0
    else Count(frames[..|frames| - 1], b) + (if frames[|frames| - 1] == b then 1 else 0)
  }

  /** The live and spoof votes of a run add up to its length. */
  lemma {:induction false} CountsCover(frames: seq<bool>)
    ensures Count(frames, true) + Count(frames, false) == |frames|
    decreases |frames|
  {
    if |frames| > 0 {
      CountsCover(frames[..|frames| - 1]);
    }
  }

  /** A window never holds more than 30 votes once a frame has been counted. */
  lemma {:induction false} VotesKeepWindow(v: Voter, frames: seq<bool>)
    requires v.live + v.spoof <= Window
    ensures Votes(v, frames).live + Votes(v, frames).spoof <= Window
    decreases |frames|
  {
    if |frames| > 0 {
      VotesKeepWindow(v, frames[..|frames| - 1]);
    }
  }

  /**
   * While a window stays open the frames are only counted: the verdict is the one of the
   * last decided window.
   */
  lemma {:induction false} QuietVotes(v: Voter, frames: seq<bool>)
    requires v.live + v.spoof + |frames| <= Window
    ensures Votes(v, frames) == Voter(v.live + Count(frames, true), v.spoof + Count(frames, false), v.spoofDetected)
    decreases |frames|
  {
    if |frames| > 0 {
      var n := |frames| - 1;
      QuietVotes(v, frames[..n]);
      CountsCover(frames[..n]);
    }
  }

  /**
   * From empty counters, 31 frames close exactly one window: the counters are empty again and
   * the verdict is the one on those 31 votes, whatever the verdict was before.
   */
  lemma WindowDecides(flag: bool, frames: seq<bool>)
    requires |frames| == Window + 1
    ensures Votes(Voter(0, 0, flag), frames)
         == Voter(0, 0, IsSpoofWindow(Count(frames, true), Count(frames, false)))
  {
    QuietVotes(Voter(0, 0, flag), frames[..Window]);
    CountsCover(frames[..Window]);
  }

  /** A full window is a spoof exactly when at most 12 of its 31 votes are live. */
  lemma WindowThreshold(live: nat, spoof: nat)
    requires live + spoof == Window + 1
    ensures IsSpoofWindow(live, spoof) <==> live <= 12
  {
    if live >= 13 {
      assert spoof as real <= 18.0;
      assert live as real * Weight >= 19.5;
    }
  }

  /** Five live votes and 26 spoof votes flag a spoof; the counters start again from zero. */
  lemma FiveLiveTwentySixSpoof()
    ensures Vote(Voter(5, 25, false), false) == Voter(0, 0, true)
  {
  }

  // ---------------------------------------------------------------------------
  // The stable counter
  // ---------------------------------------------------------------------------

  /** The move of one tick before clamping: +2 while aligned, otherwise down by 3 but not below 0. */
  function Step(c: int, aligned: bool): int
  {
    if aligned then c + 2 else Rects.Max(0, c - 3)
  }

  /**
   * `coerceIn(0, requiredStableFrames)` after the move; `None` when that throws. From a counter
   * in range, an aligned tick climbs by 2 up to the ceiling, an unaligned one falls by 3 down to 0.
   */
  function Settle(c: int, aligned: bool, required: int): (r: Option<int>)
    ensures r.None? <==> required < 0
    ensures r.Some? ==> 0 <= r.value <= required
    ensures 0 <= c <= required && aligned ==> r == Some(Rects.Min(c + 2, required))
    ensures 0 <= c <= required && !aligned ==> r == Some(Rects.Max(0, c - 3))
  {
    Rects.CoerceIn(Step(c, aligned), 0, required)
  }

  /** `stableCounter / requiredStableFrames.toFloat()`; `None` stands for the NaN of 0 / 0. */
  function Progress(c: int, required: nat): (p: Option<real>)
    ensures p.None? <==> required == 0
    ensures p.Some? && 0 <= c <= required ==> 0.0 <= p.value <= 1.0
    ensures p.Some? ==> (p.value == 1.0 <==> c == required)
  {
    if required == 0 then None else Some(c as real / required as real)
  }
}
