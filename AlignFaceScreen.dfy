/**
 * The alignment screen: the stable counter alone, with a ceiling of 100 ticks. Reaching the
 * ceiling completes one alignment cycle and starts the count again from 0.
 */
module AlignFaceScreen {
  import Rects
  import CaptureGate

  /** `requiredStableFrames`. */
  const RequiredStableFrames: nat := 100

  /** The counter after a tick, and whether that tick completed a cycle. */
  datatype Ticked = Ticked(counter: int, completed: bool)

  /** One pass of the `while (true)` loop: move, clamp to [0, 100], and on 100 start again. */
  function Tick(c: int, aligned: bool): (t: Ticked)
    ensures 0 <= t.counter < RequiredStableFrames
    ensures t.completed ==> t.counter == 0
  {
    var settled := Rects.Clamp(CaptureGate.Step(c, aligned), 0, RequiredStableFrames);
    if settled >= RequiredStableFrames then Ticked(0, true) else Ticked(settled, false)
  }

  /** The counter after `k` ticks with the same alignment, starting from `c`. */
  function Run(c: int, aligned: bool, k: nat): int
    decreases k
  {
    if k == 0 then c else Tick(Run(c, aligned, k - 1), aligned).counter
  }

  /** Whether tick number `k` (counting from 1) of such a run completes a cycle. */
  predicate CompletesAt(c: int, aligned: bool, k: nat)
    requires k >= 1
  {
    Tick(Run(c, aligned, k - 1), aligned).completed
  }

  /** With the face aligned from a zero counter, the count after k ticks is 2 · (k mod 50). */
  lemma {:induction false} AlignedRun(k: nat)
    ensures Run(0, true, k) == 2 * (k % 50)
    decreases k
  {
    if k > 0 {
      AlignedRun(k - 1);
      AlignedTick((k - 1) % 50);
      ModStep(k);
    }
  }

  /** An aligned tick from an even count below 100 adds 2, wrapping 98 to 0. */
  lemma AlignedTick(m: nat)
    requires m < 50
    ensures Tick(2 * m, true).counter == if m == 49 then 0 else 2 * (m + 1)
  {
  }

  lemma ModStep(k: nat)
    requires k >= 1
    ensures k % 50 == if (k - 1) % 50 == 49 then 0 else (k - 1) % 50 + 1
  {
  }

  /** With the face aligned from a zero counter, a cycle completes on tick 50 and every 50 ticks after. */
  lemma CompletesEveryFifty(k: nat)
    requires k >= 1
    ensures CompletesAt(0, true, k) <==> k % 50 == 0
  {
    AlignedRun(k - 1);
    var m := (k - 1) % 50;
    assert Tick(2 * m, true).completed <==> m == 49;
    ModFifty(k);
  }

  lemma ModFifty(k: nat)
    requires k >= 1
    ensures (k - 1) % 50 == 49 <==> k % 50 == 0
  {
  }

  /** Without alignment the counter falls by 3 per tick down to 0, and no cycle completes. */
  lemma {:induction false} UnalignedRun(c: int, k: nat)
    requires 0 <= c < RequiredStableFrames
    ensures Run(c, false, k) == Rects.Max(0, c - 3 * k)
    ensures k >= 1 ==> !CompletesAt(c, false, k)
    decreases k
  {
    if k > 0 {
      UnalignedRun(c, k - 1);
    }
  }

  /** Without alignment the counter is 0 within ⌈c / 3⌉ ticks and stays there. */
  lemma DecaysToZero(c: int, k: nat)
    requires 0 <= c < RequiredStableFrames
    requires k >= (c + 2) / 3
    ensures Run(c, false, k) == 0
  {
    UnalignedRun(c, k);
  }

  /** The screen's counter. */
  class AlignCounter {
    var stableCounter: int

    constructor()
      ensures stableCounter == 0
    {
      stableCounter := 0;
    }

    /** One pass of the tick loop; says whether it completed a cycle. */
    method TickOnce(aligned: bool) returns (completed: bool)
      modifies this
      ensures Ticked(stableCounter, completed) == Tick(old(stableCounter), aligned)
    {
      if aligned {
        stableCounter := stableCounter + 2;
      } else {
        stableCounter := Rects.Max(0, stableCounter - 3);
      }
      stableCounter := Rects.Clamp(stableCounter, 0, RequiredStableFrames);
      completed := false;
      if stableCounter >= RequiredStableFrames {
        stableCounter := 0;
        completed := true;
      }
    }
  }
}
