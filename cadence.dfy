/**
 The pacing of the monitoring loop of main.py (lines 97-100): iteration k
 sleeps until `15*k` seconds after the start, or not at all when it is
 already late. Time is counted in whole milliseconds.
 */
module Cadence {

  /** The loop's period, 15 seconds, in milliseconds. */
  const Period: nat := 15000

  /** The time iteration `iteration` should wake at: `15*iteration + start_time`. */
  function Slot(start: int, iteration: nat): int
  {
    start + Period * iteration
  }

  /**
   main.py:98-100: the sleep of iteration `iteration` when the clock reads
   `now`. It never wakes the loop before the slot, and it either does not
   sleep at all or wakes it exactly at the slot.
   */
  function WaitTime(iteration: nat, start: int, now: int): (wait: nat)
    ensures now + wait >= Slot(start, iteration)
    ensures wait == 0 || now + wait == Slot(start, iteration)
  {
    var waiting := Slot(start, iteration) - now;
    if waiting > 0 then waiting else 0
  }

  /** No shorter sleep reaches the slot: the wait is the least one that is not early. */
  lemma WaitTimeLeast(iteration: nat, start: int, now: int, wait: nat)
    requires now + wait >= Slot(start, iteration)
    ensures WaitTime(iteration, start, now) <= wait
  {
  }

  /**
   The times at which iterations 1, 2, ..., |busy| are due to wake from
   their sleep. `busy[k - 1]` is the time from the previous due wake-up (or
   the start) to the clock reading of iteration k: how late the previous
   sleep actually returned, plus the work of iteration k before its sleep
   (probing every endpoint, and the printing and writing of the iteration
   before it). A sleep is taken to be due exactly at the end it asks for;
   any overrun is charged to the next iteration's `busy`. Every wake-up is
   at or after its slot.
   */
  function Wakes(start: int, busy: seq<nat>): (wakes: seq<int>)
    ensures |wakes| == |busy|
    ensures forall k :: 0 <= k < |wakes| ==> wakes[k] >= Slot(start, k + 1)
    decreases |busy|
  {
    if busy == [] then []
    else
      var earlier := Wakes(start, busy[..|busy| - 1]);
      var now := Previous(start, earlier, |earlier|) + busy[|busy| - 1];
      earlier + [now + WaitTime(|busy|, start, now)]
  }

  /** The time iteration k + 1 starts its work: the start, or the previous wake-up. */
  function Previous(start: int, wakes: seq<int>, k: nat): int
    requires k <= |wakes|
  {
    if k == 0 then start else wakes[k - 1]
  }

  /** The first k wake-ups depend only on the first k durations. */
  lemma {:induction false} WakesPrefix(start: int, busy: seq<nat>, k: nat)
    requires k <= |busy|
    ensures Wakes(start, busy[..k]) == Wakes(start, busy)[..k]
    decreases |busy|
  {
    if k < |busy| {
      var shorter := busy[..|busy| - 1];
      WakesPrefix(start, shorter, k);
      assert shorter[..k] == busy[..k];
    } else {
      assert busy[..k] == busy;
    }
  }

  /** Iteration k + 1 works `busy[k]` after the previous wake-up, then waits for its slot. */
  lemma WakeStep(start: int, busy: seq<nat>, k: nat)
    requires k < |busy|
    ensures var now := Previous(start, Wakes(start, busy), k) + busy[k];
            Wakes(start, busy)[k] == now + WaitTime(k + 1, start, now)
  {
    WakesPrefix(start, busy, k + 1);
    WakesPrefix(start, busy, k);
    assert busy[..k + 1][..k] == busy[..k];
  }

  /** The loop never runs backwards: each wake-up is at least the work of its iteration after the previous one. */
  lemma WakesMonotone(start: int, busy: seq<nat>, k: nat)
    requires k < |busy|
    ensures Wakes(start, busy)[k] >= Previous(start, Wakes(start, busy), k) + busy[k]
  {
    WakeStep(start, busy, k);
  }

  /**
   An iteration whose work fits in one period does not make the loop later
   than it already was.
   */
  lemma LatenessShrinks(start: int, busy: seq<nat>, k: nat)
    requires k < |busy| && busy[k] <= Period
    ensures Wakes(start, busy)[k] - Slot(start, k + 1) <= Previous(start, Wakes(start, busy), k) - Slot(start, k)
            || Wakes(start, busy)[k] == Slot(start, k + 1)
  {
    WakeStep(start, busy, k);
  }

  /** When every iteration's work fits in one period, every wake-up is exactly on its slot: no drift. */
  lemma {:induction false} NoDrift(start: int, busy: seq<nat>)
    requires forall k :: 0 <= k < |busy| ==> busy[k] <= Period
    ensures forall k :: 0 <= k < |busy| ==> Wakes(start, busy)[k] == Slot(start, k + 1)
    decreases |busy|
  {
    if busy != [] {
      var n := |busy| - 1;
      NoDrift(start, busy[..n]);
      WakesPrefix(start, busy, n);
      LatenessShrinks(start, busy, n);
      forall k | 0 <= k < n ensures Wakes(start, busy)[k] == Slot(start, k + 1) {
        assert Wakes(start, busy)[k] == Wakes(start, busy[..n])[k];
      }
    }
  }
}
