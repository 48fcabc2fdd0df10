/**
 * The consecutive-drowsy-frames counter that both the web application and
 * the standalone script use to debounce the per-frame drowsy signal: it
 * counts up by one on every drowsy frame and drops to zero on every clean
 * frame; the alert is raised once it exceeds a threshold (20 in both
 * programs). The counter is a `nat`, so it is never negative.
 */
module Hysteresis {

  /** The counter after one more frame whose signal is `drowsy`. */
  function NextCounter(counter: nat, drowsy: bool): (next: nat)
  {
    if drowsy then counter + 1 else 0
  }

  /** The counter after the frames whose signals are `signals`, oldest first. */
  function CounterAfter(start: nat, signals: seq<bool>): (counter: nat)
    decreases |signals|
  {
    if |signals| == 0 then start
    else NextCounter(CounterAfter(start, signals[..|signals| - 1]), signals[|signals| - 1])
  }

  /** The debounced alert: the counter exceeds the threshold. */
  predicate AlertOn(counter: nat, threshold: nat)
  {
    counter > threshold
  }

  /** Feeding one more frame to a run is one more counter step. */
  lemma CounterAfterSnoc(start: nat, signals: seq<bool>, drowsy: bool)
    ensures CounterAfter(start, signals + [drowsy]) == NextCounter(CounterAfter(start, signals), drowsy)
  {
  }

  /** A run of drowsy frames only ever counts up, by exactly one per frame. */
  lemma {:induction false} AllDrowsyCountsUp(start: nat, signals: seq<bool>)
    requires forall i :: 0 <= i < |signals| ==> signals[i]
    ensures CounterAfter(start, signals) == start + |signals|
  {
    if |signals| > 0 {
      AllDrowsyCountsUp(start, signals[..|signals| - 1]);
    }
  }

  /**
   * The counter is the length of the current run of drowsy frames: either
   * every frame was drowsy and the counter went up once per frame, or the
   * last `k` frames were drowsy and the one before them was clean.
   */
  lemma {:induction false} CounterIsTrailingRun(start: nat, signals: seq<bool>)
    ensures var k := CounterAfter(start, signals);
      (k == start + |signals| && forall j :: 0 <= j < |signals| ==> signals[j]) ||
      (k < |signals| && !signals[|signals| - 1 - k] &&
       forall j :: |signals| - k <= j < |signals| ==> signals[j])
  {
    if |signals| > 0 {
      var n := |signals|;
      var init := signals[..n - 1];
      CounterIsTrailingRun(start, init);
      assert forall j :: 0 <= j < n - 1 ==> init[j] == signals[j];
    }
  }

  /**
   * Starting from zero, the alert is on exactly when the last
   * `threshold + 1` frames were all drowsy.
   */
  lemma AlertIffLongDrowsyRun(signals: seq<bool>, threshold: nat)
    ensures AlertOn(CounterAfter(0, signals), threshold) <==>
      |signals| > threshold &&
      forall j :: |signals| - threshold - 1 <= j < |signals| ==> signals[j]
  {
    CounterIsTrailingRun(0, signals);
  }

  /**
   * Debouncing: over a run of drowsy frames starting from zero, the alert
   * after the first `k` frames is on exactly when `k > threshold`; the first
   * alert is raised on frame `threshold + 1` (the 21st for a threshold of 20).
   */
  lemma FirstAlertAfterThreshold(signals: seq<bool>, threshold: nat, k: nat)
    requires forall i :: 0 <= i < |signals| ==> signals[i]
    requires k <= |signals|
    ensures AlertOn(CounterAfter(0, signals[..k]), threshold) <==> k > threshold
  {
    AllDrowsyCountsUp(0, signals[..k]);
  }

  /** A clean frame resets the counter, and with it the alert, whatever came before. */
  lemma CleanFrameResets(start: nat, signals: seq<bool>, threshold: nat)
    requires |signals| > 0 && !signals[|signals| - 1]
    ensures CounterAfter(start, signals) == 0
    ensures !AlertOn(CounterAfter(start, signals), threshold)
  {
  }
}
