/**
 * The deadline watchdog of the video pipeline: three quality states, one step
 * toward STOPPED per missed deadline and one step back toward NORMAL per
 * firing of the recovery alarm (code/video_setup.c, missed_deadline and
 * alarm_handler). This module holds the transition logic as values; the
 * handlers that apply it to the shared video state are in module VideoSetup.
 */
module Watchdog {
  import opened Basics

  /** enum StateMachine of code/video_setup.h. */
  datatype PipelineState = Normal | Degraded | Stopped

  /** The integer the C enumeration gives each state: NORMAL = 0, DEGRADED = 1, STOPPED = 2. */
  function Level(s: PipelineState): (n: nat)
    ensures n <= 2
    ensures n == 0 <==> s == Normal
    ensures n == 2 <==> s == Stopped
  {
    match s
    case Normal => 0
    case Degraded => 1
    case Stopped => 2
  }

  /** State after the deadline alarm fired: one step toward STOPPED, which saturates. */
  function OnMiss(s: PipelineState): (r: PipelineState)
    ensures Level(r) == Min(Level(s) + 1, 2)
  {
    match s
    case Normal => Degraded
    case Degraded => Stopped
    case Stopped => Stopped
  }

  /** State after the recovery alarm fired: one step toward NORMAL, which saturates. */
  function OnRecovery(s: PipelineState): (r: PipelineState)
    ensures Level(r) == Max(Level(s) - 1, 0)
  {
    match s
    case Normal => Normal
    case Degraded => Normal
    case Stopped => Degraded
  }

  /** The two alarm callbacks that change the state. */
  datatype TimerEvent = DeadlineMiss | RecoveryFiring

  function Apply(s: PipelineState, e: TimerEvent): PipelineState
  {
    match e
    case DeadlineMiss => OnMiss(s)
    case RecoveryFiring => OnRecovery(s)
  }

  /** The state after the callbacks in `events` ran one after the other. */
  function Replay(s: PipelineState, events: seq<TimerEvent>): PipelineState
    decreases |events|
  {
    if events == [] then s else Replay(Apply(s, events[0]), events[1..])
  }

  /** `n` copies of the same event. */
  function Repeat(e: TimerEvent, n: nat): (r: seq<TimerEvent>)
    ensures |r| == n
    ensures forall i :: 0 <= i < n ==> r[i] == e
  {
    if n == 0 then [] else [e] + Repeat(e, n - 1)
  }

  function Misses(events: seq<TimerEvent>): nat
  {
    if events == [] then 0 else (if events[0] == DeadlineMiss then 1 else 0) + Misses(events[1..])
  }

  function Firings(events: seq<TimerEvent>): nat
  {
    if events == [] then 0 else (if events[0] == RecoveryFiring then 1 else 0) + Firings(events[1..])
  }

  /** Replaying two runs one after the other is replaying their concatenation. */
  lemma {:induction false} ReplayConcat(s: PipelineState, a: seq<TimerEvent>, b: seq<TimerEvent>)
    ensures Replay(s, a + b) == Replay(Replay(s, a), b)
    decreases |a|
  {
    if a != [] {
      assert (a + b)[0] == a[0];
      assert (a + b)[1..] == a[1..] + b;
      ReplayConcat(Apply(s, a[0]), a[1..], b);
    } else {
      assert a + b == b;
    }
  }

  /** n misses raise the level by n, capped at STOPPED. */
  lemma {:induction false} MissesSaturate(s: PipelineState, n: nat)
    ensures Level(Replay(s, Repeat(DeadlineMiss, n))) == Min(Level(s) + n, 2)
    decreases n
  {
    if n > 0 {
      assert Repeat(DeadlineMiss, n)[1..] == Repeat(DeadlineMiss, n - 1);
      MissesSaturate(OnMiss(s), n - 1);
    }
  }

  /** n recovery firings lower the level by n, floored at NORMAL. */
  lemma {:induction false} FiringsClimb(s: PipelineState, n: nat)
    ensures Level(Replay(s, Repeat(RecoveryFiring, n))) == Max(Level(s) - n, 0)
    decreases n
  {
    if n > 0 {
      assert Repeat(RecoveryFiring, n)[1..] == Repeat(RecoveryFiring, n - 1);
      FiringsClimb(OnRecovery(s), n - 1);
    }
  }

  /** From NORMAL any three or more misses give STOPPED. */
  lemma ThreeMissesStop(n: nat)
    requires n >= 3
    ensures Replay(Normal, Repeat(DeadlineMiss, n)) == Stopped
  {
    MissesSaturate(Normal, n);
  }

  /** Once STOPPED, further misses keep it STOPPED. */
  lemma StoppedAbsorbsMisses(n: nat)
    ensures Replay(Stopped, Repeat(DeadlineMiss, n)) == Stopped
  {
    MissesSaturate(Stopped, n);
  }

  /**
   * Without a miss in between, the pipeline is back to NORMAL after n recovery
   * firings exactly when n is at least the level it started from: two from
   * STOPPED, one from DEGRADED.
   */
  lemma RecoveredAfterLevelFirings(s: PipelineState, n: nat)
    ensures Replay(s, Repeat(RecoveryFiring, n)) == Normal <==> n >= Level(s)
  {
    FiringsClimb(s, n);
  }

  /** A miss right after a recovery firing undoes that firing, unless the firing found NORMAL. */
  lemma MissUndoesFiring(s: PipelineState)
    requires s != Normal
    ensures Replay(s, [RecoveryFiring, DeadlineMiss]) == s
  {
  }

  /** From STOPPED: two firings recover; a miss between them means a third firing is needed. */
  lemma MissBetweenFiringsNeedsThird()
    ensures Replay(Stopped, [RecoveryFiring, RecoveryFiring]) == Normal
    ensures Replay(Stopped, [RecoveryFiring, DeadlineMiss, RecoveryFiring]) == Degraded
    ensures Replay(Stopped, [RecoveryFiring, DeadlineMiss, RecoveryFiring, RecoveryFiring]) == Normal
  {
  }

  /** Every callback moves the state by at most one level, so a run moves it by at most its count of each kind. */
  lemma {:induction false} ReplayWithinCounts(s: PipelineState, events: seq<TimerEvent>)
    ensures Level(s) - Firings(events) <= Level(Replay(s, events)) <= Level(s) + Misses(events)
    decreases |events|
  {
    if events != [] {
      ReplayWithinCounts(Apply(s, events[0]), events[1..]);
    }
  }
}
