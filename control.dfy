/**
 * The control task of code/main.c (ioctl_ctl_task): once per 100 ms poll it
 * reads the keys and the switches, clears the run flag on KEY0, moves the
 * CPU overload up on KEY2 and down on KEY3 within (0, 100), reports the
 * edges of SW0 and, while SW0 is on, asks for a CPU burn proportional to the
 * overload. Reading the hardware is replaced by the values a poll returns;
 * the burn and the console lines are outputs.
 */
module Control {
  import opened Basics

  // Key and switch masks.
  const Key0: bv32 := 0x1
  const Key2: bv32 := 0x4
  const Key3: bv32 := 0x8
  const Sw0: bv32 := 0x1

  // Overload settings.
  const OverloadBaseValue: int := 20
  const OverloadStep: int := 10
  const MaxOverload: int := 100
  const MinOverload: int := 0
  /** OVERLOADING_PERIOD, an RTIME (64-bit unsigned). */
  const OverloadingPeriodNs: nat := 100000000

  const U64Modulus: nat := 0x1_0000_0000_0000_0000
  const IntModulus: nat := 0x1_0000_0000
  /** Largest busy duration the task can ask for, 90 % of the period. */
  const MaxBurnNs: int := 90000000

  /** `bits & mask` is nonzero. */
  predicate Pressed(bits: bv32, mask: bv32)
  {
    bits & mask != 0
  }

  /** The overload values reachable from the base value: the multiples of 10 strictly between 0 and 100. */
  predicate InRange(o: int)
  {
    MinOverload < o < MaxOverload && o % OverloadStep == 0
  }

  /** KEY2: one step up, applied only when the result stays below MAX_OVERLOAD. */
  function Increase(o: int): int
  {
    if o + OverloadStep < MaxOverload then o + OverloadStep else o
  }

  /** KEY3: one step down, applied only when the result stays above MIN_OVERLOAD. */
  function Decrease(o: int): int
  {
    if o - OverloadStep > MinOverload then o - OverloadStep else o
  }

  /** current_overload after a poll that read `keys`: KEY2 is handled, then KEY3. */
  function Adjust(o: int, keys: bv32): (r: int)
    ensures InRange(o) ==> InRange(r)
    ensures o < MaxOverload ==> r < MaxOverload
    ensures o > MinOverload ==> r > MinOverload
    ensures o - OverloadStep <= r <= o + OverloadStep
    ensures !Pressed(keys, Key2) && !Pressed(keys, Key3) ==> r == o
    ensures Pressed(keys, Key2) && !Pressed(keys, Key3) ==> r == (if o + OverloadStep < MaxOverload then o + OverloadStep else o)
    ensures !Pressed(keys, Key2) && Pressed(keys, Key3) ==> r == (if o - OverloadStep > MinOverload then o - OverloadStep else o)
  {
    var raised := if Pressed(keys, Key2) then Increase(o) else o;
    if Pressed(keys, Key3) then Decrease(raised) else raised
  }

  /** current_overload after the polls that read `keys`, in order. */
  function OverloadAfter(o: int, keys: seq<bv32>): int
    decreases |keys|
  {
    if keys == [] then o else Adjust(OverloadAfter(o, keys[..|keys| - 1]), keys[|keys| - 1])
  }

  /** Any run of polls keeps a reachable overload reachable. */
  lemma {:induction false} PollsKeepOverloadInRange(o: int, keys: seq<bv32>)
    requires InRange(o)
    ensures InRange(OverloadAfter(o, keys))
    decreases |keys|
  {
    if keys != [] {
      PollsKeepOverloadInRange(o, keys[..|keys| - 1]);
    }
  }

  /** From OVERLOAD_BASE_VALUE the overload stays a multiple of 10 in [10, 90], whatever keys are pressed. */
  lemma OverloadFromBaseStaysInRange(keys: seq<bv32>)
    ensures 10 <= OverloadAfter(OverloadBaseValue, keys) <= 90
    ensures OverloadAfter(OverloadBaseValue, keys) % 10 == 0
  {
    PollsKeepOverloadInRange(OverloadBaseValue, keys);
  }

  /**
   * With KEY2 and KEY3 held together the increment is tried first: at 90 the
   * increment is refused and the decrement applied, at 10 both apply; the
   * other order would give 90 and 20.
   */
  lemma IncrementBeforeDecrement()
    ensures Adjust(90, Key2 | Key3) == 80 && Decrease(Increase(90)) == 80 && Increase(Decrease(90)) == 90
    ensures Adjust(10, Key2 | Key3) == 10 && Increase(Decrease(10)) == 20
  {
  }

  /** `changed_state = (switches ^ prev_switches) & SW0` is nonzero exactly when SW0 differs from the previous poll. */
  lemma ChangedStateIffSw0Differs(switches: bv32, prevSwitches: bv32)
    ensures ((switches ^ prevSwitches) & Sw0 != 0) <==> (Pressed(switches, Sw0) != Pressed(prevSwitches, Sw0))
  {
  }

  /** `int` conversion of `busy_cpu`'s argument: the value modulo 2^32, as a two's-complement 32-bit integer. */
  function ToInt(x: nat): (r: int)
    ensures -(IntModulus as int) / 2 <= r < IntModulus as int / 2
    ensures (r - x) % IntModulus == 0
    ensures x < IntModulus / 2 ==> r == x
  {
    var m := x % IntModulus;
    if m < IntModulus / 2 then m else m - IntModulus
  }

  /**
   * The argument of busy_cpu: `current_overload * (OVERLOADING_PERIOD / 100)`
   * is computed in 64-bit unsigned arithmetic (the overload converted to an
   * unsigned 64-bit value) and passed as an `int`. For every reachable
   * overload no wrap-around happens: the burn is the overload times 1 ms.
   */
  function BurnDuration(o: int): (ns: int)
    ensures InRange(o) ==> ns == o * (OverloadingPeriodNs / 100) && 0 < ns <= MaxBurnNs
  {
    ToInt((o % U64Modulus) * (OverloadingPeriodNs / 100) % U64Modulus)
  }

  /** The console line printed on an SW0 edge. */
  datatype OverloadEdge = TurnedOn | TurnedOff

  /** A busy duration is asked exactly when SW0 is on, and then fits in (0, 90 ms]. */
  predicate BurnMatches(burn: Option<int>, switches: bv32)
  {
    && (burn.Some? <==> Pressed(switches, Sw0))
    && (burn.Some? ==> 0 < burn.value <= MaxBurnNs)
  }

  /**
   * The busy duration asked at poll i of a run started at overload `o`: the
   * overload after that poll times 1 ms while SW0 is on, nothing otherwise.
   */
  function BurnAt(o: int, polls: seq<(bv32, bv32)>, i: nat): Option<int>
    requires i < |polls|
  {
    if Pressed(polls[i].1, Sw0) then Some(OverloadAfter(o, KeysOf(polls[..i + 1])) * (OverloadingPeriodNs / 100)) else None
  }

  /** From a reachable overload, every burn of a run is asked exactly when SW0 is on and lasts at most 90 ms. */
  lemma BurnAtMatches(o: int, polls: seq<(bv32, bv32)>, i: nat)
    requires InRange(o) && i < |polls|
    ensures BurnMatches(BurnAt(o, polls, i), polls[i].1)
  {
    PollsKeepOverloadInRange(o, KeysOf(polls[..i + 1]));
  }

  /** The busy durations asked at each of `polls`, in order, for a run started at overload `o`. */
  function BurnsOf(o: int, polls: seq<(bv32, bv32)>): (burns: seq<Option<int>>)
    ensures |burns| == |polls|
    decreases |polls|
  {
    if polls == [] then [] else BurnsOf(o, polls[..|polls| - 1]) + [BurnAt(o, polls, |polls| - 1)]
  }

  /** Taking one more poll appends that poll's burn. */
  lemma BurnsOfNextPoll(o: int, polls: seq<(bv32, bv32)>, n: nat)
    requires n < |polls|
    ensures BurnsOf(o, polls[..n + 1]) == BurnsOf(o, polls[..n]) + [BurnAt(o, polls, n)]
  {
    assert polls[..n + 1][..n] == polls[..n];
    assert polls[..n + 1][..n + 1] == polls[..n + 1];
  }

  /** The i-th burn of the first n polls is the burn BurnAt gives for poll i. */
  lemma {:induction false} BurnsOfAt(o: int, polls: seq<(bv32, bv32)>, n: nat, i: nat)
    requires i < n <= |polls|
    ensures BurnsOf(o, polls[..n])[i] == BurnAt(o, polls, i)
    decreases n
  {
    assert polls[..n][..n - 1] == polls[..n - 1];
    if i == n - 1 {
      assert polls[..n][..i + 1] == polls[..i + 1];
    } else {
      BurnsOfAt(o, polls, n - 1, i);
    }
  }

  /** From a reachable overload, each burn of the first n polls is the one BurnAt gives, asked exactly when SW0 is on, at most 90 ms. */
  lemma BurnsOfMatch(o: int, polls: seq<(bv32, bv32)>, n: nat)
    requires InRange(o) && n <= |polls|
    ensures forall i :: 0 <= i < n ==> BurnsOf(o, polls[..n])[i] == BurnAt(o, polls, i)
    ensures forall i :: 0 <= i < n ==> BurnMatches(BurnsOf(o, polls[..n])[i], polls[i].1)
  {
    forall i | 0 <= i < n
      ensures BurnsOf(o, polls[..n])[i] == BurnAt(o, polls, i) && BurnMatches(BurnAt(o, polls, i), polls[i].1)
    {
      BurnsOfAt(o, polls, n, i);
      BurnAtMatches(o, polls, i);
    }
  }

  /** Number of polls the loop takes: up to and including the first that reads KEY0. */
  function PollsTaken(polls: seq<(bv32, bv32)>): (n: nat)
    ensures n <= |polls|
    ensures forall i :: 0 <= i < n - 1 ==> !Pressed(polls[i].0, Key0)
    ensures n < |polls| ==> n > 0 && Pressed(polls[n - 1].0, Key0)
    decreases |polls|
  {
    if polls == [] then 0
    else if Pressed(polls[0].0, Key0) then 1
    else 1 + PollsTaken(polls[1..])
  }

  /** A loop that stopped after n polls, with no KEY0 before the last and KEY0 at the last unless the polls ran out, took PollsTaken of them. */
  lemma {:induction false} PollsTakenIs(polls: seq<(bv32, bv32)>, n: nat)
    requires n <= |polls|
    requires forall i :: 0 <= i < n - 1 ==> !Pressed(polls[i].0, Key0)
    requires n == |polls| || (n > 0 && Pressed(polls[n - 1].0, Key0))
    ensures PollsTaken(polls) == n
    decreases n
  {
    if n > 0 && !Pressed(polls[0].0, Key0) {
      assert forall i :: 0 <= i < n - 2 ==> polls[1..][i] == polls[i + 1];
      PollsTakenIs(polls[1..], n - 1);
    }
  }

  function KeysOf(polls: seq<(bv32, bv32)>): (keys: seq<bv32>)
    ensures |keys| == |polls|
    ensures forall i :: 0 <= i < |polls| ==> keys[i] == polls[i].0
  {
    seq(|polls|, i requires 0 <= i < |polls| => polls[i].0)
  }

  /** Taking one more poll applies Adjust once more, with that poll's keys. */
  lemma OverloadAfterNextPoll(o: int, polls: seq<(bv32, bv32)>, n: nat)
    requires n < |polls|
    ensures OverloadAfter(o, KeysOf(polls[..n + 1])) == Adjust(OverloadAfter(o, KeysOf(polls[..n])), polls[n].0)
  {
    assert KeysOf(polls[..n + 1])[..n] == KeysOf(polls[..n]);
  }

  /**
   * The task's locals `current_overload` and `prev_switches` and the shared
   * run flag `ctl->running`.
   */
  class ControlTask {
    var currentOverload: int
    var prevSwitches: bv32
    var running: bool

    ghost predicate Valid()
      reads this
    {
      InRange(currentOverload)
    }

    /** main sets the run flag; the task starts from the base overload and the switches read before the loop. */
    constructor (initialSwitches: bv32)
      ensures Valid() && running
      ensures currentOverload == OverloadBaseValue && prevSwitches == initialSwitches
    {
      currentOverload := OverloadBaseValue;
      prevSwitches := initialSwitches;
      running := true;
    }

    /** The key handling of one poll (code/main.c:64-87). */
    method ReadKeys(keys: bv32) returns (reported: seq<int>)
      requires Valid()
      modifies this`running, this`currentOverload
      ensures Valid()
      ensures running == (old(running) && !Pressed(keys, Key0))
      ensures currentOverload == Adjust(old(currentOverload), keys)
      ensures reported == (if Pressed(keys, Key2) then [Increase(old(currentOverload))] else [])
                        + (if Pressed(keys, Key3) then [currentOverload] else [])
    {
      if Pressed(keys, Key0) {
        running := false;
      }
      reported := [];
      if Pressed(keys, Key2) {
        if currentOverload + OverloadStep < MaxOverload {
          currentOverload := currentOverload + OverloadStep;
        }
        reported := reported + [currentOverload];
      }
      if Pressed(keys, Key3) {
        if currentOverload - OverloadStep > MinOverload {
          currentOverload := currentOverload - OverloadStep;
        }
        reported := reported + [currentOverload];
      }
    }

    /** The switch handling of one poll (code/main.c:89-104). */
    method ReadSwitches(switches: bv32) returns (burnNs: Option<int>, edge: Option<OverloadEdge>)
      requires Valid()
      modifies this`prevSwitches
      ensures prevSwitches == switches
      ensures burnNs == (if Pressed(switches, Sw0) then Some(currentOverload * (OverloadingPeriodNs / 100)) else None)
      ensures BurnMatches(burnNs, switches)
      ensures edge.Some? <==> Pressed(switches, Sw0) != Pressed(old(prevSwitches), Sw0)
      ensures edge.Some? ==> (edge.value == TurnedOn <==> Pressed(switches, Sw0))
    {
      var changedState := (switches ^ prevSwitches) & Sw0;
      ChangedStateIffSw0Differs(switches, prevSwitches);
      if Pressed(switches, Sw0) {
        edge := if changedState != 0 then Some(TurnedOn) else None;
        burnNs := Some(BurnDuration(currentOverload));
      } else {
        edge := if changedState != 0 then Some(TurnedOff) else None;
        burnNs := None;
      }
      prevSwitches := switches;
    }

    /**
     * One iteration of the loop (code/main.c:64-104). Returns the busy
     * duration asked of busy_cpu, the SW0 edge announced on the console and
     * the overload values printed after KEY2 and KEY3.
     */
    method Step(keys: bv32, switches: bv32) returns (burnNs: Option<int>, edge: Option<OverloadEdge>, reported: seq<int>)
      requires Valid()
      modifies this
      ensures Valid()
      ensures running == (old(running) && !Pressed(keys, Key0))
      ensures currentOverload == Adjust(old(currentOverload), keys)
      ensures prevSwitches == switches
      ensures burnNs == (if Pressed(switches, Sw0) then Some(currentOverload * (OverloadingPeriodNs / 100)) else None)
      ensures BurnMatches(burnNs, switches)
      ensures edge.Some? <==> Pressed(switches, Sw0) != Pressed(old(prevSwitches), Sw0)
      ensures edge.Some? ==> (edge.value == TurnedOn <==> Pressed(switches, Sw0))
      ensures reported == (if Pressed(keys, Key2) then [Increase(old(currentOverload))] else [])
                        + (if Pressed(keys, Key3) then [currentOverload] else [])
    {
      reported := ReadKeys(keys);
      burnNs, edge := ReadSwitches(switches);
    }

    /**
     * The loop of ioctl_ctl_task (code/main.c:62-106) over the successive
     * polls (keys, switches). A poll that reads KEY0 is completed and the
     * loop leaves at the next check of `running`. Returns the number of polls
     * taken and the busy duration requested at each.
     */
    method Run(polls: seq<(bv32, bv32)>) returns (taken: nat, burns: seq<Option<int>>)
      requires Valid()
      modifies this
      ensures Valid()
      ensures taken == (if old(running) then PollsTaken(polls) else 0)
      ensures running == (old(running) && (taken == 0 || !Pressed(polls[taken - 1].0, Key0)))
      ensures currentOverload == OverloadAfter(old(currentOverload), KeysOf(polls[..taken]))
      ensures prevSwitches == if taken == 0 then old(prevSwitches) else polls[taken - 1].1
      ensures |burns| == taken
      ensures forall i :: 0 <= i < taken ==> BurnMatches(burns[i], polls[i].1)
      ensures forall i :: 0 <= i < taken ==> burns[i] == BurnAt(old(currentOverload), polls, i)
    {
      taken, burns := 0, [];
      ghost var start := currentOverload;
      ghost var wasRunning := running;
      while running && taken < |polls|
        invariant Valid()
        invariant taken <= |polls|
        invariant forall i :: 0 <= i < taken - 1 ==> !Pressed(polls[i].0, Key0)
        invariant !wasRunning ==> taken == 0 && !running
        invariant running == (wasRunning && (taken == 0 || !Pressed(polls[taken - 1].0, Key0)))
        invariant currentOverload == OverloadAfter(start, KeysOf(polls[..taken]))
        invariant prevSwitches == if taken == 0 then old(prevSwitches) else polls[taken - 1].1
        invariant burns == BurnsOf(start, polls[..taken])
      {
        // The loop is still running: no poll taken so far read KEY0.
        assert forall i :: 0 <= i < taken ==> !Pressed(polls[i].0, Key0);
        var burn, edge, reported := Step(polls[taken].0, polls[taken].1);
        OverloadAfterNextPoll(start, polls, taken);
        BurnsOfNextPoll(start, polls, taken);
        burns := burns + [burn];
        taken := taken + 1;
      }
      if wasRunning {
        PollsTakenIs(polls, taken);
      }
      BurnsOfMatch(start, polls, taken);
    }
  }
}
