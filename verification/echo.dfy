/** The echo measurement of the HC-SR04 driver (`Sensor::receivePulse`).

    The source reads the microsecond clock once to fix a deadline, then
    spins while the echo pin reads HIGH, reading the clock again on every
    pass; it gives up with the sentinel 0 once a clock reading is above the
    deadline, and otherwise returns the time elapsed when the pin goes LOW.
    Clock and pin are injected: `start` is the first clock reading and a
    trace of samples stands for everything the loop reads afterwards. */
module Echo {
  import opened Arith32

  datatype Level = Low | High

  /** One pass of the wait loop: the level read from the echo pin, then the
      clock reading taken right after it (the timeout test when the pin is
      HIGH, the final reading when it is LOW). */
  datatype Sample = Sample(echo: Level, micros: U32)

  /** How the wait loop ends on a finite trace. `Waiting` means the trace ran
      out while the loop was still spinning; `used` counts the samples read. */
  datatype Outcome =
    | Waiting
    | TimedOut(used: nat)
    | EchoEnded(elapsed: U32, used: nat)
  {
    /** The `unsigned long` the source returns: 0 for a timeout. */
    function Returned(): U32
      requires !Waiting?
    {
      if TimedOut? then 0 else elapsed
    }
  }

  /** The timeout test. `AsWritten` compares the clock against the wrapped
      deadline `start + maxDelay` with a plain `>`; `WrapSafe` compares the
      wrapped elapsed time against `maxDelay`. */
  datatype Guard = AsWritten | WrapSafe

  /** The deadline `max_time`, computed in `unsigned long`. */
  function Deadline(start: U32, maxDelay: U32): U32
  {
    Add(start, maxDelay)
  }

  predicate Expired(g: Guard, maxDelay: U32, start: U32, now: U32)
  {
    match g
    case AsWritten => now > Deadline(start, maxDelay)
    case WrapSafe => Sub(now, start) > maxDelay
  }

  /** The sample makes the loop stop: the pin is LOW, or it is HIGH and the
      clock reading has expired. */
  predicate Leaves(g: Guard, maxDelay: U32, start: U32, s: Sample)
  {
    s.echo == Low || Expired(g, maxDelay, start, s.micros)
  }

  /** `k` is the first sample at or after `i` that makes the loop stop. */
  predicate FirstExitFrom(g: Guard, maxDelay: U32, start: U32, trace: seq<Sample>, i: nat, k: nat)
  {
    i <= k < |trace|
    && Leaves(g, maxDelay, start, trace[k])
    && forall j :: i <= j < k ==> !Leaves(g, maxDelay, start, trace[j])
  }

  /** Reference definition of the wait loop, from sample `i` on. The value
      returned after the pin goes LOW is computed exactly as the source does,
      as `now - (max_time - maxDelay)`. */
  function WaitFrom(g: Guard, maxDelay: U32, start: U32, trace: seq<Sample>, i: nat): (o: Outcome)
    requires i <= |trace|
    ensures o.Waiting? <==> forall j :: i <= j < |trace| ==> !Leaves(g, maxDelay, start, trace[j])
    ensures o.TimedOut? ==>
              0 < o.used && FirstExitFrom(g, maxDelay, start, trace, i, o.used - 1)
              && trace[o.used - 1].echo == High
    ensures o.EchoEnded? ==>
              0 < o.used && FirstExitFrom(g, maxDelay, start, trace, i, o.used - 1)
              && trace[o.used - 1].echo == Low
              && o.elapsed == Sub(trace[o.used - 1].micros, Sub(Deadline(start, maxDelay), maxDelay))
    decreases |trace| - i
  {
    if i == |trace| then
      Waiting
    else if trace[i].echo == High then
      if Expired(g, maxDelay, start, trace[i].micros) then TimedOut(i + 1)
      else WaitFrom(g, maxDelay, start, trace, i + 1)
    else
      EchoEnded(Sub(trace[i].micros, Sub(Deadline(start, maxDelay), maxDelay)), i + 1)
  }

  /** The whole wait loop, from the first sample. */
  function Wait(g: Guard, maxDelay: U32, start: U32, trace: seq<Sample>): Outcome
  {
    WaitFrom(g, maxDelay, start, trace, 0)
  }

  /** `Sensor::receivePulse`: a loop over the injected samples, with the
      timeout test `g` (`AsWritten` is the source's). The value the source
      returns is `o.Returned()`. */
  method ReceivePulse(g: Guard, maxDelay: U32, start: U32, trace: seq<Sample>) returns (o: Outcome)
    ensures o == Wait(g, maxDelay, start, trace)
    ensures o.Waiting? <==>
              forall j :: 0 <= j < |trace| ==>
                trace[j].echo == High && !Expired(g, maxDelay, start, trace[j].micros)
    ensures o.TimedOut? ==>
              1 <= o.used <= |trace|
              && trace[o.used - 1].echo == High
              && Expired(g, maxDelay, start, trace[o.used - 1].micros)
              && forall j :: 0 <= j < o.used - 1 ==>
                   trace[j].echo == High && !Expired(g, maxDelay, start, trace[j].micros)
    ensures o.EchoEnded? ==>
              1 <= o.used <= |trace|
              && trace[o.used - 1].echo == Low
              && o.elapsed == Sub(trace[o.used - 1].micros, start)
              && forall j :: 0 <= j < o.used - 1 ==>
                   trace[j].echo == High && !Expired(g, maxDelay, start, trace[j].micros)
  {
    var maxTime := Add(start, maxDelay);
    var i := 0;
    while i < |trace| && trace[i].echo == High
      invariant i <= |trace|
      invariant forall j :: 0 <= j < i ==>
                  trace[j].echo == High && !Expired(g, maxDelay, start, trace[j].micros)
      invariant Wait(g, maxDelay, start, trace) == WaitFrom(g, maxDelay, start, trace, i)
    {
      if Expired(g, maxDelay, start, trace[i].micros) {
        return TimedOut(i + 1);
      }
      i := i + 1;
    }
    if i == |trace| {
      return Waiting;
    }
    SubUndoesAdd(start, maxDelay);
    return EchoEnded(Sub(trace[i].micros, Sub(maxTime, maxDelay)), i + 1);
  }

  /** Whichever guard is used, the value returned after the pin goes LOW is
      the wrapped time elapsed since `start`: `max_time - maxDelay` wraps back
      to the start time. */
  lemma EchoEndedIsElapsed(g: Guard, maxDelay: U32, start: U32, trace: seq<Sample>)
    ensures Wait(g, maxDelay, start, trace).EchoEnded? ==>
              Wait(g, maxDelay, start, trace).elapsed
                == Sub(trace[Wait(g, maxDelay, start, trace).used - 1].micros, start)
  {
  }

  /** Timeout and termination: if the pin reads HIGH up to sample `k` and the
      clock reading of sample `k` has expired, the loop leaves through the
      timeout branch no later than sample `k`, and the source returns 0. */
  lemma TimesOutWhileHigh(g: Guard, maxDelay: U32, start: U32, trace: seq<Sample>, k: nat)
    requires k < |trace|
    requires forall j :: 0 <= j <= k ==> trace[j].echo == High
    requires Expired(g, maxDelay, start, trace[k].micros)
    ensures Wait(g, maxDelay, start, trace).TimedOut?
    ensures Wait(g, maxDelay, start, trace).used <= k + 1
    ensures Wait(g, maxDelay, start, trace).Returned() == 0
  {
  }

  /** If the pin reads LOW at sample `k` and every earlier sample was HIGH
      and not expired, the loop returns the wrapped time elapsed between
      `start` and the clock reading of sample `k`. */
  lemma EchoMeasured(g: Guard, maxDelay: U32, start: U32, trace: seq<Sample>, k: nat)
    requires k < |trace| && trace[k].echo == Low
    requires forall j :: 0 <= j < k ==>
               trace[j].echo == High && !Expired(g, maxDelay, start, trace[j].micros)
    ensures Wait(g, maxDelay, start, trace) == EchoEnded(Sub(trace[k].micros, start), k + 1)
  {
  }

  /** As written, when `start + maxDelay` overflows 32 bits the deadline wraps
      below `start`, so the first HIGH sample read before the clock itself
      wraps already counts as expired: the loop times out at once, whatever
      the elapsed time. */
  lemma OverflowTimesOutAtOnce(maxDelay: U32, start: U32, trace: seq<Sample>)
    requires MODULUS <= start + maxDelay
    requires 0 < |trace| && trace[0].echo == High && start <= trace[0].micros
    ensures Wait(AsWritten, maxDelay, start, trace) == TimedOut(1)
  {
  }

  /** A concrete instance: 5 microseconds after a start near the top of the
      clock, with a 100 microsecond budget, the as-written loop reports a
      timeout while the wrap-safe loop is still waiting for the echo. */
  lemma SpuriousTimeoutNearWrap()
    ensures var trace := [Sample(High, 0xFFFF_FFF5)];
            && Sub(trace[0].micros, 0xFFFF_FFF0) == 5
            && Wait(AsWritten, 100, 0xFFFF_FFF0, trace) == TimedOut(1)
            && Wait(WrapSafe, 100, 0xFFFF_FFF0, trace) == Waiting
  {
  }

  /** As written, when the deadline lands on the largest `unsigned long` no
      clock reading is above it: a pin stuck HIGH is never timed out. */
  lemma NoTimeoutAtTopDeadline(maxDelay: U32, start: U32, trace: seq<Sample>)
    requires Deadline(start, maxDelay) == MAX_U32
    ensures !Wait(AsWritten, maxDelay, start, trace).TimedOut?
  {
  }

  /** With the wrap-safe guard a timeout is always genuine: the sample that
      ends the loop was read more than `maxDelay` microseconds after `start`,
      and every earlier sample was HIGH within the budget. */
  lemma WrapSafeTimeoutIsGenuine(maxDelay: U32, start: U32, trace: seq<Sample>)
    ensures var o := Wait(WrapSafe, maxDelay, start, trace);
            o.TimedOut? ==>
              && Sub(trace[o.used - 1].micros, start) > maxDelay
              && forall j :: 0 <= j < o.used - 1 ==>
                   trace[j].echo == High && Sub(trace[j].micros, start) <= maxDelay
  {
  }

  /** The wrap-safe guard never leaves a stuck-HIGH pin spinning: once any
      sample is read more than `maxDelay` after `start`, the loop has timed
      out, wherever `start` lies on the clock. */
  lemma WrapSafeAlwaysTimesOut(maxDelay: U32, start: U32, trace: seq<Sample>, k: nat)
    requires k < |trace|
    requires forall j :: 0 <= j <= k ==> trace[j].echo == High
    requires Sub(trace[k].micros, start) > maxDelay
    ensures Wait(WrapSafe, maxDelay, start, trace).TimedOut?
  {
  }

  /** When the deadline does not overflow and the clock does not wrap during
      the wait, the two guards agree on every trace. */
  lemma GuardsAgreeWithoutWrap(maxDelay: U32, start: U32, trace: seq<Sample>)
    requires start + maxDelay < MODULUS
    requires forall j :: 0 <= j < |trace| ==> start <= trace[j].micros
    ensures Wait(AsWritten, maxDelay, start, trace) == Wait(WrapSafe, maxDelay, start, trace)
  {
  }
}
