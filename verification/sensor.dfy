/** The decision half of `Sensor::poll`: skip a timed-out measurement,
    convert the echo duration to a distance by truncating division, and stop
    the engine when the obstacle is near, or start it if it is stopped when
    the way is clear. The constants of the unseen `sensor.h` header are
    parameters. */
module Sensor {
  import opened Arith32
  import opened Echo
  import opened Engines

  /** The header constants: the measurement budget `MAX_DELAY`, the divisor
      `PULSE_DIVIDE` from echo time to centimetres and the stop threshold
      `MAX_DISTANCE`. */
  datatype Config = Config(maxDelay: U32, pulseDivide: nat, maxDistance: nat) {
    predicate Valid()
    {
      pulseDivide > 0
    }
  }

  /** The divisor the HC-SR04 datasheet gives for centimetres. */
  const DATASHEET_DIVIDE: nat := 58

  /** `duration / PULSE_DIVIDE` on `unsigned long`: the largest whole
      distance whose echo time does not exceed the duration. */
  function Distance(duration: U32, divide: nat): (d: U32)
    requires divide > 0
    ensures d * divide <= duration < (d + 1) * divide
  {
    duration / divide
  }

  /** The obstacle is within the stop threshold. */
  predicate Near(c: Config, duration: U32)
    requires c.Valid()
  {
    Distance(duration, c.pulseDivide) < c.maxDistance
  }

  /** The state a valid reading calls for: stopped when near, running when
      clear. There is no hysteresis band. */
  function ZoneState(c: Config, duration: U32): State
    requires c.Valid()
  {
    if Near(c, duration) then Stopped else Running
  }

  /** One decision of `Sensor::poll`, given the value `receivePulse` returned. */
  function Poll(c: Config, duration: U32, e: Engine): (e': Engine)
    requires c.Valid()
    ensures e.log <= e'.log
    ensures duration == 0 ==> e' == e
    ensures duration != 0 && Near(c, duration) ==>
              NewCalls(e, e') == [StopCall] && e'.state == Stopped
    ensures duration != 0 && !Near(c, duration) && e.state == Stopped ==>
              NewCalls(e, e') == [IsStoppedCall, StartCall] && e'.state == Running
    ensures duration != 0 && !Near(c, duration) && e.state == Running ==>
              NewCalls(e, e') == [IsStoppedCall] && e'.state == Running
  {
    if duration == 0 then
      e
    else
      var distance := duration / c.pulseDivide;
      if distance < c.maxDistance then
        e.Stop()
      else
        var (stopped, e1) := e.IsStopped();
        if stopped then e1.Start() else e1
  }

  /** Repeated polls, one per measured duration, oldest first. */
  function PollAll(c: Config, ds: seq<U32>, e: Engine): (e': Engine)
    requires c.Valid()
    ensures e.log <= e'.log
    ensures (forall i :: 0 <= i < |ds| ==> ds[i] == 0) ==> e' == e
    decreases |ds|
  {
    if |ds| == 0 then e else PollAll(c, ds[1..], Poll(c, ds[0], e))
  }

  /** A timed-out measurement leaves the engine alone: no call at all. */
  lemma SentinelMakesNoCall(c: Config, e: Engine)
    requires c.Valid()
    ensures NewCalls(e, Poll(c, 0, e)) == []
    ensures Poll(c, 0, e).state == e.state
  {
  }

  /** A valid reading puts the engine in the state its zone calls for, and
      `start()` is issued only when the engine was stopped and the way is
      clear. */
  lemma PollSettlesInZone(c: Config, duration: U32, e: Engine)
    requires c.Valid() && duration != 0
    ensures Poll(c, duration, e).state == ZoneState(c, duration)
    ensures CountCalls(e, Poll(c, duration, e), StartCall)
              == (if !Near(c, duration) && e.state == Stopped then 1 else 0)
  {
  }

  /** Idempotence: after one valid reading has moved the engine into its
      zone's state, another reading in the same zone makes no `start()` call
      and leaves the state as it is. */
  lemma SameZoneIsSteady(c: Config, d1: U32, d2: U32, e: Engine)
    requires c.Valid() && d1 != 0 && d2 != 0
    requires Near(c, d1) == Near(c, d2)
    ensures var e1 := Poll(c, d1, e);
            var e2 := Poll(c, d2, e1);
            e2.state == e1.state && CountCalls(e1, e2, StartCall) == 0
  {
  }

  /** A run of valid clear-way readings starts the engine at most once:
      every reading queries `isStopped()`, only the first can be followed by
      `start()` (when the engine was stopped), nothing stops it, and the
      engine ends running. */
  lemma {:induction false} ClearReadingsStartOnce(c: Config, ds: seq<U32>, e: Engine)
    requires c.Valid() && |ds| > 0
    requires forall i :: 0 <= i < |ds| ==> ds[i] != 0 && !Near(c, ds[i])
    ensures PollAll(c, ds, e)
              == Engine(Running,
                        e.log
                        + (if e.state == Stopped then [IsStoppedCall, StartCall] else [IsStoppedCall])
                        + seq(|ds| - 1, _ => IsStoppedCall))
    decreases |ds|
  {
    var e1 := Poll(c, ds[0], e);
    assert PollAll(c, ds, e) == PollAll(c, ds[1..], e1);
    if |ds| > 1 {
      ClearReadingsStartOnce(c, ds[1..], e1);
      assert [IsStoppedCall] + seq(|ds| - 2, _ => IsStoppedCall) == seq(|ds| - 1, _ => IsStoppedCall);
    }
  }

  /** A run of valid near readings never queries or starts the engine; it
      issues `stop()` once per reading, even when already stopped, and leaves
      the engine stopped. */
  lemma {:induction false} NearReadingsOnlyStop(c: Config, ds: seq<U32>, e: Engine)
    requires c.Valid()
    requires forall i :: 0 <= i < |ds| ==> ds[i] != 0 && Near(c, ds[i])
    ensures PollAll(c, ds, e)
              == Engine(if |ds| > 0 then Stopped else e.state, e.log + seq(|ds|, _ => StopCall))
    decreases |ds|
  {
    if |ds| > 0 {
      var e1 := Poll(c, ds[0], e);
      assert PollAll(c, ds, e) == PollAll(c, ds[1..], e1);
      NearReadingsOnlyStop(c, ds[1..], e1);
      assert [StopCall] + seq(|ds| - 1, _ => StopCall) == seq(|ds|, _ => StopCall);
    }
  }

  /** Over any run of polls the engine ends in the state the last valid
      reading calls for; timed-out readings after it change nothing. */
  lemma {:induction false} LastValidReadingDecides(c: Config, ds: seq<U32>, e: Engine, k: nat)
    requires c.Valid()
    requires k < |ds| && ds[k] != 0
    requires forall j :: k < j < |ds| ==> ds[j] == 0
    ensures PollAll(c, ds, e).state == ZoneState(c, ds[k])
    decreases |ds|
  {
    var e1 := Poll(c, ds[0], e);
    assert PollAll(c, ds, e) == PollAll(c, ds[1..], e1);
    if k == 0 {
      assert forall i :: 0 <= i < |ds[1..]| ==> ds[1..][i] == 0;
    } else {
      LastValidReadingDecides(c, ds[1..], e1, k - 1);
    }
  }

  /** `Sensor::poll` in full: measure on the injected samples with the
      timeout test `g`, then decide. When the samples run out before the wait
      loop returns, the poll has not reached its decision and the engine is
      untouched. */
  method PollCycle(g: Guard, c: Config, start: U32, trace: seq<Sample>, e: Engine) returns (o: Outcome, e': Engine)
    requires c.Valid()
    ensures o == Wait(g, c.maxDelay, start, trace)
    ensures o.Waiting? || o.TimedOut? ==> e' == e
    ensures o.EchoEnded? ==> e' == Poll(c, Sub(trace[o.used - 1].micros, start), e)
  {
    o := ReceivePulse(g, c.maxDelay, start, trace);
    if o.Waiting? {
      e' := e;
    } else {
      e' := Poll(c, o.Returned(), e);
    }
  }

  /** The datasheet example: an echo 5800 microseconds long is 100 cm away,
      beyond a 50 cm threshold, so a stopped engine is started. */
  lemma ClearWayScenario()
    ensures var c := Config(40000, DATASHEET_DIVIDE, 50);
            var trace := [Sample(High, 3000), Sample(High, 5000), Sample(Low, 6800)];
            var e := Engine(Stopped, []);
            && Wait(AsWritten, c.maxDelay, 1000, trace) == EchoEnded(5800, 3)
            && Distance(5800, c.pulseDivide) == 100
            && Poll(c, 5800, e) == Engine(Running, [IsStoppedCall, StartCall])
  {
  }

  /** An echo 1160 microseconds long is 20 cm away: the engine is stopped. */
  lemma ObstacleScenario()
    ensures var c := Config(40000, DATASHEET_DIVIDE, 50);
            && Distance(1160, c.pulseDivide) == 20
            && Poll(c, 1160, Engine(Running, [])) == Engine(Stopped, [StopCall])
  {
  }

  /** The measurement assumes the echo pin is already HIGH. If the echo has
      ended before the wait begins, the first read is LOW and the loop returns
      the few microseconds since `start`. A nonzero value shorter than one
      distance unit is distance 0, so the engine is stopped even though the
      way may be clear. */
  lemma EchoAlreadyLowStops(c: Config, start: U32, trace: seq<Sample>, e: Engine)
    requires c.Valid() && c.maxDistance > 0
    requires |trace| > 0 && trace[0].echo == Low
    requires 0 < Sub(trace[0].micros, start) < c.pulseDivide
    ensures Wait(AsWritten, c.maxDelay, start, trace) == EchoEnded(Sub(trace[0].micros, start), 1)
    ensures Poll(c, Sub(trace[0].micros, start), e) == Engine(Stopped, e.log + [StopCall])
  {
    var d := Sub(trace[0].micros, start);
    EchoMeasured(AsWritten, c.maxDelay, start, trace, 0);
    assert Distance(d, c.pulseDivide) == 0 by {
      assert d / c.pulseDivide == 0;
    }
  }

  /** A concrete case: the first read, 4 microseconds after `start`, is
      already LOW; the reading is 4, distance 0, and a running engine is
      stopped. */
  lemma EchoAlreadyLowScenario()
    ensures var c := Config(40000, DATASHEET_DIVIDE, 50);
            var trace := [Sample(Low, 1004)];
            && Wait(AsWritten, c.maxDelay, 1000, trace) == EchoEnded(4, 1)
            && Distance(4, c.pulseDivide) == 0
            && Poll(c, 4, Engine(Running, [])) == Engine(Stopped, [StopCall])
  {
  }
}
