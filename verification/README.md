# HC-SR04 distance sensor driver — Dafny model

This project models the measure-and-decide logic of the Arduino `Sensor`
driver (`arduino/libraries/sensor/sensor.cpp`). The driver times the echo
pulse of an HC-SR04 ultrasonic sensor and uses the distance to stop or start
an engine. The model covers three parts:

- **Echo measurement** (`Sensor::receivePulse`). This is a busy-wait with a
  timeout. The microsecond clock and the echo pin are injected: `start` is
  the first `micros()` reading, and a trace of `Sample(level, micros)` stands
  for every later pass through the loop. Each sample is the pin level read at
  line 94 plus the clock reading taken right after it. That reading is the
  timeout test at line 96 when the pin is HIGH, and the final reading at
  line 104 when it is LOW. `unsigned long` is 32 bits on AVR, so all clock
  arithmetic wraps modulo 2^32 (module `Arith32`). The trace is finite. The
  outcome `Waiting` means the loop was still spinning when the trace ran
  out. The timeout test is a parameter (`Guard`): `AsWritten` is the
  source's plain comparison with the wrapped deadline, and `WrapSafe` is the
  corrected test described under Findings.
- **Decision** (`Sensor::poll`). A returned 0 skips the cycle. Otherwise the
  distance is `duration / PULSE_DIVIDE`, using truncating division. A near
  obstacle stops the engine. A clear way queries `isStopped()` and starts the
  engine only if it is stopped. The engine is an abstract state
  (`Stopped`/`Running`) plus a log of the calls the sensor made on it, so the
  contracts can say exactly which calls happen.
- **Timer1 compare value** (constructor). `(16000000 / (64 * 4)) - 1 = 62499`
  fits the 16-bit OCR1A register and gives a period of exactly 250 ms.

The header constants `MAX_DELAY`, `PULSE_DIVIDE` and `MAX_DISTANCE` live in
`sensor.h`, which is not part of this model. They are fields of
`Sensor.Config`, and the only requirement on them is `PULSE_DIVIDE > 0`. The
datasheet divisor 58 is used in the example lemmas.

Files: `arith32.dfy` (wrapping `unsigned long`), `echo.dfy` (measurement),
`engine.dfy` (abstract engine and call log), `sensor.dfy` (poll decision and
repeated polls), `timer.dfy` (compare value).

The code differs from a plain reading of the intended behaviour in one
respect, and the model follows the code. In the near zone `poll` calls
`stop()` on every valid reading, even when the engine is already stopped; it
does not do nothing. `Sensor.NearReadingsOnlyStop` states this: one `stop()`
per reading, and never a query or a `start()`.

Like the source, the measurement assumes the echo pin is already HIGH when
the wait begins. The model keeps this behaviour as it is. A poll that starts
after the echo has ended reads LOW at once and returns the few microseconds
since the start. If that is 0, `poll` cannot tell it apart from a timeout and
skips the cycle. If it is nonzero but shorter than one distance unit, the
distance is 0 and `poll` calls `stop()`, even when the way is clear.
`Sensor.EchoAlreadyLowStops` proves this for every such input. In
`Sensor.EchoAlreadyLowScenario`, a first read 4 µs after the start is already
LOW, and a running engine is stopped.

## Model

| member | source | states |
|---|---|---|
| Arith32.Add | arduino/libraries/sensor/sensor.cpp:91 | `micros() + MAX_DELAY` on `unsigned long`: the exact sum below 2^32, and the sum minus 2^32 when it overflows |
| Arith32.Sub | arduino/libraries/sensor/sensor.cpp:104 | `unsigned long` subtraction: the exact difference when no borrow occurs, and the difference plus 2^32 otherwise |
| Arith32.SubUndoesAdd | arduino/libraries/sensor/sensor.cpp:91-104 | `max_time - MAX_DELAY` gives back the start time, even when computing `max_time` wrapped |
| Echo.WaitFrom | arduino/libraries/sensor/sensor.cpp:94-104 | the wait loop keeps going exactly while samples are HIGH and unexpired; it stops at the first sample that is LOW or expired; a HIGH stop is a timeout; a LOW stop returns `now - (max_time - MAX_DELAY)` |
| Echo.ReceivePulse | arduino/libraries/sensor/sensor.cpp:87-105 | the loop method agrees with the reference definition; a timeout happens at the first expired HIGH sample after only unexpired HIGH ones; a LOW sample returns the wrapped time elapsed since `start` |
| Echo.EchoEndedIsElapsed | arduino/libraries/sensor/sensor.cpp:104 | whatever the timeout test, the value returned when the pin goes LOW is the wrapped time elapsed since the first clock reading |
| Echo.TimesOutWhileHigh | arduino/libraries/sensor/sensor.cpp:94-99 | termination: while the pin stays HIGH, the first expired clock reading ends the loop through the timeout branch no later than that sample, returning 0 |
| Echo.EchoMeasured | arduino/libraries/sensor/sensor.cpp:91-104 | a LOW read after only HIGH, unexpired samples returns exactly `(now - start) mod 2^32` and consumes exactly those samples |
| Echo.OverflowTimesOutAtOnce | arduino/libraries/sensor/sensor.cpp:91-98 | as written, when `start + MAX_DELAY` overflows, the first HIGH sample read before the clock wraps times out at once |
| Echo.SpuriousTimeoutNearWrap | arduino/libraries/sensor/sensor.cpp:91-98 | a concrete case: 5 µs into a 100 µs budget near the top of the clock, the as-written loop times out while the wrap-safe loop keeps waiting |
| Echo.NoTimeoutAtTopDeadline | arduino/libraries/sensor/sensor.cpp:91-98 | as written, when the wrapped deadline is 2^32 - 1, no trace ever leads to a timeout |
| Echo.WrapSafeTimeoutIsGenuine | arduino/libraries/sensor/sensor.cpp:88-98 | with the wrap-safe test, a timeout means the ending sample was read more than `MAX_DELAY` µs after the start, and every earlier sample was HIGH and within budget |
| Echo.WrapSafeAlwaysTimesOut | arduino/libraries/sensor/sensor.cpp:88-98 | with the wrap-safe test, a pin held HIGH past `MAX_DELAY` µs always times out, wherever the start lies on the clock |
| Echo.GuardsAgreeWithoutWrap | arduino/libraries/sensor/sensor.cpp:91-98 | when neither the deadline nor the clock wraps, the as-written and wrap-safe loops give the same outcome on every trace |
| Sensor.Distance | arduino/libraries/sensor/sensor.cpp:114 | `duration / PULSE_DIVIDE` is the largest whole distance `d` with `d * PULSE_DIVIDE <= duration` |
| Sensor.Poll | arduino/libraries/sensor/sensor.cpp:107-120 | the log only grows; a 0 duration changes nothing; a near reading makes exactly `[stop]`; a clear reading makes `[isStopped, start]` on a stopped engine and `[isStopped]` on a running one |
| Sensor.PollAll | arduino/libraries/sensor/sensor.cpp:107-112 | over repeated polls the call log only grows, and a run of timed-out readings leaves the engine untouched |
| Sensor.SentinelMakesNoCall | arduino/libraries/sensor/sensor.cpp:110-112 | a 0 measurement makes no engine call at all and keeps the state |
| Sensor.PollSettlesInZone | arduino/libraries/sensor/sensor.cpp:114-119 | a valid reading leaves the engine in its zone's state (stopped if near, running if clear); `start()` is issued once when the way is clear and the engine is stopped, and never otherwise |
| Sensor.SameZoneIsSteady | arduino/libraries/sensor/sensor.cpp:114-119 | idempotence: a second valid reading in the same zone issues no `start()` and leaves the state unchanged |
| Sensor.ClearReadingsStartOnce | arduino/libraries/sensor/sensor.cpp:117-119 | any run of clear readings makes exactly the calls `isStopped, start, isStopped, …` on a stopped engine and `isStopped, isStopped, …` on a running one: at most one `start()`, never a `stop()`, and the engine ends running |
| Sensor.NearReadingsOnlyStop | arduino/libraries/sensor/sensor.cpp:115-116 | any run of near readings makes exactly one `stop()` per reading and nothing else (no `isStopped()`, no `start()`), and leaves the engine stopped |
| Sensor.LastValidReadingDecides | arduino/libraries/sensor/sensor.cpp:110-119 | after any run of polls, the engine is in the state called for by the last valid reading; timed-out readings after it are sticky no-ops |
| Sensor.PollCycle | arduino/libraries/sensor/sensor.cpp:107-120 | a whole poll: a timeout makes no engine call; an echo decides on the elapsed time since the start |
| Sensor.ClearWayScenario | arduino/libraries/sensor/sensor.cpp:114-119 | an echo held HIGH for 5800 µs measures 5800, which is 100 cm at divisor 58; with a 50 cm threshold this starts a stopped engine |
| Sensor.ObstacleScenario | arduino/libraries/sensor/sensor.cpp:114-116 | a 1160 µs echo is 20 cm, which stops a running engine with a single `stop()` |
| Sensor.EchoAlreadyLowStops | arduino/libraries/sensor/sensor.cpp:91-116 | if the first read already finds the echo LOW, the loop returns the elapsed time after one sample; a nonzero value below `PULSE_DIVIDE` is distance 0, so `poll` makes exactly one `stop()` and leaves the engine stopped |
| Sensor.EchoAlreadyLowScenario | arduino/libraries/sensor/sensor.cpp:91-116 | start 1000 with a first read `LOW` at 1004 returns 4, which is distance 0 at divisor 58, so a running engine gets a single `stop()` |
| Timer1.CompareValue | arduino/libraries/sensor/sensor.cpp:32-37 | the compare value `clock / (prescaler * freq) - 1` is the largest `top` such that `top + 1` prescaled ticks fit in one period |
| Timer1.Ocr1aIsExact | arduino/libraries/sensor/sensor.cpp:58-60 | 62499 is the formula's value for 16 MHz, prescaler 64 and 4 Hz; it fits 16 bits, and `(62499 + 1) * 64 * 4 = 16000000` exactly |
| Timer1.EightBitTimersTooSmall | arduino/libraries/sensor/sensor.cpp:39-45 | 62499 does not fit 8 bits, and even the 8-bit timers' largest prescaler, 1024, leaves a compare value above 255 |

## Left out

- Timer1 register programming (`TCCR1A`, `TCCR1B`, `TCNT1`, `TIMSK1`, the mode and clock-select bits) and `noInterrupts`/`interrupts` are left out. They are memory-mapped hardware configuration; only the compare constant carries logic.
- The timer interrupt handler is left out. It fires asynchronously, possibly during a measurement, and interrupt concurrency is not modelled.
- `generatePulse` is left out. It is a pin write, a fixed microsecond delay and another pin write, which is pure I/O timing.
- `pinMode` setup and the global `sensor` singleton are left out. They are hardware setup and a global variable declared in a header that is not part of this model.
- The engine's implementation is left out. The engine is an abstract collaborator. That `stop()` leaves it stopped and `start()` leaves it running is an assumption, and every statement about the engine's resulting state depends on it. That includes the state clauses of `Sensor.Poll`, and `PollSettlesInZone`, `SameZoneIsSteady`, `ClearReadingsStartOnce`, `NearReadingsOnlyStop`, `LastValidReadingDecides`, `ClearWayScenario`, `ObstacleScenario`, `EchoAlreadyLowStops` and `EchoAlreadyLowScenario`. The call logs over runs of polls (`ClearReadingsStartOnce`, `SameZoneIsSteady`) depend on it too, because each later poll's `isStopped()` answer comes from the state the earlier polls left. The call log of a single poll from a given engine state does not depend on it.
- Instruction overhead between the clock readings is left out. The samples are whatever the clock returned, so any overhead is already inside them.
- Echo.ReceivePulse: a finite trace cannot show an endless spin. When the trace runs out inside the loop, the outcome is `Waiting`, whereas the source would keep reading the pin.

## Findings

| source | as written | input that shows it | evidently intended | confidence | as-written member | corrected member |
|---|---|---|---|---|---|---|
| arduino/libraries/sensor/sensor.cpp:91-98 | the timeout test is `micros() > max_time`, where `max_time = micros() + MAX_DELAY` wraps modulo 2^32 | start `0xFFFFFFF0`, `MAX_DELAY` 100, echo HIGH at `0xFFFFFFF5`: returns 0 after 5 µs; and for start `2^32 - 1 - MAX_DELAY`, a stuck-HIGH echo never times out | compare the elapsed time: `micros() - start > MAX_DELAY` | not executed; high (the 32-bit microsecond clock wraps about every 71.6 minutes) | Echo.OverflowTimesOutAtOnce | Echo.WrapSafeTimeoutIsGenuine |

`Echo.SpuriousTimeoutNearWrap` and `Echo.NoTimeoutAtTopDeadline` show the two
failures on the as-written test. `Echo.WrapSafeAlwaysTimesOut` proves the
corrected test cannot spin forever. `Echo.GuardsAgreeWithoutWrap` proves it
behaves like the original whenever nothing wraps. `Echo.ReceivePulse` and
`Sensor.PollCycle` take the test as a parameter, and the decision in
`Sensor.Poll` depends only on the returned duration, so the rest of the model
applies to the corrected measurement too.
