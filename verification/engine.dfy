/** The engine the sensor drives, seen only through the three operations the
    sensor calls. Its implementation is not part of this model: the engine is
    an abstract two-state machine plus a log of the calls it received. */
module Engines {

  datatype State = Stopped | Running

  /** A call the sensor makes on the engine. */
  datatype Call = StopCall | StartCall | IsStoppedCall

  /** The engine as the sensor observes it: its state and, oldest first, the
      calls made on it. */
  datatype Engine = Engine(state: State, log: seq<Call>) {

    /** `engine.stop()`, assumed to leave the engine stopped. */
    function Stop(): Engine
    {
      Engine(Stopped, log + [StopCall])
    }

    /** `engine.start()`, assumed to leave the engine running. */
    function Start(): Engine
    {
      Engine(Running, log + [StartCall])
    }

    /** `engine.isStopped()`: answers from the state and changes nothing but
        the log. */
    function IsStopped(): (bool, Engine)
    {
      (state == Stopped, Engine(state, log + [IsStoppedCall]))
    }
  }

  /** The calls made between two observations of the same engine. */
  function NewCalls(before: Engine, after: Engine): seq<Call>
    requires before.log <= after.log
  {
    after.log[|before.log|..]
  }

  /** How many times `call` was made between two observations. */
  function CountCalls(before: Engine, after: Engine, call: Call): nat
    requires before.log <= after.log
  {
    multiset(NewCalls(before, after))[call]
  }
}
