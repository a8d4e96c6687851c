/** The millisecond time base both programs share: a 32-bit counter that
    the Timer0 compare-match interrupt advances once per millisecond, and
    `millis()`, which reads it. The interrupt is an explicit `Tick` call;
    the `cli()`/`sei()` bracket around the read is not modelled, because
    with ticks as explicit calls no tick can land inside a read. */
module MillisClock {
  import opened Word

  class Clock {
    /** `volatile unsigned long millisCounter` */
    var millisCounter: u32

    /** The global starts at 0. */
    constructor ()
      ensures millisCounter == 0
    {
      millisCounter := 0;
    }

    /** `ISR(TIMER0_COMP_vect)`: the counter goes up by one, modulo 2^32. */
    method Tick()
      modifies this
      ensures millisCounter == Succ(old(millisCounter))
    {
      millisCounter := Succ(millisCounter);
    }

    /** `millis()`: a snapshot of the counter; nothing changes, so two reads
        with no tick between them agree. */
    method Millis() returns (ms: u32)
      ensures ms == millisCounter
    {
      ms := millisCounter;
    }
  }
}
