/** Timer0/timer.c: Timer0 in CTC mode raises a compare-match interrupt
    every millisecond, and the main loop toggles the LED on PB1 whenever
    `millis() - previous >= 1000`, then sets `previous` to the time read.
    One pass of the `while (1)` body is `Blinker.Step`. */
module Timer0 {
  import opened Word
  import opened Bits
  import opened MillisClock

  /** `F_CPU`: the CPU clock, 8 MHz. */
  const F_CPU: nat := 8000000
  /** `TIMER0_PRESCALER`: Timer0 counts once every 64 CPU cycles. */
  const TIMER0_PRESCALER: nat := 64
  /** The compare value written to `OCR0`. */
  const OCR0: nat := 124
  /** `delayTime`: milliseconds between two toggles. */
  const DELAY_TIME: u32 := 1000
  /** The LED is on bit 1 of PORTB (PB1). */
  const LED_BIT: nat := 1

  /** `F_CPU / (Prescaler * Desired_Frequency) - 1` in integer arithmetic:
      in CTC mode the timer counts 0..ocr, so one interrupt period is
      `ocr + 1` timer counts; this is the largest such period that is not
      longer than the desired one. */
  function CompareValue(fCpu: nat, prescaler: nat, rate: nat): (ocr: int)
    requires prescaler > 0 && rate > 0
    ensures (ocr + 1) * (prescaler * rate) <= fCpu < (ocr + 2) * (prescaler * rate)
  {
    var d := prescaler * rate;
    var q := fCpu / d;
    assert fCpu == q * d + fCpu % d;
    q - 1
  }

  /** At 8 MHz with prescaler 64, 124 gives exactly one interrupt per
      millisecond: (124 + 1) * 64 cycles = 8000 cycles = 1 ms. */
  lemma OneInterruptPerMillisecond()
    ensures CompareValue(F_CPU, TIMER0_PRESCALER, 1000) == OCR0
    ensures (OCR0 + 1) * TIMER0_PRESCALER * 1000 == F_CPU
  {
  }

  /** `millis() - previous >= delayTime`, on `unsigned long`s. */
  predicate Due(now: u32, previous: u32)
  {
    Sub(now, previous) >= DELAY_TIME
  }

  /** The step toggles exactly when at least 1000 ticks have passed since
      `previous`, whether or not the counter wrapped in between (for fewer
      than 2^32 ticks). So after a toggle, which sets `previous` to the
      current time, the next one comes exactly 1000 ticks later. */
  lemma {:induction false} DueExactlyAfterDelay(previous: u32, n: nat)
    requires n < WORD
    ensures Due(Advance(previous, n), previous) <==> n >= DELAY_TIME
  {
    SubCountsIncrements(previous, n);
  }

  /** Unlike `isTimeElapsed` in the debounced-button program, the wrap of
      the counter does not fire the step early: one tick after 2^32 - 1 is
      not due. */
  lemma NoEarlyToggleAtWrap()
    ensures Advance(WORD - 1, 1) == 0
    ensures !Due(0, WORD - 1)
  {
  }

  /** The program's globals and the PORTB/DDRB registers it drives. */
  class Blinker {
    /** The tick counter `millisCounter` and its `millis()`. */
    const clock: Clock
    /** `unsigned long previous` */
    var previous: u32
    var portb: bv8
    var ddrb: bv8

    /** Before `main`: the globals `millisCounter` and `previous` are 0;
        the registers hold whatever they hold. */
    constructor (portb: bv8, ddrb: bv8)
      ensures fresh(clock) && clock.millisCounter == 0 && previous == 0
      ensures this.portb == portb && this.ddrb == ddrb
    {
      clock := new Clock();
      previous := 0;
      this.portb, this.ddrb := portb, ddrb;
    }

    /** `ISR(TIMER0_COMP_vect)`: the counter goes up by one, modulo 2^32;
        nothing else changes. */
    method Tick()
      modifies clock
      ensures clock.millisCounter == Succ(old(clock.millisCounter))
    {
      clock.Tick();
    }

    /** The start of `main` after `initTimer0`: PB1 becomes an output,
        driven low, and `previous` is set to the current time. */
    method Start()
      modifies this`previous, this`portb, this`ddrb
      ensures ddrb == SetBit(old(ddrb), LED_BIT)
      ensures portb == ClearBit(old(portb), LED_BIT)
      ensures previous == clock.millisCounter
    {
      ddrb := SetBit(ddrb, LED_BIT);
      portb := ClearBit(portb, LED_BIT);
      previous := clock.Millis();
    }

    /** One pass of the `while (1)` body: when 1000 ticks have passed
        since `previous`, PB1 flips (no other PORTB bit moves) and
        `previous` becomes the current time; otherwise nothing changes. */
    method Step()
      modifies this`previous, this`portb
      ensures Due(clock.millisCounter, old(previous)) ==>
                portb == ToggleBit(old(portb), LED_BIT) && previous == clock.millisCounter
      ensures !Due(clock.millisCounter, old(previous)) ==>
                portb == old(portb) && previous == old(previous)
    {
      var now := clock.Millis();
      if Sub(now, previous) >= DELAY_TIME {
        portb := ToggleBit(portb, LED_BIT);
        previous := clock.Millis();
      }
    }
  }
}
