# Debounced button and millisecond timer for the ATmega32A, in Dafny

This project models the two programs of the AVR tutorial repository that
carry state and timing logic:

- **deBounce_Button/deBouncd_Button.c**: a Timer0 compare-match interrupt
  advances a 32-bit millisecond counter, `millis()` reads it, and a
  `DebouncedButton` record debounces an active-low push button on PD6.
  `initButton` clears the record, stores its configuration and makes the
  pin an input with pull-up. `updateButton` is polled from the main loop:
  it reads the pin, restarts the debounce window on every raw change,
  commits the debounced state once the window has elapsed, and returns 1
  exactly on the poll that commits a press.
- **Timer0/timer.c**: the same counter, plus a main loop that toggles the
  LED on PB1 whenever `millis() - previous >= 1000` and then sets
  `previous` to the time read.

Files and modules:

- `word.dfy`, module `Word`: `unsigned long` arithmetic modulo 2^32
  (`Sub`, `Succ`, and `Advance`, the counter after n interrupts), with the
  fact that unsigned subtraction counts the increments between two
  readings, wrap or no wrap.
- `bits.dfy`, module `Bits`: single-bit register operations on `bv8`
  bytes (`Mask`, `SetBit`, `ClearBit`, `ToggleBit`), each proved to change
  only its bit, and the `Register` class that stands for a
  `volatile unsigned char*`.
- `clock.dfy`, module `MillisClock`: the `Clock` class, holding
  `millisCounter`; `Tick` is the interrupt handler and `Millis` is
  `millis()`. Both programs define the same handler and the same
  `millis()` (deBounce_Button/deBouncd_Button.c:50-52 and 104-111,
  Timer0/timer.c:91-93 and 121-132); one class models both.
- `debounce.dfy`, module `Debounce`: `ReadLevel` (the active-low read),
  `IsTimeElapsed`, `Restart` (the window restart on a raw change, lines
  131-133), `Step` (one poll as a function of the record's four state
  fields) and the `DebouncedButton` class with `Init` (`initButton`)
  and `Update` (`updateButton`), the latter proved to change the record
  exactly as `Step` says.
- `debounce_runs.dfy`, module `DebounceRuns`: `Run` folds `Step` over a
  sequence of polls, as the main loop does, and the lemmas about runs:
  edge triggering, the window's lower and upper bounds with exactly one
  report for a held press, glitch rejection, and a 50 ms scenario in which the press is reported at tick 150 and not before.
- `timer0.dfy`, module `Timer0`: the compare-value arithmetic, `Due` (the
  loop condition `millis() - previous >= delayTime` at Timer0/timer.c:150)
  and the `Blinker` class (`Tick`, `Start`, `Step`) for the toggle loop.

Points where the code departs from what a textbook debouncer does; the
model follows the code:

- The disjunct `current < previous` of `isTimeElapsed`
  (deBounce_Button/deBouncd_Button.c:118) looks redundant next to unsigned
  subtraction, which is already wrap-safe. It is not redundant: once the
  counter wraps after the window opened, the check answers true however
  few ticks have passed. `WrapCutsWindowShort` shows a window
  of 50 opened at 2^32 - 1 closing one tick later, at 0. The model keeps
  the disjunct. The Timer0 loop has no such disjunct, and
  `NoEarlyToggleAtWrap` shows it does not fire early at the wrap.
- `initButton` configures the pin itself (its DDR and PORT bits), and it
  accepts any 8-bit delay, 0 included; with delay 0 every poll is
  "elapsed".
- `ButtonState` is the logical state, 1 when pressed, not the pin level:
  the read at line 127 inverts the active-low pin. The scenario lemma
  speaks of `ButtonState`.
- The comment at Timer0/timer.c:114-116 speaks of a 16 MHz clock and a
  compare value of 125; the code uses 8 MHz and 124, and so does the model.

## Model

| member | source | states |
|---|---|---|
| `Word.Sub` | deBounce_Button/deBouncd_Button.c:118 | unsigned `current - previous` is the 32-bit value that, added to `previous`, gives `current` modulo 2^32; with no wrap between them it is the plain difference |
| `Word.Succ` | deBounce_Button/deBouncd_Button.c:51 | `millisCounter++` moves one step forward (unsigned difference 1), is 0 exactly after 2^32 - 1, and otherwise increases |
| `Word.AdvanceWraps` | deBounce_Button/deBouncd_Button.c:51 | `Advance(a, n)`, n interrupts in a row, takes the counter from a to (a + n) mod 2^32 |
| `Word.SubCountsIncrements` | Timer0/timer.c:150 | the unsigned difference of two counter readings is the true number of ticks between them, across a wrap too, for fewer than 2^32 ticks |
| `Bits.Mask` | deBounce_Button/deBouncd_Button.c:97 | `1 << buttonPin` seen in a byte has exactly bit `buttonPin` set (no bit for pins 8 to 15, where the 16-bit mask lies outside the byte) |
| `Bits.MaskIsShift` | deBounce_Button/deBouncd_Button.c:127 | for pins 0 to 7 the mask equals the shift `1 << buttonPin` |
| `Bits.SetBit` | deBounce_Button/deBouncd_Button.c:98 | the OR-assignment of `1 << buttonPin` into PORT sets that bit and keeps every other bit |
| `Bits.ClearBit` | deBounce_Button/deBouncd_Button.c:97 | `*DDRx &= ~(1 << buttonPin)` clears that bit and keeps every other bit |
| `Bits.ToggleBit` | Timer0/timer.c:151 | `PORTB ^= (1 << 1)` flips bit 1 and keeps every other bit |
| `Bits.ToggleTwice` | Timer0/timer.c:151 | two toggles of the same bit restore the original byte |
| `MillisClock.Clock.constructor` | deBounce_Button/deBouncd_Button.c:28 | the counter starts at 0 |
| `MillisClock.Clock.Tick` | deBounce_Button/deBouncd_Button.c:50-52 | the interrupt increases the counter by exactly 1 modulo 2^32 |
| `MillisClock.Clock.Millis` | deBounce_Button/deBouncd_Button.c:104-111 | `millis()` returns the counter's value and changes nothing |
| `Debounce.ReadLevel` | deBounce_Button/deBouncd_Button.c:127 | `ReadButtonState` is 0 or 1, and 1 exactly when bit `buttonPin` of the PIN byte is 0 (active-low) |
| `Debounce.IsTimeElapsed` | deBounce_Button/deBouncd_Button.c:115-119 | with no wrap since `previous` it is true iff `current - previous >= delay`; whenever `current < previous` it is true |
| `Debounce.Step` | deBounce_Button/deBouncd_Button.c:124-150 | a raw change restarts the window at `now` (`Restart`); `ButtonState` moves only when the window has elapsed, and then to the raw read; 1 is returned iff `ButtonState` went to 1 from another value; on that path `previous` and `lastButtonState` are not refreshed; on every other path `lastButtonState` is the raw read, and an elapsed window is re-armed at `now`; the three flags stay in {0,1} |
| `Debounce.DebouncedButton.constructor` | deBounce_Button/deBouncd_Button.c:33-45 | the global `Button1` starts with every field 0 and null register pointers |
| `Debounce.DebouncedButton.Init` | deBounce_Button/deBouncd_Button.c:80-100 | `previous` and the three flags become 0, the delay, pin number and register pointers are the arguments; the PORT byte gets bit `buttonPin` set and the DDR byte (when it is a different register) gets it cleared, all other bits unchanged |
| `Debounce.DebouncedButton.Update` | deBounce_Button/deBouncd_Button.c:124-150 | the record's state fields and the return value are those of `Step` applied to the old fields, the PIN register's byte, the configured delay and `now`; configuration and registers are untouched |
| `DebounceRuns.Run` | deBounce_Button/deBouncd_Button.c:170-176 | repeated polls report at most one press per poll and keep the three flags in {0,1} |
| `DebounceRuns.RunAppend` | deBounce_Button/deBouncd_Button.c:170-176 | polling a + b is polling b from where a left the record, with the reports added up |
| `DebounceRuns.HeldPressReportsAtMostOnce` | deBounce_Button/deBouncd_Button.c:139-149 | however long the button is held and polled, at most one poll returns 1, and none once the press is committed (edge-triggered) |
| `DebounceRuns.ReleasedNeverReports` | deBounce_Button/deBouncd_Button.c:127-149 | polls of a released button never return 1, never commit a press, and leave `lastButtonState` at 0 |
| `DebounceRuns.HeldWithinWindow` | deBounce_Button/deBouncd_Button.c:131-141 | while the raw read stays as at the last poll and fewer than `delay` ticks have passed since the window opened (no counter wrap since the window start), nothing is committed or reported and the window start stays |
| `DebounceRuns.HeldPressCommitsAtWindowEnd` | deBounce_Button/deBouncd_Button.c:131-149 | once a press has opened the window at `t0`, holding the button and polling every tick for at least `delay` ticks (no wrap) leaves it uncommitted and unreported through tick `t0 + delay - 1`, commits and reports it at the poll of tick `t0 + delay`, and reports it exactly once over all the polls |
| `DebounceRuns.BouncesWithinWindowNeverCommit` | deBounce_Button/deBouncd_Button.c:131-141 | polls in time order, all within `delay` ticks of the window start (no counter wrap since the window start), never change `ButtonState` nor report, however the raw read bounces |
| `DebounceRuns.ScenarioPressAtTick150` | deBounce_Button/deBouncd_Button.c:159-176 | with a 50 ms window on PD6, released for ticks 0-99 and pressed from tick 100, polled every tick: nothing before tick 150, and the press is committed and reported at tick 150 |
| `DebounceRuns.WrapCutsWindowShort` | deBounce_Button/deBouncd_Button.c:118 | a 50-tick window opened at 2^32 - 1 commits a press at tick 0, one tick later |
| `Timer0.CompareValue` | deBounce_Button/deBouncd_Button.c:72-74 | `F_CPU / (Prescaler * Frequency) - 1` gives an interrupt period of `ocr + 1` timer counts that is the longest not exceeding the desired one |
| `Timer0.OneInterruptPerMillisecond` | Timer0/timer.c:112 | at 8 MHz with prescaler 64 the formula gives 124, and (124 + 1) * 64 cycles is exactly 1 ms |
| `Timer0.DueExactlyAfterDelay` | Timer0/timer.c:150-152 | n ticks after `previous` (n < 2^32) the loop step is due iff n >= 1000, wrap or no wrap |
| `Timer0.NoEarlyToggleAtWrap` | Timer0/timer.c:150 | one tick after 2^32 - 1 the step is not due |
| `Timer0.Blinker.constructor` | Timer0/timer.c:85-86 | `millisCounter` (a fresh clock) and `previous` start at 0 |
| `Timer0.Blinker.Tick` | Timer0/timer.c:91-93 | the interrupt increases the counter by exactly 1 modulo 2^32 |
| `Timer0.Blinker.Start` | Timer0/timer.c:141-147 | PB1 becomes an output driven low, other bits unchanged, and `previous` is the current time |
| `Timer0.Blinker.Step` | Timer0/timer.c:150-153 | when the loop condition `Due` holds, i.e. at least 1000 ticks (modulo 2^32) have passed, PB1 alone flips and `previous` becomes the current time; otherwise PORTB and `previous` are unchanged |

## Left out

- Push_Button/PushButton.c and BlinkLED/blinkLED.c are not part of this model: the first copies an input bit to PORTB, the second busy-waits on an empty loop.
- `initTimer0` (TCCR0 mode and prescaler bits, TIMSK, TCNT0) is hardware configuration; only the compare value written to OCR0 is modelled.
- The `cli()`/`sei()` critical section in `millis()` and interrupt preemption in general: the interrupt is an explicit `Tick` call, so no tick can fall inside a read.
- Debounce.Step: the three `millis()` calls of one `updateButton` (lines 132, 136, 146) read one value `now`; a tick falling between them is not modelled.
- Debounce.DebouncedButton.Update: requires `buttonPin < 16`, because on the AVR `1 << buttonPin` is a 16-bit `int` shift and a larger shift is undefined in C; the same holds for `Init`. `1 << 15` overflows the signed 16-bit `int` and is undefined in ISO C too (C11 6.5.7p4); the model assumes, as avr-gcc does, that pins 8 to 15 give a mask with no bit inside the byte.
- The `while (1)` loops: each pass is one call (`Update`, `Blinker.Step`); `Run` covers finite sequences of polls.
- The LED toggle on a press in the debounced-button program's `main` (line 174): `Run` counts the polls that returned 1, which is the number of toggles, but the PORTB byte is not modelled there.
- The start of the debounced-button program's `main` (timer and LED setup, `sei()`, `Button1.previous = millis()`): the scenario starts from the record `initButton` leaves, with `previous` 0.
