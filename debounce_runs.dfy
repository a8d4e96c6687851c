/** The main loop of deBounce_Button/deBouncd_Button.c calls
    `updateButton(&Button1)` over and over. `Run` folds `Step` over a
    sequence of polls, each with the PIN byte it sees and the time it reads,
    and counts the polls that returned 1 (each of which toggles the LED).
    The lemmas are the debounce engine's promises across many polls. */
module DebounceRuns {
  import opened Word
  import opened Bits
  import opened Debounce

  /** One poll: the PIN register's byte and the clock reading. */
  datatype Sample = Sample(pinByte: bv8, now: u32)

  /** The record after a run of polls, and how many of them returned 1. */
  datatype Trace = Trace(final: Fields, presses: nat)

  /** Successive `updateButton` calls, one per sample. */
  function Run(s: Fields, buttonPin: nat, delay: u8, samples: seq<Sample>): (t: Trace)
    requires buttonPin < 16
    ensures t.presses <= |samples|
    ensures Flags01(s) ==> Flags01(t.final)
    decreases |samples|
  {
    if samples == [] then Trace(s, 0)
    else
      var p := Step(s, ReadLevel(samples[0].pinByte, buttonPin), delay, samples[0].now);
      var rest := Run(p.next, buttonPin, delay, samples[1..]);
      Trace(rest.final, p.pressed + rest.presses)
  }

  /** A run split in two is the second part run from where the first ended. */
  lemma {:induction false} RunAppend(s: Fields, buttonPin: nat, delay: u8, a: seq<Sample>, b: seq<Sample>)
    requires buttonPin < 16
    ensures var ta := Run(s, buttonPin, delay, a);
            var tb := Run(ta.final, buttonPin, delay, b);
            Run(s, buttonPin, delay, a + b) == Trace(tb.final, ta.presses + tb.presses)
    decreases |a|
  {
    if a == [] {
      assert a + b == b;
    } else {
      assert (a + b)[0] == a[0];
      var p := Step(s, ReadLevel(a[0].pinByte, buttonPin), delay, a[0].now);
      assert (a + b)[1..] == a[1..] + b;
      RunAppend(p.next, buttonPin, delay, a[1..], b);
    }
  }

  /** Edge-triggered, not level-triggered: however long the button is held
      and however often it is polled, at most one poll returns 1, and none
      does once the press has been committed. */
  lemma {:induction false} HeldPressReportsAtMostOnce(s: Fields, buttonPin: nat, delay: u8, samples: seq<Sample>)
    requires buttonPin < 16 && Flags01(s)
    requires forall i :: 0 <= i < |samples| ==> !TestBit(samples[i].pinByte, buttonPin)
    ensures Run(s, buttonPin, delay, samples).presses <= 1
    ensures s.stable == 1 ==> Run(s, buttonPin, delay, samples).presses == 0
    ensures s.stable == 1 ==> Run(s, buttonPin, delay, samples).final.stable == 1
    decreases |samples|
  {
    if samples != [] {
      var p := Step(s, ReadLevel(samples[0].pinByte, buttonPin), delay, samples[0].now);
      HeldPressReportsAtMostOnce(p.next, buttonPin, delay, samples[1..]);
    }
  }

  /** A released button never makes a poll return 1; it never moves the
      debounced state to pressed, and the last raw read is "released". */
  lemma {:induction false} ReleasedNeverReports(s: Fields, buttonPin: nat, delay: u8, samples: seq<Sample>)
    requires buttonPin < 16 && Flags01(s)
    requires forall i :: 0 <= i < |samples| ==> TestBit(samples[i].pinByte, buttonPin)
    ensures Run(s, buttonPin, delay, samples).presses == 0
    ensures s.stable == 0 ==> Run(s, buttonPin, delay, samples).final.stable == 0
    ensures samples != [] || s.last == 0 ==> Run(s, buttonPin, delay, samples).final.last == 0
    decreases |samples|
  {
    if samples != [] {
      var p := Step(s, ReadLevel(samples[0].pinByte, buttonPin), delay, samples[0].now);
      ReleasedNeverReports(p.next, buttonPin, delay, samples[1..]);
    }
  }

  /** Debounce latency, lower bound: while the raw read stays what it was
      at the last poll and less than `delay` ticks have passed since the
      window started (no counter wrap in between), nothing is committed and
      the window start stays put. */
  lemma {:induction false} HeldWithinWindow(s: Fields, buttonPin: nat, delay: u8, samples: seq<Sample>)
    requires buttonPin < 16 && Flags01(s)
    requires forall i :: 0 <= i < |samples| ==> ReadLevel(samples[i].pinByte, buttonPin) == s.last
    requires forall i :: 0 <= i < |samples| ==> s.previous <= samples[i].now < s.previous + delay
    ensures var t := Run(s, buttonPin, delay, samples);
            t.presses == 0 && t.final.stable == s.stable &&
            t.final.previous == s.previous && t.final.last == s.last
    decreases |samples|
  {
    if samples != [] {
      var p := Step(s, s.last, delay, samples[0].now);
      HeldWithinWindow(p.next, buttonPin, delay, samples[1..]);
    }
  }

  /** Glitch rejection: polls read in non-decreasing time order, all less
      than `delay` ticks after the window start with no counter wrap since
      the window start, never commit a new debounced state, however the raw
      read flips in between. (Across a wrap the `current < previous`
      disjunct of `isTimeElapsed` cuts the window short; see
      `WrapCutsWindowShort`.) */
  lemma {:induction false} BouncesWithinWindowNeverCommit(s: Fields, buttonPin: nat, delay: u8, samples: seq<Sample>)
    requires buttonPin < 16 && Flags01(s)
    requires forall i :: 0 <= i < |samples| ==> s.previous <= samples[i].now < s.previous + delay
    requires forall i, j :: 0 <= i <= j < |samples| ==> samples[i].now <= samples[j].now
    ensures Run(s, buttonPin, delay, samples).presses == 0
    ensures Run(s, buttonPin, delay, samples).final.stable == s.stable
    decreases |samples|
  {
    if samples != [] {
      var p := Step(s, ReadLevel(samples[0].pinByte, buttonPin), delay, samples[0].now);
      assert s.previous <= p.next.previous <= samples[0].now;
      BouncesWithinWindowNeverCommit(p.next, buttonPin, delay, samples[1..]);
    }
  }

  /** Debounce latency, upper bound, and exactly one activation: once a
      press has opened the window at `t0`, a button held and polled at every
      tick from `t0 + 1` on, for at least `delay` ticks and with no counter
      wrap, is not committed by the first `delay - 1` polls, is committed and
      reported by the poll at tick `t0 + delay`, and is reported only once
      over all the polls. */
  lemma HeldPressCommitsAtWindowEnd(s: Fields, buttonPin: nat, delay: u8, samples: seq<Sample>)
    requires buttonPin < 16 && Flags01(s)
    requires s.last == 1 && s.stable == 0
    requires 1 <= delay <= |samples| && s.previous + |samples| < WORD
    requires forall i :: 0 <= i < |samples| ==> !TestBit(samples[i].pinByte, buttonPin)
    requires forall i :: 0 <= i < |samples| ==> samples[i].now == s.previous + 1 + i
    ensures Run(s, buttonPin, delay, samples[..delay - 1]).presses == 0
    ensures Run(s, buttonPin, delay, samples[..delay - 1]).final.stable == 0
    ensures Run(s, buttonPin, delay, samples[..delay]).presses == 1
    ensures Run(s, buttonPin, delay, samples[..delay]).final.stable == 1
    ensures Run(s, buttonPin, delay, samples).presses == 1
    ensures Run(s, buttonPin, delay, samples).final.stable == 1
  {
    var before, last, after := samples[..delay - 1], [samples[delay - 1]], samples[delay..];
    assert samples[..delay] == before + last;
    assert samples == samples[..delay] + after;
    HeldWithinWindow(s, buttonPin, delay, before);
    var s1 := Run(s, buttonPin, delay, before).final;
    var p := Step(s1, ReadLevel(samples[delay - 1].pinByte, buttonPin), delay, samples[delay - 1].now);
    assert p.pressed == 1 && p.next.stable == 1;
    assert last[1..] == [];
    RunAppend(s, buttonPin, delay, before, last);
    HeldPressReportsAtMostOnce(p.next, buttonPin, delay, after);
    RunAppend(s, buttonPin, delay, samples[..delay], after);
  }

  /** The PIN byte with the button released (pull-up keeps PD6 high). */
  const Released: bv8 := 0xFF
  /** The PIN byte with the button on PD6 held down. */
  const Pressed: bv8 := 0xBF

  /** `n` polls, one per tick from tick `from` on, all seeing the PIN byte `pinByte`. */
  function Polls(pinByte: bv8, from: nat, n: nat): (r: seq<Sample>)
    requires from + n <= WORD
    ensures |r| == n
    ensures forall i :: 0 <= i < n ==> r[i] == Sample(pinByte, from + i)
  {
    seq(n, i requires 0 <= i < n => Sample(pinByte, from + i))
  }

  /** The scenario with a 50 ms window on PD6, starting from the record
      `initButton` leaves (and `previous` 0, as `main` sets it at tick 0):
      released for ticks 0 to 99, pressed from tick 100 on, polled once per
      tick. `Scenario(n)` holds the first `n` polls after the press. */
  function Scenario(n: nat): seq<Sample>
    requires n <= 51
  {
    Polls(Released, 0, 100) + Polls(Pressed, 100, n)
  }

  /** Ticks 0 to 99: released, nothing reported, the last raw read is
      "released" and the debounced state still "released". */
  lemma ScenarioIdle()
    ensures var t := Run(Fields(0, 0, 0, 0), 6, 50, Polls(Released, 0, 100));
            t.presses == 0 && t.final.stable == 0 && t.final.last == 0
  {
    assert TestBit(Released, 6);
    ReleasedNeverReports(Fields(0, 0, 0, 0), 6, 50, Polls(Released, 0, 100));
  }

  /** Tick 100: the raw read changes, so the window restarts at 100. */
  lemma ScenarioEdge(s: Fields)
    requires s.last == 0 && s.stable == 0
    ensures Run(s, 6, 50, [Sample(Pressed, 100)]) == Trace(Fields(100, 1, 1, 0), 0)
  {
  }

  /** Ticks 101 to 149: held, within the window that opened at tick 100. */
  lemma ScenarioHold()
    ensures var t := Run(Fields(100, 1, 1, 0), 6, 50, Polls(Pressed, 101, 49));
            t.presses == 0 && t.final.stable == 0 && t.final.previous == 100 && t.final.last == 1
  {
    assert ReadLevel(Pressed, 6) == 1;
    HeldWithinWindow(Fields(100, 1, 1, 0), 6, 50, Polls(Pressed, 101, 49));
  }

  /** Tick 150: 50 ticks after the window opened, the press is committed. */
  lemma ScenarioCommit(s: Fields)
    requires s.previous == 100 && s.last == 1 && s.stable == 0
    ensures Run(s, 6, 50, [Sample(Pressed, 150)]).presses == 1
    ensures Run(s, 6, 50, [Sample(Pressed, 150)]).final.stable == 1
  {
  }

  /** Up to tick 149 nothing is reported, and the window opened at 100. */
  lemma ScenarioUntilTick149()
    ensures var t := Run(Fields(0, 0, 0, 0), 6, 50, Scenario(50));
            t.presses == 0 && t.final.stable == 0 && t.final.previous == 100 && t.final.last == 1
  {
    var idle, edge, hold := Polls(Released, 0, 100), [Sample(Pressed, 100)], Polls(Pressed, 101, 49);
    var s0 := Fields(0, 0, 0, 0);
    assert Scenario(50) == idle + edge + hold by {
      assert Polls(Pressed, 100, 50) == edge + hold;
    }
    assert Run(s0, 6, 50, idle + edge) == Trace(Fields(100, 1, 1, 0), 0) by {
      ScenarioIdle();
      ScenarioEdge(Run(s0, 6, 50, idle).final);
      RunAppend(s0, 6, 50, idle, edge);
    }
    ScenarioHold();
    RunAppend(s0, 6, 50, idle + edge, hold);
  }

  /** The poll at tick 150 comes last. */
  lemma ScenarioLastPoll()
    ensures Scenario(51) == Scenario(50) + [Sample(Pressed, 150)]
  {
  }

  /** In that scenario the press is committed, and reported, at tick 150
      and not before. */
  lemma ScenarioPressAtTick150()
    ensures var t := Run(Fields(0, 0, 0, 0), 6, 50, Scenario(50));
            t.presses == 0 && t.final.stable == 0
    ensures var t := Run(Fields(0, 0, 0, 0), 6, 50, Scenario(51));
            t.presses == 1 && t.final.stable == 1
  {
    var s0 := Fields(0, 0, 0, 0);
    ScenarioUntilTick149();
    ScenarioLastPoll();
    ScenarioCommit(Run(s0, 6, 50, Scenario(50)).final);
    RunAppend(s0, 6, 50, Scenario(50), [Sample(Pressed, 150)]);
  }

  /** The disjunct `current < previous` of `isTimeElapsed` is not redundant:
      a raw change recorded at 2^32 - 1 is committed at the very next tick,
      0, though only 1 of the 50 ticks of the window has passed. */
  lemma WrapCutsWindowShort()
    ensures Sub(0, WORD - 1) == 1
    ensures Step(Fields(WORD - 1, 1, 1, 0), 1, 50, 0).pressed == 1
  {
  }
}
