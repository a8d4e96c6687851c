/** The debounced button of deBounce_Button/deBouncd_Button.c: the
    `DebouncedButton` record, `initButton`, `isTimeElapsed` and
    `updateButton`.

    `Step` is the poll step as a function of the record's four state
    fields, the raw read and one reading of the clock; the class method
    `Update` is `updateButton` itself, reading the PIN register and changing
    the record in place, and is proved to do what `Step` says. */
module Debounce {
  import opened Word
  import opened Bits

  /** The four fields `updateButton` changes: `previous`,
      `ReadButtonState`, `lastButtonState` and `ButtonState`. */
  datatype Fields = Fields(previous: u32, read: u8, last: u8, stable: u8)

  /** What one poll leaves behind: the new fields and the return value. */
  datatype Polled = Polled(next: Fields, pressed: u8)

  /** The three state flags each hold 0 or 1. */
  predicate Flags01(s: Fields)
  {
    s.read <= 1 && s.last <= 1 && s.stable <= 1
  }

  /** `(*(btn->pin) & (1 << btn->buttonPin)) ? 0 : 1`: the button is
      active-low, so a 0 on the pin reads as pressed (1). */
  function ReadLevel(pinByte: bv8, buttonPin: nat): (r: u8)
    requires buttonPin < 16
    ensures r <= 1
    ensures r == 1 <==> !TestBit(pinByte, buttonPin)
  {
    if pinByte & Mask(buttonPin) != 0 then 0 else 1
  }

  /** `isTimeElapsed(current, previous, delay)`, disjunct included: it
      answers the true elapsed time when the counter has not wrapped since
      `previous`, and answers true whenever it has. */
  function IsTimeElapsed(current: u32, previous: u32, delay: u8): (r: bool)
    ensures previous <= current ==> (r <==> current - previous >= delay)
    ensures current < previous ==> r
  {
    Sub(current, previous) >= delay || current < previous
  }

  /** The start of the debounce window once the raw read `read` is taken:
      `now` when it differs from the last one, otherwise unchanged. */
  function Restart(s: Fields, read: u8, now: u32): u32
  {
    if read != s.last then now else s.previous
  }

  /** `updateButton` once the raw read `read` is taken (see `ReadLevel`),
      with every `millis()` call of the poll reading the same value `now`. */
  function Step(s: Fields, read: u8, delay: u8, now: u32): (p: Polled)
    requires read <= 1
    // the raw read is recorded
    ensures p.next.read == read
    // a raw change restarts the window before the elapsed check
    ensures read != s.last ==> p.next.previous == now
    // the debounced state moves only once the window has elapsed, and then to the raw read
    ensures IsTimeElapsed(now, Restart(s, read, now), delay) ==> p.next.stable == read
    ensures !IsTimeElapsed(now, Restart(s, read, now), delay) ==>
              p.next.stable == s.stable && p.next.previous == Restart(s, read, now)
    // 1 is returned exactly on a commit of a press
    ensures p.pressed <= 1
    ensures p.pressed == 1 <==> s.stable != 1 && p.next.stable == 1
    // on a press the refresh of `previous` and of `lastButtonState` is skipped
    ensures p.pressed == 1 ==> p.next.last == s.last && p.next.previous == Restart(s, read, now)
    // every other path records the raw read as the last one
    ensures p.pressed == 0 ==> p.next.last == read
    // once the window has elapsed without a press, it is re-armed at `now`
    ensures p.pressed == 0 && IsTimeElapsed(now, Restart(s, read, now), delay) ==> p.next.previous == now
    ensures Flags01(s) && read <= 1 ==> Flags01(p.next)
  {
    var previous := Restart(s, read, now);
    if IsTimeElapsed(now, previous, delay) then
      if s.stable != read && read != 0 then
        Polled(Fields(previous, read, s.last, read), 1)
      else
        Polled(Fields(now, read, read, read), 0)
    else
      Polled(Fields(previous, read, read, s.stable), 0)
  }

  /** `struct DebouncedButton`, with the register pointers as references to
      `Register` objects. */
  class DebouncedButton {
    var previous: u32
    var readButtonState: u8
    var lastButtonState: u8
    var buttonState: u8
    var debounceDelay: u8
    var port: Register?
    var pin: Register?
    var ddr: Register?
    var buttonPin: u8

    /** The global `Button1`: static storage starts all-zero, pointers null. */
    constructor ()
      ensures Poll0() && debounceDelay == 0 && buttonPin == 0
      ensures port == null && pin == null && ddr == null
    {
      previous, readButtonState, lastButtonState, buttonState := 0, 0, 0, 0;
      debounceDelay, buttonPin := 0, 0;
      port, pin, ddr := null, null, null;
    }

    /** The state fields, as `Step` sees them. */
    function State(): Fields
      reads this
    {
      Fields(previous, readButtonState, lastButtonState, buttonState)
    }

    /** All four state fields are 0. */
    predicate Poll0()
      reads this
    {
      State() == Fields(0, 0, 0, 0)
    }

    /** `initButton`: clears the state fields, stores the configuration,
        and makes the pin an input with pull-up: its DDR bit cleared, its
        PORT bit set, every other bit of both registers as it was. When
        PORT and DDR are the same register the later write, the set, wins. */
    method Init(port: Register, pin: Register, ddr: Register, buttonPin: u8, debounceDelay: u8)
      requires buttonPin < 16
      modifies this, ddr, port
      ensures Poll0()
      ensures this.port == port && this.pin == pin && this.ddr == ddr
      ensures this.buttonPin == buttonPin && this.debounceDelay == debounceDelay
      ensures port.value == SetBit(old(port.value), buttonPin)
      ensures ddr != port ==> ddr.value == ClearBit(old(ddr.value), buttonPin)
    {
      previous := 0;
      readButtonState := 0;
      buttonState := 0;
      lastButtonState := 0;

      this.debounceDelay := debounceDelay;
      this.port := port;
      this.pin := pin;
      this.ddr := ddr;
      this.buttonPin := buttonPin;

      ddr.value := ClearBit(ddr.value, buttonPin);
      port.value := SetBit(port.value, buttonPin);
    }

    /** `updateButton`, polled at time `now`: reads the PIN register and
        moves the state fields as `Step` says; the configuration and every
        register are left alone. */
    method Update(now: u32) returns (pressed: u8)
      requires pin != null && buttonPin < 16
      modifies this`previous, this`readButtonState, this`lastButtonState, this`buttonState
      ensures var p := Step(old(State()), ReadLevel(old(pin.value), buttonPin), debounceDelay, now);
              State() == p.next && pressed == p.pressed
    {
      readButtonState := ReadLevel(pin.value, buttonPin);

      if readButtonState != lastButtonState {
        previous := now;
      }

      if IsTimeElapsed(now, previous, debounceDelay) {
        if buttonState != readButtonState {
          buttonState := readButtonState;
          if buttonState != 0 {
            return 1;
          }
        }
        previous := now;
      }
      lastButtonState := readButtonState;
      return 0;
    }
  }
}
