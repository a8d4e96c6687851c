/** Unsigned 32-bit arithmetic as avr-gcc performs it on `unsigned long`:
    every result is taken modulo 2^32. */
module Word {

  const WORD: int := 0x1_0000_0000

  /** An `unsigned long` (32 bits on the AVR). */
  type u32 = x: int | 0 <= x < WORD

  /** An `unsigned char`. */
  type u8 = x: int | 0 <= x < 0x100

  /** `a - b` on two `unsigned long`s: the unique 32-bit value that, added
      back to `b`, gives `a` again modulo 2^32. When no wrap lies between
      them it is the plain difference. */
  function Sub(a: u32, b: u32): (d: u32)
    ensures (b + d) % WORD == a
    ensures b <= a ==> d == a - b
  {
    if b <= a then a - b else WORD - b + a
  }

  /** `a + 1` on an `unsigned long`: one step forward, wrapping from the
      largest value to 0. */
  function Succ(a: u32): (r: u32)
    ensures Sub(r, a) == 1
    ensures r == 0 <==> a == WORD - 1
    ensures a < WORD - 1 ==> a < r
  {
    if a == WORD - 1 then 0 else a + 1
  }

  /** The counter value after `n` increments starting from `a`. */
  function Advance(a: u32, n: nat): u32
  {
    if n == 0 then a else Succ(Advance(a, n - 1))
  }

  /** `n` increments land on `a + n` modulo 2^32. */
  lemma {:induction false} AdvanceWraps(a: u32, n: nat)
    ensures Advance(a, n) == (a + n) % WORD
  {
    if n > 0 {
      AdvanceWraps(a, n - 1);
      var x := (a + n - 1) % WORD;
      assert Advance(a, n) == Succ(x);
      ModSucc(a + n - 1);
    }
  }

  /** Adding one to `x` adds one to its residue, except at 2^32 - 1. */
  lemma ModSucc(x: nat)
    ensures (x + 1) % WORD == if x % WORD == WORD - 1 then 0 else x % WORD + 1
  {
    var q, r := x / WORD, x % WORD;
    assert x == q * WORD + r;
    if r == WORD - 1 {
      assert x + 1 == (q + 1) * WORD;
    } else {
      assert x + 1 == q * WORD + (r + 1);
    }
  }

  /** Unsigned subtraction recovers the true number of increments between
      two readings of a counter, wrap or no wrap, as long as fewer than 2^32
      increments lie between them. */
  lemma {:induction false} SubCountsIncrements(a: u32, n: nat)
    requires n < WORD
    ensures Sub(Advance(a, n), a) == n
  {
    AdvanceWraps(a, n);
    var r := Advance(a, n);
    if a + n < WORD {
      assert r == a + n;
    } else {
      assert r == a + n - WORD;
    }
  }
}
