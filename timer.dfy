/**
 * The system tick counter of timer.c and include/timer.h.  One tick is
 * 176 microseconds (TIMER_STEPS); the count is a uint32_t that the TIMER2
 * compare interrupt advances.  The "ms passed" checks compare tick
 * differences in the width of the caller's time stamp, so every
 * wrap-around is written out.
 */
module Timer {
  import opened Global

  /** Microseconds per tick. */
  const TIMER_STEPS := 176

  /**
   * MS_TO_TICKS(ms) = ms * (1000/8) / (TIMER_STEPS/8), evaluated in
   * uint32_t: until the product wraps, the most ticks that fit in ms.
   */
  function MsToTicks(ms: DWord): (t: DWord)
    ensures ms * 125 < 0x1_0000_0000 ==> t * TIMER_STEPS <= ms * 1000 < (t + 1) * TIMER_STEPS
  {
    Wrap32(ms * 125) / 22
  }

  /**
   * MS_TO_TICKS of a uint16_t argument: the product is an unsigned int,
   * 16 bits on the target, so it wraps from about 524 ms on.
   */
  function MsToTicks16(ms: Word): (t: Word)
    ensures ms * 125 < 0x1_0000 ==> t * TIMER_STEPS <= ms * 1000 < (t + 1) * TIMER_STEPS
  {
    Wrap16(ms * 125) / 22
  }

  /**
   * TICKS_TO_MS(ticks) = ticks * (TIMER_STEPS/8) / (1000/8), evaluated in
   * uint32_t: until the product wraps, the whole milliseconds t ticks last.
   */
  function TicksToMs(t: DWord): (ms: DWord)
    ensures t * 22 < 0x1_0000_0000 ==> ms * 1000 <= t * TIMER_STEPS < (ms + 1) * 1000
  {
    Wrap32(t * 22) / 125
  }

  /**
   * Converting to ticks and back loses less than a millisecond, as long as
   * neither product wraps (ms below about 34 million).
   */
  lemma TicksRoundTrip(ms: DWord)
    requires ms * 125 < 0x1_0000_0000
    ensures ms - 1 <= TicksToMs(MsToTicks(ms)) <= ms
  {
    var t := ms * 125 / 22;
    assert MsToTicks(ms) == t;
    assert t * 22 <= ms * 125 < t * 22 + 22;
    assert t * 22 < 0x1_0000_0000;
    assert TicksToMs(t) == t * 22 / 125;
    DivBounds(t * 22, 125, ms);
  }

  /** Multiplication by a natural number is monotonic. */
  lemma MulLe(a: nat, b: nat, c: nat)
    requires a <= b
    ensures a * c <= b * c
  {
    assert b * c == a * c + (b - a) * c;
  }

  /** If x <= q * d < x + d then x / d is q or q - 1. */
  lemma DivBounds(x: nat, d: nat, q: nat)
    requires d > 0 && x <= q * d < x + d
    ensures q - 1 <= x / d <= q
  {
    if x == q * d {
      DivUnique(x, d, q, 0);
    } else {
      assert q >= 1;
      assert (q - 1) * d == q * d - d;
      DivUnique(x, d, q - 1, x - (q - 1) * d);
    }
  }

  /** tickCount, and the "ms passed" checks that read it. */
  class Clock {
    var ticks: DWord

    constructor ()
      ensures ticks == 0
    {
      ticks := 0;
    }

    /** TIMER2_COMP_vect: one more tick, wrapping at 2^32. */
    method Tick()
      modifies this
      ensures ticks == Wrap32(old(ticks) + 1)
    {
      ticks := Wrap32(ticks + 1);
    }

    /** timer_reset. */
    method Reset()
      modifies this
      ensures ticks == 0
    {
      ticks := 0;
    }

    /** The low 16 and 8 bits of the tick count (tickCount.u16 and .u8 of the union, little-endian). */
    function Ticks16(): Word
      reads this
    {
      ticks % 0x1_0000
    }

    function Ticks8(): Byte
      reads this
    {
      ticks % 0x100
    }

    /**
     * timer_ms_passed_32 (and timer_ms_passed, which calls it): fires when
     * more than MS_TO_TICKS(ms) ticks have passed since `old`, modulo 2^32,
     * and then returns the current count as the new time stamp.
     */
    method MsPassed32(old_ticks: DWord, ms: DWord) returns (fired: bool, stamp: DWord)
      ensures fired <==> Wrap32(ticks - old_ticks) > MsToTicks(ms)
      ensures stamp == if fired then ticks else old_ticks
      ensures !(Wrap32(ticks - stamp) > MsToTicks(ms))
    {
      var now := ticks;
      if Wrap32(now - old_ticks) > MsToTicks(ms) {
        return true, now;
      }
      return false, old_ticks;
    }

    /** timer_ms_passed: the 32-bit check under its short name. */
    method MsPassed(old_ticks: DWord, ms: DWord) returns (fired: bool, stamp: DWord)
      ensures fired <==> Wrap32(ticks - old_ticks) > MsToTicks(ms)
      ensures stamp == if fired then ticks else old_ticks
      ensures !(Wrap32(ticks - stamp) > MsToTicks(ms))
    {
      fired, stamp := MsPassed32(old_ticks, ms);
    }

    /**
     * Two checks at the same tick count, the second with the stamp the
     * first returned: the second never fires and keeps that stamp, so a
     * period is counted at most once.
     */
    method CheckAgain(old_ticks: DWord, ms: DWord) returns (first: bool, second: bool, stamp: DWord)
      ensures first <==> Wrap32(ticks - old_ticks) > MsToTicks(ms)
      ensures !second && stamp == if first then ticks else old_ticks
    {
      var s1;
      first, s1 := MsPassed32(old_ticks, ms);
      second, stamp := MsPassed32(s1, ms);
    }

    /** timer_ms_passed_16: the same on the low 16 bits. */
    method MsPassed16(old_ticks: Word, ms: DWord) returns (fired: bool, stamp: Word)
      ensures fired <==> Wrap16(Ticks16() - old_ticks) > MsToTicks(ms)
      ensures stamp == if fired then Ticks16() else old_ticks
      ensures !(Wrap16(Ticks16() - stamp) > MsToTicks(ms))
    {
      var now := Ticks16();
      if Wrap16(now - old_ticks) > MsToTicks(ms) {
        return true, now;
      }
      return false, old_ticks;
    }

    /** timer_ms_passed_8: the same on the low 8 bits, with a 16-bit ms argument. */
    method MsPassed8(old_ticks: Byte, ms: Word) returns (fired: bool, stamp: Byte)
      ensures fired <==> Wrap8(Ticks8() - old_ticks) > MsToTicks16(ms)
      ensures stamp == if fired then Ticks8() else old_ticks
      ensures !(Wrap8(Ticks8() - stamp) > MsToTicks16(ms))
    {
      var now := Ticks8();
      if Wrap8(now - old_ticks) > MsToTicks16(ms) {
        return true, now;
      }
      return false, old_ticks;
    }
  }

  /** One tick adds exactly one to the elapsed count, until that count itself would wrap. */
  lemma TickAddsOne(now: DWord, stamp: DWord)
    requires Wrap32(now - stamp) < 0xFFFF_FFFF
    ensures Wrap32(Wrap32(now + 1) - stamp) == Wrap32(now - stamp) + 1
  {
    if now + 1 == 0x1_0000_0000 {
      assert Wrap32(now + 1) == 0;
    }
  }

  /** The 8-bit check can never fire once the threshold reaches 255 ticks. */
  lemma EightBitNeverFires(elapsed: Byte, ms: Word)
    requires MsToTicks16(ms) >= 255
    ensures !(elapsed > MsToTicks16(ms))
  {
  }

  // ---------------------------------------------------------------- time of day

  /** timer_get_ms: the millisecond part of the system time. */
  function GetMs(t: DWord): (r: Word)
    ensures r < 1000
  {
    TicksToMs(t) % 1000
  }

  /** timer_get_s: ticks * (TIMER_STEPS/16) / (1000000/16) in uint32_t, truncated to uint16_t. */
  function GetS(t: DWord): (s: Word)
    ensures t * TIMER_STEPS < 0x1_0000 * 1000000 ==> s * 1000000 <= t * TIMER_STEPS < (s + 1) * 1000000
  {
    Wrap16(Wrap32(t * 11) / 62500)
  }

  /** timer_get_ms_since: (s - old_s) * 1000 + ms - old_ms, in 16-bit arithmetic. */
  function GetMsSince(t: DWord, old_s: Word, old_ms: Word): Word
  {
    Wrap16((GetS(t) - old_s) * 1000 + GetMs(t) - old_ms)
  }

  /** floor(floor(x / a) / b) == floor(x / (a * b)). */
  lemma DivDiv(x: nat, a: nat, b: nat)
    requires a > 0 && b > 0
    ensures x / a / b == x / (a * b)
  {
    var q := x / a;
    var r := q / b;
    assert x == q * a + x % a;
    assert q == r * b + q % b;
    assert q * a == r * (a * b) + (q % b) * a;
    MulLe(q % b, b - 1, a);
    assert (b - 1) * a == a * b - a;
    DivUnique(x, a * b, r, (q % b) * a + x % a);
  }

  /** The quotient and remainder of a division are unique. */
  lemma DivUnique(x: nat, d: nat, q: nat, r: nat)
    requires d > 0 && r < d && x == q * d + r
    ensures x / d == q
  {
    var q' := x / d;
    assert x == q' * d + x % d;
    if q' > q {
      MulNext(q, q', d);
      assert false;
    }
    if q' < q {
      MulNext(q', q, d);
      assert false;
    }
  }

  /** A larger factor adds at least one more multiple. */
  lemma MulNext(a: nat, b: nat, c: nat)
    requires a < b
    ensures a * c + c <= b * c
  {
    MulLe(a + 1, b, c);
    assert (a + 1) * c == a * c + c;
  }

  /**
   * Before the products wrap (about nine and a half hours), the seconds and
   * milliseconds parts together give the system time in milliseconds.
   */
  lemma SecondsAndMillis(t: DWord)
    requires t * 22 < 0x1_0000_0000
    ensures GetS(t) * 1000 + GetMs(t) == TicksToMs(t)
  {
    SecondsOfMillis(t);
    var m := t * 22 / 125;
    assert TicksToMs(t) == m;
    assert GetS(t) == m / 1000;
  }

  /** timer_get_s's quotient is the whole thousands of TICKS_TO_MS, and fits in 16 bits. */
  lemma SecondsOfMillis(t: nat)
    requires t * 22 < 0x1_0000_0000
    ensures t * 11 / 62500 == t * 22 / 125 / 1000 < 0x1_0000
  {
    DivDiv(t * 22, 125, 1000);
    DivScale(t * 11, 62500, 2);
  }

  /** Scaling numerator and divisor alike keeps the quotient. */
  lemma DivScale(x: nat, d: nat, k: nat)
    requires d > 0 && k > 0
    ensures (x * k) / (d * k) == x / d
  {
    var q := x / d;
    var r := x % d;
    assert x == q * d + r;
    assert x * k == q * (d * k) + r * k;
    MulLe(r + 1, d, k);
    DivUnique(x * k, d * k, q, r * k);
  }

  /**
   * Read at two times before the wrap, the seconds and milliseconds since
   * the first reading are the difference of the two system times, in 16 bits.
   */
  lemma MsSinceIsDifference(t0: DWord, t1: DWord)
    requires t0 * 22 < 0x1_0000_0000 && t1 * 22 < 0x1_0000_0000
    ensures GetMsSince(t1, GetS(t0), GetMs(t0)) == Wrap16(TicksToMs(t1) - TicksToMs(t0))
  {
    SecondsAndMillis(t0);
    SecondsAndMillis(t1);
  }
}
