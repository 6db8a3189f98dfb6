/** The timestamp arithmetic of src/event-timeout.h, on 64-bit unsigned integers. */
module Ticks {
  const TICKS_PER_SECOND: nat := 16384
  const WORD: nat := 0x1_0000_0000_0000_0000

  /** TICKS_FROM_TV after the casts of timestamp_from_tv: everything wraps at 2^64. */
  function TimestampFromTv(secs: int, usecs: nat): (r: nat)
    ensures r < WORD
  {
    ((secs % WORD) * TICKS_PER_SECOND + usecs / TICKS_PER_SECOND) % WORD
  }

  lemma Wrap(a: int, k: int)
    ensures (a + k * WORD) % WORD == a % WORD
  {}

  /** On 64 bits a timestamp is the ticks of the seconds, 16384 each, and of the microseconds, wrapped. */
  lemma WrappedTicks(secs: int, usecs: nat)
    ensures TimestampFromTv(secs, usecs) == (secs * 16384 + usecs / 16384) % 0x1_0000_0000_0000_0000
  {
    var q, r := secs / WORD, secs % WORD;
    assert secs == q * WORD + r;
    Wrap(r * 16384 + usecs / 16384, q * 16384);
  }

  /** Seconds survive the conversion, and readings keep their order. */
  lemma SecondsAndOrder(s0: nat, u0: nat, s1: nat, u1: nat)
    requires s0 < WORD / TICKS_PER_SECOND && s1 < WORD / TICKS_PER_SECOND
    requires u0 < 1_000_000 && u1 < 1_000_000
    ensures TimestampFromTv(s0, u0) / TICKS_PER_SECOND == s0
    ensures s0 < s1 ==> TimestampFromTv(s0, u0) < TimestampFromTv(s1, u1)
    ensures s0 == s1 && u0 <= u1 ==> TimestampFromTv(s0, u0) <= TimestampFromTv(s1, u1)
  {}

  /** A whole second is never the last 64-bit value, whatever the clock says. */
  lemma WholeSecondsBelowMax(secs: int)
    ensures TimestampFromTv(secs, 0) % TICKS_PER_SECOND == 0
    ensures TimestampFromTv(secs, 0) < WORD - 1
  {}

  /** The header promises units of 1/16384 s; the microsecond part keeps that scale exactly below one tick. */
  lemma MicrosecondScale(usecs: nat)
    ensures usecs / TICKS_PER_SECOND == usecs * TICKS_PER_SECOND / 1_000_000 <==> usecs < 62
  {}

  /** Half a second is 8192 units of 1/16384 s, but converts to 30. */
  lemma HalfSecond()
    ensures TimestampFromTv(0, 500_000) == 30 && 500_000 * TICKS_PER_SECOND / 1_000_000 == 8192
  {}
}
