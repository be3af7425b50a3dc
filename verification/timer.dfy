/**
 * The time source the receive buffer is given: timer2_get, the millisecond
 * reading of a 32-bit counter that a compare interrupt advances every
 * 0.125 ms.  Only the reading is modelled, as a function of the number of
 * interrupts since timer2_init; the register setup is not.
 */
module Timer {
  import opened Ints
  import opened WaitLoop
  import opened Ring
  import opened Serial

  /** Counter interrupts per millisecond (an 8 kHz compare match). */
  const TICKS_PER_MS: nat := 8

  /** counter[2] after `t` interrupts: a uint32_t, so it wraps. */
  function Counter(t: nat): uint32 {
    (t % 0x1_0000_0000) as uint32
  }

  /** timer2_get as written: the counter divided by 8.  Its readings only
      reach 2^29 - 1 before falling back to 0. */
  function Timer2Get(t: nat): (ms: uint32)
    ensures ms < 0x2000_0000
  {
    Counter(t) / TICKS_PER_MS as uint32
  }

  /** As written, one millisecond across the counter's wrap looks to the
      wait loop like more than 2^31 ms, so a 500 ms wait times out after
      1 ms. */
  lemma Timer2GetWrapExpiresEarly()
    ensures var t := 0x1_0000_0000 - TICKS_PER_MS;
            && Timer2Get(t + TICKS_PER_MS) == 0
            && Timer2Get(t) == 0x1FFF_FFFF
            && Elapsed(Timer2Get(t + TICKS_PER_MS), Timer2Get(t)) == 0xE000_0001
            && Expires(GET_TIMEOUT, Timer2Get(t), Timer2Get(t + TICKS_PER_MS))
  { }

  /** The same at the level of serial_get: on an idle line, a call started
      just before the tick counter wraps returns -1 at its first poll, 1 ms
      later, instead of waiting 500 ms. */
  lemma SerialGetReturnsEarlyAtWrap(rx: RingBuffer)
    requires Valid(rx) && rx.clocked && Contents(rx) == []
    ensures var t := 0x1_0000_0000 - TICKS_PER_MS;
            SerialGet(Steady(rx, 2), Timer2Get(t), [Timer2Get(t + TICKS_PER_MS)]) == Returned(-1, rx)
  {
    var t := 0x1_0000_0000 - TICKS_PER_MS;
    Timer2GetWrapExpiresEarly();
    SerialGetAlone(rx, Timer2Get(t), [Timer2Get(t + TICKS_PER_MS)]);
  }

  /** The reading the wait loop's arithmetic assumes: whole milliseconds
      since timer2_init, wrapping at 2^32. */
  function MsClock(t: nat): uint32 {
    ((t / TICKS_PER_MS) % 0x1_0000_0000) as uint32
  }

  /** With the full-range clock the elapsed time the loop computes is the
      number of whole milliseconds that really passed, across any wrap. */
  lemma MsClockElapsed(t: nat, u: nat)
    requires t <= u && u / TICKS_PER_MS - t / TICKS_PER_MS < 0x1_0000_0000
    ensures Elapsed(MsClock(u), MsClock(t)) as int == u / TICKS_PER_MS - t / TICKS_PER_MS
  { }

  /** The same step that fooled the as-written reading: one millisecond
      across the wrap of the tick counter is one millisecond. */
  lemma MsClockAcrossCounterWrap()
    ensures var t := 0x1_0000_0000 - TICKS_PER_MS;
            Elapsed(MsClock(t + TICKS_PER_MS), MsClock(t)) == 1
  { }

  /** serial_get on an idle line with the full-range clock: it returns -1
      exactly when some poll happens at least 500 whole milliseconds after
      the call started. */
  lemma SerialGetTimesOutAfter500ms(rx: RingBuffer, t0: nat, ts: seq<nat>)
    requires Valid(rx) && rx.clocked && Contents(rx) == []
    requires forall i :: 0 <= i < |ts| ==>
               t0 <= ts[i] && ts[i] / TICKS_PER_MS - t0 / TICKS_PER_MS < 0x1_0000_0000
    ensures var ticks := seq(|ts|, i requires 0 <= i < |ts| => MsClock(ts[i]));
            var r := SerialGet(Steady(rx, |ts| + 1), MsClock(t0), ticks);
            r.Returned? <==> exists k :: 0 <= k < |ts| && ts[k] / TICKS_PER_MS - t0 / TICKS_PER_MS >= 500
  {
    var ticks := seq(|ts|, i requires 0 <= i < |ts| => MsClock(ts[i]));
    SerialGetAlone(rx, MsClock(t0), ticks);
    forall k | 0 <= k < |ts|
      ensures TimesOut(rx, GET_TIMEOUT, MsClock(t0), ticks[k]) <==> ts[k] / TICKS_PER_MS - t0 / TICKS_PER_MS >= 500
    {
      MsClockElapsed(t0, ts[k]);
    }
  }
}
