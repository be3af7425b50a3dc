/**
 * The polling loop shared by rb_get_wait and rb_put_wait.
 *
 * The loop reads a start time, then repeatedly checks an availability
 * condition; after every failed check it compares the elapsed time with the
 * timeout (only when the timeout is nonzero) and calls the idle hook.  The
 * elapsed time is the unsigned 32-bit difference `now - start`, so a wrap of
 * the tick counter between the two readings is harmless.
 *
 * A run of the loop is described by `ready`, the outcome of each availability
 * check in order, and `ticks`, where `ticks[i]` is the clock reading taken
 * after check `i` has failed.  There is one more check than there are
 * readings: the model follows the loop until it returns or until the readings
 * run out, in which case the loop is still polling.
 */
module WaitLoop {
  import opened Ints

  /** How a run of the loop ends: the check at which it saw availability
      (return 0), the reading at which it timed out (return -1), or not yet. */
  datatype Exit = Ready(at: nat) | Expired(at: nat) | Polling

  /** The wrap-safe elapsed time between two clock readings. */
  function Elapsed(now: uint32, start: uint32): uint32 {
    Sub32(now, start)
  }

  /** The reading of a wrapping 32-bit clock `d` ticks after `start`. */
  function Advance(start: uint32, d: uint32): uint32 {
    Add32(start, d)
  }

  /** The timeout test of the loop: a zero timeout disables it. */
  predicate Expires(timeout: uint32, start: uint32, now: uint32) {
    timeout != 0 && Elapsed(now, start) >= timeout
  }

  /** The loop went past its first `k` checks: each failed and did not time out. */
  predicate WaitedThrough(timeout: uint32, start: uint32, ready: seq<bool>, ticks: seq<uint32>, k: nat)
    requires k <= |ticks| < |ready|
  {
    forall j :: 0 <= j < k ==> !ready[j] && !Expires(timeout, start, ticks[j])
  }

  /** The loop stops at its first successful check, or at the first failed
      check whose clock reading has reached the timeout, whichever comes
      first; a run that reaches neither is still polling. */
  ghost predicate IsExit(timeout: uint32, start: uint32, ready: seq<bool>, ticks: seq<uint32>, e: Exit)
    requires |ready| == |ticks| + 1
  {
    match e
    case Ready(k) => k <= |ticks| && ready[k] && WaitedThrough(timeout, start, ready, ticks, k)
    case Expired(k) =>
      k < |ticks| && !ready[k] && Expires(timeout, start, ticks[k]) && WaitedThrough(timeout, start, ready, ticks, k)
    case Polling => !ready[|ticks|] && WaitedThrough(timeout, start, ready, ticks, |ticks|)
  }

  /** The loop itself: check, then (if the check failed) compare the clock,
      then go round again. */
  function Wait(timeout: uint32, start: uint32, ready: seq<bool>, ticks: seq<uint32>): (e: Exit)
    requires |ready| == |ticks| + 1
    ensures IsExit(timeout, start, ready, ticks, e)
    ensures timeout == 0 ==> !e.Expired?
  {
    WaitFrom(timeout, start, ready, ticks, 0)
  }

  /** The loop from check `i` on, having gone past the checks before it. */
  function WaitFrom(timeout: uint32, start: uint32, ready: seq<bool>, ticks: seq<uint32>, i: nat): (e: Exit)
    requires |ready| == |ticks| + 1
    requires i <= |ticks|
    requires WaitedThrough(timeout, start, ready, ticks, i)
    ensures IsExit(timeout, start, ready, ticks, e)
    decreases |ticks| - i
  {
    if ready[i] then Ready(i)
    else if i == |ticks| then Polling
    else if Expires(timeout, start, ticks[i]) then Expired(i)
    else WaitFrom(timeout, start, ready, ticks, i + 1)
  }

  /** The first-exit description determines the outcome: `Wait` is the only
      exit the loop can take. */
  lemma ExitIsUnique(timeout: uint32, start: uint32, ready: seq<bool>, ticks: seq<uint32>, e: Exit)
    requires |ready| == |ticks| + 1
    requires IsExit(timeout, start, ready, ticks, e)
    ensures e == Wait(timeout, start, ready, ticks)
  { }

  /** The clock round trip: the elapsed time from `start` to the reading `d`
      ticks later is `d`, across a wrap of the counter too. */
  lemma ElapsedAdvance(start: uint32, d: uint32)
    ensures Elapsed(Advance(start, d), start) == d
  { }

  /** ... and every reading is `Elapsed(now, start)` ticks after `start`. */
  lemma AdvanceElapsed(start: uint32, now: uint32)
    ensures Advance(start, Elapsed(now, start)) == now
  { }

  /** With the timeout disabled the loop never times out: it returns 0 at
      the first successful check, and keeps polling while every check fails. */
  lemma NoTimeoutWaitsForever(start: uint32, ready: seq<bool>, ticks: seq<uint32>)
    requires |ready| == |ticks| + 1
    ensures !Wait(0, start, ready, ticks).Expired?
    ensures Wait(0, start, ready, ticks).Polling? <==> forall j :: 0 <= j < |ready| ==> !ready[j]
  {
    var e := Wait(0, start, ready, ticks);
    if e.Ready? {
      assert ready[e.at];
    }
  }

  /** On a clock that reads `ds[i]` ticks after `start` at reading `i`
      (wrapping as it may), the loop times out at reading `k` exactly when
      `k` is the first failed check at which `ds[k]` has reached the
      timeout. */
  lemma ExpiresAtFirstLateReading(timeout: uint32, start: uint32, ready: seq<bool>, ticks: seq<uint32>,
                                  ds: seq<uint32>, k: nat)
    requires |ready| == |ticks| + 1
    requires |ds| == |ticks|
    requires forall i :: 0 <= i < |ticks| ==> ticks[i] == Advance(start, ds[i])
    ensures Wait(timeout, start, ready, ticks) == Expired(k) <==>
              timeout != 0 && k < |ticks| && !ready[k] && ds[k] >= timeout &&
              forall j :: 0 <= j < k ==> !ready[j] && ds[j] < timeout
  {
    forall i | 0 <= i < |ticks|
      ensures Elapsed(ticks[i], start) == ds[i]
    {
      ElapsedAdvance(start, ds[i]);
    }
    if timeout != 0 && k < |ticks| && !ready[k] && ds[k] >= timeout &&
       forall j :: 0 <= j < k ==> !ready[j] && ds[j] < timeout
    {
      ExitIsUnique(timeout, start, ready, ticks, Expired(k));
    }
  }

  /** A clock that does not move (such as the default time function, which
      always reads 0) never lets the loop time out, whatever the timeout. */
  lemma StoppedClockNeverExpires(timeout: uint32, start: uint32, ready: seq<bool>, ticks: seq<uint32>)
    requires |ready| == |ticks| + 1
    requires forall i :: 0 <= i < |ticks| ==> ticks[i] == start
    ensures !Wait(timeout, start, ready, ticks).Expired?
  { }

  /** A timeout that falls across the wrap of the counter: 32 ticks after
      0xFFFF_FFF0 is the reading 0x10, and the loop times out there and not
      at the numerically smaller reading 0xF before it. */
  lemma TimeoutAcrossWrap()
    ensures Wait(0x20, 0xFFFF_FFF0, [false, false, false, false], [0xFFFF_FFFF, 0xF, 0x10]) == Expired(2)
  {
    var ready := [false, false, false, false];
    var ticks: seq<uint32> := [0xFFFF_FFFF, 0xF, 0x10];
    assert Elapsed(ticks[0], 0xFFFF_FFF0) == 0xF;
    assert Elapsed(ticks[1], 0xFFFF_FFF0) == 0x1F;
    assert Elapsed(ticks[2], 0xFFFF_FFF0) == 0x20;
    ExitIsUnique(0x20, 0xFFFF_FFF0, ready, ticks, Expired(2));
  }
}
