/**
 * The fixed-capacity byte ring buffer: the management record, its
 * initialisation, the two availability counts, the two wait loops, and the
 * blocking put and get.
 *
 * The queue a buffer holds is given by the abstraction function `Contents`:
 * the `size - free` bytes starting at the read cursor, wrapping at the end of
 * the storage.  Every operation is specified by what it does to that queue.
 */
module Ring {
  import opened Ints
  import opened WaitLoop

  /** sizeof(ringbuffer_t) on the AVR target: four uint8_t fields and two
      16-bit code pointers, no padding; the flexible array adds nothing. */
  const HEADER_SIZE: nat := 8

  /** The RB_BUFSIZE macro: total bytes for a queue of the given length. */
  function BufSize(queueLen: nat): nat {
    HEADER_SIZE + queueLen
  }

  /** The management record and the storage that follows it.  `clocked` is
      false when no time function was installed, so that the default one,
      which always reads 0, is used.  The idle hook has no effect here. */
  datatype RingBuffer = RingBuffer(
    size: uint8,
    free: uint8,
    writeIdx: uint8,
    readIdx: uint8,
    clocked: bool,
    storage: seq<uint8>)

  /** The position `n` slots after `p` in a storage of `m` slots. */
  function Wrap(p: nat, n: nat, m: nat): (q: nat)
    requires p < m && n <= m
    ensures q < m
  {
    if p + n < m then p + n else p + n - m
  }

  /** The cursor step of rb_put and rb_get: back to 0 after the last slot. */
  function Next(size: uint8, idx: uint8): (r: uint8)
    requires idx < size
    ensures r as int == Wrap(idx as int, 1, size as int)
  {
    if idx as int == size as int - 1 then 0 else idx + 1
  }

  /** The invariant of every buffer the operations produce: the cursors are
      slots of the storage, and the write cursor is as many slots after the
      read cursor as there are unread bytes. */
  predicate Valid(rb: RingBuffer) {
    && 1 <= rb.size
    && |rb.storage| == rb.size as int
    && rb.free <= rb.size
    && rb.readIdx < rb.size
    && rb.writeIdx as int == Wrap(rb.readIdx as int, (rb.size - rb.free) as int, rb.size as int)
  }

  /** The queue the buffer holds, oldest byte first. */
  function Contents(rb: RingBuffer): seq<uint8>
    requires Valid(rb)
  {
    seq((rb.size - rb.free) as int,
        i requires 0 <= i < (rb.size - rb.free) as int =>
          rb.storage[Wrap(rb.readIdx as int, i, rb.size as int)])
  }

  /** rb_put_avail: the number of bytes that can be put before the buffer
      is full and a put would wait. */
  function PutAvail(rb: RingBuffer): (n: uint8)
    ensures Valid(rb) ==> n as int == rb.size as int - |Contents(rb)|
  {
    rb.free
  }

  /** rb_get_avail: the number of bytes that can be got before the buffer
      is empty and a get would wait; `size - free` truncated to uint8_t. */
  function GetAvail(rb: RingBuffer): (n: uint8)
    ensures Valid(rb) ==> n as int == |Contents(rb)|
    ensures Valid(rb) ==> PutAvail(rb) as int + n as int == rb.size as int
  {
    ToUint8(rb.size as int - rb.free as int)
  }

  /** The capacity rb_init computes from the total length: the length less
      the header, truncated to uint8_t. */
  function Capacity(bufLen: uint8): (c: uint8)
    ensures bufLen as int > HEADER_SIZE ==> c as int == bufLen as int - HEADER_SIZE
    ensures bufLen as int == HEADER_SIZE ==> c == 0
  {
    ToUint8(bufLen as int - HEADER_SIZE)
  }

  /** rb_init on a memory block of `bufLen` bytes whose storage part holds
      `memory`; `clocked` says whether a time function was passed.  The
      storage is not cleared. */
  function Init(bufLen: uint8, memory: seq<uint8>, clocked: bool): (rb: RingBuffer)
    requires Capacity(bufLen) != 0 && |memory| == Capacity(bufLen) as int
    ensures Valid(rb)
    ensures bufLen as int > HEADER_SIZE ==> rb.size as int == bufLen as int - HEADER_SIZE
    ensures Contents(rb) == []
    ensures PutAvail(rb) == rb.size && GetAvail(rb) == 0
    ensures rb.writeIdx == 0 && rb.readIdx == 0
    ensures rb.storage == memory && rb.clocked == clocked
  {
    var size := Capacity(bufLen);
    RingBuffer(size, size, 0, 0, clocked, memory)
  }

  /** A buffer made by RB_BUFSIZE(n): even when the macro's value does not
      fit the uint8_t length parameter, the capacity is exactly `n`. */
  lemma InitBufSize(n: uint8)
    ensures Capacity(ToUint8(BufSize(n as int))) == n
  { }

  /** The storing half of rb_put, once the wait has found a free slot. */
  function Store(rb: RingBuffer, b: uint8): (r: RingBuffer)
    requires Valid(rb) && rb.free != 0
    ensures Valid(r)
    ensures Contents(r) == Contents(rb) + [b]
    ensures r.storage == rb.storage[rb.writeIdx as int := b]
    ensures r.writeIdx == Next(rb.size, rb.writeIdx) && r.free as int == rb.free as int - 1
    ensures r.size == rb.size && r.readIdx == rb.readIdx && r.clocked == rb.clocked
  {
    rb.(storage := rb.storage[rb.writeIdx as int := b],
        writeIdx := Next(rb.size, rb.writeIdx),
        free := rb.free - 1)
  }

  /** The loading half of rb_get, once the wait has found a byte. */
  function Load(rb: RingBuffer): (r: (uint8, RingBuffer))
    requires Valid(rb) && rb.free < rb.size
    ensures Valid(r.1)
    ensures Contents(rb) == [r.0] + Contents(r.1)
    ensures r.1.storage == rb.storage && r.1.writeIdx == rb.writeIdx
    ensures r.1.readIdx == Next(rb.size, rb.readIdx) && r.1.free as int == rb.free as int + 1
    ensures r.1.size == rb.size && r.1.clocked == rb.clocked
  {
    (rb.storage[rb.readIdx], rb.(readIdx := Next(rb.size, rb.readIdx), free := rb.free + 1))
  }

  /** A clock reading as the buffer's time function returns it. */
  function Reading(rb: RingBuffer, now: uint32): uint32 {
    if rb.clocked then now else 0
  }

  /** The buffer states the checks of a wait observe must all be valid and
      share the configuration the other context cannot change. */
  predicate Views(views: seq<RingBuffer>) {
    && |views| > 0
    && forall i :: 0 <= i < |views| ==>
         Valid(views[i]) && views[i].size == views[0].size && views[i].clocked == views[0].clocked
  }

  /** The same state at every check: no other context runs during the wait. */
  function Steady(rb: RingBuffer, n: nat): (views: seq<RingBuffer>)
    requires Valid(rb) && n > 0
    ensures Views(views) && |views| == n
  {
    seq(n, _ => rb)
  }

  /** The timeout test of a wait on this buffer: a buffer without a time
      function reads 0 at the start and at every poll, so it never expires. */
  predicate TimesOut(rb: RingBuffer, timeout: uint32, start: uint32, now: uint32) {
    rb.clocked && Expires(timeout, start, now)
  }

  /** The check at which a wait stopped, or the number of checks it went
      past if it is still polling. */
  function Stop(e: Exit, polls: nat): nat {
    match e
    case Ready(k) => k
    case Expired(k) => k
    case Polling => polls
  }

  /** The wait loop run with this buffer's time function: `ready` are the
      availability checks, `start` and `ticks` the clock as it reads. */
  function WaitOn(rb: RingBuffer, timeout: uint32, start: uint32, ready: seq<bool>, ticks: seq<uint32>): (e: Exit)
    requires |ready| == |ticks| + 1
    ensures e.Ready? ==> e.at <= |ticks| && ready[e.at]
    ensures e.Expired? ==> e.at < |ticks| && !ready[e.at] && TimesOut(rb, timeout, start, ticks[e.at])
    ensures e.Polling? ==> !ready[|ticks|]
    ensures forall j :: 0 <= j < Stop(e, |ticks|) ==> !ready[j] && !TimesOut(rb, timeout, start, ticks[j])
  {
    var readings := seq(|ticks|, i requires 0 <= i < |ticks| => Reading(rb, ticks[i]));
    assert forall i :: 0 <= i < |ticks| ==>
             (Expires(timeout, Reading(rb, start), readings[i]) <==> TimesOut(rb, timeout, start, ticks[i]));
    Wait(timeout, Reading(rb, start), ready, readings)
  }

  /** rb_put_wait, where `views[i]` is the buffer as check `i` sees it: it
      returns at the first check that finds a free slot, times out at the
      first reading that has reached a nonzero timeout, and otherwise polls. */
  function PutWait(views: seq<RingBuffer>, timeout: uint32, start: uint32, ticks: seq<uint32>): (e: Exit)
    requires Views(views) && |views| == |ticks| + 1
    ensures e.Ready? ==> e.at <= |ticks| && PutAvail(views[e.at]) != 0
    ensures e.Expired? ==> e.at < |ticks| && PutAvail(views[e.at]) == 0 && TimesOut(views[0], timeout, start, ticks[e.at])
    ensures e.Polling? ==> PutAvail(views[|ticks|]) == 0
    ensures forall j :: 0 <= j < Stop(e, |ticks|) ==>
              PutAvail(views[j]) == 0 && !TimesOut(views[0], timeout, start, ticks[j])
    ensures timeout == 0 || !views[0].clocked ==> !e.Expired?
  {
    var ready := seq(|views|, i requires 0 <= i < |views| => PutAvail(views[i]) != 0);
    var e := WaitOn(views[0], timeout, start, ready, ticks);
    assert forall j :: 0 <= j < Stop(e, |ticks|) ==> PutAvail(views[j]) == 0 by {
      forall j | 0 <= j < Stop(e, |ticks|) ensures PutAvail(views[j]) == 0 {
        assert !ready[j];
      }
    }
    e
  }

  /** rb_get_wait, the same loop waiting for a byte to read. */
  function GetWait(views: seq<RingBuffer>, timeout: uint32, start: uint32, ticks: seq<uint32>): (e: Exit)
    requires Views(views) && |views| == |ticks| + 1
    ensures e.Ready? ==> e.at <= |ticks| && GetAvail(views[e.at]) != 0
    ensures e.Expired? ==> e.at < |ticks| && GetAvail(views[e.at]) == 0 && TimesOut(views[0], timeout, start, ticks[e.at])
    ensures e.Polling? ==> GetAvail(views[|ticks|]) == 0
    ensures forall j :: 0 <= j < Stop(e, |ticks|) ==>
              GetAvail(views[j]) == 0 && !TimesOut(views[0], timeout, start, ticks[j])
    ensures timeout == 0 || !views[0].clocked ==> !e.Expired?
  {
    var ready := seq(|views|, i requires 0 <= i < |views| => GetAvail(views[i]) != 0);
    var e := WaitOn(views[0], timeout, start, ready, ticks);
    assert forall j :: 0 <= j < Stop(e, |ticks|) ==> GetAvail(views[j]) == 0 by {
      forall j | 0 <= j < Stop(e, |ticks|) ensures GetAvail(views[j]) == 0 {
        assert !ready[j];
      }
    }
    e
  }

  /** The result of a blocking call: returned 0 (with the byte read, for a
      get), returned -1 on a time-out, or still spinning in its wait loop
      when the clock readings ran out.  `state` is the buffer afterwards. */
  datatype Outcome<T> = Done(value: T, state: RingBuffer) | TimedOut(state: RingBuffer) | Spinning(state: RingBuffer)

  /** The int a blocking call returns. */
  function Code<T>(r: Outcome<T>): int
    requires !r.Spinning?
  {
    if r.Done? then 0 else -1
  }

  /** rb_put: wait for a free slot, then store `b` at the write cursor; on a
      time-out return -1 and leave the buffer as the wait found it. */
  function Put(views: seq<RingBuffer>, b: uint8, timeout: uint32, start: uint32, ticks: seq<uint32>): (r: Outcome<()>)
    requires Views(views) && |views| == |ticks| + 1
    ensures Valid(r.state) && r.state.size == views[0].size && r.state.clocked == views[0].clocked
    ensures r.Done? <==> PutWait(views, timeout, start, ticks).Ready?
    ensures r.TimedOut? <==> PutWait(views, timeout, start, ticks).Expired?
    ensures r.Done? ==>
              var v := views[PutWait(views, timeout, start, ticks).at];
              && Valid(r.state)
              && Contents(r.state) == Contents(v) + [b]
              && r.state.storage == v.storage[v.writeIdx as int := b]
              && r.state.writeIdx == Next(v.size, v.writeIdx)
              && r.state.free as int == v.free as int - 1
              && r.state.readIdx == v.readIdx && r.state.size == v.size
    ensures !r.Done? ==> r.state == views[Stop(PutWait(views, timeout, start, ticks), |ticks|)]
  {
    match PutWait(views, timeout, start, ticks)
    case Ready(k) => Done((), Store(views[k], b))
    case Expired(k) => TimedOut(views[k])
    case Polling => Spinning(views[|ticks|])
  }

  /** rb_get: wait for a byte, then take the byte at the read cursor; on a
      time-out return -1 and leave the buffer as the wait found it. */
  function Get(views: seq<RingBuffer>, timeout: uint32, start: uint32, ticks: seq<uint32>): (r: Outcome<uint8>)
    requires Views(views) && |views| == |ticks| + 1
    ensures Valid(r.state) && r.state.size == views[0].size && r.state.clocked == views[0].clocked
    ensures r.Done? <==> GetWait(views, timeout, start, ticks).Ready?
    ensures r.TimedOut? <==> GetWait(views, timeout, start, ticks).Expired?
    ensures r.Done? ==>
              var v := views[GetWait(views, timeout, start, ticks).at];
              && Valid(r.state)
              && Contents(v) == [r.value] + Contents(r.state)
              && r.state.storage == v.storage
              && r.state.writeIdx == v.writeIdx
              && r.state.readIdx == Next(v.size, v.readIdx)
              && r.state.free as int == v.free as int + 1
              && r.state.size == v.size
    ensures !r.Done? ==> r.state == views[Stop(GetWait(views, timeout, start, ticks), |ticks|)]
  {
    match GetWait(views, timeout, start, ticks)
    case Ready(k) => var (x, s) := Load(views[k]); Done(x, s)
    case Expired(k) => TimedOut(views[k])
    case Polling => Spinning(views[|ticks|])
  }

  /** rb_put on a buffer no other context touches during the call: it
      appends `b` exactly when a slot is free; otherwise it returns -1 at the
      first reading past a nonzero timeout (never without a time function),
      and in every case but success leaves the buffer unchanged. */
  lemma PutAlone(rb: RingBuffer, b: uint8, timeout: uint32, start: uint32, ticks: seq<uint32>)
    requires Valid(rb)
    ensures var r := Put(Steady(rb, |ticks| + 1), b, timeout, start, ticks);
            && (r.Done? <==> PutAvail(rb) != 0)
            && (r.Done? ==> Contents(r.state) == Contents(rb) + [b])
            && (r.TimedOut? <==>
                  PutAvail(rb) == 0 && exists k :: 0 <= k < |ticks| && TimesOut(rb, timeout, start, ticks[k]))
            && (!r.Done? ==> r.state == rb)
  { }

  /** rb_get on a buffer no other context touches during the call: it
      returns the oldest byte and removes it exactly when one is there;
      otherwise as for `PutAlone`. */
  lemma GetAlone(rb: RingBuffer, timeout: uint32, start: uint32, ticks: seq<uint32>)
    requires Valid(rb)
    ensures var r := Get(Steady(rb, |ticks| + 1), timeout, start, ticks);
            && (r.Done? <==> GetAvail(rb) != 0)
            && (r.Done? ==> [r.value] + Contents(r.state) == Contents(rb))
            && (r.TimedOut? <==>
                  GetAvail(rb) == 0 && exists k :: 0 <= k < |ticks| && TimesOut(rb, timeout, start, ticks[k]))
            && (!r.Done? ==> r.state == rb)
  { }
}
