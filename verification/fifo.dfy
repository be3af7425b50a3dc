/**
 * The receive path as a whole: the interrupt and the consumer interleaved as
 * whole steps on one buffer, compared with a bounded FIFO queue that drops a
 * byte arriving when it is full.
 */
module Fifo {
  import opened Ints
  import opened Ring
  import opened Serial

  /** One step of either context: the receive interrupt delivering a byte,
      or one check of the consumer's rb_get, which takes the oldest byte if
      there is one and otherwise goes on polling. */
  datatype Event = Arrive(b: uint8) | Take

  /** The reference: one step of a queue holding at most `cap` bytes. */
  function QueueStep(q: seq<uint8>, cap: nat, e: Event): (seq<uint8>, seq<uint8>) {
    match e
    case Arrive(b) => if |q| < cap then (q + [b], []) else (q, [])
    case Take => if |q| > 0 then (q[1..], [q[0]]) else (q, [])
  }

  /** The reference run: the final queue and the bytes taken, in order. */
  function QueueRun(q: seq<uint8>, cap: nat, es: seq<Event>): (seq<uint8>, seq<uint8>)
    decreases |es|
  {
    if es == [] then (q, [])
    else
      var (q1, out1) := QueueStep(q, cap, es[0]);
      var (q2, out2) := QueueRun(q1, cap, es[1..]);
      (q2, out1 + out2)
  }

  /** One step on the ring buffer. */
  function BufferStep(rb: RingBuffer, e: Event): (r: (RingBuffer, seq<uint8>))
    requires Valid(rb)
    ensures Valid(r.0) && r.0.size == rb.size && r.0.clocked == rb.clocked
  {
    match e
    case Arrive(b) => (Produce(rb, b), [])
    case Take =>
      var g := Get(Steady(rb, 1), 0, 0, []);
      if g.Done? then (g.state, [g.value]) else (g.state, [])
  }

  /** A run on the ring buffer: every state it passes through is valid. */
  function BufferRun(rb: RingBuffer, es: seq<Event>): (r: (RingBuffer, seq<uint8>))
    requires Valid(rb)
    ensures Valid(r.0) && r.0.size == rb.size && r.0.clocked == rb.clocked
    decreases |es|
  {
    if es == [] then (rb, [])
    else
      var (rb1, out1) := BufferStep(rb, es[0]);
      var (rb2, out2) := BufferRun(rb1, es[1..]);
      (rb2, out1 + out2)
  }

  /** A step of the ring buffer is the queue's step on its contents. */
  lemma StepRefinesQueue(rb: RingBuffer, e: Event)
    requires Valid(rb)
    ensures Contents(BufferStep(rb, e).0) == QueueStep(Contents(rb), rb.size as int, e).0
    ensures BufferStep(rb, e).1 == QueueStep(Contents(rb), rb.size as int, e).1
  { }

  /** Any interleaving of interrupt and consumer steps does to the buffer's
      contents, and delivers to the consumer, what the bounded queue does. */
  lemma {:induction false} RunRefinesQueue(rb: RingBuffer, es: seq<Event>)
    requires Valid(rb)
    ensures Contents(BufferRun(rb, es).0) == QueueRun(Contents(rb), rb.size as int, es).0
    ensures BufferRun(rb, es).1 == QueueRun(Contents(rb), rb.size as int, es).1
    decreases |es|
  {
    if es != [] {
      StepRefinesQueue(rb, es[0]);
      RunRefinesQueue(BufferStep(rb, es[0]).0, es[1..]);
    }
  }

  /** The bytes the interrupt delivers in a run. */
  function Arrivals(es: seq<Event>): seq<uint8>
    decreases |es|
  {
    if es == [] then [] else (if es[0].Arrive? then [es[0].b] else []) + Arrivals(es[1..])
  }

  /** No byte arrives while the queue is full. */
  predicate NeverFull(q: seq<uint8>, cap: nat, es: seq<Event>)
    decreases |es|
  {
    es == [] ||
    ((es[0].Arrive? ==> |q| < cap) && NeverFull(QueueStep(q, cap, es[0]).0, cap, es[1..]))
  }

  /** The queue never holds more than its capacity. */
  lemma {:induction false} QueueBounded(q: seq<uint8>, cap: nat, es: seq<Event>)
    requires |q| <= cap
    ensures |QueueRun(q, cap, es).0| <= cap
    decreases |es|
  {
    if es != [] {
      QueueBounded(QueueStep(q, cap, es[0]).0, cap, es[1..]);
    }
  }

  /** FIFO: when nothing is dropped, the bytes taken followed by the bytes
      still queued are the bytes queued at the start followed by the bytes
      that arrived, in order. */
  lemma {:induction false} QueueFifo(q: seq<uint8>, cap: nat, es: seq<Event>)
    requires NeverFull(q, cap, es)
    ensures QueueRun(q, cap, es).1 + QueueRun(q, cap, es).0 == q + Arrivals(es)
    decreases |es|
  {
    if es != [] {
      var (q1, out1) := QueueStep(q, cap, es[0]);
      QueueFifo(q1, cap, es[1..]);
      var (q2, out2) := QueueRun(q1, cap, es[1..]);
      assert out2 + q2 == q1 + Arrivals(es[1..]);
      match es[0]
      case Arrive(b) =>
        assert out1 + out2 + q2 == q + [b] + Arrivals(es[1..]);
      case Take =>
        if |q| > 0 {
          assert out1 + out2 + q2 == [q[0]] + (q[1..] + Arrivals(es[1..]));
          assert [q[0]] + q[1..] == q;
        }
    }
  }

  /** FIFO on the ring buffer: when the interrupt never meets a full
      buffer, the consumer receives exactly the bytes that were queued and
      that arrived, in order, and the rest stay queued. */
  lemma BufferFifo(rb: RingBuffer, es: seq<Event>)
    requires Valid(rb)
    requires NeverFull(Contents(rb), rb.size as int, es)
    ensures BufferRun(rb, es).1 + Contents(BufferRun(rb, es).0) == Contents(rb) + Arrivals(es)
  {
    RunRefinesQueue(rb, es);
    QueueFifo(Contents(rb), rb.size as int, es);
  }

  /** Every state reachable from rb_init keeps the counts and cursors in
      range (which `BufferRun` preserves), the two availability counts add
      up to the capacity, and the buffer holds what the reference queue
      started empty would hold, never more than the capacity. */
  lemma Reachable(bufLen: uint8, memory: seq<uint8>, clocked: bool, es: seq<Event>)
    requires Capacity(bufLen) != 0 && |memory| == Capacity(bufLen) as int
    ensures var s := BufferRun(Init(bufLen, memory, clocked), es).0;
            && s.size == Capacity(bufLen)
            && s.free <= s.size && s.readIdx < s.size && s.writeIdx < s.size
            && PutAvail(s) as int + GetAvail(s) as int == s.size as int
            && Contents(s) == QueueRun([], Capacity(bufLen) as int, es).0
            && |Contents(s)| <= s.size as int
  {
    var rb := Init(bufLen, memory, clocked);
    RunRefinesQueue(rb, es);
    QueueBounded([], Capacity(bufLen) as int, es);
  }

  /** Bytes that arrive one at a time, each taken before the next arrives. */
  function Pairs(bs: seq<uint8>): (es: seq<Event>)
    decreases |bs|
  {
    if bs == [] then [] else [Arrive(bs[0]), Take] + Pairs(bs[1..])
  }

  /** However many times the cursors wrap, a buffer of any capacity that is
      fed and drained one byte at a time hands the consumer every byte, in
      order, and ends empty. */
  lemma {:induction false} PairsPassThrough(rb: RingBuffer, bs: seq<uint8>)
    requires Valid(rb) && Contents(rb) == []
    ensures BufferRun(rb, Pairs(bs)).1 == bs
    ensures Contents(BufferRun(rb, Pairs(bs)).0) == []
    decreases |bs|
  {
    if bs != [] {
      var es := Pairs(bs);
      assert es[0] == Arrive(bs[0]) && es[1..][0] == Take && es[1..][1..] == Pairs(bs[1..]);
      StepRefinesQueue(rb, Arrive(bs[0]));
      var rb1 := BufferStep(rb, Arrive(bs[0])).0;
      StepRefinesQueue(rb1, Take);
      var rb2 := BufferStep(rb1, Take).0;
      PairsPassThrough(rb2, bs[1..]);
    }
  }

  /** The drop policy: a byte arriving at a full buffer is lost and the
      buffer is unchanged, so the consumer receives what was queued before. */
  lemma OverflowDropsNewest(rb: RingBuffer, b: uint8, es: seq<Event>)
    requires Valid(rb) && PutAvail(rb) == 0
    ensures BufferRun(rb, [Arrive(b)] + es) == BufferRun(rb, es)
  {
    var es' := [Arrive(b)] + es;
    assert es'[0] == Arrive(b) && es'[1..] == es;
    assert BufferStep(rb, Arrive(b)) == (rb, []);
    var (rb2, out2) := BufferRun(rb, es);
    assert BufferRun(rb, es') == (rb2, [] + out2);
    assert [] + out2 == out2;
  }
}
