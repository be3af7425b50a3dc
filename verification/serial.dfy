/**
 * The serial glue around the receive buffer: the line-ending mapping of
 * serial_putc, the echo switch, the receive interrupt that feeds the buffer,
 * and serial_get that drains it.  UART registers are not modelled; a
 * transmitted byte is the value serial_putc would write to the data register.
 */
module Serial {
  import opened Ints
  import opened Ring

  /** '\r' */
  const CR: uint8 := 13
  /** '\n' */
  const LF: uint8 := 10
  /** The queue length of the receive buffer. */
  const RX_QUEUE_LEN: uint8 := 127
  /** The timeout serial_get passes to rb_get, in timer2 milliseconds. */
  const GET_TIMEOUT: uint32 := 500

  /** The byte serial_putc transmits for `c`: line ends are swapped.  The
      parameter is a plain char in the source; only its bit pattern reaches
      the data register and only 10 and 13 are changed, so bytes suffice. */
  function TxChar(c: uint8): uint8 {
    if c == CR then LF else if c == LF then CR else c
  }

  /** serial_putc's mapping swaps '\r' and '\n', fixes every other byte, and
      undoes itself. */
  lemma TxCharSwapsLineEnds(c: uint8)
    ensures TxChar(c) == LF <==> c == CR
    ensures TxChar(c) == CR <==> c == LF
    ensures c != CR && c != LF ==> TxChar(c) == c
    ensures TxChar(TxChar(c)) == c
  { }

  /** serial_set_echo: the value stored in the echo flag. */
  function SetEcho(onOff: uint8): (echo: uint8)
    ensures echo <= 1
    ensures echo == 0 <==> onOff == 0
  {
    if onOff != 0 then 1 else 0
  }

  /** The module's state: the echo flag and the receive buffer. */
  datatype Port = Port(echo: uint8, rx: RingBuffer)

  /** serial_set_echo applied to the module's state: only the echo flag
      changes. */
  function SetPortEcho(p: Port, onOff: uint8): (r: Port)
    ensures r.rx == p.rx
    ensures r.echo <= 1 && (r.echo == 0 <==> onOff == 0)
  {
    p.(echo := SetEcho(onOff))
  }

  /** serial_init's rb_init call: the static (so zero-filled) array of
      RB_BUFSIZE(127) bytes, no idle function, timer2_get as time function.
      The echo flag starts at 0. */
  function SerialInit(): (p: Port)
    ensures Valid(p.rx) && p.rx.size == RX_QUEUE_LEN && p.rx.clocked
    ensures Contents(p.rx) == [] && PutAvail(p.rx) == RX_QUEUE_LEN
    ensures p.echo == 0
  {
    InitBufSize(RX_QUEUE_LEN);
    Port(0, Init(ToUint8(BufSize(RX_QUEUE_LEN as int)), seq(RX_QUEUE_LEN as int, _ => 0), true))
  }

  /** The buffer half of the receive interrupt: the byte is put with
      timeout 0 only when a slot is free, so the put never waits; a byte
      that arrives at a full buffer is dropped and the buffer is unchanged. */
  function Produce(rx: RingBuffer, data: uint8): (r: RingBuffer)
    requires Valid(rx)
    ensures Valid(r) && r.size == rx.size && r.clocked == rx.clocked
    ensures PutAvail(rx) > 0 ==> Contents(r) == Contents(rx) + [data]
    ensures PutAvail(rx) == 0 ==> r == rx
    ensures PutAvail(rx) > 0 ==> forall now :: Put(Steady(rx, 1), data, 0, now, []) == Done((), r)
  {
    if PutAvail(rx) > 0 then Store(rx, data) else rx
  }

  /** SIG_UART1_RECV: with echo on the byte is first transmitted (through
      serial_putc's mapping), then handed to the buffer as in `Produce`. */
  function Receive(p: Port, data: uint8): (r: (Port, seq<uint8>))
    requires Valid(p.rx)
    ensures r.0.echo == p.echo && Valid(r.0.rx)
    ensures PutAvail(p.rx) > 0 ==> Contents(r.0.rx) == Contents(p.rx) + [data]
    ensures PutAvail(p.rx) == 0 ==> r.0.rx == p.rx
    ensures p.echo == 0 ==> r.1 == []
    ensures p.echo != 0 ==> r.1 == [TxChar(data)]
  {
    (p.(rx := Produce(p.rx, data)), if p.echo != 0 then [TxChar(data)] else [])
  }

  /** After serial_set_echo, the receive interrupt echoes a byte (through
      serial_putc's mapping) exactly when the argument was nonzero, and
      hands it to the buffer the same way either way. */
  lemma EchoFollowsSetting(p: Port, onOff: uint8, data: uint8)
    requires Valid(p.rx)
    ensures Receive(SetPortEcho(p, onOff), data).1 == (if onOff != 0 then [TxChar(data)] else [])
    ensures Receive(SetPortEcho(p, onOff), data).0.rx == Receive(p, data).0.rx
  { }

  /** What serial_get returns for a received byte: '\r' reads as '\n'. */
  function RxChar(b: uint8): uint8 {
    if b == CR then LF else b
  }

  /** A call that returned `value`, or one still waiting in rb_get. */
  datatype Call = Returned(value: int, rx: RingBuffer) | Blocked(rx: RingBuffer)

  /** serial_get: rb_get on the receive buffer with a 500 ms timeout, where
      `views[i]` is the buffer as the wait's check `i` sees it. */
  function SerialGet(views: seq<RingBuffer>, start: uint32, ticks: seq<uint32>): (r: Call)
    requires Views(views) && |views| == |ticks| + 1
    ensures r.Returned? ==> -1 <= r.value < 0x100 && r.value != CR as int
    ensures Valid(r.rx)
    ensures r.Returned? && r.value == -1 <==> GetWait(views, GET_TIMEOUT, start, ticks).Expired?
    ensures r.Returned? && r.value != -1 <==> GetWait(views, GET_TIMEOUT, start, ticks).Ready?
    ensures r.Returned? && r.value != -1 ==>
              var v := views[GetWait(views, GET_TIMEOUT, start, ticks).at];
              && Contents(v) != []
              && r.value == RxChar(Contents(v)[0]) as int
              && Contents(r.rx) == Contents(v)[1..]
    ensures r.Blocked? <==> GetWait(views, GET_TIMEOUT, start, ticks).Polling?
  {
    var g := Get(views, GET_TIMEOUT, start, ticks);
    if g.Spinning? then Blocked(g.state)
    else if Code(g) == 0 then Returned(RxChar(g.value) as int, g.state)
    else Returned(-1, g.state)
  }

  /** serial_get while the interrupt does not run: it returns the oldest
      received byte (with '\r' read as '\n') when there is one, and -1 only
      when the buffer is empty and the clock has moved 500 ms past the
      start; the buffer loses exactly the byte returned. */
  lemma SerialGetAlone(rx: RingBuffer, start: uint32, ticks: seq<uint32>)
    requires Valid(rx)
    ensures var r := SerialGet(Steady(rx, |ticks| + 1), start, ticks);
            && (r.Returned? && r.value >= 0 <==> Contents(rx) != [])
            && (r.Returned? && r.value >= 0 ==>
                  r.value == RxChar(Contents(rx)[0]) as int && Contents(r.rx) == Contents(rx)[1..])
            && (r.Returned? && r.value == -1 <==>
                  Contents(rx) == [] && exists k :: 0 <= k < |ticks| && TimesOut(rx, GET_TIMEOUT, start, ticks[k]))
            && (r.Blocked? ==> r.rx == rx)
  { }
}
