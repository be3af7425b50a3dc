# Byte ring buffer with blocking, time-limited put and get

This project models the ring buffer of the audio-manipulator firmware
(`ringbuffer.c`, `ringbuffer.h`) and the serial glue that uses it as the UART
receive queue (`serial.c`), and proves their properties in Dafny.

- `ints.dfy` (module `Ints`): `uint8`/`uint32` as bounded integer newtypes;
  every conversion to `uint8_t` and every 32-bit subtraction is written out
  modulo 2^8 or 2^32.
- `wait.dfy` (module `WaitLoop`): the polling loop shared by `rb_get_wait` and
  `rb_put_wait`. A run is the sequence of availability checks and the clock
  reading taken after each failed check. The model follows the loop until it
  returns 0, returns -1, or runs out of readings (`Polling`, still waiting).
- `ringbuffer.dfy` (module `Ring`): the `ringbuffer_t` record with its 8-bit
  counts and cursors, `rb_init`, `rb_put_avail`, `rb_get_avail`, both waits,
  `rb_put` and `rb_get`. The abstraction function `Contents` is the FIFO
  queue a buffer holds: the `size - free` bytes from the read cursor on,
  wrapping. Every operation is specified by its effect on that queue. The
  blocking calls take `views`: the buffer as each check of the wait loop sees
  it, since the other context may change it between checks. `Steady` is the
  case where nothing else runs.
- `serial.dfy` (module `Serial`): `serial_putc`'s line-end swap,
  `serial_set_echo`, the receive buffer set up by `serial_init`, the receive
  interrupt (echo, then put only if a slot is free), and `serial_get`.
- `fifo.dfy` (module `Fifo`): the interrupt and the consumer interleaved as
  whole steps, proved to refine a bounded queue that drops a byte arriving
  when it is full; FIFO order and the reachable-state invariants follow.
- `timer.dfy` (module `Timer`): the millisecond reading `timer2_get` gives
  the receive buffer, and the finding below.

The time source is an input: a sequence of readings, one per failed check.
`RingBuffer.clocked` records whether `rb_init` was given a time function.
Without one, the default `rb_no_get_time` reads 0 every time. The idle hook
is a no-op step and is not represented. The header size `sizeof(ringbuffer_t)`
is 8 on the AVR target: four `uint8_t` fields, two 16-bit code pointers, no
padding, and an empty flexible array.

With the default time function `rb_no_get_time` (ringbuffer.c:18), every wait
lasts until the buffer is ready, whatever its timeout
(`WaitLoop.StoppedClockNeverExpires`, `WaitLoop.NoTimeoutWaitsForever`).

## Model

| member | source | states |
|---|---|---|
| WaitLoop.Wait | SW_DEV/src/ringbuffer.c:105-111 | The loop returns 0 at its first successful check. It returns -1 at the first failed check whose reading is at least `timeout` ticks (unsigned 32-bit `now - start`) after the start, when the timeout is nonzero. Otherwise it is still polling. A zero timeout never gives -1. |
| WaitLoop.WaitFrom | SW_DEV/src/ringbuffer.c:106-110 | One pass of the loop body and the rest of the loop, from a check that follows only failed, unexpired checks: the exit it takes is the first exit `IsExit` describes. |
| WaitLoop.ExitIsUnique | SW_DEV/src/ringbuffer.c:106-110 | Any exit meeting the first-exit description is the exit the loop takes. |
| WaitLoop.ElapsedAdvance | SW_DEV/src/ringbuffer.c:108 | The elapsed time to the reading `d` ticks after `start` is `d`, across a wrap of the counter too. |
| WaitLoop.AdvanceElapsed | SW_DEV/src/ringbuffer.c:108 | Every reading lies `Elapsed(now, start)` ticks after the start reading. |
| WaitLoop.NoTimeoutWaitsForever | SW_DEV/include/ringbuffer.h:53 | With timeout 0 the loop never returns -1. It keeps polling exactly when no check succeeds. |
| WaitLoop.ExpiresAtFirstLateReading | SW_DEV/src/ringbuffer.c:105-108 | On a clock whose reading `i` is `ds[i]` ticks after the start, even across a wrap, the loop returns -1 at reading `k` iff `k` is the first failed check with `ds[k] >= timeout` (timeout nonzero). |
| WaitLoop.StoppedClockNeverExpires | SW_DEV/src/ringbuffer.c:108 | A clock that always reads the start value never lets the loop time out, for any timeout. |
| WaitLoop.TimeoutAcrossWrap | SW_DEV/src/ringbuffer.c:108 | Start 0xFFFFFFF0, timeout 32: the loop times out at reading 0x10. It does not time out at 0xFFFFFFFF or 0xF. |
| Ring.Next | SW_DEV/src/ringbuffer.c:55-56 | The cursor step (back to 0 after `size-1`) is an increment modulo the capacity. |
| Ring.PutAvail | SW_DEV/src/ringbuffer.c:87-90 | The count is the number of bytes that fit before the queue is full: capacity minus queue length. |
| Ring.GetAvail | SW_DEV/src/ringbuffer.c:94-97 | The count is the queue length. It plus `PutAvail` is the capacity. |
| Ring.Capacity | SW_DEV/src/ringbuffer.c:29 | The capacity is the total length less the header size when the length exceeds the header, and 0 when it equals it. |
| Ring.Init | SW_DEV/src/ringbuffer.c:22-41 | The new buffer is valid and empty, has capacity length minus header, both cursors 0, `free` equal to the capacity, and the storage untouched. It records whether a time function was given. |
| Ring.InitBufSize | SW_DEV/include/ringbuffer.h:32 | A block of `RB_BUFSIZE(n)` bytes, truncated to the `uint8_t` length parameter, gives capacity exactly `n`. |
| Ring.Store | SW_DEV/src/ringbuffer.c:52-59 | Storing `b` appends it to the queue. It writes the old write slot, steps the write cursor, and decrements `free`. The read cursor, capacity and validity are kept. |
| Ring.Load | SW_DEV/src/ringbuffer.c:73-80 | Loading returns the queue's head and removes it. It steps the read cursor and increments `free`. Storage and write cursor are unchanged. |
| Ring.WaitOn | SW_DEV/src/ringbuffer.c:39-40 | The loop run with the buffer's time function expires only when a time function was installed and a reading has reached a nonzero timeout. |
| Ring.PutWait | SW_DEV/src/ringbuffer.c:116-128 | Returns 0 at the first check that finds a free slot. Returns -1 only with a time function and a nonzero timeout, at the first reading that reaches it. Otherwise it polls with the buffer full. |
| Ring.GetWait | SW_DEV/src/ringbuffer.c:101-112 | The same as `PutWait`, waiting for at least one unread byte. |
| Ring.Put | SW_DEV/src/ringbuffer.c:45-61 | Returns 0 exactly when the wait succeeds, and then the queue gains `b` at its end. Returns -1 exactly when the wait times out, and then the buffer is left as the wait found it. |
| Ring.Get | SW_DEV/src/ringbuffer.c:65-83 | Returns 0 with the queue's head exactly when the wait succeeds, and removes that byte. On a time-out the buffer is left as found. |
| Ring.PutAlone | SW_DEV/include/ringbuffer.h:50-57 | With no other context running, put succeeds iff a slot is free. It returns -1 iff the buffer is full and some reading passes a nonzero timeout with a time function installed. Failure changes nothing. |
| Ring.GetAlone | SW_DEV/include/ringbuffer.h:61-68 | With no other context running, get returns the oldest byte iff the queue is non-empty. It returns -1 iff the queue is empty and a reading passes the timeout. Failure changes nothing. |
| Serial.TxCharSwapsLineEnds | SW_DEV/src/serial.c:39-47 | `'\r'` is sent as `'\n'` and `'\n'` as `'\r'`. Every other byte is sent unchanged, and the mapping undoes itself. |
| Serial.SetEcho | SW_DEV/src/serial.c:57-60 | The echo flag becomes 1 for any nonzero argument and 0 for zero. |
| Serial.SetPortEcho | SW_DEV/src/serial.c:57-60 | Setting echo changes only the echo flag, which becomes 1 for a nonzero argument and 0 for zero; the receive buffer is untouched. |
| Serial.SerialInit | SW_DEV/src/serial.c:34 | The receive buffer is valid and empty, holds 127 bytes, and uses the timer as its time source. Echo is off. |
| Serial.Produce | SW_DEV/src/serial.c:87-88 | With a free slot, the byte is appended, and the `rb_put(..., 0)` call succeeds at once whatever the clock reads. With a full buffer, the byte is dropped and the buffer is unchanged. |
| Serial.Receive | SW_DEV/src/serial.c:81-89 | The interrupt echoes the byte through the line-end swap iff echo is on, then hands it to the buffer as `Produce` does. |
| Serial.EchoFollowsSetting | SW_DEV/src/serial.c:85 | After `serial_set_echo(x)`, the receive interrupt echoes the byte (through the line-end swap) exactly when `x` is nonzero, and buffers it the same way either way. |
| Serial.SerialGet | SW_DEV/src/serial.c:62-79 | Returns -1 exactly when `rb_get`'s 500 ms wait times out. Otherwise it returns the head of the queue, with `'\r'` read as `'\n'`, and removes it. The value is always in -1..255 and never `'\r'`. |
| Serial.SerialGetAlone | SW_DEV/src/serial.c:64-77 | With the interrupt idle, returns a byte iff one is queued, the oldest one (mapped). Returns -1 iff the queue is empty and a reading lies 500 ms past the start. |
| Fifo.StepRefinesQueue | SW_DEV/src/ringbuffer.c:45-83 | One interrupt or consumer step changes the queue and delivers bytes as the bounded reference queue does. |
| Fifo.RunRefinesQueue | SW_DEV/src/ringbuffer.c:45-83 | Any interleaving of interrupt and consumer steps matches the bounded reference queue, both in contents and in bytes delivered. |
| Fifo.BufferRun | SW_DEV/src/ringbuffer.c:52-80 | Every state an interleaving of interrupt and consumer steps passes through keeps the buffer invariant: counts and cursors in range, write cursor as many slots after the read cursor as there are unread bytes. |
| Fifo.QueueFifo | SW_DEV/src/ringbuffer.c:52-80 | In the reference queue, when nothing is dropped, bytes taken then bytes left equal bytes queued at the start then bytes arrived. |
| Fifo.QueueBounded | SW_DEV/include/ringbuffer.h:19 | The reference queue never holds more than its capacity. |
| Fifo.BufferFifo | SW_DEV/src/ringbuffer.c:52-80 | FIFO on the ring buffer: when no byte meets a full buffer, the consumer gets the queued and arriving bytes in order, and the rest stay queued. |
| Fifo.Reachable | SW_DEV/include/ringbuffer.h:18-21 | In every state reachable from `rb_init`: `free <= size`, both cursors are below `size`, and the two availability counts add up to the capacity. The buffer holds exactly what the reference queue, started empty, holds after the same steps, so never more than the capacity. |
| Fifo.PairsPassThrough | SW_DEV/src/ringbuffer.c:55-56 | Fed and drained one byte at a time, any capacity passes every byte through in order, however many times the cursors wrap, and ends empty. |
| Fifo.OverflowDropsNewest | SW_DEV/src/serial.c:87-88 | A byte arriving at a full buffer has no effect on anything the consumer later receives. |
| Timer.Timer2Get | SW_DEV/src/timer.c:22-25 | The millisecond reading stays below 2^29. |
| Timer.Timer2GetWrapExpiresEarly | SW_DEV/src/timer.c:22-25 | As written, 1 ms across the wrap of the tick counter reads as an elapsed 0xE0000001 ms, so a 500 ms wait expires. |
| Timer.SerialGetReturnsEarlyAtWrap | SW_DEV/src/serial.c:64-77 | As written, on an idle line, a `serial_get` started 1 ms before the tick counter wraps returns -1 at its first poll, 1 ms later, and leaves the buffer unchanged. |
| Timer.MsClockElapsed | SW_DEV/src/ringbuffer.c:108 | With a full-range millisecond clock, the loop's elapsed time is the true number of whole milliseconds passed, across any wrap. |
| Timer.MsClockAcrossCounterWrap | SW_DEV/src/timer.c:93-95 | With the full-range clock, the same step across the tick counter's wrap reads as 1 ms. |
| Timer.SerialGetTimesOutAfter500ms | SW_DEV/src/serial.c:64 | With the full-range clock and an idle line, `serial_get` returns -1 exactly when some poll lies at least 500 real milliseconds after the call began. |

## Findings

| source | as written | input that shows it | evidently intended | confidence | as-written member | corrected member |
|---|---|---|---|---|---|---|
| SW_DEV/src/timer.c:22-25 | `timer2_get` returns `counter/8`, so the millisecond clock handed to the receive buffer wraps at 2^29. The wait loop's unsigned `now - start` assumes a wrap at 2^32. | Tick counter at 2^32 - 8, then 8 ticks (1 ms) later: readings 0x1FFFFFFF then 0. The elapsed time is 0xE0000001, so `serial_get` returns -1 after 1 ms. | A millisecond count that wraps at 2^32, so that the elapsed time is the real time across any wrap. | medium; not executed | Timer.SerialGetReturnsEarlyAtWrap | Timer.MsClockElapsed |

## Left out

- Ring.Init: requires a nonzero capacity and storage of that length. `rb_init` accepts any length. A length below the header size makes the capacity wrap to 248..255, and the C code would then index past the caller's block.
- The idle hook: it is a no-op step. A hook installed by a caller, and its side effects, are not modelled.
- Function pointers: the time function is represented by the `clocked` flag and the readings passed to each call.
- Atomicity of `free++`/`free--` and true preemption: the two contexts are interleaved as whole steps (`Fifo`). Within one wait they appear as the per-check `views`. A stored or loaded byte is applied to the state the successful check saw.
- The wait loops are followed only as far as the supplied clock readings go. A loop that never returns is a run that ends in `Polling` however many readings are given.
- The non-atomic read of the 32-bit tick counter on an 8-bit processor inside `timer2_get`. It is a concurrency effect outside the sequential model.
- UART and port register setup in `serial_init`, and the transmit-ready spin and data-register write in `serial_putc`. Only the byte that would be written is modelled.
- Timer register setup, the interrupt routines, and the `timer2_wait`/`timer2_uwait` busy-waits.
- The power sequencing, ADC, EEPROM, FPGA and menu code of the application, and the commented-out transmit buffer.
