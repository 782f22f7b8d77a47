# SPI slave transfer engine (PIC16F877A) in Dafny

This project models the byte-exchange core of the PIC16F877A SPI slave driver in
`spi_slave.c`. It covers three routines:

- `spi_send_receive` is the blocking full-duplex exchange of one byte. It runs a
  bounded-retry wait loop over the buffer-full flag BF.
- `spi_reset` is the recovery ritual the wait loop runs when it stalls.
- `spi_interrupt` is the interrupt-driven reception path. It reads one byte and
  forwards it.

The MSSP peripheral is a record `Registers.Regs` with four fields: SSPBUF, BF,
SSPIF and SSPEN. The remote master is an input oracle `seq<Wire>`. It has one
entry per poll of BF, saying whether an exchange has finished by that poll and
which byte was shifted in. A remote that runs past the end of its script stays
idle. Each operation also returns a trace of `Step`s. A step is a write or read
of SSPBUF, a poll of BF, a decrement of `reset_counter`, or a call of
`spi_reset`. The properties below are stated over this trace.

`SpiTransfer.SendReceive` follows the C loop line by line. Its counters are
`timeout_counter` (starting at 0) and `reset_counter` (starting at 0xFF), both
unsigned 8-bit. It is proved equal to `SpiTransfer.Exchange`, a closed form
indexed by the first poll that finds BF set. The lemmas then state the engine's
promises about that closed form.

The loop behaves as follows. `reset_counter` is never reloaded after a reset, so:

- polls 0 to 254 each decrement the counter;
- polls 255 and 256 each run `spi_reset`, on consecutive iterations;
- poll 257 returns the timeout.

That is 258 polls, 255 decrements and 2 resets at most. The counter never
underflows, because the decrement is only reached while it is non-zero. Since
the counter is not reloaded after a reset, a stall costs 255 decrements in all,
not 255 per reset.

`spi_reset` is modelled as its sequence of register operations: disable,
enable, read and discard SSPBUF, clear SSPIF, disable, enable. Its contract is
the abstract end state: the module is enabled, BF and SSPIF are clear, and
SSPBUF is unchanged.

## Model

| member | source | states |
|---|---|---|
| SpiReset.Reset | spi_slave.c:165-175 | running the ritual leaves the module enabled, BF clear (the stale byte was read and discarded) and SSPIF clear, with SSPBUF's contents unchanged |
| SpiReset.ResetIdempotent | spi_slave.c:169-174 | a second reset right after the first gives the same end state as one reset |
| SpiReset.ResetForgetsFlags | spi_slave.c:169-174 | the end state depends only on SSPBUF, so whatever flags the stalled peripheral was left in are forgotten |
| SpiTransfer.FirstSeen | spi_slave.c:126 | the first poll at which BF reads set, or 258 when none of the polls the engine can make sees it |
| SpiTransfer.SendReceive | spi_slave.c:116-152 | the wait loop terminates, because (2 - timeout_counter, reset_counter) decreases, and its result, final registers and step trace are those of the closed-form exchange |
| SpiTransfer.ExchangeCounts | spi_slave.c:119-145 | if BF is first seen at poll k, there were min(k, 255) decrements and k - 255 resets once k passes 255. A timeout means 255 decrements, 2 resets and 258 polls |
| SpiTransfer.TimeoutIffNoCompletion | spi_slave.c:126-145 | the result is the timeout if and only if none of the 258 polls finds BF set |
| SpiTransfer.PollBound | spi_slave.c:119-145 | every exchange makes at most 258 polls, at most 255 decrements and at most 2 resets. Any reset comes after all 255 decrements |
| SpiTransfer.SilentRemoteTimesOut | spi_slave.c:130-144 | if BF is clear on entry and never set, the result is the timeout after exactly 255 decrements, 2 resets and 258 polls. The module is left enabled, with BF and SSPIF clear |
| SpiTransfer.ImmediateCompletion | spi_slave.c:123-151 | if BF is set at the first poll, there is no decrement and no reset. The result is the byte SSPBUF holds then, and the trace is write, poll, read, refill |
| SpiTransfer.CompletionAfterFirstReset | spi_slave.c:130-145 | if the exchange completes at the single poll between the two resets, the received byte is returned after exactly one reset |
| SpiTransfer.ReceivedThenRefilled | spi_slave.c:148-151 | on success the returned byte is the one read from SSPBUF just before 0xFF is written back. Afterwards SSPBUF == 0xFF and BF is clear |
| SpiTransfer.WriteDiscipline | spi_slave.c:123-149 | the outgoing byte is written before the first poll. SSPBUF is not written again until the final filler write of a successful exchange. The engine's own code reads SSPBUF only at that exchange's final fetch; the discard read inside `spi_reset` (spi_slave.c:171) is part of the Reset step |
| SpiTransfer.ResetPosition | spi_slave.c:130-144 | every reset is in iteration 255 or 256 of the loop, right after a poll, and comes after exactly 255 decrements (reset_counter is zero) |
| SpiTransfer.ResetDiscipline | spi_slave.c:130-144 | at most two resets, each only when reset_counter has reached zero. Because the counter is not reloaded, two resets are exactly one poll apart |
| SpiInterrupt.Interrupt | spi_slave.c:91-98 | the handler's only register access is one read of SSPBUF, and the sink gains exactly the byte that read returned. The register set afterwards differs from before only in BF being clear: SSPBUF is not written, and SSPIF and SSPEN are untouched |
| SpiInterrupt.ServeForwardsAll | spi_slave.c:91-98 | if the handler runs after each completed exchange, the sink receives exactly the incoming bytes, once each and in order, with one read per byte and no write |
| ReturnCode.SentinelCollides | spi_slave.c:138-141 | the -1 timeout returned through an unsigned char equals a received 0xFF |
| ReturnCode.OnlyCollision | spi_slave.c:116-151 | that is the only pair of distinct results with equal char return values |
| ReturnCode.WideReturnRoundTrip | spi_slave.h:55-64 | an int-wide return value decodes back to the result it encodes, and it is -1 exactly for a timeout |

## Left out

- `spi_slave_init` and the `spi_isr_set_t` mode enum: these are declarative pin and mode configuration with one `if` on the enum.
- The `put_string("into while\r\n")` diagnostic: UART output through `uart.h`, which is not part of this model. `put_char` is modelled only as a byte sequence (the sink).
- The electrical effect of the two disable/enable cycles in `spi_reset`: each cycle only sets SSPEN in the model. The order of operations and the end state are modelled.
- Write collision (WCOL): the hardware ignores a write to SSPBUF while BF is already set. The model stores the byte anyway. This only matters when BF is already set on entry to `spi_send_receive`.
- The register accesses inside `spi_reset` in an exchange trace: a call of `spi_reset` appears as one Reset step, so its discard read of SSPBUF (spi_slave.c:171) is not a separate Fetch step. Its effect on the registers is modelled by `SpiReset.Reset`.
- Interrupt preemption of the wait loop, concurrency between the two paths, and real timing. `xc.h` and `pic_clock.h` are not part of this model.
- SpiTransfer.SendReceive: the remote is an oracle sampled once per poll. Byte arrivals between a poll and the decision it leads to are not modelled.

## Findings

| source | as written | input that shows it | evidently intended | confidence | as-written member | corrected member |
|---|---|---|---|---|---|---|
| spi_slave.c:116-151 | the timeout is returned as `-1` through `char`, which for XC8's unsigned 8-bit char is 0xFF | a remote that sends 0xFF: the received byte and a timeout both return 0xFF | a timeout the caller can tell apart from every received byte | high (not executed) | ReturnCode.SentinelCollides | ReturnCode.WideReturnRoundTrip |
