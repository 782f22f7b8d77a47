/**
 The abstract register set of the PIC16F877A MSSP module in SPI slave mode, as
 the driver in spi_slave.c sees it: the shared data buffer SSPBUF, the
 buffer-full flag SSPSTAT.BF, the interrupt flag PIR1.SSPIF and the module
 enable SSPCON.SSPEN.

 The remote master is not part of the register set. It is an oracle: for each
 poll of BF it says whether an exchange has been clocked through by then, and
 which byte arrived.
 */
module Registers {

  /** An 8-bit register value. XC8's plain `char` is an unsigned 8-bit type. */
  type byte = x: int | 0 <= x < 0x100

  /** The byte written back into SSPBUF after every completed exchange. */
  const Filler: byte := 0xFF

  /** SSPBUF, BF, SSPIF and SSPEN. */
  datatype Regs = Regs(buf: byte, bf: bool, sspif: bool, enabled: bool)

  /** What the remote master has done by the time of one poll of BF. */
  datatype Wire = Idle | Shifted(b: byte)

  /** One observable step of the driver: an access to SSPBUF, a poll of BF,
      or a counter decision of the transfer engine. */
  datatype Step =
    | Store(b: byte)     // SSPBUF = b
    | Fetch(b: byte)     // a read of SSPBUF that returned b
    | Poll(full: bool)   // a test of SSPSTATbits.BF that saw `full`
    | Decrement          // reset_counter--
    | Reset              // a call of spi_reset

  /** Writing SSPBUF loads the next outgoing byte. */
  function WriteBuf(p: Regs, b: byte): Regs
  {
    p.(buf := b)
  }

  /** Reading SSPBUF yields `p.buf` and, as a hardware side effect, clears BF. */
  function ReadBuf(p: Regs): Regs
  {
    p.(bf := false)
  }

  /** The remote master finishing one exchange: its byte is shifted into
      SSPBUF and both BF and SSPIF are raised. */
  function Complete(p: Regs, b: byte): Regs
  {
    p.(buf := b, bf := true, sspif := true)
  }

  /** The remote's behaviour at poll `k`; a remote that has run out of
      script stays idle. */
  function At(remote: seq<Wire>, k: nat): Wire
  {
    if k < |remote| then remote[k] else Idle
  }

  /** The register set as the poll sees it, once the remote has acted. */
  function Advance(p: Regs, w: Wire): Regs
  {
    match w
    case Idle => p
    case Shifted(b) => Complete(p, b)
  }

  /** The number of occurrences of `s` in `trace`. */
  function Count(trace: seq<Step>, s: Step): nat
  {
    if trace == [] then 0
    else Count(trace[..|trace| - 1], s) + (if trace[|trace| - 1] == s then 1 else 0)
  }

  lemma {:induction false} CountAppend(a: seq<Step>, b: seq<Step>, s: Step)
    ensures Count(a + b, s) == Count(a, s) + Count(b, s)
    decreases |b|
  {
    if b == [] {
      assert a + b == a;
    } else {
      var b' := b[..|b| - 1];
      assert (a + b)[..|a + b| - 1] == a + b';
      CountAppend(a, b', s);
    }
  }

  lemma CountSingle(x: Step, s: Step)
    ensures Count([x], s) == if x == s then 1 else 0
  {
  }

  lemma CountPair(a: seq<Step>, x: Step, y: Step, s: Step)
    ensures Count(a + [x, y], s) == Count(a, s) + (if x == s then 1 else 0) + (if y == s then 1 else 0)
  {
    assert (a + [x, y])[..|a| + 1] == a + [x];
    assert (a + [x])[..|a|] == a;
  }
}
