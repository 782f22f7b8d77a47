/**
 spi_interrupt: the reception path used when the SSP interrupt is enabled.
 It reads SSPBUF once and forwards that byte to the UART sink (put_char).
 The sink is modelled as the sequence of bytes it has been handed.
 */
module SpiInterrupt {
  import opened Registers

  /** What one or more handler runs leave behind: the register set, the
      bytes handed to the sink so far, and the register accesses made. */
  datatype Isr = Isr(regs: Regs, sink: seq<byte>, accesses: seq<Step>)

  /** One run of the handler. Its only register access is one read of
      SSPBUF, which clears BF and nothing else (SSPIF stays as it was), and
      the sink gains exactly the byte that read returned. */
  function Interrupt(p: Regs, sink: seq<byte>): (o: Isr)
    ensures |o.accesses| == 1 && o.accesses[0].Fetch?
    ensures o.sink == sink + [o.accesses[0].b]
    ensures o.accesses[0].b == p.buf
    ensures o.regs == p.(bf := false)
  {
    var data := p.buf;
    Isr(ReadBuf(p), sink + [data], [Fetch(data)])
  }

  /** The remote completes one exchange per byte of `incoming`, and the
      handler runs after each. */
  function Serve(p: Regs, incoming: seq<byte>, sink: seq<byte>): Isr
    decreases |incoming|
  {
    if incoming == [] then Isr(p, sink, [])
    else
      var o := Interrupt(Complete(p, incoming[0]), sink);
      var rest := Serve(o.regs, incoming[1..], o.sink);
      Isr(rest.regs, rest.sink, o.accesses + rest.accesses)
  }

  /** Serving a stream of completions forwards exactly the received bytes,
      once each and in order, by one read of SSPBUF per byte and no write;
      afterwards BF is clear and SSPBUF still holds the last byte. */
  lemma {:induction false} ServeForwardsAll(p: Regs, incoming: seq<byte>, sink: seq<byte>)
    ensures var o := Serve(p, incoming, sink);
            && o.sink == sink + incoming
            && |o.accesses| == |incoming|
            && (forall i :: 0 <= i < |incoming| ==> o.accesses[i] == Fetch(incoming[i]))
            && (incoming == [] ==> o.regs == p)
            && (incoming != [] ==> o.regs.buf == incoming[|incoming| - 1] && !o.regs.bf)
    decreases |incoming|
  {
    if incoming != [] {
      var o := Interrupt(Complete(p, incoming[0]), sink);
      ServeForwardsAll(o.regs, incoming[1..], o.sink);
      assert sink + [incoming[0]] + incoming[1..] == sink + incoming;
    }
  }
}
