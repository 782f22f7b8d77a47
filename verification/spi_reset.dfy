/**
 spi_reset: the recovery ritual the transfer engine runs when it has waited
 too long. The ritual is modelled as the register operations it performs, in
 order; its contract is the abstract end state those operations reach.
 */
module SpiReset {
  import opened Registers

  /** The register operations the ritual is made of. */
  datatype Op =
    | Disable   // SSPEN = 0
    | Enable    // SSPEN = 1
    | Discard   // dummy = SSPBUF: the stale byte is read and dropped
    | ClearIf   // SSPIF = 0

  /** Two disable/enable cycles around the drain of the stale byte and the
      clearing of SSPIF. */
  const Ritual: seq<Op> := [Disable, Enable, Discard, ClearIf, Disable, Enable]

  function ApplyOp(p: Regs, op: Op): Regs
  {
    match op
    case Disable => p.(enabled := false)
    case Enable => p.(enabled := true)
    case Discard => ReadBuf(p)
    case ClearIf => p.(sspif := false)
  }

  function Run(p: Regs, ops: seq<Op>): Regs
    decreases |ops|
  {
    if ops == [] then p else Run(ApplyOp(p, ops[0]), ops[1..])
  }

  /** After the ritual the module is enabled, BF is clear (the stale byte was
      read and discarded) and SSPIF is clear; SSPBUF's contents are left as
      they were, since reading does not change them. */
  function Reset(p: Regs): (q: Regs)
    ensures q.enabled && !q.bf && !q.sspif
    ensures q.buf == p.buf
  {
    Run(p, Ritual)
  }

  /** Running the ritual a second time changes nothing. */
  lemma ResetIdempotent(p: Regs)
    ensures Reset(Reset(p)) == Reset(p)
  {
  }

  /** The end state depends on nothing but SSPBUF: every flag the peripheral
      was left in before the reset is forgotten. */
  lemma ResetForgetsFlags(p: Regs, p': Regs)
    requires p.buf == p'.buf
    ensures Reset(p) == Reset(p')
  {
  }
}
