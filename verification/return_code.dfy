/**
 How spi_send_receive reports its result to a C caller. The function returns
 `char`, and a timeout is reported as `-1`. With XC8's unsigned 8-bit `char`
 that is the bit pattern 0xFF, which is also a legitimate received byte (and
 the very filler the engine writes back), so the raw return value cannot
 tell the two apart. The rest of the model uses the two-case `Transfer`
 result; `WideReturn` is the encoding a caller can decode, in the style of
 C's `int getchar()`.
 */
module ReturnCode {
  import opened Registers
  import opened SpiTransfer

  /** What a caller recovers from a return value. */
  datatype Decoded = Undecodable | Decoded(t: Transfer)

  /** The value actually returned: `-1` truncated into an unsigned char. */
  function CharReturn(t: Transfer): byte
  {
    match t
    case Received(b) => b
    case TimedOut => (-1) % 0x100
  }

  /** The timeout sentinel and a received 0xFF come back as the same char. */
  lemma SentinelCollides()
    ensures CharReturn(TimedOut) == CharReturn(Received(0xFF))
    ensures TimedOut != Received(0xFF)
  {
  }

  /** That pair is the only collision: on every other pair of results the
      char return is injective. */
  lemma OnlyCollision(t: Transfer, u: Transfer)
    requires t != u
    requires CharReturn(t) == CharReturn(u)
    ensures {t, u} == {TimedOut, Received(0xFF)}
  {
  }

  /** A return value wide enough to keep the two cases apart. */
  function WideReturn(t: Transfer): int
  {
    match t
    case Received(b) => b
    case TimedOut => -1
  }

  function ReadWide(x: int): Decoded
  {
    if x == -1 then Decoded(TimedOut)
    else if 0 <= x < 0x100 then Decoded(Received(x))
    else Undecodable
  }

  /** The wide return value decodes back to the result it encodes, and it
      is -1 exactly for a timeout. */
  lemma WideReturnRoundTrip(t: Transfer)
    ensures ReadWide(WideReturn(t)) == Decoded(t)
    ensures WideReturn(t) == -1 <==> t == TimedOut
  {
  }
}
