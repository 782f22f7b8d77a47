/**
 spi_send_receive: one blocking full-duplex byte exchange in slave mode.

 The outgoing byte is loaded into SSPBUF, then BF is polled. Each poll that
 finds BF clear either decrements `reset_counter`, or (once it is zero) runs
 spi_reset and bumps `timeout_counter`, or (once two resets have been spent)
 gives up. `reset_counter` is never reloaded, so the two resets fall on
 consecutive iterations: polls 0..254 decrement, polls 255 and 256 reset,
 poll 257 times out.

 `SendReceive` mirrors the C loop; `Exchange` is the closed-form account of
 the same run, and the lemmas below state the engine's promises about it.
 */
module SpiTransfer {
  import opened Registers
  import SpiReset

  /** The result of one exchange: the received byte, or a timeout. */
  datatype Transfer = Received(b: byte) | TimedOut

  /** Everything one exchange produces: its result, the register set it
      leaves behind, and the steps it took. */
  datatype Outcome = Outcome(result: Transfer, regs: Regs, trace: seq<Step>)

  /** The initial value of `reset_counter`. */
  const ResetStart: byte := 0xFF

  /** The number of resets after which the engine gives up. */
  const MaxResets: byte := 2

  /** The largest number of polls of BF one exchange can make. */
  const MaxPolls: nat := ResetStart + MaxResets + 1

  /** Poll `k` finds BF set: the remote completed an exchange by then, or, at
      the very first poll, BF was already set on entry. */
  predicate Seen(p: Regs, remote: seq<Wire>, k: nat)
  {
    At(remote, k).Shifted? || (k == 0 && p.bf)
  }

  /** The first poll at or after `k` that finds BF set, or MaxPolls if none
      of the polls the engine makes does. */
  function FirstSeen(p: Regs, remote: seq<Wire>, k: nat): (j: nat)
    requires k <= MaxPolls
    ensures k <= j <= MaxPolls
    ensures j < MaxPolls ==> Seen(p, remote, j)
    ensures forall i :: k <= i < j ==> !Seen(p, remote, i)
    decreases MaxPolls - k
  {
    if k == MaxPolls || Seen(p, remote, k) then k else FirstSeen(p, remote, k + 1)
  }

  /** What iteration `i` of the wait loop does after its poll found BF clear. */
  function Action(i: nat): Step
  {
    if i < ResetStart then Decrement else Reset
  }

  /** The steps of the first `n` iterations of the wait loop, all of which
      found BF clear. */
  function Stalls(n: nat): seq<Step>
    requires n < MaxPolls
  {
    if n == 0 then [] else Stalls(n - 1) + [Poll(false), Action(n - 1)]
  }

  /** The register set just before the remote acts for poll `n`, given that
      every earlier poll found BF clear: the outgoing byte loaded, and from
      poll 256 on the effect of spi_reset. */
  function Before(p: Regs, data: byte, n: nat): Regs
  {
    if n <= ResetStart then WriteBuf(p, data) else SpiReset.Reset(WriteBuf(p, data))
  }

  /** The closed-form account of one exchange. */
  function Exchange(p: Regs, data: byte, remote: seq<Wire>): Outcome
  {
    var k := FirstSeen(p, remote, 0);
    if k == MaxPolls then
      Outcome(TimedOut, Before(p, data, k - 1), [Store(data)] + Stalls(k - 1) + [Poll(false)])
    else
      var s := Advance(Before(p, data, k), At(remote, k));
      Outcome(Received(s.buf), WriteBuf(ReadBuf(s), Filler),
              [Store(data)] + Stalls(k) + [Poll(true), Fetch(s.buf), Store(Filler)])
  }

  /** A poll that finds BF clear saw no completion, and the remote left the
      register set as it was. */
  lemma StalledPoll(p: Regs, data: byte, remote: seq<Wire>, n: nat)
    requires n > 0 ==> !p.bf
    requires !Advance(Before(p, data, n), At(remote, n)).bf
    ensures !Seen(p, remote, n) && !p.bf
    ensures Advance(Before(p, data, n), At(remote, n)) == Before(p, data, n)
  {
  }

  /** A stalled iteration leaves the register set as it was, except that
      from iteration 255 on it runs spi_reset. */
  lemma NextBefore(p: Regs, data: byte, n: nat)
    ensures Before(p, data, n + 1) ==
      if n < ResetStart then Before(p, data, n) else SpiReset.Reset(Before(p, data, n))
  {
  }

  lemma CompletesAt(p: Regs, remote: seq<Wire>, n: nat)
    requires n < MaxPolls
    requires forall i :: 0 <= i < n ==> !Seen(p, remote, i)
    requires Seen(p, remote, n)
    ensures FirstSeen(p, remote, 0) == n
  {
  }

  lemma NeverCompletes(p: Regs, remote: seq<Wire>)
    requires forall i :: 0 <= i < MaxPolls ==> !Seen(p, remote, i)
    ensures FirstSeen(p, remote, 0) == MaxPolls
  {
  }

  /** The wait loop, step for step. */
  method SendReceive(p: Regs, data: byte, remote: seq<Wire>) returns (r: Transfer, q: Regs, trace: seq<Step>)
    ensures Outcome(r, q, trace) == Exchange(p, data, remote)
  {
    var timeoutCounter: byte := 0;
    var resetCounter: byte := ResetStart;
    var regs := WriteBuf(p, data);
    trace := [Store(data)];
    var n: nat := 0;  // the index of the current poll
    regs := Advance(regs, At(remote, n));
    while !regs.bf
      invariant n < MaxPolls
      invariant timeoutCounter <= MaxResets
      invariant resetCounter == if n <= ResetStart then ResetStart - n else 0
      invariant timeoutCounter == if n <= ResetStart then 0 else n - ResetStart
      invariant n > 0 ==> !p.bf
      invariant forall i :: 0 <= i < n ==> !Seen(p, remote, i)
      invariant regs == Advance(Before(p, data, n), At(remote, n))
      invariant trace == [Store(data)] + Stalls(n)
      decreases MaxResets - timeoutCounter, resetCounter
    {
      StalledPoll(p, data, remote, n);
      NextBefore(p, data, n);
      trace := trace + [Poll(false)];
      if resetCounter == 0 && timeoutCounter < MaxResets {
        regs := SpiReset.Reset(regs);
        timeoutCounter := timeoutCounter + 1;
        trace := trace + [Reset];
        assert trace == [Store(data)] + Stalls(n + 1);
        n := n + 1;
        regs := Advance(regs, At(remote, n));
        continue;
      }
      if timeoutCounter == MaxResets {
        NeverCompletes(p, remote);
        return TimedOut, regs, trace;
      }
      resetCounter := resetCounter - 1;
      trace := trace + [Decrement];
      assert trace == [Store(data)] + Stalls(n + 1);
      n := n + 1;
      regs := Advance(regs, At(remote, n));
    }
    CompletesAt(p, remote, n);
    var received := regs.buf;
    regs := ReadBuf(regs);
    regs := WriteBuf(regs, Filler);
    trace := trace + [Poll(true), Fetch(received), Store(Filler)];
    r := Received(received);
    q := regs;
  }

  /* ---------------------------------------------------------------------
     The shape of the wait loop's steps.
     --------------------------------------------------------------------- */

  lemma {:induction false} StallsLength(n: nat)
    requires n < MaxPolls
    ensures |Stalls(n)| == 2 * n
  {
    if n > 0 {
      StallsLength(n - 1);
    }
  }

  /** Iteration `i` of the wait loop is a poll that found BF clear followed
      by that iteration's action. */
  lemma {:induction false} StallsAt(n: nat, i: nat)
    requires i < n < MaxPolls
    ensures |Stalls(n)| == 2 * n
    ensures Stalls(n)[2 * i] == Poll(false)
    ensures Stalls(n)[2 * i + 1] == Action(i)
  {
    StallsLength(n);
    StallsLength(n - 1);
    if i < n - 1 {
      StallsAt(n - 1, i);
    }
  }

  /** The first `t` iterations of a longer stall are the stall of length `t`. */
  lemma {:induction false} StallsPrefix(t: nat, n: nat)
    requires t <= n < MaxPolls
    ensures |Stalls(n)| == 2 * n
    ensures Stalls(n)[..2 * t] == Stalls(t)
    decreases n
  {
    StallsLength(n);
    StallsLength(t);
    if t < n {
      StallsPrefix(t, n - 1);
      StallsLength(n - 1);
      assert Stalls(n)[..2 * (n - 1)] == Stalls(n - 1);
    }
  }

  /** Counting the steps of `n` stalled iterations: one poll each, a
      decrement for each of the first 255, a reset for each after that. */
  lemma {:induction false} StallsCount(n: nat)
    requires n < MaxPolls
    ensures Count(Stalls(n), Poll(false)) == n
    ensures Count(Stalls(n), Poll(true)) == 0
    ensures Count(Stalls(n), Decrement) == if n <= ResetStart then n else ResetStart
    ensures Count(Stalls(n), Reset) == if n <= ResetStart then 0 else n - ResetStart
  {
    if n > 0 {
      StallsCount(n - 1);
      CountPair(Stalls(n - 1), Poll(false), Action(n - 1), Poll(false));
      CountPair(Stalls(n - 1), Poll(false), Action(n - 1), Poll(true));
      CountPair(Stalls(n - 1), Poll(false), Action(n - 1), Decrement);
      CountPair(Stalls(n - 1), Poll(false), Action(n - 1), Reset);
    }
  }

  /** The step at index `i` of a trace made of the write of the outgoing
      byte, `m` stalled iterations and a closing `tail`. */
  lemma StepAt(data: byte, m: nat, tail: seq<Step>, i: nat)
    requires m < MaxPolls
    requires i < 1 + 2 * m + |tail|
    ensures |[Store(data)] + Stalls(m) + tail| == 1 + 2 * m + |tail|
    ensures ([Store(data)] + Stalls(m) + tail)[i] ==
      if i == 0 then Store(data)
      else if i < 1 + 2 * m then (if (i - 1) % 2 == 0 then Poll(false) else Action((i - 1) / 2))
      else tail[i - 1 - 2 * m]
  {
    StallsLength(m);
    if 0 < i < 1 + 2 * m {
      StallsAt(m, (i - 1) / 2);
    }
  }

  lemma CountParts(data: byte, m: nat, tail: seq<Step>, s: Step)
    requires m < MaxPolls
    ensures Count([Store(data)] + Stalls(m) + tail, s)
         == Count([Store(data)], s) + Count(Stalls(m), s) + Count(tail, s)
  {
    CountAppend([Store(data)] + Stalls(m), tail, s);
    CountAppend([Store(data)], Stalls(m), s);
  }

  /** Counting in the trace of a timed-out exchange. */
  lemma TimeoutCount(data: byte, s: Step)
    requires s.Poll? || s.Decrement? || s.Reset?
    ensures Count([Store(data)] + Stalls(MaxPolls - 1) + [Poll(false)], s)
         == Count(Stalls(MaxPolls - 1), s) + (if s == Poll(false) then 1 else 0)
  {
    CountParts(data, MaxPolls - 1, [Poll(false)], s);
    CountSingle(Store(data), s);
    CountSingle(Poll(false), s);
  }

  /** Counting in the trace of an exchange that completed at poll `k`. */
  lemma ReceivedCount(data: byte, k: nat, b: byte, s: Step)
    requires k < MaxPolls
    requires s.Poll? || s.Decrement? || s.Reset?
    ensures Count([Store(data)] + Stalls(k) + [Poll(true), Fetch(b), Store(Filler)], s)
         == Count(Stalls(k), s) + (if s == Poll(true) then 1 else 0)
  {
    CountParts(data, k, [Poll(true), Fetch(b), Store(Filler)], s);
    CountSingle(Store(data), s);
    CountPair([Poll(true)], Fetch(b), Store(Filler), s);
    CountSingle(Poll(true), s);
    assert [Poll(true)] + [Fetch(b), Store(Filler)] == [Poll(true), Fetch(b), Store(Filler)];
  }

  /* ---------------------------------------------------------------------
     What one exchange does.
     --------------------------------------------------------------------- */

  /** The counts of an exchange are fixed by the first poll that finds BF
      set: every earlier poll decremented `reset_counter` while it was
      non-zero and reset the module after that. */
  lemma ExchangeCounts(p: Regs, data: byte, remote: seq<Wire>)
    ensures var o := Exchange(p, data, remote);
            var k := FirstSeen(p, remote, 0);
            && Count(o.trace, Decrement) == (if k <= ResetStart then k else ResetStart)
            && Count(o.trace, Reset) == (if k <= ResetStart then 0 else if k == MaxPolls then MaxResets else k - ResetStart)
            && Count(o.trace, Poll(false)) == (if k == MaxPolls then MaxPolls else k)
            && Count(o.trace, Poll(true)) == (if k == MaxPolls then 0 else 1)
  {
    var k := FirstSeen(p, remote, 0);
    if k == MaxPolls {
      StallsCount(k - 1);
      TimeoutCount(data, Poll(false));
      TimeoutCount(data, Poll(true));
      TimeoutCount(data, Decrement);
      TimeoutCount(data, Reset);
    } else {
      var b := Advance(Before(p, data, k), At(remote, k)).buf;
      StallsCount(k);
      ReceivedCount(data, k, b, Poll(false));
      ReceivedCount(data, k, b, Poll(true));
      ReceivedCount(data, k, b, Decrement);
      ReceivedCount(data, k, b, Reset);
    }
  }

  /** The exchange times out exactly when none of its 258 polls finds BF set. */
  lemma TimeoutIffNoCompletion(p: Regs, data: byte, remote: seq<Wire>)
    ensures Exchange(p, data, remote).result == TimedOut
        <==> forall k :: 0 <= k < MaxPolls ==> !Seen(p, remote, k)
  {
  }

  /** The wait loop always ends: at most 258 polls, at most 255 decrements
      and at most two resets, and a reset only once all 255 decrements are
      spent. */
  lemma PollBound(p: Regs, data: byte, remote: seq<Wire>)
    ensures var o := Exchange(p, data, remote);
            && Count(o.trace, Poll(false)) + Count(o.trace, Poll(true)) <= MaxPolls
            && Count(o.trace, Decrement) <= ResetStart
            && Count(o.trace, Reset) <= MaxResets
            && (Count(o.trace, Reset) > 0 ==> Count(o.trace, Decrement) == ResetStart)
            && |o.trace| <= 2 * MaxPolls + 2
  {
    ExchangeCounts(p, data, remote);
    var k := FirstSeen(p, remote, 0);
    if k == MaxPolls {
      StallsLength(k - 1);
    } else {
      StallsLength(k);
    }
  }

  /** A remote that never completes an exchange, with BF clear on entry,
      makes the engine time out after exactly 255 decrements and two
      resets, leaving the module enabled with both flags clear and the
      outgoing byte still in SSPBUF. */
  lemma SilentRemoteTimesOut(p: Regs, data: byte, remote: seq<Wire>)
    requires !p.bf
    requires forall k :: 0 <= k < MaxPolls ==> At(remote, k) == Idle
    ensures var o := Exchange(p, data, remote);
            && o.result == TimedOut
            && Count(o.trace, Decrement) == ResetStart
            && Count(o.trace, Reset) == MaxResets
            && Count(o.trace, Poll(false)) == MaxPolls
            && o.regs == Regs(data, false, false, true)
  {
    assert forall k :: 0 <= k < MaxPolls ==> !Seen(p, remote, k);
    ExchangeCounts(p, data, remote);
  }

  /** When BF is set at the first poll there is no decrement and no reset,
      and the result is the byte SSPBUF holds at that moment. */
  lemma ImmediateCompletion(p: Regs, data: byte, remote: seq<Wire>)
    requires Seen(p, remote, 0)
    ensures var o := Exchange(p, data, remote);
            && o.result == Received(Advance(WriteBuf(p, data), At(remote, 0)).buf)
            && o.trace == [Store(data), Poll(true), Fetch(o.result.b), Store(Filler)]
            && Count(o.trace, Decrement) == 0
            && Count(o.trace, Reset) == 0
  {
    ExchangeCounts(p, data, remote);
  }

  /** A completion right after the first reset (there is only one poll
      between the two resets) is returned after exactly one reset. */
  lemma CompletionAfterFirstReset(p: Regs, data: byte, remote: seq<Wire>, b: byte)
    requires forall k :: 0 <= k < ResetStart + 1 ==> !Seen(p, remote, k)
    requires At(remote, ResetStart + 1) == Shifted(b)
    ensures var o := Exchange(p, data, remote);
            && o.result == Received(b)
            && Count(o.trace, Decrement) == ResetStart
            && Count(o.trace, Reset) == 1
            && o.regs.enabled
  {
    assert Seen(p, remote, ResetStart + 1);
    assert FirstSeen(p, remote, 0) == ResetStart + 1;
    ExchangeCounts(p, data, remote);
  }

  /** On success the result is the byte read out of SSPBUF just before the
      filler is written, which is the byte the remote shifted in at the
      completing poll (or, with BF already set on entry, what SSPBUF held
      then); afterwards SSPBUF holds 0xFF and BF is clear. */
  lemma ReceivedThenRefilled(p: Regs, data: byte, remote: seq<Wire>)
    ensures var o := Exchange(p, data, remote);
            var k := FirstSeen(p, remote, 0);
            var n := |o.trace|;
            o.result.Received? ==>
              && k < MaxPolls
              && o.result.b == (match At(remote, k) case Shifted(x) => x case Idle => data)
              && n >= 3
              && o.trace[n - 3] == Poll(true)
              && o.trace[n - 2] == Fetch(o.result.b)
              && o.trace[n - 1] == Store(Filler)
              && o.regs.buf == Filler
              && !o.regs.bf
  {
  }

  /** The stalled iterations touch SSPBUF neither by a write nor by a
      read: past the outgoing write, every buffer access lies in the tail. */
  lemma StallBufferAccess(data: byte, m: nat, tail: seq<Step>, i: nat)
    requires m < MaxPolls
    requires 0 < i < |[Store(data)] + Stalls(m) + tail|
    requires ([Store(data)] + Stalls(m) + tail)[i].Store? || ([Store(data)] + Stalls(m) + tail)[i].Fetch?
    ensures |[Store(data)] + Stalls(m) + tail| == 1 + 2 * m + |tail|
    ensures 1 + 2 * m <= i
    ensures ([Store(data)] + Stalls(m) + tail)[i] == tail[i - 1 - 2 * m]
  {
    StallsLength(m);
    StepAt(data, m, tail, i);
  }

  /** The outgoing byte is written before the first poll of BF, and SSPBUF
      is written again only by the filler write that ends a successful
      exchange. Outside spi_reset, SSPBUF is read only by that exchange's
      fetch; the discard read inside spi_reset is part of its Reset step. */
  lemma WriteDiscipline(p: Regs, data: byte, remote: seq<Wire>)
    ensures var o := Exchange(p, data, remote);
            && |o.trace| >= 2
            && o.trace[0] == Store(data)
            && o.trace[1].Poll?
            && (forall i :: 0 < i < |o.trace| && o.trace[i].Store? ==>
                  o.result.Received? && i == |o.trace| - 1)
            && (forall i :: 0 <= i < |o.trace| && o.trace[i].Fetch? ==>
                  o.result.Received? && i == |o.trace| - 2)
  {
    var o := Exchange(p, data, remote);
    var k := FirstSeen(p, remote, 0);
    var m := if k == MaxPolls then k - 1 else k;
    var tail := if k == MaxPolls then [Poll(false)] else [Poll(true), o.trace[|o.trace| - 2], Store(Filler)];
    StallsLength(m);
    assert o.trace == [Store(data)] + Stalls(m) + tail;
    StepAt(data, m, tail, 1);
    forall i | 0 < i < |o.trace| && (o.trace[i].Store? || o.trace[i].Fetch?)
      ensures o.trace[i].Store? ==> o.result.Received? && i == |o.trace| - 1
      ensures o.trace[i].Fetch? ==> o.result.Received? && i == |o.trace| - 2
    {
      StallBufferAccess(data, m, tail, i);
    }
  }

  /** In a trace made of the outgoing write, `m` stalled iterations and a
      tail without resets, a reset step is the action of iteration `t`,
      one of 255 and 256, and directly follows that iteration's poll. */
  lemma StallResetIndex(data: byte, m: nat, tail: seq<Step>, i: nat) returns (t: nat)
    requires m < MaxPolls
    requires Reset !in tail
    requires i < |[Store(data)] + Stalls(m) + tail|
    requires ([Store(data)] + Stalls(m) + tail)[i] == Reset
    ensures ResetStart <= t < m && i == 2 * t + 2
    ensures ([Store(data)] + Stalls(m) + tail)[i - 1] == Poll(false)
  {
    StallsLength(m);
    StepAt(data, m, tail, i);
    assert 0 < i < 1 + 2 * m;
    t := (i - 1) / 2;
    assert (i - 1) % 2 == 1;
    StepAt(data, m, tail, i - 1);
  }

  /** The steps before iteration `t`'s action hold min(t, 255) decrements. */
  lemma StallPrefixCount(data: byte, m: nat, tail: seq<Step>, t: nat)
    requires t < m < MaxPolls
    ensures |[Store(data)] + Stalls(m) + tail| >= 2 * t + 2
    ensures Count(([Store(data)] + Stalls(m) + tail)[..2 * t + 2], Decrement)
         == if t <= ResetStart then t else ResetStart
  {
    var trace := [Store(data)] + Stalls(m) + tail;
    StallsLength(m);
    StallsPrefix(t, m);
    StallsAt(m, t);
    assert trace[..2 * t + 2] == [Store(data)] + Stalls(t) + [Poll(false)];
    CountParts(data, t, [Poll(false)], Decrement);
    CountSingle(Store(data), Decrement);
    CountSingle(Poll(false), Decrement);
    StallsCount(t);
  }

  /** In such a trace, a reset step sits at index 512 or 514 (iteration 255
      or 256 of the wait loop), after exactly 255 decrements and a poll. */
  lemma StallResetPosition(data: byte, m: nat, tail: seq<Step>, i: nat)
    requires m < MaxPolls
    requires Reset !in tail
    requires i < |[Store(data)] + Stalls(m) + tail|
    requires ([Store(data)] + Stalls(m) + tail)[i] == Reset
    ensures var trace := [Store(data)] + Stalls(m) + tail;
            && (i == 2 * ResetStart + 2 || i == 2 * ResetStart + 4)
            && trace[i - 1] == Poll(false)
            && Count(trace[..i], Decrement) == ResetStart
  {
    var t := StallResetIndex(data, m, tail, i);
    StallPrefixCount(data, m, tail, t);
  }

  /** A reset step of an exchange sits at index 512 or 514 of its trace,
      after exactly 255 decrements and one poll. */
  lemma ResetPosition(p: Regs, data: byte, remote: seq<Wire>, i: nat)
    requires i < |Exchange(p, data, remote).trace|
    requires Exchange(p, data, remote).trace[i] == Reset
    ensures var o := Exchange(p, data, remote);
            && (i == 2 * ResetStart + 2 || i == 2 * ResetStart + 4)
            && o.trace[i - 1] == Poll(false)
            && Count(o.trace[..i], Decrement) == ResetStart
  {
    var k := FirstSeen(p, remote, 0);
    if k == MaxPolls {
      StallResetPosition(data, k - 1, [Poll(false)], i);
    } else {
      var b := Advance(Before(p, data, k), At(remote, k)).buf;
      StallResetPosition(data, k, [Poll(true), Fetch(b), Store(Filler)], i);
    }
  }

  /** spi_reset runs at most twice, only when `reset_counter` has reached
      zero (all 255 decrements precede it), and, since the counter is never
      reloaded, the two resets fall on consecutive iterations with nothing
      but one poll between them. */
  lemma ResetDiscipline(p: Regs, data: byte, remote: seq<Wire>)
    ensures var o := Exchange(p, data, remote);
            && Count(o.trace, Reset) <= MaxResets
            && (forall i :: 0 <= i < |o.trace| && o.trace[i] == Reset ==>
                  Count(o.trace[..i], Decrement) == ResetStart)
            && (forall i, j :: 0 <= i < j < |o.trace| && o.trace[i] == Reset && o.trace[j] == Reset ==>
                  j == i + 2 && o.trace[i + 1] == Poll(false))
  {
    var o := Exchange(p, data, remote);
    ExchangeCounts(p, data, remote);
    forall i | 0 <= i < |o.trace| && o.trace[i] == Reset
      ensures Count(o.trace[..i], Decrement) == ResetStart
    {
      ResetPosition(p, data, remote, i);
    }
    forall i, j | 0 <= i < j < |o.trace| && o.trace[i] == Reset && o.trace[j] == Reset
      ensures j == i + 2 && o.trace[i + 1] == Poll(false)
    {
      ResetPosition(p, data, remote, i);
      ResetPosition(p, data, remote, j);
    }
  }
}
