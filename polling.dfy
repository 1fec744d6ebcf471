/** The ready-polling loop of `waitready`: its outcome as a closed form over the
    status bytes the chip answers, and why that closed form is the loop's. */
module Polling {
  import opened Bytes
  import opened Wrappers
  import opened Bus

  /** Status byte with which the chip signals that data can be read. */
  const I2C_READY: byte := 0x01
  /** Pause between two probes, in milliseconds. */
  const POLL_DELAY: nat := 10

  /** The status byte the i-th probe (counting from 0) leaves in the one-byte
      status buffer: the scripted answers in order; once they run out, every probe
      fails and the buffer keeps its last value. */
  function PollAt(q: seq<byte>, stale: byte, i: nat): byte
  {
    if i < |q| then q[i] else if q == [] then stale else q[|q| - 1]
  }

  /** Position of the first ready answer in q, or |q| when there is none. */
  function FirstReady(q: seq<byte>): (k: nat)
    ensures k <= |q|
    ensures k < |q| ==> q[k] == I2C_READY
    ensures forall j :: 0 <= j < k ==> q[j] != I2C_READY
  {
    if q == [] then 0 else if q[0] == I2C_READY then 0 else 1 + FirstReady(q[1..])
  }

  /** The first probe that sees the chip ready, if any ever does. */
  function ReadyAt(q: seq<byte>, stale: byte): Option<nat>
  {
    var k := FirstReady(q);
    if k < |q| then Some(k)
    else if q == [] && stale == I2C_READY then Some(0)
    else None
  }

  /** The number of not-ready probes after which `waitready(timeout)` gives up:
      after n of them its timer reads 1 + 10·n ms, and it gives up at the first n
      for which that exceeds the timeout. */
  function PollLimit(timeout: nat): (n: nat)
    requires timeout > 0
    ensures n >= 1
    ensures 1 + POLL_DELAY * n > timeout
    ensures 1 + POLL_DELAY * (n - 1) <= timeout
  {
    (timeout + 9) / 10
  }

  /** How a wait ends: whether the chip was ready, after how many probes. */
  datatype Wait = Wait(ok: bool, polls: nat)

  /** The outcome of `waitready(timeout)`; None when it never returns
      (timeout 0 means no timeout, and the chip is never seen ready). */
  function WaitSpec(q: seq<byte>, stale: byte, timeout: nat): Option<Wait>
  {
    var r := ReadyAt(q, stale);
    if timeout == 0 then (if r.Some? then Some(Wait(true, r.value + 1)) else None)
    else if r.Some? && r.value < PollLimit(timeout) then Some(Wait(true, r.value + 1))
    else Some(Wait(false, PollLimit(timeout)))
  }

  /** The scripted status answers still unread after `polls` probes. */
  function Remaining(q: seq<byte>, polls: nat): seq<byte>
  {
    if polls == 0 then q else if polls < |q| then q[polls..] else []
  }

  /** What the status buffer holds after `polls` probes that started from `stale`. */
  function StatusAfter(q: seq<byte>, stale: byte, polls: nat): byte
  {
    if polls == 0 then stale else PollAt(q, stale, polls - 1)
  }

  /** The bus events of a wait of `polls` probes: probe, then sleep and probe again
      (no events at all for a wait that never started). */
  ghost function PollEvents(polls: nat): seq<BusEvent>
  {
    if polls == 0 then [] else if polls == 1 then [Polled] else PollEvents(polls - 1) + [Slept(POLL_DELAY), Polled]
  }

  /** A wait only probes and sleeps. */
  lemma {:induction false} PollsSilent(polls: nat)
    ensures Silent(PollEvents(polls))
  {
    if polls > 1 {
      PollsSilent(polls - 1);
    }
  }

  /** The probe after the k-th: what the status buffer and the script look like
      after k probes is the start of the same stream, shifted by k. */
  lemma PollShift(q: seq<byte>, stale: byte, k: nat)
    requires k >= 1
    ensures PollAt(Remaining(q, k), PollAt(q, stale, k - 1), 0) == PollAt(q, stale, k)
    ensures Remaining(Remaining(q, k), 1) == Remaining(q, k + 1)
  {
  }

  /** A status script whose last answer is ready (or, once exhausted, whose
      status buffer already holds ready): every wait on it returns. */
  predicate Live(q: seq<byte>, stale: byte)
  {
    if q == [] then stale == I2C_READY else q[|q| - 1] == I2C_READY
  }

  /** ReadyAt names exactly the first probe that sees ready. */
  lemma ReadyAtIsFirstReadyPoll(q: seq<byte>, stale: byte)
    ensures ReadyAt(q, stale).Some? ==>
      && PollAt(q, stale, ReadyAt(q, stale).value) == I2C_READY
      && forall i :: 0 <= i < ReadyAt(q, stale).value ==> PollAt(q, stale, i) != I2C_READY
    ensures ReadyAt(q, stale).None? ==> forall i: nat :: PollAt(q, stale, i) != I2C_READY
  {
    if ReadyAt(q, stale).None? {
      forall i: nat ensures PollAt(q, stale, i) != I2C_READY {
        if i >= |q| && q != [] {
          assert PollAt(q, stale, i) == q[|q| - 1];
        }
      }
    }
  }

  /** Conversely, a probe that sees ready after only not-ready probes is ReadyAt's. */
  lemma FirstReadyPollIsReadyAt(q: seq<byte>, stale: byte, k: nat)
    requires PollAt(q, stale, k) == I2C_READY
    requires forall i :: 0 <= i < k ==> PollAt(q, stale, i) != I2C_READY
    ensures ReadyAt(q, stale) == Some(k)
  {
    ReadyAtIsFirstReadyPoll(q, stale);
  }

  /** What a wait means in terms of the probes: a successful wait ends on the
      first ready probe; a failed one means the first PollLimit(timeout) probes
      all saw not-ready; `waitready(0)` never reports failure. */
  lemma WaitSpecMeaning(q: seq<byte>, stale: byte, timeout: nat)
    requires WaitSpec(q, stale, timeout).Some?
    ensures var w := WaitSpec(q, stale, timeout).value;
      && w.polls >= 1
      && (w.ok ==> PollAt(q, stale, w.polls - 1) == I2C_READY)
      && (forall i :: 0 <= i < w.polls - 1 ==> PollAt(q, stale, i) != I2C_READY)
      && (!w.ok <==> timeout > 0 && forall i :: 0 <= i < PollLimit(timeout) ==> PollAt(q, stale, i) != I2C_READY)
      && (!w.ok ==> w.polls == PollLimit(timeout) && PollAt(q, stale, w.polls - 1) != I2C_READY)
      && (timeout == 0 ==> w.ok)
  {
    ReadyAtIsFirstReadyPoll(q, stale);
  }

  /** A live script makes every wait return, and stays live after it. */
  lemma LiveWait(q: seq<byte>, stale: byte, timeout: nat)
    requires Live(q, stale)
    ensures WaitSpec(q, stale, timeout).Some?
    ensures var w := WaitSpec(q, stale, timeout).value;
      Live(Remaining(q, w.polls), PollAt(q, stale, w.polls - 1))
  {
    if q != [] {
      assert FirstReady(q) < |q|;
    }
  }

  /** The time a wait spends asleep: one poll delay between successive probes. */
  lemma {:induction false} PollEventsElapsed(polls: nat)
    requires polls >= 1
    ensures Elapsed(PollEvents(polls)) == POLL_DELAY * (polls - 1)
  {
    if polls > 1 {
      PollEventsElapsed(polls - 1);
      ElapsedConcat(PollEvents(polls - 1), [Slept(POLL_DELAY), Polled]);
      assert [Slept(POLL_DELAY), Polled][..1] == [Slept(POLL_DELAY)];
      assert [Slept(POLL_DELAY)][..0] == [];
      assert Elapsed([Slept(POLL_DELAY)]) == POLL_DELAY;
      assert Elapsed([Slept(POLL_DELAY), Polled]) == POLL_DELAY;
      assert POLL_DELAY * (polls - 1) == POLL_DELAY * (polls - 2) + POLL_DELAY;
    }
  }

  /** A wait with a timeout never sleeps as long as the timeout. */
  lemma WaitWithinTimeout(q: seq<byte>, stale: byte, timeout: nat)
    requires timeout > 0
    ensures var w := WaitSpec(q, stale, timeout).value;
      Elapsed(PollEvents(w.polls)) < timeout
  {
    var w := WaitSpec(q, stale, timeout).value;
    PollEventsElapsed(w.polls);
  }

  /** The wait `samconfig` and `FirmwareVersion` use gives up at the tenth not-ready probe. */
  lemma HundredMillisecondLimit()
    ensures PollLimit(100) == 10
  {
  }

  /** The chip answers not-ready three times and then ready: the wait succeeds
      on the fourth probe, having slept three poll delays, 30 ms. */
  lemma ThreeBusyPolls()
    ensures WaitSpec([0, 0, 0, 1], 0, 100) == Some(Wait(true, 4))
    ensures Elapsed(PollEvents(4)) == 3 * POLL_DELAY
  {
    assert FirstReady([0, 0, 0, 1]) == 3 by {
      assert [0, 0, 0, 1][1..] == [0, 0, 1];
      assert [0, 0, 1][1..] == [0, 1];
      assert [0, 1][1..] == [1];
    }
    PollEventsElapsed(4);
  }
}
