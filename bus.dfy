/** The I2C bus and the clock as the driver sees them.
    `machine.I2C.Tx` and `time.Sleep` are not part of this model; in their place
    the bus is a script of what the chip answers, and a log of what the driver did. */
module Bus {
  import opened Bytes

  /** One step the driver takes on the bus or the clock, in order. */
  datatype BusEvent =
    | Wrote(frame: seq<byte>)  // a write transaction carrying these bytes
    | Polled                   // a one-byte status read (the ready probe)
    | ReadBytes(count: nat)    // a data read transaction of this many bytes
    | Slept(ms: nat)           // a time.Sleep of this many milliseconds

  /** The buffer `prev` after a read transaction of `count` bytes that received
      `reply`: the bytes received overwrite the front; when the chip sends fewer
      bytes than asked, the rest of the buffer keeps what it held. */
  function Received(prev: seq<byte>, reply: seq<byte>, count: nat): seq<byte>
    requires count <= |prev|
  {
    seq(|prev|, i requires 0 <= i < |prev| => if i < count && i < |reply| then reply[i] else prev[i])
  }

  function Head(q: seq<seq<byte>>): seq<byte>
  {
    if q == [] then [] else q[0]
  }

  function Tail<T>(q: seq<T>): seq<T>
  {
    if q == [] then [] else q[1..]
  }

  /** Whether the next write transaction is acknowledged on the bus: the script's
      next entry, and acknowledged once the script is exhausted. */
  function Accepted(results: seq<bool>): bool
  {
    results == [] || results[0]
  }

  /** The frames a run of events wrote, in order. */
  ghost function Frames(trace: seq<BusEvent>): seq<seq<byte>>
  {
    if trace == [] then []
    else Frames(trace[..|trace| - 1]) + (if trace[|trace| - 1].Wrote? then [trace[|trace| - 1].frame] else [])
  }

  /** The milliseconds a run of events slept. */
  ghost function Elapsed(trace: seq<BusEvent>): nat
  {
    if trace == [] then 0
    else Elapsed(trace[..|trace| - 1]) + (if trace[|trace| - 1].Slept? then trace[|trace| - 1].ms else 0)
  }

  /** A hint for the solver, not a fact about the bus: it names the regrouping
      of a concatenation that a caller's log equations need. */
  lemma AppendAssoc<T>(a: seq<T>, b: seq<T>, c: seq<T>)
    ensures a + (b + c) == (a + b) + c
  {
  }

  lemma {:induction false} FramesConcat(a: seq<BusEvent>, b: seq<BusEvent>)
    ensures Frames(a + b) == Frames(a) + Frames(b)
  {
    if b == [] {
      assert a + b == a;
    } else {
      assert (a + b)[..|a + b| - 1] == a + b[..|b| - 1];
      FramesConcat(a, b[..|b| - 1]);
    }
  }

  /** Whether a run of events writes nothing. */
  ghost predicate Silent(trace: seq<BusEvent>)
  {
    forall i :: 0 <= i < |trace| ==> !trace[i].Wrote?
  }

  /** A run that writes nothing adds no frames. */
  lemma {:induction false} SilentFrames(trace: seq<BusEvent>)
    requires Silent(trace)
    ensures Frames(trace) == []
  {
    if trace != [] {
      SilentFrames(trace[..|trace| - 1]);
    }
  }

  lemma {:induction false} ElapsedConcat(a: seq<BusEvent>, b: seq<BusEvent>)
    ensures Elapsed(a + b) == Elapsed(a) + Elapsed(b)
  {
    if b == [] {
      assert a + b == a;
    } else {
      assert (a + b)[..|a + b| - 1] == a + b[..|b| - 1];
      ElapsedConcat(a, b[..|b| - 1]);
    }
  }

  /** The bus at one device address, scripted with the chip's answers. */
  class Bus {
    /** The status byte the chip answers to each successive ready probe. */
    var ready: seq<byte>
    /** The bytes the chip answers to each successive data read (the I2C status byte first). */
    var replies: seq<seq<byte>>
    /** Whether each successive write transaction is acknowledged. */
    var writeResults: seq<bool>
    /** Everything the driver did on the bus and the clock, in order. */
    ghost var trace: seq<BusEvent>

    constructor (ready: seq<byte>, replies: seq<seq<byte>>, writeResults: seq<bool>)
      ensures this.ready == ready && this.replies == replies && this.writeResults == writeResults
      ensures trace == []
    {
      this.ready := ready;
      this.replies := replies;
      this.writeResults := writeResults;
      trace := [];
    }

    /** `Tx(addr, src[:count], nil)`. */
    method Write(src: array<byte>, count: nat) returns (ok: bool)
      requires count <= src.Length
      modifies this
      ensures ok == Accepted(old(writeResults))
      ensures writeResults == Tail(old(writeResults))
      ensures ready == old(ready) && replies == old(replies)
      ensures trace == old(trace) + [Wrote(src[..count])]
    {
      ok := Accepted(writeResults);
      writeResults := Tail(writeResults);
      trace := trace + [Wrote(src[..count])];
    }

    /** `Tx(addr, nil, dst[:1])`: a failed probe (script exhausted) leaves dst as it was. */
    method ReadStatus(dst: array<byte>) returns (ok: bool)
      requires dst.Length == 1
      modifies this, dst
      ensures ok == (old(ready) != [])
      ensures dst[0] == if ok then old(ready)[0] else old(dst[0])
      ensures ready == Tail(old(ready))
      ensures replies == old(replies) && writeResults == old(writeResults)
      ensures trace == old(trace) + [Polled]
    {
      ok := ready != [];
      if ok {
        dst[0] := ready[0];
      }
      ready := Tail(ready);
      trace := trace + [Polled];
    }

    /** `Tx(addr, nil, dst[:count])`: the bytes the chip sends land in front of dst;
        the transaction fails when the chip sends fewer than count bytes. */
    method Read(dst: array<byte>, count: nat) returns (ok: bool)
      requires count <= dst.Length
      modifies this, dst
      ensures dst[..] == Received(old(dst[..]), Head(old(replies)), count)
      ensures ok == (old(replies) != [] && |old(replies)[0]| >= count)
      ensures replies == Tail(old(replies))
      ensures ready == old(ready) && writeResults == old(writeResults)
      ensures trace == old(trace) + [ReadBytes(count)]
    {
      var reply := Head(replies);
      ok := replies != [] && |reply| >= count;
      forall i | 0 <= i < count && i < |reply| {
        dst[i] := reply[i];
      }
      replies := Tail(replies);
      trace := trace + [ReadBytes(count)];
    }

    /** `time.Sleep(ms * time.Millisecond)`. */
    method Sleep(ms: nat)
      modifies this
      ensures ready == old(ready) && replies == old(replies) && writeResults == old(writeResults)
      ensures trace == old(trace) + [Slept(ms)]
    {
      trace := trace + [Slept(ms)];
    }
  }
}
