/** The card dump of the NFC demo: for a card with a four-byte UID, a walk over
    blocks 0 to 63 that authenticates each sector once it succeeds and reads
    every block it is authenticated for; and the fold of the UID into a card
    number. */
module CardDump {
  import opened Bytes
  import opened Wrappers
  import opened Bus
  import opened Frame
  import opened PN532
  import opened MifareClassic

  /** Blocks of a MIFARE Classic 1K card, the range the walk covers. */
  const BLOCKS: nat := 64
  /** The UID length for which the demo assumes a MIFARE Classic card. */
  const CLASSIC_UID_LENGTH: nat := 4
  /** The block authenticated once more after the walk. */
  const FINAL_BLOCK: nat := 4

  /** The key slot the walk authenticates a block with: A for block 0 only. */
  function KeyFor(block: nat): (k: KeyType)
    ensures k == KEY_A <==> block == 0
    ensures k == KEY_A || k == KEY_B
  {
    if block == 0 then KEY_A else KEY_B
  }

  /** What the walk asks of the card, in order. */
  datatype Step =
    | Authenticate(block: nat, key: KeyType, uid: seq<byte>, ok: bool)
    | Read(block: nat)

  function BlockOf(s: Step): nat
  {
    s.block
  }

  /** The walk over the outcomes of its authentication attempts: outs[b] is
      whether the attempt at block b succeeded (its value is not looked at for
      a block where no attempt is made). */

  /** The `authenticated` flag once blocks 0 to b - 1 have been visited. */
  function Authenticated(outs: seq<bool>, b: nat): bool
    requires b <= |outs| <= BLOCKS
  {
    if b == 0 then false
    else if IsFirstBlock(b - 1) || !Authenticated(outs, b - 1) then outs[b - 1]
    else true
  }

  /** Whether the walk tries to authenticate at block b: at the first block of
      every sector, where the flag is reset, and wherever it is not set. */
  predicate Attempts(outs: seq<bool>, b: nat)
    requires b < |outs| <= BLOCKS
  {
    IsFirstBlock(b) || !Authenticated(outs, b)
  }

  /** Whether the walk reads block b: exactly when the flag is set after b's attempt. */
  predicate Reads(outs: seq<bool>, b: nat)
    requires b < |outs| <= BLOCKS
  {
    Authenticated(outs, b + 1)
  }

  /** What the walk does at block b. */
  function StepsAt(uid: seq<byte>, outs: seq<bool>, b: nat): seq<Step>
    requires b < |outs| <= BLOCKS
  {
    (if Attempts(outs, b) then [Authenticate(b, KeyFor(b), uid, outs[b])] else [])
    + (if Reads(outs, b) then [Read(b)] else [])
  }

  /** What the walk does at blocks 0 to n - 1, in order. */
  function Walk(uid: seq<byte>, outs: seq<bool>, n: nat): seq<Step>
    requires n <= |outs| <= BLOCKS
  {
    if n == 0 then [] else Walk(uid, outs, n - 1) + StepsAt(uid, outs, n - 1)
  }

  /** The walk so far depends only on the outcomes so far. */
  lemma {:induction false} AuthenticatedPrefix(outs: seq<bool>, x: bool, b: nat)
    requires b <= |outs| < BLOCKS
    ensures Authenticated(outs + [x], b) == Authenticated(outs, b)
  {
    if b > 0 {
      AuthenticatedPrefix(outs, x, b - 1);
      assert (outs + [x])[b - 1] == outs[b - 1];
    }
  }

  lemma {:induction false} WalkPrefix(uid: seq<byte>, outs: seq<bool>, x: bool, n: nat)
    requires n <= |outs| < BLOCKS
    ensures Walk(uid, outs + [x], n) == Walk(uid, outs, n)
  {
    if n > 0 {
      WalkPrefix(uid, outs, x, n - 1);
      var p := n - 1;
      AuthenticatedPrefix(outs, x, p);
      AuthenticatedPrefix(outs, x, p + 1);
      assert (outs + [x])[p] == outs[p];
      assert StepsAt(uid, outs + [x], p) == StepsAt(uid, outs, p);
    }
  }

  /** The walk authenticates at block b exactly when no earlier attempt in
      b's sector succeeded: an attempt failing leaves the next block of the
      sector to try again, and one succeeding ends the attempts of its sector. */
  lemma {:induction false} AttemptsClosedForm(outs: seq<bool>, b: nat)
    requires b < |outs| <= BLOCKS
    ensures Attempts(outs, b) <==> forall j :: SectorStart(b) <= j < b ==> !outs[j]
  {
    if !IsFirstBlock(b) {
      FirstBlockStartsSector(b);
      SectorStartChain(b);
      AttemptsClosedForm(outs, b - 1);
      assert Attempts(outs, b) <==> (Attempts(outs, b - 1) && !outs[b - 1]);
    } else {
      FirstBlockStartsSector(b);
    }
  }

  /** The walk reads block b exactly when some attempt in b's sector up to b
      succeeded. */
  lemma ReadsClosedForm(outs: seq<bool>, b: nat)
    requires b < |outs| <= BLOCKS
    ensures Reads(outs, b) <==> exists j :: SectorStart(b) <= j <= b && outs[j]
  {
    AttemptsClosedForm(outs, b);
    assert Reads(outs, b) == if Attempts(outs, b) then outs[b] else true;
    if !Attempts(outs, b) {
      var j :| SectorStart(b) <= j < b && outs[j];
    }
  }

  /** The steps at a block all carry that block. */
  lemma StepsAtBlock(uid: seq<byte>, outs: seq<bool>, b: nat, s: Step)
    requires b < |outs| <= BLOCKS
    requires s in StepsAt(uid, outs, b)
    ensures BlockOf(s) == b
  {
  }

  /** A step occurs in the walk exactly when it is one of the steps at its block. */
  lemma {:induction false} WalkContains(uid: seq<byte>, outs: seq<bool>, n: nat, s: Step)
    requires n <= |outs| <= BLOCKS
    ensures s in Walk(uid, outs, n) <==> BlockOf(s) < n && s in StepsAt(uid, outs, BlockOf(s))
  {
    if n > 0 {
      var w, t := Walk(uid, outs, n - 1), StepsAt(uid, outs, n - 1);
      assert Walk(uid, outs, n) == w + t;
      assert s in w + t <==> s in w || s in t;
      WalkContains(uid, outs, n - 1, s);
      if s in t {
        StepsAtBlock(uid, outs, n - 1, s);
      }
    }
  }

  /** Every authentication of the walk: at a block where it attempts, with
      key A at block 0 only and key B everywhere else, with the card's UID. */
  lemma AuthenticationsOfWalk(uid: seq<byte>, outs: seq<bool>, block: nat, key: KeyType, u: seq<byte>, ok: bool)
    requires |outs| == BLOCKS
    ensures Authenticate(block, key, u, ok) in Walk(uid, outs, BLOCKS)
        <==> block < BLOCKS && Attempts(outs, block) && key == KeyFor(block) && u == uid && ok == outs[block]
    ensures Authenticate(block, key, u, ok) in Walk(uid, outs, BLOCKS) ==> (key == KEY_A <==> block == 0)
  {
    WalkContains(uid, outs, BLOCKS, Authenticate(block, key, u, ok));
  }

  /** Every read of the walk: at a block where it is authenticated. */
  lemma ReadsOfWalk(uid: seq<byte>, outs: seq<bool>, block: nat)
    requires |outs| == BLOCKS
    ensures Read(block) in Walk(uid, outs, BLOCKS) <==> block < BLOCKS && Reads(outs, block)
  {
    WalkContains(uid, outs, BLOCKS, Read(block));
  }

  /** The walk visits the blocks in increasing order, and at a block it
      authenticates before it reads. */
  lemma {:induction false} WalkOrdered(uid: seq<byte>, outs: seq<bool>, n: nat)
    requires n <= |outs| <= BLOCKS
    ensures forall i, j :: 0 <= i < j < |Walk(uid, outs, n)| ==>
      BlockOf(Walk(uid, outs, n)[i]) < BlockOf(Walk(uid, outs, n)[j])
      || (BlockOf(Walk(uid, outs, n)[i]) == BlockOf(Walk(uid, outs, n)[j])
          && Walk(uid, outs, n)[i].Authenticate? && Walk(uid, outs, n)[j].Read?)
    ensures forall i :: 0 <= i < |Walk(uid, outs, n)| ==> BlockOf(Walk(uid, outs, n)[i]) < n
  {
    if n > 0 {
      WalkOrdered(uid, outs, n - 1);
      var w, s := Walk(uid, outs, n - 1), StepsAt(uid, outs, n - 1);
      assert Walk(uid, outs, n) == w + s;
      assert forall i :: 0 <= i < |s| ==> BlockOf(s[i]) == n - 1;
      assert |s| == 2 ==> s[0].Authenticate? && s[1].Read?;
    }
  }

  /** With a key that every sector accepts, the walk authenticates once per
      sector, at its first block, and reads every block. */
  lemma AllAccepted(uid: seq<byte>, outs: seq<bool>, b: nat)
    requires |outs| == BLOCKS && b < BLOCKS
    requires forall j :: 0 <= j < BLOCKS ==> outs[j]
    ensures Attempts(outs, b) <==> IsFirstBlock(b)
    ensures Reads(outs, b)
  {
    AttemptsClosedForm(outs, b);
    ReadsClosedForm(outs, b);
    FirstBlockStartsSector(b);
    if !IsFirstBlock(b) {
      assert SectorStart(b) < b && outs[SectorStart(b)];
    }
  }

  /** With a key that no sector accepts, the walk tries every block and reads none. */
  lemma NoneAccepted(uid: seq<byte>, outs: seq<bool>, b: nat)
    requires |outs| == BLOCKS && b < BLOCKS
    requires forall j :: 0 <= j < BLOCKS ==> !outs[j]
    ensures Attempts(outs, b) && !Reads(outs, b)
  {
    AttemptsClosedForm(outs, b);
    ReadsClosedForm(outs, b);
  }

  /** Whether every authentication among the steps carries a UID whose
      payload fits a command frame. */
  ghost predicate Sendable(steps: seq<Step>)
  {
    forall i :: 0 <= i < |steps| && steps[i].Authenticate? ==> |steps[i].uid| <= MAX_UID
  }

  /** The command frame a step writes to the chip, with the factory key that
      both slots of a fresh MIFARE Classic handle hold. */
  ghost function StepFrame(s: Step): (f: seq<byte>)
    requires s.Authenticate? ==> |s.uid| <= MAX_UID
    ensures |f| <= BUFFSIZE
  {
    match s
    case Authenticate(b, k, u, _) => CommandFrame(AuthPayload(u, b, SelectKeyCommand(k), FACTORY_KEY))
    case Read(b) => CommandFrame(ReadPayload(b % 0x100))
  }

  /** The command frames a run of steps writes, in order. */
  ghost function StepFrames(steps: seq<Step>): seq<seq<byte>>
    requires Sendable(steps)
  {
    if steps == [] then [] else StepFrames(steps[..|steps| - 1]) + [StepFrame(steps[|steps| - 1])]
  }

  lemma {:induction false} StepFramesConcat(a: seq<Step>, b: seq<Step>)
    requires Sendable(a) && Sendable(b)
    ensures Sendable(a + b)
    ensures StepFrames(a + b) == StepFrames(a) + StepFrames(b)
  {
    if b == [] {
      assert a + b == a;
    } else {
      assert (a + b)[..|a + b| - 1] == a + b[..|b| - 1];
      StepFramesConcat(a, b[..|b| - 1]);
    }
  }

  /** One exchange of the walk, a handshake followed by reads and sleeps,
      writes exactly the command frame of its step. */
  lemma ExchangeFrames(t: seq<BusEvent>, s: Step, h: Handshake, rest: seq<BusEvent>)
    requires s.Authenticate? ==> |s.uid| <= MAX_UID
    requires Silent(rest)
    ensures Sendable([s])
    ensures Frames(t + HandshakeEvents(StepFrame(s), h) + rest) == Frames(t) + StepFrames([s])
  {
    HandshakeFrames(StepFrame(s), h, rest);
    AppendAssoc(t, HandshakeEvents(StepFrame(s), h), rest);
    FramesConcat(t, HandshakeEvents(StepFrame(s), h) + rest);
    assert [s][..0] == [];
  }

  // The device state across the walk.

  /** A buffer with `front` written over its first bytes. */
  function Overwritten(prev: seq<byte>, front: seq<byte>): (r: seq<byte>)
    requires |front| <= |prev|
    ensures |r| == |prev| && r[..|front|] == front && r[|front|..] == prev[|front|..]
  {
    front + prev[|front|..]
  }

  /** A buffer whose front is `front` and whose rest is `prev`'s is `prev` overwritten. */
  lemma IsOverwritten(a: seq<byte>, prev: seq<byte>, front: seq<byte>)
    requires |a| == |prev| && |front| <= |prev|
    requires a[..|front|] == front && a[|front|..] == prev[|front|..]
    ensures a == Overwritten(prev, front)
  {
    assert a == a[..|front|] + a[|front|..];
  }

  /** The transmit buffer after the frames of a run of steps were built in
      it, one over the other. */
  ghost function Transmitted(tx: seq<byte>, steps: seq<Step>): (t: seq<byte>)
    requires |tx| == BUFFSIZE && Sendable(steps)
    ensures |t| == BUFFSIZE
  {
    if steps == [] then tx
    else Overwritten(Transmitted(tx, steps[..|steps| - 1]), StepFrame(steps[|steps| - 1]))
  }

  lemma {:induction false} TransmittedConcat(tx: seq<byte>, a: seq<Step>, b: seq<Step>)
    requires |tx| == BUFFSIZE && Sendable(a) && Sendable(b)
    ensures Sendable(a + b)
    ensures Transmitted(tx, a + b) == Transmitted(Transmitted(tx, a), b)
  {
    StepFramesConcat(a, b);
    if b == [] {
      assert a + b == a;
    } else {
      assert (a + b)[..|a + b| - 1] == a + b[..|b| - 1];
      StepFramesConcat(a, b[..|b| - 1]);
      TransmittedConcat(tx, a, b[..|b| - 1]);
    }
  }

  /** The shared buffer after a step: a read puts its payload at the front. */
  function StepBuffer(buf: seq<byte>, s: Step): (b: seq<byte>)
    requires |buf| == BUFFSIZE
    ensures |b| == BUFFSIZE
  {
    if s.Read? then Overwritten(buf, ReadPayload(s.block % 0x100)) else buf
  }

  /** The shared buffer after a run of steps. */
  function BufferAfter(buf: seq<byte>, steps: seq<Step>): (b: seq<byte>)
    requires |buf| == BUFFSIZE
    ensures |b| == BUFFSIZE
    ensures b[|ReadPayload(0)|..] == buf[|ReadPayload(0)|..]
  {
    if steps == [] then buf else StepBuffer(BufferAfter(buf, steps[..|steps| - 1]), steps[|steps| - 1])
  }

  lemma {:induction false} BufferAfterConcat(buf: seq<byte>, a: seq<Step>, b: seq<Step>)
    requires |buf| == BUFFSIZE
    ensures BufferAfter(buf, a + b) == BufferAfter(BufferAfter(buf, a), b)
  {
    if b == [] {
      assert a + b == a;
    } else {
      assert (a + b)[..|a + b| - 1] == a + b[..|b| - 1];
      BufferAfterConcat(buf, a, b[..|b| - 1]);
    }
  }

  /** Whether an authentication on channel c succeeds: its handshake passes
      and the chip's answer carries status 0x00. */
  function AuthOn(c: Channel): bool
    requires |c.rx| == BUFFSIZE
  {
    HandshakeOn(c, TIMEOUT).outcome.Pass? && AuthResult(Response(c.rx, c.replies, AUTH_RESPONSE)) == Pass
  }

  /** The channel after one exchange of the walk, with the 100 ms timeout and
      an answer of n bytes. */
  function ExchangeOn(c: Channel, n: nat): (d: Channel)
    requires |c.rx| == BUFFSIZE && n < BUFFSIZE
    ensures |d.rx| == BUFFSIZE
  {
    Exchanged(c, HandshakeOn(c, TIMEOUT), n)
  }

  /** What a pass of the loop body does on a channel: the outcome of its
      attempt (false where it makes none), the new flag, and the channel after it. */
  datatype Visit = Visit(ok: bool, now: bool, chan: Channel)

  function VisitOn(c: Channel, b: nat, authenticated: bool): (v: Visit)
    requires |c.rx| == BUFFSIZE && b < BLOCKS
    ensures |v.chan.rx| == BUFFSIZE
  {
    var attempt := IsFirstBlock(b) || !authenticated;
    var ok := attempt && AuthOn(c);
    var c1 := if attempt then ExchangeOn(c, AUTH_RESPONSE) else c;
    var now := if attempt then ok else true;
    Visit(ok, now, if now then ExchangeOn(c1, BLOCK_RESPONSE) else c1)
  }

  /** The outcomes of the walk's attempts on the chip and the channel it leaves. */
  datatype Run = Run(outs: seq<bool>, chan: Channel)

  /** The walk from block b, with the flag as given, on the channel c: each
      block's outcome is the chip's answer on the channel the blocks before
      it left. */
  function WalkOn(c: Channel, b: nat, authenticated: bool): (r: Run)
    requires |c.rx| == BUFFSIZE && b <= BLOCKS
    ensures |r.outs| == BLOCKS - b && |r.chan.rx| == BUFFSIZE
    decreases BLOCKS - b
  {
    if b == BLOCKS then Run([], c)
    else
      var v := VisitOn(c, b, authenticated);
      var r := WalkOn(v.chan, b + 1, v.now);
      Run([v.ok] + r.outs, r.chan)
  }

  /** The loop has met, on the channel c at block b, the outcomes outs that
      the walk run meets first, and the rest of that walk is still ahead. */
  ghost predicate OnCourse(run: Run, outs: seq<bool>, c: Channel, b: nat, authenticated: bool)
    requires |c.rx| == BUFFSIZE && b <= BLOCKS
  {
    var r := WalkOn(c, b, authenticated);
    outs + r.outs == run.outs && r.chan == run.chan
  }

  lemma OnCourseAdvance(run: Run, outs: seq<bool>, c: Channel, authenticated: bool, ok: bool, now: bool, c': Channel)
    requires |c.rx| == BUFFSIZE && |outs| < BLOCKS
    requires OnCourse(run, outs, c, |outs|, authenticated)
    requires VisitOn(c, |outs|, authenticated) == Visit(ok, now, c')
    ensures |c'.rx| == BUFFSIZE && OnCourse(run, outs + [ok], c', |outs| + 1, now)
  {
    var v := VisitOn(c, |outs|, authenticated);
    var r := WalkOn(c', |outs| + 1, now);
    assert outs + ([v.ok] + r.outs) == (outs + [v.ok]) + r.outs;
  }

  /** The demo's dump of a card whose InListPassiveTarget answer gave a UID of
      length uidLength, held at offset 13 of the shared buffer: for a four-byte
      UID, the walk over blocks 0 to 63 with a fresh MIFARE Classic handle, then
      one more authentication of block 4 with key A. The UID passed to each
      authentication is the shared buffer's, which the reads leave intact.
      Returned: the steps taken, the outcome of each block's attempt, and the
      outcome of the last authentication. All of them are the chip's answers
      on the channel as the dump found it (`WalkOn`); the frames written to
      the chip are those of the steps, in order. */
  method DumpCard(dev: Device, uidLength: nat) returns (ghost steps: seq<Step>, ghost outs: seq<bool>, ghost last: bool)
    requires dev.Valid()
    modifies dev.buffer, dev.txBuffer, dev.rxBuffer, dev.ackbuff, dev.rdy, dev.bus
    ensures dev.buffer[UID_OFFSET..UID_OFFSET + CLASSIC_UID_LENGTH] == old(dev.buffer[UID_OFFSET..UID_OFFSET + CLASSIC_UID_LENGTH])
    ensures uidLength != CLASSIC_UID_LENGTH ==>
      steps == [] && dev.bus.trace == old(dev.bus.trace) && dev.Chan() == old(dev.Chan())
    ensures uidLength == CLASSIC_UID_LENGTH ==>
      var uid := old(dev.buffer[UID_OFFSET..UID_OFFSET + CLASSIC_UID_LENGTH]);
      var run := WalkOn(old(dev.Chan()), 0, false);
      && outs == run.outs && last == AuthOn(run.chan)
      && steps == Walk(uid, outs, BLOCKS) + [Authenticate(FINAL_BLOCK, KEY_A, uid, last)]
      && dev.Chan() == ExchangeOn(run.chan, AUTH_RESPONSE)
    ensures Sendable(steps) && Frames(dev.bus.trace) == Frames(old(dev.bus.trace)) + StepFrames(steps)
    ensures dev.txBuffer[..] == Transmitted(old(dev.txBuffer[..]), steps)
    ensures dev.buffer[..] == BufferAfter(old(dev.buffer[..]), steps)
  {
    steps, outs, last := [], [], false;
    if uidLength != CLASSIC_UID_LENGTH {
      return;
    }
    ghost var f0, tx0, b0 := Frames(dev.bus.trace), dev.txBuffer[..], dev.buffer[..];
    var mifare := new MifareClassic(dev);
    steps, outs := WalkBlocks(mifare);
    ghost var f1, tx1 := Frames(dev.bus.trace), dev.txBuffer[..];
    ghost var step, h;
    last, step, h := TryBlockKey(mifare, FINAL_BLOCK, KEY_A);
    FinalStep(f0, tx0, b0, steps, step, f1, tx1, Frames(dev.bus.trace), dev.txBuffer[..], dev.buffer[..]);
    steps := steps + [step];
  }

  /** The last authentication of the dump extends its frames and buffers by
      its one step. */
  lemma FinalStep(f0: seq<seq<byte>>, tx0: seq<byte>, b0: seq<byte>, steps: seq<Step>, step: Step,
                  f1: seq<seq<byte>>, tx1: seq<byte>, f2: seq<seq<byte>>, tx2: seq<byte>, buf: seq<byte>)
    requires |tx0| == BUFFSIZE && |b0| == BUFFSIZE && Sendable(steps) && Sendable([step]) && step.Authenticate?
    requires f1 == f0 + StepFrames(steps) && f2 == f1 + StepFrames([step])
    requires tx1 == Transmitted(tx0, steps) && tx2 == Overwritten(tx1, StepFrame(step))
    requires buf == BufferAfter(b0, steps)
    ensures Sendable(steps + [step]) && f2 == f0 + StepFrames(steps + [step])
    ensures tx2 == Transmitted(tx0, steps + [step]) && buf == BufferAfter(b0, steps + [step])
  {
    ExtendFrames(f0, steps, [step]);
    TransmittedConcat(tx0, steps, [step]);
    BufferAfterConcat(b0, steps, [step]);
    assert [step][..0] == [];
  }

  /** The walk's loop over blocks 0 to 63 with a MIFARE Classic handle holding
      the factory key in both slots: the outcomes it meets are the chip's
      answers (`WalkOn`), and the steps it takes are those the walk prescribes
      for them. */
  method WalkBlocks(mifare: MifareClassic) returns (ghost steps: seq<Step>, ghost outs: seq<bool>)
    requires mifare.Valid() && mifare.keys == [FACTORY_KEY, FACTORY_KEY]
    modifies mifare.dev.buffer, mifare.dev.txBuffer, mifare.dev.rxBuffer, mifare.dev.ackbuff, mifare.dev.rdy, mifare.dev.bus
    ensures mifare.dev.buffer[UID_OFFSET..UID_OFFSET + CLASSIC_UID_LENGTH]
         == old(mifare.dev.buffer[UID_OFFSET..UID_OFFSET + CLASSIC_UID_LENGTH])
    ensures var run := WalkOn(old(mifare.dev.Chan()), 0, false);
      outs == run.outs && mifare.dev.Chan() == run.chan
    ensures steps == Walk(old(mifare.dev.buffer[UID_OFFSET..UID_OFFSET + CLASSIC_UID_LENGTH]), outs, BLOCKS)
    ensures Sendable(steps) && Frames(mifare.dev.bus.trace) == Frames(old(mifare.dev.bus.trace)) + StepFrames(steps)
    ensures mifare.dev.txBuffer[..] == Transmitted(old(mifare.dev.txBuffer[..]), steps)
    ensures mifare.dev.buffer[..] == BufferAfter(old(mifare.dev.buffer[..]), steps)
  {
    var dev := mifare.dev;
    ghost var uid0 := dev.buffer[UID_OFFSET..UID_OFFSET + CLASSIC_UID_LENGTH];
    ghost var f0, tx0, b0 := Frames(dev.bus.trace), dev.txBuffer[..], dev.buffer[..];
    ghost var run := WalkOn(dev.Chan(), 0, false);
    steps, outs := [], [];
    var authenticated := false;
    for currentblock := 0 to BLOCKS
      invariant mifare.Valid() && mifare.keys == [FACTORY_KEY, FACTORY_KEY]
      invariant dev.buffer[UID_OFFSET..UID_OFFSET + CLASSIC_UID_LENGTH] == uid0
      invariant |outs| == currentblock
      invariant Course(uid0, run, tx0, b0, f0, outs, authenticated, steps,
                       dev.Chan(), dev.txBuffer[..], dev.buffer[..], Frames(dev.bus.trace))
    {
      ghost var s, ok, h;
      ghost var before, c, tx, buf, fr := authenticated, dev.Chan(), dev.txBuffer[..], dev.buffer[..], Frames(dev.bus.trace);
      authenticated, s, ok, h := VisitBlock(mifare, currentblock, authenticated);
      CourseAdvance(uid0, run, tx0, b0, f0, outs, before, steps, c, tx, buf, fr,
                    authenticated, s, ok, dev.Chan(), dev.txBuffer[..], dev.buffer[..], Frames(dev.bus.trace));
      steps, outs := steps + s, outs + [ok];
    }
    CourseDone(uid0, run, tx0, b0, f0, outs, authenticated, steps,
               dev.Chan(), dev.txBuffer[..], dev.buffer[..], Frames(dev.bus.trace));
  }

  /** Where the walk's loop stands after the blocks before |outs|, starting
      on the walk run, from the buffers tx0 and b0 and the frames f0: the flag
      and the steps the walk prescribes, the rest of the walk on the channel c
      still ahead, and buffers and frames as the steps left them. */
  ghost predicate Course(uid: seq<byte>, run: Run, tx0: seq<byte>, b0: seq<byte>, f0: seq<seq<byte>>,
                         outs: seq<bool>, authenticated: bool, steps: seq<Step>,
                         c: Channel, tx: seq<byte>, buf: seq<byte>, frames: seq<seq<byte>>)
  {
    && |c.rx| == BUFFSIZE && |tx0| == BUFFSIZE && |b0| == BUFFSIZE
    && Walked(uid, outs, authenticated, steps)
    && OnCourse(run, outs, c, |outs|, authenticated)
    && frames == f0 + StepFrames(steps)
    && tx == Transmitted(tx0, steps)
    && buf == BufferAfter(b0, steps)
  }

  /** One pass of the loop body, as `VisitBlock` states it, keeps the loop on course. */
  lemma CourseAdvance(uid: seq<byte>, run: Run, tx0: seq<byte>, b0: seq<byte>, f0: seq<seq<byte>>,
                      outs: seq<bool>, authenticated: bool, steps: seq<Step>,
                      c: Channel, tx: seq<byte>, buf: seq<byte>, frames: seq<seq<byte>>,
                      now: bool, s: seq<Step>, ok: bool,
                      c': Channel, tx': seq<byte>, buf': seq<byte>, frames': seq<seq<byte>>)
    requires Course(uid, run, tx0, b0, f0, outs, authenticated, steps, c, tx, buf, frames) && |outs| < BLOCKS
    requires var attempt := IsFirstBlock(|outs|) || !authenticated;
      && now == (if attempt then ok else true)
      && s == (if attempt then [Authenticate(|outs|, KeyFor(|outs|), uid, ok)] else []) + (if now then [Read(|outs|)] else [])
    requires VisitOn(c, |outs|, authenticated) == Visit(ok, now, c')
    requires Sendable(s) && frames' == frames + StepFrames(s)
    requires tx' == Transmitted(tx, s) && buf' == BufferAfter(buf, s)
    ensures Course(uid, run, tx0, b0, f0, outs + [ok], now, steps + s, c', tx', buf', frames')
  {
    OnCourseAdvance(run, outs, c, authenticated, ok, now, c');
    WalkAdvance(uid, outs, authenticated, steps, now, s, ok, f0);
    TransmittedConcat(tx0, steps, s);
    BufferAfterConcat(b0, steps, s);
  }

  /** At the end of the loop the walk is done: what it met is all it meets. */
  lemma CourseDone(uid: seq<byte>, run: Run, tx0: seq<byte>, b0: seq<byte>, f0: seq<seq<byte>>,
                   outs: seq<bool>, authenticated: bool, steps: seq<Step>,
                   c: Channel, tx: seq<byte>, buf: seq<byte>, frames: seq<seq<byte>>)
    requires Course(uid, run, tx0, b0, f0, outs, authenticated, steps, c, tx, buf, frames) && |outs| == BLOCKS
    ensures outs == run.outs && c == run.chan
    ensures steps == Walk(uid, outs, BLOCKS) && Sendable(steps) && frames == f0 + StepFrames(steps)
    ensures tx == Transmitted(tx0, steps) && buf == BufferAfter(b0, steps)
  {
    assert outs + [] == outs;
  }

  /** The walk's state after the blocks before |outs|: the flag and the steps
      it prescribes. */
  ghost predicate Walked(uid: seq<byte>, outs: seq<bool>, authenticated: bool, steps: seq<Step>)
  {
    && |outs| <= BLOCKS
    && authenticated == Authenticated(outs, |outs|)
    && steps == Walk(uid, outs, |outs|)
    && Sendable(steps)
  }

  /** One pass of the loop body, on a block's outcome, extends the walk, the
      flag and the frames by what the walk prescribes at that block. */
  lemma WalkAdvance(uid: seq<byte>, outs: seq<bool>, authenticated: bool, steps: seq<Step>,
                    now: bool, s: seq<Step>, ok: bool, f0: seq<seq<byte>>)
    requires |outs| < BLOCKS && Walked(uid, outs, authenticated, steps) && Sendable(s)
    requires now == (if IsFirstBlock(|outs|) || !authenticated then ok else true)
    requires s == (if IsFirstBlock(|outs|) || !authenticated then [Authenticate(|outs|, KeyFor(|outs|), uid, ok)] else [])
                  + (if now then [Read(|outs|)] else [])
    ensures Walked(uid, outs + [ok], now, steps + s)
    ensures f0 + StepFrames(steps) + StepFrames(s) == f0 + StepFrames(steps + s)
  {
    var b := |outs|;
    WalkPrefix(uid, outs, ok, b);
    AuthenticatedPrefix(outs, ok, b);
    assert (outs + [ok])[b] == ok;
    ExtendFrames(f0, steps, s);
  }

  /** The frames of two runs of steps, one after the other. */
  lemma ExtendFrames(f0: seq<seq<byte>>, steps: seq<Step>, more: seq<Step>)
    requires Sendable(steps) && Sendable(more)
    ensures Sendable(steps + more)
    ensures f0 + StepFrames(steps) + StepFrames(more) == f0 + StepFrames(steps + more)
  {
    StepFramesConcat(steps, more);
  }

  /** One pass of the walk's loop body at a block: reset the flag at the first
      block of a sector; if it is not set, authenticate with the block's key
      and the UID in the shared buffer, giving up on the block if that fails;
      then read the block, whatever the read returns. Returned: the new flag,
      the steps taken, and, if an attempt was made, its outcome and the
      handshake that carried it. The outcome and the new channel are those of
      `VisitOn`; the frames, transmit buffer and shared buffer follow the steps. */
  method VisitBlock(mifare: MifareClassic, block: nat, authenticated: bool)
    returns (now: bool, ghost steps: seq<Step>, ghost ok: bool, ghost h: Handshake)
    requires mifare.Valid() && block < BLOCKS && mifare.keys == [FACTORY_KEY, FACTORY_KEY]
    modifies mifare.dev.buffer, mifare.dev.txBuffer, mifare.dev.rxBuffer, mifare.dev.ackbuff, mifare.dev.rdy, mifare.dev.bus
    ensures mifare.dev.buffer[UID_OFFSET..UID_OFFSET + CLASSIC_UID_LENGTH]
         == old(mifare.dev.buffer[UID_OFFSET..UID_OFFSET + CLASSIC_UID_LENGTH])
    ensures var attempt := IsFirstBlock(block) || !authenticated;
      var uid := old(mifare.dev.buffer[UID_OFFSET..UID_OFFSET + CLASSIC_UID_LENGTH]);
      && now == (if attempt then ok else true)
      && steps == (if attempt then [Authenticate(block, KeyFor(block), uid, ok)] else [])
                  + (if now then [Read(block)] else [])
    ensures IsFirstBlock(block) || !authenticated ==> h == HandshakeOn(old(mifare.dev.Chan()), TIMEOUT)
    ensures VisitOn(old(mifare.dev.Chan()), block, authenticated) == Visit(ok, now, mifare.dev.Chan())
    ensures Sendable(steps)
    ensures Frames(mifare.dev.bus.trace) == Frames(old(mifare.dev.bus.trace)) + StepFrames(steps)
    ensures mifare.dev.txBuffer[..] == Transmitted(old(mifare.dev.txBuffer[..]), steps)
    ensures mifare.dev.buffer[..] == BufferAfter(old(mifare.dev.buffer[..]), steps)
  {
    ghost var c0 := mifare.dev.Chan();
    now := authenticated;
    if IsFirstBlock(block) {
      now := false;
    }
    if !now {
      VisitAttempted(c0, block, authenticated);
      now, steps, h := AttemptBlock(mifare, block);
      ok := now;
    } else {
      VisitSkipped(c0, block, authenticated);
      ok, steps := false, [];
      h := ReadKeepingUid(mifare, block);
      ReadOnly(old(mifare.dev.txBuffer[..]), old(mifare.dev.buffer[..]), block);
      steps := [Read(block)];
    }
  }

  /** A pass that attempts an authentication is the one that starts a sector. */
  lemma VisitAttempted(c: Channel, b: nat, authenticated: bool)
    requires |c.rx| == BUFFSIZE && b < BLOCKS && (IsFirstBlock(b) || !authenticated)
    ensures VisitOn(c, b, authenticated) == VisitOn(c, b, false)
  {
  }

  /** A pass within an authenticated sector reads the block straight away. */
  lemma VisitSkipped(c: Channel, b: nat, authenticated: bool)
    requires |c.rx| == BUFFSIZE && b < BLOCKS && !(IsFirstBlock(b) || !authenticated)
    ensures VisitOn(c, b, authenticated) == Visit(false, true, ExchangeOn(c, BLOCK_RESPONSE))
  {
  }

  /** The buffers after a lone read. */
  lemma ReadOnly(tx: seq<byte>, buf: seq<byte>, block: nat)
    requires |tx| == BUFFSIZE && |buf| == BUFFSIZE
    ensures Sendable([Read(block)])
    ensures Transmitted(tx, [Read(block)]) == Overwritten(tx, StepFrame(Read(block)))
    ensures BufferAfter(buf, [Read(block)]) == StepBuffer(buf, Read(block))
  {
    assert [Read(block)][..0] == [];
  }

  /** The authentication of a pass that starts afresh, followed by the read
      of the block if it succeeds: its outcome, handshake and channel are
      those of `VisitOn`, and the frames and buffers follow its steps. */
  method AttemptBlock(mifare: MifareClassic, block: nat) returns (ok: bool, ghost steps: seq<Step>, ghost h: Handshake)
    requires mifare.Valid() && block < BLOCKS && mifare.keys == [FACTORY_KEY, FACTORY_KEY]
    modifies mifare.dev.buffer, mifare.dev.txBuffer, mifare.dev.rxBuffer, mifare.dev.ackbuff, mifare.dev.rdy, mifare.dev.bus
    ensures mifare.dev.buffer[UID_OFFSET..UID_OFFSET + CLASSIC_UID_LENGTH]
         == old(mifare.dev.buffer[UID_OFFSET..UID_OFFSET + CLASSIC_UID_LENGTH])
    ensures steps == [Authenticate(block, KeyFor(block), old(mifare.dev.buffer[UID_OFFSET..UID_OFFSET + CLASSIC_UID_LENGTH]), ok)]
                     + (if ok then [Read(block)] else [])
    ensures h == HandshakeOn(old(mifare.dev.Chan()), TIMEOUT)
    ensures VisitOn(old(mifare.dev.Chan()), block, false) == Visit(ok, ok, mifare.dev.Chan())
    ensures Sendable(steps)
    ensures Frames(mifare.dev.bus.trace) == Frames(old(mifare.dev.bus.trace)) + StepFrames(steps)
    ensures mifare.dev.txBuffer[..] == Transmitted(old(mifare.dev.txBuffer[..]), steps)
    ensures mifare.dev.buffer[..] == BufferAfter(old(mifare.dev.buffer[..]), steps)
  {
    ghost var tx0, b0, f0 := mifare.dev.txBuffer[..], mifare.dev.buffer[..], Frames(mifare.dev.bus.trace);
    ghost var step;
    ok, step, h := TryBlockKey(mifare, block, KeyFor(block));
    steps := [step];
    assert [step][..0] == [];
    if !ok {
      return;
    }
    ghost var r := ReadKeepingUid(mifare, block);
    ExtendFrames(f0, steps, [Read(block)]);
    TransmittedConcat(tx0, steps, [Read(block)]);
    BufferAfterConcat(b0, steps, [Read(block)]);
    assert [Read(block)][..0] == [];
    steps := steps + [Read(block)];
  }

  /** An authentication of the walk: a block, a key slot, and the UID in the
      shared buffer. Its handshake and outcome are those the channel
      determines, and the channel after it is that of the exchange. */
  method TryBlockKey(mifare: MifareClassic, block: nat, key: KeyType) returns (ok: bool, ghost step: Step, ghost h: Handshake)
    requires mifare.Valid() && block < BLOCKS && key < 2 && mifare.keys == [FACTORY_KEY, FACTORY_KEY]
    modifies mifare.dev.txBuffer, mifare.dev.rxBuffer, mifare.dev.ackbuff, mifare.dev.rdy, mifare.dev.bus
    ensures step == Authenticate(block, key, mifare.dev.buffer[UID_OFFSET..UID_OFFSET + CLASSIC_UID_LENGTH], ok)
    ensures HandshakeFollows(h, Accepted(old(mifare.dev.bus.writeResults)), old(mifare.dev.bus.ready),
                             old(mifare.dev.rdy[0]), old(mifare.dev.rxBuffer[..]), old(mifare.dev.bus.replies), TIMEOUT)
    ensures ok == (h.outcome.Pass?
                   && AuthResult(Response(old(mifare.dev.rxBuffer[..]), old(mifare.dev.bus.replies), AUTH_RESPONSE)) == Pass)
    ensures h == HandshakeOn(old(mifare.dev.Chan()), TIMEOUT) && ok == AuthOn(old(mifare.dev.Chan()))
    ensures mifare.dev.Chan() == ExchangeOn(old(mifare.dev.Chan()), AUTH_RESPONSE)
    ensures Sendable([step])
    ensures mifare.dev.txBuffer[..] == Overwritten(old(mifare.dev.txBuffer[..]), StepFrame(step))
    ensures Frames(mifare.dev.bus.trace) == Frames(old(mifare.dev.bus.trace)) + StepFrames([step])
  {
    var dev := mifare.dev;
    ghost var t, tx, c := dev.bus.trace, dev.txBuffer[..], dev.Chan();
    var uid := dev.buffer[UID_OFFSET..UID_OFFSET + CLASSIC_UID_LENGTH];
    var err;
    err, h := mifare.AuthenticateBlock(uid, block, key);
    ok := err.Pass?;
    step := Authenticate(block, key, uid, ok);
    HandshakeUnique(h, c, TIMEOUT);
    IsOverwritten(dev.txBuffer[..], tx, StepFrame(step));
    ExchangeFrames(t, step, h, if h.outcome.Pass? then [ReadBytes(AUTH_RESPONSE + 1)] else []);
  }

  /** The read of the walk at a block, whose payload overwrites only the front
      of the shared buffer and so leaves the UID in place. Its handshake is the
      one the channel determines, and the channel after it is that of the exchange. */
  method ReadKeepingUid(mifare: MifareClassic, block: nat) returns (ghost h: Handshake)
    requires mifare.Valid() && block < BLOCKS
    modifies mifare.dev.buffer, mifare.dev.txBuffer, mifare.dev.rxBuffer, mifare.dev.ackbuff, mifare.dev.rdy, mifare.dev.bus
    ensures mifare.dev.buffer[UID_OFFSET..UID_OFFSET + CLASSIC_UID_LENGTH]
         == old(mifare.dev.buffer[UID_OFFSET..UID_OFFSET + CLASSIC_UID_LENGTH])
    ensures HandshakeFollows(h, Accepted(old(mifare.dev.bus.writeResults)), old(mifare.dev.bus.ready),
                             old(mifare.dev.rdy[0]), old(mifare.dev.rxBuffer[..]), old(mifare.dev.bus.replies), TIMEOUT)
    ensures h == HandshakeOn(old(mifare.dev.Chan()), TIMEOUT)
    ensures mifare.dev.Chan() == ExchangeOn(old(mifare.dev.Chan()), BLOCK_RESPONSE)
    ensures mifare.dev.buffer[..] == StepBuffer(old(mifare.dev.buffer[..]), Read(block))
    ensures mifare.dev.txBuffer[..] == Overwritten(old(mifare.dev.txBuffer[..]), StepFrame(Read(block)))
    ensures mifare.dev.bus.trace == old(mifare.dev.bus.trace) + HandshakeEvents(CommandFrame(ReadPayload(block)), h)
                                    + (if h.outcome.Pass? then [ReadBytes(BLOCK_RESPONSE + 1)] else [])
    ensures Sendable([Read(block)])
    ensures Frames(mifare.dev.bus.trace) == Frames(old(mifare.dev.bus.trace)) + StepFrames([Read(block)])
  {
    var dev := mifare.dev;
    ghost var t, tx, c := dev.bus.trace, dev.txBuffer[..], dev.Chan();
    ghost var before := dev.buffer[..];
    var data;
    data, h := mifare.ReadDataBlock(block);
    HandshakeUnique(h, c, TIMEOUT);
    SliceBeyondPrefix(dev.buffer[..], ReadPayload(block), before, UID_OFFSET, UID_OFFSET + CLASSIC_UID_LENGTH);
    assert block % 0x100 == block;
    assert StepFrame(Read(block)) == CommandFrame(ReadPayload(block));
    assert dev.buffer[..] == Overwritten(before, ReadPayload(block));
    IsOverwritten(dev.txBuffer[..], tx, StepFrame(Read(block)));
    ExchangeFrames(t, Read(block), h, if h.outcome.Pass? then [ReadBytes(BLOCK_RESPONSE + 1)] else []);
  }

  /** Writing a prefix of a sequence leaves every slice beyond it as it was. */
  lemma SliceBeyondPrefix(a: seq<byte>, p: seq<byte>, b: seq<byte>, i: nat, j: nat)
    requires |p| <= |b| && a == p + b[|p|..] && |p| <= i <= j <= |b|
    ensures a[i..j] == b[i..j]
  {
    assert forall k :: i <= k < j ==> a[k] == b[k];
  }

  /** `printMifareClasicUID`'s fold: each byte shifted into a uint32 card
      number, so that the number is the UID read big-endian, keeping only its
      last four bytes when it is longer. */
  method FoldCardId(uid: seq<byte>) returns (cardid: nat)
    ensures cardid < UINT32
    ensures cardid == BigEndian(uid) % UINT32
    ensures |uid| <= 4 ==> cardid == BigEndian(uid)
    ensures |uid| >= 4 ==> cardid == BigEndian(uid[|uid| - 4..])
    ensures |uid| == 4 ==>
      cardid == uid[0] as int * 0x100_0000 + uid[1] as int * 0x1_0000 + uid[2] as int * 0x100 + uid[3]
  {
    cardid := 0;
    for i := 0 to |uid|
      invariant cardid == BigEndian(uid[..i]) % UINT32
    {
      ShiftInBigEndian(uid[..i], uid[i]);
      assert uid[..i + 1] == uid[..i] + [uid[i]];
      cardid := ShiftIn(cardid, uid[i]);
    }
    assert uid[..|uid|] == uid;
    if |uid| <= 4 {
      BigEndianFits32(uid);
    }
    if |uid| >= 4 {
      BigEndianLow32(uid);
    }
    if |uid| == 4 {
      BigEndianBytes4(uid);
    }
  }
}
