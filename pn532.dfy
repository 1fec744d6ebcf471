/** The PN532 driver over I2C: the `Device` with its buffers, the command/ACK
    handshake, and the SAMConfiguration, GetFirmwareVersion and
    InListPassiveTarget exchanges. */
module PN532 {
  import opened Bytes
  import opened Wrappers
  import opened Bus
  import opened Frame
  import opened Polling

  /** The I2C address the PN532 listens to. */
  const ADDRESS: nat := 0x24

  const COMMAND_SAMCONFIGURATION: byte := 0x14
  const COMMAND_GETFIRMWAREVERSION: byte := 0x02
  const COMMAND_INLISTPASSIVETARGET: byte := 0x4A
  const COMMAND_INDATAEXCHANGE: byte := 0x40

  /** Baud rate / modulation code of ISO 14443 type A cards for InListPassiveTarget. */
  const MIFARE_ISO14443A: byte := 0x00

  /** The `i2cTuning` pause between bus phases, in milliseconds. */
  const I2C_TUNING: nat := 1
  /** The timeout the driver's own exchanges use, in milliseconds. */
  const TIMEOUT: nat := 100

  /** What a GetFirmwareVersion response starts with: an information frame of
      LEN 6 from the chip. */
  const FIRMWARE_PREFIX: seq<byte> := [0x00, 0x00, 0xFF, 0x06, 0xFA, 0xD5]

  /** Payload of the SAMConfiguration command: normal mode, a 1 s timeout
      (20 × 50 ms), use the IRQ pin. */
  const SAM_CONFIGURATION: seq<byte> := [COMMAND_SAMCONFIGURATION, 0x01, 0x14, 0x01]
  /** The response code of SAMConfiguration. */
  const SAM_RESPONSE: byte := 0x15

  /** Where the UID starts in an InListPassiveTarget response. */
  const UID_OFFSET: nat := 13

  /** The failures of one command/ACK handshake. */
  datatype LinkError =
    | WriteFailed            // the bus refused the command frame
    | WaitReadyFailed        // the chip did not become ready in time after the command
    | ReadAckFailed          // the six bytes read back are not the ACK frame
    | SecondWaitReadyFailed  // the chip did not become ready in time after the ACK

  /** The driver's errors, one tag per distinct error the source returns. */
  datatype Error =
    | Link(cause: LinkError)
    | UnexpectedSamResponse
    | InvalidFirmwareResponse
    | ListTargetFailed(cause: LinkError)  // errors.Join("Failed sendCommandCheckAck", cause)
    | InvalidCardCount                    // not exactly one target found
    | UidOutOfBounds                      // the UID slice would leave the buffer: the source panics here
    | AuthError                           // MIFARE authentication status not 0x00
    | ReadError                           // MIFARE read status not 0x00
    | BlockTooLarge                       // more than 16 bytes given to a block write

  /** The version information of the embedded firmware. */
  datatype Firmware = Firmware(IC: byte, Ver: byte, Rev: byte, Support: byte)

  /** How one handshake went: its outcome and how many probes each wait took. */
  datatype Handshake = Handshake(outcome: Outcome<LinkError>, polls1: nat, polls2: nat)

  /** Whether the handshake got as far as reading the ACK. */
  predicate AckRead(h: Handshake)
  {
    h.outcome != Fail(WriteFailed) && h.outcome != Fail(WaitReadyFailed)
  }

  /** The bus events of a handshake after its write, in order: wait, pause,
      ACK read, pause, wait — cut off at the step that failed. */
  ghost function AckEvents(h: Handshake): seq<BusEvent>
  {
    match h.outcome
    case Fail(WriteFailed) => []
    case Fail(WaitReadyFailed) => PollEvents(h.polls1)
    case _ => PollEvents(h.polls1) + AckPhaseEvents(h)
  }

  /** The bus events from the end of the first wait on: pause, ACK read and,
      if the ACK was right, pause and the second wait. */
  ghost function AckPhaseEvents(h: Handshake): seq<BusEvent>
  {
    if h.outcome == Fail(ReadAckFailed) then [Slept(I2C_TUNING), ReadBytes(7)]
    else [Slept(I2C_TUNING), ReadBytes(7), Slept(I2C_TUNING)] + PollEvents(h.polls2)
  }

  /** The bus events of a whole handshake: the command frame's write first. */
  ghost function HandshakeEvents(frame: seq<byte>, h: Handshake): seq<BusEvent>
  {
    [Wrote(frame)] + AckEvents(h)
  }

  /** A handshake followed by reads and sleeps writes exactly its command frame. */
  lemma HandshakeFrames(frame: seq<byte>, h: Handshake, rest: seq<BusEvent>)
    requires Silent(rest)
    ensures Frames(HandshakeEvents(frame, h) + rest) == [frame]
  {
    PollsSilent(h.polls1);
    PollsSilent(h.polls2);
    var a := AckEvents(h) + rest;
    assert Silent(a);
    SilentFrames(a);
    assert HandshakeEvents(frame, h) + rest == [Wrote(frame)] + a;
    FramesConcat([Wrote(frame)], a);
    assert [Wrote(frame)][..0] == [];
  }

  /** The six bytes the ACK read delivers, from the receive buffer and the chip's next reply. */
  function AckBytes(rx: seq<byte>, replies: seq<seq<byte>>): seq<byte>
    requires |rx| == BUFFSIZE
  {
    Received(rx, Head(replies), 7)[1..7]
  }

  /** The handshake `sendCommandCheckAck` performs from a given bus state:
      write, then wait, ACK, wait, each step only once and only if all before it
      succeeded, with a distinct error for each step that fails. */
  ghost predicate HandshakeFollows(h: Handshake, accepted: bool, q: seq<byte>, stale: byte,
                                  rx: seq<byte>, replies: seq<seq<byte>>, timeout: nat)
    requires |rx| == BUFFSIZE
  {
    if accepted then AckFollows(h, q, stale, rx, replies, timeout)
    else h == Handshake(Fail(WriteFailed), 0, 0)
  }

  /** The part of the handshake after an accepted write. */
  ghost predicate AckFollows(h: Handshake, q: seq<byte>, stale: byte,
                            rx: seq<byte>, replies: seq<seq<byte>>, timeout: nat)
    requires |rx| == BUFFSIZE
  {
    match WaitSpec(q, stale, timeout)
    case None => false
    case Some(w1) =>
      if !w1.ok then h == Handshake(Fail(WaitReadyFailed), w1.polls, 0)
      else AckPhaseFollows(h, w1.polls, Remaining(q, w1.polls), PollAt(q, stale, w1.polls - 1), rx, replies, timeout)
  }

  /** The part of the handshake after a first wait of polls1 probes that saw
      the chip ready, from the status script and buffer it left. */
  ghost predicate AckPhaseFollows(h: Handshake, polls1: nat, q: seq<byte>, stale: byte,
                                 rx: seq<byte>, replies: seq<seq<byte>>, timeout: nat)
    requires |rx| == BUFFSIZE
  {
    if AckBytes(rx, replies) != ACK then h == Handshake(Fail(ReadAckFailed), polls1, 0)
    else match WaitSpec(q, stale, timeout)
      case None => false
      case Some(w2) => h == Handshake(if w2.ok then Pass else Fail(SecondWaitReadyFailed), polls1, w2.polls)
  }

  /** The handshake `sendCommandCheckAck` performs on a channel, computed: with
      a non-zero timeout every wait returns, so there is exactly one. */
  function HandshakeOn(c: Channel, timeout: nat): (h: Handshake)
    requires |c.rx| == BUFFSIZE && timeout > 0
    ensures HandshakeFollows(h, Accepted(c.writes), c.ready, c.status, c.rx, c.replies, timeout)
  {
    if !Accepted(c.writes) then Handshake(Fail(WriteFailed), 0, 0)
    else
      var w1 := WaitSpec(c.ready, c.status, timeout).value;
      if !w1.ok then Handshake(Fail(WaitReadyFailed), w1.polls, 0)
      else if AckBytes(c.rx, c.replies) != ACK then Handshake(Fail(ReadAckFailed), w1.polls, 0)
      else
        var w2 := WaitSpec(Remaining(c.ready, w1.polls), PollAt(c.ready, c.status, w1.polls - 1), timeout).value;
        Handshake(if w2.ok then Pass else Fail(SecondWaitReadyFailed), w1.polls, w2.polls)
  }

  /** With a non-zero timeout the handshake is determined by the channel: any
      handshake that follows from it is `HandshakeOn`'s. */
  lemma HandshakeUnique(h: Handshake, c: Channel, timeout: nat)
    requires |c.rx| == BUFFSIZE && timeout > 0
    requires HandshakeFollows(h, Accepted(c.writes), c.ready, c.status, c.rx, c.replies, timeout)
    ensures h == HandshakeOn(c, timeout)
  {
  }

  /** What one exchange hands on to the next: the rest of the bus script
      (status answers, read replies, write acknowledgements) and the buffers
      the driver reads into (the status byte, the receive buffer, the ACK
      buffer). */
  datatype Channel = Channel(ready: seq<byte>, status: byte, rx: seq<byte>, ack: seq<byte>,
                             replies: seq<seq<byte>>, writes: seq<bool>)

  /** The channel after a handshake that went as h says: one write consumed,
      the probes of both waits, and the ACK read if the handshake got that far. */
  function AfterHandshake(c: Channel, h: Handshake): (d: Channel)
    requires |c.rx| == BUFFSIZE
    ensures |d.rx| == BUFFSIZE
  {
    var q1 := Remaining(c.ready, h.polls1);
    Channel(Remaining(q1, h.polls2),
            StatusAfter(q1, StatusAfter(c.ready, c.status, h.polls1), h.polls2),
            if AckRead(h) then Received(c.rx, Head(c.replies), 7) else c.rx,
            if AckRead(h) then AckBytes(c.rx, c.replies) else c.ack,
            if AckRead(h) then Tail(c.replies) else c.replies,
            Tail(c.writes))
  }

  /** The channel after `readdata` of n bytes into a buffer of the caller's. */
  function AfterRead(c: Channel, n: nat): (d: Channel)
    requires |c.rx| == BUFFSIZE && n < BUFFSIZE
    ensures |d.rx| == BUFFSIZE
  {
    Channel(c.ready, c.status, Received(c.rx, Head(c.replies), n + 1), c.ack, Tail(c.replies), c.writes)
  }

  /** What a response read after a passed handshake delivers is what the
      channel's receive buffer holds after it, without the status byte. */
  lemma ResponseOfChannel(c: Channel, h: Handshake, n: nat)
    requires |c.rx| == BUFFSIZE && n < BUFFSIZE && h.outcome.Pass?
    ensures AfterRead(AfterHandshake(c, h), n).rx == ResponseRx(c.rx, c.replies, n)
    ensures AfterRead(AfterHandshake(c, h), n).rx[1..n + 1] == Response(c.rx, c.replies, n)
  {
  }

  /** The channel after an exchange: the handshake, then a response read of n
      bytes once the handshake passed. */
  function Exchanged(c: Channel, h: Handshake, n: nat): (d: Channel)
    requires |c.rx| == BUFFSIZE && n < BUFFSIZE
    ensures |d.rx| == BUFFSIZE
  {
    if h.outcome.Pass? then AfterRead(AfterHandshake(c, h), n) else AfterHandshake(c, h)
  }

  /** The shared buffer after that exchange: the command at its front, or, once
      the handshake passed, the n response bytes over it. Bytes behind these are
      what the buffer held before. */
  function ExchangeBuffer(buf: seq<byte>, c: Channel, cmd: seq<byte>, h: Handshake, n: nat): (b: seq<byte>)
    requires |buf| == BUFFSIZE && |c.rx| == BUFFSIZE && |cmd| <= n < BUFFSIZE
    ensures |b| == BUFFSIZE
  {
    if h.outcome.Pass? then Response(c.rx, c.replies, n) + buf[n..] else cmd + buf[|cmd|..]
  }

  /** Bytes behind a written prefix are the old ones. A hint for the solver,
      which it proves unaided but finds slowly inside the exchange methods. */
  lemma PrefixWritten(p: seq<byte>, b: seq<byte>, n: nat)
    requires |p| <= n <= |b|
    ensures (p + b[|p|..])[n..] == b[n..]
  {
  }

  /** The receive buffer after a passed handshake and a response read of n bytes. */
  function ResponseRx(rx: seq<byte>, replies: seq<seq<byte>>, n: nat): seq<byte>
    requires |rx| == BUFFSIZE && n < BUFFSIZE
  {
    Received(Received(rx, Head(replies), 7), Head(Tail(replies)), n + 1)
  }

  /** The n response bytes `readdata` delivers after a passed handshake: the
      chip's second reply without its leading I2C status byte, completed from
      the receive buffer where the reply is short. */
  function Response(rx: seq<byte>, replies: seq<seq<byte>>, n: nat): (r: seq<byte>)
    requires |rx| == BUFFSIZE && n < BUFFSIZE
    ensures |r| == n
  {
    ResponseRx(rx, replies, n)[1..n + 1]
  }

  /** Outcome of decoding an InListPassiveTarget response held in the shared buffer:
      the number of targets at offset 7 must be 1; the UID length sits at offset 12. */
  function TargetResult(resp: seq<byte>): Result<nat, Error>
    requires |resp| == BUFFSIZE
  {
    if resp[7] != 1 then Err(InvalidCardCount)
    else if UID_OFFSET + resp[12] > BUFFSIZE then Err(UidOutOfBounds)
    else Ok(resp[12])
  }

  /** The check `samconfig` makes on its nine response bytes: the response
      code of SAMConfiguration at offset 6. */
  function SamResult(resp: seq<byte>): Outcome<Error>
    requires |resp| > 6
  {
    if resp[6] != SAM_RESPONSE then Fail(UnexpectedSamResponse) else Pass
  }

  /** What `FirmwareVersion` makes of its thirteen response bytes: the frame
      header must be the expected one; the four version bytes follow the
      response code at offset 6, which is not checked. */
  function DecodeFirmware(resp: seq<byte>): Result<Firmware, Error>
    requires |resp| >= 11
  {
    if resp[..|FIRMWARE_PREFIX|] != FIRMWARE_PREFIX then Err(InvalidFirmwareResponse)
    else Ok(Firmware(resp[7], resp[8], resp[9], resp[10]))
  }

  /** The SAMConfiguration check accepts a well-formed chip-to-host frame
      exactly when its first data byte is the SAMConfiguration response code. */
  lemma SamFrameChecked(f: seq<byte>)
    requires ParseFrame(f).Some? && ParseFrame(f).value.tfi == PN532TOHOST
    requires |ParseFrame(f).value.data| >= 1
    ensures SamResult(f) == Pass <==> ParseFrame(f).value.data[0] == SAM_RESPONSE
  {
  }

  /** The chip's answer to SAMConfiguration passes the check. */
  lemma SamResponseAccepted()
    ensures SamResult(InformationFrame(PN532TOHOST, [SAM_RESPONSE])) == Pass
  {
  }

  /** The chip's GetFirmwareVersion answer (response code 0x03 and the four
      version bytes) decodes to exactly those four bytes. */
  lemma FirmwareFrameDecodes(ic: byte, ver: byte, rev: byte, support: byte)
    ensures DecodeFirmware(InformationFrame(PN532TOHOST, [0x03, ic, ver, rev, support]))
         == Ok(Firmware(ic, ver, rev, support))
  {
    var f := InformationFrame(PN532TOHOST, [0x03, ic, ver, rev, support]);
    assert f[..6] == FIRMWARE_PREFIX;
  }

  /** Any well-formed chip-to-host frame with five data bytes decodes to the last
      four of them, whatever the first (the response code) is. */
  lemma AcceptedFirmwareFrame(f: seq<byte>)
    requires ParseFrame(f).Some? && ParseFrame(f).value.tfi == PN532TOHOST
    requires |ParseFrame(f).value.data| == 4 + 1
    ensures var d := ParseFrame(f).value.data;
      DecodeFirmware(f) == Ok(Firmware(d[1], d[2], d[3], d[4]))
  {
    var d := ParseFrame(f).value.data;
    ParsedFrameIsInformationFrame(f);
    FrameLayout(PN532TOHOST, d);
    assert f[..6] == FIRMWARE_PREFIX;
  }

  /** The data of an InListPassiveTarget answer for one ISO 14443A target:
      response code 0x4B, one target, target number 1, SENS_RES, SEL_RES, the
      UID length and the UID. */
  function TargetData(sensRes0: byte, sensRes1: byte, selRes: byte, uid: seq<byte>): seq<byte>
    requires |uid| < 0x100
  {
    [0x4B, 1, 1, sensRes0, sensRes1, selRes, |uid|] + uid
  }

  /** A response that begins like the chip's answer for one target, up to the
      end of the UID, yields that UID's length; the UID sits at offset 13. */
  lemma TargetFrameDecodes(resp: seq<byte>, sensRes0: byte, sensRes1: byte, selRes: byte, uid: seq<byte>)
    requires |resp| == BUFFSIZE && UID_OFFSET + |uid| <= BUFFSIZE
    requires var f := InformationFrame(PN532TOHOST, TargetData(sensRes0, sensRes1, selRes, uid));
      resp[..UID_OFFSET + |uid|] == f[..UID_OFFSET + |uid|]
    ensures TargetResult(resp) == Ok(|uid|)
    ensures resp[UID_OFFSET..UID_OFFSET + |uid|] == uid
  {
    var d := TargetData(sensRes0, sensRes1, selRes, uid);
    var f := InformationFrame(PN532TOHOST, d);
    FrameLayout(PN532TOHOST, d);
    assert resp[7] == f[7] && resp[12] == f[12];
    assert f[6..6 + |d|][7..] == uid;
    assert resp[UID_OFFSET..UID_OFFSET + |uid|] == f[UID_OFFSET..UID_OFFSET + |uid|];
  }

  class Device {
    const bus: Bus
    const address: nat
    /** The shared command/response buffer. */
    const buffer: array<byte>
    /** Where the outbound frame is built. */
    const txBuffer: array<byte>
    /** Where every data read lands, status byte first. */
    const rxBuffer: array<byte>
    /** The one-byte status buffer of the ready probe. */
    const rdy: array<byte>
    /** Where the ACK is read to. */
    const ackbuff: array<byte>

    ghost predicate Valid()
    {
      && buffer.Length == BUFFSIZE && txBuffer.Length == BUFFSIZE && rxBuffer.Length == BUFFSIZE
      && rdy.Length == 1 && ackbuff.Length == |ACK|
      && buffer != txBuffer && buffer != rxBuffer && buffer != rdy && buffer != ackbuff
      && txBuffer != rxBuffer && txBuffer != rdy && txBuffer != ackbuff
      && rxBuffer != rdy && rxBuffer != ackbuff && rdy != ackbuff
    }

    /** The channel as the device sees it now. */
    ghost function Chan(): (c: Channel)
      requires Valid()
      reads bus, rdy, rxBuffer, ackbuff
      ensures |c.rx| == BUFFSIZE
    {
      Channel(bus.ready, rdy[0], rxBuffer[..], ackbuff[..], bus.replies, bus.writeResults)
    }

    /** `NewI2C`: the device on a bus, with zeroed buffers; the chip is not touched. */
    constructor (bus: Bus)
      ensures Valid() && this.bus == bus && address == ADDRESS
      ensures fresh(buffer) && fresh(txBuffer) && fresh(rxBuffer) && fresh(rdy) && fresh(ackbuff)
      ensures rdy[0] == 0 && rxBuffer[..] == seq(BUFFSIZE, _ => 0) && buffer[..] == seq(BUFFSIZE, _ => 0)
      ensures txBuffer[..] == seq(BUFFSIZE, _ => 0) && ackbuff[..] == seq(|ACK|, _ => 0)
    {
      this.bus := bus;
      address := ADDRESS;
      buffer := new byte[BUFFSIZE](_ => 0);
      txBuffer := new byte[BUFFSIZE](_ => 0);
      rxBuffer := new byte[BUFFSIZE](_ => 0);
      rdy := new byte[1](_ => 0);
      ackbuff := new byte[|ACK|](_ => 0);
    }

    /** `writecommand`: builds the frame of cmd in the transmit buffer and writes it. */
    method WriteCommand(cmd: seq<byte>) returns (r: Outcome<LinkError>)
      requires Valid() && |cmd| <= MAX_COMMAND
      modifies txBuffer, bus
      ensures txBuffer[..|cmd| + 8] == CommandFrame(cmd)
      ensures txBuffer[|cmd| + 8..] == old(txBuffer[|cmd| + 8..])
      ensures r == if Accepted(old(bus.writeResults)) then Pass else Fail(WriteFailed)
      ensures bus.writeResults == Tail(old(bus.writeResults))
      ensures bus.ready == old(bus.ready) && bus.replies == old(bus.replies)
      ensures bus.trace == old(bus.trace) + [Wrote(CommandFrame(cmd))]
    {
      BuildFrame(txBuffer, cmd);
      var ok := bus.Write(txBuffer, |cmd| + 8);
      r := if ok then Pass else Fail(WriteFailed);
    }

    /** The packet-building part of `writecommand`: header, payload with its
        running byte sum, DCS and postamble, in place in buf. */
    static method BuildFrame(buf: array<byte>, cmd: seq<byte>)
      requires buf.Length == BUFFSIZE && |cmd| <= MAX_COMMAND
      modifies buf
      ensures buf[..|cmd| + 8] == CommandFrame(cmd)
      ensures forall j :: |cmd| + 8 <= j < BUFFSIZE ==> buf[j] == old(buf[j])
    {
      var n := |cmd|;
      var len: byte := n + 1;
      buf[0] := PREAMBLE;
      buf[1] := STARTCODE1;
      buf[2] := STARTCODE2;
      buf[3] := len;
      buf[4] := Negate(len);
      buf[5] := HOSTTOPN532;
      var sum := CopyPayload(buf, cmd);
      buf[6 + n] := Negate((HOSTTOPN532 as int + sum) % 0x100);
      buf[7 + n] := POSTAMBLE;
      FrameFromParts(buf[..n + 8], HOSTTOPN532, cmd);
    }

    /** The payload loop of `writecommand`: copies cmd behind the six header
        bytes and adds up its bytes modulo 256. */
    static method CopyPayload(buf: array<byte>, cmd: seq<byte>) returns (sum: byte)
      requires buf.Length == BUFFSIZE && |cmd| <= MAX_COMMAND
      modifies buf
      ensures sum == ByteSum(cmd)
      ensures forall j :: 0 <= j < |cmd| ==> buf[6 + j] == cmd[j]
      ensures forall j :: 0 <= j < BUFFSIZE && !(6 <= j < 6 + |cmd|) ==> buf[j] == old(buf[j])
    {
      sum := 0;
      for i := 0 to |cmd|
        invariant sum == ByteSum(cmd[..i])
        invariant forall j :: 0 <= j < i ==> buf[6 + j] == cmd[j]
        invariant forall j :: 0 <= j < BUFFSIZE && !(6 <= j < 6 + i) ==> buf[j] == old(buf[j])
      {
        buf[6 + i] := cmd[i];
        ByteSumStep(cmd, i);
        sum := (sum + cmd[i]) % 0x100;
      }
      assert cmd[..|cmd|] == cmd;
    }

    /** `isReady`: probes the status byte; failures of the probe are ignored. */
    method IsReady() returns (ready: bool)
      requires Valid()
      modifies rdy, bus
      ensures rdy[0] == PollAt(old(bus.ready), old(rdy[0]), 0)
      ensures ready == (rdy[0] == I2C_READY)
      ensures bus.ready == Remaining(old(bus.ready), 1)
      ensures bus.replies == old(bus.replies) && bus.writeResults == old(bus.writeResults)
      ensures bus.trace == old(bus.trace) + [Polled]
    {
      var _ := bus.ReadStatus(rdy);
      ready := rdy[0] == I2C_READY;
    }

    /** One turn of `waitready`'s loop: the 10 ms sleep and the next probe, the
        polls-th of the status script q that started from stale. */
    method SleepThenProbe(ghost q: seq<byte>, ghost stale: byte, ghost polls: nat) returns (ready: bool)
      requires Valid() && polls >= 1
      requires bus.ready == Remaining(q, polls) && rdy[0] == PollAt(q, stale, polls - 1)
      modifies rdy, bus
      ensures rdy[0] == PollAt(q, stale, polls) && ready == (rdy[0] == I2C_READY)
      ensures bus.ready == Remaining(q, polls + 1)
      ensures bus.replies == old(bus.replies) && bus.writeResults == old(bus.writeResults)
      ensures bus.trace == old(bus.trace) + [Slept(POLL_DELAY), Polled]
    {
      bus.Sleep(POLL_DELAY);
      PollShift(q, stale, polls);
      ready := IsReady();
    }

    /** `waitready`: probes until the chip is ready, sleeping 10 ms between
        probes; with a non-zero timeout it gives up once its timer, starting at
        1 ms and advancing 10 ms per not-ready probe, exceeds the timeout. */
    method WaitReady(timeout: nat) returns (ok: bool, ghost polls: nat)
      requires Valid()
      requires WaitSpec(bus.ready, rdy[0], timeout).Some?
      modifies rdy, bus
      ensures WaitSpec(old(bus.ready), old(rdy[0]), timeout) == Some(Wait(ok, polls))
      ensures polls >= 1
      ensures bus.ready == Remaining(old(bus.ready), polls)
      ensures rdy[0] == PollAt(old(bus.ready), old(rdy[0]), polls - 1)
      ensures bus.replies == old(bus.replies) && bus.writeResults == old(bus.writeResults)
      ensures bus.trace == old(bus.trace) + PollEvents(polls)
    {
      ghost var q, s := bus.ready, rdy[0];
      ghost var k := ReadyAt(q, s);
      ReadyAtIsFirstReadyPoll(q, s);
      var timer: nat := 1;
      polls := 1;
      var ready := IsReady();
      while !ready
        invariant polls >= 1 && (timeout > 0 ==> timer == 1 + POLL_DELAY * (polls - 1))
        invariant timeout > 0 ==> timer <= timeout
        invariant rdy[0] == PollAt(q, s, polls - 1) && ready == (rdy[0] == I2C_READY)
        invariant forall i :: 0 <= i < polls - 1 ==> PollAt(q, s, i) != I2C_READY
        invariant timeout == 0 ==> k.Some? && polls - 1 <= k.value
        invariant bus.ready == Remaining(q, polls)
        invariant bus.replies == old(bus.replies) && bus.writeResults == old(bus.writeResults)
        invariant bus.trace == old(bus.trace) + PollEvents(polls)
        decreases if timeout == 0 then k.value + 1 - polls else timeout - timer
      {
        if timeout != 0 {
          timer := timer + 10;
          if timer > timeout {
            ok := false;
            return;
          }
        }
        ready := SleepThenProbe(q, s, polls);
        polls := polls + 1;
      }
      FirstReadyPollIsReadyAt(q, s, polls - 1);
      ok := true;
    }

    /** `readdata`: reads n + 1 bytes into the receive buffer and copies all but
        the leading I2C status byte to dst. Bus errors are ignored, so what the
        chip did not send stays as the receive buffer held it. */
    method ReadData(dst: array<byte>, n: nat)
      requires Valid() && n < BUFFSIZE && n <= dst.Length && dst != rxBuffer
      modifies rxBuffer, dst, bus
      ensures rxBuffer[..] == Received(old(rxBuffer[..]), Head(old(bus.replies)), n + 1)
      ensures dst[..n] == rxBuffer[1..n + 1]
      ensures dst[n..] == old(dst[n..])
      ensures bus.replies == Tail(old(bus.replies))
      ensures bus.ready == old(bus.ready) && bus.writeResults == old(bus.writeResults)
      ensures bus.trace == old(bus.trace) + [ReadBytes(n + 1)]
      ensures dst != ackbuff && dst != rdy ==> Chan() == AfterRead(old(Chan()), n)
    {
      var _ := bus.Read(rxBuffer, n + 1);
      forall i | 0 <= i < n {
        dst[i] := rxBuffer[i + 1];
      }
    }

    /** Stores a command's bytes at the front of the shared buffer, as the
        exchanges do before `sendCommandCheckAck`. */
    method PutCommand(cmd: seq<byte>)
      requires Valid() && |cmd| <= BUFFSIZE
      modifies buffer
      ensures buffer[..] == cmd + old(buffer[|cmd|..])
    {
      forall i | 0 <= i < |cmd| {
        buffer[i] := cmd[i];
      }
    }

    /** `readdata` into the shared buffer: the first n bytes of the answer,
        stated on the channel. */
    method ReadResponse(n: nat)
      requires Valid() && n < BUFFSIZE
      modifies buffer, rxBuffer, bus
      ensures Chan() == AfterRead(old(Chan()), n)
      ensures buffer[..] == Chan().rx[1..n + 1] + old(buffer[n..])
      ensures bus.trace == old(bus.trace) + [ReadBytes(n + 1)]
    {
      ReadData(buffer, n);
      assert buffer[..] == buffer[..n] + buffer[n..];
    }

    /** `isACK`: reads six bytes and compares them with the ACK frame. */
    method IsAck() returns (ok: bool)
      requires Valid()
      modifies rxBuffer, ackbuff, bus
      ensures rxBuffer[..] == Received(old(rxBuffer[..]), Head(old(bus.replies)), 7)
      ensures ackbuff[..] == AckBytes(old(rxBuffer[..]), old(bus.replies))
      ensures ok <==> ackbuff[..] == ACK
      ensures bus.replies == Tail(old(bus.replies))
      ensures bus.ready == old(bus.ready) && bus.writeResults == old(bus.writeResults)
      ensures bus.trace == old(bus.trace) + [ReadBytes(7)]
    {
      ReadData(ackbuff, |ACK|);
      assert ackbuff[..] == ackbuff[..|ACK|];
      ok := ackbuff[..] == ACK;
    }

    /** `sendCommandCheckAck`: writes the command, waits until the chip is
        ready, pauses, reads and checks the ACK, pauses and waits again. */
    method SendCommandCheckAck(cmd: seq<byte>, timeout: nat) returns (r: Outcome<LinkError>, ghost h: Handshake)
      requires Valid() && |cmd| <= MAX_COMMAND
      requires timeout == 0 ==> Live(bus.ready, rdy[0])
      modifies txBuffer, rxBuffer, ackbuff, rdy, bus
      ensures HandshakeFollows(h, Accepted(old(bus.writeResults)), old(bus.ready), old(rdy[0]),
                               old(rxBuffer[..]), old(bus.replies), timeout)
      ensures r == h.outcome
      ensures txBuffer[..|cmd| + 8] == CommandFrame(cmd)
      ensures txBuffer[|cmd| + 8..] == old(txBuffer[|cmd| + 8..])
      ensures Chan() == AfterHandshake(old(Chan()), h)
      ensures timeout == 0 ==> Live(bus.ready, rdy[0])
      ensures bus.trace == old(bus.trace) + HandshakeEvents(CommandFrame(cmd), h)
    {
      ghost var t := bus.trace;
      r := WriteCommand(cmd);
      if r.Fail? {
        h := Handshake(r, 0, 0);
        assert AckEvents(h) == [];
        return;
      }
      r, h := AwaitAck(timeout);
      AppendAssoc(t, [Wrote(CommandFrame(cmd))], AckEvents(h));
    }

    /** The rest of `sendCommandCheckAck` once the write went through: wait,
        then the ACK phase. */
    method AwaitAck(timeout: nat) returns (r: Outcome<LinkError>, ghost h: Handshake)
      requires Valid()
      requires timeout == 0 ==> Live(bus.ready, rdy[0])
      modifies rxBuffer, ackbuff, rdy, bus
      ensures AckFollows(h, old(bus.ready), old(rdy[0]), old(rxBuffer[..]), old(bus.replies), timeout)
      ensures r == h.outcome
      ensures bus.writeResults == old(bus.writeResults)
      ensures bus.ready == Remaining(Remaining(old(bus.ready), h.polls1), h.polls2)
      ensures rdy[0] == StatusAfter(Remaining(old(bus.ready), h.polls1),
                                    StatusAfter(old(bus.ready), old(rdy[0]), h.polls1), h.polls2)
      ensures AckRead(h) ==>
        && rxBuffer[..] == Received(old(rxBuffer[..]), Head(old(bus.replies)), 7)
        && ackbuff[..] == AckBytes(old(rxBuffer[..]), old(bus.replies))
        && bus.replies == Tail(old(bus.replies))
      ensures !AckRead(h) ==>
        rxBuffer[..] == old(rxBuffer[..]) && ackbuff[..] == old(ackbuff[..]) && bus.replies == old(bus.replies)
      ensures timeout == 0 ==> Live(bus.ready, rdy[0])
      ensures bus.trace == old(bus.trace) + AckEvents(h)
    {
      ghost var q, s, t := bus.ready, rdy[0], bus.trace;
      if timeout == 0 {
        LiveWait(q, s, timeout);
      }
      var ok;
      ghost var p1;
      ok, p1 := WaitReady(timeout);
      if !ok {
        r, h := Fail(WaitReadyFailed), Handshake(Fail(WaitReadyFailed), p1, 0);
        assert AckEvents(h) == PollEvents(p1);
        return;
      }
      r, h := CheckAckAndWait(p1, timeout);
      AppendAssoc(t, PollEvents(p1), AckPhaseEvents(h));
    }

    /** The ACK phase of `sendCommandCheckAck`, after a first wait of polls1
        probes: pause, read and check the ACK, pause, wait again. */
    method CheckAckAndWait(ghost polls1: nat, timeout: nat) returns (r: Outcome<LinkError>, ghost h: Handshake)
      requires Valid()
      requires timeout == 0 ==> Live(bus.ready, rdy[0])
      modifies rxBuffer, ackbuff, rdy, bus
      ensures AckPhaseFollows(h, polls1, old(bus.ready), old(rdy[0]), old(rxBuffer[..]), old(bus.replies), timeout)
      ensures r == h.outcome && AckRead(h) && h.polls1 == polls1
      ensures bus.writeResults == old(bus.writeResults)
      ensures bus.ready == Remaining(old(bus.ready), h.polls2)
      ensures rdy[0] == StatusAfter(old(bus.ready), old(rdy[0]), h.polls2)
      ensures rxBuffer[..] == Received(old(rxBuffer[..]), Head(old(bus.replies)), 7)
      ensures ackbuff[..] == AckBytes(old(rxBuffer[..]), old(bus.replies))
      ensures bus.replies == Tail(old(bus.replies))
      ensures timeout == 0 ==> Live(bus.ready, rdy[0])
      ensures bus.trace == old(bus.trace) + AckPhaseEvents(h)
    {
      ghost var t := bus.trace;
      bus.Sleep(I2C_TUNING);
      var ok := IsAck();
      if !ok {
        r, h := Fail(ReadAckFailed), Handshake(Fail(ReadAckFailed), polls1, 0);
        return;
      }
      bus.Sleep(I2C_TUNING);
      ghost var e := [Slept(I2C_TUNING), ReadBytes(7), Slept(I2C_TUNING)];
      assert bus.trace == t + e;
      if timeout == 0 {
        LiveWait(bus.ready, rdy[0], timeout);
      }
      ghost var p2;
      ok, p2 := WaitReady(timeout);
      r := if ok then Pass else Fail(SecondWaitReadyFailed);
      h := Handshake(r, polls1, p2);
      AppendAssoc(t, e, PollEvents(p2));
    }

    /** The sending half of every exchange: the command goes to the front of
        the shared buffer, as the callers of `sendCommandCheckAck` put it there,
        and `sendCommandCheckAck` sends it. */
    method Command(cmd: seq<byte>, timeout: nat) returns (link: Outcome<LinkError>, ghost h: Handshake)
      requires Valid() && |cmd| <= MAX_COMMAND
      requires timeout == 0 ==> Live(bus.ready, rdy[0])
      modifies buffer, txBuffer, rxBuffer, ackbuff, rdy, bus
      ensures HandshakeFollows(h, Accepted(old(bus.writeResults)), old(bus.ready), old(rdy[0]),
                               old(rxBuffer[..]), old(bus.replies), timeout)
      ensures link == h.outcome
      ensures buffer[..] == cmd + old(buffer[|cmd|..])
      ensures txBuffer[..|cmd| + 8] == CommandFrame(cmd) && txBuffer[|cmd| + 8..] == old(txBuffer[|cmd| + 8..])
      ensures Chan() == AfterHandshake(old(Chan()), h)
      ensures timeout == 0 ==> Live(bus.ready, rdy[0])
      ensures bus.trace == old(bus.trace) + HandshakeEvents(CommandFrame(cmd), h)
    {
      PutCommand(cmd);
      link, h := SendCommandCheckAck(cmd, timeout);
    }

    /** An exchange that reads its answer into the shared buffer: the command,
        then, once the handshake passed, `readdata` of n bytes. */
    method Exchange(cmd: seq<byte>, n: nat, timeout: nat) returns (link: Outcome<LinkError>, ghost h: Handshake)
      requires Valid() && |cmd| <= MAX_COMMAND && |cmd| <= n < BUFFSIZE
      requires timeout == 0 ==> Live(bus.ready, rdy[0])
      modifies buffer, txBuffer, rxBuffer, ackbuff, rdy, bus
      ensures HandshakeFollows(h, Accepted(old(bus.writeResults)), old(bus.ready), old(rdy[0]),
                               old(rxBuffer[..]), old(bus.replies), timeout)
      ensures link == h.outcome
      ensures buffer[..] == ExchangeBuffer(old(buffer[..]), old(Chan()), cmd, h, n)
      ensures txBuffer[..|cmd| + 8] == CommandFrame(cmd) && txBuffer[|cmd| + 8..] == old(txBuffer[|cmd| + 8..])
      ensures Chan() == Exchanged(old(Chan()), h, n)
      ensures bus.trace == old(bus.trace) + HandshakeEvents(CommandFrame(cmd), h)
                           + (if h.outcome.Pass? then [ReadBytes(n + 1)] else [])
    {
      ghost var c, b := Chan(), buffer[..];
      link, h := Command(cmd, timeout);
      if link.Fail? {
        return;
      }
      ReadResponse(n);
      ResponseOfChannel(c, h, n);
      PrefixWritten(cmd, b, n);
    }

    /** `samconfig`: sends SAMConfiguration (normal mode, 1 s timeout, IRQ pin
        used) and checks the response code among the nine bytes read back. */
    method SamConfig() returns (r: Outcome<Error>, ghost h: Handshake)
      requires Valid()
      modifies buffer, txBuffer, rxBuffer, ackbuff, rdy, bus
      ensures HandshakeFollows(h, Accepted(old(bus.writeResults)), old(bus.ready), old(rdy[0]),
                               old(rxBuffer[..]), old(bus.replies), TIMEOUT)
      ensures r == if h.outcome.Fail? then Fail(Link(h.outcome.error))
                   else SamResult(Response(old(rxBuffer[..]), old(bus.replies), 9))
      ensures buffer[..] == ExchangeBuffer(old(buffer[..]), old(Chan()), SAM_CONFIGURATION, h, 9)
      ensures txBuffer[..12] == CommandFrame(SAM_CONFIGURATION) && txBuffer[12..] == old(txBuffer[12..])
      ensures Chan() == Exchanged(old(Chan()), h, 9)
      ensures bus.trace == old(bus.trace) + HandshakeEvents(CommandFrame(SAM_CONFIGURATION), h)
                           + (if h.outcome.Pass? then [ReadBytes(10)] else [])
    {
      ghost var rx, replies := rxBuffer[..], bus.replies;
      var link;
      link, h := Exchange(SAM_CONFIGURATION, 9, TIMEOUT);
      if link.Fail? {
        r := Fail(Link(link.error));
        return;
      }
      assert buffer[6] == Response(rx, replies, 9)[6];
      r := if buffer[6] != SAM_RESPONSE then Fail(UnexpectedSamResponse) else Pass;
    }

    /** `Configure`: lets the chip settle for 10 ms, then wakes it with SAMConfiguration. */
    method Configure() returns (r: Outcome<Error>, ghost h: Handshake)
      requires Valid()
      modifies buffer, txBuffer, rxBuffer, ackbuff, rdy, bus
      ensures HandshakeFollows(h, Accepted(old(bus.writeResults)), old(bus.ready), old(rdy[0]),
                               old(rxBuffer[..]), old(bus.replies), TIMEOUT)
      ensures r == if h.outcome.Fail? then Fail(Link(h.outcome.error))
                   else SamResult(Response(old(rxBuffer[..]), old(bus.replies), 9))
      ensures buffer[..] == ExchangeBuffer(old(buffer[..]), old(Chan()), SAM_CONFIGURATION, h, 9)
      ensures txBuffer[..12] == CommandFrame(SAM_CONFIGURATION) && txBuffer[12..] == old(txBuffer[12..])
      ensures Chan() == Exchanged(old(Chan()), h, 9)
      ensures bus.trace == old(bus.trace) + [Slept(10)]
                           + HandshakeEvents(CommandFrame(SAM_CONFIGURATION), h)
                           + (if h.outcome.Pass? then [ReadBytes(10)] else [])
    {
      ghost var t := bus.trace;
      bus.Sleep(10);
      r, h := SamConfig();
      ghost var e := HandshakeEvents(CommandFrame(SAM_CONFIGURATION), h);
      AppendAssoc(t + [Slept(10)], e, if h.outcome.Pass? then [ReadBytes(10)] else []);
    }

    /** `FirmwareVersion`: sends GetFirmwareVersion, checks the frame header of
        the thirteen bytes read back and unpacks the four version bytes. */
    method FirmwareVersion() returns (r: Result<Firmware, Error>, ghost h: Handshake)
      requires Valid()
      modifies buffer, txBuffer, rxBuffer, ackbuff, rdy, bus
      ensures HandshakeFollows(h, Accepted(old(bus.writeResults)), old(bus.ready), old(rdy[0]),
                               old(rxBuffer[..]), old(bus.replies), TIMEOUT)
      ensures r == if h.outcome.Fail? then Err(Link(h.outcome.error))
                   else DecodeFirmware(Response(old(rxBuffer[..]), old(bus.replies), 13))
      ensures buffer[..] == ExchangeBuffer(old(buffer[..]), old(Chan()), [COMMAND_GETFIRMWAREVERSION], h, 13)
      ensures txBuffer[..9] == CommandFrame([COMMAND_GETFIRMWAREVERSION]) && txBuffer[9..] == old(txBuffer[9..])
      ensures Chan() == Exchanged(old(Chan()), h, 13)
      ensures bus.trace == old(bus.trace) + HandshakeEvents(CommandFrame([COMMAND_GETFIRMWAREVERSION]), h)
                           + (if h.outcome.Pass? then [ReadBytes(14)] else [])
    {
      var link;
      link, h := Exchange([COMMAND_GETFIRMWAREVERSION], 13, TIMEOUT);
      if link.Fail? {
        r := Err(Link(link.error));
        return;
      }
      r := DecodeVersion(buffer);
    }

    /** The decoding half of `FirmwareVersion`: checks the frame header, then
        splits the accumulated 32-bit value into its four bytes. */
    static method DecodeVersion(buf: array<byte>) returns (r: Result<Firmware, Error>)
      requires buf.Length >= 13
      ensures r == DecodeFirmware(buf[..13])
    {
      if buf[..|FIRMWARE_PREFIX|] != FIRMWARE_PREFIX {
        r := Err(InvalidFirmwareResponse);
        return;
      }
      var response := Accumulate(buf);
      r := Ok(Firmware((response / 0x100_0000) % 0x100, (response / 0x1_0000) % 0x100,
                       (response / 0x100) % 0x100, response % 0x100));
    }

    /** The loop of `FirmwareVersion`: shifts bytes 7 to 10 into a 32-bit
        accumulator, most significant first; equal to the big-endian value of
        those bytes. */
    static method Accumulate(buf: array<byte>) returns (response: nat)
      requires buf.Length >= 11
      ensures response == BigEndian(buf[7..11])
      ensures (response / 0x100_0000) % 0x100 == buf[7] && (response / 0x1_0000) % 0x100 == buf[8]
      ensures (response / 0x100) % 0x100 == buf[9] && response % 0x100 == buf[10]
    {
      response := 0;
      for i := 7 to 11
        invariant response == BigEndian(buf[7..i]) % UINT32
      {
        ShiftInBigEndian(buf[7..i], buf[i]);
        assert buf[7..i + 1] == buf[7..i] + [buf[i]];
        response := ShiftIn(response, buf[i]);
      }
      BigEndianFits32(buf[7..11]);
      BigEndianBytes4(buf[7..11]);
    }

    /** `ReadPassiveTargetID`: sends InListPassiveTarget for at most one target at
        the given baud rate, then reads the answer. */
    method ReadPassiveTargetID(cardBaudRate: byte, timeout: nat) returns (r: Result<nat, Error>, ghost h: Handshake)
      requires Valid()
      requires timeout == 0 ==> Live(bus.ready, rdy[0])
      modifies buffer, txBuffer, rxBuffer, ackbuff, rdy, bus
      ensures HandshakeFollows(h, Accepted(old(bus.writeResults)), old(bus.ready), old(rdy[0]),
                               old(rxBuffer[..]), old(bus.replies), timeout)
      ensures buffer[..] == ExchangeBuffer(old(buffer[..]), old(Chan()),
                                           [COMMAND_INLISTPASSIVETARGET, 1, cardBaudRate], h, 20)
      ensures r == if h.outcome.Fail? then Err(ListTargetFailed(h.outcome.error)) else TargetResult(buffer[..])
      ensures txBuffer[..11] == CommandFrame([COMMAND_INLISTPASSIVETARGET, 1, cardBaudRate])
      ensures txBuffer[11..] == old(txBuffer[11..])
      ensures Chan() == Exchanged(old(Chan()), h, 20)
      ensures timeout == 0 ==> Live(bus.ready, rdy[0])
      ensures bus.trace == old(bus.trace)
                           + HandshakeEvents(CommandFrame([COMMAND_INLISTPASSIVETARGET, 1, cardBaudRate]), h)
                           + (if h.outcome.Pass? then [ReadBytes(21)] else [])
    {
      ghost var c, b := Chan(), buffer[..];
      var link;
      link, h := Command([COMMAND_INLISTPASSIVETARGET, 1, cardBaudRate], timeout);
      if link.Fail? {
        r := Err(ListTargetFailed(link.error));
        return;
      }
      r := ReadDetectedPassiveTargetID();
      ResponseOfChannel(c, h, 20);
      PrefixWritten([COMMAND_INLISTPASSIVETARGET, 1, cardBaudRate], b, 20);
    }

    /** `ReadDetectedPassiveTargetID`: reads twenty bytes of an InListPassiveTarget
        answer into the shared buffer and finds the UID in it. The UID is
        `buffer[13..13 + n]` for the length n returned; bytes from offset 20 on
        are what the buffer held before. */
    method ReadDetectedPassiveTargetID() returns (r: Result<nat, Error>)
      requires Valid()
      modifies buffer, rxBuffer, bus
      ensures Chan() == AfterRead(old(Chan()), 20)
      ensures buffer[..] == Chan().rx[1..21] + old(buffer[20..])
      ensures r == TargetResult(buffer[..])
      ensures bus.trace == old(bus.trace) + [ReadBytes(21)]
    {
      ReadResponse(20);
      if buffer[7] != 1 {
        r := Err(InvalidCardCount);
        return;
      }
      var nfcIdLength := buffer[12];
      if UID_OFFSET + nfcIdLength > BUFFSIZE {
        r := Err(UidOutOfBounds);
        return;
      }
      r := Ok(nfcIdLength);
    }
  }
}
